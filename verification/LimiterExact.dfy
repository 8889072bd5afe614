/** Exactly which calls the per-client limiter of gawk-server/oidcauth/limiter.go lets through, and whom it forgets. */
module LimiterExact {
  import opened Limiter

  predicate CallBy(e: Event, ip: string) {
    e.Allow? && e.ip == ip
  }

  /** The client's calls among events[k..n] that passed. */
  function Passed(events: seq<Event>, answers: seq<bool>, ip: string, k: nat, n: nat): nat
    requires n <= |events| == |answers|
    decreases n
  {
    if n <= k then 0
    else Passed(events, answers, ip, k, n - 1) + (if CallBy(events[n - 1], ip) && answers[n - 1] then 1 else 0)
  }

  /** What the rate leaves at time `at` of a stretch that begins with the k-th call. */
  function Room(c: Config, events: seq<Event>, answers: seq<bool>, ip: string, k: nat, n: nat, at: real): real
    requires k < n <= |events| == |answers|
  {
    c.burst as real + Gain(c, events[k].at, at) - Passed(events, answers, ip, k, n) as real
  }

  /** A client's bucket holds what its tightest stretch leaves. */
  ghost predicate Tight(c: Config, events: seq<Event>, answers: seq<bool>, ip: string, n: nat, b: Bucket)
    requires n <= |events| == |answers|
  {
    && b.tokens <= c.burst as real
    && (forall k: nat | k < n && CallBy(events[k], ip) :: b.tokens <= Room(c, events, answers, ip, k, n, b.last))
    && exists k: nat :: k < n && CallBy(events[k], ip) && b.tokens == Room(c, events, answers, ip, k, n, b.last)
  }

  ghost predicate Known(c: Config, events: seq<Event>, answers: seq<bool>, ip: string, n: nat, table: Table)
    requires n <= |events| == |answers|
  {
    if ip in table then Tight(c, events, answers, ip, n, table[ip])
    else forall k: nat | k < n :: !CallBy(events[k], ip)
  }

  /** The limiter that forgets nothing, after the first n events. */
  function Ideal(c: Config, events: seq<Event>, n: nat): Table
    requires n <= |events|
  {
    if n == 0 then map[] else IdealAfter(c, Ideal(c, events, n - 1), events[n - 1])
  }

  /** What it answers the calls. */
  ghost predicate Answered(c: Config, events: seq<Event>, answers: seq<bool>) {
    |answers| == |events| &&
    forall i | 0 <= i < |events| && events[i].Allow? :: answers[i] == Decide(c, Ideal(c, events, i), events[i].ip, events[i].at).1
  }

  lemma GainChains(c: Config, a: real, b: real, d: real)
    ensures Gain(c, a, d) == Gain(c, a, b) + Gain(c, b, d) && Gain(c, a, a) == 0.0
  {}

  lemma RoomMoves(c: Config, events: seq<Event>, answers: seq<bool>, ip: string, k: nat, n: nat, last: real, at: real)
    requires k < n < |events| == |answers|
    ensures Room(c, events, answers, ip, k, n + 1, at) ==
            Room(c, events, answers, ip, k, n, last) + Gain(c, last, at) -
            (if CallBy(events[n], ip) && answers[n] then 1.0 else 0.0)
  {
    GainChains(c, events[k].at, last, at);
  }

  /** The stretch that begins with this very call. */
  lemma RoomOfLast(c: Config, events: seq<Event>, answers: seq<bool>, ip: string, n: nat)
    requires n < |events| == |answers|
    ensures Room(c, events, answers, ip, n, n + 1, events[n].at) ==
            c.burst as real - (if CallBy(events[n], ip) && answers[n] then 1.0 else 0.0)
  {
    GainChains(c, events[n].at, events[n].at, events[n].at);
    assert Passed(events, answers, ip, n, n) == 0;
  }

  /** What a call finds in a bucket. */
  lemma Finds(c: Config, b: Bucket, at: real)
    requires c.Valid() && SaneBucket(c, b, at)
    ensures var grown := b.tokens + Gain(c, b.last, at);
            var found := if grown > c.burst as real then c.burst as real else grown;
            var (next, ok) := Spend(c, b, at);
            next.last == at && next.tokens == found - (if ok then 1.0 else 0.0) && (ok <==> found >= 1.0)
  {
    RefilledIs(c, b, at);
  }

  lemma FirstCallTight(c: Config, events: seq<Event>, answers: seq<bool>, ip: string, n: nat)
    requires c.Valid() && n < |events| == |answers| && CallBy(events[n], ip)
    requires forall k: nat | k < n :: !CallBy(events[k], ip)
    requires answers[n] == Spend(c, Full(c, events[n].at), events[n].at).1
    ensures Tight(c, events, answers, ip, n + 1, Spend(c, Full(c, events[n].at), events[n].at).0)
  {
    RoomOfLast(c, events, answers, ip, n);
    assert CallBy(events[n], ip);
  }

  lemma NextCallBelow(c: Config, events: seq<Event>, answers: seq<bool>, ip: string, n: nat, b: Bucket, k: nat)
    requires c.Valid() && n < |events| == |answers| && CallBy(events[n], ip) && k <= n && CallBy(events[k], ip)
    requires Tight(c, events, answers, ip, n, b) && SaneBucket(c, b, events[n].at)
    requires answers[n] == Spend(c, b, events[n].at).1
    ensures Spend(c, b, events[n].at).0.tokens <= Room(c, events, answers, ip, k, n + 1, events[n].at)
  {
    Finds(c, b, events[n].at);
    if k < n {
      RoomMoves(c, events, answers, ip, k, n, b.last, events[n].at);
    } else {
      RoomOfLast(c, events, answers, ip, n);
    }
  }

  lemma NextCallMeets(c: Config, events: seq<Event>, answers: seq<bool>, ip: string, n: nat, b: Bucket) returns (k: nat)
    requires c.Valid() && n < |events| == |answers| && CallBy(events[n], ip)
    requires Tight(c, events, answers, ip, n, b) && SaneBucket(c, b, events[n].at)
    requires answers[n] == Spend(c, b, events[n].at).1
    ensures k <= n && CallBy(events[k], ip)
    ensures Spend(c, b, events[n].at).0.tokens == Room(c, events, answers, ip, k, n + 1, events[n].at)
  {
    Finds(c, b, events[n].at);
    if b.tokens + Gain(c, b.last, events[n].at) >= c.burst as real {
      k := n;
      RoomOfLast(c, events, answers, ip, n);
    } else {
      k :| k < n && CallBy(events[k], ip) && b.tokens == Room(c, events, answers, ip, k, n, b.last);
      RoomMoves(c, events, answers, ip, k, n, b.last, events[n].at);
    }
  }

  lemma NextCallTight(c: Config, events: seq<Event>, answers: seq<bool>, ip: string, n: nat, b: Bucket)
    requires c.Valid() && n < |events| == |answers| && CallBy(events[n], ip)
    requires Tight(c, events, answers, ip, n, b) && SaneBucket(c, b, events[n].at)
    requires answers[n] == Spend(c, b, events[n].at).1
    ensures Tight(c, events, answers, ip, n + 1, Spend(c, b, events[n].at).0)
  {
    Finds(c, b, events[n].at);
    forall k: nat | k < n + 1 && CallBy(events[k], ip)
      ensures Spend(c, b, events[n].at).0.tokens <= Room(c, events, answers, ip, k, n + 1, events[n].at)
    {
      NextCallBelow(c, events, answers, ip, n, b, k);
    }
    var k := NextCallMeets(c, events, answers, ip, n, b);
  }

  lemma OthersStayTight(c: Config, events: seq<Event>, answers: seq<bool>, ip: string, n: nat, b: Bucket)
    requires n < |events| == |answers| && !CallBy(events[n], ip) && Tight(c, events, answers, ip, n, b)
    ensures Tight(c, events, answers, ip, n + 1, b)
  {
    GainChains(c, b.last, b.last, b.last);
    forall k: nat | k < n ensures Room(c, events, answers, ip, k, n + 1, b.last) == Room(c, events, answers, ip, k, n, b.last) {
      RoomMoves(c, events, answers, ip, k, n, b.last, b.last);
    }
    var k: nat :| k < n && CallBy(events[k], ip) && b.tokens == Room(c, events, answers, ip, k, n, b.last);
    assert b.tokens == Room(c, events, answers, ip, k, n + 1, b.last);
  }

  predicate InOrder(events: seq<Event>) {
    forall i, j | 0 <= i < j < |events| :: events[i].at <= events[j].at
  }

  lemma {:induction false} AlwaysKnown(c: Config, events: seq<Event>, answers: seq<bool>, ip: string, n: nat, at: real)
    requires c.Valid() && n <= |events| && InOrder(events) && Answered(c, events, answers)
    requires n > 0 ==> events[n - 1].at <= at
    ensures Known(c, events, answers, ip, n, Ideal(c, events, n)) && Sane(c, Ideal(c, events, n), at)
  {
    if n > 0 {
      AlwaysKnown(c, events, answers, ip, n - 1, events[n - 1].at);
      KnownStays(c, events, answers, ip, n - 1, Ideal(c, events, n - 1));
      BudgetGrows(c, Ideal(c, events, n), ip, events[n - 1].at, at);
    }
  }

  lemma KnownStays(c: Config, events: seq<Event>, answers: seq<bool>, ip: string, n: nat, table: Table)
    requires c.Valid() && n < |events| && Answered(c, events, answers) && table == Ideal(c, events, n)
    requires Known(c, events, answers, ip, n, table) && Sane(c, table, events[n].at)
    ensures Known(c, events, answers, ip, n + 1, Ideal(c, events, n + 1)) && Sane(c, Ideal(c, events, n + 1), events[n].at)
  {
    var e := events[n];
    if e.Allow? {
      SpendStaysSane(c, BucketOf(c, table, e.ip, e.at), e.at);
      if e.ip == ip && ip in table {
        NextCallTight(c, events, answers, ip, n, table[ip]);
      } else if e.ip == ip {
        FirstCallTight(c, events, answers, ip, n);
      }
    }
    if !CallBy(e, ip) && ip in table {
      OthersStayTight(c, events, answers, ip, n, table[ip]);
    }
  }

  /** With one more pass the stretch from the k-th call to time `at` would be over its rate. */
  predicate WouldBreak(c: Config, events: seq<Event>, answers: seq<bool>, ip: string, k: nat, n: nat)
    requires k < n < |events| == |answers|
  {
    (Passed(events, answers, ip, k, n) + 1) as real > c.burst as real + (events[n].at - events[k].at) * c.rate
  }

  lemma BreaksIff(c: Config, events: seq<Event>, answers: seq<bool>, ip: string, k: nat, n: nat, last: real)
    requires k < n < |events| == |answers|
    ensures WouldBreak(c, events, answers, ip, k, n) <==>
            Room(c, events, answers, ip, k, n, last) + Gain(c, last, events[n].at) < 1.0
  {
    GainChains(c, events[k].at, last, events[n].at);
  }

  lemma RefusedIsBroken(c: Config, events: seq<Event>, answers: seq<bool>, ip: string, n: nat, b: Bucket) returns (k: nat)
    requires c.Valid() && c.burst >= 1 && n < |events| == |answers| && SaneBucket(c, b, events[n].at)
    requires Tight(c, events, answers, ip, n, b) && !Spend(c, b, events[n].at).1
    ensures k < n && CallBy(events[k], ip) && WouldBreak(c, events, answers, ip, k, n)
  {
    Finds(c, b, events[n].at);
    k :| k < n && CallBy(events[k], ip) && b.tokens == Room(c, events, answers, ip, k, n, b.last);
    BreaksIff(c, events, answers, ip, k, n, b.last);
  }

  lemma BrokenIsRefused(c: Config, events: seq<Event>, answers: seq<bool>, ip: string, n: nat, b: Bucket, k: nat)
    requires c.Valid() && n < |events| == |answers| && SaneBucket(c, b, events[n].at)
    requires Tight(c, events, answers, ip, n, b) && k < n && CallBy(events[k], ip) && WouldBreak(c, events, answers, ip, k, n)
    ensures !Spend(c, b, events[n].at).1
  {
    Finds(c, b, events[n].at);
    BreaksIff(c, events, answers, ip, k, n, b.last);
  }

  lemma IdealRefusesIff(c: Config, events: seq<Event>, answers: seq<bool>, n: nat, ip: string)
    requires c.Valid() && InOrder(events) && Answered(c, events, answers) && n < |events| && CallBy(events[n], ip)
    ensures !answers[n] <==>
            c.burst == 0 || exists k: nat :: k < n && CallBy(events[k], ip) && WouldBreak(c, events, answers, ip, k, n)
  {
    var table := Ideal(c, events, n);
    AlwaysKnown(c, events, answers, ip, n, events[n].at);
    if c.burst == 0 {
      Finds(c, BucketOf(c, table, ip, events[n].at), events[n].at);
    } else if ip in table {
      if !answers[n] {
        var k := RefusedIsBroken(c, events, answers, ip, n, table[ip]);
      } else {
        forall k: nat | k < n && CallBy(events[k], ip) ensures !WouldBreak(c, events, answers, ip, k, n) {
          if WouldBreak(c, events, answers, ip, k, n) {
            BrokenIsRefused(c, events, answers, ip, n, table[ip], k);
          }
        }
      }
    } else {
      Finds(c, Full(c, events[n].at), events[n].at);
    }
  }

  lemma IdealFrom(c: Config, events: seq<Event>, n: nat)
    requires n < |events|
    ensures IdealAnswers(c, Ideal(c, events, n), events[n..]) ==
            [events[n].Allow? && Decide(c, Ideal(c, events, n), events[n].ip, events[n].at).1] +
            IdealAnswers(c, Ideal(c, events, n + 1), events[n + 1..])
  {
    assert events[n..][1..] == events[n + 1..];
  }

  lemma {:induction false} IdealAnswered(c: Config, events: seq<Event>, answers: seq<bool>, n: nat)
    requires n <= |events| == |answers| && answers[n..] == IdealAnswers(c, Ideal(c, events, n), events[n..])
    ensures forall i | n <= i < |events| && events[i].Allow? ::
              answers[i] == Decide(c, Ideal(c, events, i), events[i].ip, events[i].at).1
    decreases |events| - n
  {
    if n < |events| {
      IdealFrom(c, events, n);
      assert answers[n] == answers[n..][0] && answers[n + 1..] == answers[n..][1..];
      IdealAnswered(c, events, answers, n + 1);
    }
  }

  lemma {:induction false} OrderIsMonotone(events: seq<Event>, from: real)
    requires InOrder(events) && (events != [] ==> from <= events[0].at)
    ensures Monotone(events, from)
  {
    if events != [] {
      OrderIsMonotone(events[1..], events[0].at);
    }
  }

  /**
   * In any run, swept or not, a call is refused exactly when letting it through would break the rate: when for some
   * earlier call of that client, its passes since then and this one are more than burst plus the rate times the time.
   */
  lemma RefusedIff(c: Config, events: seq<Event>, n: nat, ip: string)
    requires c.Valid() && InOrder(events) && n < |events| && CallBy(events[n], ip)
    ensures var answers := Answers(c, map[], events);
            !answers[n] <==>
            c.burst == 0 || exists k: nat :: k < n && CallBy(events[k], ip) && WouldBreak(c, events, answers, ip, k, n)
  {
    var answers, from := Answers(c, map[], events), events[0].at;
    OrderIsMonotone(events, from);
    SweepsChangeNothing(c, events, from);
    assert answers[0..] == answers && events[0..] == events;
    IdealAnswered(c, events, answers, 0);
    IdealRefusesIff(c, events, answers, n, ip);
  }

  /** A decision forgets a client exactly when a new one finds 10000 others, and this one is full again and ten minutes idle. */
  lemma ForgottenIff(c: Config, table: Table, ip: string, now: real, other: string)
    requires other in table && other != ip
    ensures var after, b := AllowStep(c, table, ip, now).0, table[other];
            (other !in after <==>
               ip !in table && |table| >= 10000 && b.tokens + (now - b.last) * c.rate >= c.burst as real && now - b.last > 600.0) &&
            (other in after ==> after[other] == b)
  {}
}
