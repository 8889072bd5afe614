/** The per-client token buckets of gawk-server/oidcauth/limiter.go, against a limiter that never forgets a client. */
module Limiter {

  const MAX_TRACKED := 10000
  /** Ten minutes, in seconds. */
  const IDLE_TTL := 600.0

  datatype Config = Config(rate: real, burst: nat) {
    predicate Valid() {
      rate >= 0.0
    }
  }

  datatype Bucket = Bucket(tokens: real, last: real)

  type Table = map<string, Bucket>

  function Full(c: Config, now: real): Bucket {
    Bucket(c.burst as real, now)
  }

  function Refilled(c: Config, b: Bucket, now: real): real {
    var elapsed := now - b.last;
    if elapsed > 0.0 then
      var tokens := b.tokens + elapsed * c.rate;
      if tokens > c.burst as real then c.burst as real else tokens
    else b.tokens
  }

  function Spend(c: Config, b: Bucket, now: real): (Bucket, bool) {
    var tokens := Refilled(c, b, now);
    if tokens >= 1.0 then (Bucket(tokens - 1.0, now), true) else (Bucket(tokens, now), false)
  }

  predicate Stale(c: Config, b: Bucket, now: real) {
    b.tokens + (now - b.last) * c.rate >= c.burst as real && now - b.last > IDLE_TTL
  }

  function Swept(c: Config, table: Table, now: real): Table {
    map ip | ip in table && !Stale(c, table[ip], now) :: table[ip]
  }

  /** One decision of a limiter that forgets nothing. */
  function Decide(c: Config, table: Table, ip: string, now: real): (Table, bool) {
    var (b, ok) := Spend(c, if ip in table then table[ip] else Full(c, now), now);
    (table[ip := b], ok)
  }

  /** One decision of this one, which sweeps when a new client finds the table full. */
  function AllowStep(c: Config, table: Table, ip: string, now: real): (Table, bool) {
    Decide(c, if ip !in table && |table| >= MAX_TRACKED then Swept(c, table, now) else table, ip, now)
  }

  class IpLimiter {
    const c: Config
    var buckets: Table

    constructor (c: Config)
      ensures this.c == c && buckets == map[]
    {
      this.c := c;
      buckets := map[];
    }

    method SweepLocked(now: real)
      modifies this
      ensures buckets == Swept(c, old(buckets), now)
    {
      var left := buckets.Keys;
      while left != {}
        invariant left <= old(buckets).Keys
        invariant forall ip | ip in buckets :: ip in old(buckets) && buckets[ip] == old(buckets)[ip]
        invariant forall ip | ip in old(buckets) ::
                    ip in buckets <==> ip in left || !Stale(c, old(buckets)[ip], now)
        decreases |left|
      {
        var ip :| ip in left;
        var b := buckets[ip];
        var refilled := b.tokens + (now - b.last) * c.rate;
        if refilled >= c.burst as real && now - b.last > IDLE_TTL {
          buckets := buckets - {ip};
        }
        left := left - {ip};
      }
    }

    method Allow(ip: string, now: real) returns (ok: bool)
      modifies this
      ensures (buckets, ok) == AllowStep(c, old(buckets), ip, now)
    {
      var b := Full(c, now);
      ghost var table := buckets;
      if ip in buckets {
        b := buckets[ip];
      } else {
        if |buckets| >= MAX_TRACKED {
          SweepLocked(now);
        }
        table := buckets;
        buckets := buckets[ip := b];
      }
      var tokens := b.tokens;
      var elapsed := now - b.last;
      if elapsed > 0.0 {
        tokens := tokens + elapsed * c.rate;
        if tokens > c.burst as real {
          tokens := c.burst as real;
        }
      }
      assert tokens == Refilled(c, b, now);
      ok := tokens >= 1.0;
      if ok {
        tokens := tokens - 1.0;
      }
      buckets := buckets[ip := Bucket(tokens, now)];
      assert buckets == table[ip := Bucket(tokens, now)];
    }
  }

  // ----- runs -----

  datatype Event = Allow(ip: string, at: real) | Sweep(at: real)

  function After(c: Config, table: Table, e: Event): Table {
    match e
    case Allow(ip, at) => AllowStep(c, table, ip, at).0
    case Sweep(at) => Swept(c, table, at)
  }

  function Answers(c: Config, table: Table, events: seq<Event>): (r: seq<bool>)
    ensures |r| == |events|
    decreases |events|
  {
    if events == [] then []
    else [events[0].Allow? && AllowStep(c, table, events[0].ip, events[0].at).1] + Answers(c, After(c, table, events[0]), events[1..])
  }

  function IdealAfter(c: Config, table: Table, e: Event): Table {
    if e.Allow? then Decide(c, table, e.ip, e.at).0 else table
  }

  /** The same calls put to the limiter that forgets nothing. */
  function IdealAnswers(c: Config, table: Table, events: seq<Event>): (r: seq<bool>)
    ensures |r| == |events|
    decreases |events|
  {
    if events == [] then []
    else [events[0].Allow? && Decide(c, table, events[0].ip, events[0].at).1] + IdealAnswers(c, IdealAfter(c, table, events[0]), events[1..])
  }

  /** The clock never steps back, starting at from. */
  predicate Monotone(events: seq<Event>, from: real) {
    events == [] || (from <= events[0].at && Monotone(events[1..], events[0].at))
  }

  // ----- refilling -----

  function Gain(c: Config, from: real, to: real): real {
    (to - from) * c.rate
  }

  lemma GainAdds(c: Config, from: real, mid: real, to: real)
    requires c.Valid() && from <= mid <= to
    ensures Gain(c, from, to) == Gain(c, from, mid) + Gain(c, mid, to)
    ensures Gain(c, from, mid) >= 0.0 && Gain(c, mid, to) >= 0.0
  {}

  ghost predicate SaneBucket(c: Config, b: Bucket, now: real) {
    0.0 <= b.tokens <= c.burst as real && b.last <= now
  }

  lemma RefilledIs(c: Config, b: Bucket, now: real)
    requires c.Valid() && SaneBucket(c, b, now)
    ensures var t := b.tokens + Gain(c, b.last, now);
            Refilled(c, b, now) == if t > c.burst as real then c.burst as real else t
  {
    GainAdds(c, b.last, b.last, now);
    assert Gain(c, b.last, now) == (now - b.last) * c.rate;
    assert b.last == now ==> Gain(c, b.last, now) == 0.0;
  }

  // ----- forgetting is harmless -----

  /** What the table has dropped is full again by now. */
  ghost predicate Agrees(c: Config, table: Table, ideal: Table, now: real) {
    Sane(c, ideal, now) && (forall ip | ip in table :: ip in ideal && table[ip] == ideal[ip]) &&
    forall ip | ip in ideal && ip !in table :: ideal[ip].tokens + Gain(c, ideal[ip].last, now) >= c.burst as real
  }

  ghost predicate Sane(c: Config, table: Table, now: real) {
    forall ip | ip in table :: SaneBucket(c, table[ip], now)
  }

  lemma AgreesLater(c: Config, table: Table, ideal: Table, now: real, later: real)
    requires c.Valid() && Agrees(c, table, ideal, now) && now <= later
    ensures Agrees(c, table, ideal, later)
  {
    forall ip | ip in ideal && ip !in table ensures ideal[ip].tokens + Gain(c, ideal[ip].last, later) >= c.burst as real {
      GainAdds(c, ideal[ip].last, now, later);
    }
  }

  lemma SweepAgrees(c: Config, table: Table, ideal: Table, now: real)
    requires Agrees(c, table, ideal, now)
    ensures Agrees(c, Swept(c, table, now), ideal, now)
  {}

  /** A forgotten client gets the fresh bucket its old one had refilled to. */
  lemma ForgottenIsFull(c: Config, b: Bucket, now: real)
    requires c.Valid() && SaneBucket(c, b, now) && b.tokens + Gain(c, b.last, now) >= c.burst as real
    ensures Spend(c, b, now) == Spend(c, Full(c, now), now)
  {
    RefilledIs(c, b, now);
  }

  lemma SpendStaysSane(c: Config, b: Bucket, now: real)
    requires c.Valid() && SaneBucket(c, b, now)
    ensures SaneBucket(c, Spend(c, b, now).0, now)
  {
    RefilledIs(c, b, now);
    GainAdds(c, b.last, b.last, now);
  }

  function BucketOf(c: Config, table: Table, ip: string, now: real): Bucket {
    if ip in table then table[ip] else Full(c, now)
  }

  lemma DecideAgrees(c: Config, table: Table, ideal: Table, ip: string, now: real)
    requires c.Valid() && Agrees(c, table, ideal, now)
    ensures Decide(c, table, ip, now).1 == Decide(c, ideal, ip, now).1
    ensures Agrees(c, Decide(c, table, ip, now).0, Decide(c, ideal, ip, now).0, now)
  {
    if ip in ideal && ip !in table {
      ForgottenIsFull(c, ideal[ip], now);
    }
    SpendStaysSane(c, BucketOf(c, ideal, ip, now), now);
  }

  lemma StepAgrees(c: Config, table: Table, ideal: Table, e: Event)
    requires c.Valid() && Agrees(c, table, ideal, e.at)
    ensures Agrees(c, After(c, table, e), IdealAfter(c, ideal, e), e.at)
    ensures e.Allow? ==> AllowStep(c, table, e.ip, e.at).1 == Decide(c, ideal, e.ip, e.at).1
  {
    SweepAgrees(c, table, ideal, e.at);
    match e
    case Allow(ip, at) =>
      DecideAgrees(c, table, ideal, ip, at);
      DecideAgrees(c, Swept(c, table, at), ideal, ip, at);
    case Sweep(at) =>
  }

  lemma {:induction false} AnswersAgree(c: Config, table: Table, ideal: Table, events: seq<Event>, from: real)
    requires c.Valid() && Agrees(c, table, ideal, from) && Monotone(events, from)
    ensures Answers(c, table, events) == IdealAnswers(c, ideal, events)
    decreases |events|
  {
    if events != [] {
      var e := events[0];
      AgreesLater(c, table, ideal, from, e.at);
      StepAgrees(c, table, ideal, e);
      AnswersAgree(c, After(c, table, e), IdealAfter(c, ideal, e), events[1..], e.at);
    }
  }

  /** Sweeping, at whatever points, never changes a decision, as long as the clock does not step back. */
  lemma SweepsChangeNothing(c: Config, events: seq<Event>, from: real)
    requires c.Valid() && Monotone(events, from)
    ensures Answers(c, map[], events) == IdealAnswers(c, map[], events)
  {
    AnswersAgree(c, map[], map[], events, from);
  }

  // ----- how much gets through -----

  function Passes(events: seq<Event>, answers: seq<bool>, ip: string): nat
    requires |answers| == |events|
    decreases |events|
  {
    if events == [] then 0
    else (if events[0].Allow? && events[0].ip == ip && answers[0] then 1 else 0) + Passes(events[1..], answers[1..], ip)
  }

  function EndOf(events: seq<Event>, from: real): real {
    if events == [] then from else EndOf(events[1..], events[0].at)
  }

  /** The most a client could spend at that moment. */
  function Budget(c: Config, table: Table, ip: string, now: real): real {
    Refilled(c, BucketOf(c, table, ip, now), now)
  }

  lemma BudgetGrows(c: Config, table: Table, ip: string, now: real, later: real)
    requires c.Valid() && Sane(c, table, now) && now <= later
    ensures Sane(c, table, later)
    ensures 0.0 <= Budget(c, table, ip, later) <= c.burst as real
    ensures Budget(c, table, ip, later) <= Budget(c, table, ip, now) + Gain(c, now, later)
  {
    GainAdds(c, now, now, later);
    if ip in table {
      var b := table[ip];
      GainAdds(c, b.last, now, later);
      RefilledIs(c, b, now);
      RefilledIs(c, b, later);
    }
  }

  lemma DecideSpends(c: Config, table: Table, ip: string, other: string, now: real)
    requires c.Valid() && Sane(c, table, now)
    ensures var (t, ok) := Decide(c, table, other, now);
            Sane(c, t, now) && Budget(c, t, ip, now) + (if ip == other && ok then 1.0 else 0.0) == Budget(c, table, ip, now)
  {
    var b := BucketOf(c, table, other, now);
    SpendStaysSane(c, b, now);
    RefilledIs(c, Spend(c, b, now).0, now);
  }

  lemma {:induction false} SpendingIsBounded(c: Config, table: Table, events: seq<Event>, ip: string, from: real)
    requires c.Valid() && Sane(c, table, from) && Monotone(events, from)
    ensures Passes(events, IdealAnswers(c, table, events), ip) as real <= Budget(c, table, ip, from) + Gain(c, from, EndOf(events, from))
    decreases |events|
  {
    BudgetGrows(c, table, ip, from, from);
    if events == [] {
      GainAdds(c, from, from, from);
    } else {
      var e := events[0];
      var rest := IdealAfter(c, table, e);
      BudgetGrows(c, table, ip, from, e.at);
      if e.Allow? {
        DecideSpends(c, table, ip, e.ip, e.at);
      }
      SpendingIsBounded(c, rest, events[1..], ip, e.at);
      EndIsLater(events[1..], e.at);
      GainAdds(c, from, e.at, EndOf(events, from));
      assert IdealAnswers(c, table, events)[1..] == IdealAnswers(c, rest, events[1..]);
    }
  }

  lemma {:induction false} EndIsLater(events: seq<Event>, from: real)
    requires Monotone(events, from)
    ensures from <= EndOf(events, from)
  {
    if events != [] {
      EndIsLater(events[1..], events[0].at);
    }
  }

  function IdealAfterAll(c: Config, table: Table, events: seq<Event>): Table
    decreases |events|
  {
    if events == [] then table else IdealAfterAll(c, IdealAfter(c, table, events[0]), events[1..])
  }

  lemma {:induction false} AnswersSplit(c: Config, table: Table, before: seq<Event>, during: seq<Event>)
    ensures IdealAnswers(c, table, before + during) ==
            IdealAnswers(c, table, before) + IdealAnswers(c, IdealAfterAll(c, table, before), during)
    decreases |before|
  {
    if before == [] {
      assert before + during == during;
    } else {
      AnswersSplit(c, IdealAfter(c, table, before[0]), before[1..], during);
      assert (before + during)[1..] == before[1..] + during;
    }
  }

  lemma {:induction false} SaneThroughout(c: Config, table: Table, before: seq<Event>, during: seq<Event>, from: real)
    requires c.Valid() && Sane(c, table, from) && Monotone(before + during, from)
    ensures Sane(c, IdealAfterAll(c, table, before), EndOf(before, from)) && Monotone(during, EndOf(before, from))
    decreases |before|
  {
    if before == [] {
      assert before + during == during;
    } else {
      var e := before[0];
      assert (before + during)[1..] == before[1..] + during;
      BudgetGrows(c, table, "", from, e.at);
      if e.Allow? {
        SpendStaysSane(c, BucketOf(c, table, e.ip, e.at), e.at);
      }
      SaneThroughout(c, IdealAfter(c, table, e), before[1..], during, e.at);
    }
  }

  /**
   * In any stretch of any run, swept or not, a client passes at most burst times plus rate times the time from the
   * stretch's first call to its last.
   */
  lemma PassesAreBounded(c: Config, before: seq<Event>, during: seq<Event>, ip: string, from: real)
    requires c.Valid() && Monotone(before + during, from) && during != []
    ensures Passes(during, Answers(c, map[], before + during)[|before|..], ip) as real <=
            c.burst as real + Gain(c, during[0].at, during[|during| - 1].at)
  {
    SweepsChangeNothing(c, before + during, from);
    AnswersSplit(c, map[], before, during);
    SaneThroughout(c, map[], before, during, from);
    var table := IdealAfterAll(c, map[], before);
    BudgetGrows(c, table, ip, EndOf(before, from), during[0].at);
    SpendingIsBounded(c, table, during, ip, during[0].at);
    EndIsLast(during, during[0].at);
    TailOf(IdealAnswers(c, map[], before), IdealAnswers(c, table, during));
  }

  lemma TailOf(a: seq<bool>, b: seq<bool>)
    ensures (a + b)[|a|..] == b
  {}

  lemma {:induction false} EndIsLast(events: seq<Event>, from: real)
    requires events != []
    ensures EndOf(events, from) == events[|events| - 1].at
  {
    if |events| > 1 {
      EndIsLast(events[1..], events[0].at);
    }
  }

  // ----- and how little is refused -----

  /** The client's calls are at least gap apart, the first of them at least gap after `last` if there was one. */
  ghost predicate Paced(events: seq<Event>, ip: string, gap: real, seen: bool, last: real)
    decreases |events|
  {
    if events == [] then true
    else if events[0].Allow? && events[0].ip == ip then
      (seen ==> events[0].at - last >= gap) && Paced(events[1..], ip, gap, true, events[0].at)
    else Paced(events[1..], ip, gap, seen, last)
  }

  /** Every call the client made was let through. */
  predicate AllPass(events: seq<Event>, answers: seq<bool>, ip: string)
    requires |answers| == |events|
  {
    forall i | 0 <= i < |events| && events[i].Allow? && events[i].ip == ip :: answers[i]
  }

  /** One token's worth of time later, a bucket that was not overdrawn has a token. */
  lemma OneGapIsEnough(c: Config, b: Bucket, gap: real, now: real)
    requires c.Valid() && c.burst >= 1 && SaneBucket(c, b, now) && gap * c.rate >= 1.0 && now - b.last >= gap
    ensures Spend(c, b, now).1
  {
    RefilledIs(c, b, now);
    GainAdds(c, b.last, b.last + gap, now);
    assert Gain(c, b.last, b.last + gap) == gap * c.rate;
    assert Gain(c, b.last, now) >= 1.0;
  }

  /** A client seen before was last seen at its bucket's time. */
  ghost predicate LastSeen(table: Table, ip: string, seen: bool, last: real) {
    if seen then ip in table && table[ip].last == last else ip !in table
  }

  lemma {:induction false} PacedPassFrom(c: Config, table: Table, events: seq<Event>, ip: string, gap: real, seen: bool,
                                    last: real, from: real)
    requires c.Valid() && c.burst >= 1 && gap * c.rate >= 1.0 && gap >= 0.0
    requires Sane(c, table, from) && Monotone(events, from) && LastSeen(table, ip, seen, last)
    requires Paced(events, ip, gap, seen, last)
    ensures AllPass(events, IdealAnswers(c, table, events), ip)
    decreases |events|
  {
    if events != [] {
      var e := events[0];
      var next := IdealAfter(c, table, e);
      BudgetGrows(c, table, "", from, e.at);
      if e.Allow? {
        SpendStaysSane(c, BucketOf(c, table, e.ip, e.at), e.at);
        if e.ip == ip {
          if seen {
            OneGapIsEnough(c, table[ip], gap, e.at);
          }
          PacedPassFrom(c, next, events[1..], ip, gap, true, e.at, e.at);
        } else {
          PacedPassFrom(c, next, events[1..], ip, gap, seen, last, e.at);
        }
      } else {
        PacedPassFrom(c, next, events[1..], ip, gap, seen, last, e.at);
      }
      FirstAndRest(c, table, events, ip);
    }
  }

  lemma FirstAndRest(c: Config, table: Table, events: seq<Event>, ip: string)
    requires events != []
    requires events[0].Allow? && events[0].ip == ip ==> Decide(c, table, ip, events[0].at).1
    requires AllPass(events[1..], IdealAnswers(c, IdealAfter(c, table, events[0]), events[1..]), ip)
    ensures AllPass(events, IdealAnswers(c, table, events), ip)
  {
    var answers := IdealAnswers(c, table, events);
    assert answers[1..] == IdealAnswers(c, IdealAfter(c, table, events[0]), events[1..]);
    forall i | 0 <= i < |events| && events[i].Allow? && events[i].ip == ip ensures answers[i] {
      if i > 0 {
        assert events[1..][i - 1] == events[i] && answers[1..][i - 1] == answers[i];
      }
    }
  }

  /** A client whose failures come no faster than the rate is never refused, whatever the others do and whenever it sweeps. */
  lemma PacedClientsPass(c: Config, events: seq<Event>, ip: string, gap: real, from: real)
    requires c.Valid() && c.burst >= 1 && gap * c.rate >= 1.0 && gap >= 0.0
    requires Monotone(events, from) && Paced(events, ip, gap, false, from)
    ensures AllPass(events, Answers(c, map[], events), ip)
  {
    SweepsChangeNothing(c, events, from);
    PacedPassFrom(c, map[], events, ip, gap, false, from, from);
  }

  /** n calls by one client at one moment. */
  function Volley(ip: string, at: real, n: nat): (r: seq<Event>)
    ensures |r| == n
  {
    if n == 0 then [] else [Allow(ip, at)] + Volley(ip, at, n - 1)
  }

  /** A client's first burst of calls, all at once, passes; the next is refused. */
  lemma BurstPasses(c: Config, ip: string, at: real, n: nat)
    requires c.Valid()
    ensures Passes(Volley(ip, at, n), Answers(c, map[], Volley(ip, at, n)), ip) == if n <= c.burst then n else c.burst
  {
    VolleyIsMonotone(ip, at, n);
    SweepsChangeNothing(c, Volley(ip, at, n), at);
    if n > 0 {
      var first := Decide(c, map[], ip, at);
      assert Full(c, at) == Bucket(c.burst as real, at);
      VolleyFrom(c, map[ip := Full(c, at)], ip, at, n, c.burst);
      SameFirst(c, ip, at, n);
    }
  }

  lemma {:induction false} VolleyIsMonotone(ip: string, at: real, n: nat)
    ensures Monotone(Volley(ip, at, n), at)
  {
    if n > 0 {
      assert Volley(ip, at, n)[1..] == Volley(ip, at, n - 1);
      VolleyIsMonotone(ip, at, n - 1);
    }
  }

  /** A new client and one with a full bucket are answered alike. */
  lemma SameFirst(c: Config, ip: string, at: real, n: nat)
    requires n > 0
    ensures IdealAnswers(c, map[], Volley(ip, at, n)) == IdealAnswers(c, map[ip := Full(c, at)], Volley(ip, at, n))
  {
    var empty: Table := map[];
    var (b, ok) := Spend(c, Full(c, at), at);
    assert empty[ip := b] == map[ip := Full(c, at)][ip := b];
  }

  lemma {:induction false} VolleyFrom(c: Config, table: Table, ip: string, at: real, n: nat, left: nat)
    requires ip in table && table[ip] == Bucket(left as real, at)
    ensures Passes(Volley(ip, at, n), IdealAnswers(c, table, Volley(ip, at, n)), ip) == if n <= left then n else left
    decreases n
  {
    if n > 0 {
      var events := Volley(ip, at, n);
      var next := Decide(c, table, ip, at).0;
      assert events[1..] == Volley(ip, at, n - 1);
      assert IdealAnswers(c, table, events)[1..] == IdealAnswers(c, next, events[1..]);
      if left >= 1 {
        assert next[ip] == Bucket((left - 1) as real, at);
        VolleyFrom(c, next, ip, at, n - 1, left - 1);
      } else {
        VolleyFrom(c, next, ip, at, n - 1, 0);
      }
    }
  }
}
