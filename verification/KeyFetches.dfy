/** The rate floor under key-set fetches: gawk-server/oidcauth/keyset.go. */
module KeyFetches {

  /** Nanoseconds to accrue one token. */
  datatype Rule = Rule(burst: nat, interval: nat) {
    predicate Valid() {
      burst >= 1 && interval >= 1
    }
  }

  datatype Throttle = Throttle(tokens: real, last: int, exempt: bool)

  function Fresh(rule: Rule, now: int): Throttle {
    Throttle(rule.burst as real, now, false)
  }

  function Accrued(rule: Rule, elapsed: int): real
    requires rule.Valid()
  {
    elapsed as real / rule.interval as real
  }

  function Refill(rule: Rule, t: Throttle, now: int): Throttle
    requires rule.Valid()
  {
    if now > t.last then
      var tokens := t.tokens + Accrued(rule, now - t.last);
      t.(tokens := if tokens < rule.burst as real then tokens else rule.burst as real, last := now)
    else t
  }

  /** The atomic steps of any number of concurrent round trips, and priming's grants. The clock value may step back. */
  datatype Event =
    | Grant               // exempt is set
    | Revoke              // exempt is cleared
    | Claim               // a round trip trades exempt for a fetch, if it is set
    | Allow(now: int)     // a round trip asks the throttle

  /** The state after, and whether a fetch left. */
  function Step(rule: Rule, t: Throttle, e: Event): (Throttle, bool)
    requires rule.Valid()
  {
    match e
    case Grant => (t.(exempt := true), false)
    case Revoke => (t.(exempt := false), false)
    case Claim => (t.(exempt := false), t.exempt)
    case Allow(now) =>
      var r := Refill(rule, t, now);
      if r.tokens < 1.0 then (r, false) else (r.(tokens := r.tokens - 1.0), true)
  }

  class Floor {
    const rule: Rule
    var tokens: real
    var last: int
    var exempt: bool

    ghost function State(): Throttle
      reads this
    {
      Throttle(tokens, last, exempt)
    }

    constructor (rule: Rule, now: int)
      ensures this.rule == rule && State() == Fresh(rule, now)
    {
      this.rule := rule;
      tokens := rule.burst as real;
      last := now;
      exempt := false;
    }

    method Allow(now: int) returns (ok: bool)
      requires rule.Valid()
      modifies this
      ensures (State(), ok) == Step(rule, old(State()), Event.Allow(now))
    {
      var elapsed := now - last;
      if elapsed > 0 {
        var refilled := tokens + elapsed as real / rule.interval as real;
        tokens := if refilled < rule.burst as real then refilled else rule.burst as real;
        last := now;
      }
      if tokens < 1.0 {
        return false;
      }
      tokens := tokens - 1.0;
      return true;
    }

    /** One round trip on its own: the exemption first, then the bucket. */
    method RoundTrip(now: int) returns (sent: bool)
      requires rule.Valid()
      modifies this
      ensures old(exempt) ==> (State(), sent) == Step(rule, old(State()), Claim)
      ensures !old(exempt) ==> (State(), sent) == Step(rule, old(State()), Event.Allow(now))
    {
      if exempt {
        exempt := false;
        return true;
      }
      sent := Allow(now);
    }
  }

  function Fetches(rule: Rule, t: Throttle, events: seq<Event>): nat
    requires rule.Valid()
    decreases |events|
  {
    if events == [] then 0
    else
      var (next, sent) := Step(rule, t, events[0]);
      (if sent then 1 else 0) + Fetches(rule, next, events[1..])
  }

  function Grants(events: seq<Event>): nat {
    if events == [] then 0 else (if events[0].Grant? then 1 else 0) + Grants(events[1..])
  }

  /** The latest clock value seen. */
  function Latest(events: seq<Event>, from: int): int
    decreases |events|
  {
    if events == [] then from
    else Latest(events[1..], if events[0].Allow? && events[0].now > from then events[0].now else from)
  }

  lemma AccruedAdds(rule: Rule, a: int, b: int)
    requires rule.Valid()
    ensures Accrued(rule, a + b) == Accrued(rule, a) + Accrued(rule, b)
    ensures a >= 0 ==> Accrued(rule, a) >= 0.0
    ensures a >= rule.interval ==> Accrued(rule, a) >= 1.0
  {
    var n := rule.interval as real;
    assert (a + b) as real == a as real + b as real;
    assert (a as real + b as real) / n == a as real / n + b as real / n;
    if a >= rule.interval {
      assert a as real / n >= n / n;
    }
  }

  lemma StepSpends(rule: Rule, t: Throttle, e: Event)
    requires rule.Valid()
    ensures var (next, sent) := Step(rule, t, e);
            var now := if e.Allow? && e.now > t.last then e.now else t.last;
            next.last == now &&
            (if sent then 1.0 else 0.0) + next.tokens + (if next.exempt then 1.0 else 0.0) <=
            t.tokens + Accrued(rule, now - t.last) + (if t.exempt then 1.0 else 0.0) + (if e.Grant? then 1.0 else 0.0)
    ensures t.tokens >= 0.0 ==> Step(rule, t, e).0.tokens >= 0.0
  {
    AccruedAdds(rule, 0, 0);
    if e.Allow? && e.now > t.last {
      AccruedAdds(rule, e.now - t.last, 0);
    }
  }

  lemma {:induction false} FetchesAreBoundedFrom(rule: Rule, t: Throttle, events: seq<Event>)
    requires rule.Valid() && t.tokens >= 0.0
    ensures Fetches(rule, t, events) as real <=
            t.tokens + Accrued(rule, Latest(events, t.last) - t.last) + (if t.exempt then 1.0 else 0.0) + Grants(events) as real
    decreases |events|
  {
    AccruedAdds(rule, 0, 0);
    if events != [] {
      StepSpends(rule, t, events[0]);
      var next := Step(rule, t, events[0]).0;
      FetchesAreBoundedFrom(rule, next, events[1..]);
      AccruedAdds(rule, next.last - t.last, Latest(events, t.last) - next.last);
    }
  }

  /**
   * Whatever the interleaving and however the clock jumps, the fetches sent are at most burst, plus one per interval of
   * the clock's furthest advance, plus one per exemption granted.
   */
  lemma FetchesAreBounded(rule: Rule, start: int, events: seq<Event>)
    requires rule.Valid()
    ensures Fetches(rule, Fresh(rule, start), events) as real <=
            rule.burst as real + Accrued(rule, Latest(events, start) - start) + Grants(events) as real
  {
    FetchesAreBoundedFrom(rule, Fresh(rule, start), events);
  }

  function Run(rule: Rule, t: Throttle, events: seq<Event>): Throttle
    requires rule.Valid()
    decreases |events|
  {
    if events == [] then t else Run(rule, Step(rule, t, events[0]).0, events[1..])
  }

  lemma {:induction false} NeverOverdrawn(rule: Rule, t: Throttle, events: seq<Event>)
    requires rule.Valid() && 0.0 <= t.tokens <= rule.burst as real
    ensures 0.0 <= Run(rule, t, events).tokens <= rule.burst as real
    decreases |events|
  {
    if events != [] {
      StepSpends(rule, t, events[0]);
      NeverOverdrawn(rule, Step(rule, t, events[0]).0, events[1..]);
    }
  }

  /** Nothing waits longer than one interval: a call that far past the last refill always gets its fetch. */
  lemma OneIntervalIsEnough(rule: Rule, start: int, events: seq<Event>, now: int)
    requires rule.Valid() && now >= Run(rule, Fresh(rule, start), events).last + rule.interval
    ensures Step(rule, Run(rule, Fresh(rule, start), events), Allow(now)).1
  {
    NeverOverdrawn(rule, Fresh(rule, start), events);
    AccruedAdds(rule, now - Run(rule, Fresh(rule, start), events).last, 0);
  }
}
