/** Exactly which round trips the floor under key-set fetches lets through: gawk-server/oidcauth/keyset.go. */
module KeyFetchLaws {
  import opened KeyFetches

  /** The floor after some events, made when the clock showed start. */
  function After(rule: Rule, start: int, events: seq<Event>): Throttle
    requires rule.Valid()
  {
    if events == [] then Fresh(rule, start)
    else Step(rule, After(rule, start, events[..|events| - 1]), events[|events| - 1]).0
  }

  /** The k-th event sent a fetch. */
  predicate Sends(rule: Rule, start: int, events: seq<Event>, k: nat)
    requires rule.Valid() && k < |events|
  {
    Step(rule, After(rule, start, events[..k]), events[k]).1
  }

  /** The furthest the clock has been. */
  function Clock(start: int, events: seq<Event>): int {
    if events == [] then start
    else
      var before, e := Clock(start, events[..|events| - 1]), events[|events| - 1];
      if e.Allow? && e.now > before then e.now else before
  }

  /** The fetches the throttle let through from the k-th event on. */
  function PassedSince(rule: Rule, start: int, events: seq<Event>, k: nat): nat
    requires rule.Valid()
    decreases |events|
  {
    if |events| <= k then 0
    else
      var n := |events| - 1;
      PassedSince(rule, start, events[..n], k) + (if events[n].Allow? && Sends(rule, start, events, n) then 1 else 0)
  }

  /** What the rate leaves of a stretch that begins with the k-th call, at a time the clock shows `clock`. */
  function Room(rule: Rule, start: int, events: seq<Event>, k: nat, clock: int): real
    requires rule.Valid() && k < |events|
  {
    rule.burst as real + Accrued(rule, clock - Clock(start, events[..k + 1])) - PassedSince(rule, start, events, k) as real
  }

  ghost predicate NoCalls(events: seq<Event>) {
    forall e | e in events :: !e.Allow?
  }

  /** The tokens are what the tightest stretch leaves. */
  ghost predicate Tight(rule: Rule, start: int, events: seq<Event>, t: Throttle)
    requires rule.Valid()
  {
    && t.last == Clock(start, events) && t.tokens <= rule.burst as real
    && (forall k: nat | k < |events| && events[k].Allow? :: t.tokens <= Room(rule, start, events, k, t.last))
    && ((NoCalls(events) && t.tokens == rule.burst as real) ||
        exists k: nat :: k < |events| && events[k].Allow? && t.tokens == Room(rule, start, events, k, t.last))
  }

  lemma Fronts(events: seq<Event>, e: Event)
    ensures (events + [e])[..|events|] == events
    ensures forall k | 0 <= k <= |events| :: (events + [e])[..k] == events[..k]
  {}

  lemma RoomMoves(rule: Rule, start: int, events: seq<Event>, e: Event, k: nat, clock: int, later: int)
    requires rule.Valid() && k < |events|
    ensures Room(rule, start, events + [e], k, later) ==
            Room(rule, start, events, k, clock) + Accrued(rule, later - clock) -
            (if e.Allow? && Sends(rule, start, events + [e], |events|) then 1.0 else 0.0)
  {
    Fronts(events, e);
    AccruedAdds(rule, clock - Clock(start, events[..k + 1]), later - clock);
  }

  lemma RoomOfLast(rule: Rule, start: int, events: seq<Event>, e: Event)
    requires rule.Valid() && e.Allow?
    ensures Room(rule, start, events + [e], |events|, Clock(start, events + [e])) ==
            rule.burst as real - (if Sends(rule, start, events + [e], |events|) then 1.0 else 0.0)
  {
    Fronts(events, e);
    assert (events + [e])[..|events| + 1] == events + [e];
    assert PassedSince(rule, start, events, |events|) == 0;
    AccruedAdds(rule, 0, 0);
  }

  /** What a call finds, as a number. */
  function Found(rule: Rule, t: Throttle, clock: int): real
    requires rule.Valid()
  {
    var grown := t.tokens + Accrued(rule, clock - t.last);
    if grown < rule.burst as real then grown else rule.burst as real
  }

  function Later(a: int, b: int): int {
    if b > a then b else a
  }

  lemma CallMoves(rule: Rule, t: Throttle, now: int, clock: int)
    requires rule.Valid() && t.tokens <= rule.burst as real && clock == Later(t.last, now)
    ensures var (next, sent) := Step(rule, t, Allow(now));
            next.last == clock && next.tokens == Found(rule, t, clock) - (if sent then 1.0 else 0.0) &&
            (sent <==> Found(rule, t, clock) >= 1.0)
  {
    AccruedAdds(rule, 0, 0);
  }

  lemma CallStaysBelow(rule: Rule, start: int, events: seq<Event>, e: Event, t: Throttle, k: nat, clock: int)
    requires rule.Valid() && Tight(rule, start, events, t) && t == After(rule, start, events) && e.Allow?
    requires k <= |events| && (k < |events| ==> events[k].Allow?)
    requires clock == Later(t.last, e.now) == Clock(start, events + [e])
    ensures Step(rule, t, e).0.tokens <= Room(rule, start, events + [e], k, clock)
  {
    Fronts(events, e);
    CallMoves(rule, t, e.now, clock);
    if k < |events| {
      RoomMoves(rule, start, events, e, k, t.last, clock);
    } else {
      RoomOfLast(rule, start, events, e);
    }
  }

  /** The stretch that leaves exactly what the throttle holds. */
  lemma CallMeets(rule: Rule, start: int, events: seq<Event>, e: Event, t: Throttle, clock: int) returns (k: nat)
    requires rule.Valid() && Tight(rule, start, events, t) && t == After(rule, start, events) && e.Allow?
    requires clock == Later(t.last, e.now) == Clock(start, events + [e])
    ensures k <= |events| && (k < |events| ==> events[k].Allow?)
    ensures Step(rule, t, e).0.tokens == Room(rule, start, events + [e], k, clock)
  {
    Fronts(events, e);
    CallMoves(rule, t, e.now, clock);
    AccruedAdds(rule, clock - t.last, 0);
    if Found(rule, t, clock) == rule.burst as real {
      k := |events|;
      RoomOfLast(rule, start, events, e);
    } else {
      k :| k < |events| && events[k].Allow? && t.tokens == Room(rule, start, events, k, t.last);
      RoomMoves(rule, start, events, e, k, t.last, clock);
    }
  }

  lemma CallStaysTight(rule: Rule, start: int, events: seq<Event>, e: Event, t: Throttle)
    requires rule.Valid() && Tight(rule, start, events, t) && t == After(rule, start, events) && e.Allow?
    ensures Tight(rule, start, events + [e], Step(rule, t, e).0)
  {
    var all, next := events + [e], Step(rule, t, e).0;
    var clock := Later(t.last, e.now);
    Fronts(events, e);
    CallMoves(rule, t, e.now, clock);
    forall k: nat | k < |all| && all[k].Allow? ensures next.tokens <= Room(rule, start, all, k, clock) {
      CallStaysBelow(rule, start, events, e, t, k, clock);
    }
    var k := CallMeets(rule, start, events, e, t, clock);
    assert all[k].Allow?;
  }

  lemma OtherStaysTight(rule: Rule, start: int, events: seq<Event>, e: Event, t: Throttle)
    requires rule.Valid() && Tight(rule, start, events, t) && !e.Allow?
    ensures Tight(rule, start, events + [e], Step(rule, t, e).0)
  {
    var all, next := events + [e], Step(rule, t, e).0;
    Fronts(events, e);
    AccruedAdds(rule, 0, 0);
    forall k: nat | k < |events| ensures Room(rule, start, all, k, t.last) == Room(rule, start, events, k, t.last) {
      RoomMoves(rule, start, events, e, k, t.last, t.last);
    }
    if !NoCalls(events) || t.tokens != rule.burst as real {
      var k: nat :| k < |events| && events[k].Allow? && t.tokens == Room(rule, start, events, k, t.last);
      assert all[k].Allow? && next.tokens == Room(rule, start, all, k, t.last);
    }
  }

  lemma {:induction false} AlwaysTight(rule: Rule, start: int, events: seq<Event>)
    requires rule.Valid()
    ensures Tight(rule, start, events, After(rule, start, events))
  {
    if events != [] {
      var before, e := events[..|events| - 1], events[|events| - 1];
      AlwaysTight(rule, start, before);
      assert events == before + [e];
      Fronts(before, e);
      if e.Allow? {
        CallStaysTight(rule, start, before, e, After(rule, start, before));
      } else {
        OtherStaysTight(rule, start, before, e, After(rule, start, before));
      }
    }
  }

  /** With one more fetch the stretch from the k-th call on would be over its rate. */
  predicate WouldBreak(rule: Rule, start: int, events: seq<Event>, k: nat, clock: int)
    requires rule.Valid() && k < |events|
  {
    (PassedSince(rule, start, events, k) + 1) as real > rule.burst as real + Accrued(rule, clock - Clock(start, events[..k + 1]))
  }

  lemma RoomLater(rule: Rule, start: int, events: seq<Event>, k: nat, clock: int, later: int)
    requires rule.Valid() && k < |events|
    ensures Room(rule, start, events, k, later) == Room(rule, start, events, k, clock) + Accrued(rule, later - clock)
    ensures WouldBreak(rule, start, events, k, later) <==> Room(rule, start, events, k, later) < 1.0
  {
    AccruedAdds(rule, clock - Clock(start, events[..k + 1]), later - clock);
  }

  lemma BrokenIsRefused(rule: Rule, start: int, events: seq<Event>, t: Throttle, now: int, clock: int, k: nat)
    requires rule.Valid() && Tight(rule, start, events, t) && clock == Later(t.last, now)
    requires k < |events| && events[k].Allow? && WouldBreak(rule, start, events, k, clock)
    ensures !Step(rule, t, Allow(now)).1
  {
    CallMoves(rule, t, now, clock);
    RoomLater(rule, start, events, k, t.last, clock);
  }

  lemma RefusedIsBroken(rule: Rule, start: int, events: seq<Event>, t: Throttle, now: int, clock: int) returns (k: nat)
    requires rule.Valid() && Tight(rule, start, events, t) && clock == Later(t.last, now)
    requires !Step(rule, t, Allow(now)).1
    ensures k < |events| && events[k].Allow? && WouldBreak(rule, start, events, k, clock)
  {
    CallMoves(rule, t, now, clock);
    AccruedAdds(rule, clock - t.last, 0);
    k :| k < |events| && events[k].Allow? && t.tokens == Room(rule, start, events, k, t.last);
    RoomLater(rule, start, events, k, t.last, clock);
  }

  /**
   * The throttle refuses a call exactly when letting it through would break the rate: when for some earlier call, the
   * fetches let through since then and this one are more than burst and one per interval since then.
   */
  lemma RefusedIff(rule: Rule, start: int, events: seq<Event>, now: int)
    requires rule.Valid()
    ensures !Step(rule, After(rule, start, events), Allow(now)).1 <==>
            exists k: nat :: k < |events| && events[k].Allow? &&
              WouldBreak(rule, start, events, k, Later(Clock(start, events), now))
  {
    var t := After(rule, start, events);
    var clock := Later(t.last, now);
    AlwaysTight(rule, start, events);
    if !Step(rule, t, Allow(now)).1 {
      var k := RefusedIsBroken(rule, start, events, t, now, clock);
    } else {
      forall k: nat | k < |events| && events[k].Allow? ensures !WouldBreak(rule, start, events, k, clock) {
        if WouldBreak(rule, start, events, k, clock) {
          BrokenIsRefused(rule, start, events, t, now, clock, k);
        }
      }
    }
  }

  // ----- the exemption -----

  /** The k-th event granted an exemption and only calls and grants have come since. */
  ghost predicate StandsFrom(events: seq<Event>, k: nat) {
    k < |events| && events[k].Grant? && forall j | k < j < |events| :: events[j].Allow? || events[j].Grant?
  }

  /** An exemption stands: a grant that nobody has revoked or claimed since. */
  ghost predicate Stands(events: seq<Event>) {
    exists k: nat :: StandsFrom(events, k)
  }

  lemma StandsFromThen(events: seq<Event>, e: Event, k: nat)
    ensures StandsFrom(events + [e], k) <==>
            (k == |events| && e.Grant?) || (StandsFrom(events, k) && (e.Allow? || e.Grant?))
  {
    var all, n := events + [e], |events|;
    assert all[n] == e && forall j | 0 <= j < n :: all[j] == events[j];
  }

  lemma StandsThen(events: seq<Event>, e: Event)
    ensures Stands(events + [e]) <==> e.Grant? || (e.Allow? && Stands(events))
  {
    StandsFromThen(events, e, |events|);
    forall k: nat ensures StandsFrom(events + [e], k) <==>
                          (k == |events| && e.Grant?) || (StandsFrom(events, k) && (e.Allow? || e.Grant?)) {
      StandsFromThen(events, e, k);
    }
  }

  /** A claim sends a fetch exactly when a grant stands that nobody has revoked or claimed since. */
  lemma {:induction false} ClaimIff(rule: Rule, start: int, events: seq<Event>)
    requires rule.Valid()
    ensures Step(rule, After(rule, start, events), Claim).1 <==> Stands(events)
  {
    if events != [] {
      var before, e := events[..|events| - 1], events[|events| - 1];
      ClaimIff(rule, start, before);
      assert events == before + [e];
      StandsThen(before, e);
    }
  }
}
