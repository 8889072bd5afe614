/**
 * A deposed engine stays down: after a terminal close of its current session it never dials again. That holds in
 * every run exactly when no StopBroadcast call overlaps another stop call; one that does can dial past the check in
 * deliverStop.
 */
module LifecycleDial {
  import opened Outcomes
  import opened Lifecycle
  import opened LifecycleSafety

  predicate AboutToDial(pc: Pc) {
    pc.Redial? || pc.DeliverDial?
  }

  /** No thread is about to dial for an engine whose current session the relay ended for good. */
  ghost predicate StaysDown(s: State) {
    TerminallyClosed(s) ==> forall t | 0 <= t < |s.threads| :: !AboutToDial(s.threads[t].pc)
  }

  // ----- how stop calls may overlap -----

  /**
   * At most `calls` stop calls in flight at once, at most `broadcasts` StopBroadcast calls among them, and unless
   * `mixed` a StopBroadcast call only ever in flight alone.
   */
  datatype Stops = Stops(calls: nat, broadcasts: nat, mixed: bool) {
    /** No StopBroadcast call ever overlaps another stop call. */
    predicate KeepsApart() {
      calls <= 1 || broadcasts == 0 || !mixed
    }
  }

  predicate Broadcasting(th: Thread) {
    th.role.StopBroadcastCall? && th.pc != Returned
  }

  function BroadcastCount(threads: seq<Thread>): nat {
    if threads == [] then 0
    else BroadcastCount(threads[..|threads| - 1]) + (if Broadcasting(threads[|threads| - 1]) then 1 else 0)
  }

  predicate Permitted(s: State, e: Event, stops: Stops) {
    && Allowed(s, e, stops.calls)
    && (e == Call(StopBroadcastCall) ==>
          BroadcastCount(s.threads) < stops.broadcasts && (stops.mixed || InFlightCount(s.threads) == 0))
    && (e == Call(StopCall) ==> stops.mixed || BroadcastCount(s.threads) == 0)
  }

  ghost predicate Runs(s: State, events: seq<Event>, stops: Stops, s': State)
    decreases |events|
  {
    if events == [] then s' == s
    else Permitted(s, events[0], stops) && Runs(Next(s, events[0]), events[1..], stops, s')
  }

  ghost predicate Reaches(stops: Stops, s: State) {
    exists events :: Runs(STARTED, events, stops, s)
  }

  lemma {:induction false} CountAtLeastOne(threads: seq<Thread>, t: nat)
    requires t < |threads|
    ensures InFlight(threads[t]) ==> InFlightCount(threads) >= 1
    ensures Broadcasting(threads[t]) ==> BroadcastCount(threads) >= 1
  {
    if t < |threads| - 1 {
      CountAtLeastOne(threads[..|threads| - 1], t);
    }
  }

  // ----- kept apart, they are safe -----

  ghost predicate Apart(threads: seq<Thread>) {
    forall t, u | 0 <= t < |threads| && 0 <= u < |threads| && t != u && Broadcasting(threads[t]) :: !InFlight(threads[u])
  }

  /** Only a StopBroadcast call that found its own code in place goes on to deliver it. */
  predicate DeliversOwn(th: Thread) {
    (th.ours ==> th.role.StopBroadcastCall?) && (AfterWait(th.pc) ==> th.ours)
  }

  ghost predicate Calm(s: State, stops: Stops) {
    && Inv(s) && Apart(s.threads)
    && (stops.broadcasts == 0 ==> forall t | 0 <= t < |s.threads| :: !s.threads[t].role.StopBroadcastCall?)
    && (forall t | 0 <= t < |s.threads| :: DeliversOwn(s.threads[t]))
    && forall t | 0 <= t < |s.threads| && s.threads[t].pc.DeliverDial? :: CurrentClosed(s) && !TerminallyClosed(s)
  }

  /** When a stop call in flight alone reaches deliverStop, the teardown is over, so the current session has ended. */
  lemma TornDownBeforeDelivery(s: State, t: nat)
    requires Inv(s) && Apart(s.threads) && t < |s.threads| && AfterWait(s.threads[t].pc) && DeliversOwn(s.threads[t])
    ensures CurrentClosed(s)
  {
    assert ThreadOk(s, s.threads[t]);
    assert Broadcasting(s.threads[t]);
    forall u | 0 <= u < |s.threads| ensures !TearingPc(s.threads[u].pc) {
      assert u >= 2 && u != t ==> !InFlight(s.threads[u]);
    }
    assert !SomeoneTears(s);
    assert s.sessions[s.current].Live? ==> LiveOk(s, s.current);
  }

  /** Only a call adds a thread, and a thread that has returned stays so. */
  lemma ThreadsStay(s: State, e: Event, t: nat)
    requires Possible(s, e) && t < |s.threads|
    ensures t < |Next(s, e).threads| <= |s.threads| + (if e.Call? then 1 else 0)
    ensures Next(s, e).threads[t].role == s.threads[t].role
    ensures s.threads[t].pc == Returned ==> Next(s, e).threads[t].pc == Returned
  {}

  lemma StaysApart(s: State, e: Event, stops: Stops)
    requires Calm(s, stops) && Permitted(s, e, stops) && stops.KeepsApart()
    ensures Apart(Next(s, e).threads)
  {
    var s' := Next(s, e);
    forall t, u | 0 <= t < |s'.threads| && 0 <= u < |s'.threads| && t != u && Broadcasting(s'.threads[t])
      ensures !InFlight(s'.threads[u])
    {
      if t < |s.threads| && u < |s.threads| {
        ThreadsStay(s, e, t);
        ThreadsStay(s, e, u);
      } else {
        CallApart(s, e, stops, if t < |s.threads| then t else u);
      }
    }
  }

  /** A call permitted beside one in flight is a plain Stop beside a plain Stop. */
  lemma CallApart(s: State, e: Event, stops: Stops, t: nat)
    requires Calm(s, stops) && Permitted(s, e, stops) && stops.KeepsApart() && e.Call? && t < |s.threads|
    ensures InFlight(s.threads[t]) ==> !s.threads[t].role.StopBroadcastCall? && e.role.StopCall?
  {
    CountAtLeastOne(s.threads, t);
  }

  lemma DeliversOwnKept(s: State, e: Event, t: nat)
    requires Inv(s) && Possible(s, e) && t < |Next(s, e).threads| && (t < |s.threads| ==> DeliversOwn(s.threads[t]))
    ensures DeliversOwn(Next(s, e).threads[t])
  {
    if e == Step(t) {
      StepDeliversOwn(s, t);
    }
  }

  lemma StepDeliversOwn(s: State, t: nat)
    requires Inv(s) && Possible(s, Step(t)) && DeliversOwn(s.threads[t])
    ensures DeliversOwn(Next(s, Step(t)).threads[t])
  {
    assert ThreadOk(s, s.threads[t]);
  }

  lemma CalmStep(s: State, e: Event, stops: Stops)
    requires Calm(s, stops) && Permitted(s, e, stops) && stops.KeepsApart()
    ensures Calm(Next(s, e), stops)
  {
    var s' := Next(s, e);
    NextKeepsInv(s, e);
    StaysApart(s, e, stops);
    forall t | 0 <= t < |s'.threads|
      ensures DeliversOwn(s'.threads[t]) && (stops.broadcasts == 0 ==> !s'.threads[t].role.StopBroadcastCall?)
    {
      DeliversOwnKept(s, e, t);
      if t < |s.threads| {
        ThreadsStay(s, e, t);
      }
    }
    forall t | 0 <= t < |s'.threads| && s'.threads[t].pc.DeliverDial? ensures CurrentClosed(s') && !TerminallyClosed(s') {
      DeliverDialStays(s, e, stops, t);
    }
  }

  /** Only the supervisor replaces the current session, and how a session ended never changes. */
  lemma EndedStaysEnded(s: State, e: Event)
    requires Inv(s) && Possible(s, e) && GroupDone(s) && CurrentClosed(s) && !TerminallyClosed(s)
    ensures CurrentClosed(Next(s, e)) && !TerminallyClosed(Next(s, e))
  {
    if e.Step? {
      StepKeepsEnded(s, e.t);
    }
  }

  lemma StepKeepsEnded(s: State, t: nat)
    requires Inv(s) && Possible(s, Step(t)) && GroupDone(s) && CurrentClosed(s)
    ensures Next(s, Step(t)).current == s.current
    ensures Next(s, Step(t)).sessions[s.current] == s.sessions[s.current]
  {
    assert ThreadOk(s, s.threads[t]);
  }

  /** A thread is about to deliver only straight after the check. */
  lemma ComesFromCheck(s: State, e: Event, t: nat)
    requires Possible(s, e) && t < |Next(s, e).threads| && Next(s, e).threads[t].pc.DeliverDial?
    ensures t < |s.threads|
    ensures s.threads[t].pc.DeliverDial? || (e == Step(t) && s.threads[t].pc.DeliverCheck? && !TerminallyClosed(s))
  {
    if e == Step(t) {
      StepTarget(s, t);
    }
  }

  lemma StepTarget(s: State, t: nat)
    requires Possible(s, Step(t)) && Next(s, Step(t)).threads[t].pc.DeliverDial?
    ensures s.threads[t].pc.DeliverCheck? && !TerminallyClosed(s)
  {}

  lemma DeliverDialStays(s: State, e: Event, stops: Stops, t: nat)
    requires Calm(s, stops) && Possible(s, e) && t < |Next(s, e).threads| && Next(s, e).threads[t].pc.DeliverDial?
    ensures CurrentClosed(Next(s, e)) && !TerminallyClosed(Next(s, e))
  {
    ComesFromCheck(s, e, t);
    assert ThreadOk(s, s.threads[t]);
    if !s.threads[t].pc.DeliverDial? {
      TornDownBeforeDelivery(s, t);
    }
    EndedStaysEnded(s, e);
  }

  lemma {:induction false} CalmRun(s: State, events: seq<Event>, stops: Stops, s': State)
    requires Calm(s, stops) && Runs(s, events, stops, s') && stops.KeepsApart()
    ensures Calm(s', stops)
    decreases |events|
  {
    if events != [] {
      CalmStep(s, events[0], stops);
      CalmRun(Next(s, events[0]), events[1..], stops, s');
    }
  }

  lemma StartedCalm(stops: Stops)
    ensures Calm(STARTED, stops)
  {
    StartedInv();
  }

  /** As long as no StopBroadcast call overlaps another stop call, a deposed engine stays down. */
  lemma ApartStaysDown(stops: Stops, s: State)
    requires stops.KeepsApart() && Reaches(stops, s)
    ensures StaysDown(s)
  {
    var events :| Runs(STARTED, events, stops, s);
    StartedCalm(stops);
    CalmRun(STARTED, events, stops, s);
    forall t | 0 <= t < |s.threads| && AboutToDial(s.threads[t].pc) ensures !TerminallyClosed(s) {
      assert ThreadOk(s, s.threads[t]);
    }
  }

  // ----- a StopBroadcast beside a Stop is not -----

  lemma {:induction false} RunsSnoc(s: State, events: seq<Event>, stops: Stops, p: State, e: Event)
    requires Runs(s, events, stops, p) && Permitted(p, e, stops)
    ensures Runs(s, events + [e], stops, Next(p, e))
    decreases |events|
  {
    if events == [] {
      assert [e][1..] == [];
      assert [] + [e] == [e];
    } else {
      RunsSnoc(Next(s, events[0]), events[1..], stops, p, e);
      assert (events + [e])[0] == events[0] && (events + [e])[1..] == events[1..] + [e];
    }
  }

  /** Room for one StopBroadcast call and one Stop call at a time. */
  predicate Mixes(stops: Stops) {
    stops.calls >= 2 && stops.broadcasts >= 1 && stops.mixed
  }

  function Calling(code: nat, calls: seq<Thread>): State {
    State(false, code, false, false, 0, [Live],
          [Thread(Supervisor, Watch, false), Thread(Pump, Pumping, false)] + calls, false, 0)
  }

  /** One session, a StopBroadcast call at pc2 and the Stop call that got to the teardown first at pc3. */
  function Scene(cancelled: bool, session: Status, pc0: Pc, pc1: Pc, pc2: Pc, pc3: Pc): State {
    State(true, BROADCASTER_STOPPED, false, cancelled, 0, [session],
          [Thread(Supervisor, pc0, false), Thread(Pump, pc1, false),
           Thread(StopBroadcastCall, pc2, true), Thread(StopCall, pc3, false)], false, 0)
  }

  /** A StopBroadcast call takes its code; then a Stop call comes in. */
  const TWO_CALLS := [Call(StopBroadcastCall), Step(2), Call(StopCall)]

  /** The Stop call tears down as far as the cancelled context, and the StopBroadcast call finds the teardown taken. */
  const TEARS_DOWN := [Step(3), Step(3), Step(3), Step(2)]

  /** The goroutines end while the Stop call waits for the last keyframes, and the StopBroadcast call goes on to dial. */
  const GOES_ON := [GiveUp(0), GiveUp(1), Step(2), Step(2), Step(2)]

  const ABOUT_TO_DIAL: State := Scene(true, Live, Returned, Returned, DeliverDial, TearCheck(0))

  lemma TwoCalls(stops: Stops)
    requires Mixes(stops)
    ensures Runs(STARTED, TWO_CALLS, stops, Calling(BROADCASTER_STOPPED, [Thread(StopBroadcastCall, TearEnter, true), Thread(StopCall, TearEnter, false)]))
  {
    var a := Calling(0, [Thread(StopBroadcastCall, SetCode, false)]);
    var b := Calling(BROADCASTER_STOPPED, [Thread(StopBroadcastCall, TearEnter, true)]);
    var c := Calling(BROADCASTER_STOPPED, [Thread(StopBroadcastCall, TearEnter, true), Thread(StopCall, TearEnter, false)]);
    NoCallsYet();
    RunsSnoc(STARTED, [], stops, STARTED, Call(StopBroadcastCall));
    assert Next(STARTED, Call(StopBroadcastCall)) == a;
    RunsSnoc(STARTED, [Call(StopBroadcastCall)], stops, a, Step(2));
    assert Next(a, Step(2)) == b;
    OneCallYet(b);
    RunsSnoc(STARTED, [Call(StopBroadcastCall), Step(2)], stops, b, Call(StopCall));
    assert Next(b, Call(StopCall)) == c;
  }

  lemma NoCallsYet()
    ensures InFlightCount(STARTED.threads) == 0 && BroadcastCount(STARTED.threads) == 0
  {
    assert STARTED.threads[..1][..0] == [];
  }

  lemma OneCallYet(s: State)
    requires |s.threads| == 3 && s.threads[..2] == STARTED.threads
    ensures InFlightCount(s.threads) <= 1
  {
    NoCallsYet();
  }

  lemma TakesTeardown(stops: Stops)
    requires Mixes(stops)
    ensures Runs(STARTED, TWO_CALLS + [Step(3)] + [Step(3)], stops, Scene(false, Live, Watch, Pumping, TearEnter, TearCancel(0)))
  {
    TwoCalls(stops);
    var a := Calling(BROADCASTER_STOPPED, [Thread(StopBroadcastCall, TearEnter, true), Thread(StopCall, TearEnter, false)]);
    var b := Scene(false, Live, Watch, Pumping, TearEnter, TearRead);
    assert Next(a, Step(3)) == b;
    RunsSnoc(STARTED, TWO_CALLS, stops, a, Step(3));
    assert Next(b, Step(3)) == Scene(false, Live, Watch, Pumping, TearEnter, TearCancel(0));
    RunsSnoc(STARTED, TWO_CALLS + [Step(3)], stops, b, Step(3));
  }

  lemma TearsDown(stops: Stops)
    requires Mixes(stops)
    ensures Runs(STARTED, TWO_CALLS + TEARS_DOWN, stops, Scene(true, Live, Watch, Pumping, WaitGroup, TearCheck(0)))
  {
    TakesTeardown(stops);
    var c := Scene(false, Live, Watch, Pumping, TearEnter, TearCancel(0));
    var d := Scene(true, Live, Watch, Pumping, TearEnter, TearCheck(0));
    var r := TWO_CALLS + [Step(3)] + [Step(3)];
    assert Next(c, Step(3)) == d;
    RunsSnoc(STARTED, r, stops, c, Step(3));
    assert Next(d, Step(2)) == Scene(true, Live, Watch, Pumping, WaitGroup, TearCheck(0));
    RunsSnoc(STARTED, r + [Step(3)], stops, d, Step(2));
    assert r + [Step(3)] + [Step(2)] == TWO_CALLS + TEARS_DOWN;
  }

  lemma GroupEnds(stops: Stops, r: seq<Event>)
    requires Runs(STARTED, r, stops, Scene(true, Live, Watch, Pumping, WaitGroup, TearCheck(0)))
    ensures Runs(STARTED, r + [GiveUp(0)] + [GiveUp(1)], stops, Scene(true, Live, Returned, Returned, WaitGroup, TearCheck(0)))
  {
    var a := Scene(true, Live, Watch, Pumping, WaitGroup, TearCheck(0));
    var b := Scene(true, Live, Returned, Pumping, WaitGroup, TearCheck(0));
    assert Next(a, GiveUp(0)) == b;
    RunsSnoc(STARTED, r, stops, a, GiveUp(0));
    assert Next(b, GiveUp(1)) == Scene(true, Live, Returned, Returned, WaitGroup, TearCheck(0));
    RunsSnoc(STARTED, r + [GiveUp(0)], stops, b, GiveUp(1));
  }

  lemma GoesOn(stops: Stops, r: seq<Event>)
    requires Runs(STARTED, r, stops, Scene(true, Live, Returned, Returned, WaitGroup, TearCheck(0)))
    ensures Runs(STARTED, r + [Step(2)] + [Step(2)] + [Step(2)], stops, ABOUT_TO_DIAL)
  {
    var c := Scene(true, Live, Returned, Returned, WaitGroup, TearCheck(0));
    var d := Scene(true, Live, Returned, Returned, DeliverRead, TearCheck(0));
    var e := Scene(true, Live, Returned, Returned, DeliverCheck, TearCheck(0));
    assert Next(c, Step(2)) == d;
    RunsSnoc(STARTED, r, stops, c, Step(2));
    assert Next(d, Step(2)) == e;
    RunsSnoc(STARTED, r + [Step(2)], stops, d, Step(2));
    assert Next(e, Step(2)) == ABOUT_TO_DIAL;
    RunsSnoc(STARTED, r + [Step(2)] + [Step(2)], stops, e, Step(2));
  }

  /** The StopBroadcast call finds nothing delivered and the session live, so it is about to dial. */
  lemma OverlapDials(stops: Stops)
    requires Mixes(stops)
    ensures Runs(STARTED, TWO_CALLS + TEARS_DOWN + GOES_ON, stops, ABOUT_TO_DIAL)
  {
    TearsDown(stops);
    var r := TWO_CALLS + TEARS_DOWN;
    GroupEnds(stops, r);
    GoesOn(stops, r + [GiveUp(0)] + [GiveUp(1)]);
    assert r + [GiveUp(0)] + [GiveUp(1)] + [Step(2)] + [Step(2)] + [Step(2)] == r + GOES_ON;
  }

  /** Then a 4004 arrives, and the deposed engine has a call about to dial. */
  lemma DeposedDials(stops: Stops)
    requires Mixes(stops)
    ensures exists s :: Reaches(stops, s) && !StaysDown(s)
  {
    OverlapDials(stops);
    var deposed := Scene(true, Closed(Some(PUBLISHER_SUPERSEDED)), Returned, Returned, DeliverDial, TearCheck(0));
    var close := Close(0, Some(PUBLISHER_SUPERSEDED));
    assert Next(ABOUT_TO_DIAL, close) == deposed;
    RunsSnoc(STARTED, TWO_CALLS + TEARS_DOWN + GOES_ON, stops, ABOUT_TO_DIAL, close);
    assert Reaches(stops, deposed);
    assert TerminallyClosed(deposed) && AboutToDial(deposed.threads[2].pc);
  }

  /**
   * A deposed engine stays down in every run if and only if no StopBroadcast call may overlap another stop call: any
   * number of plain Stop calls may overlap each other.
   */
  lemma StaysDownIffApart(stops: Stops)
    ensures (forall s | Reaches(stops, s) :: StaysDown(s)) <==> stops.KeepsApart()
  {
    if stops.KeepsApart() {
      forall s | Reaches(stops, s) ensures StaysDown(s) {
        ApartStaysDown(stops, s);
      }
    } else {
      DeposedDials(stops);
    }
  }
}
