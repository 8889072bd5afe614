/**
 * What the attach latch of gawk-server/publisher/room.go promises when the check and the write are two steps, and
 * exactly which mishaps between the two take each promise away.
 */
module AttachOverlap {
  import opened AttachLatch

  /**
   * Whether a connection may be made while a write is due, whether a write may fail once its generation has passed, and
   * whether one may come to nothing within it.
   */
  datatype Mishaps = Mishaps(reconnects: bool, lateFailures: bool, ownFailures: bool)

  predicate Permitted(s: State, e: Event, c: Mishaps) {
    Enabled(s, e) && (e.Connect? && s.writes != [] ==> c.reconnects) &&
    (e.Finish? && e.outcome.Failed? && s.writes[e.i].gen != s.gen ==> c.lateFailures) &&
    (e.Finish? && !e.outcome.Sent? && s.writes[e.i].gen == s.gen ==> c.ownFailures)
  }

  ghost predicate Runs(s: State, events: seq<Event>, c: Mishaps, t: State)
    decreases |events|
  {
    if events == [] then t == s else Permitted(s, events[0], c) && Runs(Next(s, events[0]), events[1..], c, t)
  }

  lemma OneStepEarlier(s: State, e: Event, events: seq<Event>, c: Mishaps, t: State)
    requires Permitted(s, e, c) && Runs(Next(s, e), events, c, t)
    ensures Runs(s, [e] + events, c, t)
  {
    assert ([e] + events)[1..] == events;
  }

  // ----- only after the snapshot -----

  /** Some Attach was written while no snapshot had come on its stream. */
  ghost predicate AttachedTooEarly(s: State) {
    exists x | x in s.log :: x.Attached? && !x.haveState
  }

  /** A write is only ever due on a connection whose snapshot has come. */
  ghost predicate Prompt(s: State) {
    (s.writes != [] ==> s.haveState) && forall x | x in s.log :: x.Attached? ==> x.haveState
  }

  lemma {:induction false} PromptRun(s: State, events: seq<Event>, c: Mishaps, t: State)
    requires Prompt(s) && !c.reconnects && Runs(s, events, c, t)
    ensures Prompt(t)
    decreases |events|
  {
    if events != [] {
      PromptRun(Next(s, events[0]), events[1..], c, t);
    }
  }

  /** Connected, with the snapshot and both credentials there and three calls due. */
  const READY: State := State(1, 0, true, true, true, Usable, 3, 1, [], [])

  lemma GettingReady(tail: seq<Event>, c: Mishaps, t: State)
    requires Runs(READY, tail, c, t)
    ensures Runs(START, [Connect] + ([BroadcastId] + ([ResumeToken(true)] + ([Snapshot] + tail))), c, t)
  {
    var s3 := READY.(pending := 2, haveState := false);
    OneStepEarlier(s3, Snapshot, tail, c, t);
    var s2 := s3.(pending := 1, token := Missing);
    OneStepEarlier(s2, ResumeToken(true), [Snapshot] + tail, c, t);
    var s1 := s2.(pending := 0, id := false);
    OneStepEarlier(s1, BroadcastId, [ResumeToken(true)] + ([Snapshot] + tail), c, t);
    OneStepEarlier(START, Connect, [BroadcastId] + ([ResumeToken(true)] + ([Snapshot] + tail)), c, t);
  }

  /** After the latch was taken, the connection lost and another one made. */
  const RECONNECTED: State := State(2, 1, true, false, true, Usable, 2, 2, [Write(1, 1)], [Latched(1)])

  const STALE: State := State(2, 1, true, false, true, Usable, 2, 2, [], [Latched(1), Attached(Write(1, 1), 2, false)])

  lemma WriteLandsLate(c: Mishaps)
    ensures Runs(RECONNECTED, [Finish(0, Sent)], c, STALE)
  {
    var e := Finish(0, Sent);
    assert RECONNECTED.writes[..0] + RECONNECTED.writes[1..] == [];
    assert Next(RECONNECTED, e).log == STALE.log;
    OneStepEarlier(RECONNECTED, e, [], c, STALE);
    assert [e] + [] == [e];
  }

  lemma LatchThenReconnect(tail: seq<Event>, c: Mishaps)
    requires c.reconnects && Runs(RECONNECTED, tail, c, STALE)
    ensures Runs(READY, [MaybeAttach] + ([Disconnect] + ([Connect] + tail)), c, STALE)
  {
    var latched := READY.(pending := 2, attachedGen := 1, writes := [Write(1, 1)], log := [Latched(1)]);
    assert Next(READY, MaybeAttach) == latched;
    var lost := latched.(live := false);
    OneStepEarlier(lost, Connect, tail, c, STALE);
    OneStepEarlier(latched, Disconnect, [Connect] + tail, c, STALE);
    OneStepEarlier(READY, MaybeAttach, [Disconnect] + ([Connect] + tail), c, STALE);
  }

  lemma StaleIsTooEarly()
    ensures AttachedTooEarly(STALE)
  {
    assert STALE.log[1] in STALE.log;
  }

  /** A reconnect between the check and the write puts the Attach on a stream whose snapshot has not come. */
  lemma StaleAttach(c: Mishaps)
    requires c.reconnects
    ensures exists events: seq<Event>, t: State :: Runs(START, events, c, t) && AttachedTooEarly(t)
  {
    WriteLandsLate(c);
    var tail := [Finish(0, Sent)];
    LatchThenReconnect(tail, c);
    tail := [MaybeAttach] + ([Disconnect] + ([Connect] + tail));
    GettingReady(tail, c, STALE);
    StaleIsTooEarly();
    var events := [Connect] + ([BroadcastId] + ([ResumeToken(true)] + ([Snapshot] + tail)));
    assert Runs(START, events, c, STALE);
  }

  /** Every Attach follows its stream's snapshot, in every run, if and only if no connection is made while a write is due. */
  lemma TooEarlyIffReconnects(c: Mishaps)
    ensures (forall events, t | Runs(START, events, c, t) :: !AttachedTooEarly(t)) <==> !c.reconnects
  {
    if c.reconnects {
      StaleAttach(c);
    } else {
      forall events, t | Runs(START, events, c, t) ensures !AttachedTooEarly(t) {
        PromptRun(START, events, c, t);
      }
    }
  }

  // ----- once per generation -----

  /** What a generation has had attached and has in flight. */
  predicate OnceAt(s: State, g: nat) {
    Attaches(s.log, g) + InFlight(s.writes, g) <= if g < s.gen || (g == s.gen && s.attachedGen == s.gen) then 1 else 0
  }

  ghost predicate Once(s: State) {
    s.attachedGen <= s.gen && forall g: nat :: OnceAt(s, g)
  }

  lemma OnceStep(s: State, e: Event, c: Mishaps, g: nat)
    requires s.attachedGen <= s.gen && OnceAt(s, g) && !c.lateFailures && Permitted(s, e, c)
    ensures OnceAt(Next(s, e), g)
  {
    if e.MaybeAttach? {
      LatchAdds(s, g);
    } else if e.Finish? {
      FinishMoves(s, e.i, e.outcome, g);
    }
  }

  lemma {:induction false} OnceRun(s: State, events: seq<Event>, c: Mishaps, t: State)
    requires Once(s) && !c.lateFailures && Runs(s, events, c, t)
    ensures Once(t)
    decreases |events|
  {
    if events != [] {
      forall g: nat ensures OnceAt(Next(s, events[0]), g) {
        assert OnceAt(s, g);
        OnceStep(s, events[0], c, g);
      }
      OnceRun(Next(s, events[0]), events[1..], c, t);
    }
  }

  /** Generation 1 latched, then a publish resume, then generation 2 latched: two writes due. */
  const BOTH_DUE: State := State(2, 2, true, true, true, Usable, 2, 1, [Write(1, 1), Write(2, 1)], [Latched(1), Latched(2)])

  const SECOND := Attached(Write(2, 1), 1, true)

  /** The second write went out and the first one failed. */
  const REOPENED: State := State(2, 0, true, true, true, Usable, 2, 1, [], [Latched(1), Latched(2), SECOND, Reopened(2)])

  const TWICE: State :=
    State(2, 2, true, true, true, Usable, 1, 1, [], [Latched(1), Latched(2), SECOND, Reopened(2), Latched(2), SECOND])

  lemma LatchTwoGenerations(tail: seq<Event>, c: Mishaps, t: State)
    requires Runs(BOTH_DUE, tail, c, t)
    ensures Runs(READY, [MaybeAttach] + ([PublishResume] + ([MaybeAttach] + tail)), c, t)
  {
    var first := READY.(pending := 2, attachedGen := 1, writes := [Write(1, 1)], log := [Latched(1)]);
    var resumed := first.(gen := 2, pending := 3);
    assert Next(resumed, MaybeAttach) == BOTH_DUE;
    OneStepEarlier(resumed, MaybeAttach, tail, c, t);
    assert Next(first, PublishResume) == resumed;
    OneStepEarlier(first, PublishResume, [MaybeAttach] + tail, c, t);
    assert Next(READY, MaybeAttach) == first;
    OneStepEarlier(READY, MaybeAttach, [PublishResume] + ([MaybeAttach] + tail), c, t);
  }

  lemma FirstFailsLate(tail: seq<Event>, c: Mishaps, t: State)
    requires c.lateFailures && Runs(REOPENED, tail, c, t)
    ensures Runs(BOTH_DUE, [Finish(1, Sent)] + ([Finish(0, Failed)] + tail), c, t)
  {
    var sent := BOTH_DUE.(writes := [Write(1, 1)], log := [Latched(1), Latched(2), SECOND]);
    assert BOTH_DUE.writes[..1] + BOTH_DUE.writes[2..] == [Write(1, 1)];
    assert Next(BOTH_DUE, Finish(1, Sent)) == sent;
    assert sent.writes[..0] + sent.writes[1..] == [];
    assert Next(sent, Finish(0, Failed)) == REOPENED;
    OneStepEarlier(sent, Finish(0, Failed), tail, c, t);
    OneStepEarlier(BOTH_DUE, Finish(1, Sent), [Finish(0, Failed)] + tail, c, t);
  }

  lemma AttachesAgain(c: Mishaps)
    ensures Runs(REOPENED, [MaybeAttach] + ([Finish(0, Sent)] + []), c, TWICE)
  {
    var latched := REOPENED.(pending := 1, attachedGen := 2, writes := [Write(2, 1)], log := REOPENED.log + [Latched(2)]);
    assert Next(REOPENED, MaybeAttach) == latched;
    assert latched.writes[..0] + latched.writes[1..] == [];
    assert Next(latched, Finish(0, Sent)) == TWICE;
    OneStepEarlier(latched, Finish(0, Sent), [], c, TWICE);
    OneStepEarlier(REOPENED, MaybeAttach, [Finish(0, Sent)] + [], c, TWICE);
  }

  lemma TwiceIsTwice()
    ensures Attaches(TWICE.log, 2) == 2
  {
    var log := [Latched(1), Latched(2)];
    assert Attaches(log, 2) == 0 by {
      assert log[..1][..0] == [];
    }
    OneMore(log, SECOND, 2);
    OneMore(log + [SECOND], Reopened(2), 2);
    OneMore(log + [SECOND] + [Reopened(2)], Latched(2), 2);
    OneMore(log + [SECOND] + [Reopened(2)] + [Latched(2)], SECOND, 2);
    assert log + [SECOND] + [Reopened(2)] + [Latched(2)] + [SECOND] == TWICE.log;
  }

  /** A write that fails after its generation has passed reopens a latch that the next one had taken and used. */
  lemma AttachedTwice(c: Mishaps)
    requires c.lateFailures
    ensures exists events: seq<Event>, t: State, g: nat :: Runs(START, events, c, t) && Attaches(t.log, g) > 1
  {
    var tail := [MaybeAttach] + ([Finish(0, Sent)] + []);
    AttachesAgain(c);
    FirstFailsLate(tail, c, TWICE);
    tail := [Finish(1, Sent)] + ([Finish(0, Failed)] + tail);
    LatchTwoGenerations(tail, c, TWICE);
    tail := [MaybeAttach] + ([PublishResume] + ([MaybeAttach] + tail));
    GettingReady(tail, c, TWICE);
    TwiceIsTwice();
    var events := [Connect] + ([BroadcastId] + ([ResumeToken(true)] + ([Snapshot] + tail)));
    assert Runs(START, events, c, TWICE);
  }

  /**
   * No generation is attached twice, in any run, if and only if no write fails once its generation has passed: one that
   * fails within its own generation only lets the same generation try again.
   */
  lemma TwiceIffLateFailures(c: Mishaps)
    ensures (forall events, t, g: nat | Runs(START, events, c, t) :: Attaches(t.log, g) <= 1) <==> !c.lateFailures
  {
    if c.lateFailures {
      AttachedTwice(c);
    } else {
      forall events, t, g: nat | Runs(START, events, c, t) ensures Attaches(t.log, g) <= 1 {
        OnceRun(START, events, c, t);
        assert OnceAt(t, g);
      }
    }
  }

  // ----- never missed -----

  /** The current generation has an Attach out or on its way. */
  predicate Served(s: State) {
    Attaches(s.log, s.gen) + InFlight(s.writes, s.gen) >= 1
  }

  ghost predicate Attentive(s: State) {
    s.attachedGen <= s.gen && (s.gen == 0 ==> !s.live) && (s.attachedGen == s.gen && s.gen > 0 ==> Served(s)) &&
    (s.Ready() && s.pending == 0 ==> Served(s))
  }

  lemma AttentiveStep(s: State, e: Event, c: Mishaps)
    requires Attentive(s) && !c.ownFailures && Permitted(s, e, c)
    ensures Attentive(Next(s, e))
  {
    if e.MaybeAttach? {
      LatchAdds(s, s.gen);
    } else if e.Finish? {
      FinishMoves(s, e.i, e.outcome, s.gen);
    }
  }

  lemma {:induction false} AttentiveRun(s: State, events: seq<Event>, c: Mishaps, t: State)
    requires Attentive(s) && !c.ownFailures && Runs(s, events, c, t)
    ensures Attentive(t)
    decreases |events|
  {
    if events != [] {
      AttentiveStep(s, events[0], c);
      AttentiveRun(Next(s, events[0]), events[1..], c, t);
    }
  }

  /** Everything an Attach needs is there and no step is due, yet the current generation has none. */
  predicate Missed(s: State) {
    s.Ready() && s.pending == 0 && s.writes == [] && Attaches(s.log, s.gen) == 0
  }

  const FORGOTTEN: State := State(1, 0, true, true, true, Usable, 0, 1, [], [Latched(1), Reopened(1)])

  lemma LastCallThenFailure(c: Mishaps)
    requires c.ownFailures
    ensures Runs(READY, [MaybeAttach] + ([MaybeAttach] + ([MaybeAttach] + ([Finish(0, Failed)] + []))), c, FORGOTTEN)
  {
    var a := READY.(pending := 2, attachedGen := 1, writes := [Write(1, 1)], log := [Latched(1)]);
    var b := a.(pending := 1);
    var d := a.(pending := 0);
    assert d.writes[..0] + d.writes[1..] == [];
    assert Next(d, Finish(0, Failed)) == FORGOTTEN;
    OneStepEarlier(d, Finish(0, Failed), [], c, FORGOTTEN);
    var tail := [Finish(0, Failed)] + [];
    OneStepEarlier(b, MaybeAttach, tail, c, FORGOTTEN);
    OneStepEarlier(a, MaybeAttach, [MaybeAttach] + tail, c, FORGOTTEN);
    assert Next(READY, MaybeAttach) == a;
    OneStepEarlier(READY, MaybeAttach, [MaybeAttach] + ([MaybeAttach] + tail), c, FORGOTTEN);
  }

  lemma ForgottenIsMissed()
    ensures Missed(FORGOTTEN)
  {
    assert FORGOTTEN.log[..1][..0] == [];
  }

  /** A write that fails after the last call that was due leaves its generation without an Attach. */
  lemma AttachMissed(c: Mishaps)
    requires c.ownFailures
    ensures exists events: seq<Event>, t: State :: Runs(START, events, c, t) && Missed(t)
  {
    LastCallThenFailure(c);
    var tail := [MaybeAttach] + ([MaybeAttach] + ([MaybeAttach] + ([Finish(0, Failed)] + [])));
    GettingReady(tail, c, FORGOTTEN);
    ForgottenIsMissed();
    var events := [Connect] + ([BroadcastId] + ([ResumeToken(true)] + ([Snapshot] + tail)));
    assert Runs(START, events, c, FORGOTTEN);
  }

  /**
   * With everything there and no step due the current generation has been attached, in every run, if and only if no write
   * comes to nothing within its own generation.
   */
  lemma MissedIffOwnFailures(c: Mishaps)
    ensures (forall events, t | Runs(START, events, c, t) :: !Missed(t)) <==> !c.ownFailures
  {
    if c.ownFailures {
      AttachMissed(c);
    } else {
      forall events, t | Runs(START, events, c, t) ensures !Missed(t) {
        AttentiveRun(START, events, c, t);
        assert InFlight([], t.gen) == 0;
      }
    }
  }
}
