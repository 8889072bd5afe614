/** The close codes a session's end leaves behind: gawk-server/publisher/engine.go and resume.go. */
module LifecycleCodes {
  import opened Outcomes
  import opened Lifecycle
  import opened LifecycleSafety

  /** What holds of one thread: a delivery is only ever made for a call that found the stop's code in place. */
  ghost predicate ThreadCodeOk(s: State, th: Thread) {
    (th.ours ==> s.closeCode == BROADCASTER_STOPPED) && (AfterWait(th.pc) ==> th.ours)
  }

  ghost predicate CodesOk(s: State) {
    (s.closeCode == 0 || s.closeCode == BROADCASTER_STOPPED) &&
    (forall sid | 0 <= sid < |s.sessions| && s.sessions[sid].Closed? ::
       s.stopped && s.sessions[sid].code == Some(s.closeCode)) &&
    forall t | 0 <= t < |s.threads| :: ThreadCodeOk(s, s.threads[t])
  }

  /** A step changes the code only before the first teardown, and then to the stop's own. */
  lemma CodeMoves(s: State, t: nat)
    requires t < |s.threads| && Possible(s, Step(t))
    ensures var s' := Next(s, Step(t));
            (s'.closeCode == s.closeCode || (!s.stopped && s'.closeCode == BROADCASTER_STOPPED)) &&
            (s.stopped ==> s'.stopped && s'.closeCode == s.closeCode)
  {}

  lemma SessionsKept(s: State, t: nat)
    requires Inv(s) && CodesOk(s) && t < |s.threads| && Possible(s, Step(t))
    ensures var s' := Next(s, Step(t));
            forall sid | 0 <= sid < |s'.sessions| && s'.sessions[sid].Closed? ::
              s'.stopped && s'.sessions[sid].code == Some(s'.closeCode)
  {
    var s' := Next(s, Step(t));
    CodeMoves(s, t);
    assert ThreadOk(s, s.threads[t]) && ThreadCodeOk(s, s.threads[t]);
    forall sid | 0 <= sid < |s'.sessions| && s'.sessions[sid].Closed?
      ensures s'.stopped && s'.sessions[sid].code == Some(s'.closeCode)
    {
      if s.sessions[sid].Live? {
        assert s.threads[t].pc.CloseLate? || s.threads[t].pc.TearClose? || s.threads[t].pc.DeliverClose?;
      }
    }
  }

  lemma ThreadsKept(s: State, t: nat)
    requires CodesOk(s) && t < |s.threads| && Possible(s, Step(t))
    ensures var s' := Next(s, Step(t));
            forall i | 0 <= i < |s'.threads| :: ThreadCodeOk(s', s'.threads[i])
  {
    var s' := Next(s, Step(t));
    CodeMoves(s, t);
    forall i | 0 <= i < |s'.threads| ensures ThreadCodeOk(s', s'.threads[i]) {
      assert ThreadCodeOk(s, s.threads[i]);
    }
  }

  lemma StepKeepsCodes(s: State, e: Event)
    requires Inv(s) && CodesOk(s) && Possible(s, e) && !e.Close?
    ensures CodesOk(Next(s, e))
  {
    match e
    case Step(t) =>
      SessionsKept(s, t);
      ThreadsKept(s, t);
    case Call(role) =>
    case DialOk(t) => OthersKept(s, e, t);
    case GiveUp(t) => OthersKept(s, e, t);
  }

  lemma OthersKept(s: State, e: Event, t: nat)
    requires CodesOk(s) && Possible(s, e) && (e == DialOk(t) || e == GiveUp(t))
    ensures CodesOk(Next(s, e))
  {
    var s' := Next(s, e);
    forall i | 0 <= i < |s'.threads| ensures ThreadCodeOk(s', s'.threads[i]) {
      assert ThreadCodeOk(s, s.threads[i]);
    }
  }

  /** The relay, and the network, never end a session themselves. */
  predicate OnlyEngineCloses(events: seq<Event>) {
    forall e | e in events :: !e.Close?
  }

  lemma {:induction false} RunKeepsCodes(s: State, events: seq<Event>, maxCalls: nat, s': State)
    requires Inv(s) && CodesOk(s) && Leads(s, events, maxCalls, s') && OnlyEngineCloses(events)
    ensures CodesOk(s')
    decreases |events|
  {
    if events != [] {
      assert events[0] in events;
      NextKeepsInv(s, events[0]);
      StepKeepsCodes(s, events[0]);
      RunKeepsCodes(Next(s, events[0]), events[1..], maxCalls, s');
    }
  }

  /** Some StopBroadcast call was made. */
  ghost predicate Asked(s: State) {
    exists t :: 0 <= t < |s.threads| && s.threads[t].role.StopBroadcastCall?
  }

  lemma StepKeepsAsking(s: State, e: Event)
    requires Inv(s) && Possible(s, e) && (s.closeCode != 0 ==> Asked(s))
    ensures Next(s, e).closeCode != 0 ==> Asked(Next(s, e))
  {
    var s' := Next(s, e);
    if s'.closeCode != 0 {
      if s.closeCode != 0 {
        var t :| 0 <= t < |s.threads| && s.threads[t].role.StopBroadcastCall?;
        assert s'.threads[t].role == s.threads[t].role;
      } else {
        assert e.Step?;
        assert ThreadOk(s, s.threads[e.t]);
        assert s'.threads[e.t].role.StopBroadcastCall?;
      }
    }
  }

  lemma {:induction false} RunKeepsAsking(s: State, events: seq<Event>, maxCalls: nat, s': State)
    requires Inv(s) && Leads(s, events, maxCalls, s') && (s.closeCode != 0 ==> Asked(s))
    ensures s'.closeCode != 0 ==> Asked(s')
    decreases |events|
  {
    if events != [] {
      NextKeepsInv(s, events[0]);
      StepKeepsAsking(s, events[0]);
      RunKeepsAsking(Next(s, events[0]), events[1..], maxCalls, s');
    }
  }

  /**
   * Where only the engine ends sessions, every session it has ended, a late reclaim's included, carries one and the same
   * code: 0, or 4014 if a StopBroadcast call was made.
   */
  lemma OneCodeForAll(events: seq<Event>, maxCalls: nat, s: State, sid: nat)
    requires Leads(STARTED, events, maxCalls, s) && OnlyEngineCloses(events)
    requires sid < |s.sessions| && s.sessions[sid].Closed?
    ensures s.sessions[sid].code == Some(s.closeCode)
    ensures s.closeCode == 0 || (s.closeCode == BROADCASTER_STOPPED && Asked(s))
  {
    StartedInv();
    assert CodesOk(STARTED);
    RunKeepsCodes(STARTED, events, maxCalls, s);
    RunKeepsAsking(STARTED, events, maxCalls, s);
  }
}
