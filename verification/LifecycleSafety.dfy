/** What every interleaving of a session's life keeps, and what it leaves behind once the stop calls have returned. */
module LifecycleSafety {
  import opened Outcomes
  import opened Lifecycle

  predicate IsCall(role: Role) {
    role.StopCall? || role.StopBroadcastCall?
  }

  predicate TearingPc(pc: Pc) {
    pc.TearRead? || pc.TearCancel? || pc.TearCheck? || pc.TearClose?
  }

  /** A session this thread dialled, or was handed, and will close or install itself. */
  predicate Holds(pc: Pc, sid: nat) {
    pc == Dialled(sid) || pc == CloseLate(sid) || pc == DeliverClose(sid)
  }

  predicate AfterWait(pc: Pc) {
    pc.DeliverRead? || pc.DeliverCheck? || pc.DeliverDial? || pc.DeliverClose?
  }

  predicate RolePc(role: Role, pc: Pc) {
    match pc
    case Watch => role.Supervisor?
    case Woken => role.Supervisor?
    case Redial => role.Supervisor?
    case Dialled(_) => role.Supervisor?
    case CloseLate(_) => role.Supervisor?
    case Pumping => role.Pump?
    case SetCode => role.StopBroadcastCall?
    case WaitGroup => IsCall(role)
    case DeliverRead => IsCall(role)
    case DeliverCheck => IsCall(role)
    case DeliverDial => IsCall(role)
    case DeliverClose(_) => IsCall(role)
    case _ => true
  }

  predicate CurrentClosed(s: State) {
    s.current < |s.sessions| && s.sessions[s.current].Closed?
  }

  /** The goroutines a stop call waits for have ended. */
  predicate GroupDone(s: State) {
    |s.threads| >= 2 && s.threads[0].pc == Returned && s.threads[1].pc == Returned
  }

  /** What holds of one thread. */
  ghost predicate ThreadOk(s: State, th: Thread) {
    && RolePc(th.role, th.pc)
    && (forall sid: nat | Holds(th.pc, sid) :: sid < |s.sessions| && sid != s.current)
    && (TearingPc(th.pc) ==> s.stopped)
    && (th.pc.TearCancel? || th.pc.TearCheck? || th.pc.TearClose? ==> th.pc.relay == s.current)
    && (th.pc.WaitGroup? || AfterWait(th.pc) || th.pc.EndOnce? ==> s.stopped)
    && (th.pc.CloseLate? ==> s.stopped)
    && (IsCall(th.role) && (AfterWait(th.pc) || th.pc.EndOnce? || th.pc.Returned?) ==>
          GroupDone(s))
    && (IsCall(th.role) && th.pc.Returned? ==> s.stopped && s.endDone)
    && (th.pc.Woken? || th.pc.Redial? || th.pc.Dialled? ==> CurrentClosed(s))
    && (th.pc.Redial? || th.pc.Dialled? ==> !TerminallyClosed(s))
  }

  ghost predicate SomeoneTears(s: State) {
    exists t :: 0 <= t < |s.threads| && TearingPc(s.threads[t].pc)
  }

  ghost predicate SomeoneHolds(s: State, sid: nat) {
    exists t :: 0 <= t < |s.threads| && Holds(s.threads[t].pc, sid)
  }

  /** A live session is the current one, until someone stops; then the teardown still owes it a close. */
  ghost predicate LiveOk(s: State, sid: nat) {
    if sid == s.current then s.stopped ==> SomeoneTears(s) else SomeoneHolds(s, sid)
  }

  ghost predicate Inv(s: State) {
    && |s.threads| >= 2 && s.threads[0].role == Supervisor && s.threads[1].role == Pump
    && (forall t | 2 <= t < |s.threads| :: IsCall(s.threads[t].role))
    && s.current < |s.sessions|
    && s.ended == (if s.endDone then 1 else 0)
    && (forall t | 0 <= t < |s.threads| :: ThreadOk(s, s.threads[t]))
    && (forall sid | 0 <= sid < |s.sessions| && s.sessions[sid].Live? :: LiveOk(s, sid))
  }

  // ----- every step keeps it -----

  /** Facts about the rest of the state only ever move one way under a step that keeps the current session. */
  ghost predicate Advances(s: State, s': State) {
    && s'.current == s.current && |s.sessions| <= |s'.sessions|
    && (s.stopped ==> s'.stopped) && (s.endDone ==> s'.endDone)
    && (forall sid | 0 <= sid < |s.sessions| && s.sessions[sid].Closed? :: s'.sessions[sid] == s.sessions[sid])
    && (GroupDone(s) ==> GroupDone(s'))
  }

  lemma ThreadStaysOk(s: State, s': State, th: Thread)
    requires ThreadOk(s, th) && Advances(s, s')
    ensures ThreadOk(s', th)
  {}

  ghost predicate OnlyThread(s: State, s': State, t: nat) {
    && t < |s.threads| == |s'.threads|
    && s'.threads[t].role == s.threads[t].role
    && forall u | 0 <= u < |s.threads| && u != t :: s'.threads[u] == s.threads[u]
  }

  /** A step of one thread is fine when that thread ends up fine and no session is left without an owner. */
  lemma OneThreadMoves(s: State, s': State, t: nat)
    requires Inv(s) && OnlyThread(s, s', t) && Advances(s, s')
    requires s'.current < |s'.sessions| && s'.ended == (if s'.endDone then 1 else 0)
    requires ThreadOk(s', s'.threads[t])
    requires forall sid | 0 <= sid < |s'.sessions| && s'.sessions[sid].Live? :: LiveOk(s', sid)
    ensures Inv(s')
  {
    forall u | 0 <= u < |s'.threads| ensures ThreadOk(s', s'.threads[u]) {
      if u != t {
        ThreadStaysOk(s, s', s.threads[u]);
      }
    }
  }

  /** An owner that does not move keeps owning. */
  lemma OwnersStay(s: State, s': State, t: nat, sid: nat)
    requires OnlyThread(s, s', t) && LiveOk(s, sid) && s'.current == s.current && (s'.stopped ==> s.stopped)
    requires TearingPc(s.threads[t].pc) ==> TearingPc(s'.threads[t].pc)
    requires Holds(s.threads[t].pc, sid) ==> Holds(s'.threads[t].pc, sid)
    ensures LiveOk(s', sid)
  {
    if sid == s.current {
      if s.stopped {
        var u :| 0 <= u < |s.threads| && TearingPc(s.threads[u].pc);
        assert TearingPc(s'.threads[u].pc);
      }
    } else {
      var u :| 0 <= u < |s.threads| && Holds(s.threads[u].pc, sid);
      assert Holds(s'.threads[u].pc, sid);
    }
  }

  /** A step that touches neither the sessions nor the stop flag, by a thread that keeps what it owns. */
  lemma PlainMove(s: State, s': State, t: nat)
    requires Inv(s) && OnlyThread(s, s', t) && Advances(s, s')
    requires s'.sessions == s.sessions && s'.stopped == s.stopped && s'.ended == (if s'.endDone then 1 else 0)
    requires TearingPc(s.threads[t].pc) ==> TearingPc(s'.threads[t].pc)
    requires forall sid: nat | Holds(s.threads[t].pc, sid) :: Holds(s'.threads[t].pc, sid)
    requires ThreadOk(s', s'.threads[t])
    ensures Inv(s')
  {
    forall sid | 0 <= sid < |s'.sessions| && s'.sessions[sid].Live? ensures LiveOk(s', sid) {
      OwnersStay(s, s', t, sid);
    }
    OneThreadMoves(s, s', t);
  }

  lemma WokenStep(s: State, t: nat)
    requires Inv(s) && Possible(s, Step(t)) && s.threads[t].pc.Woken?
    ensures Inv(Next(s, Step(t)))
  {
    assert ThreadOk(s, s.threads[t]);
    PlainMove(s, Next(s, Step(t)), t);
  }

  lemma LoopStep(s: State, t: nat)
    requires Inv(s) && Possible(s, Step(t)) && (s.threads[t].pc.Watch? || s.threads[t].pc.Pumping?)
    ensures Inv(Next(s, Step(t)))
  {
    assert ThreadOk(s, s.threads[t]);
    PlainMove(s, Next(s, Step(t)), t);
  }

  lemma SetCodeStep(s: State, t: nat)
    requires Inv(s) && Possible(s, Step(t)) && s.threads[t].pc.SetCode?
    ensures Inv(Next(s, Step(t)))
  {
    assert ThreadOk(s, s.threads[t]);
    PlainMove(s, Next(s, Step(t)), t);
  }

  lemma WaitStep(s: State, t: nat)
    requires Inv(s) && Possible(s, Step(t)) && s.threads[t].pc.WaitGroup?
    ensures Inv(Next(s, Step(t)))
  {
    assert ThreadOk(s, s.threads[t]);
    PlainMove(s, Next(s, Step(t)), t);
  }

  lemma DeliverStep(s: State, t: nat)
    requires Inv(s) && Possible(s, Step(t)) && (s.threads[t].pc.DeliverRead? || s.threads[t].pc.DeliverCheck?)
    ensures Inv(Next(s, Step(t)))
  {
    assert ThreadOk(s, s.threads[t]);
    PlainMove(s, Next(s, Step(t)), t);
  }

  lemma EndStep(s: State, t: nat)
    requires Inv(s) && Possible(s, Step(t)) && s.threads[t].pc.EndOnce?
    ensures Inv(Next(s, Step(t)))
  {
    assert ThreadOk(s, s.threads[t]);
    PlainMove(s, Next(s, Step(t)), t);
  }

  lemma GiveUpKeeps(s: State, t: nat)
    requires Inv(s) && Possible(s, GiveUp(t))
    ensures Inv(Next(s, GiveUp(t)))
  {
    var s' := Next(s, GiveUp(t));
    assert ThreadOk(s, s.threads[t]);
    PlainMove(s, s', t);
  }

  lemma TearStep(s: State, t: nat)
    requires Inv(s) && Possible(s, Step(t))
    requires s.threads[t].pc.TearRead? || s.threads[t].pc.TearCancel? || s.threads[t].pc.TearCheck?
    ensures Inv(Next(s, Step(t)))
  {
    assert ThreadOk(s, s.threads[t]);
    PlainMove(s, Next(s, Step(t)), t);
  }

  lemma TearAgainStep(s: State, t: nat)
    requires Inv(s) && Possible(s, Step(t)) && s.threads[t].pc.TearEnter? && s.stopped
    ensures Inv(Next(s, Step(t)))
  {
    assert ThreadOk(s, s.threads[t]);
    PlainMove(s, Next(s, Step(t)), t);
  }

  /** The thread that sets the stop flag takes on the current session's close. */
  lemma TearFirstStep(s: State, t: nat)
    requires Inv(s) && Possible(s, Step(t)) && s.threads[t].pc.TearEnter? && !s.stopped
    ensures Inv(Next(s, Step(t)))
  {
    var s' := Next(s, Step(t));
    assert ThreadOk(s, s.threads[t]);
    assert TearingPc(s'.threads[t].pc);
    forall sid | 0 <= sid < |s'.sessions| && s'.sessions[sid].Live? ensures LiveOk(s', sid) {
      assert LiveOk(s, sid);
      if sid != s.current {
        var u :| 0 <= u < |s.threads| && Holds(s.threads[u].pc, sid);
        assert Holds(s'.threads[u].pc, sid);
      }
    }
    OneThreadMoves(s, s', t);
  }

  /** Closing the session it tore down, or one it dialled: the closer may let go. */
  lemma OwnersAfterClose(s: State, s': State, t: nat, closed: nat)
    requires Inv(s) && OnlyThread(s, s', t) && s'.current == s.current && s'.stopped == s.stopped
    requires s'.sessions == EndSession(s.sessions, closed, Some(s.closeCode)) ||
             s'.sessions == EndSession(s.sessions, closed, Some(BROADCASTER_STOPPED))
    requires TearingPc(s.threads[t].pc) ==> closed == s.current
    requires forall sid: nat | Holds(s.threads[t].pc, sid) :: closed == sid
    ensures forall sid | 0 <= sid < |s'.sessions| && s'.sessions[sid].Live? :: LiveOk(s', sid)
  {
    forall sid | 0 <= sid < |s'.sessions| && s'.sessions[sid].Live? ensures LiveOk(s', sid) {
      assert s.sessions[sid].Live? && LiveOk(s, sid) && sid != closed;
      if sid != s.current {
        var u :| 0 <= u < |s.threads| && Holds(s.threads[u].pc, sid);
        assert Holds(s'.threads[u].pc, sid);
      } else if s.stopped {
        var u :| 0 <= u < |s.threads| && TearingPc(s.threads[u].pc);
        assert TearingPc(s'.threads[u].pc);
      }
    }
  }

  lemma TearCloseStep(s: State, t: nat)
    requires Inv(s) && Possible(s, Step(t)) && s.threads[t].pc.TearClose?
    ensures Inv(Next(s, Step(t)))
  {
    var s' := Next(s, Step(t));
    assert ThreadOk(s, s.threads[t]);
    OwnersAfterClose(s, s', t, s.current);
    OneThreadMoves(s, s', t);
  }

  lemma LateCloseStep(s: State, t: nat)
    requires Inv(s) && Possible(s, Step(t)) && s.threads[t].pc.CloseLate?
    ensures Inv(Next(s, Step(t)))
  {
    var s' := Next(s, Step(t));
    assert ThreadOk(s, s.threads[t]);
    OwnersAfterClose(s, s', t, s.threads[t].pc.next);
    OneThreadMoves(s, s', t);
  }

  lemma LegCloseStep(s: State, t: nat)
    requires Inv(s) && Possible(s, Step(t)) && s.threads[t].pc.DeliverClose?
    ensures Inv(Next(s, Step(t)))
  {
    var s' := Next(s, Step(t));
    assert ThreadOk(s, s.threads[t]);
    OwnersAfterClose(s, s', t, s.threads[t].pc.leg);
    OneThreadMoves(s, s', t);
  }

  lemma SwapLateStep(s: State, t: nat)
    requires Inv(s) && Possible(s, Step(t)) && s.threads[t].pc.Dialled? && s.stopped
    ensures Inv(Next(s, Step(t)))
  {
    var s' := Next(s, Step(t));
    assert ThreadOk(s, s.threads[t]);
    assert Holds(s.threads[t].pc, s.threads[t].pc.next);
    PlainMove(s, s', t);
  }

  /** Before a stop nobody but the supervisor owns a session. */
  lemma NobodyElseHolds(s: State, u: nat, sid: nat)
    requires Inv(s) && !s.stopped && u < |s.threads| && Holds(s.threads[u].pc, sid)
    ensures u == 0 && s.threads[u].pc == Dialled(sid)
  {
    assert ThreadOk(s, s.threads[u]);
  }

  /** The reclaimed session becomes the current one; the one it replaces had already ended. */
  lemma SwapStep(s: State, t: nat)
    requires Inv(s) && Possible(s, Step(t)) && s.threads[t].pc.Dialled? && !s.stopped
    ensures Inv(Next(s, Step(t)))
  {
    var s' := Next(s, Step(t));
    var next := s.threads[t].pc.next;
    assert ThreadOk(s, s.threads[t]);
    assert Holds(s.threads[t].pc, next);
    NobodyElseHolds(s, t, next);
    forall u | 0 <= u < |s'.threads| ensures ThreadOk(s', s'.threads[u]) {
      assert ThreadOk(s, s.threads[u]);
      forall sid: nat | Holds(s'.threads[u].pc, sid) ensures false {
        NobodyElseHolds(s, u, sid);
      }
    }
    forall sid | 0 <= sid < |s'.sessions| && s'.sessions[sid].Live? ensures LiveOk(s', sid) {
      assert LiveOk(s, sid);
      if sid != s.current {
        var u :| 0 <= u < |s.threads| && Holds(s.threads[u].pc, sid);
        NobodyElseHolds(s, u, sid);
      }
    }
  }

  lemma DialKeeps(s: State, t: nat)
    requires Inv(s) && Possible(s, DialOk(t))
    ensures Inv(Next(s, DialOk(t)))
  {
    var s' := Next(s, DialOk(t));
    assert ThreadOk(s, s.threads[t]);
    assert Holds(s'.threads[t].pc, |s.sessions|);
    forall sid | 0 <= sid < |s'.sessions| && s'.sessions[sid].Live? ensures LiveOk(s', sid) {
      if sid < |s.sessions| {
        OwnersStay(s, s', t, sid);
      }
    }
    OneThreadMoves(s, s', t);
  }

  lemma CloseKeeps(s: State, sid: nat, code: Option<nat>)
    requires Inv(s) && Possible(s, Close(sid, code))
    ensures Inv(Next(s, Close(sid, code)))
  {
    var s' := Next(s, Close(sid, code));
    forall u | 0 <= u < |s'.threads| ensures ThreadOk(s', s'.threads[u]) {
      ThreadStaysOk(s, s', s.threads[u]);
    }
    forall x | 0 <= x < |s'.sessions| && s'.sessions[x].Live? ensures LiveOk(s', x) {
      assert LiveOk(s, x);
    }
  }

  lemma CallKeeps(s: State, role: Role)
    requires Inv(s) && Possible(s, Call(role))
    ensures Inv(Next(s, Call(role)))
  {
    var s' := Next(s, Call(role));
    forall u | 0 <= u < |s'.threads| ensures ThreadOk(s', s'.threads[u]) {
      if u < |s.threads| {
        ThreadStaysOk(s, s', s.threads[u]);
      }
    }
    forall x | 0 <= x < |s'.sessions| && s'.sessions[x].Live? ensures LiveOk(s', x) {
      assert LiveOk(s, x);
      if x != s.current {
        var u :| 0 <= u < |s.threads| && Holds(s.threads[u].pc, x);
        assert Holds(s'.threads[u].pc, x);
      } else if s.stopped {
        var u :| 0 <= u < |s.threads| && TearingPc(s.threads[u].pc);
        assert TearingPc(s'.threads[u].pc);
      }
    }
  }

  lemma NextKeepsInv(s: State, e: Event)
    requires Inv(s) && Possible(s, e)
    ensures Inv(Next(s, e))
  {
    match e
    case Close(sid, code) => CloseKeeps(s, sid, code);
    case Call(role) => CallKeeps(s, role);
    case DialOk(t) => DialKeeps(s, t);
    case GiveUp(t) => GiveUpKeeps(s, t);
    case Step(t) =>
      var pc := s.threads[t].pc;
      if pc.Watch? || pc.Pumping? {
        LoopStep(s, t);
      } else if pc.Woken? {
        WokenStep(s, t);
      } else if pc.SetCode? {
        SetCodeStep(s, t);
      } else if pc.TearEnter? {
        if s.stopped {
          TearAgainStep(s, t);
        } else {
          TearFirstStep(s, t);
        }
      } else if pc.TearRead? || pc.TearCancel? || pc.TearCheck? {
        TearStep(s, t);
      } else if pc.Dialled? {
        if s.stopped {
          SwapLateStep(s, t);
        } else {
          SwapStep(s, t);
        }
      } else if pc.WaitGroup? {
        WaitStep(s, t);
      } else if pc.DeliverRead? || pc.DeliverCheck? {
        DeliverStep(s, t);
      } else if pc.EndOnce? {
        EndStep(s, t);
      } else if pc.TearClose? {
        TearCloseStep(s, t);
      } else if pc.CloseLate? {
        LateCloseStep(s, t);
      } else {
        LegCloseStep(s, t);
      }
  }

  lemma {:induction false} RunKeepsInv(s: State, events: seq<Event>, maxCalls: nat, s': State)
    requires Inv(s) && Leads(s, events, maxCalls, s')
    ensures Inv(s')
    decreases |events|
  {
    if events != [] {
      NextKeepsInv(s, events[0]);
      RunKeepsInv(Next(s, events[0]), events[1..], maxCalls, s');
    }
  }

  lemma StartedInv()
    ensures Inv(STARTED)
  {}

  /**
   * Once at least one stop call was made and every one has returned, every relay session ever dialled has ended,
   * including one whose dial completed after the stop, and OnEnded has fired exactly once.
   */
  lemma AllEndedAfterStops(maxCalls: nat, s: State)
    requires Reachable(maxCalls, s)
    requires exists t :: 0 <= t < |s.threads| && IsCall(s.threads[t].role)
    requires forall t | 0 <= t < |s.threads| && IsCall(s.threads[t].role) :: s.threads[t].pc == Returned
    ensures forall sid | 0 <= sid < |s.sessions| :: s.sessions[sid].Closed?
    ensures s.ended == 1
    ensures forall t | 0 <= t < |s.threads| :: s.threads[t].pc == Returned
  {
    var events :| Leads(STARTED, events, maxCalls, s);
    StartedInv();
    RunKeepsInv(STARTED, events, maxCalls, s);
    var t :| 0 <= t < |s.threads| && IsCall(s.threads[t].role);
    assert ThreadOk(s, s.threads[t]);
    QuietMeansClosed(s);
  }

  lemma QuietMeansClosed(s: State)
    requires Inv(s) && s.stopped && forall t | 0 <= t < |s.threads| :: s.threads[t].pc == Returned
    ensures forall sid | 0 <= sid < |s.sessions| :: s.sessions[sid].Closed?
  {
    assert !SomeoneTears(s);
    assert forall sid :: !SomeoneHolds(s, sid);
  }
}
