/**
 * What a stop comes to, by what happened in the run: which code it carries, when it counts as delivered, and what a
 * StopBroadcast call that has returned has done for it. gawk-server/publisher/engine.go:946-1083, resume.go:60-110.
 */
module LifecycleDelivery {
  import opened Outcomes
  import opened Lifecycle
  import opened LifecycleSafety

  /** The state some events lead to. */
  function After(events: seq<Event>): State {
    if events == [] then STARTED
    else
      var p, e := After(events[..|events| - 1]), events[|events| - 1];
      if Possible(p, e) then Next(p, e) else p
  }

  /** Every event could happen where it came. */
  ghost predicate Run(events: seq<Event>) {
    forall k | 0 <= k < |events| :: Possible(After(events[..k]), events[k])
  }

  /** Where a thread that steps stands. */
  function StepsFrom(s: State, e: Event): Option<Pc> {
    if e.Step? && e.t < |s.threads| then Some(s.threads[e.t].pc) else None
  }

  lemma PossibleAt(events: seq<Event>, k: nat)
    requires Run(events) && k < |events|
    ensures Possible(After(events[..k]), events[k])
  {}

  lemma StillRun(events: seq<Event>, e: Event)
    requires Run(events + [e])
    ensures Run(events) && Possible(After(events), e)
  {
    var all, n := events + [e], |events|;
    forall k | 0 <= k < n ensures Possible(After(events[..k]), events[k]) {
      PossibleAt(all, k);
      assert all[..k] == events[..k] && all[k] == events[k];
    }
    PossibleAt(all, n);
    assert all[..n] == events && all[n] == e;
  }

  lemma StepsOn(events: seq<Event>, e: Event)
    requires Possible(After(events), e)
    ensures After(events + [e]) == Next(After(events), e)
  {
    assert (events + [e])[..|events|] == events;
  }

  lemma Front(events: seq<Event>, e: Event)
    requires Run(events + [e])
    ensures Run(events) && Possible(After(events), e) && After(events + [e]) == Next(After(events), e)
  {
    StillRun(events, e);
    StepsOn(events, e);
  }

  /** The states before the last event are those of the run without it. */
  lemma SameFronts(events: seq<Event>, e: Event)
    ensures forall k | 0 <= k <= |events| :: (events + [e])[..k] == events[..k]
    ensures (events + [e])[..|events|] == events
  {}

  lemma LastEvent(events: seq<Event>)
    requires events != []
    ensures events == events[..|events| - 1] + [events[|events| - 1]]
  {}

  /** The flags of a stop after one event. */
  predicate FlagsAfter(s: State, e: Event, s': State) {
    var at := StepsFrom(s, e);
    && (s'.stopped <==> s.stopped || at == Some(TearEnter))
    && s'.closeCode == (if at == Some(SetCode) && !s.stopped then 4014 else s.closeCode)
    && (s'.stopDelivered <==> s.stopDelivered || Delivers(s, e))
    && (s'.cancelled <==> s.cancelled || (at.Some? && at.value.TearCancel?))
  }

  lemma StepFlags(s: State, t: nat)
    requires Possible(s, Step(t))
    ensures FlagsAfter(s, Step(t), Next(s, Step(t)))
  {
    var th := s.threads[t];
    assert Next(s, Step(t)) == Effect(s, th.pc).(threads := Next(s, Step(t)).threads);
    assert StepsFrom(s, Step(t)) == Some(th.pc);
  }

  /** One event moves the flags like this, and nothing else ever moves them. */
  lemma FlagsMove(s: State, e: Event)
    requires Possible(s, e)
    ensures FlagsAfter(s, e, Next(s, e))
  {
    match e
    case Step(t) => StepFlags(s, t);
    case Close(_, _) =>
    case Call(_) =>
    case DialOk(_) =>
    case GiveUp(_) =>
  }

  /** A teardown finds the session it is about to close alive, or a reclaim's dial answers after a stop. */
  predicate Delivers(s: State, e: Event) {
    match StepsFrom(s, e)
    case Some(TearCheck(relay)) => relay < |s.sessions| && s.sessions[relay].Live?
    case Some(Dialled(_)) => s.stopped
    case _ => false
  }

  // ----- the code -----

  /** The k-th event is a StopBroadcast's preamble, and nothing had begun to tear the session down. */
  ghost predicate StopsFirst(events: seq<Event>, k: nat) {
    k < |events| && StepsFrom(After(events[..k]), events[k]) == Some(SetCode) &&
    forall j | 0 <= j < k :: StepsFrom(After(events[..j]), events[j]) != Some(TearEnter)
  }

  ghost predicate TearsDown(events: seq<Event>, k: nat) {
    k < |events| && StepsFrom(After(events[..k]), events[k]) == Some(TearEnter)
  }

  ghost predicate CodeOf(events: seq<Event>, s: State) {
    (s.stopped <==> exists k: nat :: TearsDown(events, k)) &&
    s.closeCode == if exists k: nat :: StopsFirst(events, k) then 4014 else 0
  }

  lemma TearsDownMore(events: seq<Event>, e: Event, k: nat)
    ensures TearsDown(events + [e], k) <==>
            TearsDown(events, k) || (k == |events| && StepsFrom(After(events), e) == Some(TearEnter))
  {
    SameFronts(events, e);
    if k <= |events| {
      assert (events + [e])[..k] == events[..k];
    }
    assert events[..|events|] == events;
  }

  lemma StopsFirstMore(events: seq<Event>, e: Event, k: nat)
    ensures StopsFirst(events + [e], k) <==>
            StopsFirst(events, k) ||
            (k == |events| && StepsFrom(After(events), e) == Some(SetCode) && !exists j: nat :: TearsDown(events, j))
  {
    SameFronts(events, e);
    var all := events + [e];
    assert events[..|events|] == events;
    forall j: nat | j <= |events| ensures all[..j] == events[..j] {}
    if k == |events| {
      assert forall j: nat | j < k :: TearsDown(events, j) <==> StepsFrom(After(all[..j]), all[j]) == Some(TearEnter);
    }
  }

  lemma StopsFirstThen(events: seq<Event>, e: Event)
    requires Run(events + [e]) && CodeOf(events, After(events))
    ensures (exists k: nat :: StopsFirst(events + [e], k)) <==>
            (exists k: nat :: StopsFirst(events, k)) ||
            (StepsFrom(After(events), e) == Some(SetCode) && !After(events).stopped)
  {
    StopsFirstMore(events, e, |events|);
    forall k: nat ensures StopsFirst(events, k) ==> StopsFirst(events + [e], k) {
      StopsFirstMore(events, e, k);
    }
    forall k: nat ensures StopsFirst(events + [e], k) ==> StopsFirst(events, k) || k == |events| {
      StopsFirstMore(events, e, k);
    }
  }

  lemma TearsDownThen(events: seq<Event>, e: Event)
    requires Run(events + [e]) && CodeOf(events, After(events))
    ensures (exists k: nat :: TearsDown(events + [e], k)) <==>
            After(events).stopped || StepsFrom(After(events), e) == Some(TearEnter)
  {
    TearsDownMore(events, e, |events|);
    forall k: nat ensures TearsDown(events, k) ==> TearsDown(events + [e], k) {
      TearsDownMore(events, e, k);
    }
    forall k: nat ensures TearsDown(events + [e], k) ==> TearsDown(events, k) || k == |events| {
      TearsDownMore(events, e, k);
    }
  }

  lemma CodeNext(events: seq<Event>, p: State, s: State, e: Event)
    requires (exists k: nat :: TearsDown(events, k)) <==> p.stopped || StepsFrom(p, e) == Some(TearEnter)
    requires (exists k: nat :: StopsFirst(events, k)) <==> p.closeCode == 4014 || (StepsFrom(p, e) == Some(SetCode) && !p.stopped)
    requires FlagsAfter(p, e, s) && (p.closeCode == 4014 || p.closeCode == 0)
    ensures CodeOf(events, s)
  {}

  lemma CodeSnoc(events: seq<Event>, e: Event)
    requires Run(events + [e]) && CodeOf(events, After(events))
    ensures CodeOf(events + [e], After(events + [e]))
  {
    Front(events, e);
    StopsFirstThen(events, e);
    TearsDownThen(events, e);
    FlagsMove(After(events), e);
    CodeNext(events + [e], After(events), After(events + [e]), e);
  }

  /**
   * The session is stopped once a teardown has begun, and what it ends with is 4014 if a StopBroadcast call came before
   * any teardown, and 0 otherwise: whichever stop is first decides, for good.
   */
  lemma {:induction false} FirstStopDecides(events: seq<Event>)
    requires Run(events)
    ensures CodeOf(events, After(events))
  {
    if events == [] {
      assert !StopsFirst(events, 0);
    } else {
      var before, e := events[..|events| - 1], events[|events| - 1];
      LastEvent(events);
      Front(before, e);
      FirstStopDecides(before);
      CodeSnoc(before, e);
    }
  }

  // ----- when a stop counts as delivered -----

  ghost predicate DeliversAt(events: seq<Event>, k: nat) {
    k < |events| && Delivers(After(events[..k]), events[k])
  }

  lemma DeliversMore(events: seq<Event>, e: Event, k: nat)
    ensures DeliversAt(events + [e], k) <==> DeliversAt(events, k) || (k == |events| && Delivers(After(events), e))
  {
    SameFronts(events, e);
    if k <= |events| {
      assert (events + [e])[..k] == events[..k];
    }
    assert events[..|events|] == events;
  }

  lemma DeliversThen(events: seq<Event>, e: Event)
    ensures (exists k: nat :: DeliversAt(events + [e], k)) <==>
            (exists k: nat :: DeliversAt(events, k)) || Delivers(After(events), e)
  {
    DeliversMore(events, e, |events|);
    forall k: nat ensures DeliversAt(events, k) ==> DeliversAt(events + [e], k) {
      DeliversMore(events, e, k);
    }
    forall k: nat ensures DeliversAt(events + [e], k) ==> DeliversAt(events, k) || k == |events| {
      DeliversMore(events, e, k);
    }
  }

  /** A stop counts as delivered exactly once it had a session still standing to be said on. */
  lemma {:induction false} DeliveredIff(events: seq<Event>)
    requires Run(events)
    ensures After(events).stopDelivered <==> exists k: nat :: DeliversAt(events, k)
  {
    if events != [] {
      var before, e := events[..|events| - 1], events[|events| - 1];
      LastEvent(events);
      Front(before, e);
      DeliveredIff(before);
      DeliversThen(before, e);
      FlagsMove(After(before), e);
    }
  }

  // ----- what the stop calls leave behind -----

  predicate EndedForGood(s: State) {
    s.current < |s.sessions| &&
    (s.sessions[s.current] == Closed(Some(4000)) || s.sessions[s.current] == Closed(Some(4004)) ||
     s.sessions[s.current] == Closed(Some(4006)))
  }

  /** It was delivered, or there is nobody left to tell, or the call dialled to deliver it or had to give up. */
  ghost predicate Settled(events: seq<Event>, s: State, t: nat) {
    s.stopDelivered || EndedForGood(s) || DialOk(t) in events || GiveUp(t) in events
  }

  /** What holds of thread t: a StopBroadcast call past its preamble, and the loops that have ended. */
  ghost predicate ThreadSettled(events: seq<Event>, s: State, t: nat, th: Thread) {
    && (th.role.StopBroadcastCall? && !th.pc.SetCode? ==> (th.ours <==> s.closeCode == 4014) && (s.stopped || th.ours))
    && (th.role.StopBroadcastCall? && th.ours && (th.pc.EndOnce? || th.pc.Returned? || th.pc.DeliverClose?) ==>
          Settled(events, s, t))
    && (th.pc.Returned? ==> s.stopped)
    && (th.pc.TearCheck? || th.pc.TearClose? ==> s.cancelled)
  }

  ghost predicate Cancelling(s: State) {
    exists t :: 0 <= t < |s.threads| && (s.threads[t].pc.TearRead? || s.threads[t].pc.TearCancel?)
  }

  ghost predicate AllSettled(events: seq<Event>, s: State) {
    forall t | 0 <= t < |s.threads| :: ThreadSettled(events, s, t, s.threads[t])
  }

  /** Once stopped, what a call settled for stays. */
  lemma SettledStays(events: seq<Event>, e: Event, s: State, t: nat)
    requires Possible(s, e) && s.stopped && Settled(events, s, t)
    ensures Settled(events + [e], Next(s, e), t)
  {
    FlagsMove(s, e);
    if EndedForGood(s) {
      EndedStays(s, e);
    }
  }

  lemma EndedStays(s: State, e: Event)
    requires Possible(s, e) && s.stopped && EndedForGood(s)
    ensures EndedForGood(Next(s, e))
  {
    var s' := Next(s, e);
    match e
    case Step(t) =>
      assert s' == Effect(s, s.threads[t].pc).(threads := s'.threads);
      StepEnds(s, s.threads[t].pc);
    case Close(sid, code) =>
    case Call(_) =>
    case DialOk(t) =>
    case GiveUp(_) =>
  }

  lemma StepEnds(s: State, pc: Pc)
    requires s.stopped && EndedForGood(s)
    ensures EndedForGood(Effect(s, pc))
  {}

  lemma OtherThread(events: seq<Event>, e: Event, s: State, t: nat, th: Thread)
    requires Possible(s, e) && ThreadSettled(events, s, t, th) && ThreadOk(s, th)
    ensures ThreadSettled(events + [e], Next(s, e), t, th)
  {
    FlagsMove(s, e);
    if s.stopped && Settled(events, s, t) {
      SettledStays(events, e, s, t);
    }
  }

  /** The thread that moves. */
  lemma OwnStep(events: seq<Event>, s: State, t: nat)
    requires Possible(s, Step(t)) && ThreadSettled(events, s, t, s.threads[t]) && ThreadOk(s, s.threads[t])
    ensures var s' := Next(s, Step(t)); ThreadSettled(events + [Step(t)], s', t, s'.threads[t])
  {
    var th, e := s.threads[t], Step(t);
    FlagsMove(s, e);
    if s.stopped && Settled(events, s, t) {
      SettledStays(events, e, s, t);
    }
  }

  lemma OwnDial(events: seq<Event>, s: State, t: nat)
    requires Possible(s, DialOk(t)) && ThreadSettled(events, s, t, s.threads[t]) && ThreadOk(s, s.threads[t])
    ensures var s' := Next(s, DialOk(t)); ThreadSettled(events + [DialOk(t)], s', t, s'.threads[t])
  {}

  lemma OwnGivingUp(events: seq<Event>, s: State, t: nat)
    requires Possible(s, GiveUp(t)) && ThreadSettled(events, s, t, s.threads[t]) && ThreadOk(s, s.threads[t])
    requires s.cancelled ==> s.stopped
    ensures var s' := Next(s, GiveUp(t)); ThreadSettled(events + [GiveUp(t)], s', t, s'.threads[t])
  {}

  ghost predicate Kept(events: seq<Event>, s: State) {
    Inv(s) && AllSettled(events, s) && (s.cancelled ==> s.stopped) && (s.stopped ==> s.cancelled || Cancelling(s))
  }

  lemma CancelKept(s: State, e: Event)
    requires Possible(s, e) && (s.stopped ==> s.cancelled || Cancelling(s))
    ensures Next(s, e).stopped ==> Next(s, e).cancelled || Cancelling(Next(s, e))
  {
    FlagsMove(s, e);
    var s' := Next(s, e);
    if s'.stopped && !s'.cancelled {
      if s.stopped {
        var u :| 0 <= u < |s.threads| && (s.threads[u].pc.TearRead? || s.threads[u].pc.TearCancel?);
        assert s'.threads[u].pc.TearRead? || s'.threads[u].pc.TearCancel?;
      } else {
        assert s'.threads[e.t].pc.TearRead?;
      }
    }
  }

  lemma NextSettles(events: seq<Event>, s: State, e: Event)
    requires Kept(events, s) && Possible(s, e)
    ensures AllSettled(events + [e], Next(s, e))
  {
    var s' := Next(s, e);
    forall t | 0 <= t < |s'.threads| ensures ThreadSettled(events + [e], s', t, s'.threads[t]) {
      if t < |s.threads| {
        OtherThread(events, e, s, t, s.threads[t]);
        match e
        case Step(u) => if u == t { OwnStep(events, s, t); }
        case DialOk(u) => if u == t { OwnDial(events, s, t); }
        case GiveUp(u) => if u == t { OwnGivingUp(events, s, t); }
        case Close(_, _) =>
        case Call(_) =>
      }
    }
  }

  lemma KeptSnoc(events: seq<Event>, s: State, e: Event)
    requires Kept(events, s) && Possible(s, e)
    ensures Kept(events + [e], Next(s, e))
  {
    NextKeepsInv(s, e);
    FlagsMove(s, e);
    CancelKept(s, e);
    NextSettles(events, s, e);
    if StepsFrom(s, e).Some? && StepsFrom(s, e).value.TearCancel? {
      assert ThreadOk(s, s.threads[e.t]);
    }
  }

  lemma {:induction false} RunKept(events: seq<Event>)
    requires Run(events)
    ensures Kept(events, After(events))
  {
    if events == [] {
      StartedInv();
    } else {
      var before, e := events[..|events| - 1], events[|events| - 1];
      LastEvent(events);
      Front(before, e);
      RunKept(before);
      KeptSnoc(before, After(before), e);
    }
  }

  /**
   * In every run, a StopBroadcast call whose 4014 is the session's code goes to its end only once the stop has been said
   * on a session that stood, or the relay had ended the session for good, or the call itself dialled to say it or had to
   * give up. The supervisor and the pump never end before a stop has begun, and a stop that has begun cancels.
   */
  lemma StopsAreDelivered(events: seq<Event>, t: nat)
    requires Run(events) && t < |After(events).threads|
    ensures var s := After(events); var th := s.threads[t];
            && (th.role.StopBroadcastCall? && s.closeCode == 4014 && (th.pc.EndOnce? || th.pc.Returned?) ==>
                  s.stopDelivered || EndedForGood(s) || DialOk(t) in events || GiveUp(t) in events)
            && (th.pc.Returned? ==> s.stopped)
            && (s.stopped ==> s.cancelled || Cancelling(s))
  {
    RunKept(events);
    var s := After(events);
    assert ThreadSettled(events, s, t, s.threads[t]);
  }

  lemma OneMore(before: seq<Event>, rest: seq<Event>)
    requires rest != []
    ensures (before + [rest[0]]) + rest[1..] == before + rest
  {}

  lemma RunGrows(before: seq<Event>, e: Event)
    requires Run(before) && Possible(After(before), e)
    ensures Run(before + [e]) && After(before + [e]) == Next(After(before), e)
  {
    var all := before + [e];
    assert all[..|before|] == before;
    forall k | 0 <= k < |all| ensures Possible(After(all[..k]), all[k]) {
      if k < |before| {
        assert all[..k] == before[..k];
      }
    }
  }

  lemma {:induction false} LeadsRuns(before: seq<Event>, rest: seq<Event>, maxCalls: nat, s: State)
    requires Run(before) && Leads(After(before), rest, maxCalls, s)
    ensures Run(before + rest) && After(before + rest) == s
    decreases |rest|
  {
    if rest == [] {
      assert before + rest == before;
    } else {
      RunGrows(before, rest[0]);
      LeadsRuns(before + [rest[0]], rest[1..], maxCalls, s);
      OneMore(before, rest);
    }
  }
}
