/** Which close codes keep an engine down for good: gawk-server/publisher/resume.go:64-73 and 226-234, by their numbers. */
module LifecycleCloseCodes {
  import opened Outcomes
  import opened Lifecycle
  import opened LifecycleSafety
  import opened LifecycleDial

  /** The engine's current session has ended with this close code, or abruptly for None. */
  predicate EndedWith(s: State, code: Option<nat>) {
    s.current < |s.sessions| && s.sessions[s.current] == Closed(code)
  }

  /** Neither the supervisor nor a stop delivery has a dial in hand. */
  ghost predicate NobodyDials(s: State) {
    forall t | 0 <= t < |s.threads| :: s.threads[t].pc != Redial && s.threads[t].pc != DeliverDial
  }

  predicate EndsForGood(code: Option<nat>) {
    code == Some(4000) || code == Some(4004) || code == Some(4006)
  }

  function EndedAt(code: Option<nat>, pc: Pc): State {
    State(false, 0, false, false, 0, [Closed(code)], [Thread(Supervisor, pc, false), Thread(Pump, Pumping, false)], false, 0)
  }

  /** The relay ends the first session, the supervisor wakes and reads the code. */
  lemma ReadsTheCode(stops: Stops, code: Option<nat>)
    ensures Reaches(stops, EndedAt(code, if EndsForGood(code) then TearEnter else Redial))
  {
    var woken := EndedAt(code, Woken);
    var after := EndedAt(code, if EndsForGood(code) then TearEnter else Redial);
    assert Next(STARTED, Close(0, code)) == EndedAt(code, Watch);
    RunsSnoc(STARTED, [], stops, STARTED, Close(0, code));
    assert Next(EndedAt(code, Watch), Step(0)) == woken;
    RunsSnoc(STARTED, [] + [Close(0, code)], stops, EndedAt(code, Watch), Step(0));
    assert Next(woken, Step(0)) == after;
    RunsSnoc(STARTED, [] + [Close(0, code)] + [Step(0)], stops, woken, Step(0));
  }

  /**
   * As long as stop calls are kept apart, an engine whose current session ended with a code dials no more, in every run,
   * if and only if the code is 4000, 4004 or 4006; after any other code and after an abrupt end some run dials.
   */
  lemma KeptDownIff(stops: Stops, code: Option<nat>)
    requires stops.KeepsApart()
    ensures (forall s | Reaches(stops, s) && EndedWith(s, code) :: NobodyDials(s)) <==>
            code == Some(4000) || code == Some(4004) || code == Some(4006)
  {
    if EndsForGood(code) {
      forall s | Reaches(stops, s) && EndedWith(s, code) ensures NobodyDials(s) {
        ApartStaysDown(stops, s);
      }
    } else {
      ReadsTheCode(stops, code);
      assert EndedAt(code, Redial).threads[0].pc == Redial;
    }
  }
}
