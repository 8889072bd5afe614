/**
 * Several engines publishing under one code against a relay where the newest publisher wins: 4004 only ever reaches
 * a session that is not the one dialled last. As long as a deposed engine stays down, the takeovers converge.
 */
module Fleet {
  import opened Outcomes
  import opened Lifecycle
  import opened LifecycleSafety
  import opened LifecycleDial

  /** `owner` and `newest` name the session the relay currently counts as the publisher. */
  datatype Fleet = Fleet(engines: seq<State>, owner: nat, newest: nat)

  datatype Move = Move(engine: nat, event: Event)

  predicate Supersedes(e: Event) {
    e.Close? && e.code == Some(PUBLISHER_SUPERSEDED)
  }

  predicate MoveAllowed(f: Fleet, m: Move, stops: Stops) {
    && m.engine < |f.engines|
    && Permitted(f.engines[m.engine], m.event, stops)
    && !(Supersedes(m.event) && m.engine == f.owner && m.event.sid == f.newest)
  }

  function After(f: Fleet, m: Move): Fleet
    requires m.engine < |f.engines| && Possible(f.engines[m.engine], m.event)
  {
    var s := f.engines[m.engine];
    var engines := f.engines[m.engine := Next(s, m.event)];
    if m.event.DialOk? then Fleet(engines, m.engine, |s.sessions|) else f.(engines := engines)
  }

  /** The engine has lost its broadcast to a newer publisher. */
  predicate Superseded(s: State) {
    s.current < |s.sessions| && s.sessions[s.current] == Closed(Some(PUBLISHER_SUPERSEDED))
  }

  ghost predicate EngineOk(s: State, stops: Stops) {
    Calm(s, stops) && (s.closeCode == 0 || s.closeCode == BROADCASTER_STOPPED)
  }

  /** What ties the newest session to its engine. */
  ghost predicate OwnerOk(s: State, newest: nat) {
    && |s.threads| >= 2 && newest < |s.sessions| && s.sessions[newest] != Closed(Some(PUBLISHER_SUPERSEDED))
    && !Superseded(s)
    && (newest == s.current || CurrentClosed(s))
    && (s.threads[0].pc.Dialled? ==> s.threads[0].pc.next == newest)
  }

  ghost predicate FleetInv(f: Fleet, stops: Stops) {
    && f.owner < |f.engines|
    && (forall i | 0 <= i < |f.engines| :: EngineOk(f.engines[i], stops))
    && OwnerOk(f.engines[f.owner], f.newest)
  }

  /** N engines whose Start has returned, the owner's being the last; the others may have been superseded already. */
  ghost predicate Initial(f: Fleet) {
    && f.owner < |f.engines| && f.newest == 0 && f.engines[f.owner] == STARTED
    && forall i | 0 <= i < |f.engines| ::
         f.engines[i] == STARTED || f.engines[i] == STARTED.(sessions := [Closed(Some(PUBLISHER_SUPERSEDED))])
  }

  ghost predicate FleetLeads(f: Fleet, moves: seq<Move>, stops: Stops, f': Fleet)
    decreases |moves|
  {
    if moves == [] then f' == f
    else MoveAllowed(f, moves[0], stops) && FleetLeads(After(f, moves[0]), moves[1..], stops, f')
  }

  /** The engines superseded in this state. */
  function SupersededNow(f: Fleet): set<nat> {
    set i: nat | i < |f.engines| && Superseded(f.engines[i])
  }

  /** The engines superseded in any state of the run. */
  ghost function EverSuperseded(f: Fleet, moves: seq<Move>, stops: Stops, f': Fleet): set<nat>
    requires FleetLeads(f, moves, stops, f')
    decreases |moves|
  {
    SupersededNow(f) + if moves == [] then {} else EverSuperseded(After(f, moves[0]), moves[1..], stops, f')
  }

  // ----- what every move keeps -----

  lemma EngineStep(s: State, e: Event, stops: Stops)
    requires EngineOk(s, stops) && Permitted(s, e, stops) && stops.KeepsApart()
    ensures EngineOk(Next(s, e), stops)
  {
    CalmStep(s, e, stops);
    CodeKept(s, e);
  }

  lemma CodeKept(s: State, e: Event)
    requires Possible(s, e) && (s.closeCode == 0 || s.closeCode == BROADCASTER_STOPPED)
    ensures Next(s, e).closeCode == 0 || Next(s, e).closeCode == BROADCASTER_STOPPED
  {
    match e
    case Step(t) => assert Next(s, e).closeCode == Effect(s, s.threads[t].pc).closeCode;
    case Close(_, _) =>
    case Call(_) =>
    case DialOk(_) =>
    case GiveUp(_) =>
  }

  /** A fresh dial comes from an engine whose current session ended without being superseded. */
  lemma DialOwns(s: State, t: nat, stops: Stops)
    requires EngineOk(s, stops) && Possible(s, DialOk(t))
    ensures OwnerOk(Next(s, DialOk(t)), |s.sessions|)
  {
    assert ThreadOk(s, s.threads[t]);
    assert ThreadOk(s, s.threads[0]);
    assert CurrentClosed(s) && !TerminallyClosed(s);
  }

  /** The owner keeps what it owns through any event but a dial, as long as the relay does not supersede it. */
  lemma OwnerStep(s: State, e: Event, newest: nat, stops: Stops)
    requires EngineOk(s, stops) && OwnerOk(s, newest) && Possible(s, e) && !e.DialOk?
    requires !(Supersedes(e) && e.sid == newest)
    ensures OwnerOk(Next(s, e), newest)
  {
    if e.Step? {
      OwnerThreadStep(s, e.t, newest, stops);
    }
  }

  /** One session differs at most, and only by having been closed with a code that is not 4004. */
  ghost predicate OnlyOwnCloses(before: seq<Status>, after: seq<Status>) {
    && |after| == |before|
    && forall sid | 0 <= sid < |before| ::
         after[sid] == before[sid] ||
         (before[sid].Live? && after[sid].Closed? && after[sid] != Closed(Some(PUBLISHER_SUPERSEDED)))
  }

  lemma EffectSessions(s: State, pc: Pc)
    requires s.closeCode == 0 || s.closeCode == BROADCASTER_STOPPED
    ensures OnlyOwnCloses(s.sessions, Effect(s, pc).sessions)
  {}

  lemma StepCurrent(s: State, t: nat)
    requires Inv(s) && Possible(s, Step(t))
    ensures Next(s, Step(t)).current == if s.threads[t].pc.Dialled? && !s.stopped then s.threads[t].pc.next else s.current
    ensures s.threads[t].pc.Dialled? ==> t == 0
    ensures Next(s, Step(t)).threads[0].pc.Dialled? ==> t != 0 && s.threads[0].pc == Next(s, Step(t)).threads[0].pc
  {
    assert ThreadOk(s, s.threads[t]);
  }

  lemma OwnerThreadStep(s: State, t: nat, newest: nat, stops: Stops)
    requires EngineOk(s, stops) && OwnerOk(s, newest) && Possible(s, Step(t))
    ensures OwnerOk(Next(s, Step(t)), newest)
  {
    EffectSessions(s, s.threads[t].pc);
    StepCurrent(s, t);
  }

  lemma MoveKeepsInv(f: Fleet, m: Move, stops: Stops)
    requires FleetInv(f, stops) && MoveAllowed(f, m, stops) && stops.KeepsApart()
    ensures FleetInv(After(f, m), stops)
  {
    var s := f.engines[m.engine];
    EngineStep(s, m.event, stops);
    if m.event.DialOk? {
      DialOwns(s, m.event.t, stops);
    } else if m.engine == f.owner {
      OwnerStep(s, m.event, f.newest, stops);
    }
  }

  /** A superseded engine has no reclaim to install, so the session it lost stays its current one. */
  lemma SupersededStays(s: State, e: Event)
    requires Inv(s) && Possible(s, e) && Superseded(s)
    ensures Superseded(Next(s, e))
  {
    if e.Step? {
      assert ThreadOk(s, s.threads[e.t]);
      StepCurrent(s, e.t);
    }
  }

  lemma MoveKeepsSuperseded(f: Fleet, m: Move, stops: Stops)
    requires FleetInv(f, stops) && MoveAllowed(f, m, stops)
    ensures SupersededNow(f) <= SupersededNow(After(f, m))
  {
    forall i | i in SupersededNow(f) ensures i in SupersededNow(After(f, m)) {
      if i == m.engine {
        SupersededStays(f.engines[i], m.event);
      }
    }
  }

  /** Whoever was superseded at any point of the run still is at its end. */
  lemma {:induction false} FleetRun(f: Fleet, moves: seq<Move>, stops: Stops, f': Fleet)
    requires FleetInv(f, stops) && FleetLeads(f, moves, stops, f') && stops.KeepsApart()
    ensures FleetInv(f', stops) && |f'.engines| == |f.engines|
    ensures EverSuperseded(f, moves, stops, f') <= SupersededNow(f')
    ensures SupersededNow(f) <= SupersededNow(f')
    decreases |moves|
  {
    if moves != [] {
      MoveKeepsInv(f, moves[0], stops);
      MoveKeepsSuperseded(f, moves[0], stops);
      FleetRun(After(f, moves[0]), moves[1..], stops, f');
    }
  }

  lemma InitialInv(f: Fleet, stops: Stops)
    requires Initial(f)
    ensures FleetInv(f, stops)
  {
    SupersededStart(stops);
  }

  lemma SupersededStart(stops: Stops)
    ensures EngineOk(STARTED, stops) && EngineOk(STARTED.(sessions := [Closed(Some(PUBLISHER_SUPERSEDED))]), stops)
  {
    StartedCalm(stops);
    assert Possible(STARTED, Close(0, Some(PUBLISHER_SUPERSEDED)));
    NextKeepsInv(STARTED, Close(0, Some(PUBLISHER_SUPERSEDED)));
    var s := Next(STARTED, Close(0, Some(PUBLISHER_SUPERSEDED)));
    assert s.sessions == [Closed(Some(PUBLISHER_SUPERSEDED))];
    assert s == STARTED.(sessions := [Closed(Some(PUBLISHER_SUPERSEDED))]);
  }

  function Below(n: nat): (r: set<nat>)
    ensures |r| == n && forall i: nat :: i in r <==> i < n
  {
    if n == 0 then {} else Below(n - 1) + {n - 1}
  }

  lemma {:induction false} SubsetCount(a: set<nat>, b: set<nat>)
    requires a <= b
    ensures |a| <= |b|
  {
    if a != {} {
      var x :| x in a;
      SubsetCount(a - {x}, b - {x});
    }
  }

  lemma OwnerIsSpared(f: Fleet, stops: Stops)
    requires FleetInv(f, stops)
    ensures |SupersededNow(f)| <= |f.engines| - 1
  {
    SubsetCount(SupersededNow(f), Below(|f.engines|) - {f.owner});
  }

  lemma SupersededIsQuiet(s: State, stops: Stops, t: nat)
    requires EngineOk(s, stops) && t < |s.threads| && Superseded(s)
    ensures !AboutToDial(s.threads[t].pc)
  {
    assert ThreadOk(s, s.threads[t]);
  }

  /** With stop calls kept apart in every engine, at most N-1 of N engines on one code are ever superseded. */
  lemma TakeoversConverge(f: Fleet, moves: seq<Move>, stops: Stops, f': Fleet)
    requires Initial(f) && FleetLeads(f, moves, stops, f') && stops.KeepsApart()
    ensures |EverSuperseded(f, moves, stops, f')| <= |f.engines| - 1
    ensures forall i, t | 0 <= i < |f'.engines| && 0 <= t < |f'.engines[i].threads| && Superseded(f'.engines[i]) ::
              !AboutToDial(f'.engines[i].threads[t].pc)
  {
    InitialInv(f, stops);
    FleetRun(f, moves, stops, f');
    OwnerIsSpared(f', stops);
    SubsetCount(EverSuperseded(f, moves, stops, f'), SupersededNow(f'));
    forall i, t | 0 <= i < |f'.engines| && 0 <= t < |f'.engines[i].threads| && Superseded(f'.engines[i])
      ensures !AboutToDial(f'.engines[i].threads[t].pc)
    {
      SupersededIsQuiet(f'.engines[i], stops, t);
    }
  }

  // ----- and otherwise they need not -----

  /** The first engine's own steps, told as moves of the fleet. */
  function Moves(events: seq<Event>): seq<Move> {
    if events == [] then [] else [Move(0, events[0])] + Moves(events[1..])
  }

  /** Neither a dial nor a takeover. */
  predicate Uncontested(events: seq<Event>) {
    forall e | e in events :: !e.DialOk? && !Supersedes(e)
  }

  lemma {:induction false} FirstEngineRuns(f: Fleet, events: seq<Event>, stops: Stops, s': State)
    requires |f.engines| >= 1 && Runs(f.engines[0], events, stops, s') && Uncontested(events)
    ensures FleetLeads(f, Moves(events), stops, f.(engines := f.engines[0 := s']))
    decreases |events|
  {
    if events == [] {
      assert f.engines[0 := s'] == f.engines;
    } else {
      assert events[0] in events;
      var g := After(f, Move(0, events[0]));
      FirstEngineRuns(g, events[1..], stops, s');
      assert Moves(events)[1..] == Moves(events[1..]);
      assert g.engines[0 := s'] == f.engines[0 := s'];
    }
  }

  lemma {:induction false} FleetSnoc(f: Fleet, moves: seq<Move>, stops: Stops, g: Fleet, m: Move)
    requires FleetLeads(f, moves, stops, g) && MoveAllowed(g, m, stops)
    ensures FleetLeads(f, moves + [m], stops, After(g, m))
    decreases |moves|
  {
    if moves == [] {
      assert [m][1..] == [] && [] + [m] == [m];
    } else {
      FleetSnoc(After(f, moves[0]), moves[1..], stops, g, m);
      assert (moves + [m])[0] == moves[0] && (moves + [m])[1..] == moves[1..] + [m];
    }
  }

  lemma {:induction false} EndIsInRun(f: Fleet, moves: seq<Move>, stops: Stops, f': Fleet)
    requires FleetLeads(f, moves, stops, f')
    ensures SupersededNow(f') <= EverSuperseded(f, moves, stops, f')
    decreases |moves|
  {
    if moves != [] {
      EndIsInRun(After(f, moves[0]), moves[1..], stops, f');
    }
  }

  /** The first engine owns the broadcast, and the others have been superseded already. */
  ghost function LoneOwner(n: nat): Fleet
    requires n >= 1
  {
    Fleet([STARTED] + seq(n - 1, i => STARTED.(sessions := [Closed(Some(PUBLISHER_SUPERSEDED))])), 0, 0)
  }

  /** The delivery's dial makes the engine's own live session the older one, and so the relay supersedes it. */
  lemma OwnDialSupersedes(f: Fleet, stops: Stops)
    requires |f.engines| >= 1 && f.engines[0] == ABOUT_TO_DIAL
    ensures MoveAllowed(f, Move(0, DialOk(2)), stops)
    ensures var g := After(f, Move(0, DialOk(2)));
            var close := Move(0, Close(0, Some(PUBLISHER_SUPERSEDED)));
            MoveAllowed(g, close, stops) && Superseded(After(g, close).engines[0]) &&
            After(g, close).engines[1..] == f.engines[1..]
  {}

  lemma LoneOwnerLoses(n: nat, stops: Stops) returns (moves: seq<Move>, f': Fleet)
    requires n >= 1 && Mixes(stops)
    ensures FleetLeads(LoneOwner(n), moves, stops, f')
    ensures |f'.engines| == n && Superseded(f'.engines[0]) && f'.engines[1..] == LoneOwner(n).engines[1..]
  {
    var f := LoneOwner(n);
    OverlapDials(stops);
    var events := TWO_CALLS + TEARS_DOWN + GOES_ON;
    assert Uncontested(events);
    FirstEngineRuns(f, events, stops, ABOUT_TO_DIAL);
    var g := f.(engines := f.engines[0 := ABOUT_TO_DIAL]);
    OwnDialSupersedes(g, stops);
    var dial, close := Move(0, DialOk(2)), Move(0, Close(0, Some(PUBLISHER_SUPERSEDED)));
    FleetSnoc(f, Moves(events), stops, g, dial);
    FleetSnoc(f, Moves(events) + [dial], stops, After(g, dial), close);
    moves, f' := Moves(events) + [dial] + [close], After(After(g, dial), close);
  }

  lemma AllSuperseded(n: nat, stops: Stops)
    requires n >= 1 && Mixes(stops)
    ensures exists f, moves, f' ::
              Initial(f) && |f.engines| == n && FleetLeads(f, moves, stops, f') && |EverSuperseded(f, moves, stops, f')| >= n
  {
    var f := LoneOwner(n);
    var moves, f' := LoneOwnerLoses(n, stops);
    EveryoneLost(f, f', n);
    EndIsInRun(f, moves, stops, f');
    SubsetCount(Below(n), EverSuperseded(f, moves, stops, f'));
    assert Initial(f);
  }

  lemma EveryoneLost(f: Fleet, f': Fleet, n: nat)
    requires n >= 1 && f == LoneOwner(n) && |f'.engines| == n
    requires Superseded(f'.engines[0]) && f'.engines[1..] == f.engines[1..]
    ensures Below(n) <= SupersededNow(f')
  {
    forall i: nat | i < n ensures Superseded(f'.engines[i]) {
      if i > 0 {
        assert f'.engines[i] == f'.engines[1..][i - 1] == f.engines[i];
      }
    }
  }

  /**
   * Among N engines on one code at most N-1 are ever superseded, in every run, if and only if no engine lets a
   * StopBroadcast call overlap another stop call.
   */
  lemma ConvergeIffApart(n: nat, stops: Stops)
    requires n >= 1
    ensures (forall f, moves, f' | Initial(f) && |f.engines| == n && FleetLeads(f, moves, stops, f') ::
               |EverSuperseded(f, moves, stops, f')| <= n - 1) <==> stops.KeepsApart()
  {
    if stops.KeepsApart() {
      forall f, moves, f' | Initial(f) && |f.engines| == n && FleetLeads(f, moves, stops, f')
        ensures |EverSuperseded(f, moves, stops, f')| <= n - 1
      {
        TakeoversConverge(f, moves, stops, f');
      }
    } else {
      AllSuperseded(n, stops);
    }
  }
}
