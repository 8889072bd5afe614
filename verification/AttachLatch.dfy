/**
 * The attach latch of gawk-server/publisher/room.go: connects, snapshots, credentials, publish resumes and disconnects in
 * any order, with the check that takes the latch and the write that follows it as separate steps.
 */
module AttachLatch {

  datatype Token = Missing | Unusable | Usable

  /** A latch taken at a generation, on a connection, whose Attach is still to be written. */
  datatype Write = Write(gen: nat, conn: nat)

  /** How the write ends; a failed one reopens the latch. */
  datatype Outcome = Sent | Failed | Unencodable

  datatype Entry =
    | Latched(gen: nat)
    | Attached(w: Write, conn: nat, haveState: bool)
    | Reopened(gen: nat)

  /** pending counts the maybeAttach calls that are due; conn numbers the connections. */
  datatype State = State(
    gen: nat,
    attachedGen: nat,
    live: bool,
    haveState: bool,
    id: bool,
    token: Token,
    pending: nat,
    conn: nat,
    writes: seq<Write>,
    log: seq<Entry>
  ) {
    /** Everything an Attach needs is there. */
    predicate Ready() {
      live && haveState && id && token == Usable
    }
  }

  const START: State := State(0, 0, false, false, false, Missing, 0, 0, [], [])

  datatype Event =
    | Connect
    | Disconnect
    | Snapshot
    | BroadcastId
    | ResumeToken(usable: bool)
    | PublishResume
    | MaybeAttach
    | Finish(i: nat, outcome: Outcome)

  predicate Enabled(s: State, e: Event) {
    match e
    case Connect => !s.live
    case Disconnect => s.live
    case Snapshot => s.live
    case MaybeAttach => s.pending > 0
    case Finish(i, outcome) => i < |s.writes| && (outcome.Sent? ==> s.live)
    case _ => true
  }

  function Next(s: State, e: Event): State
    requires Enabled(s, e)
  {
    match e
    case Connect => s.(live := true, conn := s.conn + 1, gen := s.gen + 1, haveState := false)
    case Disconnect => s.(live := false)
    case Snapshot => s.(haveState := true, pending := s.pending + 1)
    case BroadcastId => s.(id := true, pending := s.pending + 1)
    case ResumeToken(usable) => s.(token := if usable then Usable else Unusable, pending := s.pending + 1)
    case PublishResume => s.(gen := s.gen + 1, pending := s.pending + 1)
    case MaybeAttach =>
      var s1 := s.(pending := s.pending - 1);
      if s.Ready() && s.attachedGen != s.gen then
        s1.(attachedGen := s.gen, writes := s.writes + [Write(s.gen, s.conn)], log := s.log + [Latched(s.gen)])
      else s1
    case Finish(i, outcome) =>
      var s1 := s.(writes := s.writes[..i] + s.writes[i + 1..]);
      match outcome
      case Sent => s1.(log := s.log + [Attached(s.writes[i], s.conn, s.haveState)])
      case Failed => s1.(attachedGen := 0, log := s.log + [Reopened(s.gen)])
      case Unencodable => s1
  }

  /** The fields of roomClient behind the latch, with the credentials the session holds; each method is one locked step. */
  class RoomClient {
    var gen: nat
    var attachedGen: nat
    var stream: bool
    var haveState: bool
    var id: bool
    var token: Token
    ghost var pending: nat
    ghost var conn: nat
    ghost var writes: seq<Write>
    ghost var log: seq<Entry>

    ghost function Abs(): State
      reads this
    {
      State(gen, attachedGen, stream, haveState, id, token, pending, conn, writes, log)
    }

    constructor ()
      ensures Abs() == START
    {
      gen, attachedGen, stream, haveState, id, token := 0, 0, false, false, false, Missing;
      pending, conn, writes, log := 0, 0, [], [];
    }

    method ServeStarts()
      requires Enabled(Abs(), Connect)
      modifies this
      ensures Abs() == Next(old(Abs()), Connect)
    {
      stream := true;
      gen := gen + 1;
      haveState := false;
      conn := conn + 1;
    }

    method ServeEnds()
      requires Enabled(Abs(), Disconnect)
      modifies this
      ensures Abs() == Next(old(Abs()), Disconnect)
    {
      stream := false;
    }

    method OnState()
      requires Enabled(Abs(), Snapshot)
      modifies this
      ensures Abs() == Next(old(Abs()), Snapshot)
    {
      haveState := true;
      pending := pending + 1;
    }

    method Reattach()
      modifies this
      ensures Abs() == Next(old(Abs()), PublishResume)
    {
      gen := gen + 1;
      pending := pending + 1;
    }

    /** The check: latched says an Attach must now be written. */
    method MaybeAttach() returns (latched: bool)
      requires Enabled(Abs(), Event.MaybeAttach)
      modifies this
      ensures Abs() == Next(old(Abs()), Event.MaybeAttach)
      ensures latched <==> |writes| == |old(writes)| + 1
    {
      pending := pending - 1;
      if !stream || !haveState || attachedGen == gen {
        return false;
      }
      if !id || token == Missing {
        return false;
      }
      if token == Unusable {
        return false;
      }
      attachedGen := gen;
      writes := writes + [Write(gen, conn)];
      log := log + [Latched(gen)];
      return true;
    }

    method WriteEnds(ghost i: nat, outcome: Outcome)
      requires Enabled(Abs(), Finish(i, outcome))
      modifies this
      ensures Abs() == Next(old(Abs()), Finish(i, outcome))
    {
      ghost var w := writes[i];
      writes := writes[..i] + writes[i + 1..];
      if outcome == Sent {
        log := log + [Attached(w, conn, haveState)];
      } else if outcome == Failed {
        attachedGen := 0;
        log := log + [Reopened(gen)];
      }
    }
  }

  ghost predicate Run(s: State, events: seq<Event>, t: State)
    decreases |events|
  {
    if events == [] then t == s else Enabled(s, events[0]) && Run(Next(s, events[0]), events[1..], t)
  }

  // ----- counting -----

  function Latches(log: seq<Entry>, g: nat): nat {
    if log == [] then 0
    else Latches(log[..|log| - 1], g) + (if log[|log| - 1] == Latched(g) then 1 else 0)
  }

  function Reopenings(log: seq<Entry>, g: nat): nat {
    if log == [] then 0
    else Reopenings(log[..|log| - 1], g) + (if log[|log| - 1] == Reopened(g) then 1 else 0)
  }

  function Attaches(log: seq<Entry>, g: nat): nat {
    if log == [] then 0
    else Attaches(log[..|log| - 1], g) + (if log[|log| - 1].Attached? && log[|log| - 1].w.gen == g then 1 else 0)
  }

  function InFlight(writes: seq<Write>, g: nat): nat {
    if writes == [] then 0 else InFlight(writes[..|writes| - 1], g) + (if writes[|writes| - 1].gen == g then 1 else 0)
  }

  lemma OneMore(log: seq<Entry>, x: Entry, g: nat)
    ensures Latches(log + [x], g) == Latches(log, g) + (if x == Latched(g) then 1 else 0)
    ensures Reopenings(log + [x], g) == Reopenings(log, g) + (if x == Reopened(g) then 1 else 0)
    ensures Attaches(log + [x], g) == Attaches(log, g) + (if x.Attached? && x.w.gen == g then 1 else 0)
  {
    assert (log + [x])[..|log|] == log;
  }

  lemma {:induction false} OneLess(writes: seq<Write>, i: nat, g: nat)
    requires i < |writes|
    ensures InFlight(writes[..i] + writes[i + 1..], g) + (if writes[i].gen == g then 1 else 0) == InFlight(writes, g)
    decreases |writes|
  {
    var n := |writes| - 1;
    var rest := writes[..i] + writes[i + 1..];
    if i == n {
      assert rest == writes[..n];
    } else {
      OneLess(writes[..n], i, g);
      assert rest[..n - 1] == writes[..n][..i] + writes[..n][i + 1..];
      assert rest[n - 1] == writes[n];
    }
  }

  // ----- what every step keeps -----

  /** A generation is latched once, and once more for each time a failed write reopened the latch during it. */
  predicate LatchesCounted(s: State, g: nat) {
    Latches(s.log, g) <= Reopenings(s.log, g) + (if g < s.gen || (g == s.gen && s.attachedGen == s.gen) then 1 else 0)
  }

  /** Every Attach written, or still to be, came from a latch. */
  predicate AttachesCounted(s: State, g: nat) {
    Attaches(s.log, g) + InFlight(s.writes, g) <= Latches(s.log, g)
  }

  ghost predicate Counted(s: State) {
    s.attachedGen <= s.gen && forall g: nat :: LatchesCounted(s, g) && AttachesCounted(s, g)
  }

  /** With nothing due and everything there, this generation has been latched, unless a failed write reopened it. */
  ghost predicate Caught(s: State) {
    (s.Ready() && s.pending == 0 ==> s.attachedGen == s.gen || Reopenings(s.log, s.gen) > 0) &&
    (s.attachedGen == s.gen && s.gen > 0 ==> Latches(s.log, s.gen) > 0) &&
    (s.gen == 0 ==> !s.live)
  }

  /** A write still on the connection it was latched for has that connection's snapshot behind it. */
  ghost predicate Backed(s: State) {
    (forall w | w in s.writes :: w.conn <= s.conn && (w.conn == s.conn ==> s.haveState)) &&
    forall x | x in s.log :: x.Attached? && x.w.conn == x.conn ==> x.haveState
  }

  lemma LatchingCounted(s: State, g: nat)
    requires LatchesCounted(s, g) && Enabled(s, MaybeAttach) && s.attachedGen <= s.gen
    ensures LatchesCounted(Next(s, MaybeAttach), g)
  {
    OneMore(s.log, Latched(s.gen), g);
  }

  lemma FinishCounted(s: State, i: nat, outcome: Outcome, g: nat)
    requires LatchesCounted(s, g) && Enabled(s, Finish(i, outcome)) && s.attachedGen <= s.gen
    ensures LatchesCounted(Next(s, Finish(i, outcome)), g)
  {
    OneMore(s.log, Reopened(s.gen), g);
    OneMore(s.log, Attached(s.writes[i], s.conn, s.haveState), g);
  }

  lemma LatchesCountedKept(s: State, e: Event, g: nat)
    requires LatchesCounted(s, g) && Enabled(s, e) && s.attachedGen <= s.gen
    ensures LatchesCounted(Next(s, e), g)
  {
    if e.MaybeAttach? {
      LatchingCounted(s, g);
    } else if e.Finish? {
      FinishCounted(s, e.i, e.outcome, g);
    }
  }

  lemma AttachesCountedKept(s: State, e: Event, g: nat)
    requires AttachesCounted(s, g) && Enabled(s, e)
    ensures AttachesCounted(Next(s, e), g)
  {
    if e.MaybeAttach? {
      LatchAdds(s, g);
    } else if e.Finish? {
      FinishMoves(s, e.i, e.outcome, g);
    }
  }

  /** Taking the latch adds a latch and a write in flight. */
  lemma LatchAdds(s: State, g: nat)
    ensures Latches(s.log + [Latched(s.gen)], g) == Latches(s.log, g) + (if s.gen == g then 1 else 0)
    ensures Attaches(s.log + [Latched(s.gen)], g) == Attaches(s.log, g)
    ensures InFlight(s.writes + [Write(s.gen, s.conn)], g) == InFlight(s.writes, g) + (if s.gen == g then 1 else 0)
  {
    OneMore(s.log, Latched(s.gen), g);
    assert (s.writes + [Write(s.gen, s.conn)])[..|s.writes|] == s.writes;
  }

  /** Finishing a write takes it out of flight; only a sent one becomes an Attach. */
  lemma FinishMoves(s: State, i: nat, outcome: Outcome, g: nat)
    requires Enabled(s, Finish(i, outcome))
    ensures var t := Next(s, Finish(i, outcome));
            var own := if s.writes[i].gen == g then 1 else 0;
            Latches(t.log, g) == Latches(s.log, g) && InFlight(t.writes, g) + own == InFlight(s.writes, g) &&
            Attaches(t.log, g) == Attaches(s.log, g) + if outcome.Sent? then own else 0
  {
    OneLess(s.writes, i, g);
    match outcome
    case Sent => OneMore(s.log, Attached(s.writes[i], s.conn, s.haveState), g);
    case Failed => OneMore(s.log, Reopened(s.gen), g);
    case Unencodable =>
  }

  lemma CountedKept(s: State, e: Event)
    requires Counted(s) && Enabled(s, e)
    ensures Counted(Next(s, e))
  {
    forall g: nat ensures LatchesCounted(Next(s, e), g) && AttachesCounted(Next(s, e), g) {
      assert LatchesCounted(s, g) && AttachesCounted(s, g);
      LatchesCountedKept(s, e, g);
      AttachesCountedKept(s, e, g);
    }
  }

  lemma CaughtKept(s: State, e: Event)
    requires Caught(s) && s.attachedGen <= s.gen && Enabled(s, e)
    ensures Caught(Next(s, e))
  {
    OneMore(s.log, Latched(s.gen), s.gen);
    OneMore(s.log, Reopened(s.gen), s.gen);
    if e.Finish? {
      OneMore(s.log, Attached(s.writes[e.i], s.conn, s.haveState), s.gen);
    }
  }

  lemma BackedKept(s: State, e: Event)
    requires Backed(s) && Enabled(s, e)
    ensures Backed(Next(s, e))
  {}

  lemma {:induction false} RunKeeps(s: State, events: seq<Event>, t: State)
    requires Run(s, events, t) && Counted(s) && Caught(s) && Backed(s)
    ensures Counted(t) && Caught(t) && Backed(t)
    decreases |events|
  {
    if events != [] {
      CountedKept(s, events[0]);
      CaughtKept(s, events[0]);
      BackedKept(s, events[0]);
      RunKeeps(Next(s, events[0]), events[1..], t);
    }
  }

  /** At most one Attach per generation, and one more for each failed write during it; once and no more if none fails. */
  lemma AttachedOncePerGeneration(events: seq<Event>, t: State, g: nat)
    requires Run(START, events, t)
    ensures Attaches(t.log, g) <= Latches(t.log, g) <= 1 + Reopenings(t.log, g)
  {
    RunKeeps(START, events, t);
    assert LatchesCounted(t, g) && AttachesCounted(t, g);
  }

  /**
   * The latch never misses: with the stream up, snapshot and both credentials there and no call due, the current
   * generation has been latched, and stays so unless a write failed.
   */
  lemma NeverMissed(events: seq<Event>, t: State)
    requires Run(START, events, t) && t.Ready() && t.pending == 0
    ensures Latches(t.log, t.gen) > 0 || Reopenings(t.log, t.gen) > 0
    ensures Reopenings(t.log, t.gen) == 0 ==> t.attachedGen == t.gen && Latches(t.log, t.gen) == 1
  {
    RunKeeps(START, events, t);
    assert LatchesCounted(t, t.gen);
  }

  /** An Attach written on the connection it was latched for follows that connection's snapshot. */
  lemma AttachFollowsSnapshot(events: seq<Event>, t: State, x: Entry)
    requires Run(START, events, t) && x in t.log && x.Attached? && x.w.conn == x.conn
    ensures x.haveState
  {
    RunKeeps(START, events, t);
  }

  // ----- check and write as one step -----

  /** A run in which every check that takes the latch is followed at once by its successful write. */
  ghost predicate OneStep(s: State, events: seq<Event>)
    decreases |events|
  {
    events == [] ||
    (Enabled(s, events[0]) &&
     (s.writes != [] ==> events[0] == Finish(0, Sent)) && OneStep(Next(s, events[0]), events[1..]))
  }

  ghost predicate Simple(s: State) {
    |s.writes| <= 1 && (s.writes != [] ==> s.Ready() && s.writes[0] == Write(s.gen, s.conn)) &&
    forall x | x in s.log :: !x.Reopened? && (x.Attached? ==> x.haveState && x.w.conn == x.conn)
  }

  lemma {:induction false} OneStepKeeps(s: State, events: seq<Event>, t: State)
    requires Run(s, events, t) && OneStep(s, events) && Simple(s)
    ensures Simple(t)
    decreases |events|
  {
    if events != [] {
      OneStepKeeps(Next(s, events[0]), events[1..], t);
    }
  }

  lemma {:induction false} NothingReopened(log: seq<Entry>, g: nat)
    requires forall x | x in log :: !x.Reopened?
    ensures Reopenings(log, g) == 0
  {
    if log != [] {
      NothingReopened(log[..|log| - 1], g);
    }
  }

  lemma {:induction false} LatchesBecomeAttaches(s: State, events: seq<Event>, t: State, g: nat)
    requires Run(s, events, t) && OneStep(s, events) && Simple(s)
    requires Latches(s.log, g) == Attaches(s.log, g) + InFlight(s.writes, g)
    ensures Latches(t.log, g) == Attaches(t.log, g) + InFlight(t.writes, g)
    decreases |events|
  {
    if events != [] {
      var e := events[0];
      if e.MaybeAttach? {
        LatchAdds(s, g);
      } else if e.Finish? {
        FinishMoves(s, e.i, e.outcome, g);
      }
      LatchesBecomeAttaches(Next(s, e), events[1..], t, g);
    }
  }

  /**
   * With check and write as one step and writes succeeding: every Attach follows its connection's snapshot, none goes out
   * twice in a generation, and once everything is there with nothing due the current generation has been attached.
   */
  lemma ExactlyOnce(events: seq<Event>, t: State, g: nat)
    requires Run(START, events, t) && OneStep(START, events)
    ensures Attaches(t.log, g) <= 1
    ensures forall x | x in t.log && x.Attached? :: x.haveState && x.w.conn == x.conn
    ensures t.Ready() && t.pending == 0 && t.writes == [] ==> Attaches(t.log, t.gen) == 1
  {
    OneStepKeeps(START, events, t);
    NothingReopened(t.log, g);
    NothingReopened(t.log, t.gen);
    AttachedOncePerGeneration(events, t, g);
    if t.Ready() && t.pending == 0 && t.writes == [] {
      NeverMissed(events, t);
      LatchesBecomeAttaches(START, events, t, t.gen);
    }
  }
}
