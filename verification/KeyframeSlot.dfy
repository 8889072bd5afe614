/**
 * The keyframe lane of gawk-server/publisher/send.go as interleaved steps: the pump inside send, one writer goroutine
 * per keyframe stream, setRelay on the resume supervisor, and wait on the teardown path.
 */
module KeyframeSlot {
  import opened Outcomes

  const UINT32_LIMIT := 0x1_0000_0000

  /** A keyframe stream's life after OpenUniStream. */
  datatype Writer =
    | Unregistered          // opened, kfMu not taken yet
    | Refused               // the sender was closed: never written
    | Writing               // Write or Close under way
    | Wrote(ok: bool)       // the outcome is known, kfMu not taken yet
    | Cleared(ok: bool)     // past the slot, counters not updated yet
    | Finished

  datatype Stream = Stream(writer: Writer, cancelled: bool)

  datatype Pump =
    | Idle
    | Keyframe              // counted as encoded; header, open
    | Opened(sid: nat)
    | Abandon(sid: nat)     // found the sender closed: cancel and count
    | Delta

  /** A setRelay call that took a stream out of the slot and has yet to cancel it. */
  datatype Swap = Swap(held: Option<nat>)

  datatype Wait = Waiting | Returned

  datatype Stats = Stats(encodedFrames: nat, keyframes: nat, sentFrames: nat, framesDropped: nat,
                         keyframesSent: nat, keyframesFailed: nat, keyframesSuperseded: nat)

  datatype State = State(
    nextFrameID: nat, st: Stats, pump: Pump, streams: seq<Stream>,
    inflight: Option<nat>, closed: bool, swaps: seq<Swap>, waits: seq<Wait>)

  const NEW_SENDER := State(0, Stats(0, 0, 0, 0, 0, 0, 0), Idle, [], None, false, [], [])

  datatype Event =
    | SendKeyframe | SendDelta       // send: the pump takes an access unit
    | DeltaDone(sent: bool)          // sendDelta counts the frame sent or dropped
    | KeyframeRefused                // header too large, or the stream did not open
    | KeyframeOpened
    | Register                       // the locked region of sendKeyframe
    | Abandoned                      // CancelWrite and the failure count of the closed path
    | WriteEnds(sid: nat, ok: bool)  // Write and Close return to the writer
    | ClearSlot(sid: nat)            // the writer's locked region
    | CountWrite(sid: nat)           // the writer's counters, then kfWG.Done
    | SwapRelay                      // setRelay empties the slot
    | CancelHeld(i: nat)             // and cancels what it took
    | CallWait                       // wait: closed = true
    | WaitReturns(i: nat)            // kfWG.Wait returns

  /** The goroutine is counted in kfWG. */
  predicate InGroup(w: Writer) {
    w.Writing? || w.Wrote? || w.Cleared?
  }

  predicate LiveWriter(w: Writer) {
    w.Writing? || w.Wrote?
  }

  function GroupCount(streams: seq<Stream>): nat {
    if streams == [] then 0
    else GroupCount(streams[..|streams| - 1]) + (if InGroup(streams[|streams| - 1].writer) then 1 else 0)
  }

  predicate Possible(s: State, e: Event) {
    match e
    case SendKeyframe => s.pump.Idle?
    case SendDelta => s.pump.Idle?
    case DeltaDone(_) => s.pump.Delta?
    case KeyframeRefused => s.pump.Keyframe?
    case KeyframeOpened => s.pump.Keyframe?
    case Register => s.pump.Opened? && s.pump.sid < |s.streams|
    case Abandoned => s.pump.Abandon? && s.pump.sid < |s.streams|
    case WriteEnds(sid, _) => sid < |s.streams| && s.streams[sid].writer.Writing?
    case ClearSlot(sid) => sid < |s.streams| && s.streams[sid].writer.Wrote?
    case CountWrite(sid) => sid < |s.streams| && s.streams[sid].writer.Cleared?
    case SwapRelay => true
    case CancelHeld(i) => i < |s.swaps| && s.swaps[i].held.Some? && s.swaps[i].held.value < |s.streams|
    case CallWait => true
    case WaitReturns(i) => i < |s.waits| && s.waits[i].Waiting? && GroupCount(s.streams) == 0
  }

  function Cancel(streams: seq<Stream>, sid: Option<nat>): (r: seq<Stream>)
    ensures |r| == |streams|
    ensures forall i | 0 <= i < |r| :: r[i].writer == streams[i].writer
    ensures forall i | 0 <= i < |r| :: r[i].cancelled == (streams[i].cancelled || sid == Some(i))
  {
    if sid.Some? && sid.value < |streams| then streams[sid.value := streams[sid.value].(cancelled := true)] else streams
  }

  function SetWriter(streams: seq<Stream>, sid: nat, w: Writer): (r: seq<Stream>)
    requires sid < |streams|
    ensures |r| == |streams|
  {
    streams[sid := streams[sid].(writer := w)]
  }

  function Encoded(s: State, keyframe: bool, pump: Pump): State {
    s.(nextFrameID := (s.nextFrameID + 1) % UINT32_LIMIT, pump := pump,
       st := s.st.(encodedFrames := s.st.encodedFrames + 1, keyframes := s.st.keyframes + (if keyframe then 1 else 0)))
  }

  function CountFailed(st: Stats): Stats {
    st.(keyframesFailed := st.keyframesFailed + 1)
  }

  function Next(s: State, e: Event): State
    requires Possible(s, e)
  {
    match e
    case SendKeyframe => Encoded(s, true, Keyframe)
    case SendDelta => Encoded(s, false, Delta)
    case DeltaDone(sent) =>
      s.(pump := Idle,
         st := if sent then s.st.(sentFrames := s.st.sentFrames + 1) else s.st.(framesDropped := s.st.framesDropped + 1))
    case KeyframeRefused => s.(pump := Idle, st := CountFailed(s.st))
    case KeyframeOpened => s.(pump := Opened(|s.streams|), streams := s.streams + [Stream(Unregistered, false)])
    case Register =>
      if s.closed then s.(pump := Abandon(s.pump.sid))
      else
        s.(pump := Idle, inflight := Some(s.pump.sid),
           streams := SetWriter(Cancel(s.streams, s.inflight), s.pump.sid, Writing),
           st := if s.inflight.Some? then s.st.(keyframesSuperseded := s.st.keyframesSuperseded + 1) else s.st)
    case Abandoned =>
      s.(pump := Idle, streams := SetWriter(Cancel(s.streams, Some(s.pump.sid)), s.pump.sid, Refused), st := CountFailed(s.st))
    case WriteEnds(sid, ok) => s.(streams := SetWriter(s.streams, sid, Wrote(ok)))
    case ClearSlot(sid) =>
      s.(streams := SetWriter(s.streams, sid, Cleared(s.streams[sid].writer.ok)),
         inflight := if s.inflight == Some(sid) then None else s.inflight)
    case CountWrite(sid) =>
      s.(streams := SetWriter(s.streams, sid, Finished),
         st := if s.streams[sid].writer.ok
               then s.st.(keyframesSent := s.st.keyframesSent + 1, sentFrames := s.st.sentFrames + 1)
               else CountFailed(s.st))
    case SwapRelay => s.(inflight := None, swaps := s.swaps + [Swap(s.inflight)])
    case CancelHeld(i) =>
      s.(streams := Cancel(s.streams, s.swaps[i].held), swaps := s.swaps[i := Swap(None)])
    case CallWait => s.(closed := true, waits := s.waits + [Waiting])
    case WaitReturns(i) => s.(waits := s.waits[i := Returned])
  }

  ghost predicate Leads(s: State, events: seq<Event>, s': State)
    decreases |events|
  {
    if events == [] then s' == s
    else Possible(s, events[0]) && Leads(Next(s, events[0]), events[1..], s')
  }

  // ----- what every interleaving keeps -----

  ghost predicate HeldBySwap(s: State, sid: nat) {
    exists i :: 0 <= i < |s.swaps| && s.swaps[i].held == Some(sid)
  }

  /** A keyframe stream that is still being written is in the slot, cancelled, or in the hands of a setRelay. */
  ghost predicate Accounted(s: State, sid: nat)
    requires sid < |s.streams|
  {
    LiveWriter(s.streams[sid].writer) ==> s.inflight == Some(sid) || s.streams[sid].cancelled || HeldBySwap(s, sid)
  }

  function PumpHas(p: Pump): nat {
    if p.Idle? then 0 else 1
  }

  function PumpHasKeyframe(p: Pump): nat {
    if p.Idle? || p.Delta? then 0 else 1
  }

  ghost predicate Conserved(s: State) {
    && s.st.encodedFrames == s.st.sentFrames + s.st.framesDropped + s.st.keyframesFailed
                             + PumpHas(s.pump) + GroupCount(s.streams)
    && s.st.keyframes == s.st.keyframesSent + s.st.keyframesFailed + PumpHasKeyframe(s.pump) + GroupCount(s.streams)
    && s.nextFrameID == s.st.encodedFrames % UINT32_LIMIT
  }

  ghost predicate PumpOk(s: State) {
    && (s.pump.Opened? ==> s.pump.sid < |s.streams| && s.streams[s.pump.sid].writer.Unregistered?)
    && (s.pump.Abandon? ==> s.pump.sid < |s.streams| && s.streams[s.pump.sid].writer.Unregistered? && s.closed)
  }

  ghost predicate Inv(s: State) {
    && (forall sid | 0 <= sid < |s.streams| :: Accounted(s, sid))
    && (s.inflight.Some? ==> s.inflight.value < |s.streams|)
    && (forall i | 0 <= i < |s.swaps| && s.swaps[i].held.Some? :: s.swaps[i].held.value < |s.streams|)
    && PumpOk(s) && Conserved(s)
    && (s.waits != [] ==> s.closed)
    && (forall i | 0 <= i < |s.waits| && s.waits[i].Returned? :: GroupCount(s.streams) == 0)
  }

  lemma {:induction false} GroupAppend(streams: seq<Stream>, x: Stream)
    ensures GroupCount(streams + [x]) == GroupCount(streams) + (if InGroup(x.writer) then 1 else 0)
  {
    assert (streams + [x])[..|streams|] == streams;
  }

  lemma {:induction false} GroupSame(a: seq<Stream>, b: seq<Stream>)
    requires |a| == |b| && forall i | 0 <= i < |a| :: a[i].writer == b[i].writer
    ensures GroupCount(a) == GroupCount(b)
  {
    if a != [] {
      GroupSame(a[..|a| - 1], b[..|b| - 1]);
    }
  }

  lemma {:induction false} GroupUpdate(streams: seq<Stream>, sid: nat, w: Writer)
    requires sid < |streams|
    ensures GroupCount(SetWriter(streams, sid, w)) + (if InGroup(streams[sid].writer) then 1 else 0)
            == GroupCount(streams) + (if InGroup(w) then 1 else 0)
  {
    var n := |streams| - 1;
    if sid < n {
      GroupUpdate(streams[..n], sid, w);
      assert SetWriter(streams, sid, w)[..n] == SetWriter(streams[..n], sid, w);
    } else {
      assert SetWriter(streams, sid, w)[..n] == streams[..n];
    }
  }

  lemma {:induction false} NoneInGroup(streams: seq<Stream>, sid: nat)
    requires sid < |streams| && GroupCount(streams) == 0
    ensures !InGroup(streams[sid].writer)
  {
    if sid < |streams| - 1 {
      NoneInGroup(streams[..|streams| - 1], sid);
    }
  }

  ghost predicate CountsStand(s: State, s': State) {
    Conserved(s') && (s.closed ==> GroupCount(s'.streams) <= GroupCount(s.streams))
  }

  lemma NextID(n: nat)
    ensures (n % UINT32_LIMIT + 1) % UINT32_LIMIT == (n + 1) % UINT32_LIMIT
  {
  }

  /** A frame takes the next ID and is the pump's until it is counted. */
  lemma EncodedCounts(s: State, e: Event)
    requires Inv(s) && Possible(s, e) && (e.SendKeyframe? || e.SendDelta?)
    ensures CountsStand(s, Next(s, e))
  {
    NextID(s.st.encodedFrames);
  }

  /** The counters move with the pump while the streams stand still. */
  lemma PumpCounts(s: State, e: Event)
    requires Inv(s) && Possible(s, e) && Next(s, e).streams == s.streams && !e.SendKeyframe? && !e.SendDelta?
    ensures CountsStand(s, Next(s, e))
  {
  }

  lemma RegisterCounts(s: State)
    requires Inv(s) && Possible(s, Register) && !s.closed
    ensures CountsStand(s, Next(s, Register))
  {
    GroupSame(s.streams, Cancel(s.streams, s.inflight));
    GroupUpdate(Cancel(s.streams, s.inflight), s.pump.sid, Writing);
  }

  lemma AbandonedCounts(s: State)
    requires Inv(s) && Possible(s, Abandoned)
    ensures CountsStand(s, Next(s, Abandoned))
  {
    GroupSame(s.streams, Cancel(s.streams, Some(s.pump.sid)));
    GroupUpdate(Cancel(s.streams, Some(s.pump.sid)), s.pump.sid, Refused);
  }

  lemma WriterCounts(s: State, e: Event)
    requires Inv(s) && Possible(s, e) && (e.WriteEnds? || e.ClearSlot? || e.CountWrite?)
    ensures CountsStand(s, Next(s, e))
  {
    match e
    case WriteEnds(sid, ok) => GroupUpdate(s.streams, sid, Wrote(ok));
    case ClearSlot(sid) => GroupUpdate(s.streams, sid, Cleared(s.streams[sid].writer.ok));
    case CountWrite(sid) => GroupUpdate(s.streams, sid, Finished);
  }

  lemma CountsKept(s: State, e: Event)
    requires Inv(s) && Possible(s, e)
    ensures CountsStand(s, Next(s, e))
  {
    match e
    case SendKeyframe => EncodedCounts(s, e);
    case SendDelta => EncodedCounts(s, e);
    case KeyframeOpened => GroupAppend(s.streams, Stream(Unregistered, false));
    case Register =>
      if s.closed {
        PumpCounts(s, e);
      } else {
        RegisterCounts(s);
      }
    case Abandoned => AbandonedCounts(s);
    case WriteEnds(_, _) => WriterCounts(s, e);
    case ClearSlot(_) => WriterCounts(s, e);
    case CountWrite(_) => WriterCounts(s, e);
    case CancelHeld(_) => GroupSame(s.streams, Next(s, e).streams);
    case _ => PumpCounts(s, e);
  }

  lemma WritersKept(s: State, e: Event, sid: nat)
    requires Inv(s) && Possible(s, e) && sid < |Next(s, e).streams|
    ensures Accounted(Next(s, e), sid)
  {
    var s' := Next(s, e);
    if sid < |s.streams| && LiveWriter(s'.streams[sid].writer) {
      assert Accounted(s, sid);
      if e.SwapRelay? {
        SwapTakes(s, sid);
      } else if HeldBySwap(s, sid) {
        var i :| 0 <= i < |s.swaps| && s.swaps[i].held == Some(sid);
        if e != CancelHeld(i) {
          assert s'.swaps[i].held == Some(sid);
        }
      }
    }
  }

  /** Emptying the slot hands its stream to the caller. */
  lemma SwapTakes(s: State, sid: nat)
    requires sid < |s.streams| && Accounted(s, sid)
    ensures Accounted(Next(s, SwapRelay), sid)
  {
    var s' := Next(s, SwapRelay);
    assert s'.swaps[|s.swaps|].held == s.inflight;
    if HeldBySwap(s, sid) {
      var i :| 0 <= i < |s.swaps| && s.swaps[i].held == Some(sid);
      assert s'.swaps[i].held == Some(sid);
    }
  }

  lemma SlotsKept(s: State, e: Event)
    requires Inv(s) && Possible(s, e)
    ensures var s' := Next(s, e);
            && (s'.inflight.Some? ==> s'.inflight.value < |s'.streams|)
            && (forall i | 0 <= i < |s'.swaps| && s'.swaps[i].held.Some? :: s'.swaps[i].held.value < |s'.streams|)
            && PumpOk(s')
  {}

  lemma WaitsKept(s: State, e: Event)
    requires Inv(s) && Possible(s, e)
    ensures var s' := Next(s, e);
            && (s.closed ==> s'.closed) && (s'.waits != [] ==> s'.closed)
            && (forall i | 0 <= i < |s'.waits| && s'.waits[i].Returned? :: GroupCount(s'.streams) == 0)
  {
    CountsKept(s, e);
  }

  lemma NextKeepsInv(s: State, e: Event)
    requires Inv(s) && Possible(s, e)
    ensures Inv(Next(s, e))
  {
    var s' := Next(s, e);
    CountsKept(s, e);
    SlotsKept(s, e);
    WaitsKept(s, e);
    forall sid | 0 <= sid < |s'.streams| ensures Accounted(s', sid) {
      WritersKept(s, e, sid);
    }
  }

  lemma {:induction false} RunKeepsInv(s: State, events: seq<Event>, s': State)
    requires Inv(s) && Leads(s, events, s')
    ensures Inv(s')
    decreases |events|
  {
    if events != [] {
      NextKeepsInv(s, events[0]);
      RunKeepsInv(Next(s, events[0]), events[1..], s');
    }
  }

  // ----- the promises -----

  lemma NewSenderOk()
    ensures Inv(NEW_SENDER)
  {
  }

  lemma Reached(events: seq<Event>, s: State)
    requires Leads(NEW_SENDER, events, s)
    ensures Inv(s)
  {
    NewSenderOk();
    RunKeepsInv(NEW_SENDER, events, s);
  }

  lemma FreeWriterInSlot(s: State, sid: nat)
    requires Inv(s) && sid < |s.streams|
    requires LiveWriter(s.streams[sid].writer) && !s.streams[sid].cancelled && !HeldBySwap(s, sid)
    ensures s.inflight == Some(sid)
  {
    assert Accounted(s, sid);
  }

  /** In every interleaving, a keyframe still being written that nobody cancelled or is about to cancel is the one in the slot. */
  lemma AtMostOneInFlight(events: seq<Event>, s: State, a: nat, b: nat)
    requires Leads(NEW_SENDER, events, s) && a < |s.streams| && b < |s.streams|
    requires LiveWriter(s.streams[a].writer) && !s.streams[a].cancelled && !HeldBySwap(s, a)
    requires LiveWriter(s.streams[b].writer) && !s.streams[b].cancelled && !HeldBySwap(s, b)
    ensures a == b && s.inflight == Some(a)
  {
    Reached(events, s);
    FreeWriterInSlot(s, a);
    FreeWriterInSlot(s, b);
  }

  /** Once wait has returned, no writer is running, and none starts in any continuation. */
  lemma QuietAfterWait(events: seq<Event>, s: State, i: nat, more: seq<Event>, s': State, sid: nat)
    requires Leads(NEW_SENDER, events, s) && i < |s.waits| && s.waits[i].Returned?
    requires Leads(s, more, s') && sid < |s'.streams|
    ensures !InGroup(s'.streams[sid].writer)
  {
    Reached(events, s);
    ReturnedMeansQuiet(s, i);
    StaysQuiet(s, more, s');
    NoneInGroup(s'.streams, sid);
  }

  lemma ReturnedMeansQuiet(s: State, i: nat)
    requires Inv(s) && i < |s.waits| && s.waits[i].Returned?
    ensures s.closed && GroupCount(s.streams) == 0
  {}

  lemma {:induction false} StaysQuiet(s: State, more: seq<Event>, s': State)
    requires Inv(s) && s.closed && GroupCount(s.streams) == 0 && Leads(s, more, s')
    ensures GroupCount(s'.streams) == 0
    decreases |more|
  {
    if more != [] {
      NextKeepsInv(s, more[0]);
      CountsKept(s, more[0]);
      WaitsKept(s, more[0]);
      StaysQuiet(Next(s, more[0]), more[1..], s');
    }
  }

  /**
   * Frame conservation in every reachable state, and consecutive frame IDs modulo 2^32 whatever resumes happen.
   * A superseded keyframe whose write then fails is counted as superseded and as failed.
   */
  lemma FramesConserved(events: seq<Event>, s: State)
    requires Leads(NEW_SENDER, events, s)
    ensures Conserved(s) && s.nextFrameID == s.st.encodedFrames % 4294967296
    ensures s.pump.Idle? && (forall sid | 0 <= sid < |s.streams| :: !InGroup(s.streams[sid].writer)) ==>
              && s.st.encodedFrames == s.st.sentFrames + s.st.framesDropped + s.st.keyframesFailed
              && s.st.keyframes == s.st.keyframesSent + s.st.keyframesFailed
  {
    Reached(events, s);
    if forall sid | 0 <= sid < |s.streams| :: !InGroup(s.streams[sid].writer) {
      EmptyGroup(s.streams);
    }
  }

  lemma {:induction false} EmptyGroup(streams: seq<Stream>)
    requires forall sid | 0 <= sid < |streams| :: !InGroup(streams[sid].writer)
    ensures GroupCount(streams) == 0
  {
    if streams != [] {
      EmptyGroup(streams[..|streams| - 1]);
    }
  }
}
