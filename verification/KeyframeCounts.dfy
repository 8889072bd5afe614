/**
 * What each counter of gawk-server/publisher/send.go counts on the keyframe and delta lanes, read off the events of a run:
 * which write came to what, which registration found the slot taken.
 */
module KeyframeCounts {
  import opened Outcomes
  import opened KeyframeSlot

  // ----- counting events -----

  function Frames(events: seq<Event>): nat {
    if events == [] then 0
    else Frames(events[..|events| - 1]) + One(events[|events| - 1].SendKeyframe? || events[|events| - 1].SendDelta?)
  }

  function Keyframes(events: seq<Event>): nat {
    if events == [] then 0 else Keyframes(events[..|events| - 1]) + One(events[|events| - 1].SendKeyframe?)
  }

  function OpenedStreams(events: seq<Event>): nat {
    if events == [] then 0 else OpenedStreams(events[..|events| - 1]) + One(events[|events| - 1].KeyframeOpened?)
  }

  /** Delta frames that sendDelta counted as sent, or as dropped. */
  function Deltas(events: seq<Event>, sent: bool): nat {
    if events == [] then 0 else Deltas(events[..|events| - 1], sent) + One(events[|events| - 1] == DeltaDone(sent))
  }

  /** Writes that a writer has counted and whose Write and Close had come back with ok. */
  function CountedWrites(events: seq<Event>, ok: bool): nat {
    if events == [] then 0
    else
      var before, e := events[..|events| - 1], events[|events| - 1];
      CountedWrites(before, ok) + One(e.CountWrite? && WriteEnds(e.sid, ok) in before)
  }

  /** Keyframes given up before any write: the header or the stream refused, or the sender found closed. */
  function GivenUp(events: seq<Event>): nat {
    if events == [] then 0
    else GivenUp(events[..|events| - 1]) + One(events[|events| - 1].KeyframeRefused? || events[|events| - 1].Abandoned?)
  }

  /** A registration is accepted as long as nobody has called wait. */
  predicate Accepted(events: seq<Event>, r: nat) {
    r < |events| && events[r] == Register && CallWait !in events[..r]
  }

  /** The stream registered r-th is still in the slot: nobody registered after it, swapped the relay, or cleared it. */
  ghost predicate InSlotSince(events: seq<Event>, r: nat, sid: nat) {
    && Accepted(events, r) && sid + 1 == OpenedStreams(events[..r])
    && forall j | r < j < |events| :: events[j] != SwapRelay && events[j] != ClearSlot(sid) && !Accepted(events, j)
  }

  ghost predicate SlotTaken(events: seq<Event>, sid: nat) {
    exists r: nat :: InSlotSince(events, r, sid)
  }

  /** Accepted registrations that found the slot taken. */
  ghost function Superseding(events: seq<Event>): nat {
    if events == [] then 0
    else
      var n := |events| - 1;
      Superseding(events[..n]) + One(Accepted(events, n) && exists sid: nat :: SlotTaken(events[..n], sid))
  }

  function One(b: bool): nat {
    if b then 1 else 0
  }

  // ----- what the writers were told -----

  /** A writer knows what its Write and Close came back with, and it was told once. */
  ghost predicate WriterTold(s: State, events: seq<Event>, sid: nat) {
    if sid >= |s.streams| then WriteEnds(sid, true) !in events && WriteEnds(sid, false) !in events
    else match s.streams[sid].writer
      case Wrote(ok) => WriteEnds(sid, ok) in events && WriteEnds(sid, !ok) !in events
      case Cleared(ok) => WriteEnds(sid, ok) in events && WriteEnds(sid, !ok) !in events
      case Finished => true
      case _ => WriteEnds(sid, true) !in events && WriteEnds(sid, false) !in events
  }

  lemma WriterToldKept(s: State, events: seq<Event>, e: Event, sid: nat)
    requires Inv(s) && Possible(s, e) && WriterTold(s, events, sid)
    ensures WriterTold(Next(s, e), events + [e], sid)
  {
    if sid < |s.streams| {
      assert sid < |Next(s, e).streams|;
    }
  }

  // ----- what is in the slot -----

  lemma AcceptedBefore(events: seq<Event>, e: Event, r: nat)
    requires r < |events|
    ensures (events + [e])[..r] == events[..r] && (Accepted(events + [e], r) <==> Accepted(events, r))
  {}

  lemma InSlotSnoc(events: seq<Event>, e: Event, r: nat, sid: nat)
    requires r < |events|
    ensures InSlotSince(events + [e], r, sid) <==>
            InSlotSince(events, r, sid) && e != SwapRelay && e != ClearSlot(sid) && !(e == Register && CallWait !in events)
  {
    var all, n := events + [e], |events|;
    assert all[..n] == events && all[n] == e;
    AcceptedBefore(events, e, r);
    forall j: nat | j < n ensures all[j] == events[j] && (Accepted(all, j) <==> Accepted(events, j)) {
      AcceptedBefore(events, e, j);
    }
    if InSlotSince(all, r, sid) {
      assert !Accepted(all, n);
    }
  }

  lemma InSlotNow(events: seq<Event>, e: Event, sid: nat)
    ensures InSlotSince(events + [e], |events|, sid) <==> e == Register && CallWait !in events && sid + 1 == OpenedStreams(events)
  {
    assert (events + [e])[..|events|] == events;
  }

  lemma SlotTakenSnoc(events: seq<Event>, e: Event, sid: nat)
    ensures SlotTaken(events + [e], sid) <==>
            if e == Register && CallWait !in events then sid + 1 == OpenedStreams(events)
            else SlotTaken(events, sid) && e != SwapRelay && e != ClearSlot(sid)
  {
    var all, n := events + [e], |events|;
    InSlotNow(events, e, sid);
    if SlotTaken(all, sid) {
      var r: nat :| InSlotSince(all, r, sid);
      if r < n {
        InSlotSnoc(events, e, r, sid);
      }
    }
    if SlotTaken(events, sid) {
      var r: nat :| InSlotSince(events, r, sid);
      InSlotSnoc(events, e, r, sid);
    }
  }

  // ----- the counters -----

  ghost predicate SlotOk(s: State, events: seq<Event>) {
    && (forall sid: nat :: SlotTaken(events, sid) <==> s.inflight == Some(sid))
    && (s.closed <==> CallWait in events) && |s.streams| == OpenedStreams(events)
    && (s.pump.Opened? || s.pump.Abandon? ==> s.pump.sid + 1 == |s.streams|)
  }

  ghost predicate CountersAre(st: Stats, events: seq<Event>) {
    && st.encodedFrames == Frames(events) && st.keyframes == Keyframes(events)
    && st.keyframesSent == CountedWrites(events, true)
    && st.keyframesFailed == GivenUp(events) + CountedWrites(events, false)
    && st.sentFrames == CountedWrites(events, true) + Deltas(events, true)
    && st.framesDropped == Deltas(events, false)
    && st.keyframesSuperseded == Superseding(events)
  }

  ghost predicate Tallied(s: State, events: seq<Event>) {
    CountersAre(s.st, events) && SlotOk(s, events) && forall sid: nat :: WriterTold(s, events, sid)
  }

  lemma SlotKept(s: State, events: seq<Event>, e: Event)
    requires Inv(s) && Possible(s, e) && SlotOk(s, events)
    ensures SlotOk(Next(s, e), events + [e])
  {
    var t, all := Next(s, e), events + [e];
    assert all[..|events|] == events;
    forall sid: nat ensures SlotTaken(all, sid) <==> t.inflight == Some(sid) {
      SlotTakenSnoc(events, e, sid);
    }
  }

  /** One event more moves each count by what the event is. */
  lemma CountsSnoc(events: seq<Event>, e: Event)
    ensures var all := events + [e];
            && Frames(all) == Frames(events) + One(e.SendKeyframe? || e.SendDelta?)
            && Keyframes(all) == Keyframes(events) + One(e.SendKeyframe?)
            && Deltas(all, true) == Deltas(events, true) + One(e == DeltaDone(true))
            && Deltas(all, false) == Deltas(events, false) + One(e == DeltaDone(false))
            && GivenUp(all) == GivenUp(events) + One(e.KeyframeRefused? || e.Abandoned?)
  {
    assert (events + [e])[..|events|] == events;
  }

  lemma WritesSnoc(events: seq<Event>, e: Event, ok: bool)
    ensures CountedWrites(events + [e], ok) == CountedWrites(events, ok) + One(e.CountWrite? && WriteEnds(e.sid, ok) in events)
  {
    assert (events + [e])[..|events|] == events;
  }

  lemma SupersedingSnoc(s: State, events: seq<Event>, e: Event)
    requires SlotOk(s, events)
    ensures Superseding(events + [e]) == Superseding(events) + One(e == Register && !s.closed && s.inflight.Some?)
  {
    var all, n := events + [e], |events|;
    assert all[..n] == events && all[n] == e;
    assert (exists sid: nat :: SlotTaken(events, sid)) <==> s.inflight.Some? by {
      if s.inflight.Some? {
        assert SlotTaken(events, s.inflight.value);
      }
    }
  }

  lemma CountersKept(s: State, events: seq<Event>, e: Event)
    requires Inv(s) && Possible(s, e) && Tallied(s, events)
    ensures CountersAre(Next(s, e).st, events + [e])
  {
    CountsSnoc(events, e);
    WritesSnoc(events, e, true);
    WritesSnoc(events, e, false);
    SupersedingSnoc(s, events, e);
    if e.CountWrite? {
      assert WriterTold(s, events, e.sid);
    }
  }

  lemma TalliedKept(s: State, events: seq<Event>, e: Event)
    requires Inv(s) && Possible(s, e) && Tallied(s, events)
    ensures Tallied(Next(s, e), events + [e])
  {
    CountersKept(s, events, e);
    SlotKept(s, events, e);
    forall sid: nat ensures WriterTold(Next(s, e), events + [e], sid) {
      assert WriterTold(s, events, sid);
      WriterToldKept(s, events, e, sid);
    }
  }

  predicate Fresh(s: State) {
    s.st == Stats(0, 0, 0, 0, 0, 0, 0) && s.pump.Idle? && s.streams == [] && s.inflight.None? && !s.closed
  }

  lemma NothingTallied(s: State, events: seq<Event>)
    requires Fresh(s) && events == []
    ensures Tallied(s, events)
  {
    forall sid: nat ensures !SlotTaken(events, sid) {}
    assert CountersAre(s.st, events);
    assert SlotOk(s, events);
  }

  lemma NothingBefore(before: seq<Event>, events: seq<Event>)
    requires before == []
    ensures before + events == events
  {
  }

  lemma OneMoreBefore(before: seq<Event>, events: seq<Event>)
    requires events != []
    ensures before + [events[0]] + events[1..] == before + events
  {
  }

  lemma {:induction false} RunKeepsTally(s: State, before: seq<Event>, events: seq<Event>, t: State)
    requires Inv(s) && Tallied(s, before) && Leads(s, events, t)
    ensures Tallied(t, before + events)
    decreases |events|
  {
    if events == [] {
      assert before + events == before;
    } else {
      OneMoreBefore(before, events);
      NextKeepsInv(s, events[0]);
      TalliedKept(s, before, events[0]);
      RunKeepsTally(Next(s, events[0]), before + [events[0]], events[1..], t);
    }
  }

  lemma RunTallied(start: State, before: seq<Event>, events: seq<Event>, s: State)
    requires Fresh(start) && Inv(start) && before == [] && Leads(start, events, s)
    ensures Tallied(s, events)
  {
    NothingTallied(start, before);
    NothingBefore(before, events);
    RunKeepsTally(start, before, events, s);
  }

  /**
   * In every run: a keyframe counts as sent exactly when its write was counted after Write and Close came back fine, and
   * as failed when they did not or when it was given up before; frames sent are those and the delta frames that went out
   * whole; superseded are the registrations that found an earlier stream in the slot.
   */
  lemma CountersExact(events: seq<Event>, s: State)
    requires Leads(NEW_SENDER, events, s)
    ensures s.st.keyframesSent == CountedWrites(events, true)
    ensures s.st.keyframesFailed == GivenUp(events) + CountedWrites(events, false)
    ensures s.st.sentFrames == CountedWrites(events, true) + Deltas(events, true)
    ensures s.st.framesDropped == Deltas(events, false)
    ensures s.st.keyframesSuperseded == Superseding(events)
    ensures s.st.encodedFrames == Frames(events) && s.st.keyframes == Keyframes(events)
  {
    NewSenderOk();
    RunTallied(NEW_SENDER, [], events, s);
  }
}
