/** Which keyframe streams gawk-server/publisher/send.go cancels: exactly those superseded, swapped away or refused. */
module KeyframeCancels {
  import opened Outcomes
  import opened KeyframeSlot
  import opened KeyframeCounts

  function Swaps(events: seq<Event>): nat {
    if events == [] then 0 else Swaps(events[..|events| - 1]) + One(events[|events| - 1].SwapRelay?)
  }

  /** The i-th setRelay call found this stream in the slot. */
  ghost predicate SwapFound(events: seq<Event>, i: nat, sid: nat) {
    exists p: nat :: SwapFoundAt(events, p, i, sid)
  }

  ghost predicate SwapFoundAt(events: seq<Event>, p: nat, i: nat, sid: nat) {
    p < |events| && events[p] == SwapRelay && Swaps(events[..p]) == i && SlotTaken(events[..p], sid)
  }

  /** Event e, after `before`, cancels the stream: a newer keyframe takes its place, a setRelay drops it, or the sender was closed. */
  ghost predicate Cancels(before: seq<Event>, e: Event, sid: nat) {
    match e
    case Register => CallWait !in before && SlotTaken(before, sid)
    case Abandoned => sid + 1 == OpenedStreams(before)
    case CancelHeld(i) => SwapFound(before, i, sid)
    case _ => false
  }

  ghost predicate CancelledBy(events: seq<Event>, sid: nat) {
    exists k: nat :: k < |events| && Cancels(events[..k], events[k], sid)
  }

  lemma CancelledSnoc(events: seq<Event>, e: Event, sid: nat)
    ensures CancelledBy(events + [e], sid) <==> CancelledBy(events, sid) || Cancels(events, e, sid)
  {
    var all, n := events + [e], |events|;
    assert all[..n] == events && all[n] == e;
    forall k: nat | k < n ensures all[..k] == events[..k] && all[k] == events[k] {}
    if CancelledBy(events, sid) {
      var k: nat :| k < n && Cancels(events[..k], events[k], sid);
      assert Cancels(all[..k], all[k], sid);
    }
    if Cancels(events, e, sid) {
      assert Cancels(all[..n], all[n], sid);
    }
  }

  lemma SwapFoundSnoc(events: seq<Event>, e: Event, i: nat, sid: nat)
    ensures SwapFound(events + [e], i, sid) <==>
            SwapFound(events, i, sid) || (e == SwapRelay && Swaps(events) == i && SlotTaken(events, sid))
  {
    var all, n := events + [e], |events|;
    assert all[..n] == events && all[n] == e;
    forall p: nat | p < n ensures SwapFoundAt(all, p, i, sid) <==> SwapFoundAt(events, p, i, sid) {
      assert all[..p] == events[..p] && all[p] == events[p];
    }
    if SwapFound(events, i, sid) {
      var p: nat :| SwapFoundAt(events, p, i, sid);
      assert SwapFoundAt(all, p, i, sid);
    }
    if e == SwapRelay && Swaps(events) == i && SlotTaken(events, sid) {
      assert SwapFoundAt(all, n, i, sid);
    }
  }

  /** A setRelay call holds what it found until it has cancelled it. */
  ghost predicate SwapsOk(s: State, events: seq<Event>) {
    && |s.swaps| == Swaps(events)
    && forall i, sid: nat | 0 <= i < |s.swaps| && s.swaps[i].held.Some? :: SwapFound(events, i, sid) <==> s.swaps[i].held == Some(sid)
  }

  ghost predicate CancelOk(s: State, events: seq<Event>, sid: nat) {
    CancelledBy(events, sid) <==> sid < |s.streams| && s.streams[sid].cancelled
  }

  lemma SwapsKept(s: State, events: seq<Event>, e: Event)
    requires Inv(s) && Possible(s, e) && SlotOk(s, events) && SwapsOk(s, events)
    ensures SwapsOk(Next(s, e), events + [e])
  {
    var t, all := Next(s, e), events + [e];
    assert all[..|events|] == events;
    forall i, sid: nat | 0 <= i < |t.swaps| && t.swaps[i].held.Some?
      ensures SwapFound(all, i, sid) <==> t.swaps[i].held == Some(sid)
    {
      SwapFoundSnoc(events, e, i, sid);
      if i == |s.swaps| {
        NotFoundYet(events, i, sid);
      }
    }
  }

  lemma {:induction false} NotFoundYet(events: seq<Event>, i: nat, sid: nat)
    requires i >= Swaps(events)
    ensures !SwapFound(events, i, sid)
  {
    if events != [] {
      var n := |events| - 1;
      NotFoundYet(events[..n], i, sid);
      SwapFoundSnoc(events[..n], events[n], i, sid);
      assert events == events[..n] + [events[n]];
    }
  }

  lemma CancelKept(s: State, events: seq<Event>, e: Event, sid: nat)
    requires Inv(s) && Possible(s, e) && SlotOk(s, events) && SwapsOk(s, events) && CancelOk(s, events, sid)
    ensures CancelOk(Next(s, e), events + [e], sid)
  {
    CancelledSnoc(events, e, sid);
  }

  ghost predicate CancelsOk(s: State, events: seq<Event>) {
    SlotOk(s, events) && SwapsOk(s, events) && forall sid: nat :: CancelOk(s, events, sid)
  }

  lemma CancelsKept(s: State, events: seq<Event>, e: Event)
    requires Inv(s) && Possible(s, e) && CancelsOk(s, events)
    ensures CancelsOk(Next(s, e), events + [e])
  {
    SlotKept(s, events, e);
    SwapsKept(s, events, e);
    forall sid: nat ensures CancelOk(Next(s, e), events + [e], sid) {
      assert CancelOk(s, events, sid);
      CancelKept(s, events, e, sid);
    }
  }

  lemma {:induction false} RunKeepsCancels(s: State, before: seq<Event>, events: seq<Event>, t: State)
    requires Inv(s) && CancelsOk(s, before) && Leads(s, events, t)
    ensures CancelsOk(t, before + events)
    decreases |events|
  {
    if events == [] {
      assert before + events == before;
    } else {
      OneMoreBefore(before, events);
      NextKeepsInv(s, events[0]);
      CancelsKept(s, before, events[0]);
      RunKeepsCancels(Next(s, events[0]), before + [events[0]], events[1..], t);
    }
  }

  lemma NothingCancelled(s: State, events: seq<Event>)
    requires Fresh(s) && s.swaps == [] && events == []
    ensures CancelsOk(s, events)
  {
    NothingTallied(s, events);
  }

  lemma RunCancels(start: State, before: seq<Event>, events: seq<Event>, s: State)
    requires Fresh(start) && start.swaps == [] && Inv(start) && before == [] && Leads(start, events, s)
    ensures CancelsOk(s, events)
  {
    NothingCancelled(start, before);
    NothingBefore(before, events);
    RunKeepsCancels(start, before, events, s);
  }

  /**
   * In every run a keyframe stream has been cancelled if and only if a newer keyframe found it in the slot, a setRelay call
   * took it from there and has come to cancel it, or its sender was closed before it registered; and the slot holds the
   * stream that registered last, unless its writer or a setRelay call has emptied it since.
   */
  lemma CancelledIff(events: seq<Event>, s: State, sid: nat)
    requires Leads(NEW_SENDER, events, s) && sid < |s.streams|
    ensures s.streams[sid].cancelled <==> CancelledBy(events, sid)
    ensures s.inflight == Some(sid) <==> SlotTaken(events, sid)
  {
    NewSenderOk();
    RunCancels(NEW_SENDER, [], events, s);
    assert CancelOk(s, events, sid);
  }
}
