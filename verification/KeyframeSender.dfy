/**
 * The sender's own fields behind the keyframe lane of gawk-server/publisher/send.go. Each method is one region under
 * kfMu or mu, and is proved to be one step of the interleaved model.
 */
module KeyframeSender {
  import opened Outcomes
  import opened KeyframeSlot

  class Sender {
    var nextFrameID: nat
    var inflight: Option<nat>
    var closed: bool
    var st: Stats
    ghost var pump: Pump
    ghost var streams: seq<Stream>
    ghost var swaps: seq<Swap>
    ghost var waits: seq<Wait>

    ghost function Abs(): State
      reads this
    {
      State(nextFrameID, st, pump, streams, inflight, closed, swaps, waits)
    }

    constructor ()
      ensures Abs() == NEW_SENDER
    {
      nextFrameID, inflight, closed, st := 0, None, false, Stats(0, 0, 0, 0, 0, 0, 0);
      pump, streams, swaps, waits := Idle, [], [], [];
    }

    /** The head of send: the frame takes its ID and is counted. */
    method Send(keyframe: bool) returns (frameID: nat)
      requires pump.Idle?
      modifies this
      ensures Abs() == Next(old(Abs()), if keyframe then SendKeyframe else SendDelta) && frameID == old(nextFrameID)
    {
      frameID := nextFrameID;
      nextFrameID := (nextFrameID + 1) % UINT32_LIMIT;
      st := st.(encodedFrames := st.encodedFrames + 1);
      if keyframe {
        st := st.(keyframes := st.keyframes + 1);
        pump := Keyframe;
      } else {
        pump := Delta;
      }
    }

    /** The locked region of sendKeyframe: refuse on a closed sender, else supersede what is in the slot and take it. */
    method Register(sid: nat) returns (accepted: bool, superseded: Option<nat>)
      requires Possible(Abs(), Event.Register) && pump.sid == sid
      modifies this
      ensures Abs() == Next(old(Abs()), Event.Register)
      ensures accepted == !old(closed) && superseded == (if accepted then old(inflight) else None)
      ensures accepted ==> inflight == Some(sid)
    {
      if closed {
        pump := Abandon(sid);
        return false, None;
      }
      superseded := inflight;
      streams := Cancel(streams, inflight);
      if superseded.Some? {
        st := st.(keyframesSuperseded := st.keyframesSuperseded + 1);
      }
      inflight := Some(sid);
      streams := SetWriter(streams, sid, Writing);
      pump := Idle;
      accepted := true;
    }

    /** The writer's locked region: it leaves the slot if it is still the one there. */
    method ClearSlot(sid: nat)
      requires Possible(Abs(), Event.ClearSlot(sid))
      modifies this
      ensures Abs() == Next(old(Abs()), Event.ClearSlot(sid))
    {
      streams := SetWriter(streams, sid, Cleared(streams[sid].writer.ok));
      if inflight == Some(sid) {
        inflight := None;
      }
    }

    method CountWrite(sid: nat, ok: bool)
      requires Possible(Abs(), Event.CountWrite(sid)) && streams[sid].writer.ok == ok
      modifies this
      ensures Abs() == Next(old(Abs()), Event.CountWrite(sid))
    {
      streams := SetWriter(streams, sid, Finished);
      if !ok {
        CountKeyframeFailed();
        return;
      }
      st := st.(keyframesSent := st.keyframesSent + 1);
      st := st.(sentFrames := st.sentFrames + 1);
    }

    method CountKeyframeFailed()
      modifies this`st
      ensures st == CountFailed(old(st))
    {
      st := st.(keyframesFailed := st.keyframesFailed + 1);
    }

    /** setRelay's locked region; the caller then cancels what it took. */
    method TakeSlot() returns (taken: Option<nat>)
      modifies this
      ensures Abs() == Next(old(Abs()), SwapRelay) && taken == old(inflight)
    {
      taken := inflight;
      inflight := None;
      swaps := swaps + [Swap(taken)];
    }

    /** wait's locked region; kfWG.Wait follows. */
    method Close()
      modifies this
      ensures Abs() == Next(old(Abs()), CallWait) && closed
    {
      closed := true;
      waits := waits + [Waiting];
    }
  }
}
