/**
 * The session's own fields behind its lifecycle, gawk-server/publisher/engine.go and resume.go. Each method is one region
 * under mu (or the once around OnEnded), and is proved to be one step of the interleaved model.
 */
module PublisherSession {
  import opened Lifecycle

  class Session {
    var stopped: bool
    var closeCode: nat
    var stopDelivered: bool
    var cancelled: bool
    var current: nat
    var endDone: bool
    var ended: nat
    ghost var sessions: seq<Status>
    ghost var threads: seq<Thread>

    ghost function Abs(): State
      reads this
    {
      State(stopped, closeCode, stopDelivered, cancelled, current, sessions, threads, endDone, ended)
    }

    /** As Start leaves it. */
    constructor ()
      ensures Abs() == STARTED
    {
      stopped, closeCode, stopDelivered, cancelled, current, endDone, ended := false, 0, false, false, 0, false, 0;
      sessions := [Live];
      threads := [Thread(Supervisor, Watch, false), Thread(Role.Pump, Pumping, false)];
    }

    ghost predicate At(t: nat, pc: Pc)
      reads this
    {
      t < |threads| && threads[t].pc == pc
    }

    ghost method Goto(t: nat, pc: Pc)
      requires t < |threads|
      modifies this`threads
      ensures threads == old(threads)[t := old(threads)[t].(pc := pc)]
    {
      threads := threads[t := threads[t].(pc := pc)];
    }

    /** StopBroadcast's locked preamble. */
    method StopBroadcastPreamble(ghost t: nat) returns (ours: bool)
      requires At(t, SetCode)
      modifies this
      ensures Abs() == Next(old(Abs()), Step(t)) && ours == threads[t].ours
    {
      if !stopped {
        closeCode := BROADCASTER_STOPPED;
      }
      ours := closeCode == BROADCASTER_STOPPED;
      threads := threads[t := threads[t].(pc := TearEnter, ours := ours)];
    }

    /** teardown's locked head: only the first to get here tears anything down, with the code set by then. */
    method TeardownEnter(ghost t: nat) returns (first: bool, code: nat)
      requires At(t, TearEnter)
      modifies this
      ensures Abs() == Next(old(Abs()), Step(t)) && first == !old(stopped) && code == old(closeCode)
    {
      code := closeCode;
      if stopped {
        Goto(t, AfterTear(threads[t].role));
        return false, code;
      }
      stopped := true;
      Goto(t, TearRead);
      first := true;
    }

    method TeardownCurrentRelay(ghost t: nat) returns (relay: nat)
      requires At(t, TearRead)
      modifies this
      ensures Abs() == Next(old(Abs()), Step(t)) && relay == old(current)
    {
      relay := current;
      Goto(t, TearCancel(relay));
    }

    method TeardownCancel(ghost t: nat, relay: nat)
      requires At(t, TearCancel(relay))
      modifies this
      ensures Abs() == Next(old(Abs()), Step(t))
    {
      cancelled := true;
      Goto(t, TearCheck(relay));
    }

    /** Whether the relay session still stands is read off the session itself. */
    method TeardownMark(ghost t: nat, relay: nat, relayLive: bool)
      requires At(t, TearCheck(relay)) && (relayLive <==> relay < |sessions| && sessions[relay].Live?)
      modifies this
      ensures Abs() == Next(old(Abs()), Step(t))
    {
      if relayLive {
        stopDelivered := true;
      }
      Goto(t, TearClose(relay));
    }

    /** The supervisor's locked choice between a late session and a new current one. */
    method AdoptReclaimed(ghost t: nat, next: nat) returns (late: bool, code: nat)
      requires At(t, Dialled(next))
      modifies this
      ensures Abs() == Next(old(Abs()), Step(t)) && late == old(stopped) && code == old(closeCode)
    {
      late, code := stopped, closeCode;
      if stopped {
        stopDelivered := true;
        Goto(t, CloseLate(next));
      } else {
        current := next;
        Goto(t, Watch);
      }
    }

    /** deliverStop's locked head. */
    method DeliverStopDue(ghost t: nat) returns (due: bool)
      requires At(t, DeliverRead)
      modifies this
      ensures Abs() == Next(old(Abs()), Step(t)) && due == !old(stopDelivered)
    {
      due := !stopDelivered;
      Goto(t, if due then DeliverCheck else EndOnce);
    }

    /** finish, past its teardown: OnEnded fires for the first caller only. */
    method EndedOnce(ghost t: nat)
      requires At(t, EndOnce)
      modifies this
      ensures Abs() == Next(old(Abs()), Step(t)) && endDone
    {
      if !endDone {
        endDone := true;
        ended := ended + 1;
      }
      Goto(t, Returned);
    }
  }
}
