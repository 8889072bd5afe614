/**
 * The life of one publisher session after Start returned nil, as interleaved steps: the supervisor's reclaim loop
 * (gawk-server/publisher/resume.go) and Stop, StopBroadcast, teardown and finish (gawk-server/publisher/engine.go).
 * Every step is one locked region, one call on a relay session, or one read the code makes outside its locks.
 */
module Lifecycle {
  import opened Outcomes

  const BROADCAST_ENDED := 4000
  const PUBLISHER_SUPERSEDED := 4004
  const TERMINATED_BY_OPERATOR := 4006
  const BROADCASTER_STOPPED := 4014

  /** terminalForPublisher */
  predicate Terminal(code: nat) {
    code == BROADCAST_ENDED || code == PUBLISHER_SUPERSEDED || code == TERMINATED_BY_OPERATOR
  }

  /** A relay session as the engine sees it; an abrupt death carries no code. */
  datatype Status = Live | Closed(code: Option<nat>)

  datatype Role = Supervisor | Pump | StopCall | StopBroadcastCall

  datatype Pc =
    | Watch                 // select on the context and the relay session
    | Woken                 // the relay session is done: read its close code
    | Redial                // inside resume, between the checks and the dial's answer
    | Dialled(next: nat)    // the reclaim dial answered; mu not taken yet
    | CloseLate(next: nat)  // stopped in the meantime: close the late session
    | Pumping
    | SetCode               // StopBroadcast's locked preamble
    | TearEnter
    | TearRead
    | TearCancel(relay: nat)
    | TearCheck(relay: nat) // after media.Stop and sender.wait
    | TearClose(relay: nat)
    | WaitGroup
    | DeliverRead
    | DeliverCheck
    | DeliverDial
    | DeliverClose(leg: nat)
    | EndOnce
    | Returned

  datatype Thread = Thread(role: Role, pc: Pc, ours: bool)

  datatype State = State(
    stopped: bool, closeCode: nat, stopDelivered: bool, cancelled: bool,
    current: nat, sessions: seq<Status>, threads: seq<Thread>, endDone: bool, ended: nat)

  /** The state in which Start returns nil: one dialled session, the supervisor and the pump running. */
  const STARTED := State(false, 0, false, false, 0, [Live],
                         [Thread(Supervisor, Watch, false), Thread(Pump, Pumping, false)], false, 0)

  datatype Event =
    | Close(sid: nat, code: Option<nat>)  // the relay, or the network, ends a session
    | Call(role: Role)                    // a new Stop or StopBroadcast call begins
    | Step(t: nat)                        // thread t's next step, on its ordinary path
    | DialOk(t: nat)                      // the dial thread t is waiting for succeeds
    | GiveUp(t: nat)                      // cancellation, a failed dial, no credentials, or capture ending

  function EndSession(sessions: seq<Status>, sid: nat, code: Option<nat>): (r: seq<Status>)
    ensures |r| == |sessions|
    ensures forall i | 0 <= i < |r| :: r[i] == sessions[i] || (sessions[i].Live? && r[i] == Closed(code))
  {
    if sid < |sessions| && sessions[sid].Live? then sessions[sid := Closed(code)] else sessions
  }

  predicate TerminallyClosed(s: State) {
    s.current < |s.sessions| && s.sessions[s.current].Closed? &&
    s.sessions[s.current].code.Some? && Terminal(s.sessions[s.current].code.value)
  }

  function Goto(s: State, t: nat, pc: Pc): State
    requires t < |s.threads|
  {
    s.(threads := s.threads[t := s.threads[t].(pc := pc)])
  }

  /** Where a thread goes once its teardown is over. */
  function AfterTear(role: Role): Pc {
    if role.StopCall? || role.StopBroadcastCall? then WaitGroup else EndOnce
  }

  predicate InFlight(th: Thread) {
    (th.role.StopCall? || th.role.StopBroadcastCall?) && th.pc != Returned
  }

  function InFlightCount(threads: seq<Thread>): nat {
    if threads == [] then 0
    else InFlightCount(threads[..|threads| - 1]) + (if InFlight(threads[|threads| - 1]) then 1 else 0)
  }

  /** What can happen next. */
  predicate Possible(s: State, e: Event) {
    match e
    case Close(sid, _) => sid < |s.sessions| && s.sessions[sid].Live?
    case Call(role) => role.StopCall? || role.StopBroadcastCall?
    case DialOk(t) => t < |s.threads| && (s.threads[t].pc == Redial || s.threads[t].pc == DeliverDial)
    case GiveUp(t) => t < |s.threads| && CanGiveUp(s, s.threads[t].pc)
    case Step(t) => t < |s.threads| && CanStep(s, s.threads[t].pc)
  }

  predicate CanGiveUp(s: State, pc: Pc) {
    match pc
    case Watch => s.cancelled
    case Pumping => s.cancelled
    case Redial => true
    case DeliverRead => true
    case DeliverDial => true
    case _ => false
  }

  predicate CanStep(s: State, pc: Pc) {
    match pc
    case Watch => s.current < |s.sessions| && s.sessions[s.current].Closed?
    case Redial => false
    case DeliverDial => false
    case WaitGroup => |s.threads| >= 2 && s.threads[0].pc == Returned && s.threads[1].pc == Returned
    case Returned => false
    case _ => true
  }

  /** The same with at most maxCalls stop calls in flight. */
  predicate Allowed(s: State, e: Event, maxCalls: nat) {
    Possible(s, e) && (e.Call? ==> InFlightCount(s.threads) < maxCalls)
  }

  /** The close code after StopBroadcast's preamble: its own, unless a stop came first. */
  function StopCode(s: State): nat {
    if s.stopped then s.closeCode else BROADCASTER_STOPPED
  }

  /** Where a thread's step takes it. */
  function NextPc(s: State, th: Thread): Pc {
    match th.pc
    case Watch => Woken
    case Woken => if TerminallyClosed(s) then TearEnter else Redial
    case Dialled(next) => if s.stopped then CloseLate(next) else Watch
    case CloseLate(_) => Returned
    case Pumping => TearEnter
    case SetCode => TearEnter
    case TearEnter => if s.stopped then AfterTear(th.role) else TearRead
    case TearRead => TearCancel(s.current)
    case TearCancel(relay) => TearCheck(relay)
    case TearCheck(relay) => TearClose(relay)
    case TearClose(_) => AfterTear(th.role)
    case WaitGroup => if th.ours then DeliverRead else EndOnce
    case DeliverRead => if s.stopDelivered then EndOnce else DeliverCheck
    case DeliverCheck => if TerminallyClosed(s) then EndOnce else DeliverDial
    case DeliverClose(_) => EndOnce
    case _ => Returned
  }

  /** What a thread's step does to everything but its own program counter. */
  function Effect(s: State, pc: Pc): (r: State)
    ensures r.threads == s.threads
  {
    match pc
    case Dialled(next) => if s.stopped then s.(stopDelivered := true) else s.(current := next)
    case CloseLate(next) => s.(sessions := EndSession(s.sessions, next, Some(s.closeCode)))
    case SetCode => s.(closeCode := StopCode(s))
    case TearEnter => s.(stopped := true)
    case TearCancel(_) => s.(cancelled := true)
    case TearCheck(relay) =>
      if relay < |s.sessions| && s.sessions[relay].Live? then s.(stopDelivered := true) else s
    case TearClose(relay) => s.(sessions := EndSession(s.sessions, relay, Some(s.closeCode)))
    case DeliverClose(leg) => s.(sessions := EndSession(s.sessions, leg, Some(BROADCASTER_STOPPED)))
    case EndOnce => if s.endDone then s else s.(endDone := true, ended := s.ended + 1)
    case _ => s
  }

  function StepThread(s: State, t: nat): State
    requires t < |s.threads|
  {
    var th := s.threads[t];
    var ours := if th.pc.SetCode? then StopCode(s) == BROADCASTER_STOPPED else th.ours;
    Effect(s, th.pc).(threads := s.threads[t := Thread(th.role, NextPc(s, th), ours)])
  }

  function Next(s: State, e: Event): State
    requires Possible(s, e)
  {
    match e
    case Close(sid, code) => s.(sessions := EndSession(s.sessions, sid, code))
    case Call(role) =>
      s.(threads := s.threads + [Thread(role, if role.StopCall? then TearEnter else SetCode, false)])
    case DialOk(t) =>
      var n := |s.sessions|;
      Goto(s.(sessions := s.sessions + [Live]), t, if s.threads[t].pc == Redial then Dialled(n) else DeliverClose(n))
    case GiveUp(t) => Goto(s, t, AfterGivingUp(s, s.threads[t].pc))
    case Step(t) => StepThread(s, t)
  }

  function AfterGivingUp(s: State, pc: Pc): Pc {
    match pc
    case Redial => if s.cancelled then Returned else TearEnter
    case Watch => Returned
    case Pumping => Returned
    case _ => EndOnce
  }

  /** The events lead from s to s', with at most maxCalls stop calls in flight at any time. */
  ghost predicate Leads(s: State, events: seq<Event>, maxCalls: nat, s': State)
    decreases |events|
  {
    if events == [] then s' == s
    else Allowed(s, events[0], maxCalls) && Leads(Next(s, events[0]), events[1..], maxCalls, s')
  }

  ghost predicate Reachable(maxCalls: nat, s: State) {
    exists events :: Leads(STARTED, events, maxCalls, s)
  }
}
