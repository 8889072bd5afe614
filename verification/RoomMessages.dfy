/** RoomEvent, RoomCommand and the record framing of gawk-server/wire/room.go. */
module RoomMessages {
  import opened Outcomes
  import opened WireFields
  import opened RoomItems
  import opened RoomState

  const TYPE_ROOM_EVENT: octet := 0x15
  const TYPE_ROOM_COMMAND: octet := 0x16

  const PARTICIPANT_JOINED: octet := 0x01
  const PARTICIPANT_LEFT: octet := 0x02
  const PARTICIPANT_UPDATED: octet := 0x03
  const ATTACHMENT_ADDED: octet := 0x10
  const ATTACHMENT_REMOVED: octet := 0x11
  const ATTACHMENT_UPDATED: octet := 0x12
  const ROOM_ENDING: octet := 0x20
  const COMMAND_REJECTED: octet := 0x30
  const VOICE_TICKET: octet := 0x50
  const VOICE_ROSTER_UPDATED: octet := 0x51

  const MAX_REJECT_MESSAGE: octet := 128
  const MAX_VOICE_URL := 512
  const MAX_VOICE_TICKET := 512
  const MAX_VOICE_ROSTER := 200

  /** The fields a kind does not use stay blank. */
  datatype Event = Event(
    seqNo: u32,
    kind: octet,
    participant: Participant,
    attachment: Attachment,
    reason: octet,
    command: octet,
    message: Octets,
    voiceUrl: Octets,
    voiceTicket: Octets,
    voiceFlags: octet,
    voiceRoster: seq<VoiceUser>
  )

  const NOBODY: Participant := Participant(0, 0, 0, [], [])
  const NOTHING: Attachment := Attachment([], [], false, 0)

  function BlankEvent(seqNo: u32, kind: octet): Event {
    Event(seqNo, kind, NOBODY, NOTHING, 0, 0, [], [], [], 0, [])
  }

  predicate WithParticipant(kind: octet) {
    kind == PARTICIPANT_JOINED || kind == PARTICIPANT_UPDATED
  }

  predicate WithAttachment(kind: octet) {
    kind == ATTACHMENT_ADDED || kind == ATTACHMENT_UPDATED
  }

  predicate KnownEvent(kind: octet) {
    WithParticipant(kind) || WithAttachment(kind) || kind == PARTICIPANT_LEFT || kind == ATTACHMENT_REMOVED ||
    kind == ROOM_ENDING || kind == COMMAND_REJECTED || kind == VOICE_TICKET || kind == VOICE_ROSTER_UPDATED
  }

  /** What the appender checks; it does not check that the voice URL is UTF-8. */
  predicate EventOk(e: Event) {
    if WithParticipant(e.kind) then ParticipantOk(e.participant)
    else if WithAttachment(e.kind) then AttachmentOk(e.attachment)
    else if e.kind == ATTACHMENT_REMOVED then NormalizeId(e.attachment.broadcast).Some?
    else if e.kind == COMMAND_REJECTED then TextOk(e.message, MAX_REJECT_MESSAGE)
    else if e.kind == VOICE_TICKET then 0 < |e.voiceUrl| <= MAX_VOICE_URL && 0 < |e.voiceTicket| <= MAX_VOICE_TICKET
    else if e.kind == VOICE_ROSTER_UPDATED then
      e.voiceFlags <= 1 && |e.voiceRoster| <= MAX_VOICE_ROSTER && forall v | v in e.voiceRoster :: VoiceUserOk(v)
    else true
  }

  function PutEventBody(e: Event): Octets {
    if WithParticipant(e.kind) then PutParticipant(e.participant, [])
    else if WithAttachment(e.kind) then PutAttachment(e.attachment, [])
    else if e.kind == PARTICIPANT_LEFT then U16(e.participant.id)
    else if e.kind == ATTACHMENT_REMOVED then Bytes8(CleanId(e.attachment.broadcast)) + U8(e.reason)
    else if e.kind == ROOM_ENDING then U8(e.reason)
    else if e.kind == COMMAND_REJECTED then U8(e.command) + (U8(e.reason) + Bytes8(e.message))
    else if e.kind == VOICE_TICKET then Bytes16(e.voiceUrl) + Bytes16(e.voiceTicket)
    else U8(e.voiceFlags) + PutVoiceRoster(e.voiceRoster)
  }

  function PutVoiceRoster(vs: seq<VoiceUser>): Octets {
    U16(|vs| % 0x1_0000) + PutAll(vs, PutVoiceUser, [])
  }

  function EncodeEvent(e: Event): Octets {
    [VERSION, TYPE_ROOM_EVENT] + (U32(e.seqNo) + (U8(e.kind) + PutEventBody(e)))
  }

  function AppendEvent(dst: Octets, e: Event): Result<Octets, WireError> {
    if !KnownEvent(e.kind) then Err(UnknownRoomKind(e.seqNo, e.kind))
    else if !EventOk(e) || |dst + EncodeEvent(e)| > MAX_RECORD then Err(BadEvent)
    else Ok(dst + EncodeEvent(e))
  }

  /** The event with its broadcast ID normalized and the fields its kind does not use blanked. */
  function CleanEvent(e: Event): Event {
    var blank := BlankEvent(e.seqNo, e.kind);
    if WithParticipant(e.kind) then blank.(participant := e.participant)
    else if WithAttachment(e.kind) then blank.(attachment := CleanAttachment(e.attachment))
    else if e.kind == PARTICIPANT_LEFT then blank.(participant := NOBODY.(id := e.participant.id))
    else if e.kind == ATTACHMENT_REMOVED then
      blank.(attachment := NOTHING.(broadcast := CleanId(e.attachment.broadcast)), reason := e.reason)
    else if e.kind == ROOM_ENDING then blank.(reason := e.reason)
    else if e.kind == COMMAND_REJECTED then blank.(command := e.command, reason := e.reason, message := e.message)
    else if e.kind == VOICE_TICKET then blank.(voiceUrl := e.voiceUrl, voiceTicket := e.voiceTicket)
    else blank.(voiceFlags := e.voiceFlags, voiceRoster := e.voiceRoster)
  }

  function ReadVoiceTicket(e: Event, b: Octets): Option<Read<Event>> {
    var url :- ReadBytes16(b, MAX_VOICE_URL);
    if url.value == [] || !Utf8(url.value) then None
    else
      var ticket :- ReadBytes16(url.rest, MAX_VOICE_TICKET);
      if ticket.value == [] then None else Some(Read(e.(voiceUrl := url.value, voiceTicket := ticket.value), ticket.rest))
  }

  function ReadVoiceRoster(b: Octets): Option<Read<seq<VoiceUser>>> {
    var n :- ReadU16(b);
    if n.value > MAX_VOICE_ROSTER then None else ReadAll(n.rest, n.value, ReadVoiceUser)
  }

  function ReadRejection(e: Event, b: Octets): Option<Read<Event>> {
    var command :- ReadU8(b);
    var reason :- ReadU8(command.rest);
    var message :- ReadText(reason.rest, MAX_REJECT_MESSAGE);
    Some(Read(e.(command := command.value, reason := reason.value, message := message.value), message.rest))
  }

  function ReadEventBody(e: Event, b: Octets, strict: bool): Option<Read<Event>> {
    if WithParticipant(e.kind) then
      var p :- ReadParticipant(b);
      Some(Read(e.(participant := p.value), p.rest))
    else if WithAttachment(e.kind) then
      var a :- ReadAttachment(b, strict);
      Some(Read(e.(attachment := a.value), a.rest))
    else if e.kind == PARTICIPANT_LEFT then
      var id :- ReadU16(b);
      Some(Read(e.(participant := NOBODY.(id := id.value)), id.rest))
    else if e.kind == ATTACHMENT_REMOVED then
      var id :- ReadId(b, strict);
      var reason :- ReadU8(id.rest);
      Some(Read(e.(attachment := NOTHING.(broadcast := id.value), reason := reason.value), reason.rest))
    else if e.kind == ROOM_ENDING then
      var reason :- ReadU8(b);
      Some(Read(e.(reason := reason.value), reason.rest))
    else if e.kind == COMMAND_REJECTED then ReadRejection(e, b)
    else if e.kind == VOICE_TICKET then ReadVoiceTicket(e, b)
    else
      var flags :- ReadUpTo(b, 1);
      var roster :- ReadVoiceRoster(flags.rest);
      Some(Read(e.(voiceFlags := flags.value, voiceRoster := roster.value), roster.rest))
  }

  function DecodeEvent(msg: Octets, strict: bool): Result<Event, WireError> {
    match CheckPrefix(msg, TYPE_ROOM_EVENT, 7)
    case Some(e) => Err(e)
    case None =>
      var head := BlankEvent(ReadU32(msg[2..]).value.value, msg[6]);
      if !KnownEvent(head.kind) then Err(UnknownRoomKind(head.seqNo, head.kind))
      else Whole(ReadEventBody(head, msg[7..], strict), BadEvent)
  }

  // ----- events: reading what was put -----

  lemma VoiceRosterReads(vs: seq<VoiceUser>)
    requires |vs| <= MAX_VOICE_ROSTER && forall v | v in vs :: VoiceUserOk(v)
    ensures ReadVoiceRoster(PutVoiceRoster(vs)) == Some(Read(vs, []))
  {
    FitsField(|vs|, 0x1_0000);
    U16Reads(|vs|, PutAll(vs, PutVoiceUser, []));
    forall v: VoiceUser, t: Octets | v in vs ensures ReadVoiceUser(PutVoiceUser(v, t)) == Some(Read(Same(v), t)) {
      VoiceUserReads(v, t);
    }
    AllRead(vs, PutVoiceUser, ReadVoiceUser, Same<VoiceUser>, []);
    CleanNothing(vs);
  }

  lemma VoiceTicketReads(e: Event, url: Octets, ticket: Octets)
    requires 0 < |url| <= MAX_VOICE_URL && 0 < |ticket| <= MAX_VOICE_TICKET
    ensures ReadVoiceTicket(e, Bytes16(url) + Bytes16(ticket)) ==
            if Utf8(url) then Some(Read(e.(voiceUrl := url, voiceTicket := ticket), [])) else None
  {
    Bytes16Reads(url, MAX_VOICE_URL, Bytes16(ticket));
    Bytes16Reads(ticket, MAX_VOICE_TICKET, []);
    assert Bytes16(ticket) + [] == Bytes16(ticket);
  }

  lemma RejectionReads(e: Event, command: octet, reason: octet, message: Octets)
    requires TextOk(message, MAX_REJECT_MESSAGE)
    ensures ReadRejection(e, U8(command) + (U8(reason) + Bytes8(message))) ==
            Some(Read(e.(command := command, reason := reason, message := message), []))
  {
    TextReads(message, MAX_REJECT_MESSAGE, []);
    assert Bytes8(message) + [] == Bytes8(message);
  }

  lemma LastOctetReads(v: octet)
    ensures ReadU8(U8(v)) == Some(Read(v, []))
  {
    assert U8(v)[1..] == [];
  }

  lemma ShortBodiesRead(e: Event, strict: bool)
    requires e.kind == PARTICIPANT_LEFT || e.kind == ATTACHMENT_REMOVED || e.kind == ROOM_ENDING
    requires EventOk(e)
    ensures ReadEventBody(BlankEvent(e.seqNo, e.kind), PutEventBody(e), strict) == Some(Read(CleanEvent(e), []))
  {
    if e.kind == PARTICIPANT_LEFT {
      U16Reads(e.participant.id, []);
      assert U16(e.participant.id) + [] == U16(e.participant.id);
    } else {
      LastOctetReads(e.reason);
      if e.kind == ATTACHMENT_REMOVED {
        IdReads(e.attachment.broadcast, strict, U8(e.reason));
      }
    }
  }

  lemma EventBodyReads(e: Event, strict: bool)
    requires KnownEvent(e.kind) && EventOk(e)
    ensures ReadEventBody(BlankEvent(e.seqNo, e.kind), PutEventBody(e), strict) ==
            if e.kind == VOICE_TICKET && !Utf8(e.voiceUrl) then None else Some(Read(CleanEvent(e), []))
  {
    var blank := BlankEvent(e.seqNo, e.kind);
    if WithParticipant(e.kind) {
      ParticipantReads(e.participant, []);
    } else if WithAttachment(e.kind) {
      AttachmentReads(e.attachment, strict, []);
    } else if e.kind == COMMAND_REJECTED {
      RejectionReads(blank, e.command, e.reason, e.message);
    } else if e.kind == VOICE_TICKET {
      VoiceTicketReads(blank, e.voiceUrl, e.voiceTicket);
    } else if e.kind == VOICE_ROSTER_UPDATED {
      VoiceRosterReads(e.voiceRoster);
    } else {
      ShortBodiesRead(e, strict);
    }
  }

  /** An appended event's head is read back and its body is what follows. */
  lemma EventHeadReads(e: Event)
    ensures var msg := EncodeEvent(e);
            CheckPrefix(msg, TYPE_ROOM_EVENT, 7).None? && ReadU32(msg[2..]).value.value == e.seqNo && msg[6] == e.kind &&
            msg[7..] == PutEventBody(e)
  {
    var t := U8(e.kind) + PutEventBody(e);
    U32Reads(e.seqNo, t);
    assert EncodeEvent(e)[2..] == U32(e.seqNo) + t;
  }

  /**
   * Parsing undoes appending exactly when a voice ticket's URL is UTF-8, which the appender leaves to its caller: any
   * other URL is appended and then refused by every reader.
   */
  lemma EventRoundTrip(e: Event, strict: bool)
    requires AppendEvent([], e).Ok?
    ensures DecodeEvent(AppendEvent([], e).value, strict) ==
            if e.kind == VOICE_TICKET && !Utf8(e.voiceUrl) then Err(BadEvent) else Ok(CleanEvent(e))
  {
    assert [] + EncodeEvent(e) == EncodeEvent(e);
    EventHeadReads(e);
    EventBodyReads(e, strict);
  }

  /** The appender and the parser refuse the same kinds, and the parser hands back where the event stood. */
  lemma UnknownEventsAreSkippable(msg: Octets, seqNo: u32, kind: octet, strict: bool)
    ensures DecodeEvent(msg, strict) == Err(UnknownRoomKind(seqNo, kind)) <==>
            !KnownEvent(kind) && exists body: Octets ::
              msg == [VERSION, TYPE_ROOM_EVENT] + (U32(seqNo) + (U8(kind) + body))
  {
    if CheckPrefix(msg, TYPE_ROOM_EVENT, 7).None? {
      ReadU32Writes(msg[2..]);
      var at := ReadU32(msg[2..]).value.value;
      assert msg[2..] == U32(at) + (U8(msg[6]) + msg[7..]);
      assert msg == [VERSION, TYPE_ROOM_EVENT] + (U32(at) + (U8(msg[6]) + msg[7..]));
    }
    forall body: Octets | msg == [VERSION, TYPE_ROOM_EVENT] + (U32(seqNo) + (U8(kind) + body))
      ensures CheckPrefix(msg, TYPE_ROOM_EVENT, 7).None? && ReadU32(msg[2..]).value.value == seqNo && msg[6] == kind
    {
      U32Reads(seqNo, U8(kind) + body);
      assert msg[2..] == U32(seqNo) + (U8(kind) + body);
    }
  }

  // ----- events: rewriting what was read -----

  lemma ReadVoiceRosterWrites(b: Octets)
    requires ReadVoiceRoster(b).Some? && ReadVoiceRoster(b).value.rest == []
    ensures var vs := ReadVoiceRoster(b).value.value;
            |vs| <= MAX_VOICE_ROSTER && b == PutVoiceRoster(vs) && forall v | v in vs :: VoiceUserOk(v)
  {
    ReadU16Writes(b);
    var n := ReadU16(b).value;
    FitsField(n.value, 0x1_0000);
    VoiceUsersRewrite(n.rest, n.value);
    var vs := ReadVoiceRoster(b).value.value;
    assert |vs| == n.value && PutAll(vs, PutVoiceUser, []) == n.rest;
  }

  lemma VoiceUsersPrepend()
    ensures Prepends(PutVoiceUser)
  {
    forall v: VoiceUser, t: Octets ensures PutVoiceUser(v, t) == PutVoiceUser(v, []) + t {
      VoiceUserPrepends(v, t);
    }
  }

  lemma VoiceUsersRewrite(b: Octets, n: nat)
    requires ReadAll(b, n, ReadVoiceUser).Some?
    ensures var r := ReadAll(b, n, ReadVoiceUser).value;
            b == PutAll(r.value, PutVoiceUser, r.rest) && forall v | v in r.value :: VoiceUserOk(v)
  {
    VoiceUsersPrepend();
    forall t: Octets | ReadVoiceUser(t).Some?
      ensures var r := ReadVoiceUser(t).value;
              VoiceUserOk(r.value) && |t| == |PutVoiceUser(r.value, r.rest)| && t == PutVoiceUser(r.value, r.rest)
    {
      ReadVoiceUserWrites(t);
    }
    AllRewrite(b, n, PutVoiceUser, ReadVoiceUser, VoiceUserOk, true);
  }

  lemma ReadVoiceTicketWrites(e: Event, b: Octets)
    requires ReadVoiceTicket(e, b).Some?
    ensures var r := ReadVoiceTicket(e, b).value;
            r.value == e.(voiceUrl := r.value.voiceUrl, voiceTicket := r.value.voiceTicket) &&
            b == Bytes16(r.value.voiceUrl) + (Bytes16(r.value.voiceTicket) + r.rest) && Utf8(r.value.voiceUrl) &&
            0 < |r.value.voiceUrl| <= MAX_VOICE_URL && 0 < |r.value.voiceTicket| <= MAX_VOICE_TICKET
  {
    ReadBytes16Writes(b, MAX_VOICE_URL);
    ReadBytes16Writes(ReadBytes16(b, MAX_VOICE_URL).value.rest, MAX_VOICE_TICKET);
  }

  lemma ReadRejectionWrites(e: Event, b: Octets)
    requires ReadRejection(e, b).Some?
    ensures var r := ReadRejection(e, b).value;
            b == U8(r.value.command) + (U8(r.value.reason) + (Bytes8(r.value.message) + r.rest)) &&
            TextOk(r.value.message, MAX_REJECT_MESSAGE)
  {
    ReadTextWrites(b[2..], MAX_REJECT_MESSAGE);
    assert b == U8(b[0]) + (U8(b[1]) + b[2..]);
  }

  /** What a whole body says, for the kinds with an ID to normalize. */
  lemma ReadIdBodyWrites(head: Event, b: Octets, strict: bool)
    requires WithAttachment(head.kind) || head.kind == ATTACHMENT_REMOVED
    requires head == BlankEvent(head.seqNo, head.kind)
    requires ReadEventBody(head, b, strict).Some? && ReadEventBody(head, b, strict).value.rest == []
    ensures var e := ReadEventBody(head, b, strict).value.value;
            e.seqNo == head.seqNo && e.kind == head.kind && EventOk(e) && CleanEvent(e) == e &&
            |b| == |PutEventBody(e)| && (strict ==> b == PutEventBody(e)) &&
            ReadEventBody(head, b, false) == ReadEventBody(head, b, strict)
  {
    if WithAttachment(head.kind) {
      ReadAttachmentWrites(b, strict);
    } else {
      ReadIdWrites(b, strict);
      var id := ReadId(b, strict).value;
      assert id.rest == U8(id.rest[0]);
    }
  }

  /** The same for the kinds without one, where the bytes always come back. */
  lemma ReadPlainBodyWrites(head: Event, b: Octets, strict: bool)
    requires WithParticipant(head.kind) || head.kind == PARTICIPANT_LEFT || head.kind == ROOM_ENDING
    requires head == BlankEvent(head.seqNo, head.kind)
    requires ReadEventBody(head, b, strict).Some? && ReadEventBody(head, b, strict).value.rest == []
    ensures var e := ReadEventBody(head, b, strict).value.value;
            e.seqNo == head.seqNo && e.kind == head.kind && EventOk(e) && CleanEvent(e) == e && b == PutEventBody(e)
  {
    if WithParticipant(head.kind) {
      ReadParticipantWrites(b);
    } else if head.kind == PARTICIPANT_LEFT {
      ReadU16Writes(b);
    } else {
      assert b == U8(b[0]);
    }
  }

  lemma ReadRejectionBodyWrites(head: Event, b: Octets, strict: bool)
    requires head.kind == COMMAND_REJECTED
    requires head == BlankEvent(head.seqNo, head.kind)
    requires ReadEventBody(head, b, strict).Some? && ReadEventBody(head, b, strict).value.rest == []
    ensures var e := ReadEventBody(head, b, strict).value.value;
            e.seqNo == head.seqNo && e.kind == head.kind && EventOk(e) && CleanEvent(e) == e && b == PutEventBody(e)
  {
    ReadRejectionWrites(head, b);
  }

  lemma ReadTicketBodyWrites(head: Event, b: Octets, strict: bool)
    requires head.kind == VOICE_TICKET
    requires head == BlankEvent(head.seqNo, head.kind)
    requires ReadEventBody(head, b, strict).Some? && ReadEventBody(head, b, strict).value.rest == []
    ensures var e := ReadEventBody(head, b, strict).value.value;
            e.seqNo == head.seqNo && e.kind == head.kind && EventOk(e) && CleanEvent(e) == e && b == PutEventBody(e) && Utf8(e.voiceUrl)
  {
    TicketBodyIs(head, b, strict);
    ReadVoiceTicketWrites(head, b);
    var e := ReadVoiceTicket(head, b).value.value;
    TicketIsWhole(b, e);
    TicketIsClean(head, e);
  }

  lemma TicketBodyIs(head: Event, b: Octets, strict: bool)
    requires head.kind == VOICE_TICKET
    ensures ReadEventBody(head, b, strict) == ReadVoiceTicket(head, b)
  {}

  lemma TicketIsClean(head: Event, e: Event)
    requires head.kind == VOICE_TICKET && head == BlankEvent(head.seqNo, head.kind)
    requires e == head.(voiceUrl := e.voiceUrl, voiceTicket := e.voiceTicket)
    ensures CleanEvent(e) == e
  {}

  lemma TicketIsWhole(b: Octets, e: Event)
    requires e.kind == VOICE_TICKET && b == Bytes16(e.voiceUrl) + (Bytes16(e.voiceTicket) + [])
    ensures b == PutEventBody(e)
  {
    assert Bytes16(e.voiceTicket) + [] == Bytes16(e.voiceTicket);
  }

  lemma ReadRosterBodyWrites(head: Event, b: Octets, strict: bool)
    requires head.kind == VOICE_ROSTER_UPDATED
    requires head == BlankEvent(head.seqNo, head.kind)
    requires ReadEventBody(head, b, strict).Some? && ReadEventBody(head, b, strict).value.rest == []
    ensures var e := ReadEventBody(head, b, strict).value.value;
            e.seqNo == head.seqNo && e.kind == head.kind && EventOk(e) && CleanEvent(e) == e && b == PutEventBody(e)
  {
    ReadVoiceRosterWrites(b[1..]);
    assert b == U8(b[0]) + b[1..];
  }

  /** Only a body with an ID in it can be read strictly or not. */
  lemma StrictnessIsAboutIds(head: Event, b: Octets)
    requires !WithAttachment(head.kind) && head.kind != ATTACHMENT_REMOVED
    ensures ReadEventBody(head, b, true) == ReadEventBody(head, b, false)
  {}

  lemma ReadEventBodyWrites(head: Event, b: Octets, strict: bool)
    requires KnownEvent(head.kind) && head == BlankEvent(head.seqNo, head.kind)
    requires ReadEventBody(head, b, strict).Some? && ReadEventBody(head, b, strict).value.rest == []
    ensures var e := ReadEventBody(head, b, strict).value.value;
            e.seqNo == head.seqNo && e.kind == head.kind && EventOk(e) && CleanEvent(e) == e &&
            |b| == |PutEventBody(e)| && (strict ==> b == PutEventBody(e)) &&
            ReadEventBody(head, b, false) == ReadEventBody(head, b, strict) &&
            (e.kind == VOICE_TICKET ==> Utf8(e.voiceUrl))
  {
    if WithAttachment(head.kind) || head.kind == ATTACHMENT_REMOVED {
      ReadIdBodyWrites(head, b, strict);
    } else {
      StrictnessIsAboutIds(head, b);
      if head.kind == COMMAND_REJECTED {
        ReadRejectionBodyWrites(head, b, strict);
      } else if head.kind == VOICE_TICKET {
        ReadTicketBodyWrites(head, b, strict);
      } else if head.kind == VOICE_ROSTER_UPDATED {
        ReadRosterBodyWrites(head, b, strict);
      } else {
        ReadPlainBodyWrites(head, b, strict);
      }
    }
  }

  lemma ReadEventHeadWrites(msg: Octets)
    requires CheckPrefix(msg, TYPE_ROOM_EVENT, 7).None?
    ensures msg == [VERSION, TYPE_ROOM_EVENT] + (U32(ReadU32(msg[2..]).value.value) + (U8(msg[6]) + msg[7..]))
  {
    ReadU32Writes(msg[2..]);
    assert msg[2..] == U32(ReadU32(msg[2..]).value.value) + (U8(msg[6]) + msg[7..]);
  }

  /** Appending undoes parsing, as for RoomState. */
  lemma EventRewrites(msg: Octets)
    requires |msg| <= MAX_RECORD && DecodeEvent(msg, false).Ok?
    ensures var e := DecodeEvent(msg, false).value;
            var again := AppendEvent([], e);
            again.Ok? && |again.value| == |msg| && DecodeEvent(again.value, false) == Ok(e) &&
            (again.value == msg <==> DecodeEvent(msg, true).Ok?)
  {
    var head := BlankEvent(ReadU32(msg[2..]).value.value, msg[6]);
    var e := DecodeEvent(msg, false).value;
    ReadEventBodyWrites(head, msg[7..], false);
    ReadEventHeadWrites(msg);
    assert [] + EncodeEvent(e) == EncodeEvent(e);
    assert |EncodeEvent(e)| == |msg|;
    EventRoundTrip(e, false);
    EventRoundTrip(e, true);
    if DecodeEvent(msg, true).Ok? {
      ReadEventBodyWrites(head, msg[7..], true);
    }
  }

  // ----- commands -----

  const ATTACH: octet := 0x01
  const DETACH: octet := 0x02
  const SET_NICKNAME: octet := 0x03
  const END_ROOM: octet := 0x04
  const RESYNC: octet := 0x05
  const VOICE_JOIN: octet := 0x50
  const RESUME_TOKEN_SIZE: octet := 16

  datatype Command = Command(kind: octet, broadcast: Octets, resumeToken: Octets, caption: Octets, nickname: Octets)

  predicate BareCommand(kind: octet) {
    kind == END_ROOM || kind == RESYNC || kind == VOICE_JOIN
  }

  predicate KnownCommand(kind: octet) {
    kind == ATTACH || kind == DETACH || kind == SET_NICKNAME || BareCommand(kind)
  }

  predicate CommandOk(c: Command) {
    if c.kind == ATTACH then
      |c.resumeToken| == RESUME_TOKEN_SIZE && NormalizeId(c.broadcast).Some? && TextOk(c.caption, MAX_LABEL)
    else if c.kind == DETACH then NormalizeId(c.broadcast).Some?
    else if c.kind == SET_NICKNAME then TextOk(c.nickname, MAX_NICKNAME)
    else true
  }

  function CleanCommand(c: Command): Command {
    if c.kind == ATTACH then Command(ATTACH, CleanId(c.broadcast), c.resumeToken, c.caption, [])
    else if c.kind == DETACH then Command(DETACH, CleanId(c.broadcast), [], [], [])
    else if c.kind == SET_NICKNAME then Command(SET_NICKNAME, [], [], [], c.nickname)
    else Command(c.kind, [], [], [], [])
  }

  function PutCommandBody(c: Command): Octets {
    if c.kind == ATTACH then Bytes8(CleanId(c.broadcast)) + (Bytes8(c.resumeToken) + Bytes8(c.caption))
    else if c.kind == DETACH then Bytes8(CleanId(c.broadcast))
    else if c.kind == SET_NICKNAME then Bytes8(c.nickname)
    else []
  }

  function EncodeCommand(c: Command): Octets {
    [VERSION, TYPE_ROOM_COMMAND, c.kind] + PutCommandBody(c)
  }

  function AppendCommand(dst: Octets, c: Command): Result<Octets, WireError> {
    if !KnownCommand(c.kind) then Err(UnknownRoomKind(0, c.kind))
    else if !CommandOk(c) then Err(BadCommand)
    else Ok(dst + EncodeCommand(c))
  }

  function ReadAttach(b: Octets, strict: bool): Option<Read<Command>> {
    var broadcast :- ReadId(b, strict);
    var token :- ReadBytes8(broadcast.rest, RESUME_TOKEN_SIZE);
    if |token.value| != RESUME_TOKEN_SIZE then None
    else
      var caption :- ReadText(token.rest, MAX_LABEL);
      Some(Read(Command(ATTACH, broadcast.value, token.value, caption.value, []), caption.rest))
  }

  function ReadCommandBody(kind: octet, b: Octets, strict: bool): Option<Read<Command>> {
    if kind == ATTACH then ReadAttach(b, strict)
    else if kind == DETACH then
      var broadcast :- ReadId(b, strict);
      Some(Read(Command(DETACH, broadcast.value, [], [], []), broadcast.rest))
    else if kind == SET_NICKNAME then
      var nickname :- ReadText(b, MAX_NICKNAME);
      Some(Read(Command(SET_NICKNAME, [], [], [], nickname.value), nickname.rest))
    else Some(Read(Command(kind, [], [], [], []), b))
  }

  function DecodeCommand(msg: Octets, strict: bool): Result<Command, WireError> {
    match CheckPrefix(msg, TYPE_ROOM_COMMAND, 3)
    case Some(e) => Err(e)
    case None =>
      if !KnownCommand(msg[2]) then Err(UnknownRoomKind(0, msg[2]))
      else Whole(ReadCommandBody(msg[2], msg[3..], strict), BadCommand)
  }

  lemma CommandBodyReads(c: Command, strict: bool)
    requires KnownCommand(c.kind) && CommandOk(c)
    ensures ReadCommandBody(c.kind, PutCommandBody(c), strict) == Some(Read(CleanCommand(c), []))
  {
    if c.kind == ATTACH {
      var t := Bytes8(c.resumeToken) + Bytes8(c.caption);
      IdReads(c.broadcast, strict, t);
      Bytes8Reads(c.resumeToken, RESUME_TOKEN_SIZE, Bytes8(c.caption));
      TextReads(c.caption, MAX_LABEL, []);
      assert Bytes8(c.caption) + [] == Bytes8(c.caption);
    } else if c.kind == DETACH {
      IdReads(c.broadcast, strict, []);
      assert Bytes8(CleanId(c.broadcast)) + [] == Bytes8(CleanId(c.broadcast));
    } else if c.kind == SET_NICKNAME {
      TextReads(c.nickname, MAX_NICKNAME, []);
      assert Bytes8(c.nickname) + [] == Bytes8(c.nickname);
    }
  }

  lemma ReadCommandBodyWrites(kind: octet, b: Octets, strict: bool)
    requires KnownCommand(kind)
    requires ReadCommandBody(kind, b, strict).Some? && ReadCommandBody(kind, b, strict).value.rest == []
    ensures var c := ReadCommandBody(kind, b, strict).value.value;
            c.kind == kind && CommandOk(c) && CleanCommand(c) == c && |b| == |PutCommandBody(c)| &&
            (strict ==> b == PutCommandBody(c)) && ReadCommandBody(kind, b, false) == ReadCommandBody(kind, b, strict)
  {
    if kind == ATTACH {
      ReadIdWrites(b, strict);
      var b1 := ReadId(b, strict).value.rest;
      ReadBytes8Writes(b1, RESUME_TOKEN_SIZE);
      ReadTextWrites(ReadBytes8(b1, RESUME_TOKEN_SIZE).value.rest, MAX_LABEL);
      var c := ReadCommandBody(kind, b, strict).value.value;
      assert b1 == Bytes8(c.resumeToken) + Bytes8(c.caption);
    } else if kind == DETACH {
      ReadIdWrites(b, strict);
    } else if kind == SET_NICKNAME {
      ReadTextWrites(b, MAX_NICKNAME);
    }
  }

  /** Parsing undoes appending for every command the appender accepts. */
  lemma CommandRoundTrip(c: Command, strict: bool)
    requires AppendCommand([], c).Ok?
    ensures DecodeCommand(AppendCommand([], c).value, strict) == Ok(CleanCommand(c))
  {
    assert [] + EncodeCommand(c) == EncodeCommand(c);
    assert EncodeCommand(c)[3..] == PutCommandBody(c);
    CommandBodyReads(c, strict);
  }

  /** Appending undoes parsing, as for RoomState; no command comes near the record limit. */
  lemma CommandRewrites(msg: Octets)
    requires DecodeCommand(msg, false).Ok?
    ensures var c := DecodeCommand(msg, false).value;
            var again := AppendCommand([], c);
            again.Ok? && |again.value| == |msg| && DecodeCommand(again.value, false) == Ok(c) &&
            (again.value == msg <==> DecodeCommand(msg, true).Ok?)
  {
    ReadCommandBodyWrites(msg[2], msg[3..], false);
    var c := DecodeCommand(msg, false).value;
    assert [] + EncodeCommand(c) == EncodeCommand(c);
    assert msg == [VERSION, TYPE_ROOM_COMMAND, msg[2]] + msg[3..];
    CommandRoundTrip(c, false);
    CommandRoundTrip(c, true);
    if DecodeCommand(msg, true).Ok? {
      ReadCommandBodyWrites(msg[2], msg[3..], true);
    }
  }
}
