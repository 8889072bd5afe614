/** What the room messages may hold, by number: the limits of gawk-server/wire/room.go, and each way to be refused. */
module RoomLimits {
  import opened Outcomes
  import opened WireFields
  import opened RoomText
  import opened RoomItems
  import opened RoomState
  import opened RoomMessages
  import opened RoomRecords

  /** At most max bytes encoding Unicode scalar values. */
  ghost predicate Text(s: Octets, max: nat) {
    |s| <= max && IsText(s)
  }

  /** What types six characters of the ID alphabet. */
  ghost predicate BroadcastId(typed: Octets) {
    exists id: Octets :: TypesId(typed, id)
  }

  ghost predicate TypesId(typed: Octets, id: Octets) {
    |id| == 6 && (forall c | c in id :: c in ALPHABET) && TypesAll(typed, id)
  }

  lemma TextIs(s: Octets, max: octet)
    ensures TextOk(s, max) <==> Text(s, max)
  {
    TextIff(s);
  }

  lemma IdIs(typed: Octets)
    ensures NormalizeId(typed).Some? <==> BroadcastId(typed)
  {
    if NormalizeId(typed).Some? {
      NormalizesIff(typed, NormalizeId(typed).value);
      assert TypesId(typed, NormalizeId(typed).value);
    }
    forall id: Octets | TypesId(typed, id) ensures NormalizeId(typed).Some? {
      NormalizesIff(typed, id);
    }
  }

  // ----- entries -----

  ghost predicate AttachmentFits(a: Attachment) {
    BroadcastId(a.broadcast) && Text(a.caption, 32)
  }

  ghost predicate ParticipantFits(p: Participant) {
    p.kind <= 2 && p.flags <= 3 && Text(p.nickname, 32) && Text(p.identity, 64)
  }

  ghost predicate VoiceUserFits(v: VoiceUser) {
    v.kind <= 1 && v.flags <= 31 && Text(v.name, 64)
  }

  lemma AttachmentIs(a: Attachment)
    ensures AttachmentOk(a) <==> AttachmentFits(a)
  {
    IdIs(a.broadcast);
    TextIs(a.caption, 32);
  }

  lemma ParticipantIs(p: Participant)
    ensures ParticipantOk(p) <==> ParticipantFits(p)
  {
    TextIs(p.nickname, 32);
    TextIs(p.identity, 64);
  }

  lemma VoiceUserIs(v: VoiceUser)
    ensures VoiceUserOk(v) <==> VoiceUserFits(v)
  {
    TextIs(v.name, 64);
  }

  // ----- what the appenders accept -----

  lemma HelloAccepted(dst: Octets, h: Hello)
    ensures AppendHello(dst, h).Ok? <==> h.protocol == 1 && h.clientKind <= 2 && h.wantCaps <= 3 && Text(h.nickname, 32)
  {
    TextIs(h.nickname, 32);
  }

  ghost predicate StateFits(s: State) {
    && s.flags <= 7 && s.caps <= 3
    && Text(s.code, 32) && s.code != [] && Text(s.displayName, 64)
    && (|s.creatorToken| == 0 || |s.creatorToken| == 16) && (|s.key| == 0 || |s.key| == 6)
    && |s.attachments| <= 255 && |s.participants| <= 65535
    && (forall a | a in s.attachments :: AttachmentFits(a)) && (forall p | p in s.participants :: ParticipantFits(p))
  }

  lemma StateAccepted(dst: Octets, s: State)
    ensures AppendState(dst, s).Ok? <==> StateFits(s) && |dst| + |EncodeState(s)| <= 16384
  {
    TextIs(s.code, 32);
    TextIs(s.displayName, 64);
    forall a | a in s.attachments ensures AttachmentOk(a) <==> AttachmentFits(a) {
      AttachmentIs(a);
    }
    forall p | p in s.participants ensures ParticipantOk(p) <==> ParticipantFits(p) {
      ParticipantIs(p);
    }
  }

  ghost predicate EventFits(e: Event) {
    match e.kind
    case 0x01 => ParticipantFits(e.participant)
    case 0x02 => true
    case 0x03 => ParticipantFits(e.participant)
    case 0x10 => AttachmentFits(e.attachment)
    case 0x11 => BroadcastId(e.attachment.broadcast)
    case 0x12 => AttachmentFits(e.attachment)
    case 0x20 => true
    case 0x30 => Text(e.message, 128)
    case 0x50 => 1 <= |e.voiceUrl| <= 512 && 1 <= |e.voiceTicket| <= 512
    case 0x51 => e.voiceFlags <= 1 && |e.voiceRoster| <= 200 && forall v | v in e.voiceRoster :: VoiceUserFits(v)
    case _ => false
  }

  lemma EventIs(e: Event)
    ensures KnownEvent(e.kind) && EventOk(e) <==> EventFits(e)
  {
    ParticipantIs(e.participant);
    AttachmentIs(e.attachment);
    IdIs(e.attachment.broadcast);
    TextIs(e.message, 128);
    forall v | v in e.voiceRoster ensures VoiceUserOk(v) <==> VoiceUserFits(v) {
      VoiceUserIs(v);
    }
  }

  lemma EventAccepted(dst: Octets, e: Event)
    ensures AppendEvent(dst, e).Ok? <==> EventFits(e) && |dst| + |EncodeEvent(e)| <= 16384
  {
    EventIs(e);
  }

  ghost predicate CommandFits(c: Command) {
    match c.kind
    case 0x01 => |c.resumeToken| == 16 && BroadcastId(c.broadcast) && Text(c.caption, 32)
    case 0x02 => BroadcastId(c.broadcast)
    case 0x03 => Text(c.nickname, 32)
    case _ => c.kind == 0x04 || c.kind == 0x05 || c.kind == 0x50
  }

  lemma CommandAccepted(dst: Octets, c: Command)
    ensures AppendCommand(dst, c).Ok? <==> CommandFits(c)
  {
    IdIs(c.broadcast);
    TextIs(c.caption, 32);
    TextIs(c.nickname, 32);
  }

  lemma RecordAccepted(dst: Octets, msg: Octets)
    ensures AppendRecord(dst, msg).Ok? <==> 2 <= |msg| <= 16384
  {}

  // ----- how the parsers refuse -----

  /** The prefix is checked in this order, and only its faults give these errors. */
  predicate PrefixFault(msg: Octets, kind: octet, least: nat, e: WireError)
    requires least >= 2
  {
    if |msg| < least then e == ShortDatagram
    else if msg[0] != 1 then e == BadVersion
    else msg[1] != kind && e == BadType
  }

  predicate OfPrefix(e: WireError) {
    e == ShortDatagram || e == BadVersion || e == BadType
  }

  lemma HelloRefused(msg: Octets, e: WireError)
    ensures OfPrefix(e) ==> (DecodeHello(msg) == Err(e) <==> PrefixFault(msg, 0x13, 6, e))
    ensures DecodeHello(msg).Err? ==> OfPrefix(DecodeHello(msg).error) || DecodeHello(msg).error == BadHello
  {}

  lemma StateRefused(msg: Octets, e: WireError)
    ensures OfPrefix(e) ==> (DecodeState(msg, false) == Err(e) <==> PrefixFault(msg, 0x14, 16, e))
    ensures DecodeState(msg, false).Err? ==> OfPrefix(DecodeState(msg, false).error) || DecodeState(msg, false).error == BadState
  {}

  lemma EventRefused(msg: Octets, e: WireError)
    ensures OfPrefix(e) ==> (DecodeEvent(msg, false) == Err(e) <==> PrefixFault(msg, 0x15, 7, e))
    ensures DecodeEvent(msg, false).Err? ==>
              var error := DecodeEvent(msg, false).error; OfPrefix(error) || error == BadEvent || error.UnknownRoomKind?
  {}

  predicate CommandKind(kind: octet) {
    kind == 0x01 || kind == 0x02 || kind == 0x03 || kind == 0x04 || kind == 0x05 || kind == 0x50
  }

  lemma CommandRefused(msg: Octets, e: WireError)
    ensures OfPrefix(e) ==> (DecodeCommand(msg, false) == Err(e) <==> PrefixFault(msg, 0x16, 3, e))
    ensures DecodeCommand(msg, false).Err? ==>
              var error := DecodeCommand(msg, false).error; OfPrefix(error) || error == BadCommand || error.UnknownRoomKind?
    ensures e.UnknownRoomKind? ==>
              (DecodeCommand(msg, false) == Err(e) <==>
                 |msg| >= 3 && msg[..2] == [1, 0x16] && !CommandKind(msg[2]) && e == UnknownRoomKind(0, msg[2]))
  {
    if |msg| >= 3 {
      assert msg[..2] == [msg[0], msg[1]];
    }
  }

  predicate EventKind(kind: octet) {
    kind == 0x01 || kind == 0x02 || kind == 0x03 || kind == 0x10 || kind == 0x11 || kind == 0x12 || kind == 0x20 ||
    kind == 0x30 || kind == 0x50 || kind == 0x51
  }

  /** The appenders tell a kind they do not know from fields that do not fit. */
  lemma AppendErrors(dst: Octets, e: Event, c: Command)
    ensures AppendEvent(dst, e).Err? ==>
              AppendEvent(dst, e).error == if EventKind(e.kind) then BadEvent else UnknownRoomKind(e.seqNo, e.kind)
    ensures AppendCommand(dst, c).Err? ==>
              AppendCommand(dst, c).error == if CommandKind(c.kind) then BadCommand else UnknownRoomKind(0, c.kind)
  {}

  /** The length a record begins with. */
  function LengthOf(b: Octets): nat
    requires |b| >= 2
  {
    var hi: int, lo: int := b[0], b[1];
    hi * 256 + lo
  }

  /** What a read finds: a clean end, a refused length, a message of that length, or a record that was cut. */
  lemma RecordsRead(b: Octets)
    ensures ReadRecord(b) == EndOfStream <==> b == [] || (|b| == 2 && 2 <= LengthOf(b) <= 16384)
    ensures ReadRecord(b) == Refused(BadRecord) <==> |b| >= 2 && !(2 <= LengthOf(b) <= 16384)
    ensures forall msg, rest :: ReadRecord(b) == Record(msg, rest) <==>
              2 < |b| && 2 <= |msg| <= 16384 && b == b[..2] + msg + rest && |msg| == LengthOf(b)
    ensures ReadRecord(b) == CutShort <==> |b| == 1 || (2 < |b| < 2 + LengthOf(b) <= 16386)
  {
    forall msg: Octets, rest: Octets | |b| > 2 && b == b[..2] + msg + rest && |msg| == LengthOf(b)
      ensures msg == b[2..2 + |msg|] && rest == b[2 + |msg|..]
    {}
    if |b| > 2 && 2 <= LengthOf(b) <= |b| - 2 {
      assert b == b[..2] + b[2..2 + LengthOf(b)] + b[2 + LengthOf(b)..];
    }
  }
}
