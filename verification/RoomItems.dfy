/** The entries that gawk-server/wire/room.go nests in its messages: attachments, participants and voice users. */
module RoomItems {
  import opened Outcomes
  import opened WireFields

  const MAX_LABEL: octet := 32
  const MAX_NICKNAME: octet := 32
  const MAX_IDENTITY: octet := 64
  const MAX_VOICE_NAME: octet := 64
  const CLIENT_KIND_MAX: octet := 2
  const PARTICIPANT_FLAGS: octet := 0x03
  const VOICE_KIND_MAX: octet := 1
  const VOICE_USER_FLAGS: octet := 0x1F

  // ----- attachments -----

  datatype Attachment = Attachment(broadcast: Octets, caption: Octets, live: bool, viewers: u32)

  predicate AttachmentOk(a: Attachment) {
    NormalizeId(a.broadcast).Some? && TextOk(a.caption, MAX_LABEL)
  }

  function CleanAttachment(a: Attachment): Attachment {
    a.(broadcast := CleanId(a.broadcast))
  }

  function PutAttachment(a: Attachment, rest: Octets): Octets {
    Bytes8(CleanId(a.broadcast)) + PutShown(a, rest)
  }

  /** What follows the broadcast ID. */
  function PutShown(a: Attachment, rest: Octets): Octets {
    Bytes8(a.caption) + (U8(if a.live then 1 else 0) + (U32(a.viewers) + rest))
  }

  function ReadAttachment(b: Octets, strict: bool): Option<Read<Attachment>> {
    var broadcast :- ReadId(b, strict);
    ReadShown(broadcast.value, broadcast.rest)
  }

  function ReadShown(broadcast: Octets, b: Octets): Option<Read<Attachment>> {
    var caption :- ReadText(b, MAX_LABEL);
    var flags :- ReadUpTo(caption.rest, 1);
    var viewers :- ReadU32(flags.rest);
    Some(Read(Attachment(broadcast, caption.value, flags.value == 1, viewers.value), viewers.rest))
  }

  lemma ReadShownWrites(broadcast: Octets, b: Octets)
    requires ReadShown(broadcast, b).Some?
    ensures var r := ReadShown(broadcast, b).value;
            r.value.broadcast == broadcast && TextOk(r.value.caption, MAX_LABEL) && b == PutShown(r.value, r.rest)
  {
    ReadTextWrites(b, MAX_LABEL);
    var b1 := ReadText(b, MAX_LABEL).value.rest;
    ReadU32Writes(b1[1..]);
    assert b1 == U8(b1[0]) + b1[1..];
  }

  lemma AttachmentReads(a: Attachment, strict: bool, rest: Octets)
    requires AttachmentOk(a)
    ensures ReadAttachment(PutAttachment(a, rest), strict) == Some(Read(CleanAttachment(a), rest))
  {
    var t1 := U32(a.viewers) + rest;
    var t2 := U8(if a.live then 1 else 0) + t1;
    IdReads(a.broadcast, strict, Bytes8(a.caption) + t2);
    TextReads(a.caption, MAX_LABEL, t2);
    U32Reads(a.viewers, rest);
  }

  lemma ReadAttachmentWrites(b: Octets, strict: bool)
    requires ReadAttachment(b, strict).Some?
    ensures var r := ReadAttachment(b, strict).value;
            AttachmentOk(r.value) && CleanAttachment(r.value) == r.value && |b| == |PutAttachment(r.value, r.rest)| &&
            (strict ==> b == PutAttachment(r.value, r.rest)) && ReadAttachment(b, false) == Some(r)
  {
    ReadIdWrites(b, strict);
    var id := ReadId(b, strict).value;
    ReadShownWrites(id.value, id.rest);
  }

  lemma AttachmentPrepends(a: Attachment, rest: Octets)
    ensures PutAttachment(a, rest) == PutAttachment(a, []) + rest
  {}

  // ----- participants -----

  datatype Participant = Participant(id: u16, kind: octet, flags: octet, nickname: Octets, identity: Octets)

  predicate ParticipantOk(p: Participant) {
    p.kind <= CLIENT_KIND_MAX && p.flags <= PARTICIPANT_FLAGS && TextOk(p.nickname, MAX_NICKNAME) &&
    TextOk(p.identity, MAX_IDENTITY)
  }

  function PutParticipant(p: Participant, rest: Octets): Octets {
    U16(p.id) + (U8(p.kind) + (U8(p.flags) + (Bytes8(p.nickname) + (Bytes8(p.identity) + rest))))
  }

  function ReadParticipant(b: Octets): Option<Read<Participant>> {
    var id :- ReadU16(b);
    var kind :- ReadUpTo(id.rest, CLIENT_KIND_MAX);
    var flags :- ReadUpTo(kind.rest, PARTICIPANT_FLAGS);
    var nickname :- ReadText(flags.rest, MAX_NICKNAME);
    var identity :- ReadText(nickname.rest, MAX_IDENTITY);
    Some(Read(Participant(id.value, kind.value, flags.value, nickname.value, identity.value), identity.rest))
  }

  lemma ParticipantReads(p: Participant, rest: Octets)
    requires ParticipantOk(p)
    ensures ReadParticipant(PutParticipant(p, rest)) == Some(Read(p, rest))
  {
    var t1 := Bytes8(p.identity) + rest;
    var t2 := Bytes8(p.nickname) + t1;
    U16Reads(p.id, U8(p.kind) + (U8(p.flags) + t2));
    TextReads(p.nickname, MAX_NICKNAME, t1);
    TextReads(p.identity, MAX_IDENTITY, rest);
  }

  lemma ReadParticipantWrites(b: Octets)
    requires ReadParticipant(b).Some?
    ensures var r := ReadParticipant(b).value; ParticipantOk(r.value) && b == PutParticipant(r.value, r.rest)
  {
    ReadU16Writes(b);
    var b1 := ReadU16(b).value.rest[2..];
    ReadTextWrites(b1, MAX_NICKNAME);
    ReadTextWrites(ReadText(b1, MAX_NICKNAME).value.rest, MAX_IDENTITY);
    assert ReadU16(b).value.rest == U8(b[2]) + (U8(b[3]) + b1);
  }

  lemma ParticipantPrepends(p: Participant, rest: Octets)
    ensures PutParticipant(p, rest) == PutParticipant(p, []) + rest
  {}

  // ----- voice users -----

  datatype VoiceUser = VoiceUser(session: u32, kind: octet, participant: u16, flags: octet, name: Octets)

  predicate VoiceUserOk(v: VoiceUser) {
    v.kind <= VOICE_KIND_MAX && v.flags <= VOICE_USER_FLAGS && TextOk(v.name, MAX_VOICE_NAME)
  }

  function PutVoiceUser(v: VoiceUser, rest: Octets): Octets {
    U32(v.session) + (U8(v.kind) + (U16(v.participant) + (U8(v.flags) + (Bytes8(v.name) + rest))))
  }

  function ReadVoiceUser(b: Octets): Option<Read<VoiceUser>> {
    var session :- ReadU32(b);
    var kind :- ReadUpTo(session.rest, VOICE_KIND_MAX);
    var participant :- ReadU16(kind.rest);
    var flags :- ReadUpTo(participant.rest, VOICE_USER_FLAGS);
    var name :- ReadText(flags.rest, MAX_VOICE_NAME);
    Some(Read(VoiceUser(session.value, kind.value, participant.value, flags.value, name.value), name.rest))
  }

  lemma VoiceUserReads(v: VoiceUser, rest: Octets)
    requires VoiceUserOk(v)
    ensures ReadVoiceUser(PutVoiceUser(v, rest)) == Some(Read(v, rest))
  {
    var t1 := U8(v.flags) + (Bytes8(v.name) + rest);
    var t2 := U8(v.kind) + (U16(v.participant) + t1);
    U32Reads(v.session, t2);
    U16Reads(v.participant, t1);
    TextReads(v.name, MAX_VOICE_NAME, rest);
  }

  lemma ReadVoiceUserWrites(b: Octets)
    requires ReadVoiceUser(b).Some?
    ensures var r := ReadVoiceUser(b).value; VoiceUserOk(r.value) && b == PutVoiceUser(r.value, r.rest)
  {
    ReadU32Writes(b);
    var b1 := ReadU32(b).value.rest;
    ReadU16Writes(b1[1..]);
    var b2 := ReadU16(b1[1..]).value.rest;
    ReadTextWrites(b2[1..], MAX_VOICE_NAME);
    assert b1 == U8(b1[0]) + b1[1..] && b2 == U8(b2[0]) + b2[1..];
  }

  lemma VoiceUserPrepends(v: VoiceUser, rest: Octets)
    ensures PutVoiceUser(v, rest) == PutVoiceUser(v, []) + rest
  {}
}
