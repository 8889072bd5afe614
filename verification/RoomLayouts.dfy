/** Where every field of a room message stands, byte by byte, as gawk-server/wire/room.go:27-103 lays them out. */
module RoomLayouts {
  import opened WireFields
  import opened RoomItems
  import opened RoomState
  import opened RoomMessages

  /** The bytes x stand at offset off. */
  predicate At(m: Octets, off: nat, x: Octets) {
    off + |x| <= |m| && m[off..off + |x|] == x
  }

  /** The number written by bytes, most significant first. */
  function BigEndian(b: Octets): nat {
    if b == [] then 0 else BigEndian(b[..|b| - 1]) * 256 + b[|b| - 1]
  }

  lemma U16IsBigEndian(v: u16)
    ensures BigEndian(U16(v)) == v
  {
    var b := U16(v);
    assert b[..1] == [v / 256] && b[..1][..0] == [];
    assert BigEndian(b[..1]) == v / 256;
  }

  lemma U32IsBigEndian(v: u32)
    ensures BigEndian(U32(v)) == v
  {
    var hi, lo: u16 := v / 0x1_0000, v % 0x1_0000;
    var b := U32(v);
    U16IsBigEndian(hi);
    assert b[..3][..2] == U16(hi) && b[..3][2] == lo / 256 && b[3] == lo % 256;
    assert b[..|b| - 1] == b[..3] && b[..3][..|b[..3]| - 1] == b[..3][..2];
    assert BigEndian(b[..3]) == hi * 256 + lo / 256;
    assert BigEndian(b) == (hi * 256 + lo / 256) * 256 + lo % 256;
  }

  /** A number of size bytes stands at offset off, most significant byte first. */
  predicate NumberAt(m: Octets, off: nat, size: nat, v: nat) {
    off + size <= |m| && BigEndian(m[off..off + size]) == v
  }

  /** What stands at off in the part from k on stands at `to` in the whole. */
  lemma Shifted(m: Octets, k: nat, off: nat, to: nat, x: Octets)
    requires k <= |m| && to == k + off && At(m[k..], off, x)
    ensures At(m, to, x)
  {
    assert m[k..][off..off + |x|] == m[to..to + |x|];
  }

  lemma ShiftedU16(m: Octets, k: nat, off: nat, to: nat, v: u16)
    requires k <= |m| && to == k + off && At(m[k..], off, U16(v))
    ensures NumberAt(m, to, 2, v)
  {
    Shifted(m, k, off, to, U16(v));
    U16IsBigEndian(v);
  }

  lemma ShiftedU32(m: Octets, k: nat, off: nat, to: nat, v: u32)
    requires k <= |m| && to == k + off && At(m[k..], off, U32(v))
    ensures NumberAt(m, to, 4, v)
  {
    Shifted(m, k, off, to, U32(v));
    U32IsBigEndian(v);
  }

  /** Once the front of a message is known, the next field stands right after it. */
  lemma NextField(m: Octets, front: Octets, x: Octets, rest: Octets)
    requires m == front + (x + rest)
    ensures At(m, |front|, x) && m == (front + x) + rest
  {}

  /** A length-prefixed field: its length, then its bytes. */
  predicate Bytes8At(m: Octets, off: nat, s: Octets) {
    off < |m| && m[off] == |s| && At(m, off + 1, s)
  }

  lemma NextBytes8(m: Octets, front: Octets, s: Octets, rest: Octets)
    requires m == front + (Bytes8(s) + rest) && |s| < 0x100
    ensures Bytes8At(m, |front|, s) && m == (front + Bytes8(s)) + rest
  {
    FitsField(|s|, 0x100);
    assert m == (front + [|s|]) + (s + rest);
  }

  lemma ShiftedBytes8(m: Octets, k: nat, off: nat, to: nat, s: Octets)
    requires k <= |m| && to == k + off && Bytes8At(m[k..], off, s)
    ensures Bytes8At(m, to, s)
  {
    Shifted(m, k, off + 1, to + 1, s);
  }

  // ----- RoomHello -----

  lemma HelloLayout(h: Hello)
    requires HelloOk(h)
    ensures var m := EncodeHello(h);
            m[..5] == [0x01, 0x13, h.protocol, h.clientKind, h.wantCaps] && Bytes8At(m, 5, h.nickname) &&
            |m| == 6 + |h.nickname|
  {
    var m := EncodeHello(h);
    var front := [VERSION, TYPE_ROOM_HELLO, h.protocol, h.clientKind, h.wantCaps];
    assert Bytes8(h.nickname) + [] == Bytes8(h.nickname);
    assert m == front + (Bytes8(h.nickname) + []);
    NextBytes8(m, front, h.nickname, []);
  }

  // ----- RoomState -----

  /** Where the display name, the creator token, the key and the attachment count begin. */
  function NameAt(s: State): nat { 11 + |s.code| }
  function TokenAt(s: State): nat { NameAt(s) + 1 + |s.displayName| }
  function KeyAt(s: State): nat { TokenAt(s) + 1 + |s.creatorToken| }
  function AttachmentsAt(s: State): nat { KeyAt(s) + 1 + |s.key| }

  lemma StateHeadLayout(s: State)
    ensures var m := EncodeState(s);
            m[..4] == [0x01, 0x14, s.flags, s.caps] && At(m, 4, U32(s.seqNo)) && At(m, 8, U16(s.yourId)) &&
            m == m[..10] + PutNames(s, PutLists(s))
  {
    var m, names := EncodeState(s), PutNames(s, PutLists(s));
    var f0 := [VERSION, TYPE_ROOM_STATE, s.flags, s.caps];
    assert m == f0 + (U32(s.seqNo) + (U16(s.yourId) + names));
    NextField(m, f0, U32(s.seqNo), U16(s.yourId) + names);
    NextField(m, f0 + U32(s.seqNo), U16(s.yourId), names);
  }

  lemma StateNamesLayout(s: State, m: Octets)
    requires NamesOk(s) && |m| >= 10 && m == m[..10] + PutNames(s, PutLists(s))
    ensures Bytes8At(m, 10, s.code) && Bytes8At(m, NameAt(s), s.displayName) && Bytes8At(m, TokenAt(s), s.creatorToken) &&
            Bytes8At(m, KeyAt(s), s.key) && AttachmentsAt(s) <= |m| && m[AttachmentsAt(s)..] == PutLists(s)
  {
    var lists := PutLists(s);
    var t1 := Bytes8(s.key) + lists;
    var t2 := Bytes8(s.creatorToken) + t1;
    var f0 := m[..10];
    var f1 := f0 + Bytes8(s.code);
    var f2 := f1 + Bytes8(s.displayName);
    var f3 := f2 + Bytes8(s.creatorToken);
    NextBytes8(m, f0, s.code, Bytes8(s.displayName) + t2);
    assert |f1| == NameAt(s);
    NextBytes8(m, f1, s.displayName, t2);
    assert |f2| == TokenAt(s);
    NextBytes8(m, f2, s.creatorToken, t1);
    assert |f3| == KeyAt(s);
    NextBytes8(m, f3, s.key, lists);
    Rest(m, f3 + Bytes8(s.key), lists);
  }

  lemma Front(m: Octets, front: Octets, rest: Octets)
    requires m == front + rest
    ensures |front| <= |m| && m[..|front|] == front
  {}

  lemma Rest(m: Octets, front: Octets, rest: Octets)
    requires m == front + rest
    ensures |front| <= |m| && m[|front|..] == rest
  {}

  /** The fixed head, the four length-prefixed fields, and then the two counted lists. */
  lemma StateLayout(s: State)
    requires StateOk(s)
    ensures var m := EncodeState(s);
            m[..4] == [0x01, 0x14, s.flags, s.caps] && At(m, 4, U32(s.seqNo)) && At(m, 8, U16(s.yourId)) &&
            Bytes8At(m, 10, s.code) && Bytes8At(m, NameAt(s), s.displayName) && Bytes8At(m, TokenAt(s), s.creatorToken) &&
            Bytes8At(m, KeyAt(s), s.key) && AttachmentsAt(s) < |m| && m[AttachmentsAt(s)] == |s.attachments| &&
            m[AttachmentsAt(s) + 1..] ==
              PutAll(s.attachments, PutAttachment, U16(|s.participants|) + PutAll(s.participants, PutParticipant, []))
  {
    StateHeadLayout(s);
    StateNamesLayout(s, EncodeState(s));
    FitsField(|s.attachments|, 0x100);
    FitsField(|s.participants|, 0x1_0000);
    var lists := PutLists(s);
    assert lists[0] == |s.attachments|;
    assert lists[1..] == PutAll(s.attachments, PutAttachment, PutRoster(s.participants));
  }

  lemma AttachmentLayout(a: Attachment, rest: Octets)
    requires AttachmentOk(a)
    ensures var m := PutAttachment(a, rest);
            var n := |a.caption|;
            Bytes8At(m, 0, CleanId(a.broadcast)) && Bytes8At(m, 7, a.caption) && |m| == 13 + n + |rest| &&
            m[8 + n] == (if a.live then 1 else 0) && At(m, 9 + n, U32(a.viewers)) && m[13 + n..] == rest
  {
    var m, id := PutAttachment(a, rest), CleanId(a.broadcast);
    var flags := U8(if a.live then 1 else 0);
    NextBytes8(m, [], id, PutShown(a, rest));
    NextBytes8(m, Bytes8(id), a.caption, flags + (U32(a.viewers) + rest));
    NextField(m, Bytes8(id) + Bytes8(a.caption), flags, U32(a.viewers) + rest);
    NextField(m, Bytes8(id) + Bytes8(a.caption) + flags, U32(a.viewers), rest);
  }

  lemma ParticipantLayout(p: Participant, rest: Octets)
    requires ParticipantOk(p)
    ensures var m := PutParticipant(p, rest);
            var n := |p.nickname|;
            At(m, 0, U16(p.id)) && m[2] == p.kind && m[3] == p.flags && Bytes8At(m, 4, p.nickname) &&
            Bytes8At(m, 5 + n, p.identity) && |m| == 6 + n + |p.identity| + |rest|
  {
    var m := PutParticipant(p, rest);
    var f0 := U16(p.id) + U8(p.kind) + U8(p.flags);
    assert m == f0 + (Bytes8(p.nickname) + (Bytes8(p.identity) + rest));
    NextBytes8(m, f0, p.nickname, Bytes8(p.identity) + rest);
    NextBytes8(m, f0 + Bytes8(p.nickname), p.identity, rest);
  }

  lemma VoiceUserLayout(v: VoiceUser, rest: Octets)
    requires VoiceUserOk(v)
    ensures var m := PutVoiceUser(v, rest);
            At(m, 0, U32(v.session)) && m[4] == v.kind && At(m, 5, U16(v.participant)) && m[7] == v.flags &&
            Bytes8At(m, 8, v.name) && |m| == 9 + |v.name| + |rest|
  {
    var m := PutVoiceUser(v, rest);
    var f0 := U32(v.session) + U8(v.kind);
    assert m == f0 + (U16(v.participant) + (U8(v.flags) + (Bytes8(v.name) + rest)));
    NextField(m, f0, U16(v.participant), U8(v.flags) + (Bytes8(v.name) + rest));
    var f1 := f0 + U16(v.participant) + U8(v.flags);
    assert m == f1 + (Bytes8(v.name) + rest);
    NextBytes8(m, f1, v.name, rest);
  }

  // ----- RoomEvent -----

  lemma EventHeadLayout(e: Event)
    ensures var m := EncodeEvent(e);
            m[..2] == [0x01, 0x15] && At(m, 2, U32(e.seqNo)) && m[6] == e.kind && m[7..] == PutEventBody(e)
  {
    var m := EncodeEvent(e);
    var f0 := [VERSION, TYPE_ROOM_EVENT];
    NextField(m, f0, U32(e.seqNo), U8(e.kind) + PutEventBody(e));
    NextField(m, f0 + U32(e.seqNo), U8(e.kind), PutEventBody(e));
  }

  /** The bodies of the kinds that are not a single record. */
  lemma EventBodyLayout(e: Event)
    requires KnownEvent(e.kind) && EventOk(e)
    ensures var b := PutEventBody(e);
            (e.kind == 0x02 ==> b == U16(e.participant.id)) &&
            (e.kind == 0x11 ==> Bytes8At(b, 0, CleanId(e.attachment.broadcast)) && b[7..] == [e.reason]) &&
            (e.kind == 0x20 ==> b == [e.reason]) &&
            (e.kind == 0x30 ==> b[..2] == [e.command, e.reason] && Bytes8At(b, 2, e.message)) &&
            (e.kind == 0x50 ==> At(b, 0, U16(|e.voiceUrl|)) && At(b, 2, e.voiceUrl) &&
                                At(b, 2 + |e.voiceUrl|, U16(|e.voiceTicket|)) && b[4 + |e.voiceUrl|..] == e.voiceTicket) &&
            (e.kind == 0x51 ==> b[0] == e.voiceFlags && At(b, 1, U16(|e.voiceRoster|)) &&
                                b[3..] == PutAll(e.voiceRoster, PutVoiceUser, []))
  {
    var b := PutEventBody(e);
    if e.kind == ATTACHMENT_REMOVED {
      NextBytes8(b, [], CleanId(e.attachment.broadcast), U8(e.reason));
    } else if e.kind == COMMAND_REJECTED {
      assert b == [e.command, e.reason] + (Bytes8(e.message) + []);
      NextBytes8(b, [e.command, e.reason], e.message, []);
    } else if e.kind == VOICE_TICKET {
      TicketLayout(b, e.voiceUrl, e.voiceTicket);
    } else if e.kind == VOICE_ROSTER_UPDATED {
      FitsField(|e.voiceRoster|, 0x1_0000);
      NextField(b, U8(e.voiceFlags), U16(|e.voiceRoster|), PutAll(e.voiceRoster, PutVoiceUser, []));
    }
  }

  lemma TicketLayout(b: Octets, url: Octets, ticket: Octets)
    requires |url| < 0x1_0000 && |ticket| < 0x1_0000 && b == Bytes16(url) + Bytes16(ticket)
    ensures At(b, 0, U16(|url|)) && At(b, 2, url) && At(b, 2 + |url|, U16(|ticket|)) && b[4 + |url|..] == ticket
  {
    FitsField(|url|, 0x1_0000);
    FitsField(|ticket|, 0x1_0000);
    var u, t := U16(|url|), U16(|ticket|);
    assert b == [] + (u + (url + (t + ticket)));
    NextField(b, [], u, url + (t + ticket));
    NextField(b, u, url, t + ticket);
    NextField(b, u + url, t, ticket);
  }

  predicate ParticipantAt(m: Octets, k: nat, p: Participant) {
    var n := |p.nickname|;
    |m| == k + 6 + n + |p.identity| && NumberAt(m, k, 2, p.id) && m[k + 2] == p.kind && m[k + 3] == p.flags &&
    Bytes8At(m, k + 4, p.nickname) && Bytes8At(m, k + 5 + n, p.identity)
  }

  predicate AttachmentAt(m: Octets, k: nat, a: Attachment)
    requires NormalizeId(a.broadcast).Some?
  {
    var n := |a.caption|;
    |m| == k + 13 + n && Bytes8At(m, k, CleanId(a.broadcast)) && Bytes8At(m, k + 7, a.caption) &&
    m[k + 8 + n] == (if a.live then 1 else 0) && NumberAt(m, k + 9 + n, 4, a.viewers)
  }

  /** The body of each kind of RoomEvent, from offset 7 on. */
  predicate EventBodyAt(m: Octets, e: Event)
    requires EventOk(e)
  {
    match e.kind
    case 0x01 => ParticipantAt(m, 7, e.participant)
    case 0x02 => |m| == 9 && NumberAt(m, 7, 2, e.participant.id)
    case 0x03 => ParticipantAt(m, 7, e.participant)
    case 0x10 => AttachmentAt(m, 7, e.attachment)
    case 0x11 => |m| == 15 && Bytes8At(m, 7, CleanId(e.attachment.broadcast)) && m[14] == e.reason
    case 0x12 => AttachmentAt(m, 7, e.attachment)
    case 0x20 => |m| == 8 && m[7] == e.reason
    case 0x30 => |m| == 10 + |e.message| && m[7] == e.command && m[8] == e.reason && Bytes8At(m, 9, e.message)
    case 0x50 =>
      var n := |e.voiceUrl|;
      |m| == 11 + n + |e.voiceTicket| && NumberAt(m, 7, 2, n) && At(m, 9, e.voiceUrl) &&
      NumberAt(m, 9 + n, 2, |e.voiceTicket|) && At(m, 11 + n, e.voiceTicket)
    case 0x51 =>
      |m| >= 10 && m[7] == e.voiceFlags && NumberAt(m, 8, 2, |e.voiceRoster|) && m[10..] == PutAll(e.voiceRoster, PutVoiceUser, [])
    case _ => false
  }

  lemma ParticipantStands(m: Octets, p: Participant)
    requires ParticipantOk(p) && |m| >= 7 && m[7..] == PutParticipant(p, [])
    ensures ParticipantAt(m, 7, p)
  {
    var b := m[7..];
    ParticipantLayout(p, []);
    ShiftedU16(m, 7, 0, 7, p.id);
    ShiftedBytes8(m, 7, 4, 7 + 4, p.nickname);
    ShiftedBytes8(m, 7, 5 + |p.nickname|, 7 + 5 + |p.nickname|, p.identity);
    assert b[2] == m[9] && b[3] == m[10];
  }

  lemma AttachmentStands(m: Octets, a: Attachment)
    requires AttachmentOk(a) && |m| >= 7 && m[7..] == PutAttachment(a, [])
    ensures AttachmentAt(m, 7, a)
  {
    var b, live := m[7..], 8 + |a.caption|;
    AttachmentLayout(a, []);
    ShiftedBytes8(m, 7, 0, 7, CleanId(a.broadcast));
    ShiftedBytes8(m, 7, 7, 7 + 7, a.caption);
    ShiftedU32(m, 7, live + 1, 7 + 9 + |a.caption|, a.viewers);
    assert b[live] == m[7 + 8 + |a.caption|];
  }

  lemma TicketStands(m: Octets, url: Octets, ticket: Octets)
    requires |url| < 0x1_0000 && |ticket| < 0x1_0000 && |m| >= 7 && m[7..] == Bytes16(url) + Bytes16(ticket)
    ensures var n := |url|;
            |m| == 11 + n + |ticket| && NumberAt(m, 7, 2, n) && At(m, 9, url) && NumberAt(m, 9 + n, 2, |ticket|) &&
            At(m, 11 + n, ticket)
  {
    TicketLayout(m[7..], url, ticket);
    ShiftedU16(m, 7, 0, 7, |url|);
    Shifted(m, 7, 2, 9, url);
    ShiftedU16(m, 7, 2 + |url|, 9 + |url|, |ticket|);
    Shifted(m, 7, 4 + |url|, 11 + |url|, ticket);
  }

  lemma RosterStands(m: Octets, e: Event)
    requires e.kind == VOICE_ROSTER_UPDATED && EventOk(e) && |m| >= 7 && m[7..] == PutEventBody(e)
    ensures EventBodyAt(m, e)
  {
    EventBodyLayout(e);
    ShiftedU16(m, 7, 1, 8, |e.voiceRoster|);
    assert m[7..][3..] == m[10..] && m[7..][0] == m[7];
  }

  lemma ShortBodyStands(m: Octets, e: Event)
    requires e.kind == PARTICIPANT_LEFT || e.kind == ATTACHMENT_REMOVED || e.kind == ROOM_ENDING || e.kind == COMMAND_REJECTED
    requires EventOk(e) && |m| >= 7 && m[7..] == PutEventBody(e)
    ensures EventBodyAt(m, e)
  {
    EventBodyLayout(e);
    var b := m[7..];
    if e.kind == PARTICIPANT_LEFT {
      assert At(b, 0, U16(e.participant.id));
      ShiftedU16(m, 7, 0, 7, e.participant.id);
    } else if e.kind == ATTACHMENT_REMOVED {
      ShiftedBytes8(m, 7, 0, 7, CleanId(e.attachment.broadcast));
      assert b[7..][0] == m[14];
    } else if e.kind == ROOM_ENDING {
      assert b[0] == m[7];
    } else {
      ShiftedBytes8(m, 7, 2, 9, e.message);
      assert b[..2][0] == m[7] && b[..2][1] == m[8];
    }
  }

  lemma EventBodyStands(m: Octets, e: Event)
    requires KnownEvent(e.kind) && EventOk(e) && |m| >= 7 && m[7..] == PutEventBody(e)
    ensures EventBodyAt(m, e)
  {
    if WithParticipant(e.kind) {
      ParticipantStands(m, e.participant);
    } else if WithAttachment(e.kind) {
      AttachmentStands(m, e.attachment);
    } else if e.kind == VOICE_TICKET {
      TicketStands(m, e.voiceUrl, e.voiceTicket);
    } else if e.kind == VOICE_ROSTER_UPDATED {
      RosterStands(m, e);
    } else {
      ShortBodyStands(m, e);
    }
  }

  /** Behind what was there before, an appended event has its number big-endian at 2, its kind at 6 and its body from 7 on. */
  lemma EventLayout(dst: Octets, e: Event)
    requires AppendEvent(dst, e).Ok?
    ensures var out := AppendEvent(dst, e).value;
            dst <= out &&
            var m := out[|dst|..];
            |m| >= 7 && m[..2] == [0x01, 0x15] && NumberAt(m, 2, 4, e.seqNo) && m[6] == e.kind && EventBodyAt(m, e)
  {
    var m := EncodeEvent(e);
    EventHeadLayout(e);
    U32IsBigEndian(e.seqNo);
    EventBodyStands(m, e);
    Rest(AppendEvent(dst, e).value, dst, m);
  }

  // ----- RoomCommand -----

  lemma CommandLayout(c: Command)
    requires KnownCommand(c.kind) && CommandOk(c)
    ensures var m := EncodeCommand(c);
            m[..3] == [0x01, 0x16, c.kind] &&
            (c.kind == 0x01 ==> Bytes8At(m, 3, CleanId(c.broadcast)) && Bytes8At(m, 10, c.resumeToken) &&
                                Bytes8At(m, 27, c.caption) && |m| == 28 + |c.caption|) &&
            (c.kind == 0x02 ==> Bytes8At(m, 3, CleanId(c.broadcast)) && |m| == 10) &&
            (c.kind == 0x03 ==> Bytes8At(m, 3, c.nickname) && |m| == 4 + |c.nickname|) &&
            (c.kind == 0x04 || c.kind == 0x05 || c.kind == 0x50 ==> |m| == 3)
  {
    var m := EncodeCommand(c);
    var f0 := [VERSION, TYPE_ROOM_COMMAND, c.kind];
    if c.kind == ATTACH {
      AttachLayout(m, c);
    } else if c.kind == DETACH {
      assert m == f0 + (Bytes8(CleanId(c.broadcast)) + []);
      NextBytes8(m, f0, CleanId(c.broadcast), []);
    } else if c.kind == SET_NICKNAME {
      assert m == f0 + (Bytes8(c.nickname) + []);
      NextBytes8(m, f0, c.nickname, []);
    }
  }

  lemma AttachLayout(m: Octets, c: Command)
    requires c.kind == ATTACH && CommandOk(c) && m == EncodeCommand(c)
    ensures Bytes8At(m, 3, CleanId(c.broadcast)) && Bytes8At(m, 10, c.resumeToken) && Bytes8At(m, 27, c.caption) &&
            |m| == 28 + |c.caption|
  {
    var f0 := [VERSION, TYPE_ROOM_COMMAND, c.kind];
    var id := CleanId(c.broadcast);
    assert Bytes8(c.caption) + [] == Bytes8(c.caption);
    assert m == f0 + (Bytes8(id) + (Bytes8(c.resumeToken) + (Bytes8(c.caption) + [])));
    NextBytes8(m, f0, id, Bytes8(c.resumeToken) + (Bytes8(c.caption) + []));
    NextBytes8(m, f0 + Bytes8(id), c.resumeToken, Bytes8(c.caption) + []);
    NextBytes8(m, f0 + Bytes8(id) + Bytes8(c.resumeToken), c.caption, []);
  }
}
