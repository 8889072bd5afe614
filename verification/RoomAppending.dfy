/** The appenders of gawk-server/wire/room.go: each grows the destination or fails, and is proved against its layout. */
module RoomAppending {
  import opened Outcomes
  import opened WireFields
  import opened RoomItems
  import opened RoomState
  import opened RoomMessages

  method AppendStr8(dst: Octets, s: Octets, max: octet, sentinel: WireError) returns (r: Result<Octets, WireError>)
    ensures r == if TextOk(s, max) then Ok(dst + Bytes8(s)) else Err(sentinel)
  {
    if |s| > max || !Utf8(s) {
      return Err(sentinel);
    }
    FitsField(|s|, 0x100);
    var out := dst + [|s| % 0x100];
    out := out + s;
    assert out == dst + Bytes8(s);
    return Ok(out);
  }

  method AppendBroadcastID(dst: Octets, id: Octets, sentinel: WireError) returns (r: Result<Octets, WireError>)
    ensures r == if NormalizeId(id).Some? then Ok(dst + Bytes8(CleanId(id))) else Err(sentinel)
  {
    var norm := NormalizeId(id);
    if norm.None? {
      return Err(sentinel);
    }
    var out := dst + [|norm.value| % 0x100];
    out := out + norm.value;
    assert out == dst + Bytes8(CleanId(id));
    return Ok(out);
  }

  method AppendAttachment(dst: Octets, a: Attachment, sentinel: WireError) returns (r: Result<Octets, WireError>)
    ensures r == if AttachmentOk(a) then Ok(dst + PutAttachment(a, [])) else Err(sentinel)
  {
    r := AppendBroadcastID(dst, a.broadcast, sentinel);
    if r.Err? {
      return;
    }
    r := AppendStr8(r.value, a.caption, MAX_LABEL, sentinel);
    if r.Err? {
      return;
    }
    var out := r.value + [if a.live then 1 else 0];
    out := out + U32(a.viewers);
    assert out == dst + PutAttachment(a, []);
    return Ok(out);
  }

  method AppendParticipant(dst: Octets, p: Participant, sentinel: WireError) returns (r: Result<Octets, WireError>)
    ensures r == if ParticipantOk(p) then Ok(dst + PutParticipant(p, [])) else Err(sentinel)
  {
    if p.kind > CLIENT_KIND_MAX || p.flags > PARTICIPANT_FLAGS {
      return Err(sentinel);
    }
    var out := dst + U16(p.id);
    out := out + [p.kind, p.flags];
    r := AppendStr8(out, p.nickname, MAX_NICKNAME, sentinel);
    if r.Err? {
      return;
    }
    r := AppendStr8(r.value, p.identity, MAX_IDENTITY, sentinel);
    if r.Ok? {
      assert r.value == dst + PutParticipant(p, []);
    }
  }

  method AppendVoiceUser(dst: Octets, v: VoiceUser) returns (r: Result<Octets, WireError>)
    ensures r == if VoiceUserOk(v) then Ok(dst + PutVoiceUser(v, [])) else Err(BadEvent)
  {
    if v.kind > VOICE_KIND_MAX || v.flags > VOICE_USER_FLAGS {
      return Err(BadEvent);
    }
    var out := dst + U32(v.session);
    out := out + [v.kind];
    out := out + U16(v.participant);
    out := out + [v.flags];
    r := AppendStr8(out, v.name, MAX_VOICE_NAME, BadEvent);
    if r.Ok? {
      assert r.value == dst + PutVoiceUser(v, []);
    }
  }

  /** One more entry at the end of a list is its bytes at the end of the list's. */
  lemma {:induction false} PutAllSnoc<T(!new)>(xs: seq<T>, x: T, put: (T, Octets) -> Octets)
    requires Prepends(put)
    ensures PutAll(xs + [x], put, []) == PutAll(xs, put, []) + put(x, [])
  {
    if xs == [] {
      assert [x][1..] == [];
    } else {
      PutAllSnoc(xs[1..], x, put);
      assert (xs + [x])[1..] == xs[1..] + [x];
      var t := PutAll(xs[1..], put, []);
      assert put(xs[0], t + put(x, [])) == put(xs[0], []) + (t + put(x, [])) == (put(xs[0], []) + t) + put(x, []);
    }
  }

  lemma GrowsByOne<T(!new)>(dst: Octets, xs: seq<T>, i: nat, put: (T, Octets) -> Octets)
    requires i < |xs| && Prepends(put)
    ensures dst + PutAll(xs[..i], put, []) + put(xs[i], []) == dst + PutAll(xs[..i + 1], put, [])
  {
    PutAllSnoc(xs[..i], xs[i], put);
    assert xs[..i + 1] == xs[..i] + [xs[i]];
  }

  method AppendAttachments(dst: Octets, xs: seq<Attachment>) returns (r: Result<Octets, WireError>)
    ensures r == if forall a | a in xs :: AttachmentOk(a) then Ok(dst + PutAll(xs, PutAttachment, [])) else Err(BadState)
  {
    AttachmentsPrepend();
    var out := dst;
    for i := 0 to |xs|
      invariant out == dst + PutAll(xs[..i], PutAttachment, [])
      invariant forall a | a in xs[..i] :: AttachmentOk(a)
    {
      var next := AppendAttachment(out, xs[i], BadState);
      if next.Err? {
        return next;
      }
      GrowsByOne(dst, xs, i, PutAttachment);
      out := next.value;
    }
    assert xs[..|xs|] == xs;
    return Ok(out);
  }

  method AppendParticipants(dst: Octets, xs: seq<Participant>) returns (r: Result<Octets, WireError>)
    ensures r == if forall p | p in xs :: ParticipantOk(p) then Ok(dst + PutAll(xs, PutParticipant, [])) else Err(BadState)
  {
    ParticipantsPrepend();
    var out := dst;
    for i := 0 to |xs|
      invariant out == dst + PutAll(xs[..i], PutParticipant, [])
      invariant forall p | p in xs[..i] :: ParticipantOk(p)
    {
      var next := AppendParticipant(out, xs[i], BadState);
      if next.Err? {
        return next;
      }
      GrowsByOne(dst, xs, i, PutParticipant);
      out := next.value;
    }
    assert xs[..|xs|] == xs;
    return Ok(out);
  }

  method AppendVoiceUsers(dst: Octets, xs: seq<VoiceUser>) returns (r: Result<Octets, WireError>)
    ensures r == if forall v | v in xs :: VoiceUserOk(v) then Ok(dst + PutAll(xs, PutVoiceUser, [])) else Err(BadEvent)
  {
    VoiceUsersPrepend();
    var out := dst;
    for i := 0 to |xs|
      invariant out == dst + PutAll(xs[..i], PutVoiceUser, [])
      invariant forall v | v in xs[..i] :: VoiceUserOk(v)
    {
      var next := AppendVoiceUser(out, xs[i]);
      if next.Err? {
        return next;
      }
      GrowsByOne(dst, xs, i, PutVoiceUser);
      out := next.value;
    }
    assert xs[..|xs|] == xs;
    return Ok(out);
  }

  // ----- RoomState -----

  method AppendHead(dst: Octets, s: State) returns (r: Result<Octets, WireError>)
    ensures s.flags > STATE_FLAGS || s.caps > CAPS || !NamesOk(s) ==> r == Err(BadState)
    ensures s.flags <= STATE_FLAGS && s.caps <= CAPS && NamesOk(s) ==>
              r == Ok(dst + ([VERSION, TYPE_ROOM_STATE] + PutFixed(s, PutNames(s, []))))
  {
    if s.flags > STATE_FLAGS || s.caps > CAPS || s.code == [] ||
       (s.creatorToken != [] && |s.creatorToken| != CREATOR_TOKEN_SIZE) || (s.key != [] && |s.key| != KEY_SIZE)
    {
      return Err(BadState);
    }
    var out := dst + [VERSION, TYPE_ROOM_STATE, s.flags, s.caps] + U32(s.seqNo) + U16(s.yourId);
    r := AppendStr8(out, s.code, MAX_CODE, BadState);
    if r.Err? {
      return;
    }
    r := AppendStr8(r.value, s.displayName, MAX_DISPLAY_NAME, BadState);
    if r.Err? {
      return;
    }
    HeadIsPut(dst, s);
    return Ok(r.value + Bytes8(s.creatorToken) + Bytes8(s.key));
  }

  lemma HeadIsPut(dst: Octets, s: State)
    ensures dst + [VERSION, TYPE_ROOM_STATE, s.flags, s.caps] + U32(s.seqNo) + U16(s.yourId) + Bytes8(s.code) +
            Bytes8(s.displayName) + Bytes8(s.creatorToken) + Bytes8(s.key) ==
            dst + ([VERSION, TYPE_ROOM_STATE] + PutFixed(s, PutNames(s, [])))
  {
    var names := Bytes8(s.code) + Bytes8(s.displayName) + Bytes8(s.creatorToken) + Bytes8(s.key);
    assert names == PutNames(s, []);
    assert [VERSION, TYPE_ROOM_STATE, s.flags, s.caps] + U32(s.seqNo) + U16(s.yourId) + names ==
           [VERSION, TYPE_ROOM_STATE] + PutFixed(s, names);
  }

  lemma StateIsHeadAndLists(dst: Octets, s: State)
    ensures dst + ([VERSION, TYPE_ROOM_STATE] + PutFixed(s, PutNames(s, []))) + PutLists(s) == dst + EncodeState(s)
  {
    assert PutNames(s, []) + PutLists(s) == PutNames(s, PutLists(s));
    assert PutFixed(s, PutNames(s, [])) + PutLists(s) == PutFixed(s, PutNames(s, []) + PutLists(s));
  }

  lemma ListsAreTwoLists(dst: Octets, s: State)
    ensures dst + U8(|s.attachments| % 0x100) + PutAll(s.attachments, PutAttachment, []) + U16(|s.participants| % 0x1_0000) +
            PutAll(s.participants, PutParticipant, []) == dst + PutLists(s)
  {
    AttachmentsPrepend();
    PutAllPrepends(s.attachments, PutAttachment, PutRoster(s.participants));
  }

  method AppendRoomState(dst: Octets, s: State) returns (r: Result<Octets, WireError>)
    ensures r == AppendState(dst, s)
  {
    if |s.attachments| > 255 || |s.participants| > 65535 {
      return Err(BadState);
    }
    r := AppendHead(dst, s);
    if r.Err? {
      return;
    }
    var head := r.value;
    r := AppendAttachments(head + [|s.attachments| % 0x100], s.attachments);
    if r.Err? {
      return;
    }
    r := AppendParticipants(r.value + U16(|s.participants| % 0x1_0000), s.participants);
    if r.Err? {
      return;
    }
    ListsAreTwoLists(head, s);
    StateIsHeadAndLists(dst, s);
    if |r.value| > MAX_RECORD {
      return Err(BadState);
    }
  }

  // ----- the other messages -----

  method AppendRoomHello(dst: Octets, h: Hello) returns (r: Result<Octets, WireError>)
    ensures r == AppendHello(dst, h)
  {
    if h.protocol != PROTOCOL_VERSION || h.clientKind > CLIENT_KIND_MAX || h.wantCaps > CAPS {
      return Err(BadHello);
    }
    var out := dst + [VERSION, TYPE_ROOM_HELLO, h.protocol, h.clientKind, h.wantCaps];
    r := AppendStr8(out, h.nickname, MAX_NICKNAME, BadHello);
    if r.Ok? {
      assert r.value == dst + EncodeHello(h);
    }
  }

  method AppendVoiceEvent(dst: Octets, e: Event) returns (r: Result<Octets, WireError>)
    requires e.kind == VOICE_TICKET || e.kind == VOICE_ROSTER_UPDATED
    ensures r == if EventOk(e) then Ok(dst + PutEventBody(e)) else Err(BadEvent)
  {
    if e.kind == VOICE_TICKET {
      if e.voiceUrl == [] || |e.voiceUrl| > MAX_VOICE_URL || e.voiceTicket == [] || |e.voiceTicket| > MAX_VOICE_TICKET {
        return Err(BadEvent);
      }
      var out := dst + Bytes16(e.voiceUrl);
      out := out + Bytes16(e.voiceTicket);
      assert out == dst + PutEventBody(e);
      return Ok(out);
    }
    if e.voiceFlags > 1 || |e.voiceRoster| > MAX_VOICE_ROSTER {
      return Err(BadEvent);
    }
    var out := dst + [e.voiceFlags];
    out := out + U16(|e.voiceRoster| % 0x1_0000);
    r := AppendVoiceUsers(out, e.voiceRoster);
    if r.Ok? {
      assert r.value == dst + PutEventBody(e);
    }
  }

  method AppendEventBody(dst: Octets, e: Event) returns (r: Result<Octets, WireError>)
    requires KnownEvent(e.kind)
    ensures r == if EventOk(e) then Ok(dst + PutEventBody(e)) else Err(BadEvent)
  {
    if WithParticipant(e.kind) {
      r := AppendParticipant(dst, e.participant, BadEvent);
    } else if e.kind == PARTICIPANT_LEFT {
      r := Ok(dst + U16(e.participant.id));
    } else if WithAttachment(e.kind) {
      r := AppendAttachment(dst, e.attachment, BadEvent);
    } else if e.kind == ATTACHMENT_REMOVED {
      r := AppendBroadcastID(dst, e.attachment.broadcast, BadEvent);
      if r.Ok? {
        r := Ok(r.value + [e.reason]);
        assert r.value == dst + PutEventBody(e);
      }
    } else if e.kind == ROOM_ENDING {
      r := Ok(dst + [e.reason]);
    } else if e.kind == COMMAND_REJECTED {
      r := AppendStr8(dst + [e.command, e.reason], e.message, MAX_REJECT_MESSAGE, BadEvent);
      if r.Ok? {
        assert r.value == dst + PutEventBody(e);
      }
    } else {
      r := AppendVoiceEvent(dst, e);
    }
  }

  method AppendRoomEvent(dst: Octets, e: Event) returns (r: Result<Octets, WireError>)
    ensures r == AppendEvent(dst, e)
  {
    if !KnownEvent(e.kind) {
      return Err(UnknownRoomKind(e.seqNo, e.kind));
    }
    var out := dst + [VERSION, TYPE_ROOM_EVENT];
    out := out + U32(e.seqNo);
    out := out + [e.kind];
    r := AppendEventBody(out, e);
    if r.Err? {
      return;
    }
    assert r.value == dst + EncodeEvent(e);
    if |r.value| > MAX_RECORD {
      return Err(BadEvent);
    }
  }

  method AppendCommandBody(dst: Octets, c: Command) returns (r: Result<Octets, WireError>)
    requires KnownCommand(c.kind)
    ensures r == if CommandOk(c) then Ok(dst + PutCommandBody(c)) else Err(BadCommand)
  {
    if c.kind == ATTACH {
      if |c.resumeToken| != RESUME_TOKEN_SIZE {
        return Err(BadCommand);
      }
      r := AppendBroadcastID(dst, c.broadcast, BadCommand);
      if r.Err? {
        return;
      }
      r := AppendStr8(r.value + Bytes8(c.resumeToken), c.caption, MAX_LABEL, BadCommand);
      if r.Ok? {
        assert r.value == dst + PutCommandBody(c);
      }
    } else if c.kind == DETACH {
      r := AppendBroadcastID(dst, c.broadcast, BadCommand);
    } else if c.kind == SET_NICKNAME {
      r := AppendStr8(dst, c.nickname, MAX_NICKNAME, BadCommand);
    } else {
      assert dst + [] == dst;
      r := Ok(dst);
    }
  }

  method AppendRoomCommand(dst: Octets, c: Command) returns (r: Result<Octets, WireError>)
    ensures r == AppendCommand(dst, c)
  {
    if !KnownCommand(c.kind) {
      return Err(UnknownRoomKind(0, c.kind));
    }
    r := AppendCommandBody(dst + [VERSION, TYPE_ROOM_COMMAND, c.kind], c);
    if r.Ok? {
      assert r.value == dst + EncodeCommand(c);
    }
  }
}
