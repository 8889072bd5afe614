/** The parsers of gawk-server/wire/room.go, run on the cursor and proved against the message layouts. */
module RoomParsing {
  import opened Outcomes
  import opened WireFields
  import opened RoomItems
  import opened RoomState
  import opened RoomMessages
  import opened RoomReader

  method ParseHello(msg: Octets) returns (r: Result<Hello, WireError>)
    ensures r == DecodeHello(msg)
  {
    var bad := CheckPrefix(msg, TYPE_ROOM_HELLO, 6);
    if bad.Some? {
      return Err(bad.value);
    }
    var c := new Cursor(msg, 2);
    var protocol := c.U8(BadHello);
    if c.err.None? && protocol != PROTOCOL_VERSION {
      c.Fail(BadHello);
    }
    var clientKind := c.UpTo(BadHello, CLIENT_KIND_MAX);
    var wantCaps := c.UpTo(BadHello, CAPS);
    var nickname := c.Str8(BadHello, MAX_NICKNAME);
    var e := c.Done(BadHello);
    return if e.Some? then Err(e.value) else Ok(Hello(protocol, clientKind, wantCaps, nickname));
  }

  method ParseFixed(c: Cursor) returns (s: State)
    requires c.Valid()
    modifies c`off, c`err
    ensures var r := if old(c.Left()).None? then None else ReadFixed(old(c.Left()).value);
            c.Reads(r, BadState) && (r.Some? ==> s == r.value.value)
  {
    var flags := c.UpTo(BadState, STATE_FLAGS);
    var caps := c.UpTo(BadState, CAPS);
    var event := c.U32(BadState);
    var yourId := c.U16(BadState);
    s := BLANK.(flags := flags, caps := caps, seqNo := event, yourId := yourId);
  }

  method Sized(c: Cursor, size: octet) returns (v: Octets)
    requires c.Valid()
    modifies c`off, c`err
    ensures var r := if old(c.Left()).None? then None else ReadSized(old(c.Left()).value, size);
            c.Reads(r, BadState) && (r.Some? ==> v == r.value.value)
  {
    v := c.Bytes8(BadState, size);
    if c.err.None? && v != [] && |v| != size {
      c.Fail(BadState);
    }
  }

  method ParseNames(c: Cursor, s0: State) returns (s: State)
    requires c.Valid()
    modifies c`off, c`err
    ensures var r := if old(c.Left()).None? then None else ReadNames(s0, old(c.Left()).value);
            c.Reads(r, BadState) && (r.Some? ==> s == r.value.value)
  {
    var code := c.Str8(BadState, MAX_CODE);
    if c.err.None? && code == [] {
      c.Fail(BadState);
    }
    var displayName := c.Str8(BadState, MAX_DISPLAY_NAME);
    var token := Sized(c, CREATOR_TOKEN_SIZE);
    var key := Sized(c, KEY_SIZE);
    s := s0.(code := code, displayName := displayName, creatorToken := token, key := key);
  }

  /** One entry more: what the whole list comes to is unchanged. */
  method TakeAttachment(c: Cursor, xs: seq<Attachment>, ghost whole: Option<Read<seq<Attachment>>>, ghost n: nat)
    returns (ys: seq<Attachment>, ghost more: nat)
    requires n > 0 && c.err.None? && c.Owes(whole, xs, n, AttachmentReader(false), BadState)
    modifies c`off, c`err
    ensures more == n - 1 && c.Owes(whole, ys, more, AttachmentReader(false), BadState)
  {
    ghost var b := c.Left().value;
    var a := c.ReadAttachment(BadState);
    more := ListSteps(whole, xs, b, n, AttachmentReader(false), RoomItems.ReadAttachment(b, false), a);
    ys := xs + [a];
  }

  method ParseAttachments(c: Cursor, n: nat) returns (xs: seq<Attachment>)
    requires c.Valid() && c.err.None?
    modifies c`off, c`err
    ensures var r := ReadAll(old(c.Left()).value, n, AttachmentReader(false));
            c.Reads(r, BadState) && (r.Some? ==> xs == r.value.value)
  {
    xs := [];
    var i := 0;
    ghost var more := n;
    ghost var whole := c.ListStarts(n, AttachmentReader(false), BadState);
    while i < n && c.err.None?
      invariant i + more == n && c.Owes(whole, xs, more, AttachmentReader(false), BadState)
    {
      xs, more := TakeAttachment(c, xs, whole, more);
      i := i + 1;
    }
    c.ListEnds(whole, xs, more, AttachmentReader(false), BadState);
  }

  /** One entry more: what the whole list comes to is unchanged. */
  method TakeParticipant(c: Cursor, xs: seq<Participant>, ghost whole: Option<Read<seq<Participant>>>, ghost n: nat)
    returns (ys: seq<Participant>, ghost more: nat)
    requires n > 0 && c.err.None? && c.Owes(whole, xs, n, ReadParticipant, BadState)
    modifies c`off, c`err
    ensures more == n - 1 && c.Owes(whole, ys, more, ReadParticipant, BadState)
  {
    ghost var b := c.Left().value;
    var p := c.ReadParticipant(BadState);
    more := ListSteps(whole, xs, b, n, ReadParticipant, ReadParticipant(b), p);
    ys := xs + [p];
  }

  method ParseParticipants(c: Cursor, n: nat) returns (xs: seq<Participant>)
    requires c.Valid() && c.err.None?
    modifies c`off, c`err
    ensures var r := ReadAll(old(c.Left()).value, n, ReadParticipant);
            c.Reads(r, BadState) && (r.Some? ==> xs == r.value.value)
  {
    xs := [];
    var i := 0;
    ghost var more := n;
    ghost var whole := c.ListStarts(n, ReadParticipant, BadState);
    while i < n && c.err.None?
      invariant i + more == n && c.Owes(whole, xs, more, ReadParticipant, BadState)
    {
      xs, more := TakeParticipant(c, xs, whole, more);
      i := i + 1;
    }
    c.ListEnds(whole, xs, more, ReadParticipant, BadState);
  }

  method ParseLists(c: Cursor, s0: State) returns (s: State)
    requires c.Valid()
    modifies c`off, c`err
    ensures var r := if old(c.Left()).None? then None else ReadLists(s0, old(c.Left()).value, false);
            c.Reads(r, BadState) && (r.Some? ==> s == r.value.value)
  {
    s := s0;
    var n := c.U8(BadState);
    if c.err.None? {
      var attachments := ParseAttachments(c, n);
      s := s.(attachments := attachments);
    }
    var m := c.U16(BadState);
    if c.err.None? {
      var participants := ParseParticipants(c, m);
      s := s.(participants := participants);
    }
  }

  method ParseState(msg: Octets) returns (r: Result<State, WireError>)
    ensures r == DecodeState(msg, false)
  {
    var bad := CheckPrefix(msg, TYPE_ROOM_STATE, 16);
    if bad.Some? {
      return Err(bad.value);
    }
    var c := new Cursor(msg, 2);
    var s := ParseFixed(c);
    s := ParseNames(c, s);
    s := ParseLists(c, s);
    var e := c.Done(BadState);
    return if e.Some? then Err(e.value) else Ok(s);
  }

  // ----- events -----

  /** One entry more: what the whole list comes to is unchanged. */
  method TakeVoiceUser(c: Cursor, xs: seq<VoiceUser>, ghost whole: Option<Read<seq<VoiceUser>>>, ghost n: nat)
    returns (ys: seq<VoiceUser>, ghost more: nat)
    requires n > 0 && c.err.None? && c.Owes(whole, xs, n, ReadVoiceUser, BadEvent)
    modifies c`off, c`err
    ensures more == n - 1 && c.Owes(whole, ys, more, ReadVoiceUser, BadEvent)
  {
    ghost var b := c.Left().value;
    var v := c.ReadVoiceUser(BadEvent);
    more := ListSteps(whole, xs, b, n, ReadVoiceUser, ReadVoiceUser(b), v);
    ys := xs + [v];
  }

  method ParseVoiceUsers(c: Cursor, n: nat) returns (xs: seq<VoiceUser>)
    requires c.Valid() && c.err.None?
    modifies c`off, c`err
    ensures var r := ReadAll(old(c.Left()).value, n, ReadVoiceUser);
            c.Reads(r, BadEvent) && (r.Some? ==> xs == r.value.value)
  {
    xs := [];
    var i := 0;
    ghost var more := n;
    ghost var whole := c.ListStarts(n, ReadVoiceUser, BadEvent);
    while i < n && c.err.None?
      invariant i + more == n && c.Owes(whole, xs, more, ReadVoiceUser, BadEvent)
    {
      xs, more := TakeVoiceUser(c, xs, whole, more);
      i := i + 1;
    }
    c.ListEnds(whole, xs, more, ReadVoiceUser, BadEvent);
  }

  method ParseVoiceRoster(c: Cursor) returns (xs: seq<VoiceUser>)
    requires c.Valid()
    modifies c`off, c`err
    ensures var r := if old(c.Left()).None? then None else ReadVoiceRoster(old(c.Left()).value);
            c.Reads(r, BadEvent) && (r.Some? ==> xs == r.value.value)
  {
    xs := [];
    var n := c.U16(BadEvent);
    if c.err.None? && n > MAX_VOICE_ROSTER {
      c.Fail(BadEvent);
    }
    if c.err.None? {
      xs := ParseVoiceUsers(c, n);
    }
  }

  method ParseVoiceTicket(c: Cursor, e0: Event) returns (e: Event)
    requires c.Valid()
    modifies c`off, c`err
    ensures var r := if old(c.Left()).None? then None else ReadVoiceTicket(e0, old(c.Left()).value);
            c.Reads(r, BadEvent) && (r.Some? ==> e == r.value.value)
  {
    var url := c.Bytes16(BadEvent, MAX_VOICE_URL);
    if c.err.None? && url == [] {
      c.Fail(BadEvent);
    }
    if c.err.None? && !Utf8(url) {
      c.Fail(BadEvent);
    }
    var ticket := c.Bytes16(BadEvent, MAX_VOICE_TICKET);
    if c.err.None? && ticket == [] {
      c.Fail(BadEvent);
    }
    e := e0.(voiceUrl := url, voiceTicket := ticket);
  }

  method ParseRejection(c: Cursor, e0: Event) returns (e: Event)
    requires c.Valid()
    modifies c`off, c`err
    ensures var r := if old(c.Left()).None? then None else ReadRejection(e0, old(c.Left()).value);
            c.Reads(r, BadEvent) && (r.Some? ==> e == r.value.value)
  {
    var command := c.U8(BadEvent);
    var reason := c.U8(BadEvent);
    var message := c.Str8(BadEvent, MAX_REJECT_MESSAGE);
    e := e0.(command := command, reason := reason, message := message);
  }

  method ParseEventBody(c: Cursor, e0: Event) returns (e: Event)
    requires c.Valid() && KnownEvent(e0.kind)
    modifies c`off, c`err
    ensures var r := if old(c.Left()).None? then None else ReadEventBody(e0, old(c.Left()).value, false);
            c.Reads(r, BadEvent) && (r.Some? ==> e == r.value.value)
  {
    e := e0;
    if WithParticipant(e.kind) {
      var p := c.ReadParticipant(BadEvent);
      e := e.(participant := p);
    } else if e.kind == PARTICIPANT_LEFT {
      var id := c.U16(BadEvent);
      e := e.(participant := NOBODY.(id := id));
    } else if WithAttachment(e.kind) {
      var a := c.ReadAttachment(BadEvent);
      e := e.(attachment := a);
    } else if e.kind == ATTACHMENT_REMOVED {
      var broadcast := c.BroadcastID(BadEvent);
      var reason := c.U8(BadEvent);
      e := e.(attachment := NOTHING.(broadcast := broadcast), reason := reason);
    } else if e.kind == ROOM_ENDING {
      var reason := c.U8(BadEvent);
      e := e.(reason := reason);
    } else if e.kind == COMMAND_REJECTED {
      e := ParseRejection(c, e);
    } else if e.kind == VOICE_TICKET {
      e := ParseVoiceTicket(c, e);
    } else {
      var flags := c.UpTo(BadEvent, 1);
      var roster := ParseVoiceRoster(c);
      e := e.(voiceFlags := flags, voiceRoster := roster);
    }
  }

  method ParseEvent(msg: Octets) returns (r: Result<Event, WireError>)
    ensures r == DecodeEvent(msg, false)
  {
    var bad := CheckPrefix(msg, TYPE_ROOM_EVENT, 7);
    if bad.Some? {
      return Err(bad.value);
    }
    var c := new Cursor(msg, 2);
    var seqNo := c.U32(BadEvent);
    var kind := c.U8(BadEvent);
    var e := BlankEvent(seqNo, kind);
    if !KnownEvent(kind) {
      return Err(UnknownRoomKind(seqNo, kind));
    }
    e := ParseEventBody(c, e);
    var end := c.Done(BadEvent);
    return if end.Some? then Err(end.value) else Ok(e);
  }

  // ----- commands -----

  method ParseAttach(c: Cursor) returns (x: Command)
    requires c.Valid()
    modifies c`off, c`err
    ensures var r := if old(c.Left()).None? then None else ReadAttach(old(c.Left()).value, false);
            c.Reads(r, BadCommand) && (r.Some? ==> x == r.value.value)
  {
    var broadcast := c.BroadcastID(BadCommand);
    var token := c.Bytes8(BadCommand, RESUME_TOKEN_SIZE);
    if c.err.None? && |token| != RESUME_TOKEN_SIZE {
      c.Fail(BadCommand);
    }
    var caption := c.Str8(BadCommand, MAX_LABEL);
    x := Command(ATTACH, broadcast, token, caption, []);
  }

  method ParseCommand(msg: Octets) returns (r: Result<Command, WireError>)
    ensures r == DecodeCommand(msg, false)
  {
    var bad := CheckPrefix(msg, TYPE_ROOM_COMMAND, 3);
    if bad.Some? {
      return Err(bad.value);
    }
    var c := new Cursor(msg, 2);
    var kind := c.U8(BadCommand);
    var x := Command(kind, [], [], [], []);
    if kind == ATTACH {
      x := ParseAttach(c);
    } else if kind == DETACH {
      var broadcast := c.BroadcastID(BadCommand);
      x := x.(broadcast := broadcast);
    } else if kind == SET_NICKNAME {
      var nickname := c.Str8(BadCommand, MAX_NICKNAME);
      x := x.(nickname := nickname);
    } else if !BareCommand(kind) {
      return Err(UnknownRoomKind(0, kind));
    }
    var e := c.Done(BadCommand);
    return if e.Some? then Err(e.value) else Ok(x);
  }
}
