/** RoomHello and RoomState of gawk-server/wire/room.go: layouts, what the appenders accept, what the parsers return. */
module RoomState {
  import opened Outcomes
  import opened WireFields
  import opened RoomItems

  datatype WireError =
    | ShortDatagram
    | BadVersion
    | BadType
    | BadRecord
    | BadHello
    | BadState
    | BadEvent
    | BadCommand
    | UnknownRoomKind(seqNo: u32, kind: octet)
    | BadLocalRelayInfo
    | BadLocalRelayOffer

  const VERSION: octet := 0x01
  const TYPE_ROOM_HELLO: octet := 0x13
  const TYPE_ROOM_STATE: octet := 0x14
  const MAX_RECORD := 16384
  const PROTOCOL_VERSION: octet := 1
  const CAPS: octet := 0x03
  const STATE_FLAGS: octet := 0x07
  const MAX_CODE: octet := 32
  const MAX_DISPLAY_NAME: octet := 64
  const CREATOR_TOKEN_SIZE: octet := 16
  const KEY_SIZE: octet := 6

  /** The common two-byte prefix and the shortest message of the type. */
  function CheckPrefix(msg: Octets, kind: octet, minLen: nat): (e: Option<WireError>)
    requires minLen >= 2
    ensures e.None? ==> |msg| >= minLen && msg == [VERSION, kind] + msg[2..]
  {
    if |msg| < minLen then Some(ShortDatagram)
    else if msg[0] != VERSION then Some(BadVersion)
    else if msg[1] != kind then Some(BadType)
    else None
  }

  /** A message is its prefix and a body that must be read to the last byte. */
  function Whole<T>(body: Option<Read<T>>, sentinel: WireError): Result<T, WireError> {
    if body.Some? && body.value.rest == [] then Ok(body.value.value) else Err(sentinel)
  }

  // ----- RoomHello -----

  datatype Hello = Hello(protocol: octet, clientKind: octet, wantCaps: octet, nickname: Octets)

  predicate HelloOk(h: Hello) {
    h.protocol == PROTOCOL_VERSION && h.clientKind <= CLIENT_KIND_MAX && h.wantCaps <= CAPS &&
    TextOk(h.nickname, MAX_NICKNAME)
  }

  function EncodeHello(h: Hello): Octets {
    [VERSION, TYPE_ROOM_HELLO] + (U8(h.protocol) + (U8(h.clientKind) + (U8(h.wantCaps) + Bytes8(h.nickname))))
  }

  function AppendHello(dst: Octets, h: Hello): Result<Octets, WireError> {
    if HelloOk(h) then Ok(dst + EncodeHello(h)) else Err(BadHello)
  }

  function ReadHello(b: Octets): Option<Read<Hello>> {
    var protocol :- ReadU8(b);
    if protocol.value != PROTOCOL_VERSION then None
    else
      var clientKind :- ReadUpTo(protocol.rest, CLIENT_KIND_MAX);
      var wantCaps :- ReadUpTo(clientKind.rest, CAPS);
      var nickname :- ReadText(wantCaps.rest, MAX_NICKNAME);
      Some(Read(Hello(protocol.value, clientKind.value, wantCaps.value, nickname.value), nickname.rest))
  }

  function DecodeHello(msg: Octets): Result<Hello, WireError> {
    match CheckPrefix(msg, TYPE_ROOM_HELLO, 6)
    case Some(e) => Err(e)
    case None => Whole(ReadHello(msg[2..]), BadHello)
  }

  lemma HelloReads(h: Hello)
    requires HelloOk(h)
    ensures DecodeHello(EncodeHello(h)) == Ok(h)
  {
    var t := Bytes8(h.nickname);
    TextReads(h.nickname, MAX_NICKNAME, []);
    assert t + [] == t;
    assert EncodeHello(h)[2..] == U8(h.protocol) + (U8(h.clientKind) + (U8(h.wantCaps) + t));
  }

  lemma FiveOctetsFirst(b: Octets)
    requires |b| >= 5
    ensures b == [b[0], b[1]] + (U8(b[2]) + (U8(b[3]) + (U8(b[4]) + b[5..]))) && b[2..][1..][1..][1..] == b[5..]
  {}

  lemma ReadHelloWrites(msg: Octets)
    requires DecodeHello(msg).Ok?
    ensures HelloOk(DecodeHello(msg).value) && msg == EncodeHello(DecodeHello(msg).value)
  {
    FiveOctetsFirst(msg);
    ReadTextWrites(msg[5..], MAX_NICKNAME);
    var nickname := ReadText(msg[5..], MAX_NICKNAME).value;
    assert DecodeHello(msg).value == Hello(msg[2], msg[3], msg[4], nickname.value);
    assert msg[5..] == Bytes8(nickname.value);
  }

  /** The parser accepts exactly the appender's messages and undoes them. */
  lemma HelloRoundTrip(msg: Octets, h: Hello)
    ensures DecodeHello(msg) == Ok(h) <==> AppendHello([], h) == Ok(msg)
  {
    assert [] + EncodeHello(h) == EncodeHello(h);
    if HelloOk(h) {
      HelloReads(h);
    }
    if DecodeHello(msg).Ok? {
      ReadHelloWrites(msg);
    }
  }

  // ----- RoomState -----

  datatype State = State(
    flags: octet,
    caps: octet,
    seqNo: u32,
    yourId: u16,
    code: Octets,
    displayName: Octets,
    creatorToken: Octets,
    key: Octets,
    attachments: seq<Attachment>,
    participants: seq<Participant>
  )

  predicate NamesOk(s: State) {
    TextOk(s.code, MAX_CODE) && s.code != [] && TextOk(s.displayName, MAX_DISPLAY_NAME) &&
    (s.creatorToken == [] || |s.creatorToken| == CREATOR_TOKEN_SIZE) && (s.key == [] || |s.key| == KEY_SIZE)
  }

  predicate ListsOk(s: State) {
    |s.attachments| < 0x100 && |s.participants| < 0x1_0000 && (forall a | a in s.attachments :: AttachmentOk(a)) &&
    forall p | p in s.participants :: ParticipantOk(p)
  }

  predicate StateOk(s: State) {
    s.flags <= STATE_FLAGS && s.caps <= CAPS && NamesOk(s) && ListsOk(s)
  }

  function CleanState(s: State): State {
    s.(attachments := CleanAll(s.attachments, CleanAttachment))
  }

  function PutState(s: State): Octets {
    PutFixed(s, PutNames(s, PutLists(s)))
  }

  function PutFixed(s: State, rest: Octets): Octets {
    U8(s.flags) + (U8(s.caps) + (U32(s.seqNo) + (U16(s.yourId) + rest)))
  }

  function PutNames(s: State, rest: Octets): Octets {
    Bytes8(s.code) + (Bytes8(s.displayName) + (Bytes8(s.creatorToken) + (Bytes8(s.key) + rest)))
  }

  function PutLists(s: State): Octets {
    U8(|s.attachments| % 0x100) + PutAll(s.attachments, PutAttachment, PutRoster(s.participants))
  }

  function PutRoster(ps: seq<Participant>): Octets {
    U16(|ps| % 0x1_0000) + PutAll(ps, PutParticipant, [])
  }

  function EncodeState(s: State): Octets {
    [VERSION, TYPE_ROOM_STATE] + PutState(s)
  }

  /** The size check is on the whole destination, as in the source. */
  function AppendState(dst: Octets, s: State): Result<Octets, WireError> {
    if !StateOk(s) || |dst + EncodeState(s)| > MAX_RECORD then Err(BadState) else Ok(dst + EncodeState(s))
  }

  const BLANK: State := State(0, 0, 0, 0, [], [], [], [], [], [])

  function ReadState(b: Octets, strict: bool): Option<Read<State>> {
    var fixed :- ReadFixed(b);
    var named :- ReadNames(fixed.value, fixed.rest);
    ReadLists(named.value, named.rest, strict)
  }

  function ReadFixed(b: Octets): Option<Read<State>> {
    var flags :- ReadUpTo(b, STATE_FLAGS);
    var caps :- ReadUpTo(flags.rest, CAPS);
    var event :- ReadU32(caps.rest);
    var yourId :- ReadU16(event.rest);
    Some(Read(BLANK.(flags := flags.value, caps := caps.value, seqNo := event.value, yourId := yourId.value), yourId.rest))
  }

  /** A field that is absent or exactly size bytes. */
  function ReadSized(b: Octets, size: octet): Option<Read<Octets>> {
    var v :- ReadBytes8(b, size);
    if v.value != [] && |v.value| != size then None else Some(v)
  }

  function ReadNames(s: State, b: Octets): Option<Read<State>> {
    var code :- ReadText(b, MAX_CODE);
    if code.value == [] then None
    else
      var displayName :- ReadText(code.rest, MAX_DISPLAY_NAME);
      var token :- ReadSized(displayName.rest, CREATOR_TOKEN_SIZE);
      var key :- ReadSized(token.rest, KEY_SIZE);
      Some(Read(s.(code := code.value, displayName := displayName.value, creatorToken := token.value, key := key.value), key.rest))
  }

  function AttachmentReader(strict: bool): Octets -> Option<Read<Attachment>> {
    b => ReadAttachment(b, strict)
  }

  function ReadRoster(b: Octets): Option<Read<seq<Participant>>> {
    var n :- ReadU16(b);
    ReadAll(n.rest, n.value, ReadParticipant)
  }

  function ReadLists(s: State, b: Octets, strict: bool): Option<Read<State>> {
    var n :- ReadU8(b);
    var attachments :- ReadAll(n.rest, n.value, AttachmentReader(strict));
    var participants :- ReadRoster(attachments.rest);
    Some(Read(s.(attachments := attachments.value, participants := participants.value), participants.rest))
  }

  function DecodeState(msg: Octets, strict: bool): Result<State, WireError> {
    match CheckPrefix(msg, TYPE_ROOM_STATE, 16)
    case Some(e) => Err(e)
    case None => Whole(ReadState(msg[2..], strict), BadState)
  }

  // ----- reading what was put -----

  function Same<T>(x: T): T { x }

  lemma {:induction false} CleanNothing<T(!new)>(xs: seq<T>)
    ensures CleanAll(xs, Same<T>) == xs
  {
    if xs != [] {
      CleanNothing(xs[1..]);
    }
  }

  lemma ParticipantsRead(ps: seq<Participant>)
    requires forall p | p in ps :: ParticipantOk(p)
    ensures ReadAll(PutAll(ps, PutParticipant, []), |ps|, ReadParticipant) == Some(Read(ps, []))
  {
    forall p: Participant, t: Octets | p in ps ensures ReadParticipant(PutParticipant(p, t)) == Some(Read(Same(p), t)) {
      ParticipantReads(p, t);
    }
    AllRead(ps, PutParticipant, ReadParticipant, Same<Participant>, []);
    CleanNothing(ps);
  }

  lemma RosterReads(ps: seq<Participant>)
    requires |ps| < 0x1_0000 && forall p | p in ps :: ParticipantOk(p)
    ensures ReadRoster(PutRoster(ps)) == Some(Read(ps, []))
  {
    var n := |ps|;
    FitsField(n, 0x1_0000);
    U16Reads(n, PutAll(ps, PutParticipant, []));
    ParticipantsRead(ps);
  }

  lemma AttachmentsRead(xs: seq<Attachment>, strict: bool, rest: Octets)
    requires forall a | a in xs :: AttachmentOk(a)
    ensures ReadAll(PutAll(xs, PutAttachment, rest), |xs|, AttachmentReader(strict)) ==
            Some(Read(CleanAll(xs, CleanAttachment), rest))
  {
    forall a: Attachment, t: Octets | a in xs
      ensures AttachmentReader(strict)(PutAttachment(a, t)) == Some(Read(CleanAttachment(a), t))
    {
      AttachmentReads(a, strict, t);
    }
    AllRead(xs, PutAttachment, AttachmentReader(strict), CleanAttachment, rest);
  }

  lemma ListsRead(s: State, base: State, strict: bool)
    requires ListsOk(s)
    ensures ReadLists(base, PutLists(s), strict) ==
            Some(Read(base.(attachments := CleanState(s).attachments, participants := s.participants), []))
  {
    var n := |s.attachments|;
    FitsField(n, 0x100);
    var b := PutLists(s);
    assert ReadU8(b) == Some(Read(n, PutAll(s.attachments, PutAttachment, PutRoster(s.participants))));
    AttachmentsRead(s.attachments, strict, PutRoster(s.participants));
    RosterReads(s.participants);
  }

  lemma NamesRead(s: State, base: State, rest: Octets)
    requires NamesOk(s)
    ensures ReadNames(base, PutNames(s, rest)) ==
            Some(Read(base.(code := s.code, displayName := s.displayName, creatorToken := s.creatorToken, key := s.key), rest))
  {
    var t1 := Bytes8(s.key) + rest;
    var t2 := Bytes8(s.creatorToken) + t1;
    TextReads(s.code, MAX_CODE, Bytes8(s.displayName) + t2);
    TextReads(s.displayName, MAX_DISPLAY_NAME, t2);
    Bytes8Reads(s.creatorToken, CREATOR_TOKEN_SIZE, t1);
    Bytes8Reads(s.key, KEY_SIZE, rest);
  }

  lemma StateReads(s: State, strict: bool)
    requires StateOk(s)
    ensures ReadState(PutState(s), strict) == Some(Read(CleanState(s), []))
  {
    var named := PutNames(s, PutLists(s));
    U32Reads(s.seqNo, U16(s.yourId) + named);
    U16Reads(s.yourId, named);
    var base := BLANK.(flags := s.flags, caps := s.caps, seqNo := s.seqNo, yourId := s.yourId);
    NamesRead(s, base, PutLists(s));
    ListsRead(s, base.(code := s.code, displayName := s.displayName, creatorToken := s.creatorToken, key := s.key), strict);
  }

  lemma StateIsLong(s: State)
    ensures |PutState(s)| >= 14
  {
    var lists := PutLists(s);
    assert |PutNames(s, lists)| >= 4 + |lists|;
    assert |U16(s.yourId) + PutNames(s, lists)| >= 6 + |lists|;
  }

  /** Parsing undoes appending, for every state the appender accepts; broadcast IDs come back normalized. */
  lemma StateRoundTrip(s: State, strict: bool)
    requires AppendState([], s).Ok?
    ensures DecodeState(AppendState([], s).value, strict) == Ok(CleanState(s))
  {
    StateReads(s, strict);
    StateIsLong(s);
    var msg := EncodeState(s);
    assert [] + msg == msg;
    assert msg[2..] == PutState(s);
    assert CheckPrefix(msg, TYPE_ROOM_STATE, 16).None?;
  }

  // ----- rewriting what was read -----

  lemma ReadNamesWrites(base: State, b: Octets)
    requires ReadNames(base, b).Some?
    ensures var r := ReadNames(base, b).value;
            NamesOk(r.value) && b == PutNames(r.value, r.rest) &&
            r.value == base.(code := r.value.code, displayName := r.value.displayName, creatorToken := r.value.creatorToken,
                             key := r.value.key)
  {
    ReadTextWrites(b, MAX_CODE);
    var b1 := ReadText(b, MAX_CODE).value.rest;
    ReadTextWrites(b1, MAX_DISPLAY_NAME);
    var b2 := ReadText(b1, MAX_DISPLAY_NAME).value.rest;
    ReadBytes8Writes(b2, CREATOR_TOKEN_SIZE);
    ReadBytes8Writes(ReadSized(b2, CREATOR_TOKEN_SIZE).value.rest, KEY_SIZE);
  }

  lemma ParticipantsPrepend()
    ensures Prepends(PutParticipant)
  {
    forall p: Participant, t: Octets ensures PutParticipant(p, t) == PutParticipant(p, []) + t {
      ParticipantPrepends(p, t);
    }
  }

  lemma ParticipantsRewrite(b: Octets, n: nat)
    requires ReadAll(b, n, ReadParticipant).Some?
    ensures var r := ReadAll(b, n, ReadParticipant).value;
            b == PutAll(r.value, PutParticipant, r.rest) && forall p | p in r.value :: ParticipantOk(p)
  {
    ParticipantsPrepend();
    forall t: Octets | ReadParticipant(t).Some?
      ensures var r := ReadParticipant(t).value;
              ParticipantOk(r.value) && |t| == |PutParticipant(r.value, r.rest)| && t == PutParticipant(r.value, r.rest)
    {
      ReadParticipantWrites(t);
    }
    AllRewrite(b, n, PutParticipant, ReadParticipant, ParticipantOk, true);
  }

  lemma ReadRosterWrites(b: Octets)
    requires ReadRoster(b).Some? && ReadRoster(b).value.rest == []
    ensures var ps := ReadRoster(b).value.value;
            |ps| < 0x1_0000 && b == PutRoster(ps) && forall p | p in ps :: ParticipantOk(p)
  {
    ReadU16Writes(b);
    var n := ReadU16(b).value;
    FitsField(n.value, 0x1_0000);
    ParticipantsRewrite(n.rest, n.value);
    var ps := ReadRoster(b).value.value;
    assert |ps| == n.value;
    assert PutAll(ps, PutParticipant, []) == n.rest;
  }

  predicate CleanAttachmentOk(a: Attachment) {
    AttachmentOk(a) && CleanAttachment(a) == a
  }

  lemma AttachmentsRewrite(b: Octets, n: nat, strict: bool)
    requires ReadAll(b, n, AttachmentReader(strict)).Some?
    ensures var r := ReadAll(b, n, AttachmentReader(strict)).value;
            (forall a | a in r.value :: CleanAttachmentOk(a)) && |b| == |PutAll(r.value, PutAttachment, r.rest)| &&
            (strict ==> b == PutAll(r.value, PutAttachment, r.rest)) && ReadAll(b, n, AttachmentReader(false)) == Some(r)
  {
    AttachmentsPrepend();
    var get := AttachmentReader(strict);
    forall t: Octets | get(t).Some?
      ensures var r := get(t).value;
              CleanAttachmentOk(r.value) && |t| == |PutAttachment(r.value, r.rest)| &&
              (strict ==> t == PutAttachment(r.value, r.rest)) && AttachmentReader(false)(t) == get(t)
    {
      ReadAttachmentWrites(t, strict);
    }
    AllRewrite(b, n, PutAttachment, get, CleanAttachmentOk, strict);
    AllAgree(b, n, get, AttachmentReader(false));
  }

  lemma AttachmentsPrepend()
    ensures Prepends(PutAttachment)
  {
    forall a: Attachment, t: Octets ensures PutAttachment(a, t) == PutAttachment(a, []) + t {
      AttachmentPrepends(a, t);
    }
  }

  lemma {:induction false} AllAgree<T(!new)>(b: Octets, n: nat, get: Octets -> Option<Read<T>>, other: Octets -> Option<Read<T>>)
    requires forall t {:trigger get(t)} | get(t).Some? :: other(t) == get(t)
    requires ReadAll(b, n, get).Some?
    ensures ReadAll(b, n, other) == ReadAll(b, n, get)
    decreases n
  {
    if n > 0 {
      AllAgree(get(b).value.rest, n - 1, get, other);
    }
  }

  lemma {:induction false} CleanAttachmentsStay(xs: seq<Attachment>)
    requires forall a | a in xs :: CleanAttachmentOk(a)
    ensures CleanAll(xs, CleanAttachment) == xs
  {
    if xs != [] {
      assert xs[0] in xs;
      CleanAttachmentsStay(xs[1..]);
    }
  }

  lemma ReadListsWrites(base: State, b: Octets, strict: bool)
    requires ReadLists(base, b, strict).Some? && ReadLists(base, b, strict).value.rest == []
    ensures var s := ReadLists(base, b, strict).value.value;
            ListsOk(s) && CleanState(s) == s && |b| == |PutLists(s)| && (strict ==> b == PutLists(s)) &&
            s == base.(attachments := s.attachments, participants := s.participants) &&
            ReadLists(base, b, false) == ReadLists(base, b, strict)
  {
    var n := ReadU8(b).value;
    AttachmentsRewrite(n.rest, n.value, strict);
    var attachments := ReadAll(n.rest, n.value, AttachmentReader(strict)).value;
    CleanAttachmentsStay(attachments.value);
    ReadRosterWrites(attachments.rest);
    var s := ReadLists(base, b, strict).value.value;
    assert s == base.(attachments := attachments.value, participants := ReadRoster(attachments.rest).value.value);
    FitsField(n.value, 0x100);
    assert PutLists(s) == U8(n.value) + PutAll(attachments.value, PutAttachment, attachments.rest);
    assert b == U8(n.value) + n.rest;
  }

  lemma ReadFixedWrites(b: Octets)
    requires ReadFixed(b).Some?
    ensures var r := ReadFixed(b).value;
            r.value.flags <= STATE_FLAGS && r.value.caps <= CAPS && b == PutFixed(r.value, r.rest)
  {
    var b1 := b[2..];
    ReadU32Writes(b1);
    ReadU16Writes(ReadU32(b1).value.rest);
    assert b == U8(b[0]) + (U8(b[1]) + b1);
  }

  lemma ReadStateWrites(b: Octets, strict: bool)
    requires ReadState(b, strict).Some? && ReadState(b, strict).value.rest == []
    ensures var s := ReadState(b, strict).value.value;
            StateOk(s) && CleanState(s) == s && |b| == |PutState(s)| && (strict ==> b == PutState(s)) &&
            ReadState(b, false) == ReadState(b, strict)
  {
    ReadFixedWrites(b);
    var fixed := ReadFixed(b).value;
    ReadNamesWrites(fixed.value, fixed.rest);
    var named := ReadNames(fixed.value, fixed.rest).value;
    ReadListsWrites(named.value, named.rest, strict);
    var s := ReadState(b, strict).value.value;
    assert PutNames(s, named.rest) == PutNames(named.value, named.rest);
    assert b == PutFixed(s, PutNames(s, named.rest));
  }

  /**
   * Appending undoes parsing: every state a record can carry is accepted again at the same length and parses to the same
   * state, and it is the same bytes exactly when the broadcast IDs were in canonical form already.
   */
  lemma StateRewrites(msg: Octets)
    requires |msg| <= MAX_RECORD && DecodeState(msg, false).Ok?
    ensures var s := DecodeState(msg, false).value;
            var again := AppendState([], s);
            again.Ok? && |again.value| == |msg| && DecodeState(again.value, false) == Ok(s) &&
            (again.value == msg <==> DecodeState(msg, true).Ok?)
  {
    var s := DecodeState(msg, false).value;
    ReadStateWrites(msg[2..], false);
    var again := EncodeState(s);
    assert [] + again == again;
    StateRoundTrip(s, false);
    StateRoundTrip(s, true);
    if DecodeState(msg, true).Ok? {
      ReadStateWrites(msg[2..], true);
    }
  }
}
