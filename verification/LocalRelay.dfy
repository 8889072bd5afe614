/** The two relay messages of gawk-server/wire/localrelay.go and the origin, URL and authority rules inside them. */
module LocalRelay {
  import opened Outcomes
  import opened WireFields
  import opened RoomState

  const TYPE_INFO: octet := 0x18
  const TYPE_OFFER: octet := 0x19
  const MAX_NAME: octet := 64
  const MAX_ORIGIN: octet := 128
  const MAX_HANDLE: octet := 64
  const MAX_URL := 256
  const MAX_CANDIDATES := 4
  const MAX_HASHES := 2
  const HASH_SIZE := 32

  const HTTPS: Octets := [0x68, 0x74, 0x74, 0x70, 0x73, 0x3A, 0x2F, 0x2F]
  const HTTP: Octets := [0x68, 0x74, 0x74, 0x70, 0x3A, 0x2F, 0x2F]
  const LOCALHOST: Octets := [0x6C, 0x6F, 0x63, 0x61, 0x6C, 0x68, 0x6F, 0x73, 0x74]
  const LOOPBACK: Octets := [0x31, 0x32, 0x37, 0x2E, 0x30, 0x2E, 0x30, 0x2E, 0x31]

  const SLASH: octet := 0x2F
  const QUERY: octet := 0x3F
  const HASH_SIGN: octet := 0x23
  const AT: octet := 0x40
  const COLON: octet := 0x3A
  const OPEN: octet := 0x5B
  const CLOSE: octet := 0x5D

  // ----- authorities -----

  function IndexOf(s: Octets, c: octet): (i: int)
    ensures -1 <= i < |s|
    ensures i < 0 <==> c !in s
    ensures i >= 0 ==> s[i] == c && c !in s[..i]
  {
    if s == [] then -1
    else if s[0] == c then 0
    else
      var i := IndexOf(s[1..], c);
      if i < 0 then -1
      else
        assert s[..i + 1] == [s[0]] + s[1..][..i];
        i + 1
  }

  function PortValue(p: Octets): int {
    if p == [] then 0 else PortValue(p[..|p| - 1]) * 10 + (p[|p| - 1] as int - 0x30)
  }

  /** One to five digits worth 1 to 65535. */
  predicate PortOk(p: Octets) {
    1 <= |p| <= 5 && (forall c | c in p :: 0x30 <= c <= 0x39) && 1 <= PortValue(p) <= 65535
  }

  /** The host of a host[:port] authority, by the same splits as the source. */
  function SplitAuthority(auth: Octets): Option<Octets> {
    if auth != [] && auth[0] == OPEN then
      var end := IndexOf(auth, CLOSE);
      if end < 2 || OPEN in auth[1..end] then None
      else
        var rest := auth[end + 1..];
        if rest == [] || (rest[0] == COLON && PortOk(rest[1..])) then Some(auth[..end + 1]) else None
    else
      var i := IndexOf(auth, COLON);
      var host := if i < 0 then auth else auth[..i];
      if host == [] || OPEN in host || CLOSE in host then None
      else if i < 0 || PortOk(auth[i + 1..]) then Some(host)
      else None
  }

  /** A bracketed literal with something inside it, or a run without colons and brackets. */
  predicate HostOk(host: Octets) {
    if host != [] && host[0] == OPEN then
      |host| >= 3 && host[|host| - 1] == CLOSE && OPEN !in host[1..|host| - 1] && CLOSE !in host[1..|host| - 1]
    else
      host != [] && OPEN !in host && CLOSE !in host && COLON !in host
  }

  lemma {:induction false} IndexIs(s: Octets, c: octet, i: nat)
    requires i < |s| && s[i] == c && c !in s[..i]
    ensures IndexOf(s, c) == i
  {
    if i > 0 {
      assert s[..i] == [s[0]] + s[1..][..i - 1];
      IndexIs(s[1..], c, i - 1);
    }
  }

  /** The host of an authority that starts with a bracket. */
  lemma BracketedHostOk(auth: Octets)
    requires SplitAuthority(auth).Some? && auth[0] == OPEN
    ensures HostOk(SplitAuthority(auth).value)
  {
    var end := IndexOf(auth, CLOSE);
    forall k | 1 <= k < end ensures auth[k] != CLOSE && auth[k] != OPEN {
      assert auth[..end][k] == auth[k] && auth[1..end][k - 1] == auth[k];
    }
  }

  lemma PlainHostOk(auth: Octets)
    requires SplitAuthority(auth).Some? && auth[0] != OPEN
    ensures HostOk(SplitAuthority(auth).value)
  {
    var i := IndexOf(auth, COLON);
  }

  lemma SplitIsSound(auth: Octets)
    requires SplitAuthority(auth).Some?
    ensures var host := SplitAuthority(auth).value;
            HostOk(host) && (auth == host || exists port | PortOk(port) :: auth == host + [COLON] + port)
  {
    var host := SplitAuthority(auth).value;
    if auth[0] == OPEN {
      BracketedHostOk(auth);
    } else {
      PlainHostOk(auth);
    }
    if auth != host {
      var port := auth[|host| + 1..];
      assert PortOk(port) && auth == host + [COLON] + port;
    }
  }

  lemma SplitIsComplete(auth: Octets, host: Octets)
    requires HostOk(host) && (auth == host || exists port | PortOk(port) :: auth == host + [COLON] + port)
    ensures SplitAuthority(auth) == Some(host)
  {
    assert auth[..|host|] == host && auth[0] == host[0];
    if auth[0] == OPEN {
      var end := |host| - 1;
      forall k | 0 <= k < end ensures auth[k] != CLOSE {
        assert k > 0 ==> host[1..end][k - 1] == auth[k];
      }
      IndexIs(auth, CLOSE, end);
      assert auth[1..end] == host[1..end];
    } else if auth != host {
      IndexIs(auth, COLON, |host|);
    }
    if auth != host {
      var port :| PortOk(port) && auth == host + [COLON] + port;
      assert auth[|host| + 1..] == port;
    }
  }

  /** The split is exactly the grammar host[:port]. */
  lemma AuthorityGrammar(auth: Octets, host: Octets)
    ensures SplitAuthority(auth) == Some(host) <==>
            HostOk(host) && (auth == host || exists port | PortOk(port) :: auth == host + [COLON] + port)
  {
    if SplitAuthority(auth) == Some(host) {
      SplitIsSound(auth);
    }
    if HostOk(host) && (auth == host || exists port | PortOk(port) :: auth == host + [COLON] + port) {
      SplitIsComplete(auth, host);
    }
  }

  // ----- text rules -----

  /** Printable ASCII without the space. */
  predicate UrlBytesOk(s: Octets) {
    forall c | c in s :: 0x20 < c <= 0x7E
  }

  predicate OriginOk(origin: Octets) {
    origin == [] ||
    (|origin| <= MAX_ORIGIN && UrlBytesOk(origin) &&
     if HTTPS <= origin then BareAuthorityOk(origin[|HTTPS|..], false)
     else HTTP <= origin && BareAuthorityOk(origin[|HTTP|..], true))
  }

  predicate BareAuthorityOk(auth: Octets, loopbackOnly: bool) {
    SLASH !in auth && QUERY !in auth && HASH_SIGN !in auth && AT !in auth &&
    match SplitAuthority(auth)
    case None => false
    case Some(host) => (!loopbackOnly || host == LOCALHOST || host == LOOPBACK)
  }

  predicate UrlOk(raw: Octets) {
    1 <= |raw| <= MAX_URL && UrlBytesOk(raw) && HTTPS <= raw && QUERY !in raw && HASH_SIGN !in raw &&
    var rest := raw[|HTTPS|..];
    var slash := IndexOf(rest, SLASH);
    var auth := if slash < 0 then rest else rest[..slash];
    AT !in auth && SplitAuthority(auth).Some?
  }

  predicate HandleOk(handle: Octets) {
    1 <= |handle| <= MAX_HANDLE && forall c | c in handle :: 0x20 <= c <= 0x7E
  }

  // ----- LocalRelayInfo -----

  datatype Info = Info(linked: bool, onWall: bool, name: Octets, homeOrigin: Octets, wallCode: Octets)

  predicate InfoOk(m: Info) {
    OriginOk(m.homeOrigin) && TextOk(m.name, MAX_NAME) && TextOk(m.homeOrigin, MAX_ORIGIN) && TextOk(m.wallCode, MAX_CODE)
  }

  function StateByte(m: Info): octet {
    (if m.linked then 1 else 0) + (if m.onWall then 2 else 0)
  }

  function PutInfo(m: Info, state: octet, rest: Octets): Octets {
    [VERSION, TYPE_INFO] + (U8(0) + (U8(state) + PutTexts(m, rest)))
  }

  function PutTexts(m: Info, rest: Octets): Octets {
    Bytes8(m.name) + (Bytes8(m.homeOrigin) + (Bytes8(m.wallCode) + rest))
  }

  function AppendInfo(dst: Octets, m: Info): Result<Octets, WireError> {
    if InfoOk(m) then Ok(dst + PutInfo(m, StateByte(m), [])) else Err(BadLocalRelayInfo)
  }

  function ReadInfo(b: Octets): Option<Read<Info>> {
    var flags :- ReadUpTo(b, 0);
    var state :- ReadU8(flags.rest);
    ReadTexts(state.value % 2 == 1, state.value / 2 % 2 == 1, state.rest)
  }

  function ReadTexts(linked: bool, onWall: bool, b: Octets): Option<Read<Info>> {
    var name :- ReadText(b, MAX_NAME);
    var origin :- ReadText(name.rest, MAX_ORIGIN);
    var wall :- ReadText(origin.rest, MAX_CODE);
    if !OriginOk(origin.value) then None
    else Some(Read(Info(linked, onWall, name.value, origin.value, wall.value), wall.rest))
  }

  /** Bytes after the last field are left unread: that is where the message grows. */
  function DecodeInfo(msg: Octets): Result<Info, WireError> {
    match CheckPrefix(msg, TYPE_INFO, 7)
    case Some(e) => Err(e)
    case None =>
      match ReadInfo(msg[2..])
      case None => Err(BadLocalRelayInfo)
      case Some(m) => Ok(m.value)
  }

  /** State bits this version does not know are ignored, as is everything after the last field. */
  lemma InfoReads(m: Info, state: octet, extra: Octets)
    requires InfoOk(m) && state % 4 == StateByte(m)
    ensures DecodeInfo(PutInfo(m, state, extra)) == Ok(m)
  {
    var t1 := Bytes8(m.wallCode) + extra;
    TextReads(m.name, MAX_NAME, Bytes8(m.homeOrigin) + t1);
    TextReads(m.homeOrigin, MAX_ORIGIN, t1);
    TextReads(m.wallCode, MAX_CODE, extra);
    var msg := PutInfo(m, state, extra);
    assert msg[2..] == U8(0) + (U8(state) + PutTexts(m, extra));
    StateBits(state);
  }

  lemma StateBits(state: octet)
    ensures state % 4 == (if state % 2 == 1 then 1 else 0) + (if state / 2 % 2 == 1 then 2 else 0)
  {}

  lemma ReadTextsWrites(linked: bool, onWall: bool, b: Octets)
    requires ReadTexts(linked, onWall, b).Some?
    ensures var r := ReadTexts(linked, onWall, b).value;
            InfoOk(r.value) && b == PutTexts(r.value, r.rest) && r.value.linked == linked && r.value.onWall == onWall
  {
    ReadTextWrites(b, MAX_NAME);
    var b1 := ReadText(b, MAX_NAME).value.rest;
    ReadTextWrites(b1, MAX_ORIGIN);
    ReadTextWrites(ReadText(b1, MAX_ORIGIN).value.rest, MAX_CODE);
  }

  lemma InfoLayout(msg: Octets, m: Info, rest: Octets)
    requires |msg| >= 4 && msg[0] == VERSION && msg[1] == TYPE_INFO && msg[2] == 0 && msg[4..] == PutTexts(m, rest)
    ensures msg == PutInfo(m, msg[3], rest)
  {
    assert msg == [msg[0], msg[1]] + (U8(msg[2]) + (U8(msg[3]) + msg[4..]));
  }

  lemma ReadInfoWrites(msg: Octets)
    requires DecodeInfo(msg).Ok?
    ensures var m := ReadInfo(msg[2..]).value;
            DecodeInfo(msg) == Ok(m.value) && InfoOk(m.value) && msg == PutInfo(m.value, msg[3], m.rest) &&
            msg[3] % 4 == StateByte(m.value)
  {
    var b := msg[4..];
    assert msg[2..][1..][1..] == b;
    var linked, onWall := msg[3] % 2 == 1, msg[3] / 2 % 2 == 1;
    ReadTextsWrites(linked, onWall, b);
    StateBits(msg[3]);
    var m := ReadTexts(linked, onWall, b).value;
    InfoLayout(msg, m.value, m.rest);
  }

  lemma AcceptedInfoWasPut(msg: Octets, m: Info)
    requires DecodeInfo(msg) == Ok(m)
    ensures InfoOk(m) && exists state: octet, extra: Octets | state % 4 == StateByte(m) :: msg == PutInfo(m, state, extra)
  {
    ReadInfoWrites(msg);
  }

  /**
   * A message is accepted as m exactly when it is an accepted m's encoding, with any unknown state bits set and any bytes
   * after it.
   */
  lemma InfoRoundTrip(msg: Octets, m: Info)
    ensures DecodeInfo(msg) == Ok(m) <==>
            AppendInfo([], m).Ok? &&
            exists state: octet, extra: Octets | state % 4 == StateByte(m) :: msg == PutInfo(m, state, extra)
  {
    if DecodeInfo(msg) == Ok(m) {
      AcceptedInfoWasPut(msg, m);
    } else if InfoOk(m) {
      forall state: octet, extra: Octets | state % 4 == StateByte(m) ensures msg != PutInfo(m, state, extra) {
        InfoReads(m, state, extra);
      }
    }
  }
}
