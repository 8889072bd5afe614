/** What the relay messages may hold, by number and by grammar: the rules of gawk-server/wire/localrelay.go. */
module LocalRelayLimits {
  import opened Outcomes
  import opened WireFields
  import opened RoomText
  import opened RoomState
  import opened RoomLimits
  import opened LocalRelay
  import opened LocalRelayOffer

  // ----- ports -----

  function Decimal(n: nat): Octets {
    if n < 10 then [48 + n] else Decimal(n / 10) + [48 + n % 10]
  }

  function Zeros(k: nat): Octets {
    seq(k, (i: nat) => 48)
  }

  predicate Digits(p: Octets) {
    forall i | 0 <= i < |p| :: 48 <= p[i] <= 57
  }

  lemma {:induction false} DecimalValue(n: nat)
    ensures Decimal(n) != [] && Digits(Decimal(n)) && PortValue(Decimal(n)) == n
  {
    if n >= 10 {
      DecimalValue(n / 10);
      assert Decimal(n)[..|Decimal(n)| - 1] == Decimal(n / 10);
    } else {
      assert Decimal(n)[..0] == [];
    }
  }

  lemma {:induction false} ZerosAddNothing(k: nat, p: Octets)
    ensures PortValue(Zeros(k) + p) == PortValue(p)
    decreases k + |p|
  {
    var s := Zeros(k) + p;
    if p != [] {
      ZerosAddNothing(k, p[..|p| - 1]);
      assert s[..|s| - 1] == Zeros(k) + p[..|p| - 1];
    } else if k > 0 {
      ZerosAddNothing(k - 1, p);
      assert s == Zeros(k) && s[..|s| - 1] == Zeros(k - 1) + p;
    }
  }

  /** Digits are zeros and then the decimal writing of their value. */
  lemma {:induction false} DigitsAre(p: Octets) returns (k: nat)
    requires p != [] && Digits(p) && PortValue(p) >= 1
    ensures p == Zeros(k) + Decimal(PortValue(p))
  {
    var front, last := p[..|p| - 1], p[|p| - 1];
    if PortValue(front) >= 1 {
      k := DigitsAre(front);
      assert PortValue(p) / 10 == PortValue(front) && PortValue(p) % 10 == last - 48;
      assert p == front + [last];
    } else {
      k := |front|;
      ZeroFront(front);
      assert p == front + [last];
    }
  }

  lemma {:induction false} ZeroFront(p: Octets)
    requires Digits(p) && PortValue(p) < 1
    ensures p == Zeros(|p|)
  {
    if p != [] {
      NotNegative(p[..|p| - 1]);
      ZeroFront(p[..|p| - 1]);
    }
  }

  lemma {:induction false} NotNegative(p: Octets)
    requires Digits(p)
    ensures PortValue(p) >= 0
  {
    if p != [] {
      NotNegative(p[..|p| - 1]);
    }
  }

  /** One to five digits that write a number from 1 to 65535. */
  ghost predicate Port(p: Octets) {
    |p| <= 5 && exists k: nat, n: nat :: 1 <= n <= 65535 && p == Zeros(k) + Decimal(n)
  }

  lemma PortIff(p: Octets)
    ensures PortOk(p) <==> Port(p)
  {
    if PortOk(p) {
      forall i | 0 <= i < |p| ensures 48 <= p[i] <= 57 {
        assert p[i] in p;
      }
      var k := DigitsAre(p);
    }
    forall k: nat, n: nat | |p| <= 5 && 1 <= n <= 65535 && p == Zeros(k) + Decimal(n) ensures PortOk(p) {
      DecimalValue(n);
      ZerosAddNothing(k, Decimal(n));
    }
  }

  // ----- authorities, origins, URLs -----

  /** A bracketed literal with something inside it, or a run without colons and brackets. */
  ghost predicate Host(host: Octets) {
    (exists inside: Octets :: inside != [] && 91 !in inside && 93 !in inside && host == [91] + inside + [93]) ||
    (host != [] && 91 !in host && 93 !in host && 58 !in host)
  }

  lemma HostIff(host: Octets)
    ensures HostOk(host) <==> Host(host)
  {
    if HostOk(host) && host[0] == 91 {
      assert host == [91] + host[1..|host| - 1] + [93];
    }
    forall inside: Octets | inside != [] && host == [91] + inside + [93] ensures host[1..|host| - 1] == inside && host[0] == 91 {}
  }

  /** host[:port] */
  ghost predicate Authority(auth: Octets, host: Octets) {
    Host(host) && (auth == host || exists port: Octets :: Port(port) && auth == host + [58] + port)
  }

  lemma AuthorityIff(auth: Octets, host: Octets)
    ensures SplitAuthority(auth) == Some(host) <==> Authority(auth, host)
  {
    AuthorityGrammar(auth, host);
    HostIff(host);
    forall port: Octets ensures PortOk(port) <==> Port(port) {
      PortIff(port);
    }
  }

  /** No /, ?, # or @ in it. */
  predicate Plain(auth: Octets) {
    47 !in auth && 63 !in auth && 35 !in auth && 64 !in auth
  }

  predicate Visible(s: Octets) {
    forall c | c in s :: 33 <= c <= 126
  }

  /** https:// and http://; localhost and 127.0.0.1. */
  const SECURE: seq<octet> := [104, 116, 116, 112, 115, 58, 47, 47]
  const OPEN_HTTP: seq<octet> := [104, 116, 116, 112, 58, 47, 47]
  const LOCAL_NAME: seq<octet> := [108, 111, 99, 97, 108, 104, 111, 115, 116]
  const LOCAL_IP: seq<octet> := [49, 50, 55, 46, 48, 46, 48, 46, 49]

  ghost predicate SecureOrigin(origin: Octets) {
    exists auth: Octets, host: Octets :: origin == SECURE + auth && Plain(auth) && Authority(auth, host)
  }

  ghost predicate LocalOrigin(origin: Octets) {
    exists auth: Octets, host: Octets ::
      origin == OPEN_HTTP + auth && Plain(auth) && Authority(auth, host) && (host == LOCAL_NAME || host == LOCAL_IP)
  }

  /** Nothing, an https origin, or an http one on this machine. */
  ghost predicate Origin(origin: Octets) {
    origin == [] || (|origin| <= 128 && Visible(origin) && (SecureOrigin(origin) || LocalOrigin(origin)))
  }

  lemma BareIff(auth: Octets, loopbackOnly: bool)
    ensures BareAuthorityOk(auth, loopbackOnly) <==>
            Plain(auth) && exists host: Octets :: Authority(auth, host) && (loopbackOnly ==> host == LOCAL_NAME || host == LOCAL_IP)
  {
    forall host: Octets ensures SplitAuthority(auth) == Some(host) <==> Authority(auth, host) {
      AuthorityIff(auth, host);
    }
    if SplitAuthority(auth).Some? {
      assert Authority(auth, SplitAuthority(auth).value);
    }
  }

  lemma SecureIff(origin: Octets)
    ensures SecureOrigin(origin) <==> SECURE <= origin && BareAuthorityOk(origin[8..], false)
  {
    if SECURE <= origin {
      assert origin == SECURE + origin[8..];
      BareIff(origin[8..], false);
    }
    forall auth: Octets | origin == SECURE + auth ensures SECURE <= origin && auth == origin[8..] {}
  }

  lemma LocalIff(origin: Octets)
    ensures LocalOrigin(origin) <==> OPEN_HTTP <= origin && BareAuthorityOk(origin[7..], true)
  {
    if OPEN_HTTP <= origin {
      assert origin == OPEN_HTTP + origin[7..];
      BareIff(origin[7..], true);
    }
    forall auth: Octets | origin == OPEN_HTTP + auth ensures OPEN_HTTP <= origin && auth == origin[7..] {}
  }

  lemma OriginIff(origin: Octets)
    ensures OriginOk(origin) <==> Origin(origin)
  {
    SecureIff(origin);
    LocalIff(origin);
    assert HTTPS == SECURE && HTTP == OPEN_HTTP;
  }

  /** https:// with an authority that has no @ in it, and a path if one begins there; no ? and no # anywhere. */
  ghost predicate Url(raw: Octets) {
    1 <= |raw| <= 256 && Visible(raw) && 63 !in raw && 35 !in raw &&
    exists auth: Octets, path: Octets, host: Octets :: PathUrl(raw, auth, path, host)
  }

  ghost predicate PathUrl(raw: Octets, auth: Octets, path: Octets, host: Octets) {
    raw == SECURE + auth + path && 47 !in auth && 64 !in auth && (path == [] || path[0] == 47) && Authority(auth, host)
  }

  /** Where the authority of a URL ends is settled by its first slash. */
  lemma AuthorityOf(rest: Octets, auth: Octets, path: Octets)
    requires rest == auth + path && 47 !in auth && (path == [] || path[0] == 47)
    ensures var slash := IndexOf(rest, 47); auth == if slash < 0 then rest else rest[..slash]
  {
    if path != [] {
      assert rest[..|auth|] == auth;
      IndexIs(rest, 47, |auth|);
    }
  }

  lemma PathUrlIs(raw: Octets, auth: Octets, path: Octets, host: Octets)
    requires PathUrl(raw, auth, path, host)
    ensures HTTPS <= raw && var rest := raw[8..];
            var slash := IndexOf(rest, 47);
            auth == (if slash < 0 then rest else rest[..slash]) && SplitAuthority(auth) == Some(host)
  {
    assert raw == SECURE + (auth + path);
    assert raw[8..] == auth + path && HTTPS == SECURE;
    AuthorityOf(raw[8..], auth, path);
    AuthorityIff(auth, host);
  }

  lemma SplitPath(rest: Octets) returns (auth: Octets, path: Octets)
    ensures rest == auth + path && 47 !in auth && (path == [] || path[0] == 47)
    ensures var slash := IndexOf(rest, 47); auth == if slash < 0 then rest else rest[..slash]
  {
    var slash := IndexOf(rest, 47);
    auth, path := rest, [];
    if slash >= 0 {
      auth, path := rest[..slash], rest[slash..];
    }
  }

  lemma UrlHasPath(raw: Octets) returns (auth: Octets, path: Octets, host: Octets)
    requires UrlOk(raw)
    ensures PathUrl(raw, auth, path, host)
  {
    var rest := raw[8..];
    auth, path := SplitPath(rest);
    assert SplitAuthority(auth).Some? && 64 !in auth;
    host := SplitAuthority(auth).value;
    AuthorityIff(auth, host);
    PutTogether(raw, auth, path);
  }

  lemma PutTogether(raw: Octets, auth: Octets, path: Octets)
    requires HTTPS <= raw && raw[8..] == auth + path
    ensures raw == SECURE + auth + path
  {
    assert HTTPS == SECURE && raw == SECURE + raw[8..];
  }

  lemma UrlIff(raw: Octets)
    ensures UrlOk(raw) <==> Url(raw)
  {
    if UrlOk(raw) {
      var auth, path, host := UrlHasPath(raw);
    } else if Url(raw) {
      var auth: Octets, path: Octets, host: Octets :| PathUrl(raw, auth, path, host);
      PathUrlIs(raw, auth, path, host);
    }
  }

  // ----- the messages -----

  lemma InfoAccepted(dst: Octets, m: Info)
    ensures AppendInfo(dst, m).Ok? <==>
            Text(m.name, 64) && Text(m.homeOrigin, 128) && Origin(m.homeOrigin) && Text(m.wallCode, 32)
  {
    OriginIff(m.homeOrigin);
    TextIs(m.name, 64);
    TextIs(m.homeOrigin, 128);
    TextIs(m.wallCode, 32);
  }

  ghost predicate CandidateFits(c: Candidate) {
    Url(c.url) && |c.hashes| <= 2
  }

  ghost predicate OfferFits(m: Offer) {
    && 1 <= |m.handle| <= 64 && (forall c | c in m.handle :: 32 <= c <= 126)
    && Text(m.name, 64) && m.validity >= 1 && 1 <= |m.candidates| <= 4
    && forall c | c in m.candidates :: CandidateFits(c)
  }

  lemma OfferAccepted(dst: Octets, m: Offer)
    ensures AppendOffer(dst, m).Ok? <==> OfferFits(m)
  {
    TextIs(m.name, 64);
    forall c | c in m.candidates ensures CandidateOk(c) <==> CandidateFits(c) {
      UrlIff(c.url);
    }
  }

  /** A hash is 32 bytes; the messages are refused for their prefix like the room's. */
  lemma RelayRefused(msg: Octets, e: WireError)
    ensures OfPrefix(e) ==> (DecodeInfo(msg) == Err(e) <==> PrefixFault(msg, 0x18, 7, e))
    ensures OfPrefix(e) ==> (DecodeOffer(msg) == Err(e) <==> PrefixFault(msg, 0x19, 11, e))
    ensures Hash(msg).Valid() <==> |msg| == 32
  {}
}
