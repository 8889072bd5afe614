/** The appenders and parsers of gawk-server/wire/localrelay.go, proved against the message layouts. */
module LocalRelayParsing {
  import opened Outcomes
  import opened WireFields
  import opened RoomState
  import opened RoomReader
  import opened RoomAppending
  import opened LocalRelay
  import opened LocalRelayOffer

  method AppendLocalRelayInfo(dst: Octets, m: Info) returns (r: Result<Octets, WireError>)
    ensures r == AppendInfo(dst, m)
  {
    if !OriginOk(m.homeOrigin) {
      return Err(BadLocalRelayInfo);
    }
    var out := dst + [VERSION, TYPE_INFO, 0, StateByte(m)];
    r := AppendStr8(out, m.name, MAX_NAME, BadLocalRelayInfo);
    if r.Err? {
      return;
    }
    r := AppendStr8(r.value, m.homeOrigin, MAX_ORIGIN, BadLocalRelayInfo);
    if r.Err? {
      return;
    }
    r := AppendStr8(r.value, m.wallCode, MAX_CODE, BadLocalRelayInfo);
    InfoIsHeadAndTexts(dst, m);
  }

  lemma InfoIsHeadAndTexts(dst: Octets, m: Info)
    ensures dst + [VERSION, TYPE_INFO, 0, StateByte(m)] + Bytes8(m.name) + Bytes8(m.homeOrigin) + Bytes8(m.wallCode) ==
            dst + PutInfo(m, StateByte(m), [])
  {
    assert Bytes8(m.name) + Bytes8(m.homeOrigin) + Bytes8(m.wallCode) == PutTexts(m, []);
    assert [VERSION, TYPE_INFO, 0, StateByte(m)] + PutTexts(m, []) == PutInfo(m, StateByte(m), []);
  }

  method ParseTexts(c: Cursor, linked: bool, onWall: bool) returns (r: Option<Info>)
    requires c.Valid() && c.err.None?
    modifies c`off, c`err
    ensures var read := ReadTexts(linked, onWall, old(c.Left()).value);
            r == if read.None? then None else Some(read.value.value)
  {
    var name := c.Str8(BadLocalRelayInfo, MAX_NAME);
    var origin := c.Str8(BadLocalRelayInfo, MAX_ORIGIN);
    var wall := c.Str8(BadLocalRelayInfo, MAX_CODE);
    if c.err.Some? || !OriginOk(origin) {
      return None;
    }
    return Some(Info(linked, onWall, name, origin, wall));
  }

  method ParseLocalRelayInfo(msg: Octets) returns (r: Result<Info, WireError>)
    ensures r == DecodeInfo(msg)
  {
    var bad := CheckPrefix(msg, TYPE_INFO, 7);
    if bad.Some? {
      return Err(bad.value);
    }
    var c := new Cursor(msg, 2);
    var flags := c.U8(BadLocalRelayInfo);
    if flags != 0 {
      return Err(BadLocalRelayInfo);
    }
    var state := c.U8(BadLocalRelayInfo);
    var m := ParseTexts(c, state % 2 == 1, state / 2 % 2 == 1);
    return if m.Some? then Ok(m.value) else Err(BadLocalRelayInfo);
  }

  method AppendHashes(dst: Octets, hs: seq<Hash>) returns (out: Octets)
    ensures out == dst + PutAll(hs, PutHash, [])
  {
    out := dst;
    for i := 0 to |hs|
      invariant out == dst + PutAll(hs[..i], PutHash, [])
    {
      GrowsByOne(dst, hs, i, PutHash);
      assert PutHash(hs[i], []) == hs[i].bytes;
      out := out + hs[i].bytes;
    }
    assert hs[..|hs|] == hs;
  }

  method AppendCandidate(dst: Octets, c: Candidate) returns (out: Octets)
    ensures out == dst + PutCandidate(c, [])
  {
    out := dst + Bytes16(c.url);
    out := out + [|c.hashes| % 0x100];
    out := AppendHashes(out, c.hashes);
  }

  method AppendCandidates(dst: Octets, cs: seq<Candidate>) returns (out: Octets)
    ensures out == dst + PutAll(cs, PutCandidate, [])
  {
    CandidatesPrepend();
    out := dst;
    for i := 0 to |cs|
      invariant out == dst + PutAll(cs[..i], PutCandidate, [])
    {
      GrowsByOne(dst, cs, i, PutCandidate);
      out := AppendCandidate(out, cs[i]);
    }
    assert cs[..|cs|] == cs;
  }

  /** Every candidate is checked before anything is appended. */
  method CheckCandidates(cs: seq<Candidate>) returns (fit: bool)
    ensures fit <==> forall c | c in cs :: CandidateOk(c)
  {
    for i := 0 to |cs|
      invariant forall c | c in cs[..i] :: CandidateOk(c)
    {
      if !UrlOk(cs[i].url) || |cs[i].hashes| > MAX_HASHES {
        assert cs[i] in cs;
        return false;
      }
    }
    assert cs[..|cs|] == cs;
    return true;
  }

  method AppendLocalRelayOffer(dst: Octets, m: Offer) returns (r: Result<Octets, WireError>)
    ensures r == AppendOffer(dst, m)
  {
    if !HandleOk(m.handle) || m.validity == 0 || m.candidates == [] || |m.candidates| > MAX_CANDIDATES {
      return Err(BadLocalRelayOffer);
    }
    var fit := CheckCandidates(m.candidates);
    if !fit {
      return Err(BadLocalRelayOffer);
    }
    var out := dst + [VERSION, TYPE_OFFER, 0] + Bytes8(m.handle);
    r := AppendStr8(out, m.name, MAX_NAME, BadLocalRelayOffer);
    if r.Err? {
      return;
    }
    out := r.value + U32(m.validity);
    out := out + [|m.candidates| % 0x100];
    OfferIsHeadAndCandidates(dst, m);
    out := AppendCandidates(out, m.candidates);
    return Ok(out);
  }

  lemma OfferIsHeadAndCandidates(dst: Octets, m: Offer)
    ensures dst + [VERSION, TYPE_OFFER, 0] + Bytes8(m.handle) + Bytes8(m.name) + U32(m.validity) + [|m.candidates| % 0x100] +
            PutAll(m.candidates, PutCandidate, []) == dst + EncodeOffer(m, [])
  {
    var cs := PutCandidates(m.candidates, []);
    var head := [VERSION, TYPE_OFFER, 0] + Bytes8(m.handle);
    assert Bytes8(m.name) + U32(m.validity) + cs == PutTerms(m, []);
    assert head + PutTerms(m, []) == EncodeOffer(m, []);
  }

  // ----- parsing an offer -----

  method ParseHashes(c: Cursor, n: nat) returns (hs: seq<Hash>)
    requires c.Valid() && c.err.None? && c.off + HASH_SIZE * n <= |c.buf|
    modifies c`off
    ensures c.Valid() && var r := ReadAll(old(c.Left()).value, n, ReadHash);
            r.Some? && hs == r.value.value && c.Left() == Some(r.value.rest)
  {
    hs := [];
    ghost var whole := ReadAll(c.Left().value, n, ReadHash);
    RemainingStarts(c.Left().value, n, ReadHash);
    for j := 0 to n
      invariant c.Valid() && c.err.None? && c.off + HASH_SIZE * (n - j) <= |c.buf|
      invariant whole == Remaining(hs, c.Left().value, n - j, ReadHash)
    {
      ghost var left := c.Left().value;
      var h := Hash(c.buf[c.off..c.off + HASH_SIZE]);
      assert left[..HASH_SIZE] == h.bytes && left[HASH_SIZE..] == c.buf[c.off + HASH_SIZE..];
      c.off := c.off + HASH_SIZE;
      hs := hs + [h];
    }
  }

  /** Hashes that do not fit make the list unreadable. */
  lemma {:induction false} TooFewBytes(b: Octets, n: nat)
    requires |b| < HASH_SIZE * n
    ensures ReadAll(b, n, ReadHash).None?
    decreases n
  {
    if ReadHash(b).Some? {
      assert HASH_SIZE * n == HASH_SIZE * (n - 1) + HASH_SIZE;
      TooFewBytes(b[HASH_SIZE..], n - 1);
    }
  }

  lemma SliceOfRest(buf: Octets, off: nat, n: nat)
    requires off + n <= |buf|
    ensures buf[off..][..n] == buf[off..off + n] && buf[off..][n..] == buf[off + n..]
  {}

  /** The URL's bytes, unread yet as a URL. */
  method TakeUrl(c: Cursor) returns (r: Option<Octets>)
    requires c.Valid() && c.err.None?
    modifies c`off, c`err
    ensures var read := ReadBytes16(old(c.Left()).value, MAX_URL);
            c.Valid() && r == (if read.None? || read.value.value == [] then None else Some(read.value.value)) &&
            (r.Some? ==> c.Left() == Some(read.value.rest))
  {
    var n := c.U16(BadLocalRelayOffer);
    if c.err.Some? || n == 0 || n > MAX_URL || c.off + n > |c.buf| {
      return None;
    }
    var url := c.buf[c.off..c.off + n];
    SliceOfRest(c.buf, c.off, n);
    c.off := c.off + n;
    return Some(url);
  }

  method ParseCandidate(c: Cursor) returns (r: Option<Candidate>)
    requires c.Valid() && c.err.None?
    modifies c`off, c`err
    ensures var read := ReadCandidate(old(c.Left()).value);
            c.Valid() && r == (if read.None? then None else Some(read.value.value)) &&
            (r.Some? ==> c.Left() == Some(read.value.rest))
  {
    var url := TakeUrl(c);
    if url.None? || !UrlOk(url.value) {
      return None;
    }
    var hashes := c.U8(BadLocalRelayOffer);
    if c.err.Some? || hashes > MAX_HASHES {
      return None;
    }
    if c.off + HASH_SIZE * hashes > |c.buf| {
      TooFewBytes(c.Left().value, hashes);
      return None;
    }
    var hs := ParseHashes(c, hashes);
    return Some(Candidate(url.value, hs));
  }

  method ParseCandidates(c: Cursor, n: nat) returns (r: Option<seq<Candidate>>)
    requires c.Valid() && c.err.None?
    modifies c`off, c`err
    ensures var read := ReadAll(old(c.Left()).value, n, ReadCandidate);
            r == if read.None? then None else Some(read.value.value)
  {
    var cs := [];
    ghost var whole := ReadAll(c.Left().value, n, ReadCandidate);
    RemainingStarts(c.Left().value, n, ReadCandidate);
    for i := 0 to n
      invariant c.Valid() && c.err.None?
      invariant whole == Remaining(cs, c.Left().value, n - i, ReadCandidate)
    {
      ghost var left := c.Left().value;
      var next := ParseCandidate(c);
      if next.None? {
        return None;
      }
      cs := cs + [next.value];
    }
    return Some(cs);
  }

  method ParseTerms(c: Cursor, handle: Octets) returns (r: Option<Offer>)
    requires c.Valid() && c.err.None?
    modifies c`off, c`err
    ensures var read := ReadTerms(handle, old(c.Left()).value);
            r == if read.None? then None else Some(read.value.value)
  {
    var name := c.Str8(BadLocalRelayOffer, MAX_NAME);
    var validity := c.U32(BadLocalRelayOffer);
    if c.err.None? && validity == 0 {
      c.Fail(BadLocalRelayOffer);
    }
    var count := c.U8(BadLocalRelayOffer);
    if c.err.None? && (count == 0 || count > MAX_CANDIDATES) {
      c.Fail(BadLocalRelayOffer);
    }
    if c.err.Some? {
      return None;
    }
    var candidates := ParseCandidates(c, count);
    return if candidates.None? then None else Some(Offer(handle, name, validity, candidates.value));
  }

  method ParseLocalRelayOffer(msg: Octets) returns (r: Result<Offer, WireError>)
    ensures r == DecodeOffer(msg)
  {
    var bad := CheckPrefix(msg, TYPE_OFFER, 11);
    if bad.Some? {
      return Err(bad.value);
    }
    var c := new Cursor(msg, 2);
    var flags := c.U8(BadLocalRelayOffer);
    if flags != 0 {
      return Err(BadLocalRelayOffer);
    }
    var handle := c.Bytes8(BadLocalRelayOffer, MAX_HANDLE);
    if c.err.Some? || !HandleOk(handle) {
      return Err(BadLocalRelayOffer);
    }
    var m := ParseTerms(c, handle);
    return if m.Some? then Ok(m.value) else Err(BadLocalRelayOffer);
  }
}
