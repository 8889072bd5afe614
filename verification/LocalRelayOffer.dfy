/** LocalRelayOffer of gawk-server/wire/localrelay.go: a nested list of candidates and their certificate hashes. */
module LocalRelayOffer {
  import opened Outcomes
  import opened WireFields
  import opened RoomState
  import opened LocalRelay

  datatype Hash = Hash(bytes: Octets) {
    /** The source's hashes are arrays of exactly this size. */
    predicate Valid() {
      |bytes| == HASH_SIZE
    }
  }

  datatype Candidate = Candidate(url: Octets, hashes: seq<Hash>)

  datatype Offer = Offer(handle: Octets, name: Octets, validity: u32, candidates: seq<Candidate>)

  predicate Typed(m: Offer) {
    forall c, h | c in m.candidates && h in c.hashes :: h.Valid()
  }

  predicate CandidateOk(c: Candidate) {
    UrlOk(c.url) && |c.hashes| <= MAX_HASHES
  }

  predicate OfferOk(m: Offer) {
    HandleOk(m.handle) && TextOk(m.name, MAX_NAME) && m.validity != 0 && 1 <= |m.candidates| <= MAX_CANDIDATES &&
    forall c | c in m.candidates :: CandidateOk(c)
  }

  function PutHash(h: Hash, rest: Octets): Octets {
    h.bytes + rest
  }

  function PutCandidate(c: Candidate, rest: Octets): Octets {
    Bytes16(c.url) + (U8(|c.hashes| % 0x100) + PutAll(c.hashes, PutHash, rest))
  }

  function PutOffer(m: Offer, rest: Octets): Octets {
    U8(0) + (Bytes8(m.handle) + PutTerms(m, rest))
  }

  function PutTerms(m: Offer, rest: Octets): Octets {
    Bytes8(m.name) + (U32(m.validity) + PutCandidates(m.candidates, rest))
  }

  function PutCandidates(cs: seq<Candidate>, rest: Octets): Octets {
    U8(|cs| % 0x100) + PutAll(cs, PutCandidate, rest)
  }

  function EncodeOffer(m: Offer, extra: Octets): Octets {
    [VERSION, TYPE_OFFER] + PutOffer(m, extra)
  }

  function AppendOffer(dst: Octets, m: Offer): Result<Octets, WireError> {
    if OfferOk(m) then Ok(dst + EncodeOffer(m, [])) else Err(BadLocalRelayOffer)
  }

  function ReadHash(b: Octets): Option<Read<Hash>> {
    if |b| < HASH_SIZE then None else Some(Read(Hash(b[..HASH_SIZE]), b[HASH_SIZE..]))
  }

  function ReadCandidate(b: Octets): Option<Read<Candidate>> {
    var url :- ReadBytes16(b, MAX_URL);
    if !UrlOk(url.value) then None
    else
      var n :- ReadUpTo(url.rest, MAX_HASHES);
      var hashes :- ReadAll(n.rest, n.value, ReadHash);
      Some(Read(Candidate(url.value, hashes.value), hashes.rest))
  }

  function ReadCandidates(b: Octets): Option<Read<seq<Candidate>>> {
    var n :- ReadUpTo(b, MAX_CANDIDATES);
    if n.value == 0 then None else ReadAll(n.rest, n.value, ReadCandidate)
  }

  function ReadOffer(b: Octets): Option<Read<Offer>> {
    var flags :- ReadUpTo(b, 0);
    var handle :- ReadBytes8(flags.rest, MAX_HANDLE);
    if !HandleOk(handle.value) then None else ReadTerms(handle.value, handle.rest)
  }

  function ReadTerms(handle: Octets, b: Octets): Option<Read<Offer>> {
    var name :- ReadText(b, MAX_NAME);
    var validity :- ReadU32(name.rest);
    if validity.value == 0 then None
    else
      var candidates :- ReadCandidates(validity.rest);
      Some(Read(Offer(handle, name.value, validity.value, candidates.value), candidates.rest))
  }

  function DecodeOffer(msg: Octets): Result<Offer, WireError> {
    match CheckPrefix(msg, TYPE_OFFER, 11)
    case Some(e) => Err(e)
    case None =>
      match ReadOffer(msg[2..])
      case None => Err(BadLocalRelayOffer)
      case Some(m) => Ok(m.value)
  }

  // ----- reading what was put -----

  lemma HashesRead(hs: seq<Hash>, rest: Octets)
    requires forall h | h in hs :: h.Valid()
    ensures ReadAll(PutAll(hs, PutHash, rest), |hs|, ReadHash) == Some(Read(hs, rest))
  {
    forall h: Hash, t: Octets | h in hs ensures ReadHash(PutHash(h, t)) == Some(Read(Same(h), t)) {
      assert (h.bytes + t)[..HASH_SIZE] == h.bytes && (h.bytes + t)[HASH_SIZE..] == t;
    }
    AllRead(hs, PutHash, ReadHash, Same<Hash>, rest);
    CleanNothing(hs);
  }

  lemma CandidateReads(c: Candidate, rest: Octets)
    requires CandidateOk(c) && forall h | h in c.hashes :: h.Valid()
    ensures ReadCandidate(PutCandidate(c, rest)) == Some(Read(c, rest))
  {
    FitsField(|c.hashes|, 0x100);
    Bytes16Reads(c.url, MAX_URL, U8(|c.hashes| % 0x100) + PutAll(c.hashes, PutHash, rest));
    HashesRead(c.hashes, rest);
  }

  lemma CandidatesRead(cs: seq<Candidate>, rest: Octets)
    requires 1 <= |cs| <= MAX_CANDIDATES && forall c | c in cs :: CandidateOk(c)
    requires forall c, h | c in cs && h in c.hashes :: h.Valid()
    ensures ReadCandidates(PutCandidates(cs, rest)) == Some(Read(cs, rest))
  {
    FitsField(|cs|, 0x100);
    forall c: Candidate, t: Octets | c in cs ensures ReadCandidate(PutCandidate(c, t)) == Some(Read(Same(c), t)) {
      CandidateReads(c, t);
    }
    AllRead(cs, PutCandidate, ReadCandidate, Same<Candidate>, rest);
    CleanNothing(cs);
  }

  lemma OfferReads(m: Offer, extra: Octets)
    requires OfferOk(m) && Typed(m)
    ensures ReadOffer(PutOffer(m, extra)) == Some(Read(m, extra))
  {
    var t1 := PutCandidates(m.candidates, extra);
    var t2 := U32(m.validity) + t1;
    Bytes8Reads(m.handle, MAX_HANDLE, Bytes8(m.name) + t2);
    TextReads(m.name, MAX_NAME, t2);
    U32Reads(m.validity, t1);
    CandidatesRead(m.candidates, extra);
  }

  // ----- rewriting what was read -----

  lemma HashesRewrite(b: Octets, n: nat)
    requires ReadAll(b, n, ReadHash).Some?
    ensures var r := ReadAll(b, n, ReadHash).value;
            b == PutAll(r.value, PutHash, r.rest) && forall h | h in r.value :: h.Valid()
  {
    forall t: Octets | ReadHash(t).Some?
      ensures var r := ReadHash(t).value; r.value.Valid() && |t| == |PutHash(r.value, r.rest)| && t == PutHash(r.value, r.rest)
    {
      assert t == t[..HASH_SIZE] + t[HASH_SIZE..];
    }
    AllRewrite(b, n, PutHash, ReadHash, (h: Hash) => h.Valid(), true);
  }

  predicate CandidateFine(c: Candidate) {
    CandidateOk(c) && forall h | h in c.hashes :: h.Valid()
  }

  lemma ReadCandidateWrites(b: Octets)
    requires ReadCandidate(b).Some?
    ensures var r := ReadCandidate(b).value; CandidateFine(r.value) && b == PutCandidate(r.value, r.rest)
  {
    ReadBytes16Writes(b, MAX_URL);
    var b1 := ReadBytes16(b, MAX_URL).value.rest;
    HashesRewrite(b1[1..], b1[0]);
    FitsField(b1[0], 0x100);
    assert b1 == U8(b1[0]) + b1[1..];
  }

  lemma CandidatesPrepend()
    ensures Prepends(PutCandidate)
  {
    forall c: Candidate, t: Octets ensures PutCandidate(c, t) == PutCandidate(c, []) + t {
      PutAllPrepends(c.hashes, PutHash, t);
    }
  }

  lemma ReadCandidatesWrites(b: Octets)
    requires ReadCandidates(b).Some?
    ensures var r := ReadCandidates(b).value;
            1 <= |r.value| <= MAX_CANDIDATES && b == PutCandidates(r.value, r.rest) && forall c | c in r.value :: CandidateFine(c)
  {
    CandidatesPrepend();
    forall t: Octets | ReadCandidate(t).Some?
      ensures var r := ReadCandidate(t).value;
              CandidateFine(r.value) && |t| == |PutCandidate(r.value, r.rest)| && t == PutCandidate(r.value, r.rest)
    {
      ReadCandidateWrites(t);
    }
    AllRewrite(b[1..], b[0], PutCandidate, ReadCandidate, CandidateFine, true);
    FitsField(b[0], 0x100);
    assert b == U8(b[0]) + b[1..];
  }

  lemma ReadTermsWrites(handle: Octets, b: Octets)
    requires HandleOk(handle) && ReadTerms(handle, b).Some?
    ensures var r := ReadTerms(handle, b).value;
            r.value.handle == handle && OfferOk(r.value) && Typed(r.value) && b == PutTerms(r.value, r.rest)
  {
    ReadTextWrites(b, MAX_NAME);
    var b1 := ReadText(b, MAX_NAME).value.rest;
    ReadU32Writes(b1);
    ReadCandidatesWrites(ReadU32(b1).value.rest);
  }

  lemma ReadOfferWrites(b: Octets)
    requires ReadOffer(b).Some?
    ensures var r := ReadOffer(b).value; OfferOk(r.value) && Typed(r.value) && b == PutOffer(r.value, r.rest)
  {
    ReadBytes8Writes(b[1..], MAX_HANDLE);
    var handle := ReadBytes8(b[1..], MAX_HANDLE).value;
    ReadTermsWrites(handle.value, handle.rest);
    ZeroFirst(b);
  }

  lemma ZeroFirst(b: Octets)
    requires ReadUpTo(b, 0).Some?
    ensures b == U8(0) + b[1..] && ReadUpTo(b, 0) == Some(Read(0, b[1..]))
  {
    assert b == [b[0]] + b[1..];
  }

  lemma OfferIsLong(m: Offer, extra: Octets)
    requires OfferOk(m)
    ensures |EncodeOffer(m, extra)| >= 11
  {
    CandidatesPrepend();
    var c := m.candidates[0];
    var t := PutAll(m.candidates[1..], PutCandidate, extra);
    assert PutAll(m.candidates, PutCandidate, extra) == PutCandidate(c, []) + t;
    assert c in m.candidates && |PutCandidate(c, [])| >= 3;
    var cs := PutCandidates(m.candidates, extra);
    assert |cs| >= 4;
    assert |Bytes8(m.name) + (U32(m.validity) + cs)| >= 9;
  }

  /** A message is accepted as m exactly when it is the encoding of an accepted m with any bytes after it. */
  lemma OfferRoundTrip(msg: Octets, m: Offer)
    requires Typed(m)
    ensures DecodeOffer(msg) == Ok(m) <==> AppendOffer([], m).Ok? && exists extra: Octets :: msg == EncodeOffer(m, extra)
  {
    if DecodeOffer(msg) == Ok(m) {
      ReadOfferWrites(msg[2..]);
      var extra := ReadOffer(msg[2..]).value.rest;
      assert msg == EncodeOffer(m, extra);
    }
    if OfferOk(m) {
      forall extra: Octets | msg == EncodeOffer(m, extra) ensures DecodeOffer(msg) == Ok(m) {
        OfferIsLong(m, extra);
        assert msg[2..] == PutOffer(m, extra);
        OfferReads(m, extra);
      }
    }
  }
}
