/** Where every field of the two relay messages stands, as gawk-server/wire/localrelay.go:81-95 and 199-217 lay them out. */
module LocalRelayLayouts {
  import opened WireFields
  import opened RoomState
  import opened RoomLayouts
  import opened LocalRelay
  import opened LocalRelayOffer

  lemma FourFirst(a: octet, b: octet, c: octet, d: octet, rest: Octets)
    ensures [a, b] + (U8(c) + (U8(d) + rest)) == [a, b, c, d] + rest
  {}

  lemma ThreeFirst(a: octet, b: octet, c: octet, rest: Octets)
    ensures [a, b] + (U8(c) + rest) == [a, b, c] + rest
  {}

  lemma TwoTexts(b: Octets, front: Octets, x: Octets, y: Octets)
    requires |x| < 0x100 && |y| < 0x100 && b == front + (Bytes8(x) + (Bytes8(y) + []))
    ensures var at := |front|;
            Bytes8At(b, at, x) && Bytes8At(b, at + 1 + |x|, y) && |b| == at + 2 + |x| + |y|
  {
    NextBytes8(b, front, x, Bytes8(y) + []);
    NextBytes8(b, front + Bytes8(x), y, []);
  }

  predicate TextsAt(b: Octets, at: nat, m: Info) {
    var n, o := |m.name|, |m.homeOrigin|;
    |b| == at + 3 + n + o + |m.wallCode| && Bytes8At(b, at, m.name) && Bytes8At(b, at + 1 + n, m.homeOrigin) &&
    Bytes8At(b, at + 2 + n + o, m.wallCode)
  }

  lemma TextFields(b: Octets, front: Octets, at: nat, m: Info)
    requires |m.name| < 0x100 && |m.homeOrigin| < 0x100 && |m.wallCode| < 0x100
    requires b == front + PutTexts(m, []) && at == |front|
    ensures TextsAt(b, at, m)
  {
    NextBytes8(b, front, m.name, Bytes8(m.homeOrigin) + (Bytes8(m.wallCode) + []));
    TwoTexts(b, front + Bytes8(m.name), m.homeOrigin, m.wallCode);
  }

  lemma InfoStands(b: Octets, m: Info)
    requires |m.name| < 0x100 && |m.homeOrigin| < 0x100 && |m.wallCode| < 0x100 && b == PutInfo(m, StateByte(m), [])
    ensures |b| >= 4 && b[..4] == [0x01, 0x18, 0x00, StateByte(m)] && TextsAt(b, 4, m)
  {
    var front := [VERSION, TYPE_INFO, 0, StateByte(m)];
    FourFirst(VERSION, TYPE_INFO, 0, StateByte(m), PutTexts(m, []));
    Front(b, front, PutTexts(m, []));
    TextFields(b, front, 4, m);
  }

  lemma TwoBits(m: Info)
    ensures StateByte(m) < 4 && (StateByte(m) % 2 == 1 <==> m.linked) && (StateByte(m) / 2 == 1 <==> m.onWall)
  {}

  /** Behind what was there before: four fixed bytes, the last with the two state bits, and three texts after them. */
  lemma InfoFields(dst: Octets, m: Info)
    requires AppendInfo(dst, m).Ok?
    ensures var out := AppendInfo(dst, m).value;
            dst <= out &&
            var b := out[|dst|..];
            |b| >= 4 && b[..3] == [0x01, 0x18, 0x00] && b[3] < 4 && (b[3] % 2 == 1 <==> m.linked) &&
            (b[3] / 2 == 1 <==> m.onWall) && TextsAt(b, 4, m)
  {
    var b := PutInfo(m, StateByte(m), []);
    InfoStands(b, m);
    TwoBits(m);
    assert b[..4][..3] == b[..3] && b[..4][3] == b[3];
    Rest(AppendInfo(dst, m).value, dst, b);
  }

  /** The name at `at`, then the validity in seconds, the candidate count and the candidates. */
  predicate TermsAt(b: Octets, at: nat, m: Offer) {
    var v := at + 1 + |m.name|;
    Bytes8At(b, at, m.name) && |b| >= v + 5 && NumberAt(b, v, 4, m.validity) && b[v + 4] == |m.candidates| &&
    b[v + 5..] == PutAll(m.candidates, PutCandidate, [])
  }

  lemma NumberStands(b: Octets, front: Octets, v: nat, x: u32, rest: Octets)
    requires b == front + (U32(x) + rest) && |front| == v
    ensures NumberAt(b, v, 4, x) && b == (front + U32(x)) + rest
  {
    NextField(b, front, U32(x), rest);
    U32IsBigEndian(x);
  }

  lemma OneByte(b: Octets, front: Octets, v: nat, x: octet, rest: Octets)
    requires b == front + ([x] + rest) && |front| == v
    ensures |b| >= v + 1 && b[v] == x && b[v + 1..] == rest
  {}

  lemma CountStands(b: Octets, front: Octets, v: nat, cs: seq<Candidate>)
    requires |cs| < 0x100 && b == front + PutCandidates(cs, []) && |front| == v
    ensures |b| >= v + 1 && b[v] == |cs| && b[v + 1..] == PutAll(cs, PutCandidate, [])
  {
    FitsField(|cs|, 0x100);
    OneByte(b, front, v, |cs|, PutAll(cs, PutCandidate, []));
  }

  lemma TermFields(b: Octets, front: Octets, at: nat, m: Offer)
    requires |m.name| < 0x100 && |m.candidates| < 0x100 && b == front + PutTerms(m, []) && at == |front|
    ensures TermsAt(b, at, m)
  {
    var v, list := at + 1 + |m.name|, PutCandidates(m.candidates, []);
    var f1 := front + Bytes8(m.name);
    NextBytes8(b, front, m.name, U32(m.validity) + list);
    NumberStands(b, f1, v, m.validity, list);
    CountStands(b, f1 + U32(m.validity), v + 4, m.candidates);
  }

  lemma OfferStands(b: Octets, m: Offer)
    requires |m.handle| < 0x100 && |m.name| < 0x100 && |m.candidates| < 0x100 && b == EncodeOffer(m, [])
    ensures |b| >= 3 && b[..3] == [0x01, 0x19, 0x00] && Bytes8At(b, 3, m.handle) && TermsAt(b, 4 + |m.handle|, m)
  {
    var terms := PutTerms(m, []);
    var f0 := [VERSION, TYPE_OFFER, 0];
    ThreeFirst(VERSION, TYPE_OFFER, 0, Bytes8(m.handle) + terms);
    Front(b, f0, Bytes8(m.handle) + terms);
    NextBytes8(b, f0, m.handle, terms);
    TermFields(b, f0 + Bytes8(m.handle), 4 + |m.handle|, m);
  }

  /** Behind what was there before: three fixed bytes, the handle, and then the terms. */
  lemma OfferFields(dst: Octets, m: Offer)
    requires AppendOffer(dst, m).Ok?
    ensures var out := AppendOffer(dst, m).value;
            dst <= out &&
            var b := out[|dst|..];
            |b| >= 3 && b[..3] == [0x01, 0x19, 0x00] && Bytes8At(b, 3, m.handle) && TermsAt(b, 4 + |m.handle|, m)
  {
    OfferStands(EncodeOffer(m, []), m);
    Rest(AppendOffer(dst, m).value, dst, EncodeOffer(m, []));
  }

  /** One candidate: its URL behind a two-byte length, then its hashes behind a one-byte count. */
  lemma CandidateFields(c: Candidate, rest: Octets)
    requires |c.url| < 0x1_0000 && |c.hashes| < 0x100
    ensures var b := PutCandidate(c, rest);
            var n := |c.url|;
            NumberAt(b, 0, 2, n) && At(b, 2, c.url) && |b| >= 3 + n && b[2 + n] == |c.hashes| &&
            b[3 + n..] == PutAll(c.hashes, PutHash, rest)
  {
    U16IsBigEndian(|c.url|);
    FitsField(|c.url|, 0x1_0000);
    FitsField(|c.hashes|, 0x100);
    var b, hs := PutCandidate(c, rest), PutAll(c.hashes, PutHash, rest);
    var u := U16(|c.url|);
    assert b == [] + (u + (c.url + (U8(|c.hashes|) + hs)));
    NextField(b, [], u, c.url + (U8(|c.hashes|) + hs));
    NextField(b, u, c.url, U8(|c.hashes|) + hs);
    NextField(b, u + c.url, U8(|c.hashes|), hs);
    Rest(b, u + c.url + U8(|c.hashes|), hs);
  }
}
