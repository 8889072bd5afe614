/** What gawk-server/publisher/sps.go reports about a whole access unit, and that it is right about encoded ones. */
module AccessUnit {
  import opened Outcomes
  import opened Bytes
  import opened AnnexB
  import opened SliceReader

  /** nal[0] & 0x1f */
  function NalType(header: Byte): nat {
    Number([header.b4, header.b3, header.b2, header.b1, header.b0])
  }

  lemma ValueSplits(h: Byte)
    ensures h.Val() == 128 * One(h.b7) + 64 * One(h.b6) + 32 * One(h.b5) + NalType(h) && NalType(h) < 32
  {
    TopAndLow(h);
    ThreeMore([h.b7, h.b6, h.b5, h.b4, h.b3], h.b2, h.b1, h.b0);
    FiveBits(h.b7, h.b6, h.b5, h.b4, h.b3);
    FiveBits(h.b4, h.b3, h.b2, h.b1, h.b0);
  }

  /** The type is the value of the header modulo 32, as the mask takes it. */
  lemma NalTypeIs(h: Byte)
    ensures NalType(h) == h.Val() % 32
  {
    ValueSplits(h);
    LowPart(4 * One(h.b7) + 2 * One(h.b6) + One(h.b5), NalType(h), h.Val());
  }

  lemma LowPart(high: nat, low: nat, v: nat)
    requires v == 32 * high + low && low < 32
    ensures v % 32 == low
  {}

  const NON_IDR := 1
  const IDR := 5
  const SPS := 7

  predicate IsSlice(nal: Bytes) {
    |nal| >= 2 && (NalType(nal[0]) == NON_IDR || NalType(nal[0]) == IDR)
  }

  /** first_mb_in_slice is read and skipped; slice_type follows. */
  function SliceTypeOf(nal: Bytes): Option<nat>
    requires nal != []
  {
    var bits := BitsOf(Unescape(nal[1..], 0));
    match UeAt(bits, 0)
    case None => None
    case Some(first) => match UeAt(bits, first.1)
      case None => None
      case Some(second) => Some(second.0)
  }

  predicate IsBSlice(nal: Bytes) {
    IsSlice(nal) && SliceTypeOf(nal).Some? && SliceTypeOf(nal).value % 5 == 1
  }

  method SliceType(nal: Bytes) returns (r: Option<nat>)
    requires nal != []
    ensures r == SliceTypeOf(nal)
  {
    var rbsp := UnescapeRBSP(nal[1..]);
    var br := new BitReader(rbsp);
    var first := br.Ue();
    if first.None? {
      return None;
    }
    r := br.Ue();
  }

  method CheckNal(nal: Bytes) returns (b: bool)
    ensures b == IsBSlice(nal)
  {
    if !IsSlice(nal) {
      return false;
    }
    var t := SliceType(nal);
    b := t.Some? && t.value % 5 == 1;
  }

  method HasBSlices(au: Bytes) returns (b: bool)
    ensures b <==> exists nal | nal in Nals(au) :: IsBSlice(nal)
  {
    var nals := AnnexBNals(au);
    for i := 0 to |nals|
      invariant forall j | 0 <= j < i :: !IsBSlice(nals[j])
    {
      var found := CheckNal(nals[i]);
      if found {
        assert nals[i] in Nals(au);
        return true;
      }
    }
    return false;
  }

  method HasIDR(au: Bytes) returns (b: bool)
    ensures b <==> exists nal | nal in Nals(au) :: nal != [] && NalType(nal[0]) == IDR
  {
    var nals := AnnexBNals(au);
    for i := 0 to |nals|
      invariant forall j | 0 <= j < i :: !(nals[j] != [] && NalType(nals[j][0]) == IDR)
    {
      if |nals[i]| > 0 && NalType(nals[i][0]) == IDR {
        assert nals[i] in Nals(au);
        return true;
      }
    }
    return false;
  }

  predicate IsSps(nal: Bytes) {
    |nal| >= 4 && NalType(nal[0]) == SPS
  }

  /** profile_idc, constraint flags and level_idc of the first SPS, read without unescaping. */
  function FirstCodec(nals: seq<Bytes>): (r: Option<Bytes>)
    ensures r.Some? ==> |r.value| == 3
  {
    if nals == [] then None else if IsSps(nals[0]) then Some(nals[0][1..4]) else FirstCodec(nals[1..])
  }

  function HexDigit(n: nat): char
    requires n < 16
  {
    "0123456789ABCDEF"[n]
  }

  /** %02X */
  function Hex(b: Byte): (r: string)
    ensures |r| == 2
  {
    [HexDigit(b.Val() / 16), HexDigit(b.Val() % 16)]
  }

  function CodecString(codec: Bytes): string
    requires |codec| == 3
  {
    "avc1." + Hex(codec[0]) + Hex(codec[1]) + Hex(codec[2])
  }

  method ParseCodecString(au: Bytes) returns (r: Option<string>)
    ensures r == match FirstCodec(Nals(au)) case None => None case Some(codec) => Some(CodecString(codec))
  {
    var nals := AnnexBNals(au);
    for i := 0 to |nals|
      invariant FirstCodec(nals) == FirstCodec(nals[i..])
    {
      assert nals[i..][1..] == nals[i + 1..];
      if |nals[i]| < 4 || NalType(nals[i][0]) != SPS {
        continue;
      }
      return Some("avc1." + Hex(nals[i][1]) + Hex(nals[i][2]) + Hex(nals[i][3]));
    }
    return None;
  }

  // ----- encoded access units -----

  /**
   * A NAL as an encoder writes it: ref and kind are its nal_ref_idc and nal_unit_type (section 7.4.1); first and sliceType
   * say what its slice header codes, if it is a slice.
   */
  datatype Coded = Coded(zeros: nat, ref: nat, kind: nat, body: Bytes, zeroWords: nat, first: nat, sliceType: nat)

  /** A zero bit, two bits of ref and five of kind. */
  function Header(ref: nat, kind: nat): Byte {
    var k1 := kind / 2;
    var k2 := k1 / 2;
    var k3 := k2 / 2;
    Byte(false, ref / 2 % 2 == 1, ref % 2 == 1, k3 / 2 % 2 == 1, k3 % 2 == 1, k2 % 2 == 1, k1 % 2 == 1, kind % 2 == 1)
  }

  lemma HeaderIs(ref: nat, kind: nat)
    requires ref < 4 && kind < 32
    ensures Header(ref, kind).Val() == 32 * ref + kind && NalType(Header(ref, kind)) == kind
  {
    var h := Header(ref, kind);
    KindBits(kind);
    RefBits(ref);
    FiveBits(h.b4, h.b3, h.b2, h.b1, h.b0);
    ValueSplits(h);
  }

  lemma KindBits(kind: nat)
    requires kind < 32
    ensures var k1 := kind / 2;
            var k2 := k1 / 2;
            var k3 := k2 / 2;
            kind == 16 * One(k3 / 2 % 2 == 1) + 8 * One(k3 % 2 == 1) + 4 * One(k2 % 2 == 1) + 2 * One(k1 % 2 == 1)
                    + One(kind % 2 == 1)
  {
    Halves(kind);
    Halves(kind / 2);
    Halves(kind / 2 / 2);
    RefBits(kind / 2 / 2 / 2);
  }

  lemma RefBits(ref: nat)
    requires ref < 4
    ensures ref == 2 * One(ref / 2 % 2 == 1) + One(ref % 2 == 1)
  {}

  lemma Halves(n: nat)
    ensures n == 2 * (n / 2) + One(n % 2 == 1)
  {}

  function NalOf(c: Coded): Bytes {
    [Header(c.ref, c.kind)] + Escape(Rbsp(c.body, c.zeroWords), 0)
  }

  /** A coded slice of a non-IDR picture, or of an IDR picture. */
  predicate CodedSlice(c: Coded) {
    c.kind == 1 || c.kind == 5
  }

  ghost predicate CodedOk(c: Coded) {
    && c.ref < 4 && c.kind < 32 && 32 * c.ref + c.kind != 0 && EndsNonZero(c.body)
    && (CodedSlice(c) ==>
          && c.first <= UINT32_LIMIT - 2 && c.sliceType <= UINT32_LIMIT - 2
          && var bits := BitsOf(Rbsp(c.body, c.zeroWords));
             CodeStands(bits, 0, UeCode(c.first)) && CodeStands(bits, |UeCode(c.first)|, UeCode(c.sliceType)))
  }

  function UnitsOf(cs: seq<Coded>): seq<Unit> {
    if cs == [] then [] else [Unit(cs[0].zeros, NalOf(cs[0]))] + UnitsOf(cs[1..])
  }

  lemma CodeEnds(bits: seq<bool>, pos: nat, v: nat) returns (end: nat)
    requires v <= UINT32_LIMIT - 2 && CodeStands(bits, pos, UeCode(v))
    ensures UeAt(bits, pos) == Some((v, end)) && end == pos + |UeCode(v)|
  {
    UeRoundTrip(bits, pos, v);
    end := pos + |UeCode(v)|;
  }

  lemma SliceHeaderReadBack(nal: Bytes, rbsp: Bytes, first: nat, sliceType: nat)
    requires nal != [] && Unescape(nal[1..], 0) == rbsp
    requires first <= UINT32_LIMIT - 2 && sliceType <= UINT32_LIMIT - 2
    requires CodeStands(BitsOf(rbsp), 0, UeCode(first))
    requires CodeStands(BitsOf(rbsp), |UeCode(first)|, UeCode(sliceType))
    ensures SliceTypeOf(nal) == Some(sliceType)
  {
    var at := CodeEnds(BitsOf(rbsp), 0, first);
    var end := CodeEnds(BitsOf(rbsp), at, sliceType);
  }

  /** The NAL of a coded unit, unescaped, is its RBSP. */
  lemma CodedUnescaped(c: Coded)
    requires CodedOk(c)
    ensures NalOk(NalOf(c)) && |NalOf(c)| >= 2 && NalType(NalOf(c)[0]) == c.kind
    ensures Unescape(NalOf(c)[1..], 0) == Rbsp(c.body, c.zeroWords)
  {
    var e := Escape(Rbsp(c.body, c.zeroWords), 0);
    HeaderIs(c.ref, c.kind);
    ValZero(Header(c.ref, c.kind));
    EscapedIsNal(Header(c.ref, c.kind), c.body, c.zeroWords);
    EscapedEnds(c.body, c.zeroWords);
    assert NalOf(c)[1..] == e;
    UnescapeEscape(Rbsp(c.body, c.zeroWords), 0);
  }

  /** The reader finds the slice type that was coded. */
  lemma CodedRoundTrip(c: Coded)
    requires CodedOk(c)
    ensures NalOk(NalOf(c))
    ensures CodedSlice(c) ==> SliceTypeOf(NalOf(c)) == Some(c.sliceType)
    ensures IsBSlice(NalOf(c)) <==> CodedSlice(c) && c.sliceType % 5 == 1
  {
    CodedUnescaped(c);
    if CodedSlice(c) {
      SliceHeaderReadBack(NalOf(c), Rbsp(c.body, c.zeroWords), c.first, c.sliceType);
    }
  }

  lemma {:induction false} UnitsMatch(cs: seq<Coded>)
    requires forall c | c in cs :: CodedOk(c)
    ensures forall u | u in UnitsOf(cs) :: NalOk(u.nal)
    ensures |Payloads(UnitsOf(cs))| == |cs|
    ensures forall i | 0 <= i < |cs| :: Payloads(UnitsOf(cs))[i] == NalOf(cs[i])
  {
    if cs != [] {
      UnitsMatch(cs[1..]);
      CodedRoundTrip(cs[0]);
      var unit := Unit(cs[0].zeros, NalOf(cs[0]));
      assert UnitsOf(cs)[0] == unit && UnitsOf(cs)[1..] == UnitsOf(cs[1..]);
    }
  }

  /** In every encoded access unit a B slice is reported exactly when one was written. */
  lemma BSlicesDetected(cs: seq<Coded>, trailing: nat)
    requires forall c | c in cs :: CodedOk(c)
    ensures (exists nal | nal in Nals(Stream(UnitsOf(cs), trailing)) :: IsBSlice(nal))
            <==> exists c | c in cs :: (c.kind == 1 || c.kind == 5) && c.sliceType % 5 == 1
  {
    var nals := Nals(Stream(UnitsOf(cs), trailing));
    UnitsMatch(cs);
    NalsOfStream(UnitsOf(cs), trailing);
    forall i | 0 <= i < |cs| ensures IsBSlice(nals[i]) <==> CodedSlice(cs[i]) && cs[i].sliceType % 5 == 1 {
      CodedRoundTrip(cs[i]);
    }
    SomeB(nals, cs);
  }

  lemma SomeB(nals: seq<Bytes>, cs: seq<Coded>)
    requires |nals| == |cs|
    requires forall i | 0 <= i < |cs| :: IsBSlice(nals[i]) <==> CodedSlice(cs[i]) && cs[i].sliceType % 5 == 1
    ensures (exists nal | nal in nals :: IsBSlice(nal)) <==> exists c | c in cs :: CodedSlice(c) && c.sliceType % 5 == 1
  {
    if nal :| nal in nals && IsBSlice(nal) {
      var i :| 0 <= i < |nals| && nals[i] == nal;
      assert cs[i] in cs;
    }
    if c :| c in cs && CodedSlice(c) && c.sliceType % 5 == 1 {
      var i :| 0 <= i < |cs| && cs[i] == c;
      assert nals[i] in nals;
    }
  }

  /** In every encoded access unit an IDR picture is reported exactly when a unit of type 5 was written. */
  lemma IdrDetected(cs: seq<Coded>, trailing: nat)
    requires forall c | c in cs :: CodedOk(c)
    ensures (exists nal | nal in Nals(Stream(UnitsOf(cs), trailing)) :: nal != [] && NalType(nal[0]) == IDR)
            <==> exists c | c in cs :: c.kind == 5
  {
    var nals := Nals(Stream(UnitsOf(cs), trailing));
    UnitsMatch(cs);
    NalsOfStream(UnitsOf(cs), trailing);
    forall i | 0 <= i < |cs| ensures nals[i] != [] && NalType(nals[i][0]) == cs[i].kind {
      CodedUnescaped(cs[i]);
    }
    if nal :| nal in nals && nal != [] && NalType(nal[0]) == IDR {
      var i :| 0 <= i < |nals| && nals[i] == nal;
      assert cs[i] in cs;
    }
    if c :| c in cs && c.kind == 5 {
      var i :| 0 <= i < |cs| && cs[i] == c;
      assert nals[i] in nals;
    }
  }

  // ----- the codec string -----

  lemma HexInjective(a: Byte, b: Byte)
    requires Hex(a) == Hex(b)
    ensures a == b
  {
    HexDigitInjective(a.Val() / 16, b.Val() / 16);
    HexDigitInjective(a.Val() % 16, b.Val() % 16);
    ValInjective(a, b);
  }

  lemma HexDigitInjective(m: nat, n: nat)
    requires m < 16 && n < 16 && HexDigit(m) == HexDigit(n)
    ensures m == n
  {}

  lemma SixDigits(p: string, q: string, r: string, p': string, q': string, r': string)
    requires |p| == |q| == |r| == 2 && |p'| == |q'| == |r'| == 2
    requires "avc1." + p + q + r == "avc1." + p' + q' + r'
    ensures p == p' && q == q' && r == r'
  {
    var s, s' := "avc1." + p + q + r, "avc1." + p' + q' + r';
    assert s[5..7] == p && s[7..9] == q && s[9..11] == r;
    assert s'[5..7] == p' && s'[7..9] == q' && s'[9..11] == r';
  }

  lemma ThreeBytes(a: Bytes, b: Bytes)
    requires |a| == |b| == 3 && a[0] == b[0] && a[1] == b[1] && a[2] == b[2]
    ensures a == b
  {
  }

  /** Different codec bytes never make the same string. */
  lemma CodecStringInjective(a: Bytes, b: Bytes)
    requires |a| == |b| == 3 && CodecString(a) == CodecString(b)
    ensures a == b
  {
    SixDigits(Hex(a[0]), Hex(a[1]), Hex(a[2]), Hex(b[0]), Hex(b[1]), Hex(b[2]));
    HexInjective(a[0], b[0]);
    HexInjective(a[1], b[1]);
    HexInjective(a[2], b[2]);
    ThreeBytes(a, b);
  }

  /** What an upper-case hexadecimal digit stands for. */
  function DigitValue(c: char): (v: nat)
    requires '0' <= c <= '9' || 'A' <= c <= 'F'
    ensures v < 16
  {
    if c <= '9' then c as nat - '0' as nat else 10 + (c as nat - 'A' as nat)
  }

  lemma HexDigitIs(n: nat)
    requires n < 16
    ensures var c := HexDigit(n); ('0' <= c <= '9' || 'A' <= c <= 'F') && DigitValue(c) == n
  {}

  /** The string is "avc1." and then each byte as two upper-case digits, high digit first. */
  lemma CodecStringIs(codec: Bytes, i: nat)
    requires |codec| == 3 && i < 3
    ensures var s := CodecString(codec);
            |s| == 11 && s[..5] == "avc1." &&
            var high, low := s[5 + 2 * i], s[6 + 2 * i];
            ('0' <= high <= '9' || 'A' <= high <= 'F') && ('0' <= low <= '9' || 'A' <= low <= 'F') &&
            16 * DigitValue(high) + DigitValue(low) == codec[i].Val()
  {
    HexIs(codec[i]);
    DigitsAt(Hex(codec[0]), Hex(codec[1]), Hex(codec[2]), i);
  }

  lemma HexIs(b: Byte)
    ensures var high, low := Hex(b)[0], Hex(b)[1];
            ('0' <= high <= '9' || 'A' <= high <= 'F') && ('0' <= low <= '9' || 'A' <= low <= 'F') &&
            16 * DigitValue(high) + DigitValue(low) == b.Val()
  {
    HexDigitIs(b.Val() / 16);
    HexDigitIs(b.Val() % 16);
  }

  lemma DigitsAt(p: string, q: string, r: string, i: nat)
    requires |p| == |q| == |r| == 2 && i < 3
    ensures var s := "avc1." + p + q + r;
            |s| == 11 && s[..5] == "avc1." && s[5 + 2 * i] == [p, q, r][i][0] && s[6 + 2 * i] == [p, q, r][i][1]
  {}

  /** A prevention byte falls among the first three bytes of the payload. */
  predicate PreventedEarly(rbsp: Bytes)
    requires |rbsp| >= 3
  {
    rbsp[0] == ZERO && rbsp[1] == ZERO && (rbsp[2] == ZERO || rbsp[2] == ONE || rbsp[2] == TWO)
  }

  /**
   * Reading the three codec bytes raw is right exactly when no prevention byte falls among them: it fails for a
   * zero profile and zero flags with a level below 3, where the third byte read is the inserted 3.
   */
  lemma RawCodecBytes(rbsp: Bytes)
    requires |rbsp| >= 3
    ensures |Escape(rbsp, 0)| >= 3
    ensures Escape(rbsp, 0)[..3] == rbsp[..3] <==> !PreventedEarly(rbsp)
  {
    var z1 := if rbsp[0] == ZERO then 1 else 0;
    var z2 := if rbsp[1] == ZERO then z1 + 1 else 0;
    var e1, e2 := Escape(rbsp[1..], z1), Escape(rbsp[1..][1..], z2);
    assert rbsp[1..][1..] == rbsp[2..];
    assert Escape(rbsp, 0) == [rbsp[0]] + ([rbsp[1]] + e2);
    assert e2[0] == if z2 >= 2 && AtMostThree(rbsp[2]) then THREE else rbsp[2];
    var raw := Escape(rbsp, 0)[..3];
    assert raw == [rbsp[0], rbsp[1], e2[0]];
    assert rbsp[..3] == [rbsp[0], rbsp[1], rbsp[2]];
  }

  /** A sequence parameter set. */
  predicate CodedSps(c: Coded) {
    c.kind == 7
  }

  /** An SPS carries at least profile, constraint flags and level (section 7.3.2.1.1 of ITU-T H.264). */
  predicate SpsOk(c: Coded) {
    CodedSps(c) ==> |Rbsp(c.body, c.zeroWords)| >= 3
  }

  function FirstSps(cs: seq<Coded>): (r: Option<Coded>)
    ensures r.Some? ==> r.value in cs && CodedSps(r.value)
  {
    if cs == [] then None else if CodedSps(cs[0]) then Some(cs[0]) else FirstSps(cs[1..])
  }

  lemma AfterHeader(h: Byte, e: Bytes)
    requires |e| >= 3
    ensures ([h] + e)[1..4] == e[..3]
  {}

  lemma SpsIsLong(c: Coded)
    requires CodedOk(c) && SpsOk(c)
    ensures IsSps(NalOf(c)) <==> CodedSps(c)
    ensures CodedSps(c) ==> NalOf(c)[1..4] == Escape(Rbsp(c.body, c.zeroWords), 0)[..3]
  {
    CodedUnescaped(c);
    if CodedSps(c) {
      RawCodecBytes(Rbsp(c.body, c.zeroWords));
      AfterHeader(Header(c.ref, c.kind), Escape(Rbsp(c.body, c.zeroWords), 0));
    }
  }

  lemma {:induction false} FirstCodecIsFirstSps(nals: seq<Bytes>, cs: seq<Coded>)
    requires |nals| == |cs| && forall i | 0 <= i < |cs| :: nals[i] == NalOf(cs[i]) && CodedOk(cs[i]) && SpsOk(cs[i])
    ensures FirstSps(cs).Some? ==> |NalOf(FirstSps(cs).value)| >= 4
    ensures FirstCodec(nals) == match FirstSps(cs) case None => None case Some(c) => Some(NalOf(c)[1..4])
  {
    if cs != [] {
      SpsIsLong(cs[0]);
      FirstCodecIsFirstSps(nals[1..], cs[1..]);
    }
  }

  /**
   * For every encoded access unit: no codec string without an SPS; with one, the string is that of the first SPS's first
   * three payload bytes exactly when no prevention byte falls among them.
   */
  lemma CodecStringDetected(cs: seq<Coded>, trailing: nat)
    requires forall c | c in cs :: CodedOk(c) && SpsOk(c)
    ensures var codec := FirstCodec(Nals(Stream(UnitsOf(cs), trailing)));
            match FirstSps(cs)
            case None => codec == None
            case Some(c) =>
              var rbsp := Rbsp(c.body, c.zeroWords);
              |rbsp| >= 3 && codec.Some? && (CodecString(codec.value) == CodecString(rbsp[..3]) <==> !PreventedEarly(rbsp))
  {
    var nals := Nals(Stream(UnitsOf(cs), trailing));
    UnitsMatch(cs);
    NalsOfStream(UnitsOf(cs), trailing);
    FirstCodecIsFirstSps(nals, cs);
    if FirstSps(cs).Some? {
      var c := FirstSps(cs).value;
      var rbsp := Rbsp(c.body, c.zeroWords);
      SpsIsLong(c);
      RawCodecBytes(rbsp);
      if CodecString(NalOf(c)[1..4]) == CodecString(rbsp[..3]) {
        CodecStringInjective(NalOf(c)[1..4], rbsp[..3]);
      }
    }
  }
}
