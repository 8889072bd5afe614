/** Emulation prevention, exp-Golomb codes and slice types: the bit-level half of gawk-server/publisher/sps.go. */
module SliceReader {
  import opened Outcomes
  import opened Bytes
  import opened AnnexB

  // ----- emulation prevention (H.264 section 7.4.1) -----

  /** unescapeRBSP, after `zeros` consecutive zero bytes. */
  function Unescape(b: Bytes, zeros: nat): Bytes {
    if b == [] then []
    else if zeros >= 2 && b[0] == THREE then Unescape(b[1..], 0)
    else [b[0]] + Unescape(b[1..], if b[0] == ZERO then zeros + 1 else 0)
  }

  method UnescapeRBSP(b: Bytes) returns (out: Bytes)
    ensures out == Unescape(b, 0)
  {
    out := [];
    var zeros := 0;
    for i := 0 to |b|
      invariant out + Unescape(b[i..], zeros) == Unescape(b, 0)
    {
      var c := b[i];
      assert b[i..][0] == c && b[i..][1..] == b[i + 1..];
      if zeros >= 2 && c == THREE {
        zeros := 0;
        continue;
      }
      ghost var next := if c == ZERO then zeros + 1 else 0;
      assert out + ([c] + Unescape(b[i + 1..], next)) == (out + [c]) + Unescape(b[i + 1..], next);
      if c == ZERO {
        zeros := zeros + 1;
      } else {
        zeros := 0;
      }
      out := out + [c];
    }
  }

  const TWO := Byte(false, false, false, false, false, false, true, false)

  predicate AtMostThree(c: Byte) {
    c == ZERO || c == ONE || c == TWO || c == THREE
  }

  /** The encoder: a 3 goes in front of any byte up to 3 that follows two zeros, and after a final zero pair. */
  function Escape(b: Bytes, zeros: nat): Bytes {
    if b == [] then (if zeros >= 2 then [THREE] else [])
    else if zeros >= 2 && AtMostThree(b[0]) then [THREE, b[0]] + Escape(b[1..], if b[0] == ZERO then 1 else 0)
    else [b[0]] + Escape(b[1..], if b[0] == ZERO then zeros + 1 else 0)
  }

  /** The bytes of the format by their values: the prevention byte is 3, and so is the highest byte it goes in front of. */
  lemma FormatBytes(c: Byte)
    ensures ZERO.Val() == 0 && ONE.Val() == 1 && THREE.Val() == 3
    ensures AtMostThree(c) <==> c.Val() <= 3
  {
    ByteValue(ZERO);
    ByteValue(ONE);
    ByteValue(TWO);
    ByteValue(THREE);
    ByteValue(c);
  }

  /** The reader removes exactly what the encoder put in. */
  lemma {:induction false} UnescapeEscape(b: Bytes, zeros: nat)
    ensures Unescape(Escape(b, zeros), zeros) == b
  {
    if b != [] {
      var next := if b[0] == ZERO then 1 else 0;
      if zeros >= 2 && AtMostThree(b[0]) {
        var e := Escape(b[1..], next);
        assert Escape(b, zeros)[1..] == [b[0]] + e;
        assert ([b[0]] + e)[1..] == e;
        UnescapeEscape(b[1..], next);
      } else {
        var more := if b[0] == ZERO then zeros + 1 else 0;
        assert Escape(b, zeros)[1..] == Escape(b[1..], more);
        UnescapeEscape(b[1..], more);
      }
    }
  }

  /** Read after `zeros` zero bytes, b never shows a third zero or the 1 that would end a start code. */
  ghost predicate Quiet(b: Bytes, zeros: nat) {
    b != [] ==>
      && !(zeros >= 2 && (b[0] == ZERO || b[0] == ONE))
      && Quiet(b[1..], if b[0] == ZERO then zeros + 1 else 0)
  }

  lemma {:induction false} EscapeQuiet(b: Bytes, zeros: nat)
    requires zeros <= 2
    ensures Quiet(Escape(b, zeros), zeros)
  {
    if b != [] {
      if zeros >= 2 && AtMostThree(b[0]) {
        var e := Escape(b[1..], if b[0] == ZERO then 1 else 0);
        EscapeQuiet(b[1..], if b[0] == ZERO then 1 else 0);
        assert Escape(b, zeros)[1..] == [b[0]] + e;
        assert ([b[0]] + e)[1..] == e;
      } else {
        var more := if b[0] == ZERO then zeros + 1 else 0;
        EscapeQuiet(b[1..], more);
        assert Escape(b, zeros)[1..] == Escape(b[1..], more);
      }
    }
  }

  lemma {:induction false} QuietHasNoCode(b: Bytes, zeros: nat, i: nat)
    requires Quiet(b, zeros) && i + 2 < |b|
    ensures !(b[i] == ZERO && b[i + 1] == ZERO && (b[i + 2] == ZERO || b[i + 2] == ONE))
    decreases |b|
  {
    var t := b[1..];
    assert t[i] == b[i + 1] && t[i + 1] == b[i + 2];
    if i > 0 {
      QuietHasNoCode(t, if b[0] == ZERO then zeros + 1 else 0, i - 1);
    } else if b[0] == ZERO && b[1] == ZERO {
      assert Quiet(t, zeros + 1) && t[0] == ZERO;
      assert Quiet(t[1..], zeros + 2) && t[1..][0] == b[2];
    }
  }

  /** A body that ends in its trailing bits, then cabac_zero_words: 16-bit zeros. */
  function Rbsp(body: Bytes, zeroWords: nat): Bytes {
    body + Zeros(2 * zeroWords)
  }

  ghost predicate EndsNonZero(b: Bytes) {
    b != [] && b[|b| - 1] != ZERO
  }

  /** What the encoder writes for the first byte, and how it goes on. */
  function FirstEscaped(x: Byte, zeros: nat): Bytes {
    if zeros >= 2 && AtMostThree(x) then [THREE, x] else [x]
  }

  function ZerosAfter(x: Byte, zeros: nat): nat {
    if x != ZERO then 0 else if zeros >= 2 then 1 else zeros + 1
  }

  lemma EscapeFirst(b: Bytes, zeros: nat)
    requires b != []
    ensures Escape(b, zeros) == FirstEscaped(b[0], zeros) + Escape(b[1..], ZerosAfter(b[0], zeros))
  {
  }

  lemma Regroup(a: Bytes, b: Bytes, c: Bytes)
    ensures a + (b + c) == a + b + c
  {
  }

  lemma {:induction false} EscapeEndsNonZero(x: Bytes, zeros: nat)
    requires EndsNonZero(x)
    ensures EndsNonZero(Escape(x, zeros))
    decreases |x|
  {
    EscapeFirst(x, zeros);
    if |x| > 1 {
      EscapeEndsNonZero(x[1..], ZerosAfter(x[0], zeros));
    }
  }

  lemma SplitOne(x: Bytes, y: Bytes, zeros: nat)
    requires |x| == 1 && x[0] != ZERO
    ensures Escape(x + y, zeros) == Escape(x, zeros) + Escape(y, 0)
  {
    EscapeFirst(x, zeros);
    EscapeFirst(x + y, zeros);
    assert (x + y)[1..] == y && x[1..] == [];
    assert FirstEscaped(x[0], zeros) + [] == FirstEscaped(x[0], zeros);
  }

  lemma SplitMore(x: Bytes, y: Bytes, zeros: nat, more: nat)
    requires x != [] && more == ZerosAfter(x[0], zeros)
    requires Escape(x[1..] + y, more) == Escape(x[1..], more) + Escape(y, 0)
    ensures Escape(x + y, zeros) == Escape(x, zeros) + Escape(y, 0)
  {
    EscapeFirst(x, zeros);
    EscapeFirst(x + y, zeros);
    assert (x + y)[1..] == x[1..] + y;
    Regroup(FirstEscaped(x[0], zeros), Escape(x[1..], more), Escape(y, 0));
  }

  lemma {:induction false} EscapeSplits(x: Bytes, y: Bytes, zeros: nat)
    requires EndsNonZero(x)
    ensures Escape(x + y, zeros) == Escape(x, zeros) + Escape(y, 0)
    decreases |x|
  {
    if |x| > 1 {
      var more := ZerosAfter(x[0], zeros);
      assert x[1..][|x| - 2] == x[|x| - 1];
      EscapeSplits(x[1..], y, more);
      SplitMore(x, y, zeros, more);
    } else {
      SplitOne(x, y, zeros);
    }
  }

  lemma {:induction false} EscapeZeroWords(n: nat)
    ensures EndsNonZero(Escape(Zeros(2 * n), 2))
  {
    if n > 0 {
      var rest := Zeros(2 * (n - 1));
      EscapeZeroWords(n - 1);
      assert Zeros(2 * n)[1..] == [ZERO] + rest && ([ZERO] + rest)[1..] == rest;
      assert Escape([ZERO] + rest, 1) == [ZERO] + Escape(rest, 2);
      assert Escape(Zeros(2 * n), 2) == [THREE, ZERO] + ([ZERO] + Escape(rest, 2));
    }
  }

  lemma EscapedEnds(body: Bytes, zeroWords: nat)
    requires EndsNonZero(body)
    ensures EndsNonZero(Escape(Rbsp(body, zeroWords), 0))
  {
    EscapeSplits(body, Zeros(2 * zeroWords), 0);
    EscapeEndsNonZero(body, 0);
    if zeroWords > 0 {
      var rest := Zeros(2 * (zeroWords - 1));
      EscapeZeroWords(zeroWords - 1);
      assert Zeros(2 * zeroWords)[1..] == [ZERO] + rest && ([ZERO] + rest)[1..] == rest;
      assert Escape([ZERO] + rest, 1) == [ZERO] + Escape(rest, 2);
      assert Escape(Zeros(2 * zeroWords), 0) == [ZERO] + ([ZERO] + Escape(rest, 2));
    }
  }

  lemma QuietFromHeader(header: Byte, e: Bytes)
    requires header != ZERO && Quiet(e, 0)
    ensures Quiet([header] + e, 0)
  {
    assert ([header] + e)[1..] == e;
  }

  /** An escaped RBSP is a NAL body: no start code inside, no zero at the end. */
  lemma EscapedIsNal(header: Byte, body: Bytes, zeroWords: nat)
    requires header != ZERO && EndsNonZero(body)
    ensures NalOk([header] + Escape(Rbsp(body, zeroWords), 0))
  {
    var e := Escape(Rbsp(body, zeroWords), 0);
    EscapedEnds(body, zeroWords);
    EscapeQuiet(Rbsp(body, zeroWords), 0);
    QuietFromHeader(header, e);
    var nal := [header] + e;
    forall i | 0 <= i < |nal| - 2
      ensures !(nal[i] == ZERO && nal[i + 1] == ZERO && (nal[i + 2] == ZERO || nal[i + 2] == ONE))
    {
      QuietHasNoCode(nal, 0, i);
    }
  }

  // ----- bits and exp-Golomb codes (H.264 section 9.1) -----

  function BitsOf(b: Bytes): (bits: seq<bool>)
    ensures |bits| == 8 * |b|
  {
    if b == [] then [] else BitsOf(b[..|b| - 1]) + b[|b| - 1].Bits()
  }

  lemma {:induction false} BitAt(b: Bytes, i: nat)
    requires i < 8 * |b|
    ensures BitsOf(b)[i] == b[i / 8].Bit(i % 8)
  {
    var n := |b| - 1;
    if i < 8 * n {
      BitAt(b[..n], i);
    } else {
      assert i / 8 == n && i % 8 == i - 8 * n;
      BitOfBits(b[n], i - 8 * n);
    }
  }

  /** Bit i of a buffer is bit 7 - i % 8 of byte i / 8: the most significant bit of each byte comes first. */
  lemma BitsOfIs(b: Bytes, i: nat)
    requires i < 8 * |b|
    ensures BitsOf(b)[i] <==> b[i / 8].Val() / Pow2(7 - i % 8) % 2 == 1
  {
    BitAt(b, i);
    BitIs(b[i / 8], i % 8);
  }

  /** How many zero bits there are from pos on. */
  function LeadingZeros(bits: seq<bool>, pos: nat): (n: nat)
    requires pos <= |bits|
    ensures pos + n <= |bits|
    ensures forall k | pos <= k < pos + n :: !bits[k]
    ensures pos + n < |bits| ==> bits[pos + n]
    decreases |bits| - pos
  {
    if pos == |bits| || bits[pos] then 0 else 1 + LeadingZeros(bits, pos + 1)
  }

  const UINT32_LIMIT := 0x1_0000_0000

  /** uint32 arithmetic wraps. */
  function Wrap32(x: nat): (r: nat)
    ensures r < UINT32_LIMIT && (x < UINT32_LIMIT ==> r == x)
  {
    x % UINT32_LIMIT
  }

  lemma NumberSnoc(bits: seq<bool>, first: nat, n: nat)
    requires n <= 30 && first + n < |bits|
    ensures var v := 2 * Number(bits[first..first + n]) + (if bits[first + n] then 1 else 0);
            Number(bits[first..first + n + 1]) == v && v < UINT32_LIMIT
  {
    assert bits[first..first + n + 1][..n] == bits[first..first + n];
    Pow2Fits(n);
  }

  /** The value and the position after it, or None for a truncated code or one with more than 31 leading zeros. */
  function UeAt(bits: seq<bool>, pos: nat): (r: Option<(nat, nat)>)
    requires pos <= |bits|
    ensures r.Some? ==> pos < r.value.1 <= |bits|
  {
    var zeros := LeadingZeros(bits, pos);
    var start := pos + zeros + 1;
    if pos + zeros == |bits| || zeros > 31 || start + zeros > |bits| then None
    else Some((Number(bits[start..start + zeros]) + Pow2(zeros) - 1, start + zeros))
  }

  lemma {:induction false} Pow2Monotone(m: nat, n: nat)
    requires m <= n
    ensures Pow2(m) <= Pow2(n)
  {
    if m < n {
      Pow2Monotone(m, n - 1);
    }
  }

  lemma Pow2Of31()
    ensures Pow2(31) == 0x8000_0000
  {
    assert Pow2(8) == 256 && Pow2(16) == 65536 && Pow2(24) == 0x100_0000;
  }

  lemma Pow2Fits(n: nat)
    requires n <= 31
    ensures 2 * Pow2(n) <= UINT32_LIMIT
  {
    Pow2Monotone(n, 31);
    Pow2Of31();
  }

  /** No exp-Golomb value the reader accepts overflows 32 bits. */
  lemma UeFits(bits: seq<bool>, pos: nat)
    requires pos <= |bits| && UeAt(bits, pos).Some?
    ensures UeAt(bits, pos).value.0 <= UINT32_LIMIT - 2
  {
    Pow2Fits(LeadingZeros(bits, pos));
  }

  /** The code at pos, with its leading one bit just before start. */
  lemma UeRead(bits: seq<bool>, pos: nat, zeros: nat, start: nat, end: nat, v: nat)
    requires pos <= |bits| && zeros == LeadingZeros(bits, pos) && zeros <= 31
    requires start == pos + zeros + 1 && end == start + zeros <= |bits| && v == Number(bits[start..start + zeros])
    ensures UeAt(bits, pos) == Some((Wrap32(v + Pow2(zeros) - 1), end))
  {
    UeFits(bits, pos);
  }

  class BitReader {
    const buf: Bytes
    var pos: nat

    ghost predicate Valid()
      reads this
    {
      pos <= 8 * |buf|
    }

    constructor (buf: Bytes)
      ensures Valid() && this.buf == buf && pos == 0
    {
      this.buf := buf;
      pos := 0;
    }

    method Bit() returns (b: Option<bool>)
      requires Valid()
      modifies this
      ensures Valid()
      ensures old(pos) == 8 * |buf| ==> b == None && pos == old(pos)
      ensures old(pos) < 8 * |buf| ==> b == Some(BitsOf(buf)[old(pos)]) && pos == old(pos) + 1
    {
      if pos >= 8 * |buf| {
        return None;
      }
      BitAt(buf, pos);
      b := Some(buf[pos / 8].Bit(pos % 8));
      pos := pos + 1;
    }

    /** The zeros before the first one bit, which is consumed; refused past 31. */
    method CountZeros() returns (r: Option<nat>)
      requires Valid()
      modifies this
      ensures Valid()
      ensures var zeros := LeadingZeros(BitsOf(buf), old(pos));
              if old(pos) + zeros == 8 * |buf| || zeros > 31 then r == None
              else r == Some(zeros) && pos == old(pos) + zeros + 1
    {
      ghost var bits := BitsOf(buf);
      ghost var start := pos;
      var zeros := 0;
      while true
        invariant Valid() && zeros <= 31 && pos == start + zeros
        invariant LeadingZeros(bits, start) == zeros + LeadingZeros(bits, pos)
        decreases 31 - zeros
      {
        var b := Bit();
        if b.None? {
          return None;
        }
        if b.value {
          return Some(zeros);
        }
        zeros := zeros + 1;
        if zeros > 31 {
          return None;
        }
      }
    }

    /** The next n bits as a number, shifted in with 32-bit arithmetic. */
    method ReadBits(n: nat) returns (r: Option<nat>)
      requires Valid() && n <= 31
      modifies this
      ensures Valid()
      ensures if old(pos) + n > 8 * |buf| then r == None
              else r == Some(Number(BitsOf(buf)[old(pos)..old(pos) + n])) && pos == old(pos) + n
    {
      ghost var bits := BitsOf(buf);
      ghost var first := pos;
      var v: nat := 0;
      for i := 0 to n
        invariant Valid() && pos == first + i
        invariant v == Number(bits[first..first + i])
      {
        var b := Bit();
        if b.None? {
          return None;
        }
        NumberSnoc(bits, first, i);
        v := Wrap32(2 * v + (if b.value then 1 else 0));
      }
      r := Some(v);
    }

    /** One ue(v), in the 32-bit arithmetic of the source. */
    method Ue() returns (r: Option<nat>)
      requires Valid()
      modifies this
      ensures Valid()
      ensures var spec := UeAt(BitsOf(buf), old(pos));
              if spec.None? then r == None else r == Some(spec.value.0) && pos == spec.value.1
    {
      var zeros := CountZeros();
      if zeros.None? {
        return None;
      }
      ghost var start := pos;
      var v := ReadBits(zeros.value);
      if v.None? {
        return None;
      }
      UeRead(BitsOf(buf), old(pos), zeros.value, start, pos, v.value);
      r := Some(Wrap32(v.value + Pow2(zeros.value) - 1));
    }
  }

  // ----- the encoder -----

  /** The n low bits of m, most significant first. */
  function Binary(m: nat, n: nat): (bits: seq<bool>)
    ensures |bits| == n
    ensures m < Pow2(n) ==> Number(bits) == m
  {
    if n == 0 then [] else
      var high := Binary(m / 2, n - 1);
      assert (high + [m % 2 == 1])[..n - 1] == high;
      high + [m % 2 == 1]
  }

  function Log2(m: nat): (n: nat)
    requires m >= 1
    ensures Pow2(n) <= m < Pow2(n + 1)
  {
    if m == 1 then 0 else 1 + Log2(m / 2)
  }

  /** ue(v): as many zeros as v+1 has bits after its leading one, then v+1 in binary. */
  function UeCode(v: nat): (code: seq<bool>)
    ensures |code| == 2 * Log2(v + 1) + 1
  {
    var n := Log2(v + 1);
    seq(n, _ => false) + [true] + Binary(v + 1 - Pow2(n), n)
  }

  lemma {:induction false} LeadingZerosAre(bits: seq<bool>, pos: nat, n: nat)
    requires pos + n < |bits| && bits[pos + n] && forall k | pos <= k < pos + n :: !bits[k]
    ensures LeadingZeros(bits, pos) == n
    decreases n
  {
    if n > 0 {
      LeadingZerosAre(bits, pos + 1, n - 1);
    }
  }

  lemma Log2Of32(v: nat)
    requires v <= UINT32_LIMIT - 2
    ensures Log2(v + 1) <= 31
  {
    Pow2Of31();
    if Log2(v + 1) >= 32 {
      Pow2Monotone(32, Log2(v + 1));
    }
  }

  /** The bits of `code` stand at pos. */
  ghost predicate CodeStands(bits: seq<bool>, pos: nat, code: seq<bool>) {
    pos + |code| <= |bits| && forall k | 0 <= k < |code| :: bits[pos + k] == code[k]
  }

  /** A code is n zeros, a one, and n bits that hold the rest of v+1. */
  ghost predicate CodeOf(code: seq<bool>, n: nat, v: nat) {
    |code| == 2 * n + 1 && (forall k | 0 <= k < n :: !code[k]) && code[n] && Number(code[n + 1..]) + Pow2(n) == v + 1
  }

  lemma CodeParts(v: nat) returns (n: nat)
    requires v <= UINT32_LIMIT - 2
    ensures n <= 31 && CodeOf(UeCode(v), n, v)
  {
    n := Log2(v + 1);
    Log2Of32(v);
    assert UeCode(v)[n + 1..] == Binary(v + 1 - Pow2(n), n);
  }

  lemma SliceStands(bits: seq<bool>, pos: nat, code: seq<bool>, i: nat)
    requires CodeStands(bits, pos, code) && i <= |code|
    ensures bits[pos + i..pos + |code|] == code[i..]
  {
    forall k | 0 <= k < |code| - i ensures bits[pos + i..pos + |code|][k] == code[i..][k] {
      assert bits[pos + (i + k)] == code[i + k];
    }
  }

  lemma ReadsAs(bits: seq<bool>, pos: nat, n: nat)
    requires n <= 31 && pos + 2 * n + 1 <= |bits| && bits[pos + n] && forall k | pos <= k < pos + n :: !bits[k]
    ensures UeAt(bits, pos) == Some((Number(bits[pos + n + 1..pos + 2 * n + 1]) + Pow2(n) - 1, pos + 2 * n + 1))
  {
    LeadingZerosAre(bits, pos, n);
    assert pos + n + 1 + n == pos + 2 * n + 1;
  }

  lemma CodeReads(bits: seq<bool>, pos: nat, code: seq<bool>, n: nat, v: nat)
    requires n <= 31 && CodeOf(code, n, v) && CodeStands(bits, pos, code)
    ensures UeAt(bits, pos) == Some((v, pos + |code|))
  {
    forall k | pos <= k < pos + n ensures !bits[k] {
      assert bits[pos + (k - pos)] == code[k - pos];
    }
    assert bits[pos + n] == code[n];
    ReadsAs(bits, pos, n);
    SliceStands(bits, pos, code, n + 1);
  }

  /** Reading a code where it was written gives the value back, for every value up to 2^32-2. */
  lemma UeRoundTrip(bits: seq<bool>, pos: nat, v: nat)
    requires v <= UINT32_LIMIT - 2 && CodeStands(bits, pos, UeCode(v))
    ensures UeAt(bits, pos) == Some((v, pos + |UeCode(v)|))
  {
    var n := CodeParts(v);
    CodeReads(bits, pos, UeCode(v), n, v);
  }

  lemma {:induction false} BinaryOfNumber(s: seq<bool>)
    ensures Number(s) < Pow2(|s|) && Binary(Number(s), |s|) == s
  {
    if s != [] {
      var n := |s| - 1;
      BinaryOfNumber(s[..n]);
      assert Number(s) / 2 == Number(s[..n]) && (Number(s) % 2 == 1 <==> s[n]);
      assert s == s[..n] + [s[n]];
    }
  }

  lemma Pow2Orders(m: nat, n: nat)
    requires Pow2(m) < Pow2(n)
    ensures m < n
  {
    if m >= n {
      Pow2Monotone(n, m);
    }
  }

  lemma Log2Is(m: nat, n: nat)
    requires m >= 1 && Pow2(n) <= m < Pow2(n + 1)
    ensures Log2(m) == n
  {
    Pow2Orders(n, Log2(m) + 1);
    Pow2Orders(Log2(m), n + 1);
  }

  lemma CodeIs(v: nat, n: nat, m: nat, s: seq<bool>)
    requires n == Log2(v + 1) && v + 1 == m + Pow2(n) && s == Binary(m, n)
    ensures UeCode(v) == seq(n, _ => false) + [true] + s
  {}

  lemma LogOf(v: nat, n: nat, m: nat)
    requires v + 1 == m + Pow2(n) && m < Pow2(n)
    ensures Log2(v + 1) == n
  {
    Log2Is(v + 1, n);
  }

  lemma CodeFrom(s: seq<bool>, n: nat, m: nat, v: nat)
    requires n == |s| && m == Number(s) && v + 1 == m + Pow2(n)
    ensures UeCode(v) == seq(n, _ => false) + [true] + s
  {
    BinaryOfNumber(s);
    LogOf(v, n, m);
    CodeIs(v, n, m, s);
  }

  lemma ReadCode(bits: seq<bool>, pos: nat, n: nat, s: seq<bool>, code: seq<bool>)
    requires pos + 2 * n + 1 <= |bits| && s == bits[pos + n + 1..pos + 2 * n + 1] && bits[pos + n]
    requires (forall k | pos <= k < pos + n :: !bits[k]) && code == seq(n, _ => false) + [true] + s
    ensures CodeStands(bits, pos, code) && |code| == 2 * n + 1
  {
    forall k | 0 <= k < |code| ensures bits[pos + k] == code[k] {
      if k > n {
        assert code[k] == s[k - n - 1];
      }
    }
  }

  lemma UeWasWritten(bits: seq<bool>, pos: nat, v: nat, end: nat)
    requires pos <= |bits| && UeAt(bits, pos) == Some((v, end))
    ensures CodeStands(bits, pos, UeCode(v)) && end == pos + |UeCode(v)|
  {
    var n := LeadingZeros(bits, pos);
    assert pos + n + 1 + n == pos + 2 * n + 1;
    var s := bits[pos + n + 1..pos + 2 * n + 1];
    assert |s| == n;
    CodeFrom(s, n, Number(s), v);
    ReadCode(bits, pos, n, s, UeCode(v));
  }

  /** The reader accepts exactly the codes of values up to 2^32-2, and ends behind the code it read. */
  lemma UeIff(bits: seq<bool>, pos: nat, v: nat, end: nat)
    requires pos <= |bits|
    ensures UeAt(bits, pos) == Some((v, end)) <==>
            v <= 4294967294 && CodeStands(bits, pos, UeCode(v)) && end == pos + |UeCode(v)|
  {
    if UeAt(bits, pos) == Some((v, end)) {
      UeFits(bits, pos);
      UeWasWritten(bits, pos, v, end);
    } else if v <= 4294967294 && CodeStands(bits, pos, UeCode(v)) {
      UeRoundTrip(bits, pos, v);
    }
  }
}
