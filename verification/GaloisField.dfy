/** GF(2^8) with primitive polynomial 0x11D and generator 2, as gawk-server/wire/parity.go tabulates it. */
module GaloisField {
  import opened Bytes

  // ----- the reference: polynomials over GF(2) modulo 0x11D -----

  /** Multiplication by x modulo 0x11D: shift left, and subtract 0x11D when degree 8 appears. */
  function XTime(x: Byte): Byte {
    Byte(x.b6, x.b5, x.b4, x.b3 != x.b7, x.b2 != x.b7, x.b1 != x.b7, x.b0, x.b7)
  }

  function Scale(a: Byte, bit: bool): Byte {
    if bit then a else ZERO
  }

  /** One Horner step of a * b: the next lower coefficient of b enters the accumulator. */
  function Horner(acc: Byte, a: Byte, bit: bool): Byte {
    Xor(XTime(acc), Scale(a, bit))
  }

  /** The product of the polynomial a with the one whose coefficients are `bits`, highest degree first. */
  function PolyMulBits(a: Byte, bits: seq<bool>): Byte {
    if bits == [] then ZERO
    else Horner(PolyMulBits(a, bits[..|bits| - 1]), a, bits[|bits| - 1])
  }

  function Coefficients(b: Byte): seq<bool> {
    b.Bits()
  }

  /** The product of the polynomials a and b modulo 0x11D. */
  function PolyMul(a: Byte, b: Byte): Byte {
    PolyMulBits(a, Coefficients(b))
  }

  /** x^i modulo 0x11D, by repeated multiplication by x. */
  function Exp(i: nat): Byte {
    if i == 0 then ONE else XTime(Exp(i - 1))
  }

  lemma XTimeLinear(x: Byte, y: Byte)
    ensures XTime(Xor(x, y)) == Xor(XTime(x), XTime(y))
  {}

  lemma XTimeInjective(x: Byte, y: Byte)
    requires XTime(x) == XTime(y)
    ensures x == y
  {}

  lemma HornerXTime(acc: Byte, a: Byte, bit: bool)
    ensures Horner(XTime(acc), XTime(a), bit) == XTime(Horner(acc, a, bit))
  {
    XTimeLinear(XTime(acc), Scale(a, bit));
  }

  lemma HornerLinear(acc: Byte, a: Byte, acc': Byte, a': Byte, bit: bool)
    ensures Horner(Xor(acc, acc'), Xor(a, a'), bit) == Xor(Horner(acc, a, bit), Horner(acc', a', bit))
  {
    XTimeLinear(acc, acc');
    assert Scale(Xor(a, a'), bit) == Xor(Scale(a, bit), Scale(a', bit));
    XorRegroup(XTime(acc), XTime(acc'), Scale(a, bit), Scale(a', bit));
  }

  lemma {:induction false} PolyMulBitsXTime(a: Byte, bits: seq<bool>)
    ensures PolyMulBits(XTime(a), bits) == XTime(PolyMulBits(a, bits))
  {
    if bits != [] {
      PolyMulBitsXTime(a, bits[..|bits| - 1]);
      HornerXTime(PolyMulBits(a, bits[..|bits| - 1]), a, bits[|bits| - 1]);
    }
  }

  lemma {:induction false} PolyMulBitsLinear(a: Byte, a': Byte, bits: seq<bool>)
    ensures PolyMulBits(Xor(a, a'), bits) == Xor(PolyMulBits(a, bits), PolyMulBits(a', bits))
  {
    if bits != [] {
      var rest := bits[..|bits| - 1];
      PolyMulBitsLinear(a, a', rest);
      HornerLinear(PolyMulBits(a, rest), a, PolyMulBits(a', rest), a', bits[|bits| - 1]);
    }
  }

  /** Multiplication distributes over XOR, the field's addition. */
  lemma PolyMulLinear(a: Byte, a': Byte, b: Byte)
    ensures PolyMul(Xor(a, a'), b) == Xor(PolyMul(a, b), PolyMul(a', b))
  {
    PolyMulBitsLinear(a, a', Coefficients(b));
  }

  lemma {:induction false} PolyMulBitsZero(bits: seq<bool>)
    ensures PolyMulBits(ZERO, bits) == ZERO
  {
    if bits != [] {
      PolyMulBitsZero(bits[..|bits| - 1]);
    }
  }

  lemma PolyMulZero(a: Byte)
    ensures PolyMul(ZERO, a) == ZERO && PolyMul(a, ZERO) == ZERO
  {
    PolyMulBitsZero(Coefficients(a));
    PolyMulBitsNone(a, 8);
    assert Coefficients(ZERO) == seq(8, _ => false);
  }

  lemma {:induction false} PolyMulBitsNone(a: Byte, n: nat)
    ensures PolyMulBits(a, seq(n, _ => false)) == ZERO
  {
    if n != 0 {
      PolyMulBitsNone(a, n - 1);
      assert seq(n, _ => false)[..n - 1] == seq(n - 1, _ => false);
    }
  }

  /** The byte whose low bits are `bits`. */
  ghost predicate LowBits(x: Byte, bits: seq<bool>)
    requires |bits| <= 8
  {
    forall k: nat | k < 8 :: x.Bit(k) == (k >= 8 - |bits| && bits[k - (8 - |bits|)])
  }

  lemma ShiftIn(acc: Byte, bit: bool)
    requires !acc.Bit(0)
    ensures Horner(acc, ONE, bit).Bit(7) == bit
    ensures forall k: nat | k < 7 :: Horner(acc, ONE, bit).Bit(k) == acc.Bit(k + 1)
  {}

  lemma {:induction false} UnitBits(bits: seq<bool>)
    requires |bits| <= 8
    ensures LowBits(PolyMulBits(ONE, bits), bits)
  {
    if bits != [] {
      var init := bits[..|bits| - 1];
      UnitBits(init);
      ShiftIn(PolyMulBits(ONE, init), bits[|bits| - 1]);
    }
  }

  lemma CoefficientsAreBits(b: Byte, k: nat)
    requires k < 8
    ensures |Coefficients(b)| == 8 && Coefficients(b)[k] == b.Bit(k)
  {}

  lemma PolyMulUnit(b: Byte)
    ensures PolyMul(ONE, b) == b
  {
    UnitBits(Coefficients(b));
    forall k: nat | k < 8 ensures PolyMul(ONE, b).Bit(k) == b.Bit(k) {
      CoefficientsAreBits(b, k);
    }
    SameBits(PolyMul(ONE, b), b);
  }

  // ----- powers of the generator -----

  lemma {:induction false} PolyMulExp(i: nat, j: nat)
    ensures PolyMul(Exp(i), Exp(j)) == Exp(i + j)
  {
    if i == 0 {
      PolyMulUnit(Exp(j));
    } else {
      PolyMulBitsXTime(Exp(i - 1), Coefficients(Exp(j)));
      PolyMulExp(i - 1, j);
    }
  }

  lemma {:induction false} ExpNonZero(i: nat)
    ensures Exp(i) != ZERO
  {
    if i != 0 {
      ExpNonZero(i - 1);
    }
  }

  /** Multiplying x by the generator 15 times reaches y, and 1 is not met on the way. */
  predicate Segment(x: Byte, y: Byte) {
    var x1 := XTime(x);
    var x2 := XTime(x1);
    var x3 := XTime(x2);
    var x4 := XTime(x3);
    var x5 := XTime(x4);
    var x6 := XTime(x5);
    var x7 := XTime(x6);
    var x8 := XTime(x7);
    var x9 := XTime(x8);
    var x10 := XTime(x9);
    var x11 := XTime(x10);
    var x12 := XTime(x11);
    var x13 := XTime(x12);
    var x14 := XTime(x13);
    && x1 != ONE && x2 != ONE && x3 != ONE && x4 != ONE && x5 != ONE && x6 != ONE && x7 != ONE
    && x8 != ONE && x9 != ONE && x10 != ONE && x11 != ONE && x12 != ONE && x13 != ONE && x14 != ONE
    && y == XTime(x14)
  }

  lemma Advance(i: nat, x: Byte, y: Byte)
    requires Exp(i) == x && Segment(x, y)
    ensures Exp(i + 15) == y
    ensures forall d | i < d < i + 15 :: Exp(d) != ONE
  {
    assert Exp(i + 1) == XTime(Exp(i)) && Exp(i + 2) == XTime(Exp(i + 1)) && Exp(i + 3) == XTime(Exp(i + 2));
    assert Exp(i + 4) == XTime(Exp(i + 3)) && Exp(i + 5) == XTime(Exp(i + 4)) && Exp(i + 6) == XTime(Exp(i + 5));
    assert Exp(i + 7) == XTime(Exp(i + 6)) && Exp(i + 8) == XTime(Exp(i + 7)) && Exp(i + 9) == XTime(Exp(i + 8));
    assert Exp(i + 10) == XTime(Exp(i + 9)) && Exp(i + 11) == XTime(Exp(i + 10)) && Exp(i + 12) == XTime(Exp(i + 11));
    assert Exp(i + 13) == XTime(Exp(i + 12)) && Exp(i + 14) == XTime(Exp(i + 13)) && Exp(i + 15) == XTime(Exp(i + 14));
  }

  /** Every fifteenth power on the way round, ending where it began. */
  function Milestone(k: nat): Byte {
    match k
    case 0 => ONE
    case 1 => Byte(false, false, true, false, false, true, true, false)
    case 2 => Byte(false, true, true, false, false, false, false, false)
    case 3 => Byte(true, true, false, false, false, false, false, true)
    case 4 => Byte(true, false, true, true, true, false, false, true)
    case 5 => Byte(false, false, false, false, true, true, true, true)
    case 6 => Byte(true, true, false, true, true, true, true, true)
    case 7 => Byte(false, false, false, true, true, false, true, false)
    case 8 => Byte(false, false, true, true, true, false, true, true)
    case 9 => Byte(true, false, true, false, true, false, false, true)
    case 10 => Byte(false, true, false, true, false, true, false, true)
    case 11 => Byte(true, false, false, true, false, false, false, true)
    case 12 => Byte(true, false, false, true, false, true, true, false)
    case 13 => Byte(false, true, true, false, false, true, false, false)
    case 14 => Byte(false, true, false, true, true, false, false, true)
    case 15 => Byte(false, false, true, false, false, true, false, false)
    case 16 => Byte(false, false, true, false, true, true, false, false)
    case _ => ONE
  }

  lemma FirstMilestonesConnect(k: nat)
    requires k < 6
    ensures Segment(Milestone(k), Milestone(k + 1)) && Milestone(k + 1) != ONE
  {
  }

  lemma MiddleMilestonesConnect(k: nat)
    requires 6 <= k < 12
    ensures Segment(Milestone(k), Milestone(k + 1)) && Milestone(k + 1) != ONE
  {
  }

  lemma LastMilestonesConnect(k: nat)
    requires 12 <= k < 17
    ensures Segment(Milestone(k), Milestone(k + 1)) && (k < 16 ==> Milestone(k + 1) != ONE)
  {
  }

  lemma MilestonesConnect(k: nat)
    requires k < 17
    ensures Segment(Milestone(k), Milestone(k + 1)) && (k < 16 ==> Milestone(k + 1) != ONE)
  {
    if k < 6 {
      FirstMilestonesConnect(k);
    } else if k < 12 {
      MiddleMilestonesConnect(k);
    } else {
      LastMilestonesConnect(k);
    }
  }

  lemma {:induction false} Along(i: nat, k: nat)
    requires Exp(i) == ONE && k <= 17
    ensures Exp(i + 15 * k) == Milestone(k)
    ensures forall d | i < d < i + 15 * k :: Exp(d) != ONE
  {
    if k > 0 {
      Along(i, k - 1);
      MilestonesConnect(k - 1);
      Advance(i + 15 * (k - 1), Milestone(k - 1), Milestone(k));
    }
  }

  /** From any power equal to 1, the next power equal to 1 is 255 steps on. */
  lemma Orbit(i: nat)
    requires Exp(i) == ONE
    ensures Exp(i + 255) == ONE
    ensures forall d | i < d < i + 255 :: Exp(d) != ONE
  {
    Along(i, 17);
  }

  lemma {:induction false} ExpPeriod(i: nat)
    ensures Exp(i + 255) == Exp(i)
  {
    if i == 0 {
      Orbit(i);
    } else {
      ExpPeriod(i - 1);
    }
  }

  lemma {:induction false} ExpInjective(i: nat, j: nat)
    requires i < j < 255
    ensures Exp(i) != Exp(j)
  {
    if i == 0 {
      Orbit(i);
    } else {
      ExpInjective(i - 1, j - 1);
      if Exp(i) == Exp(j) {
        XTimeInjective(Exp(i - 1), Exp(j - 1));
      }
    }
  }

  // ----- every non-zero byte is a power of the generator -----

  function Upto(n: nat): (s: set<int>)
    ensures |s| == n && forall v :: v in s <==> 1 <= v <= n
  {
    if n == 0 then {} else Upto(n - 1) + {n}
  }

  lemma ExpValInjective(i: nat, j: nat)
    requires i < j < 255
    ensures Exp(i).Val() != Exp(j).Val()
  {
    ExpInjective(i, j);
    if Exp(i).Val() == Exp(j).Val() {
      ValInjective(Exp(i), Exp(j));
    }
  }

  function Powers(n: nat): set<int> {
    if n == 0 then {} else Powers(n - 1) + {Exp(n - 1).Val()}
  }

  lemma {:induction false} PowersMember(n: nat, v: int) returns (i: nat)
    requires v in Powers(n)
    ensures i < n && v == Exp(i).Val()
  {
    if v in Powers(n - 1) {
      i := PowersMember(n - 1, v);
    } else {
      i := n - 1;
    }
  }

  lemma NewPower(n: nat)
    requires n < 255
    ensures Exp(n).Val() !in Powers(n) && Exp(n).Val() != 0
  {
    if Exp(n).Val() in Powers(n) {
      var i := PowersMember(n, Exp(n).Val());
      ExpValInjective(i, n);
    }
    ExpNonZero(n);
    ValZero(Exp(n));
  }

  lemma {:induction false} PowersCount(n: nat)
    requires n <= 255
    ensures |Powers(n)| == n
    ensures Powers(n) <= Upto(255)
  {
    if n != 0 {
      PowersCount(n - 1);
      NewPower(n - 1);
    }
  }

  lemma SubsetOfSameSize(s: set<int>, t: set<int>)
    requires s <= t && |s| == |t|
    ensures s == t
  {
    assert |t - s| == |t| - |s|;
  }

  /** The discrete logarithm exists for every non-zero byte value. */
  lemma LogExists(v: int)
    requires 1 <= v <= 255
    ensures exists i :: 0 <= i < 255 && Exp(i).Val() == v
  {
    PowersCount(255);
    SubsetOfSameSize(Powers(255), Upto(255));
    var i := PowersMember(255, v);
  }

  lemma PowerOf(b: Byte) returns (i: nat)
    requires b != ZERO
    ensures i < 255 && Exp(i) == b
  {
    ValZero(b);
    LogExists(b.Val());
    i :| 0 <= i < 255 && Exp(i).Val() == b.Val();
    ValInjective(Exp(i), b);
  }

  // ----- the field laws -----

  lemma PolyMulComm(a: Byte, b: Byte)
    ensures PolyMul(a, b) == PolyMul(b, a)
  {
    if a == ZERO || b == ZERO {
      PolyMulZero(a);
      PolyMulZero(b);
    } else {
      var i := PowerOf(a);
      var j := PowerOf(b);
      PolyMulExp(i, j);
      PolyMulExp(j, i);
    }
  }

  lemma PolyMulAssoc(a: Byte, b: Byte, c: Byte)
    ensures PolyMul(PolyMul(a, b), c) == PolyMul(a, PolyMul(b, c))
  {
    PolyMulZero(a);
    PolyMulZero(b);
    PolyMulZero(c);
    PolyMulZero(PolyMul(a, b));
    PolyMulZero(PolyMul(b, c));
    if a != ZERO && b != ZERO && c != ZERO {
      var i := PowerOf(a);
      var j := PowerOf(b);
      var k := PowerOf(c);
      PolyMulExp(i, j);
      PolyMulExp(j, k);
      PolyMulExp(i + j, k);
      PolyMulExp(i, j + k);
    }
  }

  lemma PolyMulDistributes(a: Byte, b: Byte, c: Byte)
    ensures PolyMul(a, Xor(b, c)) == Xor(PolyMul(a, b), PolyMul(a, c))
  {
    PolyMulComm(a, Xor(b, c));
    PolyMulComm(a, b);
    PolyMulComm(a, c);
    PolyMulLinear(b, c, a);
  }

  /** There are no zero divisors, so a non-zero factor can be cancelled. */
  lemma PolyMulCancel(a: Byte, b: Byte, c: Byte)
    requires c != ZERO && PolyMul(a, c) == PolyMul(b, c)
    ensures a == b
  {
    PolyMulLinear(a, b, c);
    XorZero(PolyMul(a, c));
    if Xor(a, b) != ZERO {
      var i := PowerOf(Xor(a, b));
      var j := PowerOf(c);
      PolyMulExp(i, j);
      ExpNonZero(i + j);
    }
    XorZeroIsEqual(a, b);
  }

  // ----- the tables -----

  /** x <<= 1, then x ^= 0x1d when the bit shifted out was set: multiplication by x modulo 0x11D. */
  function Double(x: Byte): (r: Byte)
    ensures r == XTime(x)
  {
    var shifted := Byte(x.b6, x.b5, x.b4, x.b3, x.b2, x.b1, x.b0, false);
    if x.b7 then Xor(shifted, Byte(false, false, false, true, true, true, false, true)) else shifted
  }

  /** The first n powers are tabulated in both directions. */
  ghost predicate Filled(exp: seq<Byte>, log: seq<nat>, n: nat)
    requires n <= 255
  {
    && |exp| == 512 && |log| == 256
    && (forall k | 0 <= k < n :: exp[k] == Exp(k))
    && (forall k | 0 <= k < n :: log[Exp(k).Val()] == k)
    && (forall v | 0 <= v < 256 :: log[v] < 255)
  }

  lemma LogComplete(exp: seq<Byte>, log: seq<nat>)
    requires Filled(exp, log, 255)
    ensures forall v | 1 <= v < 256 :: Exp(log[v]).Val() == v
  {
    forall v | 1 <= v < 256 ensures Exp(log[v]).Val() == v {
      LogExists(v);
    }
  }

  /** gfExp and gfLog, and the arithmetic that looks things up in them. */
  class Tables {
    const exp: array<Byte>
    const log: array<nat>

    ghost predicate Valid()
      reads exp, log
    {
      && exp.Length == 512 && log.Length == 256
      && (forall i | 0 <= i < 512 :: exp[i] == Exp(i))
      && (forall v | 0 <= v < 256 :: log[v] < 255)
      && (forall v | 1 <= v < 256 :: Exp(log[v]).Val() == v)
    }

    constructor ()
      ensures Valid() && fresh(exp) && fresh(log)
    {
      exp := new Byte[512](_ => ZERO);
      log := new nat[256](_ => 0);
      new;
      FillCycle();
      LogComplete(exp[..], log[..]);
      RepeatCycle();
    }

    method Record(i: nat, x: Byte)
      requires i < 255 && x == Exp(i)
      requires Filled(exp[..], log[..], i)
      modifies exp, log
      ensures Filled(exp[..], log[..], i + 1)
    {
      exp[i] := x;
      var v := x.Val();
      log[v] := i;
      forall k | 0 <= k < i ensures Exp(k).Val() != v {
        ExpValInjective(k, i);
      }
    }

    /** init's first loop */
    method FillCycle()
      requires exp.Length == 512 && log.Length == 256
      requires forall v | 0 <= v < 256 :: log[v] == 0
      modifies exp, log
      ensures Filled(exp[..], log[..], 255)
    {
      var x := ONE;
      var i := 0;
      while i < 255
        invariant 0 <= i <= 255
        invariant x == Exp(i)
        invariant Filled(exp[..], log[..], i)
      {
        Record(i, x);
        x := Double(x);
        i := i + 1;
      }
    }

    /** init's second loop: the cycle once more, so that exponent sums up to 508 need no modulo. */
    method RepeatCycle()
      requires exp.Length == 512
      requires forall k | 0 <= k < 255 :: exp[k] == Exp(k)
      modifies exp
      ensures forall k | 0 <= k < 512 :: exp[k] == Exp(k)
    {
      var i := 255;
      while i < 512
        invariant 255 <= i <= 512
        invariant forall k | 0 <= k < i :: exp[k] == Exp(k)
      {
        ExpPeriod(i - 255);
        exp[i] := exp[i - 255];
        i := i + 1;
      }
    }

    lemma LogSound(a: Byte)
      requires Valid() && a != ZERO
      ensures Exp(log[a.Val()]) == a
    {
      ValZero(a);
      ValInjective(Exp(log[a.Val()]), a);
    }

    /** gfMul */
    function Mul(a: Byte, b: Byte): (r: Byte)
      requires Valid()
      reads exp, log
      ensures r == PolyMul(a, b)
    {
      if a == ZERO || b == ZERO then
        PolyMulZero(a);
        PolyMulZero(b);
        ZERO
      else
        LogSound(a);
        LogSound(b);
        PolyMulExp(log[a.Val()], log[b.Val()]);
        exp[log[a.Val()] + log[b.Val()]]
    }

    /** gfDiv, which panics on a zero divisor. */
    function Div(a: Byte, b: Byte): (r: Byte)
      requires Valid() && b != ZERO
      reads exp, log
      ensures PolyMul(r, b) == a
    {
      if a == ZERO then
        PolyMulZero(b);
        ZERO
      else
        LogSound(a);
        LogSound(b);
        assert log[a.Val()] < 255 && log[b.Val()] < 255;
        PolyMulExp(log[a.Val()] + 255 - log[b.Val()], log[b.Val()]);
        ExpPeriod(log[a.Val()]);
        exp[log[a.Val()] + 255 - log[b.Val()]]
    }

    /** gfPow2 */
    function Pow2(i: nat): (r: Byte)
      requires Valid()
      reads exp, log
      ensures r == Exp(i)
    {
      ExpCycle(i);
      exp[i % 255]
    }
  }

  lemma {:induction false} ExpCycle(i: nat)
    ensures Exp(i) == Exp(i % 255)
  {
    if i >= 255 {
      var j: nat := i - 255;
      ExpCycle(j);
      ExpPeriod(j);
      assert i % 255 == j % 255;
    }
  }
}
