/** Bytes as eight bits, most significant first, with the operations the wire code applies to them. */
module Bytes {

  function Pow2(n: nat): (p: nat)
    ensures p > 0
  {
    if n == 0 then 1 else 2 * Pow2(n - 1)
  }

  /** The unsigned number written by `bits`, most significant first. */
  function Number(bits: seq<bool>): (v: nat)
    ensures v < Pow2(|bits|)
  {
    if bits == [] then 0
    else 2 * Number(bits[..|bits| - 1]) + (if bits[|bits| - 1] then 1 else 0)
  }

  lemma {:induction false} NumberInjective(s: seq<bool>, t: seq<bool>)
    requires |s| == |t| && Number(s) == Number(t)
    ensures s == t
  {
    if s != [] {
      var n := |s| - 1;
      NumberInjective(s[..n], t[..n]);
      assert s == s[..n] + [s[n]] && t == t[..n] + [t[n]];
    }
  }

  lemma {:induction false} NumberZero(s: seq<bool>)
    ensures Number(s) == 0 <==> forall k | 0 <= k < |s| :: !s[k]
  {
    if s != [] {
      var n := |s| - 1;
      NumberZero(s[..n]);
      assert s == s[..n] + [s[n]];
    }
  }

  datatype Byte = Byte(b7: bool, b6: bool, b5: bool, b4: bool, b3: bool, b2: bool, b1: bool, b0: bool) {

    function Bits(): seq<bool> {
      [b7, b6, b5, b4, b3, b2, b1, b0]
    }

    /** The unsigned value; array and table indexes use it. */
    function Val(): (v: nat)
      ensures v < 256
    {
      assert Pow2(8) == 256;
      Number(Bits())
    }

    /** Bit k counted from the most significant end: (b >> (7-k)) & 1. */
    predicate Bit(k: nat)
      requires k < 8
    {
      match k
      case 0 => b7
      case 1 => b6
      case 2 => b5
      case 3 => b4
      case 4 => b3
      case 5 => b2
      case 6 => b1
      case _ => b0
    }
  }

  type Bytes = seq<Byte>

  const ZERO := Byte(false, false, false, false, false, false, false, false)
  const ONE := Byte(false, false, false, false, false, false, false, true)
  const THREE := Byte(false, false, false, false, false, false, true, true)

  /** x ^ y */
  function Xor(x: Byte, y: Byte): Byte {
    Byte(x.b7 != y.b7, x.b6 != y.b6, x.b5 != y.b5, x.b4 != y.b4,
         x.b3 != y.b3, x.b2 != y.b2, x.b1 != y.b1, x.b0 != y.b0)
  }

  lemma XorZero(x: Byte)
    ensures Xor(x, ZERO) == x && Xor(ZERO, x) == x && Xor(x, x) == ZERO
  {}

  lemma XorComm(x: Byte, y: Byte)
    ensures Xor(x, y) == Xor(y, x)
  {}

  lemma XorAssoc(x: Byte, y: Byte, z: Byte)
    ensures Xor(Xor(x, y), z) == Xor(x, Xor(y, z))
  {}

  lemma XorRegroup(x: Byte, y: Byte, u: Byte, v: Byte)
    ensures Xor(Xor(x, y), Xor(u, v)) == Xor(Xor(x, u), Xor(y, v))
  {}

  lemma XorCancel(x: Byte, y: Byte)
    ensures Xor(Xor(x, y), y) == x && Xor(y, Xor(x, y)) == x
  {}

  lemma XorZeroIsEqual(x: Byte, y: Byte)
    requires Xor(x, y) == ZERO
    ensures x == y
  {}

  lemma SameBits(x: Byte, y: Byte)
    requires forall k: nat | k < 8 :: x.Bit(k) == y.Bit(k)
    ensures x == y
  {
    assert x.Bit(0) == y.Bit(0) && x.Bit(1) == y.Bit(1) && x.Bit(2) == y.Bit(2) && x.Bit(3) == y.Bit(3);
    assert x.Bit(4) == y.Bit(4) && x.Bit(5) == y.Bit(5) && x.Bit(6) == y.Bit(6) && x.Bit(7) == y.Bit(7);
  }

  lemma ValInjective(x: Byte, y: Byte)
    requires x.Val() == y.Val()
    ensures x == y
  {
    NumberInjective(x.Bits(), y.Bits());
    BitsInjective(x, y);
  }

  lemma BitsInjective(x: Byte, y: Byte)
    requires x.Bits() == y.Bits()
    ensures x == y
  {
    var s, t := x.Bits(), y.Bits();
    assert s[0] == t[0] && s[1] == t[1] && s[2] == t[2] && s[3] == t[3];
    assert s[4] == t[4] && s[5] == t[5] && s[6] == t[6] && s[7] == t[7];
  }

  lemma ValZero(x: Byte)
    ensures x.Val() == 0 <==> x == ZERO
  {
    NumberZero(x.Bits());
    NumberZero(ZERO.Bits());
    if x.Val() == 0 {
      ValInjective(x, ZERO);
    }
  }

  // ----- what a byte's bits are worth -----

  function One(b: bool): nat {
    if b then 1 else 0
  }

  lemma PushBit(bits: seq<bool>, b: bool)
    ensures Number(bits + [b]) == 2 * Number(bits) + One(b)
  {
    assert (bits + [b])[..|bits|] == bits;
  }

  lemma ThreeMore(bits: seq<bool>, b2: bool, b1: bool, b0: bool)
    ensures Number(bits + [b2, b1, b0]) == 8 * Number(bits) + 4 * One(b2) + 2 * One(b1) + One(b0)
  {
    PushBit(bits, b2);
    PushBit(bits + [b2], b1);
    PushBit(bits + [b2] + [b1], b0);
    assert bits + [b2, b1, b0] == bits + [b2] + [b1] + [b0];
  }

  lemma TwoBits(b1: bool, b0: bool)
    ensures Number([b1, b0]) == 2 * One(b1) + One(b0)
  {
    PushBit([], b1);
    PushBit([b1], b0);
    assert [] + [b1] == [b1] && [b1] + [b0] == [b1, b0];
  }

  lemma FiveBits(b4: bool, b3: bool, b2: bool, b1: bool, b0: bool)
    ensures Number([b4, b3, b2, b1, b0]) == 16 * One(b4) + 8 * One(b3) + 4 * One(b2) + 2 * One(b1) + One(b0)
  {
    TwoBits(b4, b3);
    ThreeMore([b4, b3], b2, b1, b0);
    assert [b4, b3, b2, b1, b0] == [b4, b3] + [b2, b1, b0];
  }

  lemma TopAndLow(h: Byte)
    ensures h.Val() == Number([h.b7, h.b6, h.b5, h.b4, h.b3] + [h.b2, h.b1, h.b0])
  {
    assert h.Bits() == [h.b7, h.b6, h.b5, h.b4, h.b3] + [h.b2, h.b1, h.b0];
  }

  lemma ByteValue(h: Byte)
    ensures h.Val() == 128 * One(h.b7) + 64 * One(h.b6) + 32 * One(h.b5) + 16 * One(h.b4) + 8 * One(h.b3)
                       + 4 * One(h.b2) + 2 * One(h.b1) + One(h.b0)
  {
    TopAndLow(h);
    ThreeMore([h.b7, h.b6, h.b5, h.b4, h.b3], h.b2, h.b1, h.b0);
    FiveBits(h.b7, h.b6, h.b5, h.b4, h.b3);
  }

  lemma DivTwice(x: nat, b: nat, p: nat)
    requires p >= 1 && b < 2
    ensures (2 * x + b) / (2 * p) == x / p
  {
    var q, r := x / p, x % p;
    assert 2 * x + b == q * (2 * p) + (2 * r + b);
    DivUnique(2 * x + b, 2 * p, q, 2 * r + b);
  }

  lemma DivUnique(a: nat, n: nat, q: int, r: nat)
    requires n >= 1 && a == q * n + r && r < n
    ensures a / n == q
  {
    var d := a / n - q;
    assert d * n == r - a % n;
    TimesAtLeast(d, n);
  }

  lemma TimesAtLeast(d: int, n: int)
    requires n >= 0
    ensures (d >= 1 ==> d * n >= n) && (d <= -1 ==> d * n <= -n)
  {
    if d >= 1 {
      assert d * n == n + (d - 1) * n;
    } else if d <= -1 {
      assert d * n == -n + (d + 1) * n;
    }
  }

  /** The front of a number's bits is the number shifted right. */
  lemma {:induction false} FrontIsShift(bits: seq<bool>, n: nat, low: nat)
    requires n + low == |bits|
    ensures Number(bits[..n]) == Number(bits) / Pow2(low)
    decreases low
  {
    if low == 0 {
      assert bits[..n] == bits;
    } else {
      var m := |bits| - 1;
      FrontIsShift(bits[..m], n, low - 1);
      assert bits[..m][..n] == bits[..n];
      DivTwice(Number(bits[..m]), One(bits[m]), Pow2(low - 1));
    }
  }

  /** Bit k is worth 2^(7-k): it is the byte shifted right by 7-k, modulo 2. */
  lemma BitIs(h: Byte, k: nat)
    requires k < 8
    ensures h.Bit(k) <==> h.Val() / Pow2(7 - k) % 2 == 1
  {
    FrontIsShift(h.Bits(), k + 1, 7 - k);
    FrontIsOdd(h.Bits(), k);
    BitOfBits(h, k);
  }

  lemma FrontIsOdd(bits: seq<bool>, k: nat)
    requires k < |bits|
    ensures Number(bits[..k + 1]) % 2 == One(bits[k])
  {
    PushBit(bits[..k], bits[k]);
    assert bits[..k + 1] == bits[..k] + [bits[k]];
    Odd(Number(bits[..k]), bits[k]);
  }

  lemma BitOfBits(h: Byte, k: nat)
    requires k < 8
    ensures h.Bits()[k] == h.Bit(k)
  {}

  lemma Odd(x: nat, b: bool)
    ensures (2 * x + One(b)) % 2 == One(b)
  {}
}
