/** The P/Q forward parity of gawk-server/wire/parity.go: what the two symbols are, and why any two erasures are repaired. */
module Parity {
  import opened Outcomes
  import opened Bytes
  import opened GaloisField

  const MAX_PARITY_SYMBOLS := 2
  const MAX_PARITY_DATA_CHUNKS := 255
  const MAX_CHUNK_PAYLOAD := 1180

  datatype Error = Unsupported | Unrecoverable

  // ----- columns: byte b of every chunk, zero-padded -----

  function At(c: Bytes, b: nat): Byte {
    if b < |c| then c[b] else ZERO
  }

  function Column(rows: seq<Bytes>, b: nat): seq<Byte> {
    seq(|rows|, (i: nat) requires i < |rows| => At(rows[i], b))
  }

  /** d0 ^ d1 ^ ... */
  function PSum(col: seq<Byte>): Byte {
    if col == [] then ZERO else Xor(PSum(col[..|col| - 1]), col[|col| - 1])
  }

  /** g^0*d0 ^ g^1*d1 ^ ... */
  function QSum(col: seq<Byte>): Byte {
    if col == [] then ZERO
    else Xor(QSum(col[..|col| - 1]), PolyMul(Exp(|col| - 1), col[|col| - 1]))
  }

  function PSymbol(rows: seq<Bytes>, width: nat): (s: Bytes)
    ensures |s| == width
  {
    seq(width, (b: nat) => PSum(Column(rows, b)))
  }

  function QSymbol(rows: seq<Bytes>, width: nat): (s: Bytes)
    ensures |s| == width
  {
    seq(width, (b: nat) => QSum(Column(rows, b)))
  }

  function Width(chunks: seq<Bytes>): (w: nat)
    ensures forall i | 0 <= i < |chunks| :: |chunks[i]| <= w
    ensures chunks == [] || exists i | 0 <= i < |chunks| :: |chunks[i]| == w
  {
    if chunks == [] then 0
    else
      var w := Width(chunks[..|chunks| - 1]);
      if |chunks[|chunks| - 1]| > w then |chunks[|chunks| - 1]| else w
  }

  /** What ComputeParity answers: min(k, n) symbols, P first. */
  function Symbols(chunks: seq<Bytes>, k: int): Result<seq<Bytes>, Error> {
    if k < 0 || k > MAX_PARITY_SYMBOLS then Err(Unsupported)
    else if k == 0 || chunks == [] then Ok([])
    else if |chunks| > MAX_PARITY_DATA_CHUNKS || Width(chunks) > MAX_CHUNK_PAYLOAD then Err(Unsupported)
    else if k == 1 || |chunks| == 1 then Ok([PSymbol(chunks, Width(chunks))])
    else Ok([PSymbol(chunks, Width(chunks)), QSymbol(chunks, Width(chunks))])
  }

  /** P alone is the k=1 code: the symbols of a lower level are a prefix of those of a higher one. */
  lemma LowerLevelIsPrefix(chunks: seq<Bytes>, k: nat, k': nat)
    requires k <= k' && Symbols(chunks, k').Ok?
    ensures Symbols(chunks, k).Ok? && Symbols(chunks, k).value <= Symbols(chunks, k').value
    ensures |Symbols(chunks, k).value| == if k <= |chunks| then k else |chunks|
  {}

  // ----- linearity -----

  function Difference(s: seq<Byte>, t: seq<Byte>): (d: seq<Byte>)
    requires |s| == |t|
    ensures |d| == |s|
  {
    seq(|s|, (i: nat) requires i < |s| => Xor(s[i], t[i]))
  }

  lemma {:induction false} PSumDifference(s: seq<Byte>, t: seq<Byte>)
    requires |s| == |t|
    ensures PSum(Difference(s, t)) == Xor(PSum(s), PSum(t))
  {
    if s == [] {
      XorZero(ZERO);
    } else {
      var n := |s| - 1;
      PSumDifference(s[..n], t[..n]);
      assert Difference(s, t)[..n] == Difference(s[..n], t[..n]);
      XorRegroup(PSum(s[..n]), PSum(t[..n]), s[n], t[n]);
    }
  }

  lemma {:induction false} QSumDifference(s: seq<Byte>, t: seq<Byte>)
    requires |s| == |t|
    ensures QSum(Difference(s, t)) == Xor(QSum(s), QSum(t))
  {
    if s == [] {
      XorZero(ZERO);
    } else {
      var n := |s| - 1;
      QSumDifference(s[..n], t[..n]);
      assert Difference(s, t)[..n] == Difference(s[..n], t[..n]);
      PolyMulDistributes(Exp(n), s[n], t[n]);
      XorRegroup(QSum(s[..n]), QSum(t[..n]), PolyMul(Exp(n), s[n]), PolyMul(Exp(n), t[n]));
    }
  }

  /** A column that is zero outside positions x and y. */
  ghost predicate ZeroOff(col: seq<Byte>, x: nat, y: nat) {
    forall i | 0 <= i < |col| && i != x && i != y :: col[i] == ZERO
  }

  function Entry(col: seq<Byte>, i: nat): Byte {
    if i < |col| then col[i] else ZERO
  }

  lemma {:induction false} PlainSumOfPair(col: seq<Byte>, x: nat, y: nat)
    requires x != y && ZeroOff(col, x, y)
    ensures PSum(col) == Xor(Entry(col, x), Entry(col, y))
  {
    XorZero(ZERO);
    if col != [] {
      var n := |col| - 1;
      PlainSumOfPair(col[..n], x, y);
      if n == x {
        XorZero(Entry(col, y));
        XorComm(Entry(col, y), col[n]);
      } else if n == y {
        XorZero(Entry(col, x));
      } else {
        XorZero(Xor(Entry(col, x), Entry(col, y)));
      }
    }
  }

  /** Adding the last term of a weighted sum that was zero outside two positions. */
  lemma AddToPair(px: Byte, py: Byte, last: Byte)
    ensures Xor(Xor(ZERO, py), last) == Xor(last, py)
    ensures Xor(Xor(px, ZERO), last) == Xor(px, last)
    ensures Xor(Xor(px, py), ZERO) == Xor(px, py)
  {
    XorZero(py);
    XorComm(py, last);
    XorZero(px);
    XorZero(Xor(px, py));
  }

  function Weighted(col: seq<Byte>, i: nat): Byte {
    PolyMul(Exp(i), Entry(col, i))
  }

  lemma {:induction false} WeightedSumOfPair(col: seq<Byte>, x: nat, y: nat)
    requires x != y && ZeroOff(col, x, y)
    ensures QSum(col) == Xor(Weighted(col, x), Weighted(col, y))
  {
    PolyMulZero(Exp(x));
    PolyMulZero(Exp(y));
    if col == [] {
      XorZero(ZERO);
    } else {
      var n := |col| - 1;
      WeightedSumOfPair(col[..n], x, y);
      PolyMulZero(Exp(n));
      var px, py, last := Weighted(col, x), Weighted(col, y), Weighted(col, n);
      AddToPair(px, py, last);
      var before := QSum(col[..n]);
      assert QSum(col) == Xor(before, last);
      if n == x {
        assert before == Xor(ZERO, py);
      } else if n == y {
        assert before == Xor(px, ZERO);
      } else {
        assert before == Xor(px, py) && last == ZERO;
      }
    }
  }

  lemma SumsOfPair(col: seq<Byte>, x: nat, y: nat)
    requires x != y && ZeroOff(col, x, y)
    ensures PSum(col) == Xor(Entry(col, x), Entry(col, y))
    ensures QSum(col) == Xor(PolyMul(Exp(x), Entry(col, x)), PolyMul(Exp(y), Entry(col, y)))
  {
    PlainSumOfPair(col, x, y);
    WeightedSumOfPair(col, x, y);
  }

  // ----- uniqueness: the code is MDS -----

  /** A column's only term vanishes with either of its sums. */
  lemma LoneTerm(v: Byte, x: nat, beyond: nat)
    ensures Xor(v, ZERO) == v && PolyMul(Exp(beyond), ZERO) == ZERO
    ensures Xor(PolyMul(Exp(x), v), ZERO) == PolyMul(Exp(x), v)
    ensures PolyMul(Exp(x), v) == ZERO ==> v == ZERO
  {
    XorZero(v);
    PolyMulZero(Exp(beyond));
    XorZero(PolyMul(Exp(x), v));
    if v != ZERO {
      PolyMulZero(Exp(x));
      PolyMulComm(Exp(x), v);
      PolyMulComm(Exp(x), ZERO);
      ExpNonZero(x);
      if PolyMul(Exp(x), v) == ZERO {
        PolyMulCancel(v, ZERO, Exp(x));
      }
    }
  }

  /** One unknown in one of the two equations is determined. */
  lemma OneErasureUnique(s: seq<Byte>, t: seq<Byte>, x: nat)
    requires |s| == |t| <= MAX_PARITY_DATA_CHUNKS && x < |s|
    requires forall i | 0 <= i < |s| && i != x :: s[i] == t[i]
    requires PSum(s) == PSum(t) || QSum(s) == QSum(t)
    ensures s == t
  {
    var d := Difference(s, t);
    forall i | 0 <= i < |d| && i != x ensures d[i] == ZERO {
      XorZero(s[i]);
    }
    PSumDifference(s, t);
    QSumDifference(s, t);
    SumsOfPair(d, x, |d|);
    XorZero(PSum(s));
    XorZero(QSum(s));
    LoneTerm(d[x], x, |d|);
    XorZeroIsEqual(s[x], t[x]);
  }

  /** Two unknowns in both equations are determined, because the two coefficients differ. */
  lemma TwoErasuresUnique(s: seq<Byte>, t: seq<Byte>, x: nat, y: nat)
    requires |s| == |t| <= MAX_PARITY_DATA_CHUNKS && x < y < |s|
    requires forall i | 0 <= i < |s| && i != x && i != y :: s[i] == t[i]
    requires PSum(s) == PSum(t) && QSum(s) == QSum(t)
    ensures s == t
  {
    var d := Difference(s, t);
    forall i | 0 <= i < |d| && i != x && i != y ensures d[i] == ZERO {
      XorZero(s[i]);
    }
    PSumDifference(s, t);
    QSumDifference(s, t);
    SumsOfPair(d, x, y);
    XorZero(PSum(s));
    XorZero(QSum(s));
    XorZeroIsEqual(d[x], d[y]);
    XorZeroIsEqual(PolyMul(Exp(x), d[x]), PolyMul(Exp(y), d[x]));
    if d[x] != ZERO {
      PolyMulCancel(Exp(x), Exp(y), d[x]);
      ExpInjective(x, y);
    }
    XorZeroIsEqual(s[x], t[x]);
    XorZeroIsEqual(s[y], t[y]);
  }
}
