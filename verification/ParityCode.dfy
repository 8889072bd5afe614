/** ComputeParity and RecoverChunks of gawk-server/wire/parity.go, and the round trip between them. */
module ParityCode {
  import opened Outcomes
  import opened Bytes
  import opened GaloisField
  import opened Parity

  // ----- computing -----

  function XorRow(acc: Bytes, c: Bytes): (r: Bytes)
    ensures |r| == |acc|
  {
    seq(|acc|, (b: nat) requires b < |acc| => Xor(acc[b], At(c, b)))
  }

  function Scaled(coeff: Byte, c: Bytes): (r: Bytes)
    ensures |r| == |c|
  {
    seq(|c|, (b: nat) requires b < |c| => PolyMul(coeff, c[b]))
  }

  lemma PSymbolSnoc(rows: seq<Bytes>, c: Bytes, width: nat)
    ensures PSymbol(rows + [c], width) == XorRow(PSymbol(rows, width), c)
  {
    forall b: nat | b < width ensures PSymbol(rows + [c], width)[b] == XorRow(PSymbol(rows, width), c)[b] {
      assert Column(rows + [c], b) == Column(rows, b) + [At(c, b)];
    }
  }

  lemma ScaledAt(coeff: Byte, c: Bytes, b: nat)
    ensures At(Scaled(coeff, c), b) == PolyMul(coeff, At(c, b))
  {
    if b >= |c| {
      PolyMulZero(coeff);
    }
  }

  lemma QSumSnoc(col: seq<Byte>, v: Byte, n: nat)
    requires n == |col|
    ensures QSum(col + [v]) == Xor(QSum(col), PolyMul(Exp(n), v))
  {
    assert (col + [v])[..|col|] == col;
  }

  lemma ColumnSnoc(rows: seq<Bytes>, c: Bytes, b: nat)
    ensures Column(rows + [c], b) == Column(rows, b) + [At(c, b)]
  {
  }

  lemma QSymbolSnocAt(rows: seq<Bytes>, c: Bytes, b: nat)
    ensures QSum(Column(rows + [c], b)) == Xor(QSum(Column(rows, b)), At(Scaled(Exp(|rows|), c), b))
  {
    ColumnSnoc(rows, c, b);
    QSumSnoc(Column(rows, b), At(c, b), |rows|);
    ScaledAt(Exp(|rows|), c, b);
  }

  lemma QSymbolSnoc(rows: seq<Bytes>, c: Bytes, width: nat)
    ensures QSymbol(rows + [c], width) == XorRow(QSymbol(rows, width), Scaled(Exp(|rows|), c))
  {
    forall b: nat | b < width
      ensures QSymbol(rows + [c], width)[b] == XorRow(QSymbol(rows, width), Scaled(Exp(|rows|), c))[b]
    {
      QSymbolSnocAt(rows, c, b);
    }
  }

  /** acc[b] ^= c[b] for every byte of c */
  method XorInto(acc: array<Byte>, c: Bytes)
    requires |c| <= acc.Length
    modifies acc
    ensures acc[..] == XorRow(old(acc[..]), c)
  {
    var b := 0;
    while b < |c|
      invariant 0 <= b <= |c|
      invariant forall j | 0 <= j < b :: acc[j] == Xor(old(acc[j]), c[j])
      invariant forall j | b <= j < acc.Length :: acc[j] == old(acc[j])
    {
      acc[b] := Xor(acc[b], c[b]);
      b := b + 1;
    }
    forall j | |c| <= j < acc.Length ensures acc[j] == Xor(old(acc[j]), At(c, j)) {
      XorZero(acc[j]);
    }
  }

  /** The first n bytes have become those of out. */
  ghost predicate BecomesUpto(now: Bytes, was: Bytes, out: Bytes, n: nat)
    requires |now| == |was| == |out|
  {
    forall j | 0 <= j < |was| :: now[j] == if j < n then out[j] else was[j]
  }

  lemma BecomesOneMore(now: Bytes, was: Bytes, coeff: Byte, c: Bytes, n: nat, x: Byte)
    requires |now| == |was| && n < |c| <= |was| && x == Xor(now[n], PolyMul(coeff, c[n]))
    requires BecomesUpto(now, was, XorRow(was, Scaled(coeff, c)), n)
    ensures BecomesUpto(now[n := x], was, XorRow(was, Scaled(coeff, c)), n + 1)
  {
    assert now[n] == was[n] && XorRow(was, Scaled(coeff, c))[n] == x;
  }

  lemma BecomesWhole(now: Bytes, was: Bytes, coeff: Byte, c: Bytes)
    requires |now| == |was| && |c| <= |was| && BecomesUpto(now, was, XorRow(was, Scaled(coeff, c)), |c|)
    ensures now == XorRow(was, Scaled(coeff, c))
  {
    forall j | |c| <= j < |was| ensures now[j] == XorRow(was, Scaled(coeff, c))[j] {
      XorZero(was[j]);
    }
  }

  /** acc[b] ^= gfMul(coeff, c[b]) for every byte of c */
  method XorScaledInto(t: Tables, acc: array<Byte>, coeff: Byte, c: Bytes)
    requires t.Valid() && acc != t.exp && |c| <= acc.Length
    modifies acc
    ensures acc[..] == XorRow(old(acc[..]), Scaled(coeff, c))
  {
    ghost var was := acc[..];
    var b := 0;
    while b < |c|
      invariant 0 <= b <= |c| && t.Valid() && BecomesUpto(acc[..], was, XorRow(was, Scaled(coeff, c)), b)
    {
      ghost var now := acc[..];
      acc[b] := Xor(acc[b], t.Mul(coeff, c[b]));
      BecomesOneMore(now, was, coeff, c, b, acc[b]);
      assert acc[..] == now[b := acc[b]];
      b := b + 1;
    }
    BecomesWhole(acc[..], was, coeff, c);
  }

  method MaxWidth(chunks: seq<Bytes>) returns (width: nat)
    ensures width == Width(chunks)
  {
    width := 0;
    for i := 0 to |chunks|
      invariant width == Width(chunks[..i])
    {
      assert chunks[..i + 1][..i] == chunks[..i];
      if |chunks[i]| > width {
        width := |chunks[i]|;
      }
    }
    assert chunks[..|chunks|] == chunks;
  }

  method ComputeParity(t: Tables, chunks: seq<Bytes>, k: int) returns (r: Result<seq<Bytes>, Error>)
    requires t.Valid()
    ensures r == Symbols(chunks, k)
  {
    if k < 0 || k > MAX_PARITY_SYMBOLS {
      return Err(Unsupported);
    }
    var n := |chunks|;
    if k == 0 || n == 0 {
      return Ok([]);
    }
    if n > MAX_PARITY_DATA_CHUNKS {
      return Err(Unsupported);
    }
    var count := if k > n then n else k;
    var width := MaxWidth(chunks);
    if width > MAX_CHUNK_PAYLOAD {
      return Err(Unsupported);
    }
    var p := new Byte[width](_ => ZERO);
    var q := new Byte[width](_ => ZERO);
    assert p[..] == PSymbol(chunks[..0], width) && q[..] == QSymbol(chunks[..0], width);
    for i := 0 to n
      invariant p[..] == PSymbol(chunks[..i], width)
      invariant count > 1 ==> q[..] == QSymbol(chunks[..i], width)
    {
      assert chunks[..i + 1] == chunks[..i] + [chunks[i]];
      PSymbolSnoc(chunks[..i], chunks[i], width);
      QSymbolSnoc(chunks[..i], chunks[i], width);
      XorInto(p, chunks[i]);
      if count > 1 {
        var coeff := t.Pow2(i);
        XorScaledInto(t, q, coeff, chunks[i]);
      }
    }
    assert chunks[..n] == chunks;
    r := if count > 1 then Ok([p[..], q[..]]) else Ok([p[..]]);
  }
}
