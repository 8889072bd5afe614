/** The one- and two-erasure solves inside RecoverChunks (gawk-server/wire/parity.go). */
module ParitySolve {
  import opened Outcomes
  import opened Bytes
  import opened GaloisField
  import opened Parity
  import opened ParityCode

  ghost predicate Rectangle(rows: seq<Bytes>, width: nat) {
    forall i | 0 <= i < |rows| :: |rows[i]| == width
  }

  ghost predicate Blank(row: Bytes) {
    forall b | 0 <= b < |row| :: row[b] == ZERO
  }

  lemma FillOne(col: seq<Byte>, x: nat, v: Byte)
    requires x < |col| && col[x] == ZERO
    ensures PSum(col[x := v]) == Xor(PSum(col), v)
    ensures QSum(col[x := v]) == Xor(QSum(col), PolyMul(Exp(x), v))
  {
    var filled := col[x := v];
    var d := Difference(filled, col);
    forall i | 0 <= i < |d| && i != x ensures d[i] == ZERO {
      XorZero(col[i]);
    }
    XorZero(v);
    assert Entry(d, x) == v && Entry(d, |d|) == ZERO;
    SumsOfPair(d, x, |d|);
    XorZero(PolyMul(Exp(x), v));
    PolyMulZero(Exp(|d|));
    PSumDifference(filled, col);
    QSumDifference(filled, col);
    XorCancel(PSum(filled), PSum(col));
    XorCancel(QSum(filled), QSum(col));
    XorComm(PSum(col), v);
    XorComm(QSum(col), PolyMul(Exp(x), v));
  }

  lemma ColumnReplaced(rows: seq<Bytes>, x: nat, row: Bytes, b: nat)
    requires x < |rows|
    ensures Column(rows[x := row], b) == Column(rows, b)[x := At(row, b)]
  {}

  lemma BlankRow(acc: Bytes, row: Bytes)
    requires Blank(row)
    ensures XorRow(acc, row) == acc
    ensures forall coeff :: XorRow(acc, Scaled(coeff, row)) == acc
  {
    forall b | 0 <= b < |acc| ensures XorRow(acc, row)[b] == acc[b] {
      XorZero(acc[b]);
    }
    forall coeff ensures XorRow(acc, Scaled(coeff, row)) == acc {
      forall b | 0 <= b < |acc| ensures XorRow(acc, Scaled(coeff, row))[b] == acc[b] {
        PolyMulZero(coeff);
        XorZero(acc[b]);
      }
    }
  }

  lemma XorRowAssoc(a: Bytes, s: Bytes, c: Bytes)
    requires |a| == |s|
    ensures XorRow(XorRow(a, s), c) == XorRow(a, XorRow(s, c))
  {
    forall b | 0 <= b < |a| ensures XorRow(XorRow(a, s), c)[b] == XorRow(a, XorRow(s, c))[b] {
      XorAssoc(a[b], s[b], At(c, b));
    }
  }

  lemma NothingYet(sym: Bytes)
    ensures XorRow(sym, PSymbol([], |sym|)) == sym && XorRow(sym, QSymbol([], |sym|)) == sym
  {
    forall b | 0 <= b < |sym| ensures XorRow(sym, PSymbol([], |sym|))[b] == sym[b] {
      XorZero(sym[b]);
    }
    forall b | 0 <= b < |sym| ensures XorRow(sym, QSymbol([], |sym|))[b] == sym[b] {
      XorZero(sym[b]);
    }
  }

  /** sym ^ (XOR of the surviving rows); the rows at x and y are blank and skipped. */
  method Residue(rows: seq<Bytes>, x: nat, y: nat, sym: Bytes) returns (acc: array<Byte>)
    requires Rectangle(rows, |sym|)
    requires forall i | 0 <= i < |rows| && (i == x || i == y) :: Blank(rows[i])
    ensures fresh(acc) && acc[..] == XorRow(sym, PSymbol(rows, |sym|))
  {
    acc := new Byte[|sym|](i requires 0 <= i < |sym| => sym[i]);
    NothingYet(sym);
    assert acc[..] == sym;
    for i := 0 to |rows|
      invariant acc.Length == |sym| && fresh(acc)
      invariant acc[..] == XorRow(sym, PSymbol(rows[..i], |sym|))
    {
      assert rows[..i + 1] == rows[..i] + [rows[i]];
      PSymbolSnoc(rows[..i], rows[i], |sym|);
      XorRowAssoc(sym, PSymbol(rows[..i], |sym|), rows[i]);
      if i == x || i == y {
        BlankRow(acc[..], rows[i]);
        continue;
      }
      XorInto(acc, rows[i]);
    }
    assert rows[..|rows|] == rows;
  }

  /** The same over the weighted rows. */
  method WeightedResidue(t: Tables, rows: seq<Bytes>, x: nat, y: nat, sym: Bytes) returns (acc: array<Byte>)
    requires t.Valid() && Rectangle(rows, |sym|)
    requires forall i | 0 <= i < |rows| && (i == x || i == y) :: Blank(rows[i])
    ensures fresh(acc) && acc[..] == XorRow(sym, QSymbol(rows, |sym|))
  {
    acc := new Byte[|sym|](i requires 0 <= i < |sym| => sym[i]);
    NothingYet(sym);
    assert acc[..] == sym;
    for i := 0 to |rows|
      invariant acc.Length == |sym| && fresh(acc)
      invariant acc[..] == XorRow(sym, QSymbol(rows[..i], |sym|))
    {
      assert rows[..i + 1] == rows[..i] + [rows[i]];
      QSymbolSnoc(rows[..i], rows[i], |sym|);
      XorRowAssoc(sym, QSymbol(rows[..i], |sym|), Scaled(Exp(i), rows[i]));
      if i == x || i == y {
        BlankRow(acc[..], rows[i]);
        continue;
      }
      var coeff := t.Pow2(i);
      XorScaledInto(t, acc, coeff, rows[i]);
    }
    assert rows[..|rows|] == rows;
  }

  lemma SolvedP(rows: seq<Bytes>, x: nat, p: Bytes, dx: Bytes)
    requires x < |rows| && Rectangle(rows, |p|) && Blank(rows[x])
    requires dx == XorRow(p, PSymbol(rows, |p|))
    ensures PSymbol(rows[x := dx], |p|) == p
  {
    forall b: nat | b < |p| ensures PSymbol(rows[x := dx], |p|)[b] == p[b] {
      var col := Column(rows, b);
      ColumnReplaced(rows, x, dx, b);
      FillOne(col, x, dx[b]);
      XorCancel(p[b], PSum(col));
    }
  }

  lemma SolvedQ(rows: seq<Bytes>, x: nat, q: Bytes, dx: Bytes)
    requires x < |rows| && Rectangle(rows, |q|) && Blank(rows[x]) && |dx| == |q|
    requires forall b | 0 <= b < |q| :: PolyMul(dx[b], Exp(x)) == XorRow(q, QSymbol(rows, |q|))[b]
    ensures QSymbol(rows[x := dx], |q|) == q
  {
    forall b: nat | b < |q| ensures QSymbol(rows[x := dx], |q|)[b] == q[b] {
      var col := Column(rows, b);
      ColumnReplaced(rows, x, dx, b);
      FillOne(col, x, dx[b]);
      PolyMulComm(Exp(x), dx[b]);
      XorCancel(q[b], QSum(col));
    }
  }

  method SolveOne(t: Tables, rows: seq<Bytes>, x: nat, haveP: Option<Bytes>, haveQ: Option<Bytes>, width: nat)
    returns (padded: seq<Bytes>)
    requires t.Valid() && x < |rows| && Rectangle(rows, width) && Blank(rows[x])
    requires if haveP.Some? then |haveP.value| == width else haveQ.Some? && |haveQ.value| == width
    ensures |padded| == |rows| && Rectangle(padded, width)
    ensures forall i | 0 <= i < |rows| && i != x :: padded[i] == rows[i]
    ensures haveP.Some? ==> PSymbol(padded, width) == haveP.value
    ensures haveP.None? ==> QSymbol(padded, width) == haveQ.value
  {
    if haveP.Some? {
      var acc := Residue(rows, x, x, haveP.value);
      padded := rows[x := acc[..]];
      SolvedP(rows, x, haveP.value, acc[..]);
    } else {
      var acc := WeightedResidue(t, rows, x, x, haveQ.value);
      ghost var rest := acc[..];
      DivideAll(t, acc, x);
      padded := rows[x := acc[..]];
      SolvedQ(rows, x, haveQ.value, acc[..]);
    }
  }

  /** The first n bytes have been divided by g^x. */
  ghost predicate DividedUpto(now: Bytes, was: Bytes, x: nat, n: nat)
    requires |now| == |was|
  {
    forall j | 0 <= j < |was| :: if j < n then PolyMul(now[j], Exp(x)) == was[j] else now[j] == was[j]
  }

  lemma DividedOneMore(now: Bytes, was: Bytes, x: nat, n: nat, q: Byte)
    requires |now| == |was| && n < |was| && DividedUpto(now, was, x, n) && PolyMul(q, Exp(x)) == now[n]
    ensures DividedUpto(now[n := q], was, x, n + 1)
  {
  }

  /** acc[b] = gfDiv(acc[b], g^x) for every b */
  method DivideAll(t: Tables, acc: array<Byte>, x: nat)
    requires t.Valid() && acc != t.exp
    modifies acc
    ensures forall b | 0 <= b < acc.Length :: PolyMul(acc[b], Exp(x)) == old(acc[b])
  {
    var inv := t.Pow2(x);
    ExpNonZero(x);
    var b := 0;
    ghost var was := acc[..];
    while b < acc.Length
      invariant 0 <= b <= acc.Length && t.Valid() && DividedUpto(acc[..], was, x, b)
    {
      ghost var now := acc[..];
      acc[b] := t.Div(acc[b], inv);
      DividedOneMore(now, was, x, b, acc[b]);
      assert acc[..] == now[b := acc[b]];
      b := b + 1;
    }
  }

  // ----- two erasures -----

  /** The algebra of the two-erasure solve: (x, y) meets both equations. */
  ghost predicate PairSolves(x: nat, y: nat, pm: Byte, qm: Byte, dx: Byte, dy: Byte) {
    && Xor(dx, dy) == pm
    && Xor(PolyMul(Exp(x), dx), PolyMul(Exp(y), dy)) == qm
  }

  lemma PairAlgebra(x: nat, y: nat, pm: Byte, qm: Byte, dx: Byte)
    requires PolyMul(dx, Xor(Exp(x), Exp(y))) == Xor(PolyMul(Exp(y), pm), qm)
    ensures PairSolves(x, y, pm, qm, dx, Xor(pm, dx))
  {
    var gx, gy := Exp(x), Exp(y);
    PolyMulComm(dx, Xor(gx, gy));
    PolyMulLinear(gx, gy, dx);
    PolyMulDistributes(gy, pm, dx);
    XorMoved(PolyMul(gx, dx), PolyMul(gy, dx), PolyMul(gy, pm), qm);
    XorCancel(pm, dx);
    XorComm(dx, Xor(pm, dx));
  }

  lemma XorMoved(u: Byte, v: Byte, w: Byte, r: Byte)
    requires Xor(u, v) == Xor(w, r)
    ensures Xor(u, Xor(w, v)) == r
  {
    XorComm(w, v);
    XorAssoc(u, v, w);
    XorComm(w, r);
    XorCancel(r, w);
  }

  lemma SolvedPair(rows: seq<Bytes>, x: nat, y: nat, p: Bytes, q: Bytes, dx: Bytes, dy: Bytes)
    requires x < y < |rows| && |p| == |q| == |dx| == |dy| && Rectangle(rows, |p|)
    requires Blank(rows[x]) && Blank(rows[y])
    requires forall b | 0 <= b < |p| ::
               PairSolves(x, y, XorRow(p, PSymbol(rows, |p|))[b], XorRow(q, QSymbol(rows, |q|))[b], dx[b], dy[b])
    ensures PSymbol(rows[x := dx][y := dy], |p|) == p
    ensures QSymbol(rows[x := dx][y := dy], |p|) == q
  {
    var filled := rows[x := dx][y := dy];
    forall b: nat | b < |p| ensures PSymbol(filled, |p|)[b] == p[b] && QSymbol(filled, |p|)[b] == q[b] {
      var col := Column(rows, b);
      ColumnReplaced(rows, x, dx, b);
      ColumnReplaced(rows[x := dx], y, dy, b);
      FillOne(col, x, dx[b]);
      FillOne(col[x := dx[b]], y, dy[b]);
      XorAssoc(PSum(col), dx[b], dy[b]);
      XorAssoc(QSum(col), PolyMul(Exp(x), dx[b]), PolyMul(Exp(y), dy[b]));
      XorCancel(p[b], PSum(col));
      XorCancel(q[b], QSum(col));
    }
  }

  method SolveTwo(t: Tables, rows: seq<Bytes>, x: nat, y: nat, haveP: Bytes, haveQ: Bytes, width: nat)
    returns (padded: seq<Bytes>)
    requires t.Valid() && x < y < |rows| <= MAX_PARITY_DATA_CHUNKS && Rectangle(rows, width)
    requires Blank(rows[x]) && Blank(rows[y]) && |haveP| == |haveQ| == width
    ensures |padded| == |rows| && Rectangle(padded, width)
    ensures forall i | 0 <= i < |rows| && i != x && i != y :: padded[i] == rows[i]
    ensures PSymbol(padded, width) == haveP && QSymbol(padded, width) == haveQ
  {
    var pm := Residue(rows, x, y, haveP);
    var qm := WeightedResidue(t, rows, x, y, haveQ);
    var gx, gy := t.Pow2(x), t.Pow2(y);
    var den := Xor(gx, gy);
    ExpInjective(x, y);
    if den == ZERO {
      // The coefficients of chunks x and y collide: excluded by MAX_PARITY_DATA_CHUNKS.
      XorZeroIsEqual(gx, gy);
      assert false;
    }
    var dx, dy := SolvePairs(t, x, y, pm[..], qm[..], den);
    padded := rows[x := dx][y := dy];
    SolvedPair(rows, x, y, haveP, haveQ, dx, dy);
  }

  method SolvePair(t: Tables, x: nat, y: nat, pm: Byte, qm: Byte, den: Byte) returns (dx: Byte, dy: Byte)
    requires t.Valid() && den == Xor(Exp(x), Exp(y)) && den != ZERO
    ensures PairSolves(x, y, pm, qm, dx, dy)
  {
    var gy := t.Pow2(y);
    dx := t.Div(Xor(t.Mul(gy, pm), qm), den);
    PairAlgebra(x, y, pm, qm, dx);
    dy := Xor(pm, dx);
  }

  method SolvePairs(t: Tables, x: nat, y: nat, pm: seq<Byte>, qm: seq<Byte>, den: Byte)
    returns (dx: seq<Byte>, dy: seq<Byte>)
    requires t.Valid() && |pm| == |qm|
    requires den == Xor(Exp(x), Exp(y)) && den != ZERO
    ensures |dx| == |dy| == |pm|
    ensures forall b | 0 <= b < |pm| :: PairSolves(x, y, pm[b], qm[b], dx[b], dy[b])
  {
    dx, dy := [], [];
    for b := 0 to |pm|
      invariant |dx| == |dy| == b
      invariant forall j | 0 <= j < b :: PairSolves(x, y, pm[j], qm[j], dx[j], dy[j])
    {
      var d, e := SolvePair(t, x, y, pm[b], qm[b], den);
      dx, dy := dx + [d], dy + [e];
    }
  }
}
