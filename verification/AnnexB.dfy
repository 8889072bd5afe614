/** Annex-B NAL splitting of gawk-server/publisher/sps.go, against the byte stream format of H.264 section B.1. */
module AnnexB {
  import opened Bytes

  // ----- the iterator -----

  /** Length of the start code at i: 3, 4, or 0 for none. */
  function CodeAt(buf: Bytes, i: nat): nat
    requires i + 2 < |buf|
  {
    if buf[i] != ZERO || buf[i + 1] != ZERO then 0
    else if buf[i + 2] == ONE then 3
    else if i + 3 < |buf| && buf[i + 2] == ZERO && buf[i + 3] == ONE then 4
    else 0
  }

  /** trimTrailingZeros */
  function Trim(nal: Bytes): Bytes {
    if nal != [] && nal[|nal| - 1] == ZERO then Trim(nal[..|nal| - 1]) else nal
  }

  /** What the iterator yields from position i, with the current NAL starting at `start` (-1 before the first). */
  function Scan(buf: Bytes, start: int, i: nat): seq<Bytes>
    requires -1 <= start <= i && start <= |buf|
    decreases |buf| - i
  {
    if i + 2 >= |buf| then (if 0 <= start < |buf| then [Trim(buf[start..])] else [])
    else
      var code := CodeAt(buf, i);
      if code == 0 then Scan(buf, start, i + 1)
      else (if start >= 0 then [Trim(buf[start..i])] else []) + Scan(buf, i + code, i + code)
  }

  function Nals(buf: Bytes): seq<Bytes> {
    Scan(buf, -1, 0)
  }

  method TrimTrailingZeros(nal: Bytes) returns (r: Bytes)
    ensures r == Trim(nal)
  {
    r := nal;
    while |r| > 0 && r[|r| - 1] == ZERO
      invariant Trim(r) == Trim(nal)
    {
      r := r[..|r| - 1];
    }
  }

  method AnnexBNals(buf: Bytes) returns (nals: seq<Bytes>)
    ensures nals == Nals(buf)
  {
    nals := [];
    var start := -1;
    var i := 0;
    while i + 2 < |buf|
      invariant -1 <= start <= i && start <= |buf|
      invariant nals + Scan(buf, start, i) == Nals(buf)
      decreases |buf| - i
    {
      var scLen := CodeAt(buf, i);
      ScanMoves(nals, buf, start, i);
      if scLen == 0 {
        i := i + 1;
        continue;
      }
      if start >= 0 {
        var nal := TrimTrailingZeros(buf[start..i]);
        nals := nals + [nal];
      }
      i := i + scLen;
      start := i;
    }
    ScanEnds(nals, buf, start, i);
    if start >= 0 && start < |buf| {
      var nal := TrimTrailingZeros(buf[start..]);
      nals := nals + [nal];
    }
  }

  /** One turn of the loop against one step of the scan. */
  lemma Reassociate(a: seq<Bytes>, b: seq<Bytes>, c: seq<Bytes>)
    ensures a + (b + c) == a + b + c
  {}

  lemma ScanMoves(done: seq<Bytes>, buf: Bytes, start: int, i: nat)
    requires -1 <= start <= i && start <= |buf| && i + 2 < |buf|
    ensures var code := CodeAt(buf, i);
            if code == 0 then Scan(buf, start, i) == Scan(buf, start, i + 1)
            else done + Scan(buf, start, i) ==
                 (if start >= 0 then done + [Trim(buf[start..i])] else done) + Scan(buf, i + code, i + code)
  {
    var code := CodeAt(buf, i);
    if code > 0 {
      var rest := Scan(buf, i + code, i + code);
      if start >= 0 {
        var nal := Trim(buf[start..i]);
        assert Scan(buf, start, i) == [nal] + rest;
        Reassociate(done, [nal], rest);
      } else {
        assert Scan(buf, start, i) == [] + rest == rest;
      }
    }
  }

  lemma ScanEnds(done: seq<Bytes>, buf: Bytes, start: int, i: nat)
    requires -1 <= start <= i && start <= |buf| && i + 2 >= |buf|
    ensures done + Scan(buf, start, i) == if 0 <= start < |buf| then done + [Trim(buf[start..])] else done
  {}

  // ----- the byte stream format -----

  /** A NAL unit behind a 3-byte start code and any number of zero bytes; one zero makes the 4-byte start code. */
  datatype Unit = Unit(zeros: nat, nal: Bytes)

  function Zeros(n: nat): (z: Bytes)
    ensures |z| == n && forall i | 0 <= i < n :: z[i] == ZERO
  {
    seq(n, _ => ZERO)
  }

  const START_CODE: Bytes := [ZERO, ZERO, ONE]

  function Stream(units: seq<Unit>, trailing: nat): Bytes {
    if units == [] then Zeros(trailing)
    else Zeros(units[0].zeros) + START_CODE + units[0].nal + Stream(units[1..], trailing)
  }

  /** Nothing inside looks like a start code, and the last byte is not a zero. */
  ghost predicate NalOk(nal: Bytes) {
    && nal != [] && nal[|nal| - 1] != ZERO
    && forall i | 0 <= i < |nal| - 2 :: !(nal[i] == ZERO && nal[i + 1] == ZERO && (nal[i + 2] == ZERO || nal[i + 2] == ONE))
  }

  function Payloads(units: seq<Unit>): seq<Bytes> {
    if units == [] then [] else [units[0].nal] + Payloads(units[1..])
  }

  // ----- the iterator undoes the format -----

  lemma {:induction false} SkipTo(buf: Bytes, start: int, i: nat, j: nat)
    requires -1 <= start <= i <= j && start <= |buf|
    requires j + 2 < |buf| || j <= |buf|
    requires forall p: nat | i <= p < j && p + 2 < |buf| :: CodeAt(buf, p) == 0
    ensures Scan(buf, start, i) == Scan(buf, start, j)
    decreases j - i
  {
    if i < j {
      if i + 2 < |buf| {
        SkipTo(buf, start, i + 1, j);
      }
    }
  }

  lemma {:induction false} TrimPadding(nal: Bytes, n: nat)
    requires nal != [] ==> nal[|nal| - 1] != ZERO
    ensures Trim(nal + Zeros(n)) == nal
  {
    if n == 0 {
      assert nal + Zeros(0) == nal;
    } else {
      assert (nal + Zeros(n))[..|nal| + n - 1] == nal + Zeros(n - 1);
      TrimPadding(nal, n - 1);
    }
  }

  lemma NoCodeInside(buf: Bytes, s: nat, nal: Bytes, p: nat)
    requires NalOk(nal) && s + |nal| <= |buf| && buf[s..s + |nal|] == nal
    requires s <= p < s + |nal| && p + 2 < |buf|
    ensures CodeAt(buf, p) == 0
  {
    assert forall k: nat | k < |nal| :: buf[s + k] == nal[k] by {
      forall k: nat | k < |nal| ensures buf[s + k] == nal[k] {
        assert buf[s..s + |nal|][k] == nal[k];
      }
    }
    var k := p - s;
    assert buf[s + k] == nal[k];
    if k + 1 < |nal| {
      assert buf[s + (k + 1)] == nal[k + 1];
    }
    if k + 2 < |nal| {
      assert buf[s + (k + 2)] == nal[k + 2];
    }
  }

  ghost predicate CodeFollows(buf: Bytes, e: nat, z: nat) {
    && e + z + 3 <= |buf|
    && (forall p | e <= p < e + z + 2 :: buf[p] == ZERO)
    && buf[e + z + 2] == ONE
  }

  /** From e on: z zero bytes, then a start code. The code is found at its 4-byte position when z > 0. */
  lemma FindCode(buf: Bytes, start: int, i: nat, e: nat, z: nat)
    requires -1 <= start <= i <= e && CodeFollows(buf, e, z)
    requires forall p: nat | i <= p < e && p + 2 < |buf| :: CodeAt(buf, p) == 0
    ensures var d := if z == 0 then e else e + z - 1;
            Scan(buf, start, i)
            == (if start >= 0 then [Trim(buf[start..d])] else []) + Scan(buf, e + z + 3, e + z + 3)
  {
    var d := if z == 0 then e else e + z - 1;
    SkipTo(buf, start, i, d);
  }

  /** nal sits at s in buf. */
  ghost predicate NalAt(buf: Bytes, s: nat, nal: Bytes) {
    s + |nal| <= |buf| && buf[s..s + |nal|] == nal
  }

  lemma NoCodes(buf: Bytes, s: nat, nal: Bytes)
    requires NalOk(nal) && NalAt(buf, s, nal)
    ensures forall p: nat | s <= p < s + |nal| && p + 2 < |buf| :: CodeAt(buf, p) == 0
  {
    forall p: nat | s <= p < s + |nal| && p + 2 < |buf| ensures CodeAt(buf, p) == 0 {
      NoCodeInside(buf, s, nal, p);
    }
  }

  lemma ScanLast(pre: Bytes, nal: Bytes, trailing: nat)
    requires NalOk(nal)
    ensures Scan(pre + nal + Zeros(trailing), |pre|, |pre|) == [nal]
  {
    var buf := pre + nal + Zeros(trailing);
    NoCodes(buf, |pre|, nal);
    SkipTo(buf, |pre|, |pre|, |buf|);
    assert buf[|pre|..] == nal + Zeros(trailing);
    TrimPadding(nal, trailing);
  }

  lemma CodePlaced(head: Bytes, z: nat, rest: Bytes)
    ensures CodeFollows(head + (Zeros(z) + START_CODE + rest), |head|, z)
  {}

  /** The current NAL is yielded when the next start code is met. */
  lemma ScanNext(buf: Bytes, s: nat, nal: Bytes, z: nat, next: nat)
    requires NalOk(nal) && NalAt(buf, s, nal) && CodeFollows(buf, s + |nal|, z) && next == s + |nal| + z + 3
    ensures Scan(buf, s, s) == [nal] + Scan(buf, next, next)
  {
    var e := s + |nal|;
    NoCodes(buf, s, nal);
    FindCode(buf, s, s, e, z);
    var d := if z == 0 then e else e + z - 1;
    PaddedNal(buf, s, nal, z, d);
    TrimPadding(nal, d - e);
  }

  lemma PaddedNal(buf: Bytes, s: nat, nal: Bytes, z: nat, d: nat)
    requires NalAt(buf, s, nal) && CodeFollows(buf, s + |nal|, z) && s + |nal| <= d <= s + |nal| + z
    ensures buf[s..d] == nal + Zeros(d - (s + |nal|))
  {
    assert buf[s..d] == buf[s..s + |nal|] + buf[s + |nal|..d];
  }

  lemma NextUnit(pre: Bytes, nal: Bytes, u: Unit, rest: Bytes)
    ensures var buf := pre + nal + (Zeros(u.zeros) + START_CODE + u.nal + rest);
            && buf == pre + nal + Zeros(u.zeros) + START_CODE + u.nal + rest
            && NalAt(buf, |pre|, nal) && CodeFollows(buf, |pre| + |nal|, u.zeros)
  {
    var tail := Zeros(u.zeros) + START_CODE + (u.nal + rest);
    assert Zeros(u.zeros) + START_CODE + u.nal + rest == tail;
    CodePlaced(pre + nal, u.zeros, u.nal + rest);
  }

  /** Yielding nal moves the scan to the start of the next unit. */
  lemma ScanStep(pre: Bytes, nal: Bytes, u: Unit, rest: Bytes)
    requires NalOk(nal)
    ensures var pre' := pre + nal + Zeros(u.zeros) + START_CODE;
            Scan(pre + nal + (Zeros(u.zeros) + START_CODE + u.nal + rest), |pre|, |pre|) ==
            [nal] + Scan(pre' + u.nal + rest, |pre'|, |pre'|)
  {
    NextUnit(pre, nal, u, rest);
    var next := |pre + nal + Zeros(u.zeros) + START_CODE|;
    ScanNext(pre + nal + (Zeros(u.zeros) + START_CODE + u.nal + rest), |pre|, nal, u.zeros, next);
  }

  lemma {:induction false} ScanFrom(pre: Bytes, nal: Bytes, units: seq<Unit>, trailing: nat)
    requires NalOk(nal) && forall u | u in units :: NalOk(u.nal)
    ensures Scan(pre + nal + Stream(units, trailing), |pre|, |pre|) == [nal] + Payloads(units)
    decreases |units|
  {
    if units == [] {
      ScanLast(pre, nal, trailing);
    } else {
      var u := units[0];
      ScanStep(pre, nal, u, Stream(units[1..], trailing));
      ScanFrom(pre + nal + Zeros(u.zeros) + START_CODE, u.nal, units[1..], trailing);
    }
  }

  /** For every mix of start codes and padding, the iterator yields exactly the units that were written. */
  lemma NalsOfStream(units: seq<Unit>, trailing: nat)
    requires forall u | u in units :: NalOk(u.nal)
    ensures Nals(Stream(units, trailing)) == Payloads(units)
  {
    var buf := Stream(units, trailing);
    if units == [] {
      SkipTo(buf, -1, 0, |buf|);
    } else {
      var u := units[0];
      var rest := Stream(units[1..], trailing);
      NextUnit([], [], u, rest);
      assert buf == [] + [] + (Zeros(u.zeros) + START_CODE + u.nal + rest);
      FindCode(buf, -1, 0, 0, u.zeros);
      assert buf == Zeros(u.zeros) + START_CODE + u.nal + rest;
      ScanFrom(Zeros(u.zeros) + START_CODE, u.nal, units[1..], trailing);
    }
  }
}
