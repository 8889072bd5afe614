/** RecoverChunks of gawk-server/wire/parity.go, and the round trip with ComputeParity. */
module ParityRecovery {
  import opened Outcomes
  import opened Bytes
  import opened GaloisField
  import opened Parity
  import opened ParitySolve

  /** What a receiver holds: None is a datagram that never arrived. */
  type Slots = seq<Option<Bytes>>

  function Missing(chunks: Slots): (m: seq<nat>)
    ensures forall j | 0 <= j < |m| :: m[j] < |chunks| && chunks[m[j]].None?
    ensures forall j, k | 0 <= j < k < |m| :: m[j] < m[k]
    ensures forall i | 0 <= i < |chunks| && chunks[i].None? :: i in m
  {
    if chunks == [] then []
    else
      var n := |chunks| - 1;
      Missing(chunks[..n]) + (if chunks[n].None? then [n] else [])
  }

  function Slot(parity: Slots, j: nat): Option<Bytes> {
    if j < |parity| then parity[j] else None
  }

  function Available(parity: Slots): nat {
    (if Slot(parity, 0).Some? then 1 else 0) + (if Slot(parity, 1).Some? then 1 else 0)
  }

  /** The symbol width is taken from a surviving parity symbol. */
  function BlockWidth(parity: Slots): nat {
    match Slot(parity, 0)
    case Some(p) => |p|
    case None => match Slot(parity, 1) case Some(q) => |q| case None => 0
  }

  function LastLen(n: nat, width: nat, frameBytes: int): int {
    frameBytes - (n - 1) * width
  }

  function WantedLen(n: nat, i: nat, width: nat, lastLen: int): int {
    if i == n - 1 then lastLen else width
  }

  predicate LengthsAgree(chunks: Slots, width: nat, lastLen: int) {
    forall i | 0 <= i < |chunks| && chunks[i].Some? ::
      |chunks[i].value| == WantedLen(|chunks|, i, width, lastLen)
  }

  /** Exactly when, and how, RecoverChunks refuses. */
  function Refusal(chunks: Slots, parity: Slots, frameBytes: int): Option<Error> {
    var n := |chunks|;
    var width := BlockWidth(parity);
    var lastLen := LastLen(n, width, frameBytes);
    if n == 0 || n > MAX_PARITY_DATA_CHUNKS then Some(Unsupported)
    else if Missing(chunks) == [] then None
    else if |Missing(chunks)| > Available(parity) || width == 0 then Some(Unrecoverable)
    else if Available(parity) == 2 && |Slot(parity, 0).value| != |Slot(parity, 1).value| then Some(Unsupported)
    else if lastLen <= 0 || lastLen > width then Some(Unsupported)
    else if !LengthsAgree(chunks, width, lastLen) then Some(Unsupported)
    else None
  }

  function Padded(c: Bytes, width: nat): (r: Bytes)
    ensures |r| == width
  {
    seq(width, (b: nat) => At(c, b))
  }

  /** A full-width block that extends the surviving chunks and meets the parity equations the missing ones need. */
  ghost predicate Solves(block: seq<Bytes>, chunks: Slots, parity: Slots, width: nat) {
    && |block| == |chunks|
    && (forall i | 0 <= i < |chunks| && chunks[i].Some? :: block[i] == Padded(chunks[i].value, width))
    && (forall i | 0 <= i < |chunks| :: |block[i]| == width)
    && (Slot(parity, 0).Some? ==> PSymbol(block, width) == Slot(parity, 0).value)
    && (Slot(parity, 0).None? || |Missing(chunks)| == 2 ==>
          Slot(parity, 1).Some? && QSymbol(block, width) == Slot(parity, 1).value)
  }

  /** The chunk array after the missing entries are filled from the block, the final one cut to its real length. */
  ghost predicate Filled(after: Slots, chunks: Slots, block: seq<Bytes>, lastLen: int) {
    && |after| == |chunks| == |block|
    && forall i | 0 <= i < |chunks| ::
         if chunks[i].Some? then after[i] == chunks[i]
         else if i == |chunks| - 1 then 0 <= lastLen <= |block[i]| && after[i] == Some(block[i][..lastLen])
         else after[i] == Some(block[i])
  }

  /** What RecoverChunks leaves behind when it does not refuse. */
  ghost predicate Repaired(after: Slots, chunks: Slots, parity: Slots, frameBytes: int, block: seq<Bytes>) {
    if Missing(chunks) == [] then after == chunks
    else
      var width := BlockWidth(parity);
      Solves(block, chunks, parity, width) && Filled(after, chunks, block, LastLen(|chunks|, width, frameBytes))
  }

  // ----- the round trip -----

  /** n chunks of one width, except a final one of 1..width bytes. */
  ghost predicate Ragged(data: seq<Bytes>, width: nat) {
    && data != []
    && (forall i | 0 <= i < |data| - 1 :: |data[i]| == width)
    && 1 <= |data[|data| - 1]| <= width
  }

  function FrameBytes(data: seq<Bytes>): nat {
    if data == [] then 0 else FrameBytes(data[..|data| - 1]) + |data[|data| - 1]|
  }

  /** Everything received is what was sent. */
  ghost predicate Received(chunks: Slots, parity: Slots, data: seq<Bytes>, symbols: seq<Bytes>) {
    && |chunks| == |data|
    && (forall i | 0 <= i < |data| && chunks[i].Some? :: chunks[i].value == data[i])
    && (forall j | 0 <= j < |parity| && parity[j].Some? :: j < |symbols| && parity[j].value == symbols[j])
  }

  lemma {:induction false} FrameBytesFull(data: seq<Bytes>, width: nat)
    requires forall i | 0 <= i < |data| :: |data[i]| == width
    ensures FrameBytes(data) == |data| * width
  {
    if data != [] {
      var n := |data| - 1;
      FrameBytesFull(data[..n], width);
      assert |data| * width == n * width + width;
    }
  }

  lemma RaggedFrame(data: seq<Bytes>, width: nat)
    requires Ragged(data, width)
    ensures LastLen(|data|, width, FrameBytes(data)) == |data[|data| - 1]|
    ensures Width(data) == if |data| == 1 then |data[0]| else width
  {
    var n := |data| - 1;
    FrameBytesFull(data[..n], width);
    if n >= 1 {
      assert |data[0]| == width;
    }
  }

  lemma ColumnAgrees(block: seq<Bytes>, data: seq<Bytes>, chunks: Slots, width: nat, b: nat, i: nat)
    requires |block| == |data| == |chunks| && i < |data| && b < width
    requires chunks[i].Some? && chunks[i].value == data[i] && block[i] == Padded(chunks[i].value, width)
    ensures Column(block, b)[i] == Column(data, b)[i]
  {}

  lemma MissingPositions(chunks: Slots)
    ensures forall i | 0 <= i < |chunks| :: chunks[i].None? <==> i in Missing(chunks)
  {}

  /** With at most two missing, every position but the first and the last of them survived. */
  lemma OthersSurvive(chunks: Slots, i: nat)
    requires i < |chunks| && 1 <= |Missing(chunks)| <= 2
    requires i != Missing(chunks)[0] && i != Missing(chunks)[|Missing(chunks)| - 1]
    ensures chunks[i].Some?
  {
    MissingPositions(chunks);
    assert i !in Missing(chunks);
  }

  lemma SymbolAgrees(block: seq<Bytes>, data: seq<Bytes>, width: nat, b: nat)
    requires b < width
    ensures PSymbol(block, width) == PSymbol(data, width) ==> PSum(Column(block, b)) == PSum(Column(data, b))
    ensures QSymbol(block, width) == QSymbol(data, width) ==> QSum(Column(block, b)) == QSum(Column(data, b))
  {
    assert PSum(Column(block, b)) == PSymbol(block, width)[b];
    assert PSum(Column(data, b)) == PSymbol(data, width)[b];
    assert QSum(Column(block, b)) == QSymbol(block, width)[b];
    assert QSum(Column(data, b)) == QSymbol(data, width)[b];
  }

  lemma BlockColumn(block: seq<Bytes>, data: seq<Bytes>, chunks: Slots, parity: Slots, width: nat, b: nat)
    requires |data| <= MAX_PARITY_DATA_CHUNKS && b < width
    requires 1 <= |Missing(chunks)| <= Available(parity)
    requires Received(chunks, parity, data, [PSymbol(data, width), QSymbol(data, width)])
    requires Solves(block, chunks, parity, width)
    ensures Column(block, b) == Column(data, b)
  {
    var s, t := Column(block, b), Column(data, b);
    var m := Missing(chunks);
    var x, y := m[0], m[|m| - 1];
    forall i | 0 <= i < |data| && i != x && i != y ensures s[i] == t[i] {
      OthersSurvive(chunks, i);
      ColumnAgrees(block, data, chunks, width, b, i);
    }
    SymbolAgrees(block, data, width, b);
    if |m| == 1 {
      assert PSum(s) == PSum(t) || QSum(s) == QSum(t);
      OneErasureUnique(s, t, x);
    } else {
      assert PSum(s) == PSum(t) && QSum(s) == QSum(t);
      TwoErasuresUnique(s, t, x, y);
    }
  }

  ghost function Whole(data: seq<Bytes>): Slots {
    seq(|data|, (i: nat) requires i < |data| => Some(data[i]))
  }

  lemma BlockIsData(block: seq<Bytes>, data: seq<Bytes>, chunks: Slots, parity: Slots, width: nat, i: nat)
    requires |data| <= MAX_PARITY_DATA_CHUNKS && i < |data|
    requires 1 <= |Missing(chunks)| <= Available(parity)
    requires Received(chunks, parity, data, [PSymbol(data, width), QSymbol(data, width)])
    requires Solves(block, chunks, parity, width)
    ensures block[i] == Padded(data[i], width)
  {
    forall b: nat | b < width ensures block[i][b] == Padded(data[i], width)[b] {
      BlockColumn(block, data, chunks, parity, width, b);
      assert Column(block, b)[i] == At(block[i], b);
      assert Column(data, b)[i] == At(data[i], b);
    }
  }

  /** The symbols that were sent are P and Q of the data, or P alone. */
  lemma SentSymbols(data: seq<Bytes>, k: nat, chunks: Slots, parity: Slots)
    requires data != [] && Symbols(data, k).Ok?
    requires Received(chunks, parity, data, Symbols(data, k).value)
    ensures Received(chunks, parity, data, [PSymbol(data, Width(data)), QSymbol(data, Width(data))])
    ensures Available(parity) >= 1 ==> BlockWidth(parity) == Width(data)
  {}

  lemma RepairedIsData(data: seq<Bytes>, width: nat, chunks: Slots, parity: Slots, block: seq<Bytes>, after: Slots)
    requires Ragged(data, width) && width == Width(data) && |data| <= MAX_PARITY_DATA_CHUNKS
    requires 1 <= |Missing(chunks)| <= Available(parity)
    requires Received(chunks, parity, data, [PSymbol(data, width), QSymbol(data, width)])
    requires Solves(block, chunks, parity, width)
    requires Filled(after, chunks, block, LastLen(|chunks|, width, FrameBytes(data)))
    ensures after == Whole(data)
  {
    RaggedFrame(data, width);
    forall i: nat | i < |data| ensures after[i] == Some(data[i]) {
      BlockIsData(block, data, chunks, parity, width, i);
      Unpadded(data[i], width);
    }
  }

  lemma Unpadded(c: Bytes, width: nat)
    requires |c| <= width
    ensures Padded(c, width)[..|c|] == c && (|c| == width ==> Padded(c, width) == c)
  {}

  lemma NotRefused(data: seq<Bytes>, width: nat, chunks: Slots, parity: Slots)
    requires Ragged(data, width) && width == Width(data) && |data| <= MAX_PARITY_DATA_CHUNKS
    requires |Missing(chunks)| <= Available(parity)
    requires Received(chunks, parity, data, [PSymbol(data, width), QSymbol(data, width)])
    requires Missing(chunks) != [] ==> BlockWidth(parity) == width
    ensures Refusal(chunks, parity, FrameBytes(data)).None?
  {
    RaggedFrame(data, width);
  }

  lemma NothingMissing(chunks: Slots, data: seq<Bytes>)
    requires |chunks| == |data| && Missing(chunks) == []
    requires forall i | 0 <= i < |data| && chunks[i].Some? :: chunks[i].value == data[i]
    ensures chunks == Whole(data)
  {
    MissingPositions(chunks);
    forall i: nat | i < |data| ensures chunks[i] == Whole(data)[i] {}
  }

  /** The same, over the two sums themselves. */
  lemma RecoveredFromSums(data: seq<Bytes>, width: nat, chunks: Slots, parity: Slots, block: seq<Bytes>, after: Slots)
    requires Ragged(data, width) && width == Width(data) && |data| <= MAX_PARITY_DATA_CHUNKS
    requires |Missing(chunks)| <= Available(parity)
    requires Received(chunks, parity, data, [PSymbol(data, width), QSymbol(data, width)])
    requires Available(parity) >= 1 ==> BlockWidth(parity) == width
    requires Repaired(after, chunks, parity, FrameBytes(data), block)
    ensures after == Whole(data)
  {
    if Missing(chunks) == [] {
      NothingMissing(chunks, data);
    } else {
      RepairedIsData(data, width, chunks, parity, block, after);
    }
  }

  /** Losing at most as many chunks as there are surviving symbols is repaired exactly, whatever was lost. */
  lemma RoundTrip(data: seq<Bytes>, width: nat, k: nat, chunks: Slots, parity: Slots, block: seq<Bytes>, after: Slots)
    requires Ragged(data, width) && |data| <= MAX_PARITY_DATA_CHUNKS && Symbols(data, k).Ok?
    requires Received(chunks, parity, data, Symbols(data, k).value)
    requires |Missing(chunks)| <= Available(parity)
    ensures Refusal(chunks, parity, FrameBytes(data)).None?
    ensures Repaired(after, chunks, parity, FrameBytes(data), block) ==> after == Whole(data)
  {
    RaggedIsWide(data, width);
    SentSymbols(data, k, chunks, parity);
    NotRefused(data, Width(data), chunks, parity);
    if Repaired(after, chunks, parity, FrameBytes(data), block) {
      RecoveredFromSums(data, Width(data), chunks, parity, block, after);
    }
  }

  /** A lone chunk may be shorter than the width it was cut to; its own length is then the width. */
  lemma RaggedIsWide(data: seq<Bytes>, width: nat)
    requires Ragged(data, width)
    ensures Ragged(data, Width(data))
  {
    RaggedFrame(data, width);
  }

  // ----- the method -----

  ghost predicate HasSurvivors(padded: seq<Bytes>, chunks: Slots, width: nat) {
    && |padded| == |chunks|
    && forall i | 0 <= i < |chunks| ::
         padded[i] == Padded(if chunks[i].Some? then chunks[i].value else [], width)
  }

  /** RecoverChunks. `block` is the padded rectangle the arithmetic works on. */
  method RecoverChunks(t: Tables, chunks: array<Option<Bytes>>, parity: Slots, frameBytes: int)
    returns (err: Option<Error>, ghost block: seq<Bytes>)
    requires t.Valid()
    modifies chunks
    ensures err == Refusal(old(chunks[..]), parity, frameBytes)
    ensures err.Some? ==> chunks[..] == old(chunks[..])
    ensures err.None? ==> Repaired(chunks[..], old(chunks[..]), parity, frameBytes, block)
    ensures forall data, width, k: nat ::
              Ragged(data, width) && |data| <= MAX_PARITY_DATA_CHUNKS && Symbols(data, k).Ok? &&
              Received(old(chunks[..]), parity, data, Symbols(data, k).value) &&
              |Missing(old(chunks[..]))| <= Available(parity) && frameBytes == FrameBytes(data)
              ==> err.None? && chunks[..] == Whole(data)
  {
    ghost var before := chunks[..];
    err, block := Recover(t, chunks, parity, frameBytes);
    forall data, width, k: nat |
      Ragged(data, width) && |data| <= MAX_PARITY_DATA_CHUNKS && Symbols(data, k).Ok? &&
      Received(before, parity, data, Symbols(data, k).value) &&
      |Missing(before)| <= Available(parity) && frameBytes == FrameBytes(data)
      ensures err.None? && chunks[..] == Whole(data)
    {
      RoundTrip(data, width, k, before, parity, block, chunks[..]);
    }
  }

  method Recover(t: Tables, chunks: array<Option<Bytes>>, parity: Slots, frameBytes: int)
    returns (err: Option<Error>, ghost block: seq<Bytes>)
    requires t.Valid()
    modifies chunks
    ensures err == Refusal(old(chunks[..]), parity, frameBytes)
    ensures err.Some? ==> chunks[..] == old(chunks[..])
    ensures err.None? ==> Repaired(chunks[..], old(chunks[..]), parity, frameBytes, block)
  {
    block := [];
    var n := chunks.Length;
    if n == 0 || n > MAX_PARITY_DATA_CHUNKS {
      return Some(Unsupported), block;
    }
    var missing := FindMissing(chunks);
    if missing == [] {
      return None, block;
    }
    var haveP, haveQ := Slot(parity, 0), Slot(parity, 1);
    var avail := Available(parity);
    if |missing| > avail {
      return Some(Unrecoverable), block;
    }
    var width := BlockWidth(parity);
    if width == 0 {
      return Some(Unrecoverable), block;
    }
    if haveP.Some? && haveQ.Some? && |haveP.value| != |haveQ.value| {
      return Some(Unsupported), block;
    }
    var lastLen := LastLen(n, width, frameBytes);
    if lastLen <= 0 || lastLen > width {
      return Some(Unsupported), block;
    }
    var agree := CheckLengths(chunks, width, lastLen);
    if !agree {
      return Some(Unsupported), block;
    }
    var padded := PadAll(chunks, width);
    if |missing| == 1 {
      padded := SolveOne(t, padded, missing[0], haveP, haveQ, width);
    } else {
      padded := SolveTwo(t, padded, missing[0], missing[1], haveP.value, haveQ.value, width);
    }
    block := padded;
    Fill(chunks, padded, missing, lastLen);
    err := None;
  }

  method FindMissing(chunks: array<Option<Bytes>>) returns (missing: seq<nat>)
    ensures missing == Missing(chunks[..])
  {
    missing := [];
    for i := 0 to chunks.Length
      invariant missing == Missing(chunks[..i])
    {
      assert chunks[..i + 1][..i] == chunks[..i];
      if chunks[i].None? {
        missing := missing + [i];
      }
    }
    assert chunks[..chunks.Length] == chunks[..];
  }

  method CheckLengths(chunks: array<Option<Bytes>>, width: nat, lastLen: int) returns (agree: bool)
    ensures agree == LengthsAgree(chunks[..], width, lastLen)
  {
    for i := 0 to chunks.Length
      invariant forall j | 0 <= j < i && chunks[j].Some? ::
                  |chunks[j].value| == WantedLen(chunks.Length, j, width, lastLen)
    {
      if chunks[i].Some? && |chunks[i].value| != WantedLen(chunks.Length, i, width, lastLen) {
        assert chunks[..][i].Some?;
        return false;
      }
    }
    return true;
  }

  method PadAll(chunks: array<Option<Bytes>>, width: nat) returns (padded: seq<Bytes>)
    ensures HasSurvivors(padded, chunks[..], width)
  {
    padded := [];
    for i := 0 to chunks.Length
      invariant HasSurvivors(padded, chunks[..i], width)
    {
      padded := padded + [Padded(if chunks[i].Some? then chunks[i].value else [], width)];
    }
    assert chunks[..chunks.Length] == chunks[..];
  }

  /** chunks[i] = padded[i] for the missing i, the final one cut to lastLen */
  method Fill(chunks: array<Option<Bytes>>, padded: seq<Bytes>, missing: seq<nat>, lastLen: nat)
    requires missing == Missing(chunks[..]) && |padded| == chunks.Length
    requires forall i | 0 <= i < |padded| :: lastLen <= |padded[i]|
    modifies chunks
    ensures Filled(chunks[..], old(chunks[..]), padded, lastLen)
  {
    ghost var before := chunks[..];
    var n := chunks.Length;
    for j := 0 to |missing|
      invariant FilledSoFar(chunks[..], before, padded, missing[..j], lastLen)
    {
      var i := missing[j];
      ghost var was := chunks[..];
      var out := padded[i];
      if i == n - 1 {
        out := out[..lastLen];
      }
      chunks[i] := Some(out);
      assert chunks[..] == was[i := Some(out)];
      OneMoreFilled(was, before, padded, missing, j, lastLen);
    }
    assert missing[..|missing|] == missing;
    AllFilled(chunks[..], before, padded, lastLen);
  }

  function FilledEntry(padded: seq<Bytes>, i: nat, lastLen: nat): Option<Bytes>
    requires i < |padded| && lastLen <= |padded[i]|
  {
    Some(if i == |padded| - 1 then padded[i][..lastLen] else padded[i])
  }

  /** The positions of `done` are filled, the others as before. */
  ghost predicate FilledSoFar(chunks: Slots, before: Slots, padded: seq<Bytes>, done: seq<nat>, lastLen: nat)
    requires |before| == |padded| && forall i | 0 <= i < |padded| :: lastLen <= |padded[i]|
  {
    |chunks| == |before| &&
    forall i: nat | i < |before| :: chunks[i] == if i in done then FilledEntry(padded, i, lastLen) else before[i]
  }

  lemma OneMoreFilled(chunks: Slots, before: Slots, padded: seq<Bytes>, missing: seq<nat>, j: nat, lastLen: nat)
    requires |before| == |padded| && forall i | 0 <= i < |padded| :: lastLen <= |padded[i]|
    requires j < |missing| && missing[j] < |padded| && FilledSoFar(chunks, before, padded, missing[..j], lastLen)
    ensures FilledSoFar(chunks[missing[j] := FilledEntry(padded, missing[j], lastLen)], before, padded, missing[..j + 1], lastLen)
  {
    assert missing[..j + 1] == missing[..j] + [missing[j]];
  }

  lemma AllFilled(chunks: Slots, before: Slots, padded: seq<Bytes>, lastLen: nat)
    requires |before| == |padded| && forall i | 0 <= i < |padded| :: lastLen <= |padded[i]|
    requires FilledSoFar(chunks, before, padded, Missing(before), lastLen)
    ensures Filled(chunks, before, padded, lastLen)
  {
    MissingPositions(before);
  }
}
