/**
 * Delta frames as datagrams: gawk-server/publisher/send.go cuts an access unit into chunks and adds parity,
 * gawk-server/wire/stripe.go spreads the datagrams over stripe legs.
 */
module Delta {
  import opened Outcomes
  import opened Bytes
  import opened Parity
  import opened ParityRecovery

  const MAX_CHUNK_COUNT := 3000
  const MAX_STRIPE_LEGS := 4

  // ----- chunking -----

  /** ceil(size / budget), and one chunk for an empty unit. */
  function ChunkCount(size: nat, budget: nat): (n: nat)
    requires budget >= 1
    ensures n >= 1
    ensures size >= 1 ==> (n - 1) * budget < size <= n * budget
  {
    var n := (size + budget - 1) / budget;
    if n < 1 then 1 else n
  }

  /** The receiver's side: chunk payloads joined in index order. */
  function Join(chunks: seq<Bytes>): Bytes {
    if chunks == [] then [] else Join(chunks[..|chunks| - 1]) + chunks[|chunks| - 1]
  }

  /** Every chunk is full except the last, which holds what is left. */
  ghost predicate CutInto(chunks: seq<Bytes>, data: Bytes, budget: nat)
    requires budget >= 1
  {
    && |chunks| == ChunkCount(|data|, budget)
    && (forall i | 0 <= i < |chunks| - 1 :: |chunks[i]| == budget)
    && |chunks[|chunks| - 1]| <= budget
    && Join(chunks) == data
  }

  lemma MulMonotone(a: nat, c: nat, b: nat)
    requires a <= c
    ensures a * b <= c * b
  {
    assert c * b == a * b + (c - a) * b;
  }

  lemma ChunkBounds(size: nat, budget: nat, i: nat)
    requires budget >= 1 && i < ChunkCount(size, budget)
    ensures (i + 1) * budget == i * budget + budget
    ensures i < ChunkCount(size, budget) - 1 ==> i * budget + budget < size
    ensures i == ChunkCount(size, budget) - 1 ==> i * budget <= size <= i * budget + budget
  {
    var n := ChunkCount(size, budget);
    if size >= 1 {
      MulMonotone(if i < n - 1 then i + 1 else i, n - 1, budget);
    }
  }

  method Chunk(data: Bytes, budget: nat) returns (r: Option<seq<Bytes>>)
    requires budget >= 1
    ensures r.None? <==> ChunkCount(|data|, budget) > MAX_CHUNK_COUNT
    ensures r.Some? ==> CutInto(r.value, data, budget)
  {
    var count := (|data| + budget - 1) / budget;
    if count < 1 {
      count := 1;
    }
    if count > MAX_CHUNK_COUNT {
      return None;
    }
    assert count == ChunkCount(|data|, budget);
    var out: seq<Bytes> := [];
    var lo := 0;
    for i := 0 to count
      invariant lo == i * budget && PiecesSoFar(out, data, budget, i)
    {
      OnePieceMore(out, data, budget, i);
      var hi := if lo + budget < |data| then lo + budget else |data|;
      out := out + [data[lo..hi]];
      lo := lo + budget;
    }
    AllPieces(out, data, budget);
    r := Some(out);
  }

  /** The first i pieces: full ones but for the unit's last, and together the front of the unit. */
  ghost predicate PiecesSoFar(out: seq<Bytes>, data: Bytes, budget: nat, i: nat)
    requires budget >= 1
  {
    var count := ChunkCount(|data|, budget);
    && |out| == i <= count
    && (forall j | 0 <= j < i && j < count - 1 :: |out[j]| == budget)
    && (i == count ==> |out[count - 1]| <= budget)
    && (i * budget <= |data| || i == count)
    && Join(out) == data[..if i * budget <= |data| then i * budget else |data|]
  }

  lemma OnePieceMore(out: seq<Bytes>, data: Bytes, budget: nat, i: nat)
    requires budget >= 1 && PiecesSoFar(out, data, budget, i) && i < ChunkCount(|data|, budget)
    ensures var lo := i * budget;
            var hi := if lo + budget < |data| then lo + budget else |data|;
            lo <= hi && PiecesSoFar(out + [data[lo..hi]], data, budget, i + 1)
  {
    ChunkBounds(|data|, budget, i);
    var lo := i * budget;
    var hi := if lo + budget < |data| then lo + budget else |data|;
    assert (i + 1) * budget == lo + budget;
    assert (out + [data[lo..hi]])[..i] == out;
    assert data[..lo] + data[lo..hi] == data[..hi];
  }

  lemma AllPieces(out: seq<Bytes>, data: Bytes, budget: nat)
    requires budget >= 1 && PiecesSoFar(out, data, budget, ChunkCount(|data|, budget))
    ensures CutInto(out, data, budget)
  {
    var count := ChunkCount(|data|, budget);
    assert |data| <= count * budget;
    assert data[..|data|] == data;
  }

  lemma {:induction false} JoinLength(chunks: seq<Bytes>)
    ensures |Join(chunks)| == FrameBytes(chunks)
  {
    if chunks != [] {
      JoinLength(chunks[..|chunks| - 1]);
    }
  }

  /** The chunks of a non-empty unit are the shape parity covers, and frameBytes is the unit's length. */
  lemma CutIsRagged(chunks: seq<Bytes>, data: Bytes, budget: nat)
    requires budget >= 1 && data != [] && CutInto(chunks, data, budget)
    ensures Ragged(chunks, budget) && FrameBytes(chunks) == |data|
    ensures budget <= MAX_CHUNK_PAYLOAD ==> Width(chunks) <= MAX_CHUNK_PAYLOAD
  {
    var n := |chunks| - 1;
    JoinLength(chunks);
    FrameBytesFull(chunks[..n], budget);
    assert FrameBytes(chunks) == n * budget + |chunks[n]|;
  }

  // ----- loss -----

  function Lost(slots: Slots): nat {
    |Missing(slots)|
  }

  /** The parity positions a frame with `sent` symbols lost. */
  function LostSymbols(parity: Slots, sent: nat): int {
    sent - Available(parity)
  }

  /** Losing any min(k, n) of the datagrams of a delta frame still rebuilds the access unit. */
  lemma AnyLossRepaired(data: Bytes, budget: nat, k: nat, cut: seq<Bytes>, chunks: Slots, parity: Slots,
                        block: seq<Bytes>, after: Slots)
    requires 1 <= budget <= MAX_CHUNK_PAYLOAD && data != [] && 1 <= k <= MAX_PARITY_SYMBOLS
    requires CutInto(cut, data, budget) && |cut| <= MAX_PARITY_DATA_CHUNKS
    requires Symbols(cut, k).Ok? ==> Received(chunks, parity, cut, Symbols(cut, k).value)
    requires Lost(chunks) + LostSymbols(parity, if k <= |cut| then k else |cut|) <= if k <= |cut| then k else |cut|
    ensures Symbols(cut, k).Ok? && |Symbols(cut, k).value| == if k <= |cut| then k else |cut|
    ensures Refusal(chunks, parity, |data|).None?
    ensures Repaired(after, chunks, parity, |data|, block) ==> after == Whole(cut) && Join(cut) == data
  {
    CutIsRagged(cut, data, budget);
    LowerLevelIsPrefix(cut, k, k);
    RoundTrip(cut, budget, k, chunks, parity, block, after);
  }

  // ----- stripes -----

  /** Data chunk i has ordinal i; parity symbol r of an n-chunk frame has ordinal n + r. */
  function StripeOrdinal(chunkIndex: nat, chunkCount: nat, parityIndex: int): nat {
    if parityIndex >= 0 then chunkCount + parityIndex else chunkIndex
  }

  function Leg(ordinal: nat, legs: nat): (j: nat)
    requires legs >= 1
    ensures j < legs
  {
    ordinal % legs
  }

  /** How many of the first `total` ordinals leg j carries. */
  function LegLoad(total: nat, legs: nat, j: nat): nat
    requires legs >= 1
  {
    if total == 0 then 0
    else LegLoad(total - 1, legs, j) + (if Leg(total - 1, legs) == j then 1 else 0)
  }

  /** What the first `upto` legs carry together. */
  function LoadOfFirst(total: nat, legs: nat, upto: nat): nat
    requires legs >= 1
  {
    if upto == 0 then 0 else LoadOfFirst(total, legs, upto - 1) + LegLoad(total, legs, upto - 1)
  }

  lemma {:induction false} OneMoreOrdinal(total: nat, legs: nat, upto: nat)
    requires 1 <= legs && upto <= legs
    ensures LoadOfFirst(total + 1, legs, upto) == LoadOfFirst(total, legs, upto) + (if Leg(total, legs) < upto then 1 else 0)
  {
    if upto > 0 {
      OneMoreOrdinal(total, legs, upto - 1);
    }
  }

  /** The legs partition a frame's datagrams: each is on one leg, and together they carry all of them. */
  lemma {:induction false} LegsPartition(total: nat, legs: nat)
    requires 1 <= legs
    ensures LoadOfFirst(total, legs, legs) == total
  {
    if total == 0 {
      NothingToCarry(legs, legs);
    } else {
      LegsPartition(total - 1, legs);
      OneMoreOrdinal(total - 1, legs, legs);
    }
  }

  lemma {:induction false} NothingToCarry(legs: nat, upto: nat)
    requires 1 <= legs
    ensures LoadOfFirst(0, legs, upto) == 0
  {
    if upto > 0 {
      NothingToCarry(legs, upto - 1);
    }
  }

  function CeilDiv(a: nat, b: nat): nat
    requires b >= 1
  {
    (a + b - 1) / b
  }

  lemma NextOrdinal(d: nat, legs: nat)
    requires 1 <= legs <= MAX_STRIPE_LEGS
    ensures if d % legs == legs - 1 then (d + 1) / legs == d / legs + 1 && (d + 1) % legs == 0
            else (d + 1) / legs == d / legs && (d + 1) % legs == d % legs + 1
  {
    assert legs == 1 || legs == 2 || legs == 3 || legs == 4;
  }

  lemma {:induction false} LegLoadExact(total: nat, legs: nat, j: nat)
    requires 1 <= legs <= MAX_STRIPE_LEGS && j < legs
    ensures LegLoad(total, legs, j) == total / legs + (if j < total % legs then 1 else 0)
  {
    if total != 0 {
      LegLoadExact(total - 1, legs, j);
      NextOrdinal(total - 1, legs);
    }
  }

  /** Legs share the load evenly, so losing one costs at most ceil(total / legs) datagrams. */
  lemma LegsBalanced(total: nat, legs: nat, i: nat, j: nat)
    requires 1 <= legs <= MAX_STRIPE_LEGS && i < legs && j < legs
    ensures -1 <= LegLoad(total, legs, i) - LegLoad(total, legs, j) <= 1
    ensures LegLoad(total, legs, j) <= CeilDiv(total, legs)
  {
    LegLoadExact(total, legs, i);
    LegLoadExact(total, legs, j);
    assert legs == 1 || legs == 2 || legs == 3 || legs == 4;
  }

  /** What is left of a list of datagrams whose first ordinal is `base` when leg j is lost. */
  function WithoutLeg(sent: seq<Bytes>, base: nat, legs: nat, j: nat): (s: Slots)
    requires legs >= 1
    ensures |s| == |sent|
  {
    seq(|sent|, (i: nat) requires i < |sent| => if Leg(base + i, legs) == j then None else Some(sent[i]))
  }

  /** Leg j carries the chunks and symbols whose stripe ordinal is j modulo the number of legs. */
  function ChunksOff(cut: seq<Bytes>, legs: nat, j: nat): (s: Slots)
    requires legs >= 1
    ensures s == WithoutLeg(cut, 0, legs, j)
  {
    seq(|cut|, (i: nat) requires i < |cut| =>
      if Leg(StripeOrdinal(i, |cut|, -1), legs) == j then None else Some(cut[i]))
  }

  function SymbolsOff(symbols: seq<Bytes>, chunkCount: nat, legs: nat, j: nat): (s: Slots)
    requires legs >= 1
    ensures s == WithoutLeg(symbols, chunkCount, legs, j)
  {
    seq(|symbols|, (r: nat) requires r < |symbols| =>
      if Leg(StripeOrdinal(0, chunkCount, r), legs) == j then None else Some(symbols[r]))
  }

  lemma {:induction false} LostOnLeg(sent: seq<Bytes>, base: nat, legs: nat, j: nat)
    requires 1 <= legs
    ensures |Missing(WithoutLeg(sent, base, legs, j))| == LegLoad(base + |sent|, legs, j) - LegLoad(base, legs, j)
  {
    if sent != [] {
      var n := |sent| - 1;
      LostOnLeg(sent[..n], base, legs, j);
      assert WithoutLeg(sent, base, legs, j)[..n] == WithoutLeg(sent[..n], base, legs, j);
    }
  }

  lemma AvailableIsTheRest(parity: Slots)
    requires |parity| <= 2
    ensures |parity| - Available(parity) == |Missing(parity)|
  {
    if |parity| == 2 {
      assert parity[..1][..0] == [] && Missing(parity[..1]) == if parity[0].None? then [0] else [];
    } else if |parity| == 1 {
      assert Missing(parity[..0]) == [];
    }
  }

  lemma LegLossCount(cut: seq<Bytes>, symbols: seq<Bytes>, legs: nat, j: nat)
    requires 1 <= legs <= MAX_STRIPE_LEGS && j < legs && |symbols| <= 2
    ensures Lost(ChunksOff(cut, legs, j)) + LostSymbols(SymbolsOff(symbols, |cut|, legs, j), |symbols|)
            == LegLoad(|cut| + |symbols|, legs, j)
  {
    LostOnLeg(cut, 0, legs, j);
    LostOnLeg(symbols, |cut|, legs, j);
    assert Lost(ChunksOff(cut, legs, j)) == LegLoad(|cut|, legs, j);
    var parity := SymbolsOff(symbols, |cut|, legs, j);
    AvailableIsTheRest(parity);
    assert LostSymbols(parity, |symbols|) == |Missing(parity)|;
  }

  /** A whole lost leg is repaired whenever each leg carries at most as many datagrams as there are symbols. */
  lemma LostLegRepaired(data: Bytes, budget: nat, k: nat, cut: seq<Bytes>, symbols: seq<Bytes>, legs: nat, j: nat,
                        block: seq<Bytes>, after: Slots)
    requires 1 <= budget <= MAX_CHUNK_PAYLOAD && data != [] && 1 <= k <= MAX_PARITY_SYMBOLS
    requires CutInto(cut, data, budget) && |cut| <= MAX_PARITY_DATA_CHUNKS && Symbols(cut, k) == Ok(symbols)
    requires 1 <= legs <= MAX_STRIPE_LEGS && j < legs
    requires CeilDiv(|cut| + |symbols|, legs) <= |symbols|
    ensures var chunks, parity := ChunksOff(cut, legs, j), SymbolsOff(symbols, |cut|, legs, j);
            Refusal(chunks, parity, |data|).None? &&
            (Repaired(after, chunks, parity, |data|, block) ==> after == Whole(cut) && Join(cut) == data)
  {
    SymbolCount(cut, k, symbols);
    LegWithinSymbols(cut, symbols, legs, j);
    OffLegReceived(cut, symbols, legs, j);
    AnyLossRepaired(data, budget, k, cut, ChunksOff(cut, legs, j), SymbolsOff(symbols, |cut|, legs, j), block, after);
  }

  lemma SymbolCount(cut: seq<Bytes>, k: nat, symbols: seq<Bytes>)
    requires Symbols(cut, k) == Ok(symbols)
    ensures |symbols| == if k <= |cut| then k else |cut|
  {
    LowerLevelIsPrefix(cut, k, k);
  }

  lemma LegWithinSymbols(cut: seq<Bytes>, symbols: seq<Bytes>, legs: nat, j: nat)
    requires 1 <= legs <= MAX_STRIPE_LEGS && j < legs && |symbols| <= 2
    requires CeilDiv(|cut| + |symbols|, legs) <= |symbols|
    ensures Lost(ChunksOff(cut, legs, j)) + LostSymbols(SymbolsOff(symbols, |cut|, legs, j), |symbols|) <= |symbols|
  {
    LegLossCount(cut, symbols, legs, j);
    LegsBalanced(|cut| + |symbols|, legs, j, j);
  }

  lemma OffLegReceived(cut: seq<Bytes>, symbols: seq<Bytes>, legs: nat, j: nat)
    requires legs >= 1
    ensures Received(ChunksOff(cut, legs, j), SymbolsOff(symbols, |cut|, legs, j), cut, symbols)
  {}
}
