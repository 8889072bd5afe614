/** sendDelta, shrinkChunk and chunkWithParity of gawk-server/publisher/send.go: one delta frame on its way out. */
module DeltaSender {
  import opened Outcomes
  import opened Bytes
  import opened GaloisField
  import opened Parity
  import opened ParityCode
  import opened ParityRecovery
  import opened Delta

  const VIDEO_CHUNK_HEADER_SIZE := 20
  const PARITY_CHUNK_HEADER_SIZE := 13

  /** What the relay session answers to one datagram. */
  datatype Answer = Accepted | TooLarge(maxDatagram: int) | Failed

  /** The datagrams of one frame: data chunks, then parity. */
  datatype Datagrams = Datagrams(cut: seq<Bytes>, symbols: seq<Bytes>)

  function SymbolsSent(cut: seq<Bytes>, level: int): seq<Bytes> {
    if level <= 0 || |cut| > MAX_PARITY_DATA_CHUNKS then []
    else match Symbols(cut, level)
         case Ok(symbols) => symbols
         case Err(_) => []
  }

  /** How many parity datagrams go with a frame, and how long each symbol is. */
  function ParityCount(size: nat, budget: nat, level: int): nat
    requires budget >= 1
  {
    var n := ChunkCount(size, budget);
    if level <= 0 || level > MAX_PARITY_SYMBOLS || n > MAX_PARITY_DATA_CHUNKS then 0 else if level <= n then level else n
  }

  function SymbolSize(size: nat, budget: nat): nat {
    if size < budget then size else budget
  }

  /** The last chunk holds what the full ones leave. */
  lemma LastChunk(cut: seq<Bytes>, data: Bytes, budget: nat)
    requires budget >= 1 && CutInto(cut, data, budget)
    ensures (|cut| - 1) * budget + |cut[|cut| - 1]| == |data|
  {
    var n := |cut| - 1;
    JoinLength(cut);
    FrameBytesFull(cut[..n], budget);
  }

  lemma CutWidth(cut: seq<Bytes>, data: Bytes, budget: nat)
    requires budget >= 1 && CutInto(cut, data, budget)
    ensures Width(cut) == SymbolSize(|data|, budget)
  {
    LastChunk(cut, data, budget);
    if |cut| > 1 {
      assert |cut[0]| == budget;
      MulMonotone(1, |cut| - 1, budget);
    }
  }

  /** A frame parity cannot cover still ships, without any. */
  method ChunkWithParity(t: Tables, data: Bytes, budget: nat, level: int) returns (r: Option<Datagrams>)
    requires t.Valid() && 1 <= budget <= MAX_CHUNK_PAYLOAD
    ensures r.None? <==> ChunkCount(|data|, budget) > MAX_CHUNK_COUNT
    ensures r.Some? ==> CutInto(r.value.cut, data, budget)
    ensures r.Some? ==> r.value.symbols == SymbolsSent(r.value.cut, level)
    ensures r.Some? ==> |r.value.symbols| == ParityCount(|data|, budget, level)
    ensures r.Some? ==> forall s | s in r.value.symbols :: |s| == SymbolSize(|data|, budget)
    ensures r.Some? && 1 <= level <= MAX_PARITY_SYMBOLS && |r.value.cut| <= MAX_PARITY_DATA_CHUNKS ==>
              Symbols(r.value.cut, level) == Ok(r.value.symbols)
  {
    var cut := Chunk(data, budget);
    if cut.None? {
      return None;
    }
    CutWidth(cut.value, data, budget);
    if level <= 0 || |cut.value| > MAX_PARITY_DATA_CHUNKS {
      return Some(Datagrams(cut.value, []));
    }
    var symbols := ComputeParity(t, cut.value, level);
    if symbols.Err? {
      return Some(Datagrams(cut.value, []));
    }
    LowerLevelIsPrefix(cut.value, level, level);
    return Some(Datagrams(cut.value, symbols.value));
  }

  /** The data chunks the relay accepted before the first refusal. */
  function AcceptedPrefix(answers: nat -> Answer, n: nat): (k: nat)
    ensures k <= n && (forall i | 0 <= i < k :: answers(i).Accepted?) && (k < n ==> !answers(k).Accepted?)
  {
    if n == 0 then 0
    else
      var k := AcceptedPrefix(answers, n - 1);
      if k == n - 1 && answers(n - 1).Accepted? then n else k
  }

  /** The answers to the datagrams after the first n. */
  function After(answers: nat -> Answer, n: nat): nat -> Answer {
    (i: nat) => answers(n + i)
  }

  /** What the counters of a sender say went out. */
  datatype Traffic = Traffic(datagrams: nat, bytes: nat, parityChunks: nat, parityBytes: nat) {
    function Plus(t: Traffic): Traffic {
      Traffic(datagrams + t.datagrams, bytes + t.bytes, parityChunks + t.parityChunks, parityBytes + t.parityBytes)
    }
  }

  const NO_TRAFFIC := Traffic(0, 0, 0, 0)

  /** The bytes of the first k data chunks. */
  function DataBytes(size: nat, budget: nat, k: nat): nat {
    var full := k * budget;
    k * VIDEO_CHUNK_HEADER_SIZE + SymbolSize(size, full)
  }

  function DataTraffic(size: nat, budget: nat, k: nat): Traffic {
    Traffic(k, DataBytes(size, budget, k), 0, 0)
  }

  function ParityTraffic(symbolSize: nat, p: nat): Traffic {
    Traffic(0, 0, p, p * (PARITY_CHUNK_HEADER_SIZE + symbolSize))
  }

  /** Data chunks go out until one is refused; parity trails a frame that went out whole, until one of it is refused. */
  function Sent(size: nat, budget: nat, level: int, answers: nat -> Answer): Traffic
    requires budget >= 1
  {
    var n := ChunkCount(size, budget);
    if n > MAX_CHUNK_COUNT then NO_TRAFFIC
    else
      var k := AcceptedPrefix(answers, n);
      var p := if k < n then 0 else AcceptedPrefix(After(answers, n), ParityCount(size, budget, level));
      Traffic(k, DataBytes(size, budget, k), p, p * (PARITY_CHUNK_HEADER_SIZE + SymbolSize(size, budget)))
  }

  /** A refused frame sends no parity. */
  lemma SentRefused(c: Traffic, size: nat, budget: nat, level: int, answers: nat -> Answer, n: nat, k: nat)
    requires budget >= 1 && n == ChunkCount(size, budget) <= MAX_CHUNK_COUNT && k == AcceptedPrefix(answers, n) < n
    ensures Outcome(size, budget, answers) == Refused(k, answers(k))
    ensures c.Plus(DataTraffic(size, budget, k)) == c.Plus(Sent(size, budget, level, answers))
  {
  }

  lemma SentWhole(c: Traffic, size: nat, budget: nat, level: int, answers: nat -> Answer, n: nat, p: nat)
    requires budget >= 1 && n == ChunkCount(size, budget) <= MAX_CHUNK_COUNT && n == AcceptedPrefix(answers, n)
    requires p == AcceptedPrefix(After(answers, n), ParityCount(size, budget, level))
    ensures Outcome(size, budget, answers) == Complete
    ensures c.Plus(DataTraffic(size, budget, n)).Plus(ParityTraffic(SymbolSize(size, budget), p)) ==
            c.Plus(Sent(size, budget, level, answers))
  {
  }

  lemma NextChunkBytes(cut: seq<Bytes>, data: Bytes, budget: nat, i: nat)
    requires budget >= 1 && CutInto(cut, data, budget) && i < |cut|
    ensures DataBytes(|data|, budget, i + 1) == DataBytes(|data|, budget, i) + VIDEO_CHUNK_HEADER_SIZE + |cut[i]|
  {
    ChunkBounds(|data|, budget, i);
    LastChunk(cut, data, budget);
  }

  /** A frame that goes out whole costs its own bytes and one header a chunk. */
  lemma WholeFrameCosts(size: nat, budget: nat, level: int, answers: nat -> Answer)
    requires budget >= 1 && Outcome(size, budget, answers).Complete?
    ensures var n := ChunkCount(size, budget);
            Sent(size, budget, level, answers).datagrams == n &&
            Sent(size, budget, level, answers).bytes == size + n * VIDEO_CHUNK_HEADER_SIZE
  {
    var n := ChunkCount(size, budget);
    ChunkBounds(size, budget, n - 1);
  }

  /** The budget after a refusal, when it can shrink. */
  function Shrunk(budget: nat, a: Answer): (b: Option<nat>)
    ensures b.Some? ==> 1 <= b.value < budget
  {
    if a.TooLarge? && 1 <= a.maxDatagram - VIDEO_CHUNK_HEADER_SIZE < budget
    then Some(a.maxDatagram - VIDEO_CHUNK_HEADER_SIZE) else None
  }

  /** What one attempt at a frame comes to: everything sent, or the first refusal. */
  datatype Attempt = Unsendable | Complete | Refused(sent: nat, answer: Answer)

  function Outcome(size: nat, budget: nat, answers: nat -> Answer): Attempt
    requires budget >= 1
  {
    var n := ChunkCount(size, budget);
    if n > MAX_CHUNK_COUNT then Unsendable
    else if AcceptedPrefix(answers, n) == n then Complete
    else Refused(AcceptedPrefix(answers, n), answers(AcceptedPrefix(answers, n)))
  }

  class Sender {
    var chunkPayload: nat
    var sentFrames: nat
    var framesDropped: nat
    var datagramsSent: nat
    var bytesSent: nat
    var parityChunksSent: nat
    var parityBytesSent: nat

    ghost predicate Valid()
      reads this
    {
      1 <= chunkPayload <= MAX_CHUNK_PAYLOAD
    }

    ghost function Counters(): Traffic
      reads this
    {
      Traffic(datagramsSent, bytesSent, parityChunksSent, parityBytesSent)
    }

    constructor ()
      ensures Valid() && chunkPayload == MAX_CHUNK_PAYLOAD && sentFrames == framesDropped == 0 && Counters() == NO_TRAFFIC
    {
      chunkPayload := MAX_CHUNK_PAYLOAD;
      sentFrames, framesDropped := 0, 0;
      datagramsSent, bytesSent, parityChunksSent, parityBytesSent := 0, 0, 0, 0;
    }

    method ShrinkChunk(a: Answer) returns (shrunk: bool)
      requires Valid()
      modifies this`chunkPayload
      ensures Valid()
      ensures shrunk == Shrunk(old(chunkPayload), a).Some?
      ensures chunkPayload == if shrunk then Shrunk(old(chunkPayload), a).value else old(chunkPayload)
    {
      if !a.TooLarge? {
        return false;
      }
      var payload := a.maxDatagram - VIDEO_CHUNK_HEADER_SIZE;
      if payload < 1 || payload >= chunkPayload {
        return false;
      }
      chunkPayload := payload;
      return true;
    }

    /** One attempt: data chunks in order until one is refused, and behind a whole frame its parity. */
    method Attempt(t: Tables, data: Bytes, level: int, answers: nat -> Answer) returns (r: Attempt)
      requires Valid() && t.Valid()
      modifies this`datagramsSent, this`bytesSent, this`parityChunksSent, this`parityBytesSent
      ensures r == Outcome(|data|, chunkPayload, answers)
      ensures Counters() == old(Counters()).Plus(Sent(|data|, chunkPayload, level, answers))
    {
      var d := ChunkWithParity(t, data, chunkPayload, level);
      if d.None? {
        return Unsendable;
      }
      var n := |d.value.cut|;
      var k := SendChunks(d.value.cut, data, chunkPayload, answers);
      if k < n {
        SentRefused(old(Counters()), |data|, chunkPayload, level, answers, n, k);
        return Refused(k, answers(k));
      }
      ghost var p := SendParity(d.value.symbols, SymbolSize(|data|, chunkPayload), After(answers, n));
      SentWhole(old(Counters()), |data|, chunkPayload, level, answers, n, p);
      return Complete;
    }

    /** The data chunks in order, up to the first refusal. */
    method SendChunks(cut: seq<Bytes>, ghost data: Bytes, ghost budget: nat, answers: nat -> Answer) returns (sent: nat)
      requires budget >= 1 && CutInto(cut, data, budget)
      modifies this`datagramsSent, this`bytesSent
      ensures sent == AcceptedPrefix(answers, |cut|)
      ensures Counters() == old(Counters()).Plus(DataTraffic(|data|, budget, sent))
    {
      sent := 0;
      while sent < |cut|
        invariant 0 <= sent <= |cut| && AcceptedPrefix(answers, sent) == sent
        invariant datagramsSent == old(datagramsSent) + sent && bytesSent == old(bytesSent) + DataBytes(|data|, budget, sent)
      {
        if !answers(sent).Accepted? {
          PrefixStops(answers, sent, |cut|);
          return;
        }
        NextChunkBytes(cut, data, budget, sent);
        datagramsSent := datagramsSent + 1;
        bytesSent := bytesSent + VIDEO_CHUNK_HEADER_SIZE + |cut[sent]|;
        sent := sent + 1;
      }
    }

    /** Parity trails the data chunks; a refusal ends it and is nobody's failure. */
    method SendParity(symbols: seq<Bytes>, ghost size: nat, answers: nat -> Answer) returns (ghost p: nat)
      requires forall s | s in symbols :: |s| == size
      modifies this`parityChunksSent, this`parityBytesSent
      ensures p == AcceptedPrefix(answers, |symbols|) && Counters() == old(Counters()).Plus(ParityTraffic(size, p))
    {
      p := AcceptedPrefix(answers, |symbols|);
      for j := 0 to |symbols|
        invariant AcceptedPrefix(answers, j) == j
        invariant parityChunksSent == old(parityChunksSent) + j
        invariant parityBytesSent == old(parityBytesSent) + j * (PARITY_CHUNK_HEADER_SIZE + size)
      {
        if !answers(j).Accepted? {
          PrefixStops(answers, j, |symbols|);
          return;
        }
        OneMoreTimes(j, PARITY_CHUNK_HEADER_SIZE + size);
        parityChunksSent := parityChunksSent + 1;
        parityBytesSent := parityBytesSent + PARITY_CHUNK_HEADER_SIZE + |symbols[j]|;
      }
    }

    /**
     * At most two attempts; the second only after a datagram was too large for a budget that could shrink. Exactly
     * one of the two frame counters moves, and the budget only ever goes down to what the path accepts.
     */
    method SendDelta(t: Tables, data: Bytes, level: int, relay: nat -> nat -> Answer) returns (attempts: nat)
      requires Valid() && t.Valid()
      modifies this
      ensures Valid() && 1 <= attempts <= 2 && chunkPayload <= old(chunkPayload)
      ensures var o := Outcome(|data|, old(chunkPayload), relay(0));
              var b := if o.Refused? then Shrunk(old(chunkPayload), o.answer) else None;
              if b.None? then
                attempts == 1 && chunkPayload == old(chunkPayload) && sentFrames == old(sentFrames) + (if o.Complete? then 1 else 0)
              else
                var o2 := Outcome(|data|, b.value, relay(1));
                && attempts == 2 && sentFrames == old(sentFrames) + (if o2.Complete? then 1 else 0)
                && chunkPayload == if o2.Refused? && Shrunk(b.value, o2.answer).Some? then Shrunk(b.value, o2.answer).value else b.value
      ensures (sentFrames - old(sentFrames)) + (framesDropped - old(framesDropped)) == 1
      ensures var o := Outcome(|data|, old(chunkPayload), relay(0));
              var b := if o.Refused? then Shrunk(old(chunkPayload), o.answer) else None;
              var first := old(Counters()).Plus(Sent(|data|, old(chunkPayload), level, relay(0)));
              Counters() == if b.None? then first else first.Plus(Sent(|data|, b.value, level, relay(1)))
    {
      attempts := 0;
      while attempts < 2
        invariant Valid() && attempts <= 2
        invariant sentFrames == old(sentFrames) && framesDropped == old(framesDropped)
        invariant attempts == 0 ==> chunkPayload == old(chunkPayload) && Counters() == old(Counters())
        invariant attempts >= 1 ==>
                    var o := Outcome(|data|, old(chunkPayload), relay(0));
                    o.Refused? && Shrunk(old(chunkPayload), o.answer).Some? &&
                    var b := Shrunk(old(chunkPayload), o.answer).value;
                    var first := old(Counters()).Plus(Sent(|data|, old(chunkPayload), level, relay(0)));
                    if attempts == 1 then chunkPayload == b && Counters() == first
                    else
                      var o2 := Outcome(|data|, b, relay(1));
                      Counters() == first.Plus(Sent(|data|, b, level, relay(1))) && o2.Refused? && Shrunk(b, o2.answer) == Some(chunkPayload)
      {
        var o := Attempt(t, data, level, relay(attempts));
        attempts := attempts + 1;
        if o.Complete? {
          sentFrames := sentFrames + 1;
          return;
        }
        if o.Refused? {
          var shrunk := ShrinkChunk(o.answer);
          if shrunk {
            continue;
          }
        }
        framesDropped := framesDropped + 1;
        return;
      }
      framesDropped := framesDropped + 1;
    }
  }

  lemma OneMoreTimes(j: nat, c: nat)
    ensures (j + 1) * c == j * c + c
  {}

  lemma {:induction false} PrefixStops(answers: nat -> Answer, i: nat, n: nat)
    requires i < n && AcceptedPrefix(answers, i) == i && !answers(i).Accepted?
    ensures AcceptedPrefix(answers, n) == i
  {
    if n > i + 1 {
      PrefixStops(answers, i, n - 1);
    }
  }

  /** Every datagram of an attempt fits the path that answered TooLarge, once the budget has shrunk to it. */
  lemma ShrunkDatagramsFit(data: Bytes, budget: nat, a: Answer, cut: seq<Bytes>, i: nat)
    requires Shrunk(budget, a).Some? && CutInto(cut, data, Shrunk(budget, a).value) && i < |cut|
    ensures VIDEO_CHUNK_HEADER_SIZE + |cut[i]| <= a.maxDatagram
  {
    assert i == |cut| - 1 || |cut[i]| == Shrunk(budget, a).value;
  }
}
