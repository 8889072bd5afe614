/** One delta frame on its way out, by the relay's answers and by number: gawk-server/publisher/send.go. */
module DeltaLaws {
  import opened Outcomes
  import opened Bytes
  import opened Parity
  import opened ParityRecovery
  import opened Delta
  import opened DeltaSender

  /** Of n datagrams put to the relay, the first k were accepted and the next, if there is one, was not. */
  ghost predicate AcceptedUpTo(answers: nat -> Answer, from: nat, n: nat, k: nat) {
    k <= n && (forall i | from <= i < from + k :: answers(i) == Accepted) && (k < n ==> answers(from + k) != Accepted)
  }

  lemma PrefixIff(answers: nat -> Answer, n: nat, k: nat)
    ensures AcceptedPrefix(answers, n) == k <==> AcceptedUpTo(answers, 0, n, k)
  {
    var p := AcceptedPrefix(answers, n);
    assert n > p ==> !answers(p).Accepted?;
  }

  lemma PrefixAfterIff(answers: nat -> Answer, from: nat, n: nat, k: nat)
    ensures AcceptedPrefix(After(answers, from), n) == k <==> AcceptedUpTo(answers, from, n, k)
  {
    var later := After(answers, from);
    PrefixIff(later, n, k);
    forall i: nat | i < n ensures later(i) == answers(from + i) {}
    if forall i | 0 <= i < k :: later(i) == Accepted {
      forall i | from <= i < from + k ensures answers(i) == Accepted {
        assert later(i - from) == answers(i);
      }
    }
  }

  /** A unit is cut unless it is longer than 3000 full chunks. */
  lemma CutIff(size: nat, budget: nat)
    requires budget >= 1
    ensures ChunkCount(size, budget) > MAX_CHUNK_COUNT <==> size > 3000 * budget
  {
    var n := ChunkCount(size, budget);
    if n <= 3000 {
      MulMonotone(n, 3000, budget);
    } else {
      MulMonotone(3000, n - 1, budget);
    }
  }

  /** What an attempt comes to. */
  lemma OutcomeIff(size: nat, budget: nat, answers: nat -> Answer, n: nat)
    requires budget >= 1 && n == ChunkCount(size, budget)
    ensures var o := Outcome(size, budget, answers);
            if size > 3000 * budget then o == Unsendable
            else (o == Complete <==> forall i | 0 <= i < n :: answers(i) == Accepted) &&
                 forall k: nat, a: Answer ::
                   o == Refused(k, a) <==>
                   k < n && a == answers(k) && a != Accepted && forall i | 0 <= i < k :: answers(i) == Accepted
  {
    CutIff(size, budget);
    var p := AcceptedPrefix(answers, n);
    PrefixIff(answers, n, p);
    forall k: nat | k < n && answers(k) != Accepted && forall i | 0 <= i < k :: answers(i) == Accepted ensures p == k {
      assert AcceptedUpTo(answers, 0, n, k);
      PrefixIff(answers, n, k);
    }
  }

  // ----- the traffic -----

  lemma {:induction false} DataBytesAre(cut: seq<Bytes>, data: Bytes, budget: nat, k: nat)
    requires budget >= 1 && CutInto(cut, data, budget) && k <= |cut|
    ensures DataBytes(|data|, budget, k) == 20 * k + |Join(cut[..k])|
  {
    if k > 0 {
      DataBytesAre(cut, data, budget, k - 1);
      NextChunkBytes(cut, data, budget, k - 1);
      assert cut[..k][..k - 1] == cut[..k - 1];
    }
  }

  /** How many parity datagrams follow n chunks that went out whole. */
  function SymbolsDue(n: nat, level: int): nat {
    if n > 255 || (level != 1 && level != 2) then 0 else if level == 2 && n >= 2 then 2 else 1
  }

  /** What went out of a frame cut into these chunks: k of them, then p symbols, each as the relay's answers say. */
  ghost predicate WentOut(cut: seq<Bytes>, level: int, answers: nat -> Answer, t: Traffic) {
    && AcceptedUpTo(answers, 0, |cut|, t.datagrams)
    && t.bytes == 20 * t.datagrams + |Join(cut[..t.datagrams])|
    && (if t.datagrams < |cut| then t.parityChunks == 0
        else AcceptedUpTo(answers, |cut|, SymbolsDue(|cut|, level), t.parityChunks))
    && t.parityBytes == t.parityChunks * (13 + Width(cut))
  }

  /**
   * What one attempt adds to the counters: a 20-byte header and the payload of each chunk up to the first one refused,
   * and behind a whole frame a 13-byte header and the chunk width of each symbol up to the first one refused.
   */
  lemma SentIs(cut: seq<Bytes>, data: Bytes, budget: nat, level: int, answers: nat -> Answer)
    requires budget >= 1 && CutInto(cut, data, budget)
    ensures var t := Sent(|data|, budget, level, answers);
            if |data| > 3000 * budget then t == Traffic(0, 0, 0, 0) else WentOut(cut, level, answers, t)
  {
    CutIff(|data|, budget);
    var t, n := Sent(|data|, budget, level, answers), |cut|;
    if |data| <= 3000 * budget {
      PrefixIff(answers, n, t.datagrams);
      DataBytesAre(cut, data, budget, t.datagrams);
      assert ParityCount(|data|, budget, level) == SymbolsDue(n, level);
      PrefixAfterIff(answers, n, SymbolsDue(n, level), t.parityChunks);
      CutWidth(cut, data, budget);
    }
  }

  // ----- the budget -----

  /** A refusal shrinks the budget exactly when the path named a size that leaves less, and something, after a 20-byte header. */
  lemma ShrinksIff(budget: nat, a: Answer, b: nat)
    ensures Shrunk(budget, a) == Some(b) <==> a == TooLarge(b + 20) && 1 <= b < budget
  {}
}
