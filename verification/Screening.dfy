/** The sliding window of gawk-server/screening/window.go: a ring with hysteresis, against the list of all its scores. */
module Screening {

  datatype WindowRule = WindowRule(threshold: real, size: int, hits: int) {
    predicate Valid() {
      0.0 < threshold <= 1.0 && 1 <= size && 1 <= hits <= size
    }
  }

  datatype Transition = Unchanged | Tripped | Cleared

  // ----- the reference: everything ever observed -----

  /** The last min(n, size) scores. */
  function Recent(h: seq<real>, size: nat): seq<real> {
    if |h| <= size then h else h[|h| - size..]
  }

  function HitCount(s: seq<real>, threshold: real): (n: nat)
    ensures n <= |s|
  {
    if s == [] then 0
    else HitCount(s[..|s| - 1], threshold) + (if s[|s| - 1] >= threshold then 1 else 0)
  }

  function HitsNow(rule: WindowRule, h: seq<real>): nat
    requires rule.Valid()
  {
    HitCount(Recent(h, rule.size), rule.threshold)
  }

  /** Whether the window is tripped after observing h. */
  predicate IsTripped(rule: WindowRule, h: seq<real>)
    requires rule.Valid()
  {
    h != [] &&
    var was := IsTripped(rule, h[..|h| - 1]);
    if was then !(|h| >= rule.size && HitsNow(rule, h) == 0) else HitsNow(rule, h) >= rule.hits
  }

  /** What the last sample did. */
  function LastTransition(rule: WindowRule, h: seq<real>): Transition
    requires rule.Valid() && h != []
  {
    var was, now := IsTripped(rule, h[..|h| - 1]), IsTripped(rule, h);
    if !was && now then Tripped else if was && !now then Cleared else Unchanged
  }

  // ----- the ring -----

  lemma MulAtLeast(d: int, n: int)
    requires n >= 0
    ensures d >= 1 ==> d * n >= n
    ensures d <= -1 ==> d * n <= -n
  {
    if d >= 1 {
      assert d * n == n + (d - 1) * n;
    } else if d <= -1 {
      assert d * n == -n + (d + 1) * n;
    }
  }

  lemma ModUnique(a: int, n: nat, q: int, r: nat)
    requires n >= 1 && a == q * n + r && r < n
    ensures a % n == r
  {
    var q', r' := a / n, a % n;
    assert (q' - q) * n == r - r';
    MulAtLeast(q' - q, n);
  }

  lemma ModShift(a: nat, b: nat, n: nat)
    requires n >= 1
    ensures (a % n + b) % n == (a + b) % n
  {
    var q := a / n;
    var q2, r2 := (a % n + b) / n, (a % n + b) % n;
    assert a + b == q * n + (a % n + b);
    assert a + b == (q + q2) * n + r2;
    ModUnique(a + b, n, q + q2, r2);
  }

  /** Fewer than n consecutive positions land in different slots. */
  lemma ModApart(j: nat, m: nat, n: nat)
    requires j < m < j + n
    ensures j % n != m % n
  {
    if j % n == m % n {
      assert (m / n - j / n) * n == m - j;
      MulAtLeast(m / n - j / n, n);
      assert false;
    }
  }

  class Window {
    const rule: WindowRule
    const scores: array<real>
    var next: nat
    var n: nat
    var tripped: bool
    ghost var history: seq<real>

    /** The ring holds the end of the history. */
    ghost predicate RingOk()
      reads this, scores
    {
      && rule.Valid() && scores.Length == rule.size
      && n == (if |history| <= rule.size then |history| else rule.size)
      && next == |history| % rule.size
      && (forall j | |history| - n <= j < |history| :: scores[j % rule.size] == history[j])
    }

    ghost predicate Valid()
      reads this, scores
    {
      RingOk() && tripped == IsTripped(rule, history)
    }

    constructor (rule: WindowRule)
      requires rule.Valid()
      ensures Valid() && history == [] && this.rule == rule && fresh(scores)
    {
      this.rule := rule;
      scores := new real[rule.size](_ => 0.0);
      next, n, tripped, history := 0, 0, false, [];
    }

    /** The held samples, oldest first. */
    method Scores() returns (out: seq<real>)
      requires RingOk()
      ensures out == Recent(history, rule.size)
    {
      out := [];
      ghost var oldest := |history| - n;
      StartSlot();
      var start := (next + rule.size - n) % rule.size;
      for i := 0 to n
        invariant out == history[oldest..oldest + i]
      {
        var slot := (start + i) % rule.size;
        SlotHolds(i, slot);
        out := out + [scores[slot]];
      }
    }

    lemma SlotHolds(i: nat, slot: nat)
      requires RingOk() && i < n && slot == ((next + rule.size - n) % rule.size + i) % rule.size
      ensures slot < rule.size && scores[slot] == history[|history| - n + i]
    {
      ghost var j: nat := |history| - n + i;
      StartSlot();
      ModShift(|history| - n, i, rule.size);
      assert slot == j % rule.size && scores[j % rule.size] == history[j];
    }

    lemma StartSlot()
      requires RingOk()
      ensures (next + rule.size - n) % rule.size == (|history| - n) % rule.size
    {
      if n == rule.size {
        ModShift(|history| - n, n, rule.size);
        ModShift(n, |history| - n, rule.size);
        ModUnique(next, rule.size, 0, next);
        ModUnique(|history|, rule.size, |history| / rule.size, next);
        ModUnique(|history| - n, rule.size, |history| / rule.size - 1, next);
      } else if |history| == n {
        ModUnique(|history|, rule.size, 0, |history|);
        ModUnique(rule.size, rule.size, 1, 0);
        ModUnique(0, rule.size, 0, 0);
      }
    }

    /** How many held samples score at or above the threshold. */
    method Hits() returns (hits: nat)
      requires RingOk()
      ensures hits == HitsNow(rule, history)
    {
      hits := 0;
      var held := Scores();
      for i := 0 to |held|
        invariant hits == HitCount(held[..i], rule.threshold)
      {
        assert held[..i + 1][..i] == held[..i];
        if held[i] >= rule.threshold {
          hits := hits + 1;
        }
      }
      assert held[..|held|] == held;
    }

    /** The ring write. */
    method Record(score: real)
      requires RingOk()
      modifies this`next, this`n, this`history, scores
      ensures RingOk() && history == old(history) + [score]
    {
      ghost var m := |history|;
      forall j: nat | m - rule.size < j < m ensures j % rule.size != m % rule.size {
        ModApart(j, m, rule.size);
      }
      scores[next] := score;
      ModShift(m, 1, rule.size);
      next := (next + 1) % rule.size;
      if n < rule.size {
        n := n + 1;
      }
      history := history + [score];
    }

    method Observe(score: real) returns (t: Transition)
      requires Valid()
      modifies this, scores
      ensures Valid() && history == old(history) + [score]
      ensures t == LastTransition(rule, history)
    {
      Record(score);
      assert history[..|history| - 1] == old(history);
      var hits := Hits();
      if !tripped && hits >= rule.hits {
        tripped := true;
        return Tripped;
      }
      if tripped && n == rule.size && hits == 0 {
        tripped := false;
        return Cleared;
      }
      return Unchanged;
    }
  }

  // ----- hysteresis -----

  lemma {:induction false} HitCountSnoc(s: seq<real>, x: real, threshold: real)
    ensures HitCount(s + [x], threshold) == HitCount(s, threshold) + (if x >= threshold then 1 else 0)
  {
    assert (s + [x])[..|s|] == s;
  }

  lemma {:induction false} HitCountDrop(s: seq<real>, threshold: real)
    requires s != []
    ensures HitCount(s[1..], threshold) <= HitCount(s, threshold)
  {
    if |s| > 1 {
      HitCountDrop(s[..|s| - 1], threshold);
      assert s[1..][..|s| - 2] == s[..|s| - 1][1..];
    }
  }

  lemma {:induction false} ClearMeansFewHits(rule: WindowRule, h: seq<real>)
    requires rule.Valid() && !IsTripped(rule, h)
    ensures HitsNow(rule, h) < rule.hits
  {}

  /** One more sample adds at most itself to the hits held. */
  lemma HitsGrowByLast(rule: WindowRule, h: seq<real>)
    requires rule.Valid() && h != []
    ensures HitsNow(rule, h) <= HitsNow(rule, h[..|h| - 1]) + (if h[|h| - 1] >= rule.threshold then 1 else 0)
  {
    var init, x := h[..|h| - 1], h[|h| - 1];
    var r := Recent(init, rule.size);
    HitCountSnoc(r, x, rule.threshold);
    if |init| < rule.size {
      assert Recent(h, rule.size) == r + [x];
    } else {
      assert Recent(h, rule.size) == (r + [x])[1..];
      HitCountDrop(r + [x], rule.threshold);
    }
  }

  /** A window trips only on a sample at or above the threshold. */
  lemma TripLandsOnHit(rule: WindowRule, h: seq<real>)
    requires rule.Valid() && h != [] && LastTransition(rule, h) == Tripped
    ensures h[|h| - 1] >= rule.threshold
  {
    ClearMeansFewHits(rule, h[..|h| - 1]);
    HitsGrowByLast(rule, h);
  }
}
