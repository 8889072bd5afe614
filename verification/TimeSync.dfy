/** The clock estimate of gawk-server/publisher/timesync.go: samples in, the fastest of the last few out. */
module TimeSync {
  import opened Outcomes

  const WINDOW := 8
  const TWO63 := 0x8000_0000_0000_0000
  const TWO64 := 0x1_0000_0000_0000_0000

  type u64 = x: int | 0 <= x < TWO64

  /** One ping: sent at t0 and answered at t1 on the local clock, stamped server on the relay's. */
  datatype Exchange = Exchange(t0: u64, server: u64, t1: u64)

  datatype Sample = Sample(offset: int, rtt: nat)

  /** Conversion to int64, and int64 subtraction's wrap. */
  function ToInt64(x: int): int {
    var m := x % TWO64;
    if m < TWO63 then m else m - TWO64
  }

  lemma ToInt64Wraps(x: int) returns (k: int)
    ensures ToInt64(x) == x + k * TWO64
    ensures -TWO63 <= ToInt64(x) < TWO63
    ensures -TWO63 <= x < TWO63 ==> k == 0
  {
    k := -(x / TWO64) - (if x % TWO64 < TWO63 then 0 else 1);
  }

  function Midpoint(x: Exchange): int {
    x.t0 + (x.t1 - x.t0) / 2
  }

  function Measured(x: Exchange): Sample
    requires x.t0 <= x.t1
  {
    Sample(ToInt64(ToInt64(x.server) - ToInt64(Midpoint(x))), x.t1 - x.t0)
  }

  /** Exchanges that end before they begin are ignored. */
  function Accepted(history: seq<Exchange>): (r: seq<Exchange>)
    ensures forall x | x in r :: x.t0 <= x.t1 && x in history
  {
    if history == [] then []
    else
      var before := Accepted(history[..|history| - 1]);
      var x := history[|history| - 1];
      if x.t0 <= x.t1 then before + [x] else before
  }

  function LastFew<T>(s: seq<T>): seq<T> {
    if |s| <= WINDOW then s else s[|s| - WINDOW..]
  }

  predicate AllAccepted(xs: seq<Exchange>) {
    forall x | x in xs :: x.t0 <= x.t1
  }

  /** The first of the samples with the least round trip. */
  function Fastest(xs: seq<Exchange>): (r: Option<Sample>)
    requires AllAccepted(xs)
    ensures r.None? <==> xs == []
  {
    if xs == [] then None
    else
      var x := Measured(xs[|xs| - 1]);
      var before := Fastest(xs[..|xs| - 1]);
      if before.None? || x.rtt < before.value.rtt then Some(x) else before
  }

  lemma AcceptedGrows(history: seq<Exchange>, x: Exchange)
    ensures Accepted(history + [x]) == Accepted(history) + (if x.t0 <= x.t1 then [x] else [])
  {
    assert (history + [x])[..|history|] == history;
  }

  ghost predicate SamplesOf(samples: seq<Sample>, window: seq<Exchange>) {
    AllAccepted(window) && |samples| == |window| && forall i | 0 <= i < |window| :: samples[i] == Measured(window[i])
  }

  lemma SamplesSlide(samples: seq<Sample>, window: seq<Exchange>, x: Exchange, s: Sample)
    requires SamplesOf(samples, window) && x.t0 <= x.t1 && s == Measured(x)
    ensures SamplesOf(samples + [s], window + [x]) && SamplesOf((samples + [s])[1..], (window + [x])[1..])
  {}

  lemma LastFewSlides<T>(s: seq<T>, x: T)
    ensures var w := LastFew(s) + [x]; LastFew(s + [x]) == if |w| > WINDOW then w[1..] else w
  {}

  /** An accepted exchange enters the window, and the oldest leaves a full one. */
  lemma WindowSlides(samples: seq<Sample>, history: seq<Exchange>, x: Exchange, s: Sample)
    requires SamplesOf(samples, LastFew(Accepted(history))) && x.t0 <= x.t1 && s == Measured(x)
    ensures var longer := samples + [s];
            SamplesOf(if |longer| > WINDOW then longer[1..] else longer, LastFew(Accepted(history + [x])))
  {
    AcceptedGrows(history, x);
    LastFewSlides(Accepted(history), x);
    SamplesSlide(samples, LastFew(Accepted(history)), x, s);
  }

  class Estimator {
    var samples: seq<Sample>
    ghost var history: seq<Exchange>

    /** The samples are those of the last accepted exchanges, oldest first. */
    ghost predicate Valid()
      reads this
    {
      SamplesOf(samples, LastFew(Accepted(history)))
    }

    constructor ()
      ensures Valid() && history == []
    {
      samples := [];
      history := [];
    }

    method Record(x: Exchange)
      requires Valid()
      modifies this
      ensures Valid() && history == old(history) + [x]
    {
      ghost var before := history;
      history := history + [x];
      if x.t1 < x.t0 {
        AcceptedGrows(before, x);
        return;
      }
      var rtt := x.t1 - x.t0;
      assert x.t0 + rtt / 2 == Midpoint(x);
      var offset := ToInt64(ToInt64(x.server) - ToInt64(x.t0 + rtt / 2));
      WindowSlides(samples, before, x, Sample(offset, rtt));
      samples := samples + [Sample(offset, rtt)];
      if |samples| > WINDOW {
        samples := samples[1..];
      }
    }

    /** The earliest of the fastest samples in the window. */
    method Best() returns (best: Option<Sample>)
      requires Valid()
      ensures best == Fastest(LastFew(Accepted(history)))
    {
      if |samples| == 0 {
        return None;
      }
      ghost var window := LastFew(Accepted(history));
      var s := samples[0];
      for i := 0 to |samples|
        invariant i == 0 ==> s == samples[0]
        invariant i > 0 ==> Fastest(window[..i]) == Some(s)
      {
        assert window[..i + 1][..i] == window[..i];
        if samples[i].rtt < s.rtt {
          s := samples[i];
        }
      }
      assert window[..|samples|] == window;
      return Some(s);
    }
  }

  /** The offset is the true difference exactly when that difference is an int64. */
  lemma OffsetExact(x: Exchange)
    requires x.t0 <= x.t1
    ensures Measured(x).offset == x.server - Midpoint(x) <==> -TWO63 <= x.server - Midpoint(x) < TWO63
  {
    var i := ToInt64Wraps(x.server);
    var j := ToInt64Wraps(Midpoint(x));
    var k := ToInt64Wraps(ToInt64(x.server) - ToInt64(Midpoint(x)));
    assert Measured(x).offset == x.server - Midpoint(x) + (i - j + k) * TWO64;
  }

  /** A relay whose clock is the local one plus theta stamps the exchange between its two ends. */
  predicate StampedWithin(x: Exchange, theta: int) {
    x.t0 + theta <= x.server <= x.t1 + theta && -TWO63 <= x.server - Midpoint(x) < TWO63
  }

  lemma OneSampleIsClose(x: Exchange, theta: int)
    requires x.t0 <= x.t1 && StampedWithin(x, theta)
    ensures var s := Measured(x);
            theta - (s.rtt + 1) / 2 <= s.offset <= theta + (s.rtt + 1) / 2
  {
    OffsetExact(x);
  }

  /** The k-th of these round trips is the shortest, and the first of that length. */
  predicate FirstShortest(xs: seq<Exchange>, k: nat) {
    k < |xs| && (forall i | 0 <= i < k :: xs[k].t1 - xs[k].t0 < xs[i].t1 - xs[i].t0) &&
    forall i | k < i < |xs| :: xs[k].t1 - xs[k].t0 <= xs[i].t1 - xs[i].t0
  }

  lemma {:induction false} FastestIsFirst(xs: seq<Exchange>) returns (k: nat)
    requires AllAccepted(xs) && xs != []
    ensures FirstShortest(xs, k) && Fastest(xs) == Some(Measured(xs[k]))
  {
    var n := |xs| - 1;
    k := n;
    if n > 0 {
      k := FastestIsFirst(xs[..n]);
      if xs[n].t1 - xs[n].t0 < xs[k].t1 - xs[k].t0 {
        k := n;
      }
    }
  }

  /** How many of the exchanges do not end before they begin. */
  function Proper(history: seq<Exchange>): nat {
    if history == [] then 0
    else Proper(history[..|history| - 1]) + (if history[|history| - 1].t1 >= history[|history| - 1].t0 then 1 else 0)
  }

  /** The offset is the relay's stamp less the middle of the exchange, rounded down, when the difference is an int64. */
  lemma OffsetFromMiddle(x: Exchange)
    requires x.t0 <= x.t1 && -TWO63 <= x.server - (x.t0 + x.t1) / 2 < TWO63
    ensures Measured(x) == Sample(x.server - (x.t0 + x.t1) / 2, x.t1 - x.t0)
  {
    assert Midpoint(x) == (x.t0 + x.t1) / 2;
    OffsetExact(x);
  }

  lemma {:induction false} AcceptedCounts(history: seq<Exchange>)
    ensures |Accepted(history)| == Proper(history)
  {
    if history != [] {
      AcceptedCounts(history[..|history| - 1]);
    }
  }
  /** x stands in xs with that many after it. */
  predicate FromEnd<T(==)>(xs: seq<T>, after: nat, x: T) {
    after < |xs| && xs[|xs| - 1 - after] == x
  }

  /** A proper exchange stands in the accepted ones as far from the end as there are proper ones after it. */
  lemma {:induction false} PlaceOf(history: seq<Exchange>, at: nat)
    requires at < |history| && history[at].t1 >= history[at].t0
    ensures FromEnd(Accepted(history), Proper(history[at + 1..]), history[at])
  {
    var n := |history| - 1;
    if at == n {
      assert history[at + 1..] == [];
    } else {
      PlaceOf(history[..n], at);
      assert history[at + 1..][..n - at - 1] == history[..n][at + 1..];
      assert history[at + 1..][n - at - 1] == history[n];
    }
  }

  lemma LastFewKeep<T>(s: seq<T>, after: nat, x: T)
    requires FromEnd(s, after, x)
    ensures |LastFew(s)| == (if |s| < 8 then |s| else 8) && (after < 8 ==> FromEnd(LastFew(s), after, x))
  {}

  /**
   * The window holds the last eight exchanges, or all of them if there are fewer, that do not end before they begin:
   * each stands as far from its end as there are such exchanges after it.
   */
  lemma WindowIs(history: seq<Exchange>, at: nat)
    requires at < |history| && history[at].t0 <= history[at].t1
    ensures |LastFew(Accepted(history))| == if Proper(history) < 8 then Proper(history) else 8
    ensures Proper(history[at + 1..]) < 8 ==> FromEnd(LastFew(Accepted(history)), Proper(history[at + 1..]), history[at])
  {
    AcceptedCounts(history);
    PlaceOf(history, at);
    LastFewKeep(Accepted(history), Proper(history[at + 1..]), history[at]);
  }

  /**
   * After any sequence of Record calls, Best reports the first of the shortest round trips among the last eight accepted
   * exchanges, and an offset within half of it, rounded up, of the true one.
   */
  lemma BestIsClose(history: seq<Exchange>, theta: int) returns (k: nat)
    requires Accepted(history) != []
    requires forall x | x in LastFew(Accepted(history)) :: StampedWithin(x, theta)
    ensures var window := LastFew(Accepted(history));
            var best := Fastest(window);
            FirstShortest(window, k) && best.Some? && best.value.rtt == window[k].t1 - window[k].t0 &&
            theta - (best.value.rtt + 1) / 2 <= best.value.offset <= theta + (best.value.rtt + 1) / 2
  {
    var window := LastFew(Accepted(history));
    k := FastestIsFirst(window);
    assert window[k] in window;
    OneSampleIsClose(window[k], theta);
  }
}
