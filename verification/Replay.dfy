/**
 * ReplaySession of gawk-server/screening/window.go over the samples gawk-admin stored, and the numbering rule of
 * gawk-server/screening/samples.go that makes the stored sequence numbers mean what replay takes them to mean.
 */
module Replay {
  import opened Screening

  datatype Sample = Sample(score: real, at: int)
  datatype Stored = Stored(seqNo: int, at: int, score: real)
  datatype Episode = Episode(at: int, peakScore: real)

  /** A sample that was not stored counts as 0. */
  const MISSING := Sample(0.0, 0)

  function Scores(samples: seq<Sample>): (h: seq<real>)
    ensures |h| == |samples|
  {
    if samples == [] then [] else Scores(samples[..|samples| - 1]) + [samples[|samples| - 1].score]
  }

  // ----- the reference: episodes of a complete list of samples -----

  /** The episodes so far, and whether the last one is still open. */
  datatype Run = Run(episodes: seq<Episode>, open: bool)

  function Advance(run: Run, t: Transition, x: Sample): Run {
    match t
    case Tripped => Run(run.episodes + [Episode(x.at, x.score)], true)
    case Cleared => Run(run.episodes, false)
    case Unchanged =>
      if run.open && run.episodes != [] && x.score > run.episodes[|run.episodes| - 1].peakScore
      then run.(episodes := run.episodes[|run.episodes| - 1 := run.episodes[|run.episodes| - 1].(peakScore := x.score)])
      else run
  }

  function Episodes(rule: WindowRule, samples: seq<Sample>): Run
    requires rule.Valid()
  {
    if samples == [] then Run([], false)
    else Advance(Episodes(rule, samples[..|samples| - 1]), LastTransition(rule, Scores(samples)), samples[|samples| - 1])
  }

  // ----- the method -----

  ghost predicate Ascending(stored: seq<Stored>) {
    forall i, j | 0 <= i < j < |stored| :: stored[i].seqNo < stored[j].seqNo
  }

  /** The sample numbered seqNo, as stored or missing. */
  function At(stored: seq<Stored>, seqNo: int): Sample {
    if stored == [] then MISSING
    else if stored[0].seqNo == seqNo then Sample(stored[0].score, stored[0].at)
    else At(stored[1..], seqNo)
  }

  /** Samples 1..taken as replay sees them. */
  function Filled(stored: seq<Stored>, taken: nat): (s: seq<Sample>)
    ensures |s| == taken
  {
    if taken == 0 then [] else Filled(stored, taken - 1) + [At(stored, taken)]
  }

  lemma {:induction false} AtFound(stored: seq<Stored>, i: nat, seqNo: int)
    requires Ascending(stored) && i <= |stored|
    requires forall k | 0 <= k < i :: stored[k].seqNo < seqNo
    requires i < |stored| ==> stored[i].seqNo >= seqNo
    ensures At(stored, seqNo) == if i < |stored| && stored[i].seqNo == seqNo then Sample(stored[i].score, stored[i].at) else MISSING
  {
    if stored != [] {
      if i > 0 {
        AtFound(stored[1..], i - 1, seqNo);
      } else if stored[0].seqNo > seqNo {
        AtPast(stored, seqNo);
      }
    }
  }

  lemma {:induction false} AtPast(stored: seq<Stored>, seqNo: int)
    requires forall k | 0 <= k < |stored| :: stored[k].seqNo > seqNo
    ensures At(stored, seqNo) == MISSING
  {
    if stored != [] {
      AtPast(stored[1..], seqNo);
    }
  }

  method ReplaySession(rule: WindowRule, taken: nat, stored: seq<Stored>) returns (out: seq<Episode>)
    requires rule.Valid() && Ascending(stored)
    ensures out == Episodes(rule, Filled(stored, taken)).episodes
  {
    var w := new Window(rule);
    out := RunThrough(w, taken, stored);
  }

  method RunThrough(w: Window, taken: nat, stored: seq<Stored>) returns (out: seq<Episode>)
    requires w.Valid() && w.history == [] && Ascending(stored)
    modifies w, w.scores
    ensures out == Episodes(w.rule, Filled(stored, taken)).episodes
  {
    out := [];
    var i, open := 0, false;
    ghost var done := [];
    for n := 0 to taken
      invariant InStep(w, done, out, open)
      invariant done == Filled(stored, n)
      invariant i <= |stored| && forall k | 0 <= k < i :: stored[k].seqNo < n + 1
    {
      var x;
      i, x := NextSample(stored, i, n + 1);
      out, open := Turn(w, done, out, open, x);
      done := done + [x];
    }
  }

  /** The window and the episodes found so far are those of the samples already seen. */
  ghost predicate InStep(w: Window, done: seq<Sample>, episodes: seq<Episode>, open: bool)
    reads w, w.scores
  {
    w.Valid() && w.history == Scores(done) && Run(episodes, open) == Episodes(w.rule, done) && (open ==> episodes != [])
  }

  /** What one sample does to the window and to the episodes found so far. */
  method Turn(w: Window, ghost done: seq<Sample>, episodes: seq<Episode>, wasOpen: bool, x: Sample)
    returns (out: seq<Episode>, open: bool)
    requires InStep(w, done, episodes, wasOpen)
    modifies w, w.scores
    ensures InStep(w, done + [x], out, open)
  {
    EpisodesSnoc(w.rule, done, x);
    var t := w.Observe(x.score);
    out, open := Apply(episodes, wasOpen, t, x);
  }

  /** Skip what is numbered before seqNo, and read the sample numbered seqNo if it was kept. */
  method NextSample(stored: seq<Stored>, from: nat, seqNo: int) returns (i: nat, x: Sample)
    requires Ascending(stored) && from <= |stored| && forall k | 0 <= k < from :: stored[k].seqNo < seqNo
    ensures from <= i <= |stored| && forall k | 0 <= k < i :: stored[k].seqNo < seqNo
    ensures x == At(stored, seqNo)
  {
    i := from;
    while i < |stored| && stored[i].seqNo < seqNo
      invariant from <= i <= |stored| && forall k | 0 <= k < i :: stored[k].seqNo < seqNo
    {
      i := i + 1;
    }
    AtFound(stored, i, seqNo);
    x := MISSING;
    if i < |stored| && stored[i].seqNo == seqNo {
      x := Sample(stored[i].score, stored[i].at);
    }
  }

  method Apply(episodes: seq<Episode>, wasOpen: bool, t: Transition, x: Sample) returns (out: seq<Episode>, open: bool)
    requires wasOpen ==> episodes != []
    ensures Run(out, open) == Advance(Run(episodes, wasOpen), t, x)
    ensures open ==> out != []
  {
    out, open := episodes, wasOpen;
    match t
    case Tripped =>
      out := out + [Episode(x.at, x.score)];
      open := true;
    case Cleared =>
      open := false;
    case Unchanged =>
      if open && x.score > out[|out| - 1].peakScore {
        out := out[|out| - 1 := out[|out| - 1].(peakScore := x.score)];
      }
  }

  lemma EpisodesSnoc(rule: WindowRule, samples: seq<Sample>, x: Sample)
    requires rule.Valid()
    ensures Scores(samples + [x]) == Scores(samples) + [x.score]
    ensures Episodes(rule, samples + [x])
            == Advance(Episodes(rule, samples), LastTransition(rule, Scores(samples) + [x.score]), x)
  {
    assert (samples + [x])[..|samples|] == samples;
  }

  // ----- replay is exact -----

  /** What a store may have dropped: only samples below the threshold. */
  ghost predicate SameHits(rule: WindowRule, full: seq<Sample>, seen: seq<Sample>) {
    && |full| == |seen|
    && forall i | 0 <= i < |full| :: seen[i] == full[i] || (seen[i] == MISSING && full[i].score < rule.threshold)
  }

  lemma {:induction false} ScoresAt(samples: seq<Sample>, i: nat)
    requires i < |samples|
    ensures Scores(samples)[i] == samples[i].score
  {
    if i < |samples| - 1 {
      ScoresAt(samples[..|samples| - 1], i);
    }
  }

  lemma {:induction false} SameHitCount(a: seq<real>, b: seq<real>, threshold: real)
    requires |a| == |b| && forall i | 0 <= i < |a| :: a[i] >= threshold <==> b[i] >= threshold
    ensures HitCount(a, threshold) == HitCount(b, threshold)
  {
    if a != [] {
      SameHitCount(a[..|a| - 1], b[..|b| - 1], threshold);
    }
  }

  lemma {:induction false} SameTripped(rule: WindowRule, a: seq<real>, b: seq<real>)
    requires rule.Valid() && |a| == |b| && forall i | 0 <= i < |a| :: a[i] >= rule.threshold <==> b[i] >= rule.threshold
    ensures IsTripped(rule, a) == IsTripped(rule, b)
  {
    if a != [] {
      SameTripped(rule, a[..|a| - 1], b[..|b| - 1]);
      SameHitCount(Recent(a, rule.size), Recent(b, rule.size), rule.threshold);
    }
  }

  lemma SeenHits(rule: WindowRule, full: seq<Sample>, seen: seq<Sample>)
    requires rule.Valid() && SameHits(rule, full, seen)
    ensures forall i | 0 <= i < |full| :: Scores(full)[i] >= rule.threshold <==> Scores(seen)[i] >= rule.threshold
  {
    forall i | 0 <= i < |full| ensures Scores(full)[i] >= rule.threshold <==> Scores(seen)[i] >= rule.threshold {
      ScoresAt(full, i);
      ScoresAt(seen, i);
    }
  }

  lemma SameTransition(rule: WindowRule, full: seq<Sample>, seen: seq<Sample>)
    requires rule.Valid() && SameHits(rule, full, seen) && full != []
    ensures LastTransition(rule, Scores(full)) == LastTransition(rule, Scores(seen))
  {
    var a, b := Scores(full), Scores(seen);
    SeenHits(rule, full, seen);
    SameTripped(rule, a, b);
    SameTripped(rule, a[..|a| - 1], b[..|b| - 1]);
  }

  ghost predicate PeakIsHit(rule: WindowRule, run: Run) {
    run.open ==> run.episodes != [] && run.episodes[|run.episodes| - 1].peakScore >= rule.threshold
  }

  lemma SameAdvance(rule: WindowRule, run: Run, t: Transition, x: Sample, y: Sample)
    requires rule.Valid() && PeakIsHit(rule, run)
    requires y == x || (y == MISSING && x.score < rule.threshold)
    requires t == Tripped ==> x.score >= rule.threshold
    ensures Advance(run, t, x) == Advance(run, t, y) && PeakIsHit(rule, Advance(run, t, x))
  {}

  /** An open episode's peak is at least the threshold, so dropped samples never were its peak. */
  lemma {:induction false} SameEpisodes(rule: WindowRule, full: seq<Sample>, seen: seq<Sample>)
    requires rule.Valid() && SameHits(rule, full, seen)
    ensures Episodes(rule, full) == Episodes(rule, seen)
    ensures PeakIsHit(rule, Episodes(rule, full))
  {
    if full != [] {
      var n := |full| - 1;
      var t := LastTransition(rule, Scores(full));
      SameEpisodes(rule, full[..n], seen[..n]);
      SameTransition(rule, full, seen);
      ScoresAt(full, n);
      if t == Tripped {
        TripLandsOnHit(rule, Scores(full));
      }
      SameAdvance(rule, Episodes(rule, full[..n]), t, full[n], seen[n]);
    }
  }

  /** The store holds a part of the session: true entries, in order, with every hit kept. */
  ghost predicate Faithful(rule: WindowRule, full: seq<Sample>, stored: seq<Stored>) {
    && Ascending(stored)
    && (forall k | 0 <= k < |stored| && 1 <= stored[k].seqNo <= |full| ::
          full[stored[k].seqNo - 1] == Sample(stored[k].score, stored[k].at))
    && (forall i | 0 <= i < |full| && full[i].score >= rule.threshold ::
          exists k :: 0 <= k < |stored| && stored[k].seqNo == i + 1)
  }

  lemma {:induction false} AtMember(stored: seq<Stored>, seqNo: int)
    ensures At(stored, seqNo) == MISSING ||
            exists k :: 0 <= k < |stored| && stored[k].seqNo == seqNo && At(stored, seqNo) == Sample(stored[k].score, stored[k].at)
    ensures (exists k :: 0 <= k < |stored| && stored[k].seqNo == seqNo) ==>
            exists k :: 0 <= k < |stored| && stored[k].seqNo == seqNo && At(stored, seqNo) == Sample(stored[k].score, stored[k].at)
  {
    if stored != [] && stored[0].seqNo != seqNo {
      AtMember(stored[1..], seqNo);
      if k :| 0 <= k < |stored| && stored[k].seqNo == seqNo {
        assert stored[1..][k - 1].seqNo == seqNo;
      }
      if j :| 0 <= j < |stored[1..]| && stored[1..][j].seqNo == seqNo && At(stored[1..], seqNo) == Sample(stored[1..][j].score, stored[1..][j].at) {
        assert stored[j + 1].seqNo == seqNo;
      }
    }
  }

  lemma {:induction false} FilledAt(stored: seq<Stored>, taken: nat, i: nat)
    requires i < taken
    ensures Filled(stored, taken)[i] == At(stored, i + 1)
  {
    if i < taken - 1 {
      FilledAt(stored, taken - 1, i);
    }
  }

  /** Replaying what was kept finds the same trips and peaks as replaying everything. */
  lemma ReplayIsExact(rule: WindowRule, full: seq<Sample>, stored: seq<Stored>)
    requires rule.Valid() && Faithful(rule, full, stored)
    ensures Episodes(rule, Filled(stored, |full|)).episodes == Episodes(rule, full).episodes
  {
    var seen := Filled(stored, |full|);
    forall i | 0 <= i < |full| ensures seen[i] == full[i] || (seen[i] == MISSING && full[i].score < rule.threshold) {
      FilledAt(stored, |full|, i);
      AtMember(stored, i + 1);
    }
    SameEpisodes(rule, full, seen);
  }
}
