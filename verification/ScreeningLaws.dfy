/**
 * What gawk-server/screening/window.go answers, read off the scores themselves: when a sample trips the window, when one
 * clears it, and what the episodes of a replay are.
 */
module ScreeningLaws {
  import opened Screening
  import opened Replay

  // ----- tripping and clearing -----

  /** The positions among the last `size` whose score reaches the threshold. */
  function HitsAt(h: seq<real>, size: nat, threshold: real): set<nat> {
    set i: nat | i < |h| && i + size >= |h| && h[i] >= threshold
  }

  /** What each sample was answered. */
  function Answers(rule: WindowRule, h: seq<real>): (r: seq<Transition>)
    requires rule.Valid()
    ensures |r| == |h|
  {
    if h == [] then [] else Answers(rule, h[..|h| - 1]) + [LastTransition(rule, h)]
  }

  /** A trip has been answered, and nothing since has been answered with a clear. */
  ghost predicate StandsTripped(answers: seq<Transition>) {
    exists k :: 0 <= k < |answers| && answers[k] == Tripped && NoClear(answers[k + 1..])
  }

  predicate NoClear(answers: seq<Transition>) {
    Cleared !in answers
  }

  lemma {:induction false} HitCountIs(h: seq<real>, lo: nat, threshold: real)
    requires lo <= |h|
    ensures HitCount(h[lo..], threshold) == |set i: nat | lo <= i < |h| && h[i] >= threshold|
  {
    var hits := set i: nat | lo <= i < |h| && h[i] >= threshold;
    if lo == |h| {
      assert hits == {};
    } else {
      var n := |h| - 1;
      var init := h[..n];
      HitCountIs(init, lo, threshold);
      assert h[lo..][..|h[lo..]| - 1] == init[lo..];
      var before := set i: nat | lo <= i < |init| && init[i] >= threshold;
      assert hits == before + (if h[n] >= threshold then {n} else {});
    }
  }

  lemma HitsNowIs(rule: WindowRule, h: seq<real>)
    requires rule.Valid()
    ensures HitsNow(rule, h) == |HitsAt(h, rule.size, rule.threshold)|
  {
    var lo := if |h| <= rule.size then 0 else |h| - rule.size;
    assert Recent(h, rule.size) == h[lo..];
    HitCountIs(h, lo, rule.threshold);
    assert HitsAt(h, rule.size, rule.threshold) == set i: nat | lo <= i < |h| && h[i] >= rule.threshold;
  }

  lemma StandingSnoc(answers: seq<Transition>, t: Transition)
    ensures StandsTripped(answers + [t]) <==> t == Tripped || (t != Cleared && StandsTripped(answers))
  {
    var all, n := answers + [t], |answers|;
    forall k | 0 <= k < n ensures all[k] == answers[k] && all[k + 1..] == answers[k + 1..] + [t] {}
    if t == Tripped {
      assert all[n] == Tripped && NoClear(all[n + 1..]);
    } else if t != Cleared && StandsTripped(answers) {
      var k :| 0 <= k < n && answers[k] == Tripped && NoClear(answers[k + 1..]);
      assert all[k] == Tripped && NoClear(all[k + 1..]);
    }
    if StandsTripped(all) && t != Tripped {
      var k :| 0 <= k < |all| && all[k] == Tripped && NoClear(all[k + 1..]);
      assert k < n && t in all[k + 1..];
      NoClearBefore(answers[k + 1..], t);
    }
  }

  lemma NoClearBefore(answers: seq<Transition>, t: Transition)
    requires NoClear(answers + [t])
    ensures NoClear(answers) && t != Cleared
  {
    assert (answers + [t])[|answers|] == t;
    forall a | a in answers ensures a in answers + [t] {}
  }

  lemma {:induction false} TrippedIsStanding(rule: WindowRule, h: seq<real>)
    requires rule.Valid()
    ensures IsTripped(rule, h) <==> StandsTripped(Answers(rule, h))
  {
    if h != [] {
      var init := h[..|h| - 1];
      TrippedIsStanding(rule, init);
      StandingSnoc(Answers(rule, init), LastTransition(rule, h));
    }
  }

  /**
   * A sample trips a window that does not stand tripped exactly when at least `hits` of the last `size` scores, or of all
   * there are, reach the threshold; it clears one that does exactly when the last `size` scores all exist and are all below.
   */
  lemma AnswersExact(rule: WindowRule, h: seq<real>)
    requires rule.Valid() && h != []
    ensures var n := |h|;
            var stood, answer := StandsTripped(Answers(rule, h)[..n - 1]), Answers(rule, h)[n - 1];
            && (answer == Tripped <==> !stood && |HitsAt(h, rule.size, rule.threshold)| >= rule.hits)
            && (answer == Cleared <==>
                  stood && n >= rule.size && forall i | n - rule.size <= i < n :: h[i] < rule.threshold)
  {
    var n := |h|;
    assert Answers(rule, h)[..n - 1] == Answers(rule, h[..n - 1]);
    TrippedIsStanding(rule, h[..n - 1]);
    HitsNowIs(rule, h);
    if n >= rule.size {
      NoHits(rule, h);
    }
  }

  lemma NoHits(rule: WindowRule, h: seq<real>)
    requires rule.Valid() && |h| >= rule.size
    ensures |HitsAt(h, rule.size, rule.threshold)| == 0 <==> forall i | |h| - rule.size <= i < |h| :: h[i] < rule.threshold
  {
    var hits := HitsAt(h, rule.size, rule.threshold);
    if |hits| == 0 {
      forall i | |h| - rule.size <= i < |h| ensures h[i] < rule.threshold {
        assert i !in hits;
      }
    } else {
      var i :| i in hits;
      assert h[i] >= rule.threshold;
    }
  }

  // ----- the episodes of a replay -----

  /** Where the episode that begins at `from` ends: at the first clear after it, or with the session. */
  function EndOf(answers: seq<Transition>, from: nat): (e: nat)
    requires from < |answers|
    ensures from < e <= |answers|
  {
    var n := |answers| - 1;
    if from == n then n + 1
    else
      var before := EndOf(answers[..n], from);
      if before < n || answers[n] == Cleared then before else n + 1
  }

  /** EndOf is the first clear after the trip. */
  lemma {:induction false} EndIsFirstClear(answers: seq<Transition>, from: nat)
    requires from < |answers|
    ensures var e := EndOf(answers, from);
            (forall j | from < j < e :: answers[j] != Cleared) && (e < |answers| ==> answers[e] == Cleared)
  {
    var n := |answers| - 1;
    if from < n {
      EndIsFirstClear(answers[..n], from);
      assert forall j | 0 <= j < n :: answers[..n][j] == answers[j];
    }
  }

  /** The highest score from lo up to hi. */
  ghost predicate PeakOf(samples: seq<Sample>, lo: nat, hi: nat, peak: real)
    requires hi <= |samples|
  {
    (forall i | lo <= i < hi :: samples[i].score <= peak) && exists i :: lo <= i < hi && samples[i].score == peak
  }

  ghost predicate EpisodeOk(samples: seq<Sample>, answers: seq<Transition>, from: nat, e: Episode)
    requires |samples| == |answers| && from < |samples|
  {
    e.at == samples[from].at && PeakOf(samples, from, EndOf(answers, from), e.peakScore)
  }

  /** The positions of the samples that tripped the window. */
  function Trips(answers: seq<Transition>): (r: seq<nat>)
    ensures forall k | 0 <= k < |r| :: r[k] < |answers| && answers[r[k]] == Tripped
    ensures forall i: nat | i < |answers| && answers[i] == Tripped :: i in r
    ensures forall k, l | 0 <= k < l < |r| :: r[k] < r[l]
  {
    if answers == [] then []
    else
      var n := |answers| - 1;
      Trips(answers[..n]) + if answers[n] == Tripped then [n] else []
  }

  /** One episode a trip, and the last of them still goes on exactly if the run is open. */
  ghost predicate EpisodesOk(samples: seq<Sample>, answers: seq<Transition>, run: Run)
    requires |samples| == |answers|
  {
    var trips, n := Trips(answers), |run.episodes|;
    && |trips| == n && (run.open ==> n > 0)
    && (forall k | 0 <= k < n :: EpisodeOk(samples, answers, trips[k], run.episodes[k]))
    && (forall k | 0 <= k < n :: EndOf(answers, trips[k]) == |answers| <==> run.open && k == n - 1)
  }

  lemma EndSnoc(answers: seq<Transition>, t: Transition, from: nat)
    requires from < |answers|
    ensures EndOf(answers + [t], from) ==
            if EndOf(answers, from) < |answers| || t == Cleared then EndOf(answers, from) else |answers| + 1
  {
    assert (answers + [t])[..|answers|] == answers;
  }

  lemma TripsSnoc(answers: seq<Transition>, t: Transition)
    ensures Trips(answers + [t]) == Trips(answers) + if t == Tripped then [|answers|] else []
  {
    assert (answers + [t])[..|answers|] == answers;
  }

  /** An episode that has ended, or that the new sample does not raise, stays as it is; one that goes on takes the sample in. */
  lemma EpisodeSnoc(samples: seq<Sample>, answers: seq<Transition>, from: nat, e: Episode, t: Transition, x: Sample)
    requires |samples| == |answers| && from < |samples| && EpisodeOk(samples, answers, from, e)
    ensures var goesOn := EndOf(answers, from) == |answers| && t != Cleared;
            var e' := if goesOn && x.score > e.peakScore then e.(peakScore := x.score) else e;
            EpisodeOk(samples + [x], answers + [t], from, e')
  {
    EndSnoc(answers, t, from);
    var all, hi := samples + [x], EndOf(answers, from);
    var i :| from <= i < hi && samples[i].score == e.peakScore;
    assert all[i].score == e.peakScore;
    if hi == |answers| && t != Cleared {
      assert all[hi] == x;
    }
  }

  lemma NewEpisode(samples: seq<Sample>, answers: seq<Transition>, x: Sample)
    requires |samples| == |answers|
    ensures EndOf(answers + [Tripped], |answers|) == |answers| + 1
    ensures EpisodeOk(samples + [x], answers + [Tripped], |answers|, Episode(x.at, x.score))
  {
    assert (samples + [x])[|samples|] == x;
  }

  lemma EpisodesSnocOk(samples: seq<Sample>, answers: seq<Transition>, run: Run, t: Transition, x: Sample)
    requires |samples| == |answers| && EpisodesOk(samples, answers, run) && (t == Tripped ==> !run.open)
    ensures EpisodesOk(samples + [x], answers + [t], Advance(run, t, x))
  {
    var trips, n, run' := Trips(answers), |run.episodes|, Advance(run, t, x);
    TripsSnoc(answers, t);
    forall k | 0 <= k < n
      ensures EpisodeOk(samples + [x], answers + [t], trips[k], run'.episodes[k])
      ensures EndOf(answers + [t], trips[k]) == |answers| + 1 <==> run'.open && t != Tripped && k == n - 1
    {
      EpisodeSnoc(samples, answers, trips[k], run.episodes[k], t, x);
      EndSnoc(answers, t, trips[k]);
    }
    if t == Tripped {
      NewEpisode(samples, answers, x);
    }
  }

  lemma AnswersSnoc(rule: WindowRule, h: seq<real>, score: real)
    requires rule.Valid()
    ensures Answers(rule, h + [score]) == Answers(rule, h) + [LastTransition(rule, h + [score])]
    ensures var t := LastTransition(rule, h + [score]);
            (t == Tripped ==> !IsTripped(rule, h)) &&
            (IsTripped(rule, h + [score]) <==> t == Tripped || (t != Cleared && IsTripped(rule, h)))
  {
    assert (h + [score])[..|h|] == h;
  }

  /** The run's episodes are those of its answers, and the last one goes on as long as the window stands tripped. */
  ghost predicate RunOk(rule: WindowRule, samples: seq<Sample>)
    requires rule.Valid()
  {
    EpisodesOk(samples, Answers(rule, Scores(samples)), Episodes(rule, samples)) &&
    (Episodes(rule, samples).open <==> IsTripped(rule, Scores(samples)))
  }

  lemma NoSamplesOk(rule: WindowRule)
    requires rule.Valid()
    ensures RunOk(rule, [])
  {}

  lemma {:induction false} EpisodesAreOk(rule: WindowRule, samples: seq<Sample>)
    requires rule.Valid()
    ensures RunOk(rule, samples)
  {
    if samples == [] {
      NoSamplesOk(rule);
    } else {
      var init, x := samples[..|samples| - 1], samples[|samples| - 1];
      assert samples == init + [x];
      EpisodesAreOk(rule, init);
      OneSampleMore(rule, init, x);
    }
  }

  lemma OneSampleMore(rule: WindowRule, samples: seq<Sample>, x: Sample)
    requires rule.Valid() && RunOk(rule, samples)
    ensures RunOk(rule, samples + [x])
  {
    EpisodesSnoc(rule, samples, x);
    AnswersSnoc(rule, Scores(samples), x.score);
    EpisodesSnocOk(samples, Answers(rule, Scores(samples)), Episodes(rule, samples),
                   LastTransition(rule, Scores(samples) + [x.score]), x);
  }

  /**
   * A replay finds one episode for each sample that trips the window, in order, with that sample's time and the highest
   * score from it up to the sample that clears the window again, or to the end of the session.
   */
  lemma EpisodesExact(rule: WindowRule, samples: seq<Sample>)
    requires rule.Valid()
    ensures var answers, episodes := Answers(rule, Scores(samples)), Episodes(rule, samples).episodes;
            |episodes| == |Trips(answers)| &&
            forall k | 0 <= k < |episodes| ::
              var from := Trips(answers)[k];
              episodes[k].at == samples[from].at && PeakOf(samples, from, EndOf(answers, from), episodes[k].peakScore)
  {
    EpisodesAreOk(rule, samples);
    forall k | 0 <= k < |Episodes(rule, samples).episodes|
      ensures EpisodeOk(samples, Answers(rule, Scores(samples)), Trips(Answers(rule, Scores(samples)))[k],
                        Episodes(rule, samples).episodes[k])
    {}
  }
}
