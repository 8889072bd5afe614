/** Positions and numbering of screening samples: gawk-server/screening/samples.go, up to the replay that relies on them. */
module SampleBatches {
  import opened Outcomes
  import opened Screening
  import opened Replay

  /** 1-based positions of the sent samples among the batch's taken ones. */
  ghost predicate PositionsOk(positions: seq<int>, taken: int) {
    && taken >= 1
    && (forall i | 0 <= i < |positions| :: 1 <= positions[i] <= taken)
    && (forall i, j | 0 <= i < j < |positions| :: positions[i] < positions[j])
  }

  lemma {:induction false} PositionsSpread(positions: seq<int>, i: nat, taken: int)
    requires PositionsOk(positions, taken) && i < |positions|
    ensures positions[i] >= i + 1
  {
    if i > 0 {
      PositionsSpread(positions, i - 1, taken);
    }
  }

  // ----- what a batch may say -----

  const MAX_BATCH_SESSIONS := 4096
  const MAX_BATCH_SAMPLES := 16384

  /** A zero time is None. */
  datatype SentSample = SentSample(position: int, at: Option<int>, scores: map<string, real>)

  /** One session of a batch; named is what the checks of its identifiers answered. */
  datatype Report = Report(named: bool, epoch: string, taken: int, first: Option<int>, last: Option<int>, samples: seq<SentSample>)

  function Positions(samples: seq<SentSample>): (r: seq<int>)
    ensures |r| == |samples| && forall i | 0 <= i < |r| :: r[i] == samples[i].position
  {
    seq(|samples|, (i: nat) requires i < |samples| => samples[i].position)
  }

  predicate ScoreOk(labels: seq<string>, scores: map<string, real>, l: string)
    requires l in scores
  {
    l in labels && 0.0 <= scores[l] <= 1.0
  }

  /** Every score is for a label of the batch, and one at least reaches the floor. */
  ghost predicate ScoresOk(scores: map<string, real>, labels: seq<string>, floor: real) {
    && |scores| == |labels|
    && (forall l | l in scores :: ScoreOk(labels, scores, l))
    && (exists l | l in scores :: scores[l] >= floor)
  }

  ghost predicate SamplesOk(samples: seq<SentSample>, taken: int, labels: seq<string>, floor: real) {
    && PositionsOk(Positions(samples), taken)
    && forall x | x in samples :: x.at.Some? && ScoresOk(x.scores, labels, floor)
  }

  ghost predicate ReportOk(r: Report, labels: seq<string>, floor: real) {
    && r.named && r.first.Some? && r.last.Some? && r.first.value <= r.last.value
    && SamplesOk(r.samples, r.taken, labels, floor)
  }

  function Total(reports: seq<Report>): nat {
    if reports == [] then 0 else Total(reports[..|reports| - 1]) + |reports[|reports| - 1].samples|
  }

  ghost predicate ReportsOk(reports: seq<Report>, labels: seq<string>, floor: real) {
    && (forall r | r in reports :: ReportOk(r, labels, floor))
    && (forall i, j | 0 <= i < j < |reports| :: reports[i].epoch != reports[j].epoch)
    && Total(reports) <= 16384
  }

  method ValidateScores(scores: map<string, real>, labels: seq<string>, floor: real) returns (ok: bool)
    ensures ok <==> ScoresOk(scores, labels, floor)
  {
    if |scores| != |labels| {
      return false;
    }
    var above := false;
    var left := scores.Keys;
    while left != {}
      invariant left <= scores.Keys
      invariant forall l | l in scores.Keys - left :: ScoreOk(labels, scores, l)
      invariant above <==> exists l | l in scores.Keys - left :: scores[l] >= floor
      decreases |left|
    {
      var l :| l in left;
      if !ScoreOk(labels, scores, l) {
        return false;
      }
      above := above || scores[l] >= floor;
      left := left - {l};
    }
    return above;
  }

  method ValidateSamples(samples: seq<SentSample>, taken: int, labels: seq<string>, floor: real) returns (ok: bool)
    ensures ok <==> SamplesOk(samples, taken, labels, floor)
  {
    ghost var positions := Positions(samples);
    if taken < 1 {
      return false;
    }
    if |samples| > taken {
      if PositionsOk(positions, taken) {
        PositionsSpread(positions, |positions| - 1, taken);
      }
      return false;
    }
    var prev := 0;
    for j := 0 to |samples|
      invariant prev == if j == 0 then 0 else positions[j - 1]
      invariant PositionsOk(positions[..j], taken)
      invariant forall x | x in samples[..j] :: x.at.Some? && ScoresOk(x.scores, labels, floor)
    {
      var x := samples[j];
      assert x in samples && positions[j] == x.position;
      if x.position <= prev || x.position > taken {
        assert j > 0 && x.position <= prev ==> positions[j - 1] >= positions[j];
        return false;
      }
      prev := x.position;
      if x.at.None? {
        return false;
      }
      var scored := ValidateScores(x.scores, labels, floor);
      if !scored {
        return false;
      }
      PositionsGrow(positions, j, taken);
      assert samples[..j + 1] == samples[..j] + [x];
    }
    assert positions[..|samples|] == positions && samples[..|samples|] == samples;
    return true;
  }

  lemma PositionsGrow(positions: seq<int>, j: nat, taken: int)
    requires j < |positions| && PositionsOk(positions[..j], taken) && 1 <= positions[j] <= taken
    requires j > 0 ==> positions[j - 1] < positions[j]
    ensures PositionsOk(positions[..j + 1], taken)
  {
    var next := positions[..j + 1];
    forall i, k | 0 <= i < k < |next| ensures next[i] < next[k] {
      assert k < j ==> positions[..j][i] < positions[..j][k];
      assert k == j && i < j - 1 ==> positions[..j][i] < positions[..j][j - 1];
    }
    forall i | 0 <= i < |next| ensures 1 <= next[i] <= taken {
      assert i < j ==> positions[..j][i] == next[i];
    }
  }

  /** The sessions of a batch, as SampleBatch.Validate goes through them. */
  method ValidateReports(reports: seq<Report>, labels: seq<string>, floor: real) returns (ok: bool)
    ensures ok <==> |reports| <= 4096 && ReportsOk(reports, labels, floor)
  {
    if |reports| > MAX_BATCH_SESSIONS {
      return false;
    }
    var total := 0;
    var seen: set<string> := {};
    for i := 0 to |reports|
      invariant total == Total(reports[..i]) && ReportsOk(reports[..i], labels, floor)
      invariant seen == Epochs(reports[..i])
    {
      var r := reports[i];
      assert r in reports;
      ReportsSplit(reports, i, labels, floor);
      if !r.named || r.epoch in seen {
        return false;
      }
      seen := seen + {r.epoch};
      if r.first.None? || r.last.None? || r.last.value < r.first.value {
        return false;
      }
      total := total + |r.samples|;
      if total > MAX_BATCH_SAMPLES {
        return false;
      }
      var sampled := ValidateSamples(r.samples, r.taken, labels, floor);
      if !sampled {
        return false;
      }
    }
    assert reports[..|reports|] == reports;
    return true;
  }

  ghost function Epochs(reports: seq<Report>): set<string> {
    set r | r in reports :: r.epoch
  }

  lemma {:induction false} TotalGrows(reports: seq<Report>, i: nat)
    requires i <= |reports|
    ensures Total(reports[..i]) <= Total(reports)
  {
    if i == |reports| {
      assert reports[..i] == reports;
    } else {
      TotalGrows(reports[..|reports| - 1], i);
      assert reports[..|reports| - 1][..i] == reports[..i];
    }
  }

  /** One report more is accepted exactly when it is in order itself, its epoch is new and the total stays within the limit. */
  lemma ReportsSplit(reports: seq<Report>, i: nat, labels: seq<string>, floor: real)
    requires i < |reports| && ReportsOk(reports[..i], labels, floor)
    ensures Total(reports[..i + 1]) == Total(reports[..i]) + |reports[i].samples|
    ensures Epochs(reports[..i + 1]) == Epochs(reports[..i]) + {reports[i].epoch}
    ensures ReportsOk(reports[..i + 1], labels, floor) <==>
            ReportOk(reports[i], labels, floor) && reports[i].epoch !in Epochs(reports[..i]) &&
            Total(reports[..i]) + |reports[i].samples| <= 16384
    ensures ReportsOk(reports, labels, floor) ==> ReportsOk(reports[..i + 1], labels, floor)
  {
    var before, next := reports[..i], reports[..i + 1];
    assert next == before + [reports[i]] && next[..i] == before;
    TotalGrows(reports, i + 1);
  }

  /** With distinct labels, as the batch's own check leaves them, a sample scores each label once and no other. */
  lemma ScoresCoverLabels(scores: map<string, real>, labels: seq<string>, floor: real)
    requires ScoresOk(scores, labels, floor) && forall i, j | 0 <= i < j < |labels| :: labels[i] != labels[j]
    ensures scores.Keys == set l | l in labels
  {
    var all := set l | l in labels;
    DistinctCount(labels);
    assert scores.Keys <= all;
    SubsetSameSize(scores.Keys, all);
  }

  lemma {:induction false} DistinctCount(labels: seq<string>)
    requires forall i, j | 0 <= i < j < |labels| :: labels[i] != labels[j]
    ensures |set l | l in labels| == |labels|
  {
    if labels != [] {
      var n := |labels| - 1;
      DistinctCount(labels[..n]);
      assert (set l | l in labels) == (set l | l in labels[..n]) + {labels[n]};
    }
  }

  lemma SubsetSameSize(a: set<string>, b: set<string>)
    requires a <= b && |a| == |b|
    ensures a == b
  {
    assert |b - a| == |b| - |a|;
  }

  // ----- what a sampler sends -----

  /** A frame it scored, label by label. */
  datatype Scored = Scored(at: int, scores: map<string, real>)

  /** Some label reaches the floor. */
  predicate Reaches(x: Scored, floor: real) {
    exists l | l in x.scores :: x.scores[l] >= floor
  }

  /** Only the samples that reach the floor are sent, with their places among the scored ones. */
  function Sieve(taken: seq<Scored>, floor: real): seq<SentSample> {
    if taken == [] then []
    else
      var n := |taken| - 1;
      Sieve(taken[..n], floor) + (if Reaches(taken[n], floor) then [SentSample(n + 1, Some(taken[n].at), taken[n].scores)] else [])
  }

  /** Every frame has one score from 0 to 1 for each label and for nothing else. */
  ghost predicate FullyScored(taken: seq<Scored>, labels: seq<string>) {
    forall x | x in taken ::
      |x.scores| == |labels| && forall l | l in x.scores :: l in labels && 0.0 <= x.scores[l] <= 1.0
  }

  /** An accepted list with one more sample, further on, is accepted for as many taken. */
  lemma OneMoreSent(samples: seq<SentSample>, x: SentSample, taken: nat, labels: seq<string>, floor: real)
    requires taken == 0 ==> samples == []
    requires taken > 0 ==> SamplesOk(samples, taken, labels, floor)
    requires x.position == taken + 1 && x.at.Some? && ScoresOk(x.scores, labels, floor)
    ensures SamplesOk(samples + [x], taken + 1, labels, floor)
  {
    var all := Positions(samples + [x]);
    assert forall i | 0 <= i < |samples| :: all[i] == Positions(samples)[i] && 1 <= all[i] <= taken;
  }

  /** A session sampled by the rule is accepted. */
  lemma {:induction false} SampledIsAccepted(taken: seq<Scored>, labels: seq<string>, floor: real)
    requires taken != [] && FullyScored(taken, labels)
    ensures SamplesOk(Sieve(taken, floor), |taken|, labels, floor)
  {
    var n := |taken| - 1;
    assert taken[n] in taken;
    if n > 0 {
      SampledIsAccepted(taken[..n], labels, floor);
    }
    if Reaches(taken[n], floor) {
      OneMoreSent(Sieve(taken[..n], floor), SentSample(n + 1, Some(taken[n].at), taken[n].scores), n, labels, floor);
    }
  }

  /** And its positions are those of the frames that reach the floor. */
  lemma {:induction false} SentIff(taken: seq<Scored>, floor: real, position: int)
    ensures position in Positions(Sieve(taken, floor)) <==> 1 <= position <= |taken| && Reaches(taken[position - 1], floor)
  {
    if taken != [] {
      var n := |taken| - 1;
      SentIff(taken[..n], floor, position);
      var before, all := Positions(Sieve(taken[..n], floor)), Positions(Sieve(taken, floor));
      assert all == before + (if Reaches(taken[n], floor) then [n + 1] else []);
    }
  }

  // ----- numbering -----

  /** One batch's share of a session: the samples it took, and which of them it sends. */
  datatype Batch = Batch(samples: seq<Sample>, positions: seq<int>)

  ghost predicate BatchOk(b: Batch, floor: real) {
    && PositionsOk(b.positions, |b.samples|)
    && forall i | 0 <= i < |b.samples| && b.samples[i].score >= floor :: (i + 1) in b.positions
  }

  function Session(batches: seq<Batch>): seq<Sample> {
    if batches == [] then [] else Session(batches[..|batches| - 1]) + batches[|batches| - 1].samples
  }

  predicate InRange(b: Batch) {
    forall i | 0 <= i < |b.positions| :: 1 <= b.positions[i] <= |b.samples|
  }

  /** A sent sample's number is the session's count before the batch plus its position. */
  function Entry(before: nat, b: Batch, i: nat): Stored
    requires InRange(b) && i < |b.positions|
  {
    var x := b.samples[b.positions[i] - 1];
    Stored(before + b.positions[i], x.at, x.score)
  }

  function Number(before: nat, b: Batch): (s: seq<Stored>)
    requires InRange(b)
    ensures |s| == |b.positions| && forall i | 0 <= i < |s| :: s[i] == Entry(before, b, i)
  {
    seq(|b.positions|, (i: nat) requires i < |b.positions| => Entry(before, b, i))
  }

  function Store(batches: seq<Batch>): seq<Stored>
    requires forall b | b in batches :: InRange(b)
  {
    if batches == [] then []
    else
      var n := |batches| - 1;
      Store(batches[..n]) + Number(|Session(batches[..n])|, batches[n])
  }

  ghost predicate AllOk(batches: seq<Batch>, floor: real) {
    forall b | b in batches :: BatchOk(b, floor)
  }

  /** Numbers are strictly ascending and never past what was taken, and every number names its sample. */
  lemma {:induction false} StoreIsFaithful(rule: WindowRule, batches: seq<Batch>, floor: real)
    requires rule.Valid() && AllOk(batches, floor) && floor <= rule.threshold
    ensures forall k | 0 <= k < |Store(batches)| :: 1 <= Store(batches)[k].seqNo <= |Session(batches)|
    ensures Faithful(rule, Session(batches), Store(batches))
  {
    if batches != [] {
      var n := |batches| - 1;
      var b := batches[n];
      assert b in batches;
      StoreIsFaithful(rule, batches[..n], floor);
      AppendFaithful(rule, Session(batches[..n]), Store(batches[..n]), b, floor);
    }
  }

  lemma AppendFaithful(rule: WindowRule, full: seq<Sample>, stored: seq<Stored>, b: Batch, floor: real)
    requires rule.Valid() && BatchOk(b, floor) && floor <= rule.threshold
    requires forall k | 0 <= k < |stored| :: 1 <= stored[k].seqNo <= |full|
    requires Faithful(rule, full, stored)
    ensures var more := stored + Number(|full|, b);
            && (forall k | 0 <= k < |more| :: 1 <= more[k].seqNo <= |full + b.samples|)
            && Faithful(rule, full + b.samples, more)
  {
    AppendOrdered(full, stored, b);
    AppendTrue(full, stored, b);
    AppendKeepsHits(rule, full, stored, b, floor);
  }

  lemma AppendOrdered(full: seq<Sample>, stored: seq<Stored>, b: Batch)
    requires PositionsOk(b.positions, |b.samples|) && Ascending(stored)
    requires forall k | 0 <= k < |stored| :: 1 <= stored[k].seqNo <= |full|
    ensures Ascending(stored + Number(|full|, b))
    ensures forall k | 0 <= k < |stored| + |b.positions| :: 1 <= (stored + Number(|full|, b))[k].seqNo <= |full + b.samples|
  {
    var added := Number(|full|, b);
    forall i | 0 <= i < |added| ensures |full| < added[i].seqNo <= |full + b.samples| {
      assert added[i] == Entry(|full|, b, i);
    }
    forall i, j | 0 <= i < j < |added| ensures added[i].seqNo < added[j].seqNo {
      assert added[i] == Entry(|full|, b, i) && added[j] == Entry(|full|, b, j);
    }
  }

  lemma AppendTrue(full: seq<Sample>, stored: seq<Stored>, b: Batch)
    requires InRange(b)
    requires forall k | 0 <= k < |stored| :: 1 <= stored[k].seqNo <= |full|
    requires forall k | 0 <= k < |stored| :: full[stored[k].seqNo - 1] == Sample(stored[k].score, stored[k].at)
    ensures var more, all := stored + Number(|full|, b), full + b.samples;
            forall k | 0 <= k < |more| && 1 <= more[k].seqNo <= |all| ::
              all[more[k].seqNo - 1] == Sample(more[k].score, more[k].at)
  {
    var added := Number(|full|, b);
    forall i | 0 <= i < |added|
      ensures (full + b.samples)[added[i].seqNo - 1] == Sample(added[i].score, added[i].at)
    {
      assert added[i] == Entry(|full|, b, i);
    }
  }

  lemma AppendKeepsHits(rule: WindowRule, full: seq<Sample>, stored: seq<Stored>, b: Batch, floor: real)
    requires rule.Valid() && BatchOk(b, floor) && floor <= rule.threshold && InRange(b)
    requires Faithful(rule, full, stored)
    ensures var more, all := stored + Number(|full|, b), full + b.samples;
            forall i | 0 <= i < |all| && all[i].score >= rule.threshold ::
              exists k :: 0 <= k < |more| && more[k].seqNo == i + 1
  {
    var added := Number(|full|, b);
    var more, all := stored + added, full + b.samples;
    forall i | 0 <= i < |all| && all[i].score >= rule.threshold
      ensures exists k :: 0 <= k < |more| && more[k].seqNo == i + 1
    {
      if i < |full| {
        var k :| 0 <= k < |stored| && stored[k].seqNo == i + 1;
        assert more[k].seqNo == i + 1;
      } else {
        var p := i - |full| + 1;
        assert p in b.positions;
        var k :| 0 <= k < |b.positions| && b.positions[k] == p;
        assert more[|stored| + k] == added[k];
      }
    }
  }

  /** A replay over what validated batches stored is exact for every threshold at or above the floor. */
  lemma StoredReplayIsExact(rule: WindowRule, batches: seq<Batch>, floor: real)
    requires rule.Valid() && AllOk(batches, floor) && floor <= rule.threshold
    ensures Episodes(rule, Filled(Store(batches), |Session(batches)|)).episodes == Episodes(rule, Session(batches)).episodes
  {
    StoreIsFaithful(rule, batches, floor);
    ReplayIsExact(rule, Session(batches), Store(batches));
  }
}
