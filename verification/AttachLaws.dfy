/** Exactly when a room client starts to attach, by what happened before: gawk-server/publisher/room.go. */
module AttachLaws {
  import opened AttachLatch

  /** The client after some events. */
  function After(events: seq<Event>): State {
    if events == [] then START
    else
      var s, e := After(events[..|events| - 1]), events[|events| - 1];
      if Enabled(s, e) then Next(s, e) else s
  }

  ghost predicate Legal(events: seq<Event>) {
    forall k | 0 <= k < |events| :: Enabled(After(events[..k]), events[k])
  }

  // ----- what the events say -----

  predicate Connects(e: Event) { e.Connect? }
  predicate Disconnects(e: Event) { e.Disconnect? }
  predicate Snapshots(e: Event) { e.Snapshot? }
  predicate Names(e: Event) { e.BroadcastId? }
  predicate GivesToken(e: Event) { e == ResumeToken(true) }
  predicate SpoilsToken(e: Event) { e == ResumeToken(false) }
  predicate Never(e: Event) { false }

  /** A new connection, a resumed publish, or a write that failed. */
  predicate Reopens(e: Event) {
    e.Connect? || e.PublishResume? || (e.Finish? && e.outcome == Failed)
  }

  /** The k-th event did this, and none since has undone it. */
  ghost predicate HoldsFrom(events: seq<Event>, does: Event -> bool, undoes: Event -> bool, k: nat) {
    k < |events| && does(events[k]) && forall j | k < j < |events| :: !undoes(events[j])
  }

  ghost predicate Holds(events: seq<Event>, does: Event -> bool, undoes: Event -> bool) {
    exists k: nat :: HoldsFrom(events, does, undoes, k)
  }

  /** The k-th event was a maybeAttach call that began a write. */
  ghost predicate BeginsAt(events: seq<Event>, k: nat) {
    k < |events| && events[k].MaybeAttach? && |After(events[..k + 1]).writes| > |After(events[..k]).writes|
  }

  ghost predicate LatchedFrom(events: seq<Event>, k: nat) {
    BeginsAt(events, k) && forall j | k < j < |events| :: !Reopens(events[j])
  }

  /** A write was begun, and since then nothing has called for another. */
  ghost predicate Latched(events: seq<Event>) {
    exists k: nat :: LatchedFrom(events, k)
  }

  function Count(events: seq<Event>, counts: Event -> bool): nat {
    if events == [] then 0 else Count(events[..|events| - 1], counts) + (if counts(events[|events| - 1]) then 1 else 0)
  }

  predicate BeginsGeneration(e: Event) {
    e.Connect? || e.PublishResume?
  }

  // ----- and what the client knows -----

  ghost predicate Knows(events: seq<Event>, s: State) {
    KnowsFlags(events, s) && KnowsLatch(events, s)
  }

  ghost predicate KnowsFlags(events: seq<Event>, s: State) {
    && (s.live <==> Holds(events, Connects, Disconnects))
    && (s.live ==> (s.haveState <==> Holds(events, Snapshots, Connects)))
    && (s.id <==> Holds(events, Names, Never))
    && (s.token == Usable <==> Holds(events, GivesToken, SpoilsToken))
    && s.gen == Count(events, BeginsGeneration) && s.conn == Count(events, Connects)
  }

  ghost predicate KnowsLatch(events: seq<Event>, s: State) {
    && s.attachedGen <= s.gen && (s.live ==> s.gen > 0)
    && (s.gen > 0 ==> (s.attachedGen == s.gen <==> Latched(events)))
  }

  lemma HoldsFromThen(events: seq<Event>, e: Event, does: Event -> bool, undoes: Event -> bool, k: nat)
    ensures HoldsFrom(events + [e], does, undoes, k) <==>
            (k == |events| && does(e)) || (HoldsFrom(events, does, undoes, k) && !undoes(e))
  {
    var all, n := events + [e], |events|;
    assert all[n] == e && forall j | 0 <= j < n :: all[j] == events[j];
  }

  lemma HoldsThen(events: seq<Event>, e: Event, does: Event -> bool, undoes: Event -> bool)
    ensures Holds(events + [e], does, undoes) <==> does(e) || (!undoes(e) && Holds(events, does, undoes))
  {
    HoldsFromThen(events, e, does, undoes, |events|);
    forall k: nat ensures HoldsFrom(events + [e], does, undoes, k) <==>
                          (k == |events| && does(e)) || (HoldsFrom(events, does, undoes, k) && !undoes(e)) {
      HoldsFromThen(events, e, does, undoes, k);
    }
  }

  lemma LegalAt(events: seq<Event>, k: nat)
    requires Legal(events) && k < |events|
    ensures Enabled(After(events[..k]), events[k])
  {}

  lemma StillLegal(events: seq<Event>, e: Event)
    requires Legal(events + [e])
    ensures Legal(events) && Enabled(After(events), e)
  {
    var all, n := events + [e], |events|;
    forall k | 0 <= k < n ensures Enabled(After(events[..k]), events[k]) {
      LegalAt(all, k);
      assert all[..k] == events[..k] && all[k] == events[k];
    }
    LegalAt(all, n);
    assert all[..n] == events && all[n] == e;
  }

  lemma StepsOn(events: seq<Event>, e: Event)
    requires Enabled(After(events), e)
    ensures After(events + [e]) == Next(After(events), e)
  {
    assert (events + [e])[..|events|] == events;
  }

  lemma Front(events: seq<Event>, e: Event)
    requires Legal(events + [e])
    ensures Legal(events) && Enabled(After(events), e) && After(events + [e]) == Next(After(events), e)
  {
    StillLegal(events, e);
    StepsOn(events, e);
  }

  lemma BeginsThen(events: seq<Event>, e: Event, k: nat)
    ensures BeginsAt(events + [e], k) <==>
            BeginsAt(events, k) || (k == |events| && e.MaybeAttach? && |After(events + [e]).writes| > |After(events).writes|)
  {
    var all, n := events + [e], |events|;
    if k < n {
      assert all[..k] == events[..k] && all[..k + 1] == events[..k + 1];
    } else if k == n {
      assert all[..k] == events && all[..k + 1] == all;
    }
  }

  lemma LatchedFromThen(events: seq<Event>, e: Event, k: nat)
    ensures LatchedFrom(events + [e], k) <==>
            (k == |events| && BeginsAt(events + [e], k)) || (LatchedFrom(events, k) && !Reopens(e))
  {
    var all, n := events + [e], |events|;
    BeginsThen(events, e, k);
    assert all[n] == e && forall j | 0 <= j < n :: all[j] == events[j];
  }

  lemma LatchedThen(events: seq<Event>, e: Event)
    ensures Latched(events + [e]) <==> BeginsAt(events + [e], |events|) || (Latched(events) && !Reopens(e))
  {
    LatchedFromThen(events, e, |events|);
    forall k: nat ensures LatchedFrom(events + [e], k) <==>
                          (k == |events| && BeginsAt(events + [e], k)) || (LatchedFrom(events, k) && !Reopens(e)) {
      LatchedFromThen(events, e, k);
    }
  }

  lemma CountThen(events: seq<Event>, e: Event, counts: Event -> bool)
    ensures Count(events + [e], counts) == Count(events, counts) + (if counts(e) then 1 else 0)
  {
    assert (events + [e])[..|events|] == events;
  }

  /** What each event adds to what the events say. */
  lemma SaysMore(events: seq<Event>, e: Event)
    ensures Holds(events + [e], Connects, Disconnects) <==> e.Connect? || (!e.Disconnect? && Holds(events, Connects, Disconnects))
    ensures Holds(events + [e], Snapshots, Connects) <==> e.Snapshot? || (!e.Connect? && Holds(events, Snapshots, Connects))
    ensures Holds(events + [e], Names, Never) <==> e.BroadcastId? || Holds(events, Names, Never)
    ensures Holds(events + [e], GivesToken, SpoilsToken) <==>
            e == ResumeToken(true) || (e != ResumeToken(false) && Holds(events, GivesToken, SpoilsToken))
    ensures Count(events + [e], BeginsGeneration) == Count(events, BeginsGeneration) + (if e.Connect? || e.PublishResume? then 1 else 0)
    ensures Count(events + [e], Connects) == Count(events, Connects) + (if e.Connect? then 1 else 0)
  {
    HoldsThen(events, e, Connects, Disconnects);
    HoldsThen(events, e, Snapshots, Connects);
    HoldsThen(events, e, Names, Never);
    HoldsThen(events, e, GivesToken, SpoilsToken);
    CountThen(events, e, BeginsGeneration);
    CountThen(events, e, Connects);
  }

  lemma FlagsMore(events: seq<Event>, e: Event, s: State)
    requires Enabled(s, e) && KnowsFlags(events, s)
    ensures KnowsFlags(events + [e], Next(s, e))
  {
    SaysMore(events, e);
  }

  /** After a call: what it latched, and nothing else. */
  lemma CallLatches(events: seq<Event>, s: State, t: State)
    requires Enabled(s, MaybeAttach) && t == Next(s, MaybeAttach) && KnowsLatch(events, s)
    ensures t.gen == s.gen && t.live == s.live && t.attachedGen <= t.gen
    ensures |t.writes| > |s.writes| ==> t.attachedGen == t.gen
    ensures |t.writes| <= |s.writes| ==> t.attachedGen == s.attachedGen
  {}

  lemma OthersReopen(events: seq<Event>, e: Event, s: State, t: State)
    requires Enabled(s, e) && t == Next(s, e) && !e.MaybeAttach? && KnowsLatch(events, s)
    ensures t.attachedGen <= t.gen && (t.live ==> t.gen > 0) && t.gen >= s.gen
    ensures Reopens(e) ==> t.gen > 0 ==> t.attachedGen != t.gen
    ensures !Reopens(e) ==> t.gen == s.gen && t.attachedGen == s.attachedGen
  {}

  lemma LatchMore(events: seq<Event>, e: Event)
    requires Legal(events + [e]) && KnowsLatch(events, After(events))
    ensures KnowsLatch(events + [e], After(events + [e]))
  {
    var s, t := After(events), After(events + [e]);
    Front(events, e);
    LatchedThen(events, e);
    BeginsThen(events, e, |events|);
    NotYet(events, |events|);
    if e.MaybeAttach? {
      CallLatches(events, s, t);
    } else {
      OthersReopen(events, e, s, t);
    }
  }

  lemma NotYet(events: seq<Event>, k: nat)
    requires k >= |events|
    ensures !BeginsAt(events, k)
  {}

  lemma {:induction false} AlwaysKnows(events: seq<Event>)
    requires Legal(events)
    ensures Knows(events, After(events))
  {
    if events != [] {
      var before, e := events[..|events| - 1], events[|events| - 1];
      assert events == before + [e];
      Front(before, e);
      AlwaysKnows(before);
      FlagsMore(before, e, After(before));
      LatchMore(before, e);
    }
  }

  /**
   * A maybeAttach call begins a write exactly when the client is connected, has had a snapshot on this connection, knows
   * the broadcast's ID, was last given a usable resume token, and has begun no write since the last connection, resumed
   * publish or failed write; and it writes for the generation and the connection the events have come to.
   */
  lemma BeginsIff(events: seq<Event>)
    requires Legal(events + [MaybeAttach])
    ensures var before, after := After(events), After(events + [MaybeAttach]);
            if Holds(events, Connects, Disconnects) && Holds(events, Snapshots, Connects) && Holds(events, Names, Never) &&
               Holds(events, GivesToken, SpoilsToken) && !Latched(events)
            then after.writes == before.writes + [Write(Count(events, BeginsGeneration), Count(events, Connects))]
            else after.writes == before.writes
  {
    Front(events, MaybeAttach);
    AlwaysKnows(events);
  }

  lemma OneMore(before: seq<Event>, rest: seq<Event>)
    requires rest != []
    ensures (before + [rest[0]]) + rest[1..] == before + rest
  {}

  lemma LegalGrows(before: seq<Event>, e: Event)
    requires Legal(before) && Enabled(After(before), e)
    ensures Legal(before + [e]) && After(before + [e]) == Next(After(before), e)
  {
    var all := before + [e];
    assert all[..|before|] == before;
    forall k | 0 <= k < |all| ensures Enabled(After(all[..k]), all[k]) {
      if k < |before| {
        assert all[..k] == before[..k];
      }
    }
  }

  /** Every run is legal, and leads where its events say. */
  lemma {:induction false} RunsAreLegal(before: seq<Event>, rest: seq<Event>, t: State)
    requires Legal(before) && Run(After(before), rest, t)
    ensures Legal(before + rest) && After(before + rest) == t
    decreases |rest|
  {
    if rest == [] {
      assert before + rest == before;
    } else {
      LegalGrows(before, rest[0]);
      RunsAreLegal(before + [rest[0]], rest[1..], t);
      OneMore(before, rest);
    }
  }
}
