/**
 * What the session of common-ts/oidc-session/session.ts holds and does, read off the events of a run: which tokens a renewal
 * installs, which refresh token the next one spends, and what becomes of a call that was rejected.
 */
module OidcLaws {
  import opened Outcomes
  import opened OidcSession

  // ----- the tokens held -----

  predicate Answered(e: Event) {
    e.RenewalAnswer? && e.tokens.Some?
  }

  /** The access token handed out last. */
  function AccessNow(first: nat, events: seq<Event>): nat {
    if events == [] then first
    else
      var e := events[|events| - 1];
      if Answered(e) then e.tokens.value.access else AccessNow(first, events[..|events| - 1])
  }

  /** The refresh token handed out last; an answer without one leaves the one before in force. */
  function RefreshNow(first: Option<nat>, events: seq<Event>): Option<nat> {
    if events == [] then first
    else
      var e := events[|events| - 1];
      if Answered(e) && e.tokens.value.refresh.Some? then e.tokens.value.refresh else RefreshNow(first, events[..|events| - 1])
  }

  /** Whether the timer has gone off since tokens were last handed out. */
  predicate FiredSince(events: seq<Event>) {
    events != [] &&
    var e := events[|events| - 1];
    e.TimerFires? || (!Answered(e) && FiredSince(events[..|events| - 1]))
  }

  /** As long as nothing has been dropped. */
  ghost predicate HoldsLatest(first: Option<Tokens>, events: seq<Event>, s: State) {
    s.era == 0 ==>
      && (s.tokens.Some? <==> first.Some?)
      && (first.Some? ==>
            var refresh := RefreshNow(first.value.refresh, events);
            && s.tokens == Some(Tokens(AccessNow(first.value.access, events), refresh))
            && (forall r | r in s.renewals :: Some(r.refresh) == refresh)
            && (s.timer <==> refresh.Some? && !FiredSince(events)))
      && (first.None? ==> s.renewals == [] && !s.timer)
  }

  lemma LatestSnoc(first: Tokens, events: seq<Event>, e: Event)
    ensures var all := events + [e];
            && AccessNow(first.access, all) == (if Answered(e) then e.tokens.value.access else AccessNow(first.access, events))
            && RefreshNow(first.refresh, all) ==
               (if Answered(e) && e.tokens.value.refresh.Some? then e.tokens.value.refresh else RefreshNow(first.refresh, events))
            && (FiredSince(all) <==> e.TimerFires? || (!Answered(e) && FiredSince(events)))
  {
    assert (events + [e])[..|events|] == events;
  }

  lemma RenewalGone(s: State, i: nat)
    requires Inv(s) && i < |s.renewals|
    ensures Without(s.renewals, i) == [] && s.renewals[i] in s.renewals
  {}

  lemma AnswerHolds(first: Option<Tokens>, events: seq<Event>, s: State, i: nat, tokens: Option<Tokens>)
    requires Inv(s) && HoldsLatest(first, events, s) && i < |s.renewals|
    ensures HoldsLatest(first, events + [RenewalAnswer(i, tokens)], Next(s, RenewalAnswer(i, tokens)))
  {
    RenewalGone(s, i);
    if first.Some? {
      LatestSnoc(first.value, events, RenewalAnswer(i, tokens));
    }
  }

  lemma StepHolds(first: Option<Tokens>, events: seq<Event>, s: State, e: Event)
    requires Inv(s) && HoldsLatest(first, events, s) && Enabled(s, e)
    ensures HoldsLatest(first, events + [e], Next(s, e))
  {
    if e.RenewalAnswer? {
      AnswerHolds(first, events, s, e.i, e.tokens);
    } else if first.Some? {
      LatestSnoc(first.value, events, e);
    }
  }

  lemma OneMoreBefore(before: seq<Event>, events: seq<Event>)
    requires events != []
    ensures before + [events[0]] + events[1..] == before + events
  {
  }

  lemma {:induction false} RunHolds(first: Option<Tokens>, before: seq<Event>, s: State, events: seq<Event>, t: State)
    requires Inv(s) && HoldsLatest(first, before, s) && Run(s, events, t)
    ensures Inv(t) && HoldsLatest(first, before + events, t)
    decreases |events|
  {
    if events == [] {
      assert before + events == before;
    } else {
      OneMoreBefore(before, events);
      StepHolds(first, before, s, events[0]);
      StepKeepsInv(s, events[0]);
      RunHolds(first, before + [events[0]], Next(s, events[0]), events[1..], t);
    }
  }

  lemma Reached(first: Option<Tokens>, events: seq<Event>, s: State)
    requires Run(Start(first), events, s)
    ensures Inv(s) && HoldsLatest(first, events, s)
  {
    assert [] + events == events;
    RunHolds(first, [], Start(first), events, s);
  }

  /**
   * Until a sign-out or a fallback drops them, the session holds the access token of the latest answered renewal, or the
   * first one before any, with the refresh token handed out last; and the renewal timer runs exactly while there is one
   * and the timer has not gone off since.
   */
  lemma TokensAreLatest(first: Tokens, events: seq<Event>, s: State)
    requires Run(Start(Some(first)), events, s) && s.era == 0
    ensures s.tokens == Some(Tokens(AccessNow(first.access, events), RefreshNow(first.refresh, events)))
    ensures s.timer <==> RefreshNow(first.refresh, events).Some? && !FiredSince(events)
  {
    Reached(Some(first), events, s);
  }

  /** Every refresh request spends the refresh token handed out last. */
  lemma RequestsSpendLatest(first: Tokens, events: seq<Event>, s: State, e: Event, r: Renewal)
    requires Run(Start(Some(first)), events, s) && Enabled(s, e) && r in Next(s, e).renewals && r !in s.renewals
    ensures Some(r.refresh) == RefreshNow(first.refresh, events)
  {
    Reached(Some(first), events, s);
    StepKeepsInv(s, e);
    StepHolds(Some(first), events, s, e);
    LatestSnoc(first, events, e);
    AnswersAskNothing(s, e);
  }

  lemma AnswersAskNothing(s: State, e: Event)
    requires Enabled(s, e)
    ensures e.RenewalAnswer? ==> forall r | r in Next(s, e).renewals :: r in s.renewals
  {
    if e.RenewalAnswer? {
      WithoutKeeps(s.renewals, e.i);
    }
  }

  /** The token is not handed out by any of these events. */
  predicate NeverHandsOut(events: seq<Event>, refresh: nat) {
    forall e | e in events && Answered(e) :: e.tokens.value.refresh != Some(refresh)
  }

  lemma {:induction false} StaysReplaced(first: Option<nat>, before: seq<Event>, after: seq<Event>, refresh: nat)
    requires RefreshNow(first, before) != Some(refresh) && NeverHandsOut(after, refresh)
    ensures RefreshNow(first, before + after) != Some(refresh)
  {
    if after == [] {
      assert before + after == before;
    } else {
      var n := |after| - 1;
      assert after[n] in after;
      StaysReplaced(first, before, after[..n], refresh);
      assert (before + after)[..|before + after| - 1] == before + after[..n];
    }
  }

  /**
   * A refresh token that an answer has replaced is never spent again, unless it is handed out again: a provider that
   * rotates has revoked it.
   */
  lemma ReplacedNeverSpent(first: Tokens, before: seq<Event>, i: nat, answer: Tokens, after: seq<Event>, s: State, e: Event,
                           r: Renewal, spent: nat)
    requires Run(Start(Some(first)), before + [RenewalAnswer(i, Some(answer))] + after, s)
    requires answer.refresh.Some? && answer.refresh != Some(spent) && NeverHandsOut(after, spent)
    requires Enabled(s, e) && r in Next(s, e).renewals && r !in s.renewals
    ensures r.refresh != spent
  {
    var events := before + [RenewalAnswer(i, Some(answer))];
    LatestSnoc(first, before, RenewalAnswer(i, Some(answer)));
    StaysReplaced(first.refresh, events, after, spent);
    RequestsSpendLatest(first, events + after, s, e, r);
  }

  // ----- what becomes of a caller -----

  /** A caller whose renewal came to nothing, or whose retry was rejected too. */
  predicate GivesUp(s: State, e: Event)
    requires Enabled(s, e)
  {
    (e.Resume? && s.calls[e.i].stage == Renewed(false)) || (e.ApiAnswer? && e.unauthorized && s.calls[e.i].stage == Retrying)
  }

  /**
   * Tokens are dropped by a sign-out, and by the first caller to give up on them; that caller sends the page to the login,
   * and everyone who gives up later finds nothing to drop and begins no login.
   */
  lemma DroppedIff(first: Option<Tokens>, events: seq<Event>, s: State, e: Event)
    requires Run(Start(first), events, s) && Enabled(s, e)
    ensures var t := Next(s, e);
            && (t.era != s.era <==> e == Logout || (GivesUp(s, e) && s.era == 0))
            && (t.era != s.era ==> t.tokens.None? && !t.timer)
            && (GivesUp(s, e) && s.era == 0 ==> t.loginInflight && t.fallbacks == s.fallbacks + [Fallback(s.calls[e.i], s.logouts)])
            && (GivesUp(s, e) && s.era != 0 ==>
                  t.loginInflight == s.loginInflight && t.logins == s.logins && t.fallbacks == s.fallbacks)
  {
    Reached(first, events, s);
    if e.Resume? || e.ApiAnswer? {
      assert s.calls[e.i] in s.calls;
    }
  }

  /** A login begins only for a caller that gave up, for one that found no tokens, or for someone who asks. */
  lemma LoginBegunIff(first: Option<Tokens>, events: seq<Event>, s: State, e: Event)
    requires Run(Start(first), events, s) && Enabled(s, e) && !s.loginInflight
    ensures Next(s, e).loginInflight <==>
            (GivesUp(s, e) && s.era == 0) || e == UserLogin || (e == ApiCall && s.tokens.None?)
  {
    Reached(first, events, s);
    DroppedIff(first, events, s, e);
    if e.Resume? || e.ApiAnswer? {
      assert s.calls[e.i] in s.calls;
    }
  }

  /** Nobody waits for a renewal that is not under way. */
  ghost predicate NobodyWaitsInVain(s: State) {
    forall c | c in s.calls && c.stage == Renewing :: |s.renewals| == 1
  }

  /** The timer sends no request of its own. */
  ghost predicate TimersOnlyRenew(s: State) {
    forall c | c in s.calls && c.timer :: c.stage == Renewing || c.stage.Renewed?
  }

  lemma {:induction false} WakeTells(calls: seq<Call>, ok: bool, i: nat)
    requires i < |calls|
    ensures Wake(calls, ok)[i] == if calls[i].stage == Renewing then calls[i].(stage := Renewed(ok)) else calls[i]
  {
    if i > 0 {
      WakeTells(calls[1..], ok, i - 1);
    }
  }

  lemma AnswerWaits(s: State, i: nat, tokens: Option<Tokens>)
    requires Inv(s) && TimersOnlyRenew(s) && i < |s.renewals|
    ensures var t := Next(s, RenewalAnswer(i, tokens)); NobodyWaitsInVain(t) && TimersOnlyRenew(t)
  {
    var t := Next(s, RenewalAnswer(i, tokens));
    forall c | c in t.calls ensures c.stage != Renewing && (c.timer ==> c.stage.Renewed?) {
      var k :| 0 <= k < |t.calls| && t.calls[k] == c;
      WakeTells(s.calls, true, k);
      WakeTells(s.calls, false, k);
      assert s.calls[k] in s.calls;
    }
  }

  lemma StepWaits(s: State, e: Event)
    requires Inv(s) && NobodyWaitsInVain(s) && TimersOnlyRenew(s) && Enabled(s, e)
    ensures NobodyWaitsInVain(Next(s, e)) && TimersOnlyRenew(Next(s, e))
  {
    if e.RenewalAnswer? {
      AnswerWaits(s, e.i, e.tokens);
    } else if e.Resume? || e.ApiAnswer? {
      WithoutKeeps(s.calls, e.i);
    }
  }

  lemma {:induction false} RunWaits(s: State, events: seq<Event>, t: State)
    requires Inv(s) && NobodyWaitsInVain(s) && TimersOnlyRenew(s) && Run(s, events, t)
    ensures NobodyWaitsInVain(t) && TimersOnlyRenew(t)
    decreases |events|
  {
    if events != [] {
      StepWaits(s, events[0]);
      StepKeepsInv(s, events[0]);
      RunWaits(Next(s, events[0]), events[1..], t);
    }
  }

  /** A call rejected the first time, and a timer that goes off, wait for a renewal if there can be one and else fail at once. */
  lemma WaitsForRenewal(first: Option<Tokens>, events: seq<Event>, s: State, e: Event)
    requires Run(Start(first), events, s) && Enabled(s, e)
    requires e == TimerFires || (e.ApiAnswer? && e.unauthorized && s.calls[e.i].stage == Fetching)
    ensures var t := Next(s, e);
            var canRenew := |s.renewals| == 1 || (s.tokens.Some? && s.tokens.value.refresh.Some?);
            && t.era == s.era && t.tokens == s.tokens && t.calls != []
            && t.calls[|t.calls| - 1].stage == (if canRenew then Renewing else Renewed(false))
            && t.calls[|t.calls| - 1].timer == e.TimerFires?
            && |t.renewals| == if canRenew then 1 else 0
  {
    Reached(first, events, s);
    RunWaits(Start(first), events, s);
    if e.ApiAnswer? {
      assert s.calls[e.i] in s.calls;
    }
  }

  /**
   * Whoever waits for a renewal waits for the one under way, and its answer reaches all of them at once: yes exactly if it
   * brought tokens to a session that still holds some.
   */
  lemma AnswerReachesAll(first: Option<Tokens>, events: seq<Event>, s: State, i: nat, answer: Option<Tokens>, k: nat)
    requires Run(Start(first), events, s) && i < |s.renewals| && k < |s.calls|
    ensures NobodyWaitsInVain(s)
    ensures var t := Next(s, RenewalAnswer(i, answer));
            && t.renewals == [] && |t.calls| == |s.calls|
            && t.calls[k] == if s.calls[k].stage == Renewing then s.calls[k].(stage := Renewed(answer.Some? && s.era == 0)) else s.calls[k]
  {
    Reached(first, events, s);
    RunWaits(Start(first), events, s);
    RenewalGone(s, i);
    WakeTells(s.calls, true, k);
    WakeTells(s.calls, false, k);
  }

  /** A call told yes sends its request once more, and a timer renewal is done. */
  lemma ToldYes(first: Option<Tokens>, events: seq<Event>, s: State, i: nat)
    requires Run(Start(first), events, s) && i < |s.calls| && s.calls[i].stage == Renewed(true)
    ensures var t := Next(s, Resume(i));
            t.calls == s.calls[..i] + s.calls[i + 1..] + (if s.calls[i].timer then [] else [s.calls[i].(stage := Retrying)]) &&
            t.era == s.era && t.tokens == s.tokens
  {
  }
}
