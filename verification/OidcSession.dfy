/**
 * The browser session of common-ts/oidc-session/session.ts, from the moment the login callback has completed: the renewal
 * timer, renewals in flight, API calls and sign-out, interleaved at every await.
 */
module OidcSession {
  import opened Outcomes

  /** Token values as opaque numbers; a provider need not hand out a refresh token. */
  datatype Tokens = Tokens(access: nat, refresh: Option<nat>)

  /** A refresh request: the era it was made in and the refresh token it spends. */
  datatype Renewal = Renewal(era: nat, refresh: nat)

  /** Where a caller is suspended. */
  datatype Stage = Fetching | Renewing | Renewed(ok: bool) | Retrying

  /** A timer renewal or an API call: the era captured when it began, and the sign-outs seen by then. */
  datatype Call = Call(timer: bool, era: nat, logouts: nat, stage: Stage)

  /** A caller that fell back to the login redirect, and the sign-outs when it did. */
  datatype Fallback = Fallback(call: Call, logouts: nat)

  datatype State = State(
    tokens: Option<Tokens>,
    era: nat,
    timer: bool,                // renewTimer is set
    renewInflight: bool,
    renewals: seq<Renewal>,     // refresh requests not answered yet
    loginInflight: bool,
    logins: nat,                // startLogin bodies not settled yet
    calls: seq<Call>,
    logouts: nat,
    fallbacks: seq<Fallback>,
    redirects: seq<nat>         // the sign-outs at each redirect to the provider
  )

  /** The callback may have brought tokens or failed. */
  function Start(tokens: Option<Tokens>): State {
    State(tokens, 0, Armed(tokens), false, [], false, 0, [], 0, [], [])
  }

  /** scheduleRenewal sets a timer only if there is something to renew with. */
  predicate Armed(tokens: Option<Tokens>) {
    tokens.Some? && tokens.value.refresh.Some?
  }

  function Adopted(s: State, tokens: Tokens): State {
    s.(tokens := Some(tokens), timer := Armed(Some(tokens)))
  }

  function Abandoned(s: State): State {
    s.(era := s.era + 1, tokens := None, timer := false)
  }

  function LoginBegun(s: State): State {
    if s.loginInflight then s else s.(loginInflight := true, logins := s.logins + 1)
  }

  /** Joins the renewal in flight, starts one, or comes back empty at once. */
  function RenewTried(s: State, call: Call): State {
    if s.renewInflight then s.(calls := s.calls + [call.(stage := Renewing)])
    else if s.tokens.None? || s.tokens.value.refresh.None? then s.(calls := s.calls + [call.(stage := Renewed(false))])
    else
      s.(calls := s.calls + [call.(stage := Renewing)], renewInflight := true,
         renewals := s.renewals + [Renewal(s.era, s.tokens.value.refresh.value)])
  }

  function FallenBack(s: State, call: Call): State {
    if call.era != s.era then s
    else LoginBegun(Abandoned(s).(fallbacks := s.fallbacks + [Fallback(call, s.logouts)]))
  }

  /** Wakes the callers suspended on a renewal. */
  function Wake(calls: seq<Call>, ok: bool): (r: seq<Call>)
    ensures |r| == |calls|
  {
    if calls == [] then []
    else [if calls[0].stage.Renewing? then calls[0].(stage := Renewed(ok)) else calls[0]] + Wake(calls[1..], ok)
  }

  function Without<T>(xs: seq<T>, i: nat): seq<T>
    requires i < |xs|
  {
    xs[..i] + xs[i + 1..]
  }

  datatype Event =
    | TimerFires
    | ApiCall
    | ApiAnswer(i: nat, unauthorized: bool)
    | RenewalAnswer(i: nat, tokens: Option<Tokens>)   // None: refused, or the request failed
    | Resume(i: nat)                                  // a caller sees the renewal's result
    | LoginRedirects
    | LoginFails
    | UserLogin                                       // "Try again" on the error page
    | Logout

  predicate Enabled(s: State, e: Event) {
    match e
    case TimerFires => s.timer
    case ApiAnswer(i, _) => i < |s.calls| && (s.calls[i].stage.Fetching? || s.calls[i].stage.Retrying?)
    case RenewalAnswer(i, _) => i < |s.renewals|
    case Resume(i) => i < |s.calls| && s.calls[i].stage.Renewed?
    case LoginRedirects => s.logins > 0
    case LoginFails => s.logins > 0
    case _ => true
  }

  function Next(s: State, e: Event): State
    requires Enabled(s, e)
  {
    match e
    case TimerFires => RenewTried(s.(timer := false), Call(true, s.era, s.logouts, Fetching))
    case ApiCall =>
      if s.tokens.None? then LoginBegun(s) else s.(calls := s.calls + [Call(false, s.era, s.logouts, Fetching)])
    case ApiAnswer(i, unauthorized) =>
      var call := s.calls[i];
      var s1 := s.(calls := Without(s.calls, i));
      if !unauthorized then s1
      else if call.stage.Fetching? then RenewTried(s1, call)
      else FallenBack(s1, call)
    case RenewalAnswer(i, tokens) => AnswerRenewal(s, i, tokens)
    case Resume(i) =>
      var call := s.calls[i];
      var s1 := s.(calls := Without(s.calls, i));
      if !call.stage.ok then FallenBack(s1, call)
      else if call.timer then s1
      else s1.(calls := s1.calls + [call.(stage := Retrying)])
    case LoginRedirects => s.(loginInflight := false, logins := s.logins - 1, redirects := s.redirects + [s.logouts])
    case LoginFails => s.(loginInflight := false, logins := s.logins - 1)
    case UserLogin => LoginBegun(s)
    case Logout => Abandoned(s).(logouts := s.logouts + 1)
  }

  /** The answer to a refresh request is installed only in the era that asked; a provider may keep the old refresh token. */
  function AnswerRenewal(s: State, i: nat, tokens: Option<Tokens>): State
    requires i < |s.renewals|
  {
    var r := s.renewals[i];
    var s1 := s.(renewals := Without(s.renewals, i), renewInflight := false);
    if tokens.None? || r.era != s.era then s1.(calls := Wake(s.calls, false))
    else
      var refresh := if tokens.value.refresh.Some? then tokens.value.refresh else Some(r.refresh);
      Adopted(s1.(calls := Wake(s.calls, true)), tokens.value.(refresh := refresh))
  }

  /** The fields of AuthSession; each method is what runs between two awaits. */
  class AuthSession {
    var tokens: Option<Tokens>
    var generation: nat
    var renewTimer: bool
    var renewInflight: bool
    var loginInflight: bool
    ghost var renewals: seq<Renewal>
    ghost var logins: nat
    ghost var calls: seq<Call>
    ghost var logouts: nat
    ghost var fallbacks: seq<Fallback>
    ghost var redirects: seq<nat>

    ghost function Abs(): State
      reads this
    {
      State(tokens, generation, renewTimer, renewInflight, renewals, loginInflight, logins, calls, logouts, fallbacks, redirects)
    }

    constructor (tokens: Option<Tokens>)
      ensures Abs() == Start(tokens)
    {
      this.tokens, generation, renewTimer := tokens, 0, tokens.Some? && tokens.value.refresh.Some?;
      renewInflight, loginInflight := false, false;
      renewals, logins, calls, logouts, fallbacks, redirects := [], 0, [], 0, [], [];
    }

    method ScheduleRenewal()
      modifies this`renewTimer
      ensures renewTimer == Armed(tokens)
    {
      renewTimer := false;
      if tokens.None? || tokens.value.refresh.None? {
        return;
      }
      renewTimer := true;
    }

    method Adopt(t: Tokens)
      modifies this`tokens, this`renewTimer
      ensures Abs() == Adopted(old(Abs()), t)
    {
      tokens := Some(t);
      ScheduleRenewal();
    }

    method Abandon()
      modifies this`generation, this`tokens, this`renewTimer
      ensures Abs() == Abandoned(old(Abs()))
    {
      generation := generation + 1;
      tokens := None;
      renewTimer := false;
    }

    method BeginLogin()
      modifies this`loginInflight, this`logins
      ensures Abs() == LoginBegun(old(Abs()))
    {
      if loginInflight {
        return;
      }
      logins := logins + 1;
      loginInflight := true;
    }

    /** The stage the caller is left in: waiting for a renewal, or told at once that there is none. */
    method TryRenew(ghost call: Call) returns (stage: Stage)
      modifies this`renewInflight, this`renewals, this`calls
      ensures Abs() == RenewTried(old(Abs()), call)
      ensures calls == old(calls) + [call.(stage := stage)]
    {
      if renewInflight {
        calls := calls + [call.(stage := Renewing)];
        return Renewing;
      }
      if tokens.None? || tokens.value.refresh.None? {
        calls := calls + [call.(stage := Renewed(false))];
        return Renewed(false);
      }
      renewals := renewals + [Renewal(generation, tokens.value.refresh.value)];
      renewInflight := true;
      calls := calls + [call.(stage := Renewing)];
      return Renewing;
    }

    /** The generation argument is the era the caller began in. */
    method FallBackToLogin(ghost call: Call, era: nat)
      requires call.era == era
      modifies this
      ensures Abs() == FallenBack(old(Abs()), call)
    {
      if era != generation {
        return;
      }
      fallbacks := fallbacks + [Fallback(call, logouts)];
      Abandon();
      BeginLogin();
    }

    method RenewTimerFires() returns (stage: Stage)
      requires Enabled(Abs(), TimerFires)
      modifies this
      ensures Abs() == Next(old(Abs()), TimerFires)
    {
      renewTimer := false;
      stage := TryRenew(Call(true, generation, logouts, Fetching));
    }

    /** The continuation of one refresh request; its result is what wakes the callers suspended on it. */
    method RenewalArrives(ghost i: nat, r: Renewal, response: Option<Tokens>) returns (ok: bool)
      requires i < |renewals| && renewals[i] == r
      modifies this
      ensures Abs() == Next(old(Abs()), RenewalAnswer(i, response))
      ensures calls == Wake(old(calls), ok)
    {
      renewals := Without(renewals, i);
      ok := response.Some? && r.era == generation;
      calls := Wake(calls, ok);
      if ok {
        var refresh := if response.value.refresh.Some? then response.value.refresh else Some(r.refresh);
        Adopt(Tokens(response.value.access, refresh));
      }
      renewInflight := false;
    }

    /** A caller whose renewal has settled: it retries its request, is done, or falls back. */
    method CallResumes(ghost i: nat, timer: bool, era: nat, renewed: bool) returns (retry: bool)
      requires Enabled(Abs(), Resume(i))
      requires calls[i].timer == timer && calls[i].era == era && calls[i].stage == Renewed(renewed)
      modifies this
      ensures Abs() == Next(old(Abs()), Resume(i)) && (retry <==> renewed && !timer)
    {
      ghost var call := calls[i];
      calls := Without(calls, i);
      if renewed {
        if !timer {
          calls := calls + [call.(stage := Retrying)];
        }
        return !timer;
      }
      FallBackToLogin(call, era);
      return false;
    }

    method SignOut()
      modifies this
      ensures Abs() == Next(old(Abs()), Logout)
    {
      Abandon();
      logouts := logouts + 1;
    }
  }

  ghost predicate Run(s: State, events: seq<Event>, t: State)
    decreases |events|
  {
    if events == [] then t == s else Enabled(s, events[0]) && Run(Next(s, events[0]), events[1..], t)
  }

  // ----- what every step keeps -----

  /** One refresh request and one login at a time, and the flags say which. */
  ghost predicate SingleFlight(s: State) {
    |s.renewals| == (if s.renewInflight then 1 else 0) && s.logins == if s.loginInflight then 1 else 0
  }

  /** Once the tokens have been dropped there are none, and nothing in flight can bring any back. */
  ghost predicate DroppedForGood(s: State) {
    (s.era > 0 ==> s.tokens.None? && !s.timer) && (s.timer ==> Armed(s.tokens)) &&
    (forall r | r in s.renewals :: r.era == 0) && forall c | c in s.calls :: c.era == 0
  }

  /** A caller of the current era has seen every sign-out. */
  ghost predicate NoLogoutUnseen(s: State) {
    (forall c | c in s.calls :: c.era <= s.era && (c.era == s.era ==> c.logouts == s.logouts)) &&
    (forall f | f in s.fallbacks :: f.call.logouts == f.logouts) &&
    |s.fallbacks| <= (if s.era == 0 then 0 else 1)
  }

  ghost predicate Inv(s: State) {
    SingleFlight(s) && DroppedForGood(s) && NoLogoutUnseen(s)
  }

  lemma {:induction false} WakeKeeps(calls: seq<Call>, ok: bool)
    ensures forall i | 0 <= i < |calls| ::
              Wake(calls, ok)[i].era == calls[i].era && Wake(calls, ok)[i].logouts == calls[i].logouts
  {
    if calls != [] {
      WakeKeeps(calls[1..], ok);
    }
  }

  lemma WithoutKeeps<T>(xs: seq<T>, i: nat)
    requires i < |xs|
    ensures forall x | x in Without(xs, i) :: x in xs
  {}

  lemma FallBackKeepsInv(s: State, call: Call)
    requires Inv(s) && call.era == 0 && (call.era == s.era ==> call.logouts == s.logouts)
    ensures Inv(FallenBack(s, call))
  {}

  lemma TryRenewKeepsInv(s: State, call: Call)
    requires Inv(s) && call.era == 0 && (call.era == s.era ==> call.logouts == s.logouts)
    ensures Inv(RenewTried(s, call))
  {}

  lemma AnswerKeepsInv(s: State, i: nat, tokens: Option<Tokens>)
    requires Inv(s) && i < |s.renewals|
    ensures Inv(AnswerRenewal(s, i, tokens))
  {
    WakeKeeps(s.calls, true);
    WakeKeeps(s.calls, false);
    WithoutKeeps(s.renewals, i);
  }

  lemma ResumeKeepsInv(s: State, i: nat)
    requires Inv(s) && Enabled(s, Event.Resume(i))
    ensures Inv(Next(s, Event.Resume(i)))
  {
    WithoutKeeps(s.calls, i);
    FallBackKeepsInv(s.(calls := Without(s.calls, i)), s.calls[i]);
  }

  lemma ApiCallKeepsInv(s: State)
    requires Inv(s)
    ensures Inv(Next(s, ApiCall))
  {}

  lemma LoginAndLogoutKeepInv(s: State, e: Event)
    requires Inv(s) && Enabled(s, e)
    requires e.LoginRedirects? || e.LoginFails? || e.UserLogin? || e.Logout?
    ensures Inv(Next(s, e))
  {}

  lemma StepKeepsInv(s: State, e: Event)
    requires Inv(s) && Enabled(s, e)
    ensures Inv(Next(s, e))
  {
    match e
    case TimerFires => TryRenewKeepsInv(s.(timer := false), Call(true, s.era, s.logouts, Fetching));
    case ApiAnswer(i, _) =>
      WithoutKeeps(s.calls, i);
      var s1 := s.(calls := Without(s.calls, i));
      TryRenewKeepsInv(s1, s.calls[i]);
      FallBackKeepsInv(s1, s.calls[i]);
    case RenewalAnswer(i, tokens) => AnswerKeepsInv(s, i, tokens);
    case Resume(i) => ResumeKeepsInv(s, i);
    case ApiCall => ApiCallKeepsInv(s);
    case _ => LoginAndLogoutKeepInv(s, e);
  }

  lemma {:induction false} RunKeepsInv(s: State, events: seq<Event>, t: State)
    requires Inv(s) && Run(s, events, t)
    ensures Inv(t) && s.era <= t.era
    decreases |events|
  {
    if events != [] {
      StepKeepsInv(s, events[0]);
      RunKeepsInv(Next(s, events[0]), events[1..], t);
    }
  }

  /**
   * Once a sign-out or a fallback has dropped the tokens, no token is ever held again for the rest of the page's life,
   * whatever was in flight.
   */
  lemma DroppedTokensStayDropped(tokens: Option<Tokens>, before: seq<Event>, dropped: State, after: seq<Event>, t: State)
    requires Run(Start(tokens), before, dropped) && dropped.era > 0 && Run(dropped, after, t)
    ensures t.tokens.None? && !t.timer
  {
    RunKeepsInv(Start(tokens), before, dropped);
    RunKeepsInv(dropped, after, t);
  }

  /** At most one refresh request and one login redirect are outstanding, in every interleaving. */
  lemma OneRefreshAtATime(tokens: Option<Tokens>, events: seq<Event>, t: State)
    requires Run(Start(tokens), events, t)
    ensures |t.renewals| <= 1 && t.logins <= 1
  {
    RunKeepsInv(Start(tokens), events, t);
  }

  /** No call falls back to the login redirect after a sign-out it began before; and at most one call ever falls back. */
  lemma NoFallbackAfterLogout(tokens: Option<Tokens>, events: seq<Event>, t: State)
    requires Run(Start(tokens), events, t)
    ensures forall f | f in t.fallbacks :: f.call.logouts == f.logouts
    ensures |t.fallbacks| <= 1
  {
    RunKeepsInv(Start(tokens), events, t);
  }

  lemma OneStepEarlier(s: State, e: Event, events: seq<Event>, t: State)
    requires Enabled(s, e) && Run(Next(s, e), events, t)
    ensures Run(s, [e] + events, t)
  {
    assert ([e] + events)[1..] == events;
  }

  // ----- redirects after a sign-out -----

  /** Neither a new API call nor a new press of "Try again": nobody asks for a login any more. */
  predicate NobodyAsks(events: seq<Event>) {
    forall e | e in events :: !e.ApiCall? && !e.UserLogin?
  }

  lemma SignedOutStep(s: State, e: Event)
    requires Inv(s) && s.era > 0 && !s.loginInflight && Enabled(s, e) && !e.ApiCall? && !e.UserLogin?
    ensures var t := Next(s, e); t.era > 0 && !t.loginInflight && t.redirects == s.redirects
  {
    if e.ApiAnswer? || e.Resume? {
      assert s.calls[e.i] in s.calls;
    }
  }

  lemma {:induction false} SignedOutStaysPut(s: State, events: seq<Event>, t: State)
    requires Inv(s) && s.era > 0 && !s.loginInflight && Run(s, events, t) && NobodyAsks(events)
    ensures t.redirects == s.redirects
    decreases |events|
  {
    if events != [] {
      assert events[0] in events;
      StepKeepsInv(s, events[0]);
      SignedOutStep(s, events[0]);
      SignedOutStaysPut(Next(s, events[0]), events[1..], t);
    }
  }

  /**
   * After a sign-out, and unless someone asks again, the page can still be sent to the provider's login if and only if
   * a login was already under way when the sign-out came.
   */
  lemma RedirectsAfterLogoutIff(tokens: Option<Tokens>, before: seq<Event>, s: State)
    requires Run(Start(tokens), before, s)
    ensures var u := Next(s, Logout);
            (exists events, t :: Run(u, events, t) && NobodyAsks(events) && t.redirects != u.redirects) <==> s.loginInflight
  {
    RunKeepsInv(Start(tokens), before, s);
    StepKeepsInv(s, Logout);
    var u := Next(s, Logout);
    if s.loginInflight {
      OneStepEarlier(u, LoginRedirects, [], Next(u, LoginRedirects));
      var events := [LoginRedirects] + [];
      assert Run(u, events, Next(u, LoginRedirects)) && NobodyAsks(events);
      assert |Next(u, LoginRedirects).redirects| == |u.redirects| + 1;
    } else {
      forall events, t | Run(u, events, t) && NobodyAsks(events) ensures t.redirects == u.redirects {
        SignedOutStaysPut(u, events, t);
      }
    }
  }

  /** It does happen: a call that found its token rejected falls back, and the sign-out lands while its login is under way. */
  lemma LoginOutlivesLogout()
    ensures exists tokens, before, s, events, t ::
              Run(Start(tokens), before, s) && |s.fallbacks| == 1 && Run(Next(s, Logout), events, t) && NobodyAsks(events) &&
              t.redirects != Next(s, Logout).redirects
  {
    var tokens := Some(Tokens(0, None));
    var s0 := Start(tokens);
    var s1 := Next(s0, ApiCall);
    var s2 := Next(s1, ApiAnswer(0, true));
    var s := Next(s2, Event.Resume(0));
    var run := [Event.Resume(0)];
    OneStepEarlier(s2, Event.Resume(0), [], s);
    OneStepEarlier(s1, ApiAnswer(0, true), run, s);
    run := [ApiAnswer(0, true)] + run;
    OneStepEarlier(s0, ApiCall, run, s);
    run := [ApiCall] + run;
    assert s.loginInflight && |s.fallbacks| == 1;
    RedirectsAfterLogoutIff(tokens, run, s);
  }
}
