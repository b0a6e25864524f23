/**
 The attestation state cache: a background loop fetches tokens, renews them before they expire and
 backs off after failures, while readers take snapshots at any time. Clocks are reals and every
 await is a step of the loop.
 */
module AttestationCache {
  import opened Numbers
  import opened Outcomes

  const TDX_HWMODEL := "GCP_INTEL_TDX"

  // ----- Fetching with the mandatory second token

  datatype Token = Token(issuedAt: Option<real>, expiresAt: Option<real>, hwmodel: Option<string>)

  datatype IntelToken = IntelToken(raw: string)

  /** A validated attestation: the primary token and, on TDX, the independent second one. */
  datatype Attestation = Attestation(primary: Token, intel: Option<IntelToken>)

  /** The typed attestation errors, and any other exception. */
  datatype Failure = AttestationError(message: string) | Crash(message: string)

  type Fetched = Result<Attestation, Failure>

  predicate IsTdx(t: Token) {
    t.hwmodel == Some(TDX_HWMODEL)
  }

  /** `primary` and `second` are what the two endpoints would answer; the second is asked only on TDX. */
  function FetchWithFallback(primary: Result<Token, Failure>, second: Result<IntelToken, Failure>): (r: Fetched)
    ensures r.Ok? ==> primary == Ok(r.value.primary) && (r.value.intel.Some? <==> IsTdx(r.value.primary))
    ensures r.Ok? && r.value.intel.Some? ==> second == Ok(r.value.intel.value)
    ensures r.Ok? ==> (r.value.intel.Some? <==> r.value.primary.hwmodel == Some("GCP_INTEL_TDX"))
    ensures r.Err? <==> primary.Err? || (IsTdx(primary.value) && second.Err?)
    ensures r.Err? ==> r.error == (if primary.Err? then primary.error else second.error)
  {
    match primary
    case Err(e) => Err(e)
    case Ok(token) =>
      if !IsTdx(token) then Ok(Attestation(token, None))
      else match second
        case Err(e) => Err(e)
        case Ok(intel) => Ok(Attestation(token, Some(intel)))
  }

  // ----- Scheduling

  const STATE_POLL_INTERVAL := 15.0
  const STATE_MAX_INTERVAL := 60.0

  function SecondsUntilExpiry(state: Option<Attestation>, now: real): Option<real> {
    if state.None? || state.value.primary.expiresAt.None? then None
    else Some(state.value.primary.expiresAt.value - now)
  }

  /** The token's lifetime where both dates are known and it is positive, the remaining time otherwise. */
  function MarginBase(t: Token, remaining: real): real
    requires t.expiresAt.Some?
  {
    if t.issuedAt.Some? && t.expiresAt.value - t.issuedAt.value > 0.0 then t.expiresAt.value - t.issuedAt.value
    else remaining
  }

  function SecondsUntilRefresh(state: Option<Attestation>, now: real): real {
    if state.None? then 0.0
    else match SecondsUntilExpiry(state, now)
      case None => STATE_MAX_INTERVAL
      case Some(remaining) =>
        if remaining <= 0.0 then 0.0
        else Max(0.0, remaining - 0.25 * MarginBase(state.value.primary, remaining))
  }

  datatype SnapshotError = NotEstablished | Expired

  function Snapshot(state: Option<Attestation>, now: real): Result<Attestation, SnapshotError> {
    if state.None? then Err(NotEstablished)
    else
      var remaining := SecondsUntilExpiry(state, now);
      if remaining.Some? && remaining.value <= 0.0 then Err(Expired) else Ok(state.value)
  }

  predicate Unexpired(t: Token, now: real) {
    t.expiresAt.Some? ==> now < t.expiresAt.value
  }

  /** The sleep after an iteration that ends at `now`. */
  function Wait(state: Option<Attestation>, failures: nat, now: real): real {
    Max(1.0, if state.None? || failures > 0 then STATE_POLL_INTERVAL
             else Min(SecondsUntilRefresh(state, now), STATE_MAX_INTERVAL))
  }

  // ----- The cache

  ghost function LatestSuccess(history: seq<Fetched>): Option<Attestation> {
    if history == [] then None
    else if history[|history| - 1].Ok? then Some(history[|history| - 1].value)
    else LatestSuccess(history[..|history| - 1])
  }

  ghost function TrailingFailures(history: seq<Fetched>): nat {
    if history == [] || history[|history| - 1].Ok? then 0 else 1 + TrailingFailures(history[..|history| - 1])
  }

  /** Everything the loop cannot control during one iteration. */
  datatype Tick = Tick(
    primary: Result<Token, Failure>, second: Result<IntelToken, Failure>, fetchTime: real, oversleep: real)
  {
    function Outcome(): Fetched {
      FetchWithFallback(primary, second)
    }

    ghost predicate Plausible() {
      fetchTime >= 0.0 && oversleep >= 0.0
    }
  }

  /** The loop between two iterations: what is held, how many refreshes failed in a row, the clock. */
  datatype LoopState = LoopState(state: Option<Attestation>, failures: nat, now: real)
  {
    predicate Due() {
      SecondsUntilRefresh(state, now) <= 0.0
    }

    /** When the refresh of this iteration ends, if there is one. */
    function Done(tick: Tick): real {
      if Due() then now + tick.fetchTime else now
    }

    /** State and failure count after the refresh of this iteration. */
    function Refreshed(tick: Tick): (Option<Attestation>, nat) {
      if !Due() then (state, failures)
      else match tick.Outcome()
        case Ok(a) => (Some(a), 0)
        case Err(_) => (state, failures + 1)
    }

    function Next(tick: Tick): LoopState {
      var (state', failures') := Refreshed(tick);
      LoopState(state', failures', Done(tick) + Wait(state', failures', Done(tick)) + tick.oversleep)
    }

    /** What a reader finds at time t during this iteration. */
    function Held(tick: Tick, t: real): Option<Attestation> {
      if Due() && t < Done(tick) then state else Refreshed(tick).0
    }
  }

  function Run(s: LoopState, ticks: seq<Tick>, n: nat): LoopState
    requires n <= |ticks|
  {
    if n == 0 then s else Run(s, ticks, n - 1).Next(ticks[n - 1])
  }

  class AttestationStateCache {
    var state: Option<Attestation>
    var lastError: Option<Failure>
    var consecutiveFailures: nat
    ghost var history: seq<Fetched>

    /**
     The held state is the latest success of the whole run, whatever failed since, and a second
     token is present exactly on TDX.
     */
    ghost predicate Valid()
      reads this
    {
      && state == LatestSuccess(history)
      && consecutiveFailures == TrailingFailures(history)
      && lastError == (if history == [] || history[|history| - 1].Ok? then None else Some(history[|history| - 1].error))
      && (state.Some? ==> (state.value.intel.Some? <==> IsTdx(state.value.primary)))
    }

    constructor ()
      ensures Valid() && history == [] && state == None && consecutiveFailures == 0
    {
      state, lastError, consecutiveFailures, history := None, None, 0, [];
    }

    /**
     One real fetch. Attestation errors are recorded here; any other exception leaves the cache
     untouched and is recorded by the loop.
     */
    method Refresh(tick: Tick) returns (r: Fetched)
      requires Valid()
      modifies this
      ensures r == tick.Outcome()
      ensures r.Ok? || r.error.AttestationError? ==> Valid() && history == old(history) + [r]
      ensures r.Err? && r.error.Crash? ==> unchanged(this)
      ensures r.Err? ==> state == old(state)
      ensures r.Ok? ==> state == Some(r.value)
    {
      r := FetchWithFallback(tick.primary, tick.second);
      if r.Err? {
        if r.error.AttestationError? {
          lastError := Some(r.error);
          consecutiveFailures := consecutiveFailures + 1;
          history := history + [r];
          assert history[..|history| - 1] == old(history);
        }
        return;
      }
      state := Some(r.value);
      lastError := None;
      consecutiveFailures := 0;
      history := history + [r];
    }

    /** Readers get the latest successful attestation while it is unexpired, and an error otherwise. */
    method TakeSnapshot(now: real) returns (r: Result<Attestation, SnapshotError>)
      requires Valid()
      ensures r.Ok? ==> && LatestSuccess(history) == Some(r.value) && Unexpired(r.value.primary, now)
                        && (r.value.intel.Some? <==> IsTdx(r.value.primary))
      ensures r == Err(NotEstablished) <==> LatestSuccess(history) == None
      ensures r == Err(Expired) <==> && LatestSuccess(history).Some?
                                     && !Unexpired(LatestSuccess(history).value.primary, now)
      ensures r == Snapshot(state, now)
    {
      if state.None? {
        return Err(NotEstablished);
      }
      var remaining := SecondsUntilExpiry(state, now);
      if remaining.Some? && remaining.value <= 0.0 {
        return Err(Expired);
      }
      return Ok(state.value);
    }

    /** The refresh of one iteration, if it is due, with the loop's handling of unexpected exceptions. */
    method RefreshIfDue(tick: Tick, now: real) returns (done: real)
      requires Valid()
      modifies this
      ensures Valid()
      ensures var before := LoopState(old(state), old(consecutiveFailures), now);
              done == before.Done(tick) && (state, consecutiveFailures) == before.Refreshed(tick)
    {
      done := now;
      if SecondsUntilRefresh(state, now) <= 0.0 {
        var r := Refresh(tick);
        done := now + tick.fetchTime;
        if r.Err? && r.error.Crash? {
          lastError := Some(r.error);
          consecutiveFailures := consecutiveFailures + 1;
          ghost var before := history;
          history := history + [r];
          assert history[..|history| - 1] == before;
        }
      }
    }

    /** The background loop until it is stopped after |ticks| iterations. */
    method RunRefreshLoop(start: real, ticks: seq<Tick>) returns (now: real)
      requires Valid()
      modifies this
      ensures Valid()
      ensures LoopState(state, consecutiveFailures, now)
           == Run(LoopState(old(state), old(consecutiveFailures), start), ticks, |ticks|)
    {
      now := start;
      for i := 0 to |ticks|
        invariant Valid()
        invariant LoopState(state, consecutiveFailures, now)
               == Run(LoopState(old(state), old(consecutiveFailures), start), ticks, i)
      {
        now := RefreshIfDue(ticks[i], now);
        var wait := if state.None? || consecutiveFailures > 0 then STATE_POLL_INTERVAL
                    else Min(SecondsUntilRefresh(state, now), STATE_MAX_INTERVAL);
        wait := Max(1.0, wait);
        now := now + wait + ticks[i].oversleep;
      }
    }
  }

  // ----- Timely renewal

  /** Bounds on the environment: fetch duration, scheduling delay, consecutive failures. */
  datatype Bounds = Bounds(fetch: real, delay: real, failures: nat, lifetime: real)
  {
    /** What one failed attempt costs: the fetch, the poll interval and the delay of the timer. */
    ghost function Retry(): real {
      fetch + 15.0 + delay
    }

    /** What n failed attempts cost. */
    ghost function Retries(n: nat): real {
      if n == 0 then 0.0 else Retries(n - 1) + Retry()
    }

    /** A quarter of the lifetime outlasts the timer floor, the failed attempts and one good one. */
    ghost predicate Ample() {
      && fetch >= 0.0 && delay >= 0.0
      && lifetime / 4.0 > 1.0 + 15.0 * failures as real + (failures + 1) as real * (fetch + delay)
    }
  }

  ghost predicate Dated(t: Token, lifetime: real) {
    t.issuedAt.Some? && t.expiresAt.Some? && t.expiresAt.value - t.issuedAt.value >= lifetime
  }

  /** The moment from which a renewal of t is due. */
  ghost function RenewalTime(t: Token): real
    requires t.issuedAt.Some? && t.expiresAt.Some?
  {
    t.expiresAt.value - 0.25 * (t.expiresAt.value - t.issuedAt.value)
  }

  /** Assumptions on one iteration that starts in s. */
  ghost predicate Behaves(b: Bounds, s: LoopState, tick: Tick) {
    && tick.Plausible() && tick.fetchTime <= b.fetch && tick.oversleep <= b.delay
    && (s.Due() && tick.Outcome().Ok? ==>
          Dated(tick.Outcome().value.primary, b.lifetime)
          && s.Done(tick) <= RenewalTime(tick.Outcome().value.primary))
    && (s.state.Some? ==> s.Next(tick).failures <= b.failures)
  }

  ghost predicate BehavesAt(b: Bounds, s: LoopState, ticks: seq<Tick>, i: nat)
    requires i < |ticks|
  {
    Behaves(b, Run(s, ticks, i), ticks[i])
  }

  ghost predicate BehavingRun(b: Bounds, s: LoopState, ticks: seq<Tick>) {
    forall i :: 0 <= i < |ticks| ==> BehavesAt(b, s, ticks, i)
  }

  /** Once a state is held, the clock is never further past the renewal time than the retries explain. */
  ghost predicate OnSchedule(b: Bounds, s: LoopState) {
    s.state.Some? ==>
      && Dated(s.state.value.primary, b.lifetime)
      && s.failures <= b.failures
      && s.now <= RenewalTime(s.state.value.primary) + 1.0 + b.delay + b.Retries(s.failures)
      && (s.failures > 0 ==> s.Due())
  }

  lemma {:induction false} RetriesGrow(b: Bounds, m: nat, n: nat)
    requires b.Retry() >= 0.0 && m <= n
    ensures 0.0 <= b.Retries(m) <= b.Retries(n)
  {
    if m < n {
      RetriesGrow(b, m, n - 1);
    } else if m > 0 {
      RetriesGrow(b, m - 1, n - 1);
    }
  }

  lemma OneMoreTimes(n: real, m: real, c: real)
    requires n == m + 1.0
    ensures n * c == m * c + c
  {
  }

  lemma {:induction false} RetriesClosed(b: Bounds, n: nat, c: real)
    requires c == b.fetch + b.delay
    ensures b.Retries(n) == 15.0 * n as real + n as real * c
  {
    if n == 0 {
      assert 0 as real * c == 0.0;
    } else {
      RetriesClosed(b, n - 1, c);
      OneMoreTimes(n as real, (n - 1) as real, c);
      assert b.Retries(n) == b.Retries(n - 1) + (c + 15.0);
    }
  }

  /** The assumption on the quarter lifetime, with the products multiplied out. */
  lemma AmpleSum(k: real, k': real, c: real, quarter: real)
    requires k' == k + 1.0 && quarter > 1.0 + 15.0 * k + k' * c
    ensures quarter > 1.0 + (15.0 * k + k * c) + c
  {
    OneMoreTimes(k', k, c);
  }

  lemma AllRetriesFit(b: Bounds)
    requires b.Ample()
    ensures 1.0 + b.delay + b.Retries(b.failures) + b.fetch < b.lifetime / 4.0
  {
    var n, n', c := b.failures as real, (b.failures + 1) as real, b.fetch + b.delay;
    assert b.Retries(b.failures) == 15.0 * n + n * c by {
      RetriesClosed(b, b.failures, c);
    }
    assert b.lifetime / 4.0 > 1.0 + (15.0 * n + n * c) + c by {
      assert n' == n + 1.0 && b.lifetime / 4.0 > 1.0 + 15.0 * n + n' * c;
      AmpleSum(n, n', c, b.lifetime / 4.0);
    }
  }

  lemma RetriesAddUp(b: Bounds, f: nat)
    requires b.Ample() && f <= b.failures
    ensures 0.0 <= b.Retries(f)
    ensures 1.0 + b.delay + b.Retries(f) + b.fetch < b.lifetime / 4.0
  {
    RetriesGrow(b, f, b.failures);
    AllRetriesFit(b);
  }

  lemma DueFromRenewalTime(a: Attestation, lifetime: real, now: real)
    requires Dated(a.primary, lifetime) && lifetime > 0.0
    ensures SecondsUntilRefresh(Some(a), now) <= 0.0 <==> RenewalTime(a.primary) <= now
    ensures now <= RenewalTime(a.primary) ==> SecondsUntilRefresh(Some(a), now) == RenewalTime(a.primary) - now
  {
  }

  /** After a success the loop is on schedule for the new token. */
  lemma ScheduleAfterSuccess(b: Bounds, s: LoopState, tick: Tick)
    requires b.Ample() && Behaves(b, s, tick) && s.Due() && tick.Outcome().Ok?
    ensures OnSchedule(b, s.Next(tick))
  {
    RetriesAddUp(b, 0);
    DueFromRenewalTime(tick.Outcome().value, b.lifetime, s.Done(tick));
  }

  lemma ScheduleAfterFailure(b: Bounds, s: LoopState, tick: Tick)
    requires b.Ample() && OnSchedule(b, s) && Behaves(b, s, tick)
    requires s.state.Some? && s.Due() && tick.Outcome().Err?
    ensures OnSchedule(b, s.Next(tick))
  {
    RetriesAddUp(b, s.failures);
    DueFromRenewalTime(s.state.value, b.lifetime, s.now);
    DueFromRenewalTime(s.state.value, b.lifetime, s.Next(tick).now);
  }

  lemma ScheduleWhileIdle(b: Bounds, s: LoopState, tick: Tick)
    requires b.Ample() && OnSchedule(b, s) && Behaves(b, s, tick)
    requires s.state.Some? && !s.Due()
    ensures OnSchedule(b, s.Next(tick))
  {
    RetriesAddUp(b, 0);
    DueFromRenewalTime(s.state.value, b.lifetime, s.now);
  }

  lemma StaysOnSchedule(b: Bounds, s: LoopState, tick: Tick)
    requires b.Ample() && OnSchedule(b, s) && Behaves(b, s, tick)
    ensures OnSchedule(b, s.Next(tick))
  {
    if s.Due() && tick.Outcome().Ok? {
      ScheduleAfterSuccess(b, s, tick);
    } else if s.state.Some? {
      if s.Due() {
        ScheduleAfterFailure(b, s, tick);
      } else {
        ScheduleWhileIdle(b, s, tick);
      }
    }
  }

  /** A loop on schedule has not reached the expiry of what it holds, not even one fetch later. */
  lemma OnScheduleIsUnexpired(b: Bounds, s: LoopState)
    requires b.Ample() && OnSchedule(b, s) && s.state.Some?
    ensures s.now + b.fetch < s.state.value.primary.expiresAt.value
  {
    RetriesAddUp(b, s.failures);
  }

  lemma {:induction false} RunStaysOnSchedule(b: Bounds, s: LoopState, ticks: seq<Tick>, n: nat)
    requires b.Ample() && OnSchedule(b, s) && BehavingRun(b, s, ticks) && n <= |ticks|
    ensures OnSchedule(b, Run(s, ticks, n))
  {
    if n > 0 {
      RunStaysOnSchedule(b, s, ticks, n - 1);
      assert BehavesAt(b, s, ticks, n - 1);
      StaysOnSchedule(b, Run(s, ticks, n - 1), ticks[n - 1]);
    }
  }

  /**
   Timely renewal: with dated tokens that arrive before their renewal time and a quarter lifetime
   that outlasts the assumed failures, a reader who finds any state at all, at any instant of any
   run, finds an unexpired one.
   */
  lemma TimelyRenewal(b: Bounds, s: LoopState, ticks: seq<Tick>, i: nat, t: real)
    requires b.Ample() && s.state.None? && BehavingRun(b, s, ticks) && i < |ticks|
    requires Run(s, ticks, i).now <= t <= Run(s, ticks, i).Next(ticks[i]).now
    requires Run(s, ticks, i).Held(ticks[i], t).Some?
    ensures Snapshot(Run(s, ticks, i).Held(ticks[i], t), t).Ok?
  {
    var before, after := Run(s, ticks, i), Run(s, ticks, i).Next(ticks[i]);
    RunStaysOnSchedule(b, s, ticks, i);
    assert BehavesAt(b, s, ticks, i);
    StaysOnSchedule(b, before, ticks[i]);
    if before.Due() && t < before.Done(ticks[i]) {
      OnScheduleIsUnexpired(b, before);
    } else {
      OnScheduleIsUnexpired(b, after);
    }
  }

  // ----- Backoff

  /** Refresh attempts among the first n iterations. */
  ghost function Refreshes(s: LoopState, ticks: seq<Tick>, n: nat): nat
    requires n <= |ticks|
  {
    if n == 0 then 0 else Refreshes(s, ticks, n - 1) + (if Run(s, ticks, n - 1).Due() then 1 else 0)
  }

  ghost predicate NothingFetched(ticks: seq<Tick>) {
    forall i :: 0 <= i < |ticks| ==> ticks[i].Plausible() && ticks[i].Outcome().Err?
  }

  lemma FailedIteration(s: LoopState, tick: Tick)
    requires tick.Plausible() && tick.Outcome().Err?
    ensures var r := s.Next(tick);
            && r.state == s.state && r.failures == s.failures + (if s.Due() then 1 else 0)
            && r.now >= s.now + (if s.Due() then 15.0 else 1.0)
  {
  }

  /**
   While nothing but failures is fetched, every attempt is followed by at least the poll interval,
   whether or not a state is held; the state stays and the counter counts the attempts.
   */
  lemma {:induction false} DownEndpointIsNotHammered(s: LoopState, ticks: seq<Tick>, i: nat, j: nat)
    requires i <= j <= |ticks| && NothingFetched(ticks)
    ensures Run(s, ticks, j).now
         >= Run(s, ticks, i).now + 15.0 * (Refreshes(s, ticks, j) - Refreshes(s, ticks, i)) as real
    ensures Run(s, ticks, j).state == Run(s, ticks, i).state
    ensures Run(s, ticks, j).failures == Run(s, ticks, i).failures + Refreshes(s, ticks, j) - Refreshes(s, ticks, i)
  {
    if i < j {
      DownEndpointIsNotHammered(s, ticks, i, j - 1);
      FailedIteration(Run(s, ticks, j - 1), ticks[j - 1]);
    }
  }

  lemma {:induction false} RefreshesGrow(s: LoopState, ticks: seq<Tick>, i: nat, j: nat)
    requires i <= j <= |ticks|
    ensures Refreshes(s, ticks, i) <= Refreshes(s, ticks, j)
  {
    if i < j {
      RefreshesGrow(s, ticks, i, j - 1);
    }
  }

  /** In particular two attempts are at least the poll interval apart. */
  lemma AttemptsAreSpaced(s: LoopState, ticks: seq<Tick>, i: nat, j: nat)
    requires i < j <= |ticks| && NothingFetched(ticks) && Run(s, ticks, i).Due()
    ensures Run(s, ticks, j).now >= Run(s, ticks, i).now + 15.0
  {
    DownEndpointIsNotHammered(s, ticks, i, j);
    RefreshesGrow(s, ticks, i + 1, j);
  }

  /** Without any state every iteration is an attempt. */
  lemma {:induction false} EmptyCacheKeepsTrying(s: LoopState, ticks: seq<Tick>, n: nat)
    requires s.state.None? && n <= |ticks| && NothingFetched(ticks)
    ensures Run(s, ticks, n).state.None? && Run(s, ticks, n).Due() && Refreshes(s, ticks, n) == n
  {
    if n > 0 {
      EmptyCacheKeepsTrying(s, ticks, n - 1);
      FailedIteration(Run(s, ticks, n - 1), ticks[n - 1]);
    }
  }

  /** The time when the iteration has fetched, if something was due, and goes to sleep. */
  ghost function FetchEnd(s: LoopState, tick: Tick): real {
    s.now + if SecondsUntilRefresh(s.state, s.now) <= 0.0 then tick.fetchTime else 0.0
  }

  /** The loop sleeps between one second and the schedule ceiling, and exactly the poll interval after a failure. */
  lemma SleepIsBounded(s: LoopState, tick: Tick)
    ensures var (state', failures') := s.Refreshed(tick);
            var slept := s.Next(tick).now - FetchEnd(s, tick) - tick.oversleep;
            && 1.0 <= slept <= STATE_MAX_INTERVAL
            && (state'.None? || failures' > 0 ==> slept == STATE_POLL_INTERVAL)
  {
  }

  ghost function Clamped(x: real): real {
    if x < 1.0 then 1.0 else if x > 60.0 then 60.0 else x
  }

  /**
   Without a failure on record the loop sleeps until the renewal time of what it holds, clamped to
   between 1 and 60 seconds; without a usable issue date until three quarters of the rest have passed,
   and without an expiry date for the whole ceiling.
   */
  lemma SleepsUntilRenewal(s: LoopState, tick: Tick)
    requires s.Refreshed(tick).0.Some? && s.Refreshed(tick).1 == 0
    ensures var t := s.Refreshed(tick).0.value.primary;
            var slept := s.Next(tick).now - FetchEnd(s, tick) - tick.oversleep;
            slept == Clamped(
              if t.expiresAt.None? then 60.0
              else if t.issuedAt.Some? && t.issuedAt.value < t.expiresAt.value then
                t.expiresAt.value - (t.expiresAt.value - t.issuedAt.value) / 4.0 - FetchEnd(s, tick)
              else 0.75 * (t.expiresAt.value - FetchEnd(s, tick)))
  {
  }

  // ----- Tokens for which the margin does not work

  /**
   A renewal can start before expiry exactly when the token carries an issue date before its expiry
   date: otherwise the margin is a share of the remaining time, which only runs out at expiry.
   */
  lemma EarlyRenewalNeedsIssueDate(a: Attestation)
    requires a.primary.expiresAt.Some?
    ensures (exists now :: now < a.primary.expiresAt.value && SecondsUntilRefresh(Some(a), now) <= 0.0)
       <==> a.primary.issuedAt.Some? && a.primary.issuedAt.value < a.primary.expiresAt.value
  {
    if a.primary.issuedAt.Some? && a.primary.issuedAt.value < a.primary.expiresAt.value {
      assert SecondsUntilRefresh(Some(a), RenewalTime(a.primary)) <= 0.0;
    }
  }

  /** Without an issue date nothing is due before expiry, so every renewal is an outage until it ends. */
  lemma OutageWithoutIssueDate(s: LoopState, ticks: seq<Tick>, i: nat, t: real)
    requires i < |ticks|
    requires var r := Run(s, ticks, i);
             && r.state.Some? && r.state.value.primary.issuedAt.None? && r.state.value.primary.expiresAt.Some?
             && r.Due() && r.now <= t < r.Done(ticks[i])
    ensures Snapshot(Run(s, ticks, i).Held(ticks[i], t), t) == Err(Expired)
  {
  }

  /** A token with an expiry date e and no issue date. */
  ghost predicate Undated(a: Attestation, e: real) {
    a.primary.issuedAt.None? && a.primary.expiresAt == Some(e)
  }

  /** How far past expiry the loop can wake up: the timer floor, or the poll interval after a failure. */
  ghost function Lateness(s: LoopState, delay: real): real {
    (if s.failures > 0 then STATE_POLL_INTERVAL else 1.0) + delay
  }

  /** An iteration before expiry only sleeps, at least a second, and not far past expiry. */
  lemma SleepsTowardsExpiry(s: LoopState, tick: Tick, e: real, delay: real)
    requires s.state.Some? && Undated(s.state.value, e) && s.now < e
    requires tick.Plausible() && tick.oversleep <= delay
    ensures !s.Due()
    ensures var r := s.Next(tick);
            r.state == s.state && r.failures == s.failures && s.now + 1.0 <= r.now <= e + Lateness(s, delay)
  {
  }

  ghost predicate PromptTicks(ticks: seq<Tick>, delay: real) {
    forall i :: 0 <= i < |ticks| ==> ticks[i].Plausible() && ticks[i].oversleep <= delay
  }

  /** The first n iterations did nothing but sleep, and it is still before e. */
  ghost predicate StillWaiting(s: LoopState, ticks: seq<Tick>, n: nat, e: real) {
    && n <= |ticks|
    && Run(s, ticks, n).state == s.state && Run(s, ticks, n).failures == s.failures
    && s.now + n as real <= Run(s, ticks, n).now < e
  }

  lemma {:induction false} WaitForExpiry(s: LoopState, ticks: seq<Tick>, n: nat, e: real, delay: real) returns (i: nat)
    requires s.state.Some? && Undated(s.state.value, e) && PromptTicks(ticks, delay)
    requires StillWaiting(s, ticks, n, e) && s.now + |ticks| as real >= e
    ensures n < i <= |ticks|
    ensures Run(s, ticks, i).state == s.state && Run(s, ticks, i).Due()
    ensures e <= Run(s, ticks, i).now <= e + Lateness(s, delay)
    decreases |ticks| - n
  {
    SleepsTowardsExpiry(Run(s, ticks, n), ticks[n], e, delay);
    if Run(s, ticks, n + 1).now < e {
      i := WaitForExpiry(s, ticks, n + 1, e, delay);
    } else {
      i := n + 1;
    }
  }

  /**
   Every run that holds a token without issue date comes to a renewal that starts no earlier than
   expiry and at most the lateness after it; from expiry on what it holds is not served.
   */
  lemma UndatedRenewalIsLate(s: LoopState, ticks: seq<Tick>, e: real, delay: real) returns (i: nat)
    requires s.state.Some? && Undated(s.state.value, e) && PromptTicks(ticks, delay)
    requires s.now < e <= s.now + |ticks| as real
    ensures i <= |ticks| && Run(s, ticks, i).state == s.state && Run(s, ticks, i).Due()
    ensures e <= Run(s, ticks, i).now <= e + Lateness(s, delay)
    ensures forall t :: e <= t ==> Snapshot(s.state, t) == Err(Expired)
  {
    i := WaitForExpiry(s, ticks, 0, e, delay);
  }

  /** A token without an expiry date would be held for good: it is never renewed and never expires. */
  lemma {:induction false} UndatedIsNeverRenewed(s: LoopState, ticks: seq<Tick>, n: nat, t: real)
    requires s.state.Some? && s.state.value.primary.expiresAt.None? && n <= |ticks|
    ensures Run(s, ticks, n).state == s.state && !Run(s, ticks, n).Due()
    ensures Snapshot(Run(s, ticks, n).state, t) == Ok(s.state.value)
  {
    if n > 0 {
      UndatedIsNeverRenewed(s, ticks, n - 1, t);
    }
  }

  /** What is held after an iteration was held before it or fetched in it. */
  lemma HeldOrFetched(s: LoopState, tick: Tick)
    requires s.Next(tick).state.Some?
    ensures s.Next(tick).state == s.state || (s.Due() && tick.Outcome() == Ok(s.Next(tick).state.value))
  {
  }

  ghost predicate FetchedAt(s: LoopState, ticks: seq<Tick>, i: nat, a: Attestation) {
    i < |ticks| && Run(s, ticks, i).Due() && ticks[i].Outcome() == Ok(a)
  }

  lemma {:induction false} HeldWasFetched(s: LoopState, ticks: seq<Tick>, n: nat, a: Attestation)
    requires n <= |ticks| && Run(s, ticks, n).state == Some(a)
    ensures s.state == Some(a) || exists i :: 0 <= i < n && FetchedAt(s, ticks, i, a)
  {
    if n > 0 {
      HeldOrFetched(Run(s, ticks, n - 1), ticks[n - 1]);
      if Run(s, ticks, n - 1).state == Some(a) {
        HeldWasFetched(s, ticks, n - 1, a);
      } else {
        assert FetchedAt(s, ticks, n - 1, a);
      }
    }
  }

  /** Whatever a snapshot of any run serves is unexpired and was fetched in that run or held before it. */
  lemma ServedWasFetched(s: LoopState, ticks: seq<Tick>, n: nat, t: real)
    requires n <= |ticks| && Snapshot(Run(s, ticks, n).state, t).Ok?
    ensures var a := Snapshot(Run(s, ticks, n).state, t).value;
            && Unexpired(a.primary, t)
            && (s.state == Some(a) || exists i :: 0 <= i < n && FetchedAt(s, ticks, i, a))
  {
    HeldWasFetched(s, ticks, n, Run(s, ticks, n).state.value);
  }
}
