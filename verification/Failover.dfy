/**
 RPC failover over a priority pool of endpoints, each guarded by a circuit breaker: three
 consecutive transport failures quarantine an endpoint for 30 seconds.
 */
module Failover {
  import opened Outcomes

  const TRIP_THRESHOLD: nat := 3
  const COOLDOWN: real := 30.0

  /** How an awaited call on an endpoint ends: a result, a transport failure, or any other exception. */
  datatype Outcome = Served(value: int) | Trigger(failure: string) | Raised(error: string)

  /** One endpoint during one call: when its breaker is read, how the call on it would end, and when. */
  datatype Attempt = Attempt(checkAt: real, outcome: Outcome, endAt: real)

  datatype Breaker = Breaker(failures: nat, cooldownUntil: real)
  {
    predicate Tripped(now: real) {
      now < cooldownUntil
    }

    function Fail(at: real): Breaker {
      Breaker(failures + 1, if failures + 1 >= TRIP_THRESHOLD then at + COOLDOWN else cooldownUntil)
    }

    function Settle(outcome: Outcome, at: real): Breaker {
      match outcome
      case Served(_) => this.(failures := 0)
      case Trigger(_) => Fail(at)
      case Raised(_) => this
    }
  }

  const FRESH := Breaker(0, 0.0)

  datatype RpcError = Unavailable | Other(error: string)

  /** Pool, result, and index of the endpoint that served, if any. */
  datatype Scanned = Scanned(pool: seq<Breaker>, result: Result<int, RpcError>, served: Option<nat>)

  /** The loop over the endpoints from index i on. */
  function Scan(pool: seq<Breaker>, call: seq<Attempt>, i: nat): Scanned
    requires |call| == |pool| && i <= |pool|
    decreases |pool| - i
  {
    if i == |pool| then Scanned(pool, Err(Unavailable), None)
    else if pool[i].Tripped(call[i].checkAt) then Scan(pool, call, i + 1)
    else
      var pool' := pool[i := pool[i].Settle(call[i].outcome, call[i].endAt)];
      match call[i].outcome
      case Served(v) => Scanned(pool', Ok(v), Some(i))
      case Raised(e) => Scanned(pool', Err(Other(e)), None)
      case Trigger(_) => Scan(pool', call, i + 1)
  }

  class Endpoint {
    var consecutiveFailures: nat
    var cooldownUntil: real

    constructor ()
      ensures consecutiveFailures == 0 && cooldownUntil == 0.0
    {
      consecutiveFailures, cooldownUntil := 0, 0.0;
    }

    /** A transport failure at time `at`. */
    method Mark(at: real)
      modifies this
      ensures Breaker(consecutiveFailures, cooldownUntil)
           == Breaker(old(consecutiveFailures), old(cooldownUntil)).Fail(at)
    {
      consecutiveFailures := consecutiveFailures + 1;
      if consecutiveFailures >= TRIP_THRESHOLD {
        cooldownUntil := at + COOLDOWN;
      }
    }
  }

  class Client {
    const endpoints: seq<Endpoint>
    var activeIndex: nat

    ghost predicate Valid() {
      forall i, j :: 0 <= i < j < |endpoints| ==> endpoints[i] != endpoints[j]
    }

    ghost function Pool(): (p: seq<Breaker>)
      reads endpoints
      ensures |p| == |endpoints|
      ensures forall i :: 0 <= i < |p| ==> p[i] == Breaker(endpoints[i].consecutiveFailures, endpoints[i].cooldownUntil)
    {
      seq(|endpoints|, i requires 0 <= i < |endpoints| reads endpoints =>
        Breaker(endpoints[i].consecutiveFailures, endpoints[i].cooldownUntil))
    }

    constructor (endpoints: seq<Endpoint>)
      requires forall i, j :: 0 <= i < j < |endpoints| ==> endpoints[i] != endpoints[j]
      ensures Valid() && this.endpoints == endpoints && activeIndex == 0
    {
      this.endpoints := endpoints;
      activeIndex := 0;
    }

    method Rpc(call: seq<Attempt>) returns (r: Result<int, RpcError>)
      requires Valid() && |call| == |endpoints|
      modifies this, endpoints
      ensures var s := Scan(old(Pool()), call, 0);
              && r == s.result && Pool() == s.pool
              && activeIndex == (if s.served.Some? then s.served.value else old(activeIndex))
    {
      for i := 0 to |endpoints|
        invariant activeIndex == old(activeIndex)
        invariant Scan(old(Pool()), call, 0) == Scan(Pool(), call, i)
      {
        var ep := endpoints[i];
        ghost var before := Pool();
        if call[i].checkAt < ep.cooldownUntil {
          continue;
        }
        match call[i].outcome {
          case Served(v) =>
            ep.consecutiveFailures := 0;
            activeIndex := i;
            assert Pool() == before[i := before[i].Settle(call[i].outcome, call[i].endAt)];
            return Ok(v);
          case Raised(e) =>
            assert before == before[i := before[i]];
            return Err(Other(e));
          case Trigger(_) =>
            ep.Mark(call[i].endAt);
            assert Pool() == before[i := before[i].Settle(call[i].outcome, call[i].endAt)];
        }
      }
      return Err(Unavailable);
    }
  }

  // ----- What one call does, without the loop

  /** Endpoint i would be asked and its answer would end the call. */
  predicate Decides(pool: seq<Breaker>, call: seq<Attempt>, i: nat)
    requires |call| == |pool| && i < |pool|
  {
    !pool[i].Tripped(call[i].checkAt) && !call[i].outcome.Trigger?
  }

  /** Endpoint i is asked: it is not quarantined and no endpoint before it ends the call. */
  ghost predicate Tried(pool: seq<Breaker>, call: seq<Attempt>, i: nat)
    requires |call| == |pool| && i < |pool|
  {
    !pool[i].Tripped(call[i].checkAt) && forall j :: 0 <= j < i ==> !Decides(pool, call, j)
  }

  /** Endpoint j is asked by a scan that starts at i. */
  ghost predicate TriedFrom(pool: seq<Breaker>, call: seq<Attempt>, i: nat, j: nat)
    requires |call| == |pool| && j < |pool|
  {
    !pool[j].Tripped(call[j].checkAt) && forall k :: i <= k < j ==> !Decides(pool, call, k)
  }

  lemma {:induction false} ScanPool(pool: seq<Breaker>, call: seq<Attempt>, i: nat)
    requires |call| == |pool| && i <= |pool|
    ensures var p := Scan(pool, call, i).pool;
            && |p| == |pool|
            && (forall j :: 0 <= j < i ==> p[j] == pool[j])
            && (forall j :: i <= j < |pool| ==>
                  p[j] == if TriedFrom(pool, call, i, j) then pool[j].Settle(call[j].outcome, call[j].endAt)
                          else pool[j])
    decreases |pool| - i
  {
    if i < |pool| {
      if pool[i].Tripped(call[i].checkAt) {
        ScanPool(pool, call, i + 1);
        TriedLater(pool, pool, call, i);
      } else if call[i].outcome.Trigger? {
        var pool' := pool[i := pool[i].Settle(call[i].outcome, call[i].endAt)];
        ScanPool(pool', call, i + 1);
        TriedLater(pool, pool', call, i);
      } else {
        assert Decides(pool, call, i);
      }
    }
  }

  /** Passing over an endpoint that does not end the call leaves the later ones as they were. */
  lemma TriedLater(pool: seq<Breaker>, pool': seq<Breaker>, call: seq<Attempt>, i: nat)
    requires |call| == |pool| == |pool'| && i < |pool| && !Decides(pool, call, i)
    requires forall j :: i < j < |pool| ==> pool'[j] == pool[j]
    ensures forall j :: i < j < |pool| ==> (Decides(pool', call, j) <==> Decides(pool, call, j))
    ensures forall j :: i < j < |pool| ==> (TriedFrom(pool', call, i + 1, j) <==> TriedFrom(pool, call, i, j))
  {
    forall j | i < j < |pool| ensures TriedFrom(pool', call, i + 1, j) <==> TriedFrom(pool, call, i, j) {
      assert forall k :: i < k < j ==> (Decides(pool', call, k) <==> Decides(pool, call, k));
    }
  }

  /** The scan ended with endpoint j. */
  ghost predicate EndsWith(s: Scanned, outcome: Outcome, j: nat) {
    match outcome
    case Served(v) => s.result == Ok(v) && s.served == Some(j)
    case Raised(e) => s.result == Err(Other(e)) && s.served == None
    case Trigger(_) => false
  }

  /** What a scan from i returns, said without the loop. */
  ghost predicate ResultFrom(pool: seq<Breaker>, call: seq<Attempt>, i: nat, s: Scanned)
    requires |call| == |pool|
  {
    && ((forall j :: i <= j < |pool| ==> !Decides(pool, call, j)) ==> s.result == Err(Unavailable) && s.served == None)
    && (forall j :: i <= j < |pool| && TriedFrom(pool, call, i, j) && Decides(pool, call, j) ==>
          EndsWith(s, call[j].outcome, j))
  }

  lemma ResultCarries(pool: seq<Breaker>, pool': seq<Breaker>, call: seq<Attempt>, i: nat, s: Scanned)
    requires |call| == |pool| == |pool'| && i < |pool| && !Decides(pool, call, i)
    requires forall j :: i < j < |pool| ==> pool'[j] == pool[j]
    requires ResultFrom(pool', call, i + 1, s)
    ensures ResultFrom(pool, call, i, s)
  {
    TriedLater(pool, pool', call, i);
  }

  lemma {:induction false} ScanResult(pool: seq<Breaker>, call: seq<Attempt>, i: nat)
    requires |call| == |pool| && i <= |pool|
    ensures ResultFrom(pool, call, i, Scan(pool, call, i))
    decreases |pool| - i
  {
    if i < |pool| {
      if pool[i].Tripped(call[i].checkAt) {
        ScanResult(pool, call, i + 1);
        ResultCarries(pool, pool, call, i, Scan(pool, call, i + 1));
      } else if call[i].outcome.Trigger? {
        var pool' := pool[i := pool[i].Settle(call[i].outcome, call[i].endAt)];
        ScanResult(pool', call, i + 1);
        ResultCarries(pool, pool', call, i, Scan(pool', call, i + 1));
      } else {
        assert Decides(pool, call, i);
      }
    }
  }

  /**
   Failover: the answer is that of the first endpoint in priority order that is not quarantined and
   does not fail on transport; other exceptions propagate from it, and without such an endpoint the
   call is unavailable. Breakers change for the endpoints that were tried and for no others.
   */
  lemma FailoverRefinement(pool: seq<Breaker>, call: seq<Attempt>)
    requires |call| == |pool|
    ensures var s := Scan(pool, call, 0);
            && |s.pool| == |pool|
            && (forall j :: 0 <= j < |pool| ==>
                  s.pool[j] == if Tried(pool, call, j) then pool[j].Settle(call[j].outcome, call[j].endAt) else pool[j])
            && (s.result == Err(Unavailable) <==> forall j :: 0 <= j < |pool| ==> !Decides(pool, call, j))
            && (forall j :: 0 <= j < |pool| && Tried(pool, call, j) && Decides(pool, call, j) ==>
                  EndsWith(s, call[j].outcome, j))
  {
    ScanPool(pool, call, 0);
    ScanResult(pool, call, 0);
    forall j | 0 <= j < |pool| ensures Tried(pool, call, j) <==> TriedFrom(pool, call, 0, j) {
    }
    if exists j :: 0 <= j < |pool| && Decides(pool, call, j) {
      var first := FirstDeciding(pool, call, 0);
      assert TriedFrom(pool, call, 0, first);
      assert EndsWith(Scan(pool, call, 0), call[first].outcome, first);
    }
  }

  lemma {:induction false} FirstDeciding(pool: seq<Breaker>, call: seq<Attempt>, i: nat) returns (first: nat)
    requires |call| == |pool| && i <= |pool|
    requires forall k :: 0 <= k < i ==> !Decides(pool, call, k)
    requires exists j :: i <= j < |pool| && Decides(pool, call, j)
    ensures first < |pool| && Decides(pool, call, first) && forall k :: 0 <= k < first ==> !Decides(pool, call, k)
    decreases |pool| - i
  {
    if Decides(pool, call, i) {
      first := i;
    } else {
      first := FirstDeciding(pool, call, i + 1);
    }
  }

  // ----- Sequential runs

  /** Within one call the clock is read in order, not before `start`. */
  ghost predicate InOrder(call: seq<Attempt>, start: real) {
    && (forall i :: 0 <= i < |call| ==> start <= call[i].checkAt <= call[i].endAt)
    && (forall i, j :: 0 <= i < j < |call| ==> call[i].endAt <= call[j].checkAt)
  }

  /** A run of calls on n endpoints, one after the other; call k happens between ends[k] and ends[k+1]. */
  datatype History = History(calls: seq<seq<Attempt>>, ends: seq<real>)
  {
    ghost predicate Sequential(n: nat) {
      && |ends| == |calls| + 1 && ends[0] >= 0.0
      && forall k :: 0 <= k < |calls| ==>
           && |calls[k]| == n && InOrder(calls[k], ends[k]) && ends[k] <= ends[k + 1]
           && forall i :: 0 <= i < n ==> calls[k][i].endAt <= ends[k + 1]
    }

    /** The pool after the first k calls, from n fresh endpoints. */
    ghost function PoolAfter(n: nat, k: nat): (p: seq<Breaker>)
      requires Sequential(n) && k <= |calls|
      ensures |p| == n
    {
      if k == 0 then seq(n, i => FRESH)
      else
        ScanPool(PoolAfter(n, k - 1), calls[k - 1], 0);
        Scan(PoolAfter(n, k - 1), calls[k - 1], 0).pool
    }

    /** The k-th call asks endpoint e. */
    ghost predicate Asks(n: nat, e: nat, k: nat)
      requires Sequential(n) && k < |calls| && e < n
    {
      Tried(PoolAfter(n, k), calls[k], e)
    }

    /** Attempts on endpoint e among the first k calls that start by time t. */
    ghost function Attempts(n: nat, e: nat, k: nat, t: real): nat
      requires Sequential(n) && k <= |calls| && e < n
    {
      if k == 0 then 0
      else Attempts(n, e, k - 1, t) + (if Asks(n, e, k - 1) && calls[k - 1][e].checkAt <= t then 1 else 0)
    }
  }

  /** A quarantined endpoint has at least three failures on its counter. */
  ghost predicate CountExplainsTrip(b: Breaker, now: real) {
    b.Tripped(now) ==> b.failures >= TRIP_THRESHOLD
  }

  /** In every sequential run, quarantine always means three or more failures on record. */
  lemma {:induction false} TrippedHasThreeFailures(h: History, n: nat, k: nat, e: nat)
    requires h.Sequential(n) && k <= |h.calls| && e < n
    ensures CountExplainsTrip(h.PoolAfter(n, k)[e], h.ends[k])
  {
    if k > 0 {
      TrippedHasThreeFailures(h, n, k - 1, e);
      FailoverRefinement(h.PoolAfter(n, k - 1), h.calls[k - 1]);
      assert InOrder(h.calls[k - 1], h.ends[k - 1]);
    }
  }

  // ----- What the counter counts

  /** The attempts on endpoint e in the first k calls, in order. */
  ghost function LogOf(h: History, n: nat, e: nat, k: nat): seq<Attempt>
    requires h.Sequential(n) && k <= |h.calls| && e < n
  {
    if k == 0 then []
    else LogOf(h, n, e, k - 1) + (if h.Asks(n, e, k - 1) then [h.calls[k - 1][e]] else [])
  }

  /** The i-th attempt failed on transport and none has been served since. */
  ghost predicate InStreak(log: seq<Attempt>, i: nat) {
    i < |log| && log[i].outcome.Trigger? && forall j :: i < j < |log| ==> !log[j].outcome.Served?
  }

  /** The transport failures since the last success; other exceptions neither add nor clear. */
  ghost function Streak(log: seq<Attempt>): set<nat> {
    set i | 0 <= i < |log| && InStreak(log, i)
  }

  lemma StreakSnoc(log: seq<Attempt>, a: Attempt)
    ensures a.outcome.Served? ==> Streak(log + [a]) == {}
    ensures a.outcome.Raised? ==> Streak(log + [a]) == Streak(log)
    ensures a.outcome.Trigger? ==> Streak(log + [a]) == Streak(log) + {|log|} && |log| !in Streak(log)
  {
    var all := log + [a];
    assert all[|log|] == a;
    forall i | 0 <= i < |log| ensures InStreak(all, i) <==> InStreak(log, i) && !a.outcome.Served? {
      assert all[i] == log[i];
      if InStreak(all, i) {
        forall j | i < j < |log| ensures !log[j].outcome.Served? {
          assert all[j] == log[j];
        }
      }
    }
  }

  /** When the last quarantine ends: the third and every later failure in a row starts one of 30 seconds. */
  ghost function QuarantineEnd(log: seq<Attempt>): real {
    if log == [] then 0.0
    else if log[|log| - 1].outcome.Trigger? && |Streak(log)| >= 3 then log[|log| - 1].endAt + 30.0
    else QuarantineEnd(log[..|log| - 1])
  }

  /** Which outcomes count, clear or leave the counter, for a whole log of attempts. */
  lemma SettleCounts(b: Breaker, log: seq<Attempt>, a: Attempt)
    requires b == Breaker(|Streak(log)|, QuarantineEnd(log))
    ensures b.Settle(a.outcome, a.endAt) == Breaker(|Streak(log + [a])|, QuarantineEnd(log + [a]))
  {
    StreakSnoc(log, a);
    assert (log + [a])[..|log|] == log;
  }

  /**
   In every sequential run the counter of an endpoint is the number of its transport failures since
   its last success, and it is quarantined until 30 seconds after the last failure that was the third
   or a later one in a row.
   */
  lemma {:induction false} BreakerCountsStreak(h: History, n: nat, e: nat, k: nat)
    requires h.Sequential(n) && k <= |h.calls| && e < n
    ensures var log := LogOf(h, n, e, k);
            h.PoolAfter(n, k)[e] == Breaker(|Streak(log)|, QuarantineEnd(log))
  {
    if k > 0 {
      BreakerCountsStreak(h, n, e, k - 1);
      FailoverRefinement(h.PoolAfter(n, k - 1), h.calls[k - 1]);
      var log := LogOf(h, n, e, k - 1);
      if h.Asks(n, e, k - 1) {
        SettleCounts(h.PoolAfter(n, k - 1)[e], log, h.calls[k - 1][e]);
      } else {
        assert log + [] == log;
      }
    }
  }

  /** What the breaker of an endpoint that never answers looks like after `count` attempts on it. */
  ghost predicate DeadBreaker(b: Breaker, count: nat, start: real) {
    && b.failures == count
    && (count < 3 ==> b.cooldownUntil == 0.0)
    && (count >= 3 ==> b.cooldownUntil >= start + 30.0 * (count - 2) as real)
  }

  /** All attempts on e among the first k calls. */
  ghost function AllAttempts(h: History, n: nat, e: nat, k: nat): nat
    requires h.Sequential(n) && k <= |h.calls| && e < n
  {
    if k == 0 then 0 else AllAttempts(h, n, e, k - 1) + (if h.Asks(n, e, k - 1) then 1 else 0)
  }

  ghost predicate Dead(h: History, n: nat, e: nat)
    requires h.Sequential(n) && e < n
  {
    forall k :: 0 <= k < |h.calls| ==> h.calls[k][e].outcome.Trigger?
  }

  lemma {:induction false} EndsGrow(h: History, n: nat, k: nat)
    requires h.Sequential(n) && k <= |h.calls|
    ensures h.ends[0] <= h.ends[k]
  {
    if k > 0 {
      EndsGrow(h, n, k - 1);
    }
  }

  lemma {:induction false} DeadEndpointBreaker(h: History, n: nat, e: nat, k: nat)
    requires h.Sequential(n) && k <= |h.calls| && e < n && Dead(h, n, e)
    ensures DeadBreaker(h.PoolAfter(n, k)[e], AllAttempts(h, n, e, k), h.ends[0])
  {
    if k > 0 {
      DeadEndpointBreaker(h, n, e, k - 1);
      EndsGrow(h, n, k - 1);
      FailoverRefinement(h.PoolAfter(n, k - 1), h.calls[k - 1]);
      assert InOrder(h.calls[k - 1], h.ends[k - 1]);
    }
  }

  /** By time t a dead endpoint has been asked at most three times plus once per full 30 seconds. */
  ghost function LoadLimit(start: real, t: real): int {
    3 + ((t - start) / 30.0).Floor
  }

  lemma {:induction false} AttemptsOfAll(h: History, n: nat, e: nat, k: nat, t: real)
    requires h.Sequential(n) && k <= |h.calls| && e < n
    ensures h.Attempts(n, e, k, t) <= AllAttempts(h, n, e, k)
  {
    if k > 0 {
      AttemptsOfAll(h, n, e, k - 1, t);
    }
  }

  /** The breaker bounds the load on an endpoint that always fails, in every sequential run. */
  lemma {:induction false} DeadEndpointLoad(h: History, n: nat, e: nat, k: nat, t: real)
    requires h.Sequential(n) && k <= |h.calls| && e < n && Dead(h, n, e)
    requires h.ends[0] <= t
    ensures h.Attempts(n, e, k, t) <= LoadLimit(h.ends[0], t)
  {
    if k > 0 {
      var at := h.calls[k - 1][e].checkAt;
      if h.Asks(n, e, k - 1) && at <= t {
        DeadEndpointBreaker(h, n, e, k - 1);
        AttemptsOfAll(h, n, e, k, t);
        var count := AllAttempts(h, n, e, k - 1);
        if count >= 3 {
          assert h.ends[0] + 30.0 * (count - 2) as real <= at <= t;
          assert ((t - h.ends[0]) / 30.0) >= (count - 2) as real;
        }
      } else {
        DeadEndpointLoad(h, n, e, k - 1, t);
      }
    }
  }

  /** From the third failure on, two attempts on a dead endpoint are a full cooldown apart. */
  lemma DeadEndpointGap(h: History, n: nat, e: nat, a: nat, b: nat)
    requires h.Sequential(n) && a < b < |h.calls| && e < n && Dead(h, n, e)
    requires h.Asks(n, e, a) && h.Asks(n, e, b) && AllAttempts(h, n, e, a) >= 2
    ensures h.calls[b][e].checkAt >= h.calls[a][e].endAt + COOLDOWN
  {
    DeadEndpointBreaker(h, n, e, a);
    FailoverRefinement(h.PoolAfter(n, a), h.calls[a]);
    CooldownKept(h, n, e, a + 1, b);
  }

  lemma {:induction false} CooldownKept(h: History, n: nat, e: nat, a: nat, b: nat)
    requires h.Sequential(n) && a <= b <= |h.calls| && e < n && Dead(h, n, e)
    ensures h.PoolAfter(n, a)[e].cooldownUntil <= h.PoolAfter(n, b)[e].cooldownUntil
  {
    if a < b {
      CooldownKept(h, n, e, a, b - 1);
      FailoverRefinement(h.PoolAfter(n, b - 1), h.calls[b - 1]);
      assert InOrder(h.calls[b - 1], h.ends[b - 1]);
    }
  }
}
