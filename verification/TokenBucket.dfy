/**
 Ingress rate limiting: a shared token bucket that is refilled lazily, whenever a request asks for a
 token. The lemmas relate whole runs of it to a limit that mentions no tokens at all.
 */
module TokenBucket {
  import opened Numbers

  datatype Config = Config(capacity: nat, rate: nat)

  datatype State = State(tokens: real, lastRefill: real)

  /** What accrues in dt seconds. */
  function Accrued(c: Config, dt: real): real {
    c.rate as real * dt
  }

  /** Token level at `now`; an earlier `now` counts as no elapsed time. */
  function Refill(c: Config, s: State, now: real): real {
    var elapsed := if now > s.lastRefill then now - s.lastRefill else 0.0;
    Min(s.tokens + Accrued(c, elapsed), c.capacity as real)
  }

  function Step(c: Config, s: State, now: real): (State, bool) {
    var level := Refill(c, s, now);
    if level >= 1.0 then (State(level - 1.0, now), true) else (State(level, now), false)
  }

  function Initial(c: Config, start: real): State {
    State(c.capacity as real, start)
  }

  /** The bucket after the first n requests of a run. */
  function StateAfter(c: Config, s: State, ts: seq<real>, n: nat): State
    requires n <= |ts|
  {
    if n == 0 then s else Step(c, StateAfter(c, s, ts, n - 1), ts[n - 1]).0
  }

  /** The decision on the i-th request of a run. */
  predicate Admitted(c: Config, s: State, ts: seq<real>, i: nat)
    requires i < |ts|
  {
    Step(c, StateAfter(c, s, ts, i), ts[i]).1
  }

  class SharedTokenBucket {
    const config: Config
    var tokens: real
    var lastRefill: real
    ghost const start: real
    ghost var requests: seq<real>

    /** The fields are what the run so far leads to. */
    ghost predicate Valid()
      reads this
    {
      State(tokens, lastRefill) == StateAfter(config, Initial(config, start), requests, |requests|)
    }

    constructor (ratePerSec: nat, burst: nat, now: real)
      ensures Valid() && requests == [] && start == now && config == Config(burst, ratePerSec)
    {
      config := Config(burst, ratePerSec);
      tokens := burst as real;
      lastRefill := now;
      start := now;
      requests := [];
    }

    method TryAcquire(now: real) returns (ok: bool)
      requires Valid()
      modifies this
      ensures Valid() && requests == old(requests) + [now]
      ensures ok == Admitted(config, Initial(config, start), requests, |old(requests)|)
    {
      ghost var before := requests;
      var elapsed := if now > lastRefill then now - lastRefill else 0.0;
      tokens := Min(tokens + Accrued(config, elapsed), config.capacity as real);
      lastRefill := now;
      requests := requests + [now];
      PrefixIsEnough(config, Initial(config, start), before, requests, |before|);
      if tokens >= 1.0 {
        tokens := tokens - 1.0;
        ok := true;
      } else {
        ok := false;
      }
    }
  }

  lemma {:induction false} PrefixIsEnough(c: Config, s: State, ts: seq<real>, us: seq<real>, n: nat)
    requires n <= |ts| && n <= |us| && ts[..n] == us[..n]
    ensures StateAfter(c, s, ts, n) == StateAfter(c, s, us, n)
  {
    if n > 0 {
      assert ts[..n - 1] == ts[..n][..n - 1] && us[..n - 1] == us[..n][..n - 1];
      assert ts[n - 1] == ts[..n][n - 1] == us[n - 1];
      PrefixIsEnough(c, s, ts, us, n - 1);
    }
  }

  // ----- The greedy limiter

  ghost predicate Ordered(start: real, ts: seq<real>) {
    && (forall i :: 0 <= i < |ts| ==> start <= ts[i])
    && (forall i, j :: 0 <= i < j < |ts| ==> ts[i] <= ts[j])
  }

  /** How many of the requests i, ..., j-1 were admitted. */
  ghost function Count(c: Config, s: State, ts: seq<real>, i: nat, j: nat): nat
    requires i <= j <= |ts|
  {
    if i == j then 0 else Count(c, s, ts, i, j - 1) + (if Admitted(c, s, ts, j - 1) then 1 else 0)
  }

  /** What the window opened by request i still allows at request j. */
  ghost function Headroom(c: Config, s: State, ts: seq<real>, i: nat, j: nat): real
    requires i <= j < |ts|
  {
    c.capacity as real + c.rate as real * (ts[j] - ts[i]) - Count(c, s, ts, i, j) as real
  }

  ghost function Level(c: Config, s: State, ts: seq<real>, j: nat): real
    requires j < |ts|
  {
    Refill(c, StateAfter(c, s, ts, j), ts[j])
  }

  lemma AccruedAdds(c: Config, x: real, y: real)
    ensures Accrued(c, x) + Accrued(c, y) == Accrued(c, x + y)
  {
  }

  lemma AccruedGrows(c: Config, x: real, y: real)
    requires x <= y
    ensures Accrued(c, x) <= Accrued(c, y)
  {
    assert c.rate as real * (y - x) >= 0.0;
  }

  lemma LevelStep(c: Config, start: real, ts: seq<real>, j: nat)
    requires Ordered(start, ts) && j + 1 < |ts|
    ensures var s := Initial(c, start);
            Level(c, s, ts, j + 1)
            == Min(Level(c, s, ts, j) - (if Admitted(c, s, ts, j) then 1.0 else 0.0) + Accrued(c, ts[j + 1] - ts[j]),
                   c.capacity as real)
  {
  }

  lemma HeadroomStep(c: Config, s: State, ts: seq<real>, i: nat, j: nat)
    requires i <= j && j + 1 < |ts|
    ensures Headroom(c, s, ts, i, j + 1)
         == Headroom(c, s, ts, i, j) - (if Admitted(c, s, ts, j) then 1.0 else 0.0) + Accrued(c, ts[j + 1] - ts[j])
  {
    AccruedAdds(c, ts[j] - ts[i], ts[j + 1] - ts[j]);
    assert ts[j] - ts[i] + (ts[j + 1] - ts[j]) == ts[j + 1] - ts[i];
  }

  lemma FirstLevelIsFull(c: Config, start: real, ts: seq<real>)
    requires Ordered(start, ts) && ts != []
    ensures Level(c, Initial(c, start), ts, 0) == Headroom(c, Initial(c, start), ts, 0, 0)
  {
    AccruedGrows(c, 0.0, ts[0] - start);
  }

  /** Level and headroom move together, except that the level is capped. */
  lemma LevelAgainstHeadroom(c: Config, start: real, ts: seq<real>, i: nat, j: nat)
    requires Ordered(start, ts) && i <= j && j + 1 < |ts|
    ensures var s := Initial(c, start);
            Level(c, s, ts, j + 1)
            == Min(Headroom(c, s, ts, i, j + 1) + (Level(c, s, ts, j) - Headroom(c, s, ts, i, j)), c.capacity as real)
  {
    LevelStep(c, start, ts, j);
    HeadroomStep(c, Initial(c, start), ts, i, j);
  }

  lemma OwnHeadroom(c: Config, s: State, ts: seq<real>, j: nat)
    requires j < |ts|
    ensures Headroom(c, s, ts, j, j) == c.capacity as real
  {
  }

  /** The token level is the smallest headroom of all windows; `tight` is a window that attains it. */
  lemma {:induction false} LevelIsLeastHeadroom(c: Config, start: real, ts: seq<real>, j: nat) returns (tight: nat)
    requires Ordered(start, ts) && j < |ts|
    ensures var s := Initial(c, start);
            && (forall i :: 0 <= i <= j ==> Level(c, s, ts, j) <= Headroom(c, s, ts, i, j))
            && tight <= j && Level(c, s, ts, j) == Headroom(c, s, ts, tight, j)
  {
    var s := Initial(c, start);
    OwnHeadroom(c, s, ts, j);
    if j == 0 {
      tight := 0;
      FirstLevelIsFull(c, start, ts);
    } else {
      tight := LevelIsLeastHeadroom(c, start, ts, j - 1);
      LevelAgainstHeadroom(c, start, ts, tight, j - 1);
      forall i | 0 <= i <= j ensures Level(c, s, ts, j) <= Headroom(c, s, ts, i, j) {
        if i < j {
          LevelAgainstHeadroom(c, start, ts, i, j - 1);
        }
      }
      if Level(c, s, ts, j) != Headroom(c, s, ts, tight, j) {
        tight := j;
      }
    }
  }

  /** One more admission keeps the window i..j within burst + rate * elapsed. */
  ghost predicate Leaves(c: Config, s: State, ts: seq<real>, i: nat, j: nat)
    requires i <= j < |ts|
  {
    (Count(c, s, ts, i, j) + 1) as real <= c.capacity as real + c.rate as real * (ts[j] - ts[i])
  }

  /** Admitting request j would keep every window that ends with it within its limit. */
  ghost predicate WithinLimits(c: Config, s: State, ts: seq<real>, j: nat)
    requires j < |ts|
  {
    forall i :: 0 <= i <= j ==> Leaves(c, s, ts, i, j)
  }

  lemma LeavesIffHeadroom(c: Config, s: State, ts: seq<real>, i: nat, j: nat)
    requires i <= j < |ts|
    ensures Leaves(c, s, ts, i, j) <==> 1.0 <= Headroom(c, s, ts, i, j)
  {
  }

  /**
   The lazy bucket is the greedy limiter: a request is admitted exactly when admitting it keeps every
   window that ends with it within the allowed burst plus rate. It never admits too much and never
   refuses without need.
   */
  lemma AdmitsIffWithinLimits(c: Config, start: real, ts: seq<real>, j: nat)
    requires Ordered(start, ts) && j < |ts|
    ensures Admitted(c, Initial(c, start), ts, j) <==> WithinLimits(c, Initial(c, start), ts, j)
  {
    var s := Initial(c, start);
    var tight := LevelIsLeastHeadroom(c, start, ts, j);
    LeavesIffHeadroom(c, s, ts, tight, j);
    if Level(c, s, ts, j) >= 1.0 {
      forall i | 0 <= i <= j ensures Leaves(c, s, ts, i, j) {
        LeavesIffHeadroom(c, s, ts, i, j);
      }
    }
  }

  lemma AdmissionLeaves(c: Config, start: real, ts: seq<real>, i: nat, j: nat)
    requires Ordered(start, ts) && i <= j < |ts| && Admitted(c, Initial(c, start), ts, j)
    ensures (Count(c, Initial(c, start), ts, i, j) + 1) as real <= c.capacity as real + Accrued(c, ts[j] - ts[i])
  {
    AdmitsIffWithinLimits(c, start, ts, j);
    assert Leaves(c, Initial(c, start), ts, i, j);
  }

  lemma {:induction false} BoundByAccrual(c: Config, start: real, ts: seq<real>, i: nat, j: nat)
    requires Ordered(start, ts) && i <= j < |ts|
    ensures Count(c, Initial(c, start), ts, i, j + 1) as real <= c.capacity as real + Accrued(c, ts[j] - ts[i])
  {
    AccruedGrows(c, 0.0, ts[j] - ts[i]);
    if Admitted(c, Initial(c, start), ts, j) {
      AdmissionLeaves(c, start, ts, i, j);
    } else if i < j {
      BoundByAccrual(c, start, ts, i, j - 1);
      AccruedGrows(c, ts[j - 1] - ts[i], ts[j] - ts[i]);
    }
  }

  ghost predicate Bounded(c: Config, s: State, ts: seq<real>, i: nat, j: nat)
    requires i <= j < |ts|
  {
    Count(c, s, ts, i, j + 1) as real <= c.capacity as real + c.rate as real * (ts[j] - ts[i])
  }

  lemma EveryWindowIsBounded(c: Config, start: real, ts: seq<real>, i: nat, j: nat)
    requires Ordered(start, ts) && i <= j < |ts|
    ensures Bounded(c, Initial(c, start), ts, i, j)
  {
    BoundByAccrual(c, start, ts, i, j);
  }

  /** Between any two requests, both included, at most burst + rate * elapsed are admitted. */
  lemma WindowBound(c: Config, start: real, ts: seq<real>, i: nat, j: nat)
    requires Ordered(start, ts) && i <= j < |ts|
    ensures Count(c, Initial(c, start), ts, i, j + 1) as real <= c.capacity as real + c.rate as real * (ts[j] - ts[i])
  {
    EveryWindowIsBounded(c, start, ts, i, j);
  }

  // ----- Requests at the sustained rate

  lemma {:induction false} CountAtMostAll(c: Config, s: State, ts: seq<real>, i: nat, j: nat)
    requires i <= j <= |ts|
    ensures Count(c, s, ts, i, j) <= j - i
  {
    if i < j {
      CountAtMostAll(c, s, ts, i, j - 1);
    }
  }

  lemma {:induction false} SpacingAdds(c: Config, ts: seq<real>, i: nat, j: nat)
    requires i <= j < |ts|
    requires forall k :: 0 < k < |ts| ==> c.rate as real * (ts[k] - ts[k - 1]) >= 1.0
    ensures c.rate as real * (ts[j] - ts[i]) >= (j - i) as real
  {
    if i < j {
      SpacingAdds(c, ts, i, j - 1);
      AccruedAdds(c, ts[j - 1] - ts[i], ts[j] - ts[j - 1]);
      assert ts[j - 1] - ts[i] + (ts[j] - ts[j - 1]) == ts[j] - ts[i];
      assert c.rate as real * (ts[j] - ts[j - 1]) >= 1.0;
    }
  }

  /** Requests that leave at least one token's time between them are never refused, given a burst of one. */
  lemma SustainedRateIsServed(c: Config, start: real, ts: seq<real>, j: nat)
    requires Ordered(start, ts) && j < |ts| && c.capacity >= 1
    requires forall k :: 0 < k < |ts| ==> c.rate as real * (ts[k] - ts[k - 1]) >= 1.0
    ensures Admitted(c, Initial(c, start), ts, j)
  {
    forall i | 0 <= i <= j ensures Leaves(c, Initial(c, start), ts, i, j) {
      CountAtMostAll(c, Initial(c, start), ts, i, j);
      SpacingAdds(c, ts, i, j);
    }
    AdmitsIffWithinLimits(c, start, ts, j);
  }

  // ----- Refused requests leave no trace

  /** The flagged elements among the first n. */
  ghost function Pick<T>(xs: seq<T>, keep: seq<bool>, n: nat): seq<T>
    requires n <= |xs| == |keep|
  {
    if n == 0 then [] else if keep[n - 1] then Pick(xs, keep, n - 1) + [xs[n - 1]] else Pick(xs, keep, n - 1)
  }

  ghost function Decisions(c: Config, s: State, ts: seq<real>): (ds: seq<bool>)
    ensures |ds| == |ts|
    ensures forall i :: 0 <= i < |ts| ==> ds[i] == Admitted(c, s, ts, i)
  {
    seq(|ts|, i requires 0 <= i < |ts| => Admitted(c, s, ts, i))
  }

  /** No later request can tell the two states apart. */
  ghost predicate SameFuture(c: Config, s: State, s': State, since: real) {
    && s.lastRefill <= since && s'.lastRefill <= since
    && forall now :: since <= now ==> Refill(c, s, now) == Refill(c, s', now)
  }

  /** A refused request only splits the refill interval in two. */
  lemma RefusalIsInvisible(c: Config, s: State, now: real)
    requires s.lastRefill <= now && !Step(c, s, now).1
    ensures SameFuture(c, Step(c, s, now).0, s, now)
  {
    var s' := Step(c, s, now).0;
    forall later | now <= later ensures Refill(c, s', later) == Refill(c, s, later) {
      AccruedAdds(c, now - s.lastRefill, later - now);
      assert now - s.lastRefill + (later - now) == later - s.lastRefill;
      AccruedGrows(c, 0.0, later - now);
    }
  }

  ghost function Last(start: real, ts: seq<real>, n: nat): real
    requires n <= |ts|
  {
    if n == 0 then start else ts[n - 1]
  }

  lemma {:induction false} PickedRun(c: Config, start: real, ts: seq<real>, keep: seq<bool>, n: nat)
    requires Ordered(start, ts) && n <= |ts| == |keep|
    requires forall i :: 0 <= i < |ts| ==> keep[i] || !Admitted(c, Initial(c, start), ts, i)
    ensures var s := Initial(c, start);
            var us := Pick(ts, keep, n);
            && SameFuture(c, StateAfter(c, s, ts, n), StateAfter(c, s, us, |us|), Last(start, ts, n))
            && Decisions(c, s, us) == Pick(Decisions(c, s, ts), keep, n)
  {
    var s := Initial(c, start);
    if n > 0 {
      PickedRun(c, start, ts, keep, n - 1);
      var us := Pick(ts, keep, n - 1);
      var now := ts[n - 1];
      var a, b := StateAfter(c, s, ts, n - 1), StateAfter(c, s, us, |us|);
      assert Last(start, ts, n - 1) <= now;
      assert Refill(c, a, now) == Refill(c, b, now);
      if keep[n - 1] {
        KeptStep(c, s, us, now, a, Decisions(c, s, us));
      } else {
        RefusalIsInvisible(c, a, now);
        assert SameFuture(c, StateAfter(c, s, ts, n), b, now);
      }
    }
  }

  lemma KeptStep(c: Config, s: State, us: seq<real>, now: real, a: State, ds: seq<bool>)
    requires ds == Decisions(c, s, us)
    requires Refill(c, a, now) == Refill(c, StateAfter(c, s, us, |us|), now)
    ensures var vs := us + [now];
            && StateAfter(c, s, vs, |vs|) == Step(c, a, now).0
            && Decisions(c, s, vs) == ds + [Step(c, a, now).1]
  {
    var vs := us + [now];
    PrefixIsEnough(c, s, us, vs, |us|);
    forall i | 0 <= i < |us| ensures Admitted(c, s, vs, i) == Admitted(c, s, us, i) {
      PrefixIsEnough(c, s, us, vs, i);
    }
  }

  /** Deleting any set of refused requests from a run changes no other decision. */
  lemma RefusedRequestsLeaveNoTrace(c: Config, start: real, ts: seq<real>, keep: seq<bool>)
    requires Ordered(start, ts) && |ts| == |keep|
    requires forall i :: 0 <= i < |ts| ==> keep[i] || !Admitted(c, Initial(c, start), ts, i)
    ensures Decisions(c, Initial(c, start), Pick(ts, keep, |ts|))
         == Pick(Decisions(c, Initial(c, start), ts), keep, |ts|)
  {
    PickedRun(c, start, ts, keep, |ts|);
  }
}
