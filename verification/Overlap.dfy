/**
 One endpoint's circuit breaker under overlapping calls. Every await is a step boundary, so the
 attempts on an endpoint are interleaved starts and ends: a start reads the breaker, an end settles
 it, and in between any number of other attempts may do the same.
 */
module Overlap {
  import opened Failover

  datatype Event = Start(at: real) | End(outcome: Outcome, at: real)

  /** The breaker, the number of attempts under way, and the time of the last event. */
  datatype Node = Node(breaker: Breaker, inFlight: nat, now: real)
  {
    /** An attempt starts only past an untripped breaker, and only a started one ends. */
    ghost predicate Allows(e: Event) {
      && now <= e.at
      && match e
         case Start(at) => !breaker.Tripped(at)
         case End(_, _) => inFlight > 0
    }

    ghost function Next(e: Event): Node {
      match e
      case Start(at) => Node(breaker, inFlight + 1, at)
      case End(outcome, at) => Node(breaker.Settle(outcome, at), if inFlight > 0 then inFlight - 1 else 0, at)
    }
  }

  /** A fresh endpoint at time `start`, after the events. */
  ghost function After(start: real, es: seq<Event>): Node {
    if es == [] then Node(FRESH, 0, start) else After(start, es[..|es| - 1]).Next(es[|es| - 1])
  }

  /** The events can happen in this order, with at most c attempts under way at any time. */
  ghost predicate IsRun(start: real, es: seq<Event>, c: nat) {
    if es == [] then start >= 0.0
    else
      var before := After(start, es[..|es| - 1]);
      && IsRun(start, es[..|es| - 1], c)
      && before.Allows(es[|es| - 1]) && before.Next(es[|es| - 1]).inFlight <= c
  }

  lemma RunSnoc(start: real, es: seq<Event>, c: nat, e: Event)
    requires IsRun(start, es, c) && After(start, es).Allows(e) && After(start, es).Next(e).inFlight <= c
    ensures IsRun(start, es + [e], c) && After(start, es + [e]) == After(start, es).Next(e)
  {
    assert (es + [e])[..|es|] == es;
  }

  // ----- Sequential histories are runs

  /** The attempts on endpoint e in the first k calls of a history. */
  ghost function EventsOf(h: History, n: nat, e: nat, k: nat): seq<Event>
    requires h.Sequential(n) && k <= |h.calls| && e < n
  {
    if k == 0 then []
    else if h.Asks(n, e, k - 1) then
      var a := h.calls[k - 1][e];
      EventsOf(h, n, e, k - 1) + [Start(a.checkAt)] + [End(a.outcome, a.endAt)]
    else EventsOf(h, n, e, k - 1)
  }

  lemma SequentialAttempt(start: real, es: seq<Event>, a: Attempt)
    requires IsRun(start, es, 1) && After(start, es).inFlight == 0 && After(start, es).now <= a.checkAt <= a.endAt
    requires !After(start, es).breaker.Tripped(a.checkAt)
    ensures IsRun(start, es + [Start(a.checkAt)] + [End(a.outcome, a.endAt)], 1)
    ensures After(start, es + [Start(a.checkAt)] + [End(a.outcome, a.endAt)])
         == Node(After(start, es).breaker.Settle(a.outcome, a.endAt), 0, a.endAt)
  {
    RunSnoc(start, es, 1, Start(a.checkAt));
    RunSnoc(start, es + [Start(a.checkAt)], 1, End(a.outcome, a.endAt));
  }

  /** Calls that follow one another are the runs with one attempt at a time, and leave the same breaker. */
  lemma {:induction false} SequentialIsRun(h: History, n: nat, e: nat, k: nat)
    requires h.Sequential(n) && k <= |h.calls| && e < n
    ensures IsRun(h.ends[0], EventsOf(h, n, e, k), 1)
    ensures var node := After(h.ends[0], EventsOf(h, n, e, k));
            node.breaker == h.PoolAfter(n, k)[e] && node.inFlight == 0 && node.now <= h.ends[k]
  {
    if k > 0 {
      SequentialIsRun(h, n, e, k - 1);
      FailoverRefinement(h.PoolAfter(n, k - 1), h.calls[k - 1]);
      assert InOrder(h.calls[k - 1], h.ends[k - 1]);
      if h.Asks(n, e, k - 1) {
        SequentialAttempt(h.ends[0], EventsOf(h, n, e, k - 1), h.calls[k - 1][e]);
      }
    }
  }

  // ----- The link between counter and quarantine

  /** From the last event on, quarantine means three or more failures on record. */
  ghost predicate Linked(n: Node) {
    forall now :: n.now <= now ==> CountExplainsTrip(n.breaker, now)
  }

  /** At every point of the run. */
  ghost predicate AlwaysLinked(start: real, es: seq<Event>) {
    Linked(After(start, es)) && (es == [] || AlwaysLinked(start, es[..|es| - 1]))
  }

  /** An attempt is served while the endpoint is quarantined. */
  ghost predicate ServedInQuarantine(n: Node, e: Event) {
    e.End? && e.outcome.Served? && n.breaker.Tripped(e.at)
  }

  ghost predicate NeverServedInQuarantine(start: real, es: seq<Event>) {
    es == [] || (!ServedInQuarantine(After(start, es[..|es| - 1]), es[|es| - 1])
                 && NeverServedInQuarantine(start, es[..|es| - 1]))
  }

  /** One event keeps the link exactly when it is not a success in quarantine. */
  lemma EventKeepsLink(n: Node, e: Event)
    requires Linked(n) && n.Allows(e)
    ensures Linked(n.Next(e)) <==> !ServedInQuarantine(n, e)
  {
    if ServedInQuarantine(n, e) {
      assert !CountExplainsTrip(n.Next(e).breaker, e.at);
    } else {
      forall now | e.at <= now ensures CountExplainsTrip(n.Next(e).breaker, now) {
        assert CountExplainsTrip(n.breaker, now);
      }
    }
  }

  /** The counter explains every quarantine of a run exactly when nothing is served in quarantine. */
  lemma {:induction false} LinkIff(start: real, es: seq<Event>, c: nat)
    requires IsRun(start, es, c)
    ensures AlwaysLinked(start, es) <==> NeverServedInQuarantine(start, es)
  {
    if es != [] {
      var init := es[..|es| - 1];
      LinkIff(start, init, c);
      if AlwaysLinked(start, init) {
        EventKeepsLink(After(start, init), es[|es| - 1]);
      }
    }
  }

  /** With one attempt at a time, whoever is under way started past a breaker that is still open for it. */
  lemma {:induction false} AloneMeansUntripped(start: real, es: seq<Event>, c: nat)
    requires IsRun(start, es, c) && c <= 1
    ensures NeverServedInQuarantine(start, es)
    ensures After(start, es).inFlight > 0 ==> !After(start, es).breaker.Tripped(After(start, es).now)
  {
    if es != [] {
      AloneMeansUntripped(start, es[..|es| - 1], c);
    }
  }

  /** A second attempt that started before the trip and is served after it clears the counter. */
  lemma OverlapLosesTheCount(start: real, c: nat) returns (es: seq<Event>)
    requires start >= 0.0 && c >= 2
    ensures IsRun(start, es, c) && !AlwaysLinked(start, es)
    ensures After(start, es) == Node(Breaker(0, start + COOLDOWN), 0, start)
  {
    var down := End(Trigger("timeout"), start);
    es := [];
    RunSnoc(start, es, c, Start(start));
    es := es + [Start(start)];
    for i := 0 to 3
      invariant IsRun(start, es, c)
      invariant After(start, es)
             == Node(Breaker(i, if i == 3 then start + COOLDOWN else 0.0), 1, start)
    {
      RunSnoc(start, es, c, Start(start));
      es := es + [Start(start)];
      RunSnoc(start, es, c, down);
      es := es + [down];
    }
    RunSnoc(start, es, c, End(Served(0), start));
    es := es + [End(Served(0), start)];
    assert !CountExplainsTrip(After(start, es).breaker, start);
  }

  /** So the link holds in every run with at most c attempts under way if and only if c is at most one. */
  lemma LinkNeedsOneAtATime(start: real, c: nat)
    requires start >= 0.0
    ensures (forall es :: IsRun(start, es, c) ==> AlwaysLinked(start, es)) <==> c <= 1
  {
    if c <= 1 {
      forall es | IsRun(start, es, c) ensures AlwaysLinked(start, es) {
        AloneMeansUntripped(start, es, c);
        LinkIff(start, es, c);
      }
    } else {
      var es := OverlapLosesTheCount(start, c);
    }
  }

  // ----- Load on an endpoint that always fails

  ghost predicate AllFail(es: seq<Event>) {
    es == [] || ((es[|es| - 1].End? ==> es[|es| - 1].outcome.Trigger?) && AllFail(es[..|es| - 1]))
  }

  /** Attempts that start by time t. */
  ghost function StartsBy(es: seq<Event>, t: real): nat {
    if es == [] then 0
    else StartsBy(es[..|es| - 1], t) + (if es[|es| - 1].Start? && es[|es| - 1].at <= t then 1 else 0)
  }

  ghost function Starts(es: seq<Event>): nat {
    if es == [] then 0 else Starts(es[..|es| - 1]) + (if es[|es| - 1].Start? then 1 else 0)
  }

  lemma {:induction false} StartsByOfAll(es: seq<Event>, t: real)
    ensures StartsBy(es, t) <= Starts(es)
  {
    if es != [] {
      StartsByOfAll(es[..|es| - 1], t);
    }
  }

  /** Every failure is counted, and what started has failed or is under way. */
  lemma {:induction false} DeadCounter(start: real, es: seq<Event>, c: nat)
    requires IsRun(start, es, c) && AllFail(es)
    ensures Starts(es) == After(start, es).breaker.failures + After(start, es).inFlight
    ensures After(start, es).inFlight <= c && start <= After(start, es).now
  {
    if es != [] {
      DeadCounter(start, es[..|es| - 1], c);
    }
  }

  /** The run up to its last failure: nothing fails after it, and from the third on it sets the quarantine. */
  lemma {:induction false} UpToLastFailure(start: real, es: seq<Event>, c: nat) returns (k: nat)
    requires IsRun(start, es, c) && AllFail(es) && After(start, es).breaker.failures >= TRIP_THRESHOLD
    ensures k <= |es| && IsRun(start, es[..k], c) && AllFail(es[..k])
    ensures After(start, es[..k]).breaker == After(start, es).breaker
    ensures After(start, es).breaker.cooldownUntil == After(start, es[..k]).now + COOLDOWN
  {
    if es[|es| - 1].End? {
      k := |es|;
      assert es[..k] == es;
    } else {
      k := UpToLastFailure(start, es[..|es| - 1], c);
      assert es[..|es| - 1][..k] == es[..k];
    }
  }

  /** Two failures, then c attempts at once, and c more for every full cooldown. */
  ghost function OverlapLimit(start: real, c: nat, t: real): int {
    2 + c + c * ((t - start) / COOLDOWN).Floor
  }

  lemma OneMoreCooldown(start: real, c: nat, u: real, t: real)
    requires start <= u && u + COOLDOWN <= t
    ensures OverlapLimit(start, c, u) + c <= OverlapLimit(start, c, t)
  {
    var m, n := ((u - start) / COOLDOWN).Floor, ((t - start) / COOLDOWN).Floor;
    assert (t - start) / COOLDOWN >= (u - start) / COOLDOWN + 1.0;
    assert c * (m + 1) <= c * n;
  }

  lemma LimitIsAtLeast(start: real, c: nat, t: real)
    requires start <= t
    ensures OverlapLimit(start, c, t) >= 2 + c
  {
    assert c * ((t - start) / COOLDOWN).Floor >= 0;
  }

  lemma {:induction false} StartsOfRun(start: real, es: seq<Event>, c: nat, t: real)
    requires IsRun(start, es, c) && AllFail(es) && After(start, es).now <= t
    ensures Starts(es) <= OverlapLimit(start, c, t)
    decreases |es|
  {
    DeadCounter(start, es, c);
    LimitIsAtLeast(start, c, t);
    if es != [] {
      var init, before := es[..|es| - 1], After(start, es[..|es| - 1]);
      if es[|es| - 1].End? {
        StartsOfRun(start, init, c, t);
      } else if before.breaker.failures >= TRIP_THRESHOLD {
        var k := UpToLastFailure(start, init, c);
        var u := After(start, es[..k]).now;
        assert init[..k] == es[..k];
        DeadCounter(start, es[..k], c);
        StartsOfRun(start, es[..k], c, u);
        OneMoreCooldown(start, c, u, t);
      }
    }
  }

  /** With at most c attempts under way, an endpoint that always fails is asked at most so often by time t. */
  lemma {:induction false} OverlapLoad(start: real, es: seq<Event>, c: nat, t: real)
    requires IsRun(start, es, c) && AllFail(es) && start <= t
    ensures StartsBy(es, t) <= OverlapLimit(start, c, t)
  {
    LimitIsAtLeast(start, c, t);
    if es != [] {
      if After(start, es).now <= t {
        StartsByOfAll(es, t);
        StartsOfRun(start, es, c, t);
      } else {
        OverlapLoad(start, es[..|es| - 1], c, t);
      }
    }
  }

  // ----- The limit is reached

  /** c attempts start at once and then all of them fail at once. */
  lemma Wave(start: real, es: seq<Event>, c: nat, at: real) returns (es': seq<Event>)
    requires IsRun(start, es, c) && AllFail(es) && c > 0
    requires var n := After(start, es);
             n.inFlight == 0 && n.now <= at && !n.breaker.Tripped(at) && n.breaker.failures >= 2
    ensures IsRun(start, es', c) && AllFail(es') && Starts(es') == Starts(es) + c
    ensures var n := After(start, es);
            After(start, es') == Node(Breaker(n.breaker.failures + c, at + COOLDOWN), 0, at)
  {
    var n, down := After(start, es), End(Trigger("timeout"), at);
    es' := es;
    for i := 0 to c
      invariant IsRun(start, es', c) && AllFail(es') && Starts(es') == Starts(es) + i
      invariant After(start, es') == if i == 0 then n else Node(n.breaker, i, at)
    {
      RunSnoc(start, es', c, Start(at));
      assert (es' + [Start(at)])[..|es'|] == es';
      es' := es' + [Start(at)];
    }
    for i := 0 to c
      invariant IsRun(start, es', c) && AllFail(es') && Starts(es') == Starts(es) + c
      invariant After(start, es')
             == Node(if i == 0 then n.breaker else Breaker(n.breaker.failures + i, at + COOLDOWN), c - i, at)
    {
      RunSnoc(start, es', c, down);
      assert (es' + [down])[..|es'|] == es';
      es' := es' + [down];
    }
  }

  lemma Warmup(start: real, c: nat) returns (es: seq<Event>)
    requires start >= 0.0 && c > 0
    ensures IsRun(start, es, c) && AllFail(es) && Starts(es) == 2
    ensures After(start, es) == Node(Breaker(2, 0.0), 0, start)
  {
    var down := End(Trigger("timeout"), start);
    es := [];
    for i := 0 to 2
      invariant IsRun(start, es, c) && AllFail(es) && Starts(es) == i
      invariant After(start, es) == Node(Breaker(i, 0.0), 0, start)
    {
      RunSnoc(start, es, c, Start(start));
      assert (es + [Start(start)])[..|es|] == es;
      es := es + [Start(start)];
      RunSnoc(start, es, c, down);
      assert (es + [down])[..|es|] == es;
      es := es + [down];
    }
  }

  ghost function WaveTime(start: real, m: nat): real {
    start + COOLDOWN * m as real
  }

  lemma LimitAtWave(start: real, c: nat, m: nat)
    ensures OverlapLimit(start, c, WaveTime(start, m)) == 2 + c + c * m
  {
    assert (WaveTime(start, m) - start) / COOLDOWN == m as real;
  }

  lemma {:induction false} Waves(start: real, c: nat, m: nat) returns (es: seq<Event>)
    requires start >= 0.0 && c > 0
    ensures IsRun(start, es, c) && AllFail(es) && Starts(es) == 2 + c + c * m
    ensures var n := After(start, es);
            && n.inFlight == 0 && n.now == WaveTime(start, m)
            && n.breaker.failures >= TRIP_THRESHOLD && n.breaker.cooldownUntil == n.now + COOLDOWN
  {
    if m == 0 {
      es := Warmup(start, c);
    } else {
      es := Waves(start, c, m - 1);
      assert c * m == c * (m - 1) + c;
    }
    es := Wave(start, es, c, WaveTime(start, m));
  }

  lemma {:induction false} AllStartsAreBy(start: real, es: seq<Event>, c: nat, t: real)
    requires IsRun(start, es, c) && After(start, es).now <= t
    ensures StartsBy(es, t) == Starts(es)
  {
    if es != [] {
      AllStartsAreBy(start, es[..|es| - 1], c, t);
    }
  }

  /** For every c and any number m of cooldowns there is a run that reaches the limit. */
  lemma LimitIsReached(start: real, c: nat, m: nat) returns (es: seq<Event>)
    requires start >= 0.0 && c > 0
    ensures IsRun(start, es, c) && AllFail(es)
    ensures StartsBy(es, WaveTime(start, m)) == OverlapLimit(start, c, WaveTime(start, m))
  {
    es := Waves(start, c, m);
    AllStartsAreBy(start, es, c, WaveTime(start, m));
    LimitAtWave(start, c, m);
  }

  ghost predicate WithinLoadLimit(start: real, es: seq<Event>) {
    forall t :: start <= t ==> StartsBy(es, t) <= LoadLimit(start, t)
  }

  /** The limit of sequential calls holds for overlapping ones if and only if there is no overlap. */
  lemma LoadLimitNeedsOneAtATime(start: real, c: nat)
    requires start >= 0.0
    ensures (forall es :: IsRun(start, es, c) && AllFail(es) ==> WithinLoadLimit(start, es)) <==> c <= 1
  {
    if c <= 1 {
      forall es | IsRun(start, es, c) && AllFail(es) ensures WithinLoadLimit(start, es) {
        forall t | start <= t ensures StartsBy(es, t) <= LoadLimit(start, t) {
          OverlapLoad(start, es, c, t);
          LimitIsAtLeast(start, 1, t);
        }
      }
    } else {
      var es := LimitIsReached(start, c, 0);
      LimitAtWave(start, c, 0);
      assert WaveTime(start, 0) == start && LoadLimit(start, start) == 3;
      assert !WithinLoadLimit(start, es);
    }
  }
}
