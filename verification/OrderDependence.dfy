/**
 When the iteration order of the price book shows in the median. Quotes without volume never
 matter; among the others the prices alone decide: the order is irrelevant for every choice of
 volumes exactly when the prices are pairwise distinct or all the same.
 */
module OrderDependence {
  import opened Outcomes
  import opened Median

  // ----- Quotes without volume

  /** The quotes with volume, in order. */
  ghost function Live(s: seq<Observation>): seq<Observation> {
    if s == [] then []
    else if s[|s| - 1].volume > 0.0 then Live(s[..|s| - 1]) + [s[|s| - 1]]
    else Live(s[..|s| - 1])
  }

  lemma LiveSnoc(s: seq<Observation>, o: Observation)
    ensures Live(s + [o]) == if o.volume > 0.0 then Live(s) + [o] else Live(s)
  {
    assert (s + [o])[..|s|] == s;
  }

  lemma {:induction false} LiveKeepsClass(s: seq<Observation>, p: real)
    ensures AtPrice(Live(s), p) == Live(AtPrice(s, p))
  {
    if s != [] {
      var init, last := s[..|s| - 1], s[|s| - 1];
      LiveKeepsClass(init, p);
      ClassStep(Live(init), last, p);
      LiveSnoc(AtPrice(init, p), last);
    }
  }

  lemma {:induction false} LiveBounded(s: seq<Observation>, max: real)
    requires forall i :: 0 <= i < |s| ==> s[i].price <= max
    ensures forall i :: 0 <= i < |Live(s)| ==> Live(s)[i].price <= max
  {
    if s != [] {
      LiveBounded(s[..|s| - 1], max);
    }
  }

  lemma {:induction false} LiveIsSorted(s: seq<Observation>)
    requires Sorted(s)
    ensures Sorted(Live(s))
  {
    if s != [] {
      LiveIsSorted(s[..|s| - 1]);
      LiveBounded(s[..|s| - 1], s[|s| - 1].price);
    }
  }

  lemma LiveSort(obs: seq<Observation>)
    ensures Sort(Live(obs)) == Live(Sort(obs))
  {
    SortIsStable(obs);
    SortIsStable(Live(obs));
    LiveIsSorted(Sort(obs));
    forall p ensures AtPrice(Sort(Live(obs)), p) == AtPrice(Live(Sort(obs)), p) {
      LiveKeepsClass(obs, p);
      LiveKeepsClass(Sort(obs), p);
    }
    StableSortIsUnique(Sort(Live(obs)), Live(Sort(obs)));
  }

  /** Where the live ones among the first n quotes end. */
  ghost function LiveCount(s: seq<Observation>, n: nat): nat
    requires n <= |s|
  {
    |Live(s[..n])|
  }

  lemma LiveStep(s: seq<Observation>, n: nat)
    requires 0 < n <= |s|
    ensures Live(s[..n]) == if s[n - 1].volume > 0.0 then Live(s[..n - 1]) + [s[n - 1]] else Live(s[..n - 1])
  {
    assert s[..n] == s[..n - 1] + [s[n - 1]];
    LiveSnoc(s[..n - 1], s[n - 1]);
  }

  lemma {:induction false} LiveIsPrefix(s: seq<Observation>, m: nat, n: nat)
    requires m <= n <= |s|
    ensures Live(s[..m]) <= Live(s[..n])
  {
    if m < n {
      LiveIsPrefix(s, m, n - 1);
      LiveStep(s, n);
    }
  }

  lemma {:induction false} LiveVolume(s: seq<Observation>, n: nat)
    requires n <= |s| && NonNegative(s)
    ensures Volume(Live(s[..n])) == Prefix(s, n)
  {
    if n > 0 {
      LiveVolume(s, n - 1);
      LiveStep(s, n);
      AppendVolume(Live(s[..n - 1]), s[n - 1], o => true);
    }
  }

  /** Running volumes are the same on both lists, at corresponding positions. */
  lemma LivePrefix(s: seq<Observation>, n: nat)
    requires n <= |s| && NonNegative(s)
    ensures LiveCount(s, n) <= |Live(s)| && Prefix(Live(s), LiveCount(s, n)) == Prefix(s, n)
  {
    LiveIsPrefix(s, n, |s|);
    LiveVolume(s, n);
    assert s[..|s|] == s;
    PrefixOfAgrees(Live(s[..n]), Live(s), LiveCount(s, n), o => true);
  }

  /** A quote with volume keeps its place among the live ones. */
  lemma LiveAt(s: seq<Observation>, n: nat)
    requires n < |s| && s[n].volume > 0.0
    ensures LiveCount(s, n + 1) == LiveCount(s, n) + 1 <= |Live(s)|
    ensures Live(s)[LiveCount(s, n)] == s[n]
  {
    LiveStep(s, n + 1);
    LiveIsPrefix(s, n + 1, |s|);
    assert s[..|s|] == s;
    assert Live(s[..n + 1])[LiveCount(s, n)] == s[n];
  }

  lemma {:induction false} LiveNonNegative(s: seq<Observation>)
    ensures NonNegative(Live(s))
  {
    if s != [] {
      LiveNonNegative(s[..|s| - 1]);
    }
  }

  // ----- What determines the result of a sorted list

  ghost predicate Crosses(s: seq<Observation>, cut: real, i: nat) {
    i < |s| && Prefix(s, i) <= cut < Prefix(s, i + 1)
  }

  ghost predicate Reaches(s: seq<Observation>, cut: real, i: nat) {
    i < |s| && Prefix(s, i) < cut <= Prefix(s, i + 1)
  }

  lemma OneCrossing(s: seq<Observation>, cut: real, i: nat, j: nat)
    requires NonNegative(s) && Crosses(s, cut, i) && Crosses(s, cut, j)
    ensures i == j
  {
    if i < j {
      PrefixMonotone(s, i + 1, j);
    } else if j < i {
      PrefixMonotone(s, j + 1, i);
    }
  }

  lemma OneReaching(s: seq<Observation>, cut: real, i: nat, j: nat)
    requires NonNegative(s) && Reaches(s, cut, i) && Reaches(s, cut, j)
    ensures i == j
  {
    if i < j {
      PrefixMonotone(s, i + 1, j);
    } else if j < i {
      PrefixMonotone(s, j + 1, i);
    }
  }

  /** The volume at which the result is taken: halfway between the ends of the band. */
  ghost function HalfWay(s: seq<Observation>, lo: nat, hi: nat): real
    requires lo <= |s| && hi <= |s|
  {
    (Prefix(s, lo) + Prefix(s, hi)) / 2.0
  }

  /** The three windows that decide: low cut, high cut, and half of the band. */
  ghost predicate Decides(s: seq<Observation>, lo: nat, last: nat, m: nat) {
    && Crosses(s, LowCut(Volume(s)), lo)
    && Reaches(s, HighCut(Volume(s)), last)
    && Reaches(s, HalfWay(s, lo, last + 1), m)
  }

  lemma MedianReachesHalfWay(s: seq<Observation>, lo: nat, hi: nat, m: nat)
    requires lo <= m < hi <= |s| && IsWeightedMedianAt(s[lo..hi], m - lo)
    ensures Reaches(s, HalfWay(s, lo, hi), m)
  {
    SlicePrefix(s, lo, hi, hi - lo);
    SlicePrefix(s, lo, hi, m - lo);
    SlicePrefix(s, lo, hi, m + 1 - lo);
  }

  lemma ResultDecides(s: seq<Observation>)
    requires NonNegative(s) && Volume(s) > 0.0
    ensures Decides(s, BandStart(s), BandEnd(s) - 1, ResultIndex(s))
    ensures ResultIndex(s) < |s| && MedianOfSorted(s) == s[ResultIndex(s)].price
  {
    ResultIsMedianOfBand(s);
    MedianReachesHalfWay(s, BandStart(s), BandEnd(s), ResultIndex(s));
  }

  lemma DecidedResult(s: seq<Observation>, lo: nat, last: nat, m: nat)
    requires NonNegative(s) && Volume(s) > 0.0 && Decides(s, lo, last, m)
    ensures MedianOfSorted(s) == s[m].price
  {
    ResultDecides(s);
    OneCrossing(s, LowCut(Volume(s)), lo, BandStart(s));
    OneReaching(s, HighCut(Volume(s)), last, BandEnd(s) - 1);
    OneReaching(s, HalfWay(s, lo, last + 1), m, ResultIndex(s));
  }

  /** A window that crosses or reaches a level holds volume, so it exists on the live list too. */
  lemma LiveWindow(s: seq<Observation>, i: nat)
    requires NonNegative(s) && i < |s| && Prefix(s, i) < Prefix(s, i + 1)
    ensures LiveCount(s, i) < |Live(s)| && Live(s)[LiveCount(s, i)] == s[i]
    ensures LiveCount(s, i + 1) == LiveCount(s, i) + 1
    ensures Prefix(Live(s), LiveCount(s, i)) == Prefix(s, i)
    ensures Prefix(Live(s), LiveCount(s, i) + 1) == Prefix(s, i + 1)
  {
    LiveAt(s, i);
    LivePrefix(s, i);
    LivePrefix(s, i + 1);
  }

  lemma LiveMedianOfSorted(s: seq<Observation>)
    requires NonNegative(s) && Volume(s) > 0.0
    ensures Volume(Live(s)) == Volume(s)
    ensures MedianOfSorted(Live(s)) == MedianOfSorted(s)
  {
    var lo, last, m := BandStart(s), BandEnd(s) - 1, ResultIndex(s);
    ResultDecides(s);
    LiveVolume(s, |s|);
    assert s[..|s|] == s;
    LiveNonNegative(s);
    LiveWindow(s, lo);
    LiveWindow(s, last);
    LiveWindow(s, m);
    DecidedResult(Live(s), LiveCount(s, lo), LiveCount(s, last), LiveCount(s, m));
  }

  /** As long as anything was traded, quotes without volume have no say. */
  lemma ZeroVolumeIsIgnored(obs: seq<Observation>)
    requires NonNegative(obs) && Volume(obs) > 0.0
    ensures MedianOf(obs) == MedianOf(Live(obs))
  {
    MedianViaSort(obs);
    LiveMedianOfSorted(Sort(obs));
    LiveSort(obs);
    LiveNonNegative(obs);
    LiveVolume(obs, |obs|);
    assert obs[..|obs|] == obs;
    MedianViaSort(Live(obs));
  }

  // ----- All prices the same

  ghost predicate AllPricedAt(s: seq<Observation>, p: real) {
    forall i :: 0 <= i < |s| ==> s[i].price == p
  }

  lemma {:induction false} TrimMembers(s: seq<Observation>, n: nat, p: real)
    requires n <= |s| && AllPricedAt(s, p)
    ensures AllPricedAt(Trim(s, n), p)
  {
    if n > 0 {
      TrimMembers(s, n - 1, p);
    }
  }

  lemma OnePriceOfSorted(s: seq<Observation>, p: real)
    requires s != [] && AllPricedAt(s, p)
    ensures MedianOfSorted(s) == p
  {
    if Volume(s) > 0.0 {
      TrimMembers(s, |s|, p);
      assert AllPricedAt(Kept(s), p);
    }
  }

  lemma OnePriceWins(obs: seq<Observation>, p: real)
    requires obs != [] && AllPricedAt(obs, p)
    ensures MedianOf(obs) == Some(p)
  {
    var s := Sort(obs);
    SortIsStable(obs);
    forall i | 0 <= i < |s| ensures s[i].price == p {
      assert s[i] in multiset(s) && s[i] in multiset(obs);
    }
    OnePriceOfSorted(s, p);
  }

  // ----- Two quotes at one price and a third elsewhere

  /** The t-th quote counts among the live ones at price p. */
  ghost predicate Adds(s: seq<Observation>, t: nat, p: real)
    requires t < |s|
  {
    s[t].volume > 0.0 && s[t].price == p
  }

  /** The live ones at price p among the first n. */
  ghost function Picked(s: seq<Observation>, n: nat, p: real): seq<Observation>
    requires n <= |s|
  {
    if n == 0 then [] else Picked(s, n - 1, p) + (if Adds(s, n - 1, p) then [s[n - 1]] else [])
  }

  lemma LiveClassStep(s: seq<Observation>, n: nat, p: real)
    requires 0 < n <= |s|
    ensures AtPrice(Live(s[..n]), p) == AtPrice(Live(s[..n - 1]), p) + (if Adds(s, n - 1, p) then [s[n - 1]] else [])
  {
    LiveStep(s, n);
    ClassStep(Live(s[..n - 1]), s[n - 1], p);
  }

  lemma {:induction false} ClassIsPicked(s: seq<Observation>, n: nat, p: real)
    requires n <= |s|
    ensures AtPrice(Live(s[..n]), p) == Picked(s, n, p)
  {
    if n > 0 {
      ClassIsPicked(s, n - 1, p);
      LiveClassStep(s, n, p);
    }
  }

  ghost predicate NoneAdds(s: seq<Observation>, a: nat, b: nat, p: real)
    requires b <= |s|
  {
    forall t :: a <= t < b ==> !Adds(s, t, p)
  }

  lemma {:induction false} NothingPicked(s: seq<Observation>, a: nat, b: nat, p: real)
    requires a <= b <= |s| && NoneAdds(s, a, b, p)
    ensures Picked(s, b, p) == Picked(s, a, p)
  {
    if a < b {
      NothingPicked(s, a, b - 1, p);
    }
  }

  lemma OnePicked(s: seq<Observation>, k: nat, n: nat, p: real)
    requires k < n <= |s| && Adds(s, k, p) && NoneAdds(s, 0, k, p) && NoneAdds(s, k + 1, n, p)
    ensures Picked(s, n, p) == [s[k]]
  {
    NothingPicked(s, 0, k, p);
    NothingPicked(s, k + 1, n, p);
  }

  lemma TwoPicked(s: seq<Observation>, i: nat, j: nat, p: real)
    requires i < j < |s| && Adds(s, i, p) && Adds(s, j, p)
    requires NoneAdds(s, 0, i, p) && NoneAdds(s, i + 1, j, p) && NoneAdds(s, j + 1, |s|, p)
    ensures Picked(s, |s|, p) == [s[i], s[j]]
  {
    OnePicked(s, i, j, p);
    NothingPicked(s, j + 1, |s|, p);
  }

  /** Only the quotes i, j and k have volume; i and j share a price that k does not have. */
  ghost predicate ThreeLive(s: seq<Observation>, i: nat, j: nat, k: nat) {
    && i < j < |s| && k < |s|
    && s[i].price == s[j].price != s[k].price
    && forall t :: 0 <= t < |s| ==> (s[t].volume > 0.0 <==> t == i || t == j || t == k)
  }

  lemma LiveClasses(s: seq<Observation>, i: nat, j: nat, k: nat, p: real)
    requires ThreeLive(s, i, j, k)
    ensures AtPrice(Live(s), p)
         == if p == s[i].price then [s[i], s[j]] else if p == s[k].price then [s[k]] else []
  {
    assert s[..|s|] == s;
    ClassIsPicked(s, |s|, p);
    if p == s[i].price {
      TwoPicked(s, i, j, p);
    } else if p == s[k].price {
      OnePicked(s, k, |s|, p);
    } else {
      NothingPicked(s, 0, |s|, p);
    }
  }

  ghost function IfAt(o: Observation, p: real): seq<Observation> {
    if o.price == p then [o] else []
  }

  lemma ClassOfTwo(x: Observation, y: Observation, p: real)
    ensures AtPrice([x, y], p) == IfAt(x, p) + IfAt(y, p)
  {
    assert [x] == [] + [x] && [x, y] == [x] + [y];
    ClassStep([], x, p);
    ClassStep([x], y, p);
  }

  lemma ClassOfThree(x: Observation, y: Observation, z: Observation, p: real)
    ensures AtPrice([x, y, z], p) == IfAt(x, p) + IfAt(y, p) + IfAt(z, p)
  {
    assert [x, y, z] == [x, y] + [z];
    ClassOfTwo(x, y, p);
    ClassStep([x, y], z, p);
  }

  lemma ThreeClasses(x: Observation, y: Observation, z: Observation, p: real)
    requires x.price == y.price != z.price
    ensures AtPrice([x, y, z], p) == if p == x.price then [x, y] else if p == z.price then [z] else []
    ensures AtPrice([z, x, y], p) == if p == x.price then [x, y] else if p == z.price then [z] else []
  {
    ClassOfThree(x, y, z, p);
    ClassOfThree(z, x, y, p);
  }

  /** Such a book gives what its three live quotes give, listed in order of price. */
  lemma ThreeDecide(s: seq<Observation>, i: nat, j: nat, k: nat)
    requires ThreeLive(s, i, j, k) && NonNegative(s) && Volume(s) > 0.0
    ensures MedianOf(s) == MedianOf([s[i], s[j], s[k]]) == MedianOf([s[k], s[i], s[j]])
  {
    var x, y, z := s[i], s[j], s[k];
    ZeroVolumeIsIgnored(s);
    forall p ensures AtPrice(Live(s), p) == AtPrice([x, y, z], p) == AtPrice([z, x, y], p) {
      LiveClasses(s, i, j, k, p);
      ThreeClasses(x, y, z, p);
    }
    SameClassesSameResult(Live(s), [x, y, z]);
    SameClassesSameResult(Live(s), [z, x, y]);
  }

  /** The lower two of three are kept, and the first of them wins. */
  lemma MedianOfLowerTwo(x: Observation, y: Observation, z: Observation)
    requires x.price <= y.price <= z.price
    requires InBand([x, y, z], 0) && InBand([x, y, z], 1) && !InBand([x, y, z], 2)
    requires Volume([x, y, z]) > 0.0 && x.volume >= y.volume
    ensures MedianOf([x, y, z]) == Some(x.price)
  {
    SortOfThree(x, y, z);
    TrimOfThree([x, y, z]);
    CrossingOfTwo(x, y);
    assert Trim([x, y, z], 3) == [x, y];
  }

  /** 24 before 31 against a single 45: the result is the price of the 45 only if it is the higher one. */
  lemma LightFirst(x: Observation, y: Observation, z: Observation)
    requires x.price == y.price != z.price && (x.volume, y.volume, z.volume) == (24.0, 31.0, 45.0)
    ensures x.price < z.price ==> MedianOf([x, y, z]) == Some(z.price)
    ensures z.price < x.price ==> MedianOf([z, x, y]) == Some(x.price)
  {
    PrefixesOfThree([x, y, z]);
    PrefixesOfThree([z, x, y]);
    if x.price < z.price {
      MedianOfUpperTwo(x, y, z);
    } else {
      MedianOfAllThree(z, x, y);
    }
  }

  /** 31 before 24: it is the other way round. */
  lemma HeavyFirst(x: Observation, y: Observation, z: Observation)
    requires x.price == y.price != z.price && (x.volume, y.volume, z.volume) == (31.0, 24.0, 45.0)
    ensures x.price < z.price ==> MedianOf([x, y, z]) == Some(x.price)
    ensures z.price < x.price ==> MedianOf([z, x, y]) == Some(z.price)
  {
    PrefixesOfThree([x, y, z]);
    PrefixesOfThree([z, x, y]);
    if x.price < z.price {
      MedianOfAllThree(x, y, z);
    } else {
      MedianOfLowerTwo(z, x, y);
    }
  }

  // ----- The criterion

  /** A book at these prices, with whatever volumes. */
  ghost predicate Quotes(obs: seq<Observation>, prices: seq<real>) {
    && |obs| == |prices| && NonNegative(obs)
    && forall i :: 0 <= i < |obs| ==> obs[i].price == prices[i]
  }

  ghost predicate Rearranged(a: seq<Observation>, b: seq<Observation>) {
    multiset(a) == multiset(b)
  }

  /** Whatever the volumes, no rearrangement of the quotes changes the result. */
  ghost predicate OrderIrrelevant(prices: seq<real>) {
    forall a, b :: Quotes(a, prices) && Rearranged(a, b) ==> MedianOf(a) == MedianOf(b)
  }

  ghost predicate AllDistinct(prices: seq<real>) {
    forall i, j :: 0 <= i < j < |prices| ==> prices[i] != prices[j]
  }

  ghost predicate AllEqual(prices: seq<real>) {
    forall i, j :: 0 <= i < j < |prices| ==> prices[i] == prices[j]
  }

  /** The book with volume v at i, w at j, 45 at k and none elsewhere. */
  ghost function Witness(prices: seq<real>, i: nat, j: nat, k: nat, v: real, w: real): (obs: seq<Observation>)
    ensures |obs| == |prices|
    ensures forall t :: 0 <= t < |obs| ==>
              obs[t] == Observation(
                "", prices[t], if t == i then v else if t == j then w else if t == k then 45.0 else 0.0)
  {
    seq(|prices|, t requires 0 <= t < |prices| =>
      Observation("", prices[t], if t == i then v else if t == j then w else if t == k then 45.0 else 0.0))
  }

  lemma VolumeCoversOne(s: seq<Observation>, n: nat, i: nat)
    requires n <= |s| && NonNegative(s) && i < n
    ensures Prefix(s, n) >= s[i].volume
  {
    PrefixMonotone(s, 0, i);
    PrefixMonotone(s, i + 1, n);
  }

  lemma SwapIsRearrangement<T>(s: seq<T>, i: nat, j: nat)
    requires i < j < |s|
    ensures multiset(s[i := s[j]][j := s[i]]) == multiset(s)
  {
  }

  lemma OrderShows(prices: seq<real>, i: nat, j: nat, k: nat)
    requires i < j < |prices| && k < |prices| && prices[i] == prices[j] != prices[k]
    ensures !OrderIrrelevant(prices)
  {
    var a, b := Witness(prices, i, j, k, 24.0, 31.0), Witness(prices, i, j, k, 31.0, 24.0);
    assert b == a[i := a[j]][j := a[i]];
    SwapIsRearrangement(a, i, j);
    assert Quotes(a, prices) && Rearranged(a, b);
    VolumeCoversOne(a, |a|, k);
    VolumeCoversOne(b, |b|, k);
    ThreeDecide(a, i, j, k);
    ThreeDecide(b, i, j, k);
    LightFirst(a[i], a[j], a[k]);
    HeavyFirst(b[i], b[j], b[k]);
  }

  lemma OrderHides(prices: seq<real>, a: seq<Observation>, b: seq<Observation>)
    requires AllDistinct(prices) || AllEqual(prices)
    requires Quotes(a, prices) && Rearranged(a, b)
    ensures MedianOf(a) == MedianOf(b)
  {
    if AllDistinct(prices) {
      OrderIndependence(a, b);
    } else {
      var p := a[0].price;
      assert |multiset(a)| == |a| && |multiset(b)| == |b|;
      forall t | 0 <= t < |b| ensures b[t].price == p {
        assert b[t] in multiset(b) && b[t] in multiset(a);
      }
      OnePriceWins(a, p);
      OnePriceWins(b, p);
    }
  }

  /**
   Order independence can be read off the prices: it holds for every choice of volumes exactly when
   the prices are pairwise distinct or all the same.
   */
  lemma OrderCriterion(prices: seq<real>)
    ensures OrderIrrelevant(prices) <==> AllDistinct(prices) || AllEqual(prices)
  {
    if AllDistinct(prices) || AllEqual(prices) {
      forall a, b | Quotes(a, prices) && Rearranged(a, b) ensures MedianOf(a) == MedianOf(b) {
        OrderHides(prices, a, b);
      }
    } else {
      var i, j :| 0 <= i < j < |prices| && prices[i] == prices[j];
      var m, n :| 0 <= m < n < |prices| && prices[m] != prices[n];
      OrderShows(prices, i, j, if prices[m] == prices[i] then n else m);
    }
  }
}
