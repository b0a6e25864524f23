/**
 The volume-trimmed weighted median over exchange observations: sort by price, keep the
 observations whose volume window meets the middle half of the total volume, and return the
 price at which the kept volume crosses one half.
 */
module Median {
  import opened Outcomes

  /** One exchange quote; prices and volumes are exact reals instead of doubles. */
  datatype Observation = Observation(exchange: string, price: real, volume: real)

  // ----- Sorting: stable, ascending by price

  ghost predicate Sorted(s: seq<Observation>) {
    forall i, j :: 0 <= i < j < |s| ==> s[i].price <= s[j].price
  }

  /** Places o behind every observation that is not dearer. */
  function Insert(o: Observation, s: seq<Observation>): seq<Observation> {
    if s == [] || s[|s| - 1].price <= o.price then s + [o]
    else Insert(o, s[..|s| - 1]) + [s[|s| - 1]]
  }

  function Sort(obs: seq<Observation>): seq<Observation> {
    if obs == [] then [] else Insert(obs[|obs| - 1], Sort(obs[..|obs| - 1]))
  }

  /** The observations quoted at exactly p, in their order of appearance. */
  function AtPrice(s: seq<Observation>, p: real): seq<Observation> {
    if s == [] then []
    else if s[|s| - 1].price == p then AtPrice(s[..|s| - 1], p) + [s[|s| - 1]]
    else AtPrice(s[..|s| - 1], p)
  }

  lemma {:induction false} InsertAdds(o: Observation, s: seq<Observation>)
    ensures multiset(Insert(o, s)) == multiset(s) + multiset{o}
    ensures |Insert(o, s)| == |s| + 1
  {
    if s != [] && s[|s| - 1].price > o.price {
      InsertAdds(o, s[..|s| - 1]);
      assert s == s[..|s| - 1] + [s[|s| - 1]];
    }
  }

  /** Inserting keeps every upper bound of s that also bounds o. */
  lemma {:induction false} InsertBounded(o: Observation, s: seq<Observation>, max: real)
    requires o.price <= max && forall i :: 0 <= i < |s| ==> s[i].price <= max
    ensures forall i :: 0 <= i < |Insert(o, s)| ==> Insert(o, s)[i].price <= max
  {
    if s != [] && s[|s| - 1].price > o.price {
      InsertBounded(o, s[..|s| - 1], max);
    }
  }

  lemma {:induction false} InsertIsSorted(o: Observation, s: seq<Observation>)
    requires Sorted(s)
    ensures Sorted(Insert(o, s))
  {
    if s != [] && s[|s| - 1].price > o.price {
      InsertIsSorted(o, s[..|s| - 1]);
      InsertBounded(o, s[..|s| - 1], s[|s| - 1].price);
    }
  }

  lemma {:induction false} InsertKeepsPriceClasses(o: Observation, s: seq<Observation>, p: real)
    requires Sorted(s)
    ensures AtPrice(Insert(o, s), p) == AtPrice(s, p) + (if o.price == p then [o] else [])
  {
    if s == [] || s[|s| - 1].price <= o.price {
      assert (s + [o])[..|s|] == s;
    } else {
      var init, last := s[..|s| - 1], s[|s| - 1];
      InsertKeepsPriceClasses(o, init, p);
      var t := Insert(o, init) + [last];
      assert t[..|t| - 1] == Insert(o, init);
    }
  }

  lemma SortStep(init: seq<Observation>, sorted: seq<Observation>, last: Observation)
    requires Sorted(sorted) && multiset(sorted) == multiset(init) && |sorted| == |init|
    ensures Sorted(Insert(last, sorted))
    ensures multiset(Insert(last, sorted)) == multiset(init + [last]) && |Insert(last, sorted)| == |init| + 1
  {
    InsertAdds(last, sorted);
    InsertIsSorted(last, sorted);
  }

  lemma {:induction false} SortKeepsElements(obs: seq<Observation>)
    ensures Sorted(Sort(obs))
    ensures multiset(Sort(obs)) == multiset(obs) && |Sort(obs)| == |obs|
  {
    if obs != [] {
      var init, last := obs[..|obs| - 1], obs[|obs| - 1];
      SortKeepsElements(init);
      assert obs == init + [last];
      SortStep(init, Sort(init), last);
    }
  }

  lemma SortClassStep(init: seq<Observation>, last: Observation, p: real)
    requires AtPrice(Sort(init), p) == AtPrice(init, p)
    ensures AtPrice(Insert(last, Sort(init)), p) == AtPrice(init + [last], p)
  {
    SortKeepsElements(init);
    InsertKeepsPriceClasses(last, Sort(init), p);
    ClassStep(init, last, p);
  }

  lemma SplitLast<T>(s: seq<T>)
    requires s != []
    ensures s == s[..|s| - 1] + [s[|s| - 1]]
  {
  }

  lemma {:induction false} SortKeepsClass(obs: seq<Observation>, p: real)
    ensures AtPrice(Sort(obs), p) == AtPrice(obs, p)
  {
    if obs != [] {
      var init, last := obs[..|obs| - 1], obs[|obs| - 1];
      SortKeepsClass(init, p);
      SortClassStep(init, last, p);
      SplitLast(obs);
    }
  }

  /**
   Sort is a stable sort: ordered, a permutation, and within one price the order of arrival
   survives. `StableSortIsUnique` shows that these facts leave no freedom.
   */
  lemma SortIsStable(obs: seq<Observation>)
    ensures Sorted(Sort(obs))
    ensures multiset(Sort(obs)) == multiset(obs)
    ensures |Sort(obs)| == |obs|
    ensures forall p :: AtPrice(Sort(obs), p) == AtPrice(obs, p)
  {
    SortKeepsElements(obs);
    forall p ensures AtPrice(Sort(obs), p) == AtPrice(obs, p) {
      SortKeepsClass(obs, p);
    }
  }

  lemma ClassStep(init: seq<Observation>, last: Observation, p: real)
    ensures AtPrice(init + [last], p) == AtPrice(init, p) + (if last.price == p then [last] else [])
  {
    assert (init + [last])[..|init|] == init;
  }

  lemma {:induction false} AtPriceCounts(s: seq<Observation>, p: real, o: Observation)
    ensures multiset(AtPrice(s, p))[o] == if o.price == p then multiset(s)[o] else 0
  {
    if s != [] {
      AtPriceCounts(s[..|s| - 1], p, o);
      assert s == s[..|s| - 1] + [s[|s| - 1]];
    }
  }

  lemma {:induction false} AtPriceAbsent(s: seq<Observation>, p: real)
    requires forall i :: 0 <= i < |s| ==> s[i].price != p
    ensures AtPrice(s, p) == []
  {
    if s != [] {
      AtPriceAbsent(s[..|s| - 1], p);
    }
  }

  /** If the classes of s and t agree, the dearest price of s is quoted in t too. */
  lemma TopPriceOccurs(s: seq<Observation>, t: seq<Observation>)
    requires s != [] && Sorted(t)
    requires AtPrice(s, s[|s| - 1].price) == AtPrice(t, s[|s| - 1].price)
    ensures t != [] && s[|s| - 1].price <= t[|t| - 1].price
  {
    var p := s[|s| - 1].price;
    if forall i :: 0 <= i < |t| ==> t[i].price != p {
      AtPriceAbsent(t, p);
      assert false;
    }
  }

  ghost predicate SameClasses(s: seq<Observation>, t: seq<Observation>) {
    forall p :: AtPrice(s, p) == AtPrice(t, p)
  }

  lemma SameTopPrice(s: seq<Observation>, t: seq<Observation>)
    requires Sorted(s) && Sorted(t) && SameClasses(s, t) && s != []
    ensures t != [] && s[|s| - 1].price == t[|t| - 1].price
  {
    assert AtPrice(s, s[|s| - 1].price) == AtPrice(t, s[|s| - 1].price);
    TopPriceOccurs(s, t);
    assert AtPrice(s, t[|t| - 1].price) == AtPrice(t, t[|t| - 1].price);
    TopPriceOccurs(t, s);
  }

  lemma SameTop(s: seq<Observation>, t: seq<Observation>)
    requires SameClasses(s, t) && s != [] && t != [] && s[|s| - 1].price == t[|t| - 1].price
    ensures s[|s| - 1] == t[|t| - 1] && SameClasses(s[..|s| - 1], t[..|t| - 1])
  {
    var s', t', a, b := s[..|s| - 1], t[..|t| - 1], s[|s| - 1], t[|t| - 1];
    assert AtPrice(s, a.price) == AtPrice(t, a.price);
    DropTop(AtPrice(s', a.price), AtPrice(t', a.price), a, b);
    forall x ensures AtPrice(s', x) == AtPrice(t', x) {
      assert AtPrice(s, x) == AtPrice(t, x);
    }
  }

  /** Two ordered lists that agree inside every price class are the same list. */
  lemma {:induction false} StableSortIsUnique(s: seq<Observation>, t: seq<Observation>)
    requires Sorted(s) && Sorted(t) && SameClasses(s, t)
    ensures s == t
    decreases |s|
  {
    if s == [] {
      if t != [] {
        SameTopPrice(t, s);
        assert false;
      }
    } else {
      SameTopPrice(s, t);
      SameTop(s, t);
      StableSortIsUnique(s[..|s| - 1], t[..|t| - 1]);
      assert s == s[..|s| - 1] + [s[|s| - 1]] && t == t[..|t| - 1] + [t[|t| - 1]];
    }
  }

  lemma DropTop<T>(s: seq<T>, t: seq<T>, a: T, b: T)
    requires s + [a] == t + [b]
    ensures s == t && a == b
  {
    assert (s + [a])[|s|] == a;
    assert |s| == |t|;
    assert (s + [a])[..|s|] == s && (t + [b])[..|t|] == t;
  }

  // ----- Volumes

  /** Total volume of the first n observations. */
  function Prefix(s: seq<Observation>, n: nat): real
    requires n <= |s|
  {
    if n == 0 then 0.0 else Prefix(s, n - 1) + s[n - 1].volume
  }

  function Volume(s: seq<Observation>): real {
    Prefix(s, |s|)
  }

  /** Volume of those among the first n observations that satisfy `which`. */
  ghost function PrefixOf(s: seq<Observation>, n: nat, which: Observation -> bool): real
    requires n <= |s|
  {
    if n == 0 then 0.0 else PrefixOf(s, n - 1, which) + (if which(s[n - 1]) then s[n - 1].volume else 0.0)
  }

  ghost function VolumeOf(s: seq<Observation>, which: Observation -> bool): real {
    PrefixOf(s, |s|, which)
  }

  ghost predicate NonNegative(s: seq<Observation>) {
    forall i :: 0 <= i < |s| ==> s[i].volume >= 0.0
  }

  lemma {:induction false} PrefixMonotone(s: seq<Observation>, i: nat, j: nat)
    requires i <= j <= |s| && NonNegative(s)
    ensures Prefix(s, i) <= Prefix(s, j)
  {
    if i < j {
      PrefixMonotone(s, i, j - 1);
    }
  }

  lemma {:induction false} PrefixOfAgrees(s: seq<Observation>, t: seq<Observation>, n: nat, which: Observation -> bool)
    requires n <= |s| && n <= |t| && s[..n] == t[..n]
    ensures PrefixOf(s, n, which) == PrefixOf(t, n, which)
    ensures Prefix(s, n) == Prefix(t, n)
  {
    if n > 0 {
      assert s[..n][..n - 1] == s[..n - 1] && t[..n][..n - 1] == t[..n - 1];
      assert s[n - 1] == s[..n][n - 1] == t[n - 1];
      PrefixOfAgrees(s, t, n - 1, which);
    }
  }

  lemma AppendVolume(s: seq<Observation>, o: Observation, which: Observation -> bool)
    ensures Volume(s + [o]) == Volume(s) + o.volume
    ensures VolumeOf(s + [o], which) == VolumeOf(s, which) + (if which(o) then o.volume else 0.0)
  {
    PrefixOfAgrees(s, s + [o], |s|, which);
  }

  lemma {:induction false} SlicePrefix(s: seq<Observation>, i: nat, j: nat, n: nat)
    requires i <= j <= |s| && n <= j - i
    ensures Prefix(s[i..j], n) == Prefix(s, i + n) - Prefix(s, i)
  {
    if n > 0 {
      SlicePrefix(s, i, j, n - 1);
    }
  }

  lemma {:induction false} InsertVolume(o: Observation, s: seq<Observation>, which: Observation -> bool)
    ensures VolumeOf(Insert(o, s), which) == VolumeOf(s, which) + (if which(o) then o.volume else 0.0)
    ensures Volume(Insert(o, s)) == Volume(s) + o.volume
  {
    if s == [] || s[|s| - 1].price <= o.price {
      AppendVolume(s, o, which);
    } else {
      var init, last := s[..|s| - 1], s[|s| - 1];
      InsertVolume(o, init, which);
      AppendVolume(Insert(o, init), last, which);
      AppendVolume(init, last, which);
      assert s == init + [last];
    }
  }

  lemma {:induction false} SortKeepsVolume(obs: seq<Observation>, which: Observation -> bool)
    ensures VolumeOf(Sort(obs), which) == VolumeOf(obs, which)
    ensures Volume(Sort(obs)) == Volume(obs)
  {
    if obs != [] {
      var init, last := obs[..|obs| - 1], obs[|obs| - 1];
      SortKeepsVolume(init, which);
      InsertVolume(last, Sort(init), which);
      AppendVolume(init, last, which);
      assert obs == init + [last];
    }
  }

  // ----- What the calculator computes

  /** The lower trim bound, a quarter of the total volume. */
  function LowCut(total: real): real { 0.25 * total }

  /** The upper trim bound, three quarters of the total volume. */
  function HighCut(total: real): real { 0.75 * total }

  /** The i-th volume window meets the open band between the two cuts. */
  predicate InBand(s: seq<Observation>, i: nat)
    requires i < |s|
  {
    Prefix(s, i + 1) > LowCut(Volume(s)) && Prefix(s, i) < HighCut(Volume(s))
  }

  /** What trimming keeps of the first n observations. */
  function Trim(s: seq<Observation>, n: nat): seq<Observation>
    requires n <= |s|
  {
    if n == 0 then [] else if InBand(s, n - 1) then Trim(s, n - 1) + [s[n - 1]] else Trim(s, n - 1)
  }

  /** Where the running volume of `kept` first reaches one half, looking from index i on. */
  function CrossingFrom(kept: seq<Observation>, i: nat): (m: nat)
    requires i < |kept|
    ensures i <= m < |kept|
    decreases |kept| - i
  {
    if Prefix(kept, i + 1) >= Volume(kept) / 2.0 || i + 1 == |kept| then i
    else CrossingFrom(kept, i + 1)
  }

  function PlainMedian(s: seq<Observation>): real
    requires s != []
  {
    var mid := |s| / 2;
    if |s| % 2 == 0 then (s[mid - 1].price + s[mid].price) / 2.0 else s[mid].price
  }

  /** What the trimming leaves, with everything as the fallback. */
  function Kept(s: seq<Observation>): (kept: seq<Observation>)
    requires s != []
    ensures kept != []
  {
    if Trim(s, |s|) == [] then s else Trim(s, |s|)
  }

  function MedianOfKept(kept: seq<Observation>): real
    requires kept != []
  {
    kept[CrossingFrom(kept, 0)].price
  }

  function MedianOfSorted(s: seq<Observation>): real
    requires s != []
  {
    if Volume(s) <= 0.0 then PlainMedian(s) else MedianOfKept(Kept(s))
  }

  function MedianOf(obs: seq<Observation>): Option<real> {
    if obs == [] then None
    else if |obs| == 1 then Some(obs[0].price)
    else
      SortIsStable(obs);
      Some(MedianOfSorted(Sort(obs)))
  }

  /** The trimming loop. */
  method TrimToBand(sorted: seq<Observation>, totalVolume: real) returns (kept: seq<Observation>)
    requires totalVolume == Volume(sorted)
    ensures kept == Trim(sorted, |sorted|)
  {
    var lowCut := LowCut(totalVolume);
    var highCut := HighCut(totalVolume);
    kept := [];
    var cum := 0.0;
    for i := 0 to |sorted|
      invariant cum == Prefix(sorted, i)
      invariant kept == Trim(sorted, i)
    {
      var cumAfter := cum + sorted[i].volume;
      if cumAfter > lowCut && cum < highCut {
        kept := kept + [sorted[i]];
      }
      cum := cumAfter;
    }
  }

  /** The crossing loop, with the last price as its fallback. */
  method PriceAtHalf(kept: seq<Observation>) returns (price: real)
    requires kept != []
    ensures price == MedianOfKept(kept)
  {
    var half := Volume(kept) / 2.0;
    var acc := 0.0;
    for i := 0 to |kept|
      invariant acc == Prefix(kept, i)
      invariant i < |kept| ==> CrossingFrom(kept, 0) == CrossingFrom(kept, i)
      invariant i == |kept| ==> CrossingFrom(kept, 0) == |kept| - 1
    {
      acc := acc + kept[i].volume;
      if acc >= half {
        return kept[i].price;
      }
    }
    return kept[|kept| - 1].price;
  }

  method VolumeTrimmedMedian(obs: seq<Observation>) returns (r: Option<real>)
    ensures r == MedianOf(obs)
    ensures r.None? <==> obs == []
  {
    if obs == [] {
      return None;
    }
    if |obs| == 1 {
      return Some(obs[0].price);
    }
    var sorted := Sort(obs);
    SortIsStable(obs);
    var totalVolume := Volume(sorted);
    if totalVolume <= 0.0 {
      return Some(PlainMedian(sorted));
    }
    var kept := TrimToBand(sorted, totalVolume);
    if kept == [] {
      kept := sorted;
    }
    var price := PriceAtHalf(kept);
    return Some(price);
  }

  // ----- Trim exactness

  /** The first index at or after i whose prefix volume, itself included, exceeds `cut`. */
  ghost function FirstAbove(s: seq<Observation>, cut: real, i: nat): (k: nat)
    requires i <= |s| && Prefix(s, i) <= cut < Volume(s)
    ensures i <= k < |s|
    ensures Prefix(s, k) <= cut < Prefix(s, k + 1)
    decreases |s| - i
  {
    if Prefix(s, i + 1) > cut then i else FirstAbove(s, cut, i + 1)
  }

  /** The first length beyond i whose prefix volume reaches `cut`. */
  ghost function FirstReaching(s: seq<Observation>, cut: real, i: nat): (k: nat)
    requires i <= |s| && Prefix(s, i) < cut <= Volume(s)
    ensures i < k <= |s|
    ensures Prefix(s, k - 1) < cut <= Prefix(s, k)
    decreases |s| - i
  {
    if Prefix(s, i + 1) >= cut then i + 1 else FirstReaching(s, cut, i + 1)
  }

  /** The band is one contiguous run: from the window that crosses the low cut ... */
  ghost function BandStart(s: seq<Observation>): (lo: nat)
    requires Volume(s) > 0.0
    ensures lo < |s|
    ensures Prefix(s, lo) <= LowCut(Volume(s)) < Prefix(s, lo + 1)
  {
    FirstAbove(s, LowCut(Volume(s)), 0)
  }

  /** ... up to the window that reaches the high cut. */
  ghost function BandEnd(s: seq<Observation>): (hi: nat)
    requires Volume(s) > 0.0
    ensures 0 < hi <= |s|
    ensures Prefix(s, hi - 1) < HighCut(Volume(s)) <= Prefix(s, hi)
  {
    FirstReaching(s, HighCut(Volume(s)), 0)
  }

  lemma BandIsNonEmpty(s: seq<Observation>)
    requires NonNegative(s) && Volume(s) > 0.0
    ensures BandStart(s) < BandEnd(s)
  {
    if BandEnd(s) <= BandStart(s) {
      PrefixMonotone(s, BandEnd(s), BandStart(s));
      assert false;
    }
  }

  /** An observation is kept exactly when its position lies in the run. */
  lemma InBandIsRun(s: seq<Observation>, i: nat)
    requires NonNegative(s) && Volume(s) > 0.0 && i < |s|
    ensures InBand(s, i) <==> BandStart(s) <= i < BandEnd(s)
  {
    var lo, hi := BandStart(s), BandEnd(s);
    if i < lo {
      PrefixMonotone(s, i + 1, lo);
    } else {
      PrefixMonotone(s, lo + 1, i + 1);
      if i < hi {
        PrefixMonotone(s, i, hi - 1);
      } else {
        PrefixMonotone(s, hi, i);
      }
    }
  }

  lemma SliceSnoc<T>(s: seq<T>, lo: nat, n: nat)
    requires lo < n <= |s|
    ensures s[lo..n] == s[lo..n - 1] + [s[n - 1]]
  {
  }

  lemma {:induction false} TrimOfPrefix(s: seq<Observation>, lo: nat, hi: nat, n: nat)
    requires n <= |s| && lo <= hi <= |s|
    requires forall i :: 0 <= i < |s| ==> (InBand(s, i) <==> lo <= i < hi)
    ensures Trim(s, n) == if n <= lo then [] else if n <= hi then s[lo..n] else s[lo..hi]
  {
    if n > 0 {
      TrimOfPrefix(s, lo, hi, n - 1);
      assert InBand(s, n - 1) <==> lo <= n - 1 < hi;
      if lo < n <= hi {
        SliceSnoc(s, lo, n);
      }
    }
  }

  /**
   With positive volume, trimming keeps exactly the run from the low-cut window to the high-cut
   window; the run is never empty, so the first fallback is dead.
   */
  lemma TrimExact(s: seq<Observation>)
    requires NonNegative(s) && Volume(s) > 0.0
    ensures BandStart(s) < BandEnd(s)
    ensures Trim(s, |s|) == s[BandStart(s)..BandEnd(s)] != []
  {
    var lo, hi := BandStart(s), BandEnd(s);
    BandIsNonEmpty(s);
    forall i | 0 <= i < |s| ensures InBand(s, i) <==> lo <= i < hi {
      InBandIsRun(s, i);
    }
    TrimOfPrefix(s, lo, hi, |s|);
  }

  lemma SliceVolume(s: seq<Observation>, lo: nat, hi: nat)
    requires lo <= hi <= |s|
    requires Prefix(s, lo) <= LowCut(Volume(s)) && HighCut(Volume(s)) <= Prefix(s, hi)
    ensures Volume(s[lo..hi]) == Prefix(s, hi) - Prefix(s, lo) >= Volume(s) / 2.0
  {
    SlicePrefix(s, lo, hi, hi - lo);
  }

  /** The kept run holds at least half of the volume. */
  lemma KeptVolume(s: seq<Observation>)
    requires NonNegative(s) && Volume(s) > 0.0
    ensures Volume(Trim(s, |s|)) == Prefix(s, BandEnd(s)) - Prefix(s, BandStart(s)) >= Volume(s) / 2.0
  {
    TrimExact(s);
    SliceVolume(s, BandStart(s), BandEnd(s));
  }

  /** m is the first position at which the running volume reaches half of the total. */
  ghost predicate IsWeightedMedianAt(kept: seq<Observation>, m: nat) {
    && m < |kept|
    && Prefix(kept, m) < Volume(kept) / 2.0
    && Prefix(kept, m + 1) >= Volume(kept) / 2.0
  }

  lemma {:induction false} CrossingIsMedian(kept: seq<Observation>, i: nat)
    requires i < |kept| && Volume(kept) > 0.0 && Prefix(kept, i) < Volume(kept) / 2.0
    ensures IsWeightedMedianAt(kept, CrossingFrom(kept, i))
    decreases |kept| - i
  {
    if Prefix(kept, i + 1) < Volume(kept) / 2.0 {
      CrossingIsMedian(kept, i + 1);
    }
  }

  /** The position in the sorted list from which the result is taken. */
  ghost function ResultIndex(s: seq<Observation>): (m: nat)
    requires NonNegative(s) && Volume(s) > 0.0
  {
    TrimExact(s);
    BandStart(s) + CrossingFrom(Trim(s, |s|), 0)
  }

  /**
   With positive volume the result is the price at the weighted median of the kept run; neither
   fallback is taken.
   */
  lemma ResultIsMedianOfBand(s: seq<Observation>)
    requires NonNegative(s) && Volume(s) > 0.0
    ensures BandStart(s) <= ResultIndex(s) < BandEnd(s)
    ensures MedianOfSorted(s) == s[ResultIndex(s)].price
    ensures IsWeightedMedianAt(s[BandStart(s)..BandEnd(s)], ResultIndex(s) - BandStart(s))
  {
    TrimExact(s);
    KeptVolume(s);
    CrossingIsMedian(Trim(s, |s|), 0);
  }

  lemma RankOfIndex(s: seq<Observation>, lo: nat, hi: nat, m: nat)
    requires NonNegative(s) && lo <= m < hi <= |s|
    requires Prefix(s, lo) <= LowCut(Volume(s)) && HighCut(Volume(s)) <= Prefix(s, hi)
    requires IsWeightedMedianAt(s[lo..hi], m - lo)
    ensures Prefix(s, m + 1) >= 0.375 * Volume(s)
    ensures Volume(s) - Prefix(s, m) > 0.375 * Volume(s)
  {
    SliceVolume(s, lo, hi);
    SlicePrefix(s, lo, hi, m - lo);
    SlicePrefix(s, lo, hi, m + 1 - lo);
    PrefixMonotone(s, 0, lo);
    PrefixMonotone(s, hi, |s|);
    RankFromBand(Volume(s), Prefix(s, lo), Prefix(s, hi), Prefix(s, m), Prefix(s, m + 1));
  }

  /** Band and result position of a list, with what is known about them. */
  lemma Locate(s: seq<Observation>) returns (lo: nat, hi: nat, m: nat)
    requires NonNegative(s) && Volume(s) > 0.0
    ensures lo <= m < hi <= |s| && m == ResultIndex(s)
    ensures Prefix(s, lo) <= LowCut(Volume(s)) && HighCut(Volume(s)) <= Prefix(s, hi)
    ensures IsWeightedMedianAt(s[lo..hi], m - lo)
  {
    lo, hi, m := BandStart(s), BandEnd(s), ResultIndex(s);
    ResultIsMedianOfBand(s);
  }

  /** The volume rank of the result is at least three eighths from either end of the whole list. */
  lemma ResultRank(s: seq<Observation>)
    requires NonNegative(s) && Volume(s) > 0.0
    ensures ResultIndex(s) < |s|
    ensures Prefix(s, ResultIndex(s) + 1) >= 0.375 * Volume(s)
    ensures Volume(s) - Prefix(s, ResultIndex(s)) > 0.375 * Volume(s)
  {
    var lo, hi, m := Locate(s);
    RankOfIndex(s, lo, hi, m);
  }

  lemma RankFromBand(total: real, lo: real, hi: real, before: real, upto: real)
    requires 0.0 <= lo <= 0.25 * total && 0.75 * total <= hi <= total
    requires before - lo < (hi - lo) / 2.0 <= upto - lo
    ensures upto >= 0.375 * total && total - before > 0.375 * total
  {
  }

  /**
   Without volume the result splits the list: the lower half, the middle one included, is not dearer,
   and the upper half is not cheaper.
   */
  lemma PlainMedianSplits(s: seq<Observation>)
    requires Sorted(s) && s != [] && Volume(s) <= 0.0
    ensures forall i :: 0 <= i && 2 * i < |s| ==> s[i].price <= MedianOfSorted(s)
    ensures forall i :: i < |s| <= 2 * i + 1 ==> MedianOfSorted(s) <= s[i].price
    ensures |s| % 2 == 0 ==> MedianOfSorted(s) - s[|s| / 2 - 1].price == s[|s| / 2].price - MedianOfSorted(s)
  {
  }

  // ----- Outlier robustness

  lemma {:induction false} AllOfPrefix(s: seq<Observation>, which: Observation -> bool, i: nat, n: nat)
    requires i <= n <= |s| && NonNegative(s)
    requires forall k :: 0 <= k < i ==> which(s[k])
    ensures PrefixOf(s, n, which) >= Prefix(s, i)
  {
    if n > 0 {
      AllOfPrefix(s, which, if i < n then i else n - 1, n - 1);
    }
  }

  lemma {:induction false} AllOfSuffix(s: seq<Observation>, which: Observation -> bool, i: nat, n: nat)
    requires i <= n <= |s| && NonNegative(s)
    requires forall k :: i <= k < |s| ==> which(s[k])
    ensures PrefixOf(s, n, which) >= Prefix(s, n) - Prefix(s, i)
  {
    if i < n {
      AllOfSuffix(s, which, i, n - 1);
    } else {
      AllOfPrefix(s, which, 0, n);
    }
  }

  ghost predicate BoundedBelow(obs: seq<Observation>, bad: Observation -> bool, x: real) {
    exists i :: 0 <= i < |obs| && !bad(obs[i]) && obs[i].price <= x
  }

  ghost predicate BoundedAbove(obs: seq<Observation>, bad: Observation -> bool, x: real) {
    exists i :: 0 <= i < |obs| && !bad(obs[i]) && x <= obs[i].price
  }

  lemma SortedRobustBelow(s: seq<Observation>, bad: Observation -> bool)
    requires Sorted(s) && NonNegative(s) && Volume(s) > 0.0
    requires VolumeOf(s, bad) < 0.375 * Volume(s)
    ensures BoundedBelow(s, bad, MedianOfSorted(s))
  {
    ResultRank(s);
    ResultIsMedianOfBand(s);
    var m := ResultIndex(s);
    if forall k :: 0 <= k < m + 1 ==> bad(s[k]) {
      AllOfPrefix(s, bad, m + 1, |s|);
      assert false;
    }
  }

  lemma SortedRobustAbove(s: seq<Observation>, bad: Observation -> bool)
    requires Sorted(s) && NonNegative(s) && Volume(s) > 0.0
    requires VolumeOf(s, bad) <= 0.375 * Volume(s)
    ensures BoundedAbove(s, bad, MedianOfSorted(s))
  {
    ResultRank(s);
    ResultIsMedianOfBand(s);
    var m := ResultIndex(s);
    if forall k :: m <= k < |s| ==> bad(s[k]) {
      AllOfSuffix(s, bad, m, |s|);
      assert false;
    }
  }

  lemma SortedMembers(obs: seq<Observation>)
    ensures forall i :: 0 <= i < |Sort(obs)| ==> Sort(obs)[i] in obs
  {
    SortIsStable(obs);
    forall i | 0 <= i < |Sort(obs)| ensures Sort(obs)[i] in obs {
      assert Sort(obs)[i] in multiset(Sort(obs));
      assert Sort(obs)[i] in multiset(obs);
    }
  }

  lemma MedianViaSort(obs: seq<Observation>)
    requires NonNegative(obs) && Volume(obs) > 0.0
    ensures Sorted(Sort(obs)) && NonNegative(Sort(obs)) && Volume(Sort(obs)) > 0.0
    ensures MedianOf(obs) == Some(MedianOfSorted(Sort(obs)))
  {
    SortIsStable(obs);
    SortedMembers(obs);
    SortKeepsVolume(obs, o => true);
    ResultIsMedianOfBand(Sort(obs));
  }

  /**
   Breakdown point of the calculator: observations that hold less than three eighths of the
   volume cannot move the result outside the price range of the others, however they are priced.
   */
  lemma OutlierRobustness(obs: seq<Observation>, bad: Observation -> bool)
    requires NonNegative(obs) && Volume(obs) > 0.0
    ensures MedianOf(obs).Some?
    ensures VolumeOf(obs, bad) < 0.375 * Volume(obs) ==> BoundedBelow(obs, bad, MedianOf(obs).value)
    ensures VolumeOf(obs, bad) <= 0.375 * Volume(obs) ==> BoundedAbove(obs, bad, MedianOf(obs).value)
  {
    var s := Sort(obs);
    MedianViaSort(obs);
    SortKeepsVolume(obs, bad);
    SortedMembers(obs);
    if VolumeOf(obs, bad) < 0.375 * Volume(obs) {
      SortedRobustBelow(s, bad);
    }
    if VolumeOf(obs, bad) <= 0.375 * Volume(obs) {
      SortedRobustAbove(s, bad);
    }
  }

  // ----- Without volume, heads count

  ghost function Count(s: seq<Observation>, which: Observation -> bool): nat {
    if s == [] then 0 else Count(s[..|s| - 1], which) + (if which(s[|s| - 1]) then 1 else 0)
  }

  lemma CountSnoc(s: seq<Observation>, o: Observation, which: Observation -> bool)
    ensures Count(s + [o], which) == Count(s, which) + (if which(o) then 1 else 0)
  {
    assert (s + [o])[..|s|] == s;
  }

  lemma {:induction false} InsertCount(o: Observation, s: seq<Observation>, which: Observation -> bool)
    ensures Count(Insert(o, s), which) == Count(s, which) + (if which(o) then 1 else 0)
  {
    CountSnoc(s, o, which);
    if s != [] && s[|s| - 1].price > o.price {
      InsertCount(o, s[..|s| - 1], which);
      CountSnoc(Insert(o, s[..|s| - 1]), s[|s| - 1], which);
    }
  }

  lemma {:induction false} SortKeepsCount(obs: seq<Observation>, which: Observation -> bool)
    ensures Count(Sort(obs), which) == Count(obs, which)
  {
    if obs != [] {
      SortKeepsCount(obs[..|obs| - 1], which);
      InsertCount(obs[|obs| - 1], Sort(obs[..|obs| - 1]), which);
    }
  }

  /** A run of bad observations is no longer than their number. */
  lemma {:induction false} CountOfRun(s: seq<Observation>, i: nat, j: nat, bad: Observation -> bool)
    requires i <= j <= |s| && forall k :: i <= k < j ==> bad(s[k])
    ensures Count(s, bad) >= j - i
  {
    if s != [] {
      CountOfRun(s[..|s| - 1], if i < |s| then i else i - 1, if j < |s| then j else j - 1, bad);
    }
  }

  lemma SortedPlainRobust(s: seq<Observation>, bad: Observation -> bool)
    requires Sorted(s) && s != [] && Volume(s) <= 0.0 && 2 * Count(s, bad) < |s|
    ensures BoundedBelow(s, bad, MedianOfSorted(s)) && BoundedAbove(s, bad, MedianOfSorted(s))
  {
    PlainMedianSplits(s);
    var lower, upper := (|s| + 1) / 2, |s| / 2;
    if forall k :: 0 <= k < lower ==> bad(s[k]) {
      CountOfRun(s, 0, lower, bad);
      assert false;
    }
    var i :| 0 <= i < lower && !bad(s[i]);
    assert s[i].price <= MedianOfSorted(s);
    if forall k :: upper <= k < |s| ==> bad(s[k]) {
      CountOfRun(s, upper, |s|, bad);
      assert false;
    }
    var j :| upper <= j < |s| && !bad(s[j]);
    assert MedianOfSorted(s) <= s[j].price;
  }

  /** Without any volume, fewer than half of the observations cannot move the result outside the others' range. */
  lemma PlainRobustness(obs: seq<Observation>, bad: Observation -> bool)
    requires Volume(obs) <= 0.0 && 2 * Count(obs, bad) < |obs|
    ensures MedianOf(obs).Some?
    ensures BoundedBelow(obs, bad, MedianOf(obs).value) && BoundedAbove(obs, bad, MedianOf(obs).value)
  {
    if |obs| == 1 {
      CountOfRun(obs, 0, if bad(obs[0]) then 1 else 0, bad);
      assert !bad(obs[0]);
    } else {
      SortIsStable(obs);
      SortKeepsVolume(obs, bad);
      SortKeepsCount(obs, bad);
      SortedPlainRobust(Sort(obs), bad);
      SortedMembers(obs);
    }
  }

  lemma SortOfTwo(a: Observation, b: Observation)
    requires a.price <= b.price
    ensures Sort([a, b]) == [a, b]
  {
    assert [a, b][..1] == [a] && [a][..0] == [];
    assert Sort([a]) == Insert(a, []) == [a];
  }

  lemma TwoWithoutVolume(a: Observation, b: Observation)
    requires a.price <= b.price && a.volume == b.volume == 0.0
    ensures MedianOf([a, b]) == Some((a.price + b.price) / 2.0)
  {
    SortOfTwo(a, b);
    assert Prefix([a, b], 1) == 0.0;
    assert Volume([a, b]) == Prefix([a, b], 1) + b.volume;
  }

  /** Half of them can: here one of two. */
  lemma PlainBoundIsTight()
    ensures var cheap := Observation("a", 1.0, 0.0);
            var obs := [cheap, Observation("b", 2.0, 0.0)];
            && 2 * Count(obs, o => o == cheap) == |obs|
            && MedianOf(obs) == Some(1.5)
            && !BoundedBelow(obs, o => o == cheap, 1.5)
  {
    var a, b := Observation("a", 1.0, 0.0), Observation("b", 2.0, 0.0);
    var bad := (o: Observation) => o == a;
    TwoWithoutVolume(a, b);
    assert [a, b] == [a] + [b] && [a] == [] + [a];
    CountSnoc([], a, bad);
    CountSnoc([a], b, bad);
  }

  /** At least three eighths of the volume is priced at or below the result, more than that at or above it. */
  lemma ResultVolumeRank(obs: seq<Observation>)
    requires NonNegative(obs) && Volume(obs) > 0.0
    ensures MedianOf(obs).Some?
    ensures VolumeOf(obs, (o: Observation) => o.price <= MedianOf(obs).value) >= 0.375 * Volume(obs)
    ensures VolumeOf(obs, (o: Observation) => o.price >= MedianOf(obs).value) > 0.375 * Volume(obs)
  {
    MedianViaSort(obs);
    var below := (o: Observation) => o.price <= MedianOf(obs).value;
    var above := (o: Observation) => o.price >= MedianOf(obs).value;
    if VolumeOf(obs, below) < 0.375 * Volume(obs) {
      OutlierRobustness(obs, below);
      assert false;
    }
    if VolumeOf(obs, above) <= 0.375 * Volume(obs) {
      OutlierRobustness(obs, above);
      assert false;
    }
  }

  // ----- The bound is exact

  lemma SortOfThree(a: Observation, b: Observation, c: Observation)
    requires a.price <= b.price <= c.price
    ensures Sort([a, b, c]) == [a, b, c]
  {
    assert [a, b, c][..2] == [a, b] && [a, b][..1] == [a] && [a][..0] == [];
    assert Sort([a]) == [a];
    assert Sort([a, b]) == [a, b];
  }

  lemma PrefixesOfThree(s: seq<Observation>)
    requires |s| == 3
    ensures Prefix(s, 1) == s[0].volume
    ensures Prefix(s, 2) == s[0].volume + s[1].volume
    ensures Volume(s) == s[0].volume + s[1].volume + s[2].volume
  {
    assert Prefix(s, 1) == s[0].volume;
    assert Prefix(s, 2) == Prefix(s, 1) + s[1].volume;
  }

  lemma VolumeOfOneInThree(s: seq<Observation>, o: Observation)
    requires |s| == 3
    ensures VolumeOf(s, x => x == o) == (if s[0] == o then o.volume else 0.0)
                                      + (if s[1] == o then o.volume else 0.0) + (if s[2] == o then o.volume else 0.0)
  {
    var which := (x: Observation) => x == o;
    assert PrefixOf(s, 1, which) == if s[0] == o then o.volume else 0.0;
    assert PrefixOf(s, 2, which) == PrefixOf(s, 1, which) + if s[1] == o then o.volume else 0.0;
  }

  lemma TrimOfThree(s: seq<Observation>)
    requires |s| == 3
    ensures Trim(s, 3) == (if InBand(s, 0) then [s[0]] else []) + (if InBand(s, 1) then [s[1]] else [])
                        + (if InBand(s, 2) then [s[2]] else [])
  {
    assert Trim(s, 1) == if InBand(s, 0) then [s[0]] else [];
    assert Trim(s, 2) == Trim(s, 1) + if InBand(s, 1) then [s[1]] else [];
  }

  lemma CrossingOfTwo(a: Observation, b: Observation)
    ensures CrossingFrom([a, b], 0) == if a.volume >= b.volume then 0 else 1
  {
    assert Prefix([a, b], 1) == a.volume;
  }

  /** Three eighths cannot be improved downwards: here the cheap quote holds exactly that share and wins. */
  lemma LowerBoundIsTight()
    ensures var cheap := Observation("a", 1.0, 3.0);
            var obs := [cheap, Observation("b", 2.0, 3.0), Observation("c", 3.0, 2.0)];
            && VolumeOf(obs, o => o == cheap) == 0.375 * Volume(obs)
            && MedianOf(obs) == Some(1.0)
            && !BoundedBelow(obs, o => o == cheap, 1.0)
  {
    var a, b, c := Observation("a", 1.0, 3.0), Observation("b", 2.0, 3.0), Observation("c", 3.0, 2.0);
    var obs := [a, b, c];
    SortOfThree(a, b, c);
    PrefixesOfThree(obs);
    TrimOfThree(obs);
    VolumeOfOneInThree(obs, a);
    CrossingOfTwo(a, b);
    assert Trim(obs, 3) == [a, b];
  }

  /** Nor upwards: any excess over three eighths can be enough to win with a dear quote. */
  lemma UpperBoundIsTight(eps: real)
    requires 0.0 < eps < 1.0
    ensures var dear := Observation("c", 3.0, 3.0 + eps);
            var obs := [Observation("a", 1.0, 2.0), Observation("b", 2.0, 3.0 - eps), dear];
            && VolumeOf(obs, o => o == dear) == 0.375 * Volume(obs) + eps
            && MedianOf(obs) == Some(3.0)
            && !BoundedAbove(obs, o => o == dear, 3.0)
  {
    var a, b, c := Observation("a", 1.0, 2.0), Observation("b", 2.0, 3.0 - eps), Observation("c", 3.0, 3.0 + eps);
    var obs := [a, b, c];
    SortOfThree(a, b, c);
    PrefixesOfThree(obs);
    TrimOfThree(obs);
    VolumeOfOneInThree(obs, c);
    CrossingOfTwo(b, c);
    assert Trim(obs, 3) == [b, c];
  }

  // ----- Order independence

  /** The result depends on the input order only through the order inside each price class. */
  lemma SameClassesSameResult(a: seq<Observation>, b: seq<Observation>)
    requires SameClasses(a, b)
    ensures MedianOf(a) == MedianOf(b) && |a| == |b|
  {
    SortIsStable(a);
    SortIsStable(b);
    forall p ensures AtPrice(Sort(a), p) == AtPrice(Sort(b), p) {
      assert AtPrice(a, p) == AtPrice(b, p);
    }
    StableSortIsUnique(Sort(a), Sort(b));
    if |a| == 1 {
      assert a[..0] == b[..0] == [];
      assert AtPrice(a, a[0].price) == [a[0]];
      assert AtPrice(b, b[0].price) == [b[0]];
    }
  }

  ghost predicate DistinctPrices(s: seq<Observation>) {
    forall i, j :: 0 <= i < j < |s| ==> s[i].price != s[j].price
  }

  lemma {:induction false} DistinctClassesAreSmall(s: seq<Observation>, p: real)
    requires DistinctPrices(s)
    ensures |AtPrice(s, p)| <= 1
  {
    if s != [] {
      if s[|s| - 1].price == p {
        AtPriceAbsent(s[..|s| - 1], p);
      } else {
        DistinctClassesAreSmall(s[..|s| - 1], p);
      }
    }
  }

  lemma ShortPermutation<T>(s: seq<T>, t: seq<T>)
    requires multiset(s) == multiset(t) && |s| <= 1
    ensures s == t
  {
    assert |multiset(s)| == |s| && |multiset(t)| == |t|;
    if |s| == 1 {
      assert s[0] in multiset(t);
    }
  }

  lemma SameClassUnderPermutation(a: seq<Observation>, b: seq<Observation>, p: real)
    requires DistinctPrices(a) && multiset(a) == multiset(b)
    ensures AtPrice(a, p) == AtPrice(b, p)
  {
    forall o ensures multiset(AtPrice(a, p))[o] == multiset(AtPrice(b, p))[o] {
      AtPriceCounts(a, p, o);
      AtPriceCounts(b, p, o);
    }
    DistinctClassesAreSmall(a, p);
    ShortPermutation(AtPrice(a, p), AtPrice(b, p));
  }

  /** The price book hands observations over in hash order; with distinct prices that order is irrelevant. */
  lemma OrderIndependence(a: seq<Observation>, b: seq<Observation>)
    requires DistinctPrices(a) && multiset(a) == multiset(b)
    ensures MedianOf(a) == MedianOf(b)
  {
    assert |multiset(a)| == |a| && |multiset(b)| == |b|;
    forall p ensures AtPrice(a, p) == AtPrice(b, p) {
      SameClassUnderPermutation(a, b, p);
    }
    SameClassesSameResult(a, b);
  }

  /** Two of three ordered observations are kept, and the second of them wins. */
  lemma MedianOfUpperTwo(x: Observation, y: Observation, z: Observation)
    requires x.price <= y.price <= z.price
    requires !InBand([x, y, z], 0) && InBand([x, y, z], 1) && InBand([x, y, z], 2)
    requires Volume([x, y, z]) > 0.0 && y.volume < z.volume
    ensures MedianOf([x, y, z]) == Some(z.price)
  {
    SortOfThree(x, y, z);
    TrimOfThree([x, y, z]);
    CrossingOfTwo(y, z);
    assert Trim([x, y, z], 3) == [y, z];
  }

  /** All three are kept, and the middle one wins. */
  lemma MedianOfAllThree(x: Observation, y: Observation, z: Observation)
    requires x.price <= y.price <= z.price
    requires InBand([x, y, z], 0) && InBand([x, y, z], 1) && InBand([x, y, z], 2)
    requires Volume([x, y, z]) > 0.0 && x.volume < Volume([x, y, z]) / 2.0 <= x.volume + y.volume
    ensures MedianOf([x, y, z]) == Some(y.price)
  {
    var t := [x, y, z];
    SortOfThree(x, y, z);
    PrefixesOfThree(t);
    TrimOfThree(t);
    assert Trim(t, 3) == t;
    assert CrossingFrom(t, 0) == CrossingFrom(t, 1) == 1;
  }

  /** With equal prices the order matters: swapping the first two quotes moves the result from 2 to 1. */
  lemma EqualPricesDependOnOrder()
    ensures var x, y, z := Observation("x", 1.0, 24.0), Observation("y", 1.0, 31.0), Observation("z", 2.0, 45.0);
            && multiset([x, y, z]) == multiset([y, x, z])
            && MedianOf([x, y, z]) == Some(2.0)
            && MedianOf([y, x, z]) == Some(1.0)
  {
    var x, y, z := Observation("x", 1.0, 24.0), Observation("y", 1.0, 31.0), Observation("z", 2.0, 45.0);
    PrefixesOfThree([x, y, z]);
    MedianOfUpperTwo(x, y, z);
    PrefixesOfThree([y, x, z]);
    MedianOfAllThree(y, x, z);
  }

  // ----- Equivariance

  ghost predicate StrictlyIncreasing(f: real -> real) {
    forall x, y :: x < y ==> f(x) < f(y)
  }

  ghost predicate KeepsMidpoints(f: real -> real) {
    forall x, y :: f((x + y) / 2.0) == (f(x) + f(y)) / 2.0
  }

  ghost function RepriceOne(o: Observation, f: real -> real): Observation {
    o.(price := f(o.price))
  }

  /** Every price mapped through f. */
  ghost function Reprice(s: seq<Observation>, f: real -> real): (t: seq<Observation>)
    ensures |t| == |s|
    ensures forall i :: 0 <= i < |s| ==> t[i] == RepriceOne(s[i], f)
  {
    seq(|s|, i requires 0 <= i < |s| => RepriceOne(s[i], f))
  }

  lemma {:induction false} RepricePrefix(s: seq<Observation>, f: real -> real, n: nat)
    requires n <= |s|
    ensures Prefix(Reprice(s, f), n) == Prefix(s, n)
  {
    if n > 0 {
      RepricePrefix(s, f, n - 1);
    }
  }

  lemma RepriceSnoc(s: seq<Observation>, o: Observation, f: real -> real)
    ensures Reprice(s + [o], f) == Reprice(s, f) + [RepriceOne(o, f)]
  {
  }

  lemma {:induction false} RepriceInsert(o: Observation, s: seq<Observation>, f: real -> real)
    requires StrictlyIncreasing(f)
    ensures Insert(RepriceOne(o, f), Reprice(s, f)) == Reprice(Insert(o, s), f)
  {
    RepriceSnoc(s, o, f);
    if s != [] {
      var init, last := s[..|s| - 1], s[|s| - 1];
      assert Reprice(s, f)[..|s| - 1] == Reprice(init, f);
      assert last.price <= o.price <==> f(last.price) <= f(o.price);
      if last.price > o.price {
        RepriceInsert(o, init, f);
        RepriceSnoc(Insert(o, init), last, f);
      }
    }
  }

  lemma {:induction false} RepriceSort(obs: seq<Observation>, f: real -> real)
    requires StrictlyIncreasing(f)
    ensures Sort(Reprice(obs, f)) == Reprice(Sort(obs), f)
  {
    if obs != [] {
      var init, last := obs[..|obs| - 1], obs[|obs| - 1];
      var t := Reprice(obs, f);
      assert t[..|t| - 1] == Reprice(init, f) && t[|t| - 1] == RepriceOne(last, f);
      RepriceSort(init, f);
      RepriceInsert(last, Sort(init), f);
    }
  }

  lemma {:induction false} RepriceTrim(s: seq<Observation>, f: real -> real, n: nat)
    requires n <= |s|
    ensures Trim(Reprice(s, f), n) == Reprice(Trim(s, n), f)
  {
    if n > 0 {
      RepriceTrim(s, f, n - 1);
      RepricePrefix(s, f, n - 1);
      RepricePrefix(s, f, n);
      RepricePrefix(s, f, |s|);
      assert InBand(Reprice(s, f), n - 1) == InBand(s, n - 1);
    }
  }

  lemma {:induction false} RepriceCrossing(kept: seq<Observation>, f: real -> real, i: nat)
    requires i < |kept|
    ensures CrossingFrom(Reprice(kept, f), i) == CrossingFrom(kept, i)
    decreases |kept| - i
  {
    RepricePrefix(kept, f, i + 1);
    RepricePrefix(kept, f, |kept|);
    if i + 1 < |kept| {
      RepriceCrossing(kept, f, i + 1);
    }
  }

  lemma RepriceKept(s: seq<Observation>, f: real -> real)
    requires s != []
    ensures Kept(Reprice(s, f)) == Reprice(Kept(s), f)
  {
    RepriceTrim(s, f, |s|);
  }

  lemma RepriceMedianOfKept(kept: seq<Observation>, f: real -> real)
    requires kept != []
    ensures MedianOfKept(Reprice(kept, f)) == f(MedianOfKept(kept))
  {
    RepriceCrossing(kept, f, 0);
  }

  lemma RepriceMedianOfSorted(s: seq<Observation>, f: real -> real)
    requires s != []
    requires Volume(s) > 0.0 || |s| % 2 == 1 || KeepsMidpoints(f)
    ensures MedianOfSorted(Reprice(s, f)) == f(MedianOfSorted(s))
  {
    RepricePrefix(s, f, |s|);
    if Volume(s) > 0.0 {
      RepriceKept(s, f);
      RepriceMedianOfKept(Kept(s), f);
    }
  }

  /**
   The result commutes with every strictly increasing change of price scale; without any volume
   and with an even count the code averages two prices, and then the change must keep midpoints,
   as a change of currency does.
   */
  lemma PriceEquivariance(obs: seq<Observation>, f: real -> real)
    requires StrictlyIncreasing(f)
    requires Volume(obs) > 0.0 || |obs| % 2 == 1 || KeepsMidpoints(f)
    ensures MedianOf(Reprice(obs, f))
         == match MedianOf(obs) case None => None case Some(r) => Some(f(r))
  {
    if |obs| > 1 {
      SortIsStable(obs);
      SortKeepsVolume(obs, o => true);
      RepriceSort(obs, f);
      RepriceMedianOfSorted(Sort(obs), f);
      assert MedianOf(Reprice(obs, f)) == Some(MedianOfSorted(Reprice(Sort(obs), f)));
    }
  }

  ghost function ReweighOne(o: Observation, v: real): Observation {
    o.(volume := v * o.volume)
  }

  /** Every volume times v. */
  ghost function Reweigh(s: seq<Observation>, v: real): (t: seq<Observation>)
    ensures |t| == |s|
    ensures forall i :: 0 <= i < |s| ==> t[i] == ReweighOne(s[i], v)
  {
    seq(|s|, i requires 0 <= i < |s| => ReweighOne(s[i], v))
  }

  lemma MulOrder(c: real, x: real, y: real)
    requires c > 0.0
    ensures x <= y <==> c * x <= c * y
  {
    if x < y {
      assert c * (y - x) > 0.0;
    } else if y < x {
      assert c * (x - y) > 0.0;
    }
  }

  lemma {:induction false} ReweighPrefix(s: seq<Observation>, v: real, n: nat)
    requires n <= |s|
    ensures Prefix(Reweigh(s, v), n) == v * Prefix(s, n)
  {
    if n > 0 {
      ReweighPrefix(s, v, n - 1);
      assert v * Prefix(s, n) == v * Prefix(s, n - 1) + v * s[n - 1].volume;
    }
  }

  lemma {:induction false} ReweighInsert(o: Observation, s: seq<Observation>, v: real)
    ensures Insert(ReweighOne(o, v), Reweigh(s, v)) == Reweigh(Insert(o, s), v)
  {
    var t := Reweigh(s, v);
    if s != [] {
      var init, last := s[..|s| - 1], s[|s| - 1];
      assert t[..|t| - 1] == Reweigh(init, v);
      if last.price > o.price {
        ReweighInsert(o, init, v);
      }
    }
  }

  lemma {:induction false} ReweighSort(obs: seq<Observation>, v: real)
    ensures Sort(Reweigh(obs, v)) == Reweigh(Sort(obs), v)
  {
    if obs != [] {
      var init, last := obs[..|obs| - 1], obs[|obs| - 1];
      var t := Reweigh(obs, v);
      assert t[..|t| - 1] == Reweigh(init, v) && t[|t| - 1] == ReweighOne(last, v);
      ReweighSort(init, v);
      ReweighInsert(last, Sort(init), v);
    }
  }

  lemma ReweighInBand(s: seq<Observation>, v: real, i: nat)
    requires v > 0.0 && i < |s|
    ensures InBand(Reweigh(s, v), i) == InBand(s, i)
  {
    ReweighPrefix(s, v, i);
    ReweighPrefix(s, v, i + 1);
    ReweighPrefix(s, v, |s|);
    var total := Volume(s);
    assert LowCut(v * total) == v * LowCut(total) && HighCut(v * total) == v * HighCut(total);
    MulOrder(v, Prefix(s, i + 1), LowCut(total));
    MulOrder(v, HighCut(total), Prefix(s, i));
  }

  lemma {:induction false} ReweighTrim(s: seq<Observation>, v: real, n: nat)
    requires v > 0.0 && n <= |s|
    ensures Trim(Reweigh(s, v), n) == Reweigh(Trim(s, n), v)
  {
    if n > 0 {
      ReweighTrim(s, v, n - 1);
      ReweighInBand(s, v, n - 1);
    }
  }

  lemma ReweighHalf(kept: seq<Observation>, v: real, i: nat)
    requires v > 0.0 && i < |kept|
    ensures Prefix(Reweigh(kept, v), i + 1) >= Volume(Reweigh(kept, v)) / 2.0
       <==> Prefix(kept, i + 1) >= Volume(kept) / 2.0
  {
    ReweighPrefix(kept, v, i + 1);
    ReweighPrefix(kept, v, |kept|);
    assert (v * Volume(kept)) / 2.0 == v * (Volume(kept) / 2.0);
    MulOrder(v, Volume(kept) / 2.0, Prefix(kept, i + 1));
  }

  lemma {:induction false} ReweighCrossing(kept: seq<Observation>, v: real, i: nat)
    requires v > 0.0 && i < |kept|
    ensures CrossingFrom(Reweigh(kept, v), i) == CrossingFrom(kept, i)
    decreases |kept| - i
  {
    ReweighHalf(kept, v, i);
    if i + 1 < |kept| {
      ReweighCrossing(kept, v, i + 1);
    }
  }

  lemma ReweighKept(s: seq<Observation>, v: real)
    requires s != [] && v > 0.0
    ensures Kept(Reweigh(s, v)) == Reweigh(Kept(s), v)
  {
    ReweighTrim(s, v, |s|);
  }

  lemma ReweighMedianOfKept(kept: seq<Observation>, v: real)
    requires kept != [] && v > 0.0
    ensures MedianOfKept(Reweigh(kept, v)) == MedianOfKept(kept)
  {
    ReweighCrossing(kept, v, 0);
  }

  lemma ReweighMedianOfSorted(s: seq<Observation>, v: real)
    requires s != [] && v > 0.0
    ensures MedianOfSorted(Reweigh(s, v)) == MedianOfSorted(s)
  {
    assert Volume(Reweigh(s, v)) <= 0.0 <==> Volume(s) <= 0.0 by {
      ReweighPrefix(s, v, |s|);
      MulOrder(v, Volume(s), 0.0);
    }
    if Volume(s) > 0.0 {
      ReweighKept(s, v);
      ReweighMedianOfKept(Kept(s), v);
    } else {
      assert PlainMedian(Reweigh(s, v)) == PlainMedian(s);
    }
  }

  /** The unit in which volumes are reported does not matter. */
  lemma VolumeInvariance(obs: seq<Observation>, v: real)
    requires v > 0.0
    ensures MedianOf(Reweigh(obs, v)) == MedianOf(obs)
  {
    if |obs| > 1 {
      SortIsStable(obs);
      ReweighSort(obs, v);
      ReweighMedianOfSorted(Sort(obs), v);
      assert MedianOf(Reweigh(obs, v)) == Some(MedianOfSorted(Reweigh(Sort(obs), v)));
    }
  }
}
