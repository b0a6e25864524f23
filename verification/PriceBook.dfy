/**
 The provider node's price book: the latest accepted ticker per feed and exchange, and the snapshot
 that aggregates each feed. This is where exchange data enters, so the guarantees of the whole path
 from ticker to submitted integer are stated here.
 */
module PriceBook {
  import opened Outcomes
  import opened Median
  import opened Submission

  /** What an exchange parser produced: the numbers may still be anything a double can hold. */
  datatype ParsedTicker = ParsedTicker(feed: string, exchange: string, price: Float, volume: Float)

  datatype Ticker = Ticker(feed: string, exchange: string, price: real, volume: real)

  datatype BookEntry = BookEntry(price: real, volume: real, received: real)

  type Entries = map<string, map<string, BookEntry>>

  const FEEDS: seq<string> := ["XRP/USD", "BTC/USD", "ETH/USD"]

  /** The final filter of the ticker parser. */
  function Accept(parsed: Option<ParsedTicker>): (t: Option<Ticker>)
    ensures t.Some? ==> t.value.price > 0.0 && t.value.volume >= 0.0
    ensures t.Some? <==> && parsed.Some? && parsed.value.price.Finite? && parsed.value.price.value > 0.0
                         && parsed.value.volume.Finite? && parsed.value.volume.value >= 0.0
    ensures t.Some? ==> && (t.value.feed, t.value.exchange) == (parsed.value.feed, parsed.value.exchange)
                        && parsed.value.price == Finite(t.value.price) && parsed.value.volume == Finite(t.value.volume)
  {
    match parsed
    case None => None
    case Some(p) =>
      if p.price.NonFinite? || p.price.value <= 0.0 || p.volume.NonFinite? || p.volume.value < 0.0 then None
      else Some(Ticker(p.feed, p.exchange, p.price.value, p.volume.value))
  }

  function Exchanges(entries: Entries, feed: string): map<string, BookEntry> {
    if feed in entries then entries[feed] else map[]
  }

  function Lookup(entries: Entries, feed: string, exchange: string): Option<BookEntry> {
    if exchange in Exchanges(entries, feed) then Some(Exchanges(entries, feed)[exchange]) else None
  }

  /** Every stored quote has a positive price and a non-negative volume. */
  ghost predicate Sound(m: map<string, BookEntry>) {
    forall e :: e in m ==> m[e].price > 0.0 && m[e].volume >= 0.0
  }

  /** The observation o is the stored quote of its exchange. */
  ghost predicate Quotes(o: Observation, m: map<string, BookEntry>) {
    o.exchange in m && o.price == m[o.exchange].price && o.volume == m[o.exchange].volume
  }

  ghost predicate Listed(e: string, obs: seq<Observation>) {
    exists i :: 0 <= i < |obs| && obs[i].exchange == e
  }

  /** obs lists the entries of m once each, in some order: hash maps promise no more. */
  ghost predicate IsListing(obs: seq<Observation>, m: map<string, BookEntry>) {
    && (forall i :: 0 <= i < |obs| ==> Quotes(obs[i], m))
    && (forall e :: e in m ==> Listed(e, obs))
    && (forall i, j :: 0 <= i < j < |obs| ==> obs[i].exchange != obs[j].exchange)
  }

  function ToObservation(exchange: string, e: BookEntry): Observation {
    Observation(exchange, e.price, e.volume)
  }

  lemma FeedNames()
    ensures forall f :: f in FEEDS <==> f == "XRP/USD" || f == "BTC/USD" || f == "ETH/USD"
  {
    assert FEEDS[0] == "XRP/USD" && FEEDS[1] == "BTC/USD" && FEEDS[2] == "ETH/USD";
  }

  class PriceBook {
    var entries: Entries

    ghost predicate Valid()
      reads this
    {
      forall f :: f in entries ==> entries[f] != map[] && Sound(entries[f])
    }

    constructor ()
      ensures Valid() && entries == map[]
    {
      entries := map[];
    }

    method Upsert(t: Ticker, now: real)
      modifies this
      ensures forall f, e :: Lookup(entries, f, e)
                          == if f == t.feed && e == t.exchange then Some(BookEntry(t.price, t.volume, now))
                             else Lookup(old(entries), f, e)
      ensures old(Valid()) && t.price > 0.0 && t.volume >= 0.0 ==> Valid()
    {
      var m := Exchanges(entries, t.feed);
      var m' := m[t.exchange := BookEntry(t.price, t.volume, now)];
      assert t.exchange in m';
      entries := entries[t.feed := m'];
    }

    /** One message of an exchange stream: anything but an acceptable ticker leaves the book alone. */
    method OnMessage(parsed: Option<ParsedTicker>, now: real)
      requires Valid()
      modifies this
      ensures Valid()
      ensures Accept(parsed).None? ==> entries == old(entries)
      ensures Accept(parsed).Some? ==>
                var t := Accept(parsed).value;
                forall f, e :: Lookup(entries, f, e)
                            == if f == t.feed && e == t.exchange then Some(BookEntry(t.price, t.volume, now))
                               else Lookup(old(entries), f, e)
    {
      var ticker := Accept(parsed);
      if ticker.Some? {
        Upsert(ticker.value, now);
      }
    }

    method Observations(feed: string) returns (obs: seq<Observation>)
      ensures IsListing(obs, Exchanges(entries, feed))
    {
      obs := [];
      var m := Exchanges(entries, feed);
      var todo := m.Keys;
      while todo != {}
        invariant todo <= m.Keys
        invariant forall i :: 0 <= i < |obs| ==> obs[i].exchange !in todo && Quotes(obs[i], m)
        invariant forall e :: e in m && e !in todo ==> Listed(e, obs)
        invariant forall i, j :: 0 <= i < j < |obs| ==> obs[i].exchange != obs[j].exchange
        decreases |todo|
      {
        var e :| e in todo;
        ghost var before := obs;
        obs := obs + [ToObservation(e, m[e])];
        todo := todo - {e};
        forall x | x in m && x !in todo ensures Listed(x, obs) {
          ListedStays(x, before, ToObservation(e, m[e]));
        }
      }
    }

    /** Per tracked feed: the trimmed median over some listing of its exchanges, and how many there are. */
    method Snapshot() returns (prices: map<string, (real, nat)>)
      ensures forall f :: f in prices <==>
                (f == "XRP/USD" || f == "BTC/USD" || f == "ETH/USD") && Exchanges(entries, f) != map[]
      ensures forall f :: f in prices ==> Aggregates(prices[f], Exchanges(entries, f))
    {
      prices := map[];
      for i := 0 to |FEEDS|
        invariant forall f :: f in prices <==> f in FEEDS[..i] && Exchanges(entries, f) != map[]
        invariant forall f :: f in prices ==> Aggregates(prices[f], Exchanges(entries, f))
      {
        var feed := FEEDS[i];
        var obs := Observations(feed);
        ListingEmptiness(obs, Exchanges(entries, feed));
        if obs != [] {
          var r := VolumeTrimmedMedian(obs);
          if r.Some? {
            prices := prices[feed := (r.value, |obs|)];
          }
        }
      }
      assert FEEDS[..|FEEDS|] == FEEDS;
      FeedNames();
    }
  }

  ghost predicate Aggregates(p: (real, nat), m: map<string, BookEntry>) {
    exists obs :: IsListing(obs, m) && MedianOf(obs) == Some(p.0) && |obs| == p.1
  }

  lemma ListedStays(e: string, obs: seq<Observation>, o: Observation)
    requires Listed(e, obs) || o.exchange == e
    ensures Listed(e, obs + [o])
  {
    if o.exchange == e {
      assert (obs + [o])[|obs|].exchange == e;
    } else {
      var i :| 0 <= i < |obs| && obs[i].exchange == e;
      assert (obs + [o])[i].exchange == e;
    }
  }

  lemma ListingEmptiness(obs: seq<Observation>, m: map<string, BookEntry>)
    requires IsListing(obs, m)
    ensures obs == [] <==> m == map[]
  {
    if m != map[] {
      var e :| e in m;
      assert Listed(e, obs);
    }
    if obs != [] {
      assert Quotes(obs[0], m);
    }
  }

  // ----- The hash order does not show

  lemma {:induction false} DistinctCount(s: seq<Observation>, o: Observation)
    requires forall i, j :: 0 <= i < j < |s| ==> s[i].exchange != s[j].exchange
    ensures multiset(s)[o] == if o in s then 1 else 0
  {
    if s != [] {
      var init, last := s[..|s| - 1], s[|s| - 1];
      DistinctCount(init, o);
      assert s == init + [last];
    }
  }

  lemma ListedQuote(a: seq<Observation>, m: map<string, BookEntry>, o: Observation)
    requires IsListing(a, m)
    ensures o in a <==> Quotes(o, m)
  {
    if Quotes(o, m) {
      assert Listed(o.exchange, a);
      var i :| 0 <= i < |a| && a[i].exchange == o.exchange;
      assert Quotes(a[i], m);
      assert a[i] == o;
    }
  }

  lemma ListingsArePermutations(a: seq<Observation>, b: seq<Observation>, m: map<string, BookEntry>)
    requires IsListing(a, m) && IsListing(b, m)
    ensures multiset(a) == multiset(b)
  {
    forall o ensures multiset(a)[o] == multiset(b)[o] {
      DistinctCount(a, o);
      DistinctCount(b, o);
      ListedQuote(a, m, o);
      ListedQuote(b, m, o);
    }
  }

  ghost predicate PricesDiffer(m: map<string, BookEntry>) {
    forall e, f :: e in m && f in m && e != f ==> m[e].price != m[f].price
  }

  /** While no two exchanges quote the same price, two snapshots of one book agree. */
  lemma SnapshotIsDeterministic(p: (real, nat), q: (real, nat), m: map<string, BookEntry>)
    requires Aggregates(p, m) && Aggregates(q, m) && PricesDiffer(m)
    ensures p == q
  {
    var a: seq<Observation> :| IsListing(a, m) && MedianOf(a) == Some(p.0) && |a| == p.1;
    var b: seq<Observation> :| IsListing(b, m) && MedianOf(b) == Some(q.0) && |b| == q.1;
    ListingsArePermutations(a, b, m);
    assert |multiset(a)| == |a| && |multiset(b)| == |b|;
    forall i, j | 0 <= i < j < |a| ensures a[i].price != a[j].price {
      assert Quotes(a[i], m) && Quotes(a[j], m);
    }
    OrderIndependence(a, b);
  }

  // ----- From ticker to submitted integer

  /** Total volume the book holds for the named exchanges. */
  ghost function StoredVolume(m: map<string, BookEntry>, names: set<string>): real
    requires names <= m.Keys
  {
    if names == {} then 0.0
    else
      var e :| e in names;
      m[e].volume + StoredVolume(m, names - {e})
  }

  lemma {:induction false} StoredVolumeWithout(m: map<string, BookEntry>, names: set<string>, e: string)
    requires names <= m.Keys && e in names
    ensures StoredVolume(m, names) == m[e].volume + StoredVolume(m, names - {e})
    decreases |names|
  {
    var f :| f in names && StoredVolume(m, names) == m[f].volume + StoredVolume(m, names - {f});
    if e != f {
      StoredVolumeWithout(m, names - {f}, e);
      StoredVolumeWithout(m, names - {e}, f);
      assert names - {f} - {e} == names - {e} - {f};
    }
  }

  /** The exchanges among the first n observations. */
  ghost function NamesOf(obs: seq<Observation>): set<string> {
    set i | 0 <= i < |obs| :: obs[i].exchange
  }

  lemma NamesSnoc(obs: seq<Observation>, o: Observation)
    ensures NamesOf(obs + [o]) == NamesOf(obs) + {o.exchange}
  {
    var all := obs + [o];
    forall x | x in NamesOf(obs) + {o.exchange} ensures x in NamesOf(all) {
      if x == o.exchange {
        assert all[|obs|].exchange == x;
      } else {
        var i :| 0 <= i < |obs| && obs[i].exchange == x;
        assert all[i].exchange == x;
      }
    }
  }

  ghost predicate PartOf(obs: seq<Observation>, m: map<string, BookEntry>) {
    && (forall i :: 0 <= i < |obs| ==> Quotes(obs[i], m))
    && (forall i, j :: 0 <= i < j < |obs| ==> obs[i].exchange != obs[j].exchange)
  }

  /** Sums and counts over a listing are sums and counts over the book. */
  lemma {:induction false} ListedShare(obs: seq<Observation>, m: map<string, BookEntry>, which: set<string>)
    requires PartOf(obs, m)
    ensures NamesOf(obs) <= m.Keys
    ensures VolumeOf(obs, (o: Observation) => o.exchange in which) == StoredVolume(m, which * NamesOf(obs))
    ensures Count(obs, (o: Observation) => o.exchange in which) == |which * NamesOf(obs)|
  {
    if obs != [] {
      var init, last := obs[..|obs| - 1], obs[|obs| - 1];
      assert obs == init + [last];
      ListedShare(init, m, which);
      AppendVolume(init, last, (o: Observation) => o.exchange in which);
      NamesSnoc(init, last);
      assert last.exchange !in NamesOf(init);
      assert Quotes(last, m);
      if last.exchange in which {
        assert which * NamesOf(obs) - {last.exchange} == which * NamesOf(init);
        StoredVolumeWithout(m, which * NamesOf(obs), last.exchange);
      } else {
        assert which * NamesOf(obs) == which * NamesOf(init);
      }
    }
  }

  lemma {:induction false} AllVolume(obs: seq<Observation>, which: Observation -> bool, n: nat)
    requires n <= |obs| && forall i :: 0 <= i < |obs| ==> which(obs[i])
    ensures PrefixOf(obs, n, which) == Prefix(obs, n)
  {
    if n > 0 {
      AllVolume(obs, which, n - 1);
    }
  }

  lemma ListingNames(obs: seq<Observation>, m: map<string, BookEntry>)
    requires IsListing(obs, m)
    ensures NamesOf(obs) == m.Keys
    ensures Volume(obs) == StoredVolume(m, m.Keys) && |obs| == |m.Keys|
  {
    forall e | e in m.Keys ensures e in NamesOf(obs) {
      assert Listed(e, obs);
    }
    ListedShare(obs, m, m.Keys);
    assert m.Keys * NamesOf(obs) == m.Keys;
    forall i | 0 <= i < |obs| ensures obs[i].exchange in m.Keys {
      assert Quotes(obs[i], m);
    }
    AllVolume(obs, (o: Observation) => o.exchange in m.Keys, |obs|);
    CountOfRun(obs, 0, |obs|, (o: Observation) => o.exchange in m.Keys);
    CountAtMost(obs, (o: Observation) => o.exchange in m.Keys);
  }

  lemma {:induction false} CountAtMost(obs: seq<Observation>, which: Observation -> bool)
    ensures Count(obs, which) <= |obs|
  {
    if obs != [] {
      CountAtMost(obs[..|obs| - 1], which);
    }
  }

  /** Too few to matter: by stored volume if there is any, by heads otherwise. */
  ghost predicate Minority(m: map<string, BookEntry>, bad: set<string>) {
    if StoredVolume(m, m.Keys) > 0.0 then StoredVolume(m, bad * m.Keys) < 0.375 * StoredVolume(m, m.Keys)
    else 2 * |bad * m.Keys| < |m.Keys|
  }

  lemma MinorityIsBounded(m: map<string, BookEntry>, obs: seq<Observation>, bad: set<string>)
    requires Sound(m) && IsListing(obs, m) && Minority(m, bad)
    ensures var isBad := (o: Observation) => o.exchange in bad;
            && MedianOf(obs).Some?
            && BoundedBelow(obs, isBad, MedianOf(obs).value) && BoundedAbove(obs, isBad, MedianOf(obs).value)
  {
    var isBad := (o: Observation) => o.exchange in bad;
    ListingNames(obs, m);
    ListedShare(obs, m, bad);
    forall i | 0 <= i < |obs| ensures obs[i].volume >= 0.0 {
      assert Quotes(obs[i], m);
    }
    if Volume(obs) > 0.0 {
      OutlierRobustness(obs, isBad);
    } else {
      PlainRobustness(obs, isBad);
    }
  }

  /**
   End to end: if the exchanges in `bad` hold less than three eighths of a feed's stored volume, or are
   fewer than half of its exchanges when there is no volume, the integer that goes on chain for a
   snapshot lies between the integers of two honest quotes, whatever the bad ones report.
   */
  lemma SubmittedPriceIsRobust(m: map<string, BookEntry>, p: (real, nat), bad: set<string>)
    returns (lo: string, hi: string)
    requires Sound(m) && Aggregates(p, m) && Minority(m, bad)
    ensures lo in m && lo !in bad && hi in m && hi !in bad
    ensures m[lo].price <= p.0 <= m[hi].price
    ensures var sent := FormatPrice(Finite(p.0));
            && (sent.Ok? ==> && FormatPrice(Finite(m[lo].price)).Ok?
                             && FormatPrice(Finite(m[lo].price)).value <= sent.value)
            && (FormatPrice(Finite(m[hi].price)).Ok? ==> && sent.Ok?
                                                         && sent.value <= FormatPrice(Finite(m[hi].price)).value)
  {
    var isBad := (o: Observation) => o.exchange in bad;
    var obs: seq<Observation> :| IsListing(obs, m) && MedianOf(obs) == Some(p.0) && |obs| == p.1;
    MinorityIsBounded(m, obs, bad);
    var i :| 0 <= i < |obs| && !isBad(obs[i]) && obs[i].price <= p.0;
    var j :| 0 <= j < |obs| && !isBad(obs[j]) && p.0 <= obs[j].price;
    assert Quotes(obs[i], m) && Quotes(obs[j], m);
    lo, hi := obs[i].exchange, obs[j].exchange;
    if FormatPrice(Finite(p.0)).Ok? {
      FormatPriceMonotone(m[lo].price, p.0);
    }
    if FormatPrice(Finite(m[hi].price)).Ok? {
      FormatPriceMonotone(p.0, m[hi].price);
    }
  }
}
