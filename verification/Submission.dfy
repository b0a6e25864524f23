/**
 One voting round of a price provider: prices become 5-decimal integers, each is committed to by a
 hash, and a single reveal transaction discloses them in ABI head/tail layout.
 */
module Submission {
  import opened Bytes
  import opened Outcomes
  import opened Abi

  /** A double as the submitter sees it. */
  datatype Float = Finite(value: real) | NonFinite

  datatype FormatError = NotPositive | Overflow

  // ----- Price formatting

  const PRICE_SCALE := 100000.0

  /** Rounding half away from zero, for positive arguments. */
  function Round(x: real): int {
    (x + 0.5).Floor
  }

  ghost function Distance(n: u64, x: real): real {
    if n as real <= x then x - n as real else n as real - x
  }

  /**
   At most half a unit off, with a half rounded up, except at the ceiling of the range, where the
   difference is at most one.
   */
  ghost predicate IsCloseTo(n: u64, x: real) {
    || (n as real - x <= 0.5 && x - n as real < 0.5)
    || (n == TWO_64 - 1 && n as real <= x <= TWO_64 as real)
  }

  /** The cast to u64 saturates; only a scaled price within half a unit of 2^64 can reach the ceiling. */
  function FormatPrice(usd: Float): (r: Result<u64, FormatError>)
    ensures r == Err(NotPositive) <==> usd.NonFinite? || usd.value <= 0.0
    ensures r == Err(Overflow) <==>
              usd.Finite? && usd.value > 0.0 && usd.value * 100000.0 > 0x1_0000_0000_0000_0000 as real
    ensures r.Ok? ==> IsCloseTo(r.value, usd.value * 100000.0)
  {
    if usd.NonFinite? || usd.value <= 0.0 then Err(NotPositive)
    else
      var scaled := usd.value * PRICE_SCALE;
      if scaled > TWO_64 as real then Err(Overflow)
      else
        var n := Round(scaled);
        Ok(if n >= TWO_64 then TWO_64 - 1 else n)
  }

  /** Of all integers the submission can carry, the result is one nearest to the scaled price. */
  lemma FormatPriceIsNearest(x: real, m: u64)
    requires FormatPrice(Finite(x)).Ok?
    ensures Distance(FormatPrice(Finite(x)).value, x * 100000.0) <= Distance(m, x * 100000.0)
  {
    var n := FormatPrice(Finite(x)).value;
    assert m < n ==> m as real <= n as real - 1.0;
    assert m > n ==> m as real >= n as real + 1.0;
  }

  lemma FormatPriceMonotone(x: real, y: real)
    requires 0.0 < x <= y && FormatPrice(Finite(y)).Ok?
    ensures FormatPrice(Finite(x)).Ok?
    ensures FormatPrice(Finite(x)).value <= FormatPrice(Finite(y)).value
  {
  }

  // ----- Commitments

  /** The bytes that are hashed: the price as eight bytes, not as a 32-byte word. */
  function CommitPreimage(price: u64, random: bytes32, voter: bytes20): (p: bytes)
    ensures |p| == 72
  {
    BigEndian(8, price) + random + Zeros(12) + voter
  }

  /** What `abi.encode(uint256, uint256, address)` yields, and what the code's comments describe. */
  ghost function AbiTriple(price: u64, random: bytes32, voter: bytes20): (p: bytes)
    ensures |p| == 96
  {
    Word(price) + random + Zeros(12) + voter
  }

  /** The keccak256 function is a parameter throughout. */
  type Hash = bytes -> bytes32

  function CommitHash(keccak: Hash, price: u64, random: bytes32, voter: bytes20): bytes32 {
    keccak(CommitPreimage(price, random, voter))
  }

  lemma CommitPreimageInjective(p: u64, r: bytes32, v: bytes20, p': u64, r': bytes32, v': bytes20)
    requires CommitPreimage(p, r, v) == CommitPreimage(p', r', v')
    ensures p == p' && r == r' && v == v'
  {
    var m, m' := CommitPreimage(p, r, v), CommitPreimage(p', r', v');
    assert m[..8] == BigEndian(8, p) && m'[..8] == BigEndian(8, p');
    Pow256Widths();
    ValueOfBigEndian(8, p);
    ValueOfBigEndian(8, p');
    assert m[8..40] == r && m'[8..40] == r';
    assert m[52..] == v && m'[52..] == v';
  }

  /** The commitment hashes the ABI encoding without its first 24 bytes, so it never hashes an ABI encoding. */
  lemma CommitIsNotAbiEncode(p: u64, r: bytes32, v: bytes20)
    ensures AbiTriple(p, r, v) == Zeros(24) + CommitPreimage(p, r, v)
    ensures forall p', r', v' :: CommitPreimage(p, r, v) != AbiTriple(p', r', v')
  {
    PaddedU64IsWord(p);
    assert AbiTriple(p, r, v) == Zeros(24) + CommitPreimage(p, r, v);
    forall p', r', v' ensures CommitPreimage(p, r, v) != AbiTriple(p', r', v') {
      assert |AbiTriple(p', r', v')| == 96;
    }
  }

  // ----- Calldata

  const SUBMIT_SIGNATURE := "submitHash(uint256,bytes32)"
  const REVEAL_SIGNATURE := "revealPrices(uint256,uint256[],uint256[],uint256)"

  function Selector(keccak: Hash, signature: string): bytes4 {
    keccak(Ascii(signature))[..4]
  }

  function PushU256(out: bytes, value: u64): bytes {
    out + Zeros(24) + BigEndian(8, value)
  }

  lemma PushIsWord(out: bytes, value: u64)
    ensures PushU256(out, value) == out + Word(value)
  {
    PaddedU64IsWord(value);
    assert PushU256(out, value) == out + (Zeros(24) + BigEndian(8, value));
  }

  function SubmitHashCalldata(keccak: Hash, epoch: u64, hash: bytes32): bytes {
    PushU256(Selector(keccak, SUBMIT_SIGNATURE), epoch) + hash
  }

  /** A byte vector never outgrows the signed half of a 64-bit address space. */
  ghost predicate RevealFits(indices: seq<u64>, prices: seq<u64>) {
    196 + 32 * (|indices| + |prices|) < TWO_64 / 2
  }

  /** Selector and the four head words; the second and third are offsets into the tail. */
  ghost function RevealHead(keccak: Hash, epoch: u64, indices: seq<u64>, random: bytes32): (h: bytes)
    ensures |h| == 132
  {
    Selector(keccak, REVEAL_SIGNATURE) + Words([epoch, 128, 160 + 32 * |indices|]) + random
  }

  /** The ABI encoding of a `revealPrices` call. */
  ghost function RevealLayout(keccak: Hash, epoch: u64, indices: seq<u64>, prices: seq<u64>, random: bytes32)
    : (d: bytes)
    ensures |d| == 196 + 32 * (|indices| + |prices|)
  {
    RevealHead(keccak, epoch, indices, random) + ArrayTail(indices) + ArrayTail(prices)
  }

  method PushWords(out: bytes, vs: seq<u64>) returns (r: bytes)
    ensures r == out + Words(vs)
  {
    r := out;
    for i := 0 to |vs|
      invariant r == out + Words(vs[..i])
    {
      PushIsWord(r, vs[i]);
      WordsStep(vs, i);
      r := PushU256(r, vs[i]);
    }
    assert vs[..|vs|] == vs;
  }

  method PushArray(out: bytes, vs: seq<u64>) returns (r: bytes)
    requires |vs| < TWO_64
    ensures r == out + ArrayTail(vs)
  {
    PushIsWord(out, |vs|);
    r := PushU256(out, |vs|);
    r := PushWords(r, vs);
    assert r == out + (Word(|vs|) + Words(vs));
  }

  method RevealPricesCalldata(keccak: Hash, epoch: u64, indices: seq<u64>, prices: seq<u64>, random: bytes32)
    returns (calldata: bytes)
    requires RevealFits(indices, prices)
    ensures calldata == RevealLayout(keccak, epoch, indices, prices, random)
  {
    var indicesOffset := 4 * 32;
    var pricesOffset := indicesOffset + 32 + |indices| * 32;
    calldata := Selector(keccak, REVEAL_SIGNATURE);
    calldata := PushWords(calldata, [epoch, indicesOffset, pricesOffset]);
    calldata := calldata + random;
    calldata := PushArray(calldata, indices);
    calldata := PushArray(calldata, prices);
  }

  // ----- The contract's side

  datatype Reveal = Reveal(epoch: nat, indices: seq<nat>, prices: seq<nat>, random: bytes)

  /** A head/tail decoder for (uint256, uint256[], uint256[], uint256) behind a 4-byte selector. */
  function DecodeReveal(d: bytes): Option<Reveal> {
    match (ReadWord(d, 4), ReadArray(d, 4, 36), ReadArray(d, 4, 68), ReadBytes(d, 100, 32))
    case (Some(epoch), Some(indices), Some(prices), Some(random)) => Some(Reveal(epoch, indices, prices, random))
    case _ => None
  }

  function DecodeSubmit(d: bytes): Option<(nat, bytes)> {
    match (ReadWord(d, 4), ReadBytes(d, 36, 32))
    case (Some(epoch), Some(hash)) => Some((epoch, hash))
    case _ => None
  }

  /** What a contract with these two functions makes of calldata: the first four octets select the function. */
  datatype Call = Submitted(epoch: nat, hash: bytes) | Revealed(round: Reveal)

  ghost function Dispatch(keccak: Hash, d: bytes): Option<Call> {
    if |d| < 4 then None
    else if d[..4] == keccak(Ascii("submitHash(uint256,bytes32)"))[..4] then
      (match DecodeSubmit(d)
       case Some((epoch, hash)) => Some(Submitted(epoch, hash))
       case None => None)
    else if d[..4] == keccak(Ascii("revealPrices(uint256,uint256[],uint256[],uint256)"))[..4] then
      (match DecodeReveal(d)
       case Some(round) => Some(Revealed(round))
       case None => None)
    else None
  }

  ghost predicate SelectorsDiffer(keccak: Hash) {
    keccak(Ascii("submitHash(uint256,bytes32)"))[..4]
    != keccak(Ascii("revealPrices(uint256,uint256[],uint256[],uint256)"))[..4]
  }

  lemma WordValue(v: u64)
    ensures ToNat(Word(v)) == v < TWO_256
  {
    PaddedU64IsWord(v);
    ValueOfWord(v);
  }

  lemma HeadSlices(sel: bytes4, a: nat, b: nat, c: nat, random: bytes32, tail: bytes)
    ensures var d := sel + Words([a, b, c]) + random + tail;
            d[4..36] == Word(a) && d[36..68] == Word(b) && d[68..100] == Word(c) && d[100..132] == random
  {
    WordsOfThree(a, b, c);
  }

  lemma RevealReadsHead(keccak: Hash, epoch: u64, indices: seq<u64>, random: bytes32, tail: bytes)
    requires 160 + 32 * |indices| < TWO_64
    ensures var d := RevealHead(keccak, epoch, indices, random) + tail;
            && ReadWord(d, 4) == Some(epoch) && ReadWord(d, 36) == Some(128)
            && ReadWord(d, 68) == Some(160 + 32 * |indices|) && ReadBytes(d, 100, 32) == Some(random)
  {
    var offset := 160 + 32 * |indices|;
    HeadSlices(Selector(keccak, REVEAL_SIGNATURE), epoch, 128, offset, random, tail);
    WordValue(epoch);
    WordValue(128);
    WordValue(offset);
  }

  lemma AllFitWord(vs: seq<u64>)
    ensures forall i :: 0 <= i < |vs| ==> vs[i] < TWO_256
  {
    forall i | 0 <= i < |vs| ensures vs[i] < TWO_256 {
      WordValue(vs[i]);
    }
  }

  lemma ReadBothArrays(head: bytes, xs: seq<nat>, ys: seq<nat>)
    requires |head| == 132 && |xs| < TWO_256 && |ys| < TWO_256
    requires forall i :: 0 <= i < |xs| ==> xs[i] < TWO_256
    requires forall i :: 0 <= i < |ys| ==> ys[i] < TWO_256
    ensures var d := head + ArrayTail(xs) + ArrayTail(ys);
            && (ReadWord(d, 36) == Some(128) ==> ReadArray(d, 4, 36) == Some(xs))
            && (ReadWord(d, 68) == Some(160 + 32 * |xs|) ==> ReadArray(d, 4, 68) == Some(ys))
  {
    var d := head + ArrayTail(xs) + ArrayTail(ys);
    if ReadWord(d, 36) == Some(128) {
      ReadArrayAt(head, xs, ArrayTail(ys), 4, 36);
    }
    if ReadWord(d, 68) == Some(160 + 32 * |xs|) {
      assert d == (head + ArrayTail(xs)) + ArrayTail(ys) + [];
      ReadArrayAt(head + ArrayTail(xs), ys, [], 4, 68);
    }
  }

  /** The reveal transaction decodes to exactly the round it was built from. */
  lemma RevealRoundTrip(keccak: Hash, epoch: u64, indices: seq<u64>, prices: seq<u64>, random: bytes32)
    requires RevealFits(indices, prices)
    ensures DecodeReveal(RevealLayout(keccak, epoch, indices, prices, random))
         == Some(Reveal(epoch, indices, prices, random))
  {
    var d := RevealLayout(keccak, epoch, indices, prices, random);
    var head := RevealHead(keccak, epoch, indices, random);
    var tail := ArrayTail(indices) + ArrayTail(prices);
    assert d == head + tail;
    RevealReadsHead(keccak, epoch, indices, random, tail);
    WordValue(|indices|);
    WordValue(|prices|);
    AllFitWord(indices);
    AllFitWord(prices);
    ReadBothArrays(head, indices, prices);
  }

  lemma SubmitRoundTrip(keccak: Hash, epoch: u64, hash: bytes32)
    ensures DecodeSubmit(SubmitHashCalldata(keccak, epoch, hash)) == Some((epoch, hash))
  {
    var sel := Selector(keccak, SUBMIT_SIGNATURE);
    PushIsWord(sel, epoch);
    WordValue(epoch);
    var d := SubmitHashCalldata(keccak, epoch, hash);
    assert d == sel + Word(epoch) + hash;
    ReadWordAt(sel, epoch, hash);
    assert d == (sel + Word(epoch)) + hash + [];
    ReadBytesAt(sel + Word(epoch), hash, []);
  }

  /** The commit calldata is dispatched as a commitment and the reveal calldata as a reveal, with their arguments. */
  lemma CallsAreDispatched(
    keccak: Hash, epoch: u64, hash: bytes32, indices: seq<u64>, prices: seq<u64>, random: bytes32)
    requires SelectorsDiffer(keccak) && RevealFits(indices, prices)
    ensures Dispatch(keccak, SubmitHashCalldata(keccak, epoch, hash)) == Some(Submitted(epoch, hash))
    ensures Dispatch(keccak, RevealLayout(keccak, epoch, indices, prices, random))
         == Some(Revealed(Reveal(epoch, indices, prices, random)))
  {
    SubmitRoundTrip(keccak, epoch, hash);
    RevealRoundTrip(keccak, epoch, indices, prices, random);
    var commitSelector, revealSelector := Selector(keccak, SUBMIT_SIGNATURE), Selector(keccak, REVEAL_SIGNATURE);
    PushIsWord(commitSelector, epoch);
    assert SubmitHashCalldata(keccak, epoch, hash)[..4] == commitSelector;
    assert RevealHead(keccak, epoch, indices, random)[..4] == revealSelector;
    assert RevealLayout(keccak, epoch, indices, prices, random)[..4] == revealSelector;
  }

  // ----- A whole round

  datatype PriceSubmission = PriceSubmission(
    epoch: u64, indices: seq<u64>, prices: seq<u64>, random: bytes32, hashes: seq<bytes32>)
  {
    function SubmitTxs(keccak: Hash): (txs: seq<bytes>)
      ensures |txs| == |hashes|
    {
      seq(|hashes|, i requires 0 <= i < |hashes| => SubmitHashCalldata(keccak, epoch, hashes[i]))
    }
  }

  datatype SubmissionError = NoFeeds | BadPrice(reason: FormatError)

  /** The i-th entries of a submission belong to the i-th feed. */
  ghost predicate Describes(keccak: Hash, s: PriceSubmission, feeds: seq<(u64, Float)>, voter: bytes20) {
    && |s.indices| == |s.prices| == |s.hashes| == |feeds|
    && forall i :: 0 <= i < |feeds| ==>
        && s.indices[i] == feeds[i].0
        && FormatPrice(feeds[i].1) == Ok(s.prices[i])
        && s.hashes[i] == CommitHash(keccak, s.prices[i], s.random, voter)
  }

  method NewSubmission(keccak: Hash, epoch: u64, feeds: seq<(u64, Float)>, random: bytes32, voter: bytes20)
    returns (r: Result<PriceSubmission, SubmissionError>)
    ensures r.Ok? <==> feeds != [] && forall i :: 0 <= i < |feeds| ==> FormatPrice(feeds[i].1).Ok?
    ensures r.Ok? ==> r.value.epoch == epoch && r.value.random == random && Describes(keccak, r.value, feeds, voter)
    ensures r == Err(NoFeeds) <==> feeds == []
    ensures r.Err? && feeds != [] ==>
              exists i :: && 0 <= i < |feeds| && FormatPrice(feeds[i].1).Err?
                          && r == Err(BadPrice(FormatPrice(feeds[i].1).error))
                          && forall j :: 0 <= j < i ==> FormatPrice(feeds[j].1).Ok?
  {
    if feeds == [] {
      return Err(NoFeeds);
    }
    var indices: seq<u64>, prices: seq<u64>, hashes: seq<bytes32> := [], [], [];
    for i := 0 to |feeds|
      invariant |indices| == |prices| == |hashes| == i
      invariant forall j :: 0 <= j < i ==> indices[j] == feeds[j].0 && FormatPrice(feeds[j].1) == Ok(prices[j])
      invariant forall j :: 0 <= j < i ==> hashes[j] == CommitHash(keccak, prices[j], random, voter)
    {
      var price := FormatPrice(feeds[i].1);
      if price.Err? {
        return Err(BadPrice(price.error));
      }
      indices := indices + [feeds[i].0];
      prices := prices + [price.value];
      hashes := hashes + [CommitHash(keccak, price.value, random, voter)];
    }
    return Ok(PriceSubmission(epoch, indices, prices, random, hashes));
  }

  method RevealTx(keccak: Hash, s: PriceSubmission) returns (tx: bytes)
    requires RevealFits(s.indices, s.prices)
    ensures DecodeReveal(tx) == Some(Reveal(s.epoch, s.indices, s.prices, s.random))
    ensures tx == RevealLayout(keccak, s.epoch, s.indices, s.prices, s.random)
  {
    tx := RevealPricesCalldata(keccak, s.epoch, s.indices, s.prices, s.random);
    RevealRoundTrip(keccak, s.epoch, s.indices, s.prices, s.random);
  }

  /**
   Commit/reveal agreement, from the contract's side: whatever it decodes from the reveal
   transaction opens every commitment it decoded from the commit transactions, in order.
   */
  lemma RevealOpensCommits(keccak: Hash, s: PriceSubmission, feeds: seq<(u64, Float)>, voter: bytes20)
    requires Describes(keccak, s, feeds, voter) && RevealFits(s.indices, s.prices)
    ensures var shown := DecodeReveal(RevealLayout(keccak, s.epoch, s.indices, s.prices, s.random));
            && shown == Some(Reveal(s.epoch, s.indices, s.prices, s.random))
            && |s.SubmitTxs(keccak)| == |feeds|
            && forall i :: 0 <= i < |feeds| ==>
                 DecodeSubmit(s.SubmitTxs(keccak)[i])
                 == Some((shown.value.epoch, CommitHash(keccak, shown.value.prices[i], shown.value.random, voter)))
  {
    RevealRoundTrip(keccak, s.epoch, s.indices, s.prices, s.random);
    forall i | 0 <= i < |feeds|
      ensures DecodeSubmit(s.SubmitTxs(keccak)[i]) == Some((s.epoch, CommitHash(keccak, s.prices[i], s.random, voter)))
    {
      SubmitRoundTrip(keccak, s.epoch, s.hashes[i]);
    }
  }

  /** Binding: where the hash does not collide, no other price, random or voter opens the same commitment. */
  lemma CommitBinding(keccak: Hash, p: u64, r: bytes32, v: bytes20, p': u64, r': bytes32, v': bytes20)
    requires keccak(CommitPreimage(p, r, v)) == keccak(CommitPreimage(p', r', v'))
             ==> CommitPreimage(p, r, v) == CommitPreimage(p', r', v')
    ensures CommitHash(keccak, p, r, v) == CommitHash(keccak, p', r', v') <==> (p, r, v) == (p', r', v')
  {
    if CommitHash(keccak, p, r, v) == CommitHash(keccak, p', r', v') {
      CommitPreimageInjective(p, r, v, p', r', v');
    }
  }
}
