/**
 The price submission on the wire: the reveal calldata inside a transaction that the two-share wallet
 signs and broadcasts.
 */
module PriceTransaction {
  import opened Bytes
  import opened Outcomes
  import Submission
  import opened Eip1559

  /** What the caller chooses for a price transaction; the value is always zero. */
  datatype Route = Route(
    chainId: u64, nonce: u64, maxPriorityFee: u128, maxFee: u128, gasLimit: u64, to: bytes20)

  function PriceTx(route: Route, calldata: CallData): Tx {
    Tx(route.chainId, route.nonce, route.maxPriorityFee, route.maxFee, route.gasLimit, route.to, Zeros(32), calldata)
  }

  /** `sign` is the signature the recombined key makes over a payload. */
  method SignPriceTx(route: Route, calldata: CallData, sign: bytes -> Signature) returns (sig: Signature, raw: bytes)
    ensures sig == sign(SigningPayload(PriceTx(route, calldata)))
    ensures raw == RawSignedTx(PriceTx(route, calldata), sig)
    ensures DecodeSigned(raw) == Some((PriceTx(route, calldata), sig))
    ensures var (tx, shown) := DecodeSigned(raw).value;
            && shown == sig && tx.data == calldata && tx.value == Zeros(32) && tx.to == route.to
            && tx.chainId == route.chainId && tx.nonce == route.nonce && tx.gasLimit == route.gasLimit
            && tx.maxPriorityFee == route.maxPriorityFee && tx.maxFee == route.maxFee
  {
    var payload := BuildSigningPayload(PriceTx(route, calldata));
    sig := sign(payload);
    raw := BuildRawSignedTx(PriceTx(route, calldata), sig);
    SignedRoundTrip(PriceTx(route, calldata), sig);
  }

  /**
   From round to wire and back: whoever decodes the broadcast transaction and then its calldata finds
   the epoch, indices, prices and random of the round, and they open every commitment of the round.
   */
  lemma BroadcastRevealsTheRound(
    keccak: Submission.Hash, s: Submission.PriceSubmission, feeds: seq<(u64, Submission.Float)>, voter: bytes20,
    route: Route, sig: Signature)
    requires Submission.Describes(keccak, s, feeds, voter) && Submission.RevealFits(s.indices, s.prices)
    ensures var data := Submission.RevealLayout(keccak, s.epoch, s.indices, s.prices, s.random);
            var received := DecodeSigned(RawSignedTx(PriceTx(route, data), sig));
            && received.Some?
            && var shown := Submission.DecodeReveal(received.value.0.data);
            && shown == Some(Submission.Reveal(s.epoch, s.indices, s.prices, s.random))
            && |s.SubmitTxs(keccak)| == |feeds| == |shown.value.prices|
            && forall i :: 0 <= i < |feeds| ==>
                 Submission.DecodeSubmit(s.SubmitTxs(keccak)[i])
                 == Some((shown.value.epoch,
                          Submission.CommitHash(keccak, shown.value.prices[i], shown.value.random, voter)))
  {
    var data := Submission.RevealLayout(keccak, s.epoch, s.indices, s.prices, s.random);
    SignedRoundTrip(PriceTx(route, data), sig);
    Submission.RevealOpensCommits(keccak, s, feeds, voter);
  }

  /** A price transaction moves no value, so its value field is 32 zero octets and never a canonical integer. */
  lemma PriceTxIsNeverCanonical(route: Route, calldata: CallData, sig: Signature)
    ensures var items := OpenTyped(RawSignedTx(PriceTx(route, calldata), sig));
            items.Some? && |items.value| == 12 && !CanonicalScalars(items.value)
  {
    CanonicalIff(PriceTx(route, calldata), sig);
  }
}
