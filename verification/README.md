# Verified model of the Flare verifiable RAG enclave

A Dafny model of the parts of the enclave whose correctness is a matter of arithmetic, state over time
or byte layout, with proofs of what they promise.

* **Prices** (`Median`, `OrderDependence`, `PriceBook`, `Submission`, `PriceTransaction`): exchange tickers go
  into a book, the book into a volume-trimmed weighted median, the median into a 5-decimal integer, the
  integers into commitments and one reveal transaction. The main results are a breakdown point of exactly three eighths
  of the volume, carried through to the integer on chain, and a reveal that opens every commitment.
* **Attestation** (`AttestationCache`, `Cbor`, `Utf8`, `Eat`): a cache that renews its token before expiry in every
  run under explicit timing assumptions, and entity attestation tokens whose verifier returns nothing that
  was not signed.
* **Chain access** (`Failover`, `Overlap`, `NonceLock`, `Rlp`, `Eip1559`): circuit breakers over a priority
  pool, with and without overlapping calls, a lock that keeps nonces apart over all interleavings, and
  transactions that decode to what was signed.
* **Memory and load** (`EphemeralWindow`, `TokenBucket`): a bounded window whose buffers are intact or zero
  at every point of every run, scrubbed queries, and a token bucket that is the greedy limiter.
* **Requests** (`FdcRequest`, `Abi`): two encoders in two languages that agree with the ABI tuple encoding
  and with each other.

Conventions. Doubles are reals, with a separate non-finite value where the code checks for one. Clocks are
reals handed in by the caller and every await is a step. Keccak, AES-GCM, ECDSA, the curve and the CBOR
decoder are function parameters; what is assumed of them is a named predicate (`Inverts`, `Matches`,
`OnlySigned`, `Lawful`). Strings that only travel are given by their UTF-8 octets. Sizes are bounded only by
what memory or a JavaScript string can hold (`RevealFits`, `CallData`, `Eat.Fits`, `FdcRequest.Fits`).

Where code and comments disagree, the model follows the code:

* `commit_hash` speaks of `abi.encode` and reserves 96 bytes but hashes 72: the price is written as eight
  bytes (`Submission.CommitIsNotAbiEncode`).
* `raw_signed_tx` promises bytes ready for broadcasting, but appends value, r and s as fixed 32-byte
  strings; RLP scalars (Appendix B of the Ethereum Yellow Paper) have no leading zeros, so the
  bytes are canonical only if none of the three starts with a zero octet (`Eip1559.CanonicalIff`), and a price
  transaction, whose value is zero, never is (`PriceTransaction.PriceTxIsNeverCanonical`).
* `refresh` and the loop promise renewal before expiry; without an issue date the margin is a share of the
  remaining time and renewal starts only at expiry (`AttestationCache.EarlyRenewalNeedsIssueDate`).
* `execute_query` promises that every sensitive mutable buffer is zeroed on every exception path; a key
  setting that decodes to the wrong length raises with the decoded key unwiped
  (`EphemeralWindow.EphemeralProcessor.ExecuteQuery`).
* `_rpc` says it starts from the active endpoint; it always starts from the first.
* The transaction lock is said to close the nonce race; it does, unless the receipt wait ends in an error
  (`NonceLock.ReleaseIsSafeIffConfirmed`).
* `build_eat` accepts an empty nonce and any 64-bit iat; the verifier then rejects the token
  (`Eat.BuiltTokenAcceptedIff`).

## Model

| member | source | states |
|---|---|---|
| Median.VolumeTrimmedMedian | enclave/enclave_grpc/src/ftso_provider/calculator.rs:43-101 | Both loops and both fallbacks compute the price picked from the stably sorted, trimmed list; no result exactly for no observations |
| Median.SortIsStable | enclave/enclave_grpc/src/ftso_provider/calculator.rs:51-53 | The sort is ordered, a permutation, and keeps the order of arrival inside each price |
| Median.StableSortIsUnique | enclave/enclave_grpc/src/ftso_provider/calculator.rs:51-53 | Those three facts determine the sorted list |
| Median.TrimExact | enclave/enclave_grpc/src/ftso_provider/calculator.rs:69-87 | With positive volume trimming keeps exactly one non-empty contiguous run, from the window that crosses the low cut to the one that reaches the high cut; the first fallback is dead |
| Median.KeptVolume | enclave/enclave_grpc/src/ftso_provider/calculator.rs:72-87 | The kept run holds at least half of the total volume |
| Median.ResultIsMedianOfBand | enclave/enclave_grpc/src/ftso_provider/calculator.rs:89-100 | The result is the first price of the kept run at which its volume reaches one half; the second fallback is dead |
| Median.ResultRank | enclave/enclave_grpc/src/ftso_provider/calculator.rs:69-98 | The result's volume rank in the whole sorted list is at least 3/8 from below and more than 3/8 from above |
| Median.ResultVolumeRank | enclave/enclave_grpc/src/ftso_provider/calculator.rs:43-101 | At least 3/8 of the volume is priced at or below the result and more than 3/8 at or above it |
| Median.OutlierRobustness | enclave/enclave_grpc/src/ftso_provider/calculator.rs:43-101 | Observations with less than 3/8 of the volume cannot move the result outside the price range of the others, however they are priced (3/8 itself is still harmless upwards) |
| Median.LowerBoundIsTight | enclave/enclave_grpc/src/ftso_provider/calculator.rs:69-98 | With exactly 3/8 of the volume a cheap quote can win, so the lower bound is exact |
| Median.UpperBoundIsTight | enclave/enclave_grpc/src/ftso_provider/calculator.rs:69-98 | With any excess over 3/8 a dear quote can win, so the upper bound is exact |
| Median.PlainMedianSplits | enclave/enclave_grpc/src/ftso_provider/calculator.rs:55-67 | Without volume the result is a plain median: the lower half is not dearer, the upper half not cheaper, and an even count takes the midpoint |
| Median.PlainRobustness | enclave/enclave_grpc/src/ftso_provider/calculator.rs:55-67 | Without volume, fewer than half of the observations cannot move the result outside the price range of the others |
| Median.PlainBoundIsTight | enclave/enclave_grpc/src/ftso_provider/calculator.rs:55-67 | Half of them can |
| Median.SameClassesSameResult | enclave/enclave_grpc/src/ftso_provider/calculator.rs:51-98 | Input order matters only inside one price |
| Median.OrderIndependence | enclave/enclave_grpc/src/ftso_provider/calculator.rs:51-98 | With pairwise distinct prices every permutation of the input gives the same result |
| Median.EqualPricesDependOnOrder | enclave/enclave_grpc/src/ftso_provider/calculator.rs:51-98 | With equal prices it need not: an input whose result changes from 2 to 1 when two quotes swap places |
| OrderDependence.OrderCriterion | enclave/enclave_grpc/src/ftso_provider/calculator.rs:51-98 | Order independence can be read off the prices: no rearrangement changes the result for any volumes if and only if the prices are pairwise distinct or all the same |
| OrderDependence.ZeroVolumeIsIgnored | enclave/enclave_grpc/src/ftso_provider/calculator.rs:69-98 | While anything is traded, quotes without volume have no influence: dropping them all leaves the result |
| OrderDependence.DecidedResult | enclave/enclave_grpc/src/ftso_provider/calculator.rs:69-98 | Three volume levels determine the result: the windows at the two cuts, and the window at half of the band between them |
| Median.PriceEquivariance | enclave/enclave_grpc/src/ftso_provider/calculator.rs:51-98 | The result commutes with every strictly increasing change of price scale; without volume and with an even count, with those that keep midpoints |
| Median.VolumeInvariance | enclave/enclave_grpc/src/ftso_provider/calculator.rs:55-98 | Scaling all volumes by a positive factor changes nothing |
| PriceBook.Accept | enclave/enclave_grpc/src/ftso_provider/node.rs:538-543 | A ticker passes exactly when its price is finite and positive and its volume finite and not negative, and it passes with the parsed feed, exchange and numbers |
| PriceBook.PriceBook.Upsert | enclave/enclave_grpc/src/ftso_provider/node.rs:114-126 | Only the entry of that feed and exchange changes, and it becomes the ticker |
| PriceBook.PriceBook.OnMessage | enclave/enclave_grpc/src/ftso_provider/node.rs:524-544 | Every message keeps all stored prices positive and volumes non-negative; a rejected one changes nothing |
| PriceBook.PriceBook.Observations | enclave/enclave_grpc/src/ftso_provider/node.rs:130-143 | Every exchange is listed exactly once, with the stored price and volume, in some order |
| PriceBook.PriceBook.Snapshot | enclave/enclave_grpc/src/ftso_provider/node.rs:432-446 | Exactly the three tracked feeds that have data get a price: the trimmed median over a listing of the stored prices and volumes, with the number of exchanges |
| PriceBook.ListingNames | enclave/enclave_grpc/src/ftso_provider/node.rs:130-143 | A listing has as many observations as the book has exchanges, and their volumes add up to the stored ones |
| PriceBook.SnapshotIsDeterministic | enclave/enclave_grpc/src/ftso_provider/node.rs:130-143 | While no two exchanges quote the same price, the iteration order of the hash map does not show |
| PriceBook.SubmittedPriceIsRobust | enclave/enclave_grpc/src/ftso_provider/node.rs:432-446 | End to end, for every snapshot: if the bad exchanges hold less than 3/8 of the volume stored for the feed, or are fewer than half of its exchanges when nothing was traded, the integer submitted lies between the integers of two honest quotes |
| Submission.FormatPrice | enclave/enclave_grpc/src/ftso_provider/submitter.rs:46-55 | Rejects exactly non-finite, non-positive and overflowing prices; otherwise the integer is price times 10^5 rounded to the nearest, a half upwards, or the ceiling of the range for a price that reaches it |
| Submission.FormatPriceIsNearest | enclave/enclave_grpc/src/ftso_provider/submitter.rs:46-55 | No other 64-bit integer is closer to price times 10^5 |
| Submission.FormatPriceMonotone | enclave/enclave_grpc/src/ftso_provider/submitter.rs:46-55 | A lower positive price is accepted too and never gets a higher integer |
| Submission.CommitPreimageInjective | enclave/enclave_grpc/src/ftso_provider/submitter.rs:60-70 | The hashed bytes determine price, random and voter |
| Submission.CommitIsNotAbiEncode | enclave/enclave_grpc/src/ftso_provider/submitter.rs:57-70 | The code hashes 72 bytes, the 96-byte ABI encoding of its comments without the first 24, so it never hashes an ABI encoding |
| Submission.CommitBinding | enclave/enclave_grpc/src/ftso_provider/submitter.rs:60-70 | Where the hash does not collide, a commitment opens to one triple only |
| Submission.PushIsWord | enclave/enclave_grpc/src/ftso_provider/submitter.rs:83-86 | 24 zero bytes and an 8-byte integer are a uint256 word |
| Submission.RevealPricesCalldata | enclave/enclave_grpc/src/ftso_provider/submitter.rs:102-130 | The appended bytes are selector, head words with both offsets, and the two array tails |
| Submission.RevealRoundTrip | enclave/enclave_grpc/src/ftso_provider/submitter.rs:102-130 | A decoder that follows the offsets recovers epoch, indices, prices and random, for any number of feeds |
| Submission.SubmitRoundTrip | enclave/enclave_grpc/src/ftso_provider/submitter.rs:91-98 | The commit calldata decodes to epoch and hash |
| Submission.CallsAreDispatched | enclave/enclave_grpc/src/ftso_provider/submitter.rs:91-130 | A contract that selects by the first four octets takes the commit calldata as a commitment and the reveal calldata as a reveal, with their arguments |
| Submission.NewSubmission | enclave/enclave_grpc/src/ftso_provider/submitter.rs:153-179 | Succeeds exactly for a non-empty list of formattable prices; entry i belongs to feed i; otherwise the error of the first bad feed |
| Submission.RevealTx | enclave/enclave_grpc/src/ftso_provider/submitter.rs:192-194 | The reveal transaction decodes to the submission's own fields |
| Submission.RevealOpensCommits | enclave/enclave_grpc/src/ftso_provider/submitter.rs:153-194 | What is decoded from the reveal transaction opens every decoded commitment, in order |
| PriceTransaction.SignPriceTx | enclave/enclave_grpc/src/ftso_provider/submitter.rs:203-227 | The signature is over the payload of the transaction, and the raw bytes decode to it: value zero, that calldata, and every field of the route in its place |
| PriceTransaction.BroadcastRevealsTheRound | enclave/enclave_grpc/src/ftso_provider/submitter.rs:190-227 | Decoding the broadcast transaction and then its calldata yields the round, and what was received opens every decoded commitment |
| PriceTransaction.PriceTxIsNeverCanonical | enclave/enclave_grpc/src/ftso_provider/submitter.rs:214-223 | A price transaction's value is 32 zero octets, so its RLP is never canonical |
| TokenBucket.SharedTokenBucket.TryAcquire | enclave/enclave_grpc/src/middleware/rate_limit.rs:64-80 | The fields always are what the run of requests so far leads to, and the answer is that run's decision |
| TokenBucket.LevelIsLeastHeadroom | enclave/enclave_grpc/src/middleware/rate_limit.rs:69-74 | The token level equals the least of burst + rate * elapsed - admitted over all windows that end now |
| TokenBucket.AdmitsIffWithinLimits | enclave/enclave_grpc/src/middleware/rate_limit.rs:64-80 | A request is admitted exactly when admitting it keeps every window within burst plus rate times elapsed: lazy refill is the greedy limiter |
| TokenBucket.WindowBound | enclave/enclave_grpc/src/middleware/rate_limit.rs:64-80 | Between any two requests at most burst + rate * elapsed are admitted |
| TokenBucket.SustainedRateIsServed | enclave/enclave_grpc/src/middleware/rate_limit.rs:64-80 | Requests one token's time apart are never refused, given a burst of at least one |
| TokenBucket.RefusedRequestsLeaveNoTrace | enclave/enclave_grpc/src/middleware/rate_limit.rs:64-80 | Deleting any set of refused requests changes no other decision of the run |
| AttestationCache.FetchWithFallback | enclave/src/crypto/attestation.py:637-656 | Succeeds with the second token exactly on TDX; on TDX a failing second fetch fails the whole fetch |
| AttestationCache.AttestationStateCache.Refresh | enclave/src/crypto/attestation.py:1083-1100 | A success replaces the state; an attestation error keeps it and is recorded; any other exception changes nothing here |
| AttestationCache.AttestationStateCache.TakeSnapshot | enclave/src/crypto/attestation.py:1102-1120 | Serves the latest success of the whole run while unexpired, with the second token exactly on TDX, and says which of the two errors applies otherwise |
| AttestationCache.AttestationStateCache.RefreshIfDue | enclave/src/crypto/attestation.py:1130-1149 | One iteration's refresh, typed or untyped failure, moves state and failure count as specified |
| AttestationCache.AttestationStateCache.RunRefreshLoop | enclave/src/crypto/attestation.py:1122-1162 | The loop leads to the state, failure count and clock of the specified run |
| AttestationCache.StaysOnSchedule | enclave/src/crypto/attestation.py:1063-1162 | One iteration keeps the clock within the retries of the renewal time |
| AttestationCache.TimelyRenewal | enclave/src/crypto/attestation.py:1063-1162 | With dated tokens that arrive with a quarter of their lifetime left, bounded fetches and delays and at most k failures in a row, L/4 > 1 + 15k + (k+1)(D+J) means that at every instant of every run a held state is unexpired |
| AttestationCache.DownEndpointIsNotHammered | enclave/src/crypto/attestation.py:1150-1162 | While every fetch fails, with or without a held state, n attempts take at least 15n seconds, the state stays, and the failure counter counts the attempts |
| AttestationCache.AttemptsAreSpaced | enclave/src/crypto/attestation.py:1150-1162 | While every fetch fails, two attempts are at least 15 seconds apart, from any starting state |
| AttestationCache.EmptyCacheKeepsTrying | enclave/src/crypto/attestation.py:1130-1162 | Without any state every iteration is an attempt until one succeeds |
| AttestationCache.SleepIsBounded | enclave/src/crypto/attestation.py:1150-1162 | The loop sleeps between 1 and 60 seconds, and exactly 15 after a failure or without state |
| AttestationCache.SleepsUntilRenewal | enclave/src/crypto/attestation.py:1063-1162 | With no failure on record the loop sleeps until the renewal time of what it holds, clamped to 1..60 seconds |
| AttestationCache.EarlyRenewalNeedsIssueDate | enclave/src/crypto/attestation.py:1063-1079 | A renewal can start before expiry exactly when the token has an issue date before its expiry date |
| AttestationCache.OutageWithoutIssueDate | enclave/src/crypto/attestation.py:1063-1120 | Without an issue date snapshots fail from the start of every due renewal until it ends |
| AttestationCache.UndatedRenewalIsLate | enclave/src/crypto/attestation.py:1063-1162 | Every run that holds a token without issue date comes to a renewal no earlier than its expiry and at most 1 second (15 after a failure) plus the timer delay later; it is not served from expiry on |
| AttestationCache.UndatedIsNeverRenewed | enclave/src/crypto/attestation.py:1063-1079 | A token without expiry date is never renewed and always served |
| AttestationCache.ServedWasFetched | enclave/src/crypto/attestation.py:1083-1120 | Whatever a snapshot serves in a run is unexpired and was fetched in that run or held before it |
| Failover.Client.Rpc | enclave/src/flare_client/connector.py:552-588 | The loop changes breakers, active index and result as the scan specifies |
| Failover.FailoverRefinement | enclave/src/flare_client/connector.py:552-588 | The answer is that of the first endpoint in priority order that is not quarantined and does not fail on transport; unavailable exactly without one; only tried endpoints change |
| Failover.BreakerCountsStreak | enclave/src/flare_client/connector.py:575-584 | In every sequential run the counter of an endpoint is the number of its transport failures since its last success, other exceptions aside, and it is quarantined until 30 seconds after the last failure that was the third or a later one in a row |
| Failover.TrippedHasThreeFailures | enclave/src/flare_client/connector.py:413-421 | In every sequential run a quarantined endpoint has at least three failures on its counter |
| Failover.DeadEndpointLoad | enclave/src/flare_client/connector.py:123-127 | An endpoint that always fails is asked at most 3 + floor(T/30) times by time T |
| Failover.DeadEndpointGap | enclave/src/flare_client/connector.py:572-584 | From the third failure on, two attempts on it are a full cooldown apart: one failed probe re-trips it and none starts in quarantine |
| Overlap.SequentialIsRun | enclave/src/flare_client/connector.py:552-588 | The calls of a sequential history, seen from one endpoint, are an interleaving with one attempt at a time, and leave the same breaker |
| Overlap.EventKeepsLink | enclave/src/flare_client/connector.py:573-584 | One step keeps "quarantined means three failures on record" exactly when it is not a success during quarantine |
| Overlap.LinkIff | enclave/src/flare_client/connector.py:572-584 | In every interleaving of starts and ends that link holds throughout if and only if no attempt is served while the endpoint is quarantined |
| Overlap.OverlapLosesTheCount | enclave/src/flare_client/connector.py:572-584 | With two attempts under way a late success clears the counter of an endpoint that stays quarantined |
| Overlap.LinkNeedsOneAtATime | enclave/src/flare_client/connector.py:572-584 | The link holds in every run with at most c attempts under way if and only if c is at most one |
| Overlap.OverlapLoad | enclave/src/flare_client/connector.py:572-584 | With at most c attempts under way, an endpoint that always fails is asked at most 2 + c + c * floor(T/30) times by time T |
| Overlap.LimitIsReached | enclave/src/flare_client/connector.py:572-584 | For every c and after any number of cooldowns some run reaches that limit |
| Overlap.LoadLimitNeedsOneAtATime | enclave/src/flare_client/connector.py:572-584 | The sequential limit 3 + floor(T/30) holds for every run with at most c attempts under way if and only if c is at most one |
| NonceLock.StepKeepsInv | enclave/src/flare_client/connector.py:1176-1186 | Every step of every submitter keeps the lock discipline: what was broadcast is behind the chain or is the lock holder's own |
| NonceLock.StepExtendsLog | enclave/src/flare_client/connector.py:993-1012 | Only a broadcast adds to the history, and it adds the submitter's own transaction |
| NonceLock.HolderCanLeave | enclave/src/flare_client/connector.py:1012-1035 | The lock never gets stuck: whatever its holder has done, it can leave without another broadcast |
| NonceLock.NoncesNeverCollide | enclave/src/flare_client/connector.py:927-1035 | Over every interleaving of any number of submitters no two transactions are broadcast with one nonce, unless the lock is given up after an unconfirmed broadcast |
| NonceLock.ReuseAfterCarelessRelease | enclave/src/flare_client/connector.py:1012-1024 | After such a release the next submission reuses the nonce |
| NonceLock.ReleaseIsSafeIffConfirmed | enclave/src/flare_client/connector.py:1012-1024 | Giving up the lock after a broadcast without receipt keeps every continuation safe if and only if the chain has passed the nonce |
| EphemeralWindow.EphemeralProcessor.ZeroEvict | enclave/src/rag_engine/processor.py:418-422 | Drops exactly the oldest buffer, zeroed, and accounts for its length |
| EphemeralWindow.EphemeralProcessor.Ingest | enclave/src/rag_engine/processor.py:205-237 | Rejects exactly after destruction or beyond the cap, without effect; otherwise the window stays the longest suffix of the accepted payloads that fits both caps, retained buffers are intact, dropped ones zero, and the deque never evicts by itself |
| EphemeralWindow.EphemeralProcessor.MakeRoom | enclave/src/rag_engine/processor.py:220-235 | Eviction leaves the longest fitting suffix and a free slot |
| EphemeralWindow.EphemeralProcessor.Destroy | enclave/src/rag_engine/processor.py:392-404 | Every buffer ever stored is zero afterwards and the processor stays dead |
| EphemeralWindow.WindowIsDetermined | enclave/src/rag_engine/processor.py:220-237 | The longest fitting suffix exists and is unique, so the window is a function of the accepted payloads |
| EphemeralWindow.WindowSlides | enclave/src/rag_engine/processor.py:220-237 | An accepted payload is always retained and never brings back a dropped one |
| EphemeralWindow.DecryptPayload | enclave/src/rag_engine/processor.py:349-390 | Of all buffers it allocates only the returned plaintext is not zero, on every exit; the outcome is the specified one |
| EphemeralWindow.LoadPayloadKey | enclave/src/rag_engine/processor.py:149-176 | Yields a 32-octet key buffer or fails; a decoded key of any other length is dropped without being wiped |
| EphemeralWindow.EphemeralProcessor.ExecuteQuery | enclave/src/rag_engine/processor.py:264-346 | On every exit every buffer the query allocated is zero if and only if it did not load a key of wrong length with a nonzero octet, and nothing but such a key remains; when validation and engine start, the plaintext is all that is left of the query; the outcome is the specified one |
| EphemeralWindow.QueryAnswer | enclave/src/rag_engine/processor.py:302-346 | Which answer comes when, in terms of the foreign calls alone: the engine's proof for document and prompt, in this order, exactly if every step succeeds, and each error exactly when its own step is the first to fail |
| EphemeralWindow.Analyse | enclave/src/rag_engine/processor.py:321-326 | Records every nonzero buffer that exists when validation and engine start, and leaves none of its own |
| FdcRequest.EncodeFdcWeb2JsonRequest | frontend/src/lib/copilot_engine.ts:79-108 | The loop with its running offset produces the hexadecimal form of the ABI layout with a zero commitment |
| FdcRequest.EncodeTuple | frontend/src/lib/copilot_engine.ts:95-107 | Offset words, tails and head are those of the ABI tuple encoding, for any number of fields |
| FdcRequest.EncodeAbiString | frontend/src/lib/copilot_engine.ts:55-61 | A block is length word, content and padding |
| FdcRequest.Utf8Hex | frontend/src/lib/copilot_engine.ts:39-45 | Two lower-case digits per octet |
| FdcRequest.HexReads | frontend/src/lib/copilot_engine.ts:39-45 | Reading the two digits of an octet gives the octet, high digit first, and all digits are lower-case |
| FdcRequest.Pad32HexIsPadRight | frontend/src/lib/copilot_engine.ts:47-53 | Identifiers are padded to 32 octets; longer ones throw |
| FdcRequest.OffsetPointsAtLength | frontend/src/lib/copilot_engine.ts:96-107 | Every offset word points at the length word of its own string |
| FdcRequest.RequestSize | frontend/src/lib/copilot_engine.ts:79-108 | The size is 352 plus, per string, 32 and its length rounded up to 32 |
| FdcRequest.PadUtf8Bytes32 | enclave/src/flare_client/fdc_encoder.py:120-138 | Accepts exactly 1 to 32 octets |
| FdcRequest.RequestRoundTrip | enclave/src/flare_client/fdc_encoder.py:392-429 | Decoding any encoded request returns the same seven strings |
| FdcRequest.EncodeRequestRoundTrip | enclave/src/flare_client/fdc_encoder.py:363-389 | The encoder fails exactly on an invalid body, commitment or identifier and is otherwise undone by the decoder |
| FdcRequest.EncodeRequestAnswer | enclave/src/flare_client/fdc_encoder.py:363-389 | Each failure under its exact condition; a success holds type, source and commitment in its three header words and the seven strings in the order of the tuple type |
| FdcRequest.LayoutReads | enclave/src/flare_client/fdc_encoder.py:372-389 | So does every request layout |
| FdcRequest.EncodersAgree | enclave/src/flare_client/fdc_encoder.py:363-389 | Browser and enclave agree octet for octet on every body the enclave accepts |
| FdcRequest.BrowserRequestInjective | frontend/src/lib/copilot_engine.ts:79-108 | Different bodies never make the same request string |
| Utf8.ValidIffEncoded | enclave/enclave_grpc/src/attestation/eat_builder.rs:131-133 | The octets accepted as text are exactly the UTF-8 encodings of sequences of Unicode scalar values |
| Cbor.DecodeEncode | enclave/enclave_grpc/src/attestation/eat_builder.rs:176-181 | Decoding inverts the serializer's encoding at any nesting and leaves what follows untouched |
| Cbor.HeadIsShortest | enclave/enclave_grpc/src/attestation/eat_builder.rs:176-181 | No head that reads back to the same argument is shorter than the one written; its length is 1, 2, 3, 5 or 9 |
| Cbor.ReferenceDecoderInverts | enclave/enclave_grpc/src/attestation/eat_builder.rs:276-279 | The contract assumed of the decoder can be met |
| Eat.EncodeClaims | enclave/enclave_grpc/src/attestation/eat_builder.rs:141-174 | The claim map holds the claims in order, without a nonce claim for an empty nonce, and one entry per measurement |
| Eat.ClaimLookup | enclave/enclave_grpc/src/attestation/verifier.rs:110-124 | Looking a claim up by its number in the built map finds the value that was pushed under it, and nothing else is found |
| Eat.MeasurementLookup | enclave/enclave_grpc/src/attestation/eat_builder.rs:162-168 | Looking up "rtmr" and the decimal index in the container finds that measurement |
| Eat.InstanceLookup | enclave/enclave_grpc/src/attestation/eat_builder.rs:162-165 | The container holds the instance id under its name |
| Eat.HeaderOnTheWire | enclave/enclave_grpc/src/attestation/eat_builder.rs:208-213 | The octets of the protected header, with algorithm -7 and the key identifier |
| Eat.SigStructureOnTheWire | enclave/enclave_grpc/src/attestation/eat_builder.rs:184-191 | The octets that are signed: context string, protected header, empty external data, payload |
| Eat.EnvelopeOnTheWire | enclave/enclave_grpc/src/attestation/eat_builder.rs:227-236 | The octets of the token: protected header, empty unprotected header, payload, 64-octet signature |
| Eat.BlankText | enclave/enclave_grpc/src/attestation/eat_builder.rs:201-206 | The test for a blank text holds exactly for texts of nothing but Unicode white space |
| Eat.BuildAnswer | enclave/enclave_grpc/src/attestation/eat_builder.rs:200-236 | A token is built exactly when name and digest each have a character that is not white space, with each error's exact condition |
| Eat.BuiltTokenParses | enclave/enclave_grpc/src/attestation/eat_builder.rs:247-274 | The envelope of a built token parses to its own parts |
| Eat.BuiltTokenSignature | enclave/enclave_grpc/src/attestation/verifier.rs:64-108 | The signature check passes on a built token and returns its payload |
| Eat.BuiltClaimsValidate | enclave/enclave_grpc/src/attestation/verifier.rs:181-230 | Validating built claims gives the verdict stated on the claims alone, error cases included |
| Eat.BuiltTokenVerdict | enclave/enclave_grpc/src/attestation/verifier.rs:233-242 | For any expectations the verifier's answer on a built token is that verdict |
| Eat.BuiltTokenAcceptedIff | enclave/enclave_grpc/src/attestation/eat_builder.rs:141-236 | Against its own claims a built token is accepted exactly when the nonce is not empty and iat is below 2^63, and the claims come back unchanged |
| Eat.CompleteClaimsRoundTrip | enclave/enclave_grpc/src/attestation/eat_builder.rs:141-236 | From complete claims with a nonce and an iat below 2^63 a token is built, and the verifier accepts it and returns the same nonce, name, digest, hardware and iat |
| Eat.ParseAnswer | enclave/enclave_grpc/src/attestation/eat_builder.rs:247-274 | A token parses exactly if it decodes to an array of four with byte strings in three places and a protected header that decodes |
| Eat.CoseAnswer | enclave/enclave_grpc/src/attestation/verifier.rs:64-108 | For any token, each answer of the signature check under its exact condition |
| Eat.ClaimsAnswer | enclave/enclave_grpc/src/attestation/verifier.rs:181-230 | For any claim set, each answer of the claim check under its exact condition, and what an accepted one returns |
| Eat.FindIntAt | enclave/enclave_grpc/src/attestation/verifier.rs:110-124 | A claim is the value of the first entry with its key |
| Eat.SigStructureBinds | enclave/enclave_grpc/src/attestation/eat_builder.rs:184-191 | Equal Sig_structure bytes mean equal protected header and payload |
| Eat.AcceptedClaimsWereSigned | enclave/enclave_grpc/src/attestation/verifier.rs:64-242 | Whatever token is accepted, the claims returned are those of a claim set that was signed and that meets the expectations |
| Rlp.DecodeEncode | enclave/enclave_grpc/src/kms/mpc_signer.rs:126-143 | RLP decoding inverts encoding for items of any nesting |
| Rlp.DecodesIffEncoded | enclave/enclave_grpc/src/kms/mpc_signer.rs:126-143 | A byte string decodes to an item exactly if it is the item's encoding: encodings are unique |
| Eip1559.RlpStream.AppendAll | enclave/enclave_grpc/src/kms/mpc_signer.rs:127-137 | Appending to the stream encodes the items in order; the list prefix comes with the last |
| Eip1559.BuildSigningPayload | enclave/enclave_grpc/src/kms/mpc_signer.rs:126-143 | The stream yields the type octet and the RLP list of the nine items |
| Eip1559.BuildRawSignedTx | enclave/enclave_grpc/src/kms/mpc_signer.rs:297-316 | The stream yields the type octet and the RLP list of the twelve items |
| Eip1559.SignedRoundTrip | enclave/enclave_grpc/src/kms/mpc_signer.rs:297-316 | The broadcast bytes decode to the same transaction and signature |
| Eip1559.DecodesIffRaw | enclave/enclave_grpc/src/kms/mpc_signer.rs:297-316 | Bytes decode to a transaction and a signature exactly if they are the bytes broadcast for them |
| Eip1559.SignedItemsExtendPayload | enclave/enclave_grpc/src/kms/mpc_signer.rs:256-316 | Re-encoding the first nine decoded items gives exactly the payload that was signed |
| Eip1559.SigningPayloadInjective | enclave/enclave_grpc/src/kms/mpc_signer.rs:126-143 | Two different transactions never share a signing payload |
| Eip1559.CanonicalIff | enclave/enclave_grpc/src/kms/mpc_signer.rs:132-135 | The integers on the wire are canonical exactly when value, r and s do not start with a zero octet, since they are appended as 32-byte strings |
| Eip1559.SharesAddUp | enclave/enclave_grpc/src/kms/mpc_signer.rs:237-242 | The two shares add up to the secret modulo the order, and the first is the random one |
| Eip1559.ComposedKeyIsKeyOfSum | enclave/enclave_grpc/src/kms/mpc_signer.rs:206-216 | From any two shares the composed key is that of their sum modulo the order, and exists unless a share or the sum is zero |
| Eip1559.ComposedKeyIsFullKey | enclave/enclave_grpc/src/kms/mpc_signer.rs:206-216 | The composed public key is that of the undivided secret, and exists unless a share is zero |

## Left out

- NonceLock.NoncesNeverCollide: the transaction count that is read is the chain's own; an endpoint that answers with a stale count is not modelled, and neither is a second process that signs with the same key.
- Overlap.OverlapLoad: one endpoint at a time; the order in which a call visits the pool is that of `Failover`, and under overlap each endpoint sees only its own starts and ends.
- Failover.Client.Rpc: session creation and the text of the error message are not modelled; a call's result is an integer.
- AttestationCache.TimelyRenewal: wall clock and event loop clock are one clock; a system clock that is set back is not modelled.
- TokenBucket.SharedTokenBucket.TryAcquire: the mutex is represented by the order of the calls.
- Median.VolumeTrimmedMedian: rounding of doubles, and prices that are not finite, for which the sort panics; the library's sort and sums are functions, the two explicit loops are loops.
- PriceBook.PriceBook.Snapshot: exchange parsers, reconnection and staleness alerts.
- Submission.RevealPricesCalldata: calldata beyond half the address space, which no vector can hold.
- EphemeralWindow.EphemeralProcessor.ExecuteQuery: page locking, immutable Python strings and bytes (the hexadecimal key setting, the value AES-GCM returns), and the hexadecimal parsing of the setting.
- EphemeralWindow.EphemeralProcessor.Ingest: the lock, and the substring search over the window.
- FdcRequest.EncodeRequest: the validation rules for urls, methods and JSON fields are a parameter; UTF-8 conversion and the checks of the ABI library on padding are not part of this model.
- Cbor.Decode: a reference decoder for definite lengths without tags, floats and simple values; the theorems on tokens hold for every decoder that inverts the encoder.
- Eat.BuildEat: ECDSA, key generation, zeroization of the signing key, and the derivation of report data.
- Eip1559.ComposedKeyIsFullKey: group laws are hypotheses; signature correctness, low-s form and recovery ids are not modelled.
- JWT parsing and claim checks, the attestation proof record, on-chain contract resolution and ABI argument mapping: settled branch by branch.
- WebSocket, DNS, TLS, gRPC, KMS, metrics, command line and user interface: plumbing over libraries.
