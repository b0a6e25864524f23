/**
 The in-memory context processor: a bounded window of payload buffers that are overwritten with
 zeroes before they are dropped, and the scrubbed query pipeline.
 */
module EphemeralWindow {
  import opened Bytes
  import opened Outcomes

  // ----- Sums and longest fitting suffixes

  /** Total length of the payloads from index k on. */
  ghost function TotalFrom(h: seq<bytes>, k: nat): nat
    requires k <= |h|
    decreases |h| - k
  {
    if k == |h| then 0 else |h[k]| + TotalFrom(h, k + 1)
  }

  /** The suffix from k respects both caps. */
  ghost predicate Fits(h: seq<bytes>, k: nat, slots: nat, cap: nat) {
    k <= |h| && |h| - k <= slots && TotalFrom(h, k) <= cap
  }

  /** The suffix from k is the longest one that respects both caps. */
  ghost predicate IsLongestFit(h: seq<bytes>, k: nat, slots: nat, cap: nat) {
    Fits(h, k, slots, cap) && forall j :: 0 <= j < k ==> !Fits(h, j, slots, cap)
  }

  lemma {:induction false} TotalOfAppend(h: seq<bytes>, p: bytes, k: nat)
    requires k <= |h|
    ensures TotalFrom(h + [p], k) == TotalFrom(h, k) + |p|
    decreases |h| - k
  {
    if k < |h| {
      TotalOfAppend(h, p, k + 1);
    } else {
      assert TotalFrom(h + [p], k + 1) == 0;
    }
  }

  /** No suffix that starts before k fits. */
  ghost predicate NoneFitsBefore(h: seq<bytes>, k: nat, slots: nat, cap: nat) {
    forall j :: 0 <= j < k ==> !Fits(h, j, slots, cap)
  }

  lemma NoneFitsStep(h: seq<bytes>, k: nat, slots: nat, cap: nat)
    requires NoneFitsBefore(h, k, slots, cap) && !Fits(h, k, slots, cap)
    ensures NoneFitsBefore(h, k + 1, slots, cap)
  {
  }

  /** Too many octets or too many payloads from k on, once p is appended. */
  lemma DoesNotFit(h: seq<bytes>, p: bytes, k: nat, slots: nat, cap: nat)
    requires k <= |h| && (TotalFrom(h, k) + |p| > cap || |h| - k >= slots)
    ensures !Fits(h + [p], k, slots, cap)
  {
    TotalOfAppend(h, p, k);
  }

  lemma FitsAfterAppend(h: seq<bytes>, p: bytes, k: nat, slots: nat, cap: nat)
    requires k <= |h| && TotalFrom(h, k) + |p| <= cap && |h| - k < slots
    requires NoneFitsBefore(h + [p], k, slots, cap)
    ensures IsLongestFit(h + [p], k, slots, cap)
  {
    TotalOfAppend(h, p, k);
  }

  /** What did not fit before an append does not fit after it. */
  lemma StillTooLong(h: seq<bytes>, p: bytes, k: nat, slots: nat, cap: nat)
    requires IsLongestFit(h, k, slots, cap)
    ensures NoneFitsBefore(h + [p], k, slots, cap)
  {
    forall j | 0 <= j < k ensures !Fits(h + [p], j, slots, cap) {
      assert !Fits(h, j, slots, cap);
      TotalOfAppend(h, p, j);
    }
  }

  // ----- Buffers

  ghost predicate AllZero(a: array<byte>)
    reads a
  {
    forall i :: 0 <= i < a.Length ==> a[i] == 0
  }

  method Zero(a: array<byte>)
    modifies a
    ensures AllZero(a)
    ensures forall x: array<byte> :: fresh(x) ==> AllZero(x)
  {
    forall i | 0 <= i < a.Length {
      a[i] := 0;
    }
  }

  method NewBuffer(payload: bytes) returns (a: array<byte>)
    ensures fresh(a) && a[..] == payload
    ensures forall x: array<byte> :: fresh(x) ==> AllZero(x) || x == a
  {
    a := new byte[|payload|](i requires 0 <= i < |payload| => payload[i]);
  }

  /** `append` on a bounded deque: at capacity it silently drops the oldest buffer. */
  function AppendBounded<T>(window: seq<T>, x: T, maxlen: nat): seq<T> {
    if |window| == maxlen && maxlen > 0 then window[1..] + [x] else window + [x]
  }

  datatype IngestError = Destroyed | TooLarge

  class EphemeralProcessor {
    const maxWindowSize: nat
    const maxContextBytes: nat
    var window: seq<array<byte>>
    var currentBytes: int
    var destroyed: bool
    /** Every buffer ever stored, and the payload it was stored with. */
    ghost var stored: seq<array<byte>>
    ghost var accepted: seq<bytes>

    /** Index of the oldest retained payload. */
    ghost function First(): int
      reads this
    {
      |stored| - |window|
    }

    /** Buffers and accounting are consistent: retained ones are intact, dropped ones are zero. */
    ghost predicate Shape()
      reads this, stored
    {
      && maxWindowSize > 0 && maxContextBytes > 0
      && |stored| == |accepted|
      && |window| <= |stored| && window == stored[First()..]
      && (forall i, j :: 0 <= i < j < |stored| ==> stored[i] != stored[j])
      && (forall i :: 0 <= i < First() ==> AllZero(stored[i]))
      && (forall i :: First() <= i < |stored| ==> stored[i][..] == accepted[i])
      && currentBytes == TotalFrom(accepted, First())
    }

    /**
     The window is the longest suffix of the accepted payloads that fits both caps; after `destroy`
     it is empty and every buffer is zero.
     */
    ghost predicate Valid()
      reads this, stored
    {
      && Shape()
      && (if destroyed then window == [] else IsLongestFit(accepted, First(), maxWindowSize, maxContextBytes))
    }

    constructor (maxWindowSize: nat, maxContextBytes: nat)
      requires maxWindowSize > 0 && maxContextBytes > 0
      ensures Valid() && !destroyed && accepted == [] && stored == []
      ensures this.maxWindowSize == maxWindowSize && this.maxContextBytes == maxContextBytes
    {
      this.maxWindowSize := maxWindowSize;
      this.maxContextBytes := maxContextBytes;
      window, currentBytes, destroyed := [], 0, false;
      stored, accepted := [], [];
    }

    method ZeroEvict()
      requires Shape() && window != []
      modifies this`window, this`currentBytes, window[0]
      ensures Shape() && window == old(window)[1..] && First() == old(First()) + 1
      ensures AllZero(old(window[0]))
      ensures currentBytes == old(currentBytes) - |accepted[old(First())]|
    {
      var oldest := window[0];
      assert oldest == stored[First()];
      assert oldest.Length == |accepted[First()]|;
      window := window[1..];
      currentBytes := currentBytes - oldest.Length;
      Zero(oldest);
    }

    /** The eviction part of `ingest`: every drop goes through `ZeroEvict`. */
    method MakeRoom(payload: bytes)
      requires Valid() && !destroyed && |payload| <= maxContextBytes
      modifies this`window, this`currentBytes, stored
      ensures Shape() && |window| < maxWindowSize
      ensures First() >= old(First())
      ensures IsLongestFit(accepted + [payload], First(), maxWindowSize, maxContextBytes)
    {
      StillTooLong(accepted, payload, First(), maxWindowSize, maxContextBytes);
      while currentBytes + |payload| > maxContextBytes && window != []
        invariant Shape() && |window| <= |old(window)| && |window| <= maxWindowSize
        invariant NoneFitsBefore(accepted + [payload], First(), maxWindowSize, maxContextBytes)
        decreases |window|
      {
        DoesNotFit(accepted, payload, First(), maxWindowSize, maxContextBytes);
        NoneFitsStep(accepted + [payload], First(), maxWindowSize, maxContextBytes);
        ZeroEvict();
      }
      if |window| >= maxWindowSize {
        DoesNotFit(accepted, payload, First(), maxWindowSize, maxContextBytes);
        NoneFitsStep(accepted + [payload], First(), maxWindowSize, maxContextBytes);
        ZeroEvict();
      }
      FitsAfterAppend(accepted, payload, First(), maxWindowSize, maxContextBytes);
    }

    method Store(payload: bytes)
      requires Shape() && !destroyed && |window| < maxWindowSize
      requires IsLongestFit(accepted + [payload], First(), maxWindowSize, maxContextBytes)
      modifies this
      ensures Valid() && !destroyed && accepted == old(accepted) + [payload]
      ensures |stored| == |old(stored)| + 1 && stored[..|old(stored)|] == old(stored) && fresh(stored[|old(stored)|])
      ensures First() == old(First())
    {
      var buffer := NewBuffer(payload);
      TotalOfAppend(accepted, payload, First());
      assert AppendBounded(window, buffer, maxWindowSize) == window + [buffer];
      window := AppendBounded(window, buffer, maxWindowSize);
      currentBytes := currentBytes + |payload|;
      stored := stored + [buffer];
      accepted := accepted + [payload];
    }

    method Ingest(payload: bytes) returns (r: Result<(), IngestError>)
      requires Valid()
      modifies this, stored
      ensures Valid() && destroyed == old(destroyed)
      ensures r == Err(Destroyed) <==> old(destroyed)
      ensures r == Err(TooLarge) <==> !old(destroyed) && |payload| > maxContextBytes
      ensures r.Err? ==> unchanged(this) && forall a :: a in old(stored) ==> unchanged(a)
      ensures r.Ok? ==> && accepted == old(accepted) + [payload]
                        && |stored| == |old(stored)| + 1 && stored[..|old(stored)|] == old(stored)
                        && fresh(stored[|old(stored)|])
    {
      if destroyed {
        return Err(Destroyed);
      }
      if |payload| > maxContextBytes {
        return Err(TooLarge);
      }
      MakeRoom(payload);
      Store(payload);
      return Ok(());
    }

    method Destroy()
      requires Valid()
      modifies this, stored
      ensures Valid() && destroyed && currentBytes == 0
      ensures stored == old(stored) && forall i :: 0 <= i < |stored| ==> AllZero(stored[i])
    {
      if destroyed {
        return;
      }
      while window != []
        invariant Shape() && stored == old(stored) && accepted == old(accepted)
        decreases |window|
      {
        ZeroEvict();
      }
      currentBytes := 0;
      destroyed := true;
    }

    // ----- The query pipeline

    /**
     One encrypted query. `key` is what the key setting decodes to, if it is well-formed. Every buffer
     that the query allocates is zero on every exit, with one exception: a key of the wrong length is
     dropped as it is. When validation and engine start, nothing is left of the query but the plaintext.
     */
    method ExecuteQuery(encrypted: bytes, key: Option<bytes>, env: Engine, onlooker: Onlooker)
      returns (r: Result<Proof, QueryError>)
      modifies onlooker
      ensures r == Query(destroyed, encrypted, key, env)
      ensures (forall x: array<byte> :: fresh(x) ==> AllZero(x)) <==> !DropsKey(destroyed, encrypted, key)
      ensures forall x: array<byte> :: fresh(x) && !AllZero(x) ==> key == Some(x[..])
      ensures var text := Plaintext(destroyed, encrypted, key, env);
              if text.None? then unchanged(onlooker)
              else && (forall x :: x in onlooker.seen && fresh(x) ==> onlooker.seen[x] == text.value)
                   && (!Blank(text.value) ==> exists x :: x in onlooker.seen && fresh(x))
    {
      if destroyed {
        return Err(ProcessorDestroyed);
      }
      if |encrypted| > MAX_ENCRYPTED_PAYLOAD {
        return Err(PayloadTooLarge);
      }
      var loaded := LoadPayloadKey(key);
      if loaded.Err? {
        return Err(loaded.error);
      }
      var decrypted := DecryptPayload(loaded.value, encrypted, env);
      if decrypted.Err? {
        Zero(loaded.value);
        return Err(decrypted.error);
      }
      Zero(loaded.value);
      SameOctets(decrypted.value[..], decrypted.value);
      r := Analyse(decrypted.value, env, onlooker);
      Zero(decrypted.value);
    }
  }

  const MAX_ENCRYPTED_PAYLOAD: nat := 4 * 1024 * 1024
  const NONCE_LEN: nat := 12
  const TAG_LEN: nat := 16
  const KEY_LEN: nat := 32

  datatype QueryError =
    | ProcessorDestroyed | PayloadTooLarge | KeyUnavailable
    | PayloadTooShort | TagMismatch | SchemaViolation | EngineMissing | EngineFailed

  datatype Proof = Proof(proof: bytes, docHash: bytes, promptHash: bytes, outputHash: bytes)

  /** The plaintext contract: what the engine indexes and what it is asked. */
  datatype DecryptedPayload = DecryptedPayload(document: bytes, prompt: bytes)

  /** The additional data every payload is authenticated with. */
  function Aad(): bytes {
    Ascii("flare-verifiable-rag:enclave:v1")
  }

  /** The foreign calls: AES-GCM decryption, schema validation and the Rust engine. */
  datatype Engine = Engine(
    decrypt: (bytes, bytes, bytes, bytes) -> Option<bytes>,
    validate: bytes -> Option<DecryptedPayload>,
    installed: bool,
    prove: (bytes, bytes) -> Option<Proof>)

  /** Foreign code after decryption, and what it could find in memory: the buffers that were not zero. */
  class Onlooker {
    ghost var seen: map<array<byte>, bytes>

    ghost method Look()
      modifies this
      ensures forall x: array<byte> :: x in seen <==> allocated(x) && !AllZero(x)
      ensures forall x :: x in seen ==> seen[x] == x[..]
      ensures forall x: array<byte> :: fresh(x) ==> AllZero(x)
    {
      seen := map x: array<byte> | allocated(x) && !AllZero(x) :: x[..];
    }
  }

  /** What a query yields, without the buffers. */
  function Query(destroyed: bool, encrypted: bytes, key: Option<bytes>, env: Engine): Result<Proof, QueryError> {
    if destroyed then Err(ProcessorDestroyed)
    else if |encrypted| > MAX_ENCRYPTED_PAYLOAD then Err(PayloadTooLarge)
    else if key.None? || |key.value| != KEY_LEN then Err(KeyUnavailable)
    else if |encrypted| < NONCE_LEN + TAG_LEN then Err(PayloadTooShort)
    else match env.decrypt(key.value, encrypted[..NONCE_LEN], encrypted[NONCE_LEN..], Aad())
      case None => Err(TagMismatch)
      case Some(text) => AnalyseText(text, env)
  }

  function AnalyseText(text: bytes, env: Engine): Result<Proof, QueryError> {
    match env.validate(text)
    case None => Err(SchemaViolation)
    case Some(payload) =>
      if !env.installed then Err(EngineMissing)
      else match env.prove(payload.document, payload.prompt)
        case None => Err(EngineFailed)
        case Some(proof) => Ok(proof)
  }

  /** What the query decrypts, authenticated with the enclave's additional data. */
  ghost function Opened(encrypted: bytes, key: bytes, env: Engine): Option<bytes>
    requires |encrypted| >= 28
  {
    env.decrypt(key, encrypted[..12], encrypted[12..], Ascii("flare-verifiable-rag:enclave:v1"))
  }

  /** The query is answered by the engine's proof for the document and the prompt, in this order. */
  ghost predicate AnsweredBy(encrypted: bytes, key: bytes, env: Engine, proof: Proof)
    requires |encrypted| >= 28
  {
    exists text, payload ::
      && Opened(encrypted, key, env) == Some(text) && env.validate(text) == Some(payload)
      && env.installed && env.prove(payload.document, payload.prompt) == Some(proof)
  }

  /** When each answer is given, in terms of the foreign calls alone. */
  lemma QueryAnswer(destroyed: bool, encrypted: bytes, key: Option<bytes>, env: Engine)
    ensures var r := Query(destroyed, encrypted, key, env);
            var tooLarge := |encrypted| > 4194304;
            var keyed := key.Some? && |key.value| == 32;
            && (r == Err(ProcessorDestroyed) <==> destroyed)
            && (r == Err(PayloadTooLarge) <==> !destroyed && tooLarge)
            && (r == Err(KeyUnavailable) <==> !destroyed && !tooLarge && !keyed)
            && (r == Err(PayloadTooShort) <==> !destroyed && !tooLarge && keyed && |encrypted| < 28)
            && (r.Ok? ==> !destroyed && !tooLarge && keyed && |encrypted| >= 28)
    ensures var r := Query(destroyed, encrypted, key, env);
            !destroyed && 28 <= |encrypted| <= 4194304 && key.Some? && |key.value| == 32 ==>
              var text := Opened(encrypted, key.value, env);
              && (r == Err(TagMismatch) <==> text.None?)
              && (r == Err(SchemaViolation) <==> text.Some? && env.validate(text.value).None?)
              && (r == Err(EngineMissing) <==> text.Some? && env.validate(text.value).Some? && !env.installed)
              && (r == Err(EngineFailed) <==>
                    && text.Some? && env.validate(text.value).Some? && env.installed
                    && var payload := env.validate(text.value).value;
                    env.prove(payload.document, payload.prompt).None?)
              && forall proof :: r == Ok(proof) <==> AnsweredBy(encrypted, key.value, env, proof)
  {
  }

  /** The plaintext of a query that gets as far as decryption. */
  function Plaintext(destroyed: bool, encrypted: bytes, key: Option<bytes>, env: Engine): Option<bytes> {
    if destroyed || |encrypted| > MAX_ENCRYPTED_PAYLOAD || |encrypted| < NONCE_LEN + TAG_LEN
       || key.None? || |key.value| != KEY_LEN then None
    else env.decrypt(key.value, encrypted[..NONCE_LEN], encrypted[NONCE_LEN..], Aad())
  }

  /** The query loads a key, finds its length wrong, and there is something in it to be wiped. */
  predicate DropsKey(destroyed: bool, encrypted: bytes, key: Option<bytes>) {
    && !destroyed && |encrypted| <= MAX_ENCRYPTED_PAYLOAD
    && WrongKey(key)
  }

  predicate WrongKey(key: Option<bytes>) {
    key.Some? && |key.value| != KEY_LEN && !Blank(key.value)
  }

  predicate Blank(octets: bytes) {
    forall i :: 0 <= i < |octets| ==> octets[i] == 0
  }

  lemma SameOctets(octets: bytes, buffer: array<byte>)
    requires buffer[..] == octets
    ensures AllZero(buffer) <==> Blank(octets)
  {
    assert forall i :: 0 <= i < |octets| ==> buffer[i] == octets[i];
  }

  /** The key buffer; a wrong length raises without wiping what was decoded. */
  method LoadPayloadKey(key: Option<bytes>) returns (r: Result<array<byte>, QueryError>)
    ensures r.Ok? <==> key.Some? && |key.value| == KEY_LEN
    ensures r.Ok? ==> fresh(r.value) && r.value[..] == key.value
    ensures r.Ok? ==> forall x: array<byte> :: fresh(x) ==> AllZero(x) || x == r.value
    ensures r.Err? ==> r.error == KeyUnavailable
    ensures r.Err? ==> forall x: array<byte> :: fresh(x) && !AllZero(x) ==> key == Some(x[..])
    ensures r.Err? ==> ((forall x: array<byte> :: fresh(x) ==> AllZero(x)) <==> !WrongKey(key))
  {
    if key.None? {
      return Err(KeyUnavailable);
    }
    var buffer := NewBuffer(key.value);
    if |key.value| != KEY_LEN {
      SameOctets(key.value, buffer);
      return Err(KeyUnavailable);
    }
    return Ok(buffer);
  }

  /** Of all buffers it allocates, only the plaintext it returns is not zero; the ciphertext copy is. */
  method DecryptPayload(key: array<byte>, encrypted: bytes, env: Engine) returns (r: Result<array<byte>, QueryError>)
    ensures forall x: array<byte> :: fresh(x) ==> AllZero(x) || (r.Ok? && x == r.value)
    ensures |encrypted| < NONCE_LEN + TAG_LEN ==> r == Err(PayloadTooShort)
    ensures |encrypted| >= NONCE_LEN + TAG_LEN ==>
              match env.decrypt(key[..], encrypted[..NONCE_LEN], encrypted[NONCE_LEN..], Aad())
              case None => r == Err(TagMismatch)
              case Some(text) => r.Ok? && fresh(r.value) && r.value[..] == text
  {
    if |encrypted| < NONCE_LEN + TAG_LEN {
      return Err(PayloadTooShort);
    }
    var work := NewBuffer(encrypted);
    assert work[..NONCE_LEN] == encrypted[..NONCE_LEN] && work[NONCE_LEN..] == encrypted[NONCE_LEN..];
    var text := env.decrypt(key[..], work[..NONCE_LEN], work[NONCE_LEN..], Aad());
    if text.None? {
      Zero(work);
      return Err(TagMismatch);
    }
    var plain := NewBuffer(text.value);
    Zero(work);
    return Ok(plain);
  }

  /** Everything after decryption. */
  method Analyse(plain: array<byte>, env: Engine, onlooker: Onlooker) returns (r: Result<Proof, QueryError>)
    modifies onlooker
    ensures r == AnalyseText(plain[..], env)
    ensures forall x: array<byte> :: fresh(x) ==> AllZero(x)
    ensures forall x: array<byte> :: x in onlooker.seen ==>
              old(allocated(x)) && !AllZero(x) && onlooker.seen[x] == x[..]
    ensures forall x: array<byte> :: old(allocated(x)) && !AllZero(x) ==> x in onlooker.seen
  {
    onlooker.Look();
    var payload := env.validate(plain[..]);
    if payload.None? {
      return Err(SchemaViolation);
    }
    if !env.installed {
      return Err(EngineMissing);
    }
    var proof := env.prove(payload.value.document, payload.value.prompt);
    if proof.None? {
      return Err(EngineFailed);
    }
    return Ok(proof.value);
  }

  // ----- The window as a function of history

  /** The longest fitting suffix, counted from the end. */
  ghost function WindowStart(h: seq<bytes>, k: nat, slots: nat, cap: nat): (s: nat)
    requires k <= |h|
    ensures k <= s <= |h|
    decreases |h| - k
  {
    if k == |h| || Fits(h, k, slots, cap) then k else WindowStart(h, k + 1, slots, cap)
  }

  lemma {:induction false} WindowStartIsLongest(h: seq<bytes>, k: nat, slots: nat, cap: nat)
    requires k <= |h| && forall j :: 0 <= j < k ==> !Fits(h, j, slots, cap)
    ensures IsLongestFit(h, WindowStart(h, k, slots, cap), slots, cap)
    decreases |h| - k
  {
    if k < |h| && !Fits(h, k, slots, cap) {
      WindowStartIsLongest(h, k + 1, slots, cap);
    }
  }

  /** The longest fit exists and is unique, so `Valid` determines the window from the accepted payloads alone. */
  lemma WindowIsDetermined(h: seq<bytes>, k: nat, slots: nat, cap: nat)
    requires k <= |h|
    ensures IsLongestFit(h, k, slots, cap) <==> k == WindowStart(h, 0, slots, cap)
  {
    WindowStartIsLongest(h, 0, slots, cap);
    var s := WindowStart(h, 0, slots, cap);
    if IsLongestFit(h, k, slots, cap) && k != s {
      assert false;
    }
  }

  /** The window after one more accepted payload starts no earlier, and the new payload is always kept. */
  lemma WindowSlides(h: seq<bytes>, p: bytes, slots: nat, cap: nat)
    requires slots > 0 && |p| <= cap
    ensures WindowStart(h, 0, slots, cap) <= WindowStart(h + [p], 0, slots, cap) <= |h|
  {
    WindowStartIsLongest(h, 0, slots, cap);
    WindowStartIsLongest(h + [p], 0, slots, cap);
    var k, s := WindowStart(h, 0, slots, cap), WindowStart(h + [p], 0, slots, cap);
    StillTooLong(h, p, k, slots, cap);
    TotalOfAppend(h, p, |h|);
    assert Fits(h + [p], |h|, slots, cap);
  }
}
