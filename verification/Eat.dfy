/**
 Entity attestation tokens: a CBOR claim set inside a COSE_Sign1 envelope (sections 4.2 and 4.4 of
 RFC 9052), built by the enclave and checked offline by a verifier. Signing, signature verification
 and the CBOR decoder are parameters.
 */
module Eat {
  import opened Bytes
  import opened Outcomes
  import opened Utf8
  import opened Cbor

  const CLAIM_IAT: CborInt := 6
  const CLAIM_NONCE: CborInt := 10
  const CLAIM_UEID: CborInt := 256
  const CLAIM_SUBMODS: CborInt := 266
  const CLAIM_SWNAME: CborInt := 342
  const ALG_ES256: CborInt := -7
  const HEADER_ALG: CborInt := 1
  const HEADER_KID: CborInt := 4

  type Measurements = m: seq<bytes32> | |m| < 0x400_0000_0000_0000

  datatype EatClaims = EatClaims(
    nonce: Buffer, swname: Buffer, imageDigest: Buffer, hardware: Buffer,
    instanceId: bytes16, iat: u64, measurements: Measurements)

  // ----- Literals and whitespace

  lemma LiteralIsUtf8(s: string)
    ensures ValidUtf8(Ascii(s))
  {
    AsciiIsUtf8(Ascii(s));
  }

  function Decimal(n: nat): (d: bytes)
    ensures 0 < |d| <= n + 1
    ensures forall i :: 0 <= i < |d| ==> 48 <= d[i] < 58
  {
    if n < 10 then [48 + n] else Decimal(n / 10) + [48 + n % 10]
  }

  function RtmrKey(i: nat): (t: Buffer)
    requires i < 0x400_0000_0000_0000
  {
    Ascii("rtmr") + Decimal(i)
  }

  lemma RtmrKeyIsUtf8(i: nat)
    requires i < 0x400_0000_0000_0000
    ensures ValidUtf8(RtmrKey(i))
  {
    AsciiIsUtf8(RtmrKey(i));
  }

  /** Octets of the Unicode white space character at the head of s, 0 if there is none. */
  function SpaceLength(s: bytes): (n: nat)
    ensures n <= |s|
  {
    if |s| >= 1 && (0x09 <= s[0] <= 0x0D || s[0] == 0x20) then 1
    else if |s| >= 2 && s[0] == 0xC2 && (s[1] == 0x85 || s[1] == 0xA0) then 2
    else if |s| >= 3 && ((s[0] == 0xE1 && s[1] == 0x9A && s[2] == 0x80)
                      || (s[0] == 0xE2 && s[1] == 0x80
                          && (0x80 <= s[2] <= 0x8A || s[2] == 0xA8 || s[2] == 0xA9 || s[2] == 0xAF))
                      || (s[0] == 0xE2 && s[1] == 0x81 && s[2] == 0x9F)
                      || (s[0] == 0xE3 && s[1] == 0x80 && s[2] == 0x80)) then 3
    else 0
  }

  /** `trim().is_empty()` */
  predicate Blank(s: bytes)
    decreases |s|
  {
    s == [] || (SpaceLength(s) > 0 && Blank(s[SpaceLength(s)..]))
  }

  /** The characters Unicode gives the property White_Space. */
  ghost predicate IsWhite(c: Scalar) {
    || 9 <= c <= 13 || c == 0x20 || c == 0x85 || c == 0xA0 || c == 0x1680
    || 0x2000 <= c <= 0x200A || c == 0x2028 || c == 0x2029 || c == 0x202F || c == 0x205F || c == 0x3000
  }

  lemma SpaceOfScalar(c: Scalar, rest: bytes)
    ensures SpaceLength(EncodeScalar(c) + rest) == if IsWhite(c) then |EncodeScalar(c)| else 0
  {
    HeadOctets(c, rest);
  }

  lemma {:induction false} BlankText(text: seq<Scalar>)
    ensures Blank(EncodeText(text)) <==> forall i :: 0 <= i < |text| ==> IsWhite(text[i])
  {
    if text != [] {
      SpaceOfScalar(text[0], EncodeText(text[1..]));
      HeadOctets(text[0], EncodeText(text[1..]));
      BlankText(text[1..]);
      AllOfHeadAndTail(text);
    }
  }

  lemma AllOfHeadAndTail(text: seq<Scalar>)
    requires text != []
    ensures (forall i :: 0 <= i < |text| ==> IsWhite(text[i]))
       <==> IsWhite(text[0]) && forall i :: 0 <= i < |text[1..]| ==> IsWhite(text[1..][i])
  {
    if IsWhite(text[0]) && forall i :: 0 <= i < |text[1..]| ==> IsWhite(text[1..][i]) {
      forall i | 0 <= i < |text| ensures IsWhite(text[i]) {
        assert i > 0 ==> text[i] == text[1..][i - 1];
      }
    }
  }

  /** The octets are those of a text with a character that is not white space. */
  ghost predicate HasVisible(s: bytes) {
    exists text, i :: EncodeText(text) == s && 0 <= i < |text| && !IsWhite(text[i])
  }

  lemma BlankIffNothingVisible(s: bytes)
    requires ValidUtf8(s)
    ensures Blank(s) <==> !HasVisible(s)
  {
    var text := TextOf(s);
    BlankText(text);
    forall other, i | EncodeText(other) == s && 0 <= i < |other| && !IsWhite(other[i]) ensures !Blank(s) {
      BlankText(other);
    }
  }

  // ----- Building

  /** The cast to i64 wraps. */
  function AsI64(n: u64): CborInt {
    if n < TWO_64 / 2 then n else n - TWO_64
  }

  function RtmrEntry(i: nat, m: bytes32): Entry
    requires i < 0x400_0000_0000_0000
  {
    Entry(Text(RtmrKey(i)), Value.Bytes(m))
  }

  function RtmrEntries(ms: seq<bytes32>, n: nat): (es: seq<Entry>)
    requires n <= |ms| < 0x400_0000_0000_0000
    ensures |es| == n
    ensures forall i :: 0 <= i < n ==> es[i] == RtmrEntry(i, ms[i])
  {
    if n == 0 then [] else RtmrEntries(ms, n - 1) + [RtmrEntry(n - 1, ms[n - 1])]
  }

  function TextEntry(key: Buffer, t: Buffer): Entry {
    Entry(Text(key), Text(t))
  }

  function InstanceEntry(c: EatClaims): Entry {
    Entry(Text(Ascii("instance_id")), Value.Bytes(c.instanceId))
  }

  /** Two text claims, the instance id, then one entry per measurement register. */
  function ContainerEntries(c: EatClaims): seq<Entry> {
    [TextEntry(Ascii("image_digest"), c.imageDigest), TextEntry(Ascii("hardware"), c.hardware), InstanceEntry(c)]
    + RtmrEntries(c.measurements, |c.measurements|)
  }

  method PushMeasurements(container: seq<Entry>, ms: Measurements) returns (r: seq<Entry>)
    ensures r == container + RtmrEntries(ms, |ms|)
  {
    r := container;
    for i := 0 to |ms|
      invariant r == container + RtmrEntries(ms, i)
    {
      r := r + [RtmrEntry(i, ms[i])];
    }
  }

  method BuildContainer(c: EatClaims) returns (container: seq<Entry>)
    ensures container == ContainerEntries(c)
  {
    container := [TextEntry(Ascii("image_digest"), c.imageDigest)];
    container := container + [TextEntry(Ascii("hardware"), c.hardware)];
    container := container + [InstanceEntry(c)];
    container := PushMeasurements(container, c.measurements);
  }

  function IatEntry(c: EatClaims): Entry {
    Entry(Integer(CLAIM_IAT), Integer(AsI64(c.iat)))
  }

  function NonceEntry(c: EatClaims): Entry {
    Entry(Integer(CLAIM_NONCE), Value.Bytes(c.nonce))
  }

  /** The random-type UEID: a tag octet and the instance id. */
  function UeidEntry(c: EatClaims): Entry {
    Entry(Integer(CLAIM_UEID), Value.Bytes([0x02] + c.instanceId))
  }

  function SwnameEntry(c: EatClaims): Entry {
    Entry(Integer(CLAIM_SWNAME), Text(c.swname))
  }

  function SubmodsEntry(container: seq<Entry>): Entry {
    Entry(Integer(CLAIM_SUBMODS), Map([Entry(Text(Ascii("container")), Map(container))]))
  }

  /** The claim map; an empty nonce leaves no claim behind. */
  function ClaimEntries(c: EatClaims): seq<Entry> {
    if c.nonce == [] then [IatEntry(c), UeidEntry(c), SwnameEntry(c), SubmodsEntry(ContainerEntries(c))]
    else [IatEntry(c), NonceEntry(c), UeidEntry(c), SwnameEntry(c), SubmodsEntry(ContainerEntries(c))]
  }

  lemma Pushes<T>(a: T, b: T, c: T, d: T, e: T)
    ensures [a] + [c] + [d] + [e] == [a, c, d, e]
    ensures [a] + [b] + [c] + [d] + [e] == [a, b, c, d, e]
  {
  }

  method EncodeClaims(c: EatClaims) returns (v: Value)
    ensures v == Map(ClaimEntries(c))
  {
    var entries := [IatEntry(c)];
    if c.nonce != [] {
      entries := entries + [NonceEntry(c)];
    }
    entries := entries + [UeidEntry(c)];
    entries := entries + [SwnameEntry(c)];
    var container := BuildContainer(c);
    var submods := SubmodsEntry(container);
    entries := entries + [submods];
    Pushes(IatEntry(c), NonceEntry(c), UeidEntry(c), SwnameEntry(c), submods);
    v := Map(entries);
  }

  function ProtectedHeader(): Value {
    Map([Entry(Integer(HEADER_ALG), Integer(ALG_ES256)), Entry(Integer(HEADER_KID), Value.Bytes(Ascii("enclave-v1")))])
  }

  function SigStructure(protected: Buffer, payload: Buffer): Value {
    Array([Text(Ascii("Signature1")), Value.Bytes(protected), Value.Bytes([]), Value.Bytes(payload)])
  }

  function Envelope(protected: Buffer, payload: Buffer, signature: bytes64): Value {
    Array([Value.Bytes(protected), Map([]), Value.Bytes(payload), Value.Bytes(signature)])
  }

  /** The texts are UTF-8, as every Rust string is, and the encoded claim set fits in memory. */
  predicate Fits(c: EatClaims) {
    && ValidUtf8(c.swname) && ValidUtf8(c.imageDigest) && ValidUtf8(c.hardware)
    && |Encode(Map(ClaimEntries(c)))| < TWO_64
  }

  lemma ProtectedIsSmall()
    ensures |Encode(ProtectedHeader())| < TWO_64
  {
    var es := ProtectedHeader().entries;
    assert es[1..][1..] == [];
    assert |EncodePairs(es[1..])| == |EncodeEntry(es[1])|;
    assert |EncodePairs(es)| == |EncodeEntry(es[0])| + |EncodeEntry(es[1])|;
    assert |EncodeEntry(es[1])| <= 40;
  }

  function ProtectedBytes(): Buffer {
    ProtectedIsSmall();
    Encode(ProtectedHeader())
  }

  function PayloadBytes(c: EatClaims): Buffer
    requires Fits(c)
  {
    Encode(Map(ClaimEntries(c)))
  }

  /** What is signed for a claim set. */
  function SigInput(c: EatClaims): bytes
    requires Fits(c)
  {
    Encode(SigStructure(ProtectedBytes(), PayloadBytes(c)))
  }

  datatype BuildError = BlankSwname | BlankDigest

  type Signer = bytes -> bytes64

  /** The COSE_Sign1 envelope around the signed claim set. */
  function SignedToken(c: EatClaims, sign: Signer): bytes
    requires Fits(c)
  {
    Encode(Envelope(ProtectedBytes(), PayloadBytes(c), sign(SigInput(c))))
  }

  function BuildEat(c: EatClaims, sign: Signer): Result<bytes, BuildError>
    requires Fits(c)
  {
    if Blank(c.swname) then Err(BlankSwname)
    else if Blank(c.imageDigest) then Err(BlankDigest)
    else Ok(SignedToken(c, sign))
  }

  // ----- Verifying

  datatype VerifyError =
    | Malformed(what: string) | UnsupportedAlg(alg: int) | BadSignature
    | Policy(what: string) | MissingClaim(what: string)

  datatype VerifiedEat = VerifiedEat(nonce: bytes, swname: bytes, imageDigest: bytes, hardware: bytes, iat: nat)

  /** `wellFormed` is the signature parser, `accepts` the ECDSA check. */
  datatype VerifyingKey = VerifyingKey(wellFormed: bytes64 -> bool, accepts: (bytes, bytes64) -> bool)

  /** The first entry with an integer key. */
  function FindInt(es: seq<Entry>, key: CborInt): Option<Value> {
    if es == [] then None
    else if es[0].key == Integer(key) then Some(es[0].value)
    else FindInt(es[1..], key)
  }

  /** The first entry with a text key. */
  function FindText(es: seq<Entry>, key: Buffer): Option<Value> {
    if es == [] then None
    else if es[0].key == Text(key) then Some(es[0].value)
    else FindText(es[1..], key)
  }

  /** The first entry with a text key whose value is text too. */
  function FindTextValue(es: seq<Entry>, key: Buffer): Option<Buffer> {
    if es == [] then None
    else if es[0].key == Text(key) && es[0].value.Text? then Some(es[0].value.t)
    else FindTextValue(es[1..], key)
  }

  function Claim(claims: Value, key: CborInt): Option<Value> {
    if claims.Map? then FindInt(claims.entries, key) else None
  }

  function ContainerText(claims: Value, key: Buffer): Option<Buffer> {
    match Claim(claims, CLAIM_SUBMODS)
    case Some(Map(submods)) =>
      (match FindText(submods, Ascii("container"))
       case Some(Map(container)) => FindTextValue(container, key)
       case _ => None)
    case _ => None
  }

  datatype Parsed = Parsed(protected: Buffer, protectedMap: Value, payload: Buffer, signature: Buffer)

  function ParseCoseSign1(dec: Decoder, token: bytes): Option<Parsed> {
    match dec(token)
    case Some(Array(parts)) =>
      if |parts| != 4 || !parts[0].Bytes? then None
      else
        (match dec(parts[0].b)
         case None => None
         case Some(header) =>
           if !parts[2].Bytes? || !parts[3].Bytes? then None
           else Some(Parsed(parts[0].b, header, parts[2].b, parts[3].b)))
    case _ => None
  }

  function VerifyCoseSign1(dec: Decoder, token: bytes, key: VerifyingKey): Result<Buffer, VerifyError> {
    match ParseCoseSign1(dec, token)
    case None => Err(Malformed("parse failed"))
    case Some(p) =>
      match Claim(p.protectedMap, HEADER_ALG)
      case None => Err(Malformed("protected header missing alg"))
      case Some(Integer(alg)) =>
        if alg != ALG_ES256 then Err(UnsupportedAlg(alg))
        else if |p.signature| != 64 then Err(Malformed("signature must be 64 bytes (r||s)"))
        else if !key.wellFormed(p.signature) then Err(Malformed("invalid signature encoding"))
        else if !key.accepts(Encode(SigStructure(p.protected, p.payload)), p.signature) then Err(BadSignature)
        else Ok(p.payload)
      case Some(_) => Err(Malformed("alg must be an integer"))
  }

  /** What the caller of the verifier demands; None leaves a claim unchecked. */
  datatype Expected = Expected(swname: bytes, digest: Option<bytes>, nonce: Option<bytes>)

  function ValidateClaims(dec: Decoder, payload: bytes, e: Expected): Result<VerifiedEat, VerifyError> {
    match dec(payload)
    case None => Err(Malformed("claims decode failed"))
    case Some(claims) => ValidateSwname(claims, e)
  }

  function ValidateSwname(claims: Value, e: Expected): Result<VerifiedEat, VerifyError> {
    match Claim(claims, CLAIM_SWNAME)
    case Some(Text(swname)) =>
      if swname != e.swname then Err(Policy("swname")) else ValidateDigest(claims, swname, e)
    case _ => Err(MissingClaim("swname"))
  }

  function ValidateDigest(claims: Value, swname: bytes, e: Expected): Result<VerifiedEat, VerifyError> {
    match ContainerText(claims, Ascii("image_digest"))
    case None => Err(MissingClaim("image_digest"))
    case Some(digest) =>
      if e.digest.Some? && digest != e.digest.value then Err(Policy("image_digest"))
      else ValidateNonce(claims, swname, digest, e)
  }

  function ValidateNonce(claims: Value, swname: bytes, digest: bytes, e: Expected): Result<VerifiedEat, VerifyError> {
    match Claim(claims, CLAIM_NONCE)
    case Some(Bytes(nonce)) =>
      if e.nonce.Some? && nonce != e.nonce.value then Err(Policy("nonce"))
      else ReadRest(claims, swname, digest, nonce)
    case _ => Err(MissingClaim("nonce"))
  }

  function ReadRest(claims: Value, swname: bytes, digest: bytes, nonce: bytes): Result<VerifiedEat, VerifyError> {
    match Claim(claims, CLAIM_IAT)
    case Some(Integer(i)) =>
      if i < 0 then Err(MissingClaim("iat"))
      else
        var hardware := ContainerText(claims, Ascii("hardware"));
        Ok(VerifiedEat(nonce, swname, digest, if hardware.Some? then hardware.value else [], i))
    case _ => Err(MissingClaim("iat"))
  }

  function VerifyEat(dec: Decoder, token: bytes, key: VerifyingKey, e: Expected): Result<VerifiedEat, VerifyError> {
    match VerifyCoseSign1(dec, token, key)
    case Err(error) => Err(error)
    case Ok(payload) => ValidateClaims(dec, payload, e)
  }

  // ----- What the verifier sees of a claim set

  ghost function View(c: EatClaims): VerifiedEat {
    VerifiedEat(c.nonce, c.swname, c.imageDigest, c.hardware, c.iat)
  }

  /** The verdict a signed claim set deserves, stated on the claims alone. */
  ghost function Verdict(c: EatClaims, e: Expected): Result<VerifiedEat, VerifyError> {
    if c.swname != e.swname then Err(Policy("swname"))
    else if e.digest.Some? && c.imageDigest != e.digest.value then Err(Policy("image_digest"))
    else if c.nonce == [] then Err(MissingClaim("nonce"))
    else if e.nonce.Some? && c.nonce != e.nonce.value then Err(Policy("nonce"))
    else if c.iat >= TWO_64 / 2 then Err(MissingClaim("iat"))
    else Ok(View(c))
  }

  lemma FindIntStep(e: Entry, es: seq<Entry>, key: CborInt)
    ensures FindInt([e] + es, key) == if e.key == Integer(key) then Some(e.value) else FindInt(es, key)
  {
    assert ([e] + es)[1..] == es;
  }

  lemma FindIntFour(a: Entry, b: Entry, c: Entry, d: Entry, key: CborInt)
    ensures FindInt([a, b, c, d], key)
         == if a.key == Integer(key) then Some(a.value) else if b.key == Integer(key) then Some(b.value)
            else if c.key == Integer(key) then Some(c.value) else if d.key == Integer(key) then Some(d.value) else None
  {
    FindIntStep(d, [], key);
    FindIntStep(c, [d], key);
    FindIntStep(b, [c, d], key);
    FindIntStep(a, [b, c, d], key);
    assert [d] + [] == [d] && [c] + [d] == [c, d] && [b] + [c, d] == [b, c, d] && [a] + [b, c, d] == [a, b, c, d];
  }

  lemma FindIntFive(a: Entry, b: Entry, c: Entry, d: Entry, e: Entry, key: CborInt)
    ensures FindInt([a, b, c, d, e], key) == if a.key == Integer(key) then Some(a.value) else FindInt([b, c, d, e], key)
  {
    FindIntStep(a, [b, c, d, e], key);
    assert [a] + [b, c, d, e] == [a, b, c, d, e];
  }

  /** Looking up a claim in the entries as they were pushed. */
  lemma LookupInOrder(iat: Entry, nonce: Entry, ueid: Entry, swname: Entry, submods: Entry, key: CborInt)
    requires iat.key == Integer(CLAIM_IAT) && nonce.key == Integer(CLAIM_NONCE) && ueid.key == Integer(CLAIM_UEID)
    requires swname.key == Integer(CLAIM_SWNAME) && submods.key == Integer(CLAIM_SUBMODS)
    ensures FindInt([iat, nonce, ueid, swname, submods], key)
         == if key == CLAIM_IAT then Some(iat.value) else if key == CLAIM_NONCE then Some(nonce.value)
            else FindInt([iat, ueid, swname, submods], key)
    ensures FindInt([iat, ueid, swname, submods], key)
         == if key == CLAIM_IAT then Some(iat.value) else if key == CLAIM_UEID then Some(ueid.value)
            else if key == CLAIM_SWNAME then Some(swname.value)
            else if key == CLAIM_SUBMODS then Some(submods.value) else None
  {
    FindIntFour(iat, ueid, swname, submods, key);
    FindIntFour(nonce, ueid, swname, submods, key);
    FindIntFive(iat, nonce, ueid, swname, submods, key);
  }

  lemma ClaimLookup(c: EatClaims, key: CborInt)
    ensures FindInt(ClaimEntries(c), key)
         == if key == 6 then Some(Integer(if c.iat < TWO_64 / 2 then c.iat else c.iat - TWO_64))
            else if key == 10 && c.nonce != [] then Some(Value.Bytes(c.nonce))
            else if key == 256 then Some(Value.Bytes([0x02] + c.instanceId))
            else if key == 342 then Some(Text(c.swname))
            else if key == 266 then Some(Map([Entry(Text(Ascii("container")), Map(ContainerEntries(c)))]))
            else None
  {
    LookupInOrder(IatEntry(c), NonceEntry(c), UeidEntry(c), SwnameEntry(c), SubmodsEntry(ContainerEntries(c)), key);
  }

  lemma FindTextValues(k: Buffer, k': Buffer, t: Buffer, t': Buffer, third: Entry, more: seq<Entry>)
    requires k != k'
    ensures var es := [TextEntry(k, t), TextEntry(k', t'), third] + more;
            FindTextValue(es, k) == Some(t) && FindTextValue(es, k') == Some(t')
  {
    var es := [TextEntry(k, t), TextEntry(k', t'), third] + more;
    assert es[1..] == [TextEntry(k', t'), third] + more;
  }

  lemma ContainerLookups(c: EatClaims)
    ensures FindTextValue(ContainerEntries(c), Ascii("image_digest")) == Some(c.imageDigest)
    ensures FindTextValue(ContainerEntries(c), Ascii("hardware")) == Some(c.hardware)
  {
    var digest, hardware := Ascii("image_digest"), Ascii("hardware");
    assert |digest| != |hardware|;
    FindTextValues(digest, hardware, c.imageDigest, c.hardware,
                   InstanceEntry(c), RtmrEntries(c.measurements, |c.measurements|));
  }

  lemma ContainerTextOf(c: EatClaims, key: Buffer)
    ensures ContainerText(Map(ClaimEntries(c)), key) == FindTextValue(ContainerEntries(c), key)
  {
    ClaimLookup(c, CLAIM_SUBMODS);
    var name, container := Ascii("container"), Map(ContainerEntries(c));
    assert FindText([Entry(Text(name), container)], name) == Some(container);
  }

  /** What a string of decimal digits denotes. */
  ghost function ReadDecimal(d: bytes): int {
    if d == [] then 0 else 10 * ReadDecimal(d[..|d| - 1]) + (d[|d| - 1] as int - 48)
  }

  lemma {:induction false} DecimalReadsBack(n: nat)
    ensures ReadDecimal(Decimal(n)) == n && (n > 0 ==> Decimal(n)[0] != 48)
  {
    if n < 10 {
      assert Decimal(n)[..0] == [];
    } else {
      DecimalReadsBack(n / 10);
      assert Decimal(n)[..|Decimal(n)| - 1] == Decimal(n / 10);
    }
  }

  lemma RtmrKeysDiffer(i: nat, j: nat)
    requires i < 0x400_0000_0000_0000 && j < 0x400_0000_0000_0000 && RtmrKey(i) == RtmrKey(j)
    ensures i == j
  {
    assert RtmrKey(i)[4..] == Decimal(i) && RtmrKey(j)[4..] == Decimal(j);
    DecimalReadsBack(i);
    DecimalReadsBack(j);
  }

  lemma {:induction false} FindTextAt(es: seq<Entry>, key: Buffer, i: nat)
    requires i < |es| && es[i].key == Text(key) && forall j :: 0 <= j < i ==> es[j].key != Text(key)
    ensures FindText(es, key) == Some(es[i].value)
  {
    if i > 0 {
      FindTextAt(es[1..], key, i - 1);
    }
  }

  /** The names of the fixed container entries do not start like a register's. */
  lemma FixedKeysAreNoRtmr(i: nat)
    requires i < 0x400_0000_0000_0000
    ensures RtmrKey(i) !in {Ascii("image_digest"), Ascii("hardware"), Ascii("instance_id")}
  {
    assert RtmrKey(i)[0] == Ascii("rtmr")[0] == 114;
    assert Ascii("image_digest")[0] == 105 && Ascii("hardware")[0] == 104 && Ascii("instance_id")[0] == 105;
  }

  /** The i-th measurement is found under its register's name. */
  lemma MeasurementLookup(c: EatClaims, i: nat)
    requires i < |c.measurements|
    ensures FindText(ContainerEntries(c), Ascii("rtmr") + Decimal(i)) == Some(Value.Bytes(c.measurements[i]))
  {
    var es := ContainerEntries(c);
    FixedKeysAreNoRtmr(i);
    forall j | 3 <= j < 3 + i ensures es[j].key != Text(RtmrKey(i)) {
      assert es[j] == RtmrEntry(j - 3, c.measurements[j - 3]);
      if RtmrKey(j - 3) == RtmrKey(i) {
        RtmrKeysDiffer(j - 3, i);
      }
    }
    assert es[3 + i] == RtmrEntry(i, c.measurements[i]);
    FindTextAt(es, RtmrKey(i), 3 + i);
  }

  lemma InstanceLookup(c: EatClaims)
    ensures FindText(ContainerEntries(c), Ascii("instance_id")) == Some(Value.Bytes(c.instanceId))
  {
    assert |Ascii("instance_id")| == 11 && |Ascii("image_digest")| == 12 && |Ascii("hardware")| == 8;
    FindTextAt(ContainerEntries(c), Ascii("instance_id"), 2);
  }

  // ----- All of it is plain CBOR

  lemma PlainMap(es: seq<Entry>, depth: nat)
    requires |es| < TWO_64
    requires forall i :: 0 <= i < |es| ==> Plain(es[i].key, depth) && Plain(es[i].value, depth)
    ensures Plain(Map(es), depth + 1)
  {
  }

  lemma PlainArray(vs: seq<Value>, depth: nat)
    requires |vs| < TWO_64 && forall i :: 0 <= i < |vs| ==> Plain(vs[i], depth)
    ensures Plain(Array(vs), depth + 1)
  {
  }

  ghost predicate PlainEntry(e: Entry, depth: nat) {
    Plain(e.key, depth) && Plain(e.value, depth)
  }

  ghost predicate PlainEntries(es: seq<Entry>, depth: nat) {
    forall i :: 0 <= i < |es| ==> PlainEntry(es[i], depth)
  }

  lemma PlainOf(es: seq<Entry>, depth: nat)
    requires PlainEntries(es, depth) && |es| < TWO_64
    ensures Plain(Map(es), depth + 1)
  {
    forall i | 0 <= i < |es| ensures Plain(es[i].key, depth) && Plain(es[i].value, depth) {
      assert PlainEntry(es[i], depth);
    }
    PlainMap(es, depth);
  }

  lemma PlainTextEntry(key: string, t: Buffer, depth: nat)
    requires |key| < 64 && ValidUtf8(t)
    ensures PlainEntry(TextEntry(Ascii(key), t), depth)
  {
    LiteralIsUtf8(key);
  }

  lemma PlainInstance(c: EatClaims, depth: nat)
    ensures PlainEntry(InstanceEntry(c), depth)
  {
    LiteralIsUtf8("instance_id");
  }

  lemma PlainRtmrs(ms: Measurements, depth: nat)
    ensures PlainEntries(RtmrEntries(ms, |ms|), depth)
  {
    var es := RtmrEntries(ms, |ms|);
    forall i | 0 <= i < |es| ensures PlainEntry(es[i], depth) {
      RtmrKeyIsUtf8(i);
    }
  }

  lemma PlainThree(a: Entry, b: Entry, c: Entry, more: seq<Entry>, depth: nat)
    requires PlainEntry(a, depth) && PlainEntry(b, depth) && PlainEntry(c, depth) && PlainEntries(more, depth)
    ensures PlainEntries([a, b, c] + more, depth)
  {
  }

  lemma PlainContainer(c: EatClaims, depth: nat)
    requires Fits(c)
    ensures Plain(Map(ContainerEntries(c)), depth + 1)
  {
    var digest, hardware := TextEntry(Ascii("image_digest"), c.imageDigest), TextEntry(Ascii("hardware"), c.hardware);
    PlainTextEntry("image_digest", c.imageDigest, depth);
    PlainTextEntry("hardware", c.hardware, depth);
    PlainInstance(c, depth);
    PlainRtmrs(c.measurements, depth);
    PlainThree(digest, hardware, InstanceEntry(c), RtmrEntries(c.measurements, |c.measurements|), depth);
    PlainOf(ContainerEntries(c), depth);
  }

  lemma PlainSubmods(container: seq<Entry>, depth: nat)
    requires Plain(Map(container), depth)
    ensures PlainEntry(SubmodsEntry(container), depth + 1)
  {
    LiteralIsUtf8("container");
    var es := [Entry(Text(Ascii("container")), Map(container))];
    assert PlainEntry(es[0], depth);
    PlainOf(es, depth);
  }

  lemma PlainFixedClaims(c: EatClaims, depth: nat)
    requires Fits(c)
    ensures PlainEntry(IatEntry(c), depth) && PlainEntry(NonceEntry(c), depth)
    ensures PlainEntry(UeidEntry(c), depth) && PlainEntry(SwnameEntry(c), depth)
  {
  }

  lemma PlainUpToFive(a: Entry, b: Entry, c: Entry, d: Entry, e: Entry, depth: nat)
    requires PlainEntry(a, depth) && PlainEntry(b, depth) && PlainEntry(c, depth)
    requires PlainEntry(d, depth) && PlainEntry(e, depth)
    ensures PlainEntries([a, c, d, e], depth) && PlainEntries([a, b, c, d, e], depth)
  {
  }

  lemma PlainClaims(c: EatClaims)
    requires Fits(c)
    ensures Plain(Map(ClaimEntries(c)), NESTING)
  {
    var submods := SubmodsEntry(ContainerEntries(c));
    PlainContainer(c, NESTING - 3);
    PlainSubmods(ContainerEntries(c), NESTING - 2);
    PlainFixedClaims(c, NESTING - 1);
    PlainUpToFive(IatEntry(c), NonceEntry(c), UeidEntry(c), SwnameEntry(c), submods, NESTING - 1);
    PlainOf(ClaimEntries(c), NESTING - 1);
  }

  lemma PlainEnvelope(protected: Buffer, payload: Buffer, signature: bytes64)
    ensures Plain(Envelope(protected, payload, signature), NESTING)
  {
    PlainOf([], NESTING - 2);
    PlainFour(Value.Bytes(protected), Map([]), Value.Bytes(payload), Value.Bytes(signature), NESTING - 1);
  }

  lemma PlainFour(a: Value, b: Value, c: Value, d: Value, depth: nat)
    requires Plain(a, depth) && Plain(b, depth) && Plain(c, depth) && Plain(d, depth)
    ensures Plain(Array([a, b, c, d]), depth + 1)
  {
    PlainArray([a, b, c, d], depth);
  }

  lemma PlainSigStructure(protected: Buffer, payload: Buffer)
    ensures Plain(SigStructure(protected, payload), NESTING)
  {
    LiteralIsUtf8("Signature1");
    PlainFour(Text(Ascii("Signature1")), Value.Bytes(protected), Value.Bytes([]), Value.Bytes(payload), NESTING - 1);
  }

  lemma PlainHeader()
    ensures Plain(ProtectedHeader(), NESTING)
  {
    PlainMap(ProtectedHeader().entries, NESTING - 1);
  }

  // ----- On the wire

  /** A byte string with its head. */
  ghost function Bstr(b: Buffer): bytes {
    Head(2, |b|) + b
  }

  lemma EncodeAllCons(v: Value, vs: seq<Value>)
    ensures Cbor.EncodeAll([v] + vs) == Encode(v) + Cbor.EncodeAll(vs)
  {
    assert ([v] + vs)[1..] == vs;
  }

  lemma TwoInARow(a: Value, b: Value)
    ensures Cbor.EncodeAll([a, b]) == Encode(a) + Encode(b)
  {
    assert [a, b] == [a] + [b] && [b] == [b] + [];
    EncodeAllCons(b, []);
    EncodeAllCons(a, [b]);
  }

  lemma FourOnTheWire(a: Value, b: Value, c: Value, d: Value)
    ensures Encode(Array([a, b, c, d])) == [0x84] + Encode(a) + Encode(b) + Encode(c) + Encode(d)
  {
    assert [a, b, c, d] == [a] + [b, c, d] && [b, c, d] == [b] + [c, d];
    TwoInARow(c, d);
    EncodeAllCons(b, [c, d]);
    EncodeAllCons(a, [b, c, d]);
  }

  /** The octets of the Sig_structure: context, protected header, no external data, payload. */
  lemma SigStructureOnTheWire(protected: Buffer, payload: Buffer)
    ensures Encode(SigStructure(protected, payload))
         == [0x84] + ([0x6A] + Ascii("Signature1")) + Bstr(protected) + [0x40] + Bstr(payload)
  {
    FourOnTheWire(Text(Ascii("Signature1")), Value.Bytes(protected), Value.Bytes([]), Value.Bytes(payload));
  }

  /** The octets of the envelope: protected header, empty unprotected header, payload, 64-octet signature. */
  lemma EnvelopeOnTheWire(protected: Buffer, payload: Buffer, signature: bytes64)
    ensures Encode(Envelope(protected, payload, signature))
         == [0x84] + Bstr(protected) + [0xA0] + Bstr(payload) + ([0x58, 0x40] + signature)
  {
    FourOnTheWire(Value.Bytes(protected), Map([]), Value.Bytes(payload), Value.Bytes(signature));
    assert BigEndian(1, 64) == [64];
  }

  /** The octets of the protected header: algorithm ES256 and the key identifier. */
  lemma HeaderOnTheWire()
    ensures ProtectedBytes() == [0xA2, 0x01, 0x26, 0x04, 0x4A] + Ascii("enclave-v1")
  {
    var es := ProtectedHeader().entries;
    assert es[1..][1..] == [];
    assert EncodePairs(es[1..]) == EncodeEntry(es[1]) + [];
    assert EncodePairs(es) == EncodeEntry(es[0]) + EncodePairs(es[1..]);
    assert EncodeEntry(es[0]) == [0x01, 0x26];
    assert EncodeEntry(es[1]) == [0x04] + ([0x4A] + Ascii("enclave-v1"));
  }

  // ----- The verdict on a built token

  lemma RestVerdict(c: EatClaims)
    ensures ReadRest(Map(ClaimEntries(c)), c.swname, c.imageDigest, c.nonce)
         == if c.iat >= TWO_64 / 2 then Err(MissingClaim("iat")) else Ok(View(c))
  {
    ClaimLookup(c, CLAIM_IAT);
    ContainerTextOf(c, Ascii("hardware"));
    ContainerLookups(c);
  }

  lemma NonceVerdict(c: EatClaims, e: Expected)
    requires c.swname == e.swname && (e.digest.Some? ==> c.imageDigest == e.digest.value)
    ensures ValidateNonce(Map(ClaimEntries(c)), c.swname, c.imageDigest, e) == Verdict(c, e)
  {
    ClaimLookup(c, CLAIM_NONCE);
    RestVerdict(c);
  }

  lemma DigestVerdict(c: EatClaims, e: Expected)
    requires c.swname == e.swname
    ensures ValidateDigest(Map(ClaimEntries(c)), c.swname, e) == Verdict(c, e)
  {
    ContainerTextOf(c, Ascii("image_digest"));
    ContainerLookups(c);
    if e.digest.Some? ==> c.imageDigest == e.digest.value {
      NonceVerdict(c, e);
    }
  }

  lemma SwnameVerdict(c: EatClaims, e: Expected)
    ensures ValidateSwname(Map(ClaimEntries(c)), e) == Verdict(c, e)
  {
    ClaimLookup(c, CLAIM_SWNAME);
    if c.swname == e.swname {
      DigestVerdict(c, e);
    }
  }

  lemma BuiltClaimsValidate(dec: Decoder, c: EatClaims, e: Expected)
    requires Inverts(dec) && Fits(c)
    ensures ValidateClaims(dec, PayloadBytes(c), e) == Verdict(c, e)
  {
    PlainClaims(c);
    assert dec(Encode(Map(ClaimEntries(c)))) == Some(Map(ClaimEntries(c)));
    SwnameVerdict(c, e);
  }

  /** The verifying key belongs to the signer. */
  ghost predicate Matches(key: VerifyingKey, sign: Signer) {
    forall m :: key.wellFormed(sign(m)) && key.accepts(m, sign(m))
  }

  lemma ParsedParts(dec: Decoder, token: bytes, protected: Buffer, header: Value, payload: Buffer, signature: bytes64)
    requires dec(token) == Some(Envelope(protected, payload, signature)) && dec(protected) == Some(header)
    ensures ParseCoseSign1(dec, token) == Some(Parsed(protected, header, payload, signature))
  {
  }

  lemma BuiltTokenParses(dec: Decoder, c: EatClaims, signature: bytes64)
    requires Inverts(dec) && Fits(c)
    ensures ParseCoseSign1(dec, Encode(Envelope(ProtectedBytes(), PayloadBytes(c), signature)))
         == Some(Parsed(ProtectedBytes(), ProtectedHeader(), PayloadBytes(c), signature))
  {
    var envelope := Envelope(ProtectedBytes(), PayloadBytes(c), signature);
    PlainEnvelope(ProtectedBytes(), PayloadBytes(c), signature);
    PlainHeader();
    assert dec(Encode(envelope)) == Some(envelope);
    assert dec(ProtectedBytes()) == Some(ProtectedHeader());
    ParsedParts(dec, Encode(envelope), ProtectedBytes(), ProtectedHeader(), PayloadBytes(c), signature);
  }

  lemma PayloadDecides(dec: Decoder, token: bytes, key: VerifyingKey, e: Expected, payload: Buffer)
    requires VerifyCoseSign1(dec, token, key) == Ok(payload)
    ensures VerifyEat(dec, token, key, e) == ValidateClaims(dec, payload, e)
  {
  }

  lemma HeaderAlg()
    ensures Claim(ProtectedHeader(), HEADER_ALG) == Some(Integer(ALG_ES256))
  {
  }

  lemma BuiltTokenSignature(dec: Decoder, c: EatClaims, sign: Signer, key: VerifyingKey)
    requires Inverts(dec) && Fits(c) && Matches(key, sign)
    ensures VerifyCoseSign1(dec, SignedToken(c, sign), key) == Ok(PayloadBytes(c))
  {
    var signature := sign(SigInput(c));
    BuiltTokenParses(dec, c, signature);
    HeaderAlg();
    assert key.wellFormed(signature) && key.accepts(SigInput(c), signature);
  }

  lemma EnvelopeVerdict(dec: Decoder, c: EatClaims, sign: Signer, key: VerifyingKey, e: Expected)
    requires Inverts(dec) && Fits(c) && Matches(key, sign)
    ensures VerifyEat(dec, SignedToken(c, sign), key, e) == Verdict(c, e)
  {
    BuiltTokenSignature(dec, c, sign, key);
    PayloadDecides(dec, SignedToken(c, sign), key, e, PayloadBytes(c));
    BuiltClaimsValidate(dec, c, e);
  }

  lemma BuiltIsSigned(c: EatClaims, sign: Signer, token: bytes)
    requires Fits(c) && BuildEat(c, sign) == Ok(token)
    ensures token == SignedToken(c, sign)
  {
  }

  /** Round trip: the verifier's answer on a token the enclave built is the verdict on its claims. */
  lemma BuiltTokenVerdict(dec: Decoder, c: EatClaims, sign: Signer, token: bytes, key: VerifyingKey, e: Expected)
    requires Inverts(dec) && Fits(c) && Matches(key, sign) && BuildEat(c, sign) == Ok(token)
    ensures VerifyEat(dec, token, key, e) == Verdict(c, e)
  {
    BuiltIsSigned(c, sign, token);
    EnvelopeVerdict(dec, c, sign, key, e);
  }

  /** A token is built exactly when name and digest each have a visible character. */
  lemma BuildAnswer(c: EatClaims, sign: Signer)
    requires Fits(c)
    ensures BuildEat(c, sign) == Err(BlankSwname) <==> !HasVisible(c.swname)
    ensures BuildEat(c, sign) == Err(BlankDigest) <==> HasVisible(c.swname) && !HasVisible(c.imageDigest)
    ensures HasVisible(c.swname) && HasVisible(c.imageDigest) ==> BuildEat(c, sign) == Ok(SignedToken(c, sign))
  {
    BlankIffNothingVisible(c.swname);
    BlankIffNothingVisible(c.imageDigest);
  }

  /** Against its own claims a built token is accepted exactly when the nonce is not empty and iat is below 2^63. */
  lemma BuiltTokenAcceptedIff(dec: Decoder, c: EatClaims, sign: Signer, token: bytes, key: VerifyingKey)
    requires Inverts(dec) && Fits(c) && Matches(key, sign) && BuildEat(c, sign) == Ok(token)
    ensures var r := VerifyEat(dec, token, key, Expected(c.swname, Some(c.imageDigest), Some(c.nonce)));
            && (r.Ok? <==> c.nonce != [] && c.iat < TWO_64 / 2)
            && (r.Ok? ==> r.value == View(c))
  {
    BuiltTokenVerdict(dec, c, sign, token, key, Expected(c.swname, Some(c.imageDigest), Some(c.nonce)));
  }

  /**
   From complete claims, with a nonce and an issue date that fits, a token is built, and the verifier
   accepts it and returns the claims.
   */
  lemma CompleteClaimsRoundTrip(dec: Decoder, c: EatClaims, sign: Signer, key: VerifyingKey)
    requires Inverts(dec) && Fits(c) && Matches(key, sign)
    requires HasVisible(c.swname) && HasVisible(c.imageDigest) && c.nonce != [] && c.iat < 0x8000_0000_0000_0000
    ensures BuildEat(c, sign).Ok?
    ensures VerifyEat(dec, BuildEat(c, sign).value, key, Expected(c.swname, Some(c.imageDigest), Some(c.nonce)))
         == Ok(VerifiedEat(c.nonce, c.swname, c.imageDigest, c.hardware, c.iat))
  {
    BuildAnswer(c, sign);
    BuiltTokenAcceptedIff(dec, c, sign, SignedToken(c, sign), key);
  }

  // ----- What the verifier answers to any token

  /** A claim is the value of the first entry with its key. */
  lemma {:induction false} FindIntAt(es: seq<Entry>, key: CborInt, i: nat)
    requires i < |es| && es[i].key == Integer(key) && forall j :: 0 <= j < i ==> es[j].key != Integer(key)
    ensures FindInt(es, key) == Some(es[i].value)
  {
    if i > 0 {
      FindIntAt(es[1..], key, i - 1);
    }
  }

  lemma {:induction false} FindIntNowhere(es: seq<Entry>, key: CborInt)
    requires forall j :: 0 <= j < |es| ==> es[j].key != Integer(key)
    ensures FindInt(es, key) == None
  {
    if es != [] {
      FindIntNowhere(es[1..], key);
    }
  }

  /** What parses: an array of four with byte strings in three places and a decodable protected header. */
  lemma ParseAnswer(dec: Decoder, token: bytes, p: Parsed)
    ensures ParseCoseSign1(dec, token) == Some(p) <==>
              && dec(p.protected) == Some(p.protectedMap)
              && exists unprotected ::
                   dec(token) == Some(Array([Value.Bytes(p.protected), unprotected,
                                             Value.Bytes(p.payload), Value.Bytes(p.signature)]))
  {
    if ParseCoseSign1(dec, token) == Some(p) {
      var parts := dec(token).value.items;
      assert parts == [Value.Bytes(p.protected), parts[1], Value.Bytes(p.payload), Value.Bytes(p.signature)];
    }
  }

  /** Each answer of the signature check under its exact condition. */
  lemma CoseAnswer(dec: Decoder, token: bytes, key: VerifyingKey)
    ensures var r := VerifyCoseSign1(dec, token, key);
            var parsed := ParseCoseSign1(dec, token);
            && (r == Err(Malformed("parse failed")) <==> parsed.None?)
            && (parsed.Some? ==>
                  var p := parsed.value;
                  var alg := Claim(p.protectedMap, 1);
                  var declared := alg == Some(Integer(-7));
                  var signed := [0x84] + ([0x6A] + Ascii("Signature1")) + Bstr(p.protected) + [0x40] + Bstr(p.payload);
                  && (r == Err(Malformed("protected header missing alg")) <==> alg.None?)
                  && (r == Err(Malformed("alg must be an integer")) <==> alg.Some? && !alg.value.Integer?)
                  && (alg.Some? && alg.value.Integer? ==>
                        (r == Err(UnsupportedAlg(alg.value.i)) <==> alg.value.i != -7))
                  && (r == Err(Malformed("signature must be 64 bytes (r||s)")) <==> declared && |p.signature| != 64)
                  && (r == Err(Malformed("invalid signature encoding")) <==>
                        declared && |p.signature| == 64 && !key.wellFormed(p.signature))
                  && (r == Err(BadSignature) <==>
                        && declared && |p.signature| == 64 && key.wellFormed(p.signature)
                        && !key.accepts(signed, p.signature))
                  && (r.Ok? ==> r.value == p.payload))
  {
    if ParseCoseSign1(dec, token).Some? {
      var p := ParseCoseSign1(dec, token).value;
      SigStructureOnTheWire(p.protected, p.payload);
    }
  }

  /** Each answer of the claim check under its exact condition, for any claim set that decodes. */
  lemma ClaimsAnswer(dec: Decoder, payload: bytes, claims: Value, e: Expected)
    requires dec(payload) == Some(claims)
    ensures var r := ValidateClaims(dec, payload, e);
            var swname, nonce, iat := Claim(claims, 342), Claim(claims, 10), Claim(claims, 6);
            var digest := ContainerText(claims, Ascii("image_digest"));
            var hardware := ContainerText(claims, Ascii("hardware"));
            var named := swname.Some? && swname.value.Text?;
            var expected := named && swname.value.t == e.swname;
            var measured := expected && digest.Some? && (e.digest.Some? ==> digest == e.digest);
            var fresh' := && measured && nonce.Some? && nonce.value.Bytes?
                          && (e.nonce.Some? ==> nonce.value.b == e.nonce.value);
            && (r == Err(MissingClaim("swname")) <==> !named)
            && (r == Err(Policy("swname")) <==> named && !expected)
            && (r == Err(MissingClaim("image_digest")) <==> expected && digest.None?)
            && (r == Err(Policy("image_digest")) <==> expected && digest.Some? && !measured)
            && (r == Err(MissingClaim("nonce")) <==> measured && !(nonce.Some? && nonce.value.Bytes?))
            && (r == Err(Policy("nonce")) <==> measured && nonce.Some? && nonce.value.Bytes? && !fresh')
            && (r.Ok? <==> fresh' && iat.Some? && iat.value.Integer? && iat.value.i >= 0)
            && (r.Ok? ==> r.value == VerifiedEat(nonce.value.b, swname.value.t, digest.value,
                                                 if hardware.Some? then hardware.value else [], iat.value.i))
            && (r.Err? && fresh' ==> r == Err(MissingClaim("iat")))
  {
  }

  // ----- Binding

  /** Equal Sig_structure bytes mean equal protected header and equal payload. */
  lemma SigStructureBinds(p: Buffer, payload: Buffer, p': Buffer, payload': Buffer)
    requires Encode(SigStructure(p, payload)) == Encode(SigStructure(p', payload'))
    ensures p == p' && payload == payload'
  {
    PlainSigStructure(p, payload);
    PlainSigStructure(p', payload');
    EncodeInjective(SigStructure(p, payload), SigStructure(p', payload'));
    assert SigStructure(p, payload).items[1] == SigStructure(p', payload').items[1];
    assert SigStructure(p, payload).items[3] == SigStructure(p', payload').items[3];
  }

  /** The key accepts nothing but signatures over the claim sets in `signed`. */
  ghost predicate OnlySigned(key: VerifyingKey, signed: set<EatClaims>) {
    && (forall c :: c in signed ==> Fits(c))
    && forall m, s :: key.accepts(m, s) ==> exists c :: c in signed && SigInput(c) == m
  }

  lemma VerifiedPayload(dec: Decoder, token: bytes, key: VerifyingKey) returns (p: Parsed)
    requires VerifyCoseSign1(dec, token, key).Ok?
    ensures VerifyCoseSign1(dec, token, key) == Ok(p.payload)
    ensures |p.signature| == 64 && key.accepts(Encode(SigStructure(p.protected, p.payload)), p.signature)
  {
    p := ParseCoseSign1(dec, token).value;
  }

  /**
   Whatever token the verifier accepts, however it was made, the claims it returns are those of a
   claim set that was signed, and that set meets the caller's expectations.
   */
  lemma AcceptedClaimsWereSigned(dec: Decoder, token: bytes, key: VerifyingKey, e: Expected, signed: set<EatClaims>)
    returns (c: EatClaims)
    requires Inverts(dec) && OnlySigned(key, signed) && VerifyEat(dec, token, key, e).Ok?
    ensures c in signed && VerifyEat(dec, token, key, e) == Ok(View(c)) == Verdict(c, e)
  {
    var p := VerifiedPayload(dec, token, key);
    var m := Encode(SigStructure(p.protected, p.payload));
    assert key.accepts(m, p.signature);
    c :| c in signed && SigInput(c) == m;
    SigStructureBinds(p.protected, p.payload, ProtectedBytes(), PayloadBytes(c));
    BuiltClaimsValidate(dec, c, e);
  }
}
