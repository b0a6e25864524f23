/**
 Web2Json attestation requests: the browser's hexadecimal encoder with its running offset, the
 enclave's byte encoder and decoder, and the ABI tuple encoding that all of them have to agree with.
 */
module FdcRequest {
  import opened Bytes
  import opened Outcomes
  import opened Abi

  // ----- The ABI encoding of a tuple of strings

  /** Zero octets behind n content octets. */
  function PadLength(n: nat): (p: nat)
    ensures n + p == 32 * Blocks(n)
  {
    32 * Blocks(n) - n
  }

  /** 32-octet blocks needed for n octets. */
  function Blocks(n: nat): (k: nat)
    ensures 32 * k - 32 < n <= 32 * k
  {
    (n + 31) / 32
  }

  /** Length word, content, padding. */
  function StringTail(s: bytes): (t: bytes)
    ensures |t| == 32 + |s| + PadLength(|s|)
  {
    Word(|s|) + s + Zeros(PadLength(|s|))
  }

  function Tails(fields: seq<bytes>, n: nat): bytes
    requires n <= |fields|
  {
    if n == 0 then [] else Tails(fields, n - 1) + StringTail(fields[n - 1])
  }

  /** Each head word is the size of all heads plus the tails in front of its own. */
  function Offset(fields: seq<bytes>, i: nat): nat
    requires i <= |fields|
  {
    32 * |fields| + |Tails(fields, i)|
  }

  function Offsets(fields: seq<bytes>, n: nat): (os: seq<nat>)
    requires n <= |fields|
    ensures |os| == n
    ensures forall i :: 0 <= i < n ==> os[i] == Offset(fields, i)
  {
    seq(n, i requires 0 <= i < n => Offset(fields, i))
  }

  /** The encoding of one tuple argument: an offset word, the heads, the tails. */
  function TupleArgument(fields: seq<bytes>): bytes {
    Word(32) + Words(Offsets(fields, |fields|)) + Tails(fields, |fields|)
  }

  // ----- Requests

  const ATTESTATION_TYPE := "Web2Json"
  const SOURCE_ID := "PublicWeb2"

  /** The strings are given by their UTF-8 octets. */
  datatype RequestBody = RequestBody(
    url: bytes, httpMethod: bytes, headers: bytes, queryParams: bytes, body: bytes,
    postProcessJq: bytes, abiSignature: bytes)
  {
    function Fields(): (fs: seq<bytes>)
      ensures |fs| == 7
    {
      [url, httpMethod, headers, queryParams, body, postProcessJq, abiSignature]
    }
  }

  function FromFields(fs: seq<bytes>): RequestBody
    requires |fs| == 7
  {
    RequestBody(fs[0], fs[1], fs[2], fs[3], fs[4], fs[5], fs[6])
  }

  function PadRight32(s: bytes): (p: bytes)
    requires |s| <= 32
    ensures |p| == 32
  {
    s + Zeros(32 - |s|)
  }

  function Layout(attestationType: bytes, sourceId: bytes, mic: bytes, body: RequestBody): bytes
    requires |attestationType| <= 32 && |sourceId| <= 32 && |mic| == 32
  {
    PadRight32(attestationType) + PadRight32(sourceId) + mic + TupleArgument(body.Fields())
  }

  // ----- The enclave's encoder and decoder

  datatype FdcError = EmptyIdentifier | IdentifierTooLong | InvalidBody | BadCommitment | TooShort | Undecodable

  function PadUtf8Bytes32(s: bytes): (r: Result<bytes, FdcError>)
    ensures r.Ok? <==> 0 < |s| <= 32
    ensures r.Ok? ==> r.value == PadRight32(s)
  {
    if s == [] then Err(EmptyIdentifier) else if |s| > 32 then Err(IdentifierTooLong) else Ok(PadRight32(s))
  }

  /** `valid` stands for the official validation rules; an absent commitment is 32 zero octets. */
  function EncodeRequest(
    body: RequestBody, attestationType: bytes, sourceId: bytes, mic: Option<bytes>, valid: RequestBody -> bool)
    : Result<bytes, FdcError>
  {
    var commitment := if mic.Some? then mic.value else Zeros(32);
    if !valid(body) then Err(InvalidBody)
    else if |commitment| != 32 then Err(BadCommitment)
    else match PadUtf8Bytes32(attestationType)
      case Err(e) => Err(e)
      case Ok(typeWord) =>
        match PadUtf8Bytes32(sourceId)
        case Err(e) => Err(e)
        case Ok(sourceWord) => Ok(typeWord + sourceWord + commitment + TupleArgument(body.Fields()))
  }

  /** The string whose head is the i-th one of a tuple at `base`. */
  function StringField(d: bytes, base: nat, i: nat): Option<bytes> {
    ReadString(d, base, base + 32 * i)
  }

  function ReadStrings(d: bytes, base: nat, n: nat): (r: Option<seq<bytes>>)
    ensures r.Some? ==> |r.value| == n
  {
    if forall i :: 0 <= i < n ==> StringField(d, base, i).Some?
    then Some(seq(n, i requires 0 <= i < n => StringField(d, base, i).value))
    else None
  }

  function DecodeRequest(data: bytes): Result<RequestBody, FdcError> {
    if |data| < 96 then Err(TooShort)
    else
      var body := data[96..];
      match ReadWord(body, 0)
      case None => Err(Undecodable)
      case Some(base) =>
        match ReadStrings(body, base, 7)
        case None => Err(Undecodable)
        case Some(fields) => Ok(FromFields(fields))
  }

  // ----- Round trip

  /** All sizes are exact integers of a 64-bit float, as the length of any JavaScript string is. */
  ghost predicate Fits(fields: seq<bytes>) {
    |TupleArgument(fields)| < 0x20_0000_0000_0000
  }

  lemma {:induction false} TailsGrow(fields: seq<bytes>, i: nat, j: nat)
    requires i <= j <= |fields|
    ensures |Tails(fields, i)| <= |Tails(fields, j)|
  {
    if i < j {
      TailsGrow(fields, i, j - 1);
    }
  }

  lemma TailIsInside(fields: seq<bytes>, i: nat)
    requires i < |fields|
    ensures |Tails(fields, i)| + |fields[i]| <= |Tails(fields, |fields|)|
  {
    TailsGrow(fields, i + 1, |fields|);
  }

  lemma TupleLength(fields: seq<bytes>)
    ensures |TupleArgument(fields)| == 32 + 32 * |fields| + |Tails(fields, |fields|)|
  {
  }

  lemma OffsetFits(fields: seq<bytes>, i: nat)
    requires Fits(fields) && i < |fields|
    ensures Offset(fields, i) < TWO_256 && |fields[i]| < TWO_64
  {
    TupleLength(fields);
    TailIsInside(fields, i);
  }

  /** What follows the i-th tail. */
  ghost function TailsFrom(fields: seq<bytes>, i: nat): bytes
    requires i <= |fields|
    decreases |fields| - i
  {
    if i == |fields| then [] else StringTail(fields[i]) + TailsFrom(fields, i + 1)
  }

  lemma {:induction false} TailsSplit(fields: seq<bytes>, i: nat)
    requires i <= |fields|
    ensures Tails(fields, |fields|) == Tails(fields, i) + TailsFrom(fields, i)
    decreases |fields| - i
  {
    if i < |fields| {
      TailsSplit(fields, i + 1);
    }
  }

  lemma RegroupFour<T>(a: seq<T>, b: seq<T>, c: seq<T>, d: seq<T>)
    ensures a + (b + (c + d)) == (a + b) + c + d
  {
  }

  lemma ReadTail(left: bytes, s: bytes, right: bytes)
    requires |s| < TWO_256
    ensures var d := left + StringTail(s) + right;
            ReadWord(d, |left|) == Some(|s|) && ReadBytes(d, |left| + 32, |s|) == Some(s)
  {
    SpliceTail(left, Word(|s|), s, Zeros(PadLength(|s|)), right);
    ReadWordAt(left, |s|, s + (Zeros(PadLength(|s|)) + right));
    ReadBytesAt(left + Word(|s|), s, Zeros(PadLength(|s|)) + right);
  }

  lemma SpliceTail(left: bytes, w: bytes, s: bytes, z: bytes, right: bytes)
    ensures left + (w + s + z) + right == left + w + (s + (z + right))
    ensures left + (w + s + z) + right == (left + w) + s + (z + right)
  {
  }

  lemma TupleOffsetWord(fields: seq<bytes>)
    ensures ReadWord(TupleArgument(fields), 0) == Some(32)
  {
    var rest := Words(Offsets(fields, |fields|)) + Tails(fields, |fields|);
    assert TupleArgument(fields) == [] + Word(32) + rest;
    ReadWordAt([], 32, rest);
  }

  lemma TupleSplit(fields: seq<bytes>, i: nat) returns (pre: bytes)
    requires i < |fields|
    ensures TupleArgument(fields) == pre + StringTail(fields[i]) + TailsFrom(fields, i + 1)
    ensures |pre| == 32 + Offset(fields, i)
  {
    var heads := Word(32) + Words(Offsets(fields, |fields|));
    TailsSplit(fields, i);
    RegroupFour(heads, Tails(fields, i), StringTail(fields[i]), TailsFrom(fields, i + 1));
    pre := heads + Tails(fields, i);
  }

  lemma TupleTail(fields: seq<bytes>, i: nat)
    requires i < |fields| && |fields[i]| < TWO_256
    ensures ReadWord(TupleArgument(fields), 32 + Offset(fields, i)) == Some(|fields[i]|)
    ensures ReadBytes(TupleArgument(fields), 32 + Offset(fields, i) + 32, |fields[i]|) == Some(fields[i])
  {
    var pre := TupleSplit(fields, i);
    ReadTail(pre, fields[i], TailsFrom(fields, i + 1));
  }

  lemma FieldFromParts(d: bytes, i: nat, offset: nat, field: bytes)
    requires ReadWord(d, 32 + 32 * i) == Some(offset) && ReadWord(d, 32 + offset) == Some(|field|)
    requires ReadBytes(d, 32 + offset + 32, |field|) == Some(field)
    ensures StringField(d, 32, i) == Some(field)
  {
  }

  lemma HeadWord(fields: seq<bytes>, i: nat)
    requires Fits(fields) && i < |fields|
    ensures ReadWord(TupleArgument(fields), 32 + 32 * i) == Some(Offset(fields, i))
  {
    OffsetFits(fields, i);
    ReadHeadWord(Word(32), Offsets(fields, |fields|), i, Tails(fields, |fields|));
  }

  /** Every offset word points at the length word of its own string. */
  lemma OffsetPointsAtLength(fields: seq<bytes>, i: nat)
    requires Fits(fields) && i < |fields|
    ensures ReadWord(TupleArgument(fields), 32 + 32 * i) == Some(Offset(fields, i))
    ensures ReadWord(TupleArgument(fields), 32 + Offset(fields, i)) == Some(|fields[i]|)
    ensures StringField(TupleArgument(fields), 32, i) == Some(fields[i])
  {
    HeadWord(fields, i);
    OffsetFits(fields, i);
    TupleTail(fields, i);
    FieldFromParts(TupleArgument(fields), i, Offset(fields, i), fields[i]);
  }

  lemma StringsFromFields(d: bytes, base: nat, fields: seq<bytes>)
    requires forall i :: 0 <= i < |fields| ==> StringField(d, base, i) == Some(fields[i])
    ensures ReadStrings(d, base, |fields|) == Some(fields)
  {
    assert forall i :: 0 <= i < |fields| ==> StringField(d, base, i).Some?;
    var r := ReadStrings(d, base, |fields|).value;
    assert forall i :: 0 <= i < |fields| ==> r[i] == fields[i];
    assert r == fields;
  }

  lemma ReadAllStrings(fields: seq<bytes>)
    requires Fits(fields)
    ensures ReadStrings(TupleArgument(fields), 32, |fields|) == Some(fields)
  {
    forall i | 0 <= i < |fields| ensures StringField(TupleArgument(fields), 32, i) == Some(fields[i]) {
      OffsetPointsAtLength(fields, i);
    }
    StringsFromFields(TupleArgument(fields), 32, fields);
  }

  /** Decoding any encoded request returns the same seven strings. */
  lemma RequestRoundTrip(attestationType: bytes, sourceId: bytes, mic: bytes, body: RequestBody)
    requires |attestationType| <= 32 && |sourceId| <= 32 && |mic| == 32 && Fits(body.Fields())
    ensures DecodeRequest(Layout(attestationType, sourceId, mic, body)) == Ok(body)
  {
    var data := Layout(attestationType, sourceId, mic, body);
    assert data[96..] == TupleArgument(body.Fields());
    TupleOffsetWord(body.Fields());
    ReadAllStrings(body.Fields());
  }

  /** The three header words: type and source padded on the right, then the commitment. */
  ghost predicate HeaderIs(data: bytes, attestationType: bytes, sourceId: bytes, mic: bytes)
    requires |attestationType| <= 32 && |sourceId| <= 32
  {
    && |data| >= 96
    && data[..32] == attestationType + Zeros(32 - |attestationType|)
    && data[32..64] == sourceId + Zeros(32 - |sourceId|)
    && data[64..96] == mic
  }

  /** The strings behind the header, in the order in which the tuple type lists its components. */
  ghost predicate ComponentsAre(data: bytes, body: RequestBody)
    requires |data| >= 96
  {
    && StringField(data[96..], 32, 0) == Some(body.url)
    && StringField(data[96..], 32, 1) == Some(body.httpMethod)
    && StringField(data[96..], 32, 2) == Some(body.headers)
    && StringField(data[96..], 32, 3) == Some(body.queryParams)
    && StringField(data[96..], 32, 4) == Some(body.body)
    && StringField(data[96..], 32, 5) == Some(body.postProcessJq)
    && StringField(data[96..], 32, 6) == Some(body.abiSignature)
  }

  lemma LayoutReads(attestationType: bytes, sourceId: bytes, mic: bytes, body: RequestBody)
    requires |attestationType| <= 32 && |sourceId| <= 32 && |mic| == 32 && Fits(body.Fields())
    ensures HeaderIs(Layout(attestationType, sourceId, mic, body), attestationType, sourceId, mic)
    ensures ComponentsAre(Layout(attestationType, sourceId, mic, body), body)
  {
    var data := Layout(attestationType, sourceId, mic, body);
    assert data[96..] == TupleArgument(body.Fields());
    forall i | 0 <= i < 7 ensures StringField(data[96..], 32, i) == Some(body.Fields()[i]) {
      OffsetPointsAtLength(body.Fields(), i);
    }
  }

  /** Which failure comes when, and what header and strings a successful encoding holds. */
  lemma EncodeRequestAnswer(
    body: RequestBody, attestationType: bytes, sourceId: bytes, mic: Option<bytes>, valid: RequestBody -> bool)
    requires Fits(body.Fields())
    ensures var r := EncodeRequest(body, attestationType, sourceId, mic, valid);
            var committed := mic.Some? ==> |mic.value| == 32;
            && (r == Err(InvalidBody) <==> !valid(body))
            && (r == Err(BadCommitment) <==> valid(body) && !committed)
            && (r == Err(EmptyIdentifier) <==>
                  valid(body) && committed && (attestationType == [] || (|attestationType| <= 32 && sourceId == [])))
            && (r == Err(IdentifierTooLong) <==>
                  && valid(body) && committed && attestationType != []
                  && (|attestationType| > 32 || |sourceId| > 32))
            && (r.Ok? ==> && |attestationType| <= 32 && |sourceId| <= 32
                          && HeaderIs(r.value, attestationType, sourceId, if mic.Some? then mic.value else Zeros(32))
                          && ComponentsAre(r.value, body))
  {
    var commitment := if mic.Some? then mic.value else Zeros(32);
    var r := EncodeRequest(body, attestationType, sourceId, mic, valid);
    if r.Ok? {
      assert r.value == Layout(attestationType, sourceId, commitment, body);
      LayoutReads(attestationType, sourceId, commitment, body);
    }
  }

  /** Data shorter than the header is told apart from a header without a decodable body. */
  lemma DecodeRequestTooShort(data: bytes)
    ensures DecodeRequest(data) == Err(TooShort) <==> |data| < 96
  {
  }

  /** The encoder fails exactly on invalid bodies, identifiers or commitments; otherwise the decoder undoes it. */
  lemma EncodeRequestRoundTrip(
    body: RequestBody, attestationType: bytes, sourceId: bytes, mic: Option<bytes>, valid: RequestBody -> bool)
    requires Fits(body.Fields())
    ensures var r := EncodeRequest(body, attestationType, sourceId, mic, valid);
            && (r.Ok? <==> && valid(body) && (mic.Some? ==> |mic.value| == 32)
                           && 0 < |attestationType| <= 32 && 0 < |sourceId| <= 32)
            && (r.Ok? ==> DecodeRequest(r.value) == Ok(body))
  {
    var commitment := if mic.Some? then mic.value else Zeros(32);
    var r := EncodeRequest(body, attestationType, sourceId, mic, valid);
    if r.Ok? {
      assert r.value == Layout(attestationType, sourceId, commitment, body);
      RequestRoundTrip(attestationType, sourceId, commitment, body);
    }
  }

  // ----- Sizes

  /** Sum over the fields of one length word plus the padded content. */
  ghost function TailSizes(fields: seq<bytes>, n: nat): nat
    requires n <= |fields|
  {
    if n == 0 then 0 else TailSizes(fields, n - 1) + 32 + 32 * Blocks(|fields[n - 1]|)
  }

  lemma {:induction false} TailsSize(fields: seq<bytes>, n: nat)
    requires n <= |fields|
    ensures |Tails(fields, n)| == TailSizes(fields, n)
  {
    if n > 0 {
      TailsSize(fields, n - 1);
    }
  }

  /** 352 octets of header, offset and heads, then 32 plus the padded length per string. */
  lemma RequestSize(attestationType: bytes, sourceId: bytes, mic: bytes, body: RequestBody)
    requires |attestationType| <= 32 && |sourceId| <= 32 && |mic| == 32
    ensures |Layout(attestationType, sourceId, mic, body)| == 352 + TailSizes(body.Fields(), 7)
  {
    TailsSize(body.Fields(), 7);
  }

  // ----- Hexadecimal strings

  function Digit(n: nat): char
    requires n < 16
  {
    if n < 10 then '0' + n as char else 'a' + (n - 10) as char
  }

  /** The k-th hexadecimal digit of an octet string. */
  function HexAt(bs: bytes, k: nat): char
    requires k < 2 * |bs|
  {
    if k % 2 == 0 then Digit(bs[k / 2] / 16) else Digit(bs[k / 2] % 16)
  }

  /** Two digits per octet. */
  function Hex(bs: bytes): (h: string)
    ensures |h| == 2 * |bs|
    ensures forall k :: 0 <= k < |h| ==> h[k] == HexAt(bs, k)
  {
    seq(2 * |bs|, k requires 0 <= k < 2 * |bs| => HexAt(bs, k))
  }

  /** `toString(16)`: no leading zeros, "0" for zero. */
  function ToString16(n: nat): (s: string)
    ensures s != ""
  {
    if n < 16 then [Digit(n)] else ToString16(n / 16) + [Digit(n % 16)]
  }

  function Repeat(c: char, n: nat): (s: string)
    ensures |s| == n && forall i :: 0 <= i < n ==> s[i] == c
  {
    seq(n, i => c)
  }

  function PadStart(s: string, n: nat): string {
    if |s| >= n then s else Repeat('0', n - |s|) + s
  }

  function PadEnd(s: string, n: nat): string {
    if |s| >= n then s else s + Repeat('0', n - |s|)
  }

  /** n hexadecimal digits. */
  ghost function Digits(w: nat, n: nat): (s: string)
    ensures |s| == w
  {
    if w == 0 then "" else Digits(w - 1, n / 16) + [Digit(n % 16)]
  }

  ghost function Pow16(w: nat): nat {
    if w == 0 then 1 else 16 * Pow16(w - 1)
  }

  lemma {:induction false} DigitsOfZero(w: nat)
    ensures Digits(w, 0) == Repeat('0', w)
  {
    if w > 0 {
      DigitsOfZero(w - 1);
    }
  }

  lemma {:induction false} PaddedToString(n: nat, w: nat)
    requires w > 0 && n < Pow16(w)
    ensures |ToString16(n)| <= w && PadStart(ToString16(n), w) == Digits(w, n)
  {
    if n < 16 {
      DigitsOfZero(w - 1);
      assert Digits(w, n) == Repeat('0', w - 1) + [Digit(n)];
    } else {
      PaddedToString(n / 16, w - 1);
      var s, d := ToString16(n / 16), [Digit(n % 16)];
      assert PadStart(s + d, w) == PadStart(s, w - 1) + d;
    }
  }

  lemma HexOctet(b: byte)
    ensures Hex([b]) == [Digit(b / 16), Digit(b % 16)]
  {
    var h := Hex([b]);
    assert h[0] == HexAt([b], 0) && h[1] == HexAt([b], 1);
  }

  lemma DigitsTwice(w: nat, n: nat)
    requires w > 0
    ensures Digits(2 * w, n) == Digits(2 * w - 2, n / 256) + [Digit(n % 256 / 16), Digit(n % 256 % 16)]
  {
    assert n / 16 / 16 == n / 256 && n / 16 % 16 == n % 256 / 16 && n % 16 == n % 256 % 16;
    assert Digits(2 * w, n) == Digits(2 * w - 1, n / 16) + [Digit(n % 16)];
  }

  lemma {:induction false} DigitsOfBigEndian(w: nat, n: nat)
    ensures Digits(2 * w, n) == Hex(BigEndian(w, n))
  {
    if w > 0 {
      DigitsOfBigEndian(w - 1, n / 256);
      DigitsTwice(w, n);
      HexOctet(n % 256);
      HexAppend(BigEndian(w - 1, n / 256), [n % 256]);
    }
  }

  lemma {:induction false} Pow16Pow256(w: nat)
    ensures Pow16(2 * w) == Pow256(w)
  {
    if w > 0 {
      Pow16Pow256(w - 1);
      assert Pow16(2 * w) == 16 * (16 * Pow16(2 * w - 2));
    }
  }

  lemma PaddedNumber(n: nat, w: nat)
    requires w > 0 && n < Pow256(w)
    ensures PadStart(ToString16(n), 2 * w) == Hex(BigEndian(w, n))
  {
    Pow16Pow256(w);
    PaddedToString(n, 2 * w);
    DigitsOfBigEndian(w, n);
  }

  lemma PaddedWord(n: nat)
    requires n < TWO_256
    ensures PadStart(ToString16(n), 64) == Hex(Word(n))
  {
    Pow256Widths();
    PaddedNumber(n, 32);
  }

  lemma HexAtAppend(a: bytes, b: bytes, k: nat)
    requires k < 2 * |a + b|
    ensures HexAt(a + b, k) == if k < 2 * |a| then HexAt(a, k) else HexAt(b, k - 2 * |a|)
  {
    if k >= 2 * |a| {
      assert (k - 2 * |a|) / 2 == k / 2 - |a| && (k - 2 * |a|) % 2 == k % 2;
    }
  }

  lemma HexAppend(a: bytes, b: bytes)
    ensures Hex(a + b) == Hex(a) + Hex(b)
  {
    forall k | 0 <= k < 2 * |a + b| ensures Hex(a + b)[k] == (Hex(a) + Hex(b))[k] {
      HexAtAppend(a, b, k);
    }
  }

  lemma HexOfZeros(n: nat)
    ensures Hex(Zeros(n)) == Repeat('0', 2 * n)
  {
    forall k | 0 <= k < 2 * n ensures Hex(Zeros(n))[k] == '0' {
      assert HexAt(Zeros(n), k) == Digit(0);
    }
  }

  /** Equal hexadecimal strings stand for equal octets. */
  lemma HexInjective(a: bytes, b: bytes)
    requires Hex(a) == Hex(b)
    ensures a == b
  {
    forall i | 0 <= i < |a| ensures a[i] == b[i] {
      assert Hex(a)[2 * i] == HexAt(a, 2 * i) && Hex(b)[2 * i] == HexAt(b, 2 * i);
      assert Hex(a)[2 * i + 1] == HexAt(a, 2 * i + 1) && Hex(b)[2 * i + 1] == HexAt(b, 2 * i + 1);
      DigitInjective(a[i] / 16, b[i] / 16);
      DigitInjective(a[i] % 16, b[i] % 16);
    }
  }

  /** The value of a lower-case hexadecimal digit, -1 for any other character. */
  ghost function DigitValue(c: char): int {
    if '0' <= c <= '9' then c as int - '0' as int
    else if 'a' <= c <= 'f' then 10 + (c as int - 'a' as int)
    else -1
  }

  lemma DigitReads(n: nat)
    requires n < 16
    ensures DigitValue(Digit(n)) == n
  {
  }

  lemma DigitInjective(m: nat, n: nat)
    requires m < 16 && n < 16 && Digit(m) == Digit(n)
    ensures m == n
  {
    DigitReads(m);
    DigitReads(n);
  }

  /** Every octet is written as two lower-case digits, the high one first. */
  lemma HexReads(bs: bytes, i: nat)
    requires i < |bs|
    ensures var high, low := DigitValue(Hex(bs)[2 * i]), DigitValue(Hex(bs)[2 * i + 1]);
            0 <= high < 16 && 0 <= low < 16 && 16 * high + low == bs[i]
  {
    assert Hex(bs)[2 * i] == HexAt(bs, 2 * i) == Digit(bs[i] / 16);
    assert Hex(bs)[2 * i + 1] == HexAt(bs, 2 * i + 1) == Digit(bs[i] % 16);
    DigitReads(bs[i] / 16);
    DigitReads(bs[i] % 16);
  }

  // ----- The browser's encoder

  method Utf8Hex(value: bytes) returns (out: string)
    ensures out == Hex(value)
  {
    out := "";
    for i := 0 to |value|
      invariant out == Hex(value[..i])
    {
      PaddedOctet(value[i]);
      HexAppend(value[..i], [value[i]]);
      assert value[..i + 1] == value[..i] + [value[i]];
      out := out + PadStart(ToString16(value[i]), 2);
    }
    assert value[..|value|] == value;
  }

  lemma PaddedOctet(b: byte)
    ensures PadStart(ToString16(b), 2) == Hex([b])
  {
    HexOctet(b);
    if b >= 16 {
      assert ToString16(b / 16) == [Digit(b / 16)];
    }
  }

  /** None where the code throws. */
  function Pad32Hex(hex: string): Option<string> {
    if |hex| > 64 then None else Some(PadEnd(hex, 64))
  }

  lemma PadEndIsZeros(s: bytes, n: nat)
    requires |s| <= n
    ensures PadEnd(Hex(s), 2 * n) == Hex(s + Zeros(n - |s|))
  {
    if |s| == n {
      assert s + Zeros(0) == s;
    } else {
      HexAppend(s, Zeros(n - |s|));
      HexOfZeros(n - |s|);
    }
  }

  lemma Pad32HexIsPadRight(s: bytes)
    ensures Pad32Hex(Hex(s)) == if |s| > 32 then None else Some(Hex(PadRight32(s)))
  {
    if |s| <= 32 {
      PadEndIsZeros(s, 32);
    }
  }

  lemma HexOfThree(w: bytes, s: bytes, z: bytes)
    ensures Hex(w + s + z) == Hex(w) + Hex(s + z)
  {
    HexAppend(w, s + z);
    assert w + s + z == w + (s + z);
  }

  lemma AbiStringBlock(s: bytes, data: string, byteLen: nat)
    requires |s| < TWO_64 && data == Hex(s) && byteLen == |s|
    ensures PadStart(ToString16(byteLen), 64) + PadEnd(data, Blocks(byteLen) * 64) == Hex(StringTail(s))
  {
    assert PadStart(ToString16(|s|), 64) == Hex(Word(|s|)) by {
      PaddedWord(|s|);
    }
    PadEndIsZeros(s, 32 * Blocks(|s|));
    HexOfThree(Word(|s|), s, Zeros(PadLength(|s|)));
  }

  method EncodeAbiString(value: bytes) returns (block: string)
    requires |value| < TWO_64
    ensures block == Hex(StringTail(value))
  {
    var data := Utf8Hex(value);
    var byteLen := |data| / 2;
    AbiStringBlock(value, data, byteLen);
    var padded := PadEnd(data, Blocks(byteLen) * 64);
    block := PadStart(ToString16(byteLen), 64) + padded;
  }

  method EncodeTuple(fields: seq<bytes>) returns (hex: string)
    requires Fits(fields)
    ensures hex == Hex(TupleArgument(fields))
  {
    var tailStart := |fields| * 0x20;
    var head := PadStart(ToString16(0x20), 64);
    var offset := tailStart;
    var offsets := "";
    var tail := "";
    for i := 0 to |fields|
      invariant offset == Offset(fields, i)
      invariant offsets == Hex(Words(Offsets(fields, i)))
      invariant tail == Hex(Tails(fields, i))
    {
      OffsetFits(fields, i);
      var block := EncodeAbiString(fields[i]);
      PaddedWord(offset);
      OffsetsStep(fields, i);
      HexAppend(Words(Offsets(fields, i)), Word(offset));
      HexAppend(Tails(fields, i), StringTail(fields[i]));
      offsets := offsets + PadStart(ToString16(offset), 64);
      offset := offset + |block| / 2;
      tail := tail + block;
    }
    PaddedWord(0x20);
    HexAppend(Word(32), Words(Offsets(fields, |fields|)));
    HexAppend(Word(32) + Words(Offsets(fields, |fields|)), Tails(fields, |fields|));
    hex := head + offsets + tail;
  }

  lemma OffsetsStep(fields: seq<bytes>, i: nat)
    requires i < |fields|
    ensures Words(Offsets(fields, i + 1)) == Words(Offsets(fields, i)) + Word(Offset(fields, i))
  {
    assert Offsets(fields, i + 1)[..i] == Offsets(fields, i);
  }

  /** The browser's request is the hexadecimal form of the ABI layout with a zero commitment. */
  method EncodeFdcWeb2JsonRequest(body: RequestBody) returns (r: string)
    requires Fits(body.Fields())
    ensures r == "0x" + Hex(Layout(Ascii("Web2Json"), Ascii("PublicWeb2"), Zeros(32), body))
  {
    var typeHex := Utf8Hex(Ascii(ATTESTATION_TYPE));
    var sourceHex := Utf8Hex(Ascii(SOURCE_ID));
    Pad32HexIsPadRight(Ascii(ATTESTATION_TYPE));
    Pad32HexIsPadRight(Ascii(SOURCE_ID));
    var header := Pad32Hex(typeHex).value + Pad32Hex(sourceHex).value + Repeat('0', 64);
    var tuple := EncodeTuple(body.Fields());
    r := "0x" + (header + tuple);
    ghost var a, b := PadRight32(Ascii(ATTESTATION_TYPE)), PadRight32(Ascii(SOURCE_ID));
    ghost var t := TupleArgument(body.Fields());
    HexOfZeros(32);
    HexAppend(a, b);
    HexAppend(a + b, Zeros(32));
    HexAppend(a + b + Zeros(32), t);
  }

  /**
   Browser and enclave agree octet for octet on every body the enclave accepts, and the enclave
   decodes the browser's request.
   */
  lemma EncodersAgree(body: RequestBody, valid: RequestBody -> bool)
    requires valid(body) && Fits(body.Fields())
    ensures EncodeRequest(body, Ascii(ATTESTATION_TYPE), Ascii(SOURCE_ID), None, valid)
         == Ok(Layout(Ascii(ATTESTATION_TYPE), Ascii(SOURCE_ID), Zeros(32), body))
    ensures DecodeRequest(Layout(Ascii(ATTESTATION_TYPE), Ascii(SOURCE_ID), Zeros(32), body)) == Ok(body)
  {
    RequestRoundTrip(Ascii(ATTESTATION_TYPE), Ascii(SOURCE_ID), Zeros(32), body);
  }

  /** Different bodies make different requests in the browser too. */
  lemma BrowserRequestInjective(a: RequestBody, b: RequestBody)
    requires Fits(a.Fields()) && Fits(b.Fields())
    requires Hex(Layout(Ascii(ATTESTATION_TYPE), Ascii(SOURCE_ID), Zeros(32), a))
          == Hex(Layout(Ascii(ATTESTATION_TYPE), Ascii(SOURCE_ID), Zeros(32), b))
    ensures a == b
  {
    var typeId, sourceId := Ascii(ATTESTATION_TYPE), Ascii(SOURCE_ID);
    HexInjective(Layout(typeId, sourceId, Zeros(32), a), Layout(typeId, sourceId, Zeros(32), b));
    RequestRoundTrip(typeId, sourceId, Zeros(32), a);
    RequestRoundTrip(typeId, sourceId, Zeros(32), b);
  }
}
