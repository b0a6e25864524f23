/**
 CBOR values and their encoding (section 3 of RFC 8949) with shortest definite-length heads, as the
 serializer emits it, and a decoder that inverts it.
 */
module Cbor {
  import opened Bytes
  import opened Outcomes
  import opened Utf8

  // ----- Values

  /** A byte string that fits in memory. */
  type Buffer = b: bytes | |b| < TWO_64

  type CborInt = i: int | -0x1_0000_0000_0000_0000 <= i < 0x1_0000_0000_0000_0000

  /** `Other` stands for tags, floats and simple values, which the project never looks into. */
  datatype Value =
    | Integer(i: CborInt)
    | Bytes(b: Buffer)
    | Text(t: Buffer)
    | Array(items: seq<Value>)
    | Map(entries: seq<Entry>)
    | Other(raw: bytes)

  datatype Entry = Entry(key: Value, value: Value)

  /** Major type and argument, in the shortest form. */
  function Head(major: nat, n: nat): (h: bytes)
    requires major < 8
    ensures |h| > 0
  {
    var m := 32 * major;
    if n < 24 then [m + n]
    else if n < 0x100 then [m + 24] + BigEndian(1, n)
    else if n < 0x1_0000 then [m + 25] + BigEndian(2, n)
    else if n < 0x1_0000_0000 then [m + 26] + BigEndian(4, n)
    else [m + 27] + BigEndian(8, n)
  }

  function Encode(v: Value): bytes
    decreases v, 1
  {
    match v
    case Integer(i) => if i >= 0 then Head(0, i) else Head(1, -1 - i)
    case Bytes(b) => Head(2, |b|) + b
    case Text(t) => Head(3, |t|) + t
    case Array(items) => Head(4, |items|) + EncodeAll(items)
    case Map(entries) => Head(5, |entries|) + EncodePairs(entries)
    case Other(raw) => raw
  }

  function EncodeAll(vs: seq<Value>): bytes
    decreases vs, 0
  {
    if vs == [] then [] else Encode(vs[0]) + EncodeAll(vs[1..])
  }

  function EncodePairs(es: seq<Entry>): bytes
    decreases es, 0
  {
    if es == [] then [] else EncodeEntry(es[0]) + EncodePairs(es[1..])
  }

  function EncodeEntry(e: Entry): bytes
    decreases e, 0
  {
    Encode(e.key) + Encode(e.value)
  }

  /** Nesting of at most `depth`, no foreign items, text in UTF-8, collections that fit in memory. */
  ghost predicate Plain(v: Value, depth: nat)
    decreases v, 1
  {
    match v
    case Array(items) => depth > 0 && |items| < TWO_64 && forall i :: 0 <= i < |items| ==> Plain(items[i], depth - 1)
    case Map(entries) =>
      depth > 0 && |entries| < TWO_64
      && forall i :: 0 <= i < |entries| ==> Plain(entries[i].key, depth - 1) && Plain(entries[i].value, depth - 1)
    case Text(t) => ValidUtf8(t)
    case Other(_) => false
    case _ => true
  }

  // ----- Decoding

  /** Reads one value from the front of its input and ignores what follows, as the library's reader does. */
  type Decoder = bytes -> Option<Value>

  /** Decoders limit nesting; the tokens of this project need five levels. */
  const NESTING: nat := 16

  /** The contract of a decoder: it inverts the encoder. On other inputs it may do anything. */
  ghost predicate Inverts(dec: Decoder) {
    forall v :: Plain(v, NESTING) ==> dec(Encode(v)) == Some(v)
  }

  function ReadArgument(bs: bytes, width: nat): Option<(nat, bytes)> {
    if |bs| < 1 + width then None else Some((ToNat(bs[1..1 + width]), bs[1 + width..]))
  }

  /** The argument of the head at the front of bs, and what follows the head. */
  function ReadHead(bs: bytes): (r: Option<(nat, bytes)>)
    ensures r.Some? ==> |r.value.1| < |bs|
  {
    if bs == [] then None
    else
      var info := bs[0] % 32;
      if info < 24 then Some((info, bs[1..]))
      else if info == 24 then ReadArgument(bs, 1)
      else if info == 25 then ReadArgument(bs, 2)
      else if info == 26 then ReadArgument(bs, 4)
      else if info == 27 then ReadArgument(bs, 8)
      else None
  }

  function Decode(bs: bytes): (r: Option<(Value, bytes)>)
    ensures r.Some? ==> |r.value.1| < |bs|
    decreases |bs|, 0
  {
    match ReadHead(bs)
    case None => None
    case Some((n, rest)) => if n < TWO_64 then DecodeBody(bs[0] / 32, n, rest) else None
  }

  /** The value whose head had this major type and argument. */
  function DecodeBody(major: nat, n: nat, rest: bytes): (r: Option<(Value, bytes)>)
    requires n < TWO_64
    ensures r.Some? ==> |r.value.1| <= |rest|
    decreases |rest|, 2
  {
    if major == 0 then Some((Integer(n), rest))
    else if major == 1 then Some((Integer(-1 - n), rest))
    else if major == 2 then (if n <= |rest| then Some((Bytes(rest[..n]), rest[n..])) else None)
    else if major == 3 then (if n <= |rest| && ValidUtf8(rest[..n]) then Some((Text(rest[..n]), rest[n..])) else None)
    else if major == 4 then
      match DecodeMany(n, rest)
      case None => None
      case Some((vs, left)) => Some((Array(vs), left))
    else if major == 5 then
      match DecodePairs(n, rest)
      case None => None
      case Some((es, left)) => Some((Map(es), left))
    else None
  }

  function DecodeMany(n: nat, bs: bytes): (r: Option<(seq<Value>, bytes)>)
    ensures r.Some? ==> |r.value.1| <= |bs|
    decreases |bs|, 1
  {
    if n == 0 then Some(([], bs))
    else match Decode(bs)
      case None => None
      case Some((v, rest)) =>
        match DecodeMany(n - 1, rest)
        case None => None
        case Some((vs, left)) => Some(([v] + vs, left))
  }

  function DecodePairs(n: nat, bs: bytes): (r: Option<(seq<Entry>, bytes)>)
    ensures r.Some? ==> |r.value.1| <= |bs|
    decreases |bs|, 1
  {
    if n == 0 then Some(([], bs))
    else match Decode(bs)
      case None => None
      case Some((k, rest)) =>
        match Decode(rest)
        case None => None
        case Some((v, rest')) =>
          match DecodePairs(n - 1, rest')
          case None => None
          case Some((es, left)) => Some(([Entry(k, v)] + es, left))
  }

  // ----- Round trip

  /** A head byte splits into major type and additional information. */
  lemma HeadByte(major: nat, info: nat)
    requires major < 8 && info < 32
    ensures (32 * major + info) / 32 == major && (32 * major + info) % 32 == info
  {
  }

  lemma ArgumentRoundTrip(first: byte, width: nat, n: nat, rest: bytes)
    requires n < Pow256(width)
    ensures ReadArgument([first] + BigEndian(width, n) + rest, width) == Some((n, rest))
  {
    var bs := [first] + BigEndian(width, n) + rest;
    assert bs[1..1 + width] == BigEndian(width, n) && bs[1 + width..] == rest;
    ValueOfBigEndian(width, n);
  }

  lemma LongHeadRoundTrip(major: nat, info: nat, width: nat, n: nat, rest: bytes)
    requires major < 8 && n < Pow256(width)
    requires (info, width) in {(24, 1), (25, 2), (26, 4), (27, 8)}
    ensures var bs := [32 * major + info] + BigEndian(width, n) + rest;
            ReadHead(bs) == Some((n, rest)) && bs[0] / 32 == major
  {
    HeadByte(major, info);
    ArgumentRoundTrip(32 * major + info, width, n, rest);
  }

  lemma HeadRoundTrip(major: nat, n: nat, rest: bytes)
    requires major < 8 && n < TWO_64
    ensures ReadHead(Head(major, n) + rest) == Some((n, rest))
    ensures (Head(major, n) + rest)[0] / 32 == major
  {
    Pow256Widths();
    if n < 24 {
      HeadByte(major, n);
      assert (Head(major, n) + rest)[1..] == rest;
    } else if n < 0x100 {
      LongHeadRoundTrip(major, 24, 1, n, rest);
    } else if n < 0x1_0000 {
      LongHeadRoundTrip(major, 25, 2, n, rest);
    } else if n < 0x1_0000_0000 {
      LongHeadRoundTrip(major, 26, 4, n, rest);
    } else {
      LongHeadRoundTrip(major, 27, 8, n, rest);
    }
  }

  lemma ArgumentFits(h: bytes, width: nat, n: nat)
    requires ReadArgument(h, width) == Some((n, []))
    ensures |h| == 1 + width && n < Pow256(width)
  {
    assert h[1..1 + width] == h[1..];
    BigEndianOfValue(h[1..]);
  }

  /** No head that reads back to the same argument is shorter: the length is a function of the argument. */
  lemma HeadIsShortest(major: nat, n: nat, h: bytes)
    requires major < 8 && n < TWO_64 && ReadHead(h) == Some((n, []))
    ensures |Head(major, n)| <= |h|
    ensures |Head(major, n)| == if n < 24 then 1 else if n < 256 then 2 else if n < 65536 then 3
                                else if n < 4294967296 then 5 else 9
  {
    Pow256Widths();
    var info := h[0] % 32;
    if info == 24 {
      ArgumentFits(h, 1, n);
    } else if info == 25 {
      ArgumentFits(h, 2, n);
    } else if info == 26 {
      ArgumentFits(h, 4, n);
    } else if info == 27 {
      ArgumentFits(h, 8, n);
    }
  }

  lemma HeadThenBody(major: nat, n: nat, body: bytes, rest: bytes)
    requires major < 8 && n < TWO_64
    ensures Decode(Head(major, n) + body + rest) == DecodeBody(major, n, body + rest)
  {
    HeadRoundTrip(major, n, body + rest);
    Regroup(Head(major, n), body, rest);
  }

  lemma StringRoundTrip(b: bytes, rest: bytes)
    ensures (b + rest)[..|b|] == b && (b + rest)[|b|..] == rest
  {
  }

  /** Decoding inverts encoding at any depth and leaves the rest of the input untouched. */
  lemma {:induction false} DecodeEncode(v: Value, depth: nat, rest: bytes)
    requires Plain(v, depth)
    ensures Decode(Encode(v) + rest) == Some((v, rest))
    decreases v, 1
  {
    match v
    case Integer(i) =>
      var head := Head(if i >= 0 then 0 else 1, if i >= 0 then i else -1 - i);
      HeadThenBody(if i >= 0 then 0 else 1, if i >= 0 then i else -1 - i, [], rest);
      assert head + [] == head && [] + rest == rest;
    case Bytes(b) =>
      HeadThenBody(2, |b|, b, rest);
      StringRoundTrip(b, rest);
    case Text(t) =>
      HeadThenBody(3, |t|, t, rest);
      StringRoundTrip(t, rest);
    case Array(items) =>
      HeadThenBody(4, |items|, EncodeAll(items), rest);
      DecodeManyEncode(items, depth - 1, rest);
    case Map(entries) =>
      HeadThenBody(5, |entries|, EncodePairs(entries), rest);
      DecodePairsEncode(entries, depth - 1, rest);
  }

  lemma ManyStep(vs: seq<Value>, bs: bytes, tail: bytes, rest: bytes)
    requires vs != [] && Decode(bs) == Some((vs[0], tail)) && DecodeMany(|vs| - 1, tail) == Some((vs[1..], rest))
    ensures DecodeMany(|vs|, bs) == Some((vs, rest))
  {
    assert vs == [vs[0]] + vs[1..];
  }

  lemma AllStep(vs: seq<Value>, rest: bytes)
    requires vs != []
    ensures EncodeAll(vs) + rest == Encode(vs[0]) + (EncodeAll(vs[1..]) + rest)
  {
  }

  lemma {:induction false} DecodeManyEncode(vs: seq<Value>, depth: nat, rest: bytes)
    requires forall i :: 0 <= i < |vs| ==> Plain(vs[i], depth)
    ensures DecodeMany(|vs|, EncodeAll(vs) + rest) == Some((vs, rest))
    decreases vs, 0
  {
    if vs == [] {
      assert EncodeAll(vs) + rest == rest;
    } else {
      var tail := EncodeAll(vs[1..]) + rest;
      DecodeEncode(vs[0], depth, tail);
      DecodeManyEncode(vs[1..], depth, rest);
      AllStep(vs, rest);
      ManyStep(vs, Encode(vs[0]) + tail, tail, rest);
    }
  }

  lemma PairsStep(es: seq<Entry>, bs: bytes, mid: bytes, tail: bytes, rest: bytes)
    requires es != [] && Decode(bs) == Some((es[0].key, mid)) && Decode(mid) == Some((es[0].value, tail))
    requires DecodePairs(|es| - 1, tail) == Some((es[1..], rest))
    ensures DecodePairs(|es|, bs) == Some((es, rest))
  {
    assert es == [Entry(es[0].key, es[0].value)] + es[1..];
  }

  lemma RegroupPair(k: bytes, v: bytes, more: bytes, rest: bytes)
    ensures k + v + more + rest == k + (v + (more + rest))
  {
  }

  lemma EntryStep(es: seq<Entry>, rest: bytes)
    requires es != []
    ensures EncodePairs(es) + rest == Encode(es[0].key) + (Encode(es[0].value) + (EncodePairs(es[1..]) + rest))
  {
    RegroupPair(Encode(es[0].key), Encode(es[0].value), EncodePairs(es[1..]), rest);
  }

  lemma {:induction false} DecodePairsEncode(es: seq<Entry>, depth: nat, rest: bytes)
    requires forall i :: 0 <= i < |es| ==> Plain(es[i].key, depth) && Plain(es[i].value, depth)
    ensures DecodePairs(|es|, EncodePairs(es) + rest) == Some((es, rest))
    decreases es, 0
  {
    if es == [] {
      assert EncodePairs(es) + rest == rest;
    } else {
      var tail := EncodePairs(es[1..]) + rest;
      EntryRoundTrip(es[0], depth, tail);
      DecodePairsEncode(es[1..], depth, rest);
      EntryStep(es, rest);
      PairsStep(es, Encode(es[0].key) + (Encode(es[0].value) + tail), Encode(es[0].value) + tail, tail, rest);
    }
  }

  lemma {:induction false} EntryRoundTrip(e: Entry, depth: nat, tail: bytes)
    requires Plain(e.key, depth) && Plain(e.value, depth)
    ensures Decode(Encode(e.key) + (Encode(e.value) + tail)) == Some((e.key, Encode(e.value) + tail))
    ensures Decode(Encode(e.value) + tail) == Some((e.value, tail))
    decreases e, 0
  {
    DecodeEncode(e.key, depth, Encode(e.value) + tail);
    DecodeEncode(e.value, depth, tail);
  }

  /** Equal encodings encode equal values. */
  lemma EncodeInjective(v: Value, w: Value)
    requires Plain(v, NESTING) && Plain(w, NESTING) && Encode(v) == Encode(w)
    ensures v == w
  {
    DecodeEncode(v, NESTING, []);
    DecodeEncode(w, NESTING, []);
  }

  /** The contract can be met: the decoder above meets it. */
  lemma ReferenceDecoderInverts()
    ensures Inverts(bs => match Decode(bs) case None => None case Some((v, _)) => Some(v))
  {
    forall v | Plain(v, NESTING)
      ensures Decode(Encode(v)).Some? && Decode(Encode(v)).value.0 == v
    {
      DecodeEncode(v, NESTING, []);
      assert Encode(v) + [] == Encode(v);
    }
  }
}
