/**
 Recursive Length Prefix encoding (Appendix B of the Ethereum Yellow Paper): items are byte strings
 or lists of items, and the decoder accepts canonical encodings only.
 */
module Rlp {
  import opened Bytes
  import opened Outcomes

  datatype Item = Str(b: bytes) | List(items: seq<Item>)

  // ----- Scalars

  /** Big-endian without leading zeros; zero is the empty string. */
  function Minimal(n: nat): (bs: bytes)
    ensures n == 0 <==> bs == []
    ensures bs != [] ==> bs[0] != 0
  {
    if n == 0 then [] else Minimal(n / 256) + [n % 256]
  }

  lemma {:induction false} MinimalRoundTrip(n: nat, width: nat)
    requires n < Pow256(width)
    ensures ToNat(Minimal(n)) == n && |Minimal(n)| <= width
  {
    if n != 0 {
      MinimalRoundTrip(n / 256, width - 1);
      assert Minimal(n)[..|Minimal(n)| - 1] == Minimal(n / 256);
    }
  }

  // ----- Encoding

  /** Length prefix and content of a string (base 0x80) or of a list (base 0xC0). */
  function Frame(base: nat, content: bytes): bytes
    requires base in {0x80, 0xC0} && |content| < TWO_64
  {
    if |content| <= 55 then [base + |content|] + content
    else
      LengthOfLength(|content|);
      [base + 55 + |Minimal(|content|)|] + Minimal(|content|) + content
  }

  lemma LengthOfLength(n: nat)
    requires n < TWO_64
    ensures |Minimal(n)| <= 8 && ToNat(Minimal(n)) == n
  {
    Pow256Widths();
    MinimalRoundTrip(n, 8);
  }

  function EncodeStr(b: bytes): bytes
    requires |b| < TWO_64
  {
    if |b| == 1 && b[0] < 0x80 then b else Frame(0x80, b)
  }

  /** Every string and every list body inside the item is shorter than 2^64 octets. */
  ghost predicate Small(item: Item)
    decreases item, 0
  {
    match item
    case Str(b) => |b| < TWO_64
    case List(items) => AllSmall(items) && |EncodeAll(items)| < TWO_64
  }

  ghost predicate AllSmall(items: seq<Item>)
    decreases items, 0
  {
    items == [] || (Small(items[0]) && AllSmall(items[1..]))
  }

  ghost function Encode(item: Item): bytes
    requires Small(item)
    decreases item, 1
  {
    match item
    case Str(b) => EncodeStr(b)
    case List(items) => Frame(0xC0, EncodeAll(items))
  }

  ghost function EncodeAll(items: seq<Item>): bytes
    requires AllSmall(items)
    decreases items, 1
  {
    if items == [] then [] else Encode(items[0]) + EncodeAll(items[1..])
  }

  // ----- Decoding

  /** What a prefix announces: the kind of item, its content, and the input behind it. */
  datatype Framed = Framed(isList: bool, content: bytes, rest: bytes)

  /** Takes n octets behind a prefix of `skip` octets. */
  function TakeContent(isList: bool, bs: bytes, skip: nat, n: nat): (r: Option<Framed>)
    requires skip > 0
    ensures r.Some? ==> |r.value.content| < |bs| && |r.value.rest| < |bs|
  {
    if skip + n <= |bs| then Some(Framed(isList, bs[skip..skip + n], bs[skip + n..])) else None
  }

  /** A long form: the length itself takes `width` octets, without leading zero, and exceeds 55. */
  function TakeLong(isList: bool, bs: bytes, width: nat): (r: Option<Framed>)
    ensures r.Some? ==> |r.value.content| < |bs| && |r.value.rest| < |bs|
  {
    if |bs| < 1 + width || width == 0 || bs[1] == 0 || ToNat(bs[1..1 + width]) <= 55 then None
    else TakeContent(isList, bs, 1 + width, ToNat(bs[1..1 + width]))
  }

  function ReadFrame(bs: bytes): (r: Option<Framed>)
    ensures r.Some? ==> |r.value.rest| < |bs| && (r.value.isList ==> |r.value.content| < |bs|)
  {
    if bs == [] then None
    else if bs[0] < 0x80 then Some(Framed(false, bs[..1], bs[1..]))
    else if bs[0] <= 0xB7 then
      var r := TakeContent(false, bs, 1, bs[0] - 0x80);
      if r.Some? && |r.value.content| == 1 && r.value.content[0] < 0x80 then None else r
    else if bs[0] <= 0xBF then TakeLong(false, bs, bs[0] - 0xB7)
    else if bs[0] <= 0xF7 then TakeContent(true, bs, 1, bs[0] - 0xC0)
    else TakeLong(true, bs, bs[0] - 0xF7)
  }

  function Decode(bs: bytes): (r: Option<(Item, bytes)>)
    ensures r.Some? ==> |r.value.1| < |bs|
    decreases |bs|, 0
  {
    match ReadFrame(bs)
    case None => None
    case Some(f) =>
      if !f.isList then Some((Str(f.content), f.rest))
      else match DecodeAll(f.content)
        case None => None
        case Some(items) => Some((List(items), f.rest))
  }

  function DecodeAll(bs: bytes): Option<seq<Item>>
    decreases |bs|, 1
  {
    if bs == [] then Some([])
    else match Decode(bs)
      case None => None
      case Some((item, rest)) =>
        match DecodeAll(rest)
        case None => None
        case Some(items) => Some([item] + items)
  }

  // ----- Round trip

  lemma ShortFrame(base: nat, content: bytes, rest: bytes)
    requires base in {0x80, 0xC0} && |content| <= 55
    ensures TakeContent(base == 0xC0, Frame(base, content) + rest, 1, |content|)
         == Some(Framed(base == 0xC0, content, rest))
  {
    var bs := Frame(base, content) + rest;
    assert bs[1..1 + |content|] == content && bs[1 + |content|..] == rest;
  }

  lemma LongSlices(first: byte, len: bytes, content: bytes, rest: bytes)
    requires len != []
    ensures var bs := [first] + len + content + rest;
            var skip := 1 + |len|;
            && bs[1..skip] == len && bs[1] == len[0]
            && bs[skip..skip + |content|] == content && bs[skip + |content|..] == rest
  {
  }

  lemma LongFrame(base: nat, content: bytes, rest: bytes)
    requires base in {0x80, 0xC0} && 55 < |content| < TWO_64
    ensures TakeLong(base == 0xC0, Frame(base, content) + rest, |Minimal(|content|)|)
         == Some(Framed(base == 0xC0, content, rest))
  {
    LengthOfLength(|content|);
    LongSlices(base + 55 + |Minimal(|content|)|, Minimal(|content|), content, rest);
  }

  lemma FrameRoundTrip(base: nat, content: bytes, rest: bytes)
    requires base in {0x80, 0xC0} && |content| < TWO_64
    requires base == 0x80 ==> !(|content| == 1 && content[0] < 0x80)
    ensures ReadFrame(Frame(base, content) + rest) == Some(Framed(base == 0xC0, content, rest))
  {
    if |content| <= 55 {
      ShortFrame(base, content, rest);
    } else {
      LengthOfLength(|content|);
      LongFrame(base, content, rest);
    }
  }

  lemma StrRoundTrip(b: bytes, rest: bytes)
    requires |b| < TWO_64
    ensures ReadFrame(EncodeStr(b) + rest) == Some(Framed(false, b, rest))
  {
    if |b| == 1 && b[0] < 0x80 {
      assert (b + rest)[..1] == b && (b + rest)[1..] == rest;
    } else {
      FrameRoundTrip(0x80, b, rest);
    }
  }

  lemma EncodingsAreNotEmpty(item: Item)
    requires Small(item)
    ensures Encode(item) != []
  {
  }

  /** Decoding inverts encoding and leaves the rest of the input untouched. */
  lemma {:induction false} DecodeEncode(item: Item, rest: bytes)
    requires Small(item)
    ensures Decode(Encode(item) + rest) == Some((item, rest))
    decreases item, 1
  {
    match item
    case Str(b) => StrRoundTrip(b, rest);
    case List(items) =>
      FrameRoundTrip(0xC0, EncodeAll(items), rest);
      DecodeEncodeAll(items);
  }

  lemma {:induction false} DecodeEncodeAll(items: seq<Item>)
    requires AllSmall(items)
    ensures DecodeAll(EncodeAll(items)) == Some(items)
    decreases items, 0
  {
    if items != [] {
      DecodeEncode(items[0], EncodeAll(items[1..]));
      DecodeEncodeAll(items[1..]);
      EncodingsAreNotEmpty(items[0]);
      assert items == [items[0]] + items[1..];
    }
  }

  lemma EncodeInjective(a: Item, b: Item)
    requires Small(a) && Small(b) && Encode(a) == Encode(b)
    ensures a == b
  {
    DecodeEncode(a, []);
    DecodeEncode(b, []);
    assert Encode(a) + [] == Encode(b) + [];
  }

  // ----- Only canonical encodings are read

  /** Octets without a leading zero are the shortest form of what they denote. */
  lemma {:induction false} MinimalOfValue(bs: bytes)
    requires bs == [] || bs[0] != 0
    ensures Minimal(ToNat(bs)) == bs
  {
    if bs != [] {
      var init, last := bs[..|bs| - 1], bs[|bs| - 1];
      MinimalOfValue(init);
      assert bs == init + [last];
      assert ToNat(bs) / 256 == ToNat(init) && ToNat(bs) % 256 == last;
      assert init == [] ==> last != 0;
    }
  }

  lemma LengthFits(len: bytes)
    requires |len| <= 8
    ensures ToNat(len) < TWO_64
  {
    BigEndianOfValue(len);
    Pow256Monotone(|len|, 8);
    Pow256Widths();
  }

  lemma InFourParts<T>(s: seq<T>, a: nat, b: nat)
    requires 1 <= a <= b <= |s|
    ensures s == [s[0]] + s[1..a] + s[a..b] + s[b..]
  {
  }

  lemma LongFrameSound(isList: bool, bs: bytes, width: nat, f: Framed)
    requires TakeLong(isList, bs, width) == Some(f) && width <= 8
    requires bs[0] == (if isList then 0xC0 else 0x80) + 55 + width
    ensures 55 < |f.content| < TWO_64
    ensures bs == Frame(if isList then 0xC0 else 0x80, f.content) + f.rest
  {
    var len := bs[1..1 + width];
    LengthFits(len);
    MinimalOfValue(len);
    InFourParts(bs, 1 + width, 1 + width + ToNat(len));
  }

  lemma ReadFrameSound(bs: bytes, f: Framed)
    requires ReadFrame(bs) == Some(f)
    ensures |f.content| < TWO_64
    ensures bs == (if f.isList then Frame(0xC0, f.content) else EncodeStr(f.content)) + f.rest
  {
    if bs[0] < 0x80 {
      assert bs == bs[..1] + bs[1..];
    } else if bs[0] <= 0xB7 || 0xBF < bs[0] <= 0xF7 {
      assert bs == [bs[0]] + f.content + f.rest;
    } else if bs[0] <= 0xBF {
      LongFrameSound(false, bs, bs[0] - 0xB7, f);
    } else {
      LongFrameSound(true, bs, bs[0] - 0xF7, f);
    }
  }

  /** Whatever the decoder reads is the encoding of the item it returns, followed by the rest. */
  lemma {:induction false} DecodeSound(bs: bytes)
    requires Decode(bs).Some?
    ensures var (item, rest) := Decode(bs).value; Small(item) && bs == Encode(item) + rest
    decreases |bs|, 0
  {
    var f := ReadFrame(bs).value;
    ReadFrameSound(bs, f);
    if f.isList {
      DecodeAllSound(f.content);
    }
  }

  lemma {:induction false} DecodeAllSound(bs: bytes)
    requires DecodeAll(bs).Some?
    ensures AllSmall(DecodeAll(bs).value) && EncodeAll(DecodeAll(bs).value) == bs
    decreases |bs|, 1
  {
    if bs != [] {
      var (item, rest) := Decode(bs).value;
      DecodeSound(bs);
      DecodeAllSound(rest);
      EncodeAllCons(item, DecodeAll(rest).value);
    }
  }

  /** Each item has one encoding, and the decoder accepts nothing else. */
  lemma DecodesIffEncoded(bs: bytes, item: Item)
    ensures Decode(bs) == Some((item, [])) <==> Small(item) && bs == Encode(item)
  {
    if Decode(bs) == Some((item, [])) {
      DecodeSound(bs);
    }
    if Small(item) && bs == Encode(item) {
      DecodeEncode(item, []);
      assert bs + [] == bs;
    }
  }

  // ----- Concatenation of item lists

  lemma EncodeAllCons(x: Item, tail: seq<Item>)
    requires Small(x) && AllSmall(tail)
    ensures AllSmall([x] + tail) && EncodeAll([x] + tail) == Encode(x) + EncodeAll(tail)
  {
    assert ([x] + tail)[1..] == tail;
  }

  lemma {:induction false} EncodeAllAppend(xs: seq<Item>, ys: seq<Item>)
    requires AllSmall(xs) && AllSmall(ys)
    ensures AllSmall(xs + ys) && EncodeAll(xs + ys) == EncodeAll(xs) + EncodeAll(ys)
  {
    if xs == [] {
      assert xs + ys == ys;
    } else {
      var x, tail := xs[0], xs[1..];
      assert xs == [x] + tail && xs + ys == [x] + (tail + ys);
      EncodeAllAppend(tail, ys);
      EncodeAllCons(x, tail);
      EncodeAllCons(x, tail + ys);
      Regroup(Encode(x), EncodeAll(tail), EncodeAll(ys));
    }
  }

  lemma EncodeAllSnoc(xs: seq<Item>, y: Item)
    requires AllSmall(xs) && Small(y)
    ensures AllSmall(xs + [y]) && EncodeAll(xs + [y]) == EncodeAll(xs) + Encode(y)
  {
    assert [y][1..] == [];
    assert AllSmall([y]) && EncodeAll([y]) == Encode(y) + [];
    EncodeAllAppend(xs, [y]);
  }

  lemma StrLength(b: bytes)
    requires |b| < TWO_64
    ensures |EncodeStr(b)| <= |b| + 9
  {
    LengthOfLength(|b|);
  }
}
