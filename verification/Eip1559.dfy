/**
 EIP-1559 transactions as the two-share wallet signs and broadcasts them: a type octet and an RLP
 list, unsigned with nine items and signed with twelve.
 */
module Eip1559 {
  import opened Bytes
  import opened Outcomes
  import opened Rlp

  type u8 = x: int | 0 <= x < 256

  /** Call data is a byte vector, which never outgrows the signed half of a 64-bit address space. */
  type CallData = b: bytes | |b| < TWO_64 / 2

  datatype Tx = Tx(
    chainId: u64, nonce: u64, maxPriorityFee: u128, maxFee: u128, gasLimit: u64,
    to: bytes20, value: bytes32, data: CallData)

  datatype Signature = Signature(r: bytes32, s: bytes32, yParity: u8)

  // ----- The items of both forms

  /** The eight strings in front of the access list. */
  ghost function Fields(tx: Tx): seq<bytes> {
    [Minimal(tx.chainId), Minimal(tx.nonce), Minimal(tx.maxPriorityFee), Minimal(tx.maxFee),
     Minimal(tx.gasLimit), tx.to, tx.value, tx.data]
  }

  ghost function SignatureFields(sig: Signature): seq<bytes> {
    [Minimal(sig.yParity), sig.r, sig.s]
  }

  ghost function Strs(bs: seq<bytes>): (items: seq<Item>)
    ensures |items| == |bs|
    ensures forall i :: 0 <= i < |bs| ==> items[i] == Str(bs[i])
  {
    seq(|bs|, i requires 0 <= i < |bs| => Str(bs[i]))
  }

  /** Nine items; the access list is empty. */
  ghost function TxItems(tx: Tx): (items: seq<Item>)
    ensures |items| == 9
  {
    Strs(Fields(tx)) + [List([])]
  }

  ghost function SignedItems(tx: Tx, sig: Signature): (items: seq<Item>)
    ensures |items| == 12
  {
    TxItems(tx) + Strs(SignatureFields(sig))
  }

  ghost function Typed(items: seq<Item>): bytes
    requires Small(List(items))
  {
    [0x02] + Encode(List(items))
  }

  // ----- Sizes

  ghost function TotalUpTo(bs: seq<bytes>, n: nat): nat
    requires n <= |bs|
  {
    if n == 0 then 0 else TotalUpTo(bs, n - 1) + |bs[n - 1]|
  }

  lemma {:induction false} StrsAreSmall(bs: seq<bytes>, n: nat)
    requires n <= |bs| && forall i :: 0 <= i < |bs| ==> |bs[i]| < TWO_64
    ensures AllSmall(Strs(bs)[..n]) && |EncodeAll(Strs(bs)[..n])| <= TotalUpTo(bs, n) + 9 * n
  {
    if n > 0 {
      StrsAreSmall(bs, n - 1);
      StrLength(bs[n - 1]);
      EncodeAllSnoc(Strs(bs)[..n - 1], Str(bs[n - 1]));
      assert Strs(bs)[..n] == Strs(bs)[..n - 1] + [Str(bs[n - 1])];
    }
  }

  lemma ScalarSizes(tx: Tx)
    ensures |Minimal(tx.chainId)| <= 8 && |Minimal(tx.nonce)| <= 8 && |Minimal(tx.gasLimit)| <= 8
    ensures |Minimal(tx.maxPriorityFee)| <= 16 && |Minimal(tx.maxFee)| <= 16
  {
    Pow256Widths();
    MinimalRoundTrip(tx.chainId, 8);
    MinimalRoundTrip(tx.nonce, 8);
    MinimalRoundTrip(tx.gasLimit, 8);
    MinimalRoundTrip(tx.maxPriorityFee, 16);
    MinimalRoundTrip(tx.maxFee, 16);
  }

  lemma ParitySize(parity: u8)
    ensures |Minimal(parity)| <= 1
  {
    assert Minimal(parity / 256) == [];
  }

  lemma TotalOfThree(bs: seq<bytes>)
    requires |bs| == 3
    ensures TotalUpTo(bs, 3) == |bs[0]| + |bs[1]| + |bs[2]|
  {
    assert TotalUpTo(bs, 1) == |bs[0]|;
    assert TotalUpTo(bs, 2) == TotalUpTo(bs, 1) + |bs[1]|;
  }

  lemma TotalOfEight(bs: seq<bytes>)
    requires |bs| == 8
    ensures TotalUpTo(bs, 8)
         == |bs[0]| + |bs[1]| + |bs[2]| + |bs[3]| + |bs[4]| + |bs[5]| + |bs[6]| + |bs[7]|
  {
    assert TotalUpTo(bs, 1) == |bs[0]|;
    assert TotalUpTo(bs, 2) == TotalUpTo(bs, 1) + |bs[1]|;
    assert TotalUpTo(bs, 3) == TotalUpTo(bs, 2) + |bs[2]|;
    assert TotalUpTo(bs, 4) == TotalUpTo(bs, 3) + |bs[3]|;
    assert TotalUpTo(bs, 5) == TotalUpTo(bs, 4) + |bs[4]|;
    assert TotalUpTo(bs, 6) == TotalUpTo(bs, 5) + |bs[5]|;
    assert TotalUpTo(bs, 7) == TotalUpTo(bs, 6) + |bs[6]|;
  }

  lemma FieldsAreSmall(tx: Tx)
    ensures AllSmall(Strs(Fields(tx))) && |EncodeAll(Strs(Fields(tx)))| <= |tx.data| + 180
  {
    ScalarSizes(tx);
    StrsAreSmall(Fields(tx), 8);
    TotalOfEight(Fields(tx));
    assert Strs(Fields(tx))[..8] == Strs(Fields(tx));
  }

  lemma TxItemsAreSmall(tx: Tx)
    ensures AllSmall(TxItems(tx)) && |EncodeAll(TxItems(tx))| <= |tx.data| + 181
  {
    FieldsAreSmall(tx);
    assert Encode(List([])) == [0xC0];
    EncodeAllSnoc(Strs(Fields(tx)), List([]));
  }

  lemma SignatureFieldSizes(sig: Signature)
    ensures forall i :: 0 <= i < 3 ==> |SignatureFields(sig)[i]| < TWO_64
    ensures TotalUpTo(SignatureFields(sig), 3) <= 65
  {
    TotalOfThree(SignatureFields(sig));
    ParitySize(sig.yParity);
  }

  lemma SignatureIsSmall(sig: Signature)
    ensures AllSmall(Strs(SignatureFields(sig))) && |EncodeAll(Strs(SignatureFields(sig)))| <= 92
  {
    var bs := SignatureFields(sig);
    SignatureFieldSizes(sig);
    StrsAreSmall(bs, 3);
    assert Strs(bs)[..3] == Strs(bs);
  }

  lemma SignedItemsAreSmall(tx: Tx, sig: Signature)
    ensures AllSmall(SignedItems(tx, sig)) && |EncodeAll(SignedItems(tx, sig))| <= |tx.data| + 273
  {
    TxItemsAreSmall(tx);
    SignatureIsSmall(sig);
    EncodeAllAppend(TxItems(tx), Strs(SignatureFields(sig)));
  }

  /** The bytes that are hashed and signed. */
  ghost function SigningPayload(tx: Tx): bytes {
    TxItemsAreSmall(tx);
    Typed(TxItems(tx))
  }

  /** The bytes that are broadcast. */
  ghost function RawSignedTx(tx: Tx, sig: Signature): bytes {
    SignedItemsAreSmall(tx, sig);
    Typed(SignedItems(tx, sig))
  }

  // ----- The builder

  /** An RLP stream for one list of known length; the list prefix is inserted with the last item. */
  class RlpStream {
    var buffer: bytes
    var remaining: nat
    ghost var items: seq<Item>

    ghost predicate Valid()
      reads this
    {
      && AllSmall(items)
      && (if remaining > 0 then buffer == EncodeAll(items) else Small(List(items)) && buffer == Encode(List(items)))
    }

    constructor NewList(n: nat)
      requires n > 0
      ensures Valid() && items == [] && remaining == n
    {
      buffer, remaining, items := [], n, [];
    }

    method Note(encoded: bytes, ghost item: Item)
      requires Valid() && remaining > 0 && Small(item) && encoded == Encode(item)
      requires |EncodeAll(items)| + |encoded| < TWO_64
      modifies this
      ensures Valid() && items == old(items) + [item] && remaining == old(remaining) - 1
    {
      EncodeAllSnoc(items, item);
      items := items + [item];
      buffer := buffer + encoded;
      remaining := remaining - 1;
      if remaining == 0 {
        buffer := Frame(0xC0, buffer);
      }
    }

    method Append(b: bytes)
      requires Valid() && remaining > 0 && |EncodeAll(items)| + |b| + 9 < TWO_64
      modifies this
      ensures Valid() && items == old(items) + [Str(b)] && remaining == old(remaining) - 1
    {
      StrLength(b);
      Note(EncodeStr(b), Str(b));
    }

    method BeginEmptyList()
      requires Valid() && remaining > 0 && |EncodeAll(items)| + 1 < TWO_64
      modifies this
      ensures Valid() && items == old(items) + [List([])] && remaining == old(remaining) - 1
    {
      assert Encode(List([])) == Frame(0xC0, []) == [0xC0];
      Note(Frame(0xC0, []), List([]));
    }

    /** Several strings in a row, as the builders append them. */
    method AppendAll(bs: seq<bytes>)
      requires Valid() && remaining >= |bs| && forall i :: 0 <= i < |bs| ==> |bs[i]| < TWO_64
      requires |EncodeAll(items)| + TotalUpTo(bs, |bs|) + 9 * |bs| < TWO_64
      modifies this
      ensures Valid() && items == old(items) + Strs(bs) && remaining == old(remaining) - |bs|
    {
      ghost var start := items;
      for i := 0 to |bs|
        invariant Valid() && items == start + Strs(bs)[..i] && remaining == old(remaining) - i
      {
        StrsAreSmall(bs, i);
        EncodeAllAppend(start, Strs(bs)[..i]);
        TotalsGrow(bs, i + 1, |bs|);
        Append(bs[i]);
        assert items == start + Strs(bs)[..i + 1];
      }
      assert Strs(bs)[..|bs|] == Strs(bs);
    }
  }

  lemma {:induction false} TotalsGrow(bs: seq<bytes>, i: nat, j: nat)
    requires i <= j <= |bs|
    ensures TotalUpTo(bs, i) <= TotalUpTo(bs, j)
  {
    if i < j {
      TotalsGrow(bs, i, j - 1);
    }
  }

  lemma FieldsTotal(tx: Tx)
    ensures forall i :: 0 <= i < 8 ==> |Fields(tx)[i]| < TWO_64
    ensures TotalUpTo(Fields(tx), 8) <= |tx.data| + 108
  {
    ScalarSizes(tx);
    TotalOfEight(Fields(tx));
  }

  method AppendTx(stream: RlpStream, tx: Tx)
    requires stream.Valid() && stream.items == [] && stream.remaining >= 9
    modifies stream
    ensures stream.Valid() && stream.items == TxItems(tx) && stream.remaining == old(stream.remaining) - 9
  {
    FieldsTotal(tx);
    FieldsAreSmall(tx);
    stream.AppendAll([Minimal(tx.chainId), Minimal(tx.nonce), Minimal(tx.maxPriorityFee), Minimal(tx.maxFee),
                      Minimal(tx.gasLimit), tx.to, tx.value, tx.data]);
    assert [] + Strs(Fields(tx)) == Strs(Fields(tx));
    stream.BeginEmptyList();
  }

  method BuildSigningPayload(tx: Tx) returns (payload: bytes)
    ensures payload == SigningPayload(tx)
  {
    var stream := new RlpStream.NewList(9);
    AppendTx(stream, tx);
    payload := [0x02] + stream.buffer;
  }

  method BuildRawSignedTx(tx: Tx, sig: Signature) returns (out: bytes)
    ensures out == RawSignedTx(tx, sig)
  {
    var stream := new RlpStream.NewList(12);
    AppendTx(stream, tx);
    TxItemsAreSmall(tx);
    SignatureFieldSizes(sig);
    stream.AppendAll([Minimal(sig.yParity), sig.r, sig.s]);
    out := [0x02] + stream.buffer;
  }

  // ----- Decoding

  /** A string of at most `width` octets without leading zeros. */
  predicate IsScalar(item: Item, width: nat) {
    item.Str? && |item.b| <= width && (item.b == [] || item.b[0] != 0)
  }

  function Scalar(item: Item, width: nat): Option<nat> {
    if IsScalar(item, width) then Some(ToNat(item.b)) else None
  }

  function Fixed(item: Item, width: nat): Option<bytes> {
    if item.Str? && |item.b| == width then Some(item.b) else None
  }

  /** The items of a typed transaction with nothing behind it. */
  function OpenTyped(raw: bytes): Option<seq<Item>> {
    if raw == [] || raw[0] != 0x02 then None
    else match Decode(raw[1..])
      case Some((List(items), rest)) => if rest == [] then Some(items) else None
      case _ => None
  }

  function ReadTx(items: seq<Item>): (r: Option<Tx>)
    requires |items| >= 9
  {
    match (Scalar(items[0], 8), Scalar(items[1], 8), Scalar(items[2], 16), Scalar(items[3], 16), Scalar(items[4], 8),
           Fixed(items[5], 20), Fixed(items[6], 32), items[7], items[8])
    case (Some(chainId), Some(nonce), Some(priority), Some(fee), Some(gas),
          Some(to), Some(value), Str(data), List(access)) =>
      if chainId < TWO_64 && nonce < TWO_64 && gas < TWO_64 && priority < TWO_64 * TWO_64 && fee < TWO_64 * TWO_64
         && |data| < TWO_64 / 2 && access == []
      then Some(Tx(chainId, nonce, priority, fee, gas, to, value, data)) else None
    case _ => None
  }

  function ReadSignature(items: seq<Item>): Option<Signature>
    requires |items| == 12
  {
    match (Scalar(items[9], 1), Fixed(items[10], 32), Fixed(items[11], 32))
    case (Some(parity), Some(r), Some(s)) => if parity < 256 then Some(Signature(r, s, parity)) else None
    case _ => None
  }

  function DecodeSigned(raw: bytes): Option<(Tx, Signature)> {
    match OpenTyped(raw)
    case None => None
    case Some(items) =>
      if |items| != 12 then None
      else match (ReadTx(items), ReadSignature(items))
        case (Some(tx), Some(sig)) => Some((tx, sig))
        case _ => None
  }

  lemma OpenTypedItems(items: seq<Item>)
    requires Small(List(items))
    ensures OpenTyped(Typed(items)) == Some(items)
  {
    DecodeEncode(List(items), []);
    assert Typed(items)[1..] == Encode(List(items)) + [];
  }

  lemma ScalarOfMinimal(n: nat, width: nat)
    requires n < Pow256(width)
    ensures Scalar(Str(Minimal(n)), width) == Some(n)
  {
    MinimalRoundTrip(n, width);
  }

  lemma ReadTxOfItems(tx: Tx, items: seq<Item>)
    requires |items| >= 9 && items[..9] == TxItems(tx)
    ensures ReadTx(items) == Some(tx)
  {
    Pow256Widths();
    ScalarOfMinimal(tx.chainId, 8);
    ScalarOfMinimal(tx.nonce, 8);
    ScalarOfMinimal(tx.maxPriorityFee, 16);
    ScalarOfMinimal(tx.maxFee, 16);
    ScalarOfMinimal(tx.gasLimit, 8);
    ItemsAt(tx, items);
  }

  lemma ItemsAt(tx: Tx, items: seq<Item>)
    requires |items| >= 9 && items[..9] == TxItems(tx)
    ensures items[0] == Str(Minimal(tx.chainId)) && items[1] == Str(Minimal(tx.nonce))
    ensures items[2] == Str(Minimal(tx.maxPriorityFee)) && items[3] == Str(Minimal(tx.maxFee))
    ensures items[4] == Str(Minimal(tx.gasLimit)) && items[5] == Str(tx.to) && items[6] == Str(tx.value)
    ensures items[7] == Str(tx.data) && items[8] == List([])
  {
    var prefix := items[..9];
    assert prefix[0] == items[0] && prefix[1] == items[1] && prefix[2] == items[2] && prefix[3] == items[3];
    assert prefix[4] == items[4] && prefix[5] == items[5] && prefix[6] == items[6] && prefix[7] == items[7];
    assert prefix[8] == items[8];
  }

  lemma SignatureItemsAt(tx: Tx, sig: Signature)
    ensures var items := SignedItems(tx, sig);
            items[9] == Str(Minimal(sig.yParity)) && items[10] == Str(sig.r) && items[11] == Str(sig.s)
  {
    var items := SignedItems(tx, sig);
    assert items[9..] == Strs(SignatureFields(sig));
    assert items[9] == items[9..][0] && items[10] == items[9..][1] && items[11] == items[9..][2];
  }

  lemma ReadSignatureOfItems(tx: Tx, sig: Signature)
    ensures ReadSignature(SignedItems(tx, sig)) == Some(sig)
  {
    assert sig.yParity < Pow256(1) by {
      Pow256Widths();
    }
    ScalarOfMinimal(sig.yParity, 1);
    SignatureItemsAt(tx, sig);
  }

  /** Faithfulness: the broadcast bytes decode to the transaction and signature they were built from. */
  lemma SignedRoundTrip(tx: Tx, sig: Signature)
    ensures DecodeSigned(RawSignedTx(tx, sig)) == Some((tx, sig))
  {
    SignedItemsAreSmall(tx, sig);
    OpenTypedItems(SignedItems(tx, sig));
    assert SignedItems(tx, sig)[..9] == TxItems(tx);
    ReadTxOfItems(tx, SignedItems(tx, sig));
    ReadSignatureOfItems(tx, sig);
  }

  lemma ScalarIsMinimal(item: Item, width: nat)
    requires Scalar(item, width).Some?
    ensures item == Str(Minimal(Scalar(item, width).value))
  {
    MinimalOfValue(item.b);
  }

  lemma ReadTxShape(items: seq<Item>, tx: Tx)
    requires |items| >= 9 && ReadTx(items) == Some(tx)
    ensures items[0] == Str(Minimal(tx.chainId)) && items[1] == Str(Minimal(tx.nonce))
    ensures items[2] == Str(Minimal(tx.maxPriorityFee)) && items[3] == Str(Minimal(tx.maxFee))
    ensures items[4] == Str(Minimal(tx.gasLimit)) && items[5] == Str(tx.to) && items[6] == Str(tx.value)
    ensures items[7] == Str(tx.data) && items[8] == List([])
  {
    ScalarIsMinimal(items[0], 8);
    ScalarIsMinimal(items[1], 8);
    ScalarIsMinimal(items[2], 16);
    ScalarIsMinimal(items[3], 16);
    ScalarIsMinimal(items[4], 8);
  }

  lemma ReadSignatureShape(items: seq<Item>, sig: Signature)
    requires |items| == 12 && ReadSignature(items) == Some(sig)
    ensures items[9] == Str(Minimal(sig.yParity)) && items[10] == Str(sig.r) && items[11] == Str(sig.s)
  {
    ScalarIsMinimal(items[9], 1);
  }

  lemma SameTwelve<T>(a: seq<T>, b: seq<T>)
    requires |a| == |b| == 12
    requires a[0] == b[0] && a[1] == b[1] && a[2] == b[2] && a[3] == b[3] && a[4] == b[4] && a[5] == b[5]
    requires a[6] == b[6] && a[7] == b[7] && a[8] == b[8] && a[9] == b[9] && a[10] == b[10] && a[11] == b[11]
    ensures a == b
  {
  }

  lemma ReadItems(items: seq<Item>, signed: seq<Item>, tx: Tx, sig: Signature)
    requires |items| == 12 && ReadTx(items) == Some(tx) && ReadSignature(items) == Some(sig)
    requires signed == SignedItems(tx, sig)
    ensures items == signed
  {
    ReadTxShape(items, tx);
    ReadSignatureShape(items, sig);
    assert signed[..9] == TxItems(tx);
    ItemsAt(tx, signed);
    SignatureItemsAt(tx, sig);
    SameTwelve(items, signed);
  }

  lemma OpenTypedSound(raw: bytes)
    requires OpenTyped(raw).Some?
    ensures Small(List(OpenTyped(raw).value)) && raw == Typed(OpenTyped(raw).value)
  {
    DecodesIffEncoded(raw[1..], List(OpenTyped(raw).value));
    assert raw == [raw[0]] + raw[1..];
  }

  /** Nothing else decodes to it: the broadcast bytes are determined by the transaction and the signature. */
  lemma DecodesIffRaw(raw: bytes, tx: Tx, sig: Signature)
    ensures DecodeSigned(raw) == Some((tx, sig)) <==> raw == RawSignedTx(tx, sig)
  {
    SignedRoundTrip(tx, sig);
    if DecodeSigned(raw) == Some((tx, sig)) {
      OpenTypedSound(raw);
      ReadItems(OpenTyped(raw).value, SignedItems(tx, sig), tx, sig);
    }
  }

  /** What was signed can be recovered from what was broadcast: re-encoding its first nine items. */
  lemma SignedItemsExtendPayload(tx: Tx, sig: Signature)
    ensures var items := OpenTyped(RawSignedTx(tx, sig));
            && items.Some? && |items.value| == 12
            && Small(List(items.value[..9])) && Typed(items.value[..9]) == SigningPayload(tx)
  {
    SignedItemsAreSmall(tx, sig);
    TxItemsAreSmall(tx);
    OpenTypedItems(SignedItems(tx, sig));
    assert SignedItems(tx, sig)[..9] == TxItems(tx);
  }

  /** Two different transactions never share a signing payload. */
  lemma SigningPayloadInjective(tx: Tx, tx': Tx)
    ensures SigningPayload(tx) == SigningPayload(tx') <==> tx == tx'
  {
    if SigningPayload(tx) == SigningPayload(tx') {
      TxItemsAreSmall(tx);
      TxItemsAreSmall(tx');
      assert SigningPayload(tx)[1..] == Encode(List(TxItems(tx)));
      assert SigningPayload(tx')[1..] == Encode(List(TxItems(tx')));
      EncodeInjective(List(TxItems(tx)), List(TxItems(tx')));
      assert TxItems(tx)[..9] == TxItems(tx) == TxItems(tx');
      ReadTxOfItems(tx, TxItems(tx));
      ReadTxOfItems(tx', TxItems(tx));
    }
  }

  // ----- Canonical integers

  /** The integer fields of a signed transaction carry no leading zeros, as RLP demands of scalars. */
  predicate CanonicalScalars(items: seq<Item>)
    requires |items| == 12
  {
    && IsScalar(items[0], 8) && IsScalar(items[1], 8) && IsScalar(items[2], 32) && IsScalar(items[3], 32)
    && IsScalar(items[4], 8) && IsScalar(items[6], 32) && IsScalar(items[9], 1)
    && IsScalar(items[10], 32) && IsScalar(items[11], 32)
  }

  lemma CanonicalItems(tx: Tx, sig: Signature, items: seq<Item>)
    requires |items| == 12
    requires items[0] == Str(Minimal(tx.chainId)) && items[1] == Str(Minimal(tx.nonce))
    requires items[2] == Str(Minimal(tx.maxPriorityFee)) && items[3] == Str(Minimal(tx.maxFee))
    requires items[4] == Str(Minimal(tx.gasLimit)) && items[6] == Str(tx.value)
    requires items[9] == Str(Minimal(sig.yParity)) && items[10] == Str(sig.r) && items[11] == Str(sig.s)
    ensures CanonicalScalars(items) <==> tx.value[0] != 0 && sig.r[0] != 0 && sig.s[0] != 0
  {
    ScalarSizes(tx);
    ParitySize(sig.yParity);
  }

  /**
   Value, r and s are appended as fixed 32-byte strings, so the broadcast bytes have canonical
   integers exactly when none of the three starts with a zero octet.
   */
  lemma CanonicalIff(tx: Tx, sig: Signature)
    ensures var items := OpenTyped(RawSignedTx(tx, sig));
            && items.Some? && |items.value| == 12
            && (CanonicalScalars(items.value) <==> tx.value[0] != 0 && sig.r[0] != 0 && sig.s[0] != 0)
  {
    SignedItemsAreSmall(tx, sig);
    var items := SignedItems(tx, sig);
    OpenTypedItems(items);
    assert items[..9] == TxItems(tx);
    ItemsAt(tx, items);
    SignatureItemsAt(tx, sig);
    CanonicalItems(tx, sig, items);
  }

  // ----- Two shares, one key

  /** Scalars are residues modulo the group order. */
  function AddMod(order: nat, a: nat, b: nat): (r: nat)
    requires a < order && b < order
    ensures r < order
  {
    if a + b >= order then a + b - order else a + b
  }

  lemma AtLeastTwice(q: nat, m: nat)
    requires q >= 2
    ensures q * m >= 2 * m
  {
    assert (q - 2) * m >= 0;
  }

  lemma RemainderOf(x: nat, q: nat, r: nat, m: nat)
    requires r < m && x == q * m + r && x < 2 * m
    ensures r == if x >= m then x - m else x
  {
    if q == 0 {
      assert x == r;
    } else if q == 1 {
      assert x == m + r;
    } else {
      AtLeastTwice(q, m);
      assert false;
    }
  }

  /** The sum with one subtraction is the sum modulo the order. */
  lemma AddModIsRemainder(order: nat, a: nat, b: nat)
    requires a < order && b < order
    ensures AddMod(order, a, b) == (a + b) % order
  {
    RemainderOf(a + b, (a + b) / order, (a + b) % order, order);
  }

  function SubMod(order: nat, a: nat, b: nat): (r: nat)
    requires a < order && b < order
    ensures r < order && AddMod(order, b, r) == a
  {
    if a >= b then a - b else a - b + order
  }

  /** The two shares add up to the secret. */
  lemma SharesAddUp(order: nat, secret: nat, s1: nat)
    requires secret < order && s1 < order
    ensures var (a, b) := SplitKey(order, secret, s1); a == s1 && (a + b) % order == secret
  {
    var (a, b) := SplitKey(order, secret, s1);
    AddModIsRemainder(order, a, b);
  }

  /** The curve as far as it matters here: multiples of the generator, and point addition. */
  datatype Curve<!P> = Curve(order: nat, times: nat -> P, add: (P, P) -> P, identity: P)
  {
    ghost predicate Lawful() {
      && (forall a: nat, b: nat :: a < order && b < order ==> add(times(a), times(b)) == times(AddMod(order, a, b)))
      && (forall a: nat :: a < order ==> (times(a) == identity <==> a == 0))
    }
  }

  /** s1 is random, s2 completes it to the secret. */
  function SplitKey(order: nat, secret: nat, s1: nat): (r: (nat, nat))
    requires secret < order && s1 < order
    ensures r.0 == s1 && r.1 < order && AddMod(order, r.0, r.1) == secret
  {
    (s1, SubMod(order, secret, s1))
  }

  /** A public key needs a nonzero scalar and a point that is not the identity; otherwise the code panics. */
  function ComposedKey<P(==)>(c: Curve<P>, s1: nat, s2: nat): Option<P> {
    if s1 == 0 || s2 == 0 then None
    else
      var q := c.add(c.times(s1), c.times(s2));
      if q == c.identity then None else Some(q)
  }

  /** From any two shares: the key of their sum, unless a share or the sum is zero. */
  lemma ComposedKeyIsKeyOfSum<P>(c: Curve<P>, s1: nat, s2: nat)
    requires c.Lawful() && s1 < c.order && s2 < c.order
    ensures ComposedKey(c, s1, s2)
         == if s1 == 0 || s2 == 0 || (s1 + s2) % c.order == 0 then None else Some(c.times((s1 + s2) % c.order))
  {
    AddModIsRemainder(c.order, s1, s2);
    assert c.add(c.times(s1), c.times(s2)) == c.times(AddMod(c.order, s1, s2));
  }

  /**
   The composed public key is the key of the undivided secret, computed without recombining it. It
   exists unless the random share is zero or hits the secret itself.
   */
  lemma ComposedKeyIsFullKey<P>(c: Curve<P>, secret: nat, s1: nat)
    requires c.Lawful() && 0 < secret < c.order && s1 < c.order
    ensures var (a, b) := SplitKey(c.order, secret, s1);
            ComposedKey(c, a, b) == if s1 == 0 || s1 == secret then None else Some(c.times(secret))
  {
    var (a, b) := SplitKey(c.order, secret, s1);
    ComposedKeyIsKeyOfSum(c, a, b);
  }
}
