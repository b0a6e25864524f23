/**
 The Solidity contract ABI as far as the project uses it: 32-byte words, and a reader for dynamic
 arrays and strings that follows head offsets into the tail.
 */
module Abi {
  import opened Bytes
  import opened Outcomes

  /** A uint256 word. */
  function Word(v: nat): (w: bytes)
    ensures |w| == 32
  {
    BigEndian(32, v)
  }

  function Words(vs: seq<nat>): (ws: bytes)
    ensures |ws| == 32 * |vs|
  {
    if vs == [] then [] else Words(vs[..|vs| - 1]) + Word(vs[|vs| - 1])
  }

  lemma WordsStep(vs: seq<nat>, i: nat)
    requires i < |vs|
    ensures Words(vs[..i + 1]) == Words(vs[..i]) + Word(vs[i])
  {
    assert vs[..i + 1][..i] == vs[..i];
  }

  lemma WordsOfThree(a: nat, b: nat, c: nat)
    ensures Words([a, b, c]) == Word(a) + Word(b) + Word(c)
  {
    var vs := [a, b, c];
    WordsStep(vs, 0);
    WordsStep(vs, 1);
    WordsStep(vs, 2);
    assert vs[..3] == vs && Words(vs[..0]) == [];
  }

  /** The tail of a dynamic array: its length word, then one word per element. */
  function ArrayTail(vs: seq<nat>): bytes {
    Word(|vs|) + Words(vs)
  }

  // ----- Reading

  function ReadWord(d: bytes, at: nat): Option<nat> {
    if at + 32 <= |d| then Some(ToNat(d[at..at + 32])) else None
  }

  /** The i-th word behind `at`. */
  function WordFrom(d: bytes, at: nat, i: nat): Option<nat> {
    ReadWord(d, at + 32 * i)
  }

  function ReadWords(d: bytes, at: nat, n: nat): Option<seq<nat>> {
    if forall i :: 0 <= i < n ==> WordFrom(d, at, i).Some?
    then Some(seq(n, i requires 0 <= i < n => WordFrom(d, at, i).value))
    else None
  }

  function ReadBytes(d: bytes, at: nat, n: nat): Option<bytes> {
    if at + n <= |d| then Some(d[at..at + n]) else None
  }

  /** A `uint256[]` argument: the head word at `head` is an offset from `base` to its length word. */
  function ReadArray(d: bytes, base: nat, head: nat): Option<seq<nat>> {
    match ReadWord(d, head)
    case None => None
    case Some(offset) =>
      match ReadWord(d, base + offset)
      case None => None
      case Some(length) => ReadWords(d, base + offset + 32, length)
  }

  /** A `string` argument, found the same way. */
  function ReadString(d: bytes, base: nat, head: nat): Option<bytes> {
    match ReadWord(d, head)
    case None => None
    case Some(offset) =>
      match ReadWord(d, base + offset)
      case None => None
      case Some(length) => ReadBytes(d, base + offset + 32, length)
  }

  // ----- Reading back what was written

  lemma ValueOfWord(v: nat)
    requires v < TWO_256
    ensures ToNat(Word(v)) == v
  {
    Pow256Widths();
    ValueOfBigEndian(32, v);
  }

  lemma ReadWordAt(pre: bytes, v: nat, post: bytes)
    requires v < TWO_256
    ensures ReadWord(pre + Word(v) + post, |pre|) == Some(v)
  {
    var d := pre + Word(v) + post;
    assert d[|pre|..|pre| + 32] == Word(v);
    ValueOfWord(v);
  }

  lemma SliceInside<T>(pre: seq<T>, w: seq<T>, post: seq<T>, k: nat, n: nat)
    requires k + n <= |w|
    ensures (pre + w + post)[|pre| + k..|pre| + k + n] == w[k..k + n]
  {
  }

  lemma {:induction false} WordSlice(vs: seq<nat>, i: nat)
    requires i < |vs|
    ensures Words(vs)[32 * i..32 * i + 32] == Word(vs[i])
    decreases |vs|
  {
    var init, last := vs[..|vs| - 1], vs[|vs| - 1];
    if i < |init| {
      WordSlice(init, i);
      SliceInside([], Words(init), Word(last), 32 * i, 32);
      assert [] + Words(init) + Word(last) == Words(vs);
    } else {
      SliceInside(Words(init), Word(last), [], 0, 32);
      assert Words(init) + Word(last) + [] == Words(vs);
      assert Word(last)[0..32] == Word(last);
    }
  }

  lemma ReadIthWord(pre: bytes, w: bytes, v: nat, i: nat, post: bytes)
    requires v < TWO_256 && 32 * i + 32 <= |w| && w[32 * i..32 * i + 32] == Word(v)
    ensures ReadWord(pre + w + post, |pre| + 32 * i) == Some(v)
  {
    SliceInside(pre, w, post, 32 * i, 32);
    ValueOfWord(v);
  }

  lemma ReadHeadWord(pre: bytes, vs: seq<nat>, i: nat, post: bytes)
    requires i < |vs| && vs[i] < TWO_256
    ensures ReadWord(pre + Words(vs) + post, |pre| + 32 * i) == Some(vs[i])
  {
    WordSlice(vs, i);
    ReadIthWord(pre, Words(vs), vs[i], i, post);
  }

  lemma Splice(a: bytes, b: bytes, c: bytes, d: bytes)
    ensures a + (b + c) + d == a + b + (c + d) == (a + b) + c + d
  {
  }

  lemma WordsFromParts(d: bytes, at: nat, vs: seq<nat>)
    requires forall i :: 0 <= i < |vs| ==> WordFrom(d, at, i) == Some(vs[i])
    ensures ReadWords(d, at, |vs|) == Some(vs)
  {
    assert forall i :: 0 <= i < |vs| ==> WordFrom(d, at, i).Some?;
    var r := ReadWords(d, at, |vs|).value;
    assert forall i :: 0 <= i < |vs| ==> r[i] == vs[i];
    assert r == vs;
  }

  lemma ReadWordsAt(pre: bytes, vs: seq<nat>, post: bytes)
    requires forall i :: 0 <= i < |vs| ==> vs[i] < TWO_256
    ensures ReadWords(pre + Words(vs) + post, |pre|, |vs|) == Some(vs)
  {
    var d := pre + Words(vs) + post;
    forall i | 0 <= i < |vs| ensures WordFrom(d, |pre|, i) == Some(vs[i]) {
      ReadHeadWord(pre, vs, i, post);
    }
    WordsFromParts(d, |pre|, vs);
  }

  lemma ReadArrayAt(pre: bytes, vs: seq<nat>, post: bytes, base: nat, head: nat)
    requires base <= |pre| && |vs| < TWO_256
    requires forall i :: 0 <= i < |vs| ==> vs[i] < TWO_256
    requires ReadWord(pre + ArrayTail(vs) + post, head) == Some(|pre| - base)
    ensures ReadArray(pre + ArrayTail(vs) + post, base, head) == Some(vs)
  {
    Splice(pre, Word(|vs|), Words(vs), post);
    ReadWordAt(pre, |vs|, Words(vs) + post);
    ReadWordsAt(pre + Word(|vs|), vs, post);
  }

  lemma ReadBytesAt(pre: bytes, bs: bytes, post: bytes)
    ensures ReadBytes(pre + bs + post, |pre|, |bs|) == Some(bs)
  {
    assert (pre + bs + post)[|pre|..|pre| + |bs|] == bs;
  }

  /** An 8-byte integer behind 24 zero bytes is a uint256 word. */
  lemma PaddedU64IsWord(v: u64)
    ensures Zeros(24) + BigEndian(8, v) == Word(v)
    ensures v < TWO_256
  {
    var bs := Zeros(24) + BigEndian(8, v);
    Pow256Widths();
    ValueOfPadded(24, BigEndian(8, v));
    ValueOfBigEndian(8, v);
    BigEndianOfValue(bs);
  }
}
