/** Octet strings and big-endian integers, shared by every wire format of the project. */
module Bytes {
  type byte = b: int | 0 <= b < 256

  type bytes = seq<byte>

  const TWO_64: int := 0x1_0000_0000_0000_0000

  const TWO_256: int := 0x1_0000_0000_0000_0000_0000_0000_0000_0000_0000_0000_0000_0000_0000_0000_0000_0000

  type u64 = x: int | 0 <= x < 0x1_0000_0000_0000_0000

  type u128 = x: int | 0 <= x < 0x1_0000_0000_0000_0000_0000_0000_0000_0000

  type bytes4 = b: bytes | |b| == 4 witness Zeros(4)
  type bytes16 = b: bytes | |b| == 16 witness Zeros(16)
  type bytes20 = b: bytes | |b| == 20 witness Zeros(20)
  type bytes32 = b: bytes | |b| == 32 witness Zeros(32)
  type bytes64 = b: bytes | |b| == 64 witness Zeros(64)

  function Zeros(n: nat): (z: bytes)
    ensures |z| == n
    ensures forall i :: 0 <= i < n ==> z[i] == 0
  {
    seq(n, i => 0)
  }

  /** The octets of an ASCII literal. */
  function Ascii(s: string): (t: bytes)
    ensures |t| == |s|
  {
    seq(|s|, i requires 0 <= i < |s| => s[i] as int % 0x80)
  }

  lemma Regroup<T>(a: seq<T>, b: seq<T>, c: seq<T>)
    ensures a + b + c == a + (b + c)
  {
  }

  /** 256 to the power n. */
  function Pow256(n: nat): (p: nat)
    ensures p > 0
  {
    if n == 0 then 1 else 256 * Pow256(n - 1)
  }

  /** The n low-order octets of v, most significant first (`to_be_bytes`). */
  function BigEndian(n: nat, v: nat): (bs: bytes)
    ensures |bs| == n
  {
    if n == 0 then [] else BigEndian(n - 1, v / 256) + [v % 256]
  }

  /** The unsigned integer an octet string denotes, most significant octet first. */
  function ToNat(bs: bytes): (v: nat)
  {
    if bs == [] then 0 else 256 * ToNat(bs[..|bs| - 1]) + bs[|bs| - 1]
  }

  lemma {:induction false} ValueOfBigEndian(n: nat, v: nat)
    requires v < Pow256(n)
    ensures ToNat(BigEndian(n, v)) == v
  {
    if n == 0 {
    } else {
      var bs := BigEndian(n, v);
      assert bs[..n - 1] == BigEndian(n - 1, v / 256);
      ValueOfBigEndian(n - 1, v / 256);
    }
  }

  lemma {:induction false} BigEndianOfValue(bs: bytes)
    ensures ToNat(bs) < Pow256(|bs|)
    ensures BigEndian(|bs|, ToNat(bs)) == bs
  {
    if bs == [] {
    } else {
      var init, last := bs[..|bs| - 1], bs[|bs| - 1];
      BigEndianOfValue(init);
      assert bs == init + [last];
      assert ToNat(bs) / 256 == ToNat(init) && ToNat(bs) % 256 == last;
    }
  }

  /** Leading zero octets do not change the value. */
  lemma {:induction false} ValueOfPadded(n: nat, bs: bytes)
    ensures ToNat(Zeros(n) + bs) == ToNat(bs)
  {
    if bs == [] {
      assert Zeros(n) + bs == Zeros(n);
      ValueOfZeros(n);
    } else {
      var padded := Zeros(n) + bs;
      assert padded[..|padded| - 1] == Zeros(n) + bs[..|bs| - 1];
      ValueOfPadded(n, bs[..|bs| - 1]);
    }
  }

  lemma {:induction false} ValueOfZeros(n: nat)
    ensures ToNat(Zeros(n)) == 0
  {
    if n > 0 {
      assert Zeros(n)[..n - 1] == Zeros(n - 1);
      ValueOfZeros(n - 1);
    }
  }

  lemma {:induction false} Pow256Monotone(m: nat, n: nat)
    requires m <= n
    ensures Pow256(m) <= Pow256(n)
  {
    if m < n {
      Pow256Monotone(m, n - 1);
    }
  }

  lemma Pow256Widths()
    ensures Pow256(1) == 0x100
    ensures Pow256(2) == 0x1_0000
    ensures Pow256(4) == 0x1_0000_0000
    ensures Pow256(8) == TWO_64
    ensures Pow256(16) == TWO_64 * TWO_64
    ensures Pow256(32) == TWO_256
  {
    assert Pow256(3) == 0x100_0000;
    assert Pow256(5) == 0x100_0000_0000;
    assert Pow256(6) == 0x1_0000_0000_0000;
    assert Pow256(8) == TWO_64;
    Pow256Add(8, 8);
    Pow256Add(16, 16);
  }

  lemma {:induction false} Pow256Add(m: nat, n: nat)
    ensures Pow256(m + n) == Pow256(m) * Pow256(n)
  {
    if n > 0 {
      Pow256Add(m, n - 1);
      assert Pow256(m + n) == 256 * (Pow256(m) * Pow256(n - 1));
      assert Pow256(m) * Pow256(n) == Pow256(m) * (256 * Pow256(n - 1));
    }
  }
}
