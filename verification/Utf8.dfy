/**
 UTF-8 (section 3 of RFC 3629): the octets of a Unicode text, the check that octets are a text, and the
 proof that the check accepts exactly the encodings.
 */
module Utf8 {
  import opened Bytes

  /** A Unicode scalar value: any code point that is not a surrogate. */
  type Scalar = c: int | 0 <= c < 0xD800 || 0xE000 <= c < 0x11_0000

  function EncodeScalar(c: Scalar): (s: bytes)
    ensures 1 <= |s| <= 4
  {
    if c < 0x80 then [c]
    else if c < 0x800 then [0xC0 + c / 0x40, 0x80 + c % 0x40]
    else if c < 0x1_0000 then [0xE0 + c / 0x1000, 0x80 + c / 0x40 % 0x40, 0x80 + c % 0x40]
    else [0xF0 + c / 0x4_0000, 0x80 + c / 0x1000 % 0x40, 0x80 + c / 0x40 % 0x40, 0x80 + c % 0x40]
  }

  function EncodeText(text: seq<Scalar>): bytes {
    if text == [] then [] else EncodeScalar(text[0]) + EncodeText(text[1..])
  }

  /** A well-formed UTF-8 sequence. */
  predicate ValidUtf8(s: bytes)
    decreases |s|
  {
    if s == [] then true
    else var n := LeadLength(s); n > 0 && n <= |s| && ValidUtf8(s[n..])
  }

  predicate Continuation(b: byte) {
    0x80 <= b <= 0xBF
  }

  /** Length of the scalar value at the head of s, 0 if there is none. */
  function LeadLength(s: bytes): (n: nat)
    requires s != []
    ensures n <= |s|
  {
    if s[0] <= 0x7F then 1
    else if 0xC2 <= s[0] <= 0xDF && |s| >= 2 && Continuation(s[1]) then 2
    else if |s| >= 3 && Continuation(s[1]) && Continuation(s[2])
            && ((s[0] == 0xE0 && s[1] >= 0xA0) || 0xE1 <= s[0] <= 0xEC
                || (s[0] == 0xED && s[1] <= 0x9F) || 0xEE <= s[0] <= 0xEF)
    then 3
    else if |s| >= 4 && Continuation(s[1]) && Continuation(s[2]) && Continuation(s[3])
            && ((s[0] == 0xF0 && s[1] >= 0x90) || 0xF1 <= s[0] <= 0xF3 || (s[0] == 0xF4 && s[1] <= 0x8F))
    then 4
    else 0
  }

  lemma {:induction false} AsciiIsUtf8(s: bytes)
    requires forall i :: 0 <= i < |s| ==> s[i] < 0x80
    ensures ValidUtf8(s)
  {
    if s != [] {
      AsciiIsUtf8(s[1..]);
    }
  }

  // ----- The check accepts exactly the encodings

  lemma HeadOctets(c: Scalar, rest: bytes)
    ensures var s := EncodeScalar(c) + rest;
            && s[|EncodeScalar(c)|..] == rest
            && forall i :: 0 <= i < |EncodeScalar(c)| ==> s[i] == EncodeScalar(c)[i]
  {
  }

  lemma LeadOfScalar(c: Scalar, rest: bytes)
    ensures LeadLength(EncodeScalar(c) + rest) == |EncodeScalar(c)|
  {
    HeadOctets(c, rest);
  }

  lemma {:induction false} EncodedTextIsValid(text: seq<Scalar>)
    ensures ValidUtf8(EncodeText(text))
  {
    if text != [] {
      LeadOfScalar(text[0], EncodeText(text[1..]));
      HeadOctets(text[0], EncodeText(text[1..]));
      EncodedTextIsValid(text[1..]);
    }
  }

  /** Dividing out the low six bits. */
  lemma LowSix(high: nat, low: nat)
    requires low < 0x40
    ensures (0x40 * high + low) / 0x40 == high && (0x40 * high + low) % 0x40 == low
  {
  }

  lemma TwoOctets(a: int, b: int) returns (c: Scalar)
    requires 0xC2 <= a <= 0xDF && 0x80 <= b <= 0xBF
    ensures EncodeScalar(c) == [a, b]
  {
    LowSix(a - 0xC0, b - 0x80);
    c := 0x40 * (a - 0xC0) + (b - 0x80);
  }

  lemma ThreeOctets(a: int, b: int, d: int) returns (c: Scalar)
    requires 0x80 <= b <= 0xBF && 0x80 <= d <= 0xBF
    requires (a == 0xE0 && b >= 0xA0) || 0xE1 <= a <= 0xEC || (a == 0xED && b <= 0x9F) || 0xEE <= a <= 0xEF
    ensures EncodeScalar(c) == [a, b, d]
  {
    var high := 0x40 * (a - 0xE0) + (b - 0x80);
    LowSix(a - 0xE0, b - 0x80);
    LowSix(high, d - 0x80);
    c := 0x40 * high + (d - 0x80);
    assert c / 0x1000 == high / 0x40;
  }

  lemma FourOctets(a: int, b: int, d: int, e: int) returns (c: Scalar)
    requires 0x80 <= b <= 0xBF && 0x80 <= d <= 0xBF && 0x80 <= e <= 0xBF
    requires (a == 0xF0 && b >= 0x90) || 0xF1 <= a <= 0xF3 || (a == 0xF4 && b <= 0x8F)
    ensures EncodeScalar(c) == [a, b, d, e]
  {
    var high := 0x40 * (a - 0xF0) + (b - 0x80);
    var mid := 0x40 * high + (d - 0x80);
    LowSix(a - 0xF0, b - 0x80);
    LowSix(high, d - 0x80);
    LowSix(mid, e - 0x80);
    c := 0x40 * mid + (e - 0x80);
    assert c / 0x1000 == mid / 0x40 && c / 0x4_0000 == high / 0x40;
  }

  lemma ScalarAtHead(s: bytes) returns (c: Scalar)
    requires s != [] && LeadLength(s) > 0
    ensures EncodeScalar(c) == s[..LeadLength(s)]
  {
    var n := LeadLength(s);
    if n == 1 {
      c := s[0];
    } else if n == 2 {
      c := TwoOctets(s[0], s[1]);
    } else if n == 3 {
      c := ThreeOctets(s[0], s[1], s[2]);
    } else {
      c := FourOctets(s[0], s[1], s[2], s[3]);
    }
  }

  lemma {:induction false} TextOf(s: bytes) returns (text: seq<Scalar>)
    requires ValidUtf8(s)
    ensures EncodeText(text) == s
    decreases |s|
  {
    if s == [] {
      text := [];
    } else {
      var n := LeadLength(s);
      var c := ScalarAtHead(s);
      var rest := TextOf(s[n..]);
      text := [c] + rest;
      assert text[1..] == rest && s == s[..n] + s[n..];
    }
  }

  /** The check accepts an octet string exactly when some text encodes to it. */
  lemma ValidIffEncoded(s: bytes)
    ensures ValidUtf8(s) <==> exists text :: EncodeText(text) == s
  {
    if ValidUtf8(s) {
      var text := TextOf(s);
    }
    forall text | EncodeText(text) == s ensures ValidUtf8(s) {
      EncodedTextIsValid(text);
    }
  }
}
