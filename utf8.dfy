/**
 * UTF-8, the encoding the proxy uses between `String` and `byte[]`
 * (`getBytes(UTF_8)`, `new String(bytes, UTF_8)`, `toString(UTF_8)`).
 *
 * A Dafny `char` is a Unicode scalar value, so every string has exactly one
 * encoding.  Decoding is total: a byte that does not start a well-formed
 * sequence becomes U+FFFD.
 */
module Utf8 {

  type byte = b: int | 0 <= b < 256

  const Replacement: char := '�'

  predicate IsAscii(s: string) {
    forall i :: 0 <= i < |s| ==> s[i] as int < 0x80
  }

  /** The encoding of a single scalar value: one to four bytes. */
  function EncodeChar(c: char): (r: seq<byte>)
    ensures 1 <= |r| <= 4
    ensures |r| == 1 <==> c as int < 0x80
  {
    var n := c as int;
    if n < 0x80 then [n]
    else if n < 0x800 then [0xC0 + n / 64, 0x80 + n % 64]
    else if n < 0x1_0000 then [0xE0 + n / 4096, 0x80 + (n / 64) % 64, 0x80 + n % 64]
    else [0xF0 + n / 0x4_0000, 0x80 + (n / 4096) % 64, 0x80 + (n / 64) % 64, 0x80 + n % 64]
  }

  function Encode(s: string): seq<byte>
  {
    if s == [] then [] else EncodeChar(s[0]) + Encode(s[1..])
  }

  predicate IsCont(b: byte) {
    0x80 <= b < 0xC0
  }

  /** Decodes UTF-8; every byte that does not begin a well-formed sequence yields U+FFFD. */
  function Decode(b: seq<byte>): string
    decreases |b|
  {
    if b == [] then []
    else if b[0] < 0x80 then [b[0] as char] + Decode(b[1..])
    else if 0xC2 <= b[0] < 0xE0 && |b| >= 2 && IsCont(b[1]) then
      [((b[0] as int - 0xC0) * 64 + (b[1] as int - 0x80)) as char] + Decode(b[2..])
    else if 0xE0 <= b[0] < 0xF0 && |b| >= 3 && IsCont(b[1]) && IsCont(b[2])
            && 0x800 <= Cp3(b[0], b[1], b[2]) && !(0xD800 <= Cp3(b[0], b[1], b[2]) < 0xE000) then
      [Cp3(b[0], b[1], b[2]) as char] + Decode(b[3..])
    else if 0xF0 <= b[0] < 0xF5 && |b| >= 4 && IsCont(b[1]) && IsCont(b[2]) && IsCont(b[3])
            && 0x1_0000 <= Cp4(b[0], b[1], b[2], b[3]) < 0x11_0000 then
      [Cp4(b[0], b[1], b[2], b[3]) as char] + Decode(b[4..])
    else [Replacement] + Decode(b[1..])
  }

  function Cp3(b0: int, b1: int, b2: int): int {
    (b0 - 0xE0) * 4096 + (b1 - 0x80) * 64 + (b2 - 0x80)
  }

  function Cp4(b0: int, b1: int, b2: int, b3: int): int {
    (b0 - 0xF0) * 0x4_0000 + (b1 - 0x80) * 4096 + (b2 - 0x80) * 64 + (b3 - 0x80)
  }

  /** Java's `String.length()`: UTF-16 code units. */
  function Utf16Length(s: string): (n: nat)
    ensures |s| <= n <= 2 * |s|
  {
    if s == [] then 0 else (if s[0] as int < 0x1_0000 then 1 else 2) + Utf16Length(s[1..])
  }

  lemma {:induction false} Utf16LengthAppend(a: string, b: string)
    ensures Utf16Length(a + b) == Utf16Length(a) + Utf16Length(b)
  {
    if a == [] {
      assert a + b == b;
    } else {
      assert (a + b)[0] == a[0];
      assert (a + b)[1..] == a[1..] + b;
      Utf16LengthAppend(a[1..], b);
    }
  }

  lemma {:induction false} EncodeAppend(a: string, b: string)
    ensures Encode(a + b) == Encode(a) + Encode(b)
  {
    if a == [] {
      assert a + b == b;
    } else {
      assert (a + b)[0] == a[0];
      assert (a + b)[1..] == a[1..] + b;
      EncodeAppend(a[1..], b);
    }
  }

  /** On ASCII text the encoding is the sequence of code points, one byte each. */
  lemma {:induction false} EncodeAscii(s: string)
    requires IsAscii(s)
    ensures |Encode(s)| == |s|
    ensures forall i :: 0 <= i < |s| ==> Encode(s)[i] == s[i] as int
  {
    if s != [] {
      EncodeAscii(s[1..]);
    }
  }

  lemma DecodeEncodeChar(c: char, rest: seq<byte>)
    ensures Decode(EncodeChar(c) + rest) == [c] + Decode(rest)
  {
    var n := c as int;
    if n < 0x80 {
      var e := [n as byte] + rest;
      assert e[0] == n && e[1..] == rest;
    } else if n < 0x800 {
      DecodeTwo(c, rest);
    } else if n < 0x1_0000 {
      DecodeThree(c, rest);
    } else {
      DecodeFour(c, rest);
    }
  }

  lemma DecodeTwo(c: char, rest: seq<byte>)
    requires 0x80 <= c as int < 0x800
    ensures Decode(EncodeChar(c) + rest) == [c] + Decode(rest)
  {
    var n := c as int;
    var b0: byte, b1: byte := 0xC0 + n / 64, 0x80 + n % 64;
    assert EncodeChar(c) == [b0, b1];
    assert (b0 as int - 0xC0) * 64 + (b1 as int - 0x80) == n;
    var e := [b0, b1] + rest;
    assert e[0] == b0 && e[1] == b1 && e[2..] == rest;
  }

  lemma DecodeThree(c: char, rest: seq<byte>)
    requires 0x800 <= c as int < 0x1_0000
    ensures Decode(EncodeChar(c) + rest) == [c] + Decode(rest)
  {
    var n := c as int;
    var b0: byte, b1: byte, b2: byte := 0xE0 + n / 4096, 0x80 + (n / 64) % 64, 0x80 + n % 64;
    assert EncodeChar(c) == [b0, b1, b2];
    assert n == (n / 4096) * 4096 + ((n / 64) % 64) * 64 + n % 64;
    assert Cp3(b0, b1, b2) == n;
    var e := [b0, b1, b2] + rest;
    assert e[0] == b0 && e[1] == b1 && e[2] == b2 && e[3..] == rest;
  }

  lemma DecodeFour(c: char, rest: seq<byte>)
    requires 0x1_0000 <= c as int
    ensures Decode(EncodeChar(c) + rest) == [c] + Decode(rest)
  {
    var n := c as int;
    assert n < 0x11_0000;
    var b0: byte, b1: byte, b2: byte, b3: byte :=
      0xF0 + n / 0x4_0000, 0x80 + (n / 4096) % 64, 0x80 + (n / 64) % 64, 0x80 + n % 64;
    assert EncodeChar(c) == [b0, b1, b2, b3];
    SplitFour(n);
    DecodeFourBytes(b0, b1, b2, b3, rest);
  }

  /** The four base-64 digits of a code point below 0x20_0000 put it back together. */
  lemma SplitFour(n: nat)
    requires n < 0x20_0000
    ensures Cp4(0xF0 + n / 0x4_0000, 0x80 + (n / 4096) % 64, 0x80 + (n / 64) % 64, 0x80 + n % 64) == n
  {
    var q1, q2, q3 := n / 64, n / 4096, n / 0x4_0000;
    assert n == q1 * 64 + n % 64;
    assert q2 == q1 / 64;
    assert q1 == q2 * 64 + q1 % 64;
    assert q3 == q2 / 64;
    assert q2 == q3 * 64 + q2 % 64;
  }

  lemma DecodeFourBytes(b0: byte, b1: byte, b2: byte, b3: byte, rest: seq<byte>)
    requires 0xF0 <= b0 < 0xF5 && IsCont(b1) && IsCont(b2) && IsCont(b3)
    requires 0x1_0000 <= Cp4(b0, b1, b2, b3) < 0x11_0000
    ensures Decode([b0, b1, b2, b3] + rest) == [Cp4(b0, b1, b2, b3) as char] + Decode(rest)
  {
    var e := [b0, b1, b2, b3] + rest;
    assert e[0] == b0 && e[1] == b1 && e[2] == b2 && e[3] == b3 && e[4..] == rest;
  }

  /** Decoding undoes encoding: every string survives `getBytes(UTF_8)` followed by `new String(…, UTF_8)`. */
  lemma {:induction false} DecodeEncode(s: string)
    ensures Decode(Encode(s)) == s
  {
    if s != [] {
      DecodeEncodeChar(s[0], Encode(s[1..]));
      DecodeEncode(s[1..]);
    }
  }
}
