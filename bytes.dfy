/**
 * Bytes, byte sequences and the fixed-width integer arithmetic of the host
 * language (C#), written out explicitly: unsigned wrap-around, two's
 * complement and division that truncates toward zero.
 */
module Bytes {

  type byte = b: int | 0 <= b < 256

  const TWO_16: int := 0x1_0000
  const TWO_32: int := 0x1_0000_0000
  const TWO_64: int := 0x1_0000_0000_0000_0000

  /** The largest length .NET gives a byte array; every index into one is an int. */
  const MAX_ARRAY_LENGTH: int := 0x7FFF_FFC7

  type int32 = x: int | -0x8000_0000 <= x < 0x8000_0000
  type uint32 = x: int | 0 <= x < 0x1_0000_0000
  type int64 = x: int | -0x8000_0000_0000_0000 <= x < 0x8000_0000_0000_0000

  /** 256 to the power n: the number of values n bytes can hold. */
  function Pow256(n: nat): (r: nat)
    ensures r >= 1
  {
    if n == 0 then 1 else 256 * Pow256(n - 1)
  }

  /** `n` zero bytes, what `new byte[n]` and a default struct hold. */
  function Zeros(n: nat): (r: seq<byte>)
    ensures |r| == n && forall i :: 0 <= i < n ==> r[i] == 0
  {
    seq(n, _ => 0)
  }

  /** The sequence read back to front. */
  function Reverse<T>(s: seq<T>): (r: seq<T>)
    ensures |r| == |s|
  {
    if s == [] then [] else Reverse(s[1..]) + [s[0]]
  }

  /** Element i of the reversal is element |s| - 1 - i of the original. */
  lemma {:induction false} ReverseAt<T>(s: seq<T>, i: nat)
    requires i < |s|
    ensures Reverse(s)[i] == s[|s| - 1 - i]
  {
    if i < |s| - 1 {
      ReverseAt(s[1..], i);
    }
  }

  /** Every element of the reversal, at once. */
  lemma ReverseAll<T>(s: seq<T>)
    ensures forall i :: 0 <= i < |s| ==> Reverse(s)[i] == s[|s| - 1 - i]
  {
    forall i | 0 <= i < |s|
      ensures Reverse(s)[i] == s[|s| - 1 - i]
    {
      ReverseAt(s, i);
    }
  }

  lemma ReverseInvolution<T>(s: seq<T>)
    ensures Reverse(Reverse(s)) == s
  {
    forall i | 0 <= i < |s|
      ensures Reverse(Reverse(s))[i] == s[i]
    {
      ReverseAt(Reverse(s), i);
      ReverseAt(s, |s| - 1 - i);
    }
  }

  /** The `n` low-order bytes of `v`, most significant first (network order). */
  function BigEndian(v: nat, n: nat): (r: seq<byte>)
    ensures |r| == n
  {
    if n == 0 then [] else BigEndian(v / 256, n - 1) + [v % 256]
  }

  /** The unsigned value of bytes read most significant first. */
  function BigEndianValue(s: seq<byte>): (v: nat)
    ensures v < Pow256(|s|)
  {
    if s == [] then 0 else BigEndianValue(s[..|s| - 1]) * 256 + s[|s| - 1]
  }

  lemma MulAtLeast(m: int, k: int)
    requires m > 0 && k >= 1
    ensures m * k >= m
  {
    assert m * k == m * (k - 1) + m;
    assert m * (k - 1) >= 0;
  }

  /** Division and remainder are determined by any quotient-remainder split. */
  lemma ModOfSum(v: int, m: int, a: int, b: int)
    requires m > 0 && 0 <= b < m && v == m * a + b
    ensures v % m == b && v / m == a
  {
    var q, r := v / m, v % m;
    var k := a - q;
    assert m * k == m * a - m * q;
    assert m * k == r - b;
    if k >= 1 {
      MulAtLeast(m, k);
    } else if k <= -1 {
      MulAtLeast(m, -k);
    }
  }

  /** The remainder modulo 256 * p, split into its low byte and the rest. */
  lemma ModSplit(v: nat, p: nat)
    requires p > 0
    ensures v % (256 * p) == 256 * ((v / 256) % p) + v % 256
  {
    var q, r := v / 256, v % 256;
    var a, b := q / p, q % p;
    assert v == 256 * q + r;
    assert q == p * a + b;
    assert 256 * q == (256 * p) * a + 256 * b by {
      assert 256 * (p * a + b) == 256 * (p * a) + 256 * b;
      assert 256 * (p * a) == (256 * p) * a;
    }
    assert 256 * b + r < 256 * p by {
      assert b <= p - 1;
      assert 256 * b <= 256 * (p - 1);
    }
    ModOfSum(v, 256 * p, a, 256 * b + r);
  }

  /** Decoding an encoding gives back the value modulo 256^n. */
  lemma {:induction false} BigEndianRoundTrip(v: nat, n: nat)
    ensures BigEndianValue(BigEndian(v, n)) == v % Pow256(n)
  {
    if n > 0 {
      var s := BigEndian(v, n);
      assert s[..n - 1] == BigEndian(v / 256, n - 1);
      assert s[n - 1] == v % 256;
      BigEndianRoundTrip(v / 256, n - 1);
      var p := Pow256(n - 1);
      assert BigEndianValue(s) == (v / 256) % p * 256 + v % 256;
      assert Pow256(n) == 256 * p;
      ModSplit(v, p);
    }
  }

  /** Encoding a decoded value gives back the bytes. */
  lemma {:induction false} BigEndianOfValue(s: seq<byte>)
    ensures BigEndian(BigEndianValue(s), |s|) == s
  {
    if s != [] {
      var init, last := s[..|s| - 1], s[|s| - 1];
      var v := BigEndianValue(s);
      assert v == BigEndianValue(init) * 256 + last;
      ModOfSum(v, 256, BigEndianValue(init), last);
      BigEndianOfValue(init);
      assert s == init + [last];
    }
  }

  /** The unsigned 32-bit pattern of a signed 32-bit integer. */
  function Unsigned32(v: int32): (u: uint32)
    ensures u % TWO_32 == v % TWO_32
  {
    if v < 0 then v + TWO_32 else v
  }

  /** A C# int result: the mathematical value wrapped into 32 bits. */
  function Wrap32(x: int): (v: int32)
    ensures (v - x) % TWO_32 == 0
    ensures -0x8000_0000 <= x < 0x8000_0000 ==> v == x
  {
    var u := x % TWO_32;
    if u >= 0x8000_0000 then u - TWO_32 else u
  }

  type int16 = x: int | -0x8000 <= x < 0x8000

  /** A C# `(short)` cast: the value wrapped into 16 bits. */
  function Short(x: int): (v: int16)
    ensures (v - x) % TWO_16 == 0
    ensures -0x8000 <= x < 0x8000 ==> v == x
  {
    var u := x % TWO_16;
    if u >= 0x8000 then u - TWO_16 else u
  }

  /** The signed 32-bit integer with a given bit pattern. */
  function Signed32(u: uint32): (v: int32)
    ensures Unsigned32(v) == u
  {
    if u >= 0x8000_0000 then u - TWO_32 else u
  }

  /** The unsigned 64-bit pattern of a signed 64-bit integer. */
  function Unsigned64(v: int64): (u: nat)
    ensures u < TWO_64 && u % TWO_64 == v % TWO_64
  {
    if v < 0 then v + TWO_64 else v
  }

  /** The signed 64-bit integer with a given bit pattern. */
  function Signed64(u: nat): (v: int64)
    requires u < TWO_64
    ensures Unsigned64(v) == u
  {
    if u >= 0x8000_0000_0000_0000 then u - TWO_64 else u
  }

  /** C# integer division, which truncates toward zero (Dafny's rounds down). */
  function CsDiv(a: int, b: int): (q: int)
    requires b > 0
    ensures a >= 0 ==> q == a / b
    ensures a < 0 ==> q == -((-a) / b)
  {
    if a >= 0 then a / b else -((-a) / b)
  }

  /** C# `%` on integers: the remainder takes the sign of the dividend. */
  function CsRem(a: int, b: int): (r: int)
    requires b > 0
    ensures a == CsDiv(a, b) * b + r
    ensures -b < r < b && (a >= 0 ==> r >= 0) && (a < 0 ==> r <= 0)
  {
    a - CsDiv(a, b) * b
  }

  /** The ASCII code of a character, or `?` (63) for anything above 127. */
  function AsciiByte(c: char): (b: byte)
    ensures b < 128
    ensures (c as int) < 128 ==> b == c as int
  {
    if (c as int) > 127 then 63 else c as int
  }

  /*
   * A C# string is a sequence of UTF-16 code units, while a Dafny string is
   * a sequence of Unicode scalar values.  `text.Length` and `text[i]` in
   * the source count and index code units: a character outside the Basic
   * Multilingual Plane is two of them, a surrogate pair.
   */

  /** The UTF-16 code units of one character: itself, or its surrogate pair. */
  function CodeUnits(c: char): (units: seq<nat>)
    ensures 1 <= |units| <= 2 && (|units| == 1 <==> c as int < TWO_16)
    ensures forall i :: 0 <= i < |units| ==> units[i] < TWO_16
  {
    if c as int < TWO_16 then [c as int]
    else
      var v := c as int - TWO_16;
      [0xD800 + v / 0x400, 0xDC00 + v % 0x400]
  }

  /** The UTF-16 code units of a string: what a C# string holds. */
  function Utf16(text: string): (units: seq<nat>)
    ensures |units| >= |text|
  {
    if text == [] then [] else CodeUnits(text[0]) + Utf16(text[1..])
  }

  /** Text within the Basic Multilingual Plane: one code unit per character. */
  predicate Bmp(text: string)
  {
    forall i :: 0 <= i < |text| ==> text[i] as int < TWO_16
  }

  /** Within the Basic Multilingual Plane the code units are the characters' codes. */
  lemma {:induction false} BmpUnits(text: string)
    requires Bmp(text)
    ensures Utf16(text) == seq(|text|, i requires 0 <= i < |text| => text[i] as nat)
  {
    if text != [] {
      BmpUnits(text[1..]);
    }
  }

  /** A character's first code unit tells how many it has: a high surrogate starts a pair. */
  lemma CodeUnitsFirst(c: char)
    ensures |CodeUnits(c)| == 2 <==> 0xD800 <= CodeUnits(c)[0] < 0xDC00
    ensures |CodeUnits(c)| == 2 ==> 0xDC00 <= CodeUnits(c)[1] < 0xE000
  {
  }

  /** Different characters have different code units. */
  lemma CodeUnitsInjective(c: char, d: char)
    requires CodeUnits(c) == CodeUnits(d)
    ensures c == d
  {
    if c as int >= TWO_16 {
      var v, w := c as int - TWO_16, d as int - TWO_16;
      assert v / 0x400 == w / 0x400 && v % 0x400 == w % 0x400;
      assert v == 0x400 * (v / 0x400) + v % 0x400;
      assert w == 0x400 * (w / 0x400) + w % 0x400;
    }
  }

  /** The UTF-16 encoding is one to one: the code units give back the text. */
  lemma {:induction false} Utf16Injective(a: string, b: string)
    requires Utf16(a) == Utf16(b)
    ensures a == b
  {
    if a != [] && b != [] {
      var ua, ub := CodeUnits(a[0]), CodeUnits(b[0]);
      assert Utf16(a) == ua + Utf16(a[1..]);
      assert Utf16(b) == ub + Utf16(b[1..]);
      CodeUnitsFirst(a[0]);
      CodeUnitsFirst(b[0]);
      assert ua[0] == Utf16(a)[0] == ub[0];
      assert ua == Utf16(a)[..|ua|] == ub;
      CodeUnitsInjective(a[0], b[0]);
      assert Utf16(a[1..]) == Utf16(a)[|ua|..] == Utf16(b[1..]);
      Utf16Injective(a[1..], b[1..]);
      assert a == [a[0]] + a[1..] && b == [b[0]] + b[1..];
    }
  }

  /**
   * A character below the surrogates is among a text's code units exactly
   * when it is among its characters, since no surrogate equals it.
   */
  lemma {:induction false} BmpUnitIn(text: string, c: char)
    requires c as int < 0xD800
    ensures c as nat in Utf16(text) <==> c in text
  {
    if text != [] {
      BmpUnitIn(text[1..], c);
      assert Utf16(text) == CodeUnits(text[0]) + Utf16(text[1..]);
      assert text == [text[0]] + text[1..];
      assert c as nat in CodeUnits(text[0]) <==> text[0] == c;
    }
  }

  /** The first code unit is a character below the surrogates exactly when the first character is. */
  lemma FirstUnit(text: string, c: char)
    requires |text| > 0 && c as int < 0xD800
    ensures Utf16(text)[0] == c as nat <==> text[0] == c
  {
    assert Utf16(text) == CodeUnits(text[0]) + Utf16(text[1..]);
  }

  /** A character outside the Basic Multilingual Plane adds one code unit more than it adds characters. */
  lemma AstralUnits()
    ensures |Utf16("a\U{1F600}b")| == 4 && |"a\U{1F600}b"| == 3
    ensures Utf16("\U{1F600}") == [0xD83D, 0xDE00]
  {
    assert Utf16("b") == [98] + Utf16("");
    assert Utf16("\U{1F600}b") == [0xD83D, 0xDE00] + Utf16("b");
    assert Utf16("\U{1F600}") == [0xD83D, 0xDE00] + Utf16("");
  }
}

/** Optional values and results, for the source's null and failure returns. */
module Wrappers {

  datatype Option<T> = None | Some(value: T)

  /**
   * How an operation that reports success with a bool ended: it returned
   * true, it returned false, or the runtime threw (an index out of range, a
   * negative array size, a copy past the end of an array).
   */
  datatype Outcome = Succeeded | Failed | Threw
}
