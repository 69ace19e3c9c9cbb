/**
 * StringBuilderExtensions: appending integers to a string builder in decimal
 * without allocating temporary strings.  The builder is modelled as an
 * object holding its characters; each AppendGarbageFree first appends as
 * many '0' placeholders as the value has digits and then overwrites them from
 * the right, least significant digit first.
 */
module StringBuilderExtensions {
  import opened Bytes

  /** The receiver: a growable character buffer edited in place. */
  class StringBuilder {
    var chars: seq<char>

    constructor ()
      ensures chars == []
    {
      chars := [];
    }

    /** Append(s). */
    method Append(s: seq<char>)
      modifies this
      ensures chars == old(chars) + s
    {
      chars := chars + s;
    }

    /** sb[pos] = c. */
    method SetAt(pos: nat, c: char)
      requires pos < |chars|
      modifies this
      ensures chars == old(chars)[pos := c]
    {
      chars := chars[pos := c];
    }
  }

  /** digits[d]. */
  function DigitChar(d: nat): (c: char)
    requires d < 10
    ensures '0' <= c <= '9' && c as int - '0' as int == d
  {
    (d + '0' as int) as char
  }

  /** The number of decimal digits of a positive number (0 has none). */
  function NumDigits(n: nat): (k: nat)
    ensures n > 0 <==> k > 0
  {
    if n == 0 then 0 else 1 + NumDigits(n / 10)
  }

  /** The decimal digits of n, most significant first, with no leading zero; empty for 0. */
  function Digits(n: nat): (s: seq<char>)
    ensures |s| == NumDigits(n)
  {
    if n == 0 then [] else Digits(n / 10) + [DigitChar(n % 10)]
  }

  /** The decimal text the appenders write for an unsigned value: "0" for zero. */
  function Decimal(n: nat): (s: seq<char>)
    ensures s != []
  {
    if n == 0 then ['0'] else Digits(n)
  }

  predicate IsDigit(c: char)
  {
    '0' <= c <= '9'
  }

  predicate AllDigits(s: seq<char>)
  {
    forall i :: 0 <= i < |s| ==> IsDigit(s[i])
  }

  /** The value of a run of decimal digits, read most significant first. */
  function ParseDigits(s: seq<char>): (n: int)
    requires AllDigits(s)
  {
    if s == [] then 0
    else
      assert AllDigits(s[..|s| - 1]);
      10 * ParseDigits(s[..|s| - 1]) + (s[|s| - 1] as int - '0' as int)
  }

  /** Every character of Digits(n) is a decimal digit and the first is not '0'. */
  lemma {:induction false} DigitsAreDigits(n: nat)
    ensures AllDigits(Digits(n))
    ensures n > 0 ==> Digits(n)[0] != '0'
  {
    if n > 0 {
      DigitsAreDigits(n / 10);
      if n / 10 == 0 {
        assert Digits(n) == [DigitChar(n % 10)];
      } else {
        assert Digits(n)[0] == Digits(n / 10)[0];
      }
    }
  }

  /** Reading back the digits gives the number: the decimal form is faithful. */
  lemma {:induction false} DigitsRoundTrip(n: nat)
    ensures AllDigits(Digits(n))
    ensures ParseDigits(Digits(n)) == n
  {
    DigitsAreDigits(n);
    if n > 0 {
      var s := Digits(n);
      assert s[..|s| - 1] == Digits(n / 10);
      DigitsRoundTrip(n / 10);
    }
  }

  /** Decimal is one-to-one: different values never print the same. */
  lemma DecimalInjective(m: nat, n: nat)
    requires Decimal(m) == Decimal(n)
    ensures m == n
  {
    DigitsAreDigits(m);
    DigitsAreDigits(n);
    if m > 0 && n > 0 {
      DigitsRoundTrip(m);
      DigitsRoundTrip(n);
    }
  }

  /** The digit run for n is d digits long exactly when 10^(d-1) <= n < 10^d. */
  function Pow10(d: nat): (p: nat)
    ensures p >= 1
  {
    if d == 0 then 1 else 10 * Pow10(d - 1)
  }

  lemma {:induction false} NumDigitsBounds(n: nat)
    requires n > 0
    ensures Pow10(NumDigits(n) - 1) <= n < Pow10(NumDigits(n))
  {
    if n >= 10 {
      NumDigitsBounds(n / 10);
    }
  }

  /** An unsigned 32-bit value fits in ten digits, a 64-bit one in twenty. */
  lemma DigitCountLimits(n: nat)
    ensures n < 0x1_0000_0000 ==> NumDigits(n) <= 10
    ensures n < 0x1_0000_0000_0000_0000 ==> NumDigits(n) <= 20
  {
    if n > 0 {
      NumDigitsBounds(n);
      if NumDigits(n) > 10 {
        PowMonotone(10, NumDigits(n) - 1);
        assert Pow10(10) == 10000000000;
      }
      if NumDigits(n) > 20 {
        PowMonotone(20, NumDigits(n) - 1);
        assert Pow10(20) == 100000000000000000000;
      }
    }
  }

  lemma {:induction false} PowMonotone(a: nat, b: nat)
    requires a <= b
    ensures Pow10(a) <= Pow10(b)
  {
    if a < b {
      PowMonotone(a, b - 1);
    }
  }

  /**
   * The shared body of every integer appender: count the digits of a
   * positive value, append that many '0's, then write the digits from the
   * right end backwards.
   */
  method AppendDigits(sb: StringBuilder, value: nat)
    requires value > 0
    modifies sb
    ensures sb.chars == old(sb.chars) + Digits(value)
  {
    var count := 0;
    var tmp := value;
    while tmp > 0
      invariant count + NumDigits(tmp) == NumDigits(value)
      decreases tmp
    {
      tmp := tmp / 10;
      count := count + 1;
    }
    ghost var prefix := sb.chars;
    sb.Append(seq(count, _ => '0'));
    var v := value;
    var pos := |sb.chars|;
    ghost var tail: seq<char> := [];
    while count > 0
      invariant 0 <= count == NumDigits(v) && pos == |prefix| + count
      invariant sb.chars == prefix + seq(count, _ => '0') + tail
      invariant Digits(v) + tail == Digits(value)
      decreases count
    {
      pos := pos - 1;
      sb.SetAt(pos, DigitChar(v % 10));
      tail := [DigitChar(v % 10)] + tail;
      assert Digits(v) == Digits(v / 10) + [DigitChar(v % 10)];
      v := v / 10;
      count := count - 1;
      assert sb.chars == prefix + seq(count, _ => '0') + tail;
    }
  }

  /** AppendGarbageFree(uint): the digits, then "u" when the literal postfix is asked for. */
  function UIntText(value: nat, includeLiteralPostFix: bool): seq<char>
  {
    Decimal(value) + (if includeLiteralPostFix then ['u'] else [])
  }

  method AppendUInt(sb: StringBuilder, value: nat, includeLiteralPostFix: bool)
    requires value < 0x1_0000_0000
    modifies sb
    ensures sb.chars == old(sb.chars) + UIntText(value, includeLiteralPostFix)
  {
    if value == 0 {
      sb.Append(['0']);
    } else {
      AppendDigits(sb, value);
    }
    if includeLiteralPostFix {
      sb.Append(['u']);
    }
  }

  /** AppendGarbageFree(ulong): the digits, then "ul" when asked for. */
  function ULongText(value: nat, includeLiteralPostFix: bool): seq<char>
  {
    Decimal(value) + (if includeLiteralPostFix then ['u', 'l'] else [])
  }

  method AppendULong(sb: StringBuilder, value: nat, includeLiteralPostFix: bool)
    requires value < 0x1_0000_0000_0000_0000
    modifies sb
    ensures sb.chars == old(sb.chars) + ULongText(value, includeLiteralPostFix)
  {
    if value == 0 {
      sb.Append(['0']);
    } else {
      AppendDigits(sb, value);
    }
    if includeLiteralPostFix {
      sb.Append(['u', 'l']);
    }
  }

  /** The decimal text of a signed value: a '-' and the digits of its magnitude when negative. */
  function SignedDecimal(value: int): seq<char>
  {
    if value < 0 then ['-'] + Digits(-value) else Decimal(value)
  }

  /** Reading a signed decimal back: an optional '-' and a digit run. */
  predicate IsSignedDecimal(s: seq<char>)
  {
    s != [] && if s[0] == '-' then |s| > 1 && AllDigits(s[1..]) else AllDigits(s)
  }

  function ParseSigned(s: seq<char>): (v: int)
    requires IsSignedDecimal(s)
  {
    if s[0] == '-' then -ParseDigits(s[1..]) else ParseDigits(s)
  }

  /** Every signed value prints to text that reads back as the same value. */
  lemma SignedRoundTrip(value: int)
    ensures IsSignedDecimal(SignedDecimal(value))
    ensures SignedDecimal(value)[0] == '-' <==> value < 0
    ensures ParseSigned(SignedDecimal(value)) == value
  {
    var s := SignedDecimal(value);
    if value < 0 {
      DigitsRoundTrip(-value);
      assert s[1..] == Digits(-value);
    } else if value > 0 {
      DigitsRoundTrip(value);
      assert IsDigit(s[0]);
    } else {
      assert s == ['0'] && s[..0] == [];
      assert ParseDigits(s) == 10 * ParseDigits([]) + 0;
    }
  }

  /**
   * The magnitude of a negative value as the source computes it in unsigned
   * arithmetic: MaxValue - (unsigned)value + 1, wrapping modulo 2^bits.
   */
  function UnsignedMagnitude(value: int, modulus: nat): (m: nat)
    requires modulus > 0 && 0 < value + modulus && value < 0
    ensures m == -value
  {
    var asUnsigned: int := value % modulus;
    assert asUnsigned == value + modulus;
    var difference: int := (modulus - 1) - asUnsigned + 1;
    assert 0 < difference < modulus;
    difference % modulus
  }

  /** The smallest int prints as "-2147483648": its magnitude survives the unsigned detour. */
  lemma MinIntPrints()
    ensures UnsignedMagnitude(-0x8000_0000, 0x1_0000_0000) == 0x8000_0000
    ensures SignedDecimal(-0x8000_0000) == ['-'] + Digits(2147483648)
  {
  }

  /** AppendGarbageFree(int): no postfix. */
  method AppendInt(sb: StringBuilder, value: int)
    requires -0x8000_0000 <= value < 0x8000_0000
    modifies sb
    ensures sb.chars == old(sb.chars) + SignedDecimal(value)
  {
    AppendSigned(sb, value, 0x1_0000_0000);
  }

  /**
   * The body shared by the int and long appenders, for a signed value whose
   * unsigned counterpart wraps modulo `modulus`.
   */
  method AppendSigned(sb: StringBuilder, value: int, modulus: nat)
    requires modulus > 0 && 0 < value + modulus && value < modulus
    modifies sb
    ensures sb.chars == old(sb.chars) + SignedDecimal(value)
  {
    if value == 0 {
      sb.Append(['0']);
      return;
    }
    var uValue: nat;
    if value < 0 {
      sb.Append(['-']);
      uValue := UnsignedMagnitude(value, modulus);
    } else {
      uValue := value;
    }
    AppendDigits(sb, uValue);
  }

  /** AppendGarbageFree(long): the signed digits, then "l" when asked for. */
  function LongText(value: int, includeLiteralPostFix: bool): seq<char>
  {
    SignedDecimal(value) + (if includeLiteralPostFix then ['l'] else [])
  }

  method AppendLong(sb: StringBuilder, value: int, includeLiteralPostFix: bool)
    requires -0x8000_0000_0000_0000 <= value < 0x8000_0000_0000_0000
    modifies sb
    ensures sb.chars == old(sb.chars) + LongText(value, includeLiteralPostFix)
  {
    AppendSigned(sb, value, 0x1_0000_0000_0000_0000);
    if includeLiteralPostFix {
      sb.Append(['l']);
    }
  }

  /** AppendGarbageFree(Color32): "RGBA(r,g,b,a)" with each channel in decimal. */
  function ColorText(r: byte, g: byte, b: byte, a: byte): (s: seq<char>)
    ensures |s| == 9 + |Decimal(r as nat)| + |Decimal(g as nat)| + |Decimal(b as nat)| + |Decimal(a as nat)|
    ensures s[..5] == ['R', 'G', 'B', 'A', '('] && s[|s| - 1] == ')'
  {
    ['R', 'G', 'B', 'A', '('] + ChannelText(r, ',') + ChannelText(g, ',') + ChannelText(b, ',') + ChannelText(a, ')')
  }

  method AppendColor32(sb: StringBuilder, r: byte, g: byte, b: byte, a: byte)
    modifies sb
    ensures sb.chars == old(sb.chars) + ColorText(r, g, b, a)
  {
    ghost var s0 := sb.chars;
    sb.Append(['R', 'G', 'B', 'A', '(']);
    ghost var s1 := sb.chars;
    AppendChannel(sb, r, ',');
    ghost var s2 := sb.chars;
    AppendChannel(sb, g, ',');
    ghost var s3 := sb.chars;
    AppendChannel(sb, b, ',');
    ghost var s4 := sb.chars;
    AppendChannel(sb, a, ')');
    AppendedPieces(s0, ['R', 'G', 'B', 'A', '('], ChannelText(r, ','), ChannelText(g, ','), ChannelText(b, ','),
                   ChannelText(a, ')'), s1, s2, s3, s4, sb.chars);
  }

  /** Appending a prefix and four pieces one after another appends their concatenation. */
  lemma AppendedPieces(s0: seq<char>, p: seq<char>, c1: seq<char>, c2: seq<char>, c3: seq<char>, c4: seq<char>,
                       s1: seq<char>, s2: seq<char>, s3: seq<char>, s4: seq<char>, s5: seq<char>)
    requires s1 == s0 + p && s2 == s1 + c1 && s3 == s2 + c2 && s4 == s3 + c3 && s5 == s4 + c4
    ensures s5 == s0 + (p + c1 + c2 + c3 + c4)
  {
  }

  /** One channel of a colour in decimal, then its separator. */
  function ChannelText(channel: byte, separator: char): seq<char>
  {
    Decimal(channel as nat) + [separator]
  }

  method AppendChannel(sb: StringBuilder, channel: byte, separator: char)
    modifies sb
    ensures sb.chars == old(sb.chars) + ChannelText(channel, separator)
  {
    AppendUInt(sb, channel as nat, false);
    sb.Append([separator]);
  }

  /** A channel byte takes one to three digits, so a colour prints in 13 to 21 characters. */
  lemma ColorTextLength(r: byte, g: byte, b: byte, a: byte)
    ensures 13 <= |ColorText(r, g, b, a)| <= 21
  {
    ByteDigits(r as nat);
    ByteDigits(g as nat);
    ByteDigits(b as nat);
    ByteDigits(a as nat);
  }

  lemma ByteDigits(n: nat)
    requires n < 256
    ensures 1 <= |Decimal(n)| <= 3
  {
    if n > 0 {
      NumDigitsBounds(n);
      if NumDigits(n) > 3 {
        PowMonotone(3, NumDigits(n) - 1);
      }
    }
  }
}
