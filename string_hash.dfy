/**
 * OscStringHash (current version): a 32-bit hash of an OSC address, taken
 * either from the address text or from the OSC-string in a received
 * buffer, so that a pooled message with the same address can be found
 * without building a string.  Characters after the leading '/' are folded
 * in with hash := hash + (hash + c) * 0xdeece66d + 0xb in unsigned 32-bit
 * arithmetic.
 */
module OscStringHash {
  import opened Bytes
  import StringOscData

  const ADDRESS_PREFIX: int := 47  // '/'
  const MULTIPLIER: int := 0xdeece66d
  const INCREMENT: int := 0xb

  /** One fold step, wrapped to 32 bits like C# uint arithmetic. */
  function Step(hash: uint32, c: nat): (next: uint32)
  {
    (hash + (hash + c) * MULTIPLIER + INCREMENT) % TWO_32
  }

  /** The hash of a run of character codes, folded from the left starting at 0. */
  function Fold(codes: seq<nat>): (hash: uint32)
  {
    if codes == [] then 0 else Step(Fold(codes[..|codes| - 1]), codes[|codes| - 1])
  }

  /**
   * The UTF-16 code units of a string, as the source's `text[i]` sees them;
   * within the Basic Multilingual Plane, the characters' codes.
   */
  function Codes(text: string): (codes: seq<nat>)
    ensures Bmp(text) ==> |codes| == |text| && forall i :: 0 <= i < |text| ==> codes[i] == text[i] as int
  {
    if Bmp(text) then BmpUnits(text); Utf16(text) else Utf16(text)
  }

  /** The first code unit passes the validation when its low byte is '/'. */
  predicate HasPrefix(text: string)
  {
    |Codes(text)| >= 1 && Codes(text)[0] % 256 == ADDRESS_PREFIX
  }

  /** Pack(string): 0 for an empty text or a wrong first code unit, else the fold of the other units. */
  function PackedText(text: string): (hash: uint32)
  {
    if !HasPrefix(text) then 0 else Fold(Codes(text)[1..])
  }

  /** Pack(byte[], int): the fold of the bytes after the '/' up to the first NUL or the end. */
  function PackedBytes(data: seq<byte>, index: nat): (hash: uint32)
    requires index < |data| || |data| == 0
  {
    if |data| < 1 || data[index] != ADDRESS_PREFIX then 0
    else Fold(data[index + 1..index + 1 + StringOscData.RunLength(data, index + 1)])
  }

  /** "/a" and "/b" hash apart, so a hash kept across an address change is stale. */
  lemma HashesDiffer()
    ensures PackedText("/a") != PackedText("/b")
  {
    assert Codes("/a")[1..] == [97];
    assert Codes("/b")[1..] == [98];
    assert Fold([97]) == Step(0, 97);
    assert Fold([98]) == Step(0, 98);
  }

  /** Folding one more code is one more step. */
  lemma FoldSnoc(codes: seq<nat>, c: nat)
    ensures Fold(codes + [c]) == Step(Fold(codes), c)
  {
    assert (codes + [c])[..|codes|] == codes;
  }

  /** Folding the units after the first one more unit along is one more step. */
  lemma FoldUnitsStep(units: seq<nat>, i: nat)
    requires 1 <= i < |units|
    ensures Fold(units[1..i + 1]) == Step(Fold(units[1..i]), units[i])
  {
    assert units[1..i + 1] == units[1..i] + [units[i]];
    FoldSnoc(units[1..i], units[i]);
  }

  /** Pack(string) as the source loops over the code units. */
  method Pack(text: string) returns (hash: uint32)
    ensures hash == PackedText(text)
    ensures !HasPrefix(text) ==> hash == 0
  {
    var units := Codes(text);
    if |units| < 1 || units[0] % 256 != ADDRESS_PREFIX {
      return 0;
    }
    hash := 0;
    var i := 1;
    while i < |units|
      invariant 1 <= i <= |units|
      invariant hash == Fold(units[1..i])
    {
      FoldUnitsStep(units, i);
      hash := (hash + (hash + units[i]) * MULTIPLIER + INCREMENT) % TWO_32;
      i := i + 1;
    }
    assert units[1..i] == units[1..];
  }

  /** Outside the Basic Multilingual Plane a character is folded in as its two surrogates. */
  lemma AstralFoldsSurrogates()
    ensures PackedText("/\U{1F600}") == Fold([0xD83D, 0xDE00])
  {
    AstralUnits();
    assert Utf16("/\U{1F600}") == [47] + Utf16("\U{1F600}");
    assert Codes("/\U{1F600}")[1..] == [0xD83D, 0xDE00];
  }

  /** Pack(byte[], int) as the source loops over the bytes. */
  method PackBytes(data: array<byte>, index: nat) returns (hash: uint32)
    requires index < data.Length || data.Length == 0
    ensures hash == PackedBytes(data[..], index)
    ensures data.Length >= 1 && data[index] != ADDRESS_PREFIX ==> hash == 0
  {
    if data.Length < 1 || data[index] != ADDRESS_PREFIX {
      return 0;
    }
    ghost var bytes := data[..];
    var i := index + 1;
    hash := 0;
    while i < data.Length
      invariant index + 1 <= i <= data.Length
      invariant StringOscData.NonNulRun(bytes, index + 1, i)
      invariant hash == Fold(bytes[index + 1..i])
    {
      var b := data[i];
      i := i + 1;
      if b == 0 {
        i := i - 1;
        break;
      }
      assert bytes[index + 1..i] == bytes[index + 1..i - 1] + [b];
      FoldSnoc(bytes[index + 1..i - 1], b);
      hash := (hash + (hash + b) * MULTIPLIER + INCREMENT) % TWO_32;
    }
    StringOscData.RunLengthOfRun(bytes, index + 1, i);
  }

  /**
   * The two overloads agree: an ASCII address starting with '/', written
   * as an OSC-string anywhere in a buffer, hashes there like its text.
   */
  lemma WrittenAddressHash(before: seq<byte>, after: seq<byte>, at: nat, address: string)
    requires StringOscData.NulFreeAscii(address) && |address| >= 1 && address[0] == '/'
    requires StringOscData.WrittenAsString(before, after, at, address)
    ensures at < |after| && PackedBytes(after, at) == PackedText(address)
  {
    var n := |address|;
    assert StringOscData.RunLength(after, at) == n && at + n < |after| by {
      StringOscData.WrittenStringReadsBack(before, after, at, address);
    }
    assert after[at] == ADDRESS_PREFIX by {
      StringOscData.WrittenAsciiAt(before, after, at, address, 0);
    }
    assert StringOscData.RunLength(after, at + 1) == n - 1;
    var run := after[at + 1..at + n];
    assert Bmp(address);
    assert run == Codes(address)[1..] by {
      forall j | 0 <= j < n - 1
        ensures run[j] == Codes(address)[j + 1]
      {
        StringOscData.WrittenAsciiAt(before, after, at, address, j + 1);
      }
    }
  }
}

/**
 * OscStringHash (older version): a lossy hash that packs the address length
 * (without the '/') into the low 16 bits and the 16-bit byte sum of the
 * remaining characters above it.  The mask meant to clear the upper half
 * clears only bits 16-19, which matters only beyond 65535 characters.
 */
module LossyOscStringHash {
  import opened Bytes
  import StringOscData

  const ADDRESS_PREFIX: int := 47  // '/'

  /** The sum of the low bytes ((byte) cast) of UTF-16 code units, unbounded. */
  function ByteSum(units: seq<nat>): (sum: nat)
  {
    if units == [] then 0 else units[0] % 256 + ByteSum(units[1..])
  }

  /** Bitwise or of two non-negative numbers. */
  function Or(x: nat, y: nat): (r: nat)
  {
    if x == 0 then y
    else if y == 0 then x
    else 2 * Or(x / 2, y / 2) + (if x % 2 == 1 || y % 2 == 1 then 1 else 0)
  }

  /** Or of a number below 2^16 with a multiple of 2^16 is their sum. */
  lemma {:induction false} OrDisjoint(x: nat, h: nat, k: nat)
    requires x < Pow2(k)
    ensures Or(x, h * Pow2(k)) == x + h * Pow2(k)
  {
    if k > 0 && x != 0 && h != 0 {
      var y := h * Pow2(k);
      assert y == 2 * (h * Pow2(k - 1));
      assert y / 2 == h * Pow2(k - 1) && y % 2 == 0;
      OrDisjoint(x / 2, h, k - 1);
    }
  }

  function Pow2(k: nat): (p: nat)
    ensures p >= 1
  {
    if k == 0 then 1 else 2 * Pow2(k - 1)
  }

  lemma {:induction false} Pow2Add(a: nat, b: nat)
    ensures Pow2(a + b) == Pow2(a) * Pow2(b)
  {
    if a > 0 {
      Pow2Add(a - 1, b);
      assert Pow2(a + b) == 2 * Pow2(a - 1 + b);
    }
  }

  /**
   * (hash & ~(0xf << 16)) | (sum << 16) in C# int arithmetic: the mask
   * clears bits 16-19 of the length, the shifted sum fills bits 16-31, and
   * the bit pattern is read back as a signed int.
   */
  function Combine(length: nat, sum: nat): (hash: int32)
    requires length < 0x8000_0000 && sum < TWO_16
  {
    Signed32(Or(ClearSumBits(length), sum * TWO_16) % TWO_32)
  }

  /** length & ~(0xf << 16): bits 16-19 cleared. */
  function ClearSumBits(length: nat): (masked: nat)
    ensures length < TWO_16 ==> masked == length
  {
    length - ((length / TWO_16) % 16) * TWO_16
  }

  /** Unpack: the low 16 bits, and bits 16-31 (an arithmetic shift, then a ushort cast). */
  function Unpack(hash: int32): (r: (nat, nat))
    ensures r.0 < TWO_16 && r.1 < TWO_16
  {
    var bits := Unsigned32(hash);
    (bits % TWO_16, (bits / TWO_16) % TWO_16)
  }

  /**
   * Pack(string): 0 without a '/' prefix, else the number of code units
   * after it and their wrapped byte sum.
   */
  function PackedText(text: string): (hash: int32)
    requires |Utf16(text)| < 0x8000_0000
  {
    var units := Utf16(text);
    if |units| < 1 || units[0] % 256 != ADDRESS_PREFIX then 0
    else Combine(|units| - 1, ByteSum(units[1..]) % TWO_16)
  }

  /** Within 65536 characters the length and sum come back out of the hash. */
  lemma UnpackCombine(length: nat, sum: nat)
    requires length < TWO_16 && sum < TWO_16
    ensures Unpack(Combine(length, sum)) == (length, sum)
  {
    var bits := length + sum * TWO_16;
    assert Or(ClearSumBits(length), sum * TWO_16) == bits by {
      assert Pow2(8) == 256;
      Pow2Add(8, 8);
      OrDisjoint(length, sum, 16);
    }
    assert bits < TWO_32 by {
      assert sum * TWO_16 <= (TWO_16 - 1) * TWO_16;
    }
    assert bits % TWO_32 == bits by {
      ModOfSum(bits, TWO_32, 0, bits);
    }
    assert Unsigned32(Combine(length, sum)) == bits;
    assert bits % TWO_16 == length && (bits / TWO_16) % TWO_16 == sum by {
      ModOfSum(bits, TWO_16, sum, length);
    }
  }

  /** Unpack(Pack(text)) gives the length without the '/' and the 16-bit byte sum, in code units. */
  lemma UnpackPack(text: string)
    requires 1 <= |Utf16(text)| <= TWO_16 && Utf16(text)[0] % 256 == ADDRESS_PREFIX
    ensures Unpack(PackedText(text)) == (|Utf16(text)| - 1, ByteSum(Utf16(text)[1..]) % TWO_16)
  {
    var units := Utf16(text);
    UnpackCombine(|units| - 1, ByteSum(units[1..]) % TWO_16);
  }

  lemma {:induction false} ByteSumConcat(a: seq<nat>, b: seq<nat>)
    ensures ByteSum(a + b) == ByteSum(a) + ByteSum(b)
  {
    if a == [] {
      assert a + b == b;
    } else {
      assert (a + b)[0] == a[0] && (a + b)[1..] == a[1..] + b;
      ByteSumConcat(a[1..], b);
    }
  }

  /** Taking one element out of a sequence takes it out of its multiset. */
  lemma MultisetRemove<T>(b: seq<T>, k: nat)
    requires k < |b|
    ensures multiset(b[..k] + b[k + 1..]) == multiset(b) - multiset{b[k]}
  {
    assert b == b[..k] + [b[k]] + b[k + 1..];
  }

  /** Taking one code unit out takes its low byte out of the sum. */
  lemma ByteSumRemove(b: seq<nat>, k: nat)
    requires k < |b|
    ensures ByteSum(b) == ByteSum(b[..k] + b[k + 1..]) + b[k] % 256
  {
    var p, q, c := b[..k], b[k + 1..], b[k];
    var v := c % 256;
    assert b == (p + [c]) + q;
    assert ByteSum(b) == ByteSum(p + [c]) + ByteSum(q) by {
      ByteSumConcat(p + [c], q);
    }
    assert ByteSum(p + [c]) == ByteSum(p) + v by {
      ByteSumConcat(p, [c]);
      assert ByteSum([c]) == v + ByteSum([]);
    }
    assert ByteSum(p + q) == ByteSum(p) + ByteSum(q) by {
      ByteSumConcat(p, q);
    }
  }

  /** Matching the first character of `a` with b[k] leaves two shorter texts with the same multiset. */
  lemma PermutationStep(a: seq<nat>, b: seq<nat>, k: nat)
    requires multiset(a) == multiset(b) && a != [] && k < |b| && b[k] == a[0]
    ensures multiset(a[1..]) == multiset(b[..k] + b[k + 1..])
    ensures ByteSum(b) == ByteSum(b[..k] + b[k + 1..]) + a[0] % 256
  {
    assert multiset(a[1..]) == multiset(a) - multiset{a[0]} by {
      MultisetRemove(a, 0);
      assert a[..0] + a[1..] == a[1..];
    }
    assert multiset(b[..k] + b[k + 1..]) == multiset(b) - multiset{b[k]} by {
      MultisetRemove(b, k);
    }
    ByteSumRemove(b, k);
  }

  /** The byte sum ignores order. */
  lemma {:induction false} ByteSumPermutation(a: seq<nat>, b: seq<nat>)
    requires multiset(a) == multiset(b)
    ensures ByteSum(a) == ByteSum(b)
    decreases |a|
  {
    if a == [] {
      assert |b| == |multiset(b)| == 0;
    } else {
      assert a[0] in multiset(b);
      var k :| 0 <= k < |b| && b[k] == a[0];
      PermutationStep(a, b, k);
      ByteSumPermutation(a[1..], b[..k] + b[k + 1..]);
    }
  }

  /** Addresses that rearrange the same code units after the '/' (such as "/a/b" and "/b/a") collide. */
  lemma PermutationsCollide(a: string, b: string)
    requires |Utf16(a)| == |Utf16(b)| < 0x8000_0000 && |a| >= 1 && |b| >= 1 && a[0] == b[0] == '/'
    requires multiset(Utf16(a[1..])) == multiset(Utf16(b[1..]))
    ensures PackedText(a) == PackedText(b)
  {
    assert Utf16(a) == [ADDRESS_PREFIX] + Utf16(a[1..]);
    assert Utf16(b) == [ADDRESS_PREFIX] + Utf16(b[1..]);
    ByteSumPermutation(Utf16(a[1..]), Utf16(b[1..]));
  }

  /** Pack(string) as the source loops over the code units, the ushort sum wrapping at every step. */
  method Pack(text: string) returns (hash: int32)
    requires |Utf16(text)| < 0x8000_0000
    ensures hash == PackedText(text)
  {
    var units := Utf16(text);
    if |units| < 1 || units[0] % 256 != ADDRESS_PREFIX {
      return 0;
    }
    var sum := 0;
    var i := 1;
    while i < |units|
      invariant 1 <= i <= |units| && sum < TWO_16
      invariant sum == ByteSum(units[1..i]) % TWO_16
    {
      ByteSumConcat(units[1..i], [units[i]]);
      assert units[1..i + 1] == units[1..i] + [units[i]];
      WrappedAdd(ByteSum(units[1..i]), units[i] % 256);
      sum := (sum + units[i] % 256) % TWO_16;
      i := i + 1;
    }
    assert units[1..i] == units[1..];
    hash := Combine(|units| - 1, sum);
  }

  /** The wrapped byte sum of a run of bytes. */
  function RunSum(run: seq<byte>): (sum: nat)
  {
    if run == [] then 0 else RunSum(run[..|run| - 1]) + run[|run| - 1]
  }

  /** Adding to a 16-bit wrapped sum wraps the unbounded sum. */
  lemma WrappedAdd(total: nat, v: nat)
    ensures (total % TWO_16 + v) % TWO_16 == (total + v) % TWO_16
  {
    var q, r := total / TWO_16, total % TWO_16;
    var q2, r2 := (r + v) / TWO_16, (r + v) % TWO_16;
    assert total + v == (q + q2) * TWO_16 + r2;
    ModOfSum(total + v, TWO_16, q + q2, r2);
  }

  /** One more byte adds itself to the sum of the run. */
  lemma RunSumStep(bytes: seq<byte>, from: nat, i: nat)
    requires from <= i < |bytes|
    ensures RunSum(bytes[from..i + 1]) == RunSum(bytes[from..i]) + bytes[i]
  {
    assert bytes[from..i + 1][..i - from] == bytes[from..i];
  }

  /** Pack(byte[], int): 0 without a '/', else the run length and byte sum up to the NUL. */
  function PackedBytes(data: seq<byte>, index: nat): (hash: int32)
    requires index < |data| || |data| == 0
    requires |data| < 0x8000_0000
  {
    if |data| < 1 || data[index] != ADDRESS_PREFIX then 0
    else
      var n := StringOscData.RunLength(data, index + 1);
      Combine(n, RunSum(data[index + 1..index + 1 + n]) % TWO_16)
  }

  /** Pack(byte[], int) as the source loops: count and sum until a NUL or the end. */
  method PackBytes(data: array<byte>, index: nat) returns (hash: int32)
    requires index < data.Length || data.Length == 0
    requires data.Length < 0x8000_0000
    ensures hash == PackedBytes(data[..], index)
  {
    if data.Length < 1 || data[index] != ADDRESS_PREFIX {
      return 0;
    }
    ghost var bytes := data[..];
    var i := index + 1;
    var count := 0;
    var sum := 0;
    while i < data.Length
      invariant index + 1 <= i <= data.Length && count == i - index - 1
      invariant StringOscData.NonNulRun(bytes, index + 1, i)
      invariant sum < TWO_16 && sum == RunSum(bytes[index + 1..i]) % TWO_16
    {
      var b := data[i];
      if b == 0 {
        break;
      }
      RunSumStep(bytes, index + 1, i);
      WrappedAdd(RunSum(bytes[index + 1..i]), b);
      i := i + 1;
      count := count + 1;
      sum := (sum + b) % TWO_16;
    }
    StringOscData.RunLengthOfRun(bytes, index + 1, i);
    hash := Combine(count, sum);
  }

  /** Code units below 256, as bytes, sum like the units. */
  lemma {:induction false} RunSumOfText(units: seq<nat>)
    requires forall i :: 0 <= i < |units| ==> units[i] < 256
    ensures RunSum(seq(|units|, i requires 0 <= i < |units| => units[i] as byte)) == ByteSum(units)
  {
    if units != [] {
      var run := seq(|units|, i requires 0 <= i < |units| => units[i] as byte);
      var init := units[..|units| - 1];
      assert run[..|run| - 1] == seq(|init|, i requires 0 <= i < |init| => init[i] as byte);
      RunSumOfText(init);
      ByteSumConcat(init, [units[|units| - 1]]);
      assert units == init + [units[|units| - 1]];
    }
  }

  /** The bytes after the '/' of a written ASCII address sum like its code units. */
  lemma WrittenRunSum(before: seq<byte>, after: seq<byte>, at: nat, address: string, units: seq<nat>)
    requires StringOscData.NulFreeAscii(address) && |address| >= 1
    requires StringOscData.WrittenAsString(before, after, at, address)
    requires |units| == |address| && forall i :: 0 <= i < |units| ==> units[i] == address[i] as nat
    ensures at + |address| < |after|
    ensures RunSum(after[at + 1..at + |address|]) == ByteSum(units[1..])
  {
    var n := |address|;
    assert at + n < |after| by {
      StringOscData.WrittenStringReadsBack(before, after, at, address);
    }
    var rest := units[1..];
    var run := after[at + 1..at + n];
    assert run == seq(|rest|, i requires 0 <= i < |rest| => rest[i] as byte) by {
      forall j | 0 <= j < n - 1
        ensures run[j] == rest[j]
      {
        StringOscData.WrittenAsciiAt(before, after, at, address, j + 1);
      }
    }
    RunSumOfText(rest);
  }

  /** For an ASCII address written as an OSC-string, both overloads give the same hash. */
  lemma WrittenAddressHash(before: seq<byte>, after: seq<byte>, at: nat, address: string)
    requires StringOscData.NulFreeAscii(address) && |address| >= 1 && address[0] == '/'
    requires StringOscData.WrittenAsString(before, after, at, address)
    requires |after| < 0x8000_0000
    ensures |Utf16(address)| < 0x8000_0000
    ensures at < |after| && PackedBytes(after, at) == PackedText(address)
  {
    var sum := WrittenAddressRun(before, after, at, address);
    PackedBytesOfRun(after, at, |address| - 1, sum);
  }

  /**
   * What both overloads look at in a written ASCII address: the '/', the
   * run after it and its sum, which is the sum of the text's code units.
   */
  lemma WrittenAddressRun(before: seq<byte>, after: seq<byte>, at: nat, address: string) returns (sum: nat)
    requires StringOscData.NulFreeAscii(address) && |address| >= 1 && address[0] == '/'
    requires StringOscData.WrittenAsString(before, after, at, address)
    requires |after| < 0x8000_0000
    ensures at + |address| < |after| && after[at] == ADDRESS_PREFIX
    ensures StringOscData.RunLength(after, at + 1) == |address| - 1
    ensures RunSum(after[at + 1..at + 1 + (|address| - 1)]) % TWO_16 == sum
    ensures |Utf16(address)| == |address| && PackedText(address) == Combine(|address| - 1, sum)
  {
    var n := |address|;
    var units := Utf16(address);
    assert |units| == n && forall i :: 0 <= i < n ==> units[i] == address[i] as nat by {
      assert Bmp(address);
      BmpUnits(address);
    }
    assert units[0] == ADDRESS_PREFIX;
    sum := ByteSum(units[1..]) % TWO_16;
    assert at + n < |after| && RunSum(after[at + 1..at + 1 + (n - 1)]) % TWO_16 == sum by {
      WrittenRunSum(before, after, at, address, units);
      assert after[at + 1..at + 1 + (n - 1)] == after[at + 1..at + n];
    }
    assert PackedText(address) == Combine(n - 1, sum);
    assert after[at] == ADDRESS_PREFIX && StringOscData.RunLength(after, at + 1) == n - 1 by {
      StringOscData.WrittenAsciiAt(before, after, at, address, 0);
      StringOscData.WrittenStringReadsBack(before, after, at, address);
    }
  }

  /** PackedBytes at a '/' followed by a run of `n` non-NUL bytes whose wrapped sum is `sum`. */
  lemma PackedBytesOfRun(data: seq<byte>, index: nat, n: nat, sum: nat)
    requires index < |data| < 0x8000_0000 && data[index] == ADDRESS_PREFIX
    requires StringOscData.RunLength(data, index + 1) == n && index + 1 + n <= |data|
    requires RunSum(data[index + 1..index + 1 + n]) % TWO_16 == sum
    ensures PackedBytes(data, index) == Combine(n, sum)
  {
  }
}
