/**
 * StringOscData: the OSC-string codec.  Text is written one ASCII byte per
 * character (anything above 127 as '?') followed by one to four NUL bytes so
 * that the total is a multiple of four.
 */
module StringOscData {
  import opened Bytes
  import OscDataBlock

  /** The number of NULs that end a string of `count` characters. */
  function Padding(count: nat): (p: nat)
    ensures 1 <= p <= 4 && (count + p) % 4 == 0
  {
    4 - count % 4
  }

  /** EvaluateByteCount(string): the size of the OSC-string for `text`. */
  function EvaluateByteCount(text: string): (n: nat)
    ensures n % 4 == 0 && |text| < n <= |text| + 4
    ensures n == |Encode(text)|
  {
    |text| + Padding(|text|)
  }

  /**
   * The source counts UTF-16 code units (`text.Length`); the model counts
   * characters.  Within the Basic Multilingual Plane the two sizes agree.
   */
  lemma BmpByteCount(text: string)
    requires Bmp(text)
    ensures EvaluateByteCount(text) == |Utf16(text)| + Padding(|Utf16(text)|)
  {
    BmpUnits(text);
  }

  /** Outside it they differ: "a", U+1F600, "b" is 4 bytes here and 8 in the source. */
  lemma AstralTextSizedApart()
    ensures EvaluateByteCount("a\U{1F600}b") == 4
    ensures |Utf16("a\U{1F600}b")| + Padding(|Utf16("a\U{1F600}b")|) == 8
  {
    AstralUnits();
  }

  /** The ASCII bytes of `text`, '?' for every character above 127. */
  function EncodeAscii(text: string): (bytes: seq<byte>)
    ensures |bytes| == |text|
    ensures forall i :: 0 <= i < |text| ==> bytes[i] == AsciiByte(text[i])
  {
    seq(|text|, i requires 0 <= i < |text| => AsciiByte(text[i]))
  }

  /** The character for a byte, '?' for anything above 127. */
  function DecodeByte(b: byte): (c: char)
    ensures c as int < 128 && (b < 128 ==> c as int == b)
  {
    (if b > 127 then 63 else b) as char
  }

  /** The characters for bytes, '?' for every byte above 127. */
  function DecodeAscii(bytes: seq<byte>): (text: string)
    ensures |text| == |bytes|
    ensures forall i :: 0 <= i < |bytes| ==> text[i] == DecodeByte(bytes[i])
  {
    seq(|bytes|, i requires 0 <= i < |bytes| => DecodeByte(bytes[i]))
  }

  lemma DecodeAsciiAppend(bytes: seq<byte>, b: byte)
    ensures DecodeAscii(bytes + [b]) == DecodeAscii(bytes) + [DecodeByte(b)]
  {
  }

  /** The OSC-string for `text`: its ASCII bytes and the NUL padding. */
  function Encode(text: string): (bytes: seq<byte>)
    ensures |bytes| % 4 == 0 && |text| < |bytes| <= |text| + 4
  {
    EncodeAscii(text) + Zeros(Padding(|text|))
  }

  /** Text an OSC-string can carry unchanged: ASCII with no NUL. */
  predicate NulFreeAscii(text: string)
  {
    forall i :: 0 <= i < |text| ==> 0 < text[i] as int < 128
  }

  /** data[from..to], or nothing when `from` lies beyond the end. */
  function Between(data: seq<byte>, from: nat, to: nat): (s: seq<byte>)
    requires from <= to && (to <= |data| || from == to)
    ensures |s| == to - from
  {
    if from == to then [] else data[from..to]
  }

  /** The length of the run of non-NUL bytes starting at `from`. */
  function RunLength(data: seq<byte>, from: nat): (n: nat)
    ensures from + n <= |data| || n == 0
    ensures forall i :: from <= i < from + n ==> data[i] != 0
    ensures from + n >= |data| || data[from + n] == 0
    decreases |data| - from
  {
    if from >= |data| || data[from] == 0 then 0 else 1 + RunLength(data, from + 1)
  }

  /** The text the bytes at `from` carry, up to the first NUL or the end. */
  function Scanned(data: seq<byte>, from: nat): (text: string)
    ensures |text| == RunLength(data, from)
  {
    var n := RunLength(data, from);
    if n == 0 then [] else DecodeAscii(data[from..from + n])
  }

  /**
   * EvaluateByteCount(data, index): the padded size of the run of non-NUL
   * bytes starting at `index`, i.e. the size the OSC-string there occupies.
   */
  method EvaluateByteCountAt(data: array<byte>, index: nat) returns (n: nat)
    ensures n == RunLength(data[..], index) + Padding(RunLength(data[..], index))
    ensures n % 4 == 0 && n > RunLength(data[..], index)
  {
    var count := 0;
    var i := index;
    while i < data.Length && data[i] != 0
      invariant index <= i && count == i - index
      invariant i <= data.Length || count == 0
      invariant forall j :: index <= j < i ==> data[j] != 0
    {
      count := count + 1;
      i := i + 1;
    }
    assert count == RunLength(data[..], index);
    n := count + Padding(count);
  }

  /**
   * The character loop of TryReadFrom: advance over the non-NUL run at
   * `index`, mapping bytes above 127 to '?', and track whether the run
   * differs from `originalText` the way the source does (an empty original
   * always counts as changed; otherwise a character that differs, or more
   * characters than the original has).
   */
  method ScanText(data: array<byte>, index: nat, originalText: string)
    returns (chars: string, next: nat, change: bool)
    ensures next == index + |chars| && chars == Scanned(data[..], index)
    ensures change == (originalText == [] || !(chars <= originalText))
  {
    ghost var bytes := data[..];
    var existing := |originalText|;
    change := existing == 0;
    chars := [];
    next := index;
    while next < data.Length
      invariant index <= next && (next <= data.Length || next == index)
      invariant next - index == |chars|
      invariant NonNulRun(bytes, index, next)
      invariant chars == DecodeAscii(Between(bytes, index, next))
      invariant change == (existing == 0 || !(chars <= originalText))
    {
      var b := data[next];
      if b == 0 {
        break;
      }
      ScanStep(bytes, index, next);
      next := next + 1;
      if b > 127 {
        b := 63;
      }
      var c := b as char;
      PrefixStep(chars, c, originalText);
      chars := chars + [c];
      if !change && (|chars| > existing || c != originalText[|chars| - 1]) {
        change := true;
      }
    }
    ScannedRun(bytes, index, next);
  }

  /** No NUL among the bytes from `from` up to `to`. */
  ghost predicate NonNulRun(data: seq<byte>, from: nat, to: nat)
  {
    forall j :: from <= j < to && j < |data| ==> data[j] != 0
  }

  /** One more non-NUL byte extends the run and its text by one character. */
  lemma ScanStep(data: seq<byte>, from: nat, to: nat)
    requires from <= to < |data| && data[to] != 0 && NonNulRun(data, from, to)
    ensures NonNulRun(data, from, to + 1)
    ensures DecodeAscii(Between(data, from, to + 1)) == DecodeAscii(Between(data, from, to)) + [DecodeByte(data[to])]
  {
    assert Between(data, from, to + 1) == Between(data, from, to) + [data[to]];
    DecodeAsciiAppend(Between(data, from, to), data[to]);
  }

  /** Extending a text by one character keeps it a prefix exactly when the next character agrees. */
  lemma PrefixStep(chars: string, c: char, original: string)
    ensures chars + [c] <= original <==> chars <= original && |chars| < |original| && original[|chars|] == c
  {
    if chars <= original && |chars| < |original| && original[|chars|] == c {
      assert (chars + [c]) == original[..|chars| + 1];
    }
  }

  /** A maximal run of non-NUL bytes is what Scanned reads. */
  lemma ScannedRun(data: seq<byte>, index: nat, next: nat)
    requires index <= next && (next <= |data| || next == index)
    requires NonNulRun(data, index, next)
    requires next >= |data| || data[next] == 0
    ensures next - index == RunLength(data, index)
    ensures Scanned(data, index) == DecodeAscii(Between(data, index, next))
  {
    RunLengthOfRun(data, index, next);
  }

  /** The run ends exactly at the first NUL. */
  lemma {:induction false} RunLengthOfRun(data: seq<byte>, index: nat, next: nat)
    requires index <= next && (next <= |data| || next == index)
    requires NonNulRun(data, index, next)
    requires next >= |data| || data[next] == 0
    ensures next - index == RunLength(data, index)
    decreases next - index
  {
    if index < next {
      RunLengthOfRun(data, index + 1, next);
    }
  }

  /**
   * TryReadFrom as written.  The scan stops at the first NUL or the end of
   * `data`; the string is rejected (text "", index left after the
   * characters) when its padding would run past the end.  On success the
   * previous text is replaced only when ScanText saw a change, so a new
   * text that is a proper prefix of the previous one leaves the previous
   * one in place.
   */
  method TryReadFrom(data: array<byte>, index: nat, originalText: string)
    returns (ok: bool, next: nat, text: string)
    ensures var n := RunLength(data[..], index);
      && (ok <==> index + n + Padding(n) <= data.Length)
      && (ok ==> next == index + n + Padding(n))
      && (!ok ==> next == index + n && text == "")
    ensures ok ==> text == if originalText == [] || !(Scanned(data[..], index) <= originalText)
                          then Scanned(data[..], index) else originalText
  {
    var chars, change;
    chars, next, change := ScanText(data, index, originalText);
    var trailing := Padding(|chars|);
    if next + trailing > data.Length {
      return false, next, "";
    }
    next := next + trailing;
    ok := true;
    text := if change then chars else originalText;
  }

  /**
   * A shorter new text that is a prefix of the previous one is lost: the
   * OSC-string "ab" read into a string holding "abcd" leaves "abcd", where
   * the intended read gives "ab".
   */
  method PrefixTextIsKept() returns (ok: bool, text: string, intended: string)
    ensures ok && text == "abcd" && intended == "ab"
  {
    var data := new byte[][97, 98, 0, 0, 0, 0, 0, 0];
    assert RunLength(data[..], 2) == 0;
    assert RunLength(data[..], 0) == 2;
    assert data[0..2] == [97, 98];
    assert Scanned(data[..], 0) == "ab";
    var next, okIntended;
    ok, next, text := TryReadFrom(data, 0, "abcd");
    okIntended, next, intended := TryReadText(data, 0, "abcd");
  }

  /**
   * TryReadFrom as evidently intended: on success the text is the one just
   * read, whatever the previous text was.
   */
  method TryReadText(data: array<byte>, index: nat, originalText: string)
    returns (ok: bool, next: nat, text: string)
    ensures var n := RunLength(data[..], index);
      && (ok <==> index + n + Padding(n) <= data.Length)
      && (ok ==> next == index + n + Padding(n) && text == Scanned(data[..], index))
      && (!ok ==> next == index + n && text == "")
  {
    var chars, change;
    chars, next, change := ScanText(data, index, originalText);
    if |chars| != |originalText| {
      change := true;
    }
    assert change || chars == originalText;
    var trailing := Padding(|chars|);
    if next + trailing > data.Length {
      return false, next, "";
    }
    next := next + trailing;
    ok := true;
    text := if change then chars else originalText;
  }

  /**
   * ReadFromAndAppendTo: append the characters (in quotes if asked) to the
   * text built so far, and advance past the padding; there is no bounds
   * failure, so the index may end beyond `data`.
   */
  method ReadFromAndAppendTo(data: array<byte>, index: nat, sb: string, addQuotes: bool)
    returns (next: nat, result: string)
    ensures var n := RunLength(data[..], index);
      next == index + n + Padding(n)
    ensures result == sb + (if addQuotes then "\"" else "") + Scanned(data[..], index) + (if addQuotes then "\"" else "")
  {
    var quote := if addQuotes then "\"" else "";
    var prefix := sb + quote;
    var chars := [];
    var count := 0;
    ghost var bytes := data[..];
    next := index;
    while next < data.Length
      invariant index <= next && (next <= data.Length || next == index)
      invariant count == next - index
      invariant NonNulRun(bytes, index, next)
      invariant chars == DecodeAscii(Between(bytes, index, next))
    {
      var b := data[next];
      if b == 0 {
        break;
      }
      ScanStep(bytes, index, next);
      next := next + 1;
      if b > 127 {
        b := 63;
      }
      chars := chars + [b as char];
      count := count + 1;
    }
    ScannedRun(bytes, index, next);
    result := prefix + chars + quote;
    next := next + Padding(count);
  }

  /** `after` is `before` with the OSC-string for `text` written at `at`. */
  ghost predicate WrittenAsString(before: seq<byte>, after: seq<byte>, at: nat, text: string)
  {
    OscDataBlock.WrittenAt(before, after, at, Encode(text))
  }

  /**
   * TryWriteTo: fail without writing when the OSC-string does not fit,
   * otherwise write its bytes and advance past them.
   */
  method TryWriteTo(text: string, data: array<byte>, index: nat) returns (ok: bool, next: nat)
    modifies data
    ensures ok <==> index + EvaluateByteCount(text) <= data.Length
    ensures ok ==> next == index + EvaluateByteCount(text) && WrittenAsString(old(data[..]), data[..], index, text)
    ensures !ok ==> next == index && data[..] == old(data[..])
  {
    var textByteCount := |text|;
    var trailing := Padding(textByteCount);
    if index + textByteCount + trailing > data.Length {
      return false, index;
    }
    var wire := Encode(text);
    next := index;
    while next < index + textByteCount
      invariant index <= next <= index + textByteCount
      invariant forall j :: 0 <= j < data.Length ==>
        data[j] == (if index <= j < next then wire[j - index] else old(data[j]))
    {
      data[next] := AsciiByte(text[next - index]);
      next := next + 1;
    }
    var i := 0;
    while i < trailing
      invariant 0 <= i <= trailing && next == index + textByteCount + i
      invariant forall j :: 0 <= j < data.Length ==>
        data[j] == (if index <= j < next then wire[j - index] else old(data[j]))
    {
      data[next] := 0;
      next := next + 1;
      i := i + 1;
    }
    ok := true;
    assert data[..] == old(data[..index]) + wire + old(data[index + |wire|..]);
  }

  /** An OSC-string written at `at` scans back as the same text and length. */
  lemma WrittenStringReadsBack(before: seq<byte>, after: seq<byte>, at: nat, text: string)
    requires NulFreeAscii(text) && WrittenAsString(before, after, at, text)
    ensures RunLength(after, at) == |text|
    ensures Scanned(after, at) == text
    ensures at + |text| + Padding(|text|) <= |after|
  {
    var n := |text|;
    assert forall i :: at <= i < at + n ==> after[i] == AsciiByte(text[i - at]);
    assert after[at + n] == 0;
    assert NonNulRun(after, at, at + n);
    RunLengthOfRun(after, at, at + n);
    assert after[at..at + n] == EncodeAscii(text);
  }

  /** Each character of NUL-free ASCII text written as an OSC-string is its own byte. */
  lemma WrittenAsciiAt(before: seq<byte>, after: seq<byte>, at: nat, text: string, j: nat)
    requires NulFreeAscii(text) && WrittenAsString(before, after, at, text) && j < |text|
    ensures at + j < |after| && after[at + j] == text[j] as int
  {
    assert Encode(text)[j] == EncodeAscii(text)[j];
  }

  /**
   * Round trip: an OSC-string written for NUL-free ASCII text reads back,
   * from an empty original, as the same text with the same index advance.
   */
  lemma RoundTrip(before: seq<byte>, after: seq<byte>, at: nat, text: string)
    requires NulFreeAscii(text) && WrittenAsString(before, after, at, text)
    ensures var n := RunLength(after, at);
      && at + n + Padding(n) <= |after|
      && n + Padding(n) == EvaluateByteCount(text)
      && Scanned(after, at) == text
  {
    WrittenStringReadsBack(before, after, at, text);
  }
}
