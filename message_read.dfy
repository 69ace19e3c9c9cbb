/**
 * OscMessageReads: the reads behind the message's TryGet overloads.  Each
 * one reads the payload array at the byte offset of an argument's record
 * with the codec of its type, and is proved to return what the argument's
 * own bytes (ArgAt) carry.
 */
module OscMessageReads {
  import opened Bytes
  import opened Wrappers
  import opened OscTypes
  import opened OscArgInfo
  import opened OscMessageLayout
  import OscDataBlock
  import FourByteOscData
  import EightByteOscData
  import StringOscData
  import BlobOscData

  /** FourByteOscData.TryReadFrom at the argument's offset: the group its bytes hold. */
  method ReadFourByteArg(infos: seq<OscArgInfo>, count: nat, data: array<byte>, index: nat, littleEndian: bool)
    returns (value: FourByteOscData.Data)
    requires Packed(infos, count) && End(infos, count) <= data.Length && index < count
    requires infos[index].byteCount == FourByteOscData.ByteCount
    ensures OscDataBlock.ToWire(value, littleEndian) == ArgAt(infos, count, data[..], index).bytes
  {
    ArgBounds(infos, count, index);
    var _, v, _ := FourByteOscData.TryReadFrom(data, infos[index].byteIndex, littleEndian);
    value := v;
  }

  /** EightByteOscData.TryReadFrom at the argument's offset: the group its bytes hold. */
  method ReadEightByteArg(infos: seq<OscArgInfo>, count: nat, data: array<byte>, index: nat, littleEndian: bool)
    returns (value: EightByteOscData.Data)
    requires Packed(infos, count) && End(infos, count) <= data.Length && index < count
    requires infos[index].byteCount == EightByteOscData.ByteCount
    ensures OscDataBlock.ToWire(value, littleEndian) == ArgAt(infos, count, data[..], index).bytes
  {
    ArgBounds(infos, count, index);
    var _, v, _ := EightByteOscData.TryReadFrom(data, infos[index].byteIndex, littleEndian);
    value := v;
  }

  /**
   * StringOscData.TryReadFrom at the argument's offset.  A well-formed
   * string argument holds its terminating NUL, so the scan stops inside the
   * argument and the read succeeds with the argument's own text.
   */
  method ReadStringArg(infos: seq<OscArgInfo>, count: nat, data: array<byte>, index: nat, originalText: string)
    returns (text: string)
    requires Packed(infos, count) && End(infos, count) <= data.Length && index < count
    requires WellFormedArg(ArgAt(infos, count, data[..], index)) && infos[index].argType == String
    ensures text == StringOscData.Scanned(ArgAt(infos, count, data[..], index).bytes, 0)
  {
    ArgBounds(infos, count, index);
    var at := infos[index].byteIndex;
    var bytes := ArgAt(infos, count, data[..], index).bytes;
    ScannedWithin(data[..], at, bytes);
    PaddedRunWithin(StringOscData.RunLength(bytes, 0), |bytes|);
    var _, _, t := StringOscData.TryReadText(data, at, originalText);
    text := t;
  }

  /**
   * BlobOscData.TryReadFrom at the argument's offset.  A well-formed blob
   * argument holds its size prefix and its padded bytes, so the read
   * succeeds with the bytes after the prefix.
   */
  method ReadBlobArg(infos: seq<OscArgInfo>, count: nat, data: array<byte>, index: nat, littleEndian: bool)
    returns (blob: seq<byte>)
    requires Packed(infos, count) && End(infos, count) <= data.Length <= MAX_ARRAY_LENGTH && index < count
    requires WellFormedArg(ArgAt(infos, count, data[..], index)) && infos[index].argType == Blob
    ensures var bytes := ArgAt(infos, count, data[..], index).bytes;
      blob == bytes[4..4 + BlobOscData.PrefixAt(bytes, 0)]
  {
    ArgBounds(infos, count, index);
    var at := infos[index].byteIndex;
    var bytes := ArgAt(infos, count, data[..], index).bytes;
    assert data[..][at..at + 4] == bytes[0..4];
    var p := BlobOscData.PrefixAt(bytes, 0);
    assert data[..][at + 4..at + 4 + p] == bytes[4..4 + p];
    var _, result, _ := BlobOscData.TryReadBlob(data, at, littleEndian);
    blob := result.value;
  }

  /**
   * Bytes copied from `data` at `at`: a NUL run that ends inside the copy
   * has the same length in both, from offset `i` of the copy on.
   */
  lemma {:induction false} RunLengthWithin(data: seq<byte>, at: nat, s: seq<byte>, i: nat)
    requires at + |s| <= |data| && data[at..at + |s|] == s
    requires i + StringOscData.RunLength(s, i) < |s|
    ensures StringOscData.RunLength(data, at + i) == StringOscData.RunLength(s, i)
    decreases |s| - i
  {
    assert data[at + i] == s[i];
    if s[i] != 0 {
      RunLengthWithin(data, at, s, i + 1);
    }
  }

  /** The text scanned at `at` is the text scanned from the start of the copy. */
  lemma ScannedWithin(data: seq<byte>, at: nat, s: seq<byte>)
    requires at + |s| <= |data| && data[at..at + |s|] == s
    requires StringOscData.RunLength(s, 0) < |s|
    ensures StringOscData.RunLength(data, at) == StringOscData.RunLength(s, 0)
    ensures StringOscData.Scanned(data, at) == StringOscData.Scanned(s, 0)
  {
    RunLengthWithin(data, at, s, 0);
    var n := StringOscData.RunLength(s, 0);
    assert data[at..at + n] == s[0..n];
  }

  /** A run shorter than a multiple of four ends, padded, within it. */
  lemma PaddedRunWithin(n: nat, size: nat)
    requires n < size && size % 4 == 0
    ensures n + StringOscData.Padding(n) <= size
  {
    assert n + StringOscData.Padding(n) == (n / 4 + 1) * 4;
    assert n / 4 < size / 4;
  }

  /* ---- Set, then TryGet: what a setter stores reads back ---- */

  /** Two groups with the same wire bytes are the same group: the float, double, colour and MIDI readers give back what was set. */
  lemma WireDetermines(a: seq<byte>, b: seq<byte>, littleEndian: bool)
    requires OscDataBlock.ToWire(a, littleEndian) == OscDataBlock.ToWire(b, littleEndian)
    ensures a == b
  {
    OscDataBlock.MemRoundTrip(a, littleEndian);
    OscDataBlock.MemRoundTrip(b, littleEndian);
  }

  /** The int Set(index, int) stores is the int TryGet reads. */
  lemma IntArgRoundTrip(v: int32)
    ensures FourByteOscData.IntFromWire(BigEndian(Unsigned32(v), 4)) == v
  {
    var d := FourByteOscData.FromInt(v, true);
    assert FourByteOscData.IntValue(d, true) == v;
  }

  /** The only long TryGet can read from what Set(index, long) stores is that long. */
  lemma LongArgRoundTrip(v: int64, read: int64)
    requires Unsigned64(read) == BigEndianValue(BigEndian(Unsigned64(v), 8))
    ensures read == v
  {
    var d := EightByteOscData.FromLong(v, true);
    assert EightByteOscData.UnsignedValue(d, true) == Unsigned64(v);
    assert Signed64(Unsigned64(read)) == read;
  }

  /** The time tag Set(index, OscTimeTag) stores is the one TryGet reads. */
  lemma TimeTagArgRoundTrip(time: nat)
    requires time < TWO_64
    ensures BigEndianValue(BigEndian(time, 8)) == time
  {
    var d := EightByteOscData.FromUnsigned(time, true);
    assert EightByteOscData.UnsignedValue(d, true) == time;
  }

  /** NUL-free ASCII text stored by Set(index, string) is the text TryGet reads. */
  lemma StringArgRoundTrip(text: string)
    requires StringOscData.NulFreeAscii(text)
    ensures StringOscData.Scanned(StringOscData.Encode(text), 0) == text
  {
    var wire := StringOscData.Encode(text);
    StringOscData.WrittenStringReadsBack(wire, wire, 0, text);
  }

  /** The blob stored by Set(index, byte[]) is the blob TryGet reads. */
  lemma BlobArgRoundTrip(blob: seq<byte>)
    requires |blob| < 0x8000_0000
    ensures var wire := BlobOscData.Encode(blob);
      BlobOscData.PrefixAt(wire, 0) == |blob| && wire[4..4 + |blob|] == blob
  {
    var wire := BlobOscData.Encode(blob);
    BlobOscData.PrefixOfWrittenBlob(wire, wire, 0, blob);
  }
}
