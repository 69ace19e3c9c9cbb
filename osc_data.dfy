/**
 * The byte-level core shared by the fixed-width argument codecs
 * (FourByteOscData ... SixtyfourByteOscData).  Each codec is a struct whose
 * bytes _b0, _b1, ... overlay a value in host memory.  Its byte constructor
 * takes bytes in wire order and stores them reversed on a little-endian
 * host, as they are on a big-endian one; TryWriteTo undoes that.  Host
 * endianness is the parameter `littleEndian`.
 */
module OscDataBlock {
  import opened Bytes

  /** The in-memory bytes (_b0 first) a byte constructor stores for wire bytes. */
  function FromWire(wire: seq<byte>, littleEndian: bool): (mem: seq<byte>)
    ensures |mem| == |wire|
  {
    if littleEndian then Reverse(wire) else wire
  }

  /** The wire bytes TryWriteTo emits for in-memory bytes. */
  function ToWire(mem: seq<byte>, littleEndian: bool): (wire: seq<byte>)
    ensures |wire| == |mem|
  {
    if littleEndian then Reverse(mem) else mem
  }

  /** Writing what a byte constructor stored gives back the wire bytes. */
  lemma WireRoundTrip(wire: seq<byte>, littleEndian: bool)
    ensures ToWire(FromWire(wire, littleEndian), littleEndian) == wire
  {
    if littleEndian { ReverseInvolution(wire); }
  }

  /** Reading back what TryWriteTo wrote restores the same in-memory bytes. */
  lemma MemRoundTrip(mem: seq<byte>, littleEndian: bool)
    ensures FromWire(ToWire(mem, littleEndian), littleEndian) == mem
  {
    if littleEndian { ReverseInvolution(mem); }
  }

  /** A little-endian host reverses the whole block as one unit. */
  lemma LittleEndianReversesBlock(mem: seq<byte>, i: nat)
    requires i < |mem|
    ensures ToWire(mem, true)[i] == mem[|mem| - 1 - i]
    ensures FromWire(mem, true)[i] == mem[|mem| - 1 - i]
    ensures ToWire(mem, false)[i] == mem[i] && FromWire(mem, false)[i] == mem[i]
  {
    ReverseAt(mem, i);
  }

  /** `after` is `before` with `chunk` written at `at` and nothing else changed. */
  ghost predicate WrittenAt(before: seq<byte>, after: seq<byte>, at: nat, chunk: seq<byte>)
  {
    && |after| == |before| && at + |chunk| <= |before|
    && forall j :: 0 <= j < |after| ==> after[j] == if at <= j < at + |chunk| then chunk[j - at] else before[j]
  }

  /** Writing nothing leaves the bytes as they were. */
  lemma WrittenNothing(s: seq<byte>, at: nat)
    requires at <= |s|
    ensures WrittenAt(s, s, at, [])
  {
  }

  /** A write described byte by byte. */
  lemma WrittenAtPointwise(before: seq<byte>, after: seq<byte>, at: nat, chunk: seq<byte>)
    requires |after| == |before| && at + |chunk| <= |before|
    requires forall j :: 0 <= j < |after| ==> after[j] == if at <= j < at + |chunk| then chunk[j - at] else before[j]
    ensures WrittenAt(before, after, at, chunk)
  {
  }

  /** The bytes of a write can be read back at any slice of it. */
  lemma WrittenAtSlice(before: seq<byte>, after: seq<byte>, at: nat, chunk: seq<byte>, i: nat, j: nat)
    requires WrittenAt(before, after, at, chunk) && i <= j <= |chunk|
    ensures after[at + i..at + j] == chunk[i..j]
  {
    forall t | 0 <= t < j - i
      ensures after[at + i..at + j][t] == chunk[i..j][t]
    {
      assert after[at + i + t] == chunk[i + t];
    }
  }

  /** Bytes outside a write keep their values. */
  lemma WrittenAtOutside(before: seq<byte>, after: seq<byte>, at: nat, chunk: seq<byte>, lo: nat, hi: nat)
    requires WrittenAt(before, after, at, chunk) && lo <= hi <= |before|
    requires hi <= at || at + |chunk| <= lo
    ensures after[lo..hi] == before[lo..hi]
  {
    forall t | 0 <= t < hi - lo
      ensures after[lo..hi][t] == before[lo..hi][t]
    {
      assert after[lo + t] == before[lo + t];
    }
  }

  /** A slice after a write: the chunk itself, or untouched bytes. */
  lemma WrittenAtRange(before: seq<byte>, after: seq<byte>, at: nat, chunk: seq<byte>, lo: nat, hi: nat)
    requires WrittenAt(before, after, at, chunk) && lo <= hi <= |before|
    requires hi <= at || at + |chunk| <= lo || (lo == at && hi == at + |chunk|)
    ensures after[lo..hi] == if lo == at && hi == at + |chunk| then chunk else before[lo..hi]
  {
    if lo == at && hi == at + |chunk| {
      WrittenAtSlice(before, after, at, chunk, 0, |chunk|);
    } else {
      WrittenAtOutside(before, after, at, chunk, lo, hi);
    }
  }

  /** A write read back byte by byte. */
  lemma WrittenAtBytes(before: seq<byte>, after: seq<byte>, at: nat, chunk: seq<byte>)
    requires WrittenAt(before, after, at, chunk)
    ensures |after| == |before|
    ensures forall j :: 0 <= j < |after| ==> after[j] == if at <= j < at + |chunk| then chunk[j - at] else before[j]
  {
  }

  /** The same write, the chunk named differently. */
  lemma WrittenAtChunk(before: seq<byte>, after: seq<byte>, at: nat, chunk: seq<byte>, same: seq<byte>)
    requires WrittenAt(before, after, at, chunk) && chunk == same
    ensures WrittenAt(before, after, at, same)
  {
  }

  /** Two writes side by side are one write of both chunks. */
  lemma WrittenAtThen(a: seq<byte>, b: seq<byte>, c: seq<byte>, at: nat, x: seq<byte>, y: seq<byte>)
    requires WrittenAt(a, b, at, x) && WrittenAt(b, c, at + |x|, y)
    ensures WrittenAt(a, c, at, x + y)
  {
  }

  /**
   * The shared shape of every TryReadFrom: fail with a zeroed value and the
   * index untouched when fewer than `width` bytes remain, otherwise take the
   * next `width` bytes one by one (data[index++]) and construct from them.
   */
  method ReadBlock(data: array<byte>, index: nat, width: nat, littleEndian: bool)
    returns (ok: bool, mem: seq<byte>, next: nat)
    ensures ok <==> index + width <= data.Length
    ensures |mem| == width
    ensures ok ==> next == index + width && mem == FromWire(data[index..index + width], littleEndian)
    ensures !ok ==> next == index && mem == Zeros(width)
  {
    if index + width > data.Length {
      return false, Zeros(width), index;
    }
    var wire: seq<byte> := [];
    next := index;
    while next < index + width
      invariant index <= next <= index + width
      invariant wire == data[index..next]
    {
      wire := wire + [data[next]];
      next := next + 1;
    }
    return true, FromWire(wire, littleEndian), next;
  }

  /**
   * The shared shape of every TryWriteTo: fail without writing when fewer
   * than |mem| bytes remain, otherwise store the wire bytes one by one
   * (data[index++]) and nothing else.
   */
  method WriteBlock(mem: seq<byte>, littleEndian: bool, data: array<byte>, index: nat)
    returns (ok: bool, next: nat)
    modifies data
    ensures ok <==> index + |mem| <= data.Length
    ensures ok ==> next == index + |mem| && WrittenAt(old(data[..]), data[..], index, ToWire(mem, littleEndian))
    ensures !ok ==> next == index && data[..] == old(data[..])
  {
    if index + |mem| > data.Length {
      return false, index;
    }
    var wire := ToWire(mem, littleEndian);
    next := index;
    while next < index + |wire|
      invariant index <= next <= index + |wire|
      invariant forall j :: 0 <= j < data.Length ==>
        data[j] == (if index <= j < next then wire[j - index] else old(data[j]))
    {
      data[next] := wire[next - index];
      next := next + 1;
    }
    ok := true;
    assert data[..] == old(data[..index]) + wire + old(data[index + |wire|..]);
  }
}

/** FourByteOscData: int, float, char, color and MIDI arguments. */
module FourByteOscData {
  import opened Bytes
  import OscDataBlock

  const ByteCount: nat := 4

  /** The bytes _b0.._b3 in field order. */
  type Data = m: seq<byte> | |m| == 4 witness [0, 0, 0, 0]

  /** The byte constructor, given the bytes in wire order. */
  function FromBytes(wire: seq<byte>, littleEndian: bool): (d: Data)
    requires |wire| == ByteCount
    ensures OscDataBlock.ToWire(d, littleEndian) == wire
    ensures littleEndian ==> d[0] == wire[3] && d[3] == wire[0]
  {
    OscDataBlock.WireRoundTrip(wire, littleEndian);
    OscDataBlock.FromWire(wire, littleEndian)
  }

  /** intValue: the four bytes read in host byte order, two's complement. */
  function IntValue(d: Data, littleEndian: bool): int32
  {
    IntFromWire(OscDataBlock.ToWire(d, littleEndian))
  }

  /** The int a big-endian wire group carries. */
  function IntFromWire(wire: seq<byte>): int32
    requires |wire| == ByteCount
  {
    assert Pow256(4) == TWO_32;
    Signed32(BigEndianValue(wire))
  }

  /** Bytes read from the wire give the big-endian int on either host. */
  lemma IntValueFromBytes(wire: seq<byte>, littleEndian: bool)
    requires |wire| == ByteCount
    ensures IntValue(FromBytes(wire, littleEndian), littleEndian) == IntFromWire(wire)
  {
  }

  /** The int constructor: the value laid out in host byte order. */
  function FromInt(v: int32, littleEndian: bool): (d: Data)
    ensures IntValue(d, littleEndian) == v
    ensures OscDataBlock.ToWire(d, littleEndian) == BigEndian(Unsigned32(v), 4)
  {
    var u := Unsigned32(v);
    var be := BigEndian(u, 4);
    BigEndianRoundTrip(u, 4);
    assert Pow256(4) == TWO_32;
    assert BigEndianValue(be) == u by {
      ModOfSum(u, TWO_32, 0, u);
    }
    OscDataBlock.WireRoundTrip(be, littleEndian);
    OscDataBlock.FromWire(be, littleEndian)
  }

  /**
   * The char constructor as written: the code is first cast to a byte
   * (keeping only its low eight bits) and only then compared with 127.
   */
  function FromChar(c: char): (d: Data)
    ensures d[1] == 0 && d[2] == 0 && d[3] == 0
    ensures d[0] < 128
    ensures (c as int) < 128 ==> d[0] == c as int
    ensures (c as int) % 256 > 127 ==> d[0] == 63
  {
    var b := (c as int) % 256;
    [if b > 127 then 63 else b, 0, 0, 0]
  }

  /** charValue: _b0 as a character. */
  function CharValue(d: Data): (c: char)
    ensures c as int == d[0]
  {
    d[0] as char
  }

  /** A code above 127 whose low byte is ASCII is not mapped to '?'. */
  lemma FromCharTruncates()
    ensures CharValue(FromChar('Ł')) == 'A'
    ensures CharValue(FromAsciiChar('Ł', true)) == '?'
  {
  }

  /**
   * The char constructor as evidently intended: the ASCII code (or '?') as
   * an int, so that the wire carries it big-endian in the last byte.
   */
  function FromAsciiChar(c: char, littleEndian: bool): (d: Data)
    ensures CharValueOf(d, littleEndian) == if (c as int) < 128 then c else '?'
    ensures OscDataBlock.ToWire(d, littleEndian) == [0, 0, 0, AsciiByte(c)]
  {
    var d := FromInt(AsciiByte(c), littleEndian);
    assert BigEndian(AsciiByte(c), 4) == [0, 0, 0, AsciiByte(c)];
    OscDataBlock.MemRoundTrip(d, littleEndian);
    d
  }

  /** The character in the low-order byte of the int value. */
  function CharValueOf(d: Data, littleEndian: bool): char
  {
    (if littleEndian then d[0] else d[3]) as char
  }

  /**
   * On a big-endian host the char constructor sends the code in the first
   * wire byte, and charValue reads the first wire byte of what arrives, so
   * a character sent as an OSC int reads back as NUL.
   */
  lemma FromCharBigEndianHost()
    ensures OscDataBlock.ToWire(FromChar('a'), false) == [97, 0, 0, 0]
    ensures OscDataBlock.ToWire(FromAsciiChar('a', false), false) == [0, 0, 0, 97]
    ensures CharValue(FromBytes([0, 0, 0, 97], false)) == '\0'
    ensures CharValueOf(FromBytes([0, 0, 0, 97], false), false) == 'a'
  {
  }

  method TryReadFrom(data: array<byte>, index: nat, littleEndian: bool)
    returns (ok: bool, value: Data, next: nat)
    ensures ok <==> index + ByteCount <= data.Length
    ensures ok ==> next == index + ByteCount && value == FromBytes(data[index..index + ByteCount], littleEndian)
    ensures !ok ==> next == index && value == Zeros(ByteCount)
  {
    var mem;
    ok, mem, next := OscDataBlock.ReadBlock(data, index, ByteCount, littleEndian);
    value := mem;
  }

  method TryWriteTo(value: Data, littleEndian: bool, data: array<byte>, index: nat)
    returns (ok: bool, next: nat)
    modifies data
    ensures ok <==> index + ByteCount <= data.Length
    ensures ok ==> next == index + ByteCount &&
                   OscDataBlock.WrittenAt(old(data[..]), data[..], index, OscDataBlock.ToWire(value, littleEndian))
    ensures !ok ==> next == index && data[..] == old(data[..])
  {
    ok, next := OscDataBlock.WriteBlock(value, littleEndian, data, index);
  }

  /** Int round trip: what FourByteOscData(v) writes reads back as v, on either host. */
  lemma IntRoundTrip(v: int32, littleEndian: bool)
    ensures IntValue(FromBytes(OscDataBlock.ToWire(FromInt(v, littleEndian), littleEndian), littleEndian), littleEndian) == v
  {
    OscDataBlock.MemRoundTrip(FromInt(v, littleEndian), littleEndian);
  }

  /** The wire form of an int does not depend on the host: big-endian on both. */
  lemma IntWireHostIndependent(v: int32)
    ensures OscDataBlock.ToWire(FromInt(v, true), true) == OscDataBlock.ToWire(FromInt(v, false), false)
    ensures BigEndianValue(OscDataBlock.ToWire(FromInt(v, true), true)) == Unsigned32(v)
  {
    assert Pow256(4) == TWO_32;
    BigEndianRoundTrip(Unsigned32(v), 4);
  }
}

/** EightByteOscData: long, double, timetag and two-component vector arguments. */
module EightByteOscData {
  import opened Bytes
  import OscDataBlock

  const ByteCount: nat := 8

  /** The bytes _b0.._b7 in field order. */
  type Data = m: seq<byte> | |m| == 8 witness [0, 0, 0, 0, 0, 0, 0, 0]

  /** The byte constructor, given the bytes in wire order. */
  function FromBytes(wire: seq<byte>, littleEndian: bool): (d: Data)
    requires |wire| == ByteCount
    ensures OscDataBlock.ToWire(d, littleEndian) == wire
    ensures littleEndian ==> d[0] == wire[7] && d[7] == wire[0]
  {
    OscDataBlock.WireRoundTrip(wire, littleEndian);
    OscDataBlock.FromWire(wire, littleEndian)
  }

  /** The eight bytes read as an unsigned 64-bit value in host byte order. */
  function UnsignedValue(d: Data, littleEndian: bool): (u: nat)
    ensures u < TWO_64
  {
    assert Pow256(8) == TWO_64;
    BigEndianValue(OscDataBlock.ToWire(d, littleEndian))
  }

  /** An unsigned 64-bit pattern laid out in host byte order. */
  function FromUnsigned(u: nat, littleEndian: bool): (d: Data)
    requires u < TWO_64
    ensures UnsignedValue(d, littleEndian) == u
    ensures OscDataBlock.ToWire(d, littleEndian) == BigEndian(u, 8)
  {
    var be := BigEndian(u, 8);
    BigEndianRoundTrip(u, 8);
    assert Pow256(8) == TWO_64;
    assert BigEndianValue(be) == u by {
      ModOfSum(u, TWO_64, 0, u);
    }
    OscDataBlock.WireRoundTrip(be, littleEndian);
    OscDataBlock.FromWire(be, littleEndian)
  }

  /** longValue: two's complement of the host-order bytes. */
  function LongValue(d: Data, littleEndian: bool): int64
  {
    Signed64(UnsignedValue(d, littleEndian))
  }

  /** The long constructor. */
  function FromLong(v: int64, littleEndian: bool): (d: Data)
    ensures LongValue(d, littleEndian) == v
    ensures OscDataBlock.ToWire(d, littleEndian) == BigEndian(Unsigned64(v), 8)
  {
    FromUnsigned(Unsigned64(v), littleEndian)
  }

  method TryReadFrom(data: array<byte>, index: nat, littleEndian: bool)
    returns (ok: bool, value: Data, next: nat)
    ensures ok <==> index + ByteCount <= data.Length
    ensures ok ==> next == index + ByteCount && value == FromBytes(data[index..index + ByteCount], littleEndian)
    ensures !ok ==> next == index && value == Zeros(ByteCount)
  {
    var mem;
    ok, mem, next := OscDataBlock.ReadBlock(data, index, ByteCount, littleEndian);
    value := mem;
  }

  method TryWriteTo(value: Data, littleEndian: bool, data: array<byte>, index: nat)
    returns (ok: bool, next: nat)
    modifies data
    ensures ok <==> index + ByteCount <= data.Length
    ensures ok ==> next == index + ByteCount &&
                   OscDataBlock.WrittenAt(old(data[..]), data[..], index, OscDataBlock.ToWire(value, littleEndian))
    ensures !ok ==> next == index && data[..] == old(data[..])
  {
    ok, next := OscDataBlock.WriteBlock(value, littleEndian, data, index);
  }

  /** Long round trip: what EightByteOscData(v) writes reads back as v, on either host. */
  lemma LongRoundTrip(v: int64, littleEndian: bool)
    ensures LongValue(FromBytes(OscDataBlock.ToWire(FromLong(v, littleEndian), littleEndian), littleEndian), littleEndian) == v
  {
    OscDataBlock.MemRoundTrip(FromLong(v, littleEndian), littleEndian);
  }

  /** The wire form of a long is its big-endian encoding on either host. */
  lemma LongWireHostIndependent(v: int64)
    ensures OscDataBlock.ToWire(FromLong(v, true), true) == OscDataBlock.ToWire(FromLong(v, false), false)
    ensures BigEndianValue(OscDataBlock.ToWire(FromLong(v, true), true)) == Unsigned64(v)
  {
    assert Pow256(8) == TWO_64;
    BigEndianRoundTrip(Unsigned64(v), 8);
  }
}

/** TwelveByteOscData: three-component vectors, as raw bytes. */
module TwelveByteOscData {
  import opened Bytes
  import OscDataBlock

  const ByteCount: nat := 12

  type Data = m: seq<byte> | |m| == 12 witness Zeros(12)

  /** The byte constructor, given the bytes in wire order. */
  function FromBytes(wire: seq<byte>, littleEndian: bool): (d: Data)
    requires |wire| == ByteCount
    ensures OscDataBlock.ToWire(d, littleEndian) == wire
    ensures forall i :: 0 <= i < ByteCount ==> d[i] == if littleEndian then wire[ByteCount - 1 - i] else wire[i]
  {
    OscDataBlock.WireRoundTrip(wire, littleEndian);
    ReverseAll(wire);
    OscDataBlock.FromWire(wire, littleEndian)
  }

  method TryReadFrom(data: array<byte>, index: nat, littleEndian: bool)
    returns (ok: bool, value: Data, next: nat)
    ensures ok <==> index + ByteCount <= data.Length
    ensures ok ==> next == index + ByteCount && value == FromBytes(data[index..index + ByteCount], littleEndian)
    ensures !ok ==> next == index && value == Zeros(ByteCount)
  {
    var mem;
    ok, mem, next := OscDataBlock.ReadBlock(data, index, ByteCount, littleEndian);
    value := mem;
  }

  method TryWriteTo(value: Data, littleEndian: bool, data: array<byte>, index: nat)
    returns (ok: bool, next: nat)
    modifies data
    ensures ok <==> index + ByteCount <= data.Length
    ensures ok ==> next == index + ByteCount &&
                   OscDataBlock.WrittenAt(old(data[..]), data[..], index, OscDataBlock.ToWire(value, littleEndian))
    ensures !ok ==> next == index && data[..] == old(data[..])
  {
    ok, next := OscDataBlock.WriteBlock(value, littleEndian, data, index);
  }

  /** Reading back what TryWriteTo wrote restores the same twelve bytes. */
  lemma ReadAfterWrite(value: Data, littleEndian: bool)
    ensures FromBytes(OscDataBlock.ToWire(value, littleEndian), littleEndian) == value
  {
    OscDataBlock.MemRoundTrip(value, littleEndian);
  }
}

/** SixteenByteOscData: four-component vectors, quaternions and rects, as raw bytes. */
module SixteenByteOscData {
  import opened Bytes
  import OscDataBlock

  const ByteCount: nat := 16

  type Data = m: seq<byte> | |m| == 16 witness Zeros(16)

  /** The byte constructor, given the bytes in wire order. */
  function FromBytes(wire: seq<byte>, littleEndian: bool): (d: Data)
    requires |wire| == ByteCount
    ensures OscDataBlock.ToWire(d, littleEndian) == wire
    ensures forall i :: 0 <= i < ByteCount ==> d[i] == if littleEndian then wire[ByteCount - 1 - i] else wire[i]
  {
    OscDataBlock.WireRoundTrip(wire, littleEndian);
    ReverseAll(wire);
    OscDataBlock.FromWire(wire, littleEndian)
  }

  method TryReadFrom(data: array<byte>, index: nat, littleEndian: bool)
    returns (ok: bool, value: Data, next: nat)
    ensures ok <==> index + ByteCount <= data.Length
    ensures ok ==> next == index + ByteCount && value == FromBytes(data[index..index + ByteCount], littleEndian)
    ensures !ok ==> next == index && value == Zeros(ByteCount)
  {
    var mem;
    ok, mem, next := OscDataBlock.ReadBlock(data, index, ByteCount, littleEndian);
    value := mem;
  }

  method TryWriteTo(value: Data, littleEndian: bool, data: array<byte>, index: nat)
    returns (ok: bool, next: nat)
    modifies data
    ensures ok <==> index + ByteCount <= data.Length
    ensures ok ==> next == index + ByteCount &&
                   OscDataBlock.WrittenAt(old(data[..]), data[..], index, OscDataBlock.ToWire(value, littleEndian))
    ensures !ok ==> next == index && data[..] == old(data[..])
  {
    ok, next := OscDataBlock.WriteBlock(value, littleEndian, data, index);
  }

  /** Reading back what TryWriteTo wrote restores the same sixteen bytes. */
  lemma ReadAfterWrite(value: Data, littleEndian: bool)
    ensures FromBytes(OscDataBlock.ToWire(value, littleEndian), littleEndian) == value
  {
    OscDataBlock.MemRoundTrip(value, littleEndian);
  }
}

/** SixtyfourByteOscData: 4x4 matrices, as raw bytes. */
module SixtyfourByteOscData {
  import opened Bytes
  import OscDataBlock

  const ByteCount: nat := 64

  type Data = m: seq<byte> | |m| == 64 witness Zeros(64)

  /** The byte constructor, given the bytes in wire order. */
  function FromBytes(wire: seq<byte>, littleEndian: bool): (d: Data)
    requires |wire| == ByteCount
    ensures OscDataBlock.ToWire(d, littleEndian) == wire
    ensures forall i :: 0 <= i < ByteCount ==> d[i] == if littleEndian then wire[ByteCount - 1 - i] else wire[i]
  {
    OscDataBlock.WireRoundTrip(wire, littleEndian);
    ReverseAll(wire);
    OscDataBlock.FromWire(wire, littleEndian)
  }

  method TryReadFrom(data: array<byte>, index: nat, littleEndian: bool)
    returns (ok: bool, value: Data, next: nat)
    ensures ok <==> index + ByteCount <= data.Length
    ensures ok ==> next == index + ByteCount && value == FromBytes(data[index..index + ByteCount], littleEndian)
    ensures !ok ==> next == index && value == Zeros(ByteCount)
  {
    var mem;
    ok, mem, next := OscDataBlock.ReadBlock(data, index, ByteCount, littleEndian);
    value := mem;
  }

  method TryWriteTo(value: Data, littleEndian: bool, data: array<byte>, index: nat)
    returns (ok: bool, next: nat)
    modifies data
    ensures ok <==> index + ByteCount <= data.Length
    ensures ok ==> next == index + ByteCount &&
                   OscDataBlock.WrittenAt(old(data[..]), data[..], index, OscDataBlock.ToWire(value, littleEndian))
    ensures !ok ==> next == index && data[..] == old(data[..])
  {
    ok, next := OscDataBlock.WriteBlock(value, littleEndian, data, index);
  }

  /** Reading back what TryWriteTo wrote restores the same sixty-four bytes. */
  lemma ReadAfterWrite(value: Data, littleEndian: bool)
    ensures FromBytes(OscDataBlock.ToWire(value, littleEndian), littleEndian) == value
  {
    OscDataBlock.MemRoundTrip(value, littleEndian);
  }
}
