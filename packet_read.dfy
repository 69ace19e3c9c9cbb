/**
 * OscPacketRead: reading packets back from a byte buffer.  OscPacket.TryReadFrom
 * dispatches on the first byte; OscBundle.TryReadFrom checks the header and
 * then reads one length-prefixed child after another.  The reading is given
 * as functions on values (ReadPacket, ReadBundle, ReadChildren) and as the
 * methods over an array that the functions specify.  Two versions of the
 * bundle reader exist: the current one (Runtime) and the older one kept in
 * the library's Base tree (Legacy), which differs in three places.
 */
module OscPacketRead {
  import opened Bytes
  import opened Wrappers
  import opened OscTypes
  import opened OscPackets
  import opened OscMessageParse
  import FourByteOscData
  import EightByteOscData
  import OscMessageReader

  /** Which copy of the library reads. */
  datatype Version = Runtime | Legacy

  /**
   * The outcome of a read: a packet and the index after it; a refusal
   * (TryReadFrom returns false) and the index it left behind; or an
   * exception out of the reader.
   */
  datatype PacketRead = Got(packet: Packet, next: nat) | Missed(next: nat) | Throws

  /* ---- the reading, on values ---- */

  /**
   * OscPacket.TryReadFrom: nothing to read at or past `byteCount`; reading
   * the first byte past the buffer throws; '#' starts a bundle and '/' a
   * message; any other byte is refused (the current version steps over it).
   */
  function ReadPacket(v: Version, data: seq<byte>, index: nat, byteCount: int): (r: PacketRead)
    ensures r.Got? ==> index < r.next
    ensures r.Missed? ==> index <= r.next
    decreases |data| - index, 4
  {
    if index >= byteCount then Missed(index)
    else if index >= |data| then Throws
    else Dispatch(v, data, index, byteCount)
  }

  /** The switch of OscPacket.TryReadFrom on the byte at `index`. */
  function Dispatch(v: Version, data: seq<byte>, index: nat, byteCount: int): (r: PacketRead)
    requires index < |data|
    ensures r.Got? ==> index < r.next
    ensures r.Missed? ==> index <= r.next
    decreases |data| - index, 3
  {
    if data[index] == BUNDLE_PREFIX_BYTE then ReadBundle(v, data, index, byteCount)
    else if data[index] == ADDRESS_PREFIX_BYTE then ReadMessageAt(data, index)
    else Missed(if v == Runtime then index + 1 else index)
  }

  /** OscMessage.TryReadFrom as a packet read. */
  function ReadMessageAt(data: seq<byte>, index: nat): (r: PacketRead)
    ensures r.Got? ==> index < r.next && r.packet.MessagePacket?
    ensures r.Missed? ==> index <= r.next
  {
    match ParseMessage(data, index)
    case Parsed(address, _, _, next) =>
      ParsedShape(data, index);
      Got(MessagePacket(address, ParsedArgs(data, index)), next)
    case Rejected(next) =>
      RejectedAdvances(data, index);
      Missed(next)
    case Thrown => Throws
  }

  /** A refused message leaves the index where it started or further on. */
  lemma RejectedAdvances(data: seq<byte>, index: nat)
    requires ParseMessage(data, index).Rejected?
    ensures index <= ParseMessage(data, index).next
  {
  }

  /**
   * OscBundle.TryReadFrom: at least the 16 header bytes must remain in the
   * buffer; the prefix must be "#bundle" and its NUL, and the read stops
   * just after the first byte that differs; then the time tag and the
   * children.
   */
  function ReadBundle(v: Version, data: seq<byte>, index: nat, byteCount: int): (r: PacketRead)
    requires index < |data|
    ensures r.Got? ==> index < r.next && r.packet.BundlePacket?
    ensures r.Missed? ==> index <= r.next
    decreases |data| - index, 2
  {
    if |data| - index < BUNDLE_HEADER_SIZE then Missed(index)
    else
      var k := PrefixMismatch(data, index, 0);
      if k < |BUNDLE_PREFIX_BYTES| then Missed(index + k + 1)
      else ReadChildren(v, data, index + BUNDLE_HEADER_SIZE, byteCount, TimeTagAt(data, index + |BUNDLE_PREFIX_BYTES|), [])
  }

  /**
   * The children of a bundle, from `at` on, after the ones already `got`.
   * Reading stops at `byteCount` or when no length fits.  A length that
   * reaches past the buffer refuses the bundle.  The current version also
   * stops at a zero length, reads each child up to its own end, and refuses
   * the bundle when a child is refused; the older one reads each child up
   * to the bundle's `byteCount` and skips a refused child.
   */
  function ReadChildren(v: Version, data: seq<byte>, at: nat, byteCount: int, timeTag: TimeTagValue,
                        got: seq<Option<Packet>>): (r: PacketRead)
    ensures r.Got? ==> at <= r.next && r.packet.BundlePacket?
    ensures r.Missed? ==> at <= r.next
    decreases |data| - at, 1
  {
    if at >= byteCount || at + 4 > |data| then Got(BundlePacket(timeTag, got), at)
    else ReadChild(v, data, at, byteCount, timeTag, got)
  }

  /** One turn of the children loop: the length at `at`, then the child after it, then the children after that. */
  function ReadChild(v: Version, data: seq<byte>, at: nat, byteCount: int, timeTag: TimeTagValue,
                     got: seq<Option<Packet>>): (r: PacketRead)
    requires at + 4 <= |data|
    ensures r.Got? ==> at <= r.next && r.packet.BundlePacket?
    ensures r.Missed? ==> at <= r.next
    decreases |data| - at, 0
  {
    var size := FourByteOscData.IntFromWire(data[at..at + 4]);
    var end := Wrap32(at + 4 + size);
    if v == Runtime && size == 0 then Got(BundlePacket(timeTag, got), at + 4)
    else if end > |data| then Missed(at + 4)
    else
      match ReadPacket(v, data, at + 4, ChildCount(v, end, byteCount))
      case Got(c, next) => ReadChildren(v, data, next, byteCount, timeTag, got + [Some(c)])
      case Missed(next) => if v == Runtime then Missed(next) else ReadChildren(v, data, next, byteCount, timeTag, got)
      case Throws => Throws
  }

  /** How far a child may be read: to its own end in the current version, to the bundle's end in the older one. */
  function ChildCount(v: Version, end: int, byteCount: int): int
  {
    if v == Runtime then end else byteCount
  }

  /** ReadAndValidatePrefix: the offset of the first prefix byte that differs from "#bundle\0", from i on. */
  function PrefixMismatch(data: seq<byte>, index: nat, i: nat): (k: nat)
    requires index + |BUNDLE_PREFIX_BYTES| <= |data| && i <= |BUNDLE_PREFIX_BYTES|
    ensures i <= k <= |BUNDLE_PREFIX_BYTES|
    decreases |BUNDLE_PREFIX_BYTES| - i
  {
    if i == |BUNDLE_PREFIX_BYTES| || data[index + i] != BUNDLE_PREFIX_BYTES[i] then i
    else PrefixMismatch(data, index, i + 1)
  }

  /** The mismatch is the first differing byte, and there is none exactly when the prefix is there. */
  lemma {:induction false} PrefixMismatchFirst(data: seq<byte>, index: nat, i: nat)
    requires index + |BUNDLE_PREFIX_BYTES| <= |data| && i <= |BUNDLE_PREFIX_BYTES|
    ensures var k := PrefixMismatch(data, index, i);
      && (forall j :: i <= j < k ==> data[index + j] == BUNDLE_PREFIX_BYTES[j])
      && (k < |BUNDLE_PREFIX_BYTES| ==> data[index + k] != BUNDLE_PREFIX_BYTES[k])
    decreases |BUNDLE_PREFIX_BYTES| - i
  {
    if i < |BUNDLE_PREFIX_BYTES| && data[index + i] == BUNDLE_PREFIX_BYTES[i] {
      PrefixMismatchFirst(data, index, i + 1);
    }
  }

  /** The prefix check passes exactly when the eight bytes are "#bundle\0". */
  lemma PrefixMatches(data: seq<byte>, index: nat)
    requires index + |BUNDLE_PREFIX_BYTES| <= |data|
    ensures PrefixMismatch(data, index, 0) == |BUNDLE_PREFIX_BYTES|
        <==> data[index..index + |BUNDLE_PREFIX_BYTES|] == BUNDLE_PREFIX_BYTES
  {
    PrefixMismatchFirst(data, index, 0);
    var k := PrefixMismatch(data, index, 0);
    if k < |BUNDLE_PREFIX_BYTES| {
      assert data[index..index + |BUNDLE_PREFIX_BYTES|][k] != BUNDLE_PREFIX_BYTES[k];
    }
  }

  /** The time tag after the prefix, as the 64-bit NTP value its eight big-endian bytes carry. */
  function TimeTagAt(data: seq<byte>, at: nat): (t: TimeTagValue)
    requires at + EightByteOscData.ByteCount <= |data|
  {
    assert Pow256(8) == TWO_64;
    BigEndianValue(data[at..at + 8])
  }

  /* ---- the reading, over the buffer ---- */

  /** ReadAndValidatePrefix: compare the eight prefix bytes, stopping just after the first that differs. */
  method ReadAndValidatePrefix(data: array<byte>, index: nat) returns (ok: bool, next: nat)
    requires index + |BUNDLE_PREFIX_BYTES| <= data.Length
    ensures ok <==> data[index..index + |BUNDLE_PREFIX_BYTES|] == BUNDLE_PREFIX_BYTES
    ensures ok ==> next == index + |BUNDLE_PREFIX_BYTES|
    ensures !ok ==> next == index + PrefixMismatch(data[..], index, 0) + 1
  {
    PrefixMatches(data[..], index);
    var i := 0;
    while i < |BUNDLE_PREFIX_BYTES|
      invariant i <= |BUNDLE_PREFIX_BYTES|
      invariant PrefixMismatch(data[..], index, 0) == PrefixMismatch(data[..], index, i)
    {
      if data[index + i] != BUNDLE_PREFIX_BYTES[i] {
        return false, index + i + 1;
      }
      i := i + 1;
    }
    return true, index + i;
  }

  /** OscPacket.TryReadFrom over the buffer. */
  method TryReadPacket(v: Version, data: array<byte>, index: nat, byteCount: int, littleEndian: bool)
    returns (r: PacketRead)
    requires data.Length <= MAX_ARRAY_LENGTH
    ensures r == ReadPacket(v, data[..], index, byteCount)
    decreases data.Length - index, 2
  {
    if index >= byteCount {
      return Missed(index);
    }
    if index >= data.Length {
      return Throws;
    }
    var prefix := data[index];
    if prefix == BUNDLE_PREFIX_BYTE {
      r := TryReadBundle(v, data, index, byteCount, littleEndian);
    } else if prefix == ADDRESS_PREFIX_BYTE {
      var m := OscMessageReader.ReadMessage(data, index, littleEndian);
      if m.Parsed? {
        r := Got(MessagePacket(m.address, ParsedArgs(data[..], index)), m.next);
      } else if m.Rejected? {
        r := Missed(m.next);
      } else {
        r := Throws;
      }
    } else {
      r := Missed(if v == Runtime then index + 1 else index);
    }
  }

  /** OscBundle.TryReadFrom over the buffer: the header, then a loop over the children. */
  method TryReadBundle(v: Version, data: array<byte>, index: nat, byteCount: int, littleEndian: bool)
    returns (r: PacketRead)
    requires index < data.Length <= MAX_ARRAY_LENGTH
    ensures r == ReadBundle(v, data[..], index, byteCount)
    decreases data.Length - index, 1
  {
    if data.Length - index < BUNDLE_HEADER_SIZE {
      return Missed(index);
    }
    ghost var bytes := data[..];
    var prefixOk, at := ReadAndValidatePrefix(data, index);
    if !prefixOk {
      PrefixRefused(v, bytes, index, byteCount);
      return Missed(at);
    }
    var tagOk, tagData;
    tagOk, tagData, at := EightByteOscData.TryReadFrom(data, at, littleEndian);
    var timeTag: TimeTagValue := EightByteOscData.UnsignedValue(tagData, littleEndian);
    assert timeTag == TimeTagAt(bytes, index + |BUNDLE_PREFIX_BYTES|);
    HeaderRead(v, bytes, index, byteCount, timeTag);
    r := ReadChildrenFrom(v, data, at, byteCount, timeTag, littleEndian);
  }

  /** The loop of OscBundle.TryReadFrom over the children, from `start` on. */
  method ReadChildrenFrom(v: Version, data: array<byte>, start: nat, byteCount: int, timeTag: TimeTagValue, littleEndian: bool)
    returns (r: PacketRead)
    requires data.Length <= MAX_ARRAY_LENGTH
    ensures r == ReadChildren(v, data[..], start, byteCount, timeTag, [])
    decreases data.Length - start, 0
  {
    ghost var bytes := data[..];
    ghost var result := ReadChildren(v, bytes, start, byteCount, timeTag, []);
    var at := start;
    var got: seq<Option<Packet>> := [];
    while at < byteCount
      invariant start <= at
      invariant ReadChildren(v, bytes, at, byteCount, timeTag, got) == result
      decreases data.Length - at
    {
      var sizeOk, sizeData, afterSize := FourByteOscData.TryReadFrom(data, at, littleEndian);
      if !sizeOk {
        break;
      }
      FourByteOscData.IntValueFromBytes(bytes[at..at + 4], littleEndian);
      var size := FourByteOscData.IntValue(sizeData, littleEndian);
      if v == Runtime && size == 0 {
        ChildrenEmpty(v, bytes, at, byteCount, timeTag, got);
        return Got(BundlePacket(timeTag, got), afterSize);
      }
      var end := Wrap32(afterSize + size);
      if end > data.Length {
        ChildrenOverrun(v, bytes, at, byteCount, timeTag, got, size);
        return Missed(afterSize);
      }
      var child := TryReadPacket(v, data, afterSize, ChildCount(v, end, byteCount), littleEndian);
      if child.Got? {
        ChildGot(v, bytes, at, byteCount, timeTag, got, size, afterSize, child);
        got := got + [Some(child.packet)];
        at := child.next;
      } else if child.Missed? && v == Legacy {
        ChildSkipped(bytes, at, byteCount, timeTag, got, size, afterSize, child);
        at := child.next;
      } else {
        ChildFailed(v, bytes, at, byteCount, timeTag, got, size, afterSize, child);
        return child;
      }
    }
    ChildrenStop(v, bytes, at, byteCount, timeTag, got);
    r := Got(BundlePacket(timeTag, got), at);
  }

  /* ---- one step of the children loop ---- */

  /** Past a good header the bundle read is the read of its children. */
  lemma HeaderRead(v: Version, data: seq<byte>, index: nat, byteCount: int, timeTag: TimeTagValue)
    requires index + BUNDLE_HEADER_SIZE <= |data|
    requires data[index..index + |BUNDLE_PREFIX_BYTES|] == BUNDLE_PREFIX_BYTES
    requires timeTag == TimeTagAt(data, index + |BUNDLE_PREFIX_BYTES|)
    ensures ReadBundle(v, data, index, byteCount) == ReadChildren(v, data, index + BUNDLE_HEADER_SIZE, byteCount, timeTag, [])
  {
    PrefixMatches(data, index);
  }

  /** A bad prefix refuses the bundle just after its first differing byte. */
  lemma PrefixRefused(v: Version, data: seq<byte>, index: nat, byteCount: int)
    requires index + BUNDLE_HEADER_SIZE <= |data|
    requires data[index..index + |BUNDLE_PREFIX_BYTES|] != BUNDLE_PREFIX_BYTES
    ensures ReadBundle(v, data, index, byteCount) == Missed(index + PrefixMismatch(data, index, 0) + 1)
  {
    PrefixMatches(data, index);
  }

  /** The loop ends at `byteCount` or where no length fits. */
  lemma ChildrenStop(v: Version, data: seq<byte>, at: nat, byteCount: int, timeTag: TimeTagValue, got: seq<Option<Packet>>)
    requires at >= byteCount || at + 4 > |data|
    ensures ReadChildren(v, data, at, byteCount, timeTag, got) == Got(BundlePacket(timeTag, got), at)
  {
  }

  /** The current version stops after a zero length. */
  lemma ChildrenEmpty(v: Version, data: seq<byte>, at: nat, byteCount: int, timeTag: TimeTagValue, got: seq<Option<Packet>>)
    requires v == Runtime && at < byteCount && at + 4 <= |data| && FourByteOscData.IntFromWire(data[at..at + 4]) == 0
    ensures ReadChildren(v, data, at, byteCount, timeTag, got) == Got(BundlePacket(timeTag, got), at + 4)
  {
  }

  /** A length that reaches past the buffer refuses the bundle. */
  lemma ChildrenOverrun(v: Version, data: seq<byte>, at: nat, byteCount: int, timeTag: TimeTagValue,
                        got: seq<Option<Packet>>, size: int32)
    requires at < byteCount && at + 4 <= |data| && size == FourByteOscData.IntFromWire(data[at..at + 4])
    requires !(v == Runtime && size == 0) && Wrap32(at + 4 + size) > |data|
    ensures ReadChildren(v, data, at, byteCount, timeTag, got) == Missed(at + 4)
  {
  }

  /** A child that is read is added, and the loop goes on after it. */
  lemma ChildGot(v: Version, data: seq<byte>, at: nat, byteCount: int, timeTag: TimeTagValue,
                 got: seq<Option<Packet>>, size: int32, from: nat, child: PacketRead)
    requires at < byteCount && at + 4 <= |data| && size == FourByteOscData.IntFromWire(data[at..at + 4])
    requires !(v == Runtime && size == 0) && Wrap32(at + 4 + size) <= |data|
    requires from == at + 4 && child == ReadPacket(v, data, from, ChildCount(v, Wrap32(from + size), byteCount))
    requires child.Got?
    ensures ReadChildren(v, data, at, byteCount, timeTag, got)
         == ReadChildren(v, data, child.next, byteCount, timeTag, got + [Some(child.packet)])
  {
  }

  /** The older version skips a child it cannot read and goes on where that read stopped. */
  lemma ChildSkipped(data: seq<byte>, at: nat, byteCount: int, timeTag: TimeTagValue,
                     got: seq<Option<Packet>>, size: int32, from: nat, child: PacketRead)
    requires at < byteCount && at + 4 <= |data| && size == FourByteOscData.IntFromWire(data[at..at + 4])
    requires Wrap32(at + 4 + size) <= |data|
    requires from == at + 4 && child == ReadPacket(Legacy, data, from, ChildCount(Legacy, Wrap32(from + size), byteCount))
    requires child.Missed?
    ensures ReadChildren(Legacy, data, at, byteCount, timeTag, got) == ReadChildren(Legacy, data, child.next, byteCount, timeTag, got)
  {
  }

  /** The current version gives up the bundle with a child it cannot read; an exception ends both. */
  lemma ChildFailed(v: Version, data: seq<byte>, at: nat, byteCount: int, timeTag: TimeTagValue,
                    got: seq<Option<Packet>>, size: int32, from: nat, child: PacketRead)
    requires at < byteCount && at + 4 <= |data| && size == FourByteOscData.IntFromWire(data[at..at + 4])
    requires !(v == Runtime && size == 0) && Wrap32(at + 4 + size) <= |data|
    requires from == at + 4 && child == ReadPacket(v, data, from, ChildCount(v, Wrap32(from + size), byteCount))
    requires child.Throws? || (child.Missed? && v == Runtime)
    ensures ReadChildren(v, data, at, byteCount, timeTag, got) == child
  {
  }
}
