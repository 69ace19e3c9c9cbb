/**
 * OscBundles: the OscBundle class and the writing half of the packet
 * format.  TryWriteTo checks the whole bundle fits, writes the header,
 * then each non-null child after a 4-byte length it fills in once the
 * child is written, raising the time tag of every nested bundle that is
 * earlier than its parent's on the way.
 */
module OscBundles {
  import opened Bytes
  import opened Wrappers
  import opened OscTypes
  import opened OscMessageLayout
  import opened OscPackets
  import OscDataBlock
  import FourByteOscData
  import EightByteOscData
  import BlobOscData

  /** A write at `at + |x|` followed by one at `at` of |x| bytes is one write of both. */
  lemma WrittenAtBefore(a: seq<byte>, b: seq<byte>, c: seq<byte>, at: nat, x: seq<byte>, y: seq<byte>)
    requires OscDataBlock.WrittenAt(a, b, at + |x|, y) && OscDataBlock.WrittenAt(b, c, at, x)
    ensures OscDataBlock.WrittenAt(a, c, at, x + y)
  {
  }

  /**
   * TryWriteHeader: refuse, writing nothing, unless 16 bytes fit after
   * `index`; otherwise write "#bundle" and its NUL, then the time tag.
   */
  method TryWriteHeader(timeTag: TimeTagValue, data: array<byte>, index: nat, littleEndian: bool)
    returns (ok: bool, next: nat)
    modifies data
    ensures ok <==> index + BUNDLE_HEADER_SIZE <= data.Length
    ensures ok ==> next == index + BUNDLE_HEADER_SIZE
                   && OscDataBlock.WrittenAt(old(data[..]), data[..], index, BUNDLE_PREFIX_BYTES + BigEndian(timeTag, 8))
    ensures !ok ==> next == index && data[..] == old(data[..])
  {
    if index + BUNDLE_HEADER_SIZE > data.Length {
      return false, index;
    }
    BlobOscData.CopyBytes(BUNDLE_PREFIX_BYTES, data, index);
    ghost var copied := data[..];
    var written;
    written, next := EightByteOscData.TryWriteTo(EightByteOscData.FromUnsigned(timeTag, littleEndian), littleEndian, data, index + 8);
    OscDataBlock.WrittenAtThen(old(data[..]), copied, data[..], index, BUNDLE_PREFIX_BYTES, BigEndian(timeTag, 8));
    ok := true;
  }

  /** A child's length, written as FourByteOscData(packetByteCount) does. */
  method WriteLength(count: nat, data: array<byte>, at: nat, littleEndian: bool)
    requires count < 0x8000_0000 && at + 4 <= data.Length
    modifies data
    ensures OscDataBlock.WrittenAt(old(data[..]), data[..], at, BigEndian(count, 4))
  {
    var written, next := FourByteOscData.TryWriteTo(FourByteOscData.FromInt(count, littleEndian), littleEndian, data, at);
  }

  /**
   * TryWriteTo of a packet that its parent bundle, whose time tag is
   * `floor`, has just raised: a message writes its own bytes; a bundle
   * raises its time tag to `floor` when earlier, checks it fits, writes
   * its header and then its non-null children, each after its length.
   * Refuses, writing nothing, when the packet does not fit after `index`.
   */
  method WritePacket(p: Packet, floor: TimeTagValue, data: array<byte>, index: nat, littleEndian: bool)
    returns (ok: bool, next: nat)
    requires index % 4 == 0 && WellFormed(p) && data.Length <= MAX_ARRAY_LENGTH
    modifies data
    ensures ok <==> index + Size(p) <= data.Length
    ensures ok ==> next == index + Size(p) && OscDataBlock.WrittenAt(old(data[..]), data[..], index, Encode(RaisedUnder(p, floor)))
    ensures !ok ==> next == index && data[..] == old(data[..])
    decreases p, 2
  {
    if index + Size(p) > data.Length {
      return false, index;
    }
    RaisedSize(p, floor);
    if p.MessagePacket? {
      // OscMessage.TryWriteTo writes exactly these bytes from a 4-aligned index.
      BlobOscData.CopyBytes(MessageWire(p.address, p.args), data, index);
      return true, index + Size(p);
    }
    next := WriteBundle(p, floor, data, index, littleEndian);
    ok := true;
  }

  /** The bundle half of WritePacket, once the bundle is known to fit. */
  method WriteBundle(p: Packet, floor: TimeTagValue, data: array<byte>, index: nat, littleEndian: bool)
    returns (next: nat)
    requires p.BundlePacket? && index % 4 == 0 && WellFormed(p) && data.Length <= MAX_ARRAY_LENGTH
    requires index + Size(p) <= data.Length
    modifies data
    ensures next == index + Size(p) && OscDataBlock.WrittenAt(old(data[..]), data[..], index, Encode(RaisedUnder(p, floor)))
    decreases p, 1
  {
    RaisedSize(p, floor);
    ghost var q := RaisedUnder(p, floor);
    var top := Later(p.timeTag, floor);
    var headerOk;
    headerOk, next := TryWriteHeader(top, data, index, littleEndian);
    ghost var header := BUNDLE_PREFIX_BYTES + BigEndian(top, 8);
    var i := 0;
    while i < |p.packets|
      invariant i <= |p.packets|
      invariant next == index + BUNDLE_HEADER_SIZE + ChildrenSize(q, i)
      invariant OscDataBlock.WrittenAt(old(data[..]), data[..], index, header + ChildrenWire(q, i))
    {
      next := WriteEntry(p, floor, q, i, header, old(data[..]), data, index, next, littleEndian);
      i := i + 1;
    }
  }

  /** The i-th entry of a bundle being written: a non-null child after its length, a null one not at all. */
  method WriteEntry(p: Packet, floor: TimeTagValue, ghost q: Packet, i: nat, ghost header: seq<byte>, ghost start: seq<byte>,
                    data: array<byte>, index: nat, at: nat, littleEndian: bool)
    returns (next: nat)
    requires p.BundlePacket? && i < |p.packets| && q == RaisedUnder(p, floor) && WellFormed(p)
    requires index % 4 == 0 && |header| == BUNDLE_HEADER_SIZE && data.Length <= MAX_ARRAY_LENGTH
    requires index + Size(p) <= data.Length
    requires at == index + BUNDLE_HEADER_SIZE + ChildrenSize(q, i)
    requires OscDataBlock.WrittenAt(start, data[..], index, header + ChildrenWire(q, i))
    modifies data
    ensures next == index + BUNDLE_HEADER_SIZE + ChildrenSize(q, i + 1)
    ensures OscDataBlock.WrittenAt(start, data[..], index, header + ChildrenWire(q, i + 1))
    decreases p, 0
  {
    if p.packets[i].Some? {
      var c := p.packets[i].value;
      ChildFits(p, floor, q, i, c, index, data.Length);
      RaisedWellFormed(p, floor);
      ChildrenAligned(q, i);
      AlignedAfter(index, ChildrenSize(q, i));
      next := WriteChildAt(c, Later(p.timeTag, floor), header + ChildrenWire(q, i), start, data, index, at, littleEndian);
      ChildAppended(p, floor, q, i, c, header);
    } else {
      NullStep(p, floor, q, i);
      next := at;
    }
  }

  /** A child written after the bytes `done` that the packet's write has put at `index` so far. */
  method WriteChildAt(c: Packet, floor: TimeTagValue, ghost done: seq<byte>, ghost start: seq<byte>,
                      data: array<byte>, index: nat, at: nat, littleEndian: bool)
    returns (next: nat)
    requires at % 4 == 0 && WellFormed(c) && data.Length <= MAX_ARRAY_LENGTH && at + 4 + Size(c) <= data.Length
    requires at == index + |done| && OscDataBlock.WrittenAt(start, data[..], index, done)
    modifies data
    ensures next == at + 4 + Size(c)
    ensures OscDataBlock.WrittenAt(start, data[..], index, done + ChildWire(Some(c), Encode(RaisedUnder(c, floor))))
    decreases c, 4
  {
    ghost var before := data[..];
    next := WriteChild(c, floor, data, at, littleEndian);
    OscDataBlock.WrittenAtThen(start, before, data[..], index, done, ChildWire(Some(c), Encode(RaisedUnder(c, floor))));
  }

  /** A 4-aligned start plus the header and whole words stays 4-aligned. */
  lemma AlignedAfter(index: nat, k: nat)
    requires index % 4 == 0 && k % 4 == 0
    ensures (index + BUNDLE_HEADER_SIZE + k) % 4 == 0
  {
  }

  /**
   * One non-null child of a bundle being written: reserve four bytes,
   * write the child after them, then write the count of bytes it took
   * into them.
   */
  method WriteChild(c: Packet, floor: TimeTagValue, data: array<byte>, at: nat, littleEndian: bool)
    returns (next: nat)
    requires at % 4 == 0 && WellFormed(c) && data.Length <= MAX_ARRAY_LENGTH && at + 4 + Size(c) <= data.Length
    modifies data
    ensures next == at + 4 + Size(c)
    ensures OscDataBlock.WrittenAt(old(data[..]), data[..], at, ChildWire(Some(c), Encode(RaisedUnder(c, floor))))
    decreases c, 3
  {
    RaisedSize(c, floor);
    var childOk, childEnd := WritePacket(c, floor, data, at + 4, littleEndian);
    assert childOk;
    ghost var childBytes := Encode(RaisedUnder(c, floor));
    assert childEnd - (at + 4) == |childBytes|;
    ghost var mid := data[..];
    assert OscDataBlock.WrittenAt(old(data[..]), mid, at + 4, childBytes);
    WriteLength(childEnd - (at + 4), data, at, littleEndian);
    ghost var prefix := BigEndian(|childBytes|, 4);
    assert |prefix| == 4 && OscDataBlock.WrittenAt(mid, data[..], at, prefix);
    WrittenAtBefore(old(data[..]), mid, data[..], at, prefix, childBytes);
    next := childEnd;
  }

  /** A non-null child adds its length and its bytes to the raised bundle's children. */
  lemma ChildStep(p: Packet, floor: TimeTagValue, q: Packet, i: nat, c: Packet)
    requires p.BundlePacket? && i < |p.packets| && p.packets[i] == Some(c) && q == RaisedUnder(p, floor)
    ensures ChildrenSize(q, i + 1) == ChildrenSize(q, i) + 4 + Size(c)
    ensures ChildrenWire(q, i + 1) == ChildrenWire(q, i) + ChildWire(Some(c), Encode(RaisedUnder(c, q.timeTag)))
  {
    assert q.packets[i] == RaisedChild(p, i, q.timeTag);
    RaisedSize(c, q.timeTag);
  }

  /** A non-null child of a bundle that fits fits after the children before it. */
  lemma ChildFits(p: Packet, floor: TimeTagValue, q: Packet, i: nat, c: Packet, index: nat, length: nat)
    requires p.BundlePacket? && i < |p.packets| && p.packets[i] == Some(c) && q == RaisedUnder(p, floor)
    requires index + Size(p) <= length
    ensures index + BUNDLE_HEADER_SIZE + ChildrenSize(q, i) + 4 + Size(c) <= length
  {
    ChildStep(p, floor, q, i, c);
    ChildrenSizeGrows(q, i + 1, |q.packets|);
    RaisedSize(p, floor);
  }

  /** The bytes written so far, then a non-null child, are the header and one more of the raised children. */
  lemma ChildAppended(p: Packet, floor: TimeTagValue, q: Packet, i: nat, c: Packet, header: seq<byte>)
    requires p.BundlePacket? && i < |p.packets| && p.packets[i] == Some(c) && q == RaisedUnder(p, floor)
    ensures ChildrenSize(q, i + 1) == ChildrenSize(q, i) + 4 + Size(c)
    ensures (header + ChildrenWire(q, i)) + ChildWire(Some(c), Encode(RaisedUnder(c, q.timeTag)))
            == header + ChildrenWire(q, i + 1)
  {
    ChildStep(p, floor, q, i, c);
  }

  /** A null child adds nothing. */
  lemma NullStep(p: Packet, floor: TimeTagValue, q: Packet, i: nat)
    requires p.BundlePacket? && i < |p.packets| && p.packets[i].None? && q == RaisedUnder(p, floor)
    ensures ChildrenSize(q, i + 1) == ChildrenSize(q, i)
    ensures ChildrenWire(q, i + 1) == ChildrenWire(q, i)
  {
    assert q.packets[i] == RaisedChild(p, i, q.timeTag);
  }

  /** OscBundle: a time tag and a list of child packets, some of which may be null. */
  class OscBundle {
    var timeTag: TimeTagValue
    var packets: seq<Option<Packet>>

    /** The bundle as a packet value. */
    function AsPacket(): (p: Packet)
      reads this
      ensures p.BundlePacket? && p.timeTag == timeTag && p.packets == packets
    {
      BundlePacket(timeTag, packets)
    }

    /** `new OscBundle(timeTag)`: no children. */
    constructor(timeTag: TimeTagValue)
      ensures this.timeTag == timeTag && packets == []
    {
      this.timeTag := timeTag;
      packets := [];
    }

    /** Add: append a child, null or not. */
    method Add(packet: Option<Packet>)
      modifies this
      ensures packets == old(packets) + [packet] && timeTag == old(timeTag)
    {
      packets := packets + [packet];
    }

    /** Clear: no children, and the time tag reset. */
    method Clear()
      modifies this
      ensures packets == [] && timeTag == TIME_TAG_RESET
    {
      timeTag := TIME_TAG_RESET;
      packets := [];
    }

    /** Clear as the older OscBundle has it: no children, the time tag kept. */
    method ClearKeepingTimeTag()
      modifies this
      ensures packets == [] && timeTag == old(timeTag)
    {
      packets := [];
    }

    /** Size(): the bytes TryWriteTo writes for the bundle. */
    function Size(): (n: nat)
      reads this
      ensures n == |Encode(AsPacket())| && n >= BUNDLE_HEADER_SIZE
    {
      OscPackets.Size(AsPacket())
    }

    /**
     * TryWriteTo: refuse, writing nothing and raising nothing, when the
     * bundle does not fit after `index`; otherwise write its bytes there
     * and leave every nested bundle's time tag raised to at least its
     * parent's.
     */
    method TryWriteTo(data: array<byte>, index: nat, littleEndian: bool) returns (ok: bool, next: nat)
      requires index % 4 == 0 && WellFormed(AsPacket()) && data.Length <= MAX_ARRAY_LENGTH
      modifies this, data
      ensures ok <==> index + old(Size()) <= data.Length
      ensures ok ==> && AsPacket() == Raised(old(AsPacket())) && Size() == old(Size())
                     && next == index + Size()
                     && OscDataBlock.WrittenAt(old(data[..]), data[..], index, Encode(AsPacket()))
      ensures !ok ==> next == index && data[..] == old(data[..]) && AsPacket() == old(AsPacket())
    {
      ok, next := WritePacket(AsPacket(), 0, data, index, littleEndian);
      if ok {
        RaisedSize(AsPacket(), 0);
        packets := Raised(AsPacket()).packets;
      }
    }
  }
}
