/**
 * OscLegacyBundleRead: the older bundle reader kept in the library's Base
 * tree reads every child up to the END OF THE ENCLOSING BUNDLE rather than
 * up to the child's own end.  A nested bundle then goes on reading past its
 * own bytes and takes the children after it as its own.  The smallest case
 * is a bundle holding two empty bundles: the older reader gives back one
 * bundle holding the second inside the first, where the current reader
 * gives back the two side by side, as ReadBack proves for every sendable
 * packet.
 */
module OscLegacyBundleRead {
  import opened Bytes
  import opened Wrappers
  import opened OscTypes
  import opened OscPackets
  import opened OscPacketRead
  import FourByteOscData
  import OscPacketRoundTrip

  /** An empty bundle to be run immediately (time tag 0). */
  const EMPTY: Packet := BundlePacket(0, [])

  /** Two empty bundles side by side in one bundle. */
  const PAIR: Packet := BundlePacket(0, [Some(EMPTY), Some(EMPTY)])

  /** The second empty bundle inside the first, inside the outer bundle. */
  const NESTED: Packet := BundlePacket(0, [Some(BundlePacket(0, [Some(EMPTY)]))])

  /** The 16 header bytes of a bundle with time tag 0. */
  const ZERO_HEADER: seq<byte> := BUNDLE_PREFIX_BYTES + [0, 0, 0, 0, 0, 0, 0, 0]

  /** A child length of 16, big-endian. */
  const LENGTH_16: seq<byte> := [0, 0, 0, 16]

  /** The layout of those 56 bytes. */
  predicate PairLayout(d: seq<byte>)
  {
    && |d| == 56 && d[0..16] == ZERO_HEADER && d[16..20] == LENGTH_16
    && d[20..36] == ZERO_HEADER && d[36..40] == LENGTH_16 && d[40..56] == ZERO_HEADER
  }

  /** An empty bundle with time tag 0 is sent as its 16 header bytes. */
  lemma EmptyBytes()
    ensures Size(EMPTY) == 16 && Encode(EMPTY) == ZERO_HEADER
  {
    assert BigEndian(0, 8) == [0, 0, 0, 0, 0, 0, 0, 0];
  }

  /** The first child of PAIR is sent as its length, then its header. */
  lemma FirstChildBytes()
    ensures ChildrenWire(PAIR, 1) == LENGTH_16 + ZERO_HEADER
  {
    EmptyBytes();
    assert BigEndian(16, 4) == LENGTH_16;
  }

  /** The 56 bytes PAIR is sent as: its header, then each empty bundle after its length. */
  lemma PairBytes()
    ensures Size(PAIR) == 56
    ensures Encode(PAIR) == ZERO_HEADER + LENGTH_16 + ZERO_HEADER + LENGTH_16 + ZERO_HEADER
  {
    EmptyBytes();
    FirstChildBytes();
    assert ChildrenWire(PAIR, 2) == ChildrenWire(PAIR, 1) + BigEndian(16, 4) + ZERO_HEADER;
  }

  /** Five pieces side by side, each found at its offset. */
  lemma FivePieces(d: seq<byte>, h: seq<byte>, l: seq<byte>)
    requires h == ZERO_HEADER && l == LENGTH_16 && d == h + l + h + l + h
    ensures PairLayout(d)
  {
    var a1 := h + l;
    var a2 := a1 + h;
    var a3 := a2 + l;
    assert d[40..56] == h && d[..40] == a3;
    assert d[36..40] == a3[36..40] == l && d[..36] == a2;
    assert d[20..36] == a2[20..36] == h && d[..20] == a1;
    assert d[16..20] == a1[16..20] == l;
    assert d[0..16] == a1[0..16] == h;
  }

  /** Those bytes, piece by piece. */
  lemma PairLaidOut()
    ensures PairLayout(Encode(PAIR))
  {
    PairBytes();
    FivePieces(Encode(PAIR), ZERO_HEADER, LENGTH_16);
  }

  /** Zero bytes carry the value 0. */
  lemma {:induction false} ZerosValue(s: seq<byte>)
    requires forall i :: 0 <= i < |s| ==> s[i] == 0
    ensures BigEndianValue(s) == 0
  {
    if s != [] {
      ZerosValue(s[..|s| - 1]);
    }
  }

  /** A zero-time-tag header at `index` passes the prefix check and carries time tag 0. */
  lemma ZeroHeaderRead(v: Version, data: seq<byte>, index: nat, byteCount: int)
    requires index < byteCount && index + BUNDLE_HEADER_SIZE <= |data|
    requires data[index..index + BUNDLE_HEADER_SIZE] == ZERO_HEADER
    ensures ReadPacket(v, data, index, byteCount) == ReadChildren(v, data, index + BUNDLE_HEADER_SIZE, byteCount, 0, [])
  {
    assert data[index] == ZERO_HEADER[0];
    assert data[index..index + |BUNDLE_PREFIX_BYTES|] == ZERO_HEADER[..8];
    assert data[index + 8..index + 16] == ZERO_HEADER[8..];
    ZerosValue([0, 0, 0, 0, 0, 0, 0, 0]);
    HeaderRead(v, data, index, byteCount, 0);
  }

  /** Four bytes 0, 0, 0, 16 read as the length 16. */
  lemma Length16(data: seq<byte>, at: nat)
    requires at + 4 <= |data| && data[at..at + 4] == LENGTH_16
    ensures FourByteOscData.IntFromWire(data[at..at + 4]) == 16
  {
    assert BigEndianValue(LENGTH_16) == 16 by {
      assert LENGTH_16[..3] == [0, 0, 0];
      assert BigEndianValue([0, 0, 0]) == 0;
    }
  }

  /** The second empty bundle, at 40, read up to the end. */
  lemma LegacyLast(d: seq<byte>)
    requires PairLayout(d)
    ensures ReadPacket(Legacy, d, 40, ChildCount(Legacy, Wrap32(40 + 16), 56)) == Got(EMPTY, 56)
  {
    ZeroHeaderRead(Legacy, d, 40, 56);
    ChildrenStop(Legacy, d, 56, 56, 0, []);
  }

  /** The first empty bundle, at 20, read up to the end of the outer one: the second becomes its child. */
  lemma LegacyFirst(d: seq<byte>)
    requires PairLayout(d)
    ensures ReadPacket(Legacy, d, 20, ChildCount(Legacy, Wrap32(20 + 16), 56)) == Got(BundlePacket(0, [Some(EMPTY)]), 56)
  {
    ZeroHeaderRead(Legacy, d, 20, 56);
    Length16(d, 36);
    LegacyLast(d);
    ChildGot(Legacy, d, 36, 56, 0, [], 16, 40, Got(EMPTY, 56));
    ChildrenStop(Legacy, d, 56, 56, 0, [Some(EMPTY)]);
  }

  /**
   * The older reader on the bytes of PAIR: the first empty bundle is read
   * up to the end of PAIR, so it takes the second as its own child.
   */
  lemma LegacyNestsSibling()
    ensures ReadPacket(Legacy, Encode(PAIR), 0, Size(PAIR)) == Got(NESTED, 56)
  {
    PairBytes();
    PairLaidOut();
    var d := Encode(PAIR);
    ZeroHeaderRead(Legacy, d, 0, 56);
    Length16(d, 16);
    LegacyFirst(d);
    ChildGot(Legacy, d, 16, 56, 0, [], 16, 20, Got(BundlePacket(0, [Some(EMPTY)]), 56));
    ChildrenStop(Legacy, d, 56, 56, 0, [Some(BundlePacket(0, [Some(EMPTY)]))]);
  }

  /**
   * The discrepancy: PAIR is sendable and has no null child, the current
   * reader gives it back from its bytes, and the older one does not.
   */
  lemma LegacySwallowsSibling()
    ensures OscPacketRoundTrip.Sendable(PAIR) && Compact(PAIR) == PAIR
    ensures ReadPacket(Runtime, Encode(PAIR), 0, Size(PAIR)) == Got(PAIR, Size(PAIR))
    ensures ReadPacket(Legacy, Encode(PAIR), 0, Size(PAIR)) != Got(PAIR, Size(PAIR))
  {
    PairBytes();
    LegacyNestsSibling();
    assert CompactChildren(EMPTY, 0) == [];
    assert Compact(EMPTY) == EMPTY;
    assert CompactChildren(PAIR, 2) == [Some(EMPTY), Some(EMPTY)];
    OscPacketRoundTrip.SliceHeld(Encode(PAIR), 0, Encode(PAIR));
    OscPacketRoundTrip.ReadBack(PAIR, Encode(PAIR), 0, 56, 56, PAIR);
    assert NESTED.packets != PAIR.packets;
  }
}
