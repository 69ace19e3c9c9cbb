/**
 * OscPacketRoundTrip: what OscBundle.TryWriteTo (or OscMessage.TryWriteTo)
 * writes from a 4-aligned index, OscPacket.TryReadFrom reads back when it
 * is told the packet's size: the same packet, with nested time tags as
 * the write raised them and without the null children, which send
 * nothing.  The older bundle reader gets nested bundles wrong: it reads a
 * nested bundle up to the end of the outer one, so the nested bundle takes
 * the siblings that follow it.
 */
module OscPacketRoundTrip {
  import opened Bytes
  import opened Wrappers
  import opened OscTypes
  import opened OscMessageLayout
  import opened OscPackets
  import opened OscPacketRead
  import OscMessageParse
  import OscMessageRoundTrip
  import StringOscData
  import OscDataBlock
  import FourByteOscData

  /**
   * A packet whose bytes read back as itself: every message has an ASCII
   * address without NULs that starts with '/', and arguments the message
   * reader sizes back to their own bytes.
   */
  predicate Sendable(p: Packet)
    decreases p
  {
    match p
    case MessagePacket(address, args) =>
      && StringOscData.NulFreeAscii(address) && |address| > 0 && address[0] == '/'
      && WellFormedArgs(args) && OscMessageRoundTrip.AllReadable(args)
    case BundlePacket(_, ps) => forall i :: 0 <= i < |ps| && ps[i].Some? ==> Sendable(ps[i].value)
  }

  /** A sendable packet is well formed. */
  lemma {:induction false} SendableWellFormed(p: Packet)
    requires Sendable(p)
    ensures WellFormed(p)
    decreases p
  {
    if p.BundlePacket? {
      forall i | 0 <= i < |p.packets| && p.packets[i].Some?
        ensures WellFormed(p.packets[i].value)
      {
        SendableWellFormed(p.packets[i].value);
      }
    }
  }

  /** Raising time tags keeps a packet sendable. */
  lemma {:induction false} RaisedSendable(p: Packet, floor: TimeTagValue)
    requires Sendable(p)
    ensures Sendable(RaisedUnder(p, floor))
    decreases p
  {
    if p.BundlePacket? {
      var q := RaisedUnder(p, floor);
      forall i | 0 <= i < |q.packets| && q.packets[i].Some?
        ensures Sendable(q.packets[i].value)
      {
        assert q.packets[i] == RaisedChild(p, i, q.timeTag);
        RaisedSendable(p.packets[i].value, q.timeTag);
      }
    }
  }

  /* ---- where the bytes of a child sit ---- */

  /** `data` holds `chunk` from `at` on, byte by byte. */
  ghost predicate HeldAt(data: seq<byte>, at: nat, chunk: seq<byte>)
  {
    at + |chunk| <= |data| && forall j :: 0 <= j < |chunk| ==> data[at + j] == chunk[j]
  }

  /** Bytes held side by side: the front piece is held where the whole starts. */
  lemma HeldFront(data: seq<byte>, at: nat, whole: seq<byte>, x: seq<byte>, y: seq<byte>)
    requires HeldAt(data, at, whole) && whole == x + y
    ensures HeldAt(data, at, x)
  {
    forall j | 0 <= j < |x| ensures data[at + j] == x[j] {
      assert whole[j] == x[j];
    }
  }

  /** Bytes held side by side: the back piece is held right after the front one. */
  lemma HeldBack(data: seq<byte>, at: nat, whole: seq<byte>, x: seq<byte>, y: seq<byte>, back: nat)
    requires HeldAt(data, at, whole) && whole == x + y && back == at + |x|
    ensures HeldAt(data, back, y)
  {
    forall j | 0 <= j < |y| ensures data[back + j] == y[j] {
      assert whole[|x| + j] == y[j];
    }
  }

  /** A slice of bytes equal to a chunk holds it. */
  lemma SliceHeld(data: seq<byte>, at: nat, chunk: seq<byte>)
    requires at + |chunk| <= |data| && data[at..at + |chunk|] == chunk
    ensures HeldAt(data, at, chunk)
  {
    forall j | 0 <= j < |chunk| ensures data[at + j] == chunk[j] {
      assert data[at..at + |chunk|][j] == data[at + j];
    }
  }

  /** Held bytes are a slice equal to the chunk. */
  lemma HeldSlice(data: seq<byte>, at: nat, chunk: seq<byte>)
    requires HeldAt(data, at, chunk)
    ensures at + |chunk| <= |data| && data[at..at + |chunk|] == chunk
  {
  }

  /** The bytes child k of a bundle sends: nothing when it is null. */
  function ChildPiece(b: Packet, k: nat): seq<byte>
    requires b.BundlePacket? && k < |b.packets|
  {
    match b.packets[k]
    case None => []
    case Some(c) => ChildWire(b.packets[k], Encode(c))
  }

  /** The bytes of the first n children end with the bytes of child n - 1. */
  lemma ChildrenWireStep(b: Packet, n: nat)
    requires b.BundlePacket? && 0 < n <= |b.packets|
    ensures ChildrenWire(b, n) == ChildrenWire(b, n - 1) + ChildPiece(b, n - 1)
  {
  }

  /** Where the bytes of a bundle's children are held, the bytes of the first i of them are. */
  lemma {:induction false} ChildrenHeld(b: Packet, data: seq<byte>, base: nat, i: nat, n: nat)
    requires b.BundlePacket? && i <= n <= |b.packets| && HeldAt(data, base, ChildrenWire(b, n))
    ensures HeldAt(data, base, ChildrenWire(b, i))
    decreases n - i
  {
    if i < n {
      ChildrenHeldLess(b, data, base, n);
      ChildrenHeld(b, data, base, i, n - 1);
    }
  }

  /** Where the bytes of a bundle's first n children are held, those of the first n - 1 are. */
  lemma ChildrenHeldLess(b: Packet, data: seq<byte>, base: nat, n: nat)
    requires b.BundlePacket? && 0 < n <= |b.packets| && HeldAt(data, base, ChildrenWire(b, n))
    ensures HeldAt(data, base, ChildrenWire(b, n - 1))
  {
    ChildrenWireStep(b, n);
    HeldFront(data, base, ChildrenWire(b, n), ChildrenWire(b, n - 1), ChildPiece(b, n - 1));
  }

  /** A non-null child sends its length big-endian, then its own bytes. */
  lemma SomePiece(b: Packet, k: nat, c: Packet)
    requires b.BundlePacket? && k < |b.packets| && b.packets[k] == Some(c)
    ensures ChildPiece(b, k) == BigEndian(Size(c), 4) + Encode(c)
  {
  }

  /** Eight bytes holding a time tag big-endian read back as it. */
  lemma TimeTagHeld(data: seq<byte>, at: nat, t: TimeTagValue)
    requires HeldAt(data, at, BigEndian(t, 8))
    ensures TimeTagAt(data, at) == t
  {
    HeldSlice(data, at, BigEndian(t, 8));
    TimeTagBytes(t);
  }

  /** A time tag's eight big-endian bytes carry the time tag. */
  lemma TimeTagBytes(t: TimeTagValue)
    ensures BigEndianValue(BigEndian(t, 8)) == t
  {
    BigEndianRoundTrip(t, 8);
    assert Pow256(8) == TWO_64;
  }

  /** The bytes of a bundle on the wire: the prefix, the time tag, then the children. */
  lemma BundleEncoded(q: Packet)
    requires q.BundlePacket?
    ensures Encode(q) == (BUNDLE_PREFIX_BYTES + BigEndian(q.timeTag, 8)) + ChildrenWire(q, |q.packets|)
  {
  }

  /** The bytes of a bundle: the prefix, the time tag and the children. */
  lemma BundleBytes(q: Packet, data: seq<byte>, index: nat)
    requires q.BundlePacket? && HeldAt(data, index, Encode(q))
    ensures index + BUNDLE_HEADER_SIZE <= |data|
    ensures data[index] == BUNDLE_PREFIX_BYTE
    ensures data[index..index + |BUNDLE_PREFIX_BYTES|] == BUNDLE_PREFIX_BYTES
    ensures TimeTagAt(data, index + |BUNDLE_PREFIX_BYTES|) == q.timeTag
    ensures HeldAt(data, index + BUNDLE_HEADER_SIZE, ChildrenWire(q, |q.packets|))
  {
    var tag := BigEndian(q.timeTag, 8);
    var w := ChildrenWire(q, |q.packets|);
    BundleEncoded(q);
    HeldFront(data, index, Encode(q), BUNDLE_PREFIX_BYTES + tag, w);
    HeldBack(data, index, Encode(q), BUNDLE_PREFIX_BYTES + tag, w, index + 16);
    HeldFront(data, index, BUNDLE_PREFIX_BYTES + tag, BUNDLE_PREFIX_BYTES, tag);
    HeldBack(data, index, BUNDLE_PREFIX_BYTES + tag, BUNDLE_PREFIX_BYTES, tag, index + 8);
    assert data[index + 0] == BUNDLE_PREFIX_BYTES[0];
    HeldSlice(data, index, BUNDLE_PREFIX_BYTES);
    TimeTagHeld(data, index + 8, q.timeTag);
  }

  /** The first i + 1 children take those before child i, a length and child i itself. */
  lemma ChildSize(q: Packet, i: nat, c: Packet)
    requires q.BundlePacket? && i < |q.packets| && q.packets[i] == Some(c)
    ensures ChildrenSize(q, i + 1) == ChildrenSize(q, i) + 4 + Size(c)
  {
  }

  /** Bytes held as a front and a piece of two parts hold each part after the front. */
  lemma PartsHeld(data: seq<byte>, base: nat, whole: seq<byte>, front: seq<byte>, piece: seq<byte>,
                  x: seq<byte>, y: seq<byte>, at: nat, after: nat)
    requires HeldAt(data, base, whole) && whole == front + piece && piece == x + y
    requires at == base + |front| && after == at + |x|
    ensures HeldAt(data, at, x) && HeldAt(data, after, y)
  {
    HeldBack(data, base, whole, front, piece, at);
    HeldFront(data, at, piece, x, y);
    HeldBack(data, at, piece, x, y, after);
  }

  /** The bytes of child i of a bundle: its length big-endian, then its own bytes. */
  lemma ChildBytes(q: Packet, data: seq<byte>, base: nat, i: nat, c: Packet, at: nat)
    requires q.BundlePacket? && i < |q.packets| && q.packets[i] == Some(c)
    requires HeldAt(data, base, ChildrenWire(q, |q.packets|)) && at == base + ChildrenSize(q, i)
    ensures HeldAt(data, at, BigEndian(Size(c), 4))
    ensures HeldAt(data, at + 4, Encode(c))
  {
    ChildrenHeld(q, data, base, i + 1, |q.packets|);
    ChildrenWireStep(q, i + 1);
    SomePiece(q, i, c);
    PartsHeld(data, base, ChildrenWire(q, i + 1), ChildrenWire(q, i), ChildPiece(q, i),
              BigEndian(Size(c), 4), Encode(c), at, at + 4);
  }

  /* ---- reading back ---- */

  /** Every packet takes some bytes: a message at least its address, a bundle at least its header. */
  lemma SizePositive(p: Packet)
    ensures Size(p) > 0
  {
  }

  /** A message whose address starts with '/' starts with the byte '/'. */
  lemma MessageStartsWithSlash(data: seq<byte>, index: nat, address: string, args: seq<Arg>)
    requires |address| > 0 && address[0] == '/' && HeldAt(data, index, MessageWire(address, args))
    ensures index < |data| && data[index] == ADDRESS_PREFIX_BYTE
  {
    var encoded := StringOscData.Encode(address);
    assert encoded[0] == StringOscData.EncodeAscii(address)[0] == AsciiByte('/');
    assert MessageWire(address, args)[0] == encoded[0];
    assert data[index + 0] == MessageWire(address, args)[0];
  }

  /** A '/' whose message parses is read as that message. */
  lemma MessageDispatched(data: seq<byte>, index: nat, byteCount: int, r: OscMessageParse.MessageRead, p: Packet)
    requires index < byteCount && index < |data| && data[index] == ADDRESS_PREFIX_BYTE
    requires r == OscMessageParse.ParseMessage(data, index) && r.Parsed?
    requires p == MessagePacket(r.address, OscMessageParse.ParsedArgs(data, index))
    ensures ReadPacket(Runtime, data, index, byteCount) == Got(p, r.next)
  {
  }

  /**
   * The bytes of a message with a sendable address and arguments read back
   * as the message (`p`), up to their end (`end`).
   */
  lemma MessageReadBack(data: seq<byte>, index: nat, address: string, args: seq<Arg>, end: nat, p: Packet)
    requires StringOscData.NulFreeAscii(address) && |address| > 0 && address[0] == '/'
    requires OscMessageRoundTrip.AllReadable(args) && index % 4 == 0
    requires HeldAt(data, index, MessageWire(address, args))
    requires end == index + |MessageWire(address, args)| && p == MessagePacket(address, args)
    ensures ReadPacket(Runtime, data, index, end) == Got(p, end)
  {
    var wire := MessageWire(address, args);
    MessageStartsWithSlash(data, index, address, args);
    HeldSlice(data, index, wire);
    OscMessageRoundTrip.Holds(data, index, wire);
    OscMessageRoundTrip.MessageRoundTrip(data, data, index, address, args);
    MessageDispatched(data, index, end, OscMessageParse.ParseMessage(data, index), p);
  }

  /** A length written big-endian reads back as itself while it fits a positive int32. */
  lemma LengthReadBack(data: seq<byte>, at: nat, size: nat)
    requires size < 0x8000_0000 && HeldAt(data, at, BigEndian(size, 4))
    ensures at + 4 <= |data| && FourByteOscData.IntFromWire(data[at..at + 4]) == size
  {
    HeldSlice(data, at, BigEndian(size, 4));
    BigEndianRoundTrip(size, 4);
    assert Pow256(4) == TWO_32;
  }

  /** A null child takes no bytes and reads back as nothing. */
  lemma NullChild(q: Packet, i: nat)
    requires q.BundlePacket? && i < |q.packets| && q.packets[i].None?
    ensures ChildrenSize(q, i + 1) == ChildrenSize(q, i)
    ensures CompactChildren(q, i + 1) == CompactChildren(q, i)
  {
  }

  /** A non-null child reads back as itself without its null children. */
  lemma SomeChild(q: Packet, i: nat, c: Packet)
    requires q.BundlePacket? && i < |q.packets| && q.packets[i] == Some(c)
    ensures CompactChildren(q, i + 1) == CompactChildren(q, i) + [Some(Compact(c))]
  {
  }

  /** A message packet's bytes, size and compacted form. */
  lemma MessageEncoded(q: Packet)
    requires q.MessagePacket?
    ensures Encode(q) == MessageWire(q.address, q.args) && Size(q) == |MessageWire(q.address, q.args)|
    ensures Compact(q) == MessagePacket(q.address, q.args)
  {
  }

  /** A bundle's size and compacted form, through its children. */
  lemma BundleSized(q: Packet)
    requires q.BundlePacket?
    ensures Size(q) == BUNDLE_HEADER_SIZE + ChildrenSize(q, |q.packets|)
    ensures Compact(q) == BundlePacket(q.timeTag, CompactChildren(q, |q.packets|))
    ensures ChildrenSize(q, 0) == 0 && CompactChildren(q, 0) == []
  {
  }

  /** A '#' is read as a bundle. */
  lemma BundleDispatched(data: seq<byte>, index: nat, byteCount: int)
    requires index < byteCount && index < |data| && data[index] == BUNDLE_PREFIX_BYTE
    ensures ReadPacket(Runtime, data, index, byteCount) == ReadBundle(Runtime, data, index, byteCount)
  {
  }

  /**
   * What reading a packet back needs besides its bytes: a sendable packet
   * `q` at a 4-aligned `index`, with `end` where its bytes end and `p` the
   * packet without its null children.
   */
  predicate Placed(q: Packet, index: nat, end: nat, p: Packet)
  {
    Sendable(q) && index % 4 == 0 && end == index + Size(q) && p == Compact(q)
  }

  /**
   * The bytes of a sendable packet, from a 4-aligned index, read back as
   * the packet without its null children when the reader is told where
   * the packet ends, and the read stops there.
   */
  lemma {:induction false} ReadBack(q: Packet, data: seq<byte>, index: nat, byteCount: int, end: nat, p: Packet)
    requires Placed(q, index, end, p) && HeldAt(data, index, Encode(q)) && |data| <= MAX_ARRAY_LENGTH
    requires byteCount == end
    ensures ReadPacket(Runtime, data, index, byteCount) == Got(p, end)
    decreases q, 3
  {
    if q.MessagePacket? {
      MessageEncoded(q);
      MessageReadBack(data, index, q.address, q.args, end, p);
    } else {
      BundleReadBack(q, data, index, end, p);
    }
  }

  /** ReadBack for a bundle (`p` its compacted form, `end` where it ends): the header, then the children. */
  lemma {:induction false} BundleReadBack(q: Packet, data: seq<byte>, index: nat, end: nat, p: Packet)
    requires q.BundlePacket? && Sendable(q) && index % 4 == 0 && HeldAt(data, index, Encode(q)) && |data| <= MAX_ARRAY_LENGTH
    requires end == index + Size(q) && p == Compact(q)
    ensures ReadPacket(Runtime, data, index, end) == Got(p, end)
    decreases q, 2
  {
    BundleBytes(q, data, index);
    BundleSized(q);
    BundleDispatched(data, index, end);
    HeaderRead(Runtime, data, index, end, q.timeTag);
    ChildrenReadBack(q, data, index, 0, end, p, index + BUNDLE_HEADER_SIZE, []);
  }

  /**
   * The children of a sendable bundle from child i on (at `at`, after the
   * children `got` read so far) read back, and the bundle with them.
   */
  lemma {:induction false} ChildrenReadBack(q: Packet, data: seq<byte>, index: nat, i: nat, end: nat, p: Packet,
                                            at: nat, got: seq<Option<Packet>>)
    requires q.BundlePacket? && Sendable(q) && i <= |q.packets| && index % 4 == 0
    requires HeldAt(data, index + BUNDLE_HEADER_SIZE, ChildrenWire(q, |q.packets|))
    requires end == index + Size(q) && end <= |data| <= MAX_ARRAY_LENGTH && p == Compact(q)
    requires at == index + BUNDLE_HEADER_SIZE + ChildrenSize(q, i) && got == CompactChildren(q, i)
    ensures ReadChildren(Runtime, data, at, end, q.timeTag, got) == Got(p, end)
    decreases q, 1, |q.packets| - i
  {
    if i == |q.packets| {
      ChildrenDone(q, data, index, end, p, at, got);
    } else {
      var next := index + BUNDLE_HEADER_SIZE + ChildrenSize(q, i + 1);
      var gotNext := CompactChildren(q, i + 1);
      ChildStepRead(q, data, index, i, end, at, next, got, gotNext);
      ChildrenReadBack(q, data, index, i + 1, end, p, next, gotNext);
    }
  }

  /** Past the last child the reader stops, with the bundle read back. */
  lemma ChildrenDone(q: Packet, data: seq<byte>, index: nat, end: nat, p: Packet, at: nat, got: seq<Option<Packet>>)
    requires q.BundlePacket? && end == index + Size(q) && p == Compact(q)
    requires at == index + BUNDLE_HEADER_SIZE + ChildrenSize(q, |q.packets|) && got == CompactChildren(q, |q.packets|)
    ensures ReadChildren(Runtime, data, at, end, q.timeTag, got) == Got(p, end)
  {
    BundleSized(q);
    ChildrenStop(Runtime, data, at, end, q.timeTag, got);
  }

  /** Reading child i of a sendable bundle moves on to child i + 1 with child i read back, if it is not null. */
  lemma {:induction false} ChildStepRead(q: Packet, data: seq<byte>, index: nat, i: nat, end: nat, at: nat, next: nat,
                                         got: seq<Option<Packet>>, gotNext: seq<Option<Packet>>)
    requires q.BundlePacket? && Sendable(q) && i < |q.packets| && index % 4 == 0
    requires HeldAt(data, index + BUNDLE_HEADER_SIZE, ChildrenWire(q, |q.packets|))
    requires end == index + Size(q) && end <= |data| <= MAX_ARRAY_LENGTH
    requires at == index + BUNDLE_HEADER_SIZE + ChildrenSize(q, i) && got == CompactChildren(q, i)
    requires next == index + BUNDLE_HEADER_SIZE + ChildrenSize(q, i + 1) && gotNext == CompactChildren(q, i + 1)
    ensures ReadChildren(Runtime, data, at, end, q.timeTag, got) == ReadChildren(Runtime, data, next, end, q.timeTag, gotNext)
    decreases q, 0
  {
    if q.packets[i].None? {
      NullChild(q, i);
    } else {
      var c := q.packets[i].value;
      ChildIsReady(q, data, index, i, end, at, next, got, gotNext, c);
      ChildReadOn(data, at, end, q.timeTag, got, gotNext, c, next);
    }
  }

  /** Child i of a sendable bundle, when not null, is ready to be read back after its length. */
  lemma ChildIsReady(q: Packet, data: seq<byte>, index: nat, i: nat, end: nat, at: nat, next: nat,
                     got: seq<Option<Packet>>, gotNext: seq<Option<Packet>>, c: Packet)
    requires q.BundlePacket? && Sendable(q) && i < |q.packets| && q.packets[i] == Some(c) && index % 4 == 0
    requires HeldAt(data, index + BUNDLE_HEADER_SIZE, ChildrenWire(q, |q.packets|))
    requires end == index + Size(q) && end <= |data| <= MAX_ARRAY_LENGTH
    requires at == index + BUNDLE_HEADER_SIZE + ChildrenSize(q, i) && got == CompactChildren(q, i)
    requires next == index + BUNDLE_HEADER_SIZE + ChildrenSize(q, i + 1) && gotNext == CompactChildren(q, i + 1)
    ensures Sendable(c) && (at + 4) % 4 == 0 && HeldAt(data, at + 4, Encode(c)) && |data| <= MAX_ARRAY_LENGTH
    ensures 0 < Size(c) && next == at + 4 + Size(c) == Wrap32(at + 4 + Size(c))
    ensures at < end && at + 4 <= |data| && FourByteOscData.IntFromWire(data[at..at + 4]) == Size(c) != 0
    ensures Wrap32(at + 4 + Size(c)) <= |data| && gotNext == got + [Some(Compact(c))]
  {
    ChildEnds(q, data, index, i, c, at, next);
    ChildLength(q, data, index, i, c, at);
    ChildPlaced(q, index, i, c, at);
    SomeChild(q, i, c);
  }

  /** Child i of a bundle, after its length, ends inside the bundle. */
  lemma ChildSpan(q: Packet, index: nat, i: nat, c: Packet, at: nat, next: nat)
    requires q.BundlePacket? && i < |q.packets| && q.packets[i] == Some(c)
    requires at == index + BUNDLE_HEADER_SIZE + ChildrenSize(q, i)
    requires next == index + BUNDLE_HEADER_SIZE + ChildrenSize(q, i + 1)
    ensures next == at + 4 + Size(c) <= index + Size(q)
  {
    ChildSize(q, i, c);
    ChildrenSizeGrows(q, i + 1, |q.packets|);
    BundleSized(q);
  }

  /** Child i of a bundle whose bytes fit the buffer ends inside it, after at least one byte of its own. */
  lemma ChildEnds(q: Packet, data: seq<byte>, index: nat, i: nat, c: Packet, at: nat, next: nat)
    requires q.BundlePacket? && i < |q.packets| && q.packets[i] == Some(c)
    requires index + Size(q) <= |data| <= MAX_ARRAY_LENGTH
    requires at == index + BUNDLE_HEADER_SIZE + ChildrenSize(q, i)
    requires next == index + BUNDLE_HEADER_SIZE + ChildrenSize(q, i + 1)
    ensures at < index + Size(q) && next <= |data| && 0 < Size(c) < 0x8000_0000
    ensures next == at + 4 + Size(c) == Wrap32(at + 4 + Size(c))
  {
    ChildSpan(q, index, i, c, at, next);
    SizePositive(c);
  }

  /** The length before child i of a bundle held in the buffer reads back as the child's size, and the child's bytes follow it. */
  lemma ChildLength(q: Packet, data: seq<byte>, index: nat, i: nat, c: Packet, at: nat)
    requires q.BundlePacket? && i < |q.packets| && q.packets[i] == Some(c)
    requires HeldAt(data, index + BUNDLE_HEADER_SIZE, ChildrenWire(q, |q.packets|))
    requires at == index + BUNDLE_HEADER_SIZE + ChildrenSize(q, i) && Size(c) < 0x8000_0000
    ensures at + 4 <= |data| && FourByteOscData.IntFromWire(data[at..at + 4]) == Size(c)
    ensures HeldAt(data, at + 4, Encode(c))
  {
    ChildBytes(q, data, index + BUNDLE_HEADER_SIZE, i, c, at);
    LengthReadBack(data, at, Size(c));
  }

  /** Child i of a sendable bundle is sendable and starts 4-aligned. */
  lemma ChildPlaced(q: Packet, index: nat, i: nat, c: Packet, at: nat)
    requires q.BundlePacket? && Sendable(q) && i < |q.packets| && q.packets[i] == Some(c) && index % 4 == 0
    requires at == index + BUNDLE_HEADER_SIZE + ChildrenSize(q, i)
    ensures Sendable(c) && (at + 4) % 4 == 0
  {
    ChildSendable(q, i, c);
    ChildAligned(q, index, i, at);
  }

  /** A non-null child of a sendable bundle is sendable. */
  lemma ChildSendable(q: Packet, i: nat, c: Packet)
    requires q.BundlePacket? && Sendable(q) && i < |q.packets| && q.packets[i] == Some(c)
    ensures Sendable(c)
  {
  }

  /** The bytes of child i of a sendable bundle at a 4-aligned index start 4-aligned. */
  lemma ChildAligned(q: Packet, index: nat, i: nat, at: nat)
    requires q.BundlePacket? && Sendable(q) && i < |q.packets| && index % 4 == 0
    requires at == index + BUNDLE_HEADER_SIZE + ChildrenSize(q, i)
    ensures (at + 4) % 4 == 0
  {
    SendableWellFormed(q);
    ChildrenAligned(q, i);
    AlignedAfter(index, ChildrenSize(q, i), at);
  }

  /** Past a 16-byte header and a multiple of four bytes from a 4-aligned index, the next four bytes end 4-aligned. */
  lemma AlignedAfter(index: int, size: int, at: int)
    requires index % 4 == 0 && size % 4 == 0 && at == index + BUNDLE_HEADER_SIZE + size
    ensures (at + 4) % 4 == 0
  {
  }

  /** The bytes of such a child are placed for reading back, up to its own end. */
  lemma ChildIsPlaced(at: nat, byteCount: int, c: Packet, next: nat)
    requires Sendable(c) && (at + 4) % 4 == 0
    requires next == at + 4 + Size(c) == Wrap32(at + 4 + Size(c))
    ensures Placed(c, at + 4, next, Compact(c)) && ChildCount(Runtime, Wrap32(at + 4 + Size(c)), byteCount) == next
  {
  }

  /** A sendable child after its length reads back, and moves the bundle reader on past it with the child added. */
  lemma {:induction false} ChildReadOn(data: seq<byte>, at: nat, byteCount: int, timeTag: TimeTagValue,
                                       got: seq<Option<Packet>>, gotNext: seq<Option<Packet>>, c: Packet, next: nat)
    requires Sendable(c) && (at + 4) % 4 == 0 && HeldAt(data, at + 4, Encode(c)) && |data| <= MAX_ARRAY_LENGTH
    requires 0 < Size(c) && next == at + 4 + Size(c) == Wrap32(at + 4 + Size(c))
    requires at < byteCount && at + 4 <= |data| && FourByteOscData.IntFromWire(data[at..at + 4]) == Size(c) != 0
    requires Wrap32(at + 4 + Size(c)) <= |data| && gotNext == got + [Some(Compact(c))]
    ensures ReadChildren(Runtime, data, at, byteCount, timeTag, got) == ReadChildren(Runtime, data, next, byteCount, timeTag, gotNext)
    decreases c, 4
  {
    var size: int32 := Size(c);
    var count := ChildCount(Runtime, Wrap32(at + 4 + size), byteCount);
    ChildIsPlaced(at, byteCount, c, next);
    ReadBack(c, data, at + 4, count, next, Compact(c));
    ChildGot(Runtime, data, at, byteCount, timeTag, got, size, at + 4, Got(Compact(c), next));
  }

  /* ---- writing, then reading back ---- */

  /** Bytes just written at `at` are held there. */
  lemma WrittenHeld(before: seq<byte>, after: seq<byte>, at: nat, chunk: seq<byte>)
    requires OscDataBlock.WrittenAt(before, after, at, chunk)
    ensures HeldAt(after, at, chunk)
  {
    forall j | 0 <= j < |chunk| ensures after[at + j] == chunk[j] {
      assert at <= at + j < at + |chunk|;
    }
  }

  /**
   * The round trip of the current version: the bytes WritePacket writes
   * for a sendable packet at a 4-aligned index, inside a bundle whose time
   * tag is `floor`, read back as that packet `r` with its nested time tags
   * raised and its null children left out, and the read ends where the
   * write ended.
   */
  lemma WrittenReadsBack(p: Packet, floor: TimeTagValue, before: seq<byte>, after: seq<byte>, index: nat,
                         end: nat, r: Packet)
    requires Sendable(p) && index % 4 == 0 && |after| <= MAX_ARRAY_LENGTH
    requires OscDataBlock.WrittenAt(before, after, index, Encode(RaisedUnder(p, floor)))
    requires end == index + Size(p) && r == Compact(RaisedUnder(p, floor))
    ensures ReadPacket(Runtime, after, index, end) == Got(r, end)
  {
    var q := RaisedUnder(p, floor);
    RaisedSize(p, floor);
    RaisedSendable(p, floor);
    WrittenHeld(before, after, index, Encode(q));
    ReadBack(q, after, index, end, end, r);
  }
}
