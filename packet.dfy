/**
 * OscPackets: OSC packets as values.  A packet is a message (its address
 * and arguments) or a bundle (a time tag and a list of child packets, some
 * of which may be null).  This module gives the size of a packet, the
 * bytes a bundle sends for it, and the raising of nested time tags that
 * OscBundle.TryWriteTo performs on the way.
 */
module OscPackets {
  import opened Bytes
  import opened Wrappers
  import opened OscTypes
  import opened OscMessageLayout
  import StringOscData

  /**
   * An OscTimeTag as a 64-bit NTP time stamp, ordered as an unsigned
   * number.  Its own source is not part of this model.
   */
  type TimeTagValue = u: nat | u < TWO_64

  /** The time tag Reset gives: the NTP value 1, "immediately". */
  const TIME_TAG_RESET: TimeTagValue := 1

  /** A message or a bundle; a bundle's children may be null. */
  datatype Packet =
    | MessagePacket(address: string, args: seq<Arg>)
    | BundlePacket(timeTag: TimeTagValue, packets: seq<Option<Packet>>)

  /** "#bundle" is the text of the bundle prefix. */
  const BUNDLE_PREFIX: string := "#bundle"

  /** The bundle prefix bytes are the OSC-string of "#bundle". */
  lemma BundlePrefixIsOscString()
    ensures StringOscData.Encode(BUNDLE_PREFIX) == BUNDLE_PREFIX_BYTES
  {
  }

  /* ---- size ---- */

  /** Size(): a message's size, or 16 plus a 4-byte length and the size of every non-null child. */
  function Size(p: Packet): nat
    decreases p, 1
  {
    match p
    case MessagePacket(address, args) => MessageSize(address, |args|, |Payload(args)|)
    case BundlePacket(_, ps) => BUNDLE_HEADER_SIZE + ChildrenSize(p, |ps|)
  }

  /** The bytes the first n children of a bundle take, length prefixes included. */
  function ChildrenSize(b: Packet, n: nat): nat
    requires b.BundlePacket? && n <= |b.packets|
    decreases b, 0, n
  {
    if n == 0 then 0
    else ChildrenSize(b, n - 1) + match b.packets[n - 1] case None => 0 case Some(c) => 4 + Size(c)
  }

  /** The sizes of a bundle's children never shrink as more are counted. */
  lemma {:induction false} ChildrenSizeGrows(b: Packet, i: nat, n: nat)
    requires b.BundlePacket? && i <= n <= |b.packets|
    ensures ChildrenSize(b, i) <= ChildrenSize(b, n)
    decreases n - i
  {
    if i < n {
      ChildrenSizeGrows(b, i + 1, n);
    }
  }

  /* ---- the bytes of a packet ---- */

  /** A child on the wire: its length as a big-endian 4-byte int, then its bytes. */
  function ChildWire(child: Option<Packet>, wire: seq<byte>): seq<byte>
  {
    match child
    case None => []
    case Some(_) => BigEndian(|wire|, 4) + wire
  }

  /**
   * The bytes a packet is sent as, from a 4-aligned index: a message's
   * wire bytes, or "#bundle", the time tag big-endian, and each non-null
   * child after its length.  Null children send nothing.
   */
  function Encode(p: Packet): (wire: seq<byte>)
    ensures |wire| == Size(p)
    decreases p, 1
  {
    match p
    case MessagePacket(address, args) => MessageWire(address, args)
    case BundlePacket(t, ps) => BUNDLE_PREFIX_BYTES + BigEndian(t, 8) + ChildrenWire(p, |ps|)
  }

  /** The bytes of the first n children of a bundle. */
  function ChildrenWire(b: Packet, n: nat): (wire: seq<byte>)
    requires b.BundlePacket? && n <= |b.packets|
    ensures |wire| == ChildrenSize(b, n)
    decreases b, 0, n
  {
    if n == 0 then []
    else
      var child := b.packets[n - 1];
      ChildrenWire(b, n - 1) + match child case None => [] case Some(c) => ChildWire(child, Encode(c))
  }

  /* ---- raising nested time tags ---- */

  /**
   * The packet as TryWriteTo leaves it, written inside a bundle whose time
   * tag is `floor`: a bundle's time tag is raised to `floor` when it is
   * earlier, and its children are raised against the (new) tag in turn.
   * Messages are left as they are.
   */
  function RaisedUnder(p: Packet, floor: TimeTagValue): (q: Packet)
    ensures q.MessagePacket? <==> p.MessagePacket?
    ensures p.MessagePacket? ==> q == p
    ensures p.BundlePacket? ==> |q.packets| == |p.packets| && q.timeTag == Later(p.timeTag, floor)
    decreases p, 1
  {
    match p
    case MessagePacket(_, _) => p
    case BundlePacket(t, ps) =>
      var top := Later(t, floor);
      BundlePacket(top, seq(|ps|, i requires 0 <= i < |ps| => RaisedChild(p, i, top)))
  }

  /** Child i of a bundle, raised against `floor`; a null child stays null. */
  function RaisedChild(b: Packet, i: nat, floor: TimeTagValue): (r: Option<Packet>)
    requires b.BundlePacket? && i < |b.packets|
    ensures r.Some? <==> b.packets[i].Some?
    decreases b, 0
  {
    match b.packets[i]
    case None => None
    case Some(c) => Some(RaisedUnder(c, floor))
  }

  /** The later of two time tags. */
  function Later(t: TimeTagValue, floor: TimeTagValue): (r: TimeTagValue)
    ensures r >= t && r >= floor && (r == t || r == floor)
  {
    if t < floor then floor else t
  }

  /** The packet after TryWriteTo: the outermost time tag is kept, nested ones are raised. */
  function Raised(p: Packet): Packet
  {
    RaisedUnder(p, 0)
  }

  /** The bytes TryWriteTo sends for a packet. */
  function Wire(p: Packet): seq<byte>
  {
    Encode(Raised(p))
  }

  /** What the loop of TryWriteTo does to one child bundle before writing it: raise its own time tag only. */
  function Lifted(p: Packet, floor: TimeTagValue): (q: Packet)
  {
    if p.BundlePacket? && p.timeTag < floor then p.(timeTag := floor) else p
  }

  /** Raising the child's own tag, then writing it as a packet of its own, raises it against its parent. */
  lemma LiftedThenRaised(p: Packet, floor: TimeTagValue)
    ensures Raised(Lifted(p, floor)) == RaisedUnder(p, floor)
  {
    if p.BundlePacket? {
      var q := Lifted(p, floor);
      var top := Later(p.timeTag, floor);
      forall i | 0 <= i < |p.packets|
        ensures Raised(q).packets[i] == RaisedUnder(p, floor).packets[i]
      {
        assert Raised(q).packets[i] == RaisedChild(q, i, top);
        assert RaisedUnder(p, floor).packets[i] == RaisedChild(p, i, top);
      }
    }
  }

  /**
   * Every bundle's time tag is at least `floor`, and every nested bundle's
   * time tag is at least that of the bundle holding it.
   */
  predicate Ordered(p: Packet, floor: TimeTagValue)
    decreases p
  {
    match p
    case MessagePacket(_, _) => true
    case BundlePacket(t, ps) =>
      && t >= floor
      && forall i :: 0 <= i < |ps| && ps[i].Some? ==> Ordered(ps[i].value, t)
  }

  /** After raising, nested time tags never precede their parents'. */
  lemma {:induction false} RaisedIsOrdered(p: Packet, floor: TimeTagValue)
    ensures Ordered(RaisedUnder(p, floor), floor)
    decreases p
  {
    if p.BundlePacket? {
      var q := RaisedUnder(p, floor);
      forall i | 0 <= i < |q.packets| && q.packets[i].Some?
        ensures Ordered(q.packets[i].value, q.timeTag)
      {
        assert q.packets[i] == RaisedChild(p, i, q.timeTag);
        RaisedIsOrdered(p.packets[i].value, q.timeTag);
      }
    }
  }

  /** Raising changes nothing once time tags are ordered. */
  lemma {:induction false} RaisedOfOrdered(p: Packet, floor: TimeTagValue)
    requires Ordered(p, floor)
    ensures RaisedUnder(p, floor) == p
    decreases p
  {
    if p.BundlePacket? {
      var q := RaisedUnder(p, floor);
      forall i | 0 <= i < |p.packets|
        ensures q.packets[i] == p.packets[i]
      {
        assert q.packets[i] == RaisedChild(p, i, p.timeTag);
        if p.packets[i].Some? {
          RaisedOfOrdered(p.packets[i].value, p.timeTag);
        }
      }
    }
  }

  /** Writing a packet twice raises nothing the second time. */
  lemma RaisedIdempotent(p: Packet)
    ensures Raised(Raised(p)) == Raised(p)
  {
    RaisedIsOrdered(p, 0);
    RaisedOfOrdered(Raised(p), 0);
  }

  /** Raising never lowers a time tag: each nested bundle ends at the later of its own tag and its parent's. */
  lemma RaisedNeverLowers(p: Packet, floor: TimeTagValue, i: nat)
    requires p.BundlePacket? && i < |p.packets| && p.packets[i].Some? && p.packets[i].value.BundlePacket?
    ensures var q := RaisedUnder(p, floor);
      && q.timeTag >= p.timeTag && q.packets[i].Some? && q.packets[i].value.BundlePacket?
      && q.packets[i].value.timeTag == Later(p.packets[i].value.timeTag, q.timeTag)
  {
    var q := RaisedUnder(p, floor);
    assert q.packets[i] == RaisedChild(p, i, q.timeTag);
  }

  /** Raising keeps every child's size, so the bundle keeps its size. */
  lemma {:induction false} RaisedSize(p: Packet, floor: TimeTagValue)
    ensures Size(RaisedUnder(p, floor)) == Size(p)
    decreases p, 1
  {
    if p.BundlePacket? {
      RaisedChildrenSize(p, floor, |p.packets|);
    }
  }

  /** The first n children keep their size when raised. */
  lemma {:induction false} RaisedChildrenSize(p: Packet, floor: TimeTagValue, n: nat)
    requires p.BundlePacket? && n <= |p.packets|
    ensures ChildrenSize(RaisedUnder(p, floor), n) == ChildrenSize(p, n)
    decreases p, 0, n
  {
    if n > 0 {
      var q := RaisedUnder(p, floor);
      RaisedChildrenSize(p, floor, n - 1);
      assert q.packets[n - 1] == RaisedChild(p, n - 1, q.timeTag);
      if p.packets[n - 1].Some? {
        RaisedSize(p.packets[n - 1].value, q.timeTag);
      }
    }
  }

  /* ---- null children ---- */

  /** The packet without its null children, as a reader rebuilds it. */
  function Compact(p: Packet): (q: Packet)
    ensures q.MessagePacket? <==> p.MessagePacket?
    ensures p.MessagePacket? ==> q == p
    ensures p.BundlePacket? ==> q.timeTag == p.timeTag
    decreases p, 1
  {
    match p
    case MessagePacket(_, _) => p
    case BundlePacket(t, ps) => BundlePacket(t, CompactChildren(p, |ps|))
  }

  /** The non-null children among the first n, compacted. */
  function CompactChildren(b: Packet, n: nat): (cs: seq<Option<Packet>>)
    requires b.BundlePacket? && n <= |b.packets|
    ensures |cs| <= n
    decreases b, 0, n
  {
    if n == 0 then []
    else CompactChildren(b, n - 1) + match b.packets[n - 1] case None => [] case Some(c) => [Some(Compact(c))]
  }

  /** No bundle holds a null child. */
  predicate Dense(p: Packet)
    decreases p
  {
    match p
    case MessagePacket(_, _) => true
    case BundlePacket(_, ps) => forall i :: 0 <= i < |ps| ==> ps[i].Some? && Dense(ps[i].value)
  }

  /** Every child is present and dense. */
  predicate AllDense(ps: seq<Option<Packet>>)
  {
    forall i :: 0 <= i < |ps| ==> ps[i].Some? && Dense(ps[i].value)
  }

  /** Null children send nothing: a packet sends the same bytes as its compacted form. */
  lemma {:induction false} CompactSendsSame(p: Packet)
    ensures Encode(Compact(p)) == Encode(p)
    decreases p, 1
  {
    if p.BundlePacket? {
      CompactChildrenSendSame(p, |p.packets|, Compact(p));
    }
  }

  /** The first n children send the same bytes as their compacted forms, the children of `q`. */
  lemma {:induction false} CompactChildrenSendSame(p: Packet, n: nat, q: Packet)
    requires p.BundlePacket? && n <= |p.packets| && q == BundlePacket(p.timeTag, CompactChildren(p, n))
    ensures ChildrenWire(q, |q.packets|) == ChildrenWire(p, n)
    decreases p, 0, n
  {
    if n > 0 {
      var front := BundlePacket(p.timeTag, CompactChildren(p, n - 1));
      CompactChildrenSendSame(p, n - 1, front);
      if p.packets[n - 1].Some? {
        var c := p.packets[n - 1].value;
        CompactSendsSame(c);
        CompactKeepsChild(p, n, c, front, q);
      } else {
        assert q == front;
      }
    }
  }

  /** A child that is not null: the compacted children send what they sent before, then the child. */
  lemma CompactKeepsChild(p: Packet, n: nat, c: Packet, front: Packet, q: Packet)
    requires p.BundlePacket? && 0 < n <= |p.packets| && p.packets[n - 1] == Some(c)
    requires front == BundlePacket(p.timeTag, CompactChildren(p, n - 1))
    requires q == BundlePacket(p.timeTag, CompactChildren(p, n))
    ensures ChildrenWire(q, |q.packets|) == ChildrenWire(front, |front.packets|) + ChildWire(Some(c), Encode(Compact(c)))
  {
    var cs := front.packets;
    assert q.packets == cs + [Some(Compact(c))];
    assert q.packets[..|cs|] == cs;
    ChildrenWirePrefix(front, q, |cs|);
  }

  /** A compacted packet holds no null child. */
  lemma {:induction false} CompactIsDense(p: Packet)
    ensures Dense(Compact(p))
    decreases p, 1
  {
    if p.BundlePacket? {
      CompactChildrenDense(p, |p.packets|);
      assert Compact(p).packets == CompactChildren(p, |p.packets|);
    }
  }

  /** The compacted children are present and dense. */
  lemma {:induction false} CompactChildrenDense(p: Packet, n: nat)
    requires p.BundlePacket? && n <= |p.packets|
    ensures AllDense(CompactChildren(p, n))
    decreases p, 0, n
  {
    if n > 0 {
      CompactChildrenDense(p, n - 1);
      var cs := CompactChildren(p, n - 1);
      if p.packets[n - 1].Some? {
        var c := p.packets[n - 1].value;
        CompactIsDense(c);
        var ds := CompactChildren(p, n);
        assert ds == cs + [Some(Compact(c))];
        forall i | 0 <= i < |ds|
          ensures ds[i].Some? && Dense(ds[i].value)
        {
          if i < |cs| {
            assert ds[i] == cs[i];
          }
        }
      } else {
        assert CompactChildren(p, n) == cs;
      }
    }
  }

  /** Two bundles whose first n children agree send the same bytes for them. */
  lemma {:induction false} ChildrenWirePrefix(b: Packet, c: Packet, n: nat)
    requires b.BundlePacket? && c.BundlePacket? && n <= |b.packets| && n <= |c.packets|
    requires b.packets[..n] == c.packets[..n]
    ensures ChildrenWire(b, n) == ChildrenWire(c, n)
  {
    if n > 0 {
      assert b.packets[..n - 1] == b.packets[..n][..n - 1];
      assert c.packets[..n - 1] == c.packets[..n][..n - 1];
      assert b.packets[n - 1] == b.packets[..n][n - 1];
      assert c.packets[n - 1] == c.packets[..n][n - 1];
      ChildrenWirePrefix(b, c, n - 1);
    }
  }

  /* ---- well-formed packets ---- */

  /** Every message in the packet holds well-formed arguments, as the message class keeps them. */
  predicate WellFormed(p: Packet)
    decreases p
  {
    match p
    case MessagePacket(_, args) => WellFormedArgs(args)
    case BundlePacket(_, ps) => forall i :: 0 <= i < |ps| && ps[i].Some? ==> WellFormed(ps[i].value)
  }

  /** Every well-formed argument takes a multiple of four bytes. */
  lemma ArgAligned(arg: Arg)
    requires WellFormedArg(arg)
    ensures |arg.bytes| % 4 == 0
  {
  }

  /** Arguments of whole words lay out a payload of whole words. */
  lemma {:induction false} PayloadAligned(args: seq<Arg>)
    requires forall i :: 0 <= i < |args| ==> |args[i].bytes| % 4 == 0
    ensures |Payload(args)| % 4 == 0
    decreases |args|
  {
    if args != [] {
      PayloadAligned(args[..|args| - 1]);
    }
  }

  /** A well-formed packet takes a multiple of four bytes, so its siblings stay 4-aligned. */
  lemma {:induction false} SizeAligned(p: Packet)
    requires WellFormed(p)
    ensures Size(p) % 4 == 0
    decreases p, 1
  {
    match p
    case MessagePacket(_, args) =>
      forall i | 0 <= i < |args|
        ensures |args[i].bytes| % 4 == 0
      {
        WellFormedArgAt(args, i);
        ArgAligned(args[i]);
      }
      PayloadAligned(args);
    case BundlePacket(_, ps) =>
      ChildrenAligned(p, |ps|);
  }

  /** The children of a well-formed bundle take a multiple of four bytes. */
  lemma {:induction false} ChildrenAligned(p: Packet, n: nat)
    requires p.BundlePacket? && n <= |p.packets| && WellFormed(p)
    ensures ChildrenSize(p, n) % 4 == 0
    decreases p, 0, n
  {
    if n > 0 {
      ChildrenAligned(p, n - 1);
      if p.packets[n - 1].Some? {
        SizeAligned(p.packets[n - 1].value);
      }
    }
  }

  /** Raising time tags keeps a packet well formed. */
  lemma {:induction false} RaisedWellFormed(p: Packet, floor: TimeTagValue)
    requires WellFormed(p)
    ensures WellFormed(RaisedUnder(p, floor))
    decreases p
  {
    if p.BundlePacket? {
      var q := RaisedUnder(p, floor);
      forall i | 0 <= i < |q.packets| && q.packets[i].Some?
        ensures WellFormed(q.packets[i].value)
      {
        assert q.packets[i] == RaisedChild(p, i, q.timeTag);
        RaisedWellFormed(p.packets[i].value, q.timeTag);
      }
    }
  }
}
