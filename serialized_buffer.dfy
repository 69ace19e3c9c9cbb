/**
 * SerializedOscMessageBuffers: a byte array that queues the serialised
 * bytes of messages one after another, with the size of each.  A reader
 * walks the array by the recorded sizes, so the buffer is sound when the
 * sizes add up to the occupied bytes and each run holds its message.
 */
module SerializedOscMessageBuffers {
  import opened Bytes
  import opened OscMessageLayout
  import OscDataBlock
  import OscMessages
  import OscPackets
  import StringOscData
  import opened Wrappers

  /** The messages' bytes one after another. */
  function Concat(wires: seq<seq<byte>>): (all: seq<byte>)
  {
    if wires == [] then [] else Concat(wires[..|wires| - 1]) + wires[|wires| - 1]
  }

  /** The sum of the recorded sizes of the first n messages. */
  function Offset(sizes: seq<int>, n: nat): int
    requires n <= |sizes|
  {
    if n == 0 then 0 else Offset(sizes, n - 1) + sizes[n - 1]
  }

  /** Sizes that are the lengths of the runs. */
  predicate Recorded(sizes: seq<int>, wires: seq<seq<byte>>)
  {
    |sizes| == |wires| && forall i :: 0 <= i < |sizes| ==> sizes[i] == |wires[i]|
  }

  /** The recorded sizes of the first n messages add up to the bytes those messages take. */
  lemma {:induction false} OffsetIsLength(sizes: seq<int>, wires: seq<seq<byte>>, n: nat)
    requires Recorded(sizes, wires) && n <= |sizes|
    ensures Offset(sizes, n) == |Concat(wires[..n])|
  {
    if n > 0 {
      OffsetIsLength(sizes, wires, n - 1);
      assert wires[..n][..n - 1] == wires[..n - 1];
    }
  }

  /** The first n runs lead the bytes of all of them. */
  lemma {:induction false} ConcatPrefix(wires: seq<seq<byte>>, n: nat)
    requires n <= |wires|
    ensures Concat(wires[..n]) <= Concat(wires)
    decreases |wires|
  {
    if n < |wires| {
      ConcatPrefix(wires[..|wires| - 1], n);
      assert wires[..|wires| - 1][..n] == wires[..n];
    } else {
      assert wires[..n] == wires;
    }
  }

  /**
   * The message a reader finds at the i-th recorded offset, taking the
   * i-th recorded size, is the i-th message queued.
   */
  lemma MessageAt(sizes: seq<int>, wires: seq<seq<byte>>, i: nat)
    requires Recorded(sizes, wires) && i < |sizes|
    ensures 0 <= Offset(sizes, i) && Offset(sizes, i + 1) <= |Concat(wires)|
    ensures Concat(wires)[Offset(sizes, i)..Offset(sizes, i + 1)] == wires[i]
  {
    OffsetIsLength(sizes, wires, i);
    OffsetIsLength(sizes, wires, i + 1);
    ConcatPrefix(wires, i + 1);
    assert wires[..i + 1][..i] == wires[..i];
    var front := Concat(wires[..i + 1]);
    assert front == Concat(wires[..i]) + wires[i];
    assert front[|Concat(wires[..i])|..] == wires[i];
  }

  /**
   * The length a full buffer grows to, as written: one capacity step,
   * however much the message needs.
   */
  function GrownAsWritten(length: nat, step: nat, required: nat): (n: nat)
  {
    length + step
  }

  /** The length a full buffer grows to: one capacity step, or as much as the message needs if that is more. */
  function Grown(length: nat, step: nat, required: nat): (n: nat)
    ensures n >= required && n >= length + step
    ensures required <= length + step ==> n == GrownAsWritten(length, step, required)
  {
    if required <= length + step then length + step else required
  }

  /** The corrected growth always leaves room for the message. */
  lemma GrowthFits(length: nat, step: nat, occupied: nat, size: nat)
    requires occupied <= length
    ensures occupied + size <= if occupied + size > length then Grown(length, step, occupied + size) else length
  {
  }

  /**
   * As written, a message bigger than the free room plus one step is not
   * written, but its size is still recorded: with a capacity of 4, the
   * message "/abcd" with no arguments needs 12 bytes and the array grows
   * only to 8.
   */
  lemma GrowthTooSmall()
    ensures MessageSize("/abcd", 0, 0) == 12
    ensures GrownAsWritten(4, 4, 0 + 12) < 0 + 12
    ensures Grown(4, 4, 0 + 12) >= 0 + 12
  {
    assert StringOscData.EvaluateByteCount("/abcd") == 8;
  }

  /** What a write into a byte sequence leaves in front of its end. */
  lemma WrittenFront(before: seq<byte>, after: seq<byte>, at: nat, chunk: seq<byte>)
    requires OscDataBlock.WrittenAt(before, after, at, chunk)
    ensures after[..at + |chunk|] == before[..at] + chunk
  {
    assert forall j :: 0 <= j < at + |chunk| ==> after[..at + |chunk|][j] == (before[..at] + chunk)[j];
  }

  /** A valid message's bytes take a multiple of four bytes. */
  lemma WireAligned(address: string, args: seq<Arg>)
    requires WellFormedArgs(args)
    ensures |MessageWire(address, args)| % 4 == 0
  {
    OscPackets.SizeAligned(OscPackets.MessagePacket(address, args));
  }

  class SerializedOscMessageBuffer {
    var data: array<byte>
    var sizes: seq<int>
    var occupiedSize: nat
    const capacityStep: nat
    /** The bytes of the messages queued, in order. */
    ghost var wires: seq<seq<byte>>

    /**
     * The occupied bytes are the queued messages one after another, each
     * recorded with its size, and they end on a 4-byte boundary.
     */
    ghost predicate Valid()
      reads this, data
    {
      && Recorded(sizes, wires)
      && occupiedSize <= data.Length && data[..occupiedSize] == Concat(wires)
      && occupiedSize % 4 == 0
    }

    /** `new SerializedOscMessageBuffer(capacity)`: an empty buffer of that capacity, which is also the growth step. */
    constructor(capacity: nat)
      ensures Valid() && wires == [] && sizes == [] && occupiedSize == 0
      ensures fresh(data) && data.Length == capacity && capacityStep == capacity
    {
      capacityStep := capacity;
      data := new byte[capacity];
      sizes := [];
      occupiedSize := 0;
      wires := [];
    }

    /** count: the number of messages queued. */
    function Count(): (n: nat)
      requires Valid()
      reads this, data
      ensures n == |wires|
    {
      |sizes|
    }

    /** Move the occupied bytes to a new array of `length` bytes. */
    method GrowTo(length: nat)
      requires Valid() && occupiedSize <= length
      modifies this
      ensures Valid() && wires == old(wires) && sizes == old(sizes) && occupiedSize == old(occupiedSize)
      ensures fresh(data) && data.Length == length
    {
      var newData := new byte[length];
      forall k | 0 <= k < occupiedSize {
        newData[k] := data[k];
      }
      assert newData[..occupiedSize] == data[..occupiedSize];
      data := newData;
    }

    /** Record a message whose bytes now follow the occupied ones and end at `next`. */
    method Append(ghost wire: seq<byte>, size: nat, next: nat)
      requires Recorded(sizes, wires) && occupiedSize % 4 == 0 && |wire| % 4 == 0
      requires size == |wire| && next == occupiedSize + size <= data.Length
      requires data[..next] == Concat(wires) + wire
      modifies this
      ensures Valid() && wires == old(wires) + [wire] && sizes == old(sizes) + [size] && occupiedSize == next
      ensures data == old(data)
    {
      occupiedSize := next;
      sizes := sizes + [size];
      wires := wires + [wire];
    }

    /**
     * Add: record the message's size and write its bytes after the
     * occupied ones, growing the array first when they do not fit; the
     * array grows by one step, or to the size the message needs.
     */
    method Add(message: OscMessages.OscMessage)
      requires Valid() && message.Valid() && message.argsData != data
      modifies this, data, message
      ensures Valid() && message.Valid() && message.address == old(message.address) && message.Args() == old(message.Args())
      ensures var wire := old(MessageWire(message.address, message.Args()));
        && wires == old(wires) + [wire] && sizes == old(sizes) + [|wire|]
        && occupiedSize == old(occupiedSize) + |wire|
    {
      var messageSize := message.Size();
      var requiredCapacity := occupiedSize + messageSize;
      if requiredCapacity > data.Length {
        GrowTo(Grown(data.Length, capacityStep, requiredCapacity));
      }
      var ok, index := WriteAfter(message);
      Append(MessageWire(message.address, message.Args()), messageSize, index);
    }

    /**
     * The write in Add: the message's bytes after the occupied ones when
     * they fit, nothing otherwise; the buffer's fields stay as they are.
     */
    method WriteAfter(message: OscMessages.OscMessage) returns (ok: bool, index: nat)
      requires Valid() && message.Valid() && message.argsData != data
      modifies data, message
      ensures message.Valid() && message.address == old(message.address) && message.Args() == old(message.Args())
      ensures var wire := MessageWire(message.address, message.Args());
        && |wire| % 4 == 0
        && (ok <==> occupiedSize + |wire| <= data.Length)
        && (ok ==> index == occupiedSize + |wire| && data[..index] == Concat(wires) + wire)
        && (!ok ==> index == occupiedSize && data[..] == old(data[..]))
    {
      ghost var wire := MessageWire(message.address, message.Args());
      WireAligned(message.address, message.Args());
      ghost var before := data[..];
      ok, index := message.TryWriteTo(data, occupiedSize);
      if ok {
        WrittenFront(before, data[..], occupiedSize, wire);
      }
    }

    /**
     * Add as written: the array grows by one step only, so a message that
     * still does not fit is not written, yet its size is recorded.
     */
    method AddAsWritten(message: OscMessages.OscMessage)
      requires Valid() && message.Valid() && message.argsData != data
      modifies this, data, message
      ensures message.Valid() && message.address == old(message.address) && message.Args() == old(message.Args())
      ensures var wire := old(MessageWire(message.address, message.Args()));
        && sizes == old(sizes) + [|wire|]
        && if old(occupiedSize) + |wire| <= GrownAsWritten(old(data.Length), capacityStep, old(occupiedSize) + |wire|)
           then Valid() && wires == old(wires) + [wire]
           else occupiedSize == old(occupiedSize) && wires == old(wires)
    {
      var messageSize := message.Size();
      var requiredCapacity := occupiedSize + messageSize;
      if requiredCapacity > data.Length {
        GrowTo(GrownAsWritten(data.Length, capacityStep, requiredCapacity));
      }
      var ok, index := WriteAfter(message);
      if ok {
        Append(MessageWire(message.address, message.Args()), messageSize, index);
      } else {
        occupiedSize := index;
        sizes := sizes + [messageSize];
      }
    }

    /** Clear: no messages; the array is kept. */
    method Clear()
      requires Valid()
      modifies this
      ensures Valid() && wires == [] && sizes == [] && occupiedSize == 0 && data == old(data)
    {
      sizes := [];
      occupiedSize := 0;
      wires := [];
    }

    /** GetSize: the size of a queued message, 0 for an index out of range. */
    method GetSize(messageIndex: int) returns (size: int)
      requires Valid()
      ensures 0 <= messageIndex < |wires| ==> size == |wires[messageIndex]|
      ensures !(0 <= messageIndex < |wires|) ==> size == 0
    {
      if messageIndex < 0 || messageIndex > |sizes| - 1 {
        return 0;
      }
      return sizes[messageIndex];
    }
  }

  /**
   * `new SerializedOscMessageBuffer(capacity)` for any int capacity:
   * `new byte[capacity]` throws on a negative one, which is None here;
   * otherwise an empty buffer of that capacity, which is also the step.
   */
  method NewBuffer(capacity: int) returns (buffer: Option<SerializedOscMessageBuffer>)
    ensures buffer.None? <==> capacity < 0
    ensures buffer.Some? ==>
      && fresh(buffer.value) && fresh(buffer.value.data) && buffer.value.Valid()
      && buffer.value.wires == [] && buffer.value.sizes == [] && buffer.value.occupiedSize == 0
      && buffer.value.data.Length == capacity && buffer.value.capacityStep == capacity
  {
    if capacity < 0 {
      return None;
    }
    var b := new SerializedOscMessageBuffer(capacity);
    return Some(b);
  }
}
