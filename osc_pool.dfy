/**
 * OscPools: the recycling pool.  Messages are kept on stacks keyed by the
 * lossy hash of their address, bundles on one stack.  A message taken from
 * the pool is cleared and handed out again; when no recycled one is there
 * a new one is made and counted.  The pool never grows past 1000 address
 * buckets of 1000 messages each, and keeps at most 1001 bundles.
 *
 * The source's pool is a static class; here it is one object whose fields
 * are that static state.
 */
module OscPools {
  import opened Bytes
  import opened Wrappers
  import OscStringHash
  import OscAddress
  import OscMessages
  import OscBundles
  import OscPackets

  type OscMessage = OscMessages.OscMessage
  type OscBundle = OscBundles.OscBundle

  /** The pool's limit on buckets, on messages per bucket and (one over) on bundles. */
  const SAFETY_CAPACITY: nat := 1000

  /** The message stacks, keyed by address hash; the top of a stack is its last element. */
  type Stacks = map<uint32, seq<OscMessage>>

  /** A recycled packet: a message, a bundle or null. */
  datatype PacketRef = MessageRef(message: OscMessage) | BundleRef(bundle: OscBundle)

  /* ---- the stacks as values ---- */

  /** The stack under `hash`, empty when there is none. */
  function StackAt(stacks: Stacks, hash: uint32): seq<OscMessage>
  {
    if hash in stacks then stacks[hash] else []
  }

  /** Whether Recycle has room for one more message under `hash`. */
  predicate HasRoom(stacks: Stacks, hash: uint32)
  {
    (hash in stacks || |stacks| < SAFETY_CAPACITY) && |StackAt(stacks, hash)| < SAFETY_CAPACITY
  }

  /** The stacks after Recycle pushed `message` under `hash`, or unchanged when there is no room. */
  function Pushed(stacks: Stacks, hash: uint32, message: OscMessage): Stacks
  {
    if HasRoom(stacks, hash) then stacks[hash := StackAt(stacks, hash) + [message]] else stacks
  }

  /** The stacks after GetMessage popped the top of the stack under `hash`. */
  function Popped(stacks: Stacks, hash: uint32): Stacks
    requires |StackAt(stacks, hash)| > 0
  {
    var s := stacks[hash];
    stacks[hash := s[..|s| - 1]]
  }

  /** The number of messages the stacks hold. */
  ghost function Total(stacks: Stacks): nat
    decreases |stacks|
  {
    if stacks == map[] then 0
    else
      var h :| h in stacks;
      assert |stacks - {h}| < |stacks| by {
        assert (stacks - {h}).Keys == stacks.Keys - {h};
      }
      |stacks[h]| + Total(stacks - {h})
  }

  /** Every bucket within its limit, and no more buckets than allowed. */
  predicate Bounded(stacks: Stacks)
  {
    |stacks| <= SAFETY_CAPACITY && forall h | h in stacks :: |stacks[h]| <= SAFETY_CAPACITY
  }

  /** The messages on any of the stacks. */
  ghost function Members(stacks: Stacks): set<OscMessage>
  {
    set h, m | h in stacks && m in stacks[h] :: m
  }

  /** The top of a stack is on the stacks. */
  lemma TopIsMember(stacks: Stacks, hash: uint32)
    requires |StackAt(stacks, hash)| > 0
    ensures stacks[hash][|stacks[hash]| - 1] in Members(stacks)
  {
    var s := stacks[hash];
    assert s[|s| - 1] in s;
  }

  /** A push adds at most the pushed message. */
  lemma MembersPushed(stacks: Stacks, hash: uint32, message: OscMessage)
    ensures Members(Pushed(stacks, hash, message)) <= Members(stacks) + {message}
  {
    var pushed := Pushed(stacks, hash, message);
    forall m | m in Members(pushed)
      ensures m in Members(stacks) || m == message
    {
      var h :| h in pushed && m in pushed[h];
      if h == hash && HasRoom(stacks, hash) && m != message {
        var k :| 0 <= k < |pushed[h]| && pushed[h][k] == m;
        assert StackAt(stacks, hash)[k] == m;
      }
    }
  }

  /** A pop adds no message. */
  lemma MembersPopped(stacks: Stacks, hash: uint32)
    requires |StackAt(stacks, hash)| > 0
    ensures Members(Popped(stacks, hash)) <= Members(stacks)
  {
    var popped := Popped(stacks, hash);
    forall m | m in Members(popped)
      ensures m in Members(stacks)
    {
      var h :| h in popped && m in popped[h];
      if h == hash {
        var k :| 0 <= k < |popped[h]| && popped[h][k] == m;
        assert stacks[h][k] == m;
      }
      assert h in stacks && m in stacks[h];
    }
  }

  /* ---- counting ---- */

  /** The total counts any one bucket first, whichever the definition picked. */
  lemma {:induction false} TotalWithout(stacks: Stacks, hash: uint32)
    requires hash in stacks
    ensures Total(stacks) == |stacks[hash]| + Total(stacks - {hash})
    decreases |stacks|
  {
    var h :| h in stacks && Total(stacks) == |stacks[h]| + Total(stacks - {h});
    if h != hash {
      var rest := stacks - {h};
      assert (rest - {hash}).Keys == rest.Keys - {hash};
      assert |rest| < |stacks| by {
        assert rest.Keys == stacks.Keys - {h};
      }
      TotalWithout(rest, hash);
      var others := stacks - {hash};
      assert |others| < |stacks| by {
        assert others.Keys == stacks.Keys - {hash};
      }
      TotalWithout(others, h);
      assert rest - {hash} == others - {h};
    }
  }

  /** Replacing one bucket changes the total by the difference in its length. */
  lemma TotalUpdated(stacks: Stacks, hash: uint32, s: seq<OscMessage>)
    ensures Total(stacks[hash := s]) + |StackAt(stacks, hash)| == Total(stacks) + |s|
  {
    var updated := stacks[hash := s];
    TotalWithout(updated, hash);
    if hash in stacks {
      TotalWithout(stacks, hash);
      assert updated - {hash} == stacks - {hash};
    } else {
      assert updated - {hash} == stacks;
    }
  }

  /** Within the limits the pool holds at most a million messages. */
  lemma {:induction false} TotalBounded(stacks: Stacks)
    requires forall h | h in stacks :: |stacks[h]| <= SAFETY_CAPACITY
    ensures Total(stacks) <= SAFETY_CAPACITY * |stacks|
    decreases |stacks|
  {
    if stacks != map[] {
      var h :| h in stacks;
      var rest := stacks - {h};
      assert rest.Keys == stacks.Keys - {h};
      TotalWithout(stacks, h);
      TotalBounded(rest);
    }
  }

  /** A push adds one message when there is room and nothing otherwise, and keeps the limits. */
  lemma PushedCounts(stacks: Stacks, hash: uint32, message: OscMessage)
    requires Bounded(stacks)
    ensures Bounded(Pushed(stacks, hash, message))
    ensures Total(Pushed(stacks, hash, message)) == Total(stacks) + if HasRoom(stacks, hash) then 1 else 0
  {
    if HasRoom(stacks, hash) {
      TotalUpdated(stacks, hash, StackAt(stacks, hash) + [message]);
      assert Pushed(stacks, hash, message).Keys == stacks.Keys + {hash};
    }
  }

  /** A pop takes one message away and keeps the limits. */
  lemma PoppedCounts(stacks: Stacks, hash: uint32)
    requires Bounded(stacks) && |StackAt(stacks, hash)| > 0
    ensures Bounded(Popped(stacks, hash))
    ensures Total(Popped(stacks, hash)) + 1 == Total(stacks)
  {
    var s := stacks[hash];
    TotalUpdated(stacks, hash, s[..|s| - 1]);
    assert Popped(stacks, hash).Keys == stacks.Keys;
  }

  /**
   * Last in, first out: a message just recycled under `hash` is the one
   * the next GetMessage for that hash hands out, and taking it leaves
   * the stacks as they were, but for an empty bucket a first recycle made.
   */
  lemma PushThenPop(stacks: Stacks, hash: uint32, message: OscMessage)
    requires HasRoom(stacks, hash)
    ensures var pushed := Pushed(stacks, hash, message);
      && |StackAt(pushed, hash)| > 0 && pushed[hash][|pushed[hash]| - 1] == message
      && Popped(pushed, hash) == stacks[hash := StackAt(stacks, hash)]
  {
    var s := StackAt(stacks, hash);
    assert (s + [message])[..|s|] == s;
  }

  /* ---- the pool ---- */

  class OscPool {
    var messageStacks: Stacks
    var bundles: seq<OscBundle>
    var messageCount: int
    var messagesConstructedCount: int
    /** The host's byte order, given to the messages the pool makes. */
    const littleEndian: bool

    /** The messages the pool holds. */
    ghost function Held(): set<OscMessage>
      reads this
    {
      Members(messageStacks)
    }

    /** The payload arrays of the messages the pool holds. */
    ghost function HeldPayloads(): set<object>
      reads this, Held()
    {
      set m | m in Held() :: m.argsData
    }

    /**
     * The pool within its limits, its message count the number of
     * messages it holds, and every held message a valid one.
     */
    ghost predicate Valid()
      reads this, Held(), HeldPayloads()
    {
      && Bounded(messageStacks)
      && messageCount == Total(messageStacks)
      && |bundles| <= SAFETY_CAPACITY + 1
      && forall m | m in Held() :: m.Valid()
    }

    /** The static constructor: no stacks, no bundles, nothing counted. */
    constructor(littleEndian: bool)
      ensures Valid() && messageStacks == map[] && bundles == []
      ensures messageCount == 0 && messagesConstructedCount == 0 && this.littleEndian == littleEndian
    {
      messageStacks := map[];
      bundles := [];
      messageCount := 0;
      messagesConstructedCount := 0;
      this.littleEndian := littleEndian;
    }

    /**
     * Recycle(message): a null message is ignored; otherwise the message
     * goes on the stack of its address hash, unless it would need a
     * 1001st bucket or its bucket already holds 1000.  Only its hash
     * cache changes.
     */
    method RecycleMessage(message: OscMessages.OscMessage?)
      requires Valid() && (message != null ==> message.Valid())
      modifies this, message
      ensures Valid()
      ensures message == null ==> messageStacks == old(messageStacks) && messageCount == old(messageCount)
      ensures message != null ==>
                && message.Valid() && message.address == old(message.address) && message.Args() == old(message.Args())
                && var hash := OscStringHash.PackedText(message.address);
                   && messageStacks == Pushed(old(messageStacks), hash, message)
                   && messageCount == old(messageCount) + if HasRoom(old(messageStacks), hash) then 1 else 0
      ensures bundles == old(bundles) && messagesConstructedCount == old(messagesConstructedCount)
    {
      if message == null {
        return;
      }
      var hash := message.GetAddressHash();
      Push(hash, message);
    }

    /** The bucket logic of Recycle(message), once the hash is known. */
    method Push(hash: uint32, message: OscMessage)
      requires Valid() && message.Valid()
      modifies this
      ensures Valid()
      ensures messageStacks == Pushed(old(messageStacks), hash, message)
      ensures messageCount == old(messageCount) + if HasRoom(old(messageStacks), hash) then 1 else 0
      ensures bundles == old(bundles) && messagesConstructedCount == old(messagesConstructedCount)
    {
      PushedCounts(messageStacks, hash, message);
      MembersPushed(messageStacks, hash, message);
      var stack: seq<OscMessage>;
      if hash in messageStacks {
        stack := messageStacks[hash];
      } else {
        if |messageStacks| >= SAFETY_CAPACITY {
          return;
        }
        stack := [];
      }
      if |stack| >= SAFETY_CAPACITY {
        return;
      }
      messageStacks := messageStacks[hash := stack + [message]];
      messageCount := messageCount + 1;
    }

    /** Recycle(bundle): a null bundle is ignored; otherwise it is pushed unless more than 1000 are held. */
    method RecycleBundle(bundle: OscBundles.OscBundle?)
      requires Valid()
      modifies this
      ensures Valid()
      ensures bundles == if bundle != null && |old(bundles)| <= SAFETY_CAPACITY then old(bundles) + [bundle] else old(bundles)
      ensures messageStacks == old(messageStacks) && messageCount == old(messageCount)
      ensures messagesConstructedCount == old(messagesConstructedCount)
    {
      if bundle == null {
        return;
      }
      if |bundles| > SAFETY_CAPACITY {
        return;
      }
      bundles := bundles + [bundle];
    }

    /**
     * Recycle(packet): a message is recycled as a message, a bundle as a
     * bundle; the second call with the packet as a bundle is a call with
     * null for a message.  The children of a bundle are not recycled.
     */
    method Recycle(packet: Option<PacketRef>)
      requires Valid() && (packet.Some? && packet.value.MessageRef? ==> packet.value.message.Valid())
      modifies this, if packet.Some? && packet.value.MessageRef? then {packet.value.message} else {}
      ensures Valid()
      ensures packet.Some? && packet.value.MessageRef? ==>
                var message := packet.value.message;
                && message.Valid() && message.address == old(message.address) && message.Args() == old(message.Args())
                && messageStacks == Pushed(old(messageStacks), OscStringHash.PackedText(message.address), message)
                && bundles == old(bundles)
      ensures packet.Some? && packet.value.BundleRef? ==>
                && messageStacks == old(messageStacks)
                && bundles == if |old(bundles)| <= SAFETY_CAPACITY then old(bundles) + [packet.value.bundle] else old(bundles)
      ensures packet.None? ==> messageStacks == old(messageStacks) && bundles == old(bundles)
      ensures messagesConstructedCount == old(messagesConstructedCount)
    {
      if packet.None? {
        return;
      }
      var message: OscMessages.OscMessage? := null;
      var bundle: OscBundles.OscBundle? := null;
      match packet.value {
        case MessageRef(m) => message := m;
        case BundleRef(b) => bundle := b;
      }
      if message != null {
        RecycleMessage(message);
      }
      RecycleBundle(bundle);
    }

    /** The object GetMessage(hash) clears: the top of the hash's stack, if any. */
    ghost function TopOf(hash: uint32): set<object>
      reads this
    {
      var s := StackAt(messageStacks, hash);
      if |s| > 0 then {s[|s| - 1]} else {}
    }

    /**
     * GetMessage(hash): the top message of the hash's stack, taken off and
     * cleared, when there is one; otherwise a new message with a null
     * address, counted as constructed.
     */
    method GetMessage(hash: uint32) returns (message: OscMessage)
      requires Valid()
      modifies this, TopOf(hash)
      ensures Valid() && message.Valid() && message.Args() == []
      ensures bundles == old(bundles)
      ensures var s := StackAt(old(messageStacks), hash);
        if |s| > 0 then
          && message == s[|s| - 1] && message.address == old(message.address)
          && messageStacks == Popped(old(messageStacks), hash) && messageCount == old(messageCount) - 1
          && messagesConstructedCount == old(messagesConstructedCount)
        else
          && fresh(message) && message.address == ""
          && messageStacks == old(messageStacks) && messageCount == old(messageCount)
          && messagesConstructedCount == old(messagesConstructedCount) + 1
    {
      if hash in messageStacks && |messageStacks[hash]| > 0 {
        message := TakeTop(hash);
        return;
      }
      message := new OscMessages.OscMessage("", littleEndian);
      messagesConstructedCount := messagesConstructedCount + 1;
    }

    /**
     * GetMessage(address): as GetMessage(hash) with the address's hash,
     * but a reused message gets the address through the sanitising setter
     * when its own differs, and a new message is made with the address
     * as given.
     */
    method GetMessageFor(address: string) returns (message: OscMessage)
      requires Valid()
      modifies this, TopOf(OscStringHash.PackedText(address))
      ensures Valid() && message.Valid() && message.Args() == []
      ensures bundles == old(bundles)
      ensures var s := StackAt(old(messageStacks), OscStringHash.PackedText(address));
        if |s| > 0 then
          && message == s[|s| - 1]
          && message.address == (if old(message.address) == address then address else OscAddress.Sanitized(address))
          && messageStacks == Popped(old(messageStacks), OscStringHash.PackedText(address))
          && messageCount == old(messageCount) - 1
          && messagesConstructedCount == old(messagesConstructedCount)
        else
          && fresh(message) && message.address == address
          && messageStacks == old(messageStacks) && messageCount == old(messageCount)
          && messagesConstructedCount == old(messagesConstructedCount) + 1
    {
      var hash := OscStringHash.Pack(address);
      if hash in messageStacks && |messageStacks[hash]| > 0 {
        message := TakeTop(hash);
        if message.address != address {
          message.SetAddress(address);
        }
        return;
      }
      message := new OscMessages.OscMessage(address, littleEndian);
      messagesConstructedCount := messagesConstructedCount + 1;
    }

    /** Take the top message off the hash's stack and clear it. */
    method TakeTop(hash: uint32) returns (message: OscMessage)
      requires Valid() && |StackAt(messageStacks, hash)| > 0
      modifies this, TopOf(hash)
      ensures Valid() && message.Valid() && message.Args() == []
      ensures var s := old(messageStacks[hash]);
        && message == s[|s| - 1] && message.address == old(message.address)
        && messageStacks == Popped(old(messageStacks), hash) && messageCount == old(messageCount) - 1
      ensures bundles == old(bundles) && messagesConstructedCount == old(messagesConstructedCount)
    {
      message := Pop(hash);
      message.Clear();
    }

    /** Take the top message off the hash's stack. */
    method Pop(hash: uint32) returns (message: OscMessage)
      requires Valid() && |StackAt(messageStacks, hash)| > 0
      modifies this
      ensures Valid() && message.Valid()
      ensures var s := old(messageStacks[hash]);
        && message == s[|s| - 1]
        && messageStacks == Popped(old(messageStacks), hash) && messageCount == old(messageCount) - 1
      ensures bundles == old(bundles) && messagesConstructedCount == old(messagesConstructedCount)
    {
      var s := messageStacks[hash];
      message := s[|s| - 1];
      TopIsMember(messageStacks, hash);
      PoppedCounts(messageStacks, hash);
      MembersPopped(messageStacks, hash);
      messageStacks := Popped(messageStacks, hash);
      messageCount := messageCount - 1;
    }

    /**
     * GetBundle: the top bundle, taken off and cleared (its time tag
     * reset), or a new bundle stamped with the current time `now`.
     */
    method GetBundle(now: OscPackets.TimeTagValue) returns (bundle: OscBundle)
      requires Valid()
      modifies this, if |bundles| > 0 then {bundles[|bundles| - 1]} else {}
      ensures Valid() && bundle.packets == []
      ensures if |old(bundles)| > 0 then
                && bundle == old(bundles[|bundles| - 1]) && bundles == old(bundles[..|bundles| - 1])
                && bundle.timeTag == OscPackets.TIME_TAG_RESET
              else fresh(bundle) && bundles == old(bundles) && bundle.timeTag == now
      ensures messageStacks == old(messageStacks) && messageCount == old(messageCount)
      ensures messagesConstructedCount == old(messagesConstructedCount)
    {
      if |bundles| > 0 {
        bundle := bundles[|bundles| - 1];
        bundles := bundles[..|bundles| - 1];
        bundle.Clear();
        return;
      }
      bundle := new OscBundles.OscBundle(now);
    }
  }
}
