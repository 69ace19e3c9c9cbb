/**
 * OscMessageWire: the byte-level half of OscMessage.TryWriteTo.  The
 * address OSC-string, the ',' tag prefix, one tag byte per argument, the
 * NUL padding of the tag section and the payload bytes are written one
 * after the other; together they are the message's MessageWire.
 */
module OscMessageWire {
  import opened Bytes
  import opened OscTypes
  import opened OscArgInfo
  import opened OscMessageLayout
  import OscDataBlock
  import StringOscData
  import OscMessageEdits

  /** The tag bytes of the first `count` records. */
  function RecordTags(infos: seq<OscArgInfo>, count: nat): (tags: seq<byte>)
    requires count <= |infos|
    ensures |tags| == count
    ensures forall i :: 0 <= i < count ==> tags[i] == infos[i].tagByte
  {
    seq(count, i requires 0 <= i < count => infos[i].tagByte)
  }

  /** The records' tags are the tags of the arguments they describe. */
  lemma TagsOfRecords(infos: seq<OscArgInfo>, count: nat, data: seq<byte>)
    requires Packed(infos, count) && End(infos, count) <= |data|
    ensures Tags(ArgsOf(infos, count, data)) == RecordTags(infos, count)
  {
    var args := ArgsOf(infos, count, data);
    assert forall i :: 0 <= i < count ==> Tags(args)[i] == args[i].tagByte == infos[i].tagByte;
  }

  /** The argument tag loop: data[index++] = tagByte for each record. */
  method WriteTags(infos: seq<OscArgInfo>, count: nat, data: array<byte>, index: nat) returns (next: nat)
    requires count <= |infos| && index + count <= data.Length
    modifies data
    ensures next == index + count
    ensures OscDataBlock.WrittenAt(old(data[..]), data[..], index, RecordTags(infos, count))
  {
    ghost var tags := RecordTags(infos, count);
    var i := 0;
    while i < count
      invariant 0 <= i <= count
      invariant forall k :: 0 <= k < data.Length ==>
        data[k] == if index <= k < index + i then tags[k - index] else old(data[k])
    {
      data[index + i] := infos[i].tagByte;
      i := i + 1;
    }
    next := index + count;
  }

  /** The trailing-NUL loop: data[index++] = 0, `count` times. */
  method WriteZeros(count: nat, data: array<byte>, index: nat) returns (next: nat)
    requires index + count <= data.Length
    modifies data
    ensures next == index + count
    ensures OscDataBlock.WrittenAt(old(data[..]), data[..], index, Zeros(count))
  {
    var i := 0;
    while i < count
      invariant 0 <= i <= count
      invariant forall k :: 0 <= k < data.Length ==>
        data[k] == if index <= k < index + i then 0 else old(data[k])
    {
      data[index + i] := 0;
      i := i + 1;
    }
    next := index + count;
  }

  /** The tag prefix: data[index++] = ','. */
  method WritePrefix(data: array<byte>, index: nat) returns (next: nat)
    requires index < data.Length
    modifies data
    ensures next == index + 1
    ensures OscDataBlock.WrittenAt(old(data[..]), data[..], index, [TAG_PREFIX_BYTE])
  {
    data[index] := TAG_PREFIX_BYTE;
    next := index + 1;
  }

  /** The tag section of the records: ',', one tag per argument, NUL padding to a multiple of four. */
  function TagSection(infos: seq<OscArgInfo>, count: nat): (section: seq<byte>)
    requires count <= |infos|
    ensures |section| == TagSectionSize(count)
  {
    [TAG_PREFIX_BYTE] + RecordTags(infos, count) + Zeros(StringOscData.Padding(1 + count))
  }

  /** The three writes after the address: the prefix, the tags and the trailing NULs. */
  method WriteTagSection(infos: seq<OscArgInfo>, count: nat, data: array<byte>, index: nat) returns (next: nat)
    requires count <= |infos| && index % 4 == 0 && index + TagSectionSize(count) <= data.Length
    modifies data
    ensures next == index + TagSectionSize(count)
    ensures OscDataBlock.WrittenAt(old(data[..]), data[..], index, TagSection(infos, count))
  {
    ghost var d0 := data[..];
    var afterPrefix := WritePrefix(data, index);
    ghost var d1 := data[..];
    var afterTags := WriteTags(infos, count, data, afterPrefix);
    ghost var d2 := data[..];
    TrailingNulls(index, count);
    var trailingNullCount := 4 - afterTags % 4;
    next := WriteZeros(trailingNullCount, data, afterTags);
    OscDataBlock.WrittenAtThen(d0, d1, d2, index, [TAG_PREFIX_BYTE], RecordTags(infos, count));
    OscDataBlock.WrittenAtThen(d0, d2, data[..], index, [TAG_PREFIX_BYTE] + RecordTags(infos, count), Zeros(trailingNullCount));
  }

  /** The message's wire bytes are the address, the tag section and the payload. */
  lemma WireInParts(address: string, infos: seq<OscArgInfo>, count: nat, byteCount: nat, payload: seq<byte>)
    requires Packed(infos, count) && byteCount == End(infos, count) && byteCount <= |payload|
    ensures StringOscData.Encode(address) + TagSection(infos, count) + payload[..byteCount]
            == MessageWire(address, ArgsOf(infos, count, payload))
  {
    PayloadOfPacked(infos, count, payload);
    TagsOfRecords(infos, count, payload);
  }

  /** From a 4-aligned index, the NULs after the tags are the tag section's padding. */
  lemma TrailingNulls(index: nat, count: nat)
    requires index % 4 == 0
    ensures 4 - (index + 1 + count) % 4 == StringOscData.Padding(1 + count)
  {
    assert (index + 1 + count) % 4 == (1 + count) % 4 by {
      assert index + 1 + count == 4 * (index / 4) + (1 + count);
    }
  }

  /**
   * The writes of TryWriteTo once its capacity check has passed.  From a
   * 4-aligned index they lay down exactly the message's wire bytes and
   * leave the rest of `data` as it was.
   */
  method WriteMessage(address: string, infos: seq<OscArgInfo>, count: nat, byteCount: nat,
                      payload: array<byte>, data: array<byte>, index: nat) returns (next: nat)
    requires Packed(infos, count) && byteCount == End(infos, count) && byteCount <= payload.Length
    requires payload != data && index % 4 == 0
    requires index + MessageSize(address, count, byteCount) <= data.Length
    modifies data
    ensures next == index + MessageSize(address, count, byteCount)
    ensures OscDataBlock.WrittenAt(old(data[..]), data[..], index, MessageWire(address, ArgsOf(infos, count, payload[..])))
  {
    ghost var d0 := data[..];
    var afterTags := WriteHead(address, infos, count, data, index);
    ghost var d1 := data[..];
    ghost var head := StringOscData.Encode(address) + TagSection(infos, count);
    OscMessageEdits.FastCopy(payload, 0, data, afterTags, byteCount);
    next := afterTags + byteCount;
    OscDataBlock.WrittenAtThen(d0, d1, data[..], index, head, payload[..byteCount]);
    WireInParts(address, infos, count, byteCount, payload[..]);
    OscDataBlock.WrittenAtChunk(d0, data[..], index, head + payload[..byteCount],
                                MessageWire(address, ArgsOf(infos, count, payload[..])));
  }

  /** The address and the tag section, written one after the other. */
  method WriteHead(address: string, infos: seq<OscArgInfo>, count: nat, data: array<byte>, index: nat)
    returns (next: nat)
    requires count <= |infos| && index % 4 == 0
    requires index + |StringOscData.Encode(address)| + TagSectionSize(count) <= data.Length
    modifies data
    ensures next == index + |StringOscData.Encode(address)| + TagSectionSize(count)
    ensures OscDataBlock.WrittenAt(old(data[..]), data[..], index, StringOscData.Encode(address) + TagSection(infos, count))
  {
    ghost var d0 := data[..];
    var _, afterAddress := StringOscData.TryWriteTo(address, data, index);
    ghost var d1 := data[..];
    next := WriteTagSection(infos, count, data, afterAddress);
    OscDataBlock.WrittenAtThen(d0, d1, data[..], index, StringOscData.Encode(address), TagSection(infos, count));
  }

  /** The arithmetic of Size(): address, ',' and tags, NUL padding, payload. */
  method EvaluateSize(address: string, count: nat, byteCount: nat) returns (n: nat)
    ensures n == MessageSize(address, count, byteCount)
  {
    var addressSize := StringOscData.EvaluateByteCount(address);
    n := addressSize;
    n := n + 1;
    n := n + count;
    TrailingNulls(addressSize, count);
    n := n + (4 - n % 4);
    n := n + byteCount;
  }
}
