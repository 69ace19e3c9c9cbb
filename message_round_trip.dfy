/**
 * OscMessageRoundTrip: a message written by OscMessage.TryWriteTo from a
 * 4-aligned index reads back through OscMessage.TryReadFrom as the same
 * address and the same arguments, consuming exactly the bytes written.
 * It holds for the arguments the reader sizes back to their own bytes:
 * every argument Set makes is one of them, while a string argument with
 * more NULs than its padding needs is not.
 */
module OscMessageRoundTrip {
  import opened Bytes
  import opened Wrappers
  import opened OscTypes
  import opened OscArgInfo
  import opened OscMessageLayout
  import opened OscMessageParse
  import OscConverter
  import StringOscData
  import BlobOscData
  import OscDataBlock
  import OscMessageReader

  /** An argument the reader sizes to exactly its bytes: well formed, and a string padded with no extra NULs. */
  predicate Readable(arg: Arg)
  {
    && WellFormedArg(arg)
    && (arg.argType == String ==> StringSize(arg.bytes, 0) == |arg.bytes|)
  }

  /** Every argument is readable (stated from the last one back, as the payload is built). */
  predicate AllReadable(args: seq<Arg>)
    decreases |args|
  {
    args == [] || (AllReadable(args[..|args| - 1]) && Readable(args[|args| - 1]))
  }

  /** The records of some arguments laid back to back, as Set lays them out and as the reader rebuilds them. */
  function Layout(args: seq<Arg>): (infos: seq<OscArgInfo>)
    ensures |infos| == |args| && Packed(infos, |args|) && End(infos, |args|) == |Payload(args)|
    decreases |args|
  {
    if args == [] then []
    else
      var front := args[..|args| - 1];
      var last := args[|args| - 1];
      Layout(front) + [OscArgInfo(last.tagByte, last.argType, |last.bytes|, |Payload(front)|)]
  }

  /** The bytes at `at` are `chunk`. */
  lemma Holds(data: seq<byte>, at: nat, chunk: seq<byte>)
    requires at + |chunk| <= |data| && data[at..at + |chunk|] == chunk
    ensures OscDataBlock.WrittenAt(data, data, at, chunk)
  {
    forall j | at <= j < at + |chunk|
      ensures data[j] == chunk[j - at]
    {
      assert data[j] == data[at..at + |chunk|][j - at];
    }
  }

  /** A readable argument whose bytes sit at `at` is sized to exactly those bytes. */
  lemma ReadableSize(data: seq<byte>, at: nat, arg: Arg)
    requires Readable(arg) && at + |arg.bytes| <= |data| && data[at..at + |arg.bytes|] == arg.bytes
    ensures OscConverter.ToArgType(arg.tagByte) == arg.argType
    ensures ArgSize(data, at, arg.tagByte) == Some(|arg.bytes|)
  {
    var bytes := arg.bytes;
    if arg.argType == String {
      var run := StringOscData.RunLength(bytes, 0);
      forall j | at <= j < at + run
        ensures data[j] != 0
      {
        assert data[j] == bytes[j - at];
      }
      assert data[at + run] == bytes[run];
      StringOscData.RunLengthOfRun(data, at, at + run);
    } else if arg.argType == Blob {
      assert data[at..at + 4] == bytes[0..4];
    }
  }

  /** The tags of some arguments are those of all but the last, then the last one's. */
  lemma TagsSnoc(args: seq<Arg>)
    requires args != []
    ensures Tags(args)[..|args| - 1] == Tags(args[..|args| - 1]) && Tags(args)[|args| - 1] == args[|args| - 1].tagByte
  {
    assert Tags(args)[..|args| - 1] == Tags(args[..|args| - 1]);
  }

  /** The records for the tags of some arguments are those for all but the last, and one more for the last. */
  lemma RecordsOfTagsSnoc(data: seq<byte>, argsStart: nat, args: seq<Arg>)
    requires args != []
    requires Records(data, Tags(args[..|args| - 1]), argsStart) == Some(Layout(args[..|args| - 1]))
    ensures Records(data, Tags(args), argsStart)
         == Appended(data, argsStart, Layout(args[..|args| - 1]), args[|args| - 1].tagByte)
  {
    TagsSnoc(args);
  }

  /** Bytes that hold `x + y` at `at` hold `x` there and `y` right after it. */
  lemma SliceSplit(data: seq<byte>, at: nat, x: seq<byte>, y: seq<byte>)
    requires at + |x| + |y| <= |data| && data[at..at + |x| + |y|] == x + y
    ensures data[at..at + |x|] == x && data[at + |x|..at + |x| + |y|] == y
  {
    forall k | 0 <= k < |x|
      ensures data[at..at + |x|][k] == x[k]
    {
      assert data[at + k] == data[at..at + |x| + |y|][k];
    }
    forall k | 0 <= k < |y|
      ensures data[at + |x|..at + |x| + |y|][k] == y[k]
    {
      assert data[at + |x| + k] == data[at..at + |x| + |y|][|x| + k];
    }
  }

  /** Bytes that hold the payload of some arguments hold the payload of all but the last, then the last one's bytes. */
  lemma PayloadSplit(data: seq<byte>, argsStart: nat, args: seq<Arg>)
    requires args != []
    requires argsStart + |Payload(args)| <= |data| && data[argsStart..argsStart + |Payload(args)|] == Payload(args)
    ensures var front := args[..|args| - 1];
      var last := args[|args| - 1];
      var lo := argsStart + |Payload(front)|;
      && lo + |last.bytes| <= |data|
      && data[argsStart..lo] == Payload(front)
      && data[lo..lo + |last.bytes|] == last.bytes
  {
    SliceSplit(data, argsStart, Payload(args[..|args| - 1]), args[|args| - 1].bytes);
  }

  /** The records the reader makes for the tags of readable arguments laid out at `argsStart` are their layout. */
  lemma {:induction false} RecordsOfPayload(data: seq<byte>, argsStart: nat, args: seq<Arg>)
    requires AllReadable(args)
    requires argsStart + |Payload(args)| <= |data| && data[argsStart..argsStart + |Payload(args)|] == Payload(args)
    ensures Records(data, Tags(args), argsStart) == Some(Layout(args))
    decreases |args|
  {
    if args != [] {
      var n := |args| - 1;
      PayloadSplit(data, argsStart, args);
      RecordsOfPayload(data, argsStart, args[..n]);
      RecordsOfLast(data, argsStart, args);
    }
  }

  /** One more readable argument whose bytes follow the payload before it extends the records by its layout record. */
  lemma RecordsOfLast(data: seq<byte>, argsStart: nat, args: seq<Arg>)
    requires args != [] && Readable(args[|args| - 1])
    requires Records(data, Tags(args[..|args| - 1]), argsStart) == Some(Layout(args[..|args| - 1]))
    requires var at := argsStart + |Payload(args[..|args| - 1])|;
      at + |args[|args| - 1].bytes| <= |data| && data[at..at + |args[|args| - 1].bytes|] == args[|args| - 1].bytes
    ensures Records(data, Tags(args), argsStart) == Some(Layout(args))
  {
    ReadableAppended(data, argsStart, Layout(args[..|args| - 1]), |Payload(args[..|args| - 1])|, args[|args| - 1]);
    RecordsOfTagsSnoc(data, argsStart, args);
  }

  /** A readable argument whose bytes follow packed records adds one record, sized to those bytes. */
  lemma ReadableAppended(data: seq<byte>, argsStart: nat, infos: seq<OscArgInfo>, total: nat, last: Arg)
    requires Packed(infos, |infos|) && total == End(infos, |infos|)
    requires Readable(last)
    requires argsStart + total + |last.bytes| <= |data| && data[argsStart + total..argsStart + total + |last.bytes|] == last.bytes
    ensures Appended(data, argsStart, infos, last.tagByte)
         == Some(infos + [OscArgInfo(last.tagByte, last.argType, |last.bytes|, total)])
  {
    ReadableSize(data, argsStart + total, last);
    OscMessageReader.AppendedIs(data, argsStart, infos, last.tagByte, total, Some(|last.bytes|));
  }

  /** Argument i read through the layout is argument i. */
  lemma {:induction false} LayoutArg(args: seq<Arg>, i: nat)
    requires i < |args|
    ensures ArgAt(Layout(args), |args|, Payload(args), i) == args[i]
    decreases |args|
  {
    var n := |args| - 1;
    var front := args[..n];
    var payload := Payload(args);
    var frontPayload := Payload(front);
    assert payload == frontPayload + args[n].bytes;
    if i < n {
      LayoutArg(front, i);
      var info := Layout(front)[i];
      assert Layout(args)[i] == info;
      ArgBounds(Layout(front), n, i);
      assert payload[info.byteIndex..info.byteIndex + info.byteCount]
          == frontPayload[info.byteIndex..info.byteIndex + info.byteCount];
    } else {
      assert payload[|frontPayload|..|payload|] == args[n].bytes;
    }
  }

  /** Read through their layout, the payload of some arguments gives the same arguments back. */
  lemma ArgsOfLayout(args: seq<Arg>)
    ensures ArgsOf(Layout(args), |args|, Payload(args)) == args
  {
    forall i | 0 <= i < |args|
      ensures ArgsOf(Layout(args), |args|, Payload(args))[i] == args[i]
    {
      LayoutArg(args, i);
    }
  }

  /** No tag byte is NUL, so the tag run ends after the last tag. */
  predicate NulFreeTags(args: seq<Arg>)
  {
    forall k :: 0 <= k < |args| ==> args[k].tagByte != 0
  }

  /** Readable arguments have supported tags, and no supported tag is NUL. */
  lemma {:induction false} ReadableTags(args: seq<Arg>)
    requires AllReadable(args)
    ensures NulFreeTags(args)
    decreases |args|
  {
    if args != [] {
      var n := |args| - 1;
      ReadableTags(args[..n]);
      OscConverter.ToArgTypeClassifies(args[n].tagByte);
      forall k | 0 <= k < |args|
        ensures args[k].tagByte != 0
      {
        if k < n {
          assert args[k] == args[..n][k];
        }
      }
    }
  }

  /** A slice of bytes that hold `wire` at `index` is the same slice of `wire`. */
  lemma SliceOfWire(data: seq<byte>, index: nat, wire: seq<byte>, lo: nat, hi: nat)
    requires index + |wire| <= |data| && data[index..index + |wire|] == wire && lo <= hi <= |wire|
    ensures data[index + lo..index + hi] == wire[lo..hi]
  {
    forall k | 0 <= k < hi - lo
      ensures data[index + lo..index + hi][k] == wire[lo..hi][k]
    {
      assert data[index + lo + k] == data[index..index + |wire|][lo + k];
    }
  }

  /** The address OSC-string at `index` scans back, and the ',' follows it. */
  lemma AddressBack(data: seq<byte>, index: nat, address: string)
    requires StringOscData.NulFreeAscii(address)
    requires var a := |StringOscData.Encode(address)|;
      index + a < |data| && data[index..index + a] == StringOscData.Encode(address)
    ensures TagPrefixAt(data, index) == index + |StringOscData.Encode(address)|
    ensures StringOscData.Scanned(data, index) == address
  {
    Holds(data, index, StringOscData.Encode(address));
    StringOscData.WrittenStringReadsBack(data, data, index, address);
  }

  /** The tag run after the ',' at `tagPrefixAt`: the tags of the arguments, then a NUL. */
  lemma TagsBack(data: seq<byte>, index: nat, tagPrefixAt: nat, args: seq<Arg>)
    requires NulFreeTags(args) && TagPrefixAt(data, index) == tagPrefixAt
    requires tagPrefixAt + 1 + |args| < |data| && data[tagPrefixAt + 1..tagPrefixAt + 1 + |args|] == Tags(args)
    requires data[tagPrefixAt + 1 + |args|] == 0
    ensures TagEnd(data, index) == tagPrefixAt + 1 + |args|
    ensures TagsAt(data, index) == Tags(args)
  {
    var tagStart := tagPrefixAt + 1;
    var n := |args|;
    forall j | tagStart <= j < tagStart + n
      ensures data[j] != 0
    {
      assert data[j] == data[tagStart..tagStart + n][j - tagStart];
    }
    StringOscData.RunLengthOfRun(data, tagStart, tagStart + n);
  }

  /** The parts of a message's wire bytes, found in bytes that hold them at `index`. */
  lemma PartsAt(data: seq<byte>, index: nat, encoded: seq<byte>, tags: seq<byte>, pad: nat, payload: seq<byte>)
    requires 0 < pad
    requires var wire := encoded + [TAG_PREFIX_BYTE] + tags + Zeros(pad) + payload;
      index + |wire| <= |data| && data[index..index + |wire|] == wire
    ensures var a := |encoded|;
      var n := |tags|;
      var payloadStart := index + a + 1 + n + pad;
      && payloadStart + |payload| <= |data|
      && data[index..index + a] == encoded
      && data[index + a] == TAG_PREFIX_BYTE
      && data[index + a + 1..index + a + 1 + n] == tags
      && data[index + a + 1 + n] == 0
      && data[payloadStart..payloadStart + |payload|] == payload
  {
    var wire := encoded + [TAG_PREFIX_BYTE] + tags + Zeros(pad) + payload;
    var a := |encoded|;
    var n := |tags|;
    SliceOfWire(data, index, wire, 0, a);
    assert wire[..a] == encoded;
    assert data[index + a] == wire[a];
    SliceOfWire(data, index, wire, a + 1, a + 1 + n);
    assert wire[a + 1..a + 1 + n] == tags;
    assert data[index + a + 1 + n] == wire[a + 1 + n];
    SliceOfWire(data, index, wire, |wire| - |payload|, |wire|);
    assert wire[|wire| - |payload|..] == payload;
  }

  /** The address and tag section at a 4-aligned index, as the reader finds them, and the payload after them. */
  lemma HeadBack(data: seq<byte>, index: nat, address: string, args: seq<Arg>, encoded: seq<byte>, pad: nat)
    requires index % 4 == 0 && StringOscData.NulFreeAscii(address) && NulFreeTags(args)
    requires encoded == StringOscData.Encode(address) && pad == StringOscData.Padding(1 + |args|)
    requires var a := |encoded|;
      var n := |Tags(args)|;
      var payloadStart := index + a + 1 + n + pad;
      && payloadStart + |Payload(args)| <= |data|
      && data[index..index + a] == encoded
      && data[index + a] == TAG_PREFIX_BYTE
      && data[index + a + 1..index + a + 1 + n] == Tags(args)
      && data[index + a + 1 + n] == 0
      && data[payloadStart..payloadStart + |Payload(args)|] == Payload(args)
    ensures var argsStart := index + |encoded| + 1 + |args| + pad;
      && TagPrefixAt(data, index) < |data| && data[TagPrefixAt(data, index)] == TAG_PREFIX_BYTE
      && StringOscData.Scanned(data, index) == address
      && TagsAt(data, index) == Tags(args)
      && ArgsStart(data, index) == argsStart
      && argsStart + |Payload(args)| <= |data|
      && data[argsStart..argsStart + |Payload(args)|] == Payload(args)
  {
    AddressBack(data, index, address);
    TagsBack(data, index, index + |encoded|, args);
    ArgsStartAfter(data, index, address, args, encoded, pad);
  }

  /** From a 4-aligned index, the arguments start after the address OSC-string and the padded tag section. */
  lemma ArgsStartAfter(data: seq<byte>, index: nat, address: string, args: seq<Arg>, encoded: seq<byte>, pad: nat)
    requires index % 4 == 0 && TagPrefixAt(data, index) < |data|
    requires StringOscData.Scanned(data, index) == address && TagsAt(data, index) == Tags(args)
    requires encoded == StringOscData.Encode(address) && pad == StringOscData.Padding(1 + |args|)
    ensures ArgsStart(data, index) == index + |encoded| + 1 + |args| + pad
  {
    HeadSize(data, index);
  }

  /** The end of the parse for records whose payload fits: the message, ending after its payload. */
  lemma FinishedFits(data: seq<byte>, index: nat, argsStart: nat, infos: seq<OscArgInfo>, total: nat)
    requires Packed(infos, |infos|) && End(infos, |infos|) == total && argsStart + total <= |data|
    ensures Finished(data, index, argsStart, Some(infos))
         == Parsed(StringOscData.Scanned(data, index), infos, argsStart, argsStart + total)
  {
  }

  /** The arguments a parse reads are those its records give its payload. */
  lemma ParsedArgsAre(data: seq<byte>, index: nat, r: MessageRead, payload: seq<byte>)
    requires ParseMessage(data, index) == r && r.Parsed? && r.argsStart + |payload| == r.next <= |data|
    requires data[r.argsStart..r.next] == payload
    ensures Packed(r.infos, |r.infos|) && End(r.infos, |r.infos|) <= |payload|
    ensures ParsedArgs(data, index) == ArgsOf(r.infos, |r.infos|, payload)
  {
    OscMessageReader.ParsedLoad(data, index, r);
  }

  /** With the head found and the records laid out, the reader makes the message and stops after its payload. */
  lemma ParsedFromParts(data: seq<byte>, index: nat, address: string, args: seq<Arg>, argsStart: nat)
    requires TagPrefixAt(data, index) < |data| && data[TagPrefixAt(data, index)] == TAG_PREFIX_BYTE
    requires StringOscData.Scanned(data, index) == address
    requires TagsAt(data, index) == Tags(args) && ArgsStart(data, index) == argsStart
    requires Records(data, Tags(args), argsStart) == Some(Layout(args))
    requires argsStart + |Payload(args)| <= |data|
    ensures ParseMessage(data, index) == Parsed(address, Layout(args), argsStart, argsStart + |Payload(args)|)
  {
    ParseTagged(data, index);
    FinishedFits(data, index, argsStart, Layout(args), |Payload(args)|);
  }

  /** A parse into the layout of some arguments, over a payload that holds their bytes, reads back those arguments. */
  lemma ArgsBack(data: seq<byte>, index: nat, args: seq<Arg>)
    requires var r := ParseMessage(data, index);
      && r.Parsed? && r.infos == Layout(args) && r.argsStart + |Payload(args)| == r.next <= |data|
      && data[r.argsStart..r.next] == Payload(args)
    ensures ParsedArgs(data, index) == args
  {
    ParsedArgsAre(data, index, ParseMessage(data, index), Payload(args));
    ArgsOfLayout(args);
  }

  /** Readable arguments laid out after the head the reader finds parse back, the reader stopping after them. */
  lemma PartsBack(data: seq<byte>, index: nat, address: string, args: seq<Arg>, argsStart: nat)
    requires AllReadable(args)
    requires TagPrefixAt(data, index) < |data| && data[TagPrefixAt(data, index)] == TAG_PREFIX_BYTE
    requires StringOscData.Scanned(data, index) == address
    requires TagsAt(data, index) == Tags(args) && ArgsStart(data, index) == argsStart
    requires argsStart + |Payload(args)| <= |data| && data[argsStart..argsStart + |Payload(args)|] == Payload(args)
    ensures var r := ParseMessage(data, index);
      && r.Parsed? && r.address == address && r.next == argsStart + |Payload(args)|
      && ParsedArgs(data, index) == args
  {
    RecordsOfPayload(data, argsStart, args);
    ParsedFromParts(data, index, address, args, argsStart);
    ArgsBack(data, index, args);
  }

  /** A message at a 4-aligned index parses as its address and its arguments, ending right after them. */
  lemma WireBack(data: seq<byte>, index: nat, address: string, args: seq<Arg>, encoded: seq<byte>, pad: nat)
    requires index % 4 == 0 && StringOscData.NulFreeAscii(address) && AllReadable(args)
    requires encoded == StringOscData.Encode(address) && pad == StringOscData.Padding(1 + |args|)
    requires var wire := encoded + [TAG_PREFIX_BYTE] + Tags(args) + Zeros(pad) + Payload(args);
      index + |wire| <= |data| && data[index..index + |wire|] == wire
    ensures var r := ParseMessage(data, index);
      && r.Parsed? && r.address == address && r.next == index + |encoded| + 1 + |args| + pad + |Payload(args)|
      && ParsedArgs(data, index) == args
  {
    PartsAt(data, index, encoded, Tags(args), pad, Payload(args));
    ReadableTags(args);
    HeadBack(data, index, address, args, encoded, pad);
    PartsBack(data, index, address, args, index + |encoded| + 1 + |args| + pad);
  }

  /**
   * Round trip: the bytes of a message written from a 4-aligned index
   * parse back as its address and its arguments, and the reader stops
   * right after them.
   */
  lemma MessageRoundTrip(before: seq<byte>, after: seq<byte>, index: nat, address: string, args: seq<Arg>)
    requires index % 4 == 0 && StringOscData.NulFreeAscii(address) && AllReadable(args)
    requires OscDataBlock.WrittenAt(before, after, index, MessageWire(address, args))
    ensures var r := ParseMessage(after, index);
      && r.Parsed? && r.address == address && r.next == index + |MessageWire(address, args)|
      && ParsedArgs(after, index) == args
  {
    var wire := MessageWire(address, args);
    OscDataBlock.WrittenAtSlice(before, after, index, wire, 0, |wire|);
    assert wire[0..|wire|] == wire;
    WireBack(after, index, address, args, StringOscData.Encode(address), StringOscData.Padding(1 + |args|));
  }
}
