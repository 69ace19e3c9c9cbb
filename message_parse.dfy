/**
 * OscMessageParse: what OscMessage.TryReadFrom reads out of a byte buffer,
 * stated on values.  A message on the wire is its address OSC-string, a
 * ',' and one tag byte per argument padded with NULs to a multiple of four
 * (counted from the buffer's start), then the argument bytes back to back.
 * The reader sizes each argument from its tag (and, for strings and blobs,
 * from the bytes themselves), lays the records out packed, and copies the
 * payload.  ParseMessage is that reading as a function; the round trip
 * lemma shows it gives back what OscMessage.TryWriteTo wrote.
 */
module OscMessageParse {
  import opened Bytes
  import opened Wrappers
  import opened OscTypes
  import opened OscArgInfo
  import opened OscMessageLayout
  import OscConverter
  import StringOscData
  import BlobOscData
  import OscDataBlock
  import OscMessageReads
  import OscMessageWire

  /* ---- sizing one argument ---- */

  /** The size of a string argument at `at`: its non-NUL run and the padding after it. */
  function StringSize(data: seq<byte>, at: nat): (n: nat)
    ensures n % 4 == 0 && StringOscData.RunLength(data, at) < n
  {
    var run := StringOscData.RunLength(data, at);
    run + StringOscData.Padding(run)
  }

  /**
   * The size the reader gives a blob argument at `at`, as written: the
   * result of TryEvaluateByteCount, whose success is never looked at, so
   * a prefix it refuses leaves 0, and a negative prefix it accepts gives a
   * negative size.
   */
  function BlobSizeAsWritten(data: seq<byte>, at: nat): int32
  {
    if BlobOscData.PrefixAccepted(data, at)
    then Wrap32(4 + BlobOscData.PaddedSizeAsWritten(BlobOscData.PrefixAt(data, at)) as int)
    else 0
  }

  /**
   * The size of the argument with tag `tagByte` whose bytes start at `at`,
   * or None when the reader refuses it: an unsupported tag, or (as
   * evidently intended) a blob whose size prefix is unreadable, negative or
   * runs past the end.
   */
  function ArgSize(data: seq<byte>, at: nat, tagByte: byte): (size: Option<nat>)
  {
    var t := OscConverter.ToArgType(tagByte);
    if t == Unsupported then None
    else if t == String then Some(StringSize(data, at))
    else if t == Blob then
      if BlobOscData.PrefixValid(data, at) then Some(4 + BlobOscData.RoundUp4(BlobOscData.PrefixAt(data, at))) else None
    else Some(FixedByteCount(t) as nat)
  }

  /** The reader refuses exactly the unsupported tags and the blobs whose prefix is not valid. */
  lemma ArgSizeRefuses(data: seq<byte>, at: nat, tagByte: byte)
    ensures ArgSize(data, at, tagByte).Some? <==> OscConverter.IsSupportedTag(tagByte)
                                                  && (tagByte == TAG_BLOB_BYTE ==> BlobOscData.PrefixValid(data, at))
  {
  }

  /**
   * A blob whose prefix is -100 gets the size -92 from the reader as
   * written, and one whose prefix overruns the buffer gets the size 0;
   * both are refused by ArgSize.
   */
  lemma BlobSizeAsWrittenIsWrong()
    ensures BlobSizeAsWritten([255, 255, 255, 156], 0) == -92
    ensures ArgSize([255, 255, 255, 156], 0, TAG_BLOB_BYTE) == None
    ensures BlobSizeAsWritten([0, 0, 0, 100], 0) == 0
    ensures ArgSize([0, 0, 0, 100], 0, TAG_BLOB_BYTE) == None
  {
    var d: seq<byte> := [255, 255, 255, 156];
    assert d[0..4] == d;
    assert BigEndianValue(d) == 0xFFFF_FF9C by {
      assert d[..3] == [255, 255, 255];
      assert [255, 255, 255][..2] == [255, 255];
      assert [255, 255][..1] == [255];
    }
    assert BlobOscData.PrefixAt(d, 0) == -100;
    assert BlobOscData.PaddedSizeAsWritten(-100) == -96;
    var e: seq<byte> := [0, 0, 0, 100];
    assert e[0..4] == e;
    assert BigEndianValue(e) == 100 by {
      assert e[..3] == [0, 0, 0];
      assert [0, 0, 0][..2] == [0, 0];
      assert [0, 0][..1] == [0];
    }
    assert BlobOscData.PrefixAt(e, 0) == 100;
  }

  /* ---- the records ---- */

  /**
   * The records the reader makes for `tags`, the argument bytes starting
   * at `argsStart`: each record starts where the one before ends; None if
   * some argument is refused.
   */
  function Records(data: seq<byte>, tags: seq<byte>, argsStart: nat): (r: Option<seq<OscArgInfo>>)
    ensures r.Some? ==> |r.value| == |tags| && Packed(r.value, |tags|)
    decreases |tags|
  {
    if tags == [] then Some([])
    else
      match Records(data, tags[..|tags| - 1], argsStart)
      case None => None
      case Some(front) => Appended(data, argsStart, front, tags[|tags| - 1])
  }

  /** The records `front` and one more for `tagByte`, sized at the end of `front`; None if that argument is refused. */
  function Appended(data: seq<byte>, argsStart: nat, front: seq<OscArgInfo>, tagByte: byte): (r: Option<seq<OscArgInfo>>)
    requires Packed(front, |front|)
    ensures r.Some? ==> |r.value| == |front| + 1 && Packed(r.value, |front| + 1)
  {
    EndNonNegative(front, |front|);
    var at := End(front, |front|);
    match ArgSize(data, argsStart + at, tagByte)
    case None => None
    case Some(size) => Some(front + [OscArgInfo(tagByte, OscConverter.ToArgType(tagByte), size, at)])
  }

  /* ---- the whole message ---- */

  /** What TryReadFrom makes of the bytes at an index. */
  datatype MessageRead =
    | Parsed(address: string, infos: seq<OscArgInfo>, argsStart: nat, next: nat)
    | Rejected(next: nat)
    | Thrown

  /** The address, when its OSC-string fits in the buffer. */
  function AddressRead(data: seq<byte>, index: nat): Option<string>
  {
    var n := StringOscData.RunLength(data, index);
    if index + n + StringOscData.Padding(n) <= |data| then Some(StringOscData.Scanned(data, index)) else None
  }

  /** Where the ',' of the tag section should be: after the address OSC-string. */
  function TagPrefixAt(data: seq<byte>, index: nat): (at: nat)
    ensures index + 4 <= at
  {
    var n := StringOscData.RunLength(data, index);
    index + n + StringOscData.Padding(n)
  }

  /** Where the tag run ends: at its first NUL or at the end of the buffer. */
  function TagEnd(data: seq<byte>, index: nat): (at: nat)
    ensures TagPrefixAt(data, index) < at
  {
    var tagStart := TagPrefixAt(data, index) + 1;
    tagStart + StringOscData.RunLength(data, tagStart)
  }

  /** The tag bytes, one per argument. */
  function TagsAt(data: seq<byte>, index: nat): (tags: seq<byte>)
    ensures |tags| == TagEnd(data, index) - TagPrefixAt(data, index) - 1
  {
    StringOscData.Between(data, TagPrefixAt(data, index) + 1, TagEnd(data, index))
  }

  /** Where the argument bytes start: the tag run padded to a multiple of four counted from the buffer's start. */
  function ArgsStart(data: seq<byte>, index: nat): (at: nat)
    ensures TagEnd(data, index) < at <= TagEnd(data, index) + 4 && at % 4 == 0
  {
    var tagEnd := TagEnd(data, index);
    tagEnd + (4 - tagEnd % 4)
  }

  /**
   * TryReadFrom on values: the address; a ',' (reading it past the end
   * throws); the tag run up to its NUL, then padding to the next multiple
   * of four counted from the buffer's start; one record per tag; and the
   * payload, whose copy throws when it runs past the end.
   */
  function ParseMessage(data: seq<byte>, index: nat): (r: MessageRead)
  {
    var tagPrefixAt := TagPrefixAt(data, index);
    if tagPrefixAt > |data| then Rejected(index + StringOscData.RunLength(data, index))
    else if tagPrefixAt == |data| then Thrown
    else if data[tagPrefixAt] != TAG_PREFIX_BYTE then Rejected(tagPrefixAt)
    else
      var argsStart := ArgsStart(data, index);
      Finished(data, index, argsStart, Records(data, TagsAt(data, index), argsStart))
  }

  /** The end of TryReadFrom once the tags are sized: refused, a payload copy that throws, or the message. */
  function Finished(data: seq<byte>, index: nat, argsStart: nat, records: Option<seq<OscArgInfo>>): (r: MessageRead)
    requires records.Some? ==> Packed(records.value, |records.value|)
  {
    match records
    case None => Rejected(argsStart)
    case Some(infos) =>
      EndNonNegative(infos, |infos|);
      var total := End(infos, |infos|);
      if total > 0 && argsStart + total > |data| then Thrown
      else Parsed(StringOscData.Scanned(data, index), infos, argsStart, argsStart + total)
  }

  /** An address OSC-string that does not fit is refused where its run ends. */
  lemma ParseAddressRefused(data: seq<byte>, index: nat)
    requires TagPrefixAt(data, index) > |data|
    ensures ParseMessage(data, index) == Rejected(index + StringOscData.RunLength(data, index))
  {
  }

  /** An address that ends exactly at the end of the buffer makes the ',' check throw. */
  lemma ParseCommaThrows(data: seq<byte>, index: nat)
    requires TagPrefixAt(data, index) == |data|
    ensures ParseMessage(data, index) == Thrown
  {
  }

  /** Without a ',' after the address the message is refused there. */
  lemma ParseCommaMissing(data: seq<byte>, index: nat)
    requires TagPrefixAt(data, index) < |data| && data[TagPrefixAt(data, index)] != TAG_PREFIX_BYTE
    ensures ParseMessage(data, index) == Rejected(TagPrefixAt(data, index))
  {
  }

  /** With a ',' after the address, the parse is decided by the records of the tags. */
  lemma ParseTagged(data: seq<byte>, index: nat)
    requires TagPrefixAt(data, index) < |data| && data[TagPrefixAt(data, index)] == TAG_PREFIX_BYTE
    ensures ParseMessage(data, index)
         == Finished(data, index, ArgsStart(data, index), Records(data, TagsAt(data, index), ArgsStart(data, index)))
  {
  }

  /** The records of a successful parse are those Records makes for its tags. */
  lemma ParsedRecords(data: seq<byte>, index: nat)
    requires ParseMessage(data, index).Parsed?
    ensures var r := ParseMessage(data, index);
      r.argsStart == ArgsStart(data, index) && Records(data, TagsAt(data, index), r.argsStart) == Some(r.infos)
  {
  }

  /** A parse that succeeded read its payload from within the buffer, after an address and a tag section. */
  lemma ParsedShape(data: seq<byte>, index: nat)
    requires ParseMessage(data, index).Parsed?
    ensures var r := ParseMessage(data, index);
      && Packed(r.infos, |r.infos|) && 0 <= End(r.infos, |r.infos|)
      && r.next == r.argsStart + End(r.infos, |r.infos|)
      && index + 6 <= r.argsStart <= r.next
      && (r.argsStart < r.next ==> r.next <= |data|)
      && AddressRead(data, index) == Some(r.address)
  {
    var r := ParseMessage(data, index);
    EndNonNegative(r.infos, |r.infos|);
  }

  /** The payload bytes a successful parse copies. */
  function ParsedPayload(data: seq<byte>, r: MessageRead): (payload: seq<byte>)
    requires r.Parsed? && r.argsStart <= r.next && (r.argsStart < r.next ==> r.next <= |data|)
    ensures |payload| == r.next - r.argsStart
  {
    StringOscData.Between(data, r.argsStart, r.next)
  }

  /** The arguments of a successfully parsed message. */
  function ParsedArgs(data: seq<byte>, index: nat): (args: seq<Arg>)
    requires ParseMessage(data, index).Parsed?
  {
    var r := ParseMessage(data, index);
    ParsedShape(data, index);
    ArgsOf(r.infos, |r.infos|, ParsedPayload(data, r))
  }

  /* ---- what the reader accepts is well formed ---- */

  /** A run that a NUL ends inside a copied slice has the same length in the slice. */
  lemma RunLengthInSlice(data: seq<byte>, at: nat, size: nat)
    requires at + size <= |data| && at + StringOscData.RunLength(data, at) < at + size
    ensures StringOscData.RunLength(data[at..at + size], 0) == StringOscData.RunLength(data, at)
  {
    var s := data[at..at + size];
    var run := StringOscData.RunLength(data, at);
    assert StringOscData.NonNulRun(s, 0, run) by {
      forall j | 0 <= j < run && j < |s| ensures s[j] != 0 {
        assert s[j] == data[at + j];
      }
    }
    assert s[run] == data[at + run];
    StringOscData.RunLengthOfRun(s, 0, run);
  }

  /** An argument the reader sizes, cut out of the buffer, is well formed. */
  lemma SizedArgWellFormed(data: seq<byte>, at: nat, tagByte: byte, size: nat)
    requires ArgSize(data, at, tagByte) == Some(size) && (size == 0 || at + size <= |data|)
    ensures WellFormedArg(Arg(tagByte, OscConverter.ToArgType(tagByte), StringOscData.Between(data, at, at + size)))
  {
    var t := OscConverter.ToArgType(tagByte);
    var bytes := StringOscData.Between(data, at, at + size);
    if t == String {
      RunLengthInSlice(data, at, size);
    } else if t == Blob {
      assert bytes[0..4] == data[at..at + 4];
    }
  }

  /** Records of a non-empty tag list: those of all but the last tag, then one for the last. */
  lemma RecordsLast(data: seq<byte>, tags: seq<byte>, argsStart: nat)
    requires Records(data, tags, argsStart).Some? && tags != []
    ensures var before := Records(data, tags[..|tags| - 1], argsStart);
      && before.Some?
      && Records(data, tags, argsStart) == Appended(data, argsStart, before.value, tags[|tags| - 1])
  {
  }

  /** A record the reader made for its tag, sized by ArgSize where it starts. */
  predicate Measured(data: seq<byte>, argsStart: nat, info: OscArgInfo)
  {
    && info.argType == OscConverter.ToArgType(info.tagByte)
    && 0 <= info.byteIndex
    && ArgSize(data, argsStart + info.byteIndex, info.tagByte) == Some(info.byteCount)
  }

  /** A record appended carries its tag, starts at the end of the records before it, and is measured. */
  lemma AppendedLast(data: seq<byte>, argsStart: nat, front: seq<OscArgInfo>, tagByte: byte)
    requires Packed(front, |front|) && Appended(data, argsStart, front, tagByte).Some?
    ensures var infos := Appended(data, argsStart, front, tagByte).value;
      && infos[..|front|] == front
      && infos[|front|].tagByte == tagByte && infos[|front|].byteIndex == End(front, |front|)
      && Measured(data, argsStart, infos[|front|])
  {
    EndNonNegative(front, |front|);
  }

  /** Each record the reader makes carries its tag and is measured. */
  lemma {:induction false} RecordsFacts(data: seq<byte>, tags: seq<byte>, argsStart: nat, i: nat)
    requires Records(data, tags, argsStart).Some? && i < |tags|
    ensures var infos := Records(data, tags, argsStart).value;
      infos[i].tagByte == tags[i] && Measured(data, argsStart, infos[i])
    decreases |tags|
  {
    RecordsLast(data, tags, argsStart);
    var front := tags[..|tags| - 1];
    var before := Records(data, front, argsStart).value;
    AppendedLast(data, argsStart, before, tags[|tags| - 1]);
    var infos := Records(data, tags, argsStart).value;
    if i < |tags| - 1 {
      RecordsFacts(data, front, argsStart, i);
      assert infos[i] == before[i] by {
        assert infos[..|before|][i] == infos[i];
      }
      assert tags[i] == front[i];
    }
  }

  /** Argument i of the records the reader made, cut out of the payload it copied, is well formed. */
  lemma RecordArgWellFormed(data: seq<byte>, tags: seq<byte>, argsStart: nat, infos: seq<OscArgInfo>,
                            payload: seq<byte>, i: nat)
    requires Records(data, tags, argsStart) == Some(infos) && i < |infos|
    requires 0 <= End(infos, |infos|) == |payload| && (payload == [] || argsStart + |payload| <= |data|)
    requires payload == StringOscData.Between(data, argsStart, argsStart + |payload|)
    ensures WellFormedArg(ArgAt(infos, |infos|, payload, i))
  {
    RecordsFacts(data, tags, argsStart, i);
    MeasuredArgWellFormed(data, argsStart, infos, payload, i, tags[i]);
  }

  /** A packed record whose size the reader measured at its place in `data`, read out of the copied payload, is well formed. */
  lemma MeasuredArgWellFormed(data: seq<byte>, argsStart: nat, infos: seq<OscArgInfo>, payload: seq<byte>, i: nat,
                              tagByte: byte)
    requires Packed(infos, |infos|) && i < |infos| && End(infos, |infos|) == |payload|
    requires (payload == [] || argsStart + |payload| <= |data|)
    requires payload == StringOscData.Between(data, argsStart, argsStart + |payload|)
    requires infos[i].tagByte == tagByte && infos[i].argType == OscConverter.ToArgType(tagByte)
    requires 0 <= infos[i].byteIndex && ArgSize(data, argsStart + infos[i].byteIndex, tagByte) == Some(infos[i].byteCount)
    ensures WellFormedArg(ArgAt(infos, |infos|, payload, i))
  {
    ArgBounds(infos, |infos|, i);
    var at: nat := argsStart + infos[i].byteIndex;
    var size: nat := infos[i].byteCount;
    assert size == 0 || at + size <= |data|;
    SizedArgWellFormed(data, at, tagByte, size);
    PayloadArgWellFormed(data, argsStart, infos, payload, i, tagByte, at, size);
  }

  /** Argument i read out of the copied payload is well formed when the run of `data` it came from is. */
  lemma PayloadArgWellFormed(data: seq<byte>, argsStart: nat, infos: seq<OscArgInfo>, payload: seq<byte>, i: nat,
                             tagByte: byte, at: nat, size: nat)
    requires Packed(infos, |infos|) && i < |infos| && End(infos, |infos|) == |payload|
    requires (payload == [] || argsStart + |payload| <= |data|)
    requires payload == StringOscData.Between(data, argsStart, argsStart + |payload|)
    requires 0 <= infos[i].byteIndex && infos[i].byteIndex + infos[i].byteCount <= |payload|
    requires infos[i].tagByte == tagByte && infos[i].argType == OscConverter.ToArgType(tagByte)
    requires at == argsStart + infos[i].byteIndex && size == infos[i].byteCount && (size == 0 || at + size <= |data|)
    requires WellFormedArg(Arg(tagByte, OscConverter.ToArgType(tagByte), StringOscData.Between(data, at, at + size)))
    ensures WellFormedArg(ArgAt(infos, |infos|, payload, i))
  {
    ArgAtSlice(data, argsStart, infos, payload, i, tagByte, at, size);
  }

  /** Argument i read out of a payload copied from `data` at `argsStart` is the matching run of `data`. */
  lemma ArgAtSlice(data: seq<byte>, argsStart: nat, infos: seq<OscArgInfo>, payload: seq<byte>, i: nat,
                   tagByte: byte, at: nat, size: nat)
    requires Packed(infos, |infos|) && i < |infos| && End(infos, |infos|) == |payload|
    requires (payload == [] || argsStart + |payload| <= |data|)
    requires payload == StringOscData.Between(data, argsStart, argsStart + |payload|)
    requires 0 <= infos[i].byteIndex && infos[i].byteIndex + infos[i].byteCount <= |payload|
    requires infos[i].tagByte == tagByte && infos[i].argType == OscConverter.ToArgType(tagByte)
    requires at == argsStart + infos[i].byteIndex && size == infos[i].byteCount && (size == 0 || at + size <= |data|)
    ensures ArgAt(infos, |infos|, payload, i) == Arg(tagByte, OscConverter.ToArgType(tagByte), StringOscData.Between(data, at, at + size))
  {
    var info := infos[i];
    SliceOfCopy(data, argsStart, payload, info.byteIndex, info.byteIndex + info.byteCount);
  }

  /** A slice of bytes copied from `data` at `from` is the matching slice of `data`. */
  lemma SliceOfCopy(data: seq<byte>, from: nat, copy: seq<byte>, lo: nat, hi: nat)
    requires (copy == [] || from + |copy| <= |data|) && copy == StringOscData.Between(data, from, from + |copy|)
    requires lo <= hi <= |copy|
    ensures copy[lo..hi] == StringOscData.Between(data, from + lo, from + hi)
  {
    if lo < hi {
      assert copy == data[from..from + |copy|];
      forall k | 0 <= k < hi - lo
        ensures copy[lo..hi][k] == data[from + lo..from + hi][k]
      {
        assert copy[lo + k] == data[from + lo + k];
      }
    }
  }

  /** Argument i of a successful parse is well formed. */
  lemma ParsedArgWellFormed(data: seq<byte>, index: nat, i: nat)
    requires ParseMessage(data, index).Parsed? && i < |ParseMessage(data, index).infos|
    ensures WellFormedArg(ParsedArgs(data, index)[i])
  {
    var r := ParseMessage(data, index);
    ParsedShape(data, index);
    ParsedRecords(data, index);
    RecordArgWellFormed(data, TagsAt(data, index), r.argsStart, r.infos, ParsedPayload(data, r), i);
  }

  /** Whatever TryReadFrom accepts is a list of arguments TryGet can read. */
  lemma ParsedWellFormed(data: seq<byte>, index: nat)
    requires ParseMessage(data, index).Parsed?
    ensures WellFormedArgs(ParsedArgs(data, index))
  {
    var args := ParsedArgs(data, index);
    forall i | 0 <= i < |args|
      ensures WellFormedArg(args[i])
    {
      ParsedArgWellFormed(data, index, i);
    }
    WellFormedArgsFromEach(args);
  }

  /* ---- the size the reader caches ---- */

  /**
   * From a 4-aligned index the bytes a successful parse consumed are the
   * size of the message it made: the address OSC-string, the tag section
   * and the payload.
   */
  lemma ParsedSize(data: seq<byte>, index: nat)
    requires ParseMessage(data, index).Parsed? && index % 4 == 0
    ensures var r := ParseMessage(data, index);
      0 <= End(r.infos, |r.infos|) && r.next - index == MessageSize(r.address, |r.infos|, End(r.infos, |r.infos|))
  {
    ParsedShape(data, index);
    ParsedRecords(data, index);
    HeadSize(data, index);
  }

  /** From a 4-aligned index, the address OSC-string and the tag section end where the arguments start. */
  lemma HeadSize(data: seq<byte>, index: nat)
    requires index % 4 == 0 && TagPrefixAt(data, index) < |data|
    ensures ArgsStart(data, index) - index
         == StringOscData.EvaluateByteCount(StringOscData.Scanned(data, index)) + TagSectionSize(|TagsAt(data, index)|)
  {
    var tagPrefixAt := TagPrefixAt(data, index);
    assert tagPrefixAt - index == StringOscData.EvaluateByteCount(StringOscData.Scanned(data, index));
    assert tagPrefixAt % 4 == 0;
  }

  /**
   * From an unaligned index the reader pads the tags to the buffer's
   * alignment, so what it consumes is not the message's size: "/" with no
   * arguments read at index 1 consumes 7 bytes, while the message's size
   * is 8.  TryReadFrom caches the 7.
   */
  lemma UnalignedReadMiscachesSize()
    ensures ParseMessage([0, 47, 0, 0, 0, 44, 0, 0], 1) == Parsed("/", [], 8, 8)
    ensures 8 - 1 != MessageSize("/", 0, 0)
  {
    var d: seq<byte> := [0, 47, 0, 0, 0, 44, 0, 0];
    assert StringOscData.RunLength(d, 2) == 0;
    assert StringOscData.RunLength(d, 1) == 1;
    assert d[1..2] == [47];
    assert StringOscData.Scanned(d, 1) == "/";
    assert TagPrefixAt(d, 1) == 5;
    assert StringOscData.RunLength(d, 6) == 0;
    assert TagEnd(d, 1) == 6;
    assert TagsAt(d, 1) == [];
    ParseTagged(d, 1);
  }

  /** A parse that throws got past the address. */
  lemma ThrownAfterAddress(data: seq<byte>, index: nat)
    requires ParseMessage(data, index).Thrown?
    ensures AddressRead(data, index).Some?
  {
  }

  /** Arguments read through the same records from byte sequences that agree up to the records' end are the same. */
  lemma ArgsOfPrefix(infos: seq<OscArgInfo>, count: nat, a: seq<byte>, b: seq<byte>)
    requires Packed(infos, count) && 0 <= End(infos, count) <= |a| && End(infos, count) <= |b|
    requires a[..End(infos, count)] == b[..End(infos, count)]
    ensures ArgsOf(infos, count, a) == ArgsOf(infos, count, b)
  {
    var e := End(infos, count);
    forall j | 0 <= j < count
      ensures ArgsOf(infos, count, a)[j] == ArgsOf(infos, count, b)[j]
    {
      ArgBounds(infos, count, j);
      var lo := infos[j].byteIndex;
      var hi := lo + infos[j].byteCount;
      assert a[lo..hi] == a[..e][lo..hi] == b[..e][lo..hi] == b[lo..hi];
    }
  }
}
