/**
 * OscMessageReader: the loops of OscMessage.TryReadFrom over the byte
 * buffer, proved to compute ParseMessage.  The tag run is counted up to
 * its NUL, each tag is sized where its bytes start, and the records are
 * laid out back to back; the message class copies the payload and sets
 * its fields from the result.
 */
module OscMessageReader {
  import opened Bytes
  import opened Wrappers
  import opened OscTypes
  import opened OscArgInfo
  import opened OscMessageLayout
  import opened OscMessageParse
  import OscConverter
  import StringOscData
  import BlobOscData
  import OscDataBlock
  import OscMessageEdits

  /** The tag-count loop: the end of the run of non-NUL bytes from `from`, or the end of the buffer. */
  method ScanRun(data: array<byte>, from: nat) returns (end: nat)
    ensures end == from + StringOscData.RunLength(data[..], from)
  {
    ghost var bytes := data[..];
    end := from;
    while end < data.Length && data[end] != 0
      invariant from <= end && (end <= data.Length || end == from)
      invariant StringOscData.NonNulRun(bytes, from, end)
      decreases data.Length - end
    {
      end := end + 1;
    }
    StringOscData.RunLengthOfRun(bytes, from, end);
  }

  /**
   * The size of one argument from its tag, as the switch of TryReadFrom
   * gives it; a blob is sized from its prefix and refused, as evidently
   * intended, unless the prefix is readable, non-negative and fits.
   */
  method MeasureArg(data: array<byte>, at: nat, tagByte: byte, littleEndian: bool) returns (size: Option<nat>)
    requires data.Length <= MAX_ARRAY_LENGTH
    ensures size == ArgSize(data[..], at, tagByte)
  {
    var t := OscConverter.ToArgType(tagByte);
    if t == Unsupported {
      return None;
    } else if t == String {
      var n := StringOscData.EvaluateByteCountAt(data, at);
      return Some(n);
    } else if t == Blob {
      var ok, prefix := BlobOscData.TryReadAndEvaluateByteCountPrefix(data, at, littleEndian);
      if BlobOscData.PrefixValid(data[..], at) {
        BlobOscData.ValidPrefixAccepted(data[..], at);
      }
      if ok && prefix >= 0 && at + 4 + BlobOscData.RoundUp4(prefix as nat) <= data.Length {
        return Some(4 + BlobOscData.RoundUp4(prefix as nat));
      }
      return None;
    }
    return Some(FixedByteCount(t) as nat);
  }

  /** One more tag: the records so far, then the record Appended makes. */
  lemma RecordsStep(data: seq<byte>, tags: seq<byte>, argsStart: nat, i: nat, tagByte: byte, front: seq<OscArgInfo>)
    requires i < |tags| && tags[i] == tagByte && Records(data, tags[..i], argsStart) == Some(front)
    ensures Records(data, tags[..i + 1], argsStart) == Appended(data, argsStart, front, tagByte)
  {
    assert tags[..i + 1][..i] == tags[..i];
  }

  /** What Appended makes of a size measured at the end of the records. */
  lemma AppendedIs(data: seq<byte>, argsStart: nat, front: seq<OscArgInfo>, tagByte: byte, total: nat, size: Option<nat>)
    requires Packed(front, |front|) && total == End(front, |front|)
    requires size == ArgSize(data, argsStart + total, tagByte)
    ensures size.None? ==> Appended(data, argsStart, front, tagByte).None?
    ensures size.Some? ==> Appended(data, argsStart, front, tagByte)
                           == Some(front + [OscArgInfo(tagByte, OscConverter.ToArgType(tagByte), size.value, total)])
  {
  }

  /** A record placed at the end of packed records keeps them packed and moves the end by its size. */
  lemma PackedAppend(front: seq<OscArgInfo>, info: OscArgInfo)
    requires Packed(front, |front|) && info.byteIndex == End(front, |front|) && info.byteCount >= 0
    ensures Packed(front + [info], |front| + 1)
    ensures End(front + [info], |front| + 1) == End(front, |front|) + info.byteCount
  {
    var next := front + [info];
    forall i | 0 < i < |next|
      ensures next[i].byteIndex == next[i - 1].byteIndex + next[i - 1].byteCount
    {
      if i < |front| {
        assert next[i] == front[i] && next[i - 1] == front[i - 1];
      }
    }
  }

  /** Once a tag is refused, the records of every longer tag list are refused too. */
  lemma {:induction false} RecordsStayRefused(data: seq<byte>, tags: seq<byte>, argsStart: nat, j: nat)
    requires j <= |tags| && Records(data, tags[..j], argsStart).None?
    ensures Records(data, tags, argsStart).None?
    decreases |tags| - j
  {
    if j < |tags| {
      assert tags[..j + 1][..j] == tags[..j];
      RecordsStayRefused(data, tags, argsStart, j + 1);
    } else {
      assert tags[..j] == tags;
    }
  }

  /**
   * The record loop: one record per tag, each starting where the one
   * before ends, with the running total of their sizes; None at the first
   * tag the reader refuses.
   */
  method MeasureRecords(data: array<byte>, tagStart: nat, count: nat, argsStart: nat, littleEndian: bool,
                        ghost tags: seq<byte>)
    returns (infos: Option<seq<OscArgInfo>>, total: nat)
    requires tagStart + count <= data.Length <= MAX_ARRAY_LENGTH && tags == data[tagStart..tagStart + count]
    ensures infos == Records(data[..], tags, argsStart)
    ensures infos.Some? ==> Packed(infos.value, |infos.value|) && total == End(infos.value, |infos.value|)
  {
    ghost var bytes := data[..];
    var built: seq<OscArgInfo> := [];
    total := 0;
    var i := 0;
    while i < count
      invariant i <= count
      invariant Records(bytes, tags[..i], argsStart) == Some(built)
      invariant |built| == i && Packed(built, i) && total == End(built, i)
    {
      var tagByte := data[tagStart + i];
      assert tagByte == tags[i];
      var size := MeasureArg(data, argsStart + total, tagByte, littleEndian);
      RecordsStep(bytes, tags, argsStart, i, tagByte, built);
      AppendedIs(bytes, argsStart, built, tagByte, total, size);
      if size.None? {
        RecordsStayRefused(bytes, tags, argsStart, i + 1);
        return None, 0;
      }
      var info := OscArgInfo(tagByte, OscConverter.ToArgType(tagByte), size.value, total);
      PackedAppend(built, info);
      built := built + [info];
      total := total + size.value;
      i := i + 1;
    }
    assert tags[..count] == tags;
    return Some(built), total;
  }

  /**
   * TryReadFrom up to the payload copy: the address, the ',', the tag run
   * and the records, with what the reader would make of them.
   */
  method ReadMessage(data: array<byte>, index: nat, littleEndian: bool) returns (r: MessageRead)
    requires data.Length <= MAX_ARRAY_LENGTH
    ensures r == ParseMessage(data[..], index)
  {
    ghost var bytes := data[..];
    var ok, tagPrefixAt, address := StringOscData.TryReadText(data, index, "");
    if !ok {
      ParseAddressRefused(bytes, index);
      return Rejected(tagPrefixAt);
    }
    assert tagPrefixAt == TagPrefixAt(bytes, index);
    if tagPrefixAt == data.Length {
      ParseCommaThrows(bytes, index);
      return Thrown;
    }
    if data[tagPrefixAt] != TAG_PREFIX_BYTE {
      ParseCommaMissing(bytes, index);
      return Rejected(tagPrefixAt);
    }
    r := ReadTagged(data, index, address, tagPrefixAt, littleEndian);
  }

  /** TryReadFrom after the ',': count the tags, pad to four, size the arguments and check the payload fits. */
  method ReadTagged(data: array<byte>, index: nat, address: string, tagPrefixAt: nat, littleEndian: bool)
    returns (r: MessageRead)
    requires data.Length <= MAX_ARRAY_LENGTH && address == StringOscData.Scanned(data[..], index)
    requires tagPrefixAt == TagPrefixAt(data[..], index) < data.Length && data[tagPrefixAt] == TAG_PREFIX_BYTE
    ensures r == ParseMessage(data[..], index)
  {
    ghost var bytes := data[..];
    var tagStart := tagPrefixAt + 1;
    var tagEnd := ScanRun(data, tagStart);
    assert tagEnd == TagEnd(bytes, index);
    var argsStart := tagEnd + (4 - tagEnd % 4);
    assert argsStart == ArgsStart(bytes, index);
    ghost var tags := TagsAt(bytes, index);
    assert tags == data[tagStart..tagStart + (tagEnd - tagStart)];
    var infos, total := MeasureRecords(data, tagStart, tagEnd - tagStart, argsStart, littleEndian, tags);
    ParseTagged(bytes, index);
    r := Finish(data, index, address, argsStart, infos, total);
  }

  /** The end of TryReadFrom: refuse, throw on a payload that runs past the buffer, or succeed. */
  method Finish(data: array<byte>, index: nat, address: string, argsStart: nat,
                infos: Option<seq<OscArgInfo>>, total: nat) returns (r: MessageRead)
    requires address == StringOscData.Scanned(data[..], index)
    requires infos.Some? ==> Packed(infos.value, |infos.value|) && total == End(infos.value, |infos.value|)
    ensures r == Finished(data[..], index, argsStart, infos)
  {
    if infos.None? {
      return Rejected(argsStart);
    }
    if total > 0 && argsStart + total > data.Length {
      return Thrown;
    }
    return Parsed(address, infos.value, argsStart, argsStart + total);
  }

  /**
   * The payload copy of TryReadFrom: into `buffer`, or into a new array
   * when `buffer` is too small; nothing is copied when there is nothing
   * to copy.
   */
  method CopyPayload(data: array<byte>, argsStart: nat, total: nat, buffer: array<byte>) returns (payload: array<byte>)
    requires data != buffer && (total == 0 || argsStart + total <= data.Length)
    modifies buffer
    ensures payload == buffer || (fresh(payload) && payload.Length == total)
    ensures total <= payload.Length && payload[..total] == StringOscData.Between(data[..], argsStart, argsStart + total)
  {
    payload := buffer;
    if payload.Length < total {
      payload := new byte[total];
    }
    if total > 0 {
      ghost var before := payload[..];
      OscMessageEdits.FastCopy(data, argsStart, payload, 0, total);
      OscDataBlock.WrittenAtSlice(before, payload[..], 0, data[argsStart..argsStart + total], 0, total);
    }
  }

  /** A copy that starts with the payload reads out the same arguments. */
  lemma ArgsOfCopy(infos: seq<OscArgInfo>, total: nat, copy: seq<byte>, payload: seq<byte>)
    requires Packed(infos, |infos|) && End(infos, |infos|) == total && |payload| == total
    requires total <= |copy| && copy[..total] == payload
    ensures ArgsOf(infos, |infos|, copy) == ArgsOf(infos, |infos|, payload)
  {
    assert payload[..total] == payload;
    ArgsOfPrefix(infos, |infos|, copy, payload);
  }

  /**
   * What the success path of TryReadFrom needs of a parse: a packed payload inside the buffer, its well-formed
   * arguments and, from a 4-aligned index, the size of the message.
   */
  lemma ParsedLoad(data: seq<byte>, index: nat, r: MessageRead)
    requires r == ParseMessage(data, index) && r.Parsed?
    ensures r.argsStart <= r.next && Packed(r.infos, |r.infos|) && End(r.infos, |r.infos|) == r.next - r.argsStart
    ensures r.next - r.argsStart == 0 || r.argsStart + (r.next - r.argsStart) <= |data|
    ensures ParsedArgs(data, index)
            == ArgsOf(r.infos, |r.infos|, StringOscData.Between(data, r.argsStart, r.argsStart + (r.next - r.argsStart)))
    ensures WellFormedArgs(ParsedArgs(data, index))
    ensures index % 4 == 0 ==> r.next - index == MessageSize(r.address, |r.infos|, r.next - r.argsStart)
  {
    ParsedShape(data, index);
    ParsedWellFormed(data, index);
    if index % 4 == 0 {
      ParsedSize(data, index);
    }
  }
}
