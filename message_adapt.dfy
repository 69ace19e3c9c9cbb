/**
 * OscAdaptAsWritten: the record bookkeeping of the Runtime AdaptiveSet as
 * the source writes it, next to the corrected edit of OscMessageEdits.Adapt.
 * As written, the gap before a new argument is filled with the plain Null
 * record (byte index 0), a resized argument in the middle leaves the later
 * records' byte indices where they were, the cached size is dropped only
 * when the payload size changes, not when the count does, and the byte
 * index of an appended record is the payload size cast to a 16-bit short.
 * The payload array is grown to exactly the new payload size, and the move
 * of the bytes after a resized argument can run off its end.
 */
module OscAdaptAsWritten {
  import opened Bytes
  import opened Wrappers
  import opened OscTypes
  import opened OscArgInfo
  import opened OscMessageLayout
  import StringOscData
  import BlobOscData

  /**
   * What AdaptiveSet leaves: the records, count, payload size, start and
   * whether it drops the cached size, with the length of the payload array
   * (None while there is none); or the runtime threw.
   */
  datatype Adapted =
    | Adapted(infos: seq<OscArgInfo>, count: nat, byteCount: int, start: int, dropsSize: bool, capacity: Option<nat>)
    | Crashed

  /** The record AdaptiveSet compares against: the stored one, or the undefined record past the end. */
  function OldInfo(infos: seq<OscArgInfo>, count: nat, index: nat): OscArgInfo
    requires count <= |infos|
  {
    if index < count then infos[index] else UNDEFINED_INFO
  }

  /** Whether AdaptiveSet has anything to do: the tag or the size differs from the record it compares against. */
  predicate Changes(infos: seq<OscArgInfo>, count: nat, index: nat, info: OscArgInfo)
    requires count <= |infos|
  {
    info.tagByte != OldInfo(infos, count, index).tagByte || info.byteCount != OldInfo(infos, count, index).byteCount
  }

  /**
   * FastCopy of `count` bytes from `from` to `to` within one array of
   * `length` bytes runs off the array (a negative count copies nothing).
   */
  predicate MoveOverruns(length: nat, from: int, to: int, count: int)
  {
    count > 0 && !(0 <= from && 0 <= to && from + count <= length && to + count <= length)
  }

  /**
   * AdaptiveSet on the records as written; only the first `count` records
   * are kept.  `capacity` is the length of the payload array, None while
   * there is none.
   */
  function AdaptiveSetAsWritten(infos: seq<OscArgInfo>, count: nat, byteCount: int, capacity: Option<nat>,
                                index: nat, info: OscArgInfo): (r: Adapted)
    requires count <= |infos|
    ensures r.Crashed? ==> Changes(infos, count, index, info) && info.byteCount != OldInfo(infos, count, index).byteCount
    ensures r.Adapted? ==>
      && r.count == (if index < count || !Changes(infos, count, index, info) then count else index + 1)
      && |r.infos| == r.count
      && (r.dropsSize <==> info.byteCount != OldInfo(infos, count, index).byteCount)
      && r.byteCount == byteCount + info.byteCount - OldInfo(infos, count, index).byteCount
      && (forall j :: 0 <= j < count && j != index ==> r.infos[j] == infos[j])
    ensures r.Adapted? && !Changes(infos, count, index, info) ==>
      r.infos == infos[..count] && r.start == OldInfo(infos, count, index).byteIndex && !r.dropsSize
    ensures r.Adapted? && Changes(infos, count, index, info) ==>
      && r.infos[index] == info.(byteIndex := r.start)
      && r.start == (if index < count then infos[index].byteIndex else Short(byteCount))
      && (forall j :: count <= j < index ==> r.infos[j] == NULL_INFO)
  {
    var prior := OldInfo(infos, count, index);
    if !Changes(infos, count, index, info) then
      Adapted(infos[..count], count, byteCount, prior.byteIndex, false, capacity)
    else
      var placed := info.(byteIndex := if index >= count then Short(byteCount) else prior.byteIndex);
      var records := if index >= count then infos[..count] + seq(index - count, _ => NULL_INFO) + [placed]
                     else infos[..count][index := placed];
      if info.byteCount == prior.byteCount then
        Adapted(records, |records|, byteCount, placed.byteIndex, false, capacity)
      else
        var newByteCount := byteCount + info.byteCount - prior.byteCount;
        var grows := capacity.None? || capacity.value < newByteCount;
        if grows && newByteCount < 0 then Crashed  // new byte[] of a negative size
        else
          var length: nat := if grows then newByteCount else capacity.value;
          if index != |records| - 1
             && MoveOverruns(length, placed.byteIndex, placed.byteIndex + placed.byteCount, byteCount - placed.byteIndex)
          then Crashed
          else Adapted(records, |records|, newByteCount, placed.byteIndex, true, Some(length))
  }

  /**
   * Appending right after the last argument keeps the records packed, as
   * the corrected edit does, while the payload stays below 32768 bytes,
   * where the short cast of the byte index is the identity.
   */
  lemma AppendKeepsPacked(infos: seq<OscArgInfo>, count: nat, capacity: Option<nat>, info: OscArgInfo)
    requires Packed(infos, count) && info.byteCount >= 0 && info.tagByte != TAG_UNSUPPORTED_BYTE
    requires End(infos, count) < 0x8000
    ensures var r := AdaptiveSetAsWritten(infos, count, End(infos, count), capacity, count, info);
      && r.Adapted? && Packed(r.infos, r.count) && End(r.infos, r.count) == r.byteCount
  {
    PackedOffsets(infos, count);
    assert Short(End(infos, count)) == End(infos, count);
    assert UNDEFINED_INFO.byteCount == 0 && UNDEFINED_INFO.tagByte == TAG_UNSUPPORTED_BYTE;
    var r := AdaptiveSetAsWritten(infos, count, End(infos, count), capacity, count, info);
    assert infos[..count] + seq(0, _ => NULL_INFO) == infos[..count];
    assert r.Adapted?;
    assert r.infos == infos[..count] + [info.(byteIndex := End(infos, count))];
    forall i | 0 < i < r.count
      ensures r.infos[i].byteIndex == r.infos[i - 1].byteIndex + r.infos[i - 1].byteCount
    {
      if i == count {
        assert r.infos[i - 1] == infos[count - 1];
      }
    }
  }

  /**
   * A Null added after two Nulls changes no payload size, so the cached
   * size is kept; but the tag section grows from four to eight bytes.
   */
  lemma AppendedNullKeepsStaleSize()
    ensures var r := AdaptiveSetAsWritten([NULL_INFO, NULL_INFO], 2, 0, None, 2, NULL_INFO);
      && r.Adapted? && r.count == 3 && !r.dropsSize
      && MessageSize("/a", 2, 0) != MessageSize("/a", 3, 0)
  {
    assert TagSectionSize(2) == 4;
    assert TagSectionSize(3) == 8;
  }

  /**
   * Int arguments at 0 and 4 in a 16-byte array (a recycled message that
   * once held more); the first becomes a long.  As written the second
   * still starts at 4, inside the long's eight bytes.
   */
  lemma ResizeLeavesLaterOffsets()
    ensures var r := AdaptiveSetAsWritten([INT_INFO, INT_INFO.(byteIndex := 4)], 2, 8, Some(16), 0, LONG_INFO);
      && r.Adapted? && r.infos == [LONG_INFO, INT_INFO.(byteIndex := 4)] && !Packed(r.infos, 2)
  {
    var r := AdaptiveSetAsWritten([INT_INFO, INT_INFO.(byteIndex := 4)], 2, 8, Some(16), 0, LONG_INFO);
    assert LONG_INFO.byteIndex == 0 && LONG_INFO.byteCount == 8 && INT_INFO.byteCount == 4;
    assert r.infos[1].byteIndex != r.infos[0].byteIndex + r.infos[0].byteCount;
  }

  /**
   * Two ints added to a new message, then Set(0, long): the array is grown
   * to exactly the 12 payload bytes, and moving the second int's 8 bytes
   * from 0 to 8 runs past its end, so the runtime throws.
   */
  lemma ResizeOverrunsExactArray()
    ensures var r1 := AdaptiveSetAsWritten([], 0, 0, None, 0, INT_INFO);
      && r1.Adapted? && r1 == Adapted([INT_INFO], 1, 4, 0, true, Some(4))
    ensures var r2 := AdaptiveSetAsWritten([INT_INFO], 1, 4, Some(4), 1, INT_INFO);
      && r2.Adapted? && r2 == Adapted([INT_INFO, INT_INFO.(byteIndex := 4)], 2, 8, 4, true, Some(8))
    ensures AdaptiveSetAsWritten([INT_INFO, INT_INFO.(byteIndex := 4)], 2, 8, Some(8), 0, LONG_INFO) == Crashed
  {
    assert INT_INFO.byteIndex == 0 && INT_INFO.byteCount == 4 && LONG_INFO.byteCount == 8;
    assert [] + seq(0, _ => NULL_INFO) + [INT_INFO.(byteIndex := Short(0))] == [INT_INFO];
    assert [INT_INFO][..1] + seq(0, _ => NULL_INFO) + [INT_INFO.(byteIndex := Short(4))]
        == [INT_INFO, INT_INFO.(byteIndex := 4)];
  }

  /**
   * Set(0, blob) on a new message, for a blob of 32761 to 65528 bytes: the
   * short cast makes the record size negative, and the payload array is
   * asked for with that negative size, so the runtime throws.
   */
  lemma LargeBlobThrows(blob: seq<byte>)
    requires 32761 <= |blob| <= 65528
    ensures Short(BlobOscData.EvaluateByteCount(blob)) < 0
    ensures AdaptiveSetAsWritten([], 0, 0, None, 0, Make(TAG_BLOB_BYTE, Blob, Short(BlobOscData.EvaluateByteCount(blob)))) == Crashed
  {
    var n := BlobOscData.EvaluateByteCount(blob);
    assert 0x8000 <= n < TWO_16;
    assert Short(n) == n - TWO_16;
  }

  /**
   * Three strings of 20000 characters added to a new message: each record
   * is 20004 bytes, and the third starts at (short) 40008 = -25528, a
   * negative index into the payload.
   */
  lemma LongStringsWrapStart(text: string)
    requires |text| == 20000
    ensures var info := Make(TAG_STRING_BYTE, String, Short(StringOscData.EvaluateByteCount(text)));
      && info.byteCount == 20004
      && AdaptiveSetAsWritten([], 0, 0, None, 0, info) == Adapted([info], 1, 20004, 0, true, Some(20004))
      && AdaptiveSetAsWritten([info], 1, 20004, Some(20004), 1, info)
         == Adapted([info, info.(byteIndex := 20004)], 2, 40008, 20004, true, Some(40008))
      && AdaptiveSetAsWritten([info, info.(byteIndex := 20004)], 2, 40008, Some(40008), 2, info).Adapted?
      && AdaptiveSetAsWritten([info, info.(byteIndex := 20004)], 2, 40008, Some(40008), 2, info).start == -25528
  {
    var info := Make(TAG_STRING_BYTE, String, Short(StringOscData.EvaluateByteCount(text)));
    assert StringOscData.EvaluateByteCount(text) == 20004;
    assert [] + seq(0, _ => NULL_INFO) + [info.(byteIndex := Short(0))] == [info];
    assert [info][..1] + seq(0, _ => NULL_INFO) + [info.(byteIndex := Short(20004))]
        == [info, info.(byteIndex := 20004)];
    assert Short(40008) == -25528;
  }

  /**
   * An int at 0, then an int set at index 2: the Null in the gap starts at
   * 0, inside the first int, rather than at the end of the payload.
   */
  lemma GapNullStartsAtZero()
    ensures var r := AdaptiveSetAsWritten([INT_INFO], 1, 4, Some(4), 2, INT_INFO);
      && r.Adapted? && r.infos == [INT_INFO, NULL_INFO, INT_INFO.(byteIndex := 4)] && !Packed(r.infos, 3)
  {
    var r := AdaptiveSetAsWritten([INT_INFO], 1, 4, Some(4), 2, INT_INFO);
    assert NULL_INFO.byteIndex == 0 && INT_INFO.byteIndex == 0 && INT_INFO.byteCount == 4;
    assert r.infos[1].byteIndex != r.infos[0].byteIndex + r.infos[0].byteCount;
  }
}
