/**
 * OscMessageEdits: the in-place edits a message makes to its records and
 * its payload array (the loops of RemoveAt and AdaptiveSet, and FastCopy),
 * each proved against the layout functions of OscMessageLayout.
 */
module OscMessageEdits {
  import opened Bytes
  import opened OscTypes
  import opened OscArgInfo
  import opened OscMessageLayout
  import OscDataBlock
  import FourByteOscData
  import EightByteOscData
  import StringOscData
  import BlobOscData

  /** A record slot the info array holds before anything is stored in it (the struct's default). */
  const EMPTY_SLOT: OscArgInfo := OscArgInfo(0, Null, 0, 0)

  /**
   * FastCopy: copy `count` bytes.  Below 100 bytes it copies by hand,
   * backwards when the ranges overlap with the destination after the
   * source; from 100 bytes on it uses the platform copy, which behaves as if
   * the source were copied first.  Either way the destination receives the
   * source bytes as they were before the call.
   */
  method FastCopy(source: array<byte>, sourceIndex: nat, destination: array<byte>, destinationIndex: nat, count: nat)
    requires sourceIndex + count <= source.Length && destinationIndex + count <= destination.Length
    modifies destination
    ensures OscDataBlock.WrittenAt(old(destination[..]), destination[..], destinationIndex,
                                   old(source[sourceIndex..sourceIndex + count]))
  {
    ghost var before := destination[..];
    var src := source[sourceIndex..sourceIndex + count];
    if count < 100 {
      if source == destination && sourceIndex < destinationIndex {
        var i := 0;
        while i < count
          invariant 0 <= i <= count
          invariant forall k :: 0 <= k < destination.Length ==>
            destination[k] == if destinationIndex + count - i <= k < destinationIndex + count then src[k - destinationIndex] else before[k]
        {
          destination[destinationIndex + count - 1 - i] := source[sourceIndex + count - 1 - i];
          i := i + 1;
        }
      } else {
        var i := 0;
        while i < count
          invariant 0 <= i <= count
          invariant forall k :: 0 <= k < destination.Length ==>
            destination[k] == if destinationIndex <= k < destinationIndex + i then src[k - destinationIndex] else before[k]
          invariant forall k :: sourceIndex + i <= k < sourceIndex + count ==> source[k] == src[k - sourceIndex]
        {
          destination[destinationIndex + i] := source[sourceIndex + i];
          i := i + 1;
        }
      }
    } else {
      forall k | destinationIndex <= k < destinationIndex + count {
        destination[k] := src[k - destinationIndex];
      }
    }
    OscDataBlock.WrittenAtPointwise(before, destination[..], destinationIndex, src);
  }

  /**
   * The byte move of RemoveAt: the bytes from `from` to `end` move down to
   * `at`, over the run of the removed argument; the bytes before `at` stay.
   */
  method CloseGap(data: array<byte>, at: nat, removedCount: nat, end: nat)
    requires at + removedCount <= end <= data.Length
    modifies data
    ensures data[..at] == old(data[..at])
    ensures data[at..end - removedCount] == old(data[at + removedCount..end])
  {
    ghost var before := data[..];
    FastCopy(data, at + removedCount, data, at, end - (at + removedCount));
    OscDataBlock.WrittenAtOutside(before, data[..], at, before[at + removedCount..end], 0, at);
    OscDataBlock.WrittenAtSlice(before, data[..], at, before[at + removedCount..end], 0, end - (at + removedCount));
  }

  /** The first loop of RemoveAt: the records after `index` move one place down. */
  method ShiftDown(infos: seq<OscArgInfo>, index: nat, count: nat) returns (r: seq<OscArgInfo>)
    requires index < count <= |infos|
    ensures |r| == |infos|
    ensures forall j :: 0 <= j < index ==> r[j] == infos[j]
    ensures forall j :: index <= j < count - 1 ==> r[j] == infos[j + 1]
  {
    r := infos;
    var i := index;
    while i < count - 1
      invariant index <= i <= count - 1 && |r| == |infos|
      invariant forall j :: 0 <= j < index ==> r[j] == infos[j]
      invariant forall j :: index <= j < i ==> r[j] == infos[j + 1]
      invariant forall j :: i <= j < |r| ==> r[j] == infos[j]
    {
      r := r[i := r[i + 1]];
      i := i + 1;
    }
  }

  /**
   * The second loop of RemoveAt: from `index` on, each record starts where
   * the one before it ends, so every later record moves down by the size of
   * the removed one; the last end is the new payload size.
   */
  method RebaseAfterRemove(shifted: seq<OscArgInfo>, index: nat, count: nat, ghost infos: seq<OscArgInfo>)
    returns (r: seq<OscArgInfo>, byteCount: int)
    requires Packed(infos, count + 1) && index <= count && |shifted| == |infos|
    requires forall j :: 0 <= j < index ==> shifted[j] == infos[j]
    requires forall j :: index <= j < count ==> shifted[j] == infos[j + 1]
    ensures |r| == |infos|
    ensures forall j :: 0 <= j < index ==> r[j] == infos[j]
    ensures forall j :: index <= j < count ==>
      r[j] == infos[j + 1].(byteIndex := infos[j + 1].byteIndex - infos[index].byteCount)
    ensures byteCount == End(infos, count + 1) - infos[index].byteCount
  {
    ghost var removedCount := infos[index].byteCount;
    r := shifted;
    var byteIndex := 0;
    if index > 0 {
      var argInfo := r[index - 1];
      byteIndex := argInfo.byteIndex + argInfo.byteCount;
    }
    var k := index;
    while k < count
      invariant index <= k <= count && |r| == |infos|
      invariant forall j :: 0 <= j < index ==> r[j] == infos[j]
      invariant forall j :: index <= j < k ==>
        r[j] == infos[j + 1].(byteIndex := infos[j + 1].byteIndex - removedCount)
      invariant forall j :: k <= j < count ==> r[j] == infos[j + 1]
      invariant byteIndex == (if k < count then infos[k + 1].byteIndex else End(infos, count + 1)) - removedCount
    {
      var info := r[k];
      info := info.(byteIndex := byteIndex);
      byteIndex := byteIndex + info.byteCount;
      r := r[k := info];
      k := k + 1;
    }
    byteCount := byteIndex;
  }

  /**
   * The body of RemoveAt on the records and the payload array: the records
   * after `index` move one place down, the bytes after the removed run move
   * onto it, and the later records are rebased.
   */
  method RemoveRecord(infos: seq<OscArgInfo>, count: nat, byteCount: int, data: array<byte>, index: nat)
    returns (infos2: seq<OscArgInfo>, byteCount2: int)
    requires Packed(infos, count) && byteCount == End(infos, count) <= data.Length && index < count
    modifies data
    ensures Packed(infos2, count - 1) && byteCount2 == End(infos2, count - 1) <= data.Length
    ensures ArgsOf(infos2, count - 1, data[..]) == Removed(ArgsOf(infos, count, old(data[..])), index)
  {
    var removed := infos[index];
    ArgBounds(infos, count, index);
    infos2 := ShiftDown(infos, index, count);
    byteCount2 := byteCount;
    if removed.byteCount > 0 {
      infos2, byteCount2 := RemoveRun(infos, count, byteCount, data, index, infos2);
    } else {
      RemovedRunLayout(infos, count, data[..], infos2, data[..], index, byteCount2);
    }
  }

  /** The bytes of the removed record close up and the later records are rebased. */
  method RemoveRun(infos: seq<OscArgInfo>, count: nat, byteCount: int, data: array<byte>, index: nat,
                   shifted: seq<OscArgInfo>)
    returns (infos2: seq<OscArgInfo>, byteCount2: int)
    requires Packed(infos, count) && byteCount == End(infos, count) <= data.Length && index < count
    requires 0 <= infos[index].byteIndex <= infos[index].byteIndex + infos[index].byteCount <= byteCount
    requires |shifted| == |infos|
    requires forall j :: 0 <= j < index ==> shifted[j] == infos[j]
    requires forall j :: index <= j < count - 1 ==> shifted[j] == infos[j + 1]
    modifies data
    ensures Packed(infos2, count - 1) && byteCount2 == End(infos2, count - 1) <= data.Length
    ensures ArgsOf(infos2, count - 1, data[..]) == Removed(ArgsOf(infos, count, old(data[..])), index)
  {
    ghost var data0 := data[..];
    CloseGap(data, infos[index].byteIndex, infos[index].byteCount, byteCount);
    infos2, byteCount2 := RebaseAfterRemove(shifted, index, count - 1, infos);
    RemovedRunLayout(infos, count, data0, infos2, data[..], index, byteCount2);
  }

  /* ---- AdaptiveSet ---- */

  /**
   * The record part of AdaptiveSet.  Past the end, the record array grows
   * to index + 1 slots, the gap gets Null records and the count becomes
   * index + 1; inside, the record is overwritten.  Gap records start at
   * `gapIndex`, the end of the payload, so the layout stays packed.
   */
  method PlaceRecord(infos: seq<OscArgInfo>, count: nat, index: nat, info: OscArgInfo, gapIndex: int)
    returns (r: seq<OscArgInfo>, count2: nat)
    requires count <= |infos|
    ensures count2 == (if index < count then count else index + 1) && count2 <= |r|
    ensures forall j :: 0 <= j < count && j != index ==> r[j] == infos[j]
    ensures forall j :: count <= j < index ==> r[j] == NULL_INFO.(byteIndex := gapIndex)
    ensures r[index] == info
  {
    if index >= count {
      var required := index + 1;
      r := infos;
      if required > |r| {
        r := r + seq(required - |r|, _ => EMPTY_SLOT);
      }
      var i := count;
      while i < required - 1
        invariant count <= i <= index && required <= |r|
        invariant forall j :: 0 <= j < count ==> r[j] == infos[j]
        invariant forall j :: count <= j < i ==> r[j] == NULL_INFO.(byteIndex := gapIndex)
      {
        r := r[i := NULL_INFO.(byteIndex := gapIndex)];
        i := i + 1;
      }
      r := r[index := info];
      count2 := required;
    } else {
      r := infos[index := info];
      count2 := count;
    }
  }

  /** The records from `from` to `count` move by `delta` bytes. */
  method ShiftLater(infos: seq<OscArgInfo>, from: nat, count: nat, delta: int) returns (r: seq<OscArgInfo>)
    requires from <= count <= |infos|
    ensures |r| == |infos|
    ensures forall j :: 0 <= j < from ==> r[j] == infos[j]
    ensures forall j :: from <= j < count ==> r[j] == infos[j].(byteIndex := infos[j].byteIndex + delta)
  {
    r := infos;
    var i := from;
    while i < count
      invariant from <= i <= count && |r| == |infos|
      invariant forall j :: 0 <= j < from ==> r[j] == infos[j]
      invariant forall j :: from <= j < i ==> r[j] == infos[j].(byteIndex := infos[j].byteIndex + delta)
      invariant forall j :: i <= j < |r| ==> r[j] == infos[j]
    {
      var info := r[i];
      r := r[i := info.(byteIndex := info.byteIndex + delta)];
      i := i + 1;
    }
  }

  /**
   * The growth step of AdaptiveSet: when the payload will no longer fit, a
   * new array of exactly the new size receives the old payload.
   */
  method GrowPayload(data: array<byte>, byteCount: nat, newByteCount: nat) returns (data2: array<byte>)
    requires byteCount <= data.Length
    ensures data2 == data || (fresh(data2) && data2.Length == newByteCount)
    ensures newByteCount <= data2.Length && (data2.Length <= data.Length || data2.Length == newByteCount)
    ensures byteCount <= data2.Length && data2[..byteCount] == data[..byteCount]
  {
    data2 := data;
    if data.Length < newByteCount {
      data2 := new byte[newByteCount](_ => 0);
      ghost var blank := data2[..];
      FastCopy(data, 0, data2, 0, byteCount);
      OscDataBlock.WrittenAtSlice(blank, data2[..], 0, data[0..byteCount], 0, byteCount);
    }
  }

  /** Move `count` bytes from `from` to `to`; the first `keep` bytes, all before `to`, stay. */
  method MoveRun(data: array<byte>, from: nat, to: nat, count: nat, keep: nat)
    requires from + count <= data.Length && to + count <= data.Length && keep <= to
    modifies data
    ensures data[..keep] == old(data[..keep])
    ensures data[to..to + count] == old(data[from..from + count])
  {
    ghost var before := data[..];
    FastCopy(data, from, data, to, count);
    OscDataBlock.WrittenAtOutside(before, data[..], to, before[from..from + count], 0, keep);
    OscDataBlock.WrittenAtSlice(before, data[..], to, before[from..from + count], 0, count);
  }

  /**
   * The payload part of AdaptiveSet when the argument at `at` changes from
   * `oldCount` to `newCount` bytes: a larger array when the payload no
   * longer fits, then the bytes after the argument move to its new end.
   * The bytes before `at` stay.
   */
  method ResizePayload(data: array<byte>, byteCount: nat, at: nat, oldCount: nat, newCount: nat, moveTail: bool)
    returns (data2: array<byte>)
    requires at + oldCount <= byteCount <= data.Length
    requires !moveTail ==> at + oldCount == byteCount
    modifies data
    ensures data2 == data || (fresh(data2) && data2.Length == byteCount - oldCount + newCount)
    ensures byteCount - oldCount + newCount <= data2.Length
    ensures data2.Length <= data.Length || data2.Length == byteCount - oldCount + newCount
    ensures data2[..at] == old(data[..at])
    ensures data2[at + newCount..at + newCount + (byteCount - (at + oldCount))]
         == old(data[at + oldCount..at + oldCount + (byteCount - (at + oldCount))])
  {
    var tail := byteCount - (at + oldCount);
    data2 := GrowPayload(data, byteCount, byteCount - oldCount + newCount);
    ghost var mid := data2[..];
    assert mid[..at] == old(data[..at]) && mid[at + oldCount..at + oldCount + tail] == old(data[at + oldCount..at + oldCount + tail]) by {
      assert mid[..byteCount] == old(data[..byteCount]);
      assert mid[..at] == mid[..byteCount][..at];
      assert mid[at + oldCount..at + oldCount + tail] == mid[..byteCount][at + oldCount..byteCount];
    }
    if moveTail {
      MoveRun(data2, at + oldCount, at + newCount, tail, at);
    }
  }

  /**
   * AdaptiveSet past the end: the record goes at `index`, Null records at
   * the end of the payload fill the gap, and the payload grows by the new
   * record's size.  The new record starts at the old payload end.
   */
  method AdaptExpand(infos: seq<OscArgInfo>, count: nat, byteCount: nat, data: array<byte>, index: nat, info: OscArgInfo)
    returns (infos2: seq<OscArgInfo>, byteCount2: nat, data2: array<byte>, start: nat)
    requires Packed(infos, count) && byteCount == End(infos, count) <= data.Length <= MAX_ARRAY_LENGTH
    requires count <= index && info.byteCount >= 0 && byteCount + info.byteCount <= MAX_ARRAY_LENGTH
    modifies data
    ensures Packed(infos2, index + 1) && byteCount2 == End(infos2, index + 1) <= data2.Length <= MAX_ARRAY_LENGTH
    ensures data2 == data || fresh(data2)
    ensures start == byteCount && infos2[index] == info.(byteIndex := start)
    ensures ArgsOf(infos2, index + 1, data2[..])
         == Updated(ArgsOf(infos, count, old(data[..])), index, ArgAt(infos2, index + 1, data2[..], index))
  {
    ghost var data0 := data[..];
    start := byteCount;
    var count2;
    infos2, count2 := PlaceRecord(infos, count, index, info.(byteIndex := start), byteCount);
    data2 := data;
    if info.byteCount != UNDEFINED_INFO.byteCount {
      data2 := ResizePayload(data, byteCount, byteCount, 0, info.byteCount, false);
    }
    byteCount2 := byteCount + info.byteCount;
    ExpandedLayout(infos, count, data0, infos2, data2[..], index);
  }

  /**
   * AdaptiveSet on an existing argument of another tag or size: the record
   * keeps its byte index; when the size changes the payload is resized,
   * the bytes after the argument move to its new end and every later
   * record moves by the difference.
   */
  method AdaptOverwrite(infos: seq<OscArgInfo>, count: nat, byteCount: nat, data: array<byte>, index: nat, info: OscArgInfo)
    returns (infos2: seq<OscArgInfo>, byteCount2: nat, data2: array<byte>, start: nat)
    requires Packed(infos, count) && byteCount == End(infos, count) <= data.Length <= MAX_ARRAY_LENGTH
    requires index < count && info.byteCount >= 0 && byteCount + info.byteCount <= MAX_ARRAY_LENGTH
    modifies data
    ensures Packed(infos2, count) && byteCount2 == End(infos2, count) <= data2.Length <= MAX_ARRAY_LENGTH
    ensures data2 == data || fresh(data2)
    ensures start == infos[index].byteIndex && infos2[index] == info.(byteIndex := start)
    ensures info.byteCount == infos[index].byteCount ==> byteCount2 == byteCount
    ensures ArgsOf(infos2, count, data2[..])
         == Updated(ArgsOf(infos, count, old(data[..])), index, ArgAt(infos2, count, data2[..], index))
  {
    ghost var data0 := data[..];
    var oldInfo := infos[index];
    ArgBounds(infos, count, index);
    start := oldInfo.byteIndex;
    var count2;
    infos2, count2 := PlaceRecord(infos, count, index, info.(byteIndex := start), byteCount);
    data2 := data;
    byteCount2 := byteCount;
    if info.byteCount != oldInfo.byteCount {
      data2 := ResizePayload(data, byteCount, start, oldInfo.byteCount, info.byteCount, index != count - 1);
      infos2 := ShiftLater(infos2, index + 1, count, info.byteCount - oldInfo.byteCount);
      byteCount2 := byteCount - oldInfo.byteCount + info.byteCount;
    }
    ResizedLayout(infos, count, data0, infos2, data2[..], index);
  }

  /**
   * The body of AdaptiveSet on the records and the payload array.  When
   * the argument already has the tag and the size, nothing changes;
   * otherwise the argument at `index` becomes a record like `info`,
   * starting at `start`, and every other argument keeps its bytes.
   * `resized` says whether the count or the payload size changed.
   */
  method Adapt(infos: seq<OscArgInfo>, count: nat, byteCount: nat, data: array<byte>, index: nat, info: OscArgInfo)
    returns (infos2: seq<OscArgInfo>, count2: nat, byteCount2: nat, data2: array<byte>, start: nat, resized: bool)
    requires Packed(infos, count) && byteCount == End(infos, count) <= data.Length <= MAX_ARRAY_LENGTH
    requires info.byteCount >= 0 && byteCount + info.byteCount <= MAX_ARRAY_LENGTH
    requires InSync(info) && info.argType != Unsupported && (index < count ==> InSync(infos[index]))
    modifies data
    ensures count2 == (if index < count then count else index + 1)
    ensures Packed(infos2, count2) && byteCount2 == End(infos2, count2) <= data2.Length <= MAX_ARRAY_LENGTH
    ensures data2 == data || fresh(data2)
    ensures infos2[index] == info.(byteIndex := start)
    ensures ArgsOf(infos2, count2, data2[..])
         == Updated(ArgsOf(infos, count, old(data[..])), index, ArgAt(infos2, count2, data2[..], index))
    ensures !resized <==> count2 == count && byteCount2 == byteCount
    ensures index < count && infos[index].tagByte == info.tagByte && infos[index].byteCount == info.byteCount ==>
      infos2 == infos && byteCount2 == byteCount && !resized && data2 == data && data[..] == old(data[..])
  {
    if index >= count {
      infos2, byteCount2, data2, start := AdaptExpand(infos, count, byteCount, data, index, info);
      count2, resized := index + 1, true;
    } else if infos[index].tagByte == info.tagByte && infos[index].byteCount == info.byteCount {
      ArgBounds(infos, count, index);
      infos2, count2, byteCount2, data2, start, resized := infos, count, byteCount, data, infos[index].byteIndex, false;
      assert infos[index] == info.(byteIndex := start);
      assert ArgsOf(infos, count, data[..])[index] == ArgAt(infos, count, data[..], index);
    } else {
      infos2, byteCount2, data2, start := AdaptOverwrite(infos, count, byteCount, data, index, info);
      count2, resized := count, byteCount2 != byteCount;
    }
  }

  /* ---- Writing the argument a Set has placed ---- */

  /** Set(float/int/char/color/midi), second half: the four bytes go at the argument's start. */
  method WriteFourByteArg(infos: seq<OscArgInfo>, count: nat, data: array<byte>, index: nat, start: nat,
                          value: FourByteOscData.Data, littleEndian: bool, ghost args0: seq<Arg>)
    requires Packed(infos, count) && End(infos, count) <= data.Length && index < count
    requires FixedInfo(infos[index]) && infos[index].byteCount == 4 && start == infos[index].byteIndex
    requires ArgsOf(infos, count, data[..]) == Updated(args0, index, ArgAt(infos, count, data[..], index))
    requires WellFormedArgs(args0)
    modifies data
    ensures ArgsOf(infos, count, data[..])
         == Updated(args0, index, Arg(infos[index].tagByte, infos[index].argType, OscDataBlock.ToWire(value, littleEndian)))
    ensures WellFormedArgs(ArgsOf(infos, count, data[..]))
  {
    ArgBounds(infos, count, index);
    ghost var before := data[..];
    var _, _ := FourByteOscData.TryWriteTo(value, littleEndian, data, start);
    SetArgWritten(infos, count, before, data[..], index, OscDataBlock.ToWire(value, littleEndian), args0);
  }

  /** Set(double/long/timetag), second half: the eight bytes go at the argument's start. */
  method WriteEightByteArg(infos: seq<OscArgInfo>, count: nat, data: array<byte>, index: nat, start: nat,
                           value: EightByteOscData.Data, littleEndian: bool, ghost args0: seq<Arg>)
    requires Packed(infos, count) && End(infos, count) <= data.Length && index < count
    requires FixedInfo(infos[index]) && infos[index].byteCount == 8 && start == infos[index].byteIndex
    requires ArgsOf(infos, count, data[..]) == Updated(args0, index, ArgAt(infos, count, data[..], index))
    requires WellFormedArgs(args0)
    modifies data
    ensures ArgsOf(infos, count, data[..])
         == Updated(args0, index, Arg(infos[index].tagByte, infos[index].argType, OscDataBlock.ToWire(value, littleEndian)))
    ensures WellFormedArgs(ArgsOf(infos, count, data[..]))
  {
    ArgBounds(infos, count, index);
    ghost var before := data[..];
    var _, _ := EightByteOscData.TryWriteTo(value, littleEndian, data, start);
    SetArgWritten(infos, count, before, data[..], index, OscDataBlock.ToWire(value, littleEndian), args0);
  }

  /** Set(string), second half: the OSC-string goes at the argument's start. */
  method WriteStringArg(infos: seq<OscArgInfo>, count: nat, data: array<byte>, index: nat, start: nat,
                        text: string, ghost args0: seq<Arg>)
    requires Packed(infos, count) && End(infos, count) <= data.Length && index < count
    requires infos[index].tagByte == TAG_STRING_BYTE && infos[index].argType == String
    requires infos[index].byteCount == StringOscData.EvaluateByteCount(text) && start == infos[index].byteIndex
    requires ArgsOf(infos, count, data[..]) == Updated(args0, index, ArgAt(infos, count, data[..], index))
    requires WellFormedArgs(args0)
    modifies data
    ensures ArgsOf(infos, count, data[..]) == Updated(args0, index, Arg(TAG_STRING_BYTE, String, StringOscData.Encode(text)))
    ensures WellFormedArgs(ArgsOf(infos, count, data[..]))
  {
    ArgBounds(infos, count, index);
    ghost var before := data[..];
    var _, _ := StringOscData.TryWriteTo(text, data, start);
    StringArgWellFormed(text);
    SetArgWritten(infos, count, before, data[..], index, StringOscData.Encode(text), args0);
  }

  /** Set(byte[]), second half: the OSC-blob goes at the argument's start. */
  method WriteBlobArg(infos: seq<OscArgInfo>, count: nat, data: array<byte>, index: nat, start: nat,
                      blob: seq<byte>, littleEndian: bool, ghost args0: seq<Arg>)
    requires Packed(infos, count) && End(infos, count) <= data.Length && index < count && |blob| < 0x8000_0000
    requires infos[index].tagByte == TAG_BLOB_BYTE && infos[index].argType == Blob
    requires infos[index].byteCount == BlobOscData.EvaluateByteCount(blob) && start == infos[index].byteIndex
    requires ArgsOf(infos, count, data[..]) == Updated(args0, index, ArgAt(infos, count, data[..], index))
    requires WellFormedArgs(args0)
    modifies data
    ensures ArgsOf(infos, count, data[..]) == Updated(args0, index, Arg(TAG_BLOB_BYTE, Blob, BlobOscData.Encode(blob)))
    ensures WellFormedArgs(ArgsOf(infos, count, data[..]))
  {
    ArgBounds(infos, count, index);
    ghost var before := data[..];
    var _, _ := BlobOscData.TryWriteBlob(blob, data, start, littleEndian);
    BlobArgWellFormed(blob);
    SetArgWritten(infos, count, before, data[..], index, BlobOscData.Encode(blob), args0);
  }
}
