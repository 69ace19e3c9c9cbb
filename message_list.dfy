/**
 * OscListMessages: the older message class kept in the library's Base
 * tree.  It keeps its arguments in two growable lists: one record per
 * argument holding only a tag byte and a payload size, and one list of
 * payload bytes back to back.  Where an argument starts is not stored; it
 * is the sum of the sizes before it.  The lists are stated here with
 * SizeSum and ListArgs, and related to the layout of the current message
 * class (OscMessageLayout) through Layout, so that the size, the wire
 * bytes and the reader are the same functions for both.
 */
module OscListMessages {
  import opened Bytes
  import opened Wrappers
  import opened OscTypes
  import opened OscArgInfo
  import opened OscMessageLayout
  import OscConverter
  import OscDataBlock
  import StringOscData
  import OscMessageWire
  import OscMessageParse
  import OscMessageReader
  import LossyOscStringHash

  /** The older argument record: a tag byte and the number of payload bytes. */
  datatype ListArgInfo = ListArgInfo(tagByte: byte, size: int)

  /** The record the gap of a Set beyond the last argument is filled with. */
  const NULL_LIST_INFO: ListArgInfo := ListArgInfo(TAG_NULL_BYTE, 0)

  /** The record AdaptiveSet compares with when it appends. */
  const UNDEFINED_LIST_INFO: ListArgInfo := ListArgInfo(TAG_UNSUPPORTED_BYTE, 0)

  /** The sum of the sizes of the first n records: where argument n starts. */
  function SizeSum(infos: seq<ListArgInfo>, n: nat): int
    requires n <= |infos|
  {
    if n == 0 then 0 else SizeSum(infos, n - 1) + infos[n - 1].size
  }

  /** No record has a negative size. */
  predicate Sized(infos: seq<ListArgInfo>)
  {
    forall i :: 0 <= i < |infos| ==> infos[i].size >= 0
  }

  /** With no negative size, the sums grow with n and never go below 0. */
  lemma {:induction false} SizeSumMono(infos: seq<ListArgInfo>, i: nat, j: nat)
    requires Sized(infos) && i <= j <= |infos|
    ensures 0 <= SizeSum(infos, i) <= SizeSum(infos, j)
    decreases j
  {
    if i < j {
      SizeSumMono(infos, i, j - 1);
    } else if j > 0 {
      SizeSumMono(infos, j - 1, j - 1);
    }
  }

  /** The sum over the first n records only depends on those records. */
  lemma {:induction false} SizeSumPrefix(a: seq<ListArgInfo>, b: seq<ListArgInfo>, n: nat)
    requires n <= |a| && n <= |b| && a[..n] == b[..n]
    ensures SizeSum(a, n) == SizeSum(b, n)
  {
    if n > 0 {
      assert a[n - 1] == a[..n][n - 1] == b[..n][n - 1] == b[n - 1];
      assert a[..n - 1] == a[..n][..n - 1];
      assert b[..n - 1] == b[..n][..n - 1];
      SizeSumPrefix(a, b, n - 1);
    }
  }

  /** The records of the current message class for these records: each starts where the sizes before it end. */
  function Layout(infos: seq<ListArgInfo>): seq<OscArgInfo>
  {
    seq(|infos|, j requires 0 <= j < |infos| =>
      OscArgInfo(infos[j].tagByte, OscConverter.ToArgType(infos[j].tagByte), infos[j].size, SizeSum(infos, j)))
  }

  /** The older records for records of the current class: their tags and sizes. */
  function ListInfos(layout: seq<OscArgInfo>): seq<ListArgInfo>
  {
    seq(|layout|, j requires 0 <= j < |layout| => ListArgInfo(layout[j].tagByte, layout[j].byteCount))
  }

  /** The tag bytes of the records. */
  function TagsOf(infos: seq<ListArgInfo>): seq<byte>
  {
    seq(|infos|, j requires 0 <= j < |infos| => infos[j].tagByte)
  }

  /**
   * The sizes laid out one after another are a packed layout of the current
   * class ending at their sum, and dropping the offsets gives the records back.
   */
  lemma {:induction false} LayoutPacked(infos: seq<ListArgInfo>)
    requires Sized(infos)
    ensures Packed(Layout(infos), |infos|) && End(Layout(infos), |infos|) == SizeSum(infos, |infos|)
    ensures ListInfos(Layout(infos)) == infos
  {
    var layout := Layout(infos);
    forall i | 0 < i < |infos|
      ensures layout[i].byteIndex == layout[i - 1].byteIndex + layout[i - 1].byteCount
    {
      assert SizeSum(infos, i) == SizeSum(infos, i - 1) + infos[i - 1].size;
    }
  }

  /** The payload list holds exactly the bytes the records account for. */
  predicate Laid(infos: seq<ListArgInfo>, data: seq<byte>)
  {
    Sized(infos) && |data| == SizeSum(infos, |infos|)
  }

  /** The arguments the two lists hold, in order: those the current class reads through Layout. */
  function ListArgs(infos: seq<ListArgInfo>, data: seq<byte>): (args: seq<Arg>)
    requires Laid(infos, data)
    ensures |args| == |infos|
  {
    LayoutPacked(infos);
    ArgsOf(Layout(infos), |infos|, data)
  }

  /** In a packed layout the sizes before record j add up to where it starts. */
  lemma {:induction false} SizeSumOfLayout(layout: seq<OscArgInfo>, j: nat)
    requires Packed(layout, |layout|) && j <= |layout|
    ensures SizeSum(ListInfos(layout), j) == if j < |layout| then layout[j].byteIndex else End(layout, |layout|)
  {
    if j > 0 {
      SizeSumOfLayout(layout, j - 1);
    }
  }

  /**
   * Records the current class reads are the layout of their older records:
   * a packed layout whose types are those of its tags.
   */
  lemma {:induction false} LayoutOfRecords(layout: seq<OscArgInfo>)
    requires Packed(layout, |layout|) && forall j :: 0 <= j < |layout| ==> InSync(layout[j])
    ensures Sized(ListInfos(layout)) && Layout(ListInfos(layout)) == layout
    ensures SizeSum(ListInfos(layout), |layout|) == End(layout, |layout|)
  {
    forall j | 0 <= j < |layout|
      ensures Layout(ListInfos(layout))[j] == layout[j]
    {
      SizeSumOfLayout(layout, j);
    }
    SizeSumOfLayout(layout, |layout|);
  }

  /** The payload of the arguments is the payload list, and their tags are the records' tags. */
  lemma {:induction false} ListPayload(infos: seq<ListArgInfo>, data: seq<byte>)
    requires Laid(infos, data)
    ensures Payload(ListArgs(infos, data)) == data && Tags(ListArgs(infos, data)) == TagsOf(infos)
  {
    LayoutPacked(infos);
    PayloadOfPacked(Layout(infos), |infos|, data);
    assert data[..|data|] == data;
  }

  /** Argument j holds the tag of record j and the bytes from where the sizes before it end. */
  lemma ListArgAt(infos: seq<ListArgInfo>, data: seq<byte>, j: nat)
    requires Laid(infos, data) && j < |infos|
    ensures 0 <= SizeSum(infos, j) && SizeSum(infos, j) + infos[j].size <= |data|
    ensures ListArgs(infos, data)[j]
         == Arg(infos[j].tagByte, OscConverter.ToArgType(infos[j].tagByte), data[SizeSum(infos, j)..SizeSum(infos, j) + infos[j].size])
  {
    LayoutPacked(infos);
    ArgBounds(Layout(infos), |infos|, j);
  }

  /** Argument j starts where the bytes of the arguments before it end. */
  lemma {:induction false} ListArgStart(infos: seq<ListArgInfo>, data: seq<byte>, j: nat)
    requires Laid(infos, data) && j <= |infos|
    ensures SizeSum(infos, j) == |Payload(ListArgs(infos, data)[..j])|
  {
    if j > 0 {
      var args := ListArgs(infos, data);
      assert args[..j][..j - 1] == args[..j - 1];
      ListArgAt(infos, data, j - 1);
      ListArgStart(infos, data, j - 1);
    }
  }

  /* ---- AdaptiveSet ---- */

  /** The records with Null records added up to `index` when it lies beyond the last one. */
  function Padded(infos: seq<ListArgInfo>, index: nat): (padded: seq<ListArgInfo>)
    ensures |padded| == if index < |infos| then |infos| else index + 1
  {
    if index < |infos| then infos else infos + seq(index + 1 - |infos|, _ => NULL_LIST_INFO)
  }

  /** AdaptiveSet has nothing to do: the record at `index` (or the undefined one beyond the end) is `info`. */
  predicate SameInfo(infos: seq<ListArgInfo>, index: nat, info: ListArgInfo)
  {
    if index < |infos| then infos[index] == info else info == UNDEFINED_LIST_INFO
  }

  /** Padding adds only empty records: the sums up to the old end stay, beyond it they stay at the total. */
  lemma {:induction false} SizeSumPadded(infos: seq<ListArgInfo>, index: nat, j: nat)
    requires j <= |Padded(infos, index)|
    ensures SizeSum(Padded(infos, index), j) == SizeSum(infos, if j <= |infos| then j else |infos|)
  {
    var padded := Padded(infos, index);
    if j <= |infos| {
      assert padded[..j] == infos[..j];
      SizeSumPrefix(padded, infos, j);
    } else {
      SizeSumPadded(infos, index, j - 1);
      assert padded[j - 1] == NULL_LIST_INFO;
    }
  }

  /** Replacing record `index` changes the sums after it by the difference of the sizes. */
  lemma {:induction false} SizeSumUpdated(infos: seq<ListArgInfo>, index: nat, info: ListArgInfo, j: nat)
    requires index < |infos| && j <= |infos|
    ensures SizeSum(infos[index := info], j)
         == if j <= index then SizeSum(infos, j) else SizeSum(infos, j) - infos[index].size + info.size
  {
    if j <= index {
      assert infos[index := info][..j] == infos[..j];
      SizeSumPrefix(infos[index := info], infos, j);
    } else {
      SizeSumUpdated(infos, index, info, j - 1);
    }
  }

  /**
   * Setting record `index` beyond the last one, in layout terms: the old
   * records keep their places, the gap holds empty Null records at the end
   * of the payload, and the new record starts there too.
   */
  lemma {:induction false} LayoutExpanded(infos: seq<ListArgInfo>, index: nat, info: ListArgInfo)
    requires Sized(infos) && |infos| <= index && info.size >= 0
    ensures var layout := Layout(infos);
      var layout2 := Layout(Padded(infos, index)[index := info]);
      && (forall j :: 0 <= j < |infos| ==> layout2[j] == layout[j])
      && (forall j :: |infos| <= j < index ==> layout2[j] == NULL_INFO.(byteIndex := SizeSum(infos, |infos|)))
      && layout2[index].byteCount == info.size && layout2[index].byteIndex == SizeSum(infos, |infos|)
  {
    var infos2 := Padded(infos, index)[index := info];
    forall j | 0 <= j <= index
      ensures SizeSum(infos2, j) == SizeSum(infos, if j <= |infos| then j else |infos|)
    {
      SizeSumUpdated(Padded(infos, index), index, info, j);
      SizeSumPadded(infos, index, j);
    }
  }

  /**
   * `layout2` is `layout` with record `index` replaced by one starting at the
   * same place: the records before it are kept and every later one moves
   * by the difference of the sizes.
   */
  predicate ResizedRecords(layout: seq<OscArgInfo>, layout2: seq<OscArgInfo>, count: nat, index: nat)
  {
    && index < count <= |layout| && count <= |layout2|
    && layout2[index].byteIndex == layout[index].byteIndex
    && (forall j :: 0 <= j < index ==> layout2[j] == layout[j])
    && (var delta := layout2[index].byteCount - layout[index].byteCount;
        forall j :: index < j < count ==> layout2[j] == layout[j].(byteIndex := layout[j].byteIndex + delta))
  }

  /**
   * Replacing an existing record, in layout terms: the records before it
   * are kept, it keeps its start, and every later record moves by the
   * difference of the sizes.
   */
  lemma {:induction false} LayoutResized(infos: seq<ListArgInfo>, index: nat, info: ListArgInfo)
    requires index < |infos|
    ensures ResizedRecords(Layout(infos), Layout(infos[index := info]), |infos|, index)
    ensures Layout(infos[index := info])[index].byteCount == info.size
  {
    forall j | 0 <= j <= |infos|
      ensures SizeSum(infos[index := info], j)
           == if j <= index then SizeSum(infos, j) else SizeSum(infos, j) - infos[index].size + info.size
    {
      SizeSumUpdated(infos, index, info, j);
    }
  }

  /**
   * The bytes before `at` are kept and the `tail` bytes after the old run
   * (from `from`) now follow the new run (from `to`).
   */
  predicate Moved(data: seq<byte>, data2: seq<byte>, at: int, from: int, to: int, tail: int)
  {
    && 0 <= at && 0 <= tail && at <= from && from + tail <= |data| && at <= to && to + tail <= |data2|
    && data2[..at] == data[..at] && data2[to..to + tail] == data[from..from + tail]
  }

  /** `count` zero bytes added at the end, one at a time (List.Add). */
  method AddZeros(data: seq<byte>, count: nat) returns (data2: seq<byte>)
    ensures data2 == data + Zeros(count)
  {
    data2 := data;
    var i := 0;
    while i < count
      invariant i <= count && data2 == data + Zeros(i)
    {
      data2 := data2 + [0];
      i := i + 1;
    }
  }

  /** `count` zero bytes inserted at `at`, one at a time (List.Insert). */
  method InsertZeros(data: seq<byte>, at: nat, count: nat) returns (data2: seq<byte>)
    requires at <= |data|
    ensures data2 == data[..at] + Zeros(count) + data[at..]
  {
    data2 := data;
    var i := 0;
    while i < count
      invariant i <= count && data2 == data[..at] + Zeros(i) + data[at..]
    {
      data2 := data2[..at] + [0] + data2[at..];
      assert data2 == data[..at] + Zeros(i + 1) + data[at..] by {
        assert data[..at] + [0] + Zeros(i) == data[..at] + Zeros(i + 1);
      }
      i := i + 1;
    }
  }

  /** The padding loop of AdaptiveSet: Null records added until `index` is a record. */
  method PadInfos(infos: seq<ListArgInfo>, index: nat) returns (padded: seq<ListArgInfo>)
    requires |infos| <= index
    ensures padded == Padded(infos, index)
  {
    padded := infos;
    var i := |infos|;
    while i < index + 1
      invariant |infos| <= i <= index + 1 && padded == infos + seq(i - |infos|, _ => NULL_LIST_INFO)
    {
      padded := padded + [NULL_LIST_INFO];
      i := i + 1;
    }
  }

  /** The loop of AdaptiveSet that finds where argument `index` starts and how many payload bytes there are. */
  method StartAndTotal(infos: seq<ListArgInfo>, index: nat) returns (start: int, total: int)
    requires index < |infos|
    ensures start == SizeSum(infos, index) && total == SizeSum(infos, |infos|)
  {
    total := 0;
    start := 0;
    var i := 0;
    while i < |infos|
      invariant i <= |infos| && total == SizeSum(infos, i)
      invariant index < i ==> start == SizeSum(infos, index)
    {
      if i == index {
        start := total;
      }
      total := total + infos[i].size;
      i := i + 1;
    }
  }

  /**
   * The payload edit of AdaptiveSet for a run at `start` growing or
   * shrinking from `oldSize` to `newSize` bytes: zeros added at the end
   * when it is the last run, inserted at its start otherwise, or bytes
   * removed at its start.
   */
  method ResizeRun(data: seq<byte>, start: nat, oldSize: nat, newSize: nat, last: bool) returns (data2: seq<byte>)
    requires start + oldSize <= |data| && (last ==> start + oldSize == |data|)
    ensures |data2| == |data| - oldSize + newSize
    ensures Moved(data, data2, start, start + oldSize, start + newSize, |data| - start - oldSize)
  {
    var byteDelta := newSize - oldSize;
    data2 := data;
    if byteDelta > 0 {
      if last {
        data2 := AddZeros(data, byteDelta);
        assert data2[..start] == data[..start];
      } else {
        data2 := InsertZeros(data, start, byteDelta);
        assert data2[..start] == data[..start];
        assert data2[start + newSize..] == data[start + oldSize..];
      }
    } else if byteDelta < 0 {
      data2 := data[..start] + data[start - byteDelta..];
      assert data2[..start] == data[..start];
      assert data2[start + newSize..] == data[start + oldSize..];
    }
  }

  /** Where the run of argument `index` starts: after the last argument when it lies beyond it. */
  function RunStart(infos: seq<ListArgInfo>, index: nat): int
  {
    SizeSum(infos, if index < |infos| then index else |infos|)
  }

  /** The size of the run of argument `index`: 0 beyond the last argument. */
  function RunSize(infos: seq<ListArgInfo>, index: nat): int
  {
    if index < |infos| then infos[index].size else 0
  }

  /** The run of argument `index` lies in the payload, and ends it when it is the last one. */
  lemma {:induction false} RunBounds(infos: seq<ListArgInfo>, index: nat)
    requires Sized(infos)
    ensures 0 <= RunStart(infos, index) && 0 <= RunSize(infos, index)
    ensures RunStart(infos, index) + RunSize(infos, index) <= SizeSum(infos, |infos|)
    ensures |infos| <= index + 1 ==> RunStart(infos, index) + RunSize(infos, index) == SizeSum(infos, |infos|)
  {
    if index < |infos| {
      SizeSumMono(infos, index, index + 1);
      SizeSumMono(infos, index + 1, |infos|);
    } else {
      SizeSumMono(infos, |infos|, |infos|);
    }
  }

  /**
   * `args2` is `args` after Set at `index`: every other argument is kept,
   * a gap holds Null arguments, and the argument at `index` has `info`'s
   * tag and size.
   */
  predicate UpdatedAt(args: seq<Arg>, args2: seq<Arg>, index: nat, info: ListArgInfo)
  {
    && index < |args2| && args2 == Updated(args, index, args2[index])
    && args2[index].tagByte == info.tagByte && |args2[index].bytes| == info.size
  }

  /** Replacing a record keeps the records sized and the payload as long as their sizes add up to. */
  lemma {:induction false} ResizedLaid(infos: seq<ListArgInfo>, data: seq<byte>, index: nat, info: ListArgInfo, data2: seq<byte>)
    requires Laid(infos, data) && info.size >= 0 && index < |infos|
    requires |data2| == |data| - infos[index].size + info.size
    ensures Laid(infos[index := info], data2)
  {
    SizeSumUpdated(infos, index, info, |infos|);
  }

  /** Setting beyond the last record keeps the records sized and the payload as long as their sizes add up to. */
  lemma {:induction false} ExpandedLaid(infos: seq<ListArgInfo>, data: seq<byte>, index: nat, info: ListArgInfo, data2: seq<byte>)
    requires Laid(infos, data) && info.size >= 0 && |infos| <= index
    requires |data2| == |data| + info.size
    ensures Laid(Padded(infos, index)[index := info], data2)
  {
    SizeSumUpdated(Padded(infos, index), index, info, index + 1);
    SizeSumPadded(infos, index, index + 1);
  }

  /** AdaptedArgs beyond the last argument: the old arguments, Null arguments, then the new one. */
  lemma {:induction false} ExpandedArgs(infos: seq<ListArgInfo>, data: seq<byte>, index: nat, info: ListArgInfo, data2: seq<byte>)
    requires Laid(infos, data) && info.size >= 0 && |infos| <= index
    requires Laid(Padded(infos, index)[index := info], data2)
    requires |data2| == |data| + info.size && data2[..|data|] == data[..|data|]
    ensures UpdatedAt(ListArgs(infos, data), ListArgs(Padded(infos, index)[index := info], data2), index, info)
  {
    var infos2 := Padded(infos, index)[index := info];
    LayoutPacked(infos);
    LayoutExpanded(infos, index, info);
    LayoutPacked(infos2);
    ExpandedLayout(Layout(infos), |infos|, data, Layout(infos2), data2, index);
  }

  /** AdaptedArgs on an existing argument: the others keep their bytes, moved by the difference of the sizes. */
  lemma {:induction false} ResizedArgs(infos: seq<ListArgInfo>, data: seq<byte>, index: nat, info: ListArgInfo, data2: seq<byte>)
    requires Laid(infos, data) && info.size >= 0 && index < |infos|
    requires Laid(infos[index := info], data2)
    requires var start := SizeSum(infos, index);
      Moved(data, data2, start, start + infos[index].size, start + info.size, |data| - start - infos[index].size)
    ensures UpdatedAt(ListArgs(infos, data), ListArgs(infos[index := info], data2), index, info)
  {
    var infos2 := infos[index := info];
    ResizedFacts(infos, data, index, info, data2);
    ResizedMoved(Layout(infos), Layout(infos2), |infos|, data, data2, index,
                 SizeSum(infos, index), infos[index].size, info.size);
  }

  /** The layouts of ResizedArgs meet the requirements of ResizedMoved. */
  lemma {:induction false} ResizedFacts(infos: seq<ListArgInfo>, data: seq<byte>, index: nat, info: ListArgInfo, data2: seq<byte>)
    requires Laid(infos, data) && info.size >= 0 && index < |infos|
    ensures var layout := Layout(infos);
      var layout2 := Layout(infos[index := info]);
      var count := |infos|;
      && Packed(layout, count) && End(layout, count) == |data|
      && ResizedRecords(layout, layout2, count, index)
      && layout[index].byteIndex == SizeSum(infos, index) && layout[index].byteCount == infos[index].size
      && layout2[index].byteCount == info.size && layout2[index].tagByte == info.tagByte
  {
    LayoutPacked(infos);
    LayoutResized(infos, index, info);
  }

  /** ResizedLayout for a resize stated as the run at `start` going from `oldSize` to `newSize` bytes. */
  lemma {:induction false} ResizedMoved(layout: seq<OscArgInfo>, layout2: seq<OscArgInfo>, count: nat,
                                        data: seq<byte>, data2: seq<byte>, index: nat, start: int, oldSize: int, newSize: int)
    requires Packed(layout, count) && End(layout, count) == |data|
    requires ResizedRecords(layout, layout2, count, index)
    requires layout[index].byteIndex == start && layout[index].byteCount == oldSize
    requires layout2[index].byteCount == newSize && newSize >= 0
    requires Moved(data, data2, start, start + oldSize, start + newSize, |data| - start - oldSize)
    ensures Packed(layout2, count) && End(layout2, count) == End(layout, count) + newSize - oldSize
    ensures ArgsOf(layout2, count, data2) == Updated(ArgsOf(layout, count, data), index, ArgAt(layout2, count, data2, index))
  {
    ResizedLayout(layout, count, data, layout2, data2, index);
  }

  /**
   * The arguments after AdaptiveSet resized the run of argument `index` to
   * `info`'s size, keeping the bytes before it and moving those after it:
   * every other argument keeps its tag and bytes, a gap holds Null
   * arguments, and the argument at `index` has `info`'s tag and size.
   */
  lemma {:induction false} AdaptedArgs(infos: seq<ListArgInfo>, data: seq<byte>, index: nat, info: ListArgInfo, data2: seq<byte>)
    requires Laid(infos, data) && info.size >= 0
    requires |data2| == |data| - RunSize(infos, index) + info.size
    requires var start := RunStart(infos, index);
      Moved(data, data2, start, start + RunSize(infos, index), start + info.size, |data| - start - RunSize(infos, index))
    ensures Laid(Padded(infos, index)[index := info], data2)
    ensures UpdatedAt(ListArgs(infos, data), ListArgs(Padded(infos, index)[index := info], data2), index, info)
  {
    if index >= |infos| {
      ExpandedLaid(infos, data, index, info, data2);
      ExpandedArgs(infos, data, index, info, data2);
    } else {
      ResizedLaid(infos, data, index, info, data2);
      ResizedArgs(infos, data, index, info, data2);
    }
  }

  /**
   * The changing path of AdaptiveSet on the two lists: pad the records,
   * find the argument's start, resize its run and store `info`.
   */
  method Adapt(infos: seq<ListArgInfo>, data: seq<byte>, index: nat, info: ListArgInfo)
    returns (infos2: seq<ListArgInfo>, data2: seq<byte>, start: nat)
    requires Laid(infos, data) && info.size >= 0
    ensures infos2 == Padded(infos, index)[index := info] && Laid(infos2, data2)
    ensures UpdatedAt(ListArgs(infos, data), ListArgs(infos2, data2), index, info)
    ensures start == RunStart(infos, index)
    ensures start + info.size <= |data2| && ListArgs(infos2, data2)[index].bytes == data2[start..start + info.size]
  {
    var oldInfo := if index >= |infos| then UNDEFINED_LIST_INFO else infos[index];
    var padded := infos;
    if index >= |infos| {
      padded := PadInfos(infos, index);
    }
    var start0, total := StartAndTotal(padded, index);
    SizeSumPadded(infos, index, index);
    RunBounds(infos, index);
    data2 := ResizeRun(data, start0, oldInfo.size, info.size, index == |padded| - 1);
    infos2 := padded[index := info];
    start := start0;
    AdaptedArgs(infos, data, index, info, data2);
    SizeSumUpdated(padded, index, info, index);
    ListArgAt(infos2, data2, index);
  }

  /**
   * AdaptiveSet on the two lists: nothing to do when the record is already
   * `info`, otherwise Adapt.  `start` is where the run of argument `index`
   * starts, which is where the bytes of the arguments before it end.
   */
  method Place(infos: seq<ListArgInfo>, data: seq<byte>, index: nat, info: ListArgInfo)
    returns (infos2: seq<ListArgInfo>, data2: seq<byte>, start: nat, changed: bool)
    requires Laid(infos, data) && info.size >= 0 && info.tagByte != TAG_UNSUPPORTED_BYTE
    ensures Laid(infos2, data2) && index < |infos2| && infos2[index] == info
    ensures start + info.size <= |data2| && ListArgs(infos2, data2)[index].bytes == data2[start..start + info.size]
    ensures start == |Payload(ListArgs(infos, data)[..if index < |infos| then index else |infos|])|
    ensures changed == !SameInfo(infos, index, info)
    ensures !changed ==> infos2 == infos && data2 == data
    ensures changed ==> infos2 == Padded(infos, index)[index := info] && UpdatedAt(ListArgs(infos, data), ListArgs(infos2, data2), index, info)
  {
    ListArgStart(infos, data, if index < |infos| then index else |infos|);
    if SameInfo(infos, index, info) {
      var sum := SumSizes(infos, index);
      ListArgAt(infos, data, index);
      return infos, data, sum, false;
    }
    infos2, data2, start := Adapt(infos, data, index, info);
    changed := true;
  }
  /* ---- RemoveAt ---- */

  /** The records without record `index`. */
  function Without(infos: seq<ListArgInfo>, index: nat): (r: seq<ListArgInfo>)
    requires index < |infos|
    ensures |r| == |infos| - 1
  {
    infos[..index] + infos[index + 1..]
  }

  /** Dropping record `index` leaves the sums before it and lowers those after it by its size. */
  lemma {:induction false} SizeSumRemoved(infos: seq<ListArgInfo>, index: nat, j: nat)
    requires index < |infos| && j < |infos|
    ensures SizeSum(Without(infos, index), j)
         == if j <= index then SizeSum(infos, j) else SizeSum(infos, j + 1) - infos[index].size
  {
    var infos2 := Without(infos, index);
    if j <= index {
      assert infos2[..j] == infos[..j];
      SizeSumPrefix(infos2, infos, j);
    } else {
      SizeSumRemoved(infos, index, j - 1);
      assert infos2[j - 1] == infos[j];
    }
  }

  /**
   * `layout2` is `layout` without record `index`: the records before it
   * are kept and every later one moves back by its size.
   */
  predicate RemovedRecords(layout: seq<OscArgInfo>, layout2: seq<OscArgInfo>, count: nat, index: nat)
  {
    && index < count <= |layout| && count - 1 <= |layout2|
    && (forall j :: 0 <= j < index ==> layout2[j] == layout[j])
    && (forall j :: index <= j < count - 1 ==>
          layout2[j] == layout[j + 1].(byteIndex := layout[j + 1].byteIndex - layout[index].byteCount))
  }

  /** Dropping a record, in layout terms: the earlier records stay, the later ones move back by its size. */
  lemma {:induction false} LayoutRemoved(infos: seq<ListArgInfo>, index: nat)
    requires index < |infos|
    ensures RemovedRecords(Layout(infos), Layout(Without(infos, index)), |infos|, index)
  {
    var infos2 := Without(infos, index);
    var layout := Layout(infos);
    var layout2 := Layout(infos2);
    forall j | 0 <= j < index
      ensures layout2[j] == layout[j]
    {
      SizeSumRemoved(infos, index, j);
    }
    forall j | index <= j < |infos| - 1
      ensures layout2[j] == layout[j + 1].(byteIndex := layout[j + 1].byteIndex - layout[index].byteCount)
    {
      SizeSumRemoved(infos, index, j);
      assert infos2[j] == infos[j + 1];
    }
  }

  /** Dropping a record and its run keeps the records sized and the payload as long as their sizes add up to. */
  lemma {:induction false} RemovedLaid(infos: seq<ListArgInfo>, data: seq<byte>, index: nat, data2: seq<byte>)
    requires Laid(infos, data) && index < |infos|
    requires |data2| == |data| - infos[index].size
    ensures Laid(Without(infos, index), data2)
  {
    var infos2 := Without(infos, index);
    forall j | 0 <= j < |infos2|
      ensures infos2[j].size >= 0
    {
      assert infos2[j] == if j < index then infos[j] else infos[j + 1];
    }
    if index < |infos| - 1 {
      SizeSumRemoved(infos, index, |infos| - 1);
    } else {
      SizeSumRemoved(infos, index, index);
    }
  }

  /** The layouts of RemovedArgs meet the requirements of RemovedMoved. */
  lemma {:induction false} RemovedFacts(infos: seq<ListArgInfo>, data: seq<byte>, index: nat)
    requires Laid(infos, data) && index < |infos|
    ensures var layout := Layout(infos);
      && Packed(layout, |infos|) && End(layout, |infos|) == |data|
      && RemovedRecords(layout, Layout(Without(infos, index)), |infos|, index)
      && layout[index].byteIndex == SizeSum(infos, index) && layout[index].byteCount == infos[index].size
  {
    LayoutPacked(infos);
    LayoutRemoved(infos, index);
  }

  /** RemovedLayout for the run at `start` of `size` bytes cut out of the payload. */
  lemma {:induction false} RemovedMoved(layout: seq<OscArgInfo>, layout2: seq<OscArgInfo>, count: nat,
                                        data: seq<byte>, data2: seq<byte>, index: nat, start: int, size: int)
    requires Packed(layout, count) && End(layout, count) == |data|
    requires RemovedRecords(layout, layout2, count, index)
    requires layout[index].byteIndex == start && layout[index].byteCount == size
    requires Moved(data, data2, start, start + size, start, |data| - start - size)
    ensures ArgsOf(layout2, count - 1, data2) == Removed(ArgsOf(layout, count, data), index)
  {
    RemovedLayout(layout, count, data, layout2, data2, index);
  }

  /**
   * The arguments after RemoveAt cut the run of argument `index` out of
   * the payload: the argument is gone and every other one keeps its tag
   * and bytes.
   */
  lemma {:induction false} RemovedArgs(infos: seq<ListArgInfo>, data: seq<byte>, index: nat, data2: seq<byte>)
    requires Laid(infos, data) && index < |infos|
    requires var start := SizeSum(infos, index);
      && |data2| == |data| - infos[index].size
      && Moved(data, data2, start, start + infos[index].size, start, |data| - start - infos[index].size)
    ensures Laid(Without(infos, index), data2)
    ensures ListArgs(Without(infos, index), data2) == Removed(ListArgs(infos, data), index)
  {
    RemovedLaid(infos, data, index, data2);
    RemovedFacts(infos, data, index);
    RemovedMoved(Layout(infos), Layout(Without(infos, index)), |infos|, data, data2, index,
                 SizeSum(infos, index), infos[index].size);
  }

  /** List.RemoveRange: `size` bytes removed at `start`. */
  method RemoveRange(data: seq<byte>, start: nat, size: nat) returns (data2: seq<byte>)
    requires start + size <= |data|
    ensures |data2| == |data| - size
    ensures Moved(data, data2, start, start + size, start, |data| - start - size)
  {
    data2 := data[..start] + data[start + size..];
    assert data2[..start] == data[..start];
    assert data2[start..] == data[start + size..];
  }

  /**
   * RemoveAt on the two lists for an index in range: the run of the
   * argument is cut from the payload when it has bytes, then its record goes.
   */
  method RemoveRecord(infos: seq<ListArgInfo>, data: seq<byte>, index: nat)
    returns (infos2: seq<ListArgInfo>, data2: seq<byte>)
    requires Laid(infos, data) && index < |infos|
    ensures infos2 == Without(infos, index) && Laid(infos2, data2)
    ensures ListArgs(infos2, data2) == Removed(ListArgs(infos, data), index)
  {
    var dataSize := infos[index].size;
    RunBounds(infos, index);
    data2 := data;
    if dataSize > 0 {
      var dataStartIndex := SumSizes(infos, index);
      data2 := RemoveRange(data, dataStartIndex, dataSize);
    } else {
      var start := SizeSum(infos, index);
      assert data2[start..start + (|data| - start)] == data[start..start + (|data| - start)];
    }
    RemovedArgs(infos, data, index, data2);
    infos2 := Without(infos, index);
  }
  /* ---- TryReadFrom ---- */

  /** The records TryReadFrom adds for the tags before it sizes any: each tag with size 0. */
  function Unsized(tags: seq<byte>): (infos: seq<ListArgInfo>)
    ensures |infos| == |tags|
  {
    seq(|tags|, k requires 0 <= k < |tags| => ListArgInfo(tags[k], 0))
  }

  /** The number of leading tags the reader sizes before it refuses one: all of them when it refuses none. */
  function AcceptedCount(data: seq<byte>, tags: seq<byte>, argsStart: nat): (n: nat)
    ensures n <= |tags|
    decreases |tags|
  {
    if tags == [] || OscMessageParse.Records(data, tags, argsStart).Some? then |tags|
    else AcceptedCount(data, tags[..|tags| - 1], argsStart)
  }

  /**
   * The records TryReadFrom leaves when it refuses a tag: those before it
   * sized, it and the later ones still unsized.
   */
  function PartlySized(data: seq<byte>, tags: seq<byte>, argsStart: nat): (infos: seq<ListArgInfo>)
  {
    var n := AcceptedCount(data, tags, argsStart);
    AcceptedPrefix(data, tags, argsStart, n);
    ListInfos(OscMessageParse.Records(data, tags[..n], argsStart).value) + Unsized(tags)[n..]
  }

  /** The tags AcceptedCount counts are accepted. */
  lemma {:induction false} AcceptedPrefix(data: seq<byte>, tags: seq<byte>, argsStart: nat, n: nat)
    requires n == AcceptedCount(data, tags, argsStart)
    ensures OscMessageParse.Records(data, tags[..n], argsStart).Some?
    decreases |tags|
  {
    if tags == [] || OscMessageParse.Records(data, tags, argsStart).Some? {
      assert tags[..n] == tags;
    } else {
      var front := tags[..|tags| - 1];
      AcceptedPrefix(data, front, argsStart, n);
      assert front[..n] == tags[..n];
    }
  }

  /** A sizing that stops at `stop`, accepted up to it and refused one tag later, stopped where AcceptedCount says. */
  lemma {:induction false} AcceptedCountIs(data: seq<byte>, tags: seq<byte>, argsStart: nat, stop: nat)
    requires stop <= |tags| && OscMessageParse.Records(data, tags[..stop], argsStart).Some?
    requires stop < |tags| ==> OscMessageParse.Records(data, tags[..stop + 1], argsStart).None?
    ensures AcceptedCount(data, tags, argsStart) == stop
    decreases |tags|
  {
    if stop == |tags| {
      assert tags[..stop] == tags;
    } else {
      OscMessageReader.RecordsStayRefused(data, tags, argsStart, stop + 1);
      var front := tags[..|tags| - 1];
      assert front[..stop] == tags[..stop];
      if stop + 1 <= |front| {
        assert front[..stop + 1] == tags[..stop + 1];
      }
      AcceptedCountIs(data, front, argsStart, stop);
    }
  }

  /**
   * The tag loop of TryReadFrom: one unsized record per byte from
   * `tagStart` up to the first NUL or the end of the buffer.
   */
  method AddTagRecords(data: array<byte>, tagStart: nat) returns (infos: seq<ListArgInfo>, tagEnd: nat)
    requires tagStart <= data.Length
    ensures tagEnd == tagStart + StringOscData.RunLength(data[..], tagStart) <= data.Length
    ensures infos == Unsized(data[tagStart..tagEnd])
  {
    ghost var bytes := data[..];
    infos := [];
    tagEnd := tagStart;
    while tagEnd < data.Length && data[tagEnd] != 0
      invariant tagStart <= tagEnd <= data.Length
      invariant StringOscData.NonNulRun(bytes, tagStart, tagEnd)
      invariant infos == Unsized(data[tagStart..tagEnd])
    {
      infos := infos + [ListArgInfo(data[tagEnd], 0)];
      tagEnd := tagEnd + 1;
    }
    StringOscData.RunLengthOfRun(bytes, tagStart, tagEnd);
  }

  /**
   * One pass of the sizing loop: the size of argument `i`, measured where
   * the sizes before it end, and what the records of one more tag are.
   */
  method MeasureNext(data: array<byte>, argsStart: nat, littleEndian: bool, tagByte: byte, ghost tags: seq<byte>, ghost i: nat,
                     ghost built: seq<OscArgInfo>, total: nat) returns (size: Option<nat>)
    requires data.Length <= MAX_ARRAY_LENGTH && i < |tags| && tags[i] == tagByte
    requires OscMessageParse.Records(data[..], tags[..i], argsStart) == Some(built)
    requires |built| == i && Packed(built, |built|) && total == End(built, |built|)
    ensures size.None? ==> OscMessageParse.Records(data[..], tags[..i + 1], argsStart).None?
    ensures size.Some? ==> OscMessageParse.Records(data[..], tags[..i + 1], argsStart)
                           == Some(built + [OscArgInfo(tags[i], OscConverter.ToArgType(tags[i]), size.value, total)])
  {
    ghost var bytes := data[..];
    size := OscMessageReader.MeasureArg(data, argsStart + total, tagByte, littleEndian);
    OscMessageReader.RecordsStep(bytes, tags, argsStart, i, tagByte, built);
    OscMessageReader.AppendedIs(bytes, argsStart, built, tagByte, total, size);
  }

  /** Sizing record `i` turns the first unsized record into the older form of the new record. */
  lemma ListInfosSized(built: seq<OscArgInfo>, record: OscArgInfo, unsized: seq<ListArgInfo>, i: nat)
    requires |built| == i < |unsized|
    ensures (ListInfos(built) + unsized[i..])[i := ListArgInfo(record.tagByte, record.byteCount)]
         == ListInfos(built + [record]) + unsized[i + 1..]
  {
  }

  /**
   * The sizing loop of TryReadFrom: each record in turn gets the size of
   * its argument, measured where the sizes before it end.  At the first
   * tag the reader refuses it stops, leaving that record and the later
   * ones unsized.
   */
  method SizeRecords(data: array<byte>, argsStart: nat, unsized: seq<ListArgInfo>, littleEndian: bool, ghost tags: seq<byte>)
    returns (infos: seq<ListArgInfo>, refused: bool, total: nat)
    requires data.Length <= MAX_ARRAY_LENGTH && unsized == Unsized(tags)
    ensures var records := OscMessageParse.Records(data[..], tags, argsStart);
      && (refused <==> records.None?)
      && (refused ==> infos == PartlySized(data[..], tags, argsStart))
      && (!refused ==> infos == ListInfos(records.value) && total == End(records.value, |tags|))
  {
    ghost var bytes := data[..];
    ghost var built: seq<OscArgInfo> := [];
    infos := unsized;
    total := 0;
    var i := 0;
    while i < |infos|
      invariant |infos| == |tags| && i <= |tags|
      invariant OscMessageParse.Records(bytes, tags[..i], argsStart) == Some(built)
      invariant |built| == i && Packed(built, i) && total == End(built, i)
      invariant infos == ListInfos(built) + unsized[i..]
    {
      var tagByte := infos[i].tagByte;
      assert tagByte == tags[i];
      var size := MeasureNext(data, argsStart, littleEndian, tagByte, tags, i, built, total);
      if size.None? {
        OscMessageReader.RecordsStayRefused(bytes, tags, argsStart, i + 1);
        AcceptedCountIs(bytes, tags, argsStart, i);
        return infos, true, total;
      }
      ghost var record := OscArgInfo(tagByte, OscConverter.ToArgType(tagByte), size.value, total);
      infos := infos[i := ListArgInfo(tagByte, size.value)];
      ListInfosSized(built, record, unsized, i);
      built := built + [record];
      total := total + size.value;
      i := i + 1;
    }
    assert tags[..i] == tags;
    assert unsized[i..] == [];
    return infos, false, total;
  }
  /** What TryReadFrom of the older class has read when it returns or throws. */
  datatype ListRead =
    | AddressRefused
    | PrefixThrown(address: string)
    | PrefixMissing(address: string, at: nat)
    | TagRefused(address: string, infos: seq<ListArgInfo>, argsStart: nat)
    | PayloadThrown(address: string, infos: seq<ListArgInfo>, partial: seq<byte>)
    | ListParsed(address: string, infos: seq<ListArgInfo>, payload: seq<byte>, next: nat)

  /**
   * TryReadFrom of the older class on values: the address OSC-string; the
   * ',' (reading it past the end throws); the tags, each first added with
   * size 0 and then sized in turn (a refused tag stops the sizing where it
   * is); and the payload, added byte by byte, whose copy throws at the end
   * of the buffer after the bytes before it were added.
   */
  function ListReadOf(data: seq<byte>, index: nat): ListRead
  {
    var tagPrefixAt := OscMessageParse.TagPrefixAt(data, index);
    if tagPrefixAt > |data| then AddressRefused
    else
      var address := StringOscData.Scanned(data, index);
      if tagPrefixAt == |data| then PrefixThrown(address)
      else if data[tagPrefixAt] != TAG_PREFIX_BYTE then PrefixMissing(address, tagPrefixAt)
      else
        ListFinished(data, address, OscMessageParse.TagsAt(data, index), OscMessageParse.ArgsStart(data, index))
  }

  /** The end of TryReadFrom of the older class once the tags are known: sized, refused, or copied. */
  function ListFinished(data: seq<byte>, address: string, tags: seq<byte>, argsStart: nat): ListRead
  {
    match OscMessageParse.Records(data, tags, argsStart)
    case None => TagRefused(address, PartlySized(data, tags, argsStart), argsStart)
    case Some(records) =>
      EndNonNegative(records, |records|);
      var total := End(records, |records|);
      if total > 0 && argsStart + total > |data| then
        PayloadThrown(address, ListInfos(records), if argsStart < |data| then data[argsStart..] else [])
      else ListParsed(address, ListInfos(records), StringOscData.Between(data, argsStart, argsStart + total), argsStart + total)
  }

  /**
   * The older class reads what the current one reads: it refuses, throws
   * or succeeds on the same buffers and reads the same address.
   */
  lemma ListReadAgrees(data: seq<byte>, index: nat)
    ensures var r := OscMessageParse.ParseMessage(data, index);
      var l := ListReadOf(data, index);
      && (l.AddressRefused? <==> OscMessageParse.AddressRead(data, index).None?)
      && (!l.AddressRefused? ==> OscMessageParse.AddressRead(data, index) == Some(l.address))
      && (r.Thrown? <==> l.PrefixThrown? || l.PayloadThrown?)
      && (r.Rejected? <==> l.AddressRefused? || l.PrefixMissing? || l.TagRefused?)
      && (l.PrefixMissing? ==> r.next == l.at)
      && (l.TagRefused? ==> r.next == l.argsStart)
      && (r.Parsed? <==> l.ListParsed?)
  {
    var tagPrefixAt := OscMessageParse.TagPrefixAt(data, index);
    if tagPrefixAt < |data| && data[tagPrefixAt] == TAG_PREFIX_BYTE {
      OscMessageParse.ParseTagged(data, index);
    }
  }

  /**
   * On success the older class holds the arguments the current one holds,
   * its reading ends at the same index, and from a 4-aligned index what it
   * consumed is the size of the message it holds.
   */
  lemma {:induction false} ParsedListArgs(data: seq<byte>, index: nat)
    requires ListReadOf(data, index).ListParsed?
    ensures OscMessageParse.ParseMessage(data, index).Parsed?
    ensures var r := OscMessageParse.ParseMessage(data, index);
      var l := ListReadOf(data, index);
      && l.address == r.address && l.next == r.next
      && Laid(l.infos, l.payload)
      && ListArgs(l.infos, l.payload) == OscMessageParse.ParsedArgs(data, index)
      && (index % 4 == 0 ==> l.next - index == MessageSize(l.address, |l.infos|, |l.payload|))
  {
    ListReadAgrees(data, index);
    var r := OscMessageParse.ParseMessage(data, index);
    ParsedListRead(data, index);
    ParsedInSync(data, index);
    ListArgsOfRecords(r.infos, OscMessageParse.ParsedPayload(data, r));
    if index % 4 == 0 {
      OscMessageParse.ParsedSize(data, index);
    }
  }

  /** A successful parse, read by the older class: the parse's records in the older form and its payload. */
  lemma {:induction false} ParsedListRead(data: seq<byte>, index: nat)
    requires OscMessageParse.ParseMessage(data, index).Parsed?
    ensures var r := OscMessageParse.ParseMessage(data, index);
      && r.argsStart <= r.next && (r.argsStart < r.next ==> r.next <= |data|)
      && Packed(r.infos, |r.infos|) && End(r.infos, |r.infos|) == r.next - r.argsStart
      && ListReadOf(data, index) == ListParsed(r.address, ListInfos(r.infos), OscMessageParse.ParsedPayload(data, r), r.next)
      && OscMessageParse.ParsedArgs(data, index) == ArgsOf(r.infos, |r.infos|, OscMessageParse.ParsedPayload(data, r))
  {
    OscMessageParse.ParsedShape(data, index);
    OscMessageParse.ParseTagged(data, index);
  }

  /** Every record of a successful parse has the type of its tag. */
  lemma {:induction false} ParsedInSync(data: seq<byte>, index: nat)
    requires OscMessageParse.ParseMessage(data, index).Parsed?
    ensures var infos := OscMessageParse.ParseMessage(data, index).infos;
      forall j :: 0 <= j < |infos| ==> InSync(infos[j])
  {
    var r := OscMessageParse.ParseMessage(data, index);
    OscMessageParse.ParsedRecords(data, index);
    forall j | 0 <= j < |r.infos|
      ensures InSync(r.infos[j])
    {
      OscMessageParse.RecordsFacts(data, OscMessageParse.TagsAt(data, index), r.argsStart, j);
    }
  }

  /** Records of the current class, packed and typed by their tags, in the older form hold the same arguments. */
  lemma {:induction false} ListArgsOfRecords(infos: seq<OscArgInfo>, payload: seq<byte>)
    requires Packed(infos, |infos|) && End(infos, |infos|) == |payload|
    requires forall j :: 0 <= j < |infos| ==> InSync(infos[j])
    ensures Laid(ListInfos(infos), payload) && ListArgs(ListInfos(infos), payload) == ArgsOf(infos, |infos|, payload)
  {
    LayoutOfRecords(infos);
  }

  /**
   * The payload loop of TryReadFrom: `total` bytes from `from` added one
   * at a time; reading past the end of the buffer throws, after the bytes
   * before it were added.
   */
  method AddPayload(data: array<byte>, from: nat, total: nat) returns (payload: seq<byte>, threw: bool)
    ensures threw <==> total > 0 && from + total > data.Length
    ensures !threw ==> payload == StringOscData.Between(data[..], from, from + total)
    ensures threw ==> payload == if from < data.Length then data[from..] else []
  {
    payload := [];
    var i := 0;
    while i < total
      invariant i <= total && (i == 0 || from + i <= data.Length)
      invariant payload == StringOscData.Between(data[..], from, from + i)
    {
      if from + i >= data.Length {
        assert payload == if from < data.Length then data[from..] else [];
        return payload, true;
      }
      payload := payload + [data[from + i]];
      i := i + 1;
    }
    threw := false;
  }

  /**
   * TryReadFrom of the older class up to what it leaves in the message:
   * the address, the ',', the tag records, their sizes and the payload.
   * `original` is the message's address, which the string reader compares
   * with; the result does not depend on it.
   */
  method ReadList(data: array<byte>, index: nat, original: string, littleEndian: bool) returns (res: ListRead)
    requires data.Length <= MAX_ARRAY_LENGTH
    ensures res == ListReadOf(data[..], index)
  {
    var ok, tagPrefixAt, address := StringOscData.TryReadText(data, index, original);
    if !ok {
      return AddressRefused;
    }
    assert tagPrefixAt == OscMessageParse.TagPrefixAt(data[..], index);
    if tagPrefixAt == data.Length {
      return PrefixThrown(address);
    }
    if data[tagPrefixAt] != TAG_PREFIX_BYTE {
      return PrefixMissing(address, tagPrefixAt);
    }
    res := ReadListTagged(data, index, address, tagPrefixAt, littleEndian);
  }

  /** TryReadFrom of the older class after the ',': the tag records, then their sizes and the payload. */
  method ReadListTagged(data: array<byte>, index: nat, address: string, tagPrefixAt: nat, littleEndian: bool)
    returns (res: ListRead)
    requires data.Length <= MAX_ARRAY_LENGTH && address == StringOscData.Scanned(data[..], index)
    requires tagPrefixAt == OscMessageParse.TagPrefixAt(data[..], index) < data.Length
    requires data[tagPrefixAt] == TAG_PREFIX_BYTE
    ensures res == ListReadOf(data[..], index)
  {
    ghost var bytes := data[..];
    var unsized, tagEnd := AddTagRecords(data, tagPrefixAt + 1);
    assert tagEnd == OscMessageParse.TagEnd(bytes, index);
    var argsStart := tagEnd + (4 - tagEnd % 4);
    assert argsStart == OscMessageParse.ArgsStart(bytes, index);
    ghost var tags := OscMessageParse.TagsAt(bytes, index);
    assert tags == data[tagPrefixAt + 1..tagEnd];
    res := SizeAndCopy(data, address, argsStart, unsized, littleEndian, tags);
  }

  /** The sizing and the payload copy of TryReadFrom of the older class. */
  method SizeAndCopy(data: array<byte>, address: string, argsStart: nat, unsized: seq<ListArgInfo>, littleEndian: bool,
                     ghost tags: seq<byte>) returns (res: ListRead)
    requires data.Length <= MAX_ARRAY_LENGTH && unsized == Unsized(tags)
    ensures res == ListFinished(data[..], address, tags, argsStart)
  {
    var infos, refused, total := SizeRecords(data, argsStart, unsized, littleEndian, tags);
    if refused {
      return TagRefused(address, infos, argsStart);
    }
    var payload, threw := AddPayload(data, argsStart, total);
    if threw {
      return PayloadThrown(address, infos, payload);
    }
    return ListParsed(address, infos, payload, argsStart + total);
  }
  /** After a ',' the older class's read is decided by the tags and where the arguments start. */
  lemma ListReadTagged(data: seq<byte>, index: nat)
    requires OscMessageParse.TagPrefixAt(data, index) < |data|
    requires data[OscMessageParse.TagPrefixAt(data, index)] == TAG_PREFIX_BYTE
    ensures ListReadOf(data, index)
         == ListFinished(data, StringOscData.Scanned(data, index), OscMessageParse.TagsAt(data, index),
                         OscMessageParse.ArgsStart(data, index))
  {
  }

  /**
   * A message with no arguments read from "/b": the older class, reading
   * into a message that has none, skips Clear, so a hash cached for "/a"
   * stays while the address becomes "/b", whose hash differs.
   */
  lemma ReadKeepsStaleHash()
    ensures ListReadOf([47, 98, 0, 0, 44, 0, 0, 0], 0) == ListParsed("/b", [], [], 8)
    ensures LossyOscStringHash.PackedText("/a") != LossyOscStringHash.PackedText("/b")
  {
    var d: seq<byte> := [47, 98, 0, 0, 44, 0, 0, 0];
    assert ListReadOf(d, 0) == ListParsed("/b", [], [], 8) by {
      assert StringOscData.RunLength(d, 2) == 0;
      assert StringOscData.RunLength(d, 0) == 2;
      assert d[0..2] == [47, 98];
      assert StringOscData.Scanned(d, 0) == "/b";
      assert OscMessageParse.TagPrefixAt(d, 0) == 4;
      assert StringOscData.RunLength(d, 5) == 0;
      assert OscMessageParse.TagsAt(d, 0) == [];
      ListReadTagged(d, 0);
      assert OscMessageParse.Records(d, [], 8) == Some([]);
    }
    HashesDiffer();
  }

  /**
   * A read that throws after the address "/abcd": the older class, reading
   * into a message that has no arguments, skips Clear, so a size cached
   * for "/" stays clean while the address becomes "/abcd", whose size differs.
   */
  lemma ReadKeepsStaleSize()
    ensures ListReadOf([47, 97, 98, 99, 100, 0, 0, 0], 0) == PrefixThrown("/abcd")
    ensures MessageSize("/", 0, 0) != MessageSize("/abcd", 0, 0)
  {
    var d: seq<byte> := [47, 97, 98, 99, 100, 0, 0, 0];
    assert StringOscData.RunLength(d, 5) == 0;
    assert StringOscData.RunLength(d, 0) == 5;
    assert d[0..5] == [47, 97, 98, 99, 100];
    assert StringOscData.Scanned(d, 0) == "/abcd";
    assert OscMessageParse.TagPrefixAt(d, 0) == 8;
    assert StringOscData.EvaluateByteCount("/") == 4;
    assert StringOscData.EvaluateByteCount("/abcd") == 8;
  }

  /** "/a" and "/b" have different hashes: their byte sums differ. */
  lemma HashesDiffer()
    ensures LossyOscStringHash.PackedText("/a") != LossyOscStringHash.PackedText("/b")
  {
    LossyOscStringHash.UnpackPack("/a");
    LossyOscStringHash.UnpackPack("/b");
    assert Utf16("/a") == [47, 97];
    assert Utf16("/b") == [47, 98];
    assert LossyOscStringHash.ByteSum([97]) == 97;
    assert LossyOscStringHash.ByteSum([98]) == 98;
  }

  /**
   * "/" with the tags "i?": TryReadFrom sizes the int (4 bytes), refuses
   * '?', and returns with the int's record sized but no payload, so the
   * records claim bytes the payload list does not hold.
   */
  lemma RefusedTagLeavesSizedRecords()
    ensures ListReadOf([47, 0, 0, 0, 44, 105, 63, 0], 0)
         == TagRefused("/", [ListArgInfo(TAG_INT_BYTE, 4), ListArgInfo(TAG_UNSUPPORTED_BYTE, 0)], 8)
    ensures !Laid([ListArgInfo(TAG_INT_BYTE, 4), ListArgInfo(TAG_UNSUPPORTED_BYTE, 0)], [])
  {
    var d: seq<byte> := [47, 0, 0, 0, 44, 105, 63, 0];
    HeadOfIntThenUnknown(d);
    ListReadTagged(d, 0);
    var tags := OscMessageParse.TagsAt(d, 0);
    RecordsOfIntThenUnknown(d, tags);
    AcceptedCountIs(d, tags, 8, 1);
    PartlySizedIntThenUnknown(d, tags);
    var infos := [ListArgInfo(TAG_INT_BYTE, 4), ListArgInfo(TAG_UNSUPPORTED_BYTE, 0)];
    assert SizeSum(infos, 1) == 4;
  }

  /** The head of "/" with the tags "i?": the address, the two tags, and the arguments from byte 8. */
  lemma HeadOfIntThenUnknown(d: seq<byte>)
    requires d == [47, 0, 0, 0, 44, 105, 63, 0]
    ensures StringOscData.Scanned(d, 0) == "/" && OscMessageParse.TagPrefixAt(d, 0) == 4
    ensures OscMessageParse.TagsAt(d, 0) == [TAG_INT_BYTE, TAG_UNSUPPORTED_BYTE] && OscMessageParse.ArgsStart(d, 0) == 8
  {
    assert StringOscData.RunLength(d, 1) == 0;
    assert StringOscData.RunLength(d, 0) == 1;
    assert d[0..1] == [47];
    assert StringOscData.RunLength(d, 7) == 0;
    assert StringOscData.RunLength(d, 6) == 1;
    assert StringOscData.RunLength(d, 5) == 2;
    assert d[5..7] == [105, 63];
  }

  /** The tags "i?": the int gets 4 bytes at the start of the payload, then '?' is refused. */
  lemma RecordsOfIntThenUnknown(d: seq<byte>, tags: seq<byte>)
    requires tags == [TAG_INT_BYTE, TAG_UNSUPPORTED_BYTE]
    ensures OscMessageParse.Records(d, tags[..1], 8) == Some([OscArgInfo(TAG_INT_BYTE, Int, 4, 0)])
    ensures OscMessageParse.Records(d, tags[..2], 8).None? && OscMessageParse.Records(d, tags, 8).None?
  {
    assert tags[..0] == [];
    assert OscConverter.ToArgType(TAG_INT_BYTE) == Int;
    assert OscMessageParse.ArgSize(d, 8, TAG_INT_BYTE) == Some(4);
    OscMessageReader.RecordsStep(d, tags, 8, 0, TAG_INT_BYTE, []);
    OscMessageReader.AppendedIs(d, 8, [], TAG_INT_BYTE, 0, Some(4));
    var front := [OscArgInfo(TAG_INT_BYTE, Int, 4, 0)];
    assert OscMessageParse.Appended(d, 8, [], TAG_INT_BYTE) == Some([] + [OscArgInfo(TAG_INT_BYTE, OscConverter.ToArgType(TAG_INT_BYTE), 4, 0)]);
    assert [] + [OscArgInfo(TAG_INT_BYTE, OscConverter.ToArgType(TAG_INT_BYTE), 4, 0)] == front;
    assert OscMessageParse.Appended(d, 8, [], TAG_INT_BYTE) == Some(front);
    assert OscMessageParse.Records(d, tags[..1], 8) == Some(front);
    assert OscConverter.ToArgType(TAG_UNSUPPORTED_BYTE) == Unsupported;
    OscMessageReader.RecordsStep(d, tags, 8, 1, TAG_UNSUPPORTED_BYTE, front);
    assert tags[..2] == tags;
  }

  /** The records left for "i?": the int sized, '?' unsized. */
  lemma PartlySizedIntThenUnknown(d: seq<byte>, tags: seq<byte>)
    requires tags == [TAG_INT_BYTE, TAG_UNSUPPORTED_BYTE] && AcceptedCount(d, tags, 8) == 1
    requires OscMessageParse.Records(d, tags[..1], 8) == Some([OscArgInfo(TAG_INT_BYTE, Int, 4, 0)])
    ensures PartlySized(d, tags, 8) == [ListArgInfo(TAG_INT_BYTE, 4), ListArgInfo(TAG_UNSUPPORTED_BYTE, 0)]
  {
    assert Unsized(tags)[1..] == [ListArgInfo(TAG_UNSUPPORTED_BYTE, 0)];
  }

  /* ---- ValidateTryGet ---- */

  /**
   * ValidateTryGet of the older class checks what that of the current class
   * checks on the layout of its records: its own copy has the same slip
   * (index + size against the payload), so a Null then an Int refuses the
   * int although its four bytes are there.
   */
  lemma ListValidateTryGetRefusesLaterArg()
    ensures var infos := [NULL_LIST_INFO, ListArgInfo(TAG_INT_BYTE, 4)];
      && Laid(infos, [0, 0, 0, 7]) && Layout(infos) == [NULL_INFO, INT_INFO]
      && !ValidateTryGetAsWritten(Layout(infos), 2, 4, 1, Int)
      && ValidateTryGetCorrected(Layout(infos), 2, 4, 1, Int)
  {
    var infos := [NULL_LIST_INFO, ListArgInfo(TAG_INT_BYTE, 4)];
    assert SizeSum(infos, 1) == 0;
    assert Layout(infos) == [NULL_INFO, INT_INFO];
    ValidateTryGetRefusesLaterArg();
  }

  /* ---- Size and TryWriteTo ---- */

  /** The loop of GetDataIndex, and of Size: the sizes of the first `n` records added up. */
  method SumSizes(infos: seq<ListArgInfo>, n: nat) returns (sum: int)
    requires n <= |infos|
    ensures sum == SizeSum(infos, n)
  {
    sum := 0;
    var i := 0;
    while i < n
      invariant i <= n && sum == SizeSum(infos, i)
    {
      sum := sum + infos[i].size;
      i := i + 1;
    }
  }

  /** List.CopyTo: the payload list written into `data` from `at`, and nothing else. */
  method CopyTo(src: seq<byte>, data: array<byte>, at: nat)
    requires at + |src| <= data.Length
    modifies data
    ensures OscDataBlock.WrittenAt(old(data[..]), data[..], at, src)
  {
    var i := 0;
    while i < |src|
      invariant i <= |src|
      invariant forall k :: 0 <= k < data.Length ==>
        data[k] == if at <= k < at + i then src[k - at] else old(data[k])
    {
      data[at + i] := src[i];
      i := i + 1;
    }
  }

  /**
   * The older class writes what the current class writes for the same
   * arguments: the address, the tag section of its records and the
   * payload list are the message's wire bytes.
   */
  lemma ListWire(address: string, infos: seq<ListArgInfo>, data: seq<byte>)
    requires Laid(infos, data)
    ensures StringOscData.Encode(address) + OscMessageWire.TagSection(Layout(infos), |infos|) + data
         == MessageWire(address, ListArgs(infos, data))
    ensures |MessageWire(address, ListArgs(infos, data))| == MessageSize(address, |infos|, |data|)
  {
    LayoutPacked(infos);
    OscMessageWire.WireInParts(address, Layout(infos), |infos|, |data|, data);
    ListPayload(infos, data);
    assert data[..|data|] == data;
  }
}
