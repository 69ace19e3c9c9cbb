/**
 * OscMessageLayout: how a message keeps its arguments.  All argument bytes
 * live back to back in one payload buffer; a record per argument (tag,
 * type, byte count, byte index) says where each one starts.  This module
 * states that layout on values, reads the arguments out of it, gives the
 * wire format and size of a whole message, and proves what the edits of
 * Set and RemoveAt do to it.
 */
module OscMessageLayout {
  import opened Bytes
  import opened OscTypes
  import opened OscArgInfo
  import OscConverter
  import StringOscData
  import BlobOscData
  import OscDataBlock

  /** The sum of the byte counts of records 0..i-1: where record i belongs. */
  function Offset(infos: seq<OscArgInfo>, i: nat): int
    requires i <= |infos|
  {
    if i == 0 then 0 else Offset(infos, i - 1) + infos[i - 1].byteCount
  }

  /**
   * The first `count` records describe non-negative runs packed in order:
   * the first starts at 0 and each starts where the one before ends.
   */
  predicate Packed(infos: seq<OscArgInfo>, count: nat)
  {
    && count <= |infos|
    && (forall i :: 0 <= i < count ==> infos[i].byteCount >= 0)
    && (0 < count ==> infos[0].byteIndex == 0)
    && (forall i :: 0 < i < count ==> infos[i].byteIndex == infos[i - 1].byteIndex + infos[i - 1].byteCount)
  }

  /** Where the packed runs end: the payload length they account for. */
  function End(infos: seq<OscArgInfo>, count: nat): int
    requires count <= |infos|
  {
    if count == 0 then 0 else infos[count - 1].byteIndex + infos[count - 1].byteCount
  }

  /** In a packed layout every record starts at the sum of the sizes before it, and the end is the total. */
  lemma {:induction false} PackedOffsets(infos: seq<OscArgInfo>, count: nat)
    requires Packed(infos, count)
    ensures forall i :: 0 <= i < count ==> infos[i].byteIndex == Offset(infos, i)
    ensures 0 <= End(infos, count) == Offset(infos, count)
  {
    if count > 0 {
      assert Packed(infos, count - 1);
      PackedOffsets(infos, count - 1);
    }
  }

  /** Offsets only depend on the byte counts before them. */
  lemma {:induction false} OffsetSameCounts(a: seq<OscArgInfo>, b: seq<OscArgInfo>, n: nat)
    requires n <= |a| && n <= |b|
    requires forall i :: 0 <= i < n ==> a[i].byteCount == b[i].byteCount
    ensures Offset(a, n) == Offset(b, n)
  {
    if n > 0 {
      OffsetSameCounts(a, b, n - 1);
    }
  }

  /** No packed record starts below 0. */
  lemma {:induction false} StartsNonNegative(infos: seq<OscArgInfo>, count: nat, i: nat)
    requires Packed(infos, count) && i < count
    ensures 0 <= infos[i].byteIndex
  {
    if i > 0 {
      StartsNonNegative(infos, count, i - 1);
    }
  }

  /** Record i ends no later than record j starts, for i < j, and no record starts below 0. */
  lemma {:induction false} Ordered(infos: seq<OscArgInfo>, count: nat, i: nat, j: nat)
    requires Packed(infos, count) && i < j <= count
    ensures 0 <= infos[i].byteIndex
    ensures infos[i].byteIndex + infos[i].byteCount <= if j == count then End(infos, count) else infos[j].byteIndex
    decreases j - i
  {
    StartsNonNegative(infos, count, i);
    if i + 1 < j {
      Ordered(infos, count, i + 1, j);
    }
  }

  /** A packed payload has a non-negative size. */
  lemma EndNonNegative(infos: seq<OscArgInfo>, count: nat)
    requires Packed(infos, count)
    ensures 0 <= End(infos, count)
  {
    if count > 0 {
      StartsNonNegative(infos, count, count - 1);
    }
  }

  /** A packed record lies inside the payload. */
  lemma ArgBounds(infos: seq<OscArgInfo>, count: nat, i: nat)
    requires Packed(infos, count) && i < count
    ensures 0 <= infos[i].byteIndex && infos[i].byteIndex + infos[i].byteCount <= End(infos, count)
  {
    Ordered(infos, count, i, count);
  }

  /** An argument as TryGet sees it: its tag, its type and its bytes. */
  datatype Arg = Arg(tagByte: byte, argType: OscArgType, bytes: seq<byte>)

  /** What Set(index, OscNull) and the gap filler of Set hold. */
  const NULL_ARG: Arg := Arg(TAG_NULL_BYTE, Null, [])

  /** Argument i read out of the payload. */
  function ArgAt(infos: seq<OscArgInfo>, count: nat, data: seq<byte>, i: nat): (arg: Arg)
    requires Packed(infos, count) && End(infos, count) <= |data| && i < count
    ensures arg.tagByte == infos[i].tagByte && arg.argType == infos[i].argType
    ensures |arg.bytes| == infos[i].byteCount
  {
    ArgBounds(infos, count, i);
    var info := infos[i];
    Arg(info.tagByte, info.argType, data[info.byteIndex..info.byteIndex + info.byteCount])
  }

  /** The arguments of a message, in order. */
  function ArgsOf(infos: seq<OscArgInfo>, count: nat, data: seq<byte>): (args: seq<Arg>)
    requires Packed(infos, count) && End(infos, count) <= |data|
    ensures |args| == count
  {
    seq(count, i requires 0 <= i < count => ArgAt(infos, count, data, i))
  }

  /** The payload bytes of some arguments, back to back. */
  function Payload(args: seq<Arg>): seq<byte>
  {
    if args == [] then [] else Payload(args[..|args| - 1]) + args[|args| - 1].bytes
  }

  /** The tag bytes of some arguments, in order. */
  function Tags(args: seq<Arg>): (tags: seq<byte>)
    ensures |tags| == |args|
    ensures forall i :: 0 <= i < |args| ==> tags[i] == args[i].tagByte
  {
    seq(|args|, i requires 0 <= i < |args| => args[i].tagByte)
  }

  /** The packed bytes are exactly the arguments' bytes, in order: the payload holds nothing else. */
  lemma {:induction false} PayloadOfPacked(infos: seq<OscArgInfo>, count: nat, data: seq<byte>)
    requires Packed(infos, count) && End(infos, count) <= |data|
    ensures 0 <= End(infos, count) && Payload(ArgsOf(infos, count, data)) == data[..End(infos, count)]
  {
    if count > 0 {
      var n := count - 1;
      ArgBounds(infos, count, n);
      assert Packed(infos, n);
      assert End(infos, n) == infos[n].byteIndex;
      PayloadOfPacked(infos, n, data);
      var args := ArgsOf(infos, count, data);
      var front := ArgsOf(infos, n, data);
      assert args[..|args| - 1] == front;
      var lo := End(infos, n);
      var hi := End(infos, count);
      assert args[n].bytes == data[lo..hi];
      assert data[..hi] == data[..lo] + data[lo..hi];
    }
  }

  /** The size of the tag section: ',' and the tags, then one to four NULs. */
  function TagSectionSize(count: nat): (n: nat)
    ensures n % 4 == 0 && count + 1 < n <= count + 5
  {
    (1 + count) + StringOscData.Padding(1 + count)
  }

  /** Size(): the address OSC-string, the tag section and the payload. */
  function MessageSize(address: string, count: nat, payloadSize: nat): (n: nat)
    ensures n % 4 == payloadSize % 4
  {
    StringOscData.EvaluateByteCount(address) + TagSectionSize(count) + payloadSize
  }

  /** The bytes of a message on the wire, written from a 4-aligned index. */
  function MessageWire(address: string, args: seq<Arg>): (wire: seq<byte>)
    ensures |wire| == MessageSize(address, |args|, |Payload(args)|)
  {
    StringOscData.Encode(address) + [TAG_PREFIX_BYTE] + Tags(args)
      + Zeros(StringOscData.Padding(1 + |args|)) + Payload(args)
  }

  /** Set(index, v) on the arguments: replace, or fill the gap with Null arguments and append. */
  function Updated(args: seq<Arg>, index: nat, arg: Arg): (r: seq<Arg>)
    ensures |r| == if index < |args| then |args| else index + 1
    ensures r[index] == arg
    ensures forall j :: 0 <= j < |r| && j != index ==> r[j] == if j < |args| then args[j] else NULL_ARG
  {
    if index < |args| then args[index := arg] else args + seq(index - |args|, _ => NULL_ARG) + [arg]
  }

  /** Add(v) is Set(Count(), v): it appends. */
  lemma UpdatedAtEnd(args: seq<Arg>, arg: Arg)
    ensures Updated(args, |args|, arg) == args + [arg]
  {
  }

  /** Writing the argument Set has just placed replaces it: Set is one Updated. */
  lemma UpdatedTwice(args: seq<Arg>, index: nat, first: Arg, second: Arg)
    ensures Updated(args, index, first)[index := second] == Updated(args, index, second)
  {
  }

  /** RemoveAt on the arguments. */
  function Removed(args: seq<Arg>, index: nat): (r: seq<Arg>)
    requires index < |args|
    ensures |r| == |args| - 1
  {
    args[..index] + args[index + 1..]
  }

  /** The arguments TryGet can always read back: the bytes match the tag. */
  predicate WellFormedArg(arg: Arg)
  {
    && OscConverter.ToArgType(arg.tagByte) == arg.argType
    && arg.argType != Unsupported
    && (arg.argType != String && arg.argType != Blob ==> |arg.bytes| == FixedByteCount(arg.argType))
    && (arg.argType == String ==> |arg.bytes| % 4 == 0 && StringOscData.RunLength(arg.bytes, 0) < |arg.bytes|)
    && (arg.argType == Blob ==>
          && 4 <= |arg.bytes| && 0 <= BlobOscData.PrefixAt(arg.bytes, 0)
          && 4 + BlobOscData.RoundUp4(BlobOscData.PrefixAt(arg.bytes, 0)) == |arg.bytes|)
  }

  /** Every argument is well formed (stated recursively, one argument at a time). */
  predicate WellFormedArgs(args: seq<Arg>)
    decreases |args|
  {
    args == [] || (WellFormedArg(args[0]) && WellFormedArgs(args[1..]))
  }

  /** A well-formed list has well-formed members. */
  lemma {:induction false} WellFormedArgAt(args: seq<Arg>, i: nat)
    requires WellFormedArgs(args) && i < |args|
    ensures WellFormedArg(args[i])
    decreases i
  {
    if i > 0 {
      WellFormedArgAt(args[1..], i - 1);
    }
  }

  /** A list whose members are well formed is well formed. */
  lemma {:induction false} WellFormedArgsFromEach(args: seq<Arg>)
    requires forall i :: 0 <= i < |args| ==> WellFormedArg(args[i])
    ensures WellFormedArgs(args)
    decreases |args|
  {
    if args != [] {
      assert forall i :: 0 <= i < |args[1..]| ==> args[1..][i] == args[i + 1];
      WellFormedArgsFromEach(args[1..]);
    }
  }

  /** Filling the gap with Null arguments keeps every argument well formed. */
  lemma UpdatedWellFormed(args: seq<Arg>, index: nat, arg: Arg)
    requires WellFormedArgs(args) && WellFormedArg(arg)
    ensures WellFormedArgs(Updated(args, index, arg))
  {
    var r := Updated(args, index, arg);
    forall j | 0 <= j < |r|
      ensures WellFormedArg(r[j])
    {
      if j != index && j >= |args| {
        assert r[j] == NULL_ARG;
      } else if j != index {
        WellFormedArgAt(args, j);
      }
    }
    WellFormedArgsFromEach(r);
  }

  /** Removing an argument keeps the others well formed. */
  lemma RemovedWellFormed(args: seq<Arg>, index: nat)
    requires WellFormedArgs(args) && index < |args|
    ensures WellFormedArgs(Removed(args, index))
  {
    var r := Removed(args, index);
    forall j | 0 <= j < |r|
      ensures WellFormedArg(r[j])
    {
      assert r[j] == if j < index then args[j] else args[j + 1];
      WellFormedArgAt(args, if j < index then j else j + 1);
    }
    WellFormedArgsFromEach(r);
  }

  /** Equal runs have equal sub-runs. */
  lemma SubRun(x: seq<byte>, xs: nat, y: seq<byte>, ys: nat, n: nat, lo: nat, hi: nat)
    requires xs + n <= |x| && ys + n <= |y| && x[xs..xs + n] == y[ys..ys + n] && lo <= hi <= n
    ensures x[xs + lo..xs + hi] == y[ys + lo..ys + hi]
  {
    forall k | xs + lo <= k < xs + hi
      ensures x[k] == y[k - xs + ys]
    {
      assert x[xs..xs + n][k - xs] == y[ys..ys + n][k - xs];
    }
    assert x[xs + lo..xs + hi] == y[ys + lo..ys + hi];
  }

  /* ---- Writing inside one argument ---- */

  /** Bytes written over argument `index`'s run change that argument and no other. */
  lemma ArgsAfterWrite(infos: seq<OscArgInfo>, count: nat, data: seq<byte>, after: seq<byte>,
                       index: nat, chunk: seq<byte>)
    requires Packed(infos, count) && End(infos, count) <= |data| && index < count
    requires |chunk| == infos[index].byteCount && infos[index].byteIndex >= 0
    requires OscDataBlock.WrittenAt(data, after, infos[index].byteIndex, chunk)
    ensures End(infos, count) <= |after|
    ensures ArgsOf(infos, count, after)
         == ArgsOf(infos, count, data)[index := Arg(infos[index].tagByte, infos[index].argType, chunk)]
  {
    var a := ArgsOf(infos, count, data);
    var b := ArgsOf(infos, count, after);
    var at := infos[index].byteIndex;
    var arg := Arg(infos[index].tagByte, infos[index].argType, chunk);
    forall j | 0 <= j < count
      ensures b[j] == a[index := arg][j]
    {
      ArgBounds(infos, count, j);
      if j < index {
        Ordered(infos, count, j, index);
      } else if j > index {
        Ordered(infos, count, index, j);
      }
      var lo := infos[j].byteIndex;
      OscDataBlock.WrittenAtRange(data, after, at, chunk, lo, lo + infos[j].byteCount);
    }
  }

  /* ---- ValidateTryGet ---- */

  /**
   * ValidateTryGet as written: the index in range, the stored type the one
   * asked for, and `index + byteCount` within the payload.  The last test
   * adds the argument's index, not its byte offset.
   */
  function ValidateTryGetAsWritten(infos: seq<OscArgInfo>, count: nat, payloadSize: int,
                                   index: int, requested: OscArgType): bool
    requires count <= |infos|
  {
    0 <= index < count && infos[index].argType == requested && index + infos[index].byteCount <= payloadSize
  }

  /** ValidateTryGet as evidently intended: the argument's bytes lie within the payload. */
  function ValidateTryGetCorrected(infos: seq<OscArgInfo>, count: nat, payloadSize: int,
                                   index: int, requested: OscArgType): bool
    requires count <= |infos|
  {
    0 <= index < count && infos[index].argType == requested
      && infos[index].byteIndex + infos[index].byteCount <= payloadSize
  }

  /** On a packed layout the corrected check is exactly: in range and of the requested type. */
  lemma ValidateTryGetOnPacked(infos: seq<OscArgInfo>, count: nat, index: int, requested: OscArgType)
    requires Packed(infos, count)
    ensures ValidateTryGetCorrected(infos, count, End(infos, count), index, requested)
        <==> 0 <= index < count && infos[index].argType == requested
  {
    if 0 <= index < count {
      ArgBounds(infos, count, index);
    }
  }

  /** A Null then an Int: the int is in the payload, but the guard as written refuses it. */
  lemma ValidateTryGetRefusesLaterArg()
    ensures var infos := [NULL_INFO, INT_INFO];
      && Packed(infos, 2) && End(infos, 2) == 4
      && !ValidateTryGetAsWritten(infos, 2, 4, 1, Int)
      && ValidateTryGetCorrected(infos, 2, 4, 1, Int)
  {
  }

  /* ---- The layout after the edits of Set and RemoveAt ---- */

  /**
   * Appending at `index` >= count keeps the layout packed: the records
   * before count are kept, the gap holds zero-size Null records at the end
   * of the payload, and the new record starts there too.
   */
  lemma ExpandedPacked(infos: seq<OscArgInfo>, count: nat, infos2: seq<OscArgInfo>, index: nat)
    requires Packed(infos, count) && count <= index < |infos2|
    requires forall j :: 0 <= j < count ==> infos2[j] == infos[j]
    requires forall j :: count <= j < index ==> infos2[j] == NULL_INFO.(byteIndex := End(infos, count))
    requires infos2[index].byteCount >= 0 && infos2[index].byteIndex == End(infos, count)
    ensures Packed(infos2, index + 1)
    ensures End(infos2, index + 1) == End(infos, count) + infos2[index].byteCount
  {
  }

  /** After appending, the arguments are those of Updated. */
  lemma ExpandedLayout(infos: seq<OscArgInfo>, count: nat, data: seq<byte>,
                       infos2: seq<OscArgInfo>, data2: seq<byte>, index: nat)
    requires Packed(infos, count) && End(infos, count) <= |data| && count <= index < |infos2|
    requires forall j :: 0 <= j < count ==> infos2[j] == infos[j]
    requires forall j :: count <= j < index ==> infos2[j] == NULL_INFO.(byteIndex := End(infos, count))
    requires infos2[index].byteCount >= 0 && infos2[index].byteIndex == End(infos, count)
    requires 0 <= End(infos, count) && End(infos, count) + infos2[index].byteCount <= |data2|
    requires data2[..End(infos, count)] == data[..End(infos, count)]
    ensures Packed(infos2, index + 1)
    ensures End(infos2, index + 1) == End(infos, count) + infos2[index].byteCount
    ensures ArgsOf(infos2, index + 1, data2)
         == Updated(ArgsOf(infos, count, data), index, ArgAt(infos2, index + 1, data2, index))
  {
    ExpandedPacked(infos, count, infos2, index);
    var size := End(infos, count);
    var a := ArgsOf(infos, count, data);
    var b := ArgsOf(infos2, index + 1, data2);
    var u := Updated(a, index, b[index]);
    forall j | 0 <= j < index + 1
      ensures b[j] == u[j]
    {
      if j < count {
        ArgBounds(infos, count, j);
        var lo := infos[j].byteIndex;
        SubRun(data2, 0, data, 0, size, lo, lo + infos[j].byteCount);
      } else if j < index {
        assert b[j].bytes == [];
      }
    }
  }

  /**
   * Overwriting record `index` with one of another byte count keeps the
   * layout packed when every later record moves by the difference.
   */
  lemma ResizedPacked(infos: seq<OscArgInfo>, count: nat, infos2: seq<OscArgInfo>, index: nat)
    requires Packed(infos, count) && index < count && count <= |infos2|
    requires infos2[index].byteCount >= 0 && infos2[index].byteIndex == infos[index].byteIndex
    requires forall j :: 0 <= j < index ==> infos2[j] == infos[j]
    requires var delta := infos2[index].byteCount - infos[index].byteCount;
      forall j :: index < j < count ==> infos2[j] == infos[j].(byteIndex := infos[j].byteIndex + delta)
    ensures Packed(infos2, count)
    ensures End(infos2, count) == End(infos, count) + infos2[index].byteCount - infos[index].byteCount
  {
  }

  /**
   * After a resize, the payload before record `index` is kept and the bytes
   * after it are moved by the difference, so the other arguments keep their
   * bytes: the arguments are those of Updated.
   */
  lemma ResizedLayout(infos: seq<OscArgInfo>, count: nat, data: seq<byte>,
                      infos2: seq<OscArgInfo>, data2: seq<byte>, index: nat)
    requires Packed(infos, count) && End(infos, count) <= |data| && index < count && count <= |infos2|
    requires infos2[index].byteCount >= 0 && infos2[index].byteIndex == infos[index].byteIndex
    requires forall j :: 0 <= j < index ==> infos2[j] == infos[j]
    requires var delta := infos2[index].byteCount - infos[index].byteCount;
      forall j :: index < j < count ==> infos2[j] == infos[j].(byteIndex := infos[j].byteIndex + delta)
    requires var at := infos[index].byteIndex;
      var from := at + infos[index].byteCount;
      var to := at + infos2[index].byteCount;
      var tail := End(infos, count) - from;
      && 0 <= at && 0 <= tail && to + tail <= |data2|
      && data2[..at] == data[..at]
      && data2[to..to + tail] == data[from..from + tail]
    ensures Packed(infos2, count)
    ensures End(infos2, count) == End(infos, count) + infos2[index].byteCount - infos[index].byteCount
    ensures ArgsOf(infos2, count, data2)
         == Updated(ArgsOf(infos, count, data), index, ArgAt(infos2, count, data2, index))
  {
    ResizedPacked(infos, count, infos2, index);
    var a := ArgsOf(infos, count, data);
    var b := ArgsOf(infos2, count, data2);
    var u := Updated(a, index, b[index]);
    forall j | 0 <= j < count && j != index
      ensures b[j] == u[j]
    {
      ResizedArg(infos, count, data, infos2, data2, index, j);
    }
  }

  /** One argument other than `index` after a resize. */
  lemma ResizedArg(infos: seq<OscArgInfo>, count: nat, data: seq<byte>,
                   infos2: seq<OscArgInfo>, data2: seq<byte>, index: nat, j: nat)
    requires Packed(infos, count) && End(infos, count) <= |data| && index < count && j < count && j != index
    requires Packed(infos2, count) && End(infos2, count) <= |data2|
    requires j < index ==> infos2[j] == infos[j]
    requires index < j ==> infos2[j] == infos[j].(byteIndex := infos[j].byteIndex + infos2[index].byteCount - infos[index].byteCount)
    requires var at := infos[index].byteIndex;
      var from := at + infos[index].byteCount;
      var to := at + infos2[index].byteCount;
      var tail := End(infos, count) - from;
      && 0 <= at && 0 <= tail && to + tail <= |data2|
      && data2[..at] == data[..at]
      && data2[to..to + tail] == data[from..from + tail]
    ensures ArgAt(infos2, count, data2, j) == ArgAt(infos, count, data, j)
  {
    var at := infos[index].byteIndex;
    var lo := infos[j].byteIndex;
    var n := infos[j].byteCount;
    if j < index {
      Ordered(infos, count, j, index);
      SubRun(data2, 0, data, 0, at, lo, lo + n);
    } else {
      Ordered(infos, count, index, j);
      ArgBounds(infos, count, j);
      var from := at + infos[index].byteCount;
      var to := at + infos2[index].byteCount;
      SubRun(data2, to, data, from, End(infos, count) - from, lo - from, lo - from + n);
    }
  }

  /** RemoveAt keeps the layout packed: later records move down one place and `byteCount` bytes earlier. */
  lemma RemovedPacked(infos: seq<OscArgInfo>, count: nat, infos2: seq<OscArgInfo>, index: nat)
    requires Packed(infos, count) && index < count && count - 1 <= |infos2|
    requires forall j :: 0 <= j < index ==> infos2[j] == infos[j]
    requires forall j :: index <= j < count - 1 ==>
      infos2[j] == infos[j + 1].(byteIndex := infos[j + 1].byteIndex - infos[index].byteCount)
    ensures Packed(infos2, count - 1)
    ensures End(infos2, count - 1) == End(infos, count) - infos[index].byteCount
  {
  }

  /** After RemoveAt, with the bytes after the removed run moved down onto it, the arguments are those of Removed. */
  lemma RemovedLayout(infos: seq<OscArgInfo>, count: nat, data: seq<byte>,
                      infos2: seq<OscArgInfo>, data2: seq<byte>, index: nat)
    requires Packed(infos, count) && End(infos, count) <= |data| && index < count && count - 1 <= |infos2|
    requires forall j :: 0 <= j < index ==> infos2[j] == infos[j]
    requires forall j :: index <= j < count - 1 ==>
      infos2[j] == infos[j + 1].(byteIndex := infos[j + 1].byteIndex - infos[index].byteCount)
    requires var at := infos[index].byteIndex;
      var from := at + infos[index].byteCount;
      var tail := End(infos, count) - from;
      && 0 <= at && 0 <= tail && at + tail <= |data2|
      && data2[..at] == data[..at]
      && data2[at..at + tail] == data[from..from + tail]
    ensures Packed(infos2, count - 1)
    ensures End(infos2, count - 1) == End(infos, count) - infos[index].byteCount
    ensures ArgsOf(infos2, count - 1, data2) == Removed(ArgsOf(infos, count, data), index)
  {
    RemovedPacked(infos, count, infos2, index);
    var a := ArgsOf(infos, count, data);
    var b := ArgsOf(infos2, count - 1, data2);
    var r := Removed(a, index);
    forall j | 0 <= j < count - 1
      ensures b[j] == r[j]
    {
      RemovedArg(infos, count, data, infos2, data2, index, j);
    }
  }

  /** RemovedLayout in the form RemoveAt leaves the payload: the bytes after the removed run closed up onto it. */
  lemma RemovedRunLayout(infos: seq<OscArgInfo>, count: nat, data: seq<byte>,
                         infos2: seq<OscArgInfo>, data2: seq<byte>, index: nat, byteCount: int)
    requires Packed(infos, count) && End(infos, count) <= |data| && index < count && count - 1 <= |infos2|
    requires forall j :: 0 <= j < index ==> infos2[j] == infos[j]
    requires forall j :: index <= j < count - 1 ==>
      infos2[j] == infos[j + 1].(byteIndex := infos[j + 1].byteIndex - infos[index].byteCount)
    requires |data2| == |data| && 0 <= infos[index].byteIndex <= End(infos, count) - infos[index].byteCount
    requires data2[..infos[index].byteIndex] == data[..infos[index].byteIndex]
    requires data2[infos[index].byteIndex..End(infos, count) - infos[index].byteCount]
          == data[infos[index].byteIndex + infos[index].byteCount..End(infos, count)]
    requires byteCount == End(infos, count) - infos[index].byteCount
    ensures Packed(infos2, count - 1) && byteCount == End(infos2, count - 1) && byteCount <= |data2|
    ensures ArgsOf(infos2, count - 1, data2) == Removed(ArgsOf(infos, count, data), index)
  {
    RemovedLayout(infos, count, data, infos2, data2, index);
  }

  /** One argument after RemoveAt: argument j is the old j, or the old j + 1 from `index` on. */
  lemma RemovedArg(infos: seq<OscArgInfo>, count: nat, data: seq<byte>,
                   infos2: seq<OscArgInfo>, data2: seq<byte>, index: nat, j: nat)
    requires Packed(infos, count) && End(infos, count) <= |data| && index < count && j < count - 1
    requires Packed(infos2, count - 1) && End(infos2, count - 1) <= |data2|
    requires j < index ==> infos2[j] == infos[j]
    requires index <= j ==> infos2[j] == infos[j + 1].(byteIndex := infos[j + 1].byteIndex - infos[index].byteCount)
    requires var at := infos[index].byteIndex;
      var from := at + infos[index].byteCount;
      var tail := End(infos, count) - from;
      && 0 <= at && 0 <= tail && at + tail <= |data2|
      && data2[..at] == data[..at]
      && data2[at..at + tail] == data[from..from + tail]
    ensures ArgAt(infos2, count - 1, data2, j) == ArgAt(infos, count, data, if j < index then j else j + 1)
  {
    var at := infos[index].byteIndex;
    if j < index {
      Ordered(infos, count, j, index);
      var lo := infos[j].byteIndex;
      SubRun(data2, 0, data, 0, at, lo, lo + infos[j].byteCount);
    } else {
      Ordered(infos, count, index, j + 1);
      ArgBounds(infos, count, j + 1);
      var from := at + infos[index].byteCount;
      var lo := infos[j + 1].byteIndex;
      SubRun(data2, at, data, from, End(infos, count) - from, lo - from, lo - from + infos[j + 1].byteCount);
    }
  }

  /* ---- Writing the argument a Set has placed ---- */

  /** The records of fixed size: tag and type agree and the size is the type's. */
  predicate FixedInfo(info: OscArgInfo)
  {
    && InSync(info) && info.argType != Unsupported && info.argType != String && info.argType != Blob
    && info.byteCount == FixedByteCount(info.argType)
  }

  /** The OSC-string for any text is a well-formed String argument: it has a NUL within its padded size. */
  lemma StringArgWellFormed(text: string)
    ensures WellFormedArg(Arg(TAG_STRING_BYTE, String, StringOscData.Encode(text)))
  {
    var wire := StringOscData.Encode(text);
    assert wire[|text|] == 0;
  }

  /** The OSC-blob for any blob is a well-formed Blob argument: its size prefix accounts for its bytes. */
  lemma BlobArgWellFormed(blob: seq<byte>)
    requires |blob| < 0x8000_0000
    ensures WellFormedArg(Arg(TAG_BLOB_BYTE, Blob, BlobOscData.Encode(blob)))
  {
    var wire := BlobOscData.Encode(blob);
    assert wire[0..4] == BigEndian(|blob|, 4);
    BlobOscData.SizePrefix(|blob|);
  }

  /**
   * Set, second half: once AdaptiveSet has placed argument `index` (so the
   * arguments are Updated with whatever bytes its run held), writing its
   * bytes makes them Updated with those bytes, and a well-formed argument
   * keeps the list well formed.
   */
  lemma SetArgWritten(infos: seq<OscArgInfo>, count: nat, before: seq<byte>, after: seq<byte>,
                      index: nat, chunk: seq<byte>, args0: seq<Arg>)
    requires Packed(infos, count) && End(infos, count) <= |before| && index < count
    requires |chunk| == infos[index].byteCount && 0 <= infos[index].byteIndex
    requires OscDataBlock.WrittenAt(before, after, infos[index].byteIndex, chunk)
    requires ArgsOf(infos, count, before) == Updated(args0, index, ArgAt(infos, count, before, index))
    requires WellFormedArgs(args0) && WellFormedArg(Arg(infos[index].tagByte, infos[index].argType, chunk))
    ensures End(infos, count) <= |after|
    ensures ArgsOf(infos, count, after) == Updated(args0, index, Arg(infos[index].tagByte, infos[index].argType, chunk))
    ensures WellFormedArgs(ArgsOf(infos, count, after))
  {
    var arg := Arg(infos[index].tagByte, infos[index].argType, chunk);
    ArgBounds(infos, count, index);
    ArgsAfterWrite(infos, count, before, after, index, chunk);
    UpdatedTwice(args0, index, ArgAt(infos, count, before, index), arg);
    UpdatedWellFormed(args0, index, arg);
  }

  /** Set of a zero-size argument: placing it is all there is to do. */
  lemma SetEmptyArg(infos: seq<OscArgInfo>, count: nat, data: seq<byte>, index: nat, args0: seq<Arg>)
    requires Packed(infos, count) && End(infos, count) <= |data| && index < count
    requires FixedInfo(infos[index]) && infos[index].byteCount == 0
    requires ArgsOf(infos, count, data) == Updated(args0, index, ArgAt(infos, count, data, index))
    requires WellFormedArgs(args0)
    ensures ArgsOf(infos, count, data) == Updated(args0, index, Arg(infos[index].tagByte, infos[index].argType, []))
    ensures WellFormedArgs(ArgsOf(infos, count, data))
  {
    var arg := Arg(infos[index].tagByte, infos[index].argType, []);
    assert ArgAt(infos, count, data, index) == arg;
    UpdatedWellFormed(args0, index, arg);
  }
}
