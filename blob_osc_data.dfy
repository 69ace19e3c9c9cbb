/**
 * BlobOscData: the OSC-blob codec.  A blob is a big-endian int32 byte count,
 * the bytes, and zero padding to a multiple of four.  The same prefix also
 * carries the fixed-width payloads (vectors, quaternions, rects, matrices)
 * and lists of four-byte values that this library sends as blobs.
 *
 * The size checks are written out in the 32-bit int arithmetic the source
 * uses, because malformed prefixes exercise its wrap-around.
 */
module BlobOscData {
  import opened Bytes
  import opened Wrappers
  import OscDataBlock
  import FourByteOscData

  /** ((n + 3) / 4) * 4 for a non-negative n: n rounded up to a multiple of four. */
  function RoundUp4(n: nat): (r: nat)
    ensures r % 4 == 0 && n <= r < n + 4
  {
    CsDiv(n + 3, 4) * 4
  }

  /** EvaluateByteCount(byte[]): the size of the OSC-blob for `blob`, prefix included. */
  function EvaluateByteCount(blob: seq<byte>): (n: nat)
    ensures n % 4 == 0 && |blob| + 4 <= n < |blob| + 8
    ensures n == 4 + RoundUp4(|blob|)
  {
    RoundUp4(4 + |blob|)
  }

  /** The OSC-blob for `blob`: big-endian size, the bytes, zero padding. */
  function Encode(blob: seq<byte>): (wire: seq<byte>)
    requires |blob| < 0x8000_0000
    ensures |wire| == EvaluateByteCount(blob)
    ensures wire[..4] == BigEndian(|blob|, 4) && wire[4..4 + |blob|] == blob
  {
    BigEndian(|blob|, 4) + blob + Zeros(RoundUp4(|blob|) - |blob|)
  }

  /** The int32 size prefix stored at `index`. */
  function PrefixAt(data: seq<byte>, index: nat): int32
    requires index + 4 <= |data|
  {
    FourByteOscData.IntFromWire(data[index..index + 4])
  }

  /** ((prefix + 3) / 4) * 4 evaluated in C# ints: it wraps for a prefix near int.MaxValue. */
  function PaddedSizeAsWritten(prefix: int32): (m: int32)
    ensures prefix >= 0 && prefix + 3 < 0x8000_0000 ==> m == RoundUp4(prefix)
    ensures -6 <= prefix < 0 ==> m == 0
  {
    var x := Wrap32(prefix as int + 3);
    var q := CsDiv(x, 4);
    assert -0x2000_0000 <= q < 0x2000_0000;
    q * 4
  }

  /**
   * The size check shared by TryEvaluateByteCount and
   * TryReadAndEvaluateByteCountPrefix: a readable prefix, and the padded
   * payload not past the end, comparing `index + 4 + m` as a C# int.
   */
  predicate PrefixAccepted(data: seq<byte>, index: nat)
  {
    index + 4 <= |data| && Wrap32(index + 4 + PaddedSizeAsWritten(PrefixAt(data, index)) as int) <= |data|
  }

  /** The same check as evidently intended: a non-negative size whose padded payload fits. */
  predicate PrefixValid(data: seq<byte>, index: nat)
  {
    index + 4 <= |data| && PrefixAt(data, index) >= 0 && index + 4 + RoundUp4(PrefixAt(data, index)) <= |data|
  }

  /** Within .NET's array limits every valid prefix is accepted as written. */
  lemma ValidPrefixAccepted(data: seq<byte>, index: nat)
    requires |data| <= MAX_ARRAY_LENGTH && PrefixValid(data, index)
    ensures PrefixAccepted(data, index)
  {
  }

  /**
   * TryEvaluateByteCount: the bytes the blob at `index` occupies, prefix
   * included; 0 and false when the guard fails.
   */
  method TryEvaluateByteCount(data: array<byte>, index: nat, littleEndian: bool)
    returns (ok: bool, byteCount: int32)
    requires data.Length <= MAX_ARRAY_LENGTH
    ensures ok == PrefixAccepted(data[..], index)
    ensures ok ==> byteCount == Wrap32(4 + PaddedSizeAsWritten(PrefixAt(data[..], index)) as int)
    ensures !ok ==> byteCount == 0
  {
    var read, prefixData, next := FourByteOscData.TryReadFrom(data, index, littleEndian);
    if !read {
      return false, 0;
    }
    FourByteOscData.IntValueFromBytes(data[index..index + 4], littleEndian);
    var multipleOfFour := PaddedSizeAsWritten(FourByteOscData.IntValue(prefixData, littleEndian));
    if Wrap32(next + multipleOfFour as int) > data.Length {
      return false, 0;
    }
    return true, Wrap32(4 + multipleOfFour as int);
  }

  /** For a blob written whole, TryEvaluateByteCount gives EvaluateByteCount. */
  lemma EvaluateWrittenBlob(before: seq<byte>, after: seq<byte>, at: nat, blob: seq<byte>)
    requires |after| <= MAX_ARRAY_LENGTH && |blob| < 0x8000_0000
    requires OscDataBlock.WrittenAt(before, after, at, Encode(blob))
    ensures PrefixAt(after, at) == |blob| && PrefixValid(after, at) && PrefixAccepted(after, at)
    ensures Wrap32(4 + PaddedSizeAsWritten(PrefixAt(after, at)) as int) == EvaluateByteCount(blob)
    ensures after[at + 4..at + 4 + |blob|] == blob
  {
    PrefixOfWrittenBlob(before, after, at, blob);
  }

  lemma PrefixOfWrittenBlob(before: seq<byte>, after: seq<byte>, at: nat, blob: seq<byte>)
    requires |blob| < 0x8000_0000
    requires OscDataBlock.WrittenAt(before, after, at, Encode(blob))
    ensures PrefixAt(after, at) == |blob|
    ensures after[at + 4..at + 4 + |blob|] == blob
  {
    var wire := Encode(blob);
    PrefixOfWrite(before, after, at, wire, |blob|);
    OscDataBlock.WrittenAtSlice(before, after, at, wire, 4, 4 + |blob|);
  }

  /**
   * TryReadAndEvaluateByteCountPrefix: the size prefix at `index`, after
   * the same check; the index is not advanced.
   */
  method TryReadAndEvaluateByteCountPrefix(data: array<byte>, index: nat, littleEndian: bool)
    returns (ok: bool, prefix: int32)
    requires data.Length <= MAX_ARRAY_LENGTH
    ensures ok == PrefixAccepted(data[..], index)
    ensures ok ==> prefix == PrefixAt(data[..], index)
    ensures !ok ==> prefix == 0
  {
    var read, prefixData, next := FourByteOscData.TryReadFrom(data, index, littleEndian);
    if !read {
      return false, 0;
    }
    FourByteOscData.IntValueFromBytes(data[index..index + 4], littleEndian);
    var value := FourByteOscData.IntValue(prefixData, littleEndian);
    var multipleOfFour := PaddedSizeAsWritten(value);
    if Wrap32(next + multipleOfFour as int) > data.Length {
      return false, 0;
    }
    return true, value;
  }

  /**
   * TryReadFrom(ref byte[]) as written.  A prefix that fails the guard
   * gives null and false.  An accepted negative prefix makes the array
   * allocation throw; an accepted prefix larger than the data left (which
   * the guard lets through when `index + 4 + m` wraps) makes the copy throw.
   * Otherwise the bytes are copied and the index is rounded up to a
   * multiple of four.  When the runtime throws, `result` is not specified.
   */
  method TryReadFrom(data: array<byte>, index: nat, blob: Option<seq<byte>>, littleEndian: bool)
    returns (outcome: Outcome, result: Option<seq<byte>>, next: nat)
    requires data.Length <= MAX_ARRAY_LENGTH
    ensures outcome == Failed <==> !PrefixAccepted(data[..], index)
    ensures outcome == Failed ==> result == None && next == index
    ensures PrefixAccepted(data[..], index) ==>
      var p := PrefixAt(data[..], index);
      && (outcome == Threw <==> p < 0 || index + 4 + p > data.Length)
      && (outcome == Succeeded ==> result == Some(data[index + 4..index + 4 + p]) && next == RoundUp4(index + 4 + p))
  {
    var ok, prefix := TryReadAndEvaluateByteCountPrefix(data, index, littleEndian);
    if !ok {
      return Failed, None, index;
    }
    next := index + 4;
    if prefix < 0 {
      return Threw, blob, next;
    }
    if next + prefix > data.Length {
      return Threw, blob, next;
    }
    result := Some(data[next..next + prefix]);
    next := next + prefix;
    next := RoundUp4(next);
    outcome := Succeeded;
  }

  /** A prefix of -1 passes the guard and the read throws. */
  lemma NegativePrefixAccepted()
    ensures PrefixAt([255, 255, 255, 255], 0) == -1
    ensures PrefixAccepted([255, 255, 255, 255], 0)
    ensures !PrefixValid([255, 255, 255, 255], 0)
  {
    var d: seq<byte> := [255, 255, 255, 255];
    assert d[0..4] == d;
    assert BigEndianValue(d) == 0xFFFF_FFFF by {
      assert d[..3] == [255, 255, 255];
      assert [255, 255, 255][..2] == [255, 255];
      assert [255, 255][..1] == [255];
    }
  }

  /** A prefix near int.MaxValue wraps the guard and passes it with eight bytes of data. */
  lemma HugePrefixAccepted()
    ensures PrefixAt([0x7F, 0xFF, 0xFF, 0xFC, 0, 0, 0, 0], 0) == 0x7FFF_FFFC
    ensures PrefixAccepted([0x7F, 0xFF, 0xFF, 0xFC, 0, 0, 0, 0], 0)
    ensures !PrefixValid([0x7F, 0xFF, 0xFF, 0xFC, 0, 0, 0, 0], 0)
  {
    var d: seq<byte> := [0x7F, 0xFF, 0xFF, 0xFC, 0, 0, 0, 0];
    assert d[0..4] == [0x7F, 0xFF, 0xFF, 0xFC];
    assert BigEndianValue([0x7F, 0xFF, 0xFF, 0xFC]) == 0x7FFF_FFFC by {
      assert [0x7F, 0xFF, 0xFF, 0xFC][..3] == [0x7F, 0xFF, 0xFF];
      assert [0x7F, 0xFF, 0xFF][..2] == [0x7F, 0xFF];
      assert [0x7F, 0xFF][..1] == [0x7F];
    }
  }

  /**
   * TryReadFrom(ref byte[]) as evidently intended: a negative size or one
   * whose padded payload runs past the end is refused, so it never throws.
   */
  method TryReadBlob(data: array<byte>, index: nat, littleEndian: bool)
    returns (ok: bool, result: Option<seq<byte>>, next: nat)
    requires data.Length <= MAX_ARRAY_LENGTH
    ensures ok == PrefixValid(data[..], index)
    ensures !ok ==> result == None && next == index
    ensures ok ==> var p := PrefixAt(data[..], index);
      result == Some(data[index + 4..index + 4 + p]) && next == RoundUp4(index + 4 + p)
  {
    var read, prefix := TryReadAndEvaluateByteCountPrefix(data, index, littleEndian);
    if !read || prefix < 0 || index + 4 + RoundUp4(prefix) > data.Length {
      if PrefixValid(data[..], index) {
        ValidPrefixAccepted(data[..], index);
      }
      return false, None, index;
    }
    next := index + 4;
    result := Some(data[next..next + prefix]);
    next := RoundUp4(next + prefix);
    ok := true;
  }

  /**
   * Blob round trip: a blob written at a 4-aligned position reads back
   * as the same bytes, and the index ends right after its padding.
   */
  lemma BlobRoundTrip(before: seq<byte>, after: seq<byte>, at: nat, blob: seq<byte>)
    requires |after| <= MAX_ARRAY_LENGTH && |blob| < 0x8000_0000 && at % 4 == 0
    requires OscDataBlock.WrittenAt(before, after, at, Encode(blob))
    ensures PrefixValid(after, at) && PrefixAt(after, at) == |blob|
    ensures after[at + 4..at + 4 + |blob|] == blob
    ensures RoundUp4(at + 4 + |blob|) == at + EvaluateByteCount(blob)
  {
    PrefixOfWrittenBlob(before, after, at, blob);
    var r := RoundUp4(|blob|);
    assert (at + 4 + r) % 4 == 0;
    assert at + 4 + |blob| <= at + 4 + r < at + 4 + |blob| + 4;
    RoundUp4Unique(at + 4 + |blob|, at + 4 + r);
  }

  /** The multiple of four in [n, n + 4) is RoundUp4(n). */
  lemma RoundUp4Unique(n: nat, r: nat)
    requires r % 4 == 0 && n <= r < n + 4
    ensures RoundUp4(n) == r
  {
  }

  /**
   * The writing part of TryWriteTo(byte[]), after its guard: the size
   * prefix (false when it does not fit), the bytes (a copy past the end of
   * `data` throws before writing), then the zero padding one byte at a time
   * (throwing when it reaches the end of `data`).
   */
  method WriteBlobBody(blob: seq<byte>, data: array<byte>, index: nat, littleEndian: bool)
    returns (outcome: Outcome, next: nat)
    requires |blob| < 0x8000_0000
    modifies data
    ensures outcome == Succeeded <==> index + EvaluateByteCount(blob) <= data.Length
    ensures outcome == Failed <==> index + 4 > data.Length
    ensures outcome == Failed ==> next == index && data[..] == old(data[..])
    ensures outcome == Succeeded ==> next == index + EvaluateByteCount(blob)
    ensures outcome == Threw ==> next == if index + 4 + |blob| > data.Length then index + 4 else data.Length
    ensures outcome != Failed ==>
      index <= next <= index + EvaluateByteCount(blob) &&
      OscDataBlock.WrittenAt(old(data[..]), data[..], index, Encode(blob)[..next - index])
  {
    var trailingZeroCount := RoundUp4(|blob|) - |blob|;
    var wrote;
    ghost var prefix := OscDataBlock.ToWire(FourByteOscData.FromInt(|blob|, littleEndian), littleEndian);
    assert prefix == BigEndian(|blob|, 4) == Encode(blob)[..4] by {
      assert Unsigned32(|blob|) == |blob|;
    }
    wrote, next := FourByteOscData.TryWriteTo(FourByteOscData.FromInt(|blob|, littleEndian), littleEndian, data, index);
    if !wrote {
      return Failed, index;
    }
    if next + |blob| > data.Length {
      OscDataBlock.WrittenAtChunk(old(data[..]), data[..], index, prefix, Encode(blob)[..next - index]);
      return Threw, next;
    }
    ghost var mid := data[..];
    CopyBytes(blob, data, next);
    OscDataBlock.WrittenAtThen(old(data[..]), mid, data[..], index, BigEndian(|blob|, 4), blob);
    next := next + |blob|;
    ghost var copied := data[..];
    var completed;
    completed, next := WriteZeros(data, next, trailingZeroCount);
    ghost var padded := next - (index + 4 + |blob|);
    OscDataBlock.WrittenAtThen(old(data[..]), copied, data[..], index, BigEndian(|blob|, 4) + blob, Zeros(padded));
    EncodePrefix(blob, padded);
    OscDataBlock.WrittenAtChunk(old(data[..]), data[..], index, BigEndian(|blob|, 4) + blob + Zeros(padded), Encode(blob)[..next - index]);
    outcome := if completed then Succeeded else Threw;
  }

  /** Array.Copy of the blob bytes into `data` at `from`. */
  method CopyBytes(src: seq<byte>, data: array<byte>, from: nat)
    requires from + |src| <= data.Length
    modifies data
    ensures OscDataBlock.WrittenAt(old(data[..]), data[..], from, src)
  {
    forall j | from <= j < from + |src| {
      data[j] := src[j - from];
    }
    OscDataBlock.WrittenAtPointwise(old(data[..]), data[..], from, src);
  }

  /** The first bytes of the encoding: the prefix, the blob, some of the padding. */
  lemma EncodePrefix(blob: seq<byte>, k: nat)
    requires |blob| < 0x8000_0000 && k <= RoundUp4(|blob|) - |blob|
    ensures Encode(blob)[..4 + |blob| + k] == BigEndian(|blob|, 4) + blob + Zeros(k)
  {
    PaddingPrefix(BigEndian(|blob|, 4) + blob, RoundUp4(|blob|) - |blob|, k);
  }

  /** The first `k` bytes of the padding are zeros too. */
  lemma PaddingPrefix(head: seq<byte>, padded: nat, k: nat)
    requires k <= padded
    ensures (head + Zeros(padded))[..|head| + k] == head + Zeros(k)
  {
    assert Zeros(padded)[..k] == Zeros(k);
    assert (head + Zeros(padded))[..|head| + k] == head + Zeros(padded)[..k];
  }

  /**
   * The padding loop of TryWriteTo(byte[]): `count` zero bytes from
   * `from`, one at a time; it stops (the runtime throws) at the end of
   * `data`.
   */
  method WriteZeros(data: array<byte>, from: nat, count: nat) returns (completed: bool, next: nat)
    requires from <= data.Length
    modifies data
    ensures completed <==> from + count <= data.Length
    ensures next == if completed then from + count else data.Length
    ensures OscDataBlock.WrittenAt(old(data[..]), data[..], from, Zeros(next - from))
  {
    next := from;
    var i := 0;
    while i < count
      invariant 0 <= i <= count && next == from + i <= data.Length
      invariant forall j :: 0 <= j < data.Length ==> data[j] == if from <= j < next then 0 else old(data[j])
    {
      if next >= data.Length {
        OscDataBlock.WrittenAtPointwise(old(data[..]), data[..], from, Zeros(next - from));
        return false, next;
      }
      data[next] := 0;
      next := next + 1;
      i := i + 1;
    }
    OscDataBlock.WrittenAtPointwise(old(data[..]), data[..], from, Zeros(next - from));
    completed := true;
  }

  /**
   * TryWriteTo(byte[]) as written.  Its guard rejects when
   * `index + blobByteCount < data.Length`, the inverse of the intended
   * check, so the write only completes when the blob ends exactly at the
   * end of `data`; when the blob does not fit, WriteBlobBody throws.
   */
  method TryWriteTo(blob: seq<byte>, data: array<byte>, index: nat, littleEndian: bool)
    returns (outcome: Outcome, next: nat)
    requires |blob| < 0x8000_0000
    modifies data
    ensures outcome == Succeeded <==> index + EvaluateByteCount(blob) == data.Length
    ensures outcome == Failed <==> index + EvaluateByteCount(blob) < data.Length || index + 4 > data.Length
    ensures outcome == Failed ==> next == index && data[..] == old(data[..])
    ensures outcome == Succeeded ==> next == data.Length
    ensures outcome == Threw ==> next == if index + 4 + |blob| > data.Length then index + 4 else data.Length
    ensures outcome != Failed ==>
      index <= next <= index + EvaluateByteCount(blob) &&
      OscDataBlock.WrittenAt(old(data[..]), data[..], index, Encode(blob)[..next - index])
  {
    var trailingZeroCount := RoundUp4(|blob|) - |blob|;
    var blobByteCount := 4 + |blob| + trailingZeroCount;
    if index + blobByteCount < data.Length {
      return Failed, index;
    }
    outcome, next := WriteBlobBody(blob, data, index, littleEndian);
  }

  /**
   * TryWriteTo(byte[]) as evidently intended: refuse without writing when
   * the blob does not fit, otherwise write it whole.
   */
  method TryWriteBlob(blob: seq<byte>, data: array<byte>, index: nat, littleEndian: bool)
    returns (ok: bool, next: nat)
    requires |blob| < 0x8000_0000
    modifies data
    ensures ok <==> index + EvaluateByteCount(blob) <= data.Length
    ensures ok ==> (next == index + EvaluateByteCount(blob) && OscDataBlock.WrittenAt(old(data[..]), data[..], index, Encode(blob)))
    ensures !ok ==> (next == index && data[..] == old(data[..]))
  {
    var trailingZeroCount := RoundUp4(|blob|) - |blob|;
    var blobByteCount := 4 + |blob| + trailingZeroCount;
    if index + blobByteCount > data.Length {
      return false, index;
    }
    var outcome;
    outcome, next := WriteBlobBody(blob, data, index, littleEndian);
    assert Encode(blob)[..next - index] == Encode(blob);
    ok := true;
  }

  /**
   * As written, a 4-byte blob (8 bytes with its prefix) at index 0 of a
   * 16-byte buffer is refused although it fits; the corrected writer
   * writes it.  In a 4-byte buffer the same blob passes the guard and the
   * copy throws.
   */
  method RoomToSpareRefused(littleEndian: bool) returns (asWritten: Outcome, corrected: bool, tight: Outcome)
    ensures asWritten == Failed && corrected && tight == Threw
  {
    var blob: seq<byte> := [1, 2, 3, 4];
    assert EvaluateByteCount(blob) == 8;
    var data := new byte[16];
    var next;
    asWritten, next := TryWriteTo(blob, data, 0, littleEndian);
    var other := new byte[16];
    corrected, next := TryWriteBlob(blob, other, 0, littleEndian);
    var small := new byte[4];
    tight, next := TryWriteTo(blob, small, 0, littleEndian);
  }

  /**
   * The fixed-width readers (Vector2, Vector2Int: 8 bytes; Vector3,
   * Vector3Int: 12; Vector4, Quaternion, Rect: 16; Matrix4x4: 64): after
   * the prefix check, skip the prefix and read `width` bytes.  The prefix
   * value itself is not compared with the width.  When the payload read
   * fails the index stays after the prefix.  On failure the value is the
   * type's default, which is not modelled.
   */
  method ReadFixedWidth(data: array<byte>, index: nat, width: nat, littleEndian: bool)
    returns (ok: bool, mem: seq<byte>, next: nat)
    requires data.Length <= MAX_ARRAY_LENGTH
    requires width == 8 || width == 12 || width == 16 || width == 64
    ensures !PrefixAccepted(data[..], index) ==> !ok && next == index
    ensures PrefixAccepted(data[..], index) ==>
      && (ok <==> index + 4 + width <= data.Length)
      && (ok ==> next == index + 4 + width && mem == OscDataBlock.FromWire(data[index + 4..index + 4 + width], littleEndian))
      && (!ok ==> next == index + 4)
  {
    var accepted, prefix := TryReadAndEvaluateByteCountPrefix(data, index, littleEndian);
    if !accepted {
      return false, [], index;
    }
    next := index + 4;
    ok, mem, next := OscDataBlock.ReadBlock(data, next, width, littleEndian);
  }

  /**
   * The fixed-width writers: a size prefix equal to the payload width,
   * then the payload.  No overall check comes first, so when only the
   * prefix fits it is written and the index stays after it.
   */
  method WriteFixedWidth(mem: seq<byte>, littleEndian: bool, data: array<byte>, index: nat)
    returns (ok: bool, next: nat)
    requires |mem| == 8 || |mem| == 12 || |mem| == 16 || |mem| == 64
    modifies data
    ensures ok <==> index + 4 + |mem| <= data.Length
    ensures ok ==> (next == index + 4 + |mem| &&
      OscDataBlock.WrittenAt(old(data[..]), data[..], index, BigEndian(|mem|, 4) + OscDataBlock.ToWire(mem, littleEndian)))
    ensures !ok && index + 4 <= data.Length ==> (next == index + 4 &&
      OscDataBlock.WrittenAt(old(data[..]), data[..], index, BigEndian(|mem|, 4)))
    ensures !ok && index + 4 > data.Length ==> next == index && data[..] == old(data[..])
  {
    ok, next := FourByteOscData.TryWriteTo(FourByteOscData.FromInt(|mem|, littleEndian), littleEndian, data, index);
    if !ok {
      return;
    }
    ghost var afterPrefix := data[..];
    ok, next := OscDataBlock.WriteBlock(mem, littleEndian, data, next);
    if ok {
      OscDataBlock.WrittenAtThen(old(data[..]), afterPrefix, data[..], index, BigEndian(|mem|, 4), OscDataBlock.ToWire(mem, littleEndian));
    } else {
      next := index + 4;
    }
  }

  /** A size prefix reads back as the size. */
  lemma SizePrefix(n: nat)
    requires n < 0x8000_0000
    ensures FourByteOscData.IntFromWire(BigEndian(n, 4)) == n
  {
    var wire := BigEndian(n, 4);
    BigEndianRoundTrip(n, 4);
    assert Pow256(4) == TWO_32;
    assert BigEndianValue(wire) == n by {
      ModOfSum(n, TWO_32, 0, n);
    }
  }

  /** A size prefix written at `at` reads back as the size. */
  lemma PrefixOfWrite(before: seq<byte>, after: seq<byte>, at: nat, chunk: seq<byte>, n: nat)
    requires OscDataBlock.WrittenAt(before, after, at, chunk)
    requires |chunk| >= 4 && chunk[..4] == BigEndian(n, 4) && n < 0x8000_0000
    ensures PrefixAt(after, at) == n
  {
    OscDataBlock.WrittenAtSlice(before, after, at, chunk, 0, 4);
    SizePrefix(n);
  }

  /** A size that is already a multiple of four needs no padding. */
  lemma RoundUp4OfMultiple(n: nat)
    requires n % 4 == 0
    ensures RoundUp4(n) == n
  {
    assert n + 3 == 4 * (n / 4) + 3;
  }

  /**
   * A chunk made of the size prefix `n` (a multiple of four) and `n`
   * payload bytes, once written, passes both the intended and the
   * as-written size check.
   */
  lemma WrittenSizedPayload(before: seq<byte>, after: seq<byte>, at: nat, chunk: seq<byte>, n: nat)
    requires OscDataBlock.WrittenAt(before, after, at, chunk) && |after| <= MAX_ARRAY_LENGTH
    requires |chunk| == 4 + n && chunk[..4] == BigEndian(n, 4) && n % 4 == 0 && n < 0x8000_0000
    ensures PrefixAt(after, at) == n && PrefixValid(after, at) && PrefixAccepted(after, at)
  {
    PrefixOfWrite(before, after, at, chunk, n);
    RoundUp4OfMultiple(n);
    ValidPrefixAccepted(after, at);
  }

  /** A size prefix followed by its payload, once written, passes the size check. */
  lemma WrittenPrefix(before: seq<byte>, after: seq<byte>, at: nat, payload: seq<byte>)
    requires |payload| % 4 == 0 && |payload| < 0x8000_0000 && |after| <= MAX_ARRAY_LENGTH
    requires OscDataBlock.WrittenAt(before, after, at, BigEndian(|payload|, 4) + payload)
    ensures PrefixAt(after, at) == |payload| && PrefixValid(after, at) && PrefixAccepted(after, at)
  {
    var wire := BigEndian(|payload|, 4) + payload;
    assert wire[..4] == BigEndian(|payload|, 4);
    WrittenSizedPayload(before, after, at, wire, |payload|);
  }

  /** The payload written after a four-byte head reads back unchanged. */
  lemma WrittenPayloadBytes(before: seq<byte>, after: seq<byte>, at: nat, head: seq<byte>, payload: seq<byte>, n: nat)
    requires |head| == 4 && |payload| == n
    requires OscDataBlock.WrittenAt(before, after, at, head + payload)
    ensures at + 4 + n <= |after| && after[at + 4..at + 4 + n] == payload
  {
    var wire := head + payload;
    OscDataBlock.WrittenAtSlice(before, after, at, wire, 4, 4 + |payload|);
    assert wire[4..4 + |payload|] == payload;
  }

  /** The size prefix of a fixed-width payload written as a blob passes the guard. */
  lemma FixedWidthPrefix(before: seq<byte>, after: seq<byte>, at: nat, mem: seq<byte>, littleEndian: bool)
    requires |mem| % 4 == 0 && |mem| < 0x8000_0000
    requires |after| <= MAX_ARRAY_LENGTH
    requires OscDataBlock.WrittenAt(before, after, at, BigEndian(|mem|, 4) + OscDataBlock.ToWire(mem, littleEndian))
    ensures PrefixAccepted(after, at) && PrefixAt(after, at) == |mem|
  {
    var payload := OscDataBlock.ToWire(mem, littleEndian);
    assert |payload| == |mem|;
    WrittenPrefix(before, after, at, payload);
  }

  /** A fixed-width payload written as a blob reads back unchanged. */
  lemma FixedWidthRoundTrip(before: seq<byte>, after: seq<byte>, at: nat, mem: seq<byte>, littleEndian: bool)
    requires OscDataBlock.WrittenAt(before, after, at, BigEndian(|mem|, 4) + OscDataBlock.ToWire(mem, littleEndian))
    ensures OscDataBlock.FromWire(after[at + 4..at + 4 + |mem|], littleEndian) == mem
  {
    ReadBackAfterHead(before, after, at, BigEndian(|mem|, 4), mem, littleEndian);
  }

  /** Whatever four bytes come first, the payload after them reads back. */
  lemma ReadBackAfterHead(before: seq<byte>, after: seq<byte>, at: nat, head: seq<byte>, mem: seq<byte>, littleEndian: bool)
    requires |head| == 4
    requires OscDataBlock.WrittenAt(before, after, at, head + OscDataBlock.ToWire(mem, littleEndian))
    ensures at + 4 + |mem| <= |after|
    ensures OscDataBlock.FromWire(after[at + 4..at + 4 + |mem|], littleEndian) == mem
  {
    var payload := OscDataBlock.ToWire(mem, littleEndian);
    WrittenPayloadBytes(before, after, at, head, payload, |mem|);
    OscDataBlock.MemRoundTrip(mem, littleEndian);
  }

  /** The wire bytes of a list of four-byte values, one after another. */
  function ConcatWire(mems: seq<FourByteOscData.Data>, littleEndian: bool): (wire: seq<byte>)
    ensures |wire| == 4 * |mems|
  {
    if mems == [] then []
    else ConcatWire(mems[..|mems| - 1], littleEndian) + OscDataBlock.ToWire(mems[|mems| - 1], littleEndian)
  }

  /** The k-th group of four bytes is the k-th value. */
  lemma {:induction false} ConcatWireAt(mems: seq<FourByteOscData.Data>, littleEndian: bool, k: nat)
    requires k < |mems|
    ensures ConcatWire(mems, littleEndian)[4 * k..4 * k + 4] == OscDataBlock.ToWire(mems[k], littleEndian)
  {
    var n := |mems| - 1;
    var init := ConcatWire(mems[..n], littleEndian);
    var wire := ConcatWire(mems, littleEndian);
    assert wire == init + OscDataBlock.ToWire(mems[n], littleEndian);
    if k == n {
      assert wire[4 * k..4 * k + 4] == wire[|init|..];
    } else {
      ConcatWireAt(mems[..n], littleEndian, k);
      assert wire[4 * k..4 * k + 4] == init[4 * k..4 * k + 4];
    }
  }

  /** The list prefix: the byte count `count * 4` as a C# int, in host order. */
  function CountWire(count: nat, littleEndian: bool): (wire: seq<byte>)
    ensures |wire| == 4
  {
    OscDataBlock.ToWire(FourByteOscData.FromInt(Wrap32(count * 4), littleEndian), littleEndian)
  }

  /** The list blob as the list writers lay it out: the prefix, then the values. */
  function ListWire(mems: seq<FourByteOscData.Data>, littleEndian: bool): (wire: seq<byte>)
    ensures |wire| == 4 + 4 * |mems|
  {
    CountWire(|mems|, littleEndian) + ConcatWire(mems, littleEndian)
  }

  /**
   * The list writers (IList<float> and IList<int>): write the prefix and
   * then each value, stopping at the first four-byte group that does not
   * fit; the prefix and the `fit` values written before it stay written.
   */
  method WriteFourByteList(mems: seq<FourByteOscData.Data>, littleEndian: bool, data: array<byte>, index: nat)
    returns (ok: bool, next: nat)
    modifies data
    ensures ok <==> index + 4 + 4 * |mems| <= data.Length
    ensures ok ==> (next == index + 4 + 4 * |mems| &&
      OscDataBlock.WrittenAt(old(data[..]), data[..], index, ListWire(mems, littleEndian)))
    ensures !ok && index + 4 > data.Length ==> (next == index && data[..] == old(data[..]))
    ensures !ok && index + 4 <= data.Length ==>
      var fit := (data.Length - index - 4) / 4;
      && fit < |mems| && next == index + 4 + 4 * fit
      && OscDataBlock.WrittenAt(old(data[..]), data[..], index, CountWire(|mems|, littleEndian) + ConcatWire(mems[..fit], littleEndian))
  {
    ghost var count := CountWire(|mems|, littleEndian);
    ok, next := FourByteOscData.TryWriteTo(FourByteOscData.FromInt(Wrap32(|mems| * 4), littleEndian), littleEndian, data, index);
    if !ok {
      return;
    }
    ghost var mid := data[..];
    var i := 0;
    ConcatWireNone(mems, littleEndian);
    OscDataBlock.WrittenNothing(mid, index + 4);
    while i < |mems|
      invariant 0 <= i <= |mems| && next == index + 4 + 4 * i <= data.Length
      invariant OscDataBlock.WrittenAt(old(data[..]), mid, index, count)
      invariant OscDataBlock.WrittenAt(mid, data[..], index + 4, ConcatWire(mems[..i], littleEndian))
    {
      ghost var before := data[..];
      var wrote;
      wrote, next := FourByteOscData.TryWriteTo(mems[i], littleEndian, data, next);
      if !wrote {
        DivByFour(data.Length - index - 4, i);
        OscDataBlock.WrittenAtThen(old(data[..]), mid, data[..], index, count, ConcatWire(mems[..i], littleEndian));
        return false, next;
      }
      ListStep(mid, before, data[..], index + 4, mems, littleEndian, i);
      i := i + 1;
    }
    assert mems[..i] == mems;
    OscDataBlock.WrittenAtThen(old(data[..]), mid, data[..], index, count, ConcatWire(mems, littleEndian));
  }

  lemma ConcatWireNone(mems: seq<FourByteOscData.Data>, littleEndian: bool)
    ensures ConcatWire(mems[..0], littleEndian) == []
  {
    assert mems[..0] == [];
  }

  /** Writing the next value extends the run of values written so far. */
  lemma ListStep(mid: seq<byte>, before: seq<byte>, after: seq<byte>, at: nat,
                 mems: seq<FourByteOscData.Data>, littleEndian: bool, i: nat)
    requires i < |mems|
    requires OscDataBlock.WrittenAt(mid, before, at, ConcatWire(mems[..i], littleEndian))
    requires OscDataBlock.WrittenAt(before, after, at + 4 * i, OscDataBlock.ToWire(mems[i], littleEndian))
    ensures OscDataBlock.WrittenAt(mid, after, at, ConcatWire(mems[..i + 1], littleEndian))
  {
    ConcatWireStep(mems, littleEndian, i);
    OscDataBlock.WrittenAtThen(mid, before, after, at, ConcatWire(mems[..i], littleEndian), OscDataBlock.ToWire(mems[i], littleEndian));
  }

  /** One more value appends its four bytes. */
  lemma ConcatWireStep(mems: seq<FourByteOscData.Data>, littleEndian: bool, i: nat)
    requires i < |mems|
    ensures ConcatWire(mems[..i + 1], littleEndian) == ConcatWire(mems[..i], littleEndian) + OscDataBlock.ToWire(mems[i], littleEndian)
  {
    assert mems[..i + 1][..i] == mems[..i];
  }

  lemma DivByFour(x: nat, q: nat)
    requires 4 * q <= x < 4 * q + 4
    ensures x / 4 == q
  {
  }

  /** The number of values a list prefix announces: none for a negative prefix. */
  function ListCount(prefix: int32): (count: nat)
    ensures prefix >= 0 ==> count == CsDiv(prefix, 4)
    ensures prefix < 0 ==> CsDiv(prefix, 4) <= 0 && count == 0
  {
    if prefix < 0 then 0 else prefix / 4
  }

  /** How many of `count` four-byte values fit in `room` bytes. */
  function ListFit(count: nat, room: nat): (fit: nat)
    ensures fit <= count && 4 * fit <= room
    ensures fit == count || room < 4 * fit + 4
  {
    if count <= room / 4 then count else room / 4
  }

  /** The `n` four-byte values stored one after another from `from`. */
  function ValuesAt(data: seq<byte>, from: nat, n: nat, littleEndian: bool): (r: seq<FourByteOscData.Data>)
    requires from + 4 * n <= |data|
    ensures |r| == n
  {
    if n == 0 then []
    else ValuesAt(data, from, n - 1, littleEndian) + [FourByteOscData.FromBytes(data[from + 4 * (n - 1)..from + 4 * n], littleEndian)]
  }

  /** The k-th value of a list read from `index` as an int. */
  lemma IntValuesAt(data: seq<byte>, index: nat, n: nat, littleEndian: bool, k: nat)
    requires index + 4 + 4 * n <= |data| && k < n
    ensures FourByteOscData.IntValue(ValuesAt(data, index + 4, n, littleEndian)[k], littleEndian) ==
            FourByteOscData.IntFromWire(data[index + 4 + 4 * k..index + 8 + 4 * k])
  {
    var from := index + 4;
    ValuesAtIndex(data, from, n, littleEndian, k);
    var wire := data[from + 4 * k..from + 4 * k + 4];
    assert wire == data[index + 4 + 4 * k..index + 8 + 4 * k];
    FourByteOscData.IntValueFromBytes(wire, littleEndian);
  }

  /** One more value is read from the next four bytes. */
  lemma ValuesAtStep(data: seq<byte>, from: nat, i: nat, littleEndian: bool)
    requires from + 4 * i + 4 <= |data|
    ensures ValuesAt(data, from, i + 1, littleEndian) ==
            ValuesAt(data, from, i, littleEndian) + [FourByteOscData.FromBytes(data[from + 4 * i..from + 4 * i + 4], littleEndian)]
  {
  }

  /** The k-th of those values is read from bytes 4k to 4k + 4. */
  lemma {:induction false} ValuesAtIndex(data: seq<byte>, from: nat, n: nat, littleEndian: bool, k: nat)
    requires from + 4 * n <= |data| && k < n
    ensures ValuesAt(data, from, n, littleEndian)[k] == FourByteOscData.FromBytes(data[from + 4 * k..from + 4 * k + 4], littleEndian)
  {
    var prev := ValuesAt(data, from, n - 1, littleEndian);
    var last := FourByteOscData.FromBytes(data[from + 4 * (n - 1)..from + 4 * n], littleEndian);
    assert ValuesAt(data, from, n, littleEndian) == prev + [last];
    if k < n - 1 {
      ValuesAtIndex(data, from, n - 1, littleEndian, k);
      assert (prev + [last])[k] == prev[k];
    } else {
      assert from + 4 * k == from + 4 * (n - 1);
    }
  }

  /** IList<int> writer: the ints as four-byte values in host order. */
  method WriteIntList(values: seq<int32>, littleEndian: bool, data: array<byte>, index: nat)
    returns (ok: bool, next: nat)
    modifies data
    ensures ok <==> index + 4 + 4 * |values| <= data.Length
    ensures ok ==> (next == index + 4 + 4 * |values| &&
      OscDataBlock.WrittenAt(old(data[..]), data[..], index, ListWire(IntMems(values, littleEndian), littleEndian)))
  {
    ok, next := WriteFourByteList(IntMems(values, littleEndian), littleEndian, data, index);
  }

  /** The in-memory form of each int. */
  function IntMems(values: seq<int32>, littleEndian: bool): (mems: seq<FourByteOscData.Data>)
    ensures |mems| == |values|
    ensures forall k :: 0 <= k < |values| ==> FourByteOscData.IntValue(mems[k], littleEndian) == values[k]
  {
    seq(|values|, k requires 0 <= k < |values| => FourByteOscData.FromInt(values[k], littleEndian))
  }

  /**
   * The list readers (List<float> and List<int>): after the prefix check
   * the list is emptied and prefix / 4 values are read (none for a negative
   * prefix); a value that does not fit ends the read with false and the
   * values read so far.  A failed check leaves the list as it was.
   */
  method ReadFourByteList(data: array<byte>, index: nat, values: seq<FourByteOscData.Data>, littleEndian: bool)
    returns (ok: bool, result: seq<FourByteOscData.Data>, next: nat)
    requires data.Length <= MAX_ARRAY_LENGTH
    ensures !PrefixAccepted(data[..], index) ==> !ok && result == values && next == index
    ensures PrefixAccepted(data[..], index) ==>
      var count := ListCount(PrefixAt(data[..], index));
      var fit := ListFit(count, data.Length - index - 4);
      && (ok <==> count == fit)
      && next == index + 4 + 4 * fit
      && result == ValuesAt(data[..], index + 4, fit, littleEndian)
  {
    var accepted, prefix := TryReadAndEvaluateByteCountPrefix(data, index, littleEndian);
    if !accepted {
      return false, values, index;
    }
    ok, result, next := ReadValues(data, index + 4, CsDiv(prefix, 4), littleEndian);
  }

  /**
   * The reading loop of the list readers: up to `valueCount` four-byte
   * values from `from`, stopping with false at the first one that does not
   * fit.
   */
  method ReadValues(data: array<byte>, from: nat, valueCount: int, littleEndian: bool)
    returns (ok: bool, result: seq<FourByteOscData.Data>, next: nat)
    requires from <= data.Length
    ensures var fit := ListFit(if valueCount < 0 then 0 else valueCount, data.Length - from);
      && (ok <==> fit == valueCount || (valueCount < 0 && fit == 0))
      && next == from + 4 * fit
      && result == ValuesAt(data[..], from, fit, littleEndian)
  {
    ghost var count := if valueCount < 0 then 0 else valueCount;
    ghost var room := data.Length - from;
    ghost var fit := ListFit(count, room);
    ghost var bytes := data[..];
    next := from;
    result := [];
    var i := 0;
    while i < valueCount
      invariant 0 <= i <= fit && next == from + 4 * i
      invariant result == ValuesAt(bytes, from, i, littleEndian)
    {
      var read, value;
      read, value, next := FourByteOscData.TryReadFrom(data, next, littleEndian);
      if !read {
        assert room < 4 * i + 4 && i == fit;
        return false, result, next;
      }
      assert 4 * (i + 1) <= room && i + 1 <= fit;
      assert value == FourByteOscData.FromBytes(bytes[from + 4 * i..from + 4 * i + 4], littleEndian);
      ValuesAtStep(bytes, from, i, littleEndian);
      result := result + [value];
      i := i + 1;
    }
    assert i == fit;
    ok := true;
  }

  /** List<int> reader: the values read as big-endian ints. */
  method ReadIntList(data: array<byte>, index: nat, values: seq<int32>, littleEndian: bool)
    returns (ok: bool, result: seq<int32>, next: nat)
    requires data.Length <= MAX_ARRAY_LENGTH
    ensures !PrefixAccepted(data[..], index) ==> !ok && result == values && next == index
    ensures PrefixAccepted(data[..], index) ==>
      var count := ListCount(PrefixAt(data[..], index));
      var fit := ListFit(count, data.Length - index - 4);
      && (ok <==> count == fit)
      && |result| == fit && next == index + 4 + 4 * fit
      && forall k :: 0 <= k < fit ==>
           result[k] == FourByteOscData.IntFromWire(data[index + 4 + 4 * k..index + 8 + 4 * k])
  {
    var mems;
    ok, mems, next := ReadFourByteList(data, index, IntMems(values, littleEndian), littleEndian);
    if !PrefixAccepted(data[..], index) {
      return ok, values, next;
    }
    result := seq(|mems|, k requires 0 <= k < |mems| => FourByteOscData.IntValue(mems[k], littleEndian));
    forall k | 0 <= k < |mems|
      ensures result[k] == FourByteOscData.IntFromWire(data[index + 4 + 4 * k..index + 8 + 4 * k])
    {
      IntValuesAt(data[..], index, |mems|, littleEndian, k);
    }
  }

  /** A list whose size fits an int32 carries its byte count as a plain big-endian prefix. */
  lemma ListWireShape(mems: seq<FourByteOscData.Data>, littleEndian: bool)
    requires 4 * |mems| < 0x8000_0000
    ensures CountWire(|mems|, littleEndian) == BigEndian(4 * |mems|, 4)
  {
  }

  /** The k-th value of a written list reads back from its four bytes. */
  lemma ListValueAt(after: seq<byte>, at: nat, mems: seq<FourByteOscData.Data>, littleEndian: bool, k: nat)
    requires k < |mems| && at + 4 + 4 * |mems| <= |after|
    requires after[at + 4..at + 4 + 4 * |mems|] == ConcatWire(mems, littleEndian)
    ensures after[at + 4 + 4 * k..at + 8 + 4 * k] == OscDataBlock.ToWire(mems[k], littleEndian)
  {
    var payload := ConcatWire(mems, littleEndian);
    ConcatWireAt(mems, littleEndian, k);
    SliceOfSlice(after, at + 4, at + 4 + |payload|, 4 * k, 4 * k + 4);
    assert at + 4 + (4 * k + 4) == at + 8 + 4 * k;
  }

  lemma SliceOfSlice(s: seq<byte>, a: nat, b: nat, i: nat, j: nat)
    requires a <= b <= |s| && i <= j <= b - a
    ensures s[a..b][i..j] == s[a + i..a + j]
  {
    assert forall t :: 0 <= t < j - i ==> s[a..b][i..j][t] == s[a + i + t];
  }

  /** The count prefix of an int list written whole passes the size check. */
  lemma IntListPrefix(before: seq<byte>, after: seq<byte>, at: nat, values: seq<int32>, littleEndian: bool)
    requires |after| <= MAX_ARRAY_LENGTH && 4 * |values| < 0x8000_0000
    requires OscDataBlock.WrittenAt(before, after, at, ListWire(IntMems(values, littleEndian), littleEndian))
    ensures PrefixAccepted(after, at) && PrefixAt(after, at) == 4 * |values|
  {
    var mems := IntMems(values, littleEndian);
    var payload := ConcatWire(mems, littleEndian);
    assert |payload| == 4 * |values| && |payload| % 4 == 0;
    ListWireShape(mems, littleEndian);
    assert ListWire(mems, littleEndian) == BigEndian(|payload|, 4) + payload;
    OscDataBlock.WrittenAtChunk(before, after, at, ListWire(mems, littleEndian), BigEndian(|payload|, 4) + payload);
    WrittenPrefix(before, after, at, payload);
  }

  /** An int list written whole reads back as the same ints. */
  lemma IntListRoundTrip(before: seq<byte>, after: seq<byte>, at: nat, values: seq<int32>, littleEndian: bool)
    requires OscDataBlock.WrittenAt(before, after, at, ListWire(IntMems(values, littleEndian), littleEndian))
    ensures at + 4 + 4 * |values| <= |after|
    ensures forall k :: 0 <= k < |values| ==>
      FourByteOscData.IntFromWire(after[at + 4 + 4 * k..at + 8 + 4 * k]) == values[k]
  {
    var mems := IntMems(values, littleEndian);
    var payload := ConcatWire(mems, littleEndian);
    assert |payload| == 4 * |values|;
    WrittenPayloadBytes(before, after, at, CountWire(|mems|, littleEndian), payload, 4 * |values|);
    IntListValues(after, at, values, littleEndian);
  }

  /** Every value of a list laid out after the prefix reads back. */
  lemma IntListValues(after: seq<byte>, at: nat, values: seq<int32>, littleEndian: bool)
    requires at + 4 + 4 * |values| <= |after|
    requires after[at + 4..at + 4 + 4 * |values|] == ConcatWire(IntMems(values, littleEndian), littleEndian)
    ensures forall k :: 0 <= k < |values| ==>
      FourByteOscData.IntFromWire(after[at + 4 + 4 * k..at + 8 + 4 * k]) == values[k]
  {
    forall k | 0 <= k < |values|
      ensures FourByteOscData.IntFromWire(after[at + 4 + 4 * k..at + 8 + 4 * k]) == values[k]
    {
      IntListValueAt(after, at, values, littleEndian, k);
    }
  }

  lemma IntListValueAt(after: seq<byte>, at: nat, values: seq<int32>, littleEndian: bool, k: nat)
    requires k < |values| && at + 4 + 4 * |values| <= |after|
    requires after[at + 4..at + 4 + 4 * |values|] == ConcatWire(IntMems(values, littleEndian), littleEndian)
    ensures FourByteOscData.IntFromWire(after[at + 4 + 4 * k..at + 8 + 4 * k]) == values[k]
  {
    var mems := IntMems(values, littleEndian);
    ListValueAt(after, at, mems, littleEndian, k);
    OscDataBlock.MemRoundTrip(mems[k], littleEndian);
    FourByteOscData.IntValueFromBytes(OscDataBlock.ToWire(mems[k], littleEndian), littleEndian);
  }
}
