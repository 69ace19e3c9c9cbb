/**
 * OscMessages: the message class.  A message has an address, an argument
 * count, one record per argument and one payload array that holds the
 * argument bytes back to back; it caches its serialised size and the hash
 * of its address.  Every method is proved against the layout functions of
 * OscMessageLayout: `Args()` is what the message holds, and the public
 * operations change it the way Updated and Removed say.
 */
module OscMessages {
  import opened Bytes
  import opened Wrappers
  import opened OscTypes
  import opened OscArgInfo
  import opened OscMessageLayout
  import OscDataBlock
  import FourByteOscData
  import EightByteOscData
  import StringOscData
  import BlobOscData
  import OscStringHash
  import OscAddress
  import opened OscMessageEdits
  import OscMidiMessage
  import opened OscMessageReads
  import OscMessageWire
  import OscMessageParse
  import OscMessageReader

  class OscMessage {
    var address: string
    var argsData: array<byte>
    var argsInfo: seq<OscArgInfo>
    var argsCount: nat
    var argsByteCount: int
    var dirtyByteSize: bool
    var cachedByteSize: int
    var dirtyAddressHash: bool
    var addressHash: uint32
    /** The host's byte order, which the fixed-width codecs depend on. */
    const littleEndian: bool

    /** The records describe a packed payload that fits in the payload array. */
    predicate Laid()
      reads this
    {
      && Packed(argsInfo, argsCount)
      && argsByteCount == End(argsInfo, argsCount)
      && argsByteCount <= argsData.Length <= MAX_ARRAY_LENGTH
    }

    /** The arguments the message holds. */
    function Args(): (args: seq<Arg>)
      requires Laid()
      reads this, argsData
      ensures |args| == argsCount
    {
      ArgsOf(argsInfo, argsCount, argsData[..])
    }

    /** A cached size is the size of the message. */
    predicate SizeCacheSound()
      reads this
    {
      !dirtyByteSize ==> argsByteCount >= 0 && cachedByteSize == MessageSize(address, argsCount, argsByteCount)
    }

    /** A cached hash is the hash of the address. */
    predicate HashCacheSound()
      reads this
    {
      !dirtyAddressHash ==> addressHash == OscStringHash.PackedText(address)
    }

    /** The invariant every public operation keeps. */
    predicate Valid()
      reads this, argsData
    {
      Laid() && WellFormedArgs(Args()) && SizeCacheSound() && HashCacheSound()
    }

    /** `new OscMessage(address)`: no arguments; the address is stored as given, without sanitising. */
    constructor(address: string, littleEndian: bool)
      ensures Valid() && Args() == [] && this.address == address && this.littleEndian == littleEndian
      ensures dirtyByteSize && dirtyAddressHash
    {
      this.address := address;
      argsData := new byte[0];
      argsInfo := [];
      argsCount := 0;
      argsByteCount := 0;
      dirtyByteSize := true;
      cachedByteSize := 0;
      dirtyAddressHash := true;
      addressHash := 0;
      this.littleEndian := littleEndian;
    }

    /** The address setter: sanitise, store, and drop the cached size and hash. */
    method SetAddress(value: string)
      requires Valid()
      modifies this
      ensures Valid() && Args() == old(Args())
      ensures address == OscAddress.Sanitized(value) && dirtyByteSize && dirtyAddressHash
    {
      var sanitized := OscAddress.Sanitize(value);
      address := sanitized;
      dirtyByteSize := true;
      dirtyAddressHash := true;
    }

    /**
     * The address setter as written: the cached hash survives, so a hash
     * computed before the change is returned after it.
     */
    method SetAddressKeepingHash(value: string)
      requires Valid()
      modifies this
      ensures Laid() && Args() == old(Args()) && SizeCacheSound()
      ensures address == OscAddress.Sanitized(value) && dirtyByteSize
      ensures dirtyAddressHash == old(dirtyAddressHash) && addressHash == old(addressHash)
    {
      var sanitized := OscAddress.Sanitize(value);
      address := sanitized;
      dirtyByteSize := true;
    }

    /** Clear: no arguments; both caches are dropped; the payload array is kept. */
    method Clear()
      requires Valid()
      modifies this
      ensures Valid() && Args() == [] && address == old(address) && argsData == old(argsData)
      ensures dirtyByteSize && dirtyAddressHash
    {
      argsByteCount := 0;
      argsCount := 0;
      dirtyByteSize := true;
      dirtyAddressHash := true;
    }

    /** Count: the number of arguments. */
    method Count() returns (n: nat)
      requires Valid()
      ensures n == |Args()|
    {
      return argsCount;
    }

    /**
     * RemoveAt: out of range nothing happens; otherwise the argument goes,
     * the later ones move one place down and their bytes move onto its run.
     */
    method RemoveAt(index: int)
      requires Valid()
      modifies this, argsData
      ensures Valid() && address == old(address)
      ensures !(0 <= index < old(|Args()|)) ==> unchanged(this) && argsData[..] == old(argsData[..])
      ensures 0 <= index < old(|Args()|) ==> Args() == Removed(old(Args()), index) && dirtyByteSize
      ensures dirtyAddressHash == old(dirtyAddressHash) && addressHash == old(addressHash)
    {
      if index < 0 || index >= argsCount {
        return;
      }
      RemovedWellFormed(Args(), index);
      var infos, byteCount := RemoveRecord(argsInfo, argsCount, argsByteCount, argsData, index);
      argsInfo := infos;
      argsCount := argsCount - 1;
      argsByteCount := byteCount;
      dirtyByteSize := true;
    }
  
    /**
     * AdaptiveSet: make argument `index` a record like `info`, filling any
     * gap with Null arguments, and return where its bytes start.  The other
     * arguments keep their bytes; the argument's own bytes are left for the
     * caller to write.  When the tag and the size are those already stored
     * nothing changes.  The cached size is dropped whenever the count or the
     * payload size changes.
     */
    method AdaptiveSet(index: nat, info: OscArgInfo) returns (start: nat)
      requires Valid() && InSync(info) && info.argType != Unsupported && info.byteCount >= 0
      requires argsByteCount + info.byteCount <= MAX_ARRAY_LENGTH
      modifies this, argsData
      ensures Laid() && SizeCacheSound() && HashCacheSound()
      ensures address == old(address) && dirtyAddressHash == old(dirtyAddressHash) && addressHash == old(addressHash)
      ensures argsCount == (if index < old(argsCount) then old(argsCount) else index + 1)
      ensures argsInfo[index] == info.(byteIndex := start)
      ensures Args() == Updated(old(Args()), index, Args()[index])
      ensures argsData == old(argsData) || fresh(argsData)
      ensures (index < old(argsCount) && old(argsInfo[index]).tagByte == info.tagByte
               && old(argsInfo[index]).byteCount == info.byteCount) ==>
              argsInfo == old(argsInfo) && argsByteCount == old(argsByteCount) && argsData == old(argsData)
              && argsData[..] == old(argsData[..]) && dirtyByteSize == old(dirtyByteSize)
      ensures dirtyByteSize == (old(dirtyByteSize) || argsCount != old(argsCount) || argsByteCount != old(argsByteCount))
    {
      if index < argsCount {
        WellFormedArgAt(Args(), index);
      }
      start := Place(index, info);
    }

    /** AdaptiveSet stated on the fields, for a message whose record at `index`, if any, agrees with its tag. */
    method Place(index: nat, info: OscArgInfo) returns (start: nat)
      requires Laid()
      requires InSync(info) && info.argType != Unsupported && info.byteCount >= 0
      requires index < argsCount ==> InSync(argsInfo[index])
      requires argsByteCount + info.byteCount <= MAX_ARRAY_LENGTH
      modifies this, argsData
      ensures Packed(argsInfo, argsCount) && argsByteCount == End(argsInfo, argsCount) <= argsData.Length <= MAX_ARRAY_LENGTH
      ensures address == old(address) && cachedByteSize == old(cachedByteSize)
      ensures dirtyAddressHash == old(dirtyAddressHash) && addressHash == old(addressHash)
      ensures argsCount == (if index < old(argsCount) then old(argsCount) else index + 1)
      ensures argsInfo[index] == info.(byteIndex := start)
      ensures ArgsOf(argsInfo, argsCount, argsData[..])
           == Updated(ArgsOf(old(argsInfo), old(argsCount), old(argsData[..])), index, ArgAt(argsInfo, argsCount, argsData[..], index))
      ensures argsData == old(argsData) || fresh(argsData)
      ensures (index < old(argsCount) && old(argsInfo[index]).tagByte == info.tagByte
               && old(argsInfo[index]).byteCount == info.byteCount) ==>
              argsInfo == old(argsInfo) && argsByteCount == old(argsByteCount) && argsData == old(argsData)
              && argsData[..] == old(argsData[..]) && dirtyByteSize == old(dirtyByteSize)
      ensures dirtyByteSize == (old(dirtyByteSize) || argsCount != old(argsCount) || argsByteCount != old(argsByteCount))
    {
      EndNonNegative(argsInfo, argsCount);
      var infos, count, byteCount, data, resized;
      infos, count, byteCount, data, start, resized := Adapt(argsInfo, argsCount, argsByteCount, argsData, index, info);
      argsInfo, argsCount, argsByteCount, argsData := infos, count, byteCount, data;
      if resized {
        dirtyByteSize := true;
      }
    }
  
    /* ---- Set and Add ---- */

    /** Set of a zero-size argument (Null, Impulse, True, False): placing the record is all. */
    method SetEmpty(index: nat, info: OscArgInfo)
      requires Valid() && FixedInfo(info) && info.byteCount == 0
      modifies this, argsData
      ensures Valid() && address == old(address)
      ensures Args() == Updated(old(Args()), index, Arg(info.tagByte, info.argType, []))
    {
      ghost var args0 := Args();
      var _ := AdaptiveSet(index, info);
      SetEmptyArg(argsInfo, argsCount, argsData[..], index, args0);
    }

    /** Set(index, bool): a True or False argument, with no bytes. */
    method SetBool(index: nat, value: bool)
      requires Valid()
      modifies this, argsData
      ensures Valid() && address == old(address)
      ensures Args() == Updated(old(Args()), index, Arg(if value then TAG_TRUE_BYTE else TAG_FALSE_BYTE, Bool, []))
    {
      SetEmpty(index, if value then BOOL_TRUE_INFO else BOOL_FALSE_INFO);
    }

    /** Set(index, OscNull): a Null argument. */
    method SetNull(index: nat)
      requires Valid()
      modifies this, argsData
      ensures Valid() && address == old(address)
      ensures Args() == Updated(old(Args()), index, NULL_ARG)
    {
      SetEmpty(index, NULL_INFO);
    }

    /** Set(index, OscImpulse): an Impulse argument. */
    method SetImpulse(index: nat)
      requires Valid()
      modifies this, argsData
      ensures Valid() && address == old(address)
      ensures Args() == Updated(old(Args()), index, Arg(TAG_IMPULSE_BYTE, Impulse, []))
    {
      SetEmpty(index, IMPULSE_INFO);
    }

    /**
     * Set of a four-byte argument (float, int, char, color, MIDI): place the
     * record, then write the value's bytes in wire order at its start.
     */
    method SetFourByte(index: nat, info: OscArgInfo, value: FourByteOscData.Data)
      requires Valid() && FixedInfo(info) && info.byteCount == 4
      requires argsByteCount + 4 <= MAX_ARRAY_LENGTH
      modifies this, argsData
      ensures Valid() && address == old(address)
      ensures Args() == Updated(old(Args()), index, Arg(info.tagByte, info.argType, OscDataBlock.ToWire(value, littleEndian)))
    {
      ghost var args0 := Args();
      var start := AdaptiveSet(index, info);
      WriteFourByteArg(argsInfo, argsCount, argsData, index, start, value, littleEndian, args0);
    }

    /** Set of an eight-byte argument (double, long, time tag). */
    method SetEightByte(index: nat, info: OscArgInfo, value: EightByteOscData.Data)
      requires Valid() && FixedInfo(info) && info.byteCount == 8
      requires argsByteCount + 8 <= MAX_ARRAY_LENGTH
      modifies this, argsData
      ensures Valid() && address == old(address)
      ensures Args() == Updated(old(Args()), index, Arg(info.tagByte, info.argType, OscDataBlock.ToWire(value, littleEndian)))
    {
      ghost var args0 := Args();
      var start := AdaptiveSet(index, info);
      WriteEightByteArg(argsInfo, argsCount, argsData, index, start, value, littleEndian, args0);
    }

    /** Set(index, float): the float's four in-memory bytes. */
    method SetFloat(index: nat, value: FourByteOscData.Data)
      requires Valid() && argsByteCount + 4 <= MAX_ARRAY_LENGTH
      modifies this, argsData
      ensures Valid() && address == old(address)
      ensures Args() == Updated(old(Args()), index, Arg(TAG_FLOAT_BYTE, Float, OscDataBlock.ToWire(value, littleEndian)))
    {
      SetFourByte(index, FLOAT_INFO, value);
    }

    /** Set(index, int): the int, big-endian on the wire. */
    method SetInt(index: nat, value: int32)
      requires Valid() && argsByteCount + 4 <= MAX_ARRAY_LENGTH
      modifies this, argsData
      ensures Valid() && address == old(address)
      ensures Args() == Updated(old(Args()), index, Arg(TAG_INT_BYTE, Int, BigEndian(Unsigned32(value), 4)))
    {
      SetFourByte(index, INT_INFO, FourByteOscData.FromInt(value, littleEndian));
    }

    /** Set(index, char): the ASCII code, or '?', in the last wire byte. */
    method SetChar(index: nat, value: char)
      requires Valid() && argsByteCount + 4 <= MAX_ARRAY_LENGTH
      modifies this, argsData
      ensures Valid() && address == old(address)
      ensures Args() == Updated(old(Args()), index, Arg(TAG_CHAR_BYTE, Char, [0, 0, 0, AsciiByte(value)]))
    {
      SetFourByte(index, CHAR_INFO, FourByteOscData.FromAsciiChar(value, littleEndian));
    }

    /** Set(index, Color32): the r, g, b, a bytes in field order. */
    method SetColor(index: nat, r: byte, g: byte, b: byte, a: byte)
      requires Valid() && argsByteCount + 4 <= MAX_ARRAY_LENGTH
      modifies this, argsData
      ensures Valid() && address == old(address)
      ensures Args() == Updated(old(Args()), index, Arg(TAG_COLOR_BYTE, Color, OscDataBlock.ToWire([r, g, b, a], littleEndian)))
    {
      SetFourByte(index, COLOR_INFO, [r, g, b, a]);
    }

    /** Set(index, OscMidiMessage): the port, status and data bytes in field order. */
    method SetMidi(index: nat, value: OscMidiMessage.OscMidiMessage)
      requires Valid() && argsByteCount + 4 <= MAX_ARRAY_LENGTH
      modifies this, argsData
      ensures Valid() && address == old(address)
      ensures Args() == Updated(old(Args()), index, Arg(TAG_MIDI_BYTE, Midi,
        OscDataBlock.ToWire([value.port, value.status, value.data1, value.data2], littleEndian)))
    {
      SetFourByte(index, MIDI_INFO, [value.port, value.status, value.data1, value.data2]);
    }

    /** Set(index, double): the double's eight in-memory bytes. */
    method SetDouble(index: nat, value: EightByteOscData.Data)
      requires Valid() && argsByteCount + 8 <= MAX_ARRAY_LENGTH
      modifies this, argsData
      ensures Valid() && address == old(address)
      ensures Args() == Updated(old(Args()), index, Arg(TAG_DOUBLE_BYTE, Double, OscDataBlock.ToWire(value, littleEndian)))
    {
      SetEightByte(index, DOUBLE_INFO, value);
    }

    /** Set(index, long): the long, big-endian on the wire. */
    method SetLong(index: nat, value: int64)
      requires Valid() && argsByteCount + 8 <= MAX_ARRAY_LENGTH
      modifies this, argsData
      ensures Valid() && address == old(address)
      ensures Args() == Updated(old(Args()), index, Arg(TAG_LONG_BYTE, Long, BigEndian(Unsigned64(value), 8)))
    {
      SetEightByte(index, LONG_INFO, EightByteOscData.FromLong(value, littleEndian));
    }

    /** Set(index, OscTimeTag): the time tag's 64-bit value, big-endian on the wire. */
    method SetTimeTag(index: nat, time: nat)
      requires Valid() && time < TWO_64 && argsByteCount + 8 <= MAX_ARRAY_LENGTH
      modifies this, argsData
      ensures Valid() && address == old(address)
      ensures Args() == Updated(old(Args()), index, Arg(TAG_TIMETAG_BYTE, TimeTag, BigEndian(time, 8)))
    {
      SetEightByte(index, TIME_TAG_INFO, EightByteOscData.FromUnsigned(time, littleEndian));
    }

    /** Set(index, string): the OSC-string for the text. */
    method SetString(index: nat, text: string)
      requires Valid() && argsByteCount + StringOscData.EvaluateByteCount(text) <= MAX_ARRAY_LENGTH
      modifies this, argsData
      ensures Valid() && address == old(address)
      ensures Args() == Updated(old(Args()), index, Arg(TAG_STRING_BYTE, String, StringOscData.Encode(text)))
    {
      ghost var args0 := Args();
      var info := Make(TAG_STRING_BYTE, String, StringOscData.EvaluateByteCount(text));
      var start := AdaptiveSet(index, info);
      WriteStringArg(argsInfo, argsCount, argsData, index, start, text, args0);
    }

    /** Set(index, byte[]): the OSC-blob for the bytes, written with the intended capacity check. */
    method SetBlob(index: nat, blob: seq<byte>)
      requires Valid() && |blob| < 0x8000_0000
      requires argsByteCount + BlobOscData.EvaluateByteCount(blob) <= MAX_ARRAY_LENGTH
      modifies this, argsData
      ensures Valid() && address == old(address)
      ensures Args() == Updated(old(Args()), index, Arg(TAG_BLOB_BYTE, Blob, BlobOscData.Encode(blob)))
    {
      ghost var args0 := Args();
      var info := Make(TAG_BLOB_BYTE, Blob, BlobOscData.EvaluateByteCount(blob));
      var start := AdaptiveSet(index, info);
      WriteBlobArg(argsInfo, argsCount, argsData, index, start, blob, littleEndian, args0);
    }
  
    /** Add(float): Set at Count(), which appends. */
    method AddFloat(value: FourByteOscData.Data)
      requires Valid() && argsByteCount + 4 <= MAX_ARRAY_LENGTH
      modifies this, argsData
      ensures Valid() && address == old(address)
      ensures Args() == old(Args()) + [Arg(TAG_FLOAT_BYTE, Float, OscDataBlock.ToWire(value, littleEndian))]
    {
      ghost var args0 := Args();
      SetFloat(argsCount, value);
      UpdatedAtEnd(args0, Arg(TAG_FLOAT_BYTE, Float, OscDataBlock.ToWire(value, littleEndian)));
    }

    /** Add(double): Set at Count(), which appends. */
    method AddDouble(value: EightByteOscData.Data)
      requires Valid() && argsByteCount + 8 <= MAX_ARRAY_LENGTH
      modifies this, argsData
      ensures Valid() && address == old(address)
      ensures Args() == old(Args()) + [Arg(TAG_DOUBLE_BYTE, Double, OscDataBlock.ToWire(value, littleEndian))]
    {
      ghost var args0 := Args();
      SetDouble(argsCount, value);
      UpdatedAtEnd(args0, Arg(TAG_DOUBLE_BYTE, Double, OscDataBlock.ToWire(value, littleEndian)));
    }

    /** Add(int): Set at Count(), which appends. */
    method AddInt(value: int32)
      requires Valid() && argsByteCount + 4 <= MAX_ARRAY_LENGTH
      modifies this, argsData
      ensures Valid() && address == old(address)
      ensures Args() == old(Args()) + [Arg(TAG_INT_BYTE, Int, BigEndian(Unsigned32(value), 4))]
    {
      ghost var args0 := Args();
      SetInt(argsCount, value);
      UpdatedAtEnd(args0, Arg(TAG_INT_BYTE, Int, BigEndian(Unsigned32(value), 4)));
    }

    /** Add(long): Set at Count(), which appends. */
    method AddLong(value: int64)
      requires Valid() && argsByteCount + 8 <= MAX_ARRAY_LENGTH
      modifies this, argsData
      ensures Valid() && address == old(address)
      ensures Args() == old(Args()) + [Arg(TAG_LONG_BYTE, Long, BigEndian(Unsigned64(value), 8))]
    {
      ghost var args0 := Args();
      SetLong(argsCount, value);
      UpdatedAtEnd(args0, Arg(TAG_LONG_BYTE, Long, BigEndian(Unsigned64(value), 8)));
    }

    /** Add(string): Set at Count(), which appends. */
    method AddString(text: string)
      requires Valid() && argsByteCount + StringOscData.EvaluateByteCount(text) <= MAX_ARRAY_LENGTH
      modifies this, argsData
      ensures Valid() && address == old(address)
      ensures Args() == old(Args()) + [Arg(TAG_STRING_BYTE, String, StringOscData.Encode(text))]
    {
      ghost var args0 := Args();
      SetString(argsCount, text);
      UpdatedAtEnd(args0, Arg(TAG_STRING_BYTE, String, StringOscData.Encode(text)));
    }

    /** Add(char): Set at Count(), which appends. */
    method AddChar(value: char)
      requires Valid() && argsByteCount + 4 <= MAX_ARRAY_LENGTH
      modifies this, argsData
      ensures Valid() && address == old(address)
      ensures Args() == old(Args()) + [Arg(TAG_CHAR_BYTE, Char, [0, 0, 0, AsciiByte(value)])]
    {
      ghost var args0 := Args();
      SetChar(argsCount, value);
      UpdatedAtEnd(args0, Arg(TAG_CHAR_BYTE, Char, [0, 0, 0, AsciiByte(value)]));
    }

    /** Add(bool): Set at Count(), which appends. */
    method AddBool(value: bool)
      requires Valid()
      modifies this, argsData
      ensures Valid() && address == old(address)
      ensures Args() == old(Args()) + [Arg(if value then TAG_TRUE_BYTE else TAG_FALSE_BYTE, Bool, [])]
    {
      ghost var args0 := Args();
      SetBool(argsCount, value);
      UpdatedAtEnd(args0, Arg(if value then TAG_TRUE_BYTE else TAG_FALSE_BYTE, Bool, []));
    }

    /** Add(Color32): Set at Count(), which appends. */
    method AddColor(r: byte, g: byte, b: byte, a: byte)
      requires Valid() && argsByteCount + 4 <= MAX_ARRAY_LENGTH
      modifies this, argsData
      ensures Valid() && address == old(address)
      ensures Args() == old(Args()) + [Arg(TAG_COLOR_BYTE, Color, OscDataBlock.ToWire([r, g, b, a], littleEndian))]
    {
      ghost var args0 := Args();
      SetColor(argsCount, r, g, b, a);
      UpdatedAtEnd(args0, Arg(TAG_COLOR_BYTE, Color, OscDataBlock.ToWire([r, g, b, a], littleEndian)));
    }

    /** Add(byte[]): Set at Count(), which appends. */
    method AddBlob(blob: seq<byte>)
      requires Valid() && |blob| < 0x8000_0000 && argsByteCount + BlobOscData.EvaluateByteCount(blob) <= MAX_ARRAY_LENGTH
      modifies this, argsData
      ensures Valid() && address == old(address)
      ensures Args() == old(Args()) + [Arg(TAG_BLOB_BYTE, Blob, BlobOscData.Encode(blob))]
    {
      ghost var args0 := Args();
      SetBlob(argsCount, blob);
      UpdatedAtEnd(args0, Arg(TAG_BLOB_BYTE, Blob, BlobOscData.Encode(blob)));
    }

    /** Add(OscTimeTag): Set at Count(), which appends. */
    method AddTimeTag(time: nat)
      requires Valid() && time < TWO_64 && argsByteCount + 8 <= MAX_ARRAY_LENGTH
      modifies this, argsData
      ensures Valid() && address == old(address)
      ensures Args() == old(Args()) + [Arg(TAG_TIMETAG_BYTE, TimeTag, BigEndian(time, 8))]
    {
      ghost var args0 := Args();
      SetTimeTag(argsCount, time);
      UpdatedAtEnd(args0, Arg(TAG_TIMETAG_BYTE, TimeTag, BigEndian(time, 8)));
    }

    /** Add(OscMidiMessage): Set at Count(), which appends. */
    method AddMidi(value: OscMidiMessage.OscMidiMessage)
      requires Valid() && argsByteCount + 4 <= MAX_ARRAY_LENGTH
      modifies this, argsData
      ensures Valid() && address == old(address)
      ensures Args() == old(Args()) + [Arg(TAG_MIDI_BYTE, Midi, OscDataBlock.ToWire([value.port, value.status, value.data1, value.data2], littleEndian))]
    {
      ghost var args0 := Args();
      SetMidi(argsCount, value);
      UpdatedAtEnd(args0, Arg(TAG_MIDI_BYTE, Midi, OscDataBlock.ToWire([value.port, value.status, value.data1, value.data2], littleEndian)));
    }

    /** Add(OscNull): Set at Count(), which appends. */
    method AddNull()
      requires Valid()
      modifies this, argsData
      ensures Valid() && address == old(address)
      ensures Args() == old(Args()) + [NULL_ARG]
    {
      ghost var args0 := Args();
      SetNull(argsCount);
      UpdatedAtEnd(args0, NULL_ARG);
    }

    /** Add(OscImpulse): Set at Count(), which appends. */
    method AddImpulse()
      requires Valid()
      modifies this, argsData
      ensures Valid() && address == old(address)
      ensures Args() == old(Args()) + [Arg(TAG_IMPULSE_BYTE, Impulse, [])]
    {
      ghost var args0 := Args();
      SetImpulse(argsCount);
      UpdatedAtEnd(args0, Arg(TAG_IMPULSE_BYTE, Impulse, []));
    }

    /* ---- Size, hash, serialisation ---- */

    /**
     * Size: the cached size when it is clean, otherwise the address
     * OSC-string, the ',' and the tags padded with at least one NUL to a
     * multiple of four, and the payload; the result is cached.
     */
    method Size() returns (size: nat)
      requires Valid()
      modifies this
      ensures Valid() && Args() == old(Args()) && address == old(address) && argsData == old(argsData)
      ensures dirtyAddressHash == old(dirtyAddressHash) && addressHash == old(addressHash)
      ensures size == MessageSize(address, |Args()|, |Payload(Args())|) && !dirtyByteSize
    {
      PayloadOfPacked(argsInfo, argsCount, argsData[..]);
      if !dirtyByteSize {
        return cachedByteSize;
      }
      var n := OscMessageWire.EvaluateSize(address, argsCount, argsByteCount);
      cachedByteSize := n;
      dirtyByteSize := false;
      size := n;
    }

    /** GetAddressHash: the cached hash when it is clean, otherwise the hash of the address, cached. */
    method GetAddressHash() returns (hash: uint32)
      requires Valid()
      modifies this
      ensures Valid() && Args() == old(Args()) && address == old(address) && argsData == old(argsData)
      ensures dirtyByteSize == old(dirtyByteSize) && cachedByteSize == old(cachedByteSize)
      ensures hash == OscStringHash.PackedText(address) && !dirtyAddressHash
    {
      if !dirtyAddressHash {
        return addressHash;
      }
      hash := OscStringHash.Pack(address);
      addressHash := hash;
      dirtyAddressHash := false;
    }

    /**
     * TryWriteTo: refuse, writing nothing, when the message does not fit
     * after `index`; otherwise write its wire bytes there and nothing else.
     */
    method TryWriteTo(data: array<byte>, index: nat) returns (ok: bool, next: nat)
      requires Valid() && data != argsData && index % 4 == 0
      modifies this, data
      ensures Valid() && Args() == old(Args()) && address == old(address) && argsData == old(argsData)
      ensures ok <==> index + |MessageWire(address, Args())| <= data.Length
      ensures ok ==> next == index + |MessageWire(address, Args())|
                     && OscDataBlock.WrittenAt(old(data[..]), data[..], index, MessageWire(address, Args()))
      ensures !ok ==> next == index && data[..] == old(data[..])
    {
      var size := Size();
      if index + size > data.Length {
        return false, index;
      }
      PayloadOfPacked(argsInfo, argsCount, argsData[..]);
      next := OscMessageWire.WriteMessage(address, argsInfo, argsCount, argsByteCount, argsData, data, index);
      ok := true;
    }

    /**
     * TryReadFrom into a message the pool handed out (cleared): read
     * the message at `index`.  An address that does not fit leaves the
     * message as it was; once the address is read it is stored, and a
     * missing ',' or a refused tag then fails with no arguments.  On
     * success the records and the payload are the parse's, the payload
     * array is replaced only when it is too small, and the size is cached
     * when `index` is 4-aligned (from an unaligned index the bytes consumed
     * are not the size, see UnalignedReadMiscachesSize).
     */
    method TryReadFrom(data: array<byte>, index: nat) returns (outcome: Outcome, next: nat)
      requires Valid() && Args() == [] && dirtyByteSize && dirtyAddressHash
      requires data != argsData && data.Length <= MAX_ARRAY_LENGTH
      modifies this, argsData
      ensures Valid() && dirtyAddressHash
      ensures var r := OscMessageParse.ParseMessage(data[..], index);
        && (r.Parsed? ==> outcome == Succeeded && next == r.next && address == r.address
                          && Args() == OscMessageParse.ParsedArgs(data[..], index)
                          && (dirtyByteSize <==> index % 4 != 0))
        && (!r.Parsed? ==> dirtyByteSize)
        && (r.Rejected? ==> outcome == Failed && next == r.next && Args() == [])
        && (r.Thrown? ==> outcome == Threw && Args() == [])
        && (!r.Parsed? ==> var read := OscMessageParse.AddressRead(data[..], index);
                           address == if read.Some? then read.value else old(address))
    {
      var r := OscMessageReader.ReadMessage(data, index, littleEndian);
      var read := OscMessageParse.AddressRead(data[..], index);
      if !r.Parsed? {
        if read.Some? {
          address := read.value;
        }
        return if r.Thrown? then Threw else Failed, if r.Rejected? then r.next else index;
      }
      ghost var source := data[..];
      OscMessageReader.ParsedLoad(source, index, r);
      Load(data, r.address, r.infos, r.argsStart, r.next - r.argsStart, index % 4 == 0, r.next - index,
           StringOscData.Between(source, r.argsStart, r.argsStart + (r.next - r.argsStart)), OscMessageParse.ParsedArgs(source, index));
      return Succeeded, r.next;
    }

    /**
     * The success path of TryReadFrom: copy the `total` payload bytes at
     * `argsStart`, take the address and the records, and cache the size
     * when the caller asks to.
     */
    method Load(data: array<byte>, address: string, infos: seq<OscArgInfo>, argsStart: nat, total: nat,
                cacheSize: bool, size: int, ghost payload: seq<byte>, ghost args: seq<Arg>)
      requires dirtyAddressHash && data != argsData && data.Length <= MAX_ARRAY_LENGTH && argsData.Length <= MAX_ARRAY_LENGTH
      requires Packed(infos, |infos|) && End(infos, |infos|) == total && (total == 0 || argsStart + total <= data.Length)
      requires payload == StringOscData.Between(data[..], argsStart, argsStart + total)
      requires args == ArgsOf(infos, |infos|, payload)
      requires WellFormedArgs(args)
      requires cacheSize ==> size == MessageSize(address, |infos|, total)
      modifies this, argsData
      ensures Valid() && dirtyAddressHash
      ensures this.address == address && Args() == args
      ensures !dirtyByteSize <==> cacheSize
      ensures cacheSize ==> cachedByteSize == size
    {
      var copy := OscMessageReader.CopyPayload(data, argsStart, total, argsData);
      OscMessageReader.ArgsOfCopy(infos, total, copy[..], payload);
      argsData := copy;
      this.address := address;
      argsInfo := infos;
      argsCount := |infos|;
      argsByteCount := total;
      dirtyByteSize := !cacheSize;
      if cacheSize {
        cachedByteSize := size;
      }
    }

    /* ---- TryGet ---- */

    /** TryGetArgType: the stored type, or Unsupported out of range. */
    method TryGetArgType(index: int) returns (ok: bool, argType: OscArgType)
      requires Valid()
      ensures ok <==> 0 <= index < |Args()|
      ensures ok ==> argType == Args()[index].argType
      ensures !ok ==> argType == Unsupported
    {
      if index < 0 || index >= argsCount {
        return false, Unsupported;
      }
      return true, argsInfo[index].argType;
    }

    /** TryGetArgTag: the stored tag as a character, or '?' out of range. */
    method TryGetArgTag(index: int) returns (ok: bool, tag: char)
      requires Valid()
      ensures ok <==> 0 <= index < |Args()|
      ensures ok ==> tag as int == Args()[index].tagByte
      ensures !ok ==> tag as int == TAG_UNSUPPORTED_BYTE
    {
      if index < 0 || index >= argsCount {
        return false, TAG_UNSUPPORTED_BYTE as char;
      }
      return true, argsInfo[index].tagByte as char;
    }

    /** TryGetArgSize: the number of payload bytes of the argument, or 0 out of range. */
    method TryGetArgSize(index: int) returns (ok: bool, size: int)
      requires Valid()
      ensures ok <==> 0 <= index < |Args()|
      ensures ok ==> size == |Args()[index].bytes|
      ensures !ok ==> size == 0
    {
      if index < 0 || index >= argsCount {
        return false, 0;
      }
      return true, argsInfo[index].byteCount;
    }

    /**
     * ValidateTryGet: the index in range, the stored type the one asked
     * for, and the argument's bytes within the payload.  The last test is
     * made on the argument's byte offset (see ValidateTryGetAsWritten for
     * the test on its index); on a valid message it always passes.
     */
    method ValidateTryGet(index: int, requested: OscArgType) returns (ok: bool)
      requires Valid()
      ensures ok <==> 0 <= index < |Args()| && Args()[index].argType == requested
    {
      if index < 0 || index >= argsCount {
        return false;
      }
      ValidateTryGetOnPacked(argsInfo, argsCount, index, requested);
      var info := argsInfo[index];
      ok := requested == info.argType && info.byteIndex + info.byteCount <= argsByteCount;
    }

    /** The four-byte read shared by the float, int, char, colour and MIDI overloads. */
    method TryGetFourByte(index: int, requested: OscArgType) returns (ok: bool, value: FourByteOscData.Data)
      requires Valid() && FixedByteCount(requested) == 4
      ensures ok <==> 0 <= index < |Args()| && Args()[index].argType == requested
      ensures ok ==> OscDataBlock.ToWire(value, littleEndian) == Args()[index].bytes
      ensures !ok ==> value == Zeros(4)
    {
      ok := ValidateTryGet(index, requested);
      if !ok {
        return false, Zeros(4);
      }
      WellFormedArgAt(Args(), index);
      value := ReadFourByteArg(argsInfo, argsCount, argsData, index, littleEndian);
    }

    /** The eight-byte read shared by the double, long and time tag overloads. */
    method TryGetEightByte(index: int, requested: OscArgType) returns (ok: bool, value: EightByteOscData.Data)
      requires Valid() && FixedByteCount(requested) == 8
      ensures ok <==> 0 <= index < |Args()| && Args()[index].argType == requested
      ensures ok ==> OscDataBlock.ToWire(value, littleEndian) == Args()[index].bytes
      ensures !ok ==> value == Zeros(8)
    {
      ok := ValidateTryGet(index, requested);
      if !ok {
        return false, Zeros(8);
      }
      WellFormedArgAt(Args(), index);
      value := ReadEightByteArg(argsInfo, argsCount, argsData, index, littleEndian);
    }

    /** TryGet(index, out float): the float's in-memory bytes; zero on failure. */
    method TryGetFloat(index: int) returns (ok: bool, value: FourByteOscData.Data)
      requires Valid()
      ensures ok <==> 0 <= index < |Args()| && Args()[index].argType == Float
      ensures ok ==> OscDataBlock.ToWire(value, littleEndian) == Args()[index].bytes
      ensures !ok ==> value == Zeros(4)
    {
      ok, value := TryGetFourByte(index, Float);
    }

    /** TryGet(index, out int): the big-endian int of the argument's bytes; 0 on failure. */
    method TryGetInt(index: int) returns (ok: bool, value: int32)
      requires Valid()
      ensures ok <==> 0 <= index < |Args()| && Args()[index].argType == Int
      ensures ok ==> |Args()[index].bytes| == 4 && value == FourByteOscData.IntFromWire(Args()[index].bytes)
      ensures !ok ==> value == 0
    {
      var d;
      ok, d := TryGetFourByte(index, Int);
      if !ok {
        return false, 0;
      }
      value := FourByteOscData.IntValue(d, littleEndian);
    }

    /** TryGet(index, out char): the character in the last wire byte; '?' on failure. */
    method TryGetChar(index: int) returns (ok: bool, value: char)
      requires Valid()
      ensures ok <==> 0 <= index < |Args()| && Args()[index].argType == Char
      ensures ok ==> |Args()[index].bytes| == 4 && value as int == Args()[index].bytes[3]
      ensures !ok ==> value as int == TAG_UNSUPPORTED_BYTE
    {
      var d;
      ok, d := TryGetFourByte(index, Char);
      if !ok {
        return false, TAG_UNSUPPORTED_BYTE as char;
      }
      OscDataBlock.LittleEndianReversesBlock(d, 3);
      value := FourByteOscData.CharValueOf(d, littleEndian);
    }

    /** TryGet(index, out bool): true exactly when the tag is 'T'; false on failure. */
    method TryGetBool(index: int) returns (ok: bool, value: bool)
      requires Valid()
      ensures ok <==> 0 <= index < |Args()| && Args()[index].argType == Bool
      ensures value <==> ok && Args()[index].tagByte == TAG_TRUE_BYTE
    {
      ok := ValidateTryGet(index, Bool);
      if !ok {
        return false, false;
      }
      value := argsInfo[index].tagByte == TAG_TRUE_BYTE;
    }

    /** TryGet(index, out Color32): the r, g, b, a bytes; all zero on failure. */
    method TryGetColor(index: int) returns (ok: bool, value: FourByteOscData.Data)
      requires Valid()
      ensures ok <==> 0 <= index < |Args()| && Args()[index].argType == Color
      ensures ok ==> OscDataBlock.ToWire(value, littleEndian) == Args()[index].bytes
      ensures !ok ==> value == Zeros(4)
    {
      ok, value := TryGetFourByte(index, Color);
    }

    /** TryGet(index, out OscMidiMessage): port, status and data bytes; all zero on failure. */
    method TryGetMidi(index: int) returns (ok: bool, value: OscMidiMessage.OscMidiMessage)
      requires Valid()
      ensures ok <==> 0 <= index < |Args()| && Args()[index].argType == Midi
      ensures ok ==> OscDataBlock.ToWire([value.port, value.status, value.data1, value.data2], littleEndian)
                     == Args()[index].bytes
      ensures !ok ==> value == OscMidiMessage.DEFAULT
    {
      var d;
      ok, d := TryGetFourByte(index, Midi);
      value := OscMidiMessage.OscMidiMessage(d[0], d[1], d[2], d[3]);
      assert [value.port, value.status, value.data1, value.data2] == d;
    }

    /** TryGet(index, out double): the double's in-memory bytes; zero on failure. */
    method TryGetDouble(index: int) returns (ok: bool, value: EightByteOscData.Data)
      requires Valid()
      ensures ok <==> 0 <= index < |Args()| && Args()[index].argType == Double
      ensures ok ==> OscDataBlock.ToWire(value, littleEndian) == Args()[index].bytes
      ensures !ok ==> value == Zeros(8)
    {
      ok, value := TryGetEightByte(index, Double);
    }

    /** TryGet(index, out long): the big-endian two's complement long; 0 on failure. */
    method TryGetLong(index: int) returns (ok: bool, value: int64)
      requires Valid()
      ensures ok <==> 0 <= index < |Args()| && Args()[index].argType == Long
      ensures ok ==> |Args()[index].bytes| == 8 && Unsigned64(value) == BigEndianValue(Args()[index].bytes)
      ensures !ok ==> value == 0
    {
      var d;
      ok, d := TryGetEightByte(index, Long);
      if !ok {
        return false, 0;
      }
      value := EightByteOscData.LongValue(d, littleEndian);
    }

    /** TryGet(index, out OscTimeTag): the unsigned 64-bit big-endian value; 0 on failure. */
    method TryGetTimeTag(index: int) returns (ok: bool, time: nat)
      requires Valid()
      ensures ok <==> 0 <= index < |Args()| && Args()[index].argType == TimeTag
      ensures ok ==> |Args()[index].bytes| == 8 && time == BigEndianValue(Args()[index].bytes)
      ensures !ok ==> time == 0
    {
      var d;
      ok, d := TryGetEightByte(index, TimeTag);
      if !ok {
        return false, 0;
      }
      time := EightByteOscData.UnsignedValue(d, littleEndian);
    }

    /**
     * TryGet(index, ref string): the text up to the argument's NUL, bytes
     * above 127 read as '?'; the empty string on failure.
     */
    method TryGetString(index: int, originalText: string) returns (ok: bool, text: string)
      requires Valid()
      ensures ok <==> 0 <= index < |Args()| && Args()[index].argType == String
      ensures ok ==> text == StringOscData.Scanned(Args()[index].bytes, 0)
      ensures !ok ==> text == ""
    {
      ok := ValidateTryGet(index, String);
      if !ok {
        return false, "";
      }
      WellFormedArgAt(Args(), index);
      text := ReadStringArg(argsInfo, argsCount, argsData, index, originalText);
    }

    /** TryGet(index, ref byte[]): the bytes after the size prefix; null on failure. */
    method TryGetBlob(index: int) returns (ok: bool, blob: Option<seq<byte>>)
      requires Valid()
      ensures ok <==> 0 <= index < |Args()| && Args()[index].argType == Blob
      ensures ok ==> var bytes := Args()[index].bytes;
        4 <= |bytes| && 0 <= BlobOscData.PrefixAt(bytes, 0) && 4 + BlobOscData.PrefixAt(bytes, 0) <= |bytes|
        && blob == Some(bytes[4..4 + BlobOscData.PrefixAt(bytes, 0)])
      ensures !ok ==> blob == None
    {
      ok := ValidateTryGet(index, Blob);
      if !ok {
        return false, None;
      }
      WellFormedArgAt(Args(), index);
      var bytes := ReadBlobArg(argsInfo, argsCount, argsData, index, littleEndian);
      blob := Some(bytes);
    }

    /** TryGet(index, OscNull): whether the argument is a Null. */
    method TryGetNull(index: int) returns (ok: bool)
      requires Valid()
      ensures ok <==> 0 <= index < |Args()| && Args()[index].argType == Null
    {
      ok := ValidateTryGet(index, Null);
    }

    /** TryGet(index, OscImpulse): whether the argument is an Impulse. */
    method TryGetImpulse(index: int) returns (ok: bool)
      requires Valid()
      ensures ok <==> 0 <= index < |Args()| && Args()[index].argType == Impulse
    {
      ok := ValidateTryGet(index, Impulse);
    }
  }
}
