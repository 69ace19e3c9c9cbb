/**
 * OscBaseMessages: the message class of the older, list-based engine.  It
 * keeps one record per argument (a tag byte and a size) in a list and the
 * argument bytes back to back in a second list, and caches its serialised
 * size and the lossy hash of its address.  `Args()` reads the two lists as
 * the arguments of the current engine, so both classes are proved against
 * the same layout functions.
 */
module OscBaseMessages {
  import opened Bytes
  import opened Wrappers
  import opened OscTypes
  import opened OscArgInfo
  import opened OscMessageLayout
  import opened OscListMessages
  import OscDataBlock
  import OscConverter
  import StringOscData
  import OscAddress
  import OscMessageWire
  import OscMessageParse
  import LossyOscStringHash

  class OscMessage {
    var address: string
    var argInfo: seq<ListArgInfo>
    var argData: seq<byte>
    var dirtySize: bool
    var cachedSize: int
    var dirtyAddressHash: bool
    var addressHash: int32
    /** The host's byte order, which the blob size read depends on. */
    const littleEndian: bool

    /** The payload list holds exactly the bytes the records account for. */
    predicate Laid()
      reads this
    {
      OscListMessages.Laid(argInfo, argData)
    }

    /** The arguments the message holds. */
    function Args(): (args: seq<Arg>)
      requires Laid()
      reads this
      ensures |args| == |argInfo|
    {
      ListArgs(argInfo, argData)
    }

    /** A cached size is the size of the message. */
    predicate SizeCacheSound()
      reads this
    {
      !dirtySize ==> cachedSize == MessageSize(address, |argInfo|, |argData|)
    }

    /** A cached hash is the lossy hash of the address. */
    predicate HashCacheSound()
      reads this
    {
      !dirtyAddressHash ==> |Utf16(address)| < 0x8000_0000 && addressHash == LossyOscStringHash.PackedText(address)
    }

    /** The invariant every public operation keeps. */
    predicate Valid()
      reads this
    {
      Laid() && SizeCacheSound() && HashCacheSound()
    }

    /** `new OscMessage(address)`: no arguments; the address is stored as given, without sanitising. */
    constructor(address: string, littleEndian: bool)
      ensures Valid() && Args() == [] && this.address == address && this.littleEndian == littleEndian
      ensures dirtySize && dirtyAddressHash
    {
      this.address := address;
      argInfo := [];
      argData := [];
      dirtySize := true;
      cachedSize := 0;
      dirtyAddressHash := true;
      addressHash := 0;
      this.littleEndian := littleEndian;
    }

    /** The address setter as intended: sanitise, store, and drop the cached size and hash. */
    method SetAddress(value: string)
      requires Valid()
      modifies this
      ensures Valid() && Args() == old(Args())
      ensures address == OscAddress.Sanitized(value) && dirtySize && dirtyAddressHash
    {
      var sanitized := OscAddress.Sanitize(value);
      address := sanitized;
      dirtySize := true;
      dirtyAddressHash := true;
    }

    /**
     * The address setter as written: only the size is dropped, so a hash
     * computed before the change is returned after it.
     */
    method SetAddressKeepingHash(value: string)
      requires Valid()
      modifies this
      ensures Laid() && Args() == old(Args()) && SizeCacheSound()
      ensures address == OscAddress.Sanitized(value) && dirtySize
      ensures dirtyAddressHash == old(dirtyAddressHash) && addressHash == old(addressHash)
    {
      var sanitized := OscAddress.Sanitize(value);
      address := sanitized;
      dirtySize := true;
    }

    /** Clear: both lists emptied, both caches dropped. */
    method Clear()
      requires Valid()
      modifies this
      ensures Valid() && Args() == [] && address == old(address) && cachedSize == old(cachedSize)
      ensures dirtySize && dirtyAddressHash
    {
      argData := [];
      argInfo := [];
      dirtySize := true;
      dirtyAddressHash := true;
    }

    /** Count: the number of arguments. */
    method Count() returns (n: nat)
      requires Valid()
      ensures n == |Args()|
    {
      return |argInfo|;
    }

    /**
     * GetDataIndex: where the bytes of argument `argIndex` start in the
     * payload list, which is where the bytes of the arguments before it end.
     */
    method GetDataIndex(argIndex: nat) returns (start: nat)
      requires Valid() && argIndex <= |argInfo|
      ensures start == |Payload(Args()[..argIndex])|
      ensures argIndex < |argInfo| ==>
        start + argInfo[argIndex].size <= |argData| && Args()[argIndex].bytes == argData[start..start + argInfo[argIndex].size]
      ensures argIndex == |argInfo| ==> start == |argData|
    {
      var sum := SumSizes(argInfo, argIndex);
      ListArgStart(argInfo, argData, argIndex);
      if argIndex < |argInfo| {
        ListArgAt(argInfo, argData, argIndex);
      }
      start := sum;
    }

    /**
     * AdaptiveSet: make argument `index` a record like `info`, filling any
     * gap with Null arguments, and return where its bytes start.  The other
     * arguments keep their bytes; the argument's own bytes are left for the
     * caller to write.  When the record is already `info` nothing changes.
     */
    method AdaptiveSet(index: nat, info: ListArgInfo) returns (start: nat)
      requires Valid() && info.size >= 0 && info.tagByte != TAG_UNSUPPORTED_BYTE
      modifies this
      ensures Valid() && address == old(address)
      ensures dirtyAddressHash == old(dirtyAddressHash) && addressHash == old(addressHash)
      ensures index < |argInfo| && argInfo[index] == info
      ensures start + info.size <= |argData| && Args()[index].bytes == argData[start..start + info.size]
      ensures start == |Payload(old(Args())[..if index < old(|argInfo|) then index else old(|argInfo|)])|
      ensures SameInfo(old(argInfo), index, info) ==>
              argInfo == old(argInfo) && argData == old(argData) && dirtySize == old(dirtySize)
      ensures !SameInfo(old(argInfo), index, info) ==>
              argInfo == Padded(old(argInfo), index)[index := info] && UpdatedAt(old(Args()), Args(), index, info) && dirtySize
    {
      var infos, data, changed;
      infos, data, start, changed := Place(argInfo, argData, index, info);
      argInfo, argData := infos, data;
      if changed {
        dirtySize := true;
      }
    }

    /**
     * RemoveAt: out of range nothing happens; otherwise the argument goes,
     * the later ones move one place down and the bytes after its run move
     * onto it.
     */
    method RemoveAt(index: int)
      requires Valid()
      modifies this
      ensures Valid() && address == old(address)
      ensures dirtyAddressHash == old(dirtyAddressHash) && addressHash == old(addressHash)
      ensures !(0 <= index < old(|Args()|)) ==> unchanged(this)
      ensures 0 <= index < old(|Args()|) ==>
        argInfo == Without(old(argInfo), index) && Args() == Removed(old(Args()), index) && dirtySize
    {
      if index < 0 || index >= |argInfo| {
        return;
      }
      var infos, data := RemoveRecord(argInfo, argData, index);
      argInfo, argData := infos, data;
      dirtySize := true;
    }

    /**
     * Size: the cached size when it is clean, otherwise the size of the
     * address, the tag section and the payload, stored in the cache.  The
     * cache is not marked clean here; TryWriteTo and TryReadFrom do that.
     */
    method Size() returns (size: nat)
      requires Valid()
      modifies this
      ensures Valid() && argInfo == old(argInfo) && argData == old(argData) && address == old(address)
      ensures dirtySize == old(dirtySize) && dirtyAddressHash == old(dirtyAddressHash) && addressHash == old(addressHash)
      ensures size == |MessageWire(address, Args())| && cachedSize == size
    {
      ListWire(address, argInfo, argData);
      if !dirtySize {
        return cachedSize;
      }
      var sum := SumSizes(argInfo, |argInfo|);
      var n := OscMessageWire.EvaluateSize(address, |argInfo|, sum);
      cachedSize := n;
      size := n;
    }

    /** GetAddressHash: the cached hash when it is clean, otherwise the lossy hash of the address, cached. */
    method GetAddressHash() returns (hash: int32)
      requires Valid() && |Utf16(address)| < 0x8000_0000
      modifies this
      ensures Valid() && argInfo == old(argInfo) && argData == old(argData) && address == old(address)
      ensures dirtySize == old(dirtySize) && cachedSize == old(cachedSize)
      ensures hash == LossyOscStringHash.PackedText(address) && !dirtyAddressHash
    {
      if !dirtyAddressHash {
        return addressHash;
      }
      hash := LossyOscStringHash.Pack(address);
      addressHash := hash;
      dirtyAddressHash := false;
    }

    /**
     * TryWriteTo: refuse, writing nothing, when the message does not fit
     * after `index`; otherwise write the address, the tag section and the
     * payload list there, which are the message's wire bytes, and cache
     * the size.
     */
    method TryWriteTo(data: array<byte>, index: nat) returns (ok: bool, next: nat)
      requires Valid() && index % 4 == 0
      modifies this, data
      ensures Valid() && argInfo == old(argInfo) && argData == old(argData) && address == old(address)
      ensures dirtyAddressHash == old(dirtyAddressHash) && addressHash == old(addressHash)
      ensures ok <==> index + |MessageWire(address, Args())| <= data.Length
      ensures ok ==> next == index + |MessageWire(address, Args())| && !dirtySize
                     && OscDataBlock.WrittenAt(old(data[..]), data[..], index, MessageWire(address, Args()))
      ensures !ok ==> next == index && data[..] == old(data[..])
    {
      var size := Size();
      if index + size > data.Length {
        return false, index;
      }
      ListWire(address, argInfo, argData);
      ghost var head := StringOscData.Encode(address) + OscMessageWire.TagSection(Layout(argInfo), |argInfo|);
      ghost var d0 := data[..];
      var afterHead := OscMessageWire.WriteHead(address, Layout(argInfo), |argInfo|, data, index);
      ghost var d1 := data[..];
      CopyTo(argData, data, afterHead);
      OscDataBlock.WrittenAtThen(d0, d1, data[..], index, head, argData);
      next := afterHead + |argData|;
      cachedSize := size;
      dirtySize := false;
      ok := true;
    }

    /**
     * ValidateTryGet as intended: the index in range, the type of the
     * stored tag the one asked for, and the argument's run within the
     * payload list, which on a valid message always holds.
     */
    method ValidateTryGet(index: int, requested: OscArgType) returns (ok: bool)
      requires Valid()
      ensures ok <==> 0 <= index < |Args()| && Args()[index].argType == requested
    {
      if index < 0 || index >= |argInfo| {
        return false;
      }
      var info := argInfo[index];
      var argType := OscConverter.ToArgType(info.tagByte);
      if requested != argType {
        ListArgAt(argInfo, argData, index);
        return false;
      }
      var start := GetDataIndex(index);
      ok := start + info.size <= |argData|;
    }

    /**
     * ValidateTryGet as written: the run is checked from the argument's
     * index instead of its start, which refuses a valid argument whose
     * index plus size passes the payload's end.
     */
    method ValidateTryGetAsWritten(index: int, requested: OscArgType) returns (ok: bool)
      requires Valid()
      ensures ok == OscMessageLayout.ValidateTryGetAsWritten(Layout(argInfo), |argInfo|, |argData|, index, requested)
      ensures ok ==> 0 <= index < |Args()| && Args()[index].argType == requested
    {
      if index < 0 || index >= |argInfo| {
        return false;
      }
      var info := argInfo[index];
      var argType := OscConverter.ToArgType(info.tagByte);
      ListArgAt(argInfo, argData, index);
      ok := requested == argType && index + info.size <= |argData|;
    }

    /**
     * TryReadFrom into a given message, as written.  The arguments are
     * cleared only when there are some, so with none the cached hash of the
     * old address survives the new one.  An address that does not fit
     * leaves the address as it was; once it is read it is stored.  A
     * refused tag leaves the records read so far, sized up to the refused
     * one, with no payload; a copy that runs off the buffer leaves the
     * bytes before the end.  On success the two lists hold the parse's
     * arguments and the bytes consumed are cached as the size.
     */
    method TryReadFromAsWritten(data: array<byte>, index: nat) returns (outcome: Outcome, next: nat)
      requires Valid() && data.Length <= MAX_ARRAY_LENGTH
      modifies this
      ensures old(|argInfo|) > 0 ==> dirtyAddressHash
      ensures old(|argInfo|) == 0 ==> dirtyAddressHash == old(dirtyAddressHash) && addressHash == old(addressHash)
      ensures var l := ListReadOf(data[..], index);
        && (l.AddressRefused? ==> outcome == Failed && next == index && address == old(address))
        && (!l.AddressRefused? ==> address == l.address)
        && (l.PrefixThrown? ==> outcome == Threw)
        && (l.PrefixMissing? ==> outcome == Failed && next == l.at)
        && (l.TagRefused? ==> outcome == Failed && next == l.argsStart && argInfo == l.infos && argData == [])
        && (l.PayloadThrown? ==> outcome == Threw && argInfo == l.infos && argData == l.partial)
        && (l.AddressRefused? || l.PrefixThrown? || l.PrefixMissing? ==> argInfo == [] && argData == [])
        && (!l.ListParsed? ==> dirtySize == (old(dirtySize) || old(|argInfo|) > 0) && cachedSize == old(cachedSize))
        && (l.ListParsed? ==> outcome == Succeeded && next == l.next && argInfo == l.infos && argData == l.payload
                              && !dirtySize && cachedSize == l.next - index)
      ensures ListReadOf(data[..], index).ListParsed? ==>
        OscMessageParse.ParseMessage(data[..], index).Parsed?
        && Laid() && Args() == OscMessageParse.ParsedArgs(data[..], index)
    {
      if |argInfo| > 0 {
        Clear();
      }
      assert SizeSum(argInfo, 0) == 0;
      var res := ReadList(data, index, address, littleEndian);
      outcome, next := Store(res, index);
      if res.ListParsed? {
        ParsedListArgs(data[..], index);
      }
    }

    /**
     * What TryReadFrom as written leaves in a message with no arguments:
     * the address once it is read, the records and the payload as far as
     * the read got, and on success the bytes consumed as the cached size.
     */
    method Store(res: ListRead, index: nat) returns (outcome: Outcome, next: nat)
      requires argInfo == [] && argData == []
      modifies this
      ensures dirtyAddressHash == old(dirtyAddressHash) && addressHash == old(addressHash)
      ensures res.AddressRefused? ==> outcome == Failed && next == index && address == old(address)
      ensures !res.AddressRefused? ==> address == res.address
      ensures res.PrefixThrown? ==> outcome == Threw
      ensures res.PrefixMissing? ==> outcome == Failed && next == res.at
      ensures res.TagRefused? ==> outcome == Failed && next == res.argsStart && argInfo == res.infos && argData == []
      ensures res.PayloadThrown? ==> outcome == Threw && argInfo == res.infos && argData == res.partial
      ensures res.AddressRefused? || res.PrefixThrown? || res.PrefixMissing? ==> argInfo == [] && argData == []
      ensures !res.ListParsed? ==> dirtySize == old(dirtySize) && cachedSize == old(cachedSize)
      ensures res.ListParsed? ==> outcome == Succeeded && next == res.next && argInfo == res.infos && argData == res.payload
                                  && !dirtySize && cachedSize == res.next - index
    {
      match res
      case AddressRefused =>
        return Failed, index;
      case PrefixThrown(a) =>
        address := a;
        return Threw, index;
      case PrefixMissing(a, at) =>
        address := a;
        return Failed, at;
      case TagRefused(a, infos, at) =>
        address, argInfo := a, infos;
        return Failed, at;
      case PayloadThrown(a, infos, partial) =>
        address, argInfo, argData := a, infos, partial;
        return Threw, index;
      case ListParsed(a, infos, payload, n) =>
        address, argInfo, argData := a, infos, payload;
        cachedSize := n - index;
        dirtySize := false;
        return Succeeded, n;
    }

    /**
     * TryReadFrom as intended: the message is always cleared, and a read
     * that fails or throws leaves it with no arguments.  An address that
     * does not fit leaves the address as it was; once it is read it is
     * stored.  On success the two lists hold the parse's arguments, and the
     * size is cached when `index` is 4-aligned (from an unaligned index the
     * bytes consumed are not the size, see UnalignedReadMiscachesSize).
     */
    method TryReadFrom(data: array<byte>, index: nat) returns (outcome: Outcome, next: nat)
      requires Valid() && data.Length <= MAX_ARRAY_LENGTH
      modifies this
      ensures Valid() && dirtyAddressHash
      ensures var r := OscMessageParse.ParseMessage(data[..], index);
        && (r.Parsed? ==> outcome == Succeeded && next == r.next && address == r.address
                          && Args() == OscMessageParse.ParsedArgs(data[..], index)
                          && (dirtySize <==> index % 4 != 0))
        && (!r.Parsed? ==> Args() == [] && dirtySize)
        && (r.Rejected? ==> outcome == Failed)
        && (r.Thrown? ==> outcome == Threw)
      ensures var read := OscMessageParse.AddressRead(data[..], index);
        && (read.None? ==> next == index && address == old(address))
        && (read.Some? ==> address == read.value)
        && (read.Some? && OscMessageParse.ParseMessage(data[..], index).Rejected? ==>
              next == OscMessageParse.ParseMessage(data[..], index).next)
    {
      Clear();
      var res := ReadList(data, index, address, littleEndian);
      ListReadAgrees(data[..], index);
      match res
      case AddressRefused =>
        return Failed, index;
      case PrefixThrown(a) =>
        address := a;
        return Threw, index;
      case PrefixMissing(a, at) =>
        address := a;
        return Failed, at;
      case TagRefused(a, _, at) =>
        address := a;
        return Failed, at;
      case PayloadThrown(a, _, _) =>
        address := a;
        return Threw, index;
      case ListParsed(a, infos, payload, n) =>
        ParsedListArgs(data[..], index);
        address, argInfo, argData := a, infos, payload;
        if index % 4 == 0 {
          cachedSize := n - index;
          dirtySize := false;
        }
        return Succeeded, n;
    }
  }
}
