/**
 * OscTypes: the argument types and the OSC type-tag bytes of OSC simpl,
 * with the fixed bytes of the packet formats.
 */
module OscTypes {
  import opened Bytes

  /** The argument types OSC simpl supports. */
  datatype OscArgType =
    | Null | Impulse | Bool
    | Float | Int | Char | Color | Midi
    | Double | Long | TimeTag
    | String | Blob
    | Unsupported

  const BUNDLE_PREFIX_BYTE: byte := 35       // '#'
  const ADDRESS_PREFIX_BYTE: byte := 47      // '/'
  const TAG_PREFIX_BYTE: byte := 44          // ','
  const TAG_UNSUPPORTED_BYTE: byte := 63     // '?'

  const TAG_NULL_BYTE: byte := 78            // 'N'
  const TAG_IMPULSE_BYTE: byte := 73         // 'I'
  const TAG_TRUE_BYTE: byte := 84            // 'T'
  const TAG_FALSE_BYTE: byte := 70           // 'F'
  const TAG_FLOAT_BYTE: byte := 102          // 'f'
  const TAG_INT_BYTE: byte := 105            // 'i'
  const TAG_CHAR_BYTE: byte := 99            // 'c'
  const TAG_COLOR_BYTE: byte := 114          // 'r'
  const TAG_MIDI_BYTE: byte := 109           // 'm'
  const TAG_DOUBLE_BYTE: byte := 100         // 'd'
  const TAG_LONG_BYTE: byte := 104           // 'h'
  const TAG_TIMETAG_BYTE: byte := 116        // 't'
  const TAG_STRING_BYTE: byte := 115         // 's'
  const TAG_SYMBOL_BYTE: byte := 83          // 'S'
  const TAG_BLOB_BYTE: byte := 98            // 'b'

  /** "#bundle" and its NUL: the first eight bytes of every bundle. */
  const BUNDLE_PREFIX_BYTES: seq<byte> := [35, 98, 117, 110, 100, 108, 101, 0]

  /** Prefix plus time tag. */
  const BUNDLE_HEADER_SIZE: nat := 16
}

/** OscConverter: between type-tag bytes and argument types. */
module OscConverter {
  import opened Bytes
  import opened OscTypes

  /** The fifteen tag bytes OSC simpl reads. */
  predicate IsSupportedTag(b: byte)
  {
    b in {TAG_NULL_BYTE, TAG_IMPULSE_BYTE, TAG_TRUE_BYTE, TAG_FALSE_BYTE, TAG_FLOAT_BYTE, TAG_INT_BYTE,
          TAG_CHAR_BYTE, TAG_COLOR_BYTE, TAG_MIDI_BYTE, TAG_DOUBLE_BYTE, TAG_LONG_BYTE, TAG_TIMETAG_BYTE,
          TAG_STRING_BYTE, TAG_SYMBOL_BYTE, TAG_BLOB_BYTE}
  }

  /** ToArgType: 'T' and 'F' are both Bool, 's' and 'S' both String, anything else unlisted Unsupported. */
  function ToArgType(tagByte: byte): (t: OscArgType)
  {
    if tagByte == TAG_NULL_BYTE then Null
    else if tagByte == TAG_IMPULSE_BYTE then Impulse
    else if tagByte == TAG_TRUE_BYTE || tagByte == TAG_FALSE_BYTE then Bool
    else if tagByte == TAG_FLOAT_BYTE then Float
    else if tagByte == TAG_INT_BYTE then Int
    else if tagByte == TAG_CHAR_BYTE then Char
    else if tagByte == TAG_COLOR_BYTE then Color
    else if tagByte == TAG_MIDI_BYTE then Midi
    else if tagByte == TAG_DOUBLE_BYTE then Double
    else if tagByte == TAG_LONG_BYTE then Long
    else if tagByte == TAG_TIMETAG_BYTE then TimeTag
    else if tagByte == TAG_SYMBOL_BYTE || tagByte == TAG_STRING_BYTE then String
    else if tagByte == TAG_BLOB_BYTE then Blob
    else Unsupported
  }

  /** ToArgType refuses exactly the unlisted tags, and folds 'T'/'F' into Bool and 's'/'S' into String. */
  lemma ToArgTypeClassifies(tagByte: byte)
    ensures ToArgType(tagByte) == Unsupported <==> !IsSupportedTag(tagByte)
    ensures ToArgType(tagByte) == Bool <==> tagByte == TAG_TRUE_BYTE || tagByte == TAG_FALSE_BYTE
    ensures ToArgType(tagByte) == String <==> tagByte == TAG_STRING_BYTE || tagByte == TAG_SYMBOL_BYTE
  {
  }

  /** ToTagByte: Bool is written as 'F' and Unsupported as '?'. */
  function ToTagByte(argType: OscArgType): (b: byte)
    ensures argType == Bool ==> b == TAG_FALSE_BYTE
    ensures argType == Unsupported <==> b == TAG_UNSUPPORTED_BYTE
    ensures argType != Unsupported ==> IsSupportedTag(b)
  {
    match argType
    case Null => TAG_NULL_BYTE
    case Impulse => TAG_IMPULSE_BYTE
    case Bool => TAG_FALSE_BYTE
    case Float => TAG_FLOAT_BYTE
    case Int => TAG_INT_BYTE
    case Char => TAG_CHAR_BYTE
    case Color => TAG_COLOR_BYTE
    case Midi => TAG_MIDI_BYTE
    case Double => TAG_DOUBLE_BYTE
    case Long => TAG_LONG_BYTE
    case TimeTag => TAG_TIMETAG_BYTE
    case String => TAG_STRING_BYTE
    case Blob => TAG_BLOB_BYTE
    case Unsupported => TAG_UNSUPPORTED_BYTE
  }

  /** Every type survives the trip through its tag byte. */
  lemma ArgTypeRoundTrip(t: OscArgType)
    ensures ToArgType(ToTagByte(t)) == t
  {
  }

  /** Every tag byte survives the trip through its type, except 'T', 'S' and unknown bytes. */
  lemma TagByteRoundTrip(b: byte)
    ensures ToTagByte(ToArgType(b)) == (if b == TAG_TRUE_BYTE then TAG_FALSE_BYTE
                                        else if b == TAG_SYMBOL_BYTE then TAG_STRING_BYTE
                                        else if !IsSupportedTag(b) then TAG_UNSUPPORTED_BYTE
                                        else b)
  {
  }
}

/** OscArgInfo: the per-argument record of a message, and its standard values. */
module OscArgInfo {
  import opened Bytes
  import opened OscTypes
  import OscConverter

  /**
   * Tag byte, type, the number of payload bytes and where they start in the
   * message's payload.  (The source stores the two counts as 16-bit shorts.)
   */
  datatype OscArgInfo = OscArgInfo(tagByte: byte, argType: OscArgType, byteCount: int, byteIndex: int)

  /** The constructor; byteIndex defaults to 0. */
  function Make(tagByte: byte, argType: OscArgType, byteCount: int): (info: OscArgInfo)
    ensures info.byteIndex == 0 && info.tagByte == tagByte && info.argType == argType && info.byteCount == byteCount
  {
    OscArgInfo(tagByte, argType, byteCount, 0)
  }

  const NULL_INFO: OscArgInfo := Make(TAG_NULL_BYTE, Null, 0)
  const IMPULSE_INFO: OscArgInfo := Make(TAG_IMPULSE_BYTE, Impulse, 0)
  const BOOL_TRUE_INFO: OscArgInfo := Make(TAG_TRUE_BYTE, Bool, 0)
  const BOOL_FALSE_INFO: OscArgInfo := Make(TAG_FALSE_BYTE, Bool, 0)
  const FLOAT_INFO: OscArgInfo := Make(TAG_FLOAT_BYTE, Float, 4)
  const INT_INFO: OscArgInfo := Make(TAG_INT_BYTE, Int, 4)
  const CHAR_INFO: OscArgInfo := Make(TAG_CHAR_BYTE, Char, 4)
  const COLOR_INFO: OscArgInfo := Make(TAG_COLOR_BYTE, Color, 4)
  const MIDI_INFO: OscArgInfo := Make(TAG_MIDI_BYTE, Midi, 4)
  const DOUBLE_INFO: OscArgInfo := Make(TAG_DOUBLE_BYTE, Double, 8)
  const LONG_INFO: OscArgInfo := Make(TAG_LONG_BYTE, Long, 8)
  const TIME_TAG_INFO: OscArgInfo := Make(TAG_TIMETAG_BYTE, TimeTag, 8)
  // Blobs carry a 4-byte size prefix in front of the payload.
  const EIGHT_BYTE_BLOB_INFO: OscArgInfo := Make(TAG_BLOB_BYTE, Blob, 4 + 8)
  const TWELVE_BYTE_BLOB_INFO: OscArgInfo := Make(TAG_BLOB_BYTE, Blob, 4 + 12)
  const SIXTEEN_BYTE_BLOB_INFO: OscArgInfo := Make(TAG_BLOB_BYTE, Blob, 4 + 16)
  const SIXTYFOUR_BYTE_BLOB_INFO: OscArgInfo := Make(TAG_BLOB_BYTE, Blob, 4 + 64)
  const UNDEFINED_INFO: OscArgInfo := Make(TAG_UNSUPPORTED_BYTE, Unsupported, 0)

  /** The tag byte and the type agree. */
  predicate InSync(info: OscArgInfo)
  {
    OscConverter.ToArgType(info.tagByte) == info.argType
  }

  /** The payload size a fixed-size type always has: 0, 4 or 8 bytes. */
  function FixedByteCount(t: OscArgType): (n: int)
    ensures n in {0, 4, 8}
  {
    match t
    case Float | Int | Char | Color | Midi => 4
    case Double | Long | TimeTag => 8
    case _ => 0
  }
}
