# OscSimpl OSC engine, modelled in Dafny

This project models the Open Sound Control (OSC 1.0) engine that the Orbit
Unity project carries under `Orbit/Assets/OscSimpl`: the byte codecs for
OSC's atomic types, address hashing, sanitising and pattern matching, the
`OscMessage` argument list with its byte buffer and per-argument records,
`OscBundle` and the one-byte packet dispatch, the recycling pool, the
serialised message buffer, the tag and MIDI conversions and the
garbage-free integer formatting.  The current copy of the library lives in
`Runtime/`; where the older copy in `Base/` has logic of its own (the
list-based message, the older bundle reader, the length-and-sum address
hash, the converter and the MIDI message) that is modelled too.

The model follows the source's own form.  Code that edits arrays in place
(the fixed-width codecs, the string and blob codecs, the message's argument
buffer, the bundle writer and reader, the pool, the serialised buffer and
the string builder) is written as Dafny methods over `array<byte>` and
classes whose fields the methods update, each method proved against a
specification function on values.  Pure mappings (the converter, the MIDI
status decoding, the argument records, packet sizes and encodings) are
functions with lemmas.

What is proved, in outline:

- every fixed-width codec writes exactly its bytes big-endian on either host
  byte order, touches nothing else, and reads back what it wrote;
- OSC-strings and OSC-blobs are NUL-padded or length-prefixed to a multiple
  of four, and round-trip for ASCII text and for any blob;
- the string hash loops compute the hash function they are specified by,
  the byte overload agrees with the string overload for written addresses,
  and the older hash packs the length and the byte sum and unpacks them;
- the address matcher is symmetric in its two arguments and plain addresses
  match exactly when they are equal;
- with the corrected record bookkeeping (see "## Findings"), after every
  edit of a message (Set, Add, RemoveAt, Clear, TryReadFrom) its records
  are packed (each argument's bytes start where the previous argument's
  end) and the payload holds exactly the arguments' bytes; the bookkeeping
  as written is modelled beside it and shown to leave records unpacked or
  to throw;
  `Size()` is the length of the bytes `TryWriteTo` writes, and reading
  those bytes back gives the same address and arguments;
- a bundle's size is its header plus a length and the bytes of every
  non-null child; writing raises nested time tags to their parent's, never
  lowers one, and changes no size; what `OscBundle.TryWriteTo` writes,
  `OscPacket.TryReadFrom` reads back as the same packet without its null
  children;
- the pool never holds more than 1000 buckets of 1000 messages and 1001
  bundles and keeps its message count equal to what it holds;
- the integer formatters append exactly the decimal text of the value,
  which reads back as the value.

Host byte order (`BitConverter.IsLittleEndian`) is a parameter of the
model.  The clock (`DateTime.Now`) is a parameter where a new bundle needs
it.  C# `int` arithmetic that can wrap is written out with `Wrap32`, and
C#'s truncating division with `CsDiv`, and C#'s cast to `short` with
`Short`.  The address hashes and the pattern matcher see a C# string as
its UTF-16 code units (`Utf16`), as the source's `text[i]` and `text.Length`
do; the OSC-string codec works per character, which agrees within the
Basic Multilingual Plane (see "## Left out").  Most
exceptions the source can throw on the data path are modelled as an outcome
(`Throws`, `Threw`); the few that a precondition or a `nat` parameter
excludes instead are listed under "## Left out".

Where the code does something its authors evidently did not intend, the
model states what the code does in one member, proves the discrepancy on a
concrete input, and uses a corrected member elsewhere (see "## Findings").

## Model

| member | source | states |
|---|---|---|
| OscDataBlock.WireRoundTrip | Orbit/Assets/OscSimpl/Runtime/Base/Internal/OscData/FourByteOscData.cs:39-52 | on either host, the bytes TryWriteTo emits for what the byte constructor stored are the wire bytes it was given |
| OscDataBlock.MemRoundTrip | Orbit/Assets/OscSimpl/Runtime/Base/Internal/OscData/FourByteOscData.cs:71-99 | reading back what TryWriteTo wrote restores the same in-memory bytes, on either host |
| OscDataBlock.LittleEndianReversesBlock | Orbit/Assets/OscSimpl/Runtime/Base/Internal/OscData/FourByteOscData.cs:82-99 | a little-endian host writes the in-memory bytes in reverse order, a big-endian host in order |
| OscDataBlock.ReadBlock | Orbit/Assets/OscSimpl/Runtime/Base/Internal/OscData/FourByteOscData.cs:71-79 | the shared read: fails with a zeroed value and the index unchanged when fewer than the width remain, otherwise takes the bytes and advances by the width |
| OscDataBlock.WriteBlock | Orbit/Assets/OscSimpl/Runtime/Base/Internal/OscData/FourByteOscData.cs:82-99 | the shared write: fails without writing when fewer than the width remain, otherwise writes exactly the wire bytes at `index`, nothing else, and advances by the width |
| FourByteOscData.FromBytes | Orbit/Assets/OscSimpl/Runtime/Base/Internal/OscData/FourByteOscData.cs:39-52 | the byte constructor: the stored bytes write back as the given wire bytes; a little-endian host stores them reversed |
| FourByteOscData.IntValueFromBytes | Orbit/Assets/OscSimpl/Runtime/Base/Internal/OscData/FourByteOscData.cs:33-52 | four wire bytes read on either host give the big-endian int |
| FourByteOscData.FromInt | Orbit/Assets/OscSimpl/Runtime/Base/Internal/OscData/FourByteOscData.cs:56 | the int constructor: intValue gives the int back and the wire form is its big-endian 32-bit pattern |
| FourByteOscData.FromChar | Orbit/Assets/OscSimpl/Runtime/Base/Internal/OscData/FourByteOscData.cs:61-68 | the char constructor as written: the code is cast to a byte first, so only codes whose low byte is above 127 become '?'; the other bytes are 0 |
| FourByteOscData.CharValue | Orbit/Assets/OscSimpl/Runtime/Base/Internal/OscData/FourByteOscData.cs:34 | charValue is the first in-memory byte as a character |
| FourByteOscData.FromCharTruncates | Orbit/Assets/OscSimpl/Runtime/Base/Internal/OscData/FourByteOscData.cs:61-68 | 'Ł' (U+0141) comes out as 'A' as written and as '?' when the ASCII test is made before the cast |
| FourByteOscData.FromAsciiChar | Orbit/Assets/OscSimpl/Runtime/Base/Internal/OscData/FourByteOscData.cs:61-68 | the char constructor as intended: any code above 127 is '?', and the wire form is three zeros and the ASCII byte |
| FourByteOscData.TryReadFrom | Orbit/Assets/OscSimpl/Runtime/Base/Internal/OscData/FourByteOscData.cs:71-79 | succeeds exactly when four bytes remain; then the value is the byte constructor of them and the index advances by 4; otherwise a zero value and the index unchanged |
| FourByteOscData.TryWriteTo | Orbit/Assets/OscSimpl/Runtime/Base/Internal/OscData/FourByteOscData.cs:82-99 | succeeds exactly when four bytes remain; then writes the value's wire bytes and nothing else; otherwise writes nothing |
| FourByteOscData.IntRoundTrip | Orbit/Assets/OscSimpl/Runtime/Base/Internal/OscData/FourByteOscData.cs:56-99 | an int written and read back is the same int, on either host |
| FourByteOscData.IntWireHostIndependent | Orbit/Assets/OscSimpl/Runtime/Base/Internal/OscData/FourByteOscData.cs:56-99 | the wire bytes of an int are the same on both hosts: its big-endian pattern |
| EightByteOscData.FromBytes | Orbit/Assets/OscSimpl/Runtime/Base/Internal/OscData/EightByteOscData.cs:44-65 | the byte constructor: the stored bytes write back as the given wire bytes; a little-endian host stores them reversed |
| EightByteOscData.FromUnsigned | Orbit/Assets/OscSimpl/Runtime/Base/Internal/OscData/EightByteOscData.cs:70 | a 64-bit pattern (the time tag) laid out in host order reads back as itself and is big-endian on the wire |
| EightByteOscData.FromLong | Orbit/Assets/OscSimpl/Runtime/Base/Internal/OscData/EightByteOscData.cs:69 | the long constructor: longValue gives the long back and the wire form is its big-endian 64-bit pattern |
| EightByteOscData.TryReadFrom | Orbit/Assets/OscSimpl/Runtime/Base/Internal/OscData/EightByteOscData.cs:75-83 | succeeds exactly when eight bytes remain; then the value is the byte constructor of them and the index advances by 8; otherwise a zero value and the index unchanged |
| EightByteOscData.TryWriteTo | Orbit/Assets/OscSimpl/Runtime/Base/Internal/OscData/EightByteOscData.cs:86-111 | succeeds exactly when eight bytes remain; then writes the value's wire bytes and nothing else; otherwise writes nothing |
| EightByteOscData.LongRoundTrip | Orbit/Assets/OscSimpl/Runtime/Base/Internal/OscData/EightByteOscData.cs:69-111 | a long written and read back is the same long, on either host |
| EightByteOscData.LongWireHostIndependent | Orbit/Assets/OscSimpl/Runtime/Base/Internal/OscData/EightByteOscData.cs:69-111 | the wire bytes of a long are the same on both hosts: its big-endian pattern |
| TwelveByteOscData.FromBytes | Orbit/Assets/OscSimpl/Runtime/Base/Internal/OscData/TwelveByteOscData.cs:40-75 | the byte constructor: byte i in memory is wire byte 11 - i on a little-endian host and wire byte i otherwise |
| TwelveByteOscData.TryReadFrom | Orbit/Assets/OscSimpl/Runtime/Base/Internal/OscData/TwelveByteOscData.cs:83-95 | succeeds exactly when twelve bytes remain; then the value is the byte constructor of them and the index advances by 12; otherwise a zero value and the index unchanged |
| TwelveByteOscData.TryWriteTo | Orbit/Assets/OscSimpl/Runtime/Base/Internal/OscData/TwelveByteOscData.cs:99-132 | succeeds exactly when twelve bytes remain; then writes the value's wire bytes and nothing else; otherwise writes nothing |
| TwelveByteOscData.ReadAfterWrite | Orbit/Assets/OscSimpl/Runtime/Base/Internal/OscData/TwelveByteOscData.cs:83-132 | what TryWriteTo writes reads back as the same twelve bytes |
| SixteenByteOscData.FromBytes | Orbit/Assets/OscSimpl/Runtime/Base/Internal/OscData/SixteenByteOscData.cs:48-90 | the byte constructor: byte i in memory is wire byte 15 - i on a little-endian host and wire byte i otherwise |
| SixteenByteOscData.TryReadFrom | Orbit/Assets/OscSimpl/Runtime/Base/Internal/OscData/SixteenByteOscData.cs:99-112 | succeeds exactly when sixteen bytes remain; then the value is the byte constructor of them and the index advances by 16; otherwise a zero value and the index unchanged |
| SixteenByteOscData.TryWriteTo | Orbit/Assets/OscSimpl/Runtime/Base/Internal/OscData/SixteenByteOscData.cs:116-157 | succeeds exactly when sixteen bytes remain; then writes the value's wire bytes and nothing else; otherwise writes nothing |
| SixteenByteOscData.ReadAfterWrite | Orbit/Assets/OscSimpl/Runtime/Base/Internal/OscData/SixteenByteOscData.cs:99-157 | what TryWriteTo writes reads back as the same sixteen bytes |
| SixtyfourByteOscData.FromBytes | Orbit/Assets/OscSimpl/Runtime/Base/Internal/OscData/SixtyfourByteOscData.cs:92-230 | the byte constructor: byte i in memory is wire byte 63 - i on a little-endian host and wire byte i otherwise |
| SixtyfourByteOscData.TryReadFrom | Orbit/Assets/OscSimpl/Runtime/Base/Internal/OscData/SixtyfourByteOscData.cs:236-261 | succeeds exactly when sixty-four bytes remain; then the value is the byte constructor of them and the index advances by 64; otherwise a zero value and the index unchanged |
| SixtyfourByteOscData.TryWriteTo | Orbit/Assets/OscSimpl/Runtime/Base/Internal/OscData/SixtyfourByteOscData.cs:264-401 | succeeds exactly when sixty-four bytes remain; then writes the value's wire bytes and nothing else; otherwise writes nothing |
| SixtyfourByteOscData.ReadAfterWrite | Orbit/Assets/OscSimpl/Runtime/Base/Internal/OscData/SixtyfourByteOscData.cs:236-401 | what TryWriteTo writes reads back as the same sixty-four bytes |
| StringOscData.Padding | Orbit/Assets/OscSimpl/Runtime/Base/Internal/OscData/StringOscData.cs:23-26 | between one and four NULs, bringing the length to a multiple of four |
| StringOscData.EvaluateByteCount | Orbit/Assets/OscSimpl/Runtime/Base/Internal/OscData/StringOscData.cs:23-26 | a multiple of four, longer than the text by one to four bytes, and the length of the encoded string |
| StringOscData.EncodeAscii | Orbit/Assets/OscSimpl/Runtime/Base/Internal/OscData/StringOscData.cs:117-130 | one byte per character, the ASCII code or '?' above 127 |
| StringOscData.BmpByteCount | Orbit/Assets/OscSimpl/Runtime/Base/Internal/OscData/StringOscData.cs:23-26 | within the Basic Multilingual Plane the size counted per character is the size the source counts per UTF-16 code unit |
| StringOscData.AstralTextSizedApart | Orbit/Assets/OscSimpl/Runtime/Base/Internal/OscData/StringOscData.cs:23-26 | for "a\U{1F600}b" the per-character size is 4 while the source's per-code-unit size is 8 |
| StringOscData.DecodeAscii | Orbit/Assets/OscSimpl/Runtime/Base/Internal/OscData/StringOscData.cs:40-88 | one character per byte, the byte itself below 128 and '?' otherwise |
| StringOscData.Encode | Orbit/Assets/OscSimpl/Runtime/Base/Internal/OscData/StringOscData.cs:117-130 | the OSC-string is a multiple of four bytes and one to four bytes longer than the text |
| StringOscData.RunLength | Orbit/Assets/OscSimpl/Runtime/Base/Internal/OscData/StringOscData.cs:29-37 | the run from `from` holds no NUL and ends at a NUL or at the end of the data |
| StringOscData.EvaluateByteCountAt | Orbit/Assets/OscSimpl/Runtime/Base/Internal/OscData/StringOscData.cs:29-37 | the length of the non-NUL run plus its padding: a multiple of four beyond the run |
| StringOscData.ScanText | Orbit/Assets/OscSimpl/Runtime/Base/Internal/OscData/StringOscData.cs:40-88 | the scan loop reads the text the run carries, and reports a change exactly when the old text is empty or not a prefix-compatible match |
| StringOscData.ScannedRun | Orbit/Assets/OscSimpl/Runtime/Base/Internal/OscData/StringOscData.cs:40-88 | a maximal run of non-NUL bytes decodes to what Scanned reads and has its length |
| StringOscData.TryReadFrom | Orbit/Assets/OscSimpl/Runtime/Base/Internal/OscData/StringOscData.cs:40-88 | as written: succeeds exactly when the run and its padding fit; on success the text is the scanned one unless it is a prefix of the previous text, which is kept; on failure the text is empty and the index stops after the run |
| StringOscData.PrefixTextIsKept | Orbit/Assets/OscSimpl/Runtime/Base/Internal/OscData/StringOscData.cs:40-88 | TryReadFrom of the OSC-string "ab", in an 8-byte buffer, into a string holding "abcd" succeeds and keeps "abcd", where the corrected TryReadText gives "ab" |
| StringOscData.TryReadText | Orbit/Assets/OscSimpl/Runtime/Base/Internal/OscData/StringOscData.cs:40-88 | as intended: on success the text is exactly the scanned text, whatever was there before |
| StringOscData.ReadFromAndAppendTo | Orbit/Assets/OscSimpl/Runtime/Base/Internal/OscData/StringOscData.cs:91-114 | appends the scanned text, quoted if asked, and advances past the run and its padding |
| StringOscData.TryWriteTo | Orbit/Assets/OscSimpl/Runtime/Base/Internal/OscData/StringOscData.cs:117-130 | succeeds exactly when the OSC-string fits; then writes its ASCII bytes and NUL padding and nothing else; otherwise writes nothing |
| StringOscData.WrittenStringReadsBack | Orbit/Assets/OscSimpl/Runtime/Base/Internal/OscData/StringOscData.cs:40-130 | a NUL-free ASCII text written as an OSC-string scans back as the same text and length |
| StringOscData.RoundTrip | Orbit/Assets/OscSimpl/Runtime/Base/Internal/OscData/StringOscData.cs:23-130 | a NUL-free ASCII text written and read back gives the same text and consumes exactly EvaluateByteCount bytes |
| FourByteOscData.FromCharBigEndianHost | Orbit/Assets/OscSimpl/Runtime/Base/Internal/OscData/FourByteOscData.cs:34-68 | on a big-endian host the char constructor as written puts the code in the first wire byte, while the intended int form puts it in the last; and `charValue` reads the first wire byte, so [0,0,0,97] reads as NUL where the intended reader gives 'a' (Findings row 22) |
| EightByteOscData.UnsignedValue | Orbit/Assets/OscSimpl/Runtime/Base/Internal/OscData/EightByteOscData.cs:70 | the time-tag view of the eight bytes is an unsigned 64-bit value |
| StringOscData.Scanned | Orbit/Assets/OscSimpl/Runtime/Base/Internal/OscData/StringOscData.cs:40-88 | the scanned text is exactly as long as the run of non-NUL bytes |
| BlobOscData.RoundUp4 | Orbit/Assets/OscSimpl/Runtime/Base/Internal/OscData/BlobOscData.cs:26-30 | the smallest multiple of four not below n |
| BlobOscData.EvaluateByteCount | Orbit/Assets/OscSimpl/Runtime/Base/Internal/OscData/BlobOscData.cs:26-30 | four bytes of prefix plus the blob padded to a multiple of four: a multiple of four, between 4 and 7 bytes more than the blob |
| BlobOscData.Encode | Orbit/Assets/OscSimpl/Runtime/Base/Internal/OscData/BlobOscData.cs:345-356 | the OSC-blob is EvaluateByteCount long, starts with the blob's size big-endian and then carries the blob |
| BlobOscData.PaddedSizeAsWritten | Orbit/Assets/OscSimpl/Runtime/Base/Internal/OscData/BlobOscData.cs:46-63 | the padded size computed in 32-bit ints: the rounded-up size for sizes that do not overflow, and 0 for sizes from -6 to -1 |
| BlobOscData.ValidPrefixAccepted | Orbit/Assets/OscSimpl/Runtime/Base/Internal/OscData/BlobOscData.cs:46-63 | within the largest .NET array, every non-negative prefix whose padded payload fits also passes the guard as written |
| BlobOscData.TryEvaluateByteCount | Orbit/Assets/OscSimpl/Runtime/Base/Internal/OscData/BlobOscData.cs:46-63 | succeeds exactly when the prefix fits and its padded payload, computed with 32-bit wrap-around, fits; then gives prefix plus padded payload with wrap-around; otherwise 0 |
| BlobOscData.EvaluateWrittenBlob | Orbit/Assets/OscSimpl/Runtime/Base/Internal/OscData/BlobOscData.cs:26-63 | for a blob written whole, TryEvaluateByteCount accepts it and gives EvaluateByteCount, and the blob bytes follow the prefix |
| BlobOscData.PrefixOfWrittenBlob | Orbit/Assets/OscSimpl/Runtime/Base/Internal/OscData/BlobOscData.cs:69-89 | the prefix of a written blob reads back as its length, followed by its bytes |
| BlobOscData.TryReadAndEvaluateByteCountPrefix | Orbit/Assets/OscSimpl/Runtime/Base/Internal/OscData/BlobOscData.cs:69-89 | succeeds under the same check as TryEvaluateByteCount and then returns the raw prefix; otherwise 0 |
| BlobOscData.TryReadFrom | Orbit/Assets/OscSimpl/Runtime/Base/Internal/OscData/BlobOscData.cs:92-109 | as written: fails with null and the index kept exactly when the guard refuses; an accepted prefix that is negative or runs past the end throws; otherwise returns the bytes and advances past the padding |
| BlobOscData.NegativePrefixAccepted | Orbit/Assets/OscSimpl/Runtime/Base/Internal/OscData/BlobOscData.cs:46-109 | a size prefix of -1 passes the guard though it is not a valid size, so the read throws |
| BlobOscData.HugePrefixAccepted | Orbit/Assets/OscSimpl/Runtime/Base/Internal/OscData/BlobOscData.cs:46-109 | a size prefix of 0x7FFFFFFC wraps the guard and passes it with only eight bytes of data |
| BlobOscData.TryReadBlob | Orbit/Assets/OscSimpl/Runtime/Base/Internal/OscData/BlobOscData.cs:92-109 | as intended: succeeds exactly when the prefix is non-negative and the padded payload fits, returns those bytes and advances past the padding; never throws |
| BlobOscData.BlobRoundTrip | Orbit/Assets/OscSimpl/Runtime/Base/Internal/OscData/BlobOscData.cs:92-109 | a blob written at a 4-aligned index reads back as the same bytes, and the index ends EvaluateByteCount bytes later |
| BlobOscData.RoundUp4Unique | Orbit/Assets/OscSimpl/Runtime/Base/Internal/OscData/BlobOscData.cs:26-30 | the rounded-up size is the only multiple of four in [n, n+4) |
| BlobOscData.WriteBlobBody | Orbit/Assets/OscSimpl/Runtime/Base/Internal/OscData/BlobOscData.cs:345-356 | after the guard: fails without writing when the prefix does not fit; succeeds when the whole blob fits; otherwise throws part way, having written exactly a prefix of the encoding |
| BlobOscData.WriteZeros | Orbit/Assets/OscSimpl/Runtime/Base/Internal/OscData/BlobOscData.cs:345-356 | the padding loop writes zeros from `from` and stops at the end of the array when they do not all fit |
| BlobOscData.TryWriteTo | Orbit/Assets/OscSimpl/Runtime/Base/Internal/OscData/BlobOscData.cs:345-356 | as written: succeeds only when the blob ends exactly at the end of the array; refuses when there is room to spare; otherwise throws part way through, having written a prefix of the encoding |
| BlobOscData.TryWriteBlob | Orbit/Assets/OscSimpl/Runtime/Base/Internal/OscData/BlobOscData.cs:345-356 | as intended: succeeds exactly when the blob fits, then writes its encoding and nothing else; otherwise writes nothing |
| BlobOscData.RoomToSpareRefused | Orbit/Assets/OscSimpl/Runtime/Base/Internal/OscData/BlobOscData.cs:345-356 | the writer as written refuses a 4-byte blob at index 0 of a 16-byte buffer, where it fits, while the corrected writer writes it; in a 4-byte buffer the guard lets it through and the copy throws |
| BlobOscData.ReadFixedWidth | Orbit/Assets/OscSimpl/Runtime/Base/Internal/OscData/BlobOscData.cs:112-269 | the vector, quaternion, rect and matrix reads: after the prefix check, succeed exactly when the payload of the type's width fits, and read it as the width's value; the prefix's own value is ignored |
| BlobOscData.WriteFixedWidth | Orbit/Assets/OscSimpl/Runtime/Base/Internal/OscData/BlobOscData.cs:359-420 | the fixed-width writes: succeed exactly when prefix and payload fit, and write the width as prefix then the payload; when only the prefix fits, it is written and the write fails |
| BlobOscData.FixedWidthPrefix | Orbit/Assets/OscSimpl/Runtime/Base/Internal/OscData/BlobOscData.cs:112-269 | the prefix a fixed-width write leaves passes the read's check and is the width |
| BlobOscData.FixedWidthRoundTrip | Orbit/Assets/OscSimpl/Runtime/Base/Internal/OscData/BlobOscData.cs:112-269 | a fixed-width value written as a blob reads back as the same in-memory bytes |
| BlobOscData.ConcatWire | Orbit/Assets/OscSimpl/Runtime/Base/Internal/OscData/BlobOscData.cs:423-438 | the values of a list take four bytes each |
| BlobOscData.ConcatWireAt | Orbit/Assets/OscSimpl/Runtime/Base/Internal/OscData/BlobOscData.cs:423-438 | the k-th four bytes of a written list are the k-th value's wire bytes |
| BlobOscData.WriteFourByteList | Orbit/Assets/OscSimpl/Runtime/Base/Internal/OscData/BlobOscData.cs:423-438 | the float and int list writes: succeed exactly when prefix and all values fit and then write the list; when only some fit, the prefix and as many whole values as fit are written |
| BlobOscData.ListCount | Orbit/Assets/OscSimpl/Runtime/Base/Internal/OscData/BlobOscData.cs:272-321 | the number of values a prefix announces is the prefix divided by four, truncating; none for a negative prefix |
| BlobOscData.ListFit | Orbit/Assets/OscSimpl/Runtime/Base/Internal/OscData/BlobOscData.cs:272-321 | as many values as are announced and fit in the room left |
| BlobOscData.ReadFourByteList | Orbit/Assets/OscSimpl/Runtime/Base/Internal/OscData/BlobOscData.cs:272-321 | the float and int list reads: after the prefix check, read the values that fit and succeed exactly when all announced values fit; the index ends after the last value read |
| BlobOscData.ReadValues | Orbit/Assets/OscSimpl/Runtime/Base/Internal/OscData/BlobOscData.cs:272-321 | the reading loop: reads up to the announced number of values and stops with failure at the first that does not fit |
| BlobOscData.ValuesAtIndex | Orbit/Assets/OscSimpl/Runtime/Base/Internal/OscData/BlobOscData.cs:272-321 | the k-th value read is taken from bytes 4k to 4k+4 after the start |
| BlobOscData.WriteIntList | Orbit/Assets/OscSimpl/Runtime/Base/Internal/OscData/BlobOscData.cs:432-438 | the int list write: succeeds exactly when it fits and writes the ints' list encoding |
| BlobOscData.IntMems | Orbit/Assets/OscSimpl/Runtime/Base/Internal/OscData/BlobOscData.cs:432-438 | each stored value reads back as its int |
| BlobOscData.ReadIntList | Orbit/Assets/OscSimpl/Runtime/Base/Internal/OscData/BlobOscData.cs:298-321 | the int list read: the values that fit, each the big-endian int of its four bytes; succeeds exactly when all announced values fit |
| BlobOscData.IntListPrefix | Orbit/Assets/OscSimpl/Runtime/Base/Internal/OscData/BlobOscData.cs:298-321 | the prefix of a written int list passes the read's check and is four times the count |
| BlobOscData.IntListRoundTrip | Orbit/Assets/OscSimpl/Runtime/Base/Internal/OscData/BlobOscData.cs:298-321 | an int list written whole reads back as the same ints |
| OscAddress.Collapse | Orbit/Assets/OscSimpl/Runtime/Base/Internal/OscAddress.cs:53-65 | collapsing runs of '/' never lengthens the text |
| OscAddress.SanitizedAsWritten | Orbit/Assets/OscSimpl/Runtime/Base/Internal/OscAddress.cs:47-72 | as written: an address without "//" comes back sanitised, and any non-empty address containing "//" never returns |
| OscAddress.CollapseRunAsWritten | Orbit/Assets/OscSimpl/Runtime/Base/Internal/OscAddress.cs:59-65 | after any number of passes of the collapsing loop as written, its index is still 0 |
| OscAddress.CollapseLoopNeverExits | Orbit/Assets/OscSimpl/Runtime/Base/Internal/OscAddress.cs:59-65 | for an address holding "//", the loop as written never passes the end, and the builder holds "/" (or repeats the first character) for ever |
| OscAddress.NoDoublePrefixIff | Orbit/Assets/OscSimpl/Runtime/Base/Internal/OscAddress.cs:53 | the pointwise definition of "no two adjacent '/'" is exactly "does not contain \"//\"" |
| OscAddress.CollapseEnds | Orbit/Assets/OscSimpl/Runtime/Base/Internal/OscAddress.cs:59-65 | collapsing keeps the first and the last character |
| OscAddress.CollapseNoDouble | Orbit/Assets/OscSimpl/Runtime/Base/Internal/OscAddress.cs:59-65 | collapsed text holds no "//" |
| OscAddress.CollapseIdentity | Orbit/Assets/OscSimpl/Runtime/Base/Internal/OscAddress.cs:53 | text without "//" is left as it is |
| OscAddress.SanitizedWellFormed | Orbit/Assets/OscSimpl/Runtime/Base/Internal/OscAddress.cs:47-72 | a sanitised address, empty input included, starts with '/' and holds no "//" |
| OscAddress.SanitizedIdempotent | Orbit/Assets/OscSimpl/Runtime/Base/Internal/OscAddress.cs:47-72 | sanitising a sanitised address changes nothing |
| OscAddress.Sanitize | Orbit/Assets/OscSimpl/Runtime/Base/Internal/OscAddress.cs:47-72 | with the collapsing loop advancing as intended, the result is the sanitised address: '/' prepended when missing, runs of '/' collapsed |
| OscAddress.ContainsDoublePrefix | Orbit/Assets/OscSimpl/Runtime/Base/Internal/OscAddress.cs:53 | the scan finds "//" exactly when the address contains it |
| OscAddress.HasAnySpecialPatternCharacter | Orbit/Assets/OscSimpl/Runtime/Base/Internal/OscAddress.cs:78-83 | true exactly when the address holds one of ? * [ ] - ! { } , |
| OscAddress.IndexOf | Orbit/Assets/OscSimpl/Runtime/Base/Internal/OscAddress.cs:78-83 | string.IndexOf(char) over the text's UTF-16 code units: -1 exactly when no unit equals the character, otherwise the first unit that does; for a character below the surrogates, -1 exactly when it does not occur in the text |
| OscAddress.SkipPart | Orbit/Assets/OscSimpl/Runtime/Base/Internal/OscAddress.cs:115-122 | the '*' skip never moves backwards or past the end |
| OscAddress.GroupClose | Orbit/Assets/OscSimpl/Runtime/Base/Internal/OscAddress.cs:173-215 | the first ']' or '/' at or after j, or the end |
| OscAddress.CharGroup | Orbit/Assets/OscSimpl/Runtime/Base/Internal/OscAddress.cs:173-215 | the group rule tests one UTF-16 code unit, as the source's `char` is; a matched group always consumes at least one code unit and stays within the address |
| OscAddress.ListScan | Orbit/Assets/OscSimpl/Runtime/Base/Internal/OscAddress.cs:223-272 | a matched scan stays within the test text and moves past at least one list character |
| OscAddress.StringList | Orbit/Assets/OscSimpl/Runtime/Base/Internal/OscAddress.cs:223-272 | a matched list stays within the test text and moves past at least one list character |
| OscAddress.Matches | Orbit/Assets/OscSimpl/Runtime/Base/Internal/OscAddress.cs:94-166 | the matcher walks the addresses' UTF-16 code units, as the source's `address1[c1++]` does; addresses match only when both start with '/' |
| OscAddress.MatchFromSymmetric | Orbit/Assets/OscSimpl/Runtime/Base/Internal/OscAddress.cs:88-166 | from any pair of positions the matcher gives the same answer with the two sides swapped |
| OscAddress.MatchesSymmetric | Orbit/Assets/OscSimpl/Runtime/Base/Internal/OscAddress.cs:88-166 | two-way matching: IsMatching(a, b) equals IsMatching(b, a) |
| OscAddress.PlainMatchFrom | Orbit/Assets/OscSimpl/Runtime/Base/Internal/OscAddress.cs:94-166 | without pattern code units, matching from two positions holds exactly when the remaining code units are equal |
| OscAddress.PlainMatchesIffEqual | Orbit/Assets/OscSimpl/Runtime/Base/Internal/OscAddress.cs:94-166 | addresses without pattern characters match exactly when they are equal and start with '/' (the UTF-16 encoding being one to one) |
| OscAddress.AstralCharacterIsTwoUnits | Orbit/Assets/OscSimpl/Runtime/Base/Internal/OscAddress.cs:101-165 | '?' consumes one code unit, so "/?" does not match "/\U{1F600}" while "/??" does, and "/[\U{1F600}]" does not match it: the group tests only the high surrogate and the low one is left over |
| OscAddress.ListEndSkipsRest | Orbit/Assets/OscSimpl/Runtime/Base/Internal/OscAddress.cs:223-272 | as written, "/{a}/x" does not match "/a/x": the matched list goes on to skip up to the next '}' |
| OscAddress.ListEndCorrected | Orbit/Assets/OscSimpl/Runtime/Base/Internal/OscAddress.cs:223-272 | with the list index stopping just past its '}', "/{a}/x" matches "/a/x" |
| OscAddress.SingleAlternative | Orbit/Assets/OscSimpl/Runtime/Base/Internal/OscAddress.cs:223-272 | a list holding one plain alternative equal to the test code units matches and advances the test by its length; the list index stops past the '}' when corrected and skips to the next '}' as written |
| OscAddress.SkipAddressPart | Orbit/Assets/OscSimpl/Runtime/Base/Internal/OscAddress.cs:115-122 | the skip loop ends where SkipPart says |
| OscAddress.IsMatchingCharGroup | Orbit/Assets/OscSimpl/Runtime/Base/Internal/OscAddress.cs:173-215 | the loop agrees with the group rule for one UTF-16 code unit: '!' negates, "x-y" is an inclusive range of units, "[]" and an unterminated group fail |
| OscAddress.CompareGroup | Orbit/Assets/OscSimpl/Runtime/Base/Internal/OscAddress.cs:195-215 | the plain-compare loop closes exactly when a ']' comes before any '/', and then matches exactly when the test code unit is among the group's code units |
| OscAddress.IsMatchingStringList | Orbit/Assets/OscSimpl/Runtime/Base/Internal/OscAddress.cs:223-272 | the loop agrees with the list rule |
| OscAddress.SkipListRest | Orbit/Assets/OscSimpl/Runtime/Base/Internal/OscAddress.cs:255-262 | the loop ends at the next '}' or at the end of the list |
| OscAddress.IsMatching | Orbit/Assets/OscSimpl/Runtime/Base/Internal/OscAddress.cs:94-166 | the loop over the addresses' UTF-16 code units decides exactly the matching relation |
| OscAddress.CharGroupRule | Orbit/Assets/OscSimpl/Runtime/Base/Internal/OscAddress.cs:125-140 | the '[' rule: fails when both sides open a group, otherwise tests the other side's code unit and matching continues from where the group ends |
| OscAddress.StringListRule | Orbit/Assets/OscSimpl/Runtime/Base/Internal/OscAddress.cs:141-158 | the '{' rule: fails when both sides open a list, otherwise matching continues from where the list ends |
| OscConverter.ToArgTypeClassifies | Orbit/Assets/OscSimpl/Base/Internal/OscConverter.cs:17-38 | Unsupported exactly for the unlisted tags; Bool exactly for 'T' and 'F'; String exactly for 's' and 'S' |
| OscConverter.ToTagByte | Orbit/Assets/OscSimpl/Base/Internal/OscConverter.cs:41-60 | Bool is written as 'F'; the result is '?' exactly for Unsupported and a listed tag otherwise |
| OscConverter.ArgTypeRoundTrip | Orbit/Assets/OscSimpl/Base/Internal/OscConverter.cs:17-60 | every type survives the trip through its tag byte |
| OscConverter.TagByteRoundTrip | Orbit/Assets/OscSimpl/Base/Internal/OscConverter.cs:17-60 | every tag byte survives the trip through its type, except 'T' (to 'F'), 'S' (to 's') and unlisted bytes (to '?') |
| OscArgInfo.Make | Orbit/Assets/OscSimpl/Runtime/Base/Internal/OscArgInfo.cs:39-45 | the constructor stores tag, type and byte count, with the byte index 0 |
| OscArgInfo.FixedByteCount | Orbit/Assets/OscSimpl/Runtime/Base/Internal/OscArgInfo.cs:20-31 | a fixed-size type always takes 0, 4 or 8 bytes |
| OscMidiMessage.StatusBase | Orbit/Assets/OscSimpl/Base/ArgumentDataTypes/OscMidiMessage.cs:282-296 | every status base is a multiple of 16 from 128 to 240 |
| OscMidiMessage.VoiceType | Orbit/Assets/OscSimpl/Base/ArgumentDataTypes/OscMidiMessage.cs:153-272 | the k-th channel-voice type has status base 128 + 16k |
| OscMidiMessage.GetTypeAndChannel | Orbit/Assets/OscSimpl/Base/ArgumentDataTypes/OscMidiMessage.cs:140-276 | status below 128 is (Unknown, no channel), above 239 (System, no channel); in between it is a channel-voice type and a channel below 16 whose base plus channel is the status |
| OscMidiMessage.SetTypeAndChannel | Orbit/Assets/OscSimpl/Base/ArgumentDataTypes/OscMidiMessage.cs:282-296 | status becomes base plus channel as a byte, 0 for Unknown; port and data bytes are kept |
| OscMidiMessage.SetGetRoundTrip | Orbit/Assets/OscSimpl/Base/ArgumentDataTypes/OscMidiMessage.cs:140-296 | set then get gives back a channel-voice type and a channel from Ch1 to Ch16 |
| OscMidiMessage.SystemReadsWithoutChannel | Orbit/Assets/OscSimpl/Base/ArgumentDataTypes/OscMidiMessage.cs:140-296 | a System status set with a channel reads back as System without a channel |
| OscMidiMessage.NotApplicableShiftsType | Orbit/Assets/OscSimpl/Base/ArgumentDataTypes/OscMidiMessage.cs:282-296 | setting NoteOff with no channel reads back as NoteOn on Ch1, and System with no channel wraps to status 0 |
| OscMidiMessage.GetSetInverse | Orbit/Assets/OscSimpl/Base/ArgumentDataTypes/OscMidiMessage.cs:140-296 | a channel-voice status is rebuilt exactly from the type and channel get reports |
| OscMidiMessage.NoteOffMessage | Orbit/Assets/OscSimpl/Base/ArgumentDataTypes/OscMidiMessage.cs:89-95 | port 0, the key, velocity 0, and the NoteOff status for the channel |
| OscMidiMessage.NoteOnMessage | Orbit/Assets/OscSimpl/Base/ArgumentDataTypes/OscMidiMessage.cs:101-108 | port 0, the key and velocity, and the NoteOn status for the channel |
| OscMidiMessage.ControlChangeMessage | Orbit/Assets/OscSimpl/Base/ArgumentDataTypes/OscMidiMessage.cs:114-121 | port 0, the controller number and value, and the ControlChange status for the channel |
| OscMidiMessage.ProgramChangeMessage | Orbit/Assets/OscSimpl/Base/ArgumentDataTypes/OscMidiMessage.cs:127-133 | port 0, the program number, 0, and the ProgramChange status for the channel |
| OscMidiMessage.FactoriesReadBack | Orbit/Assets/OscSimpl/Base/ArgumentDataTypes/OscMidiMessage.cs:89-276 | each factory message for Ch1..Ch16 reads back as its own type and channel |
| OscStringHash.Codes | Orbit/Assets/OscSimpl/Runtime/Base/Internal/OscStringHash.cs:20-28 | the UTF-16 code units `text[i]` reads; within the Basic Multilingual Plane one per character, its code |
| OscStringHash.FoldSnoc | Orbit/Assets/OscSimpl/Runtime/Base/Internal/OscStringHash.cs:25-26 | folding one more code is one more step of the hash |
| OscStringHash.Pack | Orbit/Assets/OscSimpl/Runtime/Base/Internal/OscStringHash.cs:20-28 | the loop computes the hash of the UTF-16 code units after the first, and 0 for text whose first unit is not '/' in its low byte |
| OscStringHash.AstralFoldsSurrogates | Orbit/Assets/OscSimpl/Runtime/Base/Internal/OscStringHash.cs:20-28 | a character outside the Basic Multilingual Plane is folded in as its two surrogate code units |
| OscStringHash.PackBytes | Orbit/Assets/OscSimpl/Runtime/Base/Internal/OscStringHash.cs:31-44 | the loop computes the hash of the bytes after '/' up to a NUL or the end, and 0 when the byte at index is not '/' |
| OscStringHash.WrittenAddressHash | Orbit/Assets/OscSimpl/Runtime/Base/Internal/OscStringHash.cs:20-44 | an ASCII address starting with '/', written as an OSC-string, hashes from the buffer as its text does |
| LossyOscStringHash.OrDisjoint | Orbit/Assets/OscSimpl/Base/Internal/OscStringHash.cs:60-64 | or-ing a number below 2^k with a multiple of 2^k is adding them |
| LossyOscStringHash.ClearSumBits | Orbit/Assets/OscSimpl/Base/Internal/OscStringHash.cs:60-64 | masking leaves a length below 2^16 as it is |
| LossyOscStringHash.Unpack | Orbit/Assets/OscSimpl/Base/Internal/OscStringHash.cs:90-94 | both halves are below 2^16 |
| LossyOscStringHash.UnpackCombine | Orbit/Assets/OscSimpl/Base/Internal/OscStringHash.cs:60-94 | a length and sum below 2^16 come back out of the hash |
| LossyOscStringHash.UnpackPack | Orbit/Assets/OscSimpl/Base/Internal/OscStringHash.cs:55-94 | for an address of up to 65536 UTF-16 code units, Unpack(Pack) gives the number of units after the '/' and their low-byte sum mod 2^16 |
| LossyOscStringHash.ByteSumConcat | Orbit/Assets/OscSimpl/Base/Internal/OscStringHash.cs:55-67 | the byte sum of two texts one after the other is the sum of their sums |
| LossyOscStringHash.ByteSumRemove | Orbit/Assets/OscSimpl/Base/Internal/OscStringHash.cs:55-67 | taking one character out takes its byte out of the sum |
| LossyOscStringHash.ByteSumPermutation | Orbit/Assets/OscSimpl/Base/Internal/OscStringHash.cs:55-67 | the byte sum ignores order |
| LossyOscStringHash.PermutationsCollide | Orbit/Assets/OscSimpl/Base/Internal/OscStringHash.cs:45-67 | addresses whose UTF-16 code units after the '/' are a rearrangement of each other, such as "/a/b" and "/b/a", get the same hash |
| LossyOscStringHash.Pack | Orbit/Assets/OscSimpl/Base/Internal/OscStringHash.cs:55-67 | the loop over the UTF-16 code units, wrapping its 16-bit sum at every step, computes the packed length and sum |
| LossyOscStringHash.WrappedAdd | Orbit/Assets/OscSimpl/Base/Internal/OscStringHash.cs:60-64 | adding to a wrapped 16-bit sum wraps the full sum |
| LossyOscStringHash.RunSumStep | Orbit/Assets/OscSimpl/Base/Internal/OscStringHash.cs:76-85 | one more byte adds itself to the run's sum |
| LossyOscStringHash.PackBytes | Orbit/Assets/OscSimpl/Base/Internal/OscStringHash.cs:70-87 | the loop counts and sums bytes up to a NUL or the end and packs them |
| LossyOscStringHash.RunSumOfText | Orbit/Assets/OscSimpl/Base/Internal/OscStringHash.cs:55-87 | the bytes of an ASCII text sum to its byte sum |
| LossyOscStringHash.WrittenAddressHash | Orbit/Assets/OscSimpl/Base/Internal/OscStringHash.cs:55-87 | for an ASCII address written as an OSC-string, both overloads give the same hash |
| OscStringHash.HashesDiffer | Orbit/Assets/OscSimpl/Runtime/Base/Internal/OscStringHash.cs:20-28 | "/a" and "/b" hash to different values, so a message renamed from one to the other needs its cached hash dropped |
| Bytes.BigEndianRoundTrip | Orbit/Assets/OscSimpl/Runtime/Base/Internal/OscData/FourByteOscData.cs:77-95 | the big-endian bytes of a value read back as the value modulo the width |
| Bytes.BigEndianOfValue | Orbit/Assets/OscSimpl/Runtime/Base/Internal/OscData/FourByteOscData.cs:77-95 | reading any bytes as a big-endian number and writing it back gives the same bytes |
| Bytes.ReverseInvolution | Orbit/Assets/OscSimpl/Runtime/Base/Internal/OscData/FourByteOscData.cs:86-95 | swapping the byte order twice, as a little-endian machine does on write and on read, gives back the bytes |
| Bytes.Wrap32 | Orbit/Assets/OscSimpl/Runtime/Base/Internal/OscData/FourByteOscData.cs:77 | C# int arithmetic wraps modulo 2^32 and leaves values in range unchanged |
| Bytes.Short | Orbit/Assets/OscSimpl/Runtime/Base/Internal/OscArgInfo.cs:17-18 | C#'s cast to `short` keeps the value modulo 2^16 in [-32768, 32768) and leaves values in range unchanged |
| Bytes.CodeUnits | Orbit/Assets/OscSimpl/Runtime/Base/Internal/OscStringHash.cs:20-28 | a character is one UTF-16 code unit exactly when it lies in the Basic Multilingual Plane, two otherwise, each below 2^16 |
| Bytes.BmpUnits | Orbit/Assets/OscSimpl/Runtime/Base/Internal/OscStringHash.cs:20-28 | within the Basic Multilingual Plane a string's UTF-16 code units are its characters' codes |
| Bytes.AstralUnits | Orbit/Assets/OscSimpl/Runtime/Base/Internal/OscStringHash.cs:20-28 | "a\U{1F600}b" is three characters but four code units, the emoji being the surrogate pair D83D DE00 |
| Bytes.CodeUnitsInjective | Orbit/Assets/OscSimpl/Runtime/Base/Internal/OscAddress.cs:101-102 | different characters have different UTF-16 code units |
| Bytes.Utf16Injective | Orbit/Assets/OscSimpl/Runtime/Base/Internal/OscAddress.cs:101-165 | two strings with the same UTF-16 code units are the same string |
| Bytes.BmpUnitIn | Orbit/Assets/OscSimpl/Runtime/Base/Internal/OscAddress.cs:78-83 | a character below the surrogates is among a string's code units exactly when it is among its characters |
| Bytes.CsDiv | Orbit/Assets/OscSimpl/Runtime/Base/Internal/OscData/BlobOscData.cs:26-30 | C# integer division truncates toward zero: the Euclidean quotient for a non-negative dividend and minus the quotient of the magnitude for a negative one |
| OscMessageLayout.PackedOffsets | Orbit/Assets/OscSimpl/Runtime/Base/OscMessage.cs:1159-1197 | in a packed layout each record starts at the sum of the sizes of the records before it, as the reader assigns them, and the payload size is that sum over all records |
| OscMessageLayout.OffsetSameCounts | Orbit/Assets/OscSimpl/Runtime/Base/OscMessage.cs:1159-1197 | where records are placed depends only on the byte counts before them, not on their tags |
| OscMessageLayout.StartsNonNegative | Orbit/Assets/OscSimpl/Runtime/Base/OscMessage.cs:1159-1197 | no record of a packed layout starts before the payload |
| OscMessageLayout.Ordered | Orbit/Assets/OscSimpl/Runtime/Base/OscMessage.cs:1159-1197 | records of a packed layout do not overlap: each ends no later than any later one starts, and the last ends at the payload size |
| OscMessageLayout.EndNonNegative | Orbit/Assets/OscSimpl/Runtime/Base/OscMessage.cs:1159-1197 | the payload size of a packed layout is never negative |
| OscMessageLayout.ArgBounds | Orbit/Assets/OscSimpl/Runtime/Base/OscMessage.cs:1159-1197 | every record of a packed layout lies within the payload |
| OscMessageLayout.ArgAt | Orbit/Assets/OscSimpl/Runtime/Base/OscMessage.cs:189-206 | the argument at an index carries that record's tag and type and exactly its byte count of payload bytes |
| OscMessageLayout.ArgsOf | Orbit/Assets/OscSimpl/Runtime/Base/OscMessage.cs:86-89 | a message read as a list of arguments has one argument per record |
| OscMessageLayout.Tags | Orbit/Assets/OscSimpl/Runtime/Base/OscMessage.cs:1097-1098 | the tag string written for some arguments holds each argument's tag byte, in order |
| OscMessageLayout.PayloadOfPacked | Orbit/Assets/OscSimpl/Runtime/Base/OscMessage.cs:1104-1106 | the payload of a packed message is exactly its arguments' bytes concatenated in order, with nothing before, between or after them |
| OscMessageLayout.TagSectionSize | Orbit/Assets/OscSimpl/Runtime/Base/OscMessage.cs:1057-1060 | the tag section (',' and the tags, then one to four NULs) is a multiple of four and always has room for at least one NUL |
| OscMessageLayout.MessageSize | Orbit/Assets/OscSimpl/Runtime/Base/OscMessage.cs:1048-1069 | Size() is aligned exactly as the payload is: the address and tag sections are each multiples of four |
| OscMessageLayout.MessageWire | Orbit/Assets/OscSimpl/Runtime/Base/OscMessage.cs:1073-1111 | the bytes a message writes are exactly Size() long |
| OscMessageLayout.Updated | Orbit/Assets/OscSimpl/Runtime/Base/OscMessage.cs:448-604 | Set(index, v) on the argument list: argument index becomes v, the other arguments are kept, and an index past the end grows the list with Null arguments in the gap |
| OscMessageLayout.UpdatedAtEnd | Orbit/Assets/OscSimpl/Runtime/Base/OscMessage.cs:610-682 | Add(v) appends v: it is Set at Count() |
| OscMessageLayout.UpdatedTwice | Orbit/Assets/OscSimpl/Runtime/Base/OscMessage.cs:448-455 | setting the argument just placed again leaves only the second value: a second Set overrides the first |
| OscMessageLayout.Removed | Orbit/Assets/OscSimpl/Runtime/Base/OscMessage.cs:92-135 | RemoveAt on the argument list leaves one argument fewer |
| OscMessageLayout.WellFormedArgAt | Orbit/Assets/OscSimpl/Runtime/Base/OscMessage.cs:1166-1194 | each argument of a well-formed list is well formed |
| OscMessageLayout.WellFormedArgsFromEach | Orbit/Assets/OscSimpl/Runtime/Base/OscMessage.cs:1166-1194 | a list whose arguments are each well formed is well formed |
| OscMessageLayout.UpdatedWellFormed | Orbit/Assets/OscSimpl/Runtime/Base/OscMessage.cs:1372-1377 | setting a well-formed argument, gap Nulls included, keeps the list well formed |
| OscMessageLayout.RemovedWellFormed | Orbit/Assets/OscSimpl/Runtime/Base/OscMessage.cs:95-135 | removing an argument keeps the list well formed |
| OscMessageLayout.ArgsAfterWrite | Orbit/Assets/OscSimpl/Runtime/Base/OscMessage.cs:448-455 | writing new bytes over one argument's run changes that argument's value and no other argument |
| OscMessageLayout.ValidateTryGetOnPacked | Orbit/Assets/OscSimpl/Runtime/Base/OscMessage.cs:1412-1456 | on a packed message the corrected check accepts exactly an index in range whose argument has the requested type |
| OscMessageLayout.ValidateTryGetRefusesLaterArg | Orbit/Assets/OscSimpl/Runtime/Base/OscMessage.cs:1444-1453 | as written, the capacity check compares the argument index, not its byte index, with the payload size: a Null then an Int has its Int refused though its bytes are present, while the corrected check accepts it |
| OscMessageLayout.ExpandedPacked | Orbit/Assets/OscSimpl/Runtime/Base/OscMessage.cs:1355-1377 | appending at or past the end, with gap Nulls starting at the old payload end, keeps the layout packed and grows the payload by the new argument's size |
| OscMessageLayout.ExpandedLayout | Orbit/Assets/OscSimpl/Runtime/Base/OscMessage.cs:1343-1409 | after an append that keeps the old payload bytes, the arguments are the old ones updated at the index (gap Nulls included) |
| OscMessageLayout.ResizedPacked | Orbit/Assets/OscSimpl/Runtime/Base/OscMessage.cs:1385-1404 | resizing one argument keeps the layout packed when every later record moves by the size difference, and the payload changes by that difference |
| OscMessageLayout.ResizedLayout | Orbit/Assets/OscSimpl/Runtime/Base/OscMessage.cs:1385-1404 | resizing one argument, with the bytes before it kept and those after it moved by the difference, leaves every other argument's value unchanged |
| OscMessageLayout.ResizedArg | Orbit/Assets/OscSimpl/Runtime/Base/OscMessage.cs:1395-1398 | after such a resize any one argument other than the resized one reads back the same value |
| OscMessageLayout.RemovedPacked | Orbit/Assets/OscSimpl/Runtime/Base/OscMessage.cs:116-130 | RemoveAt keeps the layout packed: later records move down one place and back by the removed size, and the payload shrinks by it |
| OscMessageLayout.RemovedLayout | Orbit/Assets/OscSimpl/Runtime/Base/OscMessage.cs:95-135 | with the later bytes moved down onto the removed run, the arguments after RemoveAt are the old ones with that one removed |
| OscMessageLayout.RemovedRunLayout | Orbit/Assets/OscSimpl/Runtime/Base/OscMessage.cs:109-131 | the same, for the payload as RemoveAt leaves it: the bytes after the run closed up onto it, and the recorded payload size matching the new end |
| OscMessageLayout.RemovedArg | Orbit/Assets/OscSimpl/Runtime/Base/OscMessage.cs:103-130 | after RemoveAt argument j reads back the old argument j before the index and the old j + 1 from it on |
| OscMessageLayout.StringArgWellFormed | Orbit/Assets/OscSimpl/Runtime/Base/OscMessage.cs:500-508 | the OSC-string Set writes for any text is a well-formed String argument |
| OscMessageLayout.BlobArgWellFormed | Orbit/Assets/OscSimpl/Runtime/Base/OscMessage.cs:550-558 | the OSC-blob Set writes for any blob below 2^31 bytes is a well-formed Blob argument |
| OscMessageLayout.SetArgWritten | Orbit/Assets/OscSimpl/Runtime/Base/OscMessage.cs:448-604 | once AdaptiveSet has placed an argument, writing its bytes into its run gives exactly the argument list Updated with the new value, still well formed |
| OscMessageLayout.SetEmptyArg | Orbit/Assets/OscSimpl/Runtime/Base/OscMessage.cs:527-531 | for a zero-size argument (Bool, Null, Impulse) placing the record is the whole Set: the list is already Updated with it |
| OscMessageEdits.FastCopy | Orbit/Assets/OscSimpl/Runtime/Base/OscMessage.cs:1462-1479 | copies count bytes from the source run into the destination at its index and changes nothing else; the copy is correct even when the two runs overlap within one array, in either direction |
| OscMessageEdits.CloseGap | Orbit/Assets/OscSimpl/Runtime/Base/OscMessage.cs:109-115 | the bytes before the removed run are kept and the bytes after it are moved down onto it |
| OscMessageEdits.ShiftDown | Orbit/Assets/OscSimpl/Runtime/Base/OscMessage.cs:103-104 | the records before the index are kept and each later record moves down one place |
| OscMessageEdits.RebaseAfterRemove | Orbit/Assets/OscSimpl/Runtime/Base/OscMessage.cs:116-130 | each record from the index on starts the removed size earlier, and the new payload size is the old one less the removed size |
| OscMessageEdits.RemoveRecord | Orbit/Assets/OscSimpl/Runtime/Base/OscMessage.cs:95-135 | RemoveAt of an index in range keeps the layout packed and leaves exactly the argument list with that argument removed |
| OscMessageEdits.RemoveRun | Orbit/Assets/OscSimpl/Runtime/Base/OscMessage.cs:109-131 | the data half of RemoveAt: after the records have been shifted down, closing the payload gap and rebasing the records leaves the argument list with that argument removed |
| OscMessageEdits.PlaceRecord | Orbit/Assets/OscSimpl/Runtime/Base/OscMessage.cs:1359-1382 | the record is placed at the index, the other records are kept, the gap past the count is filled with Null records, and the count grows to index + 1 when the index is past the end |
| OscMessageEdits.ShiftLater | Orbit/Assets/OscSimpl/Runtime/Base/OscMessage.cs:1395-1398 | the records from the given one on start delta bytes later and the earlier ones are kept |
| OscMessageEdits.GrowPayload | Orbit/Assets/OscSimpl/Runtime/Base/OscMessage.cs:1389-1393 | the payload array is replaced by one of exactly the new size when it is too small, keeping the bytes in use, and otherwise kept |
| OscMessageEdits.MoveRun | Orbit/Assets/OscSimpl/Runtime/Base/OscMessage.cs:1395-1398 | the moved run lands at its new place and the bytes before the argument are kept |
| OscMessageEdits.ResizePayload | Orbit/Assets/OscSimpl/Runtime/Base/OscMessage.cs:1384-1404 | resizing an argument's run keeps the bytes before it and moves the bytes after it by the size difference, growing the array to the new size when needed |
| OscMessageEdits.AdaptExpand | Orbit/Assets/OscSimpl/Runtime/Base/OscMessage.cs:1355-1377 | appending at or past the end keeps the layout packed, starts the new argument at the old payload end, and leaves the argument list Updated at the index (gap Nulls included) |
| OscMessageEdits.AdaptOverwrite | Orbit/Assets/OscSimpl/Runtime/Base/OscMessage.cs:1379-1404 | overwriting an argument keeps its start, keeps the layout packed with later arguments moved by the size difference, and leaves the argument list Updated at the index; an unchanged size keeps the payload size |
| OscMessageEdits.Adapt | Orbit/Assets/OscSimpl/Runtime/Base/OscMessage.cs:1343-1409 | AdaptiveSet with later records rebased: the count grows only for an index past the end, the layout stays packed, every other argument keeps its value, the cached size is dropped exactly when the count or payload size changes, and a record with the same tag and size leaves everything as it was |
| OscMessageEdits.WriteFourByteArg | Orbit/Assets/OscSimpl/Runtime/Base/OscMessage.cs:448-455 | writing a four-byte value into its placed run makes that argument carry the value's wire bytes and keeps the list well formed |
| OscMessageEdits.WriteEightByteArg | Orbit/Assets/OscSimpl/Runtime/Base/OscMessage.cs:461-472 | writing an eight-byte value into its placed run makes that argument carry the value's wire bytes and keeps the list well formed |
| OscMessageEdits.WriteStringArg | Orbit/Assets/OscSimpl/Runtime/Base/OscMessage.cs:500-508 | writing text into its placed run makes that argument the text's OSC-string and keeps the list well formed |
| OscMessageEdits.WriteBlobArg | Orbit/Assets/OscSimpl/Runtime/Base/OscMessage.cs:550-558 | writing a blob into its placed run makes that argument the blob's OSC-blob and keeps the list well formed; written with the corrected blob writer `BlobOscData.TryWriteBlob` (Findings row 2) |
| OscMessageParse.StringSize | Orbit/Assets/OscSimpl/Runtime/Base/OscMessage.cs:1180-1184 | the size the reader measures for a String argument is a multiple of four and leaves room for the NUL that ends the text |
| OscMessageParse.ArgSizeRefuses | Orbit/Assets/OscSimpl/Runtime/Base/OscMessage.cs:1166-1194 | a size is measured exactly for the supported tags, and for a Blob exactly when its size prefix is readable and valid; any other tag refuses the read |
| OscMessageParse.BlobSizeAsWrittenIsWrong | Orbit/Assets/OscSimpl/Runtime/Base/OscMessage.cs:1185-1188 | as written the reader takes TryEvaluateByteCount's size even when it fails: a prefix of -100 gives a size of -92 and a prefix past the buffer gives 0, where the corrected measure refuses both |
| OscMessageParse.Records | Orbit/Assets/OscSimpl/Runtime/Base/OscMessage.cs:1158-1197 | the records the reader builds for the tags, when every tag is measured, are one per tag and packed from byte 0 |
| OscMessageParse.Appended | Orbit/Assets/OscSimpl/Runtime/Base/OscMessage.cs:1195-1196 | adding one measured record after a packed run keeps it packed and one longer |
| OscMessageParse.TagPrefixAt | Orbit/Assets/OscSimpl/Runtime/Base/OscMessage.cs:1131-1139 | the tag section starts after the address OSC-string, at least four bytes on |
| OscMessageParse.TagEnd | Orbit/Assets/OscSimpl/Runtime/Base/OscMessage.cs:1149-1151 | the tag scan stops at the first NUL or the buffer end, after the ',' |
| OscMessageParse.TagsAt | Orbit/Assets/OscSimpl/Runtime/Base/OscMessage.cs:1150-1152 | the argument count is the number of tag bytes scanned |
| OscMessageParse.ArgsStart | Orbit/Assets/OscSimpl/Runtime/Base/OscMessage.cs:1153 | the arguments start at the next multiple of four after the tag scan, one to four bytes on |
| OscMessageParse.ParseAddressRefused | Orbit/Assets/OscSimpl/Runtime/Base/OscMessage.cs:1131-1139 | when the address OSC-string does not fit the buffer the read fails after the address text |
| OscMessageParse.ParseCommaThrows | Orbit/Assets/OscSimpl/Runtime/Base/OscMessage.cs:1141 | when the buffer ends right after the address, reading the ',' goes past the end: the read throws |
| OscMessageParse.ParseCommaMissing | Orbit/Assets/OscSimpl/Runtime/Base/OscMessage.cs:1141-1146 | a missing ',' after the address fails the read at that byte |
| OscMessageParse.ParseTagged | Orbit/Assets/OscSimpl/Runtime/Base/OscMessage.cs:1147-1217 | after the ',' the read measures the tags' records from the aligned argument start and finishes from them |
| OscMessageParse.ParsedRecords | Orbit/Assets/OscSimpl/Runtime/Base/OscMessage.cs:1158-1198 | a successful read's records are exactly those measured for the scanned tags |
| OscMessageParse.ParsedShape | Orbit/Assets/OscSimpl/Runtime/Base/OscMessage.cs:1115-1217 | a successful read has a packed layout, ends its payload-size bytes after the argument start, holds the address it read and stays in the buffer when it has a payload |
| OscMessageParse.ParsedPayload | Orbit/Assets/OscSimpl/Runtime/Base/OscMessage.cs:1200-1206 | the payload copied is exactly the run between the argument start and the end of the message |
| OscMessageParse.ParsedArgWellFormed | Orbit/Assets/OscSimpl/Runtime/Base/OscMessage.cs:1166-1197 | every argument a successful read yields is well formed |
| OscMessageParse.ParsedWellFormed | Orbit/Assets/OscSimpl/Runtime/Base/OscMessage.cs:1115-1217 | the argument list a successful read yields is well formed |
| OscMessageParse.ParsedSize | Orbit/Assets/OscSimpl/Runtime/Base/OscMessage.cs:1210-1212 | from a 4-aligned index, the size the read caches equals Size() computed for the message it read |
| OscMessageParse.HeadSize | Orbit/Assets/OscSimpl/Runtime/Base/OscMessage.cs:1048-1060 | from a 4-aligned index, the address and tag sections read take the address's OSC-string size plus the tag section size |
| OscMessageParse.UnalignedReadMiscachesSize | Orbit/Assets/OscSimpl/Runtime/Base/OscMessage.cs:1149-1212 | read from index 1, "/" with no arguments ends at 8, so the cached size is 7 while Size() computes 8 |
| OscMessageParse.ThrownAfterAddress | Orbit/Assets/OscSimpl/Runtime/Base/OscMessage.cs:1131-1141 | a read that throws has read the address first |
| OscMessageParse.ArgsOfPrefix | Orbit/Assets/OscSimpl/Runtime/Base/OscMessage.cs:1200-1206 | only the payload bytes up to the payload size decide the arguments: bytes past it in a reused array do not matter |
| OscMessageReads.ReadFourByteArg | Orbit/Assets/OscSimpl/Runtime/Base/OscMessage.cs:189-206 | the four-byte value TryGet reads is the one whose wire bytes are exactly the argument's payload bytes |
| OscMessageReads.ReadEightByteArg | Orbit/Assets/OscSimpl/Runtime/Base/OscMessage.cs:212-229 | the eight-byte value TryGet reads is the one whose wire bytes are exactly the argument's payload bytes |
| OscMessageReads.ReadStringArg | Orbit/Assets/OscSimpl/Runtime/Base/OscMessage.cs:281-295 | the text TryGet reads from a well-formed String argument is the text before its first NUL; read with the corrected `StringOscData.TryReadText`, which ignores the text passed in (Findings row 1) |
| OscMessageReads.ReadBlobArg | Orbit/Assets/OscSimpl/Runtime/Base/OscMessage.cs:364-378 | the blob TryGet reads from a well-formed Blob argument is the run of prefix-many bytes after its size prefix |
| OscMessageReads.WireDetermines | Orbit/Assets/OscSimpl/Runtime/Base/Internal/OscData/FourByteOscData.cs:82-99 | on a given host, equal wire bytes come from equal in-memory bytes |
| OscMessageReads.IntArgRoundTrip | Orbit/Assets/OscSimpl/Runtime/Base/OscMessage.cs:235-252 | an int Set writes is the int TryGet reads back |
| OscMessageReads.LongArgRoundTrip | Orbit/Assets/OscSimpl/Runtime/Base/OscMessage.cs:258-275 | a long Set writes is the long TryGet reads back |
| OscMessageReads.TimeTagArgRoundTrip | Orbit/Assets/OscSimpl/Runtime/Base/OscMessage.cs:384-401 | a 64-bit time tag Set writes is the one TryGet reads back |
| OscMessageReads.StringArgRoundTrip | Orbit/Assets/OscSimpl/Runtime/Base/OscMessage.cs:281-295 | ASCII text without NUL that Set writes is the text TryGet reads back |
| OscMessageReads.BlobArgRoundTrip | Orbit/Assets/OscSimpl/Runtime/Base/OscMessage.cs:364-378 | a blob Set writes is read back with its own length as prefix and its bytes unchanged |
| OscMessageReader.ScanRun | Orbit/Assets/OscSimpl/Runtime/Base/OscMessage.cs:1150-1151 | the tag scan stops at the first NUL at or after the start, or at the buffer end |
| OscMessageReader.MeasureArg | Orbit/Assets/OscSimpl/Runtime/Base/OscMessage.cs:1162-1194 | the size measured for one tag is the corrected measure: fixed sizes, the OSC-string size, the OSC-blob size or a refusal |
| OscMessageReader.RecordsStayRefused | Orbit/Assets/OscSimpl/Runtime/Base/OscMessage.cs:1189-1193 | once one tag is refused the whole read is refused, whatever tags follow |
| OscMessageReader.MeasureRecords | Orbit/Assets/OscSimpl/Runtime/Base/OscMessage.cs:1158-1197 | the measuring loop builds exactly the records the reader specifies, packed, and totals their payload size |
| OscMessageReader.ReadMessage | Orbit/Assets/OscSimpl/Runtime/Base/OscMessage.cs:1115-1217 | reading a message from a buffer yields exactly the specified outcome: parsed, rejected at an index, or thrown |
| OscMessageReader.ReadTagged | Orbit/Assets/OscSimpl/Runtime/Base/OscMessage.cs:1147-1217 | reading from the ',' on yields exactly the specified outcome |
| OscMessageReader.Finish | Orbit/Assets/OscSimpl/Runtime/Base/OscMessage.cs:1198-1217 | the read is finished from the measured records, or refused when one was refused |
| OscMessageReader.CopyPayload | Orbit/Assets/OscSimpl/Runtime/Base/OscMessage.cs:1200-1206 | the payload array is reused when big enough, or replaced by one of exactly the payload size, and holds the payload run of the buffer |
| OscMessageReader.ArgsOfCopy | Orbit/Assets/OscSimpl/Runtime/Base/OscMessage.cs:1200-1206 | a payload array holding the payload run (and anything after it) gives the same arguments as the run itself |
| OscMessageReader.ParsedLoad | Orbit/Assets/OscSimpl/Runtime/Base/OscMessage.cs:1198-1212 | a successful read leaves a packed layout over the copied payload, whose arguments are the parsed ones, well formed, with the cached size equal to Size() from an aligned index |
| OscMessageWire.RecordTags | Orbit/Assets/OscSimpl/Runtime/Base/OscMessage.cs:1097-1098 | the tags written are the records' tag bytes, one per argument, in order |
| OscMessageWire.TagsOfRecords | Orbit/Assets/OscSimpl/Runtime/Base/OscMessage.cs:1097-1098 | the tags written from the records are the tags of the message's arguments |
| OscMessageWire.WriteTags | Orbit/Assets/OscSimpl/Runtime/Base/OscMessage.cs:1097-1098 | the tag loop writes exactly the records' tags at the index, nothing else, and advances past them |
| OscMessageWire.WriteZeros | Orbit/Assets/OscSimpl/Runtime/Base/OscMessage.cs:1100-1102 | the trailing-NUL loop writes exactly count zeros at the index, nothing else |
| OscMessageWire.WritePrefix | Orbit/Assets/OscSimpl/Runtime/Base/OscMessage.cs:1094-1095 | the tag prefix ',' is written at the index and nothing else changes |
| OscMessageWire.TagSection | Orbit/Assets/OscSimpl/Runtime/Base/OscMessage.cs:1094-1102 | the tag section written is exactly TagSectionSize long |
| OscMessageWire.WriteTagSection | Orbit/Assets/OscSimpl/Runtime/Base/OscMessage.cs:1094-1102 | from a 4-aligned index the tag section is written whole and the index lands on the next multiple of four |
| OscMessageWire.WireInParts | Orbit/Assets/OscSimpl/Runtime/Base/OscMessage.cs:1088-1106 | the address OSC-string, the tag section and the payload bytes in use are together the message's wire form |
| OscMessageWire.TrailingNulls | Orbit/Assets/OscSimpl/Runtime/Base/OscMessage.cs:1101 | from an aligned message start, the number of trailing NULs the writer computes is the OSC padding of ',' and the tags |
| OscMessageWire.WriteMessage | Orbit/Assets/OscSimpl/Runtime/Base/OscMessage.cs:1073-1111 | TryWriteTo from an aligned index with room for Size() writes exactly the message's wire bytes there, nothing else, and advances by Size() |
| OscMessageWire.WriteHead | Orbit/Assets/OscSimpl/Runtime/Base/OscMessage.cs:1088-1102 | the address and tag section are written there, nothing else, and the index advances by their size |
| OscMessageWire.EvaluateSize | Orbit/Assets/OscSimpl/Runtime/Base/OscMessage.cs:1048-1069 | the computed size is the specified message size |
| OscMessageRoundTrip.Layout | Orbit/Assets/OscSimpl/Runtime/Base/OscMessage.cs:1158-1197 | the records a list of arguments packs into are one per argument, packed, ending at the payload size |
| OscMessageRoundTrip.ReadableSize | Orbit/Assets/OscSimpl/Runtime/Base/OscMessage.cs:1166-1194 | a readable argument sitting in the buffer is measured at exactly its own size and typed by its tag |
| OscMessageRoundTrip.RecordsOfPayload | Orbit/Assets/OscSimpl/Runtime/Base/OscMessage.cs:1158-1197 | measuring the payload of readable arguments gives back exactly their packed layout |
| OscMessageRoundTrip.LayoutArg | Orbit/Assets/OscSimpl/Runtime/Base/OscMessage.cs:189-206 | argument i read from the packed layout of a list is the list's argument i |
| OscMessageRoundTrip.ArgsOfLayout | Orbit/Assets/OscSimpl/Runtime/Base/OscMessage.cs:1159-1197 | a list of arguments packed into records and a payload reads back as the same list |
| OscMessageRoundTrip.ReadableTags | Orbit/Assets/OscSimpl/Runtime/Base/OscMessage.cs:1149-1151 | readable arguments have no NUL tag, so the tag scan does not stop early |
| OscMessageRoundTrip.AddressBack | Orbit/Assets/OscSimpl/Runtime/Base/OscMessage.cs:1131-1139 | a NUL-free ASCII address written as an OSC-string reads back as itself and the tag section follows it |
| OscMessageRoundTrip.TagsBack | Orbit/Assets/OscSimpl/Runtime/Base/OscMessage.cs:1149-1152 | NUL-free tags followed by a NUL are scanned back exactly |
| OscMessageRoundTrip.HeadBack | Orbit/Assets/OscSimpl/Runtime/Base/OscMessage.cs:1131-1153 | a written address and tag section read back as the address, the tags and the argument start after the padding |
| OscMessageRoundTrip.ParsedFromParts | Orbit/Assets/OscSimpl/Runtime/Base/OscMessage.cs:1115-1217 | a buffer with the address, the tags and the arguments' records in place parses to that address and layout |
| OscMessageRoundTrip.ArgsBack | Orbit/Assets/OscSimpl/Runtime/Base/OscMessage.cs:1200-1206 | a parse whose layout and payload are those of a list yields that list |
| OscMessageRoundTrip.PartsBack | Orbit/Assets/OscSimpl/Runtime/Base/OscMessage.cs:1115-1217 | an address, tags and readable arguments in place parse back to the same address and arguments |
| OscMessageRoundTrip.WireBack | Orbit/Assets/OscSimpl/Runtime/Base/OscMessage.cs:1115-1217 | the wire form laid out in parts parses back to the same address and arguments, ending after the payload |
| OscMessageRoundTrip.MessageRoundTrip | Orbit/Assets/OscSimpl/Runtime/Base/OscMessage.cs:1073-1217 | a message TryWriteTo writes at an aligned index is read back by TryReadFrom as the same address and the same arguments, ending exactly Size() bytes on |
| OscMessages.OscMessage.Args | Orbit/Assets/OscSimpl/Runtime/Base/OscMessage.cs:86-89 | the message's arguments, read out of its records and payload: one per counted record |
| OscMessages.OscMessage.constructor | Orbit/Assets/OscSimpl/Runtime/Base/OscMessage.cs:53-70 | a new message has the address given, no arguments, and both caches dirty |
| OscMessages.OscMessage.SetAddress | Orbit/Assets/OscSimpl/Runtime/Base/OscMessage.cs:40-50 | setting the address stores its sanitised form, keeps the arguments and drops both the cached size and the cached hash |
| OscMessages.OscMessage.SetAddressKeepingHash | Orbit/Assets/OscSimpl/Runtime/Base/OscMessage.cs:43-50 | as written the address setter drops the cached size but keeps the cached hash, which then belongs to the old address |
| OscMessages.OscMessage.Clear | Orbit/Assets/OscSimpl/Runtime/Base/OscMessage.cs:74-80 | Clear leaves no arguments, keeps the address and the payload array, and drops both caches |
| OscMessages.OscMessage.Count | Orbit/Assets/OscSimpl/Runtime/Base/OscMessage.cs:86-89 | Count() is the number of arguments |
| OscMessages.OscMessage.RemoveAt | Orbit/Assets/OscSimpl/Runtime/Base/OscMessage.cs:95-135 | an index out of range changes nothing; otherwise the arguments are the old ones with that one removed, the address and hash cache are kept, and the size cache is dropped |
| OscMessages.OscMessage.AdaptiveSet | Orbit/Assets/OscSimpl/Runtime/Base/OscMessage.cs:1343-1409 | placing a record grows the count only for an index past the end, keeps every other argument's value, keeps the layout packed, drops the size cache exactly when the count or payload size changes, and changes nothing for a record of the same tag and size |
| OscMessages.OscMessage.Place | Orbit/Assets/OscSimpl/Runtime/Base/OscMessage.cs:1343-1409 | the state update of AdaptiveSet: the new records, count and payload satisfy the edit's contract and the size cache is dropped when the count or payload size changes |
| OscMessages.OscMessage.SetEmpty | Orbit/Assets/OscSimpl/Runtime/Base/OscMessage.cs:590-604 | setting a zero-size argument leaves the arguments Updated with it |
| OscMessages.OscMessage.SetBool | Orbit/Assets/OscSimpl/Runtime/Base/OscMessage.cs:527-531 | Set(index, bool) leaves the arguments Updated with a True or False argument, which carries no bytes |
| OscMessages.OscMessage.SetNull | Orbit/Assets/OscSimpl/Runtime/Base/OscMessage.cs:590-594 | Set(index, OscNull) leaves the arguments Updated with a Null argument |
| OscMessages.OscMessage.SetImpulse | Orbit/Assets/OscSimpl/Runtime/Base/OscMessage.cs:600-604 | Set(index, OscImpulse) leaves the arguments Updated with an Impulse argument |
| OscMessages.OscMessage.SetFourByte | Orbit/Assets/OscSimpl/Runtime/Base/OscMessage.cs:448-455 | a four-byte Set leaves the arguments Updated with that tag and the value's wire bytes |
| OscMessages.OscMessage.SetEightByte | Orbit/Assets/OscSimpl/Runtime/Base/OscMessage.cs:461-468 | an eight-byte Set leaves the arguments Updated with that tag and the value's wire bytes |
| OscMessages.OscMessage.SetFloat | Orbit/Assets/OscSimpl/Runtime/Base/OscMessage.cs:448-455 | Set(index, float) leaves the arguments Updated with a Float argument holding the value's wire bytes |
| OscMessages.OscMessage.SetInt | Orbit/Assets/OscSimpl/Runtime/Base/OscMessage.cs:474-481 | Set(index, int) leaves the arguments Updated with an Int argument holding the value big-endian |
| OscMessages.OscMessage.SetChar | Orbit/Assets/OscSimpl/Runtime/Base/OscMessage.cs:514-521 | Set(index, char) leaves the arguments Updated with a Char argument holding the character's ASCII byte last, on either host; this is the corrected char constructor `FromAsciiChar` of Findings rows 6 (every code above 127 becomes '?') and 22 (the code travels in the last wire byte on a big-endian host too) |
| OscMessages.OscMessage.SetColor | Orbit/Assets/OscSimpl/Runtime/Base/OscMessage.cs:537-544 | Set(index, Color32) leaves the arguments Updated with a Color argument holding r, g, b, a |
| OscMessages.OscMessage.SetMidi | Orbit/Assets/OscSimpl/Runtime/Base/OscMessage.cs:577-584 | Set(index, OscMidiMessage) leaves the arguments Updated with a Midi argument holding port, status and the two data bytes |
| OscMessages.OscMessage.SetDouble | Orbit/Assets/OscSimpl/Runtime/Base/OscMessage.cs:461-468 | Set(index, double) leaves the arguments Updated with a Double argument holding the value's wire bytes |
| OscMessages.OscMessage.SetLong | Orbit/Assets/OscSimpl/Runtime/Base/OscMessage.cs:487-494 | Set(index, long) leaves the arguments Updated with a Long argument holding the value big-endian |
| OscMessages.OscMessage.SetTimeTag | Orbit/Assets/OscSimpl/Runtime/Base/OscMessage.cs:564-571 | Set(index, OscTimeTag) leaves the arguments Updated with a TimeTag argument holding the 64-bit time big-endian |
| OscMessages.OscMessage.SetString | Orbit/Assets/OscSimpl/Runtime/Base/OscMessage.cs:500-508 | Set(index, string) leaves the arguments Updated with a String argument holding the text's OSC-string |
| OscMessages.OscMessage.SetBlob | Orbit/Assets/OscSimpl/Runtime/Base/OscMessage.cs:550-558 | Set(index, byte[]) leaves the arguments Updated with a Blob argument holding the blob's OSC-blob; written with the corrected blob writer `BlobOscData.TryWriteBlob` (Findings row 2) |
| OscMessages.OscMessage.AddFloat | Orbit/Assets/OscSimpl/Runtime/Base/OscMessage.cs:610 | Add(float) appends a Float argument |
| OscMessages.OscMessage.AddDouble | Orbit/Assets/OscSimpl/Runtime/Base/OscMessage.cs:616 | Add(double) appends a Double argument |
| OscMessages.OscMessage.AddInt | Orbit/Assets/OscSimpl/Runtime/Base/OscMessage.cs:622 | Add(int) appends an Int argument holding the value big-endian |
| OscMessages.OscMessage.AddLong | Orbit/Assets/OscSimpl/Runtime/Base/OscMessage.cs:628 | Add(long) appends a Long argument holding the value big-endian |
| OscMessages.OscMessage.AddString | Orbit/Assets/OscSimpl/Runtime/Base/OscMessage.cs:634 | Add(string) appends the text's OSC-string as a String argument |
| OscMessages.OscMessage.AddChar | Orbit/Assets/OscSimpl/Runtime/Base/OscMessage.cs:640 | Add(char) appends a Char argument whose ASCII byte is last, through the corrected char constructor `FromAsciiChar` of Findings rows 6 and 22 |
| OscMessages.OscMessage.AddBool | Orbit/Assets/OscSimpl/Runtime/Base/OscMessage.cs:646 | Add(bool) appends a True or False argument |
| OscMessages.OscMessage.AddColor | Orbit/Assets/OscSimpl/Runtime/Base/OscMessage.cs:652 | Add(Color32) appends a Color argument |
| OscMessages.OscMessage.AddBlob | Orbit/Assets/OscSimpl/Runtime/Base/OscMessage.cs:658 | Add(byte[]) appends the blob's OSC-blob as a Blob argument; written with the corrected blob writer `BlobOscData.TryWriteBlob` (Findings row 2) |
| OscMessages.OscMessage.AddTimeTag | Orbit/Assets/OscSimpl/Runtime/Base/OscMessage.cs:664 | Add(OscTimeTag) appends a TimeTag argument |
| OscMessages.OscMessage.AddMidi | Orbit/Assets/OscSimpl/Runtime/Base/OscMessage.cs:670 | Add(OscMidiMessage) appends a Midi argument |
| OscMessages.OscMessage.AddNull | Orbit/Assets/OscSimpl/Runtime/Base/OscMessage.cs:676 | Add(OscNull) appends a Null argument |
| OscMessages.OscMessage.AddImpulse | Orbit/Assets/OscSimpl/Runtime/Base/OscMessage.cs:682 | Add(OscImpulse) appends an Impulse argument |
| OscMessages.OscMessage.Size | Orbit/Assets/OscSimpl/Runtime/Base/OscMessage.cs:1048-1069 | Size() is the length of the message's wire form, and the cache is clean afterwards; nothing else changes |
| OscMessages.OscMessage.GetAddressHash | Orbit/Assets/OscSimpl/Runtime/Base/OscMessage.cs:1331-1340 | the hash returned is the hash of the current address, and the hash cache is clean afterwards |
| OscMessages.OscMessage.TryWriteTo | Orbit/Assets/OscSimpl/Runtime/Base/OscMessage.cs:1073-1111 | from an aligned index, the write succeeds exactly when the wire form fits; it then writes exactly that wire form and advances by its length, and on failure writes nothing |
| OscMessages.OscMessage.TryReadFrom | Orbit/Assets/OscSimpl/Runtime/Base/OscMessage.cs:1115-1217 | a read that parses yields the address and the parsed arguments and advances past the message, caching the size only from an aligned index; a refused read fails at the index where it stopped, and a read past the buffer end throws; either way the arguments are left empty |
| OscMessages.OscMessage.Load | Orbit/Assets/OscSimpl/Runtime/Base/OscMessage.cs:1198-1212 | the parsed records and payload are installed as the message's arguments, with the size cached only when asked |
| OscMessages.OscMessage.TryGetArgType | Orbit/Assets/OscSimpl/Runtime/Base/OscMessage.cs:141-149 | succeeds exactly for an index in range and gives that argument's type, Unsupported otherwise |
| OscMessages.OscMessage.TryGetArgTag | Orbit/Assets/OscSimpl/Runtime/Base/OscMessage.cs:155-166 | succeeds exactly for an index in range and gives that argument's tag, the unsupported tag otherwise |
| OscMessages.OscMessage.TryGetArgSize | Orbit/Assets/OscSimpl/Runtime/Base/OscMessage.cs:172-183 | succeeds exactly for an index in range and gives that argument's byte size, 0 otherwise |
| OscMessages.OscMessage.ValidateTryGet | Orbit/Assets/OscSimpl/Runtime/Base/OscMessage.cs:1412-1456 | the corrected check accepts exactly an index in range whose argument has the requested type |
| OscMessages.OscMessage.TryGetFourByte | Orbit/Assets/OscSimpl/Runtime/Base/OscMessage.cs:189-206 | a four-byte TryGet succeeds exactly for an argument of that type and gives the value whose wire bytes are the argument's, zeros otherwise; checked with the corrected `ValidateTryGet` (Findings row 5) |
| OscMessages.OscMessage.TryGetEightByte | Orbit/Assets/OscSimpl/Runtime/Base/OscMessage.cs:212-229 | an eight-byte TryGet succeeds exactly for an argument of that type and gives the value whose wire bytes are the argument's, zeros otherwise; checked with the corrected `ValidateTryGet` (Findings row 5) |
| OscMessages.OscMessage.TryGetFloat | Orbit/Assets/OscSimpl/Runtime/Base/OscMessage.cs:189-206 | TryGet(float) succeeds exactly for a Float argument and gives its value, 0 otherwise; checked with the corrected `ValidateTryGet` (Findings row 5) |
| OscMessages.OscMessage.TryGetInt | Orbit/Assets/OscSimpl/Runtime/Base/OscMessage.cs:235-252 | TryGet(int) succeeds exactly for an Int argument and gives the int its bytes hold big-endian, 0 otherwise; checked with the corrected `ValidateTryGet` (Findings row 5) |
| OscMessages.OscMessage.TryGetChar | Orbit/Assets/OscSimpl/Runtime/Base/OscMessage.cs:302-319 | TryGet(char) succeeds exactly for a Char argument and gives the character of its last byte on either host, the corrected `CharValueOf` of Findings row 22; checked with the corrected `ValidateTryGet` (Findings row 5) |
| OscMessages.OscMessage.TryGetBool | Orbit/Assets/OscSimpl/Runtime/Base/OscMessage.cs:325-335 | TryGet(bool) succeeds exactly for a Bool argument, and the value is true exactly when it succeeds on a True tag; checked with the corrected `ValidateTryGet` (Findings row 5) |
| OscMessages.OscMessage.TryGetColor | Orbit/Assets/OscSimpl/Runtime/Base/OscMessage.cs:341-358 | TryGet(Color32) succeeds exactly for a Color argument and gives its four bytes; checked with the corrected `ValidateTryGet` (Findings row 5) |
| OscMessages.OscMessage.TryGetMidi | Orbit/Assets/OscSimpl/Runtime/Base/OscMessage.cs:407-424 | TryGet(OscMidiMessage) succeeds exactly for a Midi argument and gives its port, status and data bytes, the default message otherwise; checked with the corrected `ValidateTryGet` (Findings row 5) |
| OscMessages.OscMessage.TryGetDouble | Orbit/Assets/OscSimpl/Runtime/Base/OscMessage.cs:212-229 | TryGet(double) succeeds exactly for a Double argument and gives its value; checked with the corrected `ValidateTryGet` (Findings row 5) |
| OscMessages.OscMessage.TryGetLong | Orbit/Assets/OscSimpl/Runtime/Base/OscMessage.cs:258-275 | TryGet(long) succeeds exactly for a Long argument and gives the long its bytes hold big-endian, 0 otherwise; checked with the corrected `ValidateTryGet` (Findings row 5) |
| OscMessages.OscMessage.TryGetTimeTag | Orbit/Assets/OscSimpl/Runtime/Base/OscMessage.cs:384-401 | TryGet(OscTimeTag) succeeds exactly for a TimeTag argument and gives the 64-bit time its bytes hold; checked with the corrected `ValidateTryGet` (Findings row 5) |
| OscMessages.OscMessage.TryGetString | Orbit/Assets/OscSimpl/Runtime/Base/OscMessage.cs:281-295 | TryGet(string) succeeds exactly for a String argument and gives its text before the first NUL, the empty string otherwise; read with the corrected `StringOscData.TryReadText`, which ignores the text passed in (Findings row 1); checked with the corrected `ValidateTryGet` (Findings row 5) |
| OscMessages.OscMessage.TryGetBlob | Orbit/Assets/OscSimpl/Runtime/Base/OscMessage.cs:364-378 | TryGet(byte[]) succeeds exactly for a Blob argument and gives the prefix-many bytes after its size prefix, null otherwise; checked with the corrected `ValidateTryGet` (Findings row 5) |
| OscMessages.OscMessage.TryGetNull | Orbit/Assets/OscSimpl/Runtime/Base/OscMessage.cs:430-433 | TryGet(OscNull) succeeds exactly for a Null argument in range; checked with the corrected `ValidateTryGet` (Findings row 5) |
| OscMessages.OscMessage.TryGetImpulse | Orbit/Assets/OscSimpl/Runtime/Base/OscMessage.cs:439-442 | TryGet(OscImpulse) succeeds exactly for an Impulse argument in range; checked with the corrected `ValidateTryGet` (Findings row 5) |
| OscAdaptAsWritten.AdaptiveSetAsWritten | Orbit/Assets/OscSimpl/Runtime/Base/OscMessage.cs:1343-1409 | as written: an unchanged record changes nothing; otherwise the record is placed at the old start, or at the old payload size cast to `short` when appending; gap records are plain Nulls at byte 0, other records keep their start, and the size cache is dropped only when the byte count changes; a resize throws when the array must grow to a negative size or the move of the bytes after the argument runs off the array |
| OscAdaptAsWritten.AppendKeepsPacked | Orbit/Assets/OscSimpl/Runtime/Base/OscMessage.cs:1355-1377 | appending right after the last argument, as Add does, keeps the records packed even as written, while the payload stays below 32768 bytes so that the `short` cast changes nothing |
| OscAdaptAsWritten.AppendedNullKeepsStaleSize | Orbit/Assets/OscSimpl/Runtime/Base/OscMessage.cs:1385-1404 | adding a third Null changes no byte count, so the cached size is kept, yet Size() grows from the tag section's four bytes to eight |
| OscAdaptAsWritten.ResizeLeavesLaterOffsets | Orbit/Assets/OscSimpl/Runtime/Base/OscMessage.cs:1379-1404 | in a 16-byte array, turning the first of two ints into a long leaves the second record starting at 4, inside the long |
| OscAdaptAsWritten.ResizeOverrunsExactArray | Orbit/Assets/OscSimpl/Runtime/Base/OscMessage.cs:1385-1397 | two ints added to a new message leave an 8-byte array; turning the first into a long grows it to exactly 12 bytes and the move of 8 bytes to index 8 runs off it and throws |
| OscAdaptAsWritten.LargeBlobThrows | Orbit/Assets/OscSimpl/Runtime/Base/OscMessage.cs:548-556 | Set(0, blob) on a new message with a blob of 32761 to 65528 bytes casts its size to a negative `short`, and allocating the payload with that size throws |
| OscAdaptAsWritten.LongStringsWrapStart | Orbit/Assets/OscSimpl/Runtime/Base/OscMessage.cs:1355-1356 | adding three 20000-character strings places the third at (short) 40008 = -25528 |
| OscAdaptAsWritten.GapNullStartsAtZero | Orbit/Assets/OscSimpl/Runtime/Base/OscMessage.cs:1372-1376 | setting index 2 after one int leaves the gap Null starting at 0, inside the int, rather than at the payload end |
| OscListMessages.SizeSumMono | Orbit/Assets/OscSimpl/Base/OscMessage.cs:1214-1219 | with non-negative sizes, GetDataIndex never decreases along the list and is never negative |
| OscListMessages.SizeSumPrefix | Orbit/Assets/OscSimpl/Base/OscMessage.cs:1214-1219 | GetDataIndex(i) depends only on the records before i |
| OscListMessages.LayoutPacked | Orbit/Assets/OscSimpl/Base/OscMessage.cs:1214-1219 | the list records placed at GetDataIndex offsets form a packed layout whose end is the sum of the sizes, and give back the same list records |
| OscListMessages.ListArgs | Orbit/Assets/OscSimpl/Base/OscMessage.cs:81-84 | the list message's arguments, one per record |
| OscListMessages.SizeSumOfLayout | Orbit/Assets/OscSimpl/Base/OscMessage.cs:1214-1219 | on records taken from a packed layout, GetDataIndex(j) is record j's byte index, and the sum over all is the payload end |
| OscListMessages.LayoutOfRecords | Orbit/Assets/OscSimpl/Base/OscMessage.cs:1083 | records the reader builds, turned into list records and placed back, are the same records |
| OscListMessages.ListPayload | Orbit/Assets/OscSimpl/Base/OscMessage.cs:986-987 | the list payload is exactly the arguments' bytes in order and the list tags are the arguments' tags |
| OscListMessages.ListArgAt | Orbit/Assets/OscSimpl/Base/OscMessage.cs:1214-1219 | argument j holds its size's bytes from GetDataIndex(j) on |
| OscListMessages.ListArgStart | Orbit/Assets/OscSimpl/Base/OscMessage.cs:1214-1219 | GetDataIndex(j) is the number of payload bytes of the arguments before j |
| OscListMessages.Padded | Orbit/Assets/OscSimpl/Base/OscMessage.cs:1234-1238 | padding for an index past the end adds Null records up to and including the index |
| OscListMessages.SizeSumPadded | Orbit/Assets/OscSimpl/Base/OscMessage.cs:1234-1238 | padding with zero-size Null records changes no GetDataIndex offset |
| OscListMessages.SizeSumUpdated | Orbit/Assets/OscSimpl/Base/OscMessage.cs:1240-1265 | after a record's size changes, offsets before it are kept and offsets after it move by the difference |
| OscListMessages.LayoutExpanded | Orbit/Assets/OscSimpl/Base/OscMessage.cs:1234-1265 | appending past the end keeps the earlier records, puts the gap Nulls and the new record at the old payload end |
| OscListMessages.LayoutResized | Orbit/Assets/OscSimpl/Base/OscMessage.cs:1240-1265 | overwriting a record shifts only the later records, by the size difference |
| OscListMessages.AddZeros | Orbit/Assets/OscSimpl/Base/OscMessage.cs:1255-1256 | adding zeros at the end appends exactly that many zero bytes |
| OscListMessages.InsertZeros | Orbit/Assets/OscSimpl/Base/OscMessage.cs:1257-1258 | inserting zeros at the start index puts exactly that many zero bytes there and keeps the bytes on both sides |
| OscListMessages.PadInfos | Orbit/Assets/OscSimpl/Base/OscMessage.cs:1234-1238 | the padding loop adds exactly the Null records up to the index |
| OscListMessages.StartAndTotal | Orbit/Assets/OscSimpl/Base/OscMessage.cs:1240-1247 | the loop finds the argument's start as its GetDataIndex and the total as the payload size |
| OscListMessages.ResizeRun | Orbit/Assets/OscSimpl/Base/OscMessage.cs:1249-1262 | growing or shrinking an argument's run changes the payload by the difference, keeps the bytes before and moves the bytes after |
| OscListMessages.RunBounds | Orbit/Assets/OscSimpl/Base/OscMessage.cs:1240-1247 | the run an index addresses lies within the payload, and for the last or a new argument ends at the payload end |
| OscListMessages.ResizedLaid | Orbit/Assets/OscSimpl/Base/OscMessage.cs:1240-1265 | a payload resized by the difference fits the records with the new size |
| OscListMessages.ExpandedLaid | Orbit/Assets/OscSimpl/Base/OscMessage.cs:1234-1265 | a payload grown by the new size fits the padded records with the new one |
| OscListMessages.ExpandedArgs | Orbit/Assets/OscSimpl/Base/OscMessage.cs:1234-1265 | appending keeps every earlier argument and adds gap Nulls before the new one |
| OscListMessages.ResizedArgs | Orbit/Assets/OscSimpl/Base/OscMessage.cs:1249-1265 | resizing an argument keeps every other argument's value |
| OscListMessages.AdaptedArgs | Orbit/Assets/OscSimpl/Base/OscMessage.cs:1223-1271 | either way, the arguments after AdaptiveSet are the old ones Updated at the index |
| OscListMessages.Adapt | Orbit/Assets/OscSimpl/Base/OscMessage.cs:1233-1271 | the record lists and payload AdaptiveSet leaves: padded and updated records, a payload that fits them, every other argument kept, and the new argument's bytes at the returned start |
| OscListMessages.Place | Orbit/Assets/OscSimpl/Base/OscMessage.cs:1223-1271 | AdaptiveSet returns the argument's GetDataIndex; an unchanged tag and size change nothing, otherwise the records are padded and updated and every other argument kept |
| OscListMessages.Without | Orbit/Assets/OscSimpl/Base/OscMessage.cs:104 | RemoveAt removes one record |
| OscListMessages.SizeSumRemoved | Orbit/Assets/OscSimpl/Base/OscMessage.cs:90-108 | after RemoveAt, offsets before the index are kept and later ones move back by the removed size |
| OscListMessages.LayoutRemoved | Orbit/Assets/OscSimpl/Base/OscMessage.cs:90-108 | removing a record moves each later record down one place and back by its size |
| OscListMessages.RemovedLaid | Orbit/Assets/OscSimpl/Base/OscMessage.cs:90-108 | a payload shrunk by the removed size fits the remaining records |
| OscListMessages.RemovedArgs | Orbit/Assets/OscSimpl/Base/OscMessage.cs:90-108 | removing the run and the record leaves exactly the old arguments with that one removed |
| OscListMessages.RemoveRange | Orbit/Assets/OscSimpl/Base/OscMessage.cs:99-100 | RemoveRange takes out exactly the run and closes the gap |
| OscListMessages.RemoveRecord | Orbit/Assets/OscSimpl/Base/OscMessage.cs:95-104 | RemoveAt on the lists leaves the arguments with that one removed and the records still fitting the payload |
| OscListMessages.Unsized | Orbit/Assets/OscSimpl/Base/OscMessage.cs:1034-1037 | the tag loop adds one zero-size record per tag byte |
| OscListMessages.AcceptedCount | Orbit/Assets/OscSimpl/Base/OscMessage.cs:1046-1086 | the number of tags sized before the first refused one |
| OscListMessages.AcceptedPrefix | Orbit/Assets/OscSimpl/Base/OscMessage.cs:1046-1086 | all tags before the first refused one are measured |
| OscListMessages.AcceptedCountIs | Orbit/Assets/OscSimpl/Base/OscMessage.cs:1077-1081 | the count of accepted tags is exactly where the first refusal stops the loop |
| OscListMessages.AddTagRecords | Orbit/Assets/OscSimpl/Base/OscMessage.cs:1034-1038 | the tag loop stops at the first NUL or the buffer end and adds one record per tag |
| OscListMessages.MeasureNext | Orbit/Assets/OscSimpl/Base/OscMessage.cs:1049-1085 | one step of the sizing loop measures the next tag exactly as the corrected reader does |
| OscListMessages.SizeRecords | Orbit/Assets/OscSimpl/Base/OscMessage.cs:1045-1086 | the sizing loop refuses exactly when the reader refuses; refused, it leaves the accepted tags sized and the rest at zero; otherwise it leaves the reader's records and their total |
| OscListMessages.ListReadAgrees | Orbit/Assets/OscSimpl/Base/OscMessage.cs:1000-1099 | the list read and the array read agree: the same address, both throw or neither, both refuse or neither, at the same index, and both parse or neither |
| OscListMessages.ParsedListArgs | Orbit/Assets/OscSimpl/Base/OscMessage.cs:1000-1099 | a successful list read yields the same address, end and arguments as the array read, and from an aligned index the cached size is Size() |
| OscListMessages.ParsedListRead | Orbit/Assets/OscSimpl/Base/OscMessage.cs:1045-1092 | a successful array read, turned into list records and a payload, is the list read |
| OscListMessages.ParsedInSync | Orbit/Assets/OscSimpl/Base/OscMessage.cs:1083 | every record a successful read builds has its type agreeing with its tag |
| OscListMessages.ListArgsOfRecords | Orbit/Assets/OscSimpl/Base/OscMessage.cs:1083-1092 | reading list records and payload gives the same arguments as reading the packed records |
| OscListMessages.AddPayload | Orbit/Assets/OscSimpl/Base/OscMessage.cs:1091-1092 | the byte loop copies the payload run, or throws exactly when the run passes the buffer end, having copied the bytes up to it |
| OscListMessages.ReadList | Orbit/Assets/OscSimpl/Base/OscMessage.cs:1000-1099 | the list reader yields exactly the specified outcome |
| OscListMessages.ReadListTagged | Orbit/Assets/OscSimpl/Base/OscMessage.cs:1025-1099 | from the ',' on, the list reader yields exactly the specified outcome |
| OscListMessages.SizeAndCopy | Orbit/Assets/OscSimpl/Base/OscMessage.cs:1045-1099 | sizing the records and copying the payload finishes the read as specified |
| OscListMessages.ListReadTagged | Orbit/Assets/OscSimpl/Base/OscMessage.cs:1025-1099 | after the ',' the list read is finished from the scanned tags at the aligned argument start |
| OscListMessages.ReadKeepsStaleHash | Orbit/Assets/OscSimpl/Base/OscMessage.cs:1013-1015 | reading "/b" into a message with no arguments skips Clear, so a hash cached for "/a" survives, though the two hashes differ |
| OscListMessages.ReadKeepsStaleSize | Orbit/Assets/OscSimpl/Base/OscMessage.cs:1013-1032 | a read that throws after the address "/abcd" into a message with no arguments keeps a clean size cached for "/", though the sizes differ |
| OscListMessages.HashesDiffer | Orbit/Assets/OscSimpl/Base/Internal/OscStringHash.cs:20-28 | "/a" and "/b" hash apart |
| OscListMessages.RefusedTagLeavesSizedRecords | Orbit/Assets/OscSimpl/Base/OscMessage.cs:1077-1083 | reading "/" with tags "i?" refuses '?' after sizing the int, leaving records that claim four bytes the empty payload does not hold |
| OscListMessages.ListValidateTryGetRefusesLaterArg | Orbit/Assets/OscSimpl/Base/OscMessage.cs:1306-1315 | the older class's capacity check has the same slip: a Null then an Int, with the int's four bytes present, has the int refused, while the corrected check accepts it |
| OscListMessages.SumSizes | Orbit/Assets/OscSimpl/Base/OscMessage.cs:1214-1219 | the GetDataIndex loop sums exactly the sizes of the records before the index |
| OscListMessages.CopyTo | Orbit/Assets/OscSimpl/Base/OscMessage.cs:985-987 | the payload list is copied into the buffer at the index and nothing else changes |
| OscListMessages.ListWire | Orbit/Assets/OscSimpl/Base/OscMessage.cs:945-996 | the older class writes, for the same arguments, exactly the wire bytes of the current class, of Size() bytes |
| OscBaseMessages.OscMessage.Args | Orbit/Assets/OscSimpl/Base/OscMessage.cs:81-84 | the message's arguments, read out of its two lists |
| OscBaseMessages.OscMessage.constructor | Orbit/Assets/OscSimpl/Base/OscMessage.cs:50-63 | a new message has the address given, no arguments, and both caches dirty |
| OscBaseMessages.OscMessage.SetAddress | Orbit/Assets/OscSimpl/Base/OscMessage.cs:37-44 | setting the address stores its sanitised form, keeps the arguments and drops both caches |
| OscBaseMessages.OscMessage.SetAddressKeepingHash | Orbit/Assets/OscSimpl/Base/OscMessage.cs:37-44 | as written the address setter drops the cached size but keeps the cached hash of the old address |
| OscBaseMessages.OscMessage.Clear | Orbit/Assets/OscSimpl/Base/OscMessage.cs:69-75 | Clear leaves no arguments, keeps the address and drops both caches |
| OscBaseMessages.OscMessage.Count | Orbit/Assets/OscSimpl/Base/OscMessage.cs:81-84 | Count() is the number of arguments |
| OscBaseMessages.OscMessage.GetDataIndex | Orbit/Assets/OscSimpl/Base/OscMessage.cs:1214-1219 | GetDataIndex(i) is the number of payload bytes of the arguments before i, and argument i's bytes start there |
| OscBaseMessages.OscMessage.AdaptiveSet | Orbit/Assets/OscSimpl/Base/OscMessage.cs:1223-1271 | the argument's record is set and its bytes start at the returned index; a record of the same tag and size changes nothing, otherwise the records are padded with Nulls, every other argument is kept and the size cache is dropped |
| OscBaseMessages.OscMessage.RemoveAt | Orbit/Assets/OscSimpl/Base/OscMessage.cs:90-108 | an index out of range changes nothing; otherwise the record and its bytes are removed, the other arguments are kept in order and the size cache is dropped |
| OscBaseMessages.OscMessage.Size | Orbit/Assets/OscSimpl/Base/OscMessage.cs:922-941 | Size() is the length of the message's wire form; it caches the value but, as written, does not mark the cache clean |
| OscBaseMessages.OscMessage.GetAddressHash | Orbit/Assets/OscSimpl/Base/OscMessage.cs:1202-1211 | the hash returned is the lossy hash of the current address and the hash cache is clean afterwards |
| OscBaseMessages.OscMessage.TryWriteTo | Orbit/Assets/OscSimpl/Base/OscMessage.cs:945-996 | from an aligned index the write succeeds exactly when the wire form fits, then writes exactly it, advances by its length and caches the size; on failure nothing is written |
| OscBaseMessages.OscMessage.ValidateTryGet | Orbit/Assets/OscSimpl/Base/OscMessage.cs:1274-1318 | the corrected check accepts exactly an index in range whose argument has the requested type |
| OscBaseMessages.OscMessage.ValidateTryGetAsWritten | Orbit/Assets/OscSimpl/Base/OscMessage.cs:1274-1318 | the guard as written: whenever it accepts, the index is in range and of the requested type, but it also refuses some arguments whose bytes are present |
| OscBaseMessages.OscMessage.TryReadFromAsWritten | Orbit/Assets/OscSimpl/Base/OscMessage.cs:1000-1099 | as written: Clear runs only when the message has arguments, so the hash cache is dropped only then; each outcome of the list read sets the address, records, payload, cached size and index as the source does, and a success gives the parsed arguments |
| OscBaseMessages.OscMessage.Store | Orbit/Assets/OscSimpl/Base/OscMessage.cs:1017-1099 | the state a list read leaves in a cleared message, outcome by outcome |
| OscBaseMessages.OscMessage.TryReadFrom | Orbit/Assets/OscSimpl/Base/OscMessage.cs:1000-1099 | corrected read, always clearing first: a parse yields the address and arguments and advances past the message, caching the size only from an aligned index; a refused or thrown read leaves no arguments and a dirty size |
| OscPackets.BundlePrefixIsOscString | Orbit/Assets/OscSimpl/Runtime/Base/OscBundle.cs:133-146 | the bundle prefix bytes TryWriteHeader copies are exactly the OSC-string encoding of "#bundle" |
| OscPackets.ChildrenSizeGrows | Orbit/Assets/OscSimpl/Runtime/Base/OscBundle.cs:224-233 | the running total Size() builds over a bundle's children never shrinks as more children are counted |
| OscPackets.Encode | Orbit/Assets/OscSimpl/Runtime/Base/OscBundle.cs:77-130 | the bytes a packet sends are exactly Size() long, for messages and for bundles at every depth |
| OscPackets.ChildrenWire | Orbit/Assets/OscSimpl/Runtime/Base/OscBundle.cs:104-127 | the bytes the child loop of TryWriteTo sends are exactly as long as the sizes Size() adds up, each non-null child taking a 4-byte length plus its own bytes and a null child taking none |
| OscPackets.RaisedUnder | Orbit/Assets/OscSimpl/Runtime/Base/OscBundle.cs:108-111 | raising leaves a message unchanged, keeps the number of a bundle's children, and gives the bundle the later of its own time tag and its parent's |
| OscPackets.RaisedChild | Orbit/Assets/OscSimpl/Runtime/Base/OscBundle.cs:106-111 | raising keeps a null child null and a present child present |
| OscPackets.Later | Orbit/Assets/OscSimpl/Runtime/Base/OscBundle.cs:109-110 | the time tag a nested bundle ends with is one of its own and its parent's and is no earlier than either |
| OscPackets.LiftedThenRaised | Orbit/Assets/OscSimpl/Runtime/Base/OscBundle.cs:108-111 | writing a bundle whose time tag was first lifted to a floor raises it exactly as raising under that floor does |
| OscPackets.RaisedIsOrdered | Orbit/Assets/OscSimpl/Runtime/Base/OscBundle.cs:108-111 | after TryWriteTo's raising, every nested bundle's time tag is at or after its parent's, at every depth |
| OscPackets.RaisedOfOrdered | Orbit/Assets/OscSimpl/Runtime/Base/OscBundle.cs:108-111 | raising changes nothing in a packet whose time tags are already ordered |
| OscPackets.RaisedIdempotent | Orbit/Assets/OscSimpl/Runtime/Base/OscBundle.cs:108-111 | raising twice gives the same packet as raising once, so writing a bundle a second time sends the same bytes |
| OscPackets.RaisedNeverLowers | Orbit/Assets/OscSimpl/Runtime/Base/OscBundle.cs:108-111 | raising never moves a bundle's time tag earlier, and a nested bundle child ends with the later of its own time tag and its raised parent's |
| OscPackets.RaisedSize | Orbit/Assets/OscSimpl/Runtime/Base/OscBundle.cs:224-233 | raising the time tags does not change the size of a packet, so the capacity check made before the raising still holds after it |
| OscPackets.RaisedChildrenSize | Orbit/Assets/OscSimpl/Runtime/Base/OscBundle.cs:224-233 | raising the time tags does not change the size of any prefix of a bundle's children |
| OscPackets.Compact | Orbit/Assets/OscSimpl/Runtime/Base/OscBundle.cs:106 | leaving out null children keeps a message as it is and keeps a bundle's time tag |
| OscPackets.CompactChildren | Orbit/Assets/OscSimpl/Runtime/Base/OscBundle.cs:106 | leaving out null children never gives more children than there were |
| OscPackets.CompactSendsSame | Orbit/Assets/OscSimpl/Runtime/Base/OscBundle.cs:104-127 | a bundle with its null children removed sends exactly the same bytes, since TryWriteTo skips null children |
| OscPackets.CompactChildrenSendSame | Orbit/Assets/OscSimpl/Runtime/Base/OscBundle.cs:104-127 | the children of a bundle send the same bytes with or without its null children |
| OscPackets.CompactKeepsChild | Orbit/Assets/OscSimpl/Runtime/Base/OscBundle.cs:104-127 | a present child adds its length and its own compacted bytes after the bytes of the children before it |
| OscPackets.CompactIsDense | Orbit/Assets/OscSimpl/Runtime/Base/OscBundle.cs:106 | after leaving out null children, no bundle at any depth holds a null child |
| OscPackets.CompactChildrenDense | Orbit/Assets/OscSimpl/Runtime/Base/OscBundle.cs:106 | the compacted children of a bundle hold no null child at any depth |
| OscPackets.ChildrenWirePrefix | Orbit/Assets/OscSimpl/Runtime/Base/OscBundle.cs:104-127 | the bytes sent for the first n children depend only on those n children |
| OscPackets.ArgAligned | Orbit/Assets/OscSimpl/Runtime/Base/Internal/OscData/BlobOscData.cs:345-356 | every well-formed argument value is a multiple of four bytes long |
| OscPackets.PayloadAligned | Orbit/Assets/OscSimpl/Runtime/Base/OscMessage.cs:1048-1069 | a payload made of arguments whose bytes are multiples of four is a multiple of four long |
| OscPackets.SizeAligned | Orbit/Assets/OscSimpl/Runtime/Base/OscBundle.cs:224-233 | the size of every well-formed packet is a multiple of four, so every child a bundle writes starts on a 4-byte boundary |
| OscPackets.ChildrenAligned | Orbit/Assets/OscSimpl/Runtime/Base/OscBundle.cs:224-233 | the size of any prefix of a well-formed bundle's children is a multiple of four |
| OscPackets.RaisedWellFormed | Orbit/Assets/OscSimpl/Runtime/Base/OscBundle.cs:108-111 | raising the time tags keeps a packet well formed |
| OscPacketRead.ReadPacket | Orbit/Assets/OscSimpl/Runtime/Base/Internal/OscPacket.cs:19-46 | OscPacket.TryReadFrom either reads a packet and ends past where it started, or refuses and leaves the index at or after the start, or throws |
| OscPacketRead.Dispatch | Orbit/Assets/OscSimpl/Runtime/Base/Internal/OscPacket.cs:29-43 | '#' leads to the bundle reader and '/' to the message reader; a packet read ends past its first byte, and a refusal never moves the index back |
| OscPacketRead.ReadMessageAt | Orbit/Assets/OscSimpl/Runtime/Base/Internal/OscPacket.cs:35-39 | a message read at a '/' gives a message packet and ends past its first byte; a refused message leaves the index at or after the start |
| OscPacketRead.RejectedAdvances | Orbit/Assets/OscSimpl/Runtime/Base/OscMessage.cs:1115-1217 | a message refused by TryReadFrom leaves the index at or after where reading started |
| OscPacketRead.ReadBundle | Orbit/Assets/OscSimpl/Runtime/Base/OscBundle.cs:149-218 | a bundle read gives a bundle packet and ends past its first byte; a refusal leaves the index at or after the start |
| OscPacketRead.ReadChildren | Orbit/Assets/OscSimpl/Runtime/Base/OscBundle.cs:178-214 | the child loop gives a bundle whose read ends at or after where the loop started, or refuses at or after that point |
| OscPacketRead.ReadChild | Orbit/Assets/OscSimpl/Runtime/Base/OscBundle.cs:182-213 | reading one length-prefixed child either goes on with the loop, ends it, or refuses, never moving back |
| OscPacketRead.PrefixMismatch | Orbit/Assets/OscSimpl/Runtime/Base/OscBundle.cs:236-240 | the position where ReadAndValidatePrefix stops lies within the 8 prefix bytes |
| OscPacketRead.PrefixMismatchFirst | Orbit/Assets/OscSimpl/Runtime/Base/OscBundle.cs:236-240 | every prefix byte before the stopping position matches, and the byte at it (if any) does not |
| OscPacketRead.PrefixMatches | Orbit/Assets/OscSimpl/Runtime/Base/OscBundle.cs:236-240 | the comparison runs through all 8 bytes exactly when the bytes at the index are the bundle prefix |
| OscPacketRead.ReadAndValidatePrefix | Orbit/Assets/OscSimpl/Runtime/Base/OscBundle.cs:236-240 | returns true exactly when the bytes at the index are "#bundle\0"; on success the index moves past all 8 bytes, on failure it stops one past the first byte that differs |
| OscPacketRead.TryReadPacket | Orbit/Assets/OscSimpl/Runtime/Base/Internal/OscPacket.cs:19-46 | OscPacket.TryReadFrom over a byte array gives exactly the outcome of the reading on values |
| OscPacketRead.TryReadBundle | Orbit/Assets/OscSimpl/Runtime/Base/OscBundle.cs:149-218 | OscBundle.TryReadFrom over a byte array gives exactly the outcome of the reading on values |
| OscPacketRead.ReadChildrenFrom | Orbit/Assets/OscSimpl/Runtime/Base/OscBundle.cs:178-214 | the child loop over a byte array gives exactly the outcome of the reading on values |
| OscPacketRead.HeaderRead | Orbit/Assets/OscSimpl/Runtime/Base/OscBundle.cs:154-178 | after a bundle prefix and a time tag, the bundle reader reads the children from the end of the 16-byte header with that time tag |
| OscPacketRead.PrefixRefused | Orbit/Assets/OscSimpl/Runtime/Base/OscBundle.cs:160-165 | a buffer whose bytes are not the bundle prefix is refused, with the index one past the first byte that differs |
| OscPacketRead.ChildrenStop | Orbit/Assets/OscSimpl/Runtime/Base/OscBundle.cs:178-187 | at or past the byte count, or with fewer than four bytes left, the loop ends and the bundle holds the children read so far |
| OscPacketRead.ChildrenEmpty | Orbit/Assets/OscSimpl/Runtime/Base/OscBundle.cs:184-187 | a child length of zero ends the loop in the current version, after the four length bytes |
| OscPacketRead.ChildrenOverrun | Orbit/Assets/OscSimpl/Runtime/Base/OscBundle.cs:189-201 | a child length reaching past the end of the buffer refuses the whole bundle, with the index just after the length |
| OscPacketRead.ChildGot | Orbit/Assets/OscSimpl/Runtime/Base/OscBundle.cs:205-209 | a child read within its own length is added to the bundle and the loop goes on from where the child ended |
| OscPacketRead.ChildSkipped | Orbit/Assets/OscSimpl/Base/OscBundle.cs:179-184 | in the older reader a refused child is left out and the loop goes on from where the refusal left the index |
| OscPacketRead.ChildFailed | Orbit/Assets/OscSimpl/Runtime/Base/OscBundle.cs:207-213 | in the current reader a refused child refuses the whole bundle; in either reader an exception out of a child propagates |
| OscBundles.WrittenAtBefore | Orbit/Assets/OscSimpl/Runtime/Base/OscBundle.cs:100-127 | two writes placed one after the other amount to writing their concatenation |
| OscBundles.TryWriteHeader | Orbit/Assets/OscSimpl/Runtime/Base/OscBundle.cs:133-146 | succeeds exactly when 16 bytes fit, then writes the bundle prefix and the big-endian time tag and moves the index past them; otherwise the buffer and the index are unchanged |
| OscBundles.WriteLength | Orbit/Assets/OscSimpl/Runtime/Base/OscBundle.cs:122-126 | a child's byte length is written big-endian in the four bytes reserved before the child |
| OscBundles.WritePacket | Orbit/Assets/OscSimpl/Runtime/Base/OscBundle.cs:77-130 | writing a packet succeeds exactly when it fits, and then writes exactly the bytes of that packet with its nested time tags raised; otherwise nothing changes |
| OscBundles.WriteBundle | Orbit/Assets/OscSimpl/Runtime/Base/OscBundle.cs:100-129 | a bundle that fits is written as its header followed by every non-null child, each after its length, with nested time tags raised, ending Size() bytes later |
| OscBundles.WriteEntry | Orbit/Assets/OscSimpl/Runtime/Base/OscBundle.cs:104-127 | one step of the child loop extends the bytes written so far by the next child's bytes, skipping a null child |
| OscBundles.WriteChildAt | Orbit/Assets/OscSimpl/Runtime/Base/OscBundle.cs:113-126 | a child is written as its 4-byte length followed by its raised bytes, after everything written before it |
| OscBundles.WriteChild | Orbit/Assets/OscSimpl/Runtime/Base/OscBundle.cs:113-126 | writes a child's 4-byte length and then its bytes, with time tags raised under its parent, ending 4 + Size() bytes on |
| OscBundles.ChildStep | Orbit/Assets/OscSimpl/Runtime/Base/OscBundle.cs:113-126 | a present child adds 4 plus its size to the running size and its length and raised bytes to the running bytes |
| OscBundles.ChildFits | Orbit/Assets/OscSimpl/Runtime/Base/OscBundle.cs:89-98 | once the whole bundle passed the capacity check, every child and its length fit in the buffer |
| OscBundles.ChildAppended | Orbit/Assets/OscSimpl/Runtime/Base/OscBundle.cs:113-126 | the header and the children written so far, followed by the next child's bytes, are the header and the children up to that child |
| OscBundles.NullStep | Orbit/Assets/OscSimpl/Runtime/Base/OscBundle.cs:106 | a null child adds nothing to the size and nothing to the bytes |
| OscBundles.OscBundle.AsPacket | Orbit/Assets/OscSimpl/Runtime/Base/OscBundle.cs:20-38 | a bundle object is the bundle packet of its time tag and its list of packets |
| OscBundles.OscBundle.constructor | Orbit/Assets/OscSimpl/Runtime/Base/OscBundle.cs:48-52 | a new bundle has the given time tag and no packets |
| OscBundles.OscBundle.Add | Orbit/Assets/OscSimpl/Runtime/Base/OscBundle.cs:57-60 | Add appends the packet, null included, and keeps the time tag |
| OscBundles.OscBundle.Clear | Orbit/Assets/OscSimpl/Runtime/Base/OscBundle.cs:66-73 | Clear empties the packet list and resets the time tag to "immediately" |
| OscBundles.OscBundle.ClearKeepingTimeTag | Orbit/Assets/OscSimpl/Base/OscBundle.cs:64-70 | the older Clear empties the packet list but keeps the time tag |
| OscBundles.OscBundle.Size | Orbit/Assets/OscSimpl/Runtime/Base/OscBundle.cs:224-233 | Size() is the length of the bytes the bundle sends and is at least the 16-byte header |
| OscBundles.OscBundle.TryWriteTo | Orbit/Assets/OscSimpl/Runtime/Base/OscBundle.cs:77-130 | succeeds exactly when the bundle fits; then the bundle's nested time tags are raised, its size is unchanged, and the buffer holds exactly its bytes; otherwise neither the bundle nor the buffer changes |
| OscPacketRoundTrip.SendableWellFormed | Orbit/Assets/OscSimpl/Runtime/Base/OscBundle.cs:224-233 | every packet that can be sent and read back is well formed, so its size is a multiple of four |
| OscPacketRoundTrip.RaisedSendable | Orbit/Assets/OscSimpl/Runtime/Base/OscBundle.cs:108-111 | raising the time tags keeps a packet sendable |
| OscPacketRoundTrip.BundleEncoded | Orbit/Assets/OscSimpl/Runtime/Base/OscBundle.cs:100-127 | a bundle's bytes are its prefix, its big-endian time tag and then its children's bytes |
| OscPacketRoundTrip.BundleBytes | Orbit/Assets/OscSimpl/Runtime/Base/OscBundle.cs:154-175 | a buffer holding a bundle's bytes starts with '#', holds the bundle prefix, the bundle's time tag and then the children |
| OscPacketRoundTrip.MessageStartsWithSlash | Orbit/Assets/OscSimpl/Runtime/Base/Internal/OscPacket.cs:35 | a written message starts with '/', so OscPacket.TryReadFrom hands it to the message reader |
| OscPacketRoundTrip.MessageDispatched | Orbit/Assets/OscSimpl/Runtime/Base/Internal/OscPacket.cs:35-45 | a '/' before the byte count leads to the message the message reader parses, ending where it ended |
| OscPacketRoundTrip.MessageReadBack | Orbit/Assets/OscSimpl/Runtime/Base/Internal/OscPacket.cs:19-46 | a written message whose address is a '/'-led ASCII string is read back as the same message, ending where the write ended |
| OscPacketRoundTrip.LengthReadBack | Orbit/Assets/OscSimpl/Runtime/Base/OscBundle.cs:183-189 | a child length written big-endian is read back as the same number |
| OscPacketRoundTrip.ReadBack | Orbit/Assets/OscSimpl/Runtime/Base/Internal/OscPacket.cs:19-46 | a packet held in the buffer is read back as that packet without its null children, ending exactly where its bytes end |
| OscPacketRoundTrip.BundleReadBack | Orbit/Assets/OscSimpl/Runtime/Base/OscBundle.cs:149-218 | a sendable bundle held in the buffer is read back as that bundle without its null children, ending exactly at its end |
| OscPacketRoundTrip.ChildrenReadBack | Orbit/Assets/OscSimpl/Runtime/Base/OscBundle.cs:178-214 | from any child onward, the child loop reads back the remaining children and ends exactly at the bundle's end |
| OscPacketRoundTrip.WrittenReadsBack | Orbit/Assets/OscSimpl/Runtime/Base/OscBundle.cs:77-218 | what OscBundle.TryWriteTo writes is read back by OscPacket.TryReadFrom as the same packet with raised time tags and without null children, ending where the write ended |
| OscLegacyBundleRead.EmptyBytes | Orbit/Assets/OscSimpl/Runtime/Base/OscBundle.cs:133-146 | an empty bundle with time tag 0 is 16 bytes: the prefix and eight zero bytes |
| OscLegacyBundleRead.PairBytes | Orbit/Assets/OscSimpl/Runtime/Base/OscBundle.cs:77-130 | a bundle holding two empty bundles sends 56 bytes: its header and two length-16 empty bundles |
| OscLegacyBundleRead.ZeroHeaderRead | Orbit/Assets/OscSimpl/Runtime/Base/OscBundle.cs:154-178 | a 16-byte header with time tag 0 is read by either reader as the start of a time-tag-0 bundle whose children follow |
| OscLegacyBundleRead.LegacyLast | Orbit/Assets/OscSimpl/Base/OscBundle.cs:144-189 | the older reader reads the last empty bundle at byte 40 as an empty bundle ending at 56 |
| OscLegacyBundleRead.LegacyFirst | Orbit/Assets/OscSimpl/Base/OscBundle.cs:169-185 | the older reader reads the first child at byte 20 on to the end of the outer bundle, taking the second empty bundle as its own child |
| OscLegacyBundleRead.LegacyNestsSibling | Orbit/Assets/OscSimpl/Base/OscBundle.cs:179-181 | the older reader reads two sibling bundles back as one bundle nested inside the other |
| OscLegacyBundleRead.LegacySwallowsSibling | Orbit/Assets/OscSimpl/Base/OscBundle.cs:179-181 | the same 56 bytes are read back as the two siblings by the current reader and as something else by the older one |
| OscPools.TopIsMember | Orbit/Assets/OscSimpl/Runtime/Base/OscPool.cs:88-89 | the message GetMessage pops is one the pool holds |
| OscPools.MembersPushed | Orbit/Assets/OscSimpl/Runtime/Base/OscPool.cs:41-57 | Recycle adds at most the recycled message to the messages the pool holds |
| OscPools.MembersPopped | Orbit/Assets/OscSimpl/Runtime/Base/OscPool.cs:88-90 | popping a message never adds one to what the pool holds |
| OscPools.TotalWithout | Orbit/Assets/OscSimpl/Runtime/Base/OscPool.cs:18-20 | the pool's message count splits into one stack's messages and the rest |
| OscPools.TotalUpdated | Orbit/Assets/OscSimpl/Runtime/Base/OscPool.cs:55-56 | replacing one stack changes the message count by exactly the change in that stack's length |
| OscPools.TotalBounded | Orbit/Assets/OscSimpl/Runtime/Base/OscPool.cs:23 | with every stack within the safety capacity, the pool holds at most 1000 messages per bucket |
| OscPools.PushedCounts | Orbit/Assets/OscSimpl/Runtime/Base/OscPool.cs:41-57 | Recycle keeps the pool within 1000 buckets of 1000 messages, and adds one message exactly when there is room under the message's hash |
| OscPools.PoppedCounts | Orbit/Assets/OscSimpl/Runtime/Base/OscPool.cs:88-90 | taking a message keeps the pool bounded and lowers the count by one |
| OscPools.PushThenPop | Orbit/Assets/OscSimpl/Runtime/Base/OscPool.cs:41-93 | a message recycled where there is room is the next one handed out for that hash, and taking it leaves the stacks as they were (with an empty bucket where there was none) |
| OscPools.OscPool.constructor | Orbit/Assets/OscSimpl/Runtime/Base/OscPool.cs:26-30 | a new pool holds no message stacks and no bundles, and its counters are zero |
| OscPools.OscPool.RecycleMessage | Orbit/Assets/OscSimpl/Runtime/Base/OscPool.cs:41-57 | a null message changes nothing; otherwise the message goes on the stack of its address hash when there is room, the count rising by one exactly then, and the message is left as it was |
| OscPools.OscPool.Push | Orbit/Assets/OscSimpl/Runtime/Base/OscPool.cs:46-56 | pushes a message under a hash when there is room and counts it, keeping the pool's invariant |
| OscPools.OscPool.RecycleBundle | Orbit/Assets/OscSimpl/Runtime/Base/OscPool.cs:63-68 | a non-null bundle is pushed when the pool holds at most 1000 bundles; the message stacks are untouched |
| OscPools.OscPool.Recycle | Orbit/Assets/OscSimpl/Runtime/Base/OscPool.cs:74-79 | a packet is recycled as a message or as a bundle by what it is; null changes nothing |
| OscPools.OscPool.GetMessage | Orbit/Assets/OscSimpl/Runtime/Base/OscPool.cs:82-103 | hands out the top message of the hash's stack, cleared, and lowers the count; with no recycled message a new empty one is made and counted |
| OscPools.OscPool.GetMessageFor | Orbit/Assets/OscSimpl/Runtime/Base/OscPool.cs:106-138 | hands out the top message of the address hash's stack, cleared, with the address set only when it differs; with none a new message for that address is made and counted |
| OscPools.OscPool.TakeTop | Orbit/Assets/OscSimpl/Runtime/Base/OscPool.cs:88-92 | takes the top message of a non-empty stack, clears its arguments and keeps its address |
| OscPools.OscPool.Pop | Orbit/Assets/OscSimpl/Runtime/Base/OscPool.cs:88-90 | removes the top message of a non-empty stack and lowers the count by one |
| OscPools.OscPool.GetBundle | Orbit/Assets/OscSimpl/Runtime/Base/OscPool.cs:141-149 | hands out the last recycled bundle cleared (no packets, time tag reset), or a new empty bundle stamped with the current time |
| SerializedOscMessageBuffers.OffsetIsLength | Orbit/Assets/OscSimpl/Runtime/Base/Internal/SerializedOscMessageBuffer.cs:45-50 | the sum of the first n recorded sizes is the length of the first n messages' bytes |
| SerializedOscMessageBuffers.ConcatPrefix | Orbit/Assets/OscSimpl/Runtime/Base/Internal/SerializedOscMessageBuffer.cs:45-49 | the bytes of the first n messages are a prefix of the bytes of all of them |
| SerializedOscMessageBuffers.MessageAt | Orbit/Assets/OscSimpl/Runtime/Base/Internal/SerializedOscMessageBuffer.cs:63-67 | the i-th message's bytes are found at the sum of the sizes before it, running for its own recorded size |
| SerializedOscMessageBuffers.Grown | Orbit/Assets/OscSimpl/Runtime/Base/Internal/SerializedOscMessageBuffer.cs:37-42 | the corrected growth is at least one capacity step and at least what the message needs, and agrees with the source whenever one step suffices |
| SerializedOscMessageBuffers.GrowthFits | Orbit/Assets/OscSimpl/Runtime/Base/Internal/SerializedOscMessageBuffer.cs:37-46 | after the corrected growth the message always fits behind the occupied bytes |
| SerializedOscMessageBuffers.GrowthTooSmall | Orbit/Assets/OscSimpl/Runtime/Base/Internal/SerializedOscMessageBuffer.cs:38-39 | with a capacity step of 4, a 12-byte message in a full 4-byte buffer still does not fit after the source's one-step growth, but does after the corrected growth |
| SerializedOscMessageBuffers.WireAligned | Orbit/Assets/OscSimpl/Runtime/Base/Internal/SerializedOscMessageBuffer.cs:45-49 | a message's bytes are a multiple of four long, so every message in the buffer starts aligned |
| SerializedOscMessageBuffers.NewBuffer | Orbit/Assets/OscSimpl/Runtime/Base/Internal/SerializedOscMessageBuffer.cs:24-29 | the constructor throws exactly for a negative capacity (`new byte[capacity]`); otherwise the new buffer has the capacity as its length and its growth step, and holds no messages |
| SerializedOscMessageBuffers.SerializedOscMessageBuffer.Count | Orbit/Assets/OscSimpl/Runtime/Base/Internal/SerializedOscMessageBuffer.cs:19 | count is the number of messages held |
| SerializedOscMessageBuffers.SerializedOscMessageBuffer.GrowTo | Orbit/Assets/OscSimpl/Runtime/Base/Internal/SerializedOscMessageBuffer.cs:39-41 | growing copies the occupied bytes into a new, longer array and keeps every message |
| SerializedOscMessageBuffers.SerializedOscMessageBuffer.Append | Orbit/Assets/OscSimpl/Runtime/Base/Internal/SerializedOscMessageBuffer.cs:48-50 | recording a written message adds its bytes and its size, and the occupied size moves past it |
| SerializedOscMessageBuffers.SerializedOscMessageBuffer.Add | Orbit/Assets/OscSimpl/Runtime/Base/Internal/SerializedOscMessageBuffer.cs:32-53 | with the corrected growth, Add always appends the message's bytes and its size, and the message itself is unchanged |
| SerializedOscMessageBuffers.SerializedOscMessageBuffer.WriteAfter | Orbit/Assets/OscSimpl/Runtime/Base/Internal/SerializedOscMessageBuffer.cs:45-46 | the write behind the occupied bytes succeeds exactly when the message fits, and then leaves the earlier messages' bytes followed by this one's; otherwise the buffer is unchanged |
| SerializedOscMessageBuffers.SerializedOscMessageBuffer.AddAsWritten | Orbit/Assets/OscSimpl/Runtime/Base/Internal/SerializedOscMessageBuffer.cs:32-53 | the source's Add records the size in every case, but the message's bytes only when one growth step made room; otherwise the recorded sizes no longer match the bytes |
| SerializedOscMessageBuffers.SerializedOscMessageBuffer.Clear | Orbit/Assets/OscSimpl/Runtime/Base/Internal/SerializedOscMessageBuffer.cs:56-60 | Clear forgets every message and the occupied size but keeps the array |
| SerializedOscMessageBuffers.SerializedOscMessageBuffer.GetSize | Orbit/Assets/OscSimpl/Runtime/Base/Internal/SerializedOscMessageBuffer.cs:63-67 | the size of the message at a valid index, and 0 for any index out of range |
| StringBuilderExtensions.DigitChar | Orbit/Assets/OscSimpl/Runtime/Base/Internal/StringBuilderExtensions.cs:19 | a digit value maps to the character '0' to '9' whose distance from '0' is the value |
| StringBuilderExtensions.NumDigits | Orbit/Assets/OscSimpl/Runtime/Base/Internal/StringBuilderExtensions.cs:34-39 | the counting loop finds at least one digit exactly for a positive value |
| StringBuilderExtensions.Digits | Orbit/Assets/OscSimpl/Runtime/Base/Internal/StringBuilderExtensions.cs:42-49 | the digits written are exactly as many as the counting loop counted |
| StringBuilderExtensions.DigitsAreDigits | Orbit/Assets/OscSimpl/Runtime/Base/Internal/StringBuilderExtensions.cs:33-49 | every character written is a decimal digit, and a positive value has no leading zero |
| StringBuilderExtensions.DigitsRoundTrip | Orbit/Assets/OscSimpl/Runtime/Base/Internal/StringBuilderExtensions.cs:33-49 | reading the written digits back as a decimal number gives the value |
| StringBuilderExtensions.DecimalInjective | Orbit/Assets/OscSimpl/Runtime/Base/Internal/StringBuilderExtensions.cs:23-52 | two values with the same decimal text are equal |
| StringBuilderExtensions.NumDigitsBounds | Orbit/Assets/OscSimpl/Runtime/Base/Internal/StringBuilderExtensions.cs:34-39 | a positive value with k digits lies between 10^(k-1) and 10^k |
| StringBuilderExtensions.DigitCountLimits | Orbit/Assets/OscSimpl/Runtime/Base/Internal/StringBuilderExtensions.cs:34-39 | a uint has at most 10 digits and a ulong at most 20 |
| StringBuilderExtensions.AppendDigits | Orbit/Assets/OscSimpl/Runtime/Base/Internal/StringBuilderExtensions.cs:33-49 | appending '0' placeholders and overwriting them from the right leaves the builder's old text followed by the value's digits |
| StringBuilderExtensions.AppendUInt | Orbit/Assets/OscSimpl/Runtime/Base/Internal/StringBuilderExtensions.cs:23-52 | AppendGarbageFree(uint) appends the value's decimal text ("0" for zero) and then 'u' when asked |
| StringBuilderExtensions.AppendULong | Orbit/Assets/OscSimpl/Runtime/Base/Internal/StringBuilderExtensions.cs:91-120 | AppendGarbageFree(ulong) appends the value's decimal text and then "ul" when asked |
| StringBuilderExtensions.SignedRoundTrip | Orbit/Assets/OscSimpl/Runtime/Base/Internal/StringBuilderExtensions.cs:55-88 | the signed text starts with '-' exactly for a negative value and reads back as the value |
| StringBuilderExtensions.UnsignedMagnitude | Orbit/Assets/OscSimpl/Runtime/Base/Internal/StringBuilderExtensions.cs:62-64 | MaxValue - (unsigned)value + 1, wrapping, is the magnitude of a negative value, including the smallest one |
| StringBuilderExtensions.MinIntPrints | Orbit/Assets/OscSimpl/Runtime/Base/Internal/StringBuilderExtensions.cs:62-64 | the smallest int prints as '-' followed by the digits of 2147483648 |
| StringBuilderExtensions.AppendInt | Orbit/Assets/OscSimpl/Runtime/Base/Internal/StringBuilderExtensions.cs:55-88 | AppendGarbageFree(int) appends the signed decimal text of every int, without a postfix |
| StringBuilderExtensions.AppendSigned | Orbit/Assets/OscSimpl/Runtime/Base/Internal/StringBuilderExtensions.cs:55-88 | a signed value within the unsigned width is appended as its signed decimal text |
| StringBuilderExtensions.AppendLong | Orbit/Assets/OscSimpl/Runtime/Base/Internal/StringBuilderExtensions.cs:123-161 | AppendGarbageFree(long) appends the signed decimal text of every long, then 'l' when asked |
| StringBuilderExtensions.ColorText | Orbit/Assets/OscSimpl/Runtime/Base/Internal/StringBuilderExtensions.cs:271-278 | a colour prints as "RGBA(" then the four channels in decimal separated by commas and a closing ')' |
| StringBuilderExtensions.AppendColor32 | Orbit/Assets/OscSimpl/Runtime/Base/Internal/StringBuilderExtensions.cs:271-278 | AppendGarbageFree(Color32) appends exactly the colour's text |
| StringBuilderExtensions.AppendChannel | Orbit/Assets/OscSimpl/Runtime/Base/Internal/StringBuilderExtensions.cs:274-277 | one channel is appended as its decimal text without a postfix, then its separator |
| StringBuilderExtensions.ColorTextLength | Orbit/Assets/OscSimpl/Runtime/Base/Internal/StringBuilderExtensions.cs:271-278 | a colour's text is 13 to 21 characters long |

## Left out

- Networking, threading, logging, the Unity editor and UI code, reflection-based mappings and the game scripts: they are not part of the OSC engine's data path. The warnings the engine logs are not modelled.
- Floating point: `float`, `double`, vector, quaternion, rect and matrix values are modelled only as the raw bytes the fixed-width codecs move. The float and double `AppendGarbageFree` overloads are left out.
- The `TryGet`/`Set` overloads for vectors, quaternions, rects, matrices and float and int lists (`Runtime/Base/OscMessage.cs:688-1046`, `Base/OscMessage.cs:661-916`) are left out. They differ from the blob overloads only in the width of the value, and those widths are modelled by `BlobOscData.WriteFixedWidth` and `BlobOscData.ReadFixedWidth`.
- The `Encoding`-based blob string helpers in `BlobOscData` are left out: they depend on `System.Text.Encoding`.
- `OscConverter.ToArgSizeType` is commented out in the source. `ToTagByte(object)` is obsolete and works by reflection. Both are left out.
- `OscTimeTag` is not part of this model. A time tag is a 64-bit NTP value, ordered as an unsigned number, and `Reset` sets it to 1 ("immediately").
- `DateTime.Now` is a parameter (`now`) of `OscPools.OscPool.GetBundle`.
- Null references: a null address is modelled as the empty string. A null buffer passed to `TryWriteTo` is excluded, since arrays in the model are never null.
- Bundles are values, not shared objects. `OscBundle.Clear` clearing nested bundles in place, and two bundles sharing a child, are not captured. `OscBundles.OscBundle.TryWriteTo` raises the time tags of the value it holds.
- The `Base/` copy of `OscBundle.TryWriteTo`, `TryWriteHeader` and `Size` is the same code as the `Runtime/` copy and is modelled once. The older bundle reader reads its messages with the current message parser. The older message reader is modelled on its own in `OscListMessages`.
- OscMessages.OscMessage.TryReadFrom: requires the message as the pool hands it out (no arguments, both caches dirty). Reading into a caller-supplied message that still holds arguments is not modelled; the source only resets the count there (`Runtime/Base/OscMessage.cs:1128-1129`), which leaves the cached size and hash of the old message in place.
- OscMessages.OscMessage.TryWriteTo: requires a 4-aligned start index, so the model covers only aligned writes. From an unaligned index the source pads the address with `4 - index % 4` NULs (`Runtime/Base/OscMessage.cs:1101`), so its bytes differ from the aligned ones: "/" written at index 1 takes 7 bytes where `Size()` is 8.
- OscMessages.OscMessage.TryWriteTo: the index is a `nat`. A negative `ref int index` makes the source throw on its first write into the buffer, which is not modelled.
- OscMessages.OscMessage.TryReadFrom: the index is a `nat`. A negative index makes the source throw on its first read of the buffer, which is not modelled.
- The byte codecs (`FourByteOscData`, `EightByteOscData`, the twelve-, sixteen- and sixty-four-byte codecs, `StringOscData`, `BlobOscData`) and the packet reader and writer take their `ref int index` as a `nat`. A negative index makes the source throw at its first array access, which is not modelled.
- OscBaseMessages.OscMessage.TryWriteTo: requires a 4-aligned start index, so the model covers only aligned writes, as for the current class.
- OscBaseMessages.OscMessage.TryWriteTo: the index is a `nat`. A negative `ref int index` makes the source throw on its first write into the buffer, which is not modelled.
- OscBaseMessages.OscMessage.TryReadFromAsWritten: the index is a `nat`. A negative index makes the source throw when it first reads the buffer (`Base/OscMessage.cs:1000-1099`), which is not modelled.
- OscBaseMessages.OscMessage.TryReadFrom: the index is a `nat`, for the same reason as the as-written read; the throw on a negative index is not modelled.
- OscBaseMessages.OscMessage.GetAddressHash: requires an address shorter than 2^31 characters, the length of a .NET string.
- OscBaseMessages.OscMessage.AdaptiveSet: requires a tag other than '?', which no caller passes. With '?' and a size of 0 the record matches the undefined record past the end, so the source returns `GetDataIndex(index)` unchanged (`Base/OscMessage.cs:1223-1230`): at `index == Count` that is the payload size, and at `index > Count` the sum runs past the list and throws. Neither case is modelled.
- OscBaseMessages.OscMessage.AdaptiveSet: the index is a `nat`. A negative index passes `index < _argInfo.Count` and the source throws at `_argInfo[index]` (`Base/OscMessage.cs:1223-1226`), which is not modelled.
- OscMessages.OscMessage.AdaptiveSet: like every `Set` and `Add` that calls it, requires the new payload to stay within the largest .NET array, where the source would throw `OutOfMemoryException`. The index is a `nat`, because a negative index makes the source throw.
- OscMessages.OscMessage.SetBlob: requires a blob shorter than 2^31 bytes, the length of a .NET array.
- OscAdaptAsWritten.AdaptiveSetAsWritten: models the records, count, payload size, size-cache flag and payload array length of the source's `AdaptiveSet`, and when it throws; not the payload bytes. The bytes are modelled only by the corrected `OscMessageEdits.Adapt`.
- OscBaseMessages.OscMessage.TryReadFrom: sizes a blob argument with the corrected measure (`OscMessageParse.ArgSize`), which refuses a blob whose size prefix does not fit. The source's `Base/` reader also ignores `TryEvaluateByteCount`'s result; that is shown for the current reader by `OscMessageParse.BlobSizeAsWrittenIsWrong`.
- BlobOscData.ReadIntList: a null list given together with a negative size prefix makes the source throw in `new List<int>(count)`; the model reads into a list value and does not model that exception.
- OscPools.OscPool.Recycle: the pool's invariant does not say that a message sits under the hash of its current address. A message that is recycled and then renamed by its holder breaks that, and the source does not prevent it.
- The exceptions the source throws on the data path (an index past the buffer, an overflowing copy) are modelled as an outcome (`Throws`, `Threw`, `Crashed`), except where a line of this section names a precondition. Which exception is thrown is not modelled.
- Strings: the model's strings are sequences of Unicode scalar values and `Utf16` yields well-formed UTF-16, so a C# string holding an unpaired surrogate cannot be expressed; the matcher and the hashes are modelled for every other string.
- OscAddress.IsMatching: requires two non-empty addresses. The source reads `address1[0]` and `address2[0]` before any check (`Runtime/Base/Internal/OscAddress.cs:101-102`), so an empty address throws there; that throw is not modelled.
- OscStringHash.PackBytes: requires `index < data.Length` for a non-empty buffer. The source reads `data[index]` first (`Runtime/Base/Internal/OscStringHash.cs:34`), so an index past the end throws; that throw is not modelled.
- LossyOscStringHash.PackBytes: requires `index < data.Length` for a non-empty buffer, for the same reason (`Base/Internal/OscStringHash.cs:70-87`).
- StringOscData.EvaluateByteCount: counts characters (Unicode scalar values) where the source counts UTF-16 code units. The two agree within the Basic Multilingual Plane (`StringOscData.BmpByteCount`); for text outside it the model is smaller (`StringOscData.AstralTextSizedApart`).
- StringOscData.EncodeAscii: gives the bytes `Encoding.ASCII` writes, one '?' for a character outside the Basic Multilingual Plane (one surrogate pair), but not the room the source reserves for them, one byte per UTF-16 code unit (`Runtime/Base/Internal/OscData/StringOscData.cs:118-125`). Unpaired surrogates cannot occur in the model's strings.
- StringOscData.Encode: for text outside the Basic Multilingual Plane the source's OSC-string is one byte per UTF-16 code unit plus padding, and the byte after each such character's '?' is left as it was in the buffer; the model's is one byte per character plus padding. Within the plane they agree.
- StringOscData.TryWriteTo: writes `Encode`, so for text outside the Basic Multilingual Plane its fit check, its bytes and the index it advances to differ from the source's in the same way.
- OscMessageEdits.RebaseAfterRemove: computes byte indices as unbounded integers. The source accumulates them in a `short` (`Runtime/Base/OscMessage.cs:117-128`), which wraps once the payload passes 32767 bytes; `Bytes.Short` and the Findings rows on the cast show that effect.
- OscMessageEdits.RemoveRecord: relies on `RebaseAfterRemove`, so it does not model the `short` wrap of the byte indices either.
- OscMessages.OscMessage.RemoveAt: does not model the `short` wrap of the byte indices it rebases, as for `RebaseAfterRemove`.
- OscMessages.OscMessage.SetString: records the string's size as an `int`. The source casts it to `short` (`Runtime/Base/OscMessage.cs:502`), so a string of 32764 characters or more gets a wrong or negative size.
- OscMessages.OscMessage.AddString: records the size and byte index as `int`s. The source casts both to `short` (`Runtime/Base/OscMessage.cs:502`, `1356`), so an argument starting past 32767 bytes gets a negative index (`OscAdaptAsWritten.LongStringsWrapStart`).
- OscMessages.OscMessage.SetBlob: records the blob's size as an `int`. The source casts it to `short` (`Runtime/Base/OscMessage.cs:552`), so a blob of 32761 bytes or more gets a negative size and the allocation throws (`OscAdaptAsWritten.LargeBlobThrows`).
- OscMessages.OscMessage.AddBlob: does not model the `short` cast of the size and byte index, as for `SetBlob` and `AddString`.
- OscMessages.OscMessage.AdaptiveSet: keeps byte indices as `int`s, where the source casts an appended argument's byte index to `short` (`Runtime/Base/OscMessage.cs:1356`); the cast is modelled only in `OscAdaptAsWritten.AdaptiveSetAsWritten`.
- OscMessageEdits.Adapt: keeps byte indices as `int`s, like `OscMessages.OscMessage.AdaptiveSet`.
- OscMessages.OscMessage.TryReadFrom: stores record sizes and indices as `int`s. The source casts them to `short` (`Runtime/Base/OscMessage.cs:1195`), so a message whose payload passes 32767 bytes gets wrapped indices.
- OscMessageReader.MeasureRecords: totals the record sizes as `int`s, without the `short` cast of `Runtime/Base/OscMessage.cs:1195`.
- OscMessageParse.Records: specifies the records with `int` sizes and indices, without the `short` cast of `Runtime/Base/OscMessage.cs:1195`.
- `ToString` and the `StringBuilder` formatting of messages and bundles are left out, apart from the integer and colour appenders in `StringBuilderExtensions`.

## Findings

| source | as written | input that shows it | evidently intended | confidence | as-written member | corrected member |
|---|---|---|---|---|---|---|
| Orbit/Assets/OscSimpl/Runtime/Base/Internal/OscData/StringOscData.cs:71 | the old text is replaced only when a scanned character differs or the new text is longer | reading "ab" into a string holding "abcd" leaves "abcd" | the text read replaces the old one whenever they differ, shorter included | not executed | StringOscData.PrefixTextIsKept | StringOscData.TryReadText |
| Orbit/Assets/OscSimpl/Runtime/Base/Internal/OscData/BlobOscData.cs:350 | the blob writer refuses when `index + blobByteCount < data.Length` | a 4-byte blob (8 bytes with its prefix) at index 0 of a 16-byte buffer is refused; in a 4-byte buffer it passes the guard and the copy throws | refuse when `index + blobByteCount > data.Length`, as every other codec does | not executed | BlobOscData.RoomToSpareRefused | BlobOscData.TryWriteBlob |
| Orbit/Assets/OscSimpl/Runtime/Base/Internal/OscData/BlobOscData.cs:79-80 | the size check rounds the prefix with C#'s truncating division and adds it to the index in 32-bit arithmetic | a prefix of -1 rounds to 0 and passes, then `new byte[-1]` throws; a prefix of 0x7FFFFFFC wraps the sum and passes with eight bytes of data | a negative prefix or one past the end of the buffer is refused | not executed | BlobOscData.NegativePrefixAccepted | BlobOscData.TryReadBlob |
| Orbit/Assets/OscSimpl/Runtime/Base/Internal/OscAddress.cs:59-65 | the loop that drops repeated '/' never increments `i` | Sanitize("//a") never returns | "//" collapses to "/" and the loop ends | not executed | OscAddress.CollapseLoopNeverExits | OscAddress.Sanitize |
| Orbit/Assets/OscSimpl/Runtime/Base/OscMessage.cs:1444-1453 | the capacity check compares the argument index, not its byte index, plus its size with the payload size | a Null then an Int: TryGet of the Int checks 1 + 4 > 4 and refuses, though its bytes are present | check `byteIndex + byteCount` against the payload size | not executed | OscMessageLayout.ValidateTryGetRefusesLaterArg | OscMessages.OscMessage.ValidateTryGet |
| Orbit/Assets/OscSimpl/Runtime/Base/Internal/OscData/FourByteOscData.cs:63-64 | the char is cast to a byte before the test for codes above 127 | 'Ł' (U+0141) is stored as 0x41, 'A' | any code above 127 becomes '?' | not executed | FourByteOscData.FromCharTruncates | FourByteOscData.FromAsciiChar |
| Orbit/Assets/OscSimpl/Runtime/Base/Internal/OscAddress.cs:240 | after the last alternative of a `{…}` list matches at its '}', the list index goes on to the next '}' further along | "/{a}/x" does not match "/a/x" | a match at '}' ends the list there | not executed | OscAddress.ListEndSkipsRest | OscAddress.ListEndCorrected |
| Orbit/Assets/OscSimpl/Runtime/Base/OscMessage.cs:1403 | the cached size is dropped only when the payload size changes | adding a third Null keeps the cached size, though the tag section grows from 4 to 8 bytes | drop the cached size whenever the count or the payload size changes | not executed | OscAdaptAsWritten.AppendedNullKeepsStaleSize | OscMessageEdits.Adapt |
| Orbit/Assets/OscSimpl/Runtime/Base/OscMessage.cs:1379-1404 | a resized argument in the middle leaves the later records' byte indices where they were, and the bytes after it are moved within an array grown only to the new payload size | two ints added to a new message, then Set(0, long): the array grows to 12 bytes and the move of 8 bytes to index 8 throws; in a 16-byte array the move succeeds but the second int still starts at 4, inside the long | later records move by the change in size, in an array large enough for the move | not executed | OscAdaptAsWritten.ResizeOverrunsExactArray | OscMessages.OscMessage.AdaptiveSet |
| Orbit/Assets/OscSimpl/Runtime/Base/OscMessage.cs:1372-1376 | the Null records filling a gap are the plain Null record, whose byte index is 0 | one int, then Set at index 2: the gap Null starts at 0, inside the int | gap records start at the end of the payload | not executed | OscAdaptAsWritten.GapNullStartsAtZero | OscMessageEdits.Adapt |
| Orbit/Assets/OscSimpl/Runtime/Base/OscMessage.cs:1185-1188 | a blob argument's size is taken from TryEvaluateByteCount even when that fails | a size prefix of -100 gives a size of -92; a prefix past the buffer gives 0 | refuse the message when the blob size cannot be evaluated | not executed | OscMessageParse.BlobSizeAsWrittenIsWrong | OscMessageReader.MeasureArg |
| Orbit/Assets/OscSimpl/Runtime/Base/OscMessage.cs:1210-1212 | the cached size is the number of bytes consumed from the start index | "/" with no arguments read from index 1 ends at 8, so 7 is cached while Size() gives 8 | cache the size only when it is the message's size | not executed | OscMessageParse.UnalignedReadMiscachesSize | OscMessages.OscMessage.TryReadFrom |
| Orbit/Assets/OscSimpl/Runtime/Base/OscMessage.cs:43-50 | the address setter drops the cached size but keeps the cached hash | renaming "/a" to "/b" keeps the hash of "/a" | drop the cached hash as well | not executed | OscMessages.OscMessage.SetAddressKeepingHash | OscMessages.OscMessage.SetAddress |
| Orbit/Assets/OscSimpl/Runtime/Base/OscMessage.cs:552 | a blob argument's size is cast to a 16-bit `short` | Set(0, blob) with a 40000-byte blob: the size 40004 becomes -25532 and `new byte[-25532]` throws | sizes are kept as `int`s | not executed | OscAdaptAsWritten.LargeBlobThrows | OscMessages.OscMessage.SetBlob |
| Orbit/Assets/OscSimpl/Runtime/Base/OscMessage.cs:1356 | an appended argument's byte index is the payload size cast to a 16-bit `short` | three Adds of 20000-character strings: the third starts at (short) 40008 = -25528 | byte indices are kept as `int`s | not executed | OscAdaptAsWritten.LongStringsWrapStart | OscMessages.OscMessage.AddString |
| Orbit/Assets/OscSimpl/Base/OscBundle.cs:180 | the older reader reads each child up to the end of the enclosing bundle | two empty bundles side by side in a bundle are read back as one nested inside the other | read each child up to its own end, as the current reader does | not executed | OscLegacyBundleRead.LegacyNestsSibling | OscPacketRoundTrip.BundleReadBack |
| Orbit/Assets/OscSimpl/Runtime/Base/Internal/SerializedOscMessageBuffer.cs:38-39 | a full buffer grows by one capacity step, however much the message needs | capacity 4 and the 12-byte message "/abcd": the size is recorded but nothing is written | grow by at least what the message needs | not executed | SerializedOscMessageBuffers.GrowthTooSmall | SerializedOscMessageBuffers.SerializedOscMessageBuffer.Add |
| Orbit/Assets/OscSimpl/Base/OscMessage.cs:1013-1015 | the older reader clears the message only when it has arguments | a message "/a" without arguments reads "/b" and keeps the hash of "/a"; a failed read of "/abcd" keeps the clean size of "/" | clear the message before every read | not executed | OscBaseMessages.OscMessage.TryReadFromAsWritten | OscBaseMessages.OscMessage.TryReadFrom |
| Orbit/Assets/OscSimpl/Base/OscMessage.cs:1077-1083 | an unsupported tag is refused after the records before it were sized | "/" with tags "i?" leaves an int record claiming four bytes of an empty payload | a refused read leaves no records | not executed | OscListMessages.RefusedTagLeavesSizedRecords | OscBaseMessages.OscMessage.TryReadFrom |
| Orbit/Assets/OscSimpl/Base/OscMessage.cs:1306-1315 | the capacity check adds the argument index, not its data index, to its size | a Null then an Int: TryGet of the Int checks 1 + 4 > 4 and refuses | check `GetDataIndex(index) + size` | not executed | OscBaseMessages.OscMessage.ValidateTryGetAsWritten | OscBaseMessages.OscMessage.ValidateTryGet |
| Orbit/Assets/OscSimpl/Base/OscMessage.cs:37-44 | the address setter drops the cached size but keeps the cached hash | renaming "/a" to "/b" keeps the hash of "/a" | drop the cached hash as well | not executed | OscBaseMessages.OscMessage.SetAddressKeepingHash | OscBaseMessages.OscMessage.SetAddress |
| Orbit/Assets/OscSimpl/Runtime/Base/Internal/OscData/FourByteOscData.cs:61-68 | the char constructor stores the code in `_b0` and `charValue` returns `_b0` on either host; the byte constructor and the writer follow the host's byte order | on a big-endian host 'a' is sent as [97,0,0,0], and a received [0,0,0,97] reads as NUL | a char travels as the OSC 32-bit int on every host, in the last wire byte, as it does on a little-endian host | not executed | FourByteOscData.FromCharBigEndianHost | FourByteOscData.FromAsciiChar |
