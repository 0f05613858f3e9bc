# NBT binary tag codec, modelled in Dafny

This project models the codec of Koterite NBT-IO (`NbtIO.kt`). The codec turns a named NBT
root (an `NbtFile`) into the binary Named Binary Tag format and back, in big- or little-endian
byte order. Properties of that model are proved. Each of the 13 tag variants
(End, Byte, Short, Int, Long, Float, Double, ByteArray, String, List, Compound, IntArray,
LongArray) is handled by one serializer. The serializers sit in two tables, one per byte order,
and a tag's type id is its class's position in the big-endian table. The wire layout is as
follows:

- A root is a type id byte, a u16-length-prefixed name, and the root's payload.
- A list is the element type id byte, a signed 32-bit count, and that many payloads.
- A compound is a series of (type id byte, name, payload) entries closed by a 0 byte.
- The arrays are a signed 32-bit count followed by the elements.

The model has these layers:

- `Bytes` (bytes.dfy): fixed-width integers in either byte order, and two's complement.
- `Tags` (tags.dfy): the tag tree and the two serializer tables. It also holds `TypeId`
  and the insertion-ordered map a compound is read into (`Put`, `Lookup`).
- `Wire` (wire.dfy): the error kinds, the primitive field readers, and the u16 and UTF
  helpers at the end of `NbtIO.kt`.
- `Codec` (codec.dfy): each serializer's `writeTag` and `readTag`, and `writeNbtFile` and
  `readNbtFile`, as functions on byte sequences. Writers return the bytes they append;
  readers return the tag and the position after it. Each exception the source can throw is
  an `Err`.
- `RoundTrip` (roundtrip.dfy): reading what was written gives back the same tag, at every
  nesting level and for whole files.
- `Properties` (properties.dfy) covers four things:
  - exactly which tags can be written;
  - the error paths of the readers;
  - last-name-wins on duplicate compound names;
  - the encoding of empty containers and arrays.
- `Streams` (streams.dfy): the byte `Output` and `Input` streams as classes. Each primitive
  is tied to its `Wire` function.
- `Serializers` (serializers.dfy): the serializers as imperative methods on those streams.
  They use the source's loops (`forEach`, `for (i in 1..size)`, `while (true)`). Each is
  proved to append exactly the bytes of the `Codec` writer, or to return exactly the
  `Codec` reader's result.
- `Truncation` (truncation.dfy): reading a cut-off input. A read that ends before the cut
  gives the same result as on the whole input; one that would go past it fails with
  `Truncated`. In particular, every strict prefix of what a serializer or `writeNbtFile`
  writes fails to read back with `Truncated`.
- `Example` (example.dfy): one worked 32-byte file, encoded and decoded.

Where the format's description and the code disagree, the model follows the code, with
one exception (over-long strings, below):

- **Negative list count.** A stricter reading of the format refuses a negative list count.
  The code loops `for (i in 1..size)`, so such a list reads as empty.
- **Heterogeneous lists.** The code does not check that list elements share a type. The
  `tag as T` in `writeRawTag` is an unchecked cast to an erased type parameter, so it does
  not fail by itself. On the JVM the failure comes one step later: the bridge method
  generated for the concrete serializer's `writeTag(output, tag: T)` casts the tag to its
  own class and throws a ClassCastException at the first element of another class. The
  model returns `ClassCast` there. This is JVM behaviour; the code is multiplatform, and on
  native targets the failure may take another form.
- **Over-long strings.** The code wraps a UTF length above 65535 through `toUShort()`
  instead of refusing it. Here the model departs from the code: `Wire.WriteUtfWrapping`
  models the code as written, and the Findings table records the discrepancy. The
  checked writer `Wire.WriteUtf`, which refuses such text with `StringTooLong`, is the one
  every writer above it uses (see "Left out").

## Model

| member | source | states |
|---|---|---|
| Tags.SerializersAreListed | src/commonMain/kotlin/br/com/gamemods/koterite/nbt/io/NbtIO.kt:92-128 | `ByteOrder.serializers` is the big-endian table for BIG_ENDIAN and the little-endian table otherwise; End and Byte stay big-endian singletons in both |
| Tags.TablesAgree | src/commonMain/kotlin/br/com/gamemods/koterite/nbt/io/NbtIO.kt:92-124 | every tag class sits at exactly one position, and at the same position, in both tables |
| Tags.IndexOfFirst | src/commonMain/kotlin/br/com/gamemods/koterite/nbt/io/NbtIO.kt:130-132 | `indexOfFirst`: the first position whose serializer handles the class, and -1 when none does |
| Tags.TypeId | src/commonMain/kotlin/br/com/gamemods/koterite/nbt/io/NbtIO.kt:130-132 | a tag's type id is a valid table index, 0..12 |
| Tags.TypeIdIsIndexOfFirst | src/commonMain/kotlin/br/com/gamemods/koterite/nbt/io/NbtIO.kt:130-132 | the type id equals `indexOfFirst` of the tag's class in the big-endian table |
| Tags.TypeIdIsTablePosition | src/commonMain/kotlin/br/com/gamemods/koterite/nbt/io/NbtIO.kt:126-132 | in either byte order's table, the serializer at a tag's type id handles that tag's class |
| Tags.SerializerFor | src/commonMain/kotlin/br/com/gamemods/koterite/nbt/io/NbtIO.kt:299-300 | `serializers[tag.typeId]` handles the tag's class |
| Tags.Lookup | src/commonMain/kotlin/br/com/gamemods/koterite/nbt/io/NbtIO.kt:278-290 | a name has a value in the compound's map exactly when some entry carries that name |
| Tags.LookupFirst | src/commonMain/kotlin/br/com/gamemods/koterite/nbt/io/NbtIO.kt:278-290 | the value found under a name is the one in the first entry carrying it |
| Tags.Put | src/commonMain/kotlin/br/com/gamemods/koterite/nbt/io/NbtIO.kt:288 | after `map[name] = childTag`, looking up name gives childTag |
| Tags.PutLookup | src/commonMain/kotlin/br/com/gamemods/koterite/nbt/io/NbtIO.kt:288 | `map[name] = childTag` changes the value of that name only; every other name keeps its value |
| Tags.PutPosition | src/commonMain/kotlin/br/com/gamemods/koterite/nbt/io/NbtIO.kt:278-288 | in the insertion-ordered map a new name is appended at the end; an existing name's entry is replaced in place at its first position, every other entry unchanged |
| Tags.PutAt | src/commonMain/kotlin/br/com/gamemods/koterite/nbt/io/NbtIO.kt:288 | storing under a name whose first occurrence is at position k replaces exactly slot k |
| Tags.PutKeepsNamesDistinct | src/commonMain/kotlin/br/com/gamemods/koterite/nbt/io/NbtIO.kt:288 | the map never holds a name twice |
| Tags.PutPreserves | src/commonMain/kotlin/br/com/gamemods/koterite/nbt/io/NbtIO.kt:285-288 | storing a well-formed non-End child keeps the compound well-formed and free of End |
| Tags.PutAllDistinct | src/commonMain/kotlin/br/com/gamemods/koterite/nbt/io/NbtIO.kt:279-289 | inserting entries with distinct names one by one gives exactly those entries in stream order |
| Tags.PutAllLookup | src/commonMain/kotlin/br/com/gamemods/koterite/nbt/io/NbtIO.kt:279-289 | after inserting a run of entries, a name's value is the one from its last occurrence in the run; a name not in the run keeps its earlier value |
| Bytes.TwosComplementRoundTrip | src/commonMain/kotlin/br/com/gamemods/koterite/nbt/io/NbtIO.kt:157-164 | converting a signed width-n value to its unsigned bits and back is the identity, both ways round |
| Bytes.SignedRoundTrip | src/commonMain/kotlin/br/com/gamemods/koterite/nbt/io/NbtIO.kt:167-195 | every Short, Int and Long written in either byte order reads back exactly, for the full range of its width |
| Bytes.UnsignedRoundTrip | src/commonMain/kotlin/br/com/gamemods/koterite/nbt/io/NbtIO.kt:197-215 | the Float and Double bit patterns written in either byte order read back exactly |
| Bytes.UnsignedLayoutRoundTrip | src/commonMain/kotlin/br/com/gamemods/koterite/nbt/io/NbtIO.kt:197-215 | every n-byte field is the layout of the value read from it (reading loses no bytes) |
| Bytes.ShortConversionsInverse | src/commonMain/kotlin/br/com/gamemods/koterite/nbt/io/NbtIO.kt:359-367 | `toUShort()` and `toShort()` are inverse bijections between Short and UShort |
| Wire.ReadBytes | src/commonMain/kotlin/br/com/gamemods/koterite/nbt/io/NbtIO.kt:218-222 | `readFully` of n bytes succeeds exactly when n bytes remain, giving those bytes and advancing by n; otherwise Truncated |
| Wire.ReadSigned | src/commonMain/kotlin/br/com/gamemods/koterite/nbt/io/NbtIO.kt:167-195 | `readShort`/`readInt`/`readLong` succeed exactly when the width's bytes remain, giving a value in range; otherwise Truncated |
| Wire.ReadUnsigned | src/commonMain/kotlin/br/com/gamemods/koterite/nbt/io/NbtIO.kt:197-215 | `readFloat`/`readDouble` bits succeed exactly when the width's bytes remain; otherwise Truncated |
| Wire.ReadByte | src/commonMain/kotlin/br/com/gamemods/koterite/nbt/io/NbtIO.kt:157-160 | `readByte` succeeds exactly when a byte remains and gives that byte as a signed value; otherwise Truncated |
| Wire.ReadInt | src/commonMain/kotlin/br/com/gamemods/koterite/nbt/io/NbtIO.kt:177-180 | `readInt` succeeds exactly when 4 bytes remain and gives their signed value in the stream's byte order |
| Wire.ReadUShort | src/commonMain/kotlin/br/com/gamemods/koterite/nbt/io/NbtIO.kt:359-362 | `readUShort` succeeds exactly when 2 bytes remain and advances by 2; otherwise Truncated |
| Wire.ReadUShortThroughShort | src/commonMain/kotlin/br/com/gamemods/koterite/nbt/io/NbtIO.kt:359-362 | reading a u16 is reading a Short and converting it with `toUShort()` |
| Wire.WriteUShort | src/commonMain/kotlin/br/com/gamemods/koterite/nbt/io/NbtIO.kt:364-367 | a u16 is written as exactly 2 bytes |
| Wire.WriteUShortThroughShort | src/commonMain/kotlin/br/com/gamemods/koterite/nbt/io/NbtIO.kt:364-367 | writing a u16 gives the bytes of `writeShort(v.toShort())` |
| Wire.UShortRoundTrip | src/commonMain/kotlin/br/com/gamemods/koterite/nbt/io/NbtIO.kt:359-367 | a u16 written in either byte order reads back exactly |
| Wire.ReadUtf | src/commonMain/kotlin/br/com/gamemods/koterite/nbt/io/NbtIO.kt:346-350 | `readUTF` succeeds exactly when the 2-byte length and that many bytes of text remain; the text is those bytes, its length is the u16 prefix (so at most 65535), and it advances past them; Truncated otherwise |
| Wire.WriteUtf | src/commonMain/kotlin/br/com/gamemods/koterite/nbt/io/NbtIO.kt:352-357 | `writeUTF` with the length limit enforced: succeeds exactly for text of at most 65535 bytes, writing 2 + n bytes that end with the text; longer text is refused with StringTooLong |
| Wire.UtfRoundTrip | src/commonMain/kotlin/br/com/gamemods/koterite/nbt/io/NbtIO.kt:346-357 | any text `writeUTF` accepts reads back exactly with `readUTF`, wherever it sits in the stream |
| Wire.WriteUtfWrapping | src/commonMain/kotlin/br/com/gamemods/koterite/nbt/io/NbtIO.kt:352-357 | `writeUTF` as written (the length cast through `toUShort()`) always writes 2 + n bytes |
| Wire.WriteUtfAgreesWithinLimit | src/commonMain/kotlin/br/com/gamemods/koterite/nbt/io/NbtIO.kt:352-357 | up to 65535 bytes, the code as written and the checked writer write the same bytes |
| Wire.WrappedLengthLosesText | src/commonMain/kotlin/br/com/gamemods/koterite/nbt/io/NbtIO.kt:352-357 | a 65536-byte text written as the code does reads back as the empty text, with the 65536 bytes left unread |
| Codec.AsSigned | src/commonMain/kotlin/br/com/gamemods/koterite/nbt/io/NbtIO.kt:218-222 | the ByteArray read by `readFully` holds each input byte as its signed value |
| Codec.AsUnsigned | src/commonMain/kotlin/br/com/gamemods/koterite/nbt/io/NbtIO.kt:225-228 | `writeFully` of a ByteArray writes each byte's two's complement bits |
| Codec.AsSignedAsUnsigned | src/commonMain/kotlin/br/com/gamemods/koterite/nbt/io/NbtIO.kt:217-228 | a ByteArray written and read back is unchanged |
| Codec.ReadSignedRun | src/commonMain/kotlin/br/com/gamemods/koterite/nbt/io/NbtIO.kt:310-336 | reading `size` numbers stays within the input, yields exactly that many values, all in the width's range, or fails with Truncated |
| Codec.SerializerAt | src/commonMain/kotlin/br/com/gamemods/koterite/nbt/io/NbtIO.kt:69-71 | `serializers[typeId]` succeeds exactly for ids 0..12, giving that table entry, which is the End serializer exactly for id 0; other ids fail with UnknownTypeId(id) |
| Codec.EncodeTag | src/commonMain/kotlin/br/com/gamemods/koterite/nbt/io/NbtIO.kt:141-344 | each serializer's `writeTag`: a tag of another class is refused with ClassCast, and every failure is ClassCast, EndInList, EndInCompound or StringTooLong; RoundTrip.TagRoundTrip fixes its output and Properties.WritableExactly fixes exactly when it succeeds |
| Codec.EncodeList | src/commonMain/kotlin/br/com/gamemods/koterite/nbt/io/NbtIO.kt:258-272 | a non-empty list whose first element is End is refused with EndInList, so no header is written; a written list starts with the first element's type id (End's for an empty list) and takes at least the 5 header bytes; ListRoundTrip, ListWritable, EmptyListEncoding and ListOfEndRefused fix the rest |
| Codec.EncodeElems | src/commonMain/kotlin/br/com/gamemods/koterite/nbt/io/NbtIO.kt:269-271 | the `forEach` over list elements succeeds only if every element has the serializer's class, and fails only with a writer error; ElemsWritable and ElemsRoundTrip fix the rest |
| Codec.EncodeCompound | src/commonMain/kotlin/br/com/gamemods/koterite/nbt/io/NbtIO.kt:293-307 | an End value anywhere is refused with EndInCompound before any entry is written; a written compound ends with the 0 terminator; CompoundWritable, CompoundRoundTrip and EmptyCompoundEncoding fix the rest |
| Codec.EncodeNamed | src/commonMain/kotlin/br/com/gamemods/koterite/nbt/io/NbtIO.kt:299-303 | a name over 65535 bytes is refused with StringTooLong; the output starts with the tag's type id and takes at least 3 + the name's length bytes; Properties.FileLayout fixes the layout |
| Codec.EncodeEntries | src/commonMain/kotlin/br/com/gamemods/koterite/nbt/io/NbtIO.kt:298-304 | n entries take at least 3n bytes, and the only failures are writer errors; EntriesWritable and EntriesRoundTrip fix the rest |
| Codec.EncodeFile | src/commonMain/kotlin/br/com/gamemods/koterite/nbt/io/NbtIO.kt:25-43 | `writeNbtFile`: compression is refused first with CompressionNotImplemented; a written file starts with the root's type id and takes at least 3 + the name's length bytes; FileLayout and FileRoundTrip fix the rest |
| Codec.DecodeScalar | src/commonMain/kotlin/br/com/gamemods/koterite/nbt/io/NbtIO.kt:147-240 | the End, numeric and String readers return a well-formed tag of the serializer's own class and stay within the input |
| Codec.DecodeArray | src/commonMain/kotlin/br/com/gamemods/koterite/nbt/io/NbtIO.kt:217-336 | the ByteArray, IntArray and LongArray readers return a well-formed tag of the serializer's own class and stay within the input |
| Codec.DecodeTag | src/commonMain/kotlin/br/com/gamemods/koterite/nbt/io/NbtIO.kt:134-145 | `serializer.readTag` returns a well-formed tag of exactly the serializer's class and never reads backwards or past the input |
| Codec.DecodeList | src/commonMain/kotlin/br/com/gamemods/koterite/nbt/io/NbtIO.kt:244-256 | the list reader returns a well-formed list and stays within the input |
| Codec.DecodeElems | src/commonMain/kotlin/br/com/gamemods/koterite/nbt/io/NbtIO.kt:250-254 | reading `size` list elements yields exactly that many, all of the element serializer's class |
| Codec.DecodeEntries | src/commonMain/kotlin/br/com/gamemods/koterite/nbt/io/NbtIO.kt:277-291 | the compound loop consumes at least its terminator and returns well-formed, End-free entries under distinct names |
| Codec.DecodeNamedEntry | src/commonMain/kotlin/br/com/gamemods/koterite/nbt/io/NbtIO.kt:285-289 | one pass of the compound loop after a non-zero type id (name, serializer, child, `map[name] = child`) keeps the entries well-formed |
| Codec.DecodeFile | src/commonMain/kotlin/br/com/gamemods/koterite/nbt/io/NbtIO.kt:63-76 | `readNbtFile` consumes at least one byte and returns a well-formed root |
| RoundTrip.TypeIdZero | src/commonMain/kotlin/br/com/gamemods/koterite/nbt/io/NbtIO.kt:130-132 | the type id is 0 exactly for End |
| RoundTrip.EndRoundTrip | src/commonMain/kotlin/br/com/gamemods/koterite/nbt/io/NbtIO.kt:147-155 | End writes nothing and reads back as End without consuming input |
| RoundTrip.ScalarRoundTrip | src/commonMain/kotlin/br/com/gamemods/koterite/nbt/io/NbtIO.kt:157-240 | every written Byte, Short, Int, Long, Float, Double and String reads back equal, ending where its bytes end |
| RoundTrip.ByteArrayRoundTrip | src/commonMain/kotlin/br/com/gamemods/koterite/nbt/io/NbtIO.kt:217-229 | a written ByteArray reads back equal |
| RoundTrip.SignedRunRoundTrip | src/commonMain/kotlin/br/com/gamemods/koterite/nbt/io/NbtIO.kt:310-343 | a run of numbers written one after another reads back as the same run |
| RoundTrip.SignedArrayRoundTrip | src/commonMain/kotlin/br/com/gamemods/koterite/nbt/io/NbtIO.kt:310-344 | a written IntArray or LongArray reads back equal |
| RoundTrip.TagRoundTrip | src/commonMain/kotlin/br/com/gamemods/koterite/nbt/io/NbtIO.kt:134-145 | whatever any serializer writes successfully, the same serializer reads back as the same tag, ending exactly where the payload ends, whatever surrounds it |
| RoundTrip.ListRoundTrip | src/commonMain/kotlin/br/com/gamemods/koterite/nbt/io/NbtIO.kt:243-272 | a written list reads back as the same list |
| RoundTrip.ElemsRoundTrip | src/commonMain/kotlin/br/com/gamemods/koterite/nbt/io/NbtIO.kt:250-271 | the elements written by `forEach` are read back in order by the counted loop |
| RoundTrip.CompoundRoundTrip | src/commonMain/kotlin/br/com/gamemods/koterite/nbt/io/NbtIO.kt:276-307 | a written compound reads back with the same entries in the same order, ending after its 0 terminator |
| RoundTrip.EntriesRoundTrip | src/commonMain/kotlin/br/com/gamemods/koterite/nbt/io/NbtIO.kt:279-304 | entries written by the compound writer, followed by 0, are read into the map as their one-by-one insertion |
| RoundTrip.FileRoundTrip | src/commonMain/kotlin/br/com/gamemods/koterite/nbt/io/NbtIO.kt:25-76 | a root written by `writeNbtFile` is read back by `readNbtFile` in the same byte order as the same name and tag, wherever it sits in the stream |
| RoundTrip.FileBytesRoundTrip | src/commonMain/kotlin/br/com/gamemods/koterite/nbt/io/NbtIO.kt:25-76 | reading exactly the bytes `writeNbtFile` wrote gives back the file and consumes all of them |
| Properties.WritableExactly | src/commonMain/kotlin/br/com/gamemods/koterite/nbt/io/NbtIO.kt:141-145 | the checked writer (UTF lengths refused above 65535) writes a tag without an error exactly when the tag is of its class and is writable, meaning: strings of at most 65535 bytes; lists whose first element is not End and whose elements share its class; compounds without End values and with names of at most 65535 bytes; all of this at every depth |
| Properties.ListWritable | src/commonMain/kotlin/br/com/gamemods/koterite/nbt/io/NbtIO.kt:258-272 | the list writer succeeds exactly on writable lists |
| Properties.ElemsWritable | src/commonMain/kotlin/br/com/gamemods/koterite/nbt/io/NbtIO.kt:269-271 | writing the elements succeeds exactly when each is writable and of the element serializer's class |
| Properties.CompoundWritable | src/commonMain/kotlin/br/com/gamemods/koterite/nbt/io/NbtIO.kt:293-307 | the compound writer succeeds exactly on writable compounds |
| Properties.EntriesWritable | src/commonMain/kotlin/br/com/gamemods/koterite/nbt/io/NbtIO.kt:298-304 | with the checked UTF writer, writing the entries succeeds exactly when every name fits 65535 bytes and every value is writable |
| Properties.WritableFileRoundTrip | src/commonMain/kotlin/br/com/gamemods/koterite/nbt/io/NbtIO.kt:25-76 | with the checked UTF writer, every writable root with a name of at most 65535 bytes is written without error and read back as itself |
| Properties.FileLayout | src/commonMain/kotlin/br/com/gamemods/koterite/nbt/io/NbtIO.kt:29-39 | a written file is the type id byte, then the UTF name, then the payload from the serializer at that type id |
| Properties.EmptyListEncoding | src/commonMain/kotlin/br/com/gamemods/koterite/nbt/io/NbtIO.kt:258-272 | an empty list is written as element type End and count 0: five zero bytes |
| Properties.ListElementsShareClass | src/commonMain/kotlin/br/com/gamemods/koterite/nbt/io/NbtIO.kt:258-271 | a list written without error has all its elements of the first element's class |
| Properties.ListOfEndRefused | src/commonMain/kotlin/br/com/gamemods/koterite/nbt/io/NbtIO.kt:263-265 | a non-empty list whose first element is End is refused with EndInList |
| Properties.ListWithoutTypeRefused | src/commonMain/kotlin/br/com/gamemods/koterite/nbt/io/NbtIO.kt:245-249 | element type 0 with a positive count is refused with MissingListType |
| Properties.ListNonPositiveCountIsEmpty | src/commonMain/kotlin/br/com/gamemods/koterite/nbt/io/NbtIO.kt:245-255 | a known element type with a count of 0 or less reads as the empty list after exactly 5 bytes |
| Properties.ListUnknownTypeRefused | src/commonMain/kotlin/br/com/gamemods/koterite/nbt/io/NbtIO.kt:245-250 | an element type outside 0..12 is refused with UnknownTypeId, whatever the count |
| Properties.ListReadsCount | src/commonMain/kotlin/br/com/gamemods/koterite/nbt/io/NbtIO.kt:246-254 | a list read without error has as many elements as its count when that is positive, and none otherwise |
| Properties.EmptyCompoundEncoding | src/commonMain/kotlin/br/com/gamemods/koterite/nbt/io/NbtIO.kt:293-307 | an empty compound is written as the single 0 terminator |
| Properties.CompoundStopsAtZero | src/commonMain/kotlin/br/com/gamemods/koterite/nbt/io/NbtIO.kt:279-283 | a 0 type id ends the compound after one byte, leaving the entries read so far unchanged |
| Properties.CompoundLaterNameWins | src/commonMain/kotlin/br/com/gamemods/koterite/nbt/io/NbtIO.kt:277-291 | entries written with repeated names read back so that each name holds the value of its last occurrence, and a name that never occurs is absent |
| Properties.ArrayEncodingLength | src/commonMain/kotlin/br/com/gamemods/koterite/nbt/io/NbtIO.kt:225-343 | a ByteArray, IntArray or LongArray of n elements takes 4 + n, 4 + 4n and 4 + 8n bytes |
| Properties.SignedRunLength | src/commonMain/kotlin/br/com/gamemods/koterite/nbt/io/NbtIO.kt:320-343 | n numbers of width w take w * n bytes |
| Properties.NegativeArraySizeRefused | src/commonMain/kotlin/br/com/gamemods/koterite/nbt/io/NbtIO.kt:217-336 | a negative array size is refused with NegativeArraySize(size), as `ByteArray(size)`, `IntArray(size)` and `LongArray(size)` throw |
| Properties.FileUnknownTypeRefused | src/commonMain/kotlin/br/com/gamemods/koterite/nbt/io/NbtIO.kt:70-71 | a root type id outside 0..12 is refused with UnknownTypeId |
| Properties.EntryUnknownTypeRefused | src/commonMain/kotlin/br/com/gamemods/koterite/nbt/io/NbtIO.kt:280-286 | an entry type id outside 0..12 is refused with UnknownTypeId once its name has been read |
| Truncation.ReadBytesCut | src/commonMain/kotlin/br/com/gamemods/koterite/nbt/io/NbtIO.kt:218-222 | `readFully` on an input cut at c gives the same bytes when they end by c, and Truncated otherwise |
| Truncation.ReadSignedCut | src/commonMain/kotlin/br/com/gamemods/koterite/nbt/io/NbtIO.kt:167-195 | `readShort`/`readInt`/`readLong` on a cut input agree with the whole input when the field ends by the cut, and fail with Truncated otherwise |
| Truncation.ReadUnsignedCut | src/commonMain/kotlin/br/com/gamemods/koterite/nbt/io/NbtIO.kt:197-215 | the same for the `readFloat`/`readDouble` bits |
| Truncation.ReadByteCut | src/commonMain/kotlin/br/com/gamemods/koterite/nbt/io/NbtIO.kt:157-160 | the same for `readByte` |
| Truncation.ReadIntCut | src/commonMain/kotlin/br/com/gamemods/koterite/nbt/io/NbtIO.kt:177-180 | the same for `readInt` |
| Truncation.ReadUShortCut | src/commonMain/kotlin/br/com/gamemods/koterite/nbt/io/NbtIO.kt:359-362 | the same for `readUShort` |
| Truncation.ReadUtfCut | src/commonMain/kotlin/br/com/gamemods/koterite/nbt/io/NbtIO.kt:346-350 | the same for `readUTF`, length prefix and text together |
| Truncation.ReadSignedRunCut | src/commonMain/kotlin/br/com/gamemods/koterite/nbt/io/NbtIO.kt:310-336 | the counted loop of the IntArray and LongArray readers on a cut input agrees with the whole input when the run ends by the cut, and fails with Truncated otherwise |
| Truncation.DecodeScalarCut | src/commonMain/kotlin/br/com/gamemods/koterite/nbt/io/NbtIO.kt:147-240 | the End, numeric and String readers on a cut input agree with the whole input or fail with Truncated, by where the tag ends |
| Truncation.DecodeArrayCut | src/commonMain/kotlin/br/com/gamemods/koterite/nbt/io/NbtIO.kt:217-344 | the same for the ByteArray, IntArray and LongArray readers |
| Truncation.DecodeTagCut | src/commonMain/kotlin/br/com/gamemods/koterite/nbt/io/NbtIO.kt:134-145 | any serializer's `readTag` on an input cut at c gives the same tag and position when the tag ends by c, and Truncated otherwise |
| Truncation.DecodeListCut | src/commonMain/kotlin/br/com/gamemods/koterite/nbt/io/NbtIO.kt:244-256 | the same for the list reader |
| Truncation.DecodeElemsCut | src/commonMain/kotlin/br/com/gamemods/koterite/nbt/io/NbtIO.kt:250-255 | the same for the counted loop over list elements |
| Truncation.DecodeEntriesCut | src/commonMain/kotlin/br/com/gamemods/koterite/nbt/io/NbtIO.kt:277-291 | the same for the compound loop, up to and including its 0 terminator |
| Truncation.DecodeNamedEntryCut | src/commonMain/kotlin/br/com/gamemods/koterite/nbt/io/NbtIO.kt:285-289 | the same for one compound entry: name, serializer and child |
| Truncation.DecodeFileCut | src/commonMain/kotlin/br/com/gamemods/koterite/nbt/io/NbtIO.kt:63-76 | `readNbtFile` on a cut input gives the same root when it ends by the cut, and Truncated otherwise |
| Truncation.TagCutShort | src/commonMain/kotlin/br/com/gamemods/koterite/nbt/io/NbtIO.kt:134-145 | a tag read that ends after the cut fails with Truncated on the cut input |
| Truncation.AppendedCutsShort | src/commonMain/kotlin/br/com/gamemods/koterite/nbt/io/NbtIO.kt:134-145 | a tag read whole from `pre + b` fails with Truncated on `pre` followed by any strict prefix of `b` |
| Truncation.AppendedCutShort | src/commonMain/kotlin/br/com/gamemods/koterite/nbt/io/NbtIO.kt:134-145 | the same for one strict prefix of `b` |
| Truncation.EncodedReadsBack | src/commonMain/kotlin/br/com/gamemods/koterite/nbt/io/NbtIO.kt:134-145 | what a serializer writes is read back whole, after any preceding bytes |
| Truncation.TagPrefixTruncated | src/commonMain/kotlin/br/com/gamemods/koterite/nbt/io/NbtIO.kt:134-145 | every strict prefix of what a serializer writes, after any preceding bytes, fails to read back with Truncated |
| Truncation.FilePrefixTruncated | src/commonMain/kotlin/br/com/gamemods/koterite/nbt/io/NbtIO.kt:25-76 | every strict prefix of what `writeNbtFile` writes fails to read back with `readNbtFile`, with Truncated |
| Example.ExampleEncoding | src/commonMain/kotlin/br/com/gamemods/koterite/nbt/io/NbtIO.kt:29-39 | the root "root" holding Int "a" = 42 and a List "list" of the Shorts 1 and 2 is written big-endian as a given 32-byte sequence |
| Example.ExampleDecoding | src/commonMain/kotlin/br/com/gamemods/koterite/nbt/io/NbtIO.kt:67-76 | reading those 32 bytes big-endian gives that root back and consumes all 32 |
| Streams.Output.constructor | src/commonMain/kotlin/br/com/gamemods/koterite/nbt/io/NbtIO.kt:29 | a new output holds no bytes |
| Streams.Output.WriteByte | src/commonMain/kotlin/br/com/gamemods/koterite/nbt/io/NbtIO.kt:162-164 | `writeByte` appends the byte's two's complement bits and nothing else |
| Streams.Output.WriteSigned | src/commonMain/kotlin/br/com/gamemods/koterite/nbt/io/NbtIO.kt:172-194 | `writeShort`/`writeInt`/`writeLong` append the value's bytes in the given order |
| Streams.Output.WriteBits | src/commonMain/kotlin/br/com/gamemods/koterite/nbt/io/NbtIO.kt:202-214 | `writeFloat`/`writeDouble` append the value's bits in the given order |
| Streams.Output.WriteFully | src/commonMain/kotlin/br/com/gamemods/koterite/nbt/io/NbtIO.kt:225-228 | `writeFully` appends the bytes as they are |
| Streams.Output.WriteUShort | src/commonMain/kotlin/br/com/gamemods/koterite/nbt/io/NbtIO.kt:364-367 | writing a u16 through `writeShort(v.toShort())` appends its 2-byte layout |
| Streams.Output.WriteUtf | src/commonMain/kotlin/br/com/gamemods/koterite/nbt/io/NbtIO.kt:352-357 | the checked `writeUTF`: for text of at most 65535 bytes it appends the length and the text; otherwise it fails with StringTooLong and writes nothing |
| Streams.Input.constructor | src/commonMain/kotlin/br/com/gamemods/koterite/nbt/io/NbtIO.kt:67 | a new input reads the given bytes from the start |
| Streams.Input.ReadByte | src/commonMain/kotlin/br/com/gamemods/koterite/nbt/io/NbtIO.kt:157-160 | `readByte` gives the Wire reader's result and moves past the byte |
| Streams.Input.ReadSigned | src/commonMain/kotlin/br/com/gamemods/koterite/nbt/io/NbtIO.kt:167-190 | `readShort`/`readInt`/`readLong` give the Wire reader's result and move past the field |
| Streams.Input.ReadInt | src/commonMain/kotlin/br/com/gamemods/koterite/nbt/io/NbtIO.kt:177-180 | `readInt` gives the Wire reader's 32-bit result and moves past it |
| Streams.Input.ReadBits | src/commonMain/kotlin/br/com/gamemods/koterite/nbt/io/NbtIO.kt:197-210 | `readFloat`/`readDouble` give the Wire reader's bits and move past them |
| Streams.Input.ReadFully | src/commonMain/kotlin/br/com/gamemods/koterite/nbt/io/NbtIO.kt:218-222 | `readFully` gives the next n bytes and moves past them, or fails with Truncated |
| Streams.Input.ReadUShort | src/commonMain/kotlin/br/com/gamemods/koterite/nbt/io/NbtIO.kt:359-362 | `readShort().toUShort()` gives the Wire u16 reader's result |
| Streams.Input.ReadUtf | src/commonMain/kotlin/br/com/gamemods/koterite/nbt/io/NbtIO.kt:346-350 | `readUTF` gives the Wire UTF reader's result and moves past the text |
| Serializers.WriteTag | src/commonMain/kotlin/br/com/gamemods/koterite/nbt/io/NbtIO.kt:141-145 | `writeRawTag` followed by each serializer's `writeTag`: it fails exactly when the functional writer fails, with the same error; on success it appends exactly the functional writer's bytes; on failure what was there before is kept |
| Serializers.WriteNumbers | src/commonMain/kotlin/br/com/gamemods/koterite/nbt/io/NbtIO.kt:320-343 | the IntArray and LongArray writers append the 32-bit count and then every number in order |
| Serializers.WriteList | src/commonMain/kotlin/br/com/gamemods/koterite/nbt/io/NbtIO.kt:258-272 | the list writer appends exactly the functional list encoding, or fails as it does |
| Serializers.WriteElems | src/commonMain/kotlin/br/com/gamemods/koterite/nbt/io/NbtIO.kt:269-271 | the `forEach` over the elements appends each element's payload in order, stopping at the first failure with its error |
| Serializers.WriteNamed | src/commonMain/kotlin/br/com/gamemods/koterite/nbt/io/NbtIO.kt:299-303 | one compound entry is written as the type id, the UTF name and the payload, or fails as the functional writer does |
| Serializers.WriteCompound | src/commonMain/kotlin/br/com/gamemods/koterite/nbt/io/NbtIO.kt:293-307 | the compound writer appends exactly the functional encoding, or fails as it does; when a value is End, the `check` fails before anything is written |
| Serializers.WriteEntries | src/commonMain/kotlin/br/com/gamemods/koterite/nbt/io/NbtIO.kt:298-304 | the `forEach` over the entries appends each entry in order, stopping at the first failure |
| Serializers.WriteNbtFile | src/commonMain/kotlin/br/com/gamemods/koterite/nbt/io/NbtIO.kt:25-43 | `writeNbtFile` appends exactly the functional file encoding, or fails with its error; with compression requested it fails with CompressionNotImplemented |
| Serializers.ReadTag | src/commonMain/kotlin/br/com/gamemods/koterite/nbt/io/NbtIO.kt:134-138 | `serializer.readTag` returns exactly the functional reader's result and, on success, leaves the input just after the tag |
| Serializers.ReadScalar | src/commonMain/kotlin/br/com/gamemods/koterite/nbt/io/NbtIO.kt:147-240 | the End, numeric and String readers return exactly the functional reader's result and position |
| Serializers.ReadArray | src/commonMain/kotlin/br/com/gamemods/koterite/nbt/io/NbtIO.kt:217-336 | the ByteArray, IntArray and LongArray readers return exactly the functional reader's result and position |
| Serializers.ReadNumbers | src/commonMain/kotlin/br/com/gamemods/koterite/nbt/io/NbtIO.kt:312-317 | the loop that fills a fresh array with `size` numbers returns exactly the functional run reader's result and position |
| Serializers.ReadList | src/commonMain/kotlin/br/com/gamemods/koterite/nbt/io/NbtIO.kt:244-256 | the list reader returns exactly the functional list reader's result and position |
| Serializers.ReadElems | src/commonMain/kotlin/br/com/gamemods/koterite/nbt/io/NbtIO.kt:251-255 | the counted loop returns exactly the functional element reader's result and position |
| Serializers.ReadCompound | src/commonMain/kotlin/br/com/gamemods/koterite/nbt/io/NbtIO.kt:277-291 | the `while (true)` loop returns exactly the functional compound reader's entries and position |
| Serializers.ReadNbtFile | src/commonMain/kotlin/br/com/gamemods/koterite/nbt/io/NbtIO.kt:63-76 | `readNbtFile` returns exactly the functional file reader's result |

## Left out

- Compression: `compressed = true` reaches `TODO()` in the code. Both directions return `CompressionNotImplemented` before any byte moves; no gzip layer is modelled.
- `flush()` after writing: the output is a byte sequence with no buffering, so flushing changes nothing in the model.
- Float and Double are carried as their IEEE-754 bit patterns. NaN canonicalisation and other floating-point semantics are not modelled.
- Strings and names are their UTF-8 bytes. `toByteArray()` and `readTextExactBytes` are not modelled, and neither is the decoding of invalid UTF-8.
- Reflection (`KClass`, `this::class`) is a `TagClass` datatype. The unchecked cast in `writeRawTag` is the `ClassCast` error.
- ktor's `Input`/`Output` are the `Streams` classes, reduced to the primitives the codec calls. End of input is the `Truncated` error.
- The commented-out `File` overloads are not part of the code and are not modelled.
- `NbtTag`, `NbtCompound`, `NbtList` and the other tag classes come from nbtmanipulator, which is not part of this model. They are the `Tag` datatype. A compound is an insertion-ordered sequence of entries with distinct names, standing in for its map.
- Collection sizes below 2^31 are a precondition (`WellFormed`), since Kotlin sizes are `Int`. Recursion depth is unbounded; stack overflow is not modelled, and the code imposes no depth limit.
- Serializers.WriteTag: on failure the contract states only that the bytes written before the call remain a prefix, not which partial output the failed write leaves. The same holds for WriteList, WriteElems, WriteNamed, WriteCompound, WriteEntries and WriteNbtFile.
- Serializers.ReadTag: after a failed read the input position is not specified, as with every reader in Streams and Serializers.
- Codec.EncodeTag, Codec.EncodeNamed, Codec.EncodeFile, Serializers.WriteTag, Serializers.WriteNamed, Serializers.WriteNbtFile, Streams.Output.WriteUtf, Properties.WritableExactly, Properties.EntriesWritable, Properties.WritableFileRoundTrip: these model the checked UTF writer, which refuses text above 65535 bytes with `StringTooLong`. They do not model the code's `writeUTF`, which wraps the length through `toUShort()` and writes anyway; `Wire.WriteUtfWrapping` models that behaviour (see Findings).
- ClassCast: the error models the JVM's bridge-method cast failure; behaviour on the code's non-JVM targets is not modelled.
- Serializers.WriteNumbers: requires that the count fits a 32-bit Int, which `WellFormed` guarantees for every array tag.

## Findings

| source | as written | input that shows it | evidently intended | confidence | as-written member | corrected member |
|---|---|---|---|---|---|---|
| src/commonMain/kotlin/br/com/gamemods/koterite/nbt/io/NbtIO.kt:352-357 | `writeUTF` writes the length as `bytes.size.toUShort()`, which wraps modulo 65536, then writes all the bytes | a String of 65536 UTF-8 bytes: the length field is 0, so `readUTF` reads back the empty string and leaves the 65536 text bytes to be misread as the next field | the u16 length prefix limits text to 65535 bytes, so longer text should be refused rather than written with a wrapped length | not executed | Wire.WriteUtfWrapping, Wire.WrappedLengthLosesText | Wire.WriteUtf, Wire.UtfRoundTrip |
