/** The NBT codec as functions: what each serializer's `writeTag` appends to
    the output and what its `readTag` returns, and the root envelope.

    Writers return the bytes they append, or the error the source throws.
    Readers take the whole input and a position and return the tag and the
    position after it. Dispatch goes through the serializer tables exactly
    as the source does: a type id read from the stream is an index into
    `Serializers(order)`, and a tag being written is handed to the serializer
    at its `TypeId`. */
module Codec {
  import opened Bytes
  import opened Tags
  import opened Wire

  /** The bytes of a ByteArray as `readFully` stores them: signed. */
  function AsSigned(s: seq<uint8>): (r: seq<int8>)
    ensures |r| == |s|
    ensures forall i :: 0 <= i < |s| ==> r[i] == ToSigned(s[i], 1)
  {
    Pow256Widths();
    seq(|s|, i requires 0 <= i < |s| => ToSigned(s[i], 1) as int8)
  }

  /** The bytes of a ByteArray as `writeFully` puts them down. */
  function AsUnsigned(a: seq<int8>): (r: seq<uint8>)
    ensures |r| == |a|
    ensures forall i :: 0 <= i < |a| ==> r[i] == ToUnsigned(a[i], 1)
  {
    Pow256Widths();
    seq(|a|, i requires 0 <= i < |a| => ToUnsigned(a[i], 1) as uint8)
  }

  lemma AsSignedAsUnsigned(a: seq<int8>)
    ensures AsSigned(AsUnsigned(a)) == a
  {
    Pow256Widths();
    forall i | 0 <= i < |a| ensures AsSigned(AsUnsigned(a))[i] == a[i] {
      TwosComplementRoundTrip(a[i], 0, 1);
    }
  }

  predicate AllInSignedRange(s: seq<int>, width: nat)
  {
    forall i :: 0 <= i < |s| ==> InSignedRange(s[i], width)
  }

  /** The elements of an IntArray or LongArray, each `width` bytes, in order. */
  function SignedRunBytes(s: seq<int>, width: nat, order: ByteOrder): (r: seq<uint8>)
    requires width >= 1 && AllInSignedRange(s, width)
  {
    if s == [] then [] else SignedBytes(s[0], width, order) + SignedRunBytes(s[1..], width, order)
  }

  /** `count` numbers of `width` bytes each, appended to acc in stream order. */
  function ReadSignedRun(data: seq<uint8>, pos: nat, count: nat, width: nat, order: ByteOrder, acc: seq<int>)
    : (r: Result<Parsed<seq<int>>>)
    requires width >= 1 && pos <= |data|
    ensures r.Ok? ==> pos <= r.value.next <= |data|
    ensures r.Ok? ==> |r.value.item| == |acc| + count
    ensures r.Ok? && AllInSignedRange(acc, width) ==> AllInSignedRange(r.value.item, width)
    ensures r.Err? ==> r.error == Truncated
    decreases count
  {
    if count == 0 then Ok(Parsed(acc, pos))
    else
      var v :- ReadSigned(data, pos, width, order);
      ReadSignedRun(data, v.next, count - 1, width, order, acc + [v.item])
  }

  /** `serializers[id]`: an index into the table, which throws outside 0..12. */
  function SerializerAt(order: ByteOrder, id: int): (r: Result<Serial>)
    ensures r.Ok? <==> 0 <= id <= 12
    ensures r.Ok? ==> r.value == Serializers(order)[id]
    ensures r.Ok? ==> (r.value.kClass == NbtEnd <==> id == 0)
    ensures r.Err? ==> r.error == UnknownTypeId(id)
  {
    if 0 <= id < 13 then Ok(Serializers(order)[id]) else Err(UnknownTypeId(id))
  }

  /** The exceptions a serializer's `writeTag` can raise. */
  predicate WriteError(e: Error)
  {
    e == ClassCast || e == EndInList || e == EndInCompound || e.StringTooLong?
  }

  /** `serial.writeTag(output, t)`: the payload of t, without type id or name. */
  function EncodeTag(serial: Serial, t: Tag): (r: Result<seq<uint8>>)
    requires WellFormed(t)
    ensures ClassOf(t) != serial.kClass ==> r == Err(ClassCast)
    ensures r.Err? ==> WriteError(r.error)
    decreases t, 2
  {
    Pow256Widths();
    var order := serial.byteOrder;
    if ClassOf(t) != serial.kClass then Err(ClassCast)
    else match t
      case End => Ok([])
      case Byte(v) => Ok([ToUnsigned(v, 1)])
      case Short(v) => Ok(SignedBytes(v, 2, order))
      case Int(v) => Ok(SignedBytes(v, 4, order))
      case Long(v) => Ok(SignedBytes(v, 8, order))
      case Float(bits) => Ok(UnsignedBytes(bits, 4, order))
      case Double(bits) => Ok(UnsignedBytes(bits, 8, order))
      case ByteArray(a) => Ok(SignedBytes(|a|, 4, order) + AsUnsigned(a))
      case String(text) => WriteUtf(text, order)
      case List(elems) => EncodeList(order, elems)
      case Compound(entries) => EncodeCompound(order, entries)
      case IntArray(a) => Ok(SignedBytes(|a|, 4, order) + SignedRunBytes(a, 4, order))
      case LongArray(a) => Ok(SignedBytes(|a|, 4, order) + SignedRunBytes(a, 8, order))
  }

  /** The list serializer's `writeTag`: the type id of the first element
      (End for an empty list), the size, then each element's payload. */
  function EncodeList(order: ByteOrder, elems: seq<Tag>): (r: Result<seq<uint8>>)
    requires WellFormed(List(elems))
    ensures |elems| > 0 && elems[0].End? ==> r == Err(EndInList)
    ensures r.Ok? ==> |r.value| >= 5 && r.value[0] == TypeId(if |elems| > 0 then elems[0] else End)
    ensures r.Err? ==> WriteError(r.error)
    decreases elems, 1
  {
    Pow256Widths();
    var sample := if |elems| > 0 then elems[0] else End;
    var typeId := TypeId(sample);
    if typeId == 0 && |elems| > 0 then Err(EndInList)
    else Then(Ok([typeId] + SignedBytes(|elems|, 4, order)), EncodeElems(SerializerFor(sample, order), elems))
  }

  /** `tag.forEach { serializer.writeTag(output, it) }` over list elements. */
  function EncodeElems(serial: Serial, elems: seq<Tag>): (r: Result<seq<uint8>>)
    requires forall i :: 0 <= i < |elems| ==> WellFormed(elems[i])
    ensures r.Ok? ==> forall i :: 0 <= i < |elems| ==> ClassOf(elems[i]) == serial.kClass
    ensures r.Err? ==> WriteError(r.error)
    decreases elems, 0
  {
    if elems == [] then Ok([])
    else Then(EncodeTag(serial, elems[0]), EncodeElems(serial, elems[1..]))
  }

  /** The compound serializer's `writeTag`: the entries, then an End byte.
      An End value is refused. */
  function EncodeCompound(order: ByteOrder, entries: seq<Entry>): (r: Result<seq<uint8>>)
    requires AllWellFormed(entries)
    ensures (exists i :: 0 <= i < |entries| && entries[i].tag.End?) ==> r == Err(EndInCompound)
    ensures r.Ok? ==> |r.value| >= 1 && r.value[|r.value| - 1] == 0
    ensures r.Err? ==> WriteError(r.error)
    decreases entries, 1
  {
    if exists i :: 0 <= i < |entries| && entries[i].tag.End? then Err(EndInCompound)
    else Then(EncodeEntries(order, entries), Ok([0]))
  }

  /** A tag with its name, as a compound entry and as the root are written:
      the type id byte, the name, then the payload. */
  function EncodeNamed(order: ByteOrder, name: seq<uint8>, t: Tag): (r: Result<seq<uint8>>)
    requires WellFormed(t)
    ensures |name| > MaxUtfLength ==> r == Err(StringTooLong(|name|))
    ensures r.Ok? ==> |r.value| >= 3 + |name| && r.value[0] == TypeId(t)
    ensures r.Err? ==> WriteError(r.error)
    decreases t, 3
  {
    Then(Ok([TypeId(t)]), Then(WriteUtf(name, order), EncodeTag(SerializerFor(t, order), t)))
  }

  /** The compound entries: for each, its type id, its name, its payload. */
  function EncodeEntries(order: ByteOrder, entries: seq<Entry>): (r: Result<seq<uint8>>)
    requires AllWellFormed(entries)
    ensures r.Ok? ==> |r.value| >= 3 * |entries|
    ensures r.Err? ==> WriteError(r.error)
    decreases entries, 0
  {
    if entries == [] then Ok([])
    else Then(EncodeNamed(order, entries[0].name, entries[0].tag), EncodeEntries(order, entries[1..]))
  }

  /** `writeNbtFile`: type id, name, payload of the root. */
  function EncodeFile(file: NbtFile, order: ByteOrder, compressed: bool): (r: Result<seq<uint8>>)
    requires WellFormed(file.tag)
    ensures compressed ==> r == Err(CompressionNotImplemented)
    ensures r.Ok? ==> |r.value| >= 3 + |file.name| && r.value[0] == TypeId(file.tag)
    ensures r.Err? ==> r.error == CompressionNotImplemented || WriteError(r.error)
  {
    if compressed then Err(CompressionNotImplemented)
    else EncodeNamed(order, file.name, file.tag)
  }

  /** `serial.readTag(input)` for the classes without children. */
  function DecodeScalar(serial: Serial, data: seq<uint8>, pos: nat): (r: Result<Parsed<Tag>>)
    requires pos <= |data|
    requires serial.kClass !in {NbtByteArray, NbtList, NbtCompound, NbtIntArray, NbtLongArray}
    ensures r.Ok? ==> pos <= r.value.next <= |data|
    ensures r.Ok? ==> ClassOf(r.value.item) == serial.kClass && WellFormed(r.value.item)
  {
    Pow256Widths();
    var order := serial.byteOrder;
    match serial.kClass
    case NbtEnd => Ok(Parsed(End, pos))
    case NbtByte =>
      var v :- ReadByte(data, pos);
      Ok(Parsed(Byte(v.item), v.next))
    case NbtShort =>
      var v :- ReadSigned(data, pos, 2, order);
      Ok(Parsed(Short(v.item as int16), v.next))
    case NbtInt =>
      var v :- ReadInt(data, pos, order);
      Ok(Parsed(Int(v.item), v.next))
    case NbtLong =>
      var v :- ReadSigned(data, pos, 8, order);
      Ok(Parsed(Long(v.item as int64), v.next))
    case NbtFloat =>
      var v :- ReadUnsigned(data, pos, 4, order);
      Ok(Parsed(Float(v.item as uint32), v.next))
    case NbtDouble =>
      var v :- ReadUnsigned(data, pos, 8, order);
      Ok(Parsed(Double(v.item as uint64), v.next))
    case NbtString =>
      var text :- ReadUtf(data, pos, order);
      Ok(Parsed(String(text.item), text.next))
  }

  /** `serial.readTag(input)` for ByteArray, IntArray and LongArray: an i32
      count, then that many elements. */
  function DecodeArray(serial: Serial, data: seq<uint8>, pos: nat): (r: Result<Parsed<Tag>>)
    requires pos <= |data|
    requires serial.kClass in {NbtByteArray, NbtIntArray, NbtLongArray}
    ensures r.Ok? ==> pos <= r.value.next <= |data|
    ensures r.Ok? ==> ClassOf(r.value.item) == serial.kClass && WellFormed(r.value.item)
  {
    Pow256Widths();
    var order := serial.byteOrder;
    var size :- ReadInt(data, pos, order);
    if size.item < 0 then Err(NegativeArraySize(size.item))
    else match serial.kClass
      case NbtByteArray =>
        var bytes :- ReadBytes(data, size.next, size.item);
        Ok(Parsed(ByteArray(AsSigned(bytes.item)), bytes.next))
      case NbtIntArray =>
        var run :- ReadSignedRun(data, size.next, size.item, 4, order, []);
        Ok(Parsed(IntArray(run.item), run.next))
      case NbtLongArray =>
        var run :- ReadSignedRun(data, size.next, size.item, 8, order, []);
        Ok(Parsed(LongArray(run.item), run.next))
  }

  /** `serial.readTag(input)`: one payload of the serializer's class. */
  function DecodeTag(serial: Serial, data: seq<uint8>, pos: nat): (r: Result<Parsed<Tag>>)
    requires pos <= |data|
    ensures r.Ok? ==> pos <= r.value.next <= |data|
    ensures r.Ok? ==> ClassOf(r.value.item) == serial.kClass && WellFormed(r.value.item)
    decreases |data| - pos, 1, 0
  {
    match serial.kClass
    case NbtList => DecodeList(serial.byteOrder, data, pos)
    case NbtCompound =>
      var entries :- DecodeEntries(serial.byteOrder, data, pos, []);
      Ok(Parsed(Compound(entries.item), entries.next))
    case NbtByteArray => DecodeArray(serial, data, pos)
    case NbtIntArray => DecodeArray(serial, data, pos)
    case NbtLongArray => DecodeArray(serial, data, pos)
    case _ => DecodeScalar(serial, data, pos)
  }

  /** The list serializer's `readTag`: element type id, i32 count, elements. */
  function DecodeList(order: ByteOrder, data: seq<uint8>, pos: nat): (r: Result<Parsed<Tag>>)
    requires pos <= |data|
    ensures r.Ok? ==> pos <= r.value.next <= |data|
    ensures r.Ok? ==> r.value.item.List? && WellFormed(r.value.item)
    decreases |data| - pos, 0, 1
  {
    var typeId :- ReadByte(data, pos);
    var size :- ReadInt(data, typeId.next, order);
    if typeId.item == 0 && size.item > 0 then Err(MissingListType)
    else
      var elemSerial :- SerializerAt(order, typeId.item);
      var elems :- DecodeElems(elemSerial, data, size.next, if size.item > 0 then size.item else 0, []);
      Ok(Parsed(List(elems.item), elems.next))
  }

  /** Every element is a well-formed tag of class c, as the elements of a
      list read with one serializer are. */
  predicate AllOfClass(elems: seq<Tag>, c: TagClass)
  {
    forall i :: 0 <= i < |elems| ==> ClassOf(elems[i]) == c && WellFormed(elems[i])
  }

  /** `for (i in 1..size) list += serializer.readTag(input)`, n = max(size, 0). */
  function DecodeElems(serial: Serial, data: seq<uint8>, pos: nat, n: nat, acc: seq<Tag>)
    : (r: Result<Parsed<seq<Tag>>>)
    requires pos <= |data|
    ensures r.Ok? ==> pos <= r.value.next <= |data|
    ensures r.Ok? ==> |r.value.item| == |acc| + n
    ensures r.Ok? && AllOfClass(acc, serial.kClass) ==> AllOfClass(r.value.item, serial.kClass)
    decreases |data| - pos, 2, n
  {
    if n == 0 then Ok(Parsed(acc, pos))
    else
      var t :- DecodeTag(serial, data, pos);
      DecodeElems(serial, data, t.next, n - 1, acc + [t.item])
  }

  /** The `while (true)` loop of a compound: entries until a type id 0. */
  function DecodeEntries(order: ByteOrder, data: seq<uint8>, pos: nat, acc: seq<Entry>)
    : (r: Result<Parsed<seq<Entry>>>)
    requires pos <= |data|
    ensures r.Ok? ==> pos < r.value.next <= |data|
    ensures r.Ok? && ValidEntries(acc) ==> ValidEntries(r.value.item)
    decreases |data| - pos, 0, 1
  {
    var typeId :- ReadByte(data, pos);
    if typeId.item == 0 then Ok(Parsed(acc, typeId.next))
    else DecodeNamedEntry(order, data, typeId.next, typeId.item, acc)
  }

  /** The rest of one iteration after a non-zero type id: the name, the
      child tag, `map[name] = childTag`, then the next iteration. */
  function DecodeNamedEntry(order: ByteOrder, data: seq<uint8>, pos: nat, typeId: int8, acc: seq<Entry>)
    : (r: Result<Parsed<seq<Entry>>>)
    requires pos <= |data| && typeId != 0
    ensures r.Ok? ==> pos < r.value.next <= |data|
    ensures r.Ok? && ValidEntries(acc) ==> ValidEntries(r.value.item)
    decreases |data| - pos, 0, 0
  {
    var name :- ReadUtf(data, pos, order);
    var serializer :- SerializerAt(order, typeId);
    var child :- DecodeTag(serializer, data, name.next);
    PutPreserves(acc, name.item, child.item);
    DecodeEntries(order, data, child.next, Put(acc, name.item, child.item))
  }

  /** `readNbtFile`: type id, name, payload of the root. */
  function DecodeFile(data: seq<uint8>, pos: nat, order: ByteOrder, compressed: bool)
    : (r: Result<Parsed<NbtFile>>)
    requires pos <= |data|
    ensures r.Ok? ==> pos < r.value.next <= |data| && WellFormed(r.value.item.tag)
  {
    if compressed then Err(CompressionNotImplemented)
    else
      var typeId :- ReadByte(data, pos);
      var serializer :- SerializerAt(order, typeId.item);
      var name :- ReadUtf(data, typeId.next, order);
      var tag :- DecodeTag(serializer, data, name.next);
      Ok(Parsed(NbtFile(name.item, tag.item), tag.next))
  }
}
