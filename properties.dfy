/** What the codec promises beyond the round trip: exactly which tags can be
    written, the layouts of the containers and the root, and how the readers
    treat a missing list type, a non-positive count, a repeated compound
    name, an unknown type id and a negative array size. */
module Properties {
  import opened Bytes
  import opened Tags
  import opened Wire
  import opened Codec
  import opened RoundTrip

  /** The tags every writer accepts: text and names fit a u16 length, a
      list's elements all have the class of the first, which is not End,
      and a compound holds no End value. */
  predicate Writable(t: Tag)
  {
    match t
    case String(text) => |text| <= MaxUtfLength
    case List(elems) =>
      (elems == [] || !elems[0].End?)
      && forall i :: 0 <= i < |elems| ==> ClassOf(elems[i]) == ClassOf(elems[0]) && Writable(elems[i])
    case Compound(entries) =>
      forall i :: 0 <= i < |entries| ==>
        !entries[i].tag.End? && |entries[i].name| <= MaxUtfLength && Writable(entries[i].tag)
    case _ => true
  }

  /** A payload is written exactly when the serializer has the tag's class
      and the tag is writable; otherwise the write stops with an error. */
  lemma {:induction false} WritableExactly(serial: Serial, t: Tag)
    requires WellFormed(t)
    ensures EncodeTag(serial, t).Ok? <==> ClassOf(t) == serial.kClass && Writable(t)
    decreases t, 2
  {
    if ClassOf(t) == serial.kClass {
      match t
      case List(elems) => ListWritable(serial.byteOrder, elems);
      case Compound(entries) => CompoundWritable(serial.byteOrder, entries);
      case _ =>
    }
  }

  lemma {:induction false} ListWritable(order: ByteOrder, elems: seq<Tag>)
    requires WellFormed(List(elems))
    ensures EncodeList(order, elems).Ok? <==> Writable(List(elems))
    decreases elems, 1
  {
    var sample := if |elems| > 0 then elems[0] else End;
    TypeIdZero(sample);
    ElemsWritable(SerializerFor(sample, order), elems);
  }

  lemma {:induction false} ElemsWritable(serial: Serial, elems: seq<Tag>)
    requires forall i :: 0 <= i < |elems| ==> WellFormed(elems[i])
    ensures EncodeElems(serial, elems).Ok?
        <==> forall i :: 0 <= i < |elems| ==> ClassOf(elems[i]) == serial.kClass && Writable(elems[i])
    decreases elems, 0
  {
    if elems != [] {
      WritableExactly(serial, elems[0]);
      ElemsWritable(serial, elems[1..]);
      forall i | 1 <= i < |elems| ensures elems[1..][i - 1] == elems[i] { }
    }
  }

  lemma {:induction false} CompoundWritable(order: ByteOrder, entries: seq<Entry>)
    requires WellFormed(Compound(entries))
    ensures EncodeCompound(order, entries).Ok? <==> Writable(Compound(entries))
    decreases entries, 1
  {
    EntriesWritable(order, entries);
  }

  lemma {:induction false} EntriesWritable(order: ByteOrder, entries: seq<Entry>)
    requires AllWellFormed(entries)
    ensures EncodeEntries(order, entries).Ok?
        <==> forall i :: 0 <= i < |entries| ==> |entries[i].name| <= MaxUtfLength && Writable(entries[i].tag)
    decreases entries, 0
  {
    if entries != [] {
      var e := entries[0];
      WritableExactly(SerializerFor(e.tag, order), e.tag);
      EntriesWritable(order, entries[1..]);
      forall i | 1 <= i < |entries| ensures entries[1..][i - 1] == entries[i] { }
    }
  }

  /** Every well-formed, writable root with a name of at most 65535 bytes is
      written, and reading the bytes back gives the same file. */
  lemma WritableFileRoundTrip(file: NbtFile, order: ByteOrder)
    requires WellFormed(file.tag) && Writable(file.tag) && |file.name| <= MaxUtfLength
    ensures EncodeFile(file, order, false).Ok?
    ensures DecodeFile(EncodeFile(file, order, false).value, 0, order, false)
         == Ok(Parsed(file, |EncodeFile(file, order, false).value|))
  {
    WritableExactly(SerializerFor(file.tag, order), file.tag);
    FileBytesRoundTrip(file, order);
  }

  /** The root is written as its type id, its name and its payload. */
  lemma FileLayout(file: NbtFile, order: ByteOrder)
    requires WellFormed(file.tag) && EncodeFile(file, order, false).Ok?
    ensures WriteUtf(file.name, order).Ok? && EncodeTag(SerializerFor(file.tag, order), file.tag).Ok?
    ensures EncodeFile(file, order, false).value
         == [TypeId(file.tag)] + WriteUtf(file.name, order).value + EncodeTag(SerializerFor(file.tag, order), file.tag).value
  {
    var utf, payload := NamedParts(order, file.name, file.tag);
  }

  /** An empty list is written as element type 0 and a zero count. */
  lemma EmptyListEncoding(order: ByteOrder)
    ensures EncodeList(order, []) == Ok([0, 0, 0, 0, 0])
  {
    Pow256Widths();
    TypeIdZero(End);
    assert BigEndianBytes(0, 1) == [0];
    assert BigEndianBytes(0, 2) == [0, 0];
    assert BigEndianBytes(0, 3) == [0, 0, 0];
    assert BigEndianBytes(0, 4) == [0, 0, 0, 0];
    assert Reverse([0]) == [0];
    assert Reverse([0, 0]) == [0, 0];
    assert Reverse([0, 0, 0]) == [0, 0, 0];
    assert Reverse([0, 0, 0, 0]) == [0, 0, 0, 0];
    assert SignedBytes(0, 4, order) == [0, 0, 0, 0];
    assert [0 as uint8] + [0, 0, 0, 0] + [] == [0, 0, 0, 0, 0];
  }

  /** A list is written only when all its elements have one class. */
  lemma ListElementsShareClass(order: ByteOrder, elems: seq<Tag>)
    requires WellFormed(List(elems)) && EncodeList(order, elems).Ok?
    ensures forall i :: 0 <= i < |elems| ==> ClassOf(elems[i]) == ClassOf(elems[0])
  {
    ListWritable(order, elems);
  }

  /** A non-empty list whose elements are End is refused. */
  lemma ListOfEndRefused(order: ByteOrder, elems: seq<Tag>)
    requires WellFormed(List(elems)) && elems != [] && elems[0].End?
    ensures EncodeList(order, elems) == Err(EndInList)
  {
    TypeIdZero(elems[0]);
  }

  /** Element type 0 with a positive count is refused by the list reader. */
  lemma ListWithoutTypeRefused(order: ByteOrder, data: seq<uint8>, pos: nat)
    requires pos + 5 <= |data| && data[pos] == 0 && SignedValue(data[pos + 1..pos + 5], order) > 0
    ensures DecodeList(order, data, pos) == Err(MissingListType)
  {
    Pow256Widths();
  }

  /** A count of zero or less reads as the empty list, after the five
      header bytes, whatever the element type. */
  lemma ListNonPositiveCountIsEmpty(order: ByteOrder, data: seq<uint8>, pos: nat)
    requires pos + 5 <= |data| && data[pos] <= 12 && SignedValue(data[pos + 1..pos + 5], order) <= 0
    ensures DecodeList(order, data, pos) == Ok(Parsed(List([]), pos + 5))
  {
    Pow256Widths();
  }

  /** An element type outside 0..12 is refused by the list reader. */
  lemma ListUnknownTypeRefused(order: ByteOrder, data: seq<uint8>, pos: nat)
    requires pos + 5 <= |data| && data[pos] > 12
    ensures DecodeList(order, data, pos) == Err(UnknownTypeId(ToSigned(data[pos], 1)))
  {
    Pow256Widths();
  }

  /** A list read holds exactly as many elements as a positive count says. */
  lemma ListReadsCount(order: ByteOrder, data: seq<uint8>, pos: nat)
    requires pos + 5 <= |data| && DecodeList(order, data, pos).Ok?
    ensures var count := SignedValue(data[pos + 1..pos + 5], order);
            |DecodeList(order, data, pos).value.item.elems| == if count > 0 then count else 0
  {
    Pow256Widths();
  }

  /** An empty compound is written as the single terminator byte. */
  lemma EmptyCompoundEncoding(order: ByteOrder)
    ensures EncodeCompound(order, []) == Ok([0])
  {
    assert EncodeEntries(order, []) == Ok([]);
    assert [] + [0 as uint8] == [0];
  }

  /** The compound reader stops at the first type id 0 and stores nothing
      for it. */
  lemma CompoundStopsAtZero(order: ByteOrder, data: seq<uint8>, pos: nat, acc: seq<Entry>)
    requires pos < |data| && data[pos] == 0
    ensures DecodeEntries(order, data, pos, acc) == Ok(Parsed(acc, pos + 1))
  {
    Pow256Widths();
  }

  /** Entries written one after the other, names repeated or not, read
      back as if stored one by one: the later value of a repeated name
      replaces the earlier one. */
  lemma CompoundLaterNameWins(order: ByteOrder, s: seq<Entry>, name: seq<uint8>)
    requires AllWellFormed(s) && NoEnd(s) && EncodeEntries(order, s).Ok?
    ensures var data := EncodeEntries(order, s).value + [0];
            DecodeEntries(order, data, 0, []) == Ok(Parsed(PutAll([], s), |data|))
    ensures HasName(s, name) ==> Lookup(PutAll([], s), name) == Some(s[LastIndex(s, name)].tag)
    ensures !HasName(s, name) ==> Lookup(PutAll([], s), name).None?
  {
    var body := EncodeEntries(order, s).value;
    var data := body + [0];
    assert data == [] + body + ([0] + []);
    EntriesRoundTrip(order, s, data, [], [], 0, |data|, []);
    PutAllLookup([], s, name);
  }

  /** ByteArray, IntArray and LongArray are written as a 4-byte count and
      then 1, 4 or 8 bytes per element. */
  lemma ArrayEncodingLength(serial: Serial, t: Tag)
    requires WellFormed(t) && EncodeTag(serial, t).Ok?
    ensures t.ByteArray? ==> |EncodeTag(serial, t).value| == 4 + |t.bytes|
    ensures t.IntArray? ==> |EncodeTag(serial, t).value| == 4 + 4 * |t.ints|
    ensures t.LongArray? ==> |EncodeTag(serial, t).value| == 4 + 8 * |t.longs|
  {
    Pow256Widths();
    match t
    case IntArray(a) => assert AllInSignedRange(a, 4); SignedRunLength(a, 4, serial.byteOrder);
    case LongArray(a) => assert AllInSignedRange(a, 8); SignedRunLength(a, 8, serial.byteOrder);
    case _ =>
  }

  lemma {:induction false} SignedRunLength(s: seq<int>, width: nat, order: ByteOrder)
    requires width >= 1 && AllInSignedRange(s, width)
    ensures |SignedRunBytes(s, width, order)| == width * |s|
  {
    if s != [] {
      SignedRunLength(s[1..], width, order);
    }
  }

  /** A negative array count is refused, as `ByteArray(size)`,
      `IntArray(size)` and `LongArray(size)` refuse it. */
  lemma NegativeArraySizeRefused(serial: Serial, data: seq<uint8>, pos: nat)
    requires serial.kClass in {NbtByteArray, NbtIntArray, NbtLongArray}
    requires pos + 4 <= |data| && SignedValue(data[pos..pos + 4], serial.byteOrder) < 0
    ensures DecodeTag(serial, data, pos) == Err(NegativeArraySize(SignedValue(data[pos..pos + 4], serial.byteOrder)))
  {
  }

  /** A root type id outside 0..12 is refused before the name is read. */
  lemma FileUnknownTypeRefused(data: seq<uint8>, pos: nat, order: ByteOrder)
    requires pos < |data| && data[pos] > 12
    ensures DecodeFile(data, pos, order, false) == Err(UnknownTypeId(ToSigned(data[pos], 1)))
  {
    Pow256Widths();
  }

  /** A compound entry with a type id outside 0..12 is refused after its
      name is read. */
  lemma EntryUnknownTypeRefused(order: ByteOrder, data: seq<uint8>, pos: nat, acc: seq<Entry>)
    requires pos < |data| && data[pos] > 12 && ReadUtf(data, pos + 1, order).Ok?
    ensures DecodeEntries(order, data, pos, acc) == Err(UnknownTypeId(ToSigned(data[pos], 1)))
  {
    Pow256Widths();
  }
}
