/** The NBT tag tree, the two serializer tables and the type id of each variant.

    A `Tag` is a value of one of the 13 NBT variants. Float and Double hold
    their raw IEEE-754 bit patterns: the codec only moves those bits. Text
    (String payloads and compound names) is held as its UTF-8 bytes.
    A compound keeps its entries in insertion order, like the map it is read
    into; `Put` is that map's `map[name] = tag`. */
module Tags {
  import opened Bytes

  datatype Tag =
    | End
    | Byte(byteValue: int8)
    | Short(shortValue: int16)
    | Int(intValue: int32)
    | Long(longValue: int64)
    | Float(floatBits: uint32)
    | Double(doubleBits: uint64)
    | ByteArray(bytes: seq<int8>)
    | String(text: seq<uint8>)
    | List(elems: seq<Tag>)
    | Compound(entries: seq<Entry>)
    | IntArray(ints: seq<int32>)
    | LongArray(longs: seq<int64>)

  datatype Entry = Entry(name: seq<uint8>, tag: Tag)

  /** A named root: the unit of a whole NBT stream. */
  datatype NbtFile = NbtFile(name: seq<uint8>, tag: Tag)

  /** The class of a tag, by which the serializer tables are searched. */
  datatype TagClass =
    | NbtEnd | NbtByte | NbtShort | NbtInt | NbtLong | NbtFloat | NbtDouble
    | NbtByteArray | NbtString | NbtList | NbtCompound | NbtIntArray | NbtLongArray

  function ClassOf(t: Tag): TagClass
  {
    match t
    case End => NbtEnd
    case Byte(_) => NbtByte
    case Short(_) => NbtShort
    case Int(_) => NbtInt
    case Long(_) => NbtLong
    case Float(_) => NbtFloat
    case Double(_) => NbtDouble
    case ByteArray(_) => NbtByteArray
    case String(_) => NbtString
    case List(_) => NbtList
    case Compound(_) => NbtCompound
    case IntArray(_) => NbtIntArray
    case LongArray(_) => NbtLongArray
  }

  /** A serializer: the class it handles and the byte order it writes in. */
  datatype Serial = Serial(kClass: TagClass, byteOrder: ByteOrder)

  /** The End and Byte serializers are singletons built with BIG_ENDIAN;
      every other entry carries the table's own byte order. */
  const BigEndianSerializers: seq<Serial> := [
    Serial(NbtEnd, BigEndian),
    Serial(NbtByte, BigEndian),
    Serial(NbtShort, BigEndian),
    Serial(NbtInt, BigEndian),
    Serial(NbtLong, BigEndian),
    Serial(NbtFloat, BigEndian),
    Serial(NbtDouble, BigEndian),
    Serial(NbtByteArray, BigEndian),
    Serial(NbtString, BigEndian),
    Serial(NbtList, BigEndian),
    Serial(NbtCompound, BigEndian),
    Serial(NbtIntArray, BigEndian),
    Serial(NbtLongArray, BigEndian)
  ]

  const LittleEndianSerializers: seq<Serial> := [
    Serial(NbtEnd, BigEndian),
    Serial(NbtByte, BigEndian),
    Serial(NbtShort, LittleEndian),
    Serial(NbtInt, LittleEndian),
    Serial(NbtLong, LittleEndian),
    Serial(NbtFloat, LittleEndian),
    Serial(NbtDouble, LittleEndian),
    Serial(NbtByteArray, LittleEndian),
    Serial(NbtString, LittleEndian),
    Serial(NbtList, LittleEndian),
    Serial(NbtCompound, LittleEndian),
    Serial(NbtIntArray, LittleEndian),
    Serial(NbtLongArray, LittleEndian)
  ]

  /** The class handled at each position of either table. */
  function ClassAt(id: nat): (c: TagClass)
    requires id <= 12
  {
    if id == 0 then NbtEnd else if id == 1 then NbtByte else if id == 2 then NbtShort
    else if id == 3 then NbtInt else if id == 4 then NbtLong else if id == 5 then NbtFloat
    else if id == 6 then NbtDouble else if id == 7 then NbtByteArray else if id == 8 then NbtString
    else if id == 9 then NbtList else if id == 10 then NbtCompound else if id == 11 then NbtIntArray
    else NbtLongArray
  }

  /** `ByteOrder.serializers`: the table of the given byte order, entry by
      entry (SerializersAreListed shows it is the listed table). */
  function Serializers(order: ByteOrder): (table: seq<Serial>)
    ensures |table| == 13
  {
    seq(13, i requires 0 <= i < 13 => Serial(ClassAt(i), if i <= 1 then BigEndian else order))
  }

  lemma SerializersAreListed()
    ensures Serializers(BigEndian) == BigEndianSerializers
    ensures Serializers(LittleEndian) == LittleEndianSerializers
  {
    assert forall i :: 0 <= i < 13 ==> Serializers(BigEndian)[i] == BigEndianSerializers[i];
    assert forall i :: 0 <= i < 13 ==> Serializers(LittleEndian)[i] == LittleEndianSerializers[i];
  }

  /** Kotlin's `indexOfFirst`: the first position whose serializer handles
      class c, or -1 when there is none. */
  function IndexOfFirst(table: seq<Serial>, c: TagClass): (i: int)
    ensures -1 <= i < |table|
    ensures 0 <= i ==> table[i].kClass == c
    ensures forall j :: 0 <= j < |table| && (i == -1 || j < i) ==> table[j].kClass != c
  {
    if table == [] then -1
    else if table[0].kClass == c then 0
    else var k := IndexOfFirst(table[1..], c); if k == -1 then -1 else k + 1
  }

  /** The fixed numbering End=0, Byte=1, ..., LongArray=12. */
  function ClassId(c: TagClass): (id: nat)
    ensures id <= 12 && ClassAt(id) == c
  {
    match c
    case NbtEnd => 0
    case NbtByte => 1
    case NbtShort => 2
    case NbtInt => 3
    case NbtLong => 4
    case NbtFloat => 5
    case NbtDouble => 6
    case NbtByteArray => 7
    case NbtString => 8
    case NbtList => 9
    case NbtCompound => 10
    case NbtIntArray => 11
    case NbtLongArray => 12
  }

  /** The type id of a tag (`NbtTag.typeId`), by the fixed numbering;
      TypeIdIsIndexOfFirst shows it is the class's position in the
      big-endian table, as the source computes it. */
  function TypeId(t: Tag): (id: nat)
    ensures id <= 12
  {
    ClassId(ClassOf(t))
  }

  /** Each class sits at exactly one position, the same in both tables. */
  lemma TablesAgree(order: ByteOrder, c: TagClass)
    ensures Serializers(order)[ClassId(c)].kClass == c
    ensures forall j :: 0 <= j < 13 && Serializers(order)[j].kClass == c ==> j == ClassId(c)
  {
  }

  /** The type id is what `indexOfFirst` over the big-endian table finds. */
  lemma TypeIdIsIndexOfFirst(t: Tag)
    ensures TypeId(t) == IndexOfFirst(BigEndianSerializers, ClassOf(t))
  {
    SerializersAreListed();
    TablesAgree(BigEndian, ClassOf(t));
    assert BigEndianSerializers[TypeId(t)].kClass == ClassOf(t);
  }

  /** Every tag has a type id in 0..12, the same for both byte orders: the
      position of its class in either table. */
  lemma {:induction false} TypeIdIsTablePosition(t: Tag, order: ByteOrder)
    ensures TypeId(t) == ClassId(ClassOf(t))
    ensures 0 <= TypeId(t) <= 12
    ensures Serializers(order)[TypeId(t)].kClass == ClassOf(t)
  {
  }

  /** The serializer the source picks for a tag: `serializers[tag.typeId]`. */
  function SerializerFor(t: Tag, order: ByteOrder): (s: Serial)
    ensures s.kClass == ClassOf(t)
  {
    Serializers(order)[TypeId(t)]
  }

  /** Two's complement bound on the 32-bit counts the wire format stores. */
  const MaxCount: nat := 0x8000_0000

  predicate DistinctNames(entries: seq<Entry>)
  {
    forall i, j :: 0 <= i < j < |entries| ==> entries[i].name != entries[j].name
  }

  /** What Kotlin guarantees of every tag: arrays and lists hold fewer than
      2^31 elements (their size is an Int), and a compound, being a map, has
      distinct names. */
  predicate WellFormed(t: Tag)
  {
    match t
    case ByteArray(a) => |a| < MaxCount
    case IntArray(a) => |a| < MaxCount
    case LongArray(a) => |a| < MaxCount
    case List(elems) =>
      |elems| < MaxCount && forall i :: 0 <= i < |elems| ==> WellFormed(elems[i])
    case Compound(entries) =>
      DistinctNames(entries) && forall i :: 0 <= i < |entries| ==> WellFormed(entries[i].tag)
    case _ => true
  }

  predicate AllWellFormed(entries: seq<Entry>)
  {
    forall i :: 0 <= i < |entries| ==> WellFormed(entries[i].tag)
  }

  datatype Option<T> = None | Some(value: T)

  /** The value stored under name, if any. */
  function Lookup(entries: seq<Entry>, name: seq<uint8>): (r: Option<Tag>)
    ensures r.Some? <==> exists i :: 0 <= i < |entries| && entries[i].name == name
  {
    if entries == [] then None
    else if entries[0].name == name then Some(entries[0].tag)
    else Lookup(entries[1..], name)
  }

  /** The value found is the one in the first entry carrying the name. */
  lemma {:induction false} LookupFirst(entries: seq<Entry>, name: seq<uint8>, i: nat)
    requires i < |entries| && entries[i].name == name
    requires forall j :: 0 <= j < i ==> entries[j].name != name
    ensures Lookup(entries, name) == Some(entries[i].tag)
  {
    if i > 0 {
      forall j | 0 <= j < i - 1 ensures entries[1..][j].name != name {
        assert entries[1..][j] == entries[j + 1];
      }
      LookupFirst(entries[1..], name, i - 1);
    }
  }

  /** `map[name] = tag` on an insertion-ordered map: an existing name keeps
      its position and takes the new value, a new name is appended. */
  function Put(entries: seq<Entry>, name: seq<uint8>, tag: Tag): (r: seq<Entry>)
    ensures Lookup(r, name) == Some(tag)
  {
    if entries == [] then [Entry(name, tag)]
    else if entries[0].name == name then [Entry(name, tag)] + entries[1..]
    else [entries[0]] + Put(entries[1..], name, tag)
  }

  /** Put changes the value under its own name and no other. */
  lemma {:induction false} PutLookup(entries: seq<Entry>, name: seq<uint8>, tag: Tag, other: seq<uint8>)
    ensures Lookup(Put(entries, name, tag), other) == if other == name then Some(tag) else Lookup(entries, other)
  {
    if entries != [] && entries[0].name != name {
      PutLookup(entries[1..], name, tag, other);
    }
  }

  /** A name not yet present is appended at the end; a present one keeps its place. */
  lemma {:induction false} PutPosition(entries: seq<Entry>, name: seq<uint8>, tag: Tag)
    ensures Lookup(entries, name).None? ==> Put(entries, name, tag) == entries + [Entry(name, tag)]
    ensures Lookup(entries, name).Some? ==> |Put(entries, name, tag)| == |entries|
    ensures forall k :: 0 <= k < |entries| && entries[k].name == name
                        && (forall j :: 0 <= j < k ==> entries[j].name != name)
                        ==> Put(entries, name, tag) == entries[k := Entry(name, tag)]
  {
    if entries != [] && entries[0].name != name {
      PutPosition(entries[1..], name, tag);
      assert entries == [entries[0]] + entries[1..];
    }
    forall k | 0 <= k < |entries| && entries[k].name == name
               && (forall j :: 0 <= j < k ==> entries[j].name != name)
      ensures Put(entries, name, tag) == entries[k := Entry(name, tag)]
    {
      PutAt(entries, name, tag, k);
    }
  }

  /** Put on a name whose first occurrence is at k replaces slot k. */
  lemma {:induction false} PutAt(entries: seq<Entry>, name: seq<uint8>, tag: Tag, k: nat)
    requires k < |entries| && entries[k].name == name
    requires forall j :: 0 <= j < k ==> entries[j].name != name
    ensures Put(entries, name, tag) == entries[k := Entry(name, tag)]
  {
    if k > 0 {
      var rest := entries[1..];
      assert entries[0].name != name;
      assert Put(entries, name, tag) == [entries[0]] + Put(rest, name, tag);
      forall j | 0 <= j < k - 1 ensures rest[j].name != name {
        assert rest[j] == entries[j + 1];
      }
      assert rest[k - 1] == entries[k];
      PutAt(rest, name, tag, k - 1);
      var put := [entries[0]] + rest[k - 1 := Entry(name, tag)];
      forall i | 0 <= i < |entries| ensures put[i] == entries[k := Entry(name, tag)][i] {
        if i > 0 {
          assert put[i] == rest[k - 1 := Entry(name, tag)][i - 1];
        }
      }
      assert put == entries[k := Entry(name, tag)];
    }
  }

  /** Every entry after a Put is the one put or one that was there before. */
  lemma {:induction false} PutMembers(entries: seq<Entry>, name: seq<uint8>, tag: Tag)
    ensures forall x :: x in Put(entries, name, tag) ==> x == Entry(name, tag) || x in entries
  {
    if entries != [] && entries[0].name != name {
      PutMembers(entries[1..], name, tag);
    }
  }

  /** A compound read by Put never holds two entries with one name. */
  lemma {:induction false} PutKeepsNamesDistinct(entries: seq<Entry>, name: seq<uint8>, tag: Tag)
    ensures DistinctNames(entries) ==> DistinctNames(Put(entries, name, tag))
  {
    if entries != [] && entries[0].name != name && DistinctNames(entries) {
      var rest := entries[1..];
      PutKeepsNamesDistinct(rest, name, tag);
      PutMembers(rest, name, tag);
      var q := Put(rest, name, tag);
      var r := Put(entries, name, tag);
      forall i, j | 0 <= i < j < |r| ensures r[i].name != r[j].name {
        if i == 0 {
          assert r[j] == q[j - 1] && q[j - 1] in q;
          if q[j - 1] != Entry(name, tag) {
            var k :| 0 <= k < |rest| && rest[k] == q[j - 1];
            assert rest[k] == entries[k + 1];
          }
        }
      }
    }
  }

  predicate NoEnd(entries: seq<Entry>)
  {
    forall i :: 0 <= i < |entries| ==> !entries[i].tag.End?
  }

  /** The entries of a compound as the reader builds it: distinct names,
      well-formed values and no End value. */
  predicate ValidEntries(entries: seq<Entry>)
  {
    DistinctNames(entries) && AllWellFormed(entries) && NoEnd(entries)
  }

  /** Put keeps the entries valid when what it stores is a well-formed
      value other than End. */
  lemma PutPreserves(entries: seq<Entry>, name: seq<uint8>, tag: Tag)
    ensures ValidEntries(entries) && WellFormed(tag) && !tag.End? ==> ValidEntries(Put(entries, name, tag))
  {
    PutKeepsNamesDistinct(entries, name, tag);
    PutMembers(entries, name, tag);
    var r := Put(entries, name, tag);
    forall i | 0 <= i < |r| ensures r[i] == Entry(name, tag) || exists j :: 0 <= j < |entries| && entries[j] == r[i] {
      assert r[i] in r;
    }
  }

  /** The entries of s stored one after the other with Put. */
  function PutAll(acc: seq<Entry>, s: seq<Entry>): seq<Entry>
    decreases |s|
  {
    if s == [] then acc else PutAll(Put(acc, s[0].name, s[0].tag), s[1..])
  }

  /** Storing entries with distinct names one by one keeps them all, in order. */
  lemma {:induction false} PutAllDistinct(acc: seq<Entry>, s: seq<Entry>)
    requires DistinctNames(acc + s)
    ensures PutAll(acc, s) == acc + s
    decreases |s|
  {
    if s != [] {
      var e := s[0];
      forall i | 0 <= i < |acc| ensures acc[i].name != e.name {
        assert (acc + s)[i] == acc[i] && (acc + s)[|acc|] == e;
      }
      PutPosition(acc, e.name, e.tag);
      assert acc + [e] + s[1..] == acc + s;
      PutAllDistinct(acc + [e], s[1..]);
    }
  }

  predicate HasName(s: seq<Entry>, name: seq<uint8>)
  {
    exists i :: 0 <= i < |s| && s[i].name == name
  }

  /** The position of the last entry named name. */
  function LastIndex(s: seq<Entry>, name: seq<uint8>): (i: nat)
    requires HasName(s, name)
    ensures i < |s| && s[i].name == name
    ensures forall j :: i < j < |s| ==> s[j].name != name
    decreases |s|
  {
    if HasName(s[1..], name) then 1 + LastIndex(s[1..], name)
    else
      assert forall j :: 0 < j < |s| ==> s[j].name != name by {
        forall j | 0 < j < |s| ensures s[j].name != name {
          assert s[1..][j - 1] == s[j];
        }
      }
      0
  }

  /** When one name is stored several times, the last value stored wins,
      and names never stored keep what acc held. */
  lemma {:induction false} PutAllLookup(acc: seq<Entry>, s: seq<Entry>, name: seq<uint8>)
    ensures Lookup(PutAll(acc, s), name)
         == if HasName(s, name) then Some(s[LastIndex(s, name)].tag) else Lookup(acc, name)
    decreases |s|
  {
    if s != [] {
      PutLookup(acc, s[0].name, s[0].tag, name);
      PutAllLookup(Put(acc, s[0].name, s[0].tag), s[1..], name);
      if !HasName(s[1..], name) && s[0].name != name {
        assert !HasName(s, name) by {
          forall i | 0 <= i < |s| ensures s[i].name != name {
            if i > 0 {
              assert s[1..][i - 1] == s[i];
            }
          }
        }
      }
    }
  }
}
