/** Reading back what the codec writes gives back what was written.

    Each lemma places the written bytes B anywhere in a larger input
    `data == pre + B + post` and shows that the matching reader, started at
    `pos == |pre|`, returns the written value and stops at `end`, the
    position just after B. */
module RoundTrip {
  import opened Bytes
  import opened Tags
  import opened Wire
  import opened Codec

  // Sequence algebra: regrouping and slicing concatenations. These lemmas
  // have no counterpart in the codec; the proofs below use them.

  /** The bytes written in the middle of an input are found there. */
  lemma {:induction false} Middle(pre: seq<uint8>, b: seq<uint8>, post: seq<uint8>)
    ensures |pre| + |b| <= |pre + b + post|
    ensures (pre + b + post)[|pre|..|pre| + |b|] == b
  {
  }

  /** Two pieces written one after the other: either may be taken as part
      of what surrounds the other. */
  lemma {:induction false} Regroup(pre: seq<uint8>, x: seq<uint8>, y: seq<uint8>, post: seq<uint8>)
    ensures pre + (x + y) + post == (pre + x) + y + post
    ensures pre + (x + y) + post == pre + x + (y + post)
  {
  }

  /** Three pieces written one after the other. */
  lemma {:induction false} Regroup4(pre: seq<uint8>, a: seq<uint8>, b: seq<uint8>, c: seq<uint8>, post: seq<uint8>)
    ensures pre + (a + (b + c)) + post == pre + a + ((b + c) + post)
    ensures pre + (a + (b + c)) + post == (pre + a) + b + (c + post)
    ensures pre + (a + (b + c)) + post == (pre + a + b) + c + post
  {
  }

  /** Output appended piece by piece, grouped to the right. */
  lemma {:induction false} Concat3(a: seq<uint8>, b: seq<uint8>, c: seq<uint8>)
    ensures a + b + c == a + (b + c)
  {
  }

  lemma {:induction false} Concat4(a: seq<uint8>, b: seq<uint8>, c: seq<uint8>, d: seq<uint8>)
    ensures a + b + c + d == a + (b + (c + d))
  {
  }

  lemma {:induction false} EmptyMiddle(pre: seq<uint8>, z: seq<uint8>, post: seq<uint8>)
    ensures pre + [] + (z + post) == pre + z + post
  {
  }

  lemma {:induction false} Snoc<T>(acc: seq<T>, s: seq<T>)
    requires s != []
    ensures acc + [s[0]] + s[1..] == acc + s
  {
  }

  /** Cutting `pre + b` inside b keeps pre and a prefix of b. */
  lemma {:induction false} CutOfConcat(pre: seq<uint8>, b: seq<uint8>, k: nat)
    requires k <= |b|
    ensures (pre + b)[..|pre| + k] == pre + b[..k]
  {
  }

  // The codec's round trips.

  lemma {:induction false} ReadSignedOf(v: int, n: nat, order: ByteOrder,
                                        data: seq<uint8>, pre: seq<uint8>, post: seq<uint8>, pos: nat, end: nat)
    requires n >= 1 && InSignedRange(v, n)
    requires data == pre + SignedBytes(v, n, order) + post && pos == |pre| && end == pos + n
    ensures ReadSigned(data, pos, n, order) == Ok(Parsed(v, end))
  {
    Middle(pre, SignedBytes(v, n, order), post);
    SignedRoundTrip(v, n, order);
  }

  lemma {:induction false} ReadUnsignedOf(v: nat, n: nat, order: ByteOrder,
                                          data: seq<uint8>, pre: seq<uint8>, post: seq<uint8>, pos: nat, end: nat)
    requires v < Pow256(n)
    requires data == pre + UnsignedBytes(v, n, order) + post && pos == |pre| && end == pos + n
    ensures ReadUnsigned(data, pos, n, order) == Ok(Parsed(v, end))
  {
    Middle(pre, UnsignedBytes(v, n, order), post);
    UnsignedRoundTrip(v, n, order);
  }

  lemma {:induction false} ReadBytesOf(b: seq<uint8>, data: seq<uint8>, pre: seq<uint8>, post: seq<uint8>, pos: nat, end: nat)
    requires data == pre + b + post && pos == |pre| && end == pos + |b|
    ensures ReadBytes(data, pos, |b|) == Ok(Parsed(b, end))
  {
    Middle(pre, b, post);
  }

  lemma {:induction false} ReadByteOf(b: uint8, data: seq<uint8>, pre: seq<uint8>, post: seq<uint8>, pos: nat, end: nat)
    requires data == pre + [b] + post && pos == |pre| && end == pos + 1
    ensures ReadByte(data, pos) == Ok(Parsed(ToSigned(b, 1), end))
  {
    Pow256Widths();
    assert data[pos] == b;
  }

  lemma {:induction false} ReadIntOf(v: int32, order: ByteOrder,
                                     data: seq<uint8>, pre: seq<uint8>, post: seq<uint8>, pos: nat, end: nat)
    requires InSignedRange(v, 4)
    requires data == pre + SignedBytes(v, 4, order) + post && pos == |pre| && end == pos + 4
    ensures ReadInt(data, pos, order) == Ok(Parsed(v, end))
  {
    Middle(pre, SignedBytes(v, 4, order), post);
    SignedRoundTrip(v, 4, order);
  }

  lemma {:induction false} ReadUtfOf(v: seq<uint8>, order: ByteOrder,
                                     data: seq<uint8>, pre: seq<uint8>, post: seq<uint8>, pos: nat, end: nat)
    requires WriteUtf(v, order).Ok?
    requires data == pre + WriteUtf(v, order).value + post && pos == |pre| && end == pos + 2 + |v|
    ensures ReadUtf(data, pos, order) == Ok(Parsed(v, end))
  {
    Middle(pre, WriteUtf(v, order).value, post);
    UtfRoundTrip(v, order, data, pos);
  }

  lemma {:induction false} ReadSignedRunStep(data: seq<uint8>, pos: nat, count: nat, m: nat, width: nat, order: ByteOrder,
                                             acc: seq<int>, v: int, next: nat)
    requires width >= 1 && count == m + 1 && pos <= |data|
    requires ReadSigned(data, pos, width, order) == Ok(Parsed(v, next))
    ensures ReadSignedRun(data, pos, count, width, order, acc) == ReadSignedRun(data, next, m, width, order, acc + [v])
  {
  }

  /** The first number of a run: its bytes x head the run, and the reader
      consumes them by appending the number. */
  lemma {:induction false} SignedRunStep(s: seq<int>, width: nat, order: ByteOrder,
                                         data: seq<uint8>, pre: seq<uint8>, post: seq<uint8>, pos: nat, acc: seq<int>)
    returns (x: seq<uint8>)
    requires s != [] && width >= 1 && AllInSignedRange(s, width)
    requires data == pre + SignedRunBytes(s, width, order) + post && pos == |pre|
    ensures AllInSignedRange(s[1..], width)
    ensures |SignedRunBytes(s, width, order)| == |x| + |SignedRunBytes(s[1..], width, order)|
    ensures data == (pre + x) + SignedRunBytes(s[1..], width, order) + post
    ensures ReadSignedRun(data, pos, |s|, width, order, acc)
         == ReadSignedRun(data, pos + |x|, |s[1..]|, width, order, acc + [s[0]])
  {
    x := SignedBytes(s[0], width, order);
    var y := SignedRunBytes(s[1..], width, order);
    Regroup(pre, x, y, post);
    ReadSignedOf(s[0], width, order, data, pre, y + post, pos, pos + |x|);
    ReadSignedRunStep(data, pos, |s|, |s[1..]|, width, order, acc, s[0], pos + |x|);
  }

  lemma {:induction false} ReadSignedRunEnd(data: seq<uint8>, pos: nat, width: nat, order: ByteOrder, acc: seq<int>, end: nat)
    requires width >= 1 && pos <= |data| && end == pos
    ensures ReadSignedRun(data, pos, 0, width, order, acc) == Ok(Parsed(acc, end))
  {
  }

  /** IntArray and LongArray elements come back in order. */
  lemma {:induction false} SignedRunRoundTrip(s: seq<int>, width: nat, order: ByteOrder,
                                              data: seq<uint8>, pre: seq<uint8>, post: seq<uint8>, pos: nat, end: nat, acc: seq<int>)
    requires width >= 1 && AllInSignedRange(s, width)
    requires data == pre + SignedRunBytes(s, width, order) + post && pos == |pre|
    requires end == pos + |SignedRunBytes(s, width, order)|
    ensures ReadSignedRun(data, pos, |s|, width, order, acc) == Ok(Parsed(acc + s, end))
    decreases s
  {
    if s == [] {
      assert acc + s == acc;
      ReadSignedRunEnd(data, pos, width, order, acc, end);
    } else {
      var x := SignedRunStep(s, width, order, data, pre, post, pos, acc);
      SignedRunRoundTrip(s[1..], width, order, data, pre + x, post, pos + |x|, end, acc + [s[0]]);
      Snoc(acc, s);
    }
  }

  lemma {:induction false} EndRoundTrip(serial: Serial, data: seq<uint8>, pos: nat, end: nat)
    requires serial.kClass == NbtEnd && pos <= |data| && end == pos
    ensures DecodeTag(serial, data, pos) == Ok(Parsed(End, end))
  {
  }

  /** Every class without children reads back what it writes. */
  lemma {:induction false} ScalarRoundTrip(serial: Serial, t: Tag, data: seq<uint8>, pre: seq<uint8>, post: seq<uint8>, pos: nat, end: nat)
    requires WellFormed(t) && EncodeTag(serial, t).Ok?
    requires ClassOf(t) !in {NbtByteArray, NbtList, NbtCompound, NbtIntArray, NbtLongArray}
    requires data == pre + EncodeTag(serial, t).value + post && pos == |pre| && end == pos + |EncodeTag(serial, t).value|
    ensures DecodeTag(serial, data, pos) == Ok(Parsed(t, end))
  {
    Pow256Widths();
    var order := serial.byteOrder;
    match t
    case End => EndRoundTrip(serial, data, pos, end);
    case Byte(v) => ReadByteOf(ToUnsigned(v, 1), data, pre, post, pos, end); TwosComplementRoundTrip(v, 0, 1);
    case Short(v) => ReadSignedOf(v, 2, order, data, pre, post, pos, end);
    case Int(v) => ReadIntOf(v, order, data, pre, post, pos, end);
    case Long(v) => ReadSignedOf(v, 8, order, data, pre, post, pos, end);
    case Float(bits) => ReadUnsignedOf(bits, 4, order, data, pre, post, pos, end);
    case Double(bits) => ReadUnsignedOf(bits, 8, order, data, pre, post, pos, end);
    case String(text) => ReadUtfOf(text, order, data, pre, post, pos, end);
  }

  lemma {:induction false} ByteArrayRoundTrip(serial: Serial, t: Tag, data: seq<uint8>, pre: seq<uint8>, post: seq<uint8>, pos: nat, end: nat)
    requires t.ByteArray? && WellFormed(t) && EncodeTag(serial, t).Ok?
    requires data == pre + EncodeTag(serial, t).value + post && pos == |pre| && end == pos + |EncodeTag(serial, t).value|
    ensures DecodeTag(serial, data, pos) == Ok(Parsed(t, end))
  {
    Pow256Widths();
    var order := serial.byteOrder;
    var a := t.bytes;
    var x := SignedBytes(|a|, 4, order);
    var y := AsUnsigned(a);
    assert EncodeTag(serial, t).value == x + y;
    Regroup(pre, x, y, post);
    ReadIntOf(|a|, order, data, pre, y + post, pos, pos + 4);
    ReadBytesOf(y, data, pre + x, post, pos + 4, end);
    AsSignedAsUnsigned(a);
  }

  /** What the IntArray and LongArray writers put down: the count x, then
      the elements y, each `width` bytes. */
  lemma {:induction false} SignedArrayParts(serial: Serial, t: Tag, width: nat) returns (x: seq<uint8>, y: seq<uint8>, a: seq<int>)
    requires (t.IntArray? && width == 4) || (t.LongArray? && width == 8)
    requires WellFormed(t) && EncodeTag(serial, t).Ok?
    ensures a == (if t.IntArray? then t.ints else t.longs) && |a| < 0x8000_0000
    ensures AllInSignedRange(a, width) && x == SignedBytes(|a|, 4, serial.byteOrder)
    ensures y == SignedRunBytes(a, width, serial.byteOrder)
    ensures EncodeTag(serial, t).value == x + y
  {
    Pow256Widths();
    a := if t.IntArray? then t.ints else t.longs;
    assert AllInSignedRange(a, width);
    x := SignedBytes(|a|, 4, serial.byteOrder);
    y := SignedRunBytes(a, width, serial.byteOrder);
  }

  /** The IntArray and LongArray readers, given the count and the run. */
  lemma {:induction false} DecodeSignedArrayOf(serial: Serial, t: Tag, width: nat, data: seq<uint8>, pos: nat, a: seq<int>, end: nat)
    requires (t.IntArray? && width == 4 && a == t.ints) || (t.LongArray? && width == 8 && a == t.longs)
    requires serial.kClass == ClassOf(t) && pos <= |data| && |a| < 0x8000_0000
    requires ReadInt(data, pos, serial.byteOrder) == Ok(Parsed(|a|, pos + 4))
    requires ReadSignedRun(data, pos + 4, |a|, width, serial.byteOrder, []) == Ok(Parsed(a, end))
    ensures DecodeTag(serial, data, pos) == Ok(Parsed(t, end))
  {
  }

  /** IntArray and LongArray read back with their elements in order. */
  lemma {:induction false} SignedArrayRoundTrip(serial: Serial, t: Tag, width: nat,
                                                data: seq<uint8>, pre: seq<uint8>, post: seq<uint8>, pos: nat, end: nat)
    requires (t.IntArray? && width == 4) || (t.LongArray? && width == 8)
    requires WellFormed(t) && EncodeTag(serial, t).Ok?
    requires data == pre + EncodeTag(serial, t).value + post && pos == |pre| && end == pos + |EncodeTag(serial, t).value|
    ensures DecodeTag(serial, data, pos) == Ok(Parsed(t, end))
  {
    Pow256Widths();
    var order := serial.byteOrder;
    var x, y, a := SignedArrayParts(serial, t, width);
    Regroup(pre, x, y, post);
    ReadIntOf(|a|, order, data, pre, y + post, pos, pos + 4);
    SignedRunRoundTrip(a, width, order, data, pre + x, post, pos + 4, end, []);
    assert [] + a == a;
    DecodeSignedArrayOf(serial, t, width, data, pos, a, end);
  }

  /** An End value is the only tag whose type id is 0. */
  lemma {:induction false} TypeIdZero(t: Tag)
    ensures TypeId(t) == 0 <==> t.End?
  {
  }

  /** Reading a written payload with the same serializer gives the tag back
      and stops right after the payload. */
  lemma {:induction false} TagRoundTrip(serial: Serial, t: Tag, data: seq<uint8>, pre: seq<uint8>, post: seq<uint8>, pos: nat, end: nat)
    requires WellFormed(t) && EncodeTag(serial, t).Ok?
    requires data == pre + EncodeTag(serial, t).value + post && pos == |pre| && end == pos + |EncodeTag(serial, t).value|
    ensures DecodeTag(serial, data, pos) == Ok(Parsed(t, end))
    decreases t, 2
  {
    match t
    case List(elems) => ListRoundTrip(serial.byteOrder, elems, data, pre, post, pos, end);
    case Compound(entries) => CompoundRoundTrip(serial.byteOrder, entries, data, pre, post, pos, end);
    case ByteArray(_) => ByteArrayRoundTrip(serial, t, data, pre, post, pos, end);
    case IntArray(_) => SignedArrayRoundTrip(serial, t, 4, data, pre, post, pos, end);
    case LongArray(_) => SignedArrayRoundTrip(serial, t, 8, data, pre, post, pos, end);
    case _ => ScalarRoundTrip(serial, t, data, pre, post, pos, end);
  }

  /** The list reader, given the header and what the element loop returns. */
  lemma {:induction false} DecodeListOf(order: ByteOrder, data: seq<uint8>, pos: nat, id: int8, count: int32, elems: Parsed<seq<Tag>>)
    requires pos <= |data| && 0 <= id <= 12 && 0 <= count && !(id == 0 && count > 0)
    requires ReadByte(data, pos) == Ok(Parsed(id, pos + 1))
    requires ReadInt(data, pos + 1, order) == Ok(Parsed(count, pos + 1 + 4))
    requires DecodeElems(Serializers(order)[id], data, pos + 1 + 4, count, []) == Ok(elems)
    ensures DecodeList(order, data, pos) == Ok(Parsed(List(elems.item), elems.next))
  {
  }

  /** What the list writer puts down: the element type id, the size and
      the elements' payloads. */
  lemma {:induction false} ListParts(order: ByteOrder, elems: seq<Tag>)
    returns (id: uint8, x: seq<uint8>, body: seq<uint8>)
    requires WellFormed(List(elems)) && EncodeList(order, elems).Ok?
    ensures id <= 12 && !(id == 0 && |elems| > 0) && |elems| < 0x8000_0000
    ensures x == SignedBytes(|elems|, 4, order)
    ensures forall i :: 0 <= i < |elems| ==> WellFormed(elems[i])
    ensures EncodeElems(Serializers(order)[id], elems).Ok? && body == EncodeElems(Serializers(order)[id], elems).value
    ensures EncodeList(order, elems).value == ([id] + x) + body
  {
    Pow256Widths();
    var sample := if |elems| > 0 then elems[0] else End;
    TypeIdZero(sample);
    id := TypeId(sample) as uint8;
    x := SignedBytes(|elems|, 4, order);
    body := EncodeElems(SerializerFor(sample, order), elems).value;
  }

  /** A written list reads back with its element type, size and elements. */
  lemma {:induction false} ListRoundTrip(order: ByteOrder, elems: seq<Tag>,
                                         data: seq<uint8>, pre: seq<uint8>, post: seq<uint8>, pos: nat, end: nat)
    requires WellFormed(List(elems)) && EncodeList(order, elems).Ok?
    requires data == pre + EncodeList(order, elems).value + post && pos == |pre| && end == pos + |EncodeList(order, elems).value|
    ensures DecodeList(order, data, pos) == Ok(Parsed(List(elems), end))
    decreases elems, 3
  {
    var id, x, body := ListParts(order, elems);
    Regroup(pre, [id] + x, body, post);
    ListPartsRoundTrip(order, elems, id, x, body, data, pre, post, pos, end);
  }

  lemma {:induction false} ListPartsRoundTrip(order: ByteOrder, elems: seq<Tag>, id: uint8, x: seq<uint8>, body: seq<uint8>,
                                              data: seq<uint8>, pre: seq<uint8>, post: seq<uint8>, pos: nat, end: nat)
    requires id <= 12 && !(id == 0 && |elems| > 0) && |elems| < 0x8000_0000
    requires x == SignedBytes(|elems|, 4, order)
    requires forall i :: 0 <= i < |elems| ==> WellFormed(elems[i])
    requires EncodeElems(Serializers(order)[id], elems).Ok? && body == EncodeElems(Serializers(order)[id], elems).value
    requires data == (pre + ([id] + x)) + body + post && pos == |pre| && end == pos + 1 + 4 + |body|
    ensures DecodeList(order, data, pos) == Ok(Parsed(List(elems), end))
    decreases elems, 2
  {
    Pow256Widths();
    Regroup(pre, [id], x, body + post);
    Regroup(pre, [id] + x, body, post);
    ReadByteOf(id, data, pre, x + (body + post), pos, pos + 1);
    ReadIntOf(|elems|, order, data, pre + [id], body + post, pos + 1, pos + 1 + 4);
    ElemsRoundTrip(Serializers(order)[id], elems, data, pre + ([id] + x), post, pos + 1 + 4, end, []);
    assert [] + elems == elems;
    DecodeListOf(order, data, pos, id as int8, |elems|, Parsed(elems, end));
  }

  lemma {:induction false} DecodeElemsStep(serial: Serial, data: seq<uint8>, pos: nat, n: nat, m: nat, acc: seq<Tag>, t: Tag, next: nat)
    requires n == m + 1 && pos <= |data| && DecodeTag(serial, data, pos) == Ok(Parsed(t, next))
    ensures next <= |data|
    ensures DecodeElems(serial, data, pos, n, acc) == DecodeElems(serial, data, next, m, acc + [t])
  {
  }

  lemma {:induction false} DecodeElemsEnd(serial: Serial, data: seq<uint8>, pos: nat, acc: seq<Tag>, end: nat)
    requires pos <= |data| && end == pos
    ensures DecodeElems(serial, data, pos, 0, acc) == Ok(Parsed(acc, end))
  {
  }

  /** What the element writer puts down for a non-empty run of elements:
      the first element's payload x, then the rest's payloads y. */
  lemma {:induction false} ElemsParts(serial: Serial, elems: seq<Tag>) returns (x: seq<uint8>, y: seq<uint8>)
    requires elems != [] && (forall i :: 0 <= i < |elems| ==> WellFormed(elems[i])) && EncodeElems(serial, elems).Ok?
    ensures WellFormed(elems[0]) && EncodeTag(serial, elems[0]).Ok? && x == EncodeTag(serial, elems[0]).value
    ensures (forall i :: 0 <= i < |elems[1..]| ==> WellFormed(elems[1..][i])) && EncodeElems(serial, elems[1..]).Ok?
    ensures y == EncodeElems(serial, elems[1..]).value
    ensures EncodeElems(serial, elems).value == x + y
  {
    assert WellFormed(elems[0]);
    x := EncodeTag(serial, elems[0]).value;
    y := EncodeElems(serial, elems[1..]).value;
  }

  /** One written element is read back and appended. */
  lemma {:induction false} ElemRoundTrip(serial: Serial, t: Tag, data: seq<uint8>, pre: seq<uint8>, post: seq<uint8>,
                                         pos: nat, end: nat, n: nat, m: nat, acc: seq<Tag>)
    requires WellFormed(t) && EncodeTag(serial, t).Ok? && n == m + 1
    requires data == pre + EncodeTag(serial, t).value + post && pos == |pre| && end == pos + |EncodeTag(serial, t).value|
    ensures end <= |data|
    ensures DecodeElems(serial, data, pos, n, acc) == DecodeElems(serial, data, end, m, acc + [t])
    decreases t, 3
  {
    TagRoundTrip(serial, t, data, pre, post, pos, end);
    DecodeElemsStep(serial, data, pos, n, m, acc, t, end);
  }

  /** The elements of a list come back in order. */
  lemma {:induction false} ElemsRoundTrip(serial: Serial, elems: seq<Tag>,
                                          data: seq<uint8>, pre: seq<uint8>, post: seq<uint8>, pos: nat, end: nat, acc: seq<Tag>)
    requires forall i :: 0 <= i < |elems| ==> WellFormed(elems[i])
    requires EncodeElems(serial, elems).Ok?
    requires data == pre + EncodeElems(serial, elems).value + post && pos == |pre| && end == pos + |EncodeElems(serial, elems).value|
    ensures DecodeElems(serial, data, pos, |elems|, acc) == Ok(Parsed(acc + elems, end))
    decreases elems, 1
  {
    if elems == [] {
      assert acc + elems == acc;
      DecodeElemsEnd(serial, data, pos, acc, end);
    } else {
      var x, y := ElemsParts(serial, elems);
      Regroup(pre, x, y, post);
      ElemRoundTrip(serial, elems[0], data, pre, y + post, pos, pos + |x|, |elems|, |elems[1..]|, acc);
      ElemsRoundTrip(serial, elems[1..], data, pre + x, post, pos + |x|, end, acc + [elems[0]]);
      Snoc(acc, elems);
    }
  }

  /** What the compound writer puts down: the entries, then a 0 byte. */
  lemma {:induction false} CompoundParts(order: ByteOrder, entries: seq<Entry>) returns (body: seq<uint8>)
    requires WellFormed(Compound(entries)) && EncodeCompound(order, entries).Ok?
    ensures AllWellFormed(entries) && NoEnd(entries) && DistinctNames(entries)
    ensures EncodeEntries(order, entries).Ok? && body == EncodeEntries(order, entries).value
    ensures EncodeCompound(order, entries).value == body + [0]
  {
    body := EncodeEntries(order, entries).value;
  }

  /** A written compound reads back with its entries in written order. */
  lemma {:induction false} CompoundRoundTrip(order: ByteOrder, entries: seq<Entry>,
                                             data: seq<uint8>, pre: seq<uint8>, post: seq<uint8>, pos: nat, end: nat)
    requires WellFormed(Compound(entries)) && EncodeCompound(order, entries).Ok?
    requires data == pre + EncodeCompound(order, entries).value + post && pos == |pre|
    requires end == pos + |EncodeCompound(order, entries).value|
    ensures DecodeEntries(order, data, pos, []) == Ok(Parsed(entries, end))
    decreases entries, 2
  {
    var body := CompoundParts(order, entries);
    Regroup(pre, body, [0], post);
    EntriesRoundTrip(order, entries, data, pre, post, pos, end, []);
    assert [] + entries == entries;
    PutAllDistinct([], entries);
  }

  /** The three fields of a named tag. */
  lemma {:induction false} NamedParts(order: ByteOrder, name: seq<uint8>, t: Tag) returns (utf: seq<uint8>, payload: seq<uint8>)
    requires WellFormed(t) && EncodeNamed(order, name, t).Ok?
    ensures WriteUtf(name, order).Ok? && EncodeTag(SerializerFor(t, order), t).Ok?
    ensures utf == WriteUtf(name, order).value && |utf| == 2 + |name|
    ensures payload == EncodeTag(SerializerFor(t, order), t).value
    ensures EncodeNamed(order, name, t).value == [TypeId(t) as uint8] + (utf + payload)
  {
    utf := WriteUtf(name, order).value;
    payload := EncodeTag(SerializerFor(t, order), t).value;
  }

  /** The type id in front of a named tag is read back. */
  lemma {:induction false} NamedIdOf(order: ByteOrder, name: seq<uint8>, t: Tag,
                                     data: seq<uint8>, pre: seq<uint8>, post: seq<uint8>, pos: nat)
    requires WellFormed(t) && EncodeNamed(order, name, t).Ok?
    requires data == pre + EncodeNamed(order, name, t).value + post && pos == |pre|
    ensures ReadByte(data, pos) == Ok(Parsed(TypeId(t) as int8, pos + 1))
  {
    Pow256Widths();
    var id := TypeId(t) as uint8;
    var utf, payload := NamedParts(order, name, t);
    Regroup4(pre, [id], utf, payload, post);
    ReadByteOf(id, data, pre, (utf + payload) + post, pos, pos + 1);
  }

  /** The name of a named tag is read back after its type id. */
  lemma {:induction false} NamedNameOf(order: ByteOrder, name: seq<uint8>, t: Tag,
                                       data: seq<uint8>, pre: seq<uint8>, post: seq<uint8>, pos: nat)
    requires WellFormed(t) && EncodeNamed(order, name, t).Ok?
    requires data == pre + EncodeNamed(order, name, t).value + post && pos == |pre|
    ensures ReadUtf(data, pos + 1, order) == Ok(Parsed(name, pos + 1 + 2 + |name|))
  {
    var id := TypeId(t) as uint8;
    var utf, payload := NamedParts(order, name, t);
    Regroup4(pre, [id], utf, payload, post);
    ReadUtfOf(name, order, data, pre + [id], payload + post, pos + 1, pos + 1 + 2 + |name|);
  }

  /** Where the payload of a named tag sits: after the type id and the name. */
  lemma {:induction false} NamedPayloadAt(order: ByteOrder, name: seq<uint8>, t: Tag,
                                          data: seq<uint8>, pre: seq<uint8>, post: seq<uint8>, pos: nat, end: nat)
    returns (head: seq<uint8>)
    requires WellFormed(t) && EncodeNamed(order, name, t).Ok?
    requires data == pre + EncodeNamed(order, name, t).value + post && pos == |pre|
    requires end == pos + |EncodeNamed(order, name, t).value|
    ensures EncodeTag(SerializerFor(t, order), t).Ok?
    ensures data == head + EncodeTag(SerializerFor(t, order), t).value + post
    ensures |head| == pos + 1 + 2 + |name|
    ensures end == |head| + |EncodeTag(SerializerFor(t, order), t).value|
  {
    var id := TypeId(t) as uint8;
    var utf, payload := NamedParts(order, name, t);
    Regroup4(pre, [id], utf, payload, post);
    head := pre + [id] + utf;
  }

  /** The payload of a named tag is read back, by the serializer its type
      id selects, after the name. */
  lemma {:induction false} NamedPayloadOf(order: ByteOrder, name: seq<uint8>, t: Tag,
                                          data: seq<uint8>, pre: seq<uint8>, post: seq<uint8>, pos: nat, end: nat)
    requires WellFormed(t) && EncodeNamed(order, name, t).Ok?
    requires data == pre + EncodeNamed(order, name, t).value + post && pos == |pre|
    requires end == pos + |EncodeNamed(order, name, t).value|
    ensures DecodeTag(SerializerFor(t, order), data, pos + 1 + 2 + |name|) == Ok(Parsed(t, end))
    decreases t, 3
  {
    var head := NamedPayloadAt(order, name, t, data, pre, post, pos, end);
    TagRoundTrip(SerializerFor(t, order), t, data, head, post, pos + 1 + 2 + |name|, end);
  }

  /** Type id, name and payload of a named tag are read back, one after
      the other, from where they were written. */
  lemma {:induction false} NamedReads(order: ByteOrder, name: seq<uint8>, t: Tag,
                                      data: seq<uint8>, pre: seq<uint8>, post: seq<uint8>, pos: nat, end: nat)
    requires WellFormed(t) && EncodeNamed(order, name, t).Ok?
    requires data == pre + EncodeNamed(order, name, t).value + post && pos == |pre|
    requires end == pos + |EncodeNamed(order, name, t).value|
    ensures ReadByte(data, pos) == Ok(Parsed(TypeId(t) as int8, pos + 1))
    ensures ReadUtf(data, pos + 1, order) == Ok(Parsed(name, pos + 1 + 2 + |name|))
    ensures DecodeTag(SerializerFor(t, order), data, pos + 1 + 2 + |name|) == Ok(Parsed(t, end))
    decreases t, 4
  {
    NamedIdOf(order, name, t, data, pre, post, pos);
    NamedNameOf(order, name, t, data, pre, post, pos);
    NamedPayloadOf(order, name, t, data, pre, post, pos, end);
  }

  /** One iteration of the compound loop, given its three reads. */
  lemma {:induction false} DecodeEntriesStep(order: ByteOrder, data: seq<uint8>, pos: nat, acc: seq<Entry>,
                                             name: seq<uint8>, q: nat, t: Tag, r: nat)
    requires pos <= |data| && !t.End?
    requires ReadByte(data, pos) == Ok(Parsed(TypeId(t) as int8, pos + 1))
    requires ReadUtf(data, pos + 1, order) == Ok(Parsed(name, q))
    requires DecodeTag(SerializerFor(t, order), data, q) == Ok(Parsed(t, r))
    ensures r <= |data|
    ensures DecodeEntries(order, data, pos, acc) == DecodeEntries(order, data, r, Put(acc, name, t))
  {
    TypeIdZero(t);
    DecodeNamedEntryStep(order, data, pos + 1, acc, TypeId(t) as int8, name, q, t, r);
  }

  lemma {:induction false} DecodeNamedEntryStep(order: ByteOrder, data: seq<uint8>, pos: nat, acc: seq<Entry>,
                                                id: int8, name: seq<uint8>, q: nat, t: Tag, r: nat)
    requires pos <= |data| && 0 < id <= 12
    requires ReadUtf(data, pos, order) == Ok(Parsed(name, q))
    requires DecodeTag(Serializers(order)[id], data, q) == Ok(Parsed(t, r))
    ensures r <= |data|
    ensures DecodeNamedEntry(order, data, pos, id, acc) == DecodeEntries(order, data, r, Put(acc, name, t))
  {
  }

  /** One written entry is read back and stored with Put. */
  lemma {:induction false} EntryRoundTrip(order: ByteOrder, e: Entry,
                                          data: seq<uint8>, pre: seq<uint8>, post: seq<uint8>, pos: nat, end: nat, acc: seq<Entry>)
    requires WellFormed(e.tag) && !e.tag.End? && EncodeNamed(order, e.name, e.tag).Ok?
    requires data == pre + EncodeNamed(order, e.name, e.tag).value + post && pos == |pre|
    requires end == pos + |EncodeNamed(order, e.name, e.tag).value|
    ensures end <= |data|
    ensures DecodeEntries(order, data, pos, acc) == DecodeEntries(order, data, end, Put(acc, e.name, e.tag))
    decreases e, 0
  {
    NamedReads(order, e.name, e.tag, data, pre, post, pos, end);
    DecodeEntriesStep(order, data, pos, acc, e.name, pos + 1 + 2 + |e.name|, e.tag, end);
  }

  /** What the entry writer puts down for a non-empty run of entries: the
      first entry's bytes x, then the rest's bytes y. */
  lemma {:induction false} EntriesParts(order: ByteOrder, s: seq<Entry>) returns (x: seq<uint8>, y: seq<uint8>)
    requires s != [] && AllWellFormed(s) && NoEnd(s) && EncodeEntries(order, s).Ok?
    ensures WellFormed(s[0].tag) && !s[0].tag.End?
    ensures EncodeNamed(order, s[0].name, s[0].tag).Ok? && x == EncodeNamed(order, s[0].name, s[0].tag).value
    ensures AllWellFormed(s[1..]) && NoEnd(s[1..]) && EncodeEntries(order, s[1..]).Ok?
    ensures y == EncodeEntries(order, s[1..]).value
    ensures EncodeEntries(order, s).value == x + y
  {
    x := EncodeNamed(order, s[0].name, s[0].tag).value;
    y := EncodeEntries(order, s[1..]).value;
  }

  /** The terminator alone ends the entries. */
  lemma {:induction false} EntriesEnd(order: ByteOrder, data: seq<uint8>, pre: seq<uint8>, post: seq<uint8>,
                                      pos: nat, end: nat, acc: seq<Entry>)
    requires data == pre + [] + ([0] + post) && pos == |pre| && end == pos + 1
    ensures DecodeEntries(order, data, pos, acc) == Ok(Parsed(acc, end))
  {
    Pow256Widths();
    EmptyMiddle(pre, [0], post);
    ReadByteOf(0, data, pre, post, pos, end);
  }

  /** Reading written entries and their terminator stores each entry with
      Put, in stream order. */
  lemma {:induction false} EntriesRoundTrip(order: ByteOrder, s: seq<Entry>,
                                            data: seq<uint8>, pre: seq<uint8>, post: seq<uint8>, pos: nat, end: nat, acc: seq<Entry>)
    requires AllWellFormed(s) && NoEnd(s) && EncodeEntries(order, s).Ok?
    requires data == pre + EncodeEntries(order, s).value + ([0] + post) && pos == |pre|
    requires end == pos + |EncodeEntries(order, s).value| + 1
    ensures DecodeEntries(order, data, pos, acc) == Ok(Parsed(PutAll(acc, s), end))
    decreases s, 1
  {
    if s == [] {
      EntriesEnd(order, data, pre, post, pos, end, acc);
    } else {
      var x, y := EntriesParts(order, s);
      Regroup(pre, x, y, [0] + post);
      var acc' := Put(acc, s[0].name, s[0].tag);
      EntryRoundTrip(order, s[0], data, pre, y + ([0] + post), pos, pos + |x|, acc);
      assert DecodeEntries(order, data, pos, acc) == DecodeEntries(order, data, pos + |x|, acc');
      EntriesRoundTrip(order, s[1..], data, pre + x, post, pos + |x|, end, acc');
      assert PutAll(acc, s) == PutAll(acc', s[1..]);
    }
  }

  /** The root reader, given its three reads. */
  lemma {:induction false} DecodeFileOf(order: ByteOrder, data: seq<uint8>, pos: nat, name: seq<uint8>, q: nat, t: Tag, r: nat)
    requires pos <= |data|
    requires ReadByte(data, pos) == Ok(Parsed(TypeId(t) as int8, pos + 1))
    requires ReadUtf(data, pos + 1, order) == Ok(Parsed(name, q))
    requires DecodeTag(SerializerFor(t, order), data, q) == Ok(Parsed(t, r))
    ensures DecodeFile(data, pos, order, false) == Ok(Parsed(NbtFile(name, t), r))
  {
  }

  /** A whole file reads back as the name and tag written. */
  lemma {:induction false} FileRoundTrip(file: NbtFile, order: ByteOrder,
                                         data: seq<uint8>, pre: seq<uint8>, post: seq<uint8>, pos: nat, end: nat)
    requires WellFormed(file.tag) && EncodeFile(file, order, false).Ok?
    requires data == pre + EncodeFile(file, order, false).value + post && pos == |pre|
    requires end == pos + |EncodeFile(file, order, false).value|
    ensures DecodeFile(data, pos, order, false) == Ok(Parsed(file, end))
  {
    var name, t := file.name, file.tag;
    assert EncodeFile(file, order, false) == EncodeNamed(order, name, t);
    NamedReads(order, name, t, data, pre, post, pos, end);
    DecodeFileOf(order, data, pos, name, pos + 1 + 2 + |name|, t, end);
  }

  /** The bytes of a file, read from their start, give the file back and
      are consumed exactly. */
  lemma {:induction false} FileBytesRoundTrip(file: NbtFile, order: ByteOrder)
    requires WellFormed(file.tag) && EncodeFile(file, order, false).Ok?
    ensures DecodeFile(EncodeFile(file, order, false).value, 0, order, false)
         == Ok(Parsed(file, |EncodeFile(file, order, false).value|))
  {
    var b := EncodeFile(file, order, false).value;
    assert b == [] + b + [];
    FileRoundTrip(file, order, b, [], [], 0, |b|);
  }
}
