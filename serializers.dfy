/** The serializers as the step-by-step code they are: `writeTag` appends to
    an `Output` and `readTag` advances an `Input`, with the list, compound
    and array loops kept as loops. Each method is proved to do exactly what
    the codec functions describe, so every property proved about
    `EncodeTag`, `DecodeTag`, `EncodeFile` and `DecodeFile` (the round trip
    above all) holds of the methods. */
module Serializers {
  import opened Bytes
  import opened Tags
  import opened Wire
  import opened Codec
  import opened Streams
  import opened RoundTrip

  /** How a writer left the output: on success the encoding was appended;
      on failure the encoding's error is reported and the bytes written
      before the failure stay written. */
  predicate Written(r: Result<()>, expected: Result<seq<uint8>>, before: seq<uint8>, after: seq<uint8>)
  {
    && (r.Ok? <==> expected.Ok?)
    && (r.Ok? ==> after == before + expected.value)
    && (r.Err? ==> expected.Err? && r.error == expected.error && before <= after)
  }

  // ----- prefix lemmas for the writing loops

  lemma ThenAssoc(a: Result<seq<uint8>>, b: Result<seq<uint8>>, c: Result<seq<uint8>>)
    ensures Then(a, Then(b, c)) == Then(Then(a, b), c)
  {
    if a.Ok? && b.Ok? && c.Ok? {
      assert a.value + (b.value + c.value) == a.value + b.value + c.value;
    }
  }

  /** Writing the elements of a + b is writing those of a, then those of b. */
  lemma {:induction false} ElemsAppend(serial: Serial, a: seq<Tag>, b: seq<Tag>)
    requires forall i :: 0 <= i < |a| ==> WellFormed(a[i])
    requires forall i :: 0 <= i < |b| ==> WellFormed(b[i])
    ensures EncodeElems(serial, a + b) == Then(EncodeElems(serial, a), EncodeElems(serial, b))
  {
    if a == [] {
      assert a + b == b;
      var r := EncodeElems(serial, b);
      assert r.Ok? ==> [] + r.value == r.value;
    } else {
      assert (a + b)[0] == a[0] && (a + b)[1..] == a[1..] + b;
      ElemsAppend(serial, a[1..], b);
      ThenAssoc(EncodeTag(serial, a[0]), EncodeElems(serial, a[1..]), EncodeElems(serial, b));
    }
  }

  lemma ElemSlices(elems: seq<Tag>, i: nat)
    requires i < |elems| && forall k :: 0 <= k < |elems| ==> WellFormed(elems[k])
    ensures forall k :: 0 <= k < i ==> WellFormed(elems[..i][k])
    ensures forall k :: 0 <= k < |elems| - i ==> WellFormed(elems[i..][k])
    ensures elems[i..][0] == elems[i] && WellFormed(elems[i])
  {
    forall k | 0 <= k < i ensures WellFormed(elems[..i][k]) { assert elems[..i][k] == elems[k]; }
    forall k | 0 <= k < |elems| - i ensures WellFormed(elems[i..][k]) { assert elems[i..][k] == elems[i + k]; }
  }

  /** The list loop's step: element i either extends the written prefix or
      is where the whole list fails. */
  lemma ElemsStep(serial: Serial, elems: seq<Tag>, i: nat)
    requires forall k :: 0 <= k < |elems| ==> WellFormed(elems[k])
    requires i < |elems| && EncodeElems(serial, elems[..i]).Ok?
    ensures EncodeTag(serial, elems[i]).Ok? ==>
      EncodeElems(serial, elems[..i + 1]) == Ok(EncodeElems(serial, elems[..i]).value + EncodeTag(serial, elems[i]).value)
    ensures EncodeTag(serial, elems[i]).Err? ==> EncodeElems(serial, elems) == EncodeTag(serial, elems[i])
  {
    var x := elems[i];
    var pre, rest := elems[..i], elems[i..];
    ElemSlices(elems, i);
    assert elems[..i + 1] == pre + [x];
    assert elems == pre + rest;
    ElemsAppend(serial, pre, [x]);
    ElemsAppend(serial, pre, rest);
    assert [x][1..] == [];
    var t := EncodeTag(serial, x);
    assert t.Ok? ==> t.value + [] == t.value;
  }

  /** Writing the entries of a + b is writing those of a, then those of b. */
  lemma {:induction false} EntriesAppend(order: ByteOrder, a: seq<Entry>, b: seq<Entry>)
    requires AllWellFormed(a) && AllWellFormed(b)
    ensures EncodeEntries(order, a + b) == Then(EncodeEntries(order, a), EncodeEntries(order, b))
  {
    if a == [] {
      assert a + b == b;
      var r := EncodeEntries(order, b);
      assert r.Ok? ==> [] + r.value == r.value;
    } else {
      assert (a + b)[0] == a[0] && (a + b)[1..] == a[1..] + b;
      EntriesAppend(order, a[1..], b);
      ThenAssoc(EncodeNamed(order, a[0].name, a[0].tag), EncodeEntries(order, a[1..]), EncodeEntries(order, b));
    }
  }

  lemma EntrySlices(entries: seq<Entry>, i: nat)
    requires i < |entries| && AllWellFormed(entries)
    ensures AllWellFormed(entries[..i]) && AllWellFormed(entries[i..]) && AllWellFormed([entries[i]])
    ensures entries[i..][0] == entries[i]
  {
    forall k | 0 <= k < i ensures WellFormed(entries[..i][k].tag) { assert entries[..i][k] == entries[k]; }
    forall k | 0 <= k < |entries| - i ensures WellFormed(entries[i..][k].tag) { assert entries[i..][k] == entries[i + k]; }
  }

  /** The compound loop's step, as ElemsStep is the list loop's. */
  lemma EntriesStep(order: ByteOrder, entries: seq<Entry>, i: nat)
    requires AllWellFormed(entries)
    requires i < |entries| && EncodeEntries(order, entries[..i]).Ok?
    ensures var e := entries[i];
      EncodeNamed(order, e.name, e.tag).Ok? ==>
        EncodeEntries(order, entries[..i + 1])
        == Ok(EncodeEntries(order, entries[..i]).value + EncodeNamed(order, e.name, e.tag).value)
    ensures var e := entries[i];
      EncodeNamed(order, e.name, e.tag).Err? ==> EncodeEntries(order, entries) == EncodeNamed(order, e.name, e.tag)
  {
    var x := entries[i];
    var pre, rest := entries[..i], entries[i..];
    EntrySlices(entries, i);
    assert entries[..i + 1] == pre + [x];
    assert entries == pre + rest;
    EntriesAppend(order, pre, [x]);
    EntriesAppend(order, pre, rest);
    assert [x][1..] == [];
    var t := EncodeNamed(order, x.name, x.tag);
    assert t.Ok? ==> t.value + [] == t.value;
  }

  /** The bytes of a + b are the bytes of a, then those of b. */
  lemma {:induction false} SignedRunAppend(a: seq<int>, b: seq<int>, width: nat, order: ByteOrder)
    requires width >= 1 && AllInSignedRange(a, width) && AllInSignedRange(b, width)
    ensures AllInSignedRange(a + b, width)
    ensures SignedRunBytes(a + b, width, order) == SignedRunBytes(a, width, order) + SignedRunBytes(b, width, order)
  {
    assert AllInSignedRange(a + b, width) by {
      forall i | 0 <= i < |a + b| ensures InSignedRange((a + b)[i], width) {
        if i >= |a| { assert (a + b)[i] == b[i - |a|]; }
      }
    }
    if a == [] {
      assert a + b == b;
    } else {
      assert (a + b)[0] == a[0] && (a + b)[1..] == a[1..] + b;
      assert AllInSignedRange(a[1..], width) by {
        forall i | 0 <= i < |a| - 1 ensures InSignedRange(a[1..][i], width) { assert a[1..][i] == a[i + 1]; }
      }
      SignedRunAppend(a[1..], b, width, order);
    }
  }

  lemma SignedRunSnoc(a: seq<int>, i: nat, width: nat, order: ByteOrder)
    requires width >= 1 && i < |a| && AllInSignedRange(a, width) && AllInSignedRange(a[..i], width)
    ensures AllInSignedRange(a[..i + 1], width)
    ensures SignedRunBytes(a[..i + 1], width, order) == SignedRunBytes(a[..i], width, order) + SignedBytes(a[i], width, order)
  {
    assert a[..i + 1] == a[..i] + [a[i]];
    assert SignedRunBytes([a[i]], width, order) == SignedBytes(a[i], width, order);
    SignedRunAppend(a[..i], [a[i]], width, order);
  }

  /** One iteration of the element loop of a list read. */
  lemma DecodeElemsUnfold(serial: Serial, data: seq<uint8>, pos: nat, n: nat, acc: seq<Tag>)
    requires pos <= |data| && n > 0
    ensures DecodeTag(serial, data, pos).Err? ==>
      DecodeElems(serial, data, pos, n, acc) == Err(DecodeTag(serial, data, pos).error)
    ensures DecodeTag(serial, data, pos).Ok? ==>
      var t := DecodeTag(serial, data, pos).value;
      DecodeElems(serial, data, pos, n, acc) == DecodeElems(serial, data, t.next, n - 1, acc + [t.item])
  {
  }

  /** One iteration of the number loop of an array read. */
  lemma ReadSignedRunUnfold(data: seq<uint8>, pos: nat, n: nat, width: nat, order: ByteOrder, acc: seq<int>)
    requires width >= 1 && pos <= |data| && n > 0
    ensures ReadSigned(data, pos, width, order).Err? ==> ReadSignedRun(data, pos, n, width, order, acc) == Err(Truncated)
    ensures ReadSigned(data, pos, width, order).Ok? ==>
      var v := ReadSigned(data, pos, width, order).value;
      ReadSignedRun(data, pos, n, width, order, acc) == ReadSignedRun(data, v.next, n - 1, width, order, acc + [v.item])
  {
  }

  // ----- writeTag

  /** `serializer.writeTag(output, tag)`: the cast to the serializer's class,
      then the payload. */
  method WriteTag(out: Output, serial: Serial, t: Tag) returns (r: Result<()>)
    requires WellFormed(t)
    modifies out
    ensures Written(r, EncodeTag(serial, t), old(out.bytes), out.bytes)
    decreases t, 2
  {
    Pow256Widths();
    var order := serial.byteOrder;
    if ClassOf(t) != serial.kClass {
      return Err(ClassCast);
    }
    match t
    case End =>
      r := Ok(());
    case Byte(v) =>
      out.WriteByte(v);
      r := Ok(());
    case Short(v) =>
      out.WriteSigned(v, 2, order);
      r := Ok(());
    case Int(v) =>
      out.WriteSigned(v, 4, order);
      r := Ok(());
    case Long(v) =>
      out.WriteSigned(v, 8, order);
      r := Ok(());
    case Float(bits) =>
      out.WriteBits(bits, 4, order);
      r := Ok(());
    case Double(bits) =>
      out.WriteBits(bits, 8, order);
      r := Ok(());
    case ByteArray(a) =>
      out.WriteSigned(|a|, 4, order);
      out.WriteFully(AsUnsigned(a));
      r := Ok(());
    case String(text) =>
      r := out.WriteUtf(text, order);
    case List(elems) =>
      r := WriteList(out, order, elems);
    case Compound(entries) =>
      r := WriteCompound(out, order, entries);
    case IntArray(a) =>
      assert AllInSignedRange(a, 4);
      WriteNumbers(out, a, 4, order);
      r := Ok(());
    case LongArray(a) =>
      assert AllInSignedRange(a, 8);
      WriteNumbers(out, a, 8, order);
      r := Ok(());
  }

  /** The IntArray and LongArray `writeTag`: the count, then each number. */
  method WriteNumbers(out: Output, a: seq<int>, width: nat, order: ByteOrder)
    requires width >= 1 && InSignedRange(|a|, 4) && AllInSignedRange(a, width)
    modifies out
    ensures out.bytes == old(out.bytes) + SignedBytes(|a|, 4, order) + SignedRunBytes(a, width, order)
  {
    Pow256Widths();
    out.WriteSigned(|a|, 4, order);
    ghost var header := out.bytes;
    var i := 0;
    while i < |a|
      invariant i <= |a| && AllInSignedRange(a[..i], width)
      invariant out.bytes == header + SignedRunBytes(a[..i], width, order)
    {
      out.WriteSigned(a[i], width, order);
      SignedRunSnoc(a, i, width, order);
      i := i + 1;
    }
    assert a[..i] == a;
  }

  /** The list serializer's `writeTag`: the element type of the first
      element (End for an empty list), the count, then each element. */
  method WriteList(out: Output, order: ByteOrder, elems: seq<Tag>) returns (r: Result<()>)
    requires WellFormed(List(elems))
    modifies out
    ensures Written(r, EncodeList(order, elems), old(out.bytes), out.bytes)
    decreases elems, 1
  {
    Pow256Widths();
    var sample := if |elems| > 0 then elems[0] else End;
    var typeId := TypeId(sample);
    var serializer := SerializerFor(sample, order);
    if typeId == 0 && |elems| > 0 {
      return Err(EndInList);
    }
    out.WriteByte(typeId as int8);
    out.WriteSigned(|elems|, 4, order);
    ghost var head := [typeId as uint8] + SignedBytes(|elems|, 4, order);
    assert out.bytes == old(out.bytes) + head;
    ghost var body := EncodeElems(serializer, elems);
    r := WriteElems(out, serializer, elems);
    if r.Ok? {
      Concat3(old(out.bytes), head, body.value);
    }
  }

  /** `tag.forEach { serializer.writeTag(output, it) }` over list elements. */
  method WriteElems(out: Output, serial: Serial, elems: seq<Tag>) returns (r: Result<()>)
    requires forall k :: 0 <= k < |elems| ==> WellFormed(elems[k])
    modifies out
    ensures Written(r, EncodeElems(serial, elems), old(out.bytes), out.bytes)
    decreases elems, 0
  {
    var i := 0;
    assert elems[..0] == [];
    while i < |elems|
      invariant i <= |elems| && EncodeElems(serial, elems[..i]).Ok?
      invariant out.bytes == old(out.bytes) + EncodeElems(serial, elems[..i]).value
    {
      ElemsStep(serial, elems, i);
      ghost var done := EncodeElems(serial, elems[..i]).value;
      ghost var one := EncodeTag(serial, elems[i]);
      ghost var before := out.bytes;
      var e := WriteTag(out, serial, elems[i]);
      if e.Err? {
        return e;
      }
      assert out.bytes == before + one.value;
      Concat3(old(out.bytes), done, one.value);
      i := i + 1;
    }
    assert elems[..i] == elems;
    r := Ok(());
  }

  /** A named tag, as compound entries and the root are written: its type
      id, its name, then its payload. */
  method WriteNamed(out: Output, order: ByteOrder, name: seq<uint8>, t: Tag) returns (r: Result<()>)
    requires WellFormed(t)
    modifies out
    ensures Written(r, EncodeNamed(order, name, t), old(out.bytes), out.bytes)
    decreases t, 3
  {
    var typeId := TypeId(t);
    var serializer := SerializerFor(t, order);
    ghost var utf := Wire.WriteUtf(name, order);
    ghost var payload := EncodeTag(serializer, t);
    out.WriteByte(typeId as int8);
    var u := out.WriteUtf(name, order);
    if u.Err? {
      return u;
    }
    ghost var before := out.bytes;
    r := WriteTag(out, serializer, t);
    if r.Ok? {
      assert out.bytes == old(out.bytes) + [typeId as uint8] + utf.value + payload.value;
      Concat4(old(out.bytes), [typeId as uint8], utf.value, payload.value);
    }
  }

  /** The compound serializer's `writeTag`: the check for End values before
      anything is written, each entry, then the End byte. */
  method WriteCompound(out: Output, order: ByteOrder, entries: seq<Entry>) returns (r: Result<()>)
    requires AllWellFormed(entries)
    modifies out
    ensures Written(r, EncodeCompound(order, entries), old(out.bytes), out.bytes)
    ensures (exists k :: 0 <= k < |entries| && entries[k].tag.End?) ==> out.bytes == old(out.bytes)
    decreases entries, 1
  {
    if exists k :: 0 <= k < |entries| && entries[k].tag.End? {
      return Err(EndInCompound);
    }
    ghost var body := EncodeEntries(order, entries);
    r := WriteEntries(out, order, entries);
    if r.Err? {
      return;
    }
    ghost var before := out.bytes;
    out.WriteByte(0);
    assert out.bytes == before + [0];
    Concat3(old(out.bytes), body.value, [0]);
  }

  /** The entries of a compound, each as `WriteNamed` writes it. */
  method WriteEntries(out: Output, order: ByteOrder, entries: seq<Entry>) returns (r: Result<()>)
    requires AllWellFormed(entries)
    modifies out
    ensures Written(r, EncodeEntries(order, entries), old(out.bytes), out.bytes)
    decreases entries, 0
  {
    var i := 0;
    assert entries[..0] == [];
    while i < |entries|
      invariant i <= |entries| && EncodeEntries(order, entries[..i]).Ok?
      invariant out.bytes == old(out.bytes) + EncodeEntries(order, entries[..i]).value
    {
      EntriesStep(order, entries, i);
      ghost var done := EncodeEntries(order, entries[..i]).value;
      ghost var named := EncodeNamed(order, entries[i].name, entries[i].tag);
      ghost var before := out.bytes;
      var e := WriteNamed(out, order, entries[i].name, entries[i].tag);
      if e.Err? {
        return e;
      }
      assert out.bytes == before + named.value;
      Concat3(old(out.bytes), done, named.value);
      i := i + 1;
    }
    assert entries[..i] == entries;
    r := Ok(());
  }

  /** `writeNbtFile`: the root's type id, name and payload; a compressed
      stream is not implemented and fails before anything is written. */
  method WriteNbtFile(out: Output, file: NbtFile, compressed: bool, order: ByteOrder) returns (r: Result<()>)
    requires WellFormed(file.tag)
    modifies out
    ensures Written(r, EncodeFile(file, order, compressed), old(out.bytes), out.bytes)
  {
    if compressed {
      return Err(CompressionNotImplemented);
    }
    r := WriteNamed(out, order, file.name, file.tag);
  }

  // ----- readTag

  /** `serializer.readTag(input)`. */
  method ReadTag(inp: Input, serial: Serial) returns (r: Result<Tag>)
    requires inp.Valid()
    modifies inp
    ensures inp.Valid() && r == Value(DecodeTag(serial, inp.data, old(inp.pos)))
    ensures r.Ok? ==> inp.pos == DecodeTag(serial, inp.data, old(inp.pos)).value.next
    decreases |inp.data| - inp.pos, 1
  {
    match serial.kClass
    case NbtList =>
      r := ReadList(inp, serial.byteOrder);
    case NbtCompound =>
      var entries := ReadCompound(inp, serial.byteOrder);
      if entries.Err? {
        return Err(entries.error);
      }
      r := Ok(Compound(entries.value));
    case NbtByteArray =>
      r := ReadArray(inp, serial);
    case NbtIntArray =>
      r := ReadArray(inp, serial);
    case NbtLongArray =>
      r := ReadArray(inp, serial);
    case _ =>
      r := ReadScalar(inp, serial);
  }

  /** `readTag` of the serializers of End, the numbers and String. */
  method ReadScalar(inp: Input, serial: Serial) returns (r: Result<Tag>)
    requires inp.Valid()
    requires serial.kClass !in {NbtByteArray, NbtList, NbtCompound, NbtIntArray, NbtLongArray}
    modifies inp
    ensures inp.Valid() && r == Value(DecodeScalar(serial, inp.data, old(inp.pos)))
    ensures r.Ok? ==> inp.pos == DecodeScalar(serial, inp.data, old(inp.pos)).value.next
  {
    Pow256Widths();
    var order := serial.byteOrder;
    match serial.kClass
    case NbtEnd =>
      r := Ok(End);
    case NbtByte =>
      var v := inp.ReadByte();
      if v.Err? { return Err(v.error); }
      r := Ok(Byte(v.value));
    case NbtShort =>
      var v := inp.ReadSigned(2, order);
      if v.Err? { return Err(v.error); }
      r := Ok(Short(v.value as int16));
    case NbtInt =>
      var v := inp.ReadInt(order);
      if v.Err? { return Err(v.error); }
      r := Ok(Int(v.value));
    case NbtLong =>
      var v := inp.ReadSigned(8, order);
      if v.Err? { return Err(v.error); }
      r := Ok(Long(v.value as int64));
    case NbtFloat =>
      var v := inp.ReadBits(4, order);
      if v.Err? { return Err(v.error); }
      r := Ok(Float(v.value as uint32));
    case NbtDouble =>
      var v := inp.ReadBits(8, order);
      if v.Err? { return Err(v.error); }
      r := Ok(Double(v.value as uint64));
    case NbtString =>
      var text := inp.ReadUtf(order);
      if text.Err? { return Err(text.error); }
      r := Ok(String(text.value));
  }

  /** `readTag` of ByteArray, IntArray and LongArray: the count, refused
      when negative as the array constructors refuse it, then the elements. */
  method ReadArray(inp: Input, serial: Serial) returns (r: Result<Tag>)
    requires inp.Valid() && serial.kClass in {NbtByteArray, NbtIntArray, NbtLongArray}
    modifies inp
    ensures inp.Valid() && r == Value(DecodeArray(serial, inp.data, old(inp.pos)))
    ensures r.Ok? ==> inp.pos == DecodeArray(serial, inp.data, old(inp.pos)).value.next
  {
    Pow256Widths();
    var order := serial.byteOrder;
    var size := inp.ReadInt(order);
    if size.Err? {
      return Err(size.error);
    }
    if size.value < 0 {
      return Err(NegativeArraySize(size.value));
    }
    match serial.kClass
    case NbtByteArray =>
      var bytes := inp.ReadFully(size.value);
      if bytes.Err? { return Err(bytes.error); }
      r := Ok(ByteArray(AsSigned(bytes.value)));
    case NbtIntArray =>
      var run := ReadNumbers(inp, size.value, 4, order);
      if run.Err? { return Err(run.error); }
      r := Ok(IntArray(run.value));
    case NbtLongArray =>
      var run := ReadNumbers(inp, size.value, 8, order);
      if run.Err? { return Err(run.error); }
      r := Ok(LongArray(run.value));
  }

  /** `val array = IntArray(size); for (i in 0 until size) array[i] = ...`
      (and the same for longs): the numbers are stored into a fresh array
      one by one. */
  method ReadNumbers(inp: Input, size: nat, width: nat, order: ByteOrder) returns (r: Result<seq<int>>)
    requires inp.Valid() && width >= 1
    modifies inp
    ensures inp.Valid() && r == Value(ReadSignedRun(inp.data, old(inp.pos), size, width, order, []))
    ensures r.Ok? ==> inp.pos == ReadSignedRun(inp.data, old(inp.pos), size, width, order, []).value.next
  {
    var a := new int[size];
    ghost var run := ReadSignedRun(inp.data, inp.pos, size, width, order, []);
    ghost var done: seq<int> := [];
    for i := 0 to size
      invariant inp.Valid() && done == a[..i]
      invariant run == ReadSignedRun(inp.data, inp.pos, size - i, width, order, done)
    {
      ReadSignedRunUnfold(inp.data, inp.pos, size - i, width, order, done);
      var v := inp.ReadSigned(width, order);
      if v.Err? {
        return Err(v.error);
      }
      a[i] := v.value;
      done := done + [v.value];
      assert done == a[..i + 1];
    }
    assert a[..] == done;
    r := Ok(a[..]);
  }

  /** The list serializer's `readTag`: the element type and count, the
      check for a missing element type, then `size` elements (none for a
      count of zero or less). */
  method ReadList(inp: Input, order: ByteOrder) returns (r: Result<Tag>)
    requires inp.Valid()
    modifies inp
    ensures inp.Valid() && r == Value(DecodeList(order, inp.data, old(inp.pos)))
    ensures r.Ok? ==> inp.pos == DecodeList(order, inp.data, old(inp.pos)).value.next
    decreases |inp.data| - inp.pos, 0
  {
    var typeId := inp.ReadByte();
    if typeId.Err? {
      return Err(typeId.error);
    }
    var size := inp.ReadInt(order);
    if size.Err? {
      return Err(size.error);
    }
    if typeId.value == 0 && size.value > 0 {
      return Err(MissingListType);
    }
    var serializer := SerializerAt(order, typeId.value);
    if serializer.Err? {
      return Err(serializer.error);
    }
    var count := if size.value > 0 then size.value else 0;
    var list := ReadElems(inp, serializer.value, count);
    if list.Err? {
      return Err(list.error);
    }
    r := Ok(List(list.value));
  }

  /** `for (i in 1..size) list += serializer.readTag(input)`. */
  method ReadElems(inp: Input, serial: Serial, count: nat) returns (r: Result<seq<Tag>>)
    requires inp.Valid()
    modifies inp
    ensures inp.Valid() && r == Value(DecodeElems(serial, inp.data, old(inp.pos), count, []))
    ensures r.Ok? ==> inp.pos == DecodeElems(serial, inp.data, old(inp.pos), count, []).value.next
    decreases |inp.data| - inp.pos, 2
  {
    ghost var p0 := inp.pos;
    ghost var elems := DecodeElems(serial, inp.data, inp.pos, count, []);
    var list: seq<Tag> := [];
    var k := 0;
    while k < count
      invariant inp.Valid() && p0 <= inp.pos && k <= count
      invariant elems == DecodeElems(serial, inp.data, inp.pos, count - k, list)
      decreases count - k
    {
      DecodeElemsUnfold(serial, inp.data, inp.pos, count - k, list);
      var t := ReadTag(inp, serial);
      if t.Err? {
        return Err(t.error);
      }
      list := list + [t.value];
      k := k + 1;
    }
    r := Ok(list);
  }

  /** The compound serializer's `readTag`: entries until a type id 0, each
      stored with `map[name] = childTag`. */
  method ReadCompound(inp: Input, order: ByteOrder) returns (r: Result<seq<Entry>>)
    requires inp.Valid()
    modifies inp
    ensures inp.Valid() && r == Value(DecodeEntries(order, inp.data, old(inp.pos), []))
    ensures r.Ok? ==> inp.pos == DecodeEntries(order, inp.data, old(inp.pos), []).value.next
    decreases |inp.data| - inp.pos, 0
  {
    ghost var p0 := inp.pos;
    ghost var whole := DecodeEntries(order, inp.data, inp.pos, []);
    var entries: seq<Entry> := [];
    while true
      invariant inp.Valid() && p0 <= inp.pos
      invariant whole == DecodeEntries(order, inp.data, inp.pos, entries)
      decreases |inp.data| - inp.pos
    {
      var typeId := inp.ReadByte();
      if typeId.Err? {
        return Err(typeId.error);
      }
      if typeId.value == 0 {
        break;
      }
      var name := inp.ReadUtf(order);
      if name.Err? {
        return Err(name.error);
      }
      var serializer := SerializerAt(order, typeId.value);
      if serializer.Err? {
        return Err(serializer.error);
      }
      var child := ReadTag(inp, serializer.value);
      if child.Err? {
        return Err(child.error);
      }
      entries := Put(entries, name.value, child.value);
    }
    r := Ok(entries);
  }

  /** `readNbtFile`: the root's type id, its serializer, its name and its
      payload; a compressed stream is not implemented. */
  method ReadNbtFile(inp: Input, compressed: bool, order: ByteOrder) returns (r: Result<NbtFile>)
    requires inp.Valid()
    modifies inp
    ensures inp.Valid() && r == Value(DecodeFile(inp.data, old(inp.pos), order, compressed))
  {
    if compressed {
      return Err(CompressionNotImplemented);
    }
    var typeId := inp.ReadByte();
    if typeId.Err? {
      return Err(typeId.error);
    }
    var serializer := SerializerAt(order, typeId.value);
    if serializer.Err? {
      return Err(serializer.error);
    }
    var name := inp.ReadUtf(order);
    if name.Err? {
      return Err(name.error);
    }
    var tag := ReadTag(inp, serializer.value);
    if tag.Err? {
      return Err(tag.error);
    }
    r := Ok(NbtFile(name.value, tag.value));
  }
}
