/** Reading a stream that ends too early.

    Every reader of the codec only moves forward, and each step reads a
    fixed field, a length-prefixed field, or a nested tag. So cutting the
    input at position c changes nothing for a read that ends at or before
    c; a read that needs a byte at or after c meets the end of the input
    instead and fails with `Truncated`, the EOFException of the stream. In
    particular, every strict prefix of a written tag or file fails to read
    with `Truncated`, whatever the tag is. */
module Truncation {
  import opened Bytes
  import opened Tags
  import opened Wire
  import opened Codec
  import opened RoundTrip

  /** What a reader that succeeds on the whole input gives on the input cut
      at c: the same result if it ended by c, `Truncated` otherwise. */
  predicate CutAgrees<T(==)>(full: Result<Parsed<T>>, cut: Result<Parsed<T>>, c: nat)
  {
    full.Ok? && if full.value.next <= c then cut == full else cut == Err(Truncated)
  }

  lemma ReadBytesCut(data: seq<uint8>, pos: nat, n: nat, c: nat)
    requires pos <= c <= |data| && ReadBytes(data, pos, n).Ok?
    ensures CutAgrees(ReadBytes(data, pos, n), ReadBytes(data[..c], pos, n), c)
  {
    if pos + n <= c {
      assert data[..c][pos..pos + n] == data[pos..pos + n];
    }
  }

  lemma ReadSignedCut(data: seq<uint8>, pos: nat, n: nat, order: ByteOrder, c: nat)
    requires n >= 1 && pos <= c <= |data| && ReadSigned(data, pos, n, order).Ok?
    ensures CutAgrees(ReadSigned(data, pos, n, order), ReadSigned(data[..c], pos, n, order), c)
  {
    ReadBytesCut(data, pos, n, c);
  }

  lemma ReadUnsignedCut(data: seq<uint8>, pos: nat, n: nat, order: ByteOrder, c: nat)
    requires pos <= c <= |data| && ReadUnsigned(data, pos, n, order).Ok?
    ensures CutAgrees(ReadUnsigned(data, pos, n, order), ReadUnsigned(data[..c], pos, n, order), c)
  {
    ReadBytesCut(data, pos, n, c);
  }

  lemma ReadByteCut(data: seq<uint8>, pos: nat, c: nat)
    requires pos <= c <= |data| && ReadByte(data, pos).Ok?
    ensures CutAgrees(ReadByte(data, pos), ReadByte(data[..c], pos), c)
  {
    if pos < c {
      assert data[..c][pos] == data[pos];
    }
  }

  lemma ReadIntCut(data: seq<uint8>, pos: nat, order: ByteOrder, c: nat)
    requires pos <= c <= |data| && ReadInt(data, pos, order).Ok?
    ensures CutAgrees(ReadInt(data, pos, order), ReadInt(data[..c], pos, order), c)
  {
    ReadSignedCut(data, pos, 4, order, c);
  }

  lemma ReadUShortCut(data: seq<uint8>, pos: nat, order: ByteOrder, c: nat)
    requires pos <= c <= |data| && ReadUShort(data, pos, order).Ok?
    ensures CutAgrees(ReadUShort(data, pos, order), ReadUShort(data[..c], pos, order), c)
  {
    ReadBytesCut(data, pos, 2, c);
  }

  /** `readUTF` on a cut input: the length or the text may be cut short. */
  lemma ReadUtfCut(data: seq<uint8>, pos: nat, order: ByteOrder, c: nat)
    requires pos <= c <= |data| && ReadUtf(data, pos, order).Ok?
    ensures CutAgrees(ReadUtf(data, pos, order), ReadUtf(data[..c], pos, order), c)
  {
    ReadUShortCut(data, pos, order, c);
    var len := ReadUShort(data, pos, order).value;
    if len.next <= c {
      ReadBytesCut(data, len.next, len.item, c);
    }
  }

  /** The IntArray and LongArray loop on a cut input. */
  lemma {:induction false} ReadSignedRunCut(data: seq<uint8>, pos: nat, count: nat, width: nat, order: ByteOrder,
                                            acc: seq<int>, c: nat)
    requires width >= 1 && pos <= c <= |data| && ReadSignedRun(data, pos, count, width, order, acc).Ok?
    ensures CutAgrees(ReadSignedRun(data, pos, count, width, order, acc),
                      ReadSignedRun(data[..c], pos, count, width, order, acc), c)
    decreases count
  {
    if count > 0 {
      ReadSignedCut(data, pos, width, order, c);
      var v := ReadSigned(data, pos, width, order).value;
      if v.next <= c {
        ReadSignedRunCut(data, v.next, count - 1, width, order, acc + [v.item], c);
      }
    }
  }

  lemma DecodeScalarCut(serial: Serial, data: seq<uint8>, pos: nat, c: nat)
    requires pos <= c <= |data|
    requires serial.kClass !in {NbtByteArray, NbtList, NbtCompound, NbtIntArray, NbtLongArray}
    requires DecodeScalar(serial, data, pos).Ok?
    ensures CutAgrees(DecodeScalar(serial, data, pos), DecodeScalar(serial, data[..c], pos), c)
  {
    var order := serial.byteOrder;
    match serial.kClass
    case NbtEnd =>
    case NbtByte => ReadByteCut(data, pos, c);
    case NbtShort => ReadSignedCut(data, pos, 2, order, c);
    case NbtInt => ReadIntCut(data, pos, order, c);
    case NbtLong => ReadSignedCut(data, pos, 8, order, c);
    case NbtFloat => ReadUnsignedCut(data, pos, 4, order, c);
    case NbtDouble => ReadUnsignedCut(data, pos, 8, order, c);
    case NbtString => ReadUtfCut(data, pos, order, c);
  }

  lemma DecodeArrayCut(serial: Serial, data: seq<uint8>, pos: nat, c: nat)
    requires pos <= c <= |data| && serial.kClass in {NbtByteArray, NbtIntArray, NbtLongArray}
    requires DecodeArray(serial, data, pos).Ok?
    ensures CutAgrees(DecodeArray(serial, data, pos), DecodeArray(serial, data[..c], pos), c)
  {
    var order := serial.byteOrder;
    ReadIntCut(data, pos, order, c);
    var size := ReadInt(data, pos, order).value;
    if size.next <= c {
      match serial.kClass
      case NbtByteArray => ReadBytesCut(data, size.next, size.item as nat, c);
      case NbtIntArray => ReadSignedRunCut(data, size.next, size.item as nat, 4, order, [], c);
      case NbtLongArray => ReadSignedRunCut(data, size.next, size.item as nat, 8, order, [], c);
    }
  }

  /** Any serializer's `readTag` on a cut input. */
  lemma {:induction false} DecodeTagCut(serial: Serial, data: seq<uint8>, pos: nat, c: nat)
    requires pos <= c <= |data| && DecodeTag(serial, data, pos).Ok?
    ensures CutAgrees(DecodeTag(serial, data, pos), DecodeTag(serial, data[..c], pos), c)
    decreases |data| - pos, 1, 0
  {
    match serial.kClass
    case NbtList => DecodeListCut(serial.byteOrder, data, pos, c);
    case NbtCompound => DecodeEntriesCut(serial.byteOrder, data, pos, [], c);
    case NbtByteArray => DecodeArrayCut(serial, data, pos, c);
    case NbtIntArray => DecodeArrayCut(serial, data, pos, c);
    case NbtLongArray => DecodeArrayCut(serial, data, pos, c);
    case _ => DecodeScalarCut(serial, data, pos, c);
  }

  lemma {:induction false} DecodeListCut(order: ByteOrder, data: seq<uint8>, pos: nat, c: nat)
    requires pos <= c <= |data| && DecodeList(order, data, pos).Ok?
    ensures CutAgrees(DecodeList(order, data, pos), DecodeList(order, data[..c], pos), c)
    decreases |data| - pos, 0, 1
  {
    ReadByteCut(data, pos, c);
    var typeId := ReadByte(data, pos).value;
    if typeId.next <= c {
      ReadIntCut(data, typeId.next, order, c);
      var size := ReadInt(data, typeId.next, order).value;
      if size.next <= c {
        var elemSerial := SerializerAt(order, typeId.item).value;
        DecodeElemsCut(elemSerial, data, size.next, if size.item > 0 then size.item else 0, [], c);
      }
    }
  }

  lemma {:induction false} DecodeElemsCut(serial: Serial, data: seq<uint8>, pos: nat, n: nat, acc: seq<Tag>, c: nat)
    requires pos <= c <= |data| && DecodeElems(serial, data, pos, n, acc).Ok?
    ensures CutAgrees(DecodeElems(serial, data, pos, n, acc), DecodeElems(serial, data[..c], pos, n, acc), c)
    decreases |data| - pos, 2, n
  {
    if n > 0 {
      DecodeTagCut(serial, data, pos, c);
      var t := DecodeTag(serial, data, pos).value;
      if t.next <= c {
        DecodeElemsCut(serial, data, t.next, n - 1, acc + [t.item], c);
      }
    }
  }

  /** The compound loop on a cut input: a compound cut before its 0
      terminator meets the end of the input. */
  lemma {:induction false} DecodeEntriesCut(order: ByteOrder, data: seq<uint8>, pos: nat, acc: seq<Entry>, c: nat)
    requires pos <= c <= |data| && DecodeEntries(order, data, pos, acc).Ok?
    ensures CutAgrees(DecodeEntries(order, data, pos, acc), DecodeEntries(order, data[..c], pos, acc), c)
    decreases |data| - pos, 0, 1
  {
    ReadByteCut(data, pos, c);
    var typeId := ReadByte(data, pos).value;
    if typeId.next <= c && typeId.item != 0 {
      DecodeNamedEntryCut(order, data, typeId.next, typeId.item, acc, c);
    }
  }

  lemma {:induction false} DecodeNamedEntryCut(order: ByteOrder, data: seq<uint8>, pos: nat, typeId: int8,
                                               acc: seq<Entry>, c: nat)
    requires typeId != 0 && pos <= c <= |data| && DecodeNamedEntry(order, data, pos, typeId, acc).Ok?
    ensures CutAgrees(DecodeNamedEntry(order, data, pos, typeId, acc),
                      DecodeNamedEntry(order, data[..c], pos, typeId, acc), c)
    decreases |data| - pos, 0, 0
  {
    ReadUtfCut(data, pos, order, c);
    var name := ReadUtf(data, pos, order).value;
    if name.next <= c {
      var serializer := SerializerAt(order, typeId).value;
      DecodeTagCut(serializer, data, name.next, c);
      var child := DecodeTag(serializer, data, name.next).value;
      if child.next <= c {
        DecodeEntriesCut(order, data, child.next, Put(acc, name.item, child.item), c);
      }
    }
  }

  /** `readNbtFile` on a cut input. */
  lemma DecodeFileCut(data: seq<uint8>, pos: nat, order: ByteOrder, c: nat)
    requires pos <= c <= |data| && DecodeFile(data, pos, order, false).Ok?
    ensures CutAgrees(DecodeFile(data, pos, order, false), DecodeFile(data[..c], pos, order, false), c)
  {
    ReadByteCut(data, pos, c);
    var typeId := ReadByte(data, pos).value;
    if typeId.next <= c {
      ReadUtfCut(data, typeId.next, order, c);
      var name := ReadUtf(data, typeId.next, order).value;
      if name.next <= c {
        var serializer := SerializerAt(order, typeId.item).value;
        DecodeTagCut(serializer, data, name.next, c);
      }
    }
  }

  /** A tag read that ends after the cut fails on the cut input. */
  lemma TagCutShort(serial: Serial, data: seq<uint8>, pos: nat, t: Tag, end: nat, c: nat)
    requires pos <= c < end <= |data| && DecodeTag(serial, data, pos) == Ok(Parsed(t, end))
    ensures DecodeTag(serial, data[..c], pos) == Err(Truncated)
  {
    DecodeTagCut(serial, data, pos, c);
  }

  /** Every strict prefix of what a serializer writes fails to read back
      with `Truncated`, wherever it starts in the input. */
  lemma TagPrefixTruncated(serial: Serial, t: Tag, pre: seq<uint8>)
    requires WellFormed(t) && EncodeTag(serial, t).Ok?
    ensures forall k :: 0 <= k < |EncodeTag(serial, t).value| ==>
              DecodeTag(serial, pre + EncodeTag(serial, t).value[..k], |pre|) == Err(Truncated)
  {
    EncodedReadsBack(serial, t, pre);
    AppendedCutsShort(serial, pre, EncodeTag(serial, t).value, t);
  }

  /** A tag read whole from `pre + b` fails on `pre` plus any strict prefix of `b`. */
  lemma AppendedCutsShort(serial: Serial, pre: seq<uint8>, b: seq<uint8>, t: Tag)
    requires DecodeTag(serial, pre + b, |pre|) == Ok(Parsed(t, |pre| + |b|))
    ensures forall k :: 0 <= k < |b| ==> DecodeTag(serial, pre + b[..k], |pre|) == Err(Truncated)
  {
    forall k | 0 <= k < |b| ensures DecodeTag(serial, pre + b[..k], |pre|) == Err(Truncated) {
      AppendedCutShort(serial, pre, b, t, k);
    }
  }

  /** The same for one strict prefix of `b`. */
  lemma AppendedCutShort(serial: Serial, pre: seq<uint8>, b: seq<uint8>, t: Tag, k: nat)
    requires k < |b| && DecodeTag(serial, pre + b, |pre|) == Ok(Parsed(t, |pre| + |b|))
    ensures DecodeTag(serial, pre + b[..k], |pre|) == Err(Truncated)
  {
    TagCutShort(serial, pre + b, |pre|, t, |pre| + |b|, |pre| + k);
    CutOfConcat(pre, b, k);
  }

  /** What a serializer writes reads back whole after any prefix. */
  lemma EncodedReadsBack(serial: Serial, t: Tag, pre: seq<uint8>)
    requires WellFormed(t) && EncodeTag(serial, t).Ok?
    ensures DecodeTag(serial, pre + EncodeTag(serial, t).value, |pre|)
         == Ok(Parsed(t, |pre| + |EncodeTag(serial, t).value|))
  {
    var b := EncodeTag(serial, t).value;
    var data := pre + b;
    assert data == pre + b + [];
    TagRoundTrip(serial, t, data, pre, [], |pre|, |pre| + |b|);
  }

  /** Every strict prefix of a file written by `writeNbtFile` fails to
      read back with `Truncated`. */
  lemma FilePrefixTruncated(file: NbtFile, order: ByteOrder, k: nat)
    requires WellFormed(file.tag) && EncodeFile(file, order, false).Ok?
    requires k < |EncodeFile(file, order, false).value|
    ensures DecodeFile(EncodeFile(file, order, false).value[..k], 0, order, false) == Err(Truncated)
  {
    var b := EncodeFile(file, order, false).value;
    FileBytesRoundTrip(file, order);
    DecodeFileCut(b, 0, order, k);
  }
}
