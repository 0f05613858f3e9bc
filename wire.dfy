/** Reading and writing the primitive fields of the wire format.

    A stream being read is a byte sequence and a position; every reader
    returns the value it read and the position after it, or `Truncated` when
    fewer bytes remain than the field needs (ktor's `EOFException`). A writer
    returns the bytes it appends to the output. */
module Wire {
  import opened Bytes

  /** Every way a read or a write of an NBT stream stops with an exception. */
  datatype Error =
    | Truncated                         // end of input inside a field
    | UnknownTypeId(id: int)            // `serializers[id]` outside 0..12
    | MissingListType                   // "Missing type on NbtList"
    | NegativeArraySize(size: int)      // `ByteArray(size)` etc. with size < 0
    | EndInList                         // "NbtList cannot have NbtEnd"
    | EndInCompound                     // "NbtCompound cannot have an NbtEnd"
    | ClassCast                         // `tag as T` on a tag of another class
    | StringTooLong(length: nat)        // text over 65535 bytes
    | CompressionNotImplemented         // `compressed = true` reaches `TODO()`

  datatype Result<+T> = Ok(value: T) | Err(error: Error)
  {
    predicate IsFailure() { Err? }

    function PropagateFailure<U>(): Result<U>
      requires Err?
    {
      Err(error)
    }

    function Extract(): T
      requires Ok?
    {
      value
    }
  }

  /** A value read from a stream and the position just after it. */
  datatype Parsed<+T> = Parsed(item: T, next: nat)

  /** The result of a read, without the position. */
  function Value<T>(r: Result<Parsed<T>>): Result<T>
  {
    match r
    case Ok(p) => Ok(p.item)
    case Err(e) => Err(e)
  }

  /** Bytes written by two writers in turn; the first failure wins. */
  function Then(a: Result<seq<uint8>>, b: Result<seq<uint8>>): (r: Result<seq<uint8>>)
    ensures r.Ok? <==> a.Ok? && b.Ok?
  {
    if a.Err? then a else if b.Err? then b else Ok(a.value + b.value)
  }

  /** `readFully` of n bytes. */
  function ReadBytes(data: seq<uint8>, pos: nat, n: nat): (r: Result<Parsed<seq<uint8>>>)
    ensures r.Ok? <==> pos + n <= |data|
    ensures r.Ok? ==> r.value.next == pos + n && r.value.item == data[pos..pos + n]
    ensures r.Err? ==> r.error == Truncated
  {
    if pos + n <= |data| then Ok(Parsed(data[pos..pos + n], pos + n)) else Err(Truncated)
  }

  /** An n-byte two's complement number in the given byte order. */
  function ReadSigned(data: seq<uint8>, pos: nat, n: nat, order: ByteOrder): (r: Result<Parsed<int>>)
    requires n >= 1
    ensures r.Ok? <==> pos + n <= |data|
    ensures r.Ok? ==> r.value.next == pos + n && InSignedRange(r.value.item, n)
    ensures r.Err? ==> r.error == Truncated
  {
    var b :- ReadBytes(data, pos, n);
    Ok(Parsed(SignedValue(b.item, order), b.next))
  }

  /** An n-byte unsigned number (the bits of a Float or a Double). */
  function ReadUnsigned(data: seq<uint8>, pos: nat, n: nat, order: ByteOrder): (r: Result<Parsed<nat>>)
    ensures r.Ok? <==> pos + n <= |data|
    ensures r.Ok? ==> r.value.next == pos + n && r.value.item < Pow256(n)
    ensures r.Err? ==> r.error == Truncated
  {
    var b :- ReadBytes(data, pos, n);
    Ok(Parsed(UnsignedValue(b.item, order), b.next))
  }

  /** `readByte`: one signed byte (the byte order does not matter). */
  function ReadByte(data: seq<uint8>, pos: nat): (r: Result<Parsed<int8>>)
    ensures r.Ok? <==> pos < |data|
    ensures r.Ok? ==> r.value.next == pos + 1 && r.value.item == ToSigned(data[pos], 1)
    ensures r.Err? ==> r.error == Truncated
  {
    Pow256Widths();
    if pos < |data| then Ok(Parsed(ToSigned(data[pos], 1) as int8, pos + 1)) else Err(Truncated)
  }

  /** `readInt`: a 32-bit signed number. */
  function ReadInt(data: seq<uint8>, pos: nat, order: ByteOrder): (r: Result<Parsed<int32>>)
    ensures r.Ok? <==> pos + 4 <= |data|
    ensures r.Ok? ==> r.value.next == pos + 4 && r.value.item == SignedValue(data[pos..pos + 4], order)
    ensures r.Err? ==> r.error == Truncated
  {
    Pow256Widths();
    var v :- ReadSigned(data, pos, 4, order);
    Ok(Parsed(v.item as int32, v.next))
  }

  /** `readUShort`: `readShort().toUShort()`, which is the plain unsigned
      value of the two bytes (ReadUShortThroughShort). */
  function ReadUShort(data: seq<uint8>, pos: nat, order: ByteOrder): (r: Result<Parsed<uint16>>)
    ensures r.Ok? <==> pos + 2 <= |data|
    ensures r.Ok? ==> r.value.next == pos + 2 && r.value.item == UnsignedValue(data[pos..pos + 2], order)
    ensures r.Err? ==> r.error == Truncated
  {
    Pow256Widths();
    var b :- ReadBytes(data, pos, 2);
    Ok(Parsed(UnsignedValue(b.item, order), b.next))
  }

  /** Reading the two bytes as a Short and keeping its 16 bits unsigned
      gives the same number. */
  lemma ReadUShortThroughShort(data: seq<uint8>, pos: nat, order: ByteOrder)
    requires pos + 2 <= |data|
    ensures ReadSigned(data, pos, 2, order).Ok? && ReadUShort(data, pos, order).Ok?
    ensures ReadUShort(data, pos, order).value.item == ToUnsigned(ReadSigned(data, pos, 2, order).value.item, 2)
  {
    TwosComplementRoundTrip(0, UnsignedValue(data[pos..pos + 2], order), 2);
  }

  /** `writeUShort`: `writeShort(v.toShort())`, which puts down the plain
      unsigned layout of v (WriteUShortThroughShort). */
  function WriteUShort(v: uint16, order: ByteOrder): (r: seq<uint8>)
    ensures |r| == 2
  {
    Pow256Widths();
    UnsignedBytes(v, 2, order)
  }

  /** Writing the 16 bits of v as a Short gives the same bytes. */
  lemma WriteUShortThroughShort(v: nat, order: ByteOrder)
    requires v < Pow256(2)
    ensures v < 0x1_0000 && WriteUShort(v, order) == SignedBytes(ToSigned(v, 2), 2, order)
  {
    Pow256Widths();
    TwosComplementRoundTrip(0, v, 2);
  }

  /** Writing a u16 and reading it back gives the same value, in either
      byte order. */
  lemma UShortRoundTrip(v: uint16, order: ByteOrder, data: seq<uint8>, pos: nat)
    requires pos + 2 <= |data| && data[pos..pos + 2] == WriteUShort(v, order)
    ensures ReadUShort(data, pos, order) == Ok(Parsed(v, pos + 2))
  {
    Pow256Widths();
    UnsignedRoundTrip(v, 2, order);
  }

  /** `readUTF`: a u16 byte length, then that many bytes of text. */
  function ReadUtf(data: seq<uint8>, pos: nat, order: ByteOrder): (r: Result<Parsed<seq<uint8>>>)
    ensures r.Ok? <==> pos + 2 <= |data| && pos + 2 + UnsignedValue(data[pos..pos + 2], order) <= |data|
    ensures r.Ok? ==> |r.value.item| == UnsignedValue(data[pos..pos + 2], order)
    ensures r.Ok? ==> r.value.next == pos + 2 + |r.value.item| <= |data| && |r.value.item| <= 0xFFFF
    ensures r.Ok? ==> r.value.item == data[pos + 2..r.value.next]
    ensures r.Err? ==> r.error == Truncated
  {
    var len :- ReadUShort(data, pos, order);
    ReadBytes(data, len.next, len.item)
  }

  const MaxUtfLength: nat := 0xFFFF

  /** `writeUTF` with the 16-bit length checked: text longer than 65535
      bytes is refused instead of having its length wrapped. */
  function WriteUtf(v: seq<uint8>, order: ByteOrder): (r: Result<seq<uint8>>)
    ensures r.Ok? <==> |v| <= MaxUtfLength
    ensures r.Err? ==> r.error == StringTooLong(|v|)
    ensures r.Ok? ==> |r.value| == 2 + |v| && r.value[2..] == v
  {
    if |v| <= MaxUtfLength then Ok(WriteUShort(|v|, order) + v) else Err(StringTooLong(|v|))
  }

  /** Reading back written text gives the same text, and consumes exactly
      what was written. */
  lemma UtfRoundTrip(v: seq<uint8>, order: ByteOrder, data: seq<uint8>, pos: nat)
    requires WriteUtf(v, order).Ok?
    requires pos + |WriteUtf(v, order).value| <= |data|
    requires data[pos..pos + |WriteUtf(v, order).value|] == WriteUtf(v, order).value
    ensures ReadUtf(data, pos, order) == Ok(Parsed(v, pos + 2 + |v|))
  {
    var w := WriteUtf(v, order).value;
    assert data[pos..pos + 2] == w[..2];
    UShortRoundTrip(|v|, order, data, pos);
    assert data[pos + 2..pos + 2 + |v|] == w[2..];
  }

  /** `writeUTF` as the source has it: `bytes.size.toUShort()` keeps only
      the low 16 bits of the length, and every byte is written anyway. */
  function WriteUtfWrapping(v: seq<uint8>, order: ByteOrder): (r: seq<uint8>)
    ensures |r| == 2 + |v|
  {
    WriteUShort(|v| % 0x1_0000, order) + v
  }

  /** Up to 65535 bytes the checked writer and the source's agree. */
  lemma WriteUtfAgreesWithinLimit(v: seq<uint8>, order: ByteOrder)
    requires |v| <= MaxUtfLength
    ensures WriteUtf(v, order) == Ok(WriteUtfWrapping(v, order))
  {
  }

  /** Text of 65536 bytes is written with length 0: reading it back yields
      the empty text and leaves all 65536 bytes unread. */
  lemma WrappedLengthLosesText(v: seq<uint8>, order: ByteOrder)
    requires |v| == 0x1_0000
    ensures ReadUtf(WriteUtfWrapping(v, order), 0, order) == Ok(Parsed([], 2))
    ensures ReadUtf(WriteUtfWrapping(v, order), 0, order) != Ok(Parsed(v, 2 + |v|))
  {
    var w := WriteUtfWrapping(v, order);
    assert w[0..2] == WriteUShort(0, order);
    UShortRoundTrip(0, order, w, 0);
  }
}
