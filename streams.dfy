/** The two byte streams the serializers work on: an `Output` that only
    grows and an `Input` that reads forward from a position. Each primitive
    is tied to the function on byte sequences that describes it, and the
    u16 and UTF helpers are built from the signed 16-bit primitives as the
    extension functions of the codec are. */
module Streams {
  import opened Bytes
  import opened Wire

  /** A byte sink: every byte written so far, in order. */
  class Output {
    var bytes: seq<uint8>

    constructor()
      ensures bytes == []
    {
      bytes := [];
    }

    /** `writeByte`: the two's complement bits of one signed byte. */
    method WriteByte(v: int8)
      modifies this
      ensures bytes == old(bytes) + [ToUnsigned(v, 1) as uint8]
    {
      Pow256Widths();
      bytes := bytes + [ToUnsigned(v, 1) as uint8];
    }

    /** `writeShort`, `writeInt` and `writeLong`: a width-byte two's
        complement number in the given byte order. */
    method WriteSigned(v: int, width: nat, order: ByteOrder)
      requires width >= 1 && InSignedRange(v, width)
      modifies this
      ensures bytes == old(bytes) + SignedBytes(v, width, order)
    {
      bytes := bytes + SignedBytes(v, width, order);
    }

    /** `writeFloat` and `writeDouble`, given the value's IEEE-754 bits. */
    method WriteBits(bits: nat, width: nat, order: ByteOrder)
      requires bits < Pow256(width)
      modifies this
      ensures bytes == old(bytes) + UnsignedBytes(bits, width, order)
    {
      bytes := bytes + UnsignedBytes(bits, width, order);
    }

    /** `writeFully`: the bytes as they are. */
    method WriteFully(s: seq<uint8>)
      modifies this
      ensures bytes == old(bytes) + s
    {
      bytes := bytes + s;
    }

    /** `writeUShort`: the u16 written as the short with the same bits. */
    method WriteUShort(v: uint16, order: ByteOrder)
      modifies this
      ensures bytes == old(bytes) + Wire.WriteUShort(v, order)
    {
      Pow256Widths();
      WriteUShortThroughShort(v, order);
      WriteSigned(ToSigned(v, 2), 2, order);
    }

    /** `writeUTF` with its length checked: text of more than 65535 bytes
        is refused and nothing is written. */
    method WriteUtf(v: seq<uint8>, order: ByteOrder) returns (r: Result<()>)
      modifies this
      ensures r.Ok? <==> Wire.WriteUtf(v, order).Ok?
      ensures r.Ok? ==> bytes == old(bytes) + Wire.WriteUtf(v, order).value
      ensures r.Err? ==> r.error == StringTooLong(|v|) && bytes == old(bytes)
    {
      if |v| > MaxUtfLength {
        return Err(StringTooLong(|v|));
      }
      WriteUShort(|v|, order);
      WriteFully(v);
      r := Ok(());
    }
  }

  /** A byte source: fixed data read forward from `pos`. */
  class Input {
    const data: seq<uint8>
    var pos: nat

    constructor(data: seq<uint8>)
      ensures this.data == data && pos == 0
    {
      this.data := data;
      pos := 0;
    }

    predicate Valid()
      reads this
    {
      pos <= |data|
    }

    /** `readByte`. */
    method ReadByte() returns (r: Result<int8>)
      requires Valid()
      modifies this
      ensures Valid() && r == Value(Wire.ReadByte(data, old(pos)))
      ensures r.Ok? ==> pos == Wire.ReadByte(data, old(pos)).value.next
    {
      Pow256Widths();
      if pos >= |data| {
        return Err(Truncated);
      }
      r := Ok(ToSigned(data[pos], 1) as int8);
      pos := pos + 1;
    }

    /** `readShort`, `readInt` and `readLong`. */
    method ReadSigned(width: nat, order: ByteOrder) returns (r: Result<int>)
      requires Valid() && width >= 1
      modifies this
      ensures Valid() && r == Value(Wire.ReadSigned(data, old(pos), width, order))
      ensures r.Ok? ==> pos == Wire.ReadSigned(data, old(pos), width, order).value.next
    {
      if pos + width > |data| {
        return Err(Truncated);
      }
      r := Ok(SignedValue(data[pos..pos + width], order));
      pos := pos + width;
    }

    /** `readInt`, as the 32-bit counts are read. */
    method ReadInt(order: ByteOrder) returns (r: Result<int32>)
      requires Valid()
      modifies this
      ensures Valid() && r == Value(Wire.ReadInt(data, old(pos), order))
      ensures r.Ok? ==> pos == Wire.ReadInt(data, old(pos), order).value.next
    {
      Pow256Widths();
      var v := ReadSigned(4, order);
      if v.Err? {
        return Err(v.error);
      }
      r := Ok(v.value as int32);
    }

    /** `readFloat` and `readDouble`, as the value's IEEE-754 bits. */
    method ReadBits(width: nat, order: ByteOrder) returns (r: Result<nat>)
      requires Valid()
      modifies this
      ensures Valid() && r == Value(Wire.ReadUnsigned(data, old(pos), width, order))
      ensures r.Ok? ==> pos == Wire.ReadUnsigned(data, old(pos), width, order).value.next
    {
      if pos + width > |data| {
        return Err(Truncated);
      }
      r := Ok(UnsignedValue(data[pos..pos + width], order));
      pos := pos + width;
    }

    /** `readFully` of n bytes. */
    method ReadFully(n: nat) returns (r: Result<seq<uint8>>)
      requires Valid()
      modifies this
      ensures Valid() && r == Value(Wire.ReadBytes(data, old(pos), n))
      ensures r.Ok? ==> pos == Wire.ReadBytes(data, old(pos), n).value.next
    {
      if pos + n > |data| {
        return Err(Truncated);
      }
      r := Ok(data[pos..pos + n]);
      pos := pos + n;
    }

    /** `readUShort`: `readShort().toUShort()`. */
    method ReadUShort(order: ByteOrder) returns (r: Result<uint16>)
      requires Valid()
      modifies this
      ensures Valid() && r == Value(Wire.ReadUShort(data, old(pos), order))
      ensures r.Ok? ==> pos == Wire.ReadUShort(data, old(pos), order).value.next
    {
      Pow256Widths();
      ghost var p := pos;
      var s := ReadSigned(2, order);
      if s.Err? {
        return Err(s.error);
      }
      ReadUShortThroughShort(data, p, order);
      r := Ok(ToUnsigned(s.value, 2) as uint16);
    }

    /** `readUTF`: a u16 length, then that many bytes of text. */
    method ReadUtf(order: ByteOrder) returns (r: Result<seq<uint8>>)
      requires Valid()
      modifies this
      ensures Valid() && r == Value(Wire.ReadUtf(data, old(pos), order))
      ensures r.Ok? ==> pos == Wire.ReadUtf(data, old(pos), order).value.next
    {
      var len := ReadUShort(order);
      if len.Err? {
        return Err(len.error);
      }
      r := ReadFully(len.value);
    }
  }
}
