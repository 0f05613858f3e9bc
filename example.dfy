/** A worked big-endian file: the root compound "root" holding the Int "a"
    = 42 and the List "list" = [Short 1, Short 2]. */
module Example {
  import opened Bytes
  import opened Tags
  import opened Wire
  import opened Codec
  import opened RoundTrip

  const RootName: seq<uint8> := [0x72, 0x6F, 0x6F, 0x74]
  const AName: seq<uint8> := [0x61]
  const ListName: seq<uint8> := [0x6C, 0x69, 0x73, 0x74]

  const ExampleFile: NbtFile :=
    NbtFile(RootName, Compound([Entry(AName, Int(42)), Entry(ListName, List([Short(1), Short(2)]))]))

  const ExampleBytes: seq<uint8> :=
    [0x0A, 0x00, 0x04, 0x72, 0x6F, 0x6F, 0x74,
     0x03, 0x00, 0x01, 0x61, 0x00, 0x00, 0x00, 0x2A,
     0x09, 0x00, 0x04, 0x6C, 0x69, 0x73, 0x74, 0x02, 0x00, 0x00, 0x00, 0x02, 0x00, 0x01, 0x00, 0x02,
     0x00]

  /** A value below 256 occupies the last of n big-endian bytes. */
  lemma {:induction false} SmallBigEndian(v: nat, n: nat)
    requires 1 <= n && v < 256
    ensures Pow256(1) <= Pow256(n) && BigEndianBytes(v, n) == seq(n - 1, _ => 0) + [v as uint8]
  {
    if n == 1 {
      assert BigEndianBytes(0, 0) == [];
    } else {
      SmallBigEndian(0, n - 1);
      assert seq(n - 2, _ => 0) + [0 as uint8] == seq(n - 1, _ => 0);
    }
  }

  lemma SmallInts()
    ensures WriteUShort(1, BigEndian) == [0, 1] && WriteUShort(4, BigEndian) == [0, 4]
    ensures SignedBytes(1, 2, BigEndian) == [0, 1] && SignedBytes(2, 2, BigEndian) == [0, 2]
    ensures SignedBytes(2, 4, BigEndian) == [0, 0, 0, 2] && SignedBytes(42, 4, BigEndian) == [0, 0, 0, 42]
  {
    Pow256Widths();
    SmallBigEndian(1, 2);
    SmallBigEndian(4, 2);
    SmallBigEndian(2, 2);
    SmallBigEndian(2, 4);
    SmallBigEndian(42, 4);
  }

  /** The list payload: element type 2, count 2, then the two shorts. */
  lemma ListPayload()
    ensures EncodeList(BigEndian, [Short(1), Short(2)]) == Ok(ListBytes)
  {
    SmallInts();
    var shorts := Serial(NbtShort, BigEndian);
    assert SerializerFor(Short(1), BigEndian) == shorts;
    assert EncodeTag(shorts, Short(1)) == Ok([0, 1]);
    assert EncodeTag(shorts, Short(2)) == Ok([0, 2]);
    assert [Short(1), Short(2)][1..] == [Short(2)] && [Short(2)][1..] == [];
    assert EncodeElems(shorts, []) == Ok([]);
    assert [0 as uint8, 2] + [] == [0, 2];
    assert EncodeElems(shorts, [Short(2)]) == Ok([0, 2]);
    assert [0 as uint8, 1] + [0, 2] == [0, 1, 0, 2];
    assert EncodeElems(shorts, [Short(1), Short(2)]) == Ok([0, 1, 0, 2]);
    assert TypeId(Short(1)) == 2;
    assert [2 as uint8] + [0, 0, 0, 2] + [0, 1, 0, 2] == [2, 0, 0, 0, 2, 0, 1, 0, 2];
  }

  const AUtf: seq<uint8> := [0, 1, 0x61]
  const ListNameUtf: seq<uint8> := [0, 4, 0x6C, 0x69, 0x73, 0x74]
  const ListBytes: seq<uint8> := [2, 0, 0, 0, 2, 0, 1, 0, 2]

  /** The three names with their u16 lengths in front. */
  lemma NameEncodings()
    ensures WriteUtf(AName, BigEndian) == Ok(AUtf)
    ensures WriteUtf(ListName, BigEndian) == Ok(ListNameUtf)
    ensures WriteUtf(RootName, BigEndian) == Ok([0, 4] + RootName)
  {
    SmallInts();
    assert WriteUShort(|AName|, BigEndian) + AName == AUtf;
    assert WriteUShort(|ListName|, BigEndian) + ListName == ListNameUtf;
  }

  lemma NamedInt()
    ensures EncodeNamed(BigEndian, AName, Int(42)) == Ok([3] + (AUtf + [0, 0, 0, 42]))
  {
    SmallInts();
    NameEncodings();
    assert SerializerFor(Int(42), BigEndian) == Serial(NbtInt, BigEndian);
    assert TypeId(Int(42)) == 3;
  }

  lemma NamedList()
    ensures EncodeNamed(BigEndian, ListName, List([Short(1), Short(2)])) == Ok([9] + (ListNameUtf + ListBytes))
  {
    NameEncodings();
    ListPayload();
    var list := List([Short(1), Short(2)]);
    assert SerializerFor(list, BigEndian) == Serial(NbtList, BigEndian);
    assert TypeId(list) == 9;
  }

  const NamedIntBytes: seq<uint8> := [3] + (AUtf + [0, 0, 0, 42])
  const NamedListBytes: seq<uint8> := [9] + (ListNameUtf + ListBytes)

  lemma ExamplePayload()
    ensures EncodeCompound(BigEndian, ExampleFile.tag.entries) == Ok(NamedIntBytes + NamedListBytes + [0])
  {
    NamedInt();
    NamedList();
    var entries := ExampleFile.tag.entries;
    assert entries[1..][1..] == [];
    assert EncodeEntries(BigEndian, entries[1..][1..]) == Ok([]);
    assert NamedListBytes + [] == NamedListBytes;
    assert EncodeEntries(BigEndian, entries[1..]) == Ok(NamedListBytes);
    assert EncodeEntries(BigEndian, entries) == Ok(NamedIntBytes + NamedListBytes);
  }

  lemma ExampleConcatenation()
    ensures [10 as uint8] + ([0, 4] + RootName + (NamedIntBytes + NamedListBytes + [0])) == ExampleBytes
  {
  }

  /** The example file is written as the 32 bytes above. */
  lemma ExampleEncoding()
    ensures EncodeFile(ExampleFile, BigEndian, false) == Ok(ExampleBytes)
  {
    ExamplePayload();
    NameEncodings();
    assert SerializerFor(ExampleFile.tag, BigEndian) == Serial(NbtCompound, BigEndian);
    assert TypeId(ExampleFile.tag) == 10;
    assert EncodeTag(Serial(NbtCompound, BigEndian), ExampleFile.tag)
        == Ok(NamedIntBytes + NamedListBytes + [0]);
    ExampleConcatenation();
    assert EncodeNamed(BigEndian, RootName, ExampleFile.tag) == Ok(ExampleBytes);
  }

  /** Reading the 32 bytes big-endian gives the example file back. */
  lemma ExampleDecoding()
    ensures DecodeFile(ExampleBytes, 0, BigEndian, false) == Ok(Parsed(ExampleFile, 32))
  {
    ExampleEncoding();
    FileBytesRoundTrip(ExampleFile, BigEndian);
  }
}
