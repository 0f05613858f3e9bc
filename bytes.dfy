/** Fixed-width integers and their byte layouts, in either byte order.

    The codec writes every multi-byte number the way ktor's `Output.writeShort`,
    `writeInt`, `writeLong`, `writeFloat` and `writeDouble` do: as the two's
    complement bit pattern, most significant byte first for big-endian, and the
    same bytes reversed for little-endian. */
module Bytes {

  type uint8 = x: int | 0 <= x < 0x100
  type int8 = x: int | -0x80 <= x < 0x80
  type uint16 = x: int | 0 <= x < 0x1_0000
  type int16 = x: int | -0x8000 <= x < 0x8000
  type uint32 = x: int | 0 <= x < 0x1_0000_0000
  type int32 = x: int | -0x8000_0000 <= x < 0x8000_0000
  type uint64 = x: int | 0 <= x < 0x1_0000_0000_0000_0000
  type int64 = x: int | -0x8000_0000_0000_0000 <= x < 0x8000_0000_0000_0000

  datatype ByteOrder = BigEndian | LittleEndian

  /** The number of distinct values an n-byte field holds. */
  function Pow256(n: nat): (r: nat)
    ensures r >= 1
  {
    if n == 0 then 1 else 256 * Pow256(n - 1)
  }

  lemma Pow256Widths()
    ensures Pow256(1) == 0x100 && Pow256(2) == 0x1_0000
    ensures Pow256(4) == 0x1_0000_0000 && Pow256(8) == 0x1_0000_0000_0000_0000
  {
  }

  /** The n bytes of an unsigned value, most significant first. */
  function BigEndianBytes(v: nat, n: nat): (r: seq<uint8>)
    requires v < Pow256(n)
    ensures |r| == n
  {
    if n == 0 then [] else BigEndianBytes(v / 256, n - 1) + [v % 256]
  }

  /** The unsigned value of bytes read most significant first. */
  function BigEndianValue(s: seq<uint8>): (v: nat)
    ensures v < Pow256(|s|)
  {
    if s == [] then 0 else BigEndianValue(s[..|s| - 1]) * 256 + s[|s| - 1]
  }

  lemma {:induction false} BigEndianValueOfBytes(v: nat, n: nat)
    requires v < Pow256(n)
    ensures BigEndianValue(BigEndianBytes(v, n)) == v
  {
    if n > 0 {
      var s := BigEndianBytes(v, n);
      assert s[..n - 1] == BigEndianBytes(v / 256, n - 1);
      BigEndianValueOfBytes(v / 256, n - 1);
    }
  }

  lemma {:induction false} BigEndianBytesOfValue(s: seq<uint8>)
    ensures BigEndianBytes(BigEndianValue(s), |s|) == s
  {
    if s != [] {
      var init := s[..|s| - 1];
      BigEndianBytesOfValue(init);
      var v := BigEndianValue(s);
      assert v / 256 == BigEndianValue(init) && v % 256 == s[|s| - 1];
      assert s == init + [s[|s| - 1]];
    }
  }

  /** The bytes of s in the opposite order. */
  function Reverse(s: seq<uint8>): (r: seq<uint8>)
    ensures |r| == |s|
  {
    if s == [] then [] else Reverse(s[1..]) + [s[0]]
  }

  lemma {:induction false} ReverseSnoc(a: seq<uint8>, x: uint8)
    ensures Reverse(a + [x]) == [x] + Reverse(a)
  {
    if a != [] {
      assert (a + [x])[1..] == a[1..] + [x];
      ReverseSnoc(a[1..], x);
    }
  }

  lemma {:induction false} ReverseReverse(s: seq<uint8>)
    ensures Reverse(Reverse(s)) == s
  {
    if s != [] {
      ReverseSnoc(Reverse(s[1..]), s[0]);
      ReverseReverse(s[1..]);
    }
  }

  /** The n-byte layout of an unsigned value in the given byte order. */
  function UnsignedBytes(v: nat, n: nat, order: ByteOrder): (r: seq<uint8>)
    requires v < Pow256(n)
    ensures |r| == n
  {
    match order
    case BigEndian => BigEndianBytes(v, n)
    case LittleEndian => Reverse(BigEndianBytes(v, n))
  }

  /** The unsigned value of a byte layout in the given byte order. */
  function UnsignedValue(s: seq<uint8>, order: ByteOrder): (v: nat)
    ensures v < Pow256(|s|)
  {
    match order
    case BigEndian => BigEndianValue(s)
    case LittleEndian => BigEndianValue(Reverse(s))
  }

  lemma UnsignedRoundTrip(v: nat, n: nat, order: ByteOrder)
    requires v < Pow256(n)
    ensures UnsignedValue(UnsignedBytes(v, n, order), order) == v
  {
    BigEndianValueOfBytes(v, n);
    ReverseReverse(BigEndianBytes(v, n));
  }

  lemma UnsignedLayoutRoundTrip(s: seq<uint8>, order: ByteOrder)
    ensures UnsignedBytes(UnsignedValue(s, order), |s|, order) == s
  {
    BigEndianBytesOfValue(s);
    BigEndianBytesOfValue(Reverse(s));
    ReverseReverse(s);
  }

  /** Values an n-byte two's complement field can hold. */
  predicate InSignedRange(v: int, n: nat)
  {
    -(Pow256(n) / 2) <= v < Pow256(n) / 2
  }

  /** The unsigned reading of the two's complement bits of v. */
  function ToUnsigned(v: int, n: nat): (u: nat)
    requires InSignedRange(v, n)
    ensures u < Pow256(n)
    ensures u == v || u == v + Pow256(n)
  {
    if v < 0 then v + Pow256(n) else v
  }

  /** The signed reading of n bytes of two's complement bits. */
  function ToSigned(u: nat, n: nat): (v: int)
    requires n >= 1 && u < Pow256(n)
    ensures InSignedRange(v, n)
    ensures v == u || v == u - Pow256(n)
  {
    var half := 128 * Pow256(n - 1);
    assert Pow256(n) == 2 * half && Pow256(n) / 2 == half;
    if u < half then u else u - Pow256(n)
  }

  lemma TwosComplementRoundTrip(v: int, u: nat, n: nat)
    requires n >= 1
    ensures InSignedRange(v, n) ==> ToSigned(ToUnsigned(v, n), n) == v
    ensures u < Pow256(n) ==> ToUnsigned(ToSigned(u, n), n) == u
  {
  }

  /** The n-byte two's complement layout of v in the given byte order. */
  function SignedBytes(v: int, n: nat, order: ByteOrder): (r: seq<uint8>)
    requires n >= 1 && InSignedRange(v, n)
    ensures |r| == n
  {
    UnsignedBytes(ToUnsigned(v, n), n, order)
  }

  /** The signed value of a two's complement layout in the given byte order. */
  function SignedValue(s: seq<uint8>, order: ByteOrder): (v: int)
    requires |s| >= 1
    ensures InSignedRange(v, |s|)
  {
    ToSigned(UnsignedValue(s, order), |s|)
  }

  lemma SignedRoundTrip(v: int, n: nat, order: ByteOrder)
    requires n >= 1 && InSignedRange(v, n)
    ensures SignedValue(SignedBytes(v, n, order), order) == v
  {
    UnsignedRoundTrip(ToUnsigned(v, n), n, order);
  }

  /** Kotlin's `Short.toUShort()`: the same 16 bits read as unsigned. */
  function ShortToUShort(s: int16): (u: uint16)
    ensures u % 0x1_0000 == s % 0x1_0000
  {
    Pow256Widths();
    ToUnsigned(s, 2)
  }

  /** Kotlin's `UShort.toShort()`: the same 16 bits read as signed. */
  function UShortToShort(u: uint16): (s: int16)
    ensures s % 0x1_0000 == u % 0x1_0000
  {
    Pow256Widths();
    ToSigned(u, 2)
  }

  lemma ShortConversionsInverse(u: uint16, s: int16)
    ensures ShortToUShort(UShortToShort(u)) == u
    ensures UShortToShort(ShortToUShort(s)) == s
  {
    Pow256Widths();
  }
}
