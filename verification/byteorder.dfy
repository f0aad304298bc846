/** The unsigned 32-bit integer that a four-byte tag is copied into and out
    of with memcpy. The model fixes the byte order to little-endian, the
    order of the engine's usual hosts. */
module ByteOrder {
  import opened CString

  newtype UInt32 = x: int | 0 <= x < 0x1_0000_0000

  /** sizeof(std::uint32_t). */
  const UInt32Size: nat := 4

  function Pow256(n: nat): nat {
    if n == 0 then 1 else 256 * Pow256(n - 1)
  }

  /** The number whose little-endian representation is `b`. */
  function LittleEndian(b: seq<Byte>): (v: nat)
    ensures v < Pow256(|b|)
  {
    if b == [] then 0 else b[0] as nat + 256 * LittleEndian(b[1..])
  }

  /** The `n` bytes of the little-endian representation of `v`. */
  function ToLittleEndian(v: nat, n: nat): (b: seq<Byte>)
    requires v < Pow256(n)
    ensures |b| == n
  {
    if n == 0 then [] else [(v % 256) as Byte] + ToLittleEndian(v / 256, n - 1)
  }

  lemma {:induction false} LittleEndianOfToLittleEndian(v: nat, n: nat)
    requires v < Pow256(n)
    ensures LittleEndian(ToLittleEndian(v, n)) == v
  {
    if n > 0 {
      var b := ToLittleEndian(v, n);
      assert b[1..] == ToLittleEndian(v / 256, n - 1);
      LittleEndianOfToLittleEndian(v / 256, n - 1);
    }
  }

  lemma {:induction false} ToLittleEndianOfLittleEndian(b: seq<Byte>)
    ensures ToLittleEndian(LittleEndian(b), |b|) == b
  {
    if b != [] {
      var v := LittleEndian(b);
      assert v % 256 == b[0] as nat && v / 256 == LittleEndian(b[1..]);
      ToLittleEndianOfLittleEndian(b[1..]);
    }
  }

  /** The four bytes memcpy copies out of a `std::uint32_t`. */
  function UInt32Bytes(v: UInt32): (b: seq<Byte>)
    ensures |b| == UInt32Size
    ensures UInt32Of(b) == v
  {
    assert Pow256(UInt32Size) == 0x1_0000_0000;
    LittleEndianOfToLittleEndian(v as nat, UInt32Size);
    ToLittleEndian(v as nat, UInt32Size)
  }

  /** The `std::uint32_t` memcpy fills from four bytes. */
  function UInt32Of(b: seq<Byte>): (v: UInt32)
    requires |b| == UInt32Size
    ensures ToLittleEndian(v as nat, UInt32Size) == b
  {
    assert Pow256(UInt32Size) == 0x1_0000_0000;
    ToLittleEndianOfLittleEndian(b);
    LittleEndian(b) as UInt32
  }
}
