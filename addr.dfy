/**
 * IPv4 and IPv6 addresses as the crate uses them: an `Ipv4Addr` is a 32-bit
 * word, an `Ipv6Addr` a 128-bit word (the crate converts with `u32::from` and
 * `u128::from` before every computation), and `IpAddr` is either of the two.
 */
module Addr {
  import opened Bits

  const V4_BITS: nat := 32
  const V6_BITS: nat := 128

  const U32_LIMIT: nat := 0x1_0000_0000
  const U128_LIMIT: nat := 0x1_0000_0000_0000_0000_0000_0000_0000_0000

  type u32 = x: nat | x < U32_LIMIT
  type u128 = x: nat | x < U128_LIMIT

  const U32_MAX: u32 := 0xFFFF_FFFF
  const U128_MAX: u128 := 0xFFFF_FFFF_FFFF_FFFF_FFFF_FFFF_FFFF_FFFF

  datatype IpAddr = V4(v4: u32) | V6(v6: u128) {
    /** The width of the address's family. */
    function Bits(): nat
    {
      if V4? then V4_BITS else V6_BITS
    }

    /** The address as a number. */
    function Value(): (r: nat)
      ensures r < Pow2(Bits())
    {
      Pow2Values();
      if V4? then v4 else v6
    }

    predicate SameFamily(other: IpAddr)
    {
      V4? == other.V4?
    }
  }

  /** The address of the same family as `a` whose number is `v`. */
  function WithValue(a: IpAddr, v: nat): (r: IpAddr)
    requires v < Pow2(a.Bits())
    ensures r.SameFamily(a) && r.Value() == v
  {
    Pow2Values();
    if a.V4? then V4(v) else V6(v)
  }

  /** An address is determined by its family and its number. */
  lemma IpAddrEq(a: IpAddr, b: IpAddr)
    requires a.SameFamily(b) && a.Value() == b.Value()
    ensures a == b
  {
  }

  /** `<<` on a `u32`. */
  function ShlU32(a: u32, s: nat): u32
  {
    Pow2Values();
    Shl(a, s, V4_BITS)
  }

  /** `<<` on a `u128`. */
  function ShlU128(a: u128, s: nat): u128
  {
    Pow2Values();
    Shl(a, s, V6_BITS)
  }

  /** `!` on a `u32`. */
  function NotU32(a: u32): (r: u32)
    ensures r == U32_MAX - a
  {
    Pow2Values();
    NotIsMaxMinus(a, V4_BITS);
    Not(a, V4_BITS)
  }

  /** `|` on two `u32` words. */
  function OrU32(a: u32, b: u32): (r: u32)
    ensures r >= a
  {
    Pow2Values();
    OrFits(a, b, V4_BITS);
    OrGe(a, b);
    Or(a, b)
  }

  /** The powers of two the two address widths need, as literals. */
  lemma Pow2Values()
    ensures Pow2(8) == 0x100
    ensures Pow2(16) == 0x1_0000
    ensures Pow2(24) == 0x100_0000
    ensures Pow2(32) == U32_LIMIT && Max(32) == U32_MAX
    ensures Pow2(64) == 0x1_0000_0000_0000_0000
    ensures Pow2(96) == 0x1_0000_0000_0000_0000_0000_0000
    ensures Pow2(128) == U128_LIMIT && Max(128) == U128_MAX
  {
    Pow2Byte();
    Pow2At16();
    Pow2At24();
    Pow2At32();
    Pow2At64();
    Pow2At96();
    Pow2At128();
  }

  /** The powers of two the IPv4 width needs, as literals. */
  lemma Pow2ValuesV4()
    ensures Pow2(8) == 0x100
    ensures Pow2(16) == 0x1_0000
    ensures Pow2(24) == 0x100_0000
    ensures Pow2(32) == U32_LIMIT && Max(32) == U32_MAX
  {
    Pow2Byte();
    Pow2At16();
    Pow2At24();
    Pow2At32();
  }

  lemma Pow2Byte()
    ensures Pow2(8) == 0x100
  {
    assert Pow2(4) == 16;
    Pow2Add(4, 4);
  }

  lemma Pow2At16()
    ensures Pow2(16) == 0x1_0000
  {
    Pow2Byte();
    Pow2Add(8, 8);
  }

  lemma Pow2At24()
    ensures Pow2(24) == 0x100_0000
  {
    Pow2Byte();
    Pow2At16();
    Pow2Add(16, 8);
  }

  lemma Pow2At32()
    ensures Pow2(32) == U32_LIMIT
  {
    Pow2At16();
    Pow2Add(16, 16);
  }

  lemma Pow2At64()
    ensures Pow2(64) == 0x1_0000_0000_0000_0000
  {
    Pow2At32();
    Pow2Add(32, 32);
  }

  lemma Pow2At96()
    ensures Pow2(96) == 0x1_0000_0000_0000_0000_0000_0000
  {
    Pow2At32();
    Pow2At64();
    Pow2Add(64, 32);
  }

  lemma Pow2At128()
    ensures Pow2(128) == U128_LIMIT
  {
    Pow2At64();
    Pow2Add(64, 64);
  }
}
