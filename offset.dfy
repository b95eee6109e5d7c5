/**
 * `Offset`: moving an address forwards or backwards by a count, with checked
 * arithmetic, so that stepping past either end of the address space gives
 * `None` instead of wrapping around. One function per implementation, by
 * address family and by the type of the count.
 */
module Offsets {
  import opened Wrappers
  import opened Bits
  import opened Addr

  const I32_MIN: int := -0x8000_0000
  const I32_MAX: int := 0x7FFF_FFFF
  const I64_MIN: int := -0x8000_0000_0000_0000
  const I64_MAX: int := 0x7FFF_FFFF_FFFF_FFFF

  type i32 = x: int | I32_MIN <= x <= I32_MAX

  /** The address `k` places after `a` in a space of `limit` addresses, if there is one. */
  predicate InSpace(a: nat, k: int, limit: nat)
  {
    0 <= a + k < limit
  }

  // ---------------------------------------------------------------------
  // Ipv6Addr

  /** `Offset<u128> for Ipv6Addr`: a checked 128-bit add. */
  function V6ByU128(a: u128, k: u128): (r: Option<u128>)
    ensures r.Some? <==> InSpace(a, k, U128_LIMIT)
    ensures r.Some? ==> r.value == a + k
  {
    Pow2At128();
    match CheckedAdd(a, k, V6_BITS)
    case Some(s) => Some(s)
    case None => None
  }

  /**
   * `Offset<i32> for Ipv6Addr`: the absolute value of the count is added to or
   * subtracted from the address, depending on its sign, with checked 128-bit
   * arithmetic. `i32::abs` overflows on `i32::MIN`, so that count is excluded.
   */
  function V6ByI32(a: u128, k: i32): (r: Option<u128>)
    requires k != I32_MIN
    ensures r.Some? <==> InSpace(a, k, U128_LIMIT)
    ensures r.Some? ==> r.value == a + k
  {
    Pow2At128();
    var abs: nat := if k < 0 then -k else k;
    var moved := if k >= 0 then CheckedAdd(a, abs, V6_BITS) else CheckedSub(a, abs);
    match moved
    case Some(s) => Some(s)
    case None => None
  }

  /** `Offset<u32> for Ipv6Addr`: the count is widened to 128 bits and added with a check. */
  function V6ByU32(a: u128, k: u32): (r: Option<u128>)
    ensures r.Some? <==> InSpace(a, k, U128_LIMIT)
    ensures r.Some? ==> r.value == a + k
  {
    Pow2At128();
    V6ByU128(a, k)
  }

  // ---------------------------------------------------------------------
  // Ipv4Addr

  /** `Offset<u32> for Ipv4Addr`: a checked 32-bit add. */
  function V4ByU32(a: u32, k: u32): (r: Option<u32>)
    ensures r.Some? <==> InSpace(a, k, U32_LIMIT)
    ensures r.Some? ==> r.value == a + k
  {
    Pow2At32();
    match CheckedAdd(a, k, V4_BITS)
    case Some(s) => Some(s)
    case None => None
  }

  /** `TryInto<u32>` from a wider signed integer. */
  function TryIntoU32(x: int): (r: Option<u32>)
    ensures r.Some? <==> 0 <= x < U32_LIMIT
    ensures r.Some? ==> r.value == x
  {
    if 0 <= x < U32_LIMIT then Some(x) else None
  }

  /**
   * `Offset<i32> for Ipv4Addr`: address and count are widened to `i64`, added
   * with a check (one that cannot fail at these magnitudes), and the sum is
   * narrowed back to `u32` if it fits.
   */
  function V4ByI32(a: u32, k: i32): (r: Option<u32>)
    ensures r.Some? <==> InSpace(a, k, U32_LIMIT)
    ensures r.Some? ==> r.value == a + k
  {
    var sum := a + k;
    if I64_MIN <= sum <= I64_MAX then TryIntoU32(sum) else None
  }

  /**
   * `Offset<u128> for Ipv4Addr`: a count that does not fit in `u32` gives
   * `None`; otherwise a checked 32-bit add.
   */
  function V4ByU128(a: u32, k: u128): (r: Option<u32>)
    ensures r.Some? <==> InSpace(a, k, U32_LIMIT)
    ensures r.Some? ==> r.value == a + k
  {
    match TryIntoU32(k)
    case None => None
    case Some(small) => V4ByU32(a, small)
  }

  // ---------------------------------------------------------------------
  // IpAddr

  /** `Offset<i32> for IpAddr`: dispatches on the family and keeps it. */
  function IpByI32(a: IpAddr, k: i32): (r: Option<IpAddr>)
    requires a.V6? ==> k != I32_MIN
    ensures r.Some? <==> InSpace(a.Value(), k, Pow2(a.Bits()))
    ensures r.Some? ==> r.value.SameFamily(a) && r.value.Value() == a.Value() + k
  {
    Pow2At32();
    Pow2At128();
    match a
    case V4(x) => (match V4ByI32(x, k) case Some(y) => Some(V4(y)) case None => None)
    case V6(x) => (match V6ByI32(x, k) case Some(y) => Some(V6(y)) case None => None)
  }

  /** `Offset<u32> for IpAddr`: dispatches on the family and keeps it. */
  function IpByU32(a: IpAddr, k: u32): (r: Option<IpAddr>)
    ensures r.Some? <==> InSpace(a.Value(), k, Pow2(a.Bits()))
    ensures r.Some? ==> r.value.SameFamily(a) && r.value.Value() == a.Value() + k
  {
    Pow2At32();
    Pow2At128();
    match a
    case V4(x) => (match V4ByU32(x, k) case Some(y) => Some(V4(y)) case None => None)
    case V6(x) => (match V6ByU32(x, k) case Some(y) => Some(V6(y)) case None => None)
  }

  /** `Offset<u128> for IpAddr`: dispatches on the family and keeps it. */
  function IpByU128(a: IpAddr, k: u128): (r: Option<IpAddr>)
    ensures r.Some? <==> InSpace(a.Value(), k, Pow2(a.Bits()))
    ensures r.Some? ==> r.value.SameFamily(a) && r.value.Value() == a.Value() + k
  {
    Pow2At32();
    Pow2At128();
    match a
    case V4(x) => (match V4ByU128(x, k) case Some(y) => Some(V4(y)) case None => None)
    case V6(x) => (match V6ByU128(x, k) case Some(y) => Some(V6(y)) case None => None)
  }

  /**
   * `MaybeNext<u32>`, which the address iterator steps with: a checked offset
   * by the given count, `None` past the end of the family's address space.
   */
  function MaybeNext(a: IpAddr, k: u32): Option<IpAddr>
  {
    IpByU32(a, k)
  }

  // ---------------------------------------------------------------------
  // Properties

  /** An offset of zero is the identity, for every family and count type. */
  lemma OffsetZero(a: IpAddr)
    ensures IpByI32(a, 0) == Some(a)
    ensures IpByU32(a, 0) == Some(a)
    ensures IpByU128(a, 0) == Some(a)
  {
  }

  /** The three count types agree wherever the count is representable in each. */
  lemma OffsetTypesAgree(a: IpAddr, k: nat)
    requires k <= I32_MAX
    ensures IpByI32(a, k) == IpByU32(a, k) == IpByU128(a, k)
  {
    Pow2At32();
    Pow2At128();
  }

  /** A `u128` count too large for `u32` never moves an IPv4 address. */
  lemma V4LargeCountFails(a: u32, k: u128)
    requires k >= U32_LIMIT
    ensures V4ByU128(a, k).None?
  {
  }

  /** Stepping back by the same count undoes a step. */
  lemma OffsetInverse(a: IpAddr, k: i32, b: IpAddr)
    requires k != I32_MIN
    requires IpByI32(a, k) == Some(b)
    ensures IpByI32(b, -k) == Some(a)
  {
  }

  /** Two steps compose into one, whenever the intermediate and final addresses exist. */
  lemma OffsetCompose(a: IpAddr, j: u32, k: u32, b: IpAddr)
    requires IpByU32(a, j) == Some(b)
    requires j + k < U32_LIMIT
    ensures IpByU32(b, k) == IpByU32(a, j + k)
  {
    var sum: u32 := j + k;
    var r1 := IpByU32(b, k);
    var r2 := IpByU32(a, sum);
    assert r1.Some? <==> r2.Some?;
    if r1.Some? {
      assert r1.value.SameFamily(r2.value);
      assert r1.value.Value() == r2.value.Value();
    }
  }

  /**
   * 127.0.0.0 + 0, 1 and 2; 127.0.0.0 - 1 == 126.255.255.255; 0.0.0.0 - 1 and
   * 255.255.255.255 + 1 do not exist.
   */
  lemma V4Examples()
    ensures V4ByU32(0x7F00_0000, 0) == Some(0x7F00_0000)
    ensures V4ByU32(0x7F00_0000, 1) == Some(0x7F00_0001)
    ensures V4ByI32(0x7F00_0000, 2) == Some(0x7F00_0002)
    ensures V4ByI32(0x7F00_0000, -1) == Some(0x7EFF_FFFF)
    ensures V4ByI32(0, -1) == None
    ensures V4ByI32(0xFFFF_FFFF, 1) == None
    ensures V4ByU32(0xFFFF_FFFF, 1) == None
  {
  }

  /**
   * 2001:db8:: + 0, 1 and 2; 2001:db8:: - 1 == 2001:db7:ffff:ffff:ffff:ffff:ffff:ffff;
   * :: - 1 and ffff:ffff:ffff:ffff:ffff:ffff:ffff:ffff + 1 do not exist.
   */
  lemma V6Examples()
    ensures V6ByU32(0x2001_0db8_0000_0000_0000_0000_0000_0000, 0) == Some(0x2001_0db8_0000_0000_0000_0000_0000_0000)
    ensures V6ByU32(0x2001_0db8_0000_0000_0000_0000_0000_0000, 1) == Some(0x2001_0db8_0000_0000_0000_0000_0000_0001)
    ensures V6ByI32(0x2001_0db8_0000_0000_0000_0000_0000_0000, 2) == Some(0x2001_0db8_0000_0000_0000_0000_0000_0002)
    ensures V6ByI32(0x2001_0db8_0000_0000_0000_0000_0000_0000, -1)
         == Some(0x2001_0db7_ffff_ffff_ffff_ffff_ffff_ffff)
    ensures V6ByI32(0, -1) == None
    ensures V6ByI32(U128_MAX, 1) == None
  {
  }
}
