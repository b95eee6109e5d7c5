/**
 * The `Mask` operation: bitwise AND of an address with a netmask, per family,
 * and for `IpAddr` only when both sides belong to the same family.
 */
module Masking {
  import opened Wrappers
  import opened Bits
  import opened Addr

  const MISMATCHED: string := "mismatched address types"

  /** `Ipv4Addr::mask`: the AND of the two words. */
  function MaskV4(a: u32, m: u32): (r: u32)
    ensures r <= a && r <= m
  {
    AndLe(a, m);
    And(a, m)
  }

  /** `Ipv6Addr::mask`: the AND of the two words. */
  function MaskV6(a: u128, m: u128): (r: u128)
    ensures r <= a && r <= m
  {
    AndLe(a, m);
    And(a, m)
  }

  /** `IpAddr::mask`: masks within one family, refuses to mix families. */
  function MaskIp(a: IpAddr, m: IpAddr): (r: Result<IpAddr, string>)
    ensures r.Ok? <==> a.SameFamily(m)
    ensures r.Err? ==> r.error == MISMATCHED
    ensures r.Ok? ==> r.value.SameFamily(a) && r.value.Value() == And(a.Value(), m.Value())
  {
    match (a, m)
    case (V4(x), V4(y)) => Ok(V4(MaskV4(x, y)))
    case (V6(x), V6(y)) => Ok(V6(MaskV6(x, y)))
    case _ => Err(MISMATCHED)
  }

  /** Masking is symmetric in its two arguments, in both families and in the error case. */
  lemma MaskIpComm(a: IpAddr, m: IpAddr)
    ensures MaskIp(a, m) == MaskIp(m, a)
  {
    AndComm(a.Value(), m.Value());
  }

  /** Masking twice with the same mask changes nothing more. */
  lemma MaskIpIdem(a: IpAddr, m: IpAddr)
    requires a.SameFamily(m)
    ensures MaskIp(MaskIp(a, m).value, m) == MaskIp(a, m)
  {
    AndIdem(a.Value(), m.Value());
  }

  /** The all-ones mask of an address's family leaves the address unchanged. */
  lemma MaskIpAllOnes(a: IpAddr)
    ensures MaskIp(a, WithValue(a, Max(a.Bits()))) == Ok(a)
  {
    AndMax(a.Value(), a.Bits());
    IpAddrEq(MaskIp(a, WithValue(a, Max(a.Bits()))).value, a);
  }

  /** Masking with a `/p` netmask clears exactly the host bits. */
  lemma MaskV4Prefix(a: u32, m: u32, p: nat)
    requires p <= V4_BITS && m == PrefixMask(p, V4_BITS)
    ensures MaskV4(a, m) == a - a % Pow2(V4_BITS - p)
  {
    Pow2Values();
    AndPrefix(a, p, V4_BITS);
  }

  /** An address split into an aligned network part and a host part masks to the network part. */
  lemma MaskV4Split(m: u32, p: nat, d: nat, k: nat, hi: nat, lo: nat)
    requires p <= V4_BITS && m == PrefixMask(p, V4_BITS) && d == Pow2(V4_BITS - p)
    requires hi == k * d && lo < d && hi + lo < U32_LIMIT
    ensures MaskV4(hi + lo, m) == hi
  {
    MaskV4Prefix(hi + lo, m, p);
    DivModUnique(hi + lo, d, k, lo);
  }

  lemma MaskV6Prefix(a: u128, m: u128, p: nat)
    requires p <= V6_BITS && m == PrefixMask(p, V6_BITS)
    ensures MaskV6(a, m) == a - a % Pow2(V6_BITS - p)
  {
    Pow2Values();
    AndPrefix(a, p, V6_BITS);
  }

  /**
   * 192.0.2.1 & 255.255.255.0 == 192.0.2.0 and
   * 2001:db8::dead:beef & ffff:ffff:: == 2001:db8::, in either order,
   * and an IPv4 address masked with an IPv6 mask is refused.
   */
  lemma MaskExamples()
    ensures MaskV4(0xC000_0201, 0xFFFF_FF00) == 0xC000_0200
    ensures MaskV6(0x2001_0db8_0000_0000_0000_0000_dead_beef, 0xffff_ffff_0000_0000_0000_0000_0000_0000)
         == 0x2001_0db8_0000_0000_0000_0000_0000_0000
    ensures MaskIp(V4(0xC000_0201), V4(0xFFFF_FF00)) == MaskIp(V4(0xFFFF_FF00), V4(0xC000_0201))
    ensures MaskIp(V4(0xC000_0200), V6(0xffff_ffff_0000_0000_0000_0000_0000_0000)) == Err(MISMATCHED)
  {
    Pow2Values();
    assert PrefixMask(24, V4_BITS) == 0xFFFF_FF00;
    MaskV4Prefix(0xC000_0201, 0xFFFF_FF00, 24);
    assert PrefixMask(32, V6_BITS) == 0xffff_ffff_0000_0000_0000_0000_0000_0000;
    MaskV6Prefix(0x2001_0db8_0000_0000_0000_0000_dead_beef, 0xffff_ffff_0000_0000_0000_0000_0000_0000, 32);
    MaskIpComm(V4(0xC000_0201), V4(0xFFFF_FF00));
  }
}
