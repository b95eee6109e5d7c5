/**
 * The crate's test helpers that build expected values: the netmask of a given
 * prefix length, and the triple (text, network address, netmask) that a
 * randomly drawn network is checked against. The random address and prefix
 * length are parameters here.
 */
module TestUtil {
  import opened Wrappers
  import opened Bits
  import opened Prefix
  import opened Addr
  import opened Masking
  import opened Text
  import Netv4
  import Netv6

  /**
   * `gen_v4_mask`: `u32::MAX` shifted left by `32 - n`, or zero when that
   * shift is the whole width. This is the formula the renderer uses to
   * recognise a prefix mask. `32 - n` underflows when `n` exceeds 32.
   */
  function GenV4Mask(n: nat): (r: u32)
    requires n <= V4_BITS
    ensures r == PrefixMask(n, V4_BITS)
    ensures n == 0 ==> r == 0
    ensures IsCidr(r, V4_BITS) && CountOnes(r) == n
  {
    Pow2At32();
    PrefixMaskFits(n, V4_BITS);
    CidrMaskIsPrefix(n, V4_BITS);
    PrefixIsCidr(n, V4_BITS);
    CidrMask(n, V4_BITS)
  }

  /** `gen_v6_mask`: the 128-bit counterpart of `gen_v4_mask`. */
  function GenV6Mask(n: nat): (r: u128)
    requires n <= V6_BITS
    ensures r == PrefixMask(n, V6_BITS)
    ensures n == 0 ==> r == 0
    ensures IsCidr(r, V6_BITS) && CountOnes(r) == n
  {
    Pow2At128();
    PrefixMaskFits(n, V6_BITS);
    CidrMaskIsPrefix(n, V6_BITS);
    PrefixIsCidr(n, V6_BITS);
    CidrMask(n, V6_BITS)
  }

  /** `rnd_v4_cidr` for a drawn address and prefix length: `"addr/ones"`, the masked address and the mask. */
  function V4Cidr(syn: AddrSyntax, addr: u32, ones: nat): (string, u32, u32)
    requires ones <= V4_BITS
  {
    var mask := GenV4Mask(ones);
    (syn.formatV4(addr) + "/" + Decimal(ones), MaskV4(addr, mask), mask)
  }

  /** `rnd_v6_cidr` for a drawn address and prefix length. */
  function V6Cidr(syn: AddrSyntax, addr: u128, ones: nat): (string, u128, u128)
    requires ones <= V6_BITS
  {
    var mask := GenV6Mask(ones);
    (syn.formatV6(addr) + "/" + Decimal(ones), MaskV6(addr, mask), mask)
  }

  /**
   * The expected triple agrees with the parser: the text parses to the network
   * whose mask and address are the other two components.
   */
  lemma V4CidrParses(syn: AddrSyntax, addr: u32, ones: nat)
    requires ones <= V4_BITS
    requires syn.parseV4(syn.formatV4(addr)) == Ok(addr) && NoSeparator(syn.formatV4(addr))
    ensures Netv4.Parse(syn, V4Cidr(syn, addr, ones).0)
         == Ok(Netv4.Netv4Addr(V4Cidr(syn, addr, ones).2, V4Cidr(syn, addr, ones).1))
  {
    var fa := syn.formatV4(addr);
    DecimalRoundTrip(ones);
    assert fa + "/" + Decimal(ones) == fa + ['/'] + Decimal(ones);
    Netv4.ParseForms(syn, fa, '/', Decimal(ones), addr);
  }

  /** The IPv6 counterpart of `V4CidrParses`. */
  lemma V6CidrParses(syn: AddrSyntax, addr: u128, ones: nat)
    requires ones <= V6_BITS
    requires syn.parseV6(syn.formatV6(addr)) == Ok(addr) && NoSeparator(syn.formatV6(addr))
    ensures Netv6.Parse(syn, V6Cidr(syn, addr, ones).0)
         == Ok(Netv6.Netv6Addr(V6Cidr(syn, addr, ones).2, V6Cidr(syn, addr, ones).1))
  {
    var fa := syn.formatV6(addr);
    assert ones < U32_LIMIT by { Pow2At32(); }
    DecimalRoundTrip(ones);
    assert fa + "/" + Decimal(ones) == fa + ['/'] + Decimal(ones);
    Netv6.ParseForms(syn, fa, '/', Decimal(ones), addr);
  }
}
