/**
 * `Netv6Addr`: an IPv6 network, held as a netmask and a network address, and
 * the operations the crate defines on it (construction, containment, merging,
 * ordering, rendering and parsing). The crate defines no broadcast address for it.
 */
module Netv6 {
  import opened Wrappers
  import opened Bits
  import opened Prefix
  import opened Addr
  import opened Masking
  import opened Text
  import opened Errors
  import opened Order

  /** The struct's two fields, in declaration order. */
  datatype Netv6Addr = Netv6Addr(mask: u128, addr: u128)

  /** No host bit is set in the network address; `New` only builds such values. */
  predicate Canonical(n: Netv6Addr)
  {
    MaskV6(n.addr, n.mask) == n.addr
  }

  /** `Netv6Addr::new`: keeps the mask and clears the address's host bits. */
  function New(addr: u128, mask: u128): (n: Netv6Addr)
    ensures n.mask == mask && Canonical(n)
    ensures n.addr <= addr && MaskV6(addr, mask) == n.addr
  {
    AndIdem(addr, mask);
    Netv6Addr(mask, MaskV6(addr, mask))
  }

  /** Rebuilding a network from its own fields is the identity exactly on canonical networks. */
  lemma NewFixesCanonical(n: Netv6Addr)
    ensures New(n.addr, n.mask) == n <==> Canonical(n)
  {
  }

  /** Masking the address beforehand changes nothing: `new(a & m, m) == new(a, m)`. */
  lemma NewMasked(addr: u128, mask: u128)
    ensures New(MaskV6(addr, mask), mask) == New(addr, mask)
  {
  }

  /** `From<Ipv6Addr>`: the single-address network, with the all-ones mask. */
  function FromAddr(a: u128): (n: Netv6Addr)
    ensures n.addr == a && n.mask == U128_MAX
  {
    Pow2Values();
    AndMax(a, V6_BITS);
    New(a, U128_MAX)
  }

  // ---------------------------------------------------------------------
  // Containment

  /**
   * `Contains` for another network: only the other network's base address is
   * examined, masked with this network's mask.
   */
  predicate Contains(n: Netv6Addr, other: Netv6Addr)
  {
    MaskV6(other.addr, n.mask) == n.addr
  }

  /** `Contains` for an address, which is first turned into a single-address network. */
  predicate ContainsAddr(n: Netv6Addr, a: u128)
  {
    Contains(n, FromAddr(a))
  }

  /** An address is contained exactly when masking it gives the network address. */
  lemma ContainsAddrIff(n: Netv6Addr, a: u128)
    ensures ContainsAddr(n, a) <==> MaskV6(a, n.mask) == n.addr
  {
  }

  /** Containment of a network depends only on its base address, not on its mask. */
  lemma ContainsBaseOnly(n: Netv6Addr, other: Netv6Addr)
    ensures Contains(n, other) <==> ContainsAddr(n, other.addr)
  {
  }

  /** A network contains itself exactly when it is canonical. */
  lemma ContainsSelf(n: Netv6Addr)
    ensures Contains(n, n) <==> Canonical(n)
  {
  }

  /**
   * For a canonical `/p` network the contained addresses are the `2^(128-p)`
   * consecutive addresses starting at the network address.
   */
  lemma ContainsCidrRange(n: Netv6Addr, p: nat, a: u128)
    requires p <= V6_BITS && n.mask == PrefixMask(p, V6_BITS) && Canonical(n)
    ensures ContainsAddr(n, a) <==> n.addr <= a < n.addr + Pow2(V6_BITS - p)
  {
    Pow2Values();
    PrefixRange(a, n.addr, p, V6_BITS);
  }

  /**
   * Containment is not antisymmetric: 2001:db8::/64 and 2001:db8::/32 contain
   * each other, because only base addresses are compared.
   */
  lemma ContainsNotAntisymmetric()
    ensures Contains(Netv6Addr(0xffff_ffff_ffff_ffff_0000_0000_0000_0000, 0x2001_0db8_0000_0000_0000_0000_0000_0000), Netv6Addr(0xffff_ffff_0000_0000_0000_0000_0000_0000, 0x2001_0db8_0000_0000_0000_0000_0000_0000))
    ensures Contains(Netv6Addr(0xffff_ffff_0000_0000_0000_0000_0000_0000, 0x2001_0db8_0000_0000_0000_0000_0000_0000), Netv6Addr(0xffff_ffff_ffff_ffff_0000_0000_0000_0000, 0x2001_0db8_0000_0000_0000_0000_0000_0000))
  {
    Pow2Values();
    MaskV6Prefix(0x2001_0db8_0000_0000_0000_0000_0000_0000, 0xffff_ffff_ffff_ffff_0000_0000_0000_0000, 64);
    MaskV6Prefix(0x2001_0db8_0000_0000_0000_0000_0000_0000, 0xffff_ffff_0000_0000_0000_0000_0000_0000, 32);
  }

  // ---------------------------------------------------------------------
  // Merging

  /**
   * `Merge`: networks of equal masks are compared under the mask shifted one
   * bit left, otherwise under the shorter (numerically smaller) mask; when the
   * masked addresses agree the result is the network they share.
   */
  function Merge(a: Netv6Addr, b: Netv6Addr): Option<Netv6Addr>
  {
    var m := match CmpNat(a.mask, b.mask)
      case Equal => ShlU128(a.mask, 1)
      case Less => a.mask
      case Greater => b.mask;
    if MaskV6(a.addr, m) == MaskV6(b.addr, m) then Some(New(MaskV6(a.addr, m), m)) else None
  }

  lemma MergeComm(a: Netv6Addr, b: Netv6Addr)
    ensures Merge(a, b) == Merge(b, a)
  {
  }

  /** A merged network is canonical and contains both inputs. */
  lemma MergeSound(a: Netv6Addr, b: Netv6Addr)
    requires Merge(a, b).Some?
    ensures Canonical(Merge(a, b).value)
    ensures Contains(Merge(a, b).value, a) && Contains(Merge(a, b).value, b)
  {
    var r := Merge(a, b).value;
    AndIdem(a.addr, r.mask);
  }

  /** A network nested in a canonical network with a shorter mask merges into it, in both orders. */
  lemma MergeNested(a: Netv6Addr, b: Netv6Addr)
    requires Canonical(b) && b.mask < a.mask && Contains(b, a)
    ensures Merge(a, b) == Some(b) && Merge(b, a) == Some(b)
  {
  }

  /**
   * Two `/n` networks (n >= 1) merge exactly when they lie in the same `/(n-1)`
   * network, and then give that network; a network merged with itself is
   * therefore widened by one bit.
   */
  lemma MergeSiblings(a: Netv6Addr, b: Netv6Addr, n: nat)
    requires 1 <= n <= V6_BITS && a.mask == PrefixMask(n, V6_BITS) && b.mask == a.mask
    ensures Merge(a, b).Some? <==> MaskV6(a.addr, PrefixMask(n - 1, V6_BITS)) == MaskV6(b.addr, PrefixMask(n - 1, V6_BITS))
    ensures Merge(a, b).Some? ==> Merge(a, b).value == New(a.addr, PrefixMask(n - 1, V6_BITS))
  {
    Pow2Values();
    ShlPrefixOne(n, V6_BITS);
    PrefixMaskFits(n - 1, V6_BITS);
    var m: u128 := PrefixMask(n - 1, V6_BITS);
    AndIdem(a.addr, m);
  }

  /** A `/n` network merged with itself is its enclosing `/(n-1)` network. */
  lemma MergeSelf(a: Netv6Addr, n: nat)
    requires 1 <= n <= V6_BITS && a.mask == PrefixMask(n, V6_BITS)
    ensures Merge(a, a).Some?
    ensures Merge(a, a).value.mask == PrefixMask(n - 1, V6_BITS)
    ensures Merge(a, a).value.mask != a.mask
  {
    MergeSiblings(a, a, n);
    PrefixMaskLess(n - 1, n, V6_BITS);
  }

  // ---------------------------------------------------------------------
  // Ordering

  /** `Ord::cmp`: by network address, then by mask. */
  function Cmp(a: Netv6Addr, b: Netv6Addr): Ordering
  {
    match CmpNat(a.addr, b.addr)
    case Equal => CmpNat(a.mask, b.mask)
    case ordering => ordering
  }

  /** `PartialOrd::partial_cmp`, written over `u128::partial_cmp`, which always answers. */
  function PartialCmp(a: Netv6Addr, b: Netv6Addr): Option<Ordering>
  {
    var addrOrdering: Option<Ordering> := Some(CmpNat(a.addr, b.addr));
    match addrOrdering
    case Some(Equal) => Some(CmpNat(a.mask, b.mask))
    case Some(ordering) => Some(ordering)
    case None => None
  }

  /** The comparison is the lexicographic order on (address, mask). */
  lemma CmpLexicographic(a: Netv6Addr, b: Netv6Addr)
    ensures Cmp(a, b) == Less <==> a.addr < b.addr || (a.addr == b.addr && a.mask < b.mask)
    ensures Cmp(a, b) == Equal <==> a == b
    ensures Cmp(b, a) == Cmp(a, b).Reverse()
  {
  }

  lemma CmpTransitive(a: Netv6Addr, b: Netv6Addr, c: Netv6Addr)
    requires Cmp(a, b) == Less && Cmp(b, c) == Less
    ensures Cmp(a, c) == Less
  {
    CmpLexicographic(a, b);
    CmpLexicographic(b, c);
    CmpLexicographic(a, c);
  }

  /** `partial_cmp` always agrees with `cmp`. */
  lemma PartialCmpIsCmp(a: Netv6Addr, b: Netv6Addr)
    ensures PartialCmp(a, b) == Some(Cmp(a, b))
  {
  }

  // ---------------------------------------------------------------------
  // Rendering and parsing

  /**
   * `Display`: `address/prefix-length` when the mask is the prefix mask with as
   * many ones as it has, `address/mask` otherwise.
   */
  function Display(syn: AddrSyntax, n: Netv6Addr): string
  {
    var ones := CountOnes(n.mask);
    Pow2Values();
    CountOnesFits(n.mask, V6_BITS);
    if n.mask == CidrMask(ones, V6_BITS) then syn.formatV6(n.addr) + "/" + Decimal(ones)
    else syn.formatV6(n.addr) + "/" + syn.formatV6(n.mask)
  }

  /** The mask the parser builds from a prefix length. */
  function PrefixLengthMask(c: u32): (m: u128)
    ensures m == PrefixMask(if c <= V6_BITS then c else V6_BITS, V6_BITS)
  {
    Pow2Values();
    ParsedMaskIsPrefix(c, V6_BITS);
    ParsedMask(c, V6_BITS)
  }

  /**
   * `FromStr`: split on `/` and space; the first piece is the address, the
   * second a prefix length, else a netmask, else ignored; later pieces are
   * ignored. Without a second piece the input is refused.
   */
  function Parse(syn: AddrSyntax, s: string): Result<Netv6Addr, NetAddrError>
  {
    var split := Split(s);
    var lhs := split[0];
    if |split| < 2 then Err(NetAddrError.ParseError(SPLIT_FAILURE))
    else
      var rhs := split[1];
      match (syn.parseV6(lhs), ParseU32(rhs), syn.parseV6(rhs))
      case (Ok(addr), Some(cidr), _) => Ok(New(addr, PrefixLengthMask(cidr)))
      case (Ok(addr), None, Ok(mask)) => Ok(New(addr, mask))
      case (Ok(addr), None, Err(_)) => Ok(FromAddr(addr))
      case (Err(e), _, _) => Err(NetAddrError.ParseError(e))
  }

  /** Input without `/` or space is refused with the splitting error, whatever the address syntax. */
  lemma ParseNoSeparator(syn: AddrSyntax, s: string)
    requires NoSeparator(s)
    ensures Parse(syn, s) == Err(NetAddrError.ParseError(SPLIT_FAILURE))
  {
    SplitNoSeparator(s);
  }

  /** An invalid address passes the address parser's message out. */
  lemma ParseBadAddress(syn: AddrSyntax, x: string, c: char, y: string, e: string)
    requires NoSeparator(x) && IsSeparator(c) && syn.parseV6(x) == Err(e)
    ensures Parse(syn, x + [c] + y) == Err(NetAddrError.ParseError(e))
  {
    SplitAtSeparator(x, c, y);
  }

  /**
   * The three accepted forms: a prefix length (saturating at 128), a netmask,
   * and anything else after the separator, which gives the single-address
   * network. Every result is canonical.
   */
  lemma ParseForms(syn: AddrSyntax, x: string, c: char, y: string, a: u128)
    requires NoSeparator(x) && NoSeparator(y) && IsSeparator(c) && syn.parseV6(x) == Ok(a)
    ensures ParseU32(y).Some? ==>
      Parse(syn, x + [c] + y) == Ok(New(a, PrefixLengthMask(ParseU32(y).value)))
    ensures ParseU32(y).None? && syn.parseV6(y).Ok? ==>
      Parse(syn, x + [c] + y) == Ok(New(a, syn.parseV6(y).value))
    ensures ParseU32(y).None? && syn.parseV6(y).Err? ==>
      Parse(syn, x + [c] + y) == Ok(Netv6Addr(U128_MAX, a))
  {
    SplitPair(x, c, y);
  }

  lemma ParseCanonical(syn: AddrSyntax, s: string)
    requires Parse(syn, s).Ok?
    ensures Canonical(Parse(syn, s).value)
  {
  }

  /** Only the first two pieces are read: anything after a second separator is ignored. */
  lemma ParseIgnoresRest(syn: AddrSyntax, x: string, c: char, y: string, d: char, z: string)
    requires NoSeparator(x) && NoSeparator(y) && IsSeparator(c) && IsSeparator(d)
    ensures Parse(syn, x + [c] + y + [d] + z) == Parse(syn, x + [c] + y)
  {
    SplitAtSeparator(x, c, y + [d] + z);
    SplitAtSeparator(y, d, z);
    assert x + [c] + y + [d] + z == x + [c] + (y + [d] + z);
    SplitPair(x, c, y);
  }

  /** The renderer prints a `/p` mask as `/p`. */
  lemma DisplayPrefix(syn: AddrSyntax, n: Netv6Addr, p: nat)
    requires p <= V6_BITS && n.mask == PrefixMask(p, V6_BITS)
    ensures Display(syn, n) == syn.formatV6(n.addr) + "/" + Decimal(p)
  {
    PrefixIsCidr(p, V6_BITS);
  }

  /** The renderer prints any other mask in address form. */
  lemma DisplayNonPrefix(syn: AddrSyntax, n: Netv6Addr)
    requires forall p: nat :: p <= V6_BITS ==> n.mask != PrefixMask(p, V6_BITS)
    ensures Display(syn, n) == syn.formatV6(n.addr) + "/" + syn.formatV6(n.mask)
  {
    Pow2Values();
    CountOnesFits(n.mask, V6_BITS);
    CidrMaskIsPrefix(CountOnes(n.mask), V6_BITS);
  }

  /** A network with the all-ones mask renders with the full prefix length, `/128`. */
  lemma DisplayFullMask(syn: AddrSyntax, n: Netv6Addr)
    requires n.mask == PrefixMask(V6_BITS, V6_BITS)
    ensures Display(syn, n) == syn.formatV6(n.addr) + "/128"
  {
    DisplayPrefix(syn, n, V6_BITS);
    DecimalWidths();
  }

  /** The single-address network of an address renders as that address, `/128`. */
  lemma DisplayHost(syn: AddrSyntax, a: u128)
    ensures Display(syn, FromAddr(a)) == syn.formatV6(a) + "/128"
  {
    var n := FromAddr(a);
    assert n.mask == PrefixMask(V6_BITS, V6_BITS) && n.addr == a by {
      Pow2At128();
      PrefixMaskFull(V6_BITS);
    }
    DisplayFullMask(syn, n);
  }

  /** A network with the empty mask renders as `0/0`, whatever address it was built from. */
  lemma DisplayEmptyMask(syn: AddrSyntax, a: u128)
    ensures Display(syn, New(a, 0)) == syn.formatV6(0) + "/0"
  {
    DisplayPrefix(syn, New(a, 0), 0);
    DecimalWidths();
  }

  /** Rendering and parsing again gives the network rebuilt by `New`. */
  lemma DisplayParse(syn: AddrSyntax, n: Netv6Addr)
    requires syn.Lawful()
    ensures Parse(syn, Display(syn, n)) == Ok(New(n.addr, n.mask))
  {
    Pow2Values();
    var ones := CountOnes(n.mask);
    CountOnesFits(n.mask, V6_BITS);
    var fa := syn.formatV6(n.addr);
    assert syn.parseV6(fa) == Ok(n.addr);
    assert NoSeparator(fa);
    if n.mask == CidrMask(ones, V6_BITS) {
      DecimalRoundTrip(ones);
      SplitPair(fa, '/', Decimal(ones));
      assert fa + "/" + Decimal(ones) == fa + ['/'] + Decimal(ones);
      CidrMaskIsPrefix(ones, V6_BITS);
    } else {
      var fm := syn.formatV6(n.mask);
      assert NoSeparator(fm) && ParseU32(fm).None? && syn.parseV6(fm) == Ok(n.mask);
      SplitPair(fa, '/', fm);
      assert fa + "/" + fm == fa + ['/'] + fm;
    }
  }

  /** A canonical network survives rendering and parsing unchanged. */
  lemma RoundTrip(syn: AddrSyntax, n: Netv6Addr)
    requires syn.Lawful() && Canonical(n)
    ensures Parse(syn, Display(syn, n)) == Ok(n)
  {
    DisplayParse(syn, n);
  }

  // ---------------------------------------------------------------------
  // Examples from the crate's documentation and tests

  /** 2001:db8:dead:beef::1 under the /32 mask gives 2001:db8::. */
  lemma NewAt32()
    ensures PrefixMask(32, V6_BITS) == 0xffff_ffff_0000_0000_0000_0000_0000_0000
    ensures New(0x2001_0db8_dead_beef_0000_0000_0000_0001, 0xffff_ffff_0000_0000_0000_0000_0000_0000)
         == Netv6Addr(0xffff_ffff_0000_0000_0000_0000_0000_0000, 0x2001_0db8_0000_0000_0000_0000_0000_0000)
  {
    assert PrefixMask(32, V6_BITS) == 0xffff_ffff_0000_0000_0000_0000_0000_0000 by {
      Pow2At96();
      Pow2At128();
    }
    var a, low := 0x2001_0db8_dead_beef_0000_0000_0000_0001, Pow2(V6_BITS - 32);
    assert low == 0x1_0000_0000_0000_0000_0000_0000 by { Pow2At96(); }
    assert a % low == 0xdead_beef_0000_0000_0000_0001 by {
      DivModUnique(a, low, 0x2001_0db8, 0xdead_beef_0000_0000_0000_0001);
    }
    MaskV6Prefix(a, 0xffff_ffff_0000_0000_0000_0000_0000_0000, 32);
  }

  /** 2001:db8:dead:beef::1/32 parses to 2001:db8:: with mask ffff:ffff::. */
  lemma ParsePrefixExample(syn: AddrSyntax)
    requires syn.parseV6("2001:db8:dead:beef::1") == Ok(0x2001_0db8_dead_beef_0000_0000_0000_0001)
    ensures Parse(syn, "2001:db8:dead:beef::1/32")
         == Ok(Netv6Addr(0xffff_ffff_0000_0000_0000_0000_0000_0000, 0x2001_0db8_0000_0000_0000_0000_0000_0000))
  {
    var a := "2001:db8:dead:beef::1";
    assert "2001:db8:dead:beef::1/32" == a + ['/'] + "32";
    assert NoSeparator(a);
    assert ParseU32("32") == Some(32) by { ParseU32Examples(); }
    NewAt32();
    ParseForms(syn, a, '/', "32", 0x2001_0db8_dead_beef_0000_0000_0000_0001);
  }

  lemma Pow2Of112()
    ensures Pow2(112) == 0x1_0000_0000_0000_0000_0000_0000_0000
  {
    Pow2Values();
    Pow2Add(96, 16);
  }

  lemma Pow2Of65()
    ensures Pow2(65) == 0x2_0000_0000_0000_0000
  {
    Pow2Values();
    Pow2Add(64, 1);
  }

  /** ff02::1 masked with ffff:: is ff02::. */
  lemma MaskFf02()
    ensures MaskV6(0xff02_0000_0000_0000_0000_0000_0000_0001, 0xffff_0000_0000_0000_0000_0000_0000_0000)
         == 0xff02_0000_0000_0000_0000_0000_0000_0000
  {
    Pow2Of112();
    assert PrefixMask(16, V6_BITS) == 0xffff_0000_0000_0000_0000_0000_0000_0000 by {
      Pow2Values();
    }
    MaskV6Prefix(0xff02_0000_0000_0000_0000_0000_0000_0001, 0xffff_0000_0000_0000_0000_0000_0000_0000, 16);
  }

  /** ff02::1 ffff::0 parses to ff02:: with mask ffff::. */
  lemma ParseMaskExample(syn: AddrSyntax)
    requires syn.parseV6("ff02::1") == Ok(0xff02_0000_0000_0000_0000_0000_0000_0001)
    requires syn.parseV6("ffff::0") == Ok(0xffff_0000_0000_0000_0000_0000_0000_0000)
    ensures Parse(syn, "ff02::1 ffff::0")
         == Ok(Netv6Addr(0xffff_0000_0000_0000_0000_0000_0000_0000, 0xff02_0000_0000_0000_0000_0000_0000_0000))
  {
    var a := "ff02::1";
    assert NoSeparator(a);
    assert "ff02::1 ffff::0" == a + [' '] + "ffff::0";
    ParseU32Rejects("ffff::0", 0);
    ParseForms(syn, a, ' ', "ffff::0", 0xff02_0000_0000_0000_0000_0000_0000_0001);
    MaskFf02();
  }

  /** ff02::1/zoop parses as the single-address network ff02::1/128. */
  lemma ParseHostExample(syn: AddrSyntax)
    requires syn.parseV6("ff02::1") == Ok(0xff02_0000_0000_0000_0000_0000_0000_0001) && syn.parseV6("zoop").Err?
    ensures Parse(syn, "ff02::1/zoop") == Ok(Netv6Addr(U128_MAX, 0xff02_0000_0000_0000_0000_0000_0000_0001))
  {
    var h := "ff02::1";
    assert "ff02::1/zoop" == h + ['/'] + "zoop";
    assert NoSeparator(h);
    ParseU32Rejects("zoop", 0);
    ParseForms(syn, h, '/', "zoop", 0xff02_0000_0000_0000_0000_0000_0000_0001);
  }

  /** ff02::1/128 parses to the same network as ff02::1/zoop. */
  lemma ParseFullPrefixExample(syn: AddrSyntax)
    requires syn.parseV6("ff02::1") == Ok(0xff02_0000_0000_0000_0000_0000_0000_0001)
    ensures Parse(syn, "ff02::1/128") == Ok(Netv6Addr(U128_MAX, 0xff02_0000_0000_0000_0000_0000_0000_0001))
  {
    var h, a := "ff02::1", 0xff02_0000_0000_0000_0000_0000_0000_0001;
    assert "ff02::1/128" == h + ['/'] + "128";
    assert NoSeparator(h);
    assert ParseU32("128") == Some(128) by { ParseU32Examples(); }
    assert PrefixLengthMask(128) == U128_MAX by { Pow2At128(); }
    assert New(a, U128_MAX) == Netv6Addr(U128_MAX, a) by { FullMaskHost(a); }
    ParseForms(syn, h, '/', "128", a);
  }

  /** The all-ones mask keeps every address as it is. */
  lemma FullMaskHost(a: u128)
    ensures New(a, U128_MAX) == Netv6Addr(U128_MAX, a)
  {
    Pow2At128();
    AndMax(a, V6_BITS);
  }

  /** zoop is refused with the splitting error. */
  lemma ParseSplitExample(syn: AddrSyntax)
    ensures Parse(syn, "zoop") == Err(NetAddrError.ParseError(SPLIT_FAILURE))
  {
    assert NoSeparator("zoop");
    ParseNoSeparator(syn, "zoop");
  }

  lemma Prefix63()
    ensures PrefixMask(64, V6_BITS) == 0xffff_ffff_ffff_ffff_0000_0000_0000_0000
    ensures PrefixMask(63, V6_BITS) == 0xffff_ffff_ffff_fffe_0000_0000_0000_0000
  {
    Pow2Values();
    Pow2Of65();
  }

  /** Under the /63 mask, ...beef:: and ...beee:: share a network and ...beed:: does not. */
  lemma Masks63()
    ensures MaskV6(0x2001_0db8_dead_beef_0000_0000_0000_0000, 0xffff_ffff_ffff_fffe_0000_0000_0000_0000)
         == 0x2001_0db8_dead_beee_0000_0000_0000_0000
    ensures MaskV6(0x2001_0db8_dead_beee_0000_0000_0000_0000, 0xffff_ffff_ffff_fffe_0000_0000_0000_0000)
         == 0x2001_0db8_dead_beee_0000_0000_0000_0000
    ensures MaskV6(0x2001_0db8_dead_beed_0000_0000_0000_0000, 0xffff_ffff_ffff_fffe_0000_0000_0000_0000)
         == 0x2001_0db8_dead_beec_0000_0000_0000_0000
    ensures PrefixMask(64, V6_BITS) == 0xffff_ffff_ffff_ffff_0000_0000_0000_0000
    ensures PrefixMask(63, V6_BITS) == 0xffff_ffff_ffff_fffe_0000_0000_0000_0000
  {
    Prefix63();
    Pow2Of65();
    var m63: u128 := 0xffff_ffff_ffff_fffe_0000_0000_0000_0000;
    MaskV6Prefix(0x2001_0db8_dead_beef_0000_0000_0000_0000, m63, 63);
    MaskV6Prefix(0x2001_0db8_dead_beee_0000_0000_0000_0000, m63, 63);
    MaskV6Prefix(0x2001_0db8_dead_beed_0000_0000_0000_0000, m63, 63);
  }

  /** 2001:db8:dead:beef::/64 and 2001:db8:dead:beee::/64 merge to 2001:db8:dead:beee::/63. */
  lemma MergeSiblingsExample()
    ensures Merge(Netv6Addr(0xffff_ffff_ffff_ffff_0000_0000_0000_0000, 0x2001_0db8_dead_beef_0000_0000_0000_0000),
                  Netv6Addr(0xffff_ffff_ffff_ffff_0000_0000_0000_0000, 0x2001_0db8_dead_beee_0000_0000_0000_0000))
         == Some(Netv6Addr(0xffff_ffff_ffff_fffe_0000_0000_0000_0000, 0x2001_0db8_dead_beee_0000_0000_0000_0000))
  {
    Masks63();
    var m64: u128 := 0xffff_ffff_ffff_ffff_0000_0000_0000_0000;
    MergeSiblings(Netv6Addr(m64, 0x2001_0db8_dead_beef_0000_0000_0000_0000), Netv6Addr(m64, 0x2001_0db8_dead_beee_0000_0000_0000_0000), 64);
  }

  /** 2001:db8:dead:beee::/64 and 2001:db8:dead:beed::/64 are adjacent but do not merge. */
  lemma MergeAdjacentExample()
    ensures Merge(Netv6Addr(0xffff_ffff_ffff_ffff_0000_0000_0000_0000, 0x2001_0db8_dead_beee_0000_0000_0000_0000),
                  Netv6Addr(0xffff_ffff_ffff_ffff_0000_0000_0000_0000, 0x2001_0db8_dead_beed_0000_0000_0000_0000))
         == None
  {
    Masks63();
    var m64: u128 := 0xffff_ffff_ffff_ffff_0000_0000_0000_0000;
    MergeSiblings(Netv6Addr(m64, 0x2001_0db8_dead_beee_0000_0000_0000_0000), Netv6Addr(m64, 0x2001_0db8_dead_beed_0000_0000_0000_0000), 64);
  }

  /** 2001:db8:dead:beee::/63 absorbs 2001:db8:dead:beef::/64. */
  lemma MergeNestedExample()
    ensures Merge(Netv6Addr(0xffff_ffff_ffff_fffe_0000_0000_0000_0000, 0x2001_0db8_dead_beee_0000_0000_0000_0000),
                  Netv6Addr(0xffff_ffff_ffff_ffff_0000_0000_0000_0000, 0x2001_0db8_dead_beef_0000_0000_0000_0000))
         == Some(Netv6Addr(0xffff_ffff_ffff_fffe_0000_0000_0000_0000, 0x2001_0db8_dead_beee_0000_0000_0000_0000))
  {
    Masks63();
    MergeNested(Netv6Addr(0xffff_ffff_ffff_ffff_0000_0000_0000_0000, 0x2001_0db8_dead_beef_0000_0000_0000_0000),
                Netv6Addr(0xffff_ffff_ffff_fffe_0000_0000_0000_0000, 0x2001_0db8_dead_beee_0000_0000_0000_0000));
  }

  /**
   * 2001:db8::/64 < 2001:db8:0:1::/64, 2001:db8::/63 < 2001:db8::/64,
   * ff02::1/16 > 2001:db8:0:1::/64, and 2001:db8:dead:beef::/64 equals itself.
   */
  lemma CmpExamples()
    ensures Cmp(Netv6Addr(0xffff_ffff_ffff_ffff_0000_0000_0000_0000, 0x2001_0db8_0000_0000_0000_0000_0000_0000),
                Netv6Addr(0xffff_ffff_ffff_ffff_0000_0000_0000_0000, 0x2001_0db8_0000_0001_0000_0000_0000_0000)) == Less
    ensures Cmp(Netv6Addr(0xffff_ffff_ffff_fffe_0000_0000_0000_0000, 0x2001_0db8_0000_0000_0000_0000_0000_0000),
                Netv6Addr(0xffff_ffff_ffff_ffff_0000_0000_0000_0000, 0x2001_0db8_0000_0000_0000_0000_0000_0000)) == Less
    ensures Cmp(New(0xff02_0000_0000_0000_0000_0000_0000_0001, 0xffff_0000_0000_0000_0000_0000_0000_0000),
                Netv6Addr(0xffff_ffff_ffff_ffff_0000_0000_0000_0000, 0x2001_0db8_0000_0001_0000_0000_0000_0000)) == Greater
    ensures Cmp(Netv6Addr(0xffff_ffff_ffff_ffff_0000_0000_0000_0000, 0x2001_0db8_dead_beef_0000_0000_0000_0000),
                Netv6Addr(0xffff_ffff_ffff_ffff_0000_0000_0000_0000, 0x2001_0db8_dead_beef_0000_0000_0000_0000)) == Equal
  {
    MaskFf02();
  }
}
