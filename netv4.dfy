/**
 * `Netv4Addr`: an IPv4 network, held as a netmask and a network address, and
 * the operations the crate defines on it (construction, containment, merging,
 * the broadcast address, ordering, rendering and parsing).
 */
module Netv4 {
  import opened Wrappers
  import opened Bits
  import opened Prefix
  import opened Addr
  import opened Masking
  import opened Text
  import opened Errors
  import opened Order

  /** The struct's two fields, in declaration order. */
  datatype Netv4Addr = Netv4Addr(mask: u32, addr: u32)

  /** No host bit is set in the network address; `New` only builds such values. */
  predicate Canonical(n: Netv4Addr)
  {
    MaskV4(n.addr, n.mask) == n.addr
  }

  /** `Netv4Addr::new`: keeps the mask and clears the address's host bits. */
  function New(addr: u32, mask: u32): (n: Netv4Addr)
    ensures n.mask == mask && Canonical(n)
    ensures n.addr <= addr && MaskV4(addr, mask) == n.addr
  {
    AndIdem(addr, mask);
    Netv4Addr(mask, MaskV4(addr, mask))
  }

  /** Rebuilding a network from its own fields is the identity exactly on canonical networks. */
  lemma NewFixesCanonical(n: Netv4Addr)
    ensures New(n.addr, n.mask) == n <==> Canonical(n)
  {
  }

  /** Masking the address beforehand changes nothing: `new(a & m, m) == new(a, m)`. */
  lemma NewMasked(addr: u32, mask: u32)
    ensures New(MaskV4(addr, mask), mask) == New(addr, mask)
  {
  }

  /** `From<Ipv4Addr>`: the single-address network, with the all-ones mask. */
  function FromAddr(a: u32): (n: Netv4Addr)
    ensures n.addr == a && n.mask == U32_MAX
  {
    Pow2ValuesV4();
    AndMax(a, V4_BITS);
    New(a, U32_MAX)
  }

  // ---------------------------------------------------------------------
  // Containment

  /**
   * `Contains` for another network: only the other network's base address is
   * examined, masked with this network's mask.
   */
  predicate Contains(n: Netv4Addr, other: Netv4Addr)
  {
    MaskV4(other.addr, n.mask) == n.addr
  }

  /** `Contains` for an address, which is first turned into a single-address network. */
  predicate ContainsAddr(n: Netv4Addr, a: u32)
  {
    Contains(n, FromAddr(a))
  }

  /** An address is contained exactly when masking it gives the network address. */
  lemma ContainsAddrIff(n: Netv4Addr, a: u32)
    ensures ContainsAddr(n, a) <==> MaskV4(a, n.mask) == n.addr
  {
  }

  /** Containment of a network depends only on its base address, not on its mask. */
  lemma ContainsBaseOnly(n: Netv4Addr, other: Netv4Addr)
    ensures Contains(n, other) <==> ContainsAddr(n, other.addr)
  {
  }

  /** A network contains itself exactly when it is canonical. */
  lemma ContainsSelf(n: Netv4Addr)
    ensures Contains(n, n) <==> Canonical(n)
  {
  }

  /**
   * For a canonical `/p` network the contained addresses are the `2^(32-p)`
   * consecutive addresses starting at the network address.
   */
  lemma ContainsCidrRange(n: Netv4Addr, p: nat, a: u32)
    requires p <= V4_BITS && n.mask == PrefixMask(p, V4_BITS) && Canonical(n)
    ensures ContainsAddr(n, a) <==> n.addr <= a < n.addr + Pow2(V4_BITS - p)
  {
    Pow2ValuesV4();
    PrefixRange(a, n.addr, p, V4_BITS);
  }

  /**
   * Containment is not antisymmetric: 10.0.0.0/24 and 10.0.0.0/8 contain each
   * other, because only base addresses are compared.
   */
  lemma ContainsNotAntisymmetric()
    ensures Contains(Netv4Addr(0xFFFF_FF00, 0x0A00_0000), Netv4Addr(0xFF00_0000, 0x0A00_0000))
    ensures Contains(Netv4Addr(0xFF00_0000, 0x0A00_0000), Netv4Addr(0xFFFF_FF00, 0x0A00_0000))
  {
    Pow2ValuesV4();
    MaskV4Prefix(0x0A00_0000, 0xFFFF_FF00, 24);
    MaskV4Prefix(0x0A00_0000, 0xFF00_0000, 8);
  }

  // ---------------------------------------------------------------------
  // Merging

  /**
   * `Merge`: networks of equal masks are compared under the mask shifted one
   * bit left, otherwise under the shorter (numerically smaller) mask; when the
   * masked addresses agree the result is the network they share.
   */
  function Merge(a: Netv4Addr, b: Netv4Addr): Option<Netv4Addr>
  {
    var m := match CmpNat(a.mask, b.mask)
      case Equal => ShlU32(a.mask, 1)
      case Less => a.mask
      case Greater => b.mask;
    if MaskV4(a.addr, m) == MaskV4(b.addr, m) then Some(New(MaskV4(a.addr, m), m)) else None
  }

  lemma MergeComm(a: Netv4Addr, b: Netv4Addr)
    ensures Merge(a, b) == Merge(b, a)
  {
  }

  /** A merged network is canonical and contains both inputs. */
  lemma MergeSound(a: Netv4Addr, b: Netv4Addr)
    requires Merge(a, b).Some?
    ensures Canonical(Merge(a, b).value)
    ensures Contains(Merge(a, b).value, a) && Contains(Merge(a, b).value, b)
  {
    var r := Merge(a, b).value;
    AndIdem(a.addr, r.mask);
  }

  /** A network nested in a canonical network with a shorter mask merges into it, in both orders. */
  lemma MergeNested(a: Netv4Addr, b: Netv4Addr)
    requires Canonical(b) && b.mask < a.mask && Contains(b, a)
    ensures Merge(a, b) == Some(b) && Merge(b, a) == Some(b)
  {
  }

  /**
   * Two `/n` networks (n >= 1) merge exactly when they lie in the same `/(n-1)`
   * network, and then give that network; a network merged with itself is
   * therefore widened by one bit.
   */
  lemma MergeSiblings(a: Netv4Addr, b: Netv4Addr, n: nat)
    requires 1 <= n <= V4_BITS && a.mask == PrefixMask(n, V4_BITS) && b.mask == a.mask
    ensures Merge(a, b).Some? <==> MaskV4(a.addr, PrefixMask(n - 1, V4_BITS)) == MaskV4(b.addr, PrefixMask(n - 1, V4_BITS))
    ensures Merge(a, b).Some? ==> Merge(a, b).value == New(a.addr, PrefixMask(n - 1, V4_BITS))
  {
    Pow2ValuesV4();
    ShlPrefixOne(n, V4_BITS);
    PrefixMaskFits(n - 1, V4_BITS);
    var m: u32 := PrefixMask(n - 1, V4_BITS);
    AndIdem(a.addr, m);
  }

  /** A `/n` network merged with itself is its enclosing `/(n-1)` network. */
  lemma MergeSelf(a: Netv4Addr, n: nat)
    requires 1 <= n <= V4_BITS && a.mask == PrefixMask(n, V4_BITS)
    ensures Merge(a, a).Some?
    ensures Merge(a, a).value.mask == PrefixMask(n - 1, V4_BITS)
    ensures Merge(a, a).value.mask != a.mask
  {
    MergeSiblings(a, a, n);
    PrefixMaskLess(n - 1, n, V4_BITS);
  }

  // ---------------------------------------------------------------------
  // Broadcast

  /** `Broadcast`: the network address with every host bit set. */
  function Broadcast(n: Netv4Addr): u32
  {
    OrU32(n.addr, NotU32(n.mask))
  }

  /** The broadcast address masks back to the network: a canonical network contains it. */
  lemma BroadcastInNetwork(n: Netv4Addr)
    ensures MaskV4(Broadcast(n), n.mask) == MaskV4(n.addr, n.mask)
    ensures Canonical(n) ==> ContainsAddr(n, Broadcast(n))
    ensures Broadcast(n) >= n.addr
  {
    AndOrNot(n.addr, n.mask, V4_BITS);
  }

  /** For a canonical `/p` network the broadcast address is its last address. */
  lemma BroadcastIsLast(n: Netv4Addr, p: nat)
    requires p <= V4_BITS && n.mask == PrefixMask(p, V4_BITS) && Canonical(n)
    ensures Broadcast(n) == n.addr + Pow2(V4_BITS - p) - 1
  {
    Pow2ValuesV4();
    AlignedPrefix(n.addr, p, V4_BITS);
    Pow2Le(V4_BITS - p, V4_BITS);
    assert Max(V4_BITS) - n.mask == Max(V4_BITS - p);
    OrLowOnes(n.addr, V4_BITS - p);
  }

  // ---------------------------------------------------------------------
  // Ordering

  /** `Ord::cmp`: by network address, then by mask. */
  function Cmp(a: Netv4Addr, b: Netv4Addr): Ordering
  {
    match CmpNat(a.addr, b.addr)
    case Equal => CmpNat(a.mask, b.mask)
    case ordering => ordering
  }

  /** `PartialOrd::partial_cmp`, written over `u32::partial_cmp`, which always answers. */
  function PartialCmp(a: Netv4Addr, b: Netv4Addr): Option<Ordering>
  {
    var addrOrdering: Option<Ordering> := Some(CmpNat(a.addr, b.addr));
    match addrOrdering
    case Some(Equal) => Some(CmpNat(a.mask, b.mask))
    case Some(ordering) => Some(ordering)
    case None => None
  }

  /** The comparison is the lexicographic order on (address, mask). */
  lemma CmpLexicographic(a: Netv4Addr, b: Netv4Addr)
    ensures Cmp(a, b) == Less <==> a.addr < b.addr || (a.addr == b.addr && a.mask < b.mask)
    ensures Cmp(a, b) == Equal <==> a == b
    ensures Cmp(b, a) == Cmp(a, b).Reverse()
  {
  }

  lemma CmpTransitive(a: Netv4Addr, b: Netv4Addr, c: Netv4Addr)
    requires Cmp(a, b) == Less && Cmp(b, c) == Less
    ensures Cmp(a, c) == Less
  {
    CmpLexicographic(a, b);
    CmpLexicographic(b, c);
    CmpLexicographic(a, c);
  }

  /** `partial_cmp` always agrees with `cmp`. */
  lemma PartialCmpIsCmp(a: Netv4Addr, b: Netv4Addr)
    ensures PartialCmp(a, b) == Some(Cmp(a, b))
  {
  }

  // ---------------------------------------------------------------------
  // Rendering and parsing

  /**
   * `Display`: `address/prefix-length` when the mask is the prefix mask with as
   * many ones as it has, `address/mask` otherwise.
   */
  function Display(syn: AddrSyntax, n: Netv4Addr): string
  {
    var ones := CountOnes(n.mask);
    Pow2ValuesV4();
    CountOnesFits(n.mask, V4_BITS);
    if n.mask == CidrMask(ones, V4_BITS) then syn.formatV4(n.addr) + "/" + Decimal(ones)
    else syn.formatV4(n.addr) + "/" + syn.formatV4(n.mask)
  }

  /** The mask the parser builds from a prefix length. */
  function PrefixLengthMask(c: u32): (m: u32)
    ensures m == PrefixMask(if c <= V4_BITS then c else V4_BITS, V4_BITS)
  {
    Pow2ValuesV4();
    ParsedMaskIsPrefix(c, V4_BITS);
    ParsedMask(c, V4_BITS)
  }

  /**
   * `FromStr`: split on `/` and space; the first piece is the address, the
   * second a prefix length, else a netmask, else ignored; later pieces are
   * ignored. Without a second piece the input is refused.
   */
  function Parse(syn: AddrSyntax, s: string): Result<Netv4Addr, Error>
  {
    var split := Split(s);
    var lhs := split[0];
    if |split| < 2 then Err(Error.ParseError(SPLIT_FAILURE))
    else
      var rhs := split[1];
      match (syn.parseV4(lhs), ParseU32(rhs), syn.parseV4(rhs))
      case (Ok(addr), Some(cidr), _) => Ok(New(addr, PrefixLengthMask(cidr)))
      case (Ok(addr), None, Ok(mask)) => Ok(New(addr, mask))
      case (Ok(addr), None, Err(_)) => Ok(FromAddr(addr))
      case (Err(e), _, _) => Err(Error.ParseError(e))
  }

  /** Input without `/` or space is refused with the splitting error, whatever the address syntax. */
  lemma ParseNoSeparator(syn: AddrSyntax, s: string)
    requires NoSeparator(s)
    ensures Parse(syn, s) == Err(Error.ParseError(SPLIT_FAILURE))
  {
    SplitNoSeparator(s);
  }

  /** An invalid address passes the address parser's message out. */
  lemma ParseBadAddress(syn: AddrSyntax, x: string, c: char, y: string, e: string)
    requires NoSeparator(x) && IsSeparator(c) && syn.parseV4(x) == Err(e)
    ensures Parse(syn, x + [c] + y) == Err(Error.ParseError(e))
  {
    SplitAtSeparator(x, c, y);
  }

  /**
   * The three accepted forms: a prefix length (saturating at 32), a netmask,
   * and anything else after the separator, which gives the single-address
   * network. Every result is canonical.
   */
  lemma ParseForms(syn: AddrSyntax, x: string, c: char, y: string, a: u32)
    requires NoSeparator(x) && NoSeparator(y) && IsSeparator(c) && syn.parseV4(x) == Ok(a)
    ensures ParseU32(y).Some? ==>
      Parse(syn, x + [c] + y) == Ok(New(a, PrefixLengthMask(ParseU32(y).value)))
    ensures ParseU32(y).None? && syn.parseV4(y).Ok? ==>
      Parse(syn, x + [c] + y) == Ok(New(a, syn.parseV4(y).value))
    ensures ParseU32(y).None? && syn.parseV4(y).Err? ==>
      Parse(syn, x + [c] + y) == Ok(Netv4Addr(U32_MAX, a))
  {
    SplitPair(x, c, y);
  }

  lemma ParseCanonical(syn: AddrSyntax, s: string)
    requires Parse(syn, s).Ok?
    ensures Canonical(Parse(syn, s).value)
  {
  }

  /** Only the first two pieces are read: anything after a second separator is ignored. */
  lemma ParseIgnoresRest(syn: AddrSyntax, x: string, c: char, y: string, d: char, z: string)
    requires NoSeparator(x) && NoSeparator(y) && IsSeparator(c) && IsSeparator(d)
    ensures Parse(syn, x + [c] + y + [d] + z) == Parse(syn, x + [c] + y)
  {
    SplitAtSeparator(x, c, y + [d] + z);
    SplitAtSeparator(y, d, z);
    assert x + [c] + y + [d] + z == x + [c] + (y + [d] + z);
    SplitPair(x, c, y);
  }

  /** The renderer prints a `/p` mask as `/p`. */
  lemma DisplayPrefix(syn: AddrSyntax, n: Netv4Addr, p: nat)
    requires p <= V4_BITS && n.mask == PrefixMask(p, V4_BITS)
    ensures Display(syn, n) == syn.formatV4(n.addr) + "/" + Decimal(p)
  {
    PrefixIsCidr(p, V4_BITS);
  }

  /** The renderer prints any other mask in address form. */
  lemma DisplayNonPrefix(syn: AddrSyntax, n: Netv4Addr)
    requires forall p: nat :: p <= V4_BITS ==> n.mask != PrefixMask(p, V4_BITS)
    ensures Display(syn, n) == syn.formatV4(n.addr) + "/" + syn.formatV4(n.mask)
  {
    Pow2ValuesV4();
    CountOnesFits(n.mask, V4_BITS);
    CidrMaskIsPrefix(CountOnes(n.mask), V4_BITS);
  }

  /** A network with the all-ones mask renders with the full prefix length, `/32`. */
  lemma DisplayFullMask(syn: AddrSyntax, n: Netv4Addr)
    requires n.mask == PrefixMask(V4_BITS, V4_BITS)
    ensures Display(syn, n) == syn.formatV4(n.addr) + "/32"
  {
    DisplayPrefix(syn, n, V4_BITS);
    DecimalWidths();
  }

  /** The single-address network of an address renders as that address, `/32`. */
  lemma DisplayHost(syn: AddrSyntax, a: u32)
    ensures Display(syn, FromAddr(a)) == syn.formatV4(a) + "/32"
  {
    var n := FromAddr(a);
    assert n.mask == PrefixMask(V4_BITS, V4_BITS) && n.addr == a by {
      Pow2At32();
      PrefixMaskFull(V4_BITS);
    }
    DisplayFullMask(syn, n);
  }

  /** A network with the empty mask renders as `0/0`, whatever address it was built from. */
  lemma DisplayEmptyMask(syn: AddrSyntax, a: u32)
    ensures Display(syn, New(a, 0)) == syn.formatV4(0) + "/0"
  {
    DisplayPrefix(syn, New(a, 0), 0);
    DecimalWidths();
  }

  /** Rendering and parsing again gives the network rebuilt by `New`. */
  lemma DisplayParse(syn: AddrSyntax, n: Netv4Addr)
    requires syn.Lawful()
    ensures Parse(syn, Display(syn, n)) == Ok(New(n.addr, n.mask))
  {
    Pow2ValuesV4();
    var ones := CountOnes(n.mask);
    CountOnesFits(n.mask, V4_BITS);
    var fa := syn.formatV4(n.addr);
    assert syn.parseV4(fa) == Ok(n.addr);
    assert NoSeparator(fa);
    if n.mask == CidrMask(ones, V4_BITS) {
      DecimalRoundTrip(ones);
      SplitPair(fa, '/', Decimal(ones));
      assert fa + "/" + Decimal(ones) == fa + ['/'] + Decimal(ones);
      CidrMaskIsPrefix(ones, V4_BITS);
    } else {
      var fm := syn.formatV4(n.mask);
      assert NoSeparator(fm) && ParseU32(fm).None? && syn.parseV4(fm) == Ok(n.mask);
      SplitPair(fa, '/', fm);
      assert fa + "/" + fm == fa + ['/'] + fm;
    }
  }

  /** A canonical network survives rendering and parsing unchanged. */
  lemma RoundTrip(syn: AddrSyntax, n: Netv4Addr)
    requires syn.Lawful() && Canonical(n)
    ensures Parse(syn, Display(syn, n)) == Ok(n)
  {
    DisplayParse(syn, n);
  }

  // ---------------------------------------------------------------------
  // Examples from the crate's documentation and tests

  /** 192.0.2.16/29 parses to 192.0.2.16 with mask 255.255.255.248. */
  lemma ParsePrefixExample(syn: AddrSyntax)
    requires syn.parseV4("192.0.2.16") == Ok(0xC000_0210)
    ensures Parse(syn, "192.0.2.16/29") == Ok(Netv4Addr(0xFFFF_FFF8, 0xC000_0210))
  {
    Pow2ValuesV4();
    var a := "192.0.2.16";
    assert NoSeparator(a);
    assert "192.0.2.16/29" == a + ['/'] + "29";
    ParseU32Examples();
    ParseForms(syn, a, '/', "29", 0xC000_0210);
    assert PrefixMask(29, V4_BITS) == 0xFFFF_FFF8;
    MaskV4Prefix(0xC000_0210, 0xFFFF_FFF8, 29);
  }

  /** 192.0.2.16, either separator, then 255.255.255.248: the /29 network at 192.0.2.16. */
  lemma ParseMaskForm(syn: AddrSyntax, c: char)
    requires IsSeparator(c)
    requires syn.parseV4("192.0.2.16") == Ok(0xC000_0210)
    requires syn.parseV4("255.255.255.248") == Ok(0xFFFF_FFF8)
    ensures Parse(syn, "192.0.2.16" + [c] + "255.255.255.248") == Ok(Netv4Addr(0xFFFF_FFF8, 0xC000_0210))
  {
    var a, m := "192.0.2.16", "255.255.255.248";
    assert NoSeparator(a) && NoSeparator(m) && ParseU32(m).None? by {
      ParseU32Rejects(m, 3);
    }
    NewAt29();
    ParseForms(syn, a, c, m, 0xC000_0210);
  }

  /** 192.0.2.16 255.255.255.248 and 192.0.2.16/255.255.255.248 parse to the same network. */
  lemma ParseMaskExample(syn: AddrSyntax)
    requires syn.parseV4("192.0.2.16") == Ok(0xC000_0210)
    requires syn.parseV4("255.255.255.248") == Ok(0xFFFF_FFF8)
    ensures Parse(syn, "192.0.2.16 255.255.255.248") == Ok(Netv4Addr(0xFFFF_FFF8, 0xC000_0210))
    ensures Parse(syn, "192.0.2.16/255.255.255.248") == Ok(Netv4Addr(0xFFFF_FFF8, 0xC000_0210))
  {
    assert "192.0.2.16 255.255.255.248" == "192.0.2.16" + [' '] + "255.255.255.248";
    assert "192.0.2.16/255.255.255.248" == "192.0.2.16" + ['/'] + "255.255.255.248";
    ParseMaskForm(syn, ' ');
    ParseMaskForm(syn, '/');
  }

  /** 127.0.0.1/zoop parses as the single-address network 127.0.0.1/32. */
  lemma ParseHostExample(syn: AddrSyntax)
    requires syn.parseV4("127.0.0.1") == Ok(0x7F00_0001) && syn.parseV4("zoop").Err?
    ensures Parse(syn, "127.0.0.1/zoop") == Ok(Netv4Addr(U32_MAX, 0x7F00_0001))
  {
    var h := "127.0.0.1";
    assert NoSeparator(h);
    assert "127.0.0.1/zoop" == h + ['/'] + "zoop";
    ParseU32Examples();
    ParseForms(syn, h, '/', "zoop", 0x7F00_0001);
  }

  /** 127.0.0.1/32 parses to the same network as 127.0.0.1/zoop. */
  lemma ParseFullPrefixExample(syn: AddrSyntax)
    requires syn.parseV4("127.0.0.1") == Ok(0x7F00_0001)
    ensures Parse(syn, "127.0.0.1/32") == Ok(Netv4Addr(U32_MAX, 0x7F00_0001))
  {
    var h := "127.0.0.1";
    assert NoSeparator(h);
    assert "127.0.0.1/32" == h + ['/'] + "32";
    ParseU32Examples();
    ParseForms(syn, h, '/', "32", 0x7F00_0001);
    Pow2ValuesV4();
    assert PrefixLengthMask(32) == U32_MAX;
    assert FromAddr(0x7F00_0001) == New(0x7F00_0001, U32_MAX);
  }

  /** zoop is refused with the splitting error. */
  lemma ParseSplitExample(syn: AddrSyntax)
    ensures Parse(syn, "zoop") == Err(Error.ParseError(SPLIT_FAILURE))
  {
    assert NoSeparator("zoop");
    ParseNoSeparator(syn, "zoop");
  }

  /** 10.0.0.0/24 and 10.0.1.0/24 merge to 10.0.0.0/23; 10.0.1.0/24 and 10.0.2.0/24 do not merge. */
  lemma MergeExamples()
    ensures Merge(Netv4Addr(0xFFFF_FF00, 0x0A00_0000), Netv4Addr(0xFFFF_FF00, 0x0A00_0100))
         == Some(Netv4Addr(0xFFFF_FE00, 0x0A00_0000))
    ensures Merge(Netv4Addr(0xFFFF_FF00, 0x0A00_0100), Netv4Addr(0xFFFF_FF00, 0x0A00_0200)) == None
    ensures Merge(Netv4Addr(0xFFFF_FF00, 0x0A00_0000), Netv4Addr(0xFFFF_FE00, 0x0A00_0000))
         == Some(Netv4Addr(0xFFFF_FE00, 0x0A00_0000))
  {
    Pow2ValuesV4();
    assert PrefixMask(24, V4_BITS) == 0xFFFF_FF00;
    assert PrefixMask(23, V4_BITS) == 0xFFFF_FE00 by {
      assert Pow2(9) == 512 by {
        Pow2Add(8, 1);
      }
    }
    assert Pow2(9) == 512 by {
      Pow2Add(8, 1);
    }
    MergeSiblings(Netv4Addr(0xFFFF_FF00, 0x0A00_0000), Netv4Addr(0xFFFF_FF00, 0x0A00_0100), 24);
    MergeSiblings(Netv4Addr(0xFFFF_FF00, 0x0A00_0100), Netv4Addr(0xFFFF_FF00, 0x0A00_0200), 24);
    MaskV4Prefix(0x0A00_0000, 0xFFFF_FE00, 23);
    MaskV4Prefix(0x0A00_0100, 0xFFFF_FE00, 23);
    MaskV4Prefix(0x0A00_0200, 0xFFFF_FE00, 23);
    MergeNested(Netv4Addr(0xFFFF_FF00, 0x0A00_0000), Netv4Addr(0xFFFF_FE00, 0x0A00_0000));
  }

  /** 127.0.0.1/8 has broadcast address 127.255.255.255. */
  lemma BroadcastExample8()
    ensures Broadcast(New(0x7F00_0001, 0xFF00_0000)) == 0x7FFF_FFFF
  {
    Pow2ValuesV4();
    assert PrefixMask(8, V4_BITS) == 0xFF00_0000;
    MaskV4Prefix(0x7F00_0001, 0xFF00_0000, 8);
    BroadcastIsLast(New(0x7F00_0001, 0xFF00_0000), 8);
  }

  /** 192.168.69.25/29 has broadcast address 192.168.69.31. */
  lemma BroadcastExample29()
    ensures Broadcast(New(0xC0A8_4519, 0xFFFF_FFF8)) == 0xC0A8_451F
  {
    var n := New(0xC0A8_4519, 0xFFFF_FFF8);
    assert Pow2(3) == 8;
    assert PrefixMask(29, V4_BITS) == 0xFFFF_FFF8 by {
      Pow2ValuesV4();
    }
    assert n.addr == 0xC0A8_4518 by {
      MaskV4Prefix(0xC0A8_4519, 0xFFFF_FFF8, 29);
    }
    BroadcastIsLast(n, 29);
  }

  /** 192.168.128.127/32 is its own broadcast address. */
  lemma BroadcastExample32()
    ensures Broadcast(New(0xC0A8_807F, 0xFFFF_FFFF)) == 0xC0A8_807F
  {
    Pow2ValuesV4();
    AndMax(0xC0A8_807F, V4_BITS);
    assert PrefixMask(32, V4_BITS) == 0xFFFF_FFFF;
    BroadcastIsLast(New(0xC0A8_807F, 0xFFFF_FFFF), 32);
  }

  /** An address aligned to the host span of a `/p` network is that network's base. */
  lemma NewAligned(a: u32, p: nat)
    requires p <= V4_BITS && a % Pow2(V4_BITS - p) == 0
    ensures PrefixMask(p, V4_BITS) < U32_LIMIT
    ensures New(a, PrefixMask(p, V4_BITS)) == Netv4Addr(PrefixMask(p, V4_BITS), a)
  {
    var m := PrefixMask(p, V4_BITS);
    assert m < U32_LIMIT by { Pow2At32(); PrefixMaskFits(p, V4_BITS); }
    MaskV4Prefix(a, m, p);
  }

  /** An address split into an aligned network part and a host part has the network part as its base. */
  lemma NewSplit(p: nat, d: nat, k: nat, hi: nat, lo: nat)
    requires p <= V4_BITS && d == Pow2(V4_BITS - p)
    requires hi == k * d && lo < d && hi + lo < U32_LIMIT
    ensures PrefixMask(p, V4_BITS) < U32_LIMIT
    ensures New(hi + lo, PrefixMask(p, V4_BITS)) == Netv4Addr(PrefixMask(p, V4_BITS), hi)
  {
    var m := PrefixMask(p, V4_BITS);
    assert m < U32_LIMIT by { Pow2At32(); PrefixMaskFits(p, V4_BITS); }
    MaskV4Split(m, p, d, k, hi, lo);
  }

  /** A /8 base is its own network address under the /8 mask. */
  lemma NewAt8(a: u32)
    requires a % 0x100_0000 == 0
    ensures New(a, 0xFF00_0000) == Netv4Addr(0xFF00_0000, a)
  {
    assert Pow2(V4_BITS - 8) == 0x100_0000 by { Pow2At24(); }
    assert PrefixMask(8, V4_BITS) == 0xFF00_0000 by { Pow2At32(); }
    NewAligned(a, 8);
  }

  /** 192.0.2.16 is the base of its /29 network. */
  lemma NewAt29()
    ensures New(0xC000_0210, 0xFFFF_FFF8) == Netv4Addr(0xFFFF_FFF8, 0xC000_0210)
  {
    assert Pow2(V4_BITS - 29) == 8;
    assert PrefixMask(29, V4_BITS) == 0xFFFF_FFF8 by { Pow2At32(); }
    NewAligned(0xC000_0210, 29);
  }

  /** An address below the host span of a `/p` network masks to zero. */
  lemma MaskBelowHost(a: u32, p: nat)
    requires p <= V4_BITS && a < Pow2(V4_BITS - p)
    ensures PrefixMask(p, V4_BITS) < U32_LIMIT
    ensures MaskV4(a, PrefixMask(p, V4_BITS)) == 0
  {
    var m, low := PrefixMask(p, V4_BITS), Pow2(V4_BITS - p);
    assert m < U32_LIMIT by { Pow2At32(); PrefixMaskFits(p, V4_BITS); }
    assert a % low == a by { DivModUnique(a, low, 0, a); }
    MaskV4Prefix(a, m, p);
  }

  /** 1.0.0.0/7 is canonicalised to 0.0.0.0/7. */
  lemma NewAt7()
    ensures New(0x0100_0000, 0xFE00_0000) == Netv4Addr(0xFE00_0000, 0)
  {
    assert Pow2(V4_BITS - 7) == 0x200_0000 by { Pow2At24(); Pow2Add(24, 1); }
    assert PrefixMask(7, V4_BITS) == 0xFE00_0000 by { Pow2At32(); }
    MaskBelowHost(0x0100_0000, 7);
  }

  /** 1.0.0.0/8 < 2.0.0.0/8, 1.0.0.0/7 < 1.0.0.0/8, 1.0.0.0/8 > 0.0.0.0/24, and 1.0.0.0/8 equals itself. */
  lemma CmpExamples()
    ensures Cmp(New(0x0100_0000, 0xFF00_0000), New(0x0200_0000, 0xFF00_0000)) == Less
    ensures Cmp(New(0x0100_0000, 0xFE00_0000), New(0x0100_0000, 0xFF00_0000)) == Less
    ensures Cmp(New(0x0100_0000, 0xFF00_0000), New(0x0000_0000, 0xFFFF_FF00)) == Greater
    ensures Cmp(New(0x0100_0000, 0xFF00_0000), New(0x0100_0000, 0xFF00_0000)) == Equal
  {
    NewAt8(0x0100_0000);
    NewAt8(0x0200_0000);
    NewAt7();
    AndLe(0, 0xFFFF_FF00);
  }
}
