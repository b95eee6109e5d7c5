/**
 * `NetAddr`: a network of either family, and the operations that dispatch to
 * the per-family networks (accessors, conversion from an address,
 * containment, merging, the broadcast address, the derived ordering,
 * rendering and parsing).
 */
module Network {
  import opened Wrappers
  import opened Bits
  import opened Addr
  import opened Masking
  import opened Text
  import opened Errors
  import opened Order
  import opened Prefix
  import Netv4
  import Netv6

  datatype NetAddr = V4(v4: Netv4.Netv4Addr) | V6(v6: Netv6.Netv6Addr) {
    /** `NetAddr::mask`, as an address of the network's family. */
    function Mask(): IpAddr
    {
      match this
      case V4(n) => IpAddr.V4(n.mask)
      case V6(n) => IpAddr.V6(n.mask)
    }

    /** `NetAddr::addr`, as an address of the network's family. */
    function Addr(): IpAddr
    {
      match this
      case V4(n) => IpAddr.V4(n.addr)
      case V6(n) => IpAddr.V6(n.addr)
    }

    predicate SameFamily(other: NetAddr)
    {
      V4? == other.V4?
    }
  }

  /** No host bit is set in the network address. */
  predicate Canonical(n: NetAddr)
  {
    match n
    case V4(x) => Netv4.Canonical(x)
    case V6(x) => Netv6.Canonical(x)
  }

  /** The accessors report the family, and a canonical network is one its own mask leaves unchanged. */
  lemma AccessorsAgree(n: NetAddr)
    ensures n.Mask().V4? == n.V4? && n.Addr().V4? == n.V4?
    ensures Canonical(n) <==> MaskIp(n.Addr(), n.Mask()) == Ok(n.Addr())
  {
  }

  /** `From<IpAddr>`: the single-address network of the address's family, with the all-ones mask. */
  function FromIpAddr(a: IpAddr): (n: NetAddr)
    ensures n.Addr() == a && n.Mask().SameFamily(a)
    ensures n.Mask().Value() == Max(a.Bits()) && Canonical(n)
  {
    Pow2Values();
    match a
    case V4(x) =>
      AndMax(x, V4_BITS);
      NetAddr.V4(Netv4.FromAddr(x))
    case V6(x) =>
      AndMax(x, V6_BITS);
      NetAddr.V6(Netv6.FromAddr(x))
  }

  // ---------------------------------------------------------------------
  // Containment

  /** `Contains<IpAddr>`: the address becomes a single-address network; families never mix. */
  predicate ContainsIp(n: NetAddr, a: IpAddr)
  {
    match (n, FromIpAddr(a))
    case (V4(x), V4(y)) => Netv4.Contains(x, y)
    case (V6(x), V6(y)) => Netv6.Contains(x, y)
    case _ => false
  }

  /** `Contains<NetAddr>`: the per-family test; families never mix. */
  predicate ContainsNet(n: NetAddr, other: NetAddr)
  {
    match (n, other)
    case (V4(x), V4(y)) => Netv4.Contains(x, y)
    case (V6(x), V6(y)) => Netv6.Contains(x, y)
    case _ => false
  }

  /** An address is contained exactly when masking it with the network's mask gives the network address. */
  lemma ContainsIpIff(n: NetAddr, a: IpAddr)
    ensures ContainsIp(n, a) <==> MaskIp(a, n.Mask()) == Ok(n.Addr())
  {
  }

  /** A network is contained exactly when its base address is. */
  lemma ContainsNetIff(n: NetAddr, other: NetAddr)
    ensures ContainsNet(n, other) <==> ContainsIp(n, other.Addr())
  {
  }

  /** Networks and addresses of the other family are never contained. */
  lemma ContainsCrossFamily(n: NetAddr, other: NetAddr, a: IpAddr)
    requires !n.SameFamily(other) && n.V4? != a.V4?
    ensures !ContainsNet(n, other) && !ContainsIp(n, a)
  {
  }

  /** A canonical network whose mask is the `/p` prefix mask of its family. */
  predicate PrefixNet(n: NetAddr, p: nat)
  {
    Canonical(n) && p <= n.Addr().Bits() && n.Mask().Value() == PrefixMask(p, n.Addr().Bits())
  }

  /**
   * For a canonical `/p` network the contained addresses are the `2^(w-p)`
   * consecutive addresses of its family starting at the network address, and
   * that block lies inside the address space.
   */
  lemma ContainsIpCidrRange(n: NetAddr, p: nat, a: IpAddr)
    requires PrefixNet(n, p)
    ensures n.Addr().Value() + Pow2(n.Addr().Bits() - p) <= Pow2(n.Addr().Bits())
    ensures ContainsIp(n, a) <==>
      (a.SameFamily(n.Addr()) && n.Addr().Value() <= a.Value() < n.Addr().Value() + Pow2(n.Addr().Bits() - p))
  {
    Pow2Values();
    match n
    case V4(x) =>
      AlignedPrefix(x.addr, p, V4_BITS);
      AlignedFits(x.addr, V4_BITS - p, V4_BITS);
      if a.V4? {
        Netv4.ContainsCidrRange(x, p, a.v4);
      }
    case V6(y) =>
      AlignedPrefix(y.addr, p, V6_BITS);
      AlignedFits(y.addr, V6_BITS - p, V6_BITS);
      if a.V6? {
        Netv6.ContainsCidrRange(y, p, a.v6);
      }
  }

  /** 127.0.0.1/8 is 127.0.0.0/8. */
  lemma Loopback8()
    ensures Netv4.New(0x7F00_0001, 0xFF00_0000) == Netv4.Netv4Addr(0xFF00_0000, 0x7F00_0000)
  {
    assert PrefixMask(8, V4_BITS) == 0xFF00_0000 by { Pow2At32(); }
    assert Pow2(V4_BITS - 8) == 0x100_0000 by { Pow2At24(); }
    Netv4.NewSplit(8, 0x100_0000, 0x7F, 0x7F00_0000, 1);
  }

  /** 127.128.0.1/24 is 127.128.0.0/24. */
  lemma Loopback24()
    ensures Netv4.New(0x7F80_0001, 0xFFFF_FF00) == Netv4.Netv4Addr(0xFFFF_FF00, 0x7F80_0000)
  {
    assert PrefixMask(24, V4_BITS) == 0xFFFF_FF00 by { Pow2At32(); }
    assert Pow2(V4_BITS - 24) == 0x100 by { Pow2Byte(); }
    Netv4.NewSplit(24, 0x100, 0x7F_8000, 0x7F80_0000, 1);
  }

  /** 127.0.0.0/8 contains 127.0.0.1 and 127.127.255.1, but not 64.0.0.0. */
  lemma ContainsIpExamples()
    ensures ContainsIp(NetAddr.V4(Netv4.New(0x7F00_0001, 0xFF00_0000)), IpAddr.V4(0x7F00_0001))
    ensures ContainsIp(NetAddr.V4(Netv4.New(0x7F00_0001, 0xFF00_0000)), IpAddr.V4(0x7F7F_FF01))
    ensures !ContainsIp(NetAddr.V4(Netv4.New(0x7F00_0001, 0xFF00_0000)), IpAddr.V4(0x4000_0000))
  {
    Loopback8();
    var x := Netv4.Netv4Addr(0xFF00_0000, 0x7F00_0000);
    Contains8(x, 0x7F00_0001, 0x7F, 0x7F00_0000, 1);
    Contains8(x, 0x7F7F_FF01, 0x7F, 0x7F00_0000, 0x7F_FF01);
    Contains8(x, 0x4000_0000, 0x40, 0x4000_0000, 0);
  }

  /** An IPv4 network is in another exactly when masking its base address gives the other's. */
  lemma ContainsNetV4(x: Netv4.Netv4Addr, y: Netv4.Netv4Addr)
    ensures ContainsNet(NetAddr.V4(x), NetAddr.V4(y)) <==> MaskV4(y.addr, x.mask) == x.addr
  {
  }

  /** An IPv4 address is in an IPv4 network exactly when masking it gives the network address. */
  lemma ContainsIpV4(x: Netv4.Netv4Addr, a: u32)
    ensures ContainsIp(NetAddr.V4(x), IpAddr.V4(a)) <==> MaskV4(a, x.mask) == x.addr
  {
  }

  /** Masking with 255.0.0.0 keeps the top byte. */
  lemma Mask8(k: nat, hi: nat, lo: nat)
    requires hi == k * 0x100_0000 && lo < 0x100_0000 && hi + lo < U32_LIMIT
    ensures MaskV4(hi + lo, 0xFF00_0000) == hi
  {
    assert PrefixMask(8, V4_BITS) == 0xFF00_0000 by { Pow2At32(); }
    assert Pow2(V4_BITS - 8) == 0x100_0000 by { Pow2At24(); }
    MaskV4Split(0xFF00_0000, 8, 0x100_0000, k, hi, lo);
  }

  /** An address is in a /8 network exactly when its top byte is the network's. */
  lemma Contains8(x: Netv4.Netv4Addr, a: u32, k: nat, hi: nat, lo: nat)
    requires x.mask == 0xFF00_0000
    requires hi == k * 0x100_0000 && lo < 0x100_0000 && a == hi + lo
    ensures ContainsIp(NetAddr.V4(x), IpAddr.V4(a)) <==> x.addr == hi
  {
    ContainsIpV4(x, a);
    Mask8(k, hi, lo);
  }

  /** A network is in a /8 network exactly when the top byte of its base is the network's. */
  lemma ContainsNet8(x: Netv4.Netv4Addr, y: Netv4.Netv4Addr, k: nat, hi: nat, lo: nat)
    requires x.mask == 0xFF00_0000
    requires hi == k * 0x100_0000 && lo < 0x100_0000 && y.addr == hi + lo
    ensures ContainsNet(NetAddr.V4(x), NetAddr.V4(y)) <==> x.addr == hi
  {
    ContainsNetV4(x, y);
    Mask8(k, hi, lo);
  }

  /** 127.0.0.0/8 contains 127.128.0.0/24. */
  lemma ContainsNetExample()
    ensures ContainsNet(NetAddr.V4(Netv4.New(0x7F00_0001, 0xFF00_0000)), NetAddr.V4(Netv4.New(0x7F80_0001, 0xFFFF_FF00)))
  {
    Loopback8();
    Loopback24();
    var x, y := Netv4.Netv4Addr(0xFF00_0000, 0x7F00_0000), Netv4.Netv4Addr(0xFFFF_FF00, 0x7F80_0000);
    ContainsNet8(x, y, 0x7F, 0x7F00_0000, 0x80_0000);
  }

  /** 127.0.0.0/8 contains neither an IPv6 address nor an IPv6 network. */
  lemma ContainsCrossFamilyExamples()
    ensures !ContainsIp(NetAddr.V4(Netv4.New(0x7F00_0001, 0xFF00_0000)), IpAddr.V6(0x2001_0db8_d00b_0000_0000_0000_0000_0001))
    ensures !ContainsNet(NetAddr.V4(Netv4.New(0x7F00_0001, 0xFF00_0000)), NetAddr.V6(Netv6.New(0x2001_0db8_00d0_0000_0000_0000_0000_0000, 0xffff_ffff_ffff_0000_0000_0000_0000_0000)))
  {
  }

  // ---------------------------------------------------------------------
  // Merging

  /** `Merge`: the per-family merge. Mixing families is `unimplemented!()` in the crate. */
  function Merge(a: NetAddr, b: NetAddr): Option<NetAddr>
    requires a.SameFamily(b)
  {
    match (a, b)
    case (V4(x), V4(y)) => (match Netv4.Merge(x, y) case Some(m) => Some(NetAddr.V4(m)) case None => None)
    case (V6(x), V6(y)) => (match Netv6.Merge(x, y) case Some(m) => Some(NetAddr.V6(m)) case None => None)
  }

  /** A merged network has the inputs' family, is canonical and contains both inputs. */
  lemma MergeSound(a: NetAddr, b: NetAddr)
    requires a.SameFamily(b) && Merge(a, b).Some?
    ensures Merge(a, b).value.SameFamily(a) && Canonical(Merge(a, b).value)
    ensures ContainsNet(Merge(a, b).value, a) && ContainsNet(Merge(a, b).value, b)
  {
    match (a, b)
    case (V4(x), V4(y)) => Netv4.MergeSound(x, y);
    case (V6(x), V6(y)) => Netv6.MergeSound(x, y);
  }

  lemma MergeComm(a: NetAddr, b: NetAddr)
    requires a.SameFamily(b)
    ensures Merge(a, b) == Merge(b, a)
  {
    match (a, b)
    case (V4(x), V4(y)) => Netv4.MergeComm(x, y);
    case (V6(x), V6(y)) => Netv6.MergeComm(x, y);
  }

  /** The crate's merge tests, through `NetAddr`: siblings merge, nested networks give the larger, neighbours do not. */
  lemma MergeExamples()
    ensures Merge(NetAddr.V4(Netv4.Netv4Addr(0xFFFF_FF00, 0x0A00_0000)), NetAddr.V4(Netv4.Netv4Addr(0xFFFF_FF00, 0x0A00_0100)))
         == Some(NetAddr.V4(Netv4.Netv4Addr(0xFFFF_FE00, 0x0A00_0000)))
    ensures Merge(NetAddr.V4(Netv4.Netv4Addr(0xFFFF_FF00, 0x0A00_0100)), NetAddr.V4(Netv4.Netv4Addr(0xFFFF_FF00, 0x0A00_0200))) == None
    ensures Merge(NetAddr.V6(Netv6.Netv6Addr(0xffff_ffff_ffff_ffff_0000_0000_0000_0000, 0x2001_0db8_dead_beef_0000_0000_0000_0000)),
                  NetAddr.V6(Netv6.Netv6Addr(0xffff_ffff_ffff_ffff_0000_0000_0000_0000, 0x2001_0db8_dead_beee_0000_0000_0000_0000)))
         == Some(NetAddr.V6(Netv6.Netv6Addr(0xffff_ffff_ffff_fffe_0000_0000_0000_0000, 0x2001_0db8_dead_beee_0000_0000_0000_0000)))
  {
    Netv4.MergeExamples();
    Netv6.MergeSiblingsExample();
  }

  // ---------------------------------------------------------------------
  // Broadcast

  /** `Broadcast`: defined for IPv4 networks only. */
  function Broadcast(n: NetAddr): (r: Option<IpAddr>)
    ensures r.Some? <==> n.V4?
    ensures r.Some? ==> r.value.V4? && MaskIp(r.value, n.Mask()) == MaskIp(n.Addr(), n.Mask())
  {
    match n
    case V4(x) =>
      Netv4.BroadcastInNetwork(x);
      Some(IpAddr.V4(Netv4.Broadcast(x)))
    case V6(_) => None
  }

  /** A canonical network contains its broadcast address. */
  lemma BroadcastContained(n: NetAddr)
    requires n.V4? && Canonical(n)
    ensures ContainsIp(n, Broadcast(n).value)
  {
    Netv4.BroadcastInNetwork(n.v4);
  }

  /** 127.0.0.1/8 broadcasts on 127.255.255.255; fe80::1/64 has no broadcast address. */
  lemma BroadcastExamples()
    ensures Broadcast(NetAddr.V4(Netv4.New(0x7F00_0001, 0xFF00_0000))) == Some(IpAddr.V4(0x7FFF_FFFF))
    ensures Broadcast(NetAddr.V6(Netv6.New(0xfe80_0000_0000_0000_0000_0000_0000_0001, 0xffff_ffff_ffff_ffff_0000_0000_0000_0000))) == None
  {
    Netv4.BroadcastExample8();
  }

  // ---------------------------------------------------------------------
  // Ordering

  /** The derived `Ord`: every IPv4 network before every IPv6 network, then the family's order. */
  function Cmp(a: NetAddr, b: NetAddr): Ordering
  {
    match (a, b)
    case (V4(x), V4(y)) => Netv4.Cmp(x, y)
    case (V6(x), V6(y)) => Netv6.Cmp(x, y)
    case (V4(_), V6(_)) => Less
    case (V6(_), V4(_)) => Greater
  }

  /** The derived `PartialOrd`, over the families' `partial_cmp`. */
  function PartialCmp(a: NetAddr, b: NetAddr): Option<Ordering>
  {
    match (a, b)
    case (V4(x), V4(y)) => Netv4.PartialCmp(x, y)
    case (V6(x), V6(y)) => Netv6.PartialCmp(x, y)
    case (V4(_), V6(_)) => Some(Less)
    case (V6(_), V4(_)) => Some(Greater)
  }

  /** Families order first; within a family the order is lexicographic on (address, mask). */
  lemma CmpOrder(a: NetAddr, b: NetAddr)
    ensures !a.SameFamily(b) ==> (Cmp(a, b) == Less <==> a.V4?)
    ensures a.SameFamily(b) ==>
      (Cmp(a, b) == Less <==>
        (a.Addr().Value() < b.Addr().Value() || (a.Addr().Value() == b.Addr().Value() && a.Mask().Value() < b.Mask().Value())))
    ensures Cmp(a, b) == Equal <==> a == b
    ensures Cmp(b, a) == Cmp(a, b).Reverse()
  {
    match (a, b)
    case (V4(x), V4(y)) => Netv4.CmpLexicographic(x, y);
    case (V6(x), V6(y)) => Netv6.CmpLexicographic(x, y);
    case _ =>
  }

  lemma CmpTransitive(a: NetAddr, b: NetAddr, c: NetAddr)
    requires Cmp(a, b) == Less && Cmp(b, c) == Less
    ensures Cmp(a, c) == Less
  {
    CmpOrder(a, b);
    CmpOrder(b, c);
    CmpOrder(a, c);
  }

  /** `partial_cmp` always agrees with `cmp`. */
  lemma PartialCmpIsCmp(a: NetAddr, b: NetAddr)
    ensures PartialCmp(a, b) == Some(Cmp(a, b))
  {
    match (a, b)
    case (V4(x), V4(y)) => Netv4.PartialCmpIsCmp(x, y);
    case (V6(x), V6(y)) => Netv6.PartialCmpIsCmp(x, y);
    case _ =>
  }

  /** 1.0.0.0/8 < 2.0.0.0/8, 1.0.0.0/8 > 0.0.0.0/24, and any IPv4 network precedes any IPv6 network. */
  lemma CmpExamples(x: Netv4.Netv4Addr, y: Netv6.Netv6Addr)
    ensures PartialCmp(NetAddr.V4(Netv4.New(0x0100_0000, 0xFF00_0000)), NetAddr.V4(Netv4.New(0x0200_0000, 0xFF00_0000))) == Some(Less)
    ensures PartialCmp(NetAddr.V4(Netv4.New(0x0100_0000, 0xFF00_0000)), NetAddr.V4(Netv4.New(0x0000_0000, 0xFFFF_FF00))) == Some(Greater)
    ensures PartialCmp(NetAddr.V4(x), NetAddr.V6(y)) == Some(Less)
  {
    Netv4.CmpExamples();
    PartialCmpIsCmp(NetAddr.V4(Netv4.New(0x0100_0000, 0xFF00_0000)), NetAddr.V4(Netv4.New(0x0200_0000, 0xFF00_0000)));
    PartialCmpIsCmp(NetAddr.V4(Netv4.New(0x0100_0000, 0xFF00_0000)), NetAddr.V4(Netv4.New(0x0000_0000, 0xFFFF_FF00)));
  }

  // ---------------------------------------------------------------------
  // Rendering and parsing

  /** `Display`: the family's rendering. */
  function Display(syn: AddrSyntax, n: NetAddr): string
  {
    match n
    case V4(x) => Netv4.Display(syn, x)
    case V6(x) => Netv6.Display(syn, x)
  }

  /**
   * `FromStr`: tries the IPv4 parser first, then the IPv6 parser; when both
   * refuse, the IPv6 parser's message is passed out.
   */
  function Parse(syn: AddrSyntax, s: string): Result<NetAddr, Error>
  {
    match (Netv4.Parse(syn, s), Netv6.Parse(syn, s))
    case (Ok(x), _) => Ok(NetAddr.V4(x))
    case (_, Ok(y)) => Ok(NetAddr.V6(y))
    case (Err(_), Err(e6)) => Err(Error.ParseError(e6.text))
  }

  /** The outcome of parsing, in terms of the two family parsers. */
  lemma ParseDispatch(syn: AddrSyntax, s: string)
    ensures Netv4.Parse(syn, s).Ok? ==> Parse(syn, s) == Ok(NetAddr.V4(Netv4.Parse(syn, s).value))
    ensures Netv4.Parse(syn, s).Err? && Netv6.Parse(syn, s).Ok? ==>
      Parse(syn, s) == Ok(NetAddr.V6(Netv6.Parse(syn, s).value))
    ensures Parse(syn, s).Err? <==> Netv4.Parse(syn, s).Err? && Netv6.Parse(syn, s).Err?
    ensures Parse(syn, s).Err? ==> Parse(syn, s).error.text == Netv6.Parse(syn, s).error.text
  {
  }

  /** Every parsed network is canonical. */
  lemma ParseCanonical(syn: AddrSyntax, s: string)
    requires Parse(syn, s).Ok?
    ensures Canonical(Parse(syn, s).value)
  {
  }

  /** An IPv6 network's rendering is not IPv4 text, so the IPv4 parser refuses it. */
  lemma V4RefusesV6Display(syn: AddrSyntax, n: Netv6.Netv6Addr)
    requires syn.Lawful()
    ensures Netv4.Parse(syn, Netv6.Display(syn, n)).Err?
  {
    Pow2Values();
    var fa := syn.formatV6(n.addr);
    assert NoSeparator(fa);
    var e := syn.parseV4(fa).error;
    var ones := CountOnes(n.mask);
    CountOnesFits(n.mask, V6_BITS);
    var rest := if n.mask == CidrMask(ones, V6_BITS) then Decimal(ones) else syn.formatV6(n.mask);
    assert Netv6.Display(syn, n) == fa + ['/'] + rest;
    Netv4.ParseBadAddress(syn, fa, '/', rest, e);
  }

  /** A canonical network of either family survives rendering and parsing unchanged. */
  lemma RoundTrip(syn: AddrSyntax, n: NetAddr)
    requires syn.Lawful() && Canonical(n)
    ensures Parse(syn, Display(syn, n)) == Ok(n)
  {
    match n
    case V4(x) => Netv4.RoundTrip(syn, x);
    case V6(y) =>
      Netv6.RoundTrip(syn, y);
      V4RefusesV6Display(syn, y);
  }

  /** zoop is refused with the splitting error, reported as `Error`. */
  lemma ParseSplitExample(syn: AddrSyntax)
    ensures Parse(syn, "zoop") == Err(Error.ParseError(SPLIT_FAILURE))
  {
    Netv4.ParseSplitExample(syn);
    Netv6.ParseSplitExample(syn);
  }

  /** 127.0.0.1/zoop is the IPv4 single-address network. */
  lemma ParseV4Example(syn: AddrSyntax)
    requires syn.parseV4("127.0.0.1") == Ok(0x7F00_0001) && syn.parseV4("zoop").Err?
    ensures Parse(syn, "127.0.0.1/zoop") == Ok(NetAddr.V4(Netv4.Netv4Addr(U32_MAX, 0x7F00_0001)))
  {
    Netv4.ParseHostExample(syn);
  }

  lemma V4RefusesFf02(syn: AddrSyntax)
    requires syn.parseV4("ff02::1").Err?
    ensures Netv4.Parse(syn, "ff02::1/zoop").Err?
  {
    var h := "ff02::1";
    assert NoSeparator(h);
    assert "ff02::1/zoop" == h + ['/'] + "zoop";
    Netv4.ParseBadAddress(syn, h, '/', "zoop", syn.parseV4(h).error);
  }

  /** ff02::1/zoop, which the IPv4 parser refuses, is the IPv6 single-address network. */
  lemma ParseV6Example(syn: AddrSyntax)
    requires syn.parseV4("ff02::1").Err?
    requires syn.parseV6("ff02::1") == Ok(0xff02_0000_0000_0000_0000_0000_0000_0001) && syn.parseV6("zoop").Err?
    ensures Parse(syn, "ff02::1/zoop") == Ok(NetAddr.V6(Netv6.Netv6Addr(U128_MAX, 0xff02_0000_0000_0000_0000_0000_0000_0001)))
  {
    var s := "ff02::1/zoop";
    Netv6.ParseHostExample(syn);
    V4RefusesFf02(syn);
    ParseDispatch(syn, s);
  }
}
