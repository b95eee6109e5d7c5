/**
 * `AddressIterator`: a cursor over the addresses of a network. Each call of
 * `next` yields the current address and moves the cursor one address on, as
 * long as the current address is in the network. The last address of the
 * family is yielded without that test, after which the cursor is cleared.
 *
 * The iterator over a `Netv4Addr` and `Ipv4Addr` is the same code at another
 * type; it is the `NetAddr::V4` case here.
 */
module AddressIter {
  import opened Wrappers
  import opened Bits
  import opened Addr
  import opened Masking
  import opened Offsets
  import opened Network

  /** The last address of its family, the one `MaybeNext` cannot step past. */
  predicate IsLast(a: IpAddr)
  {
    a.Value() == Max(a.Bits())
  }

  /** `MaybeNext<u32>` by one: the following address, if the family has one. */
  function Succ(a: IpAddr): Option<IpAddr>
  {
    MaybeNext(a, 1)
  }

  /** How far the cursor is from the end of its family's address space. */
  function Remaining(cur: Option<IpAddr>): nat
  {
    match cur
    case None => 0
    case Some(c) => Pow2(c.Bits()) - c.Value()
  }

  /** One call of `next`, on values: the item returned and the cursor left behind. */
  function Step(net: NetAddr, cur: Option<IpAddr>): (r: (Option<IpAddr>, Option<IpAddr>))
    ensures cur.None? ==> r == (None, None)
    ensures cur.Some? && IsLast(cur.value) ==> r == (cur, None)
    ensures cur.Some? && !IsLast(cur.value) && ContainsIp(net, cur.value) ==>
      r == (cur, Some(WithValue(cur.value, cur.value.Value() + 1)))
    ensures cur.Some? && !IsLast(cur.value) && !ContainsIp(net, cur.value) ==> r == (None, cur)
    ensures r.0.Some? ==> Remaining(r.1) < Remaining(cur)
  {
    var next := match cur case Some(c) => Succ(c) case None => None;
    match (cur, next)
    case (Some(c), Some(n)) =>
      IpAddrEq(n, WithValue(c, c.Value() + 1));
      if ContainsIp(net, c) then (Some(c), Some(n)) else (None, cur)
    case (Some(c), None) => (Some(c), next)
    case (None, _) => (None, cur)
  }

  /** Everything successive calls of `next` yield from cursor `cur`, up to the first `None`. */
  function Yields(net: NetAddr, cur: Option<IpAddr>): seq<IpAddr>
    decreases Remaining(cur)
  {
    var r := Step(net, cur);
    if r.0.None? then [] else [r.0.value] + Yields(net, r.1)
  }

  class AddressIterator {
    const net: NetAddr
    var cur: Option<IpAddr>

    /** `iter()`: the cursor starts at the network address. */
    constructor (net: NetAddr)
      ensures this.net == net && cur == Some(net.Addr())
    {
      this.net := net;
      cur := Some(net.Addr());
    }

    /** The addresses this iterator has still to yield. */
    function Pending(): seq<IpAddr>
      reads this
    {
      Yields(net, cur)
    }

    /** `Iterator::next`. */
    method Next() returns (item: Option<IpAddr>)
      modifies this
      ensures (item, cur) == Step(net, old(cur))
      ensures item.Some? ==> old(Pending()) == [item.value] + Pending()
      ensures item.None? <==> old(Pending()) == []
      ensures item.None? ==> cur == old(cur)
    {
      var c := cur;
      var next := match c case Some(x) => Succ(x) case None => None;
      match (c, next) {
        case (Some(x), Some(n)) =>
          if ContainsIp(net, x) {
            cur := Some(n);
            item := Some(x);
          } else {
            item := None;
          }
        case (Some(x), None) =>
          cur := next;
          item := Some(x);
        case (None, _) =>
          item := None;
      }
    }
  }

  // ---------------------------------------------------------------------
  // What a run of the iterator yields

  /** Once `next` has returned `None` it returns `None` again: the cursor is left as it was. */
  lemma NoneIsFinal(net: NetAddr, cur: Option<IpAddr>)
    requires Step(net, cur).0.None?
    ensures Step(net, cur).1 == cur && Yields(net, cur) == []
  {
  }

  /** An address of the network other than the family's last is yielded, and the run goes on from the next one. */
  lemma YieldsStep(net: NetAddr, c: IpAddr)
    requires ContainsIp(net, c) && !IsLast(c)
    ensures c.Value() + 1 < Pow2(c.Bits())
    ensures Yields(net, Some(c)) == [c] + Yields(net, Some(WithValue(c, c.Value() + 1)))
  {
  }

  /** An address outside the network, other than the family's last, ends the run without being yielded. */
  lemma YieldsStop(net: NetAddr, c: IpAddr)
    requires !ContainsIp(net, c) && !IsLast(c)
    ensures Yields(net, Some(c)) == []
  {
  }

  /** The family's last address is yielded, in the network or not, and ends the run. */
  lemma YieldsAtLast(net: NetAddr, c: IpAddr)
    requires IsLast(c)
    ensures Yields(net, Some(c)) == [c]
  {
  }

  /** `s` is `c`, `c + 1`, `c + 2`, ... in `c`'s family. */
  predicate CountsUpFrom(s: seq<IpAddr>, c: IpAddr)
  {
    forall i :: 0 <= i < |s| ==> s[i].SameFamily(c) && s[i].Value() == c.Value() + i
  }

  /** Every address of `s` is in the network or is its family's last address. */
  predicate InNetOrLast(net: NetAddr, s: seq<IpAddr>)
  {
    forall i :: 0 <= i < |s| ==> ContainsIp(net, s[i]) || IsLast(s[i])
  }

  /** Counting up from the next address, with `c` put in front, is counting up from `c`. */
  lemma CountsUpCons(c: IpAddr, t: seq<IpAddr>)
    requires !IsLast(c) && CountsUpFrom(t, WithValue(c, c.Value() + 1))
    ensures CountsUpFrom([c] + t, c)
  {
    var y := [c] + t;
    forall i | 1 <= i < |y|
      ensures y[i] == t[i - 1]
    {
    }
  }

  /** `InNetOrLast` extended by an address of the network. */
  lemma InNetOrLastCons(net: NetAddr, c: IpAddr, t: seq<IpAddr>)
    requires ContainsIp(net, c) && InNetOrLast(net, t)
    ensures InNetOrLast(net, [c] + t)
  {
    var y := [c] + t;
    forall i | 0 <= i < |y|
      ensures ContainsIp(net, y[i]) || IsLast(y[i])
    {
      if i > 0 {
        assert y[i] == t[i - 1];
      }
    }
  }

  /** The yielded addresses count up from the cursor, in its family. */
  lemma {:induction false} YieldsCountUp(net: NetAddr, c: IpAddr)
    ensures CountsUpFrom(Yields(net, Some(c)), c)
    decreases Remaining(Some(c))
  {
    if IsLast(c) {
      YieldsAtLast(net, c);
    } else if !ContainsIp(net, c) {
      YieldsStop(net, c);
    } else {
      YieldsStep(net, c);
      var d := WithValue(c, c.Value() + 1);
      YieldsCountUp(net, d);
      CountsUpCons(c, Yields(net, Some(d)));
    }
  }

  /** Each yielded address is in the network or is the family's last address. */
  lemma {:induction false} YieldsInNetOrLast(net: NetAddr, c: IpAddr)
    ensures InNetOrLast(net, Yields(net, Some(c)))
    decreases Remaining(Some(c))
  {
    if IsLast(c) {
      YieldsAtLast(net, c);
    } else if !ContainsIp(net, c) {
      YieldsStop(net, c);
    } else {
      YieldsStep(net, c);
      var d := WithValue(c, c.Value() + 1);
      YieldsInNetOrLast(net, d);
      InNetOrLastCons(net, c, Yields(net, Some(d)));
    }
  }

  /**
   * The yielded addresses start at the cursor, stay in its family, go up by
   * exactly one each time, and each one is in the network or is the family's
   * last address.
   */
  lemma YieldsShape(net: NetAddr, c: IpAddr)
    ensures |Yields(net, Some(c))| > 0 ==> Yields(net, Some(c))[0] == c
    ensures CountsUpFrom(Yields(net, Some(c)), c)
    ensures InNetOrLast(net, Yields(net, Some(c)))
  {
    YieldsCountUp(net, c);
    YieldsInNetOrLast(net, c);
  }

  /** The addresses `a`, `a + 1`, ..., `a + k - 1` of `a`'s family. */
  function Run(a: IpAddr, k: nat): (r: seq<IpAddr>)
    requires a.Value() + k <= Pow2(a.Bits())
    ensures |r| == k && CountsUpFrom(r, a)
  {
    var r := seq(k, i requires 0 <= i < k => WithValue(a, a.Value() + i));
    assert CountsUpFrom(r, a) by {
      forall i | 0 <= i < k
        ensures r[i] == WithValue(a, a.Value() + i)
      {
      }
    }
    r
  }

  /** Two sequences of the same length that count up from the same address are equal. */
  lemma CountsUpUnique(s: seq<IpAddr>, t: seq<IpAddr>, c: IpAddr)
    requires |s| == |t| && CountsUpFrom(s, c) && CountsUpFrom(t, c)
    ensures s == t
  {
    forall i | 0 <= i < |s|
      ensures s[i] == t[i]
    {
      IpAddrEq(s[i], t[i]);
    }
  }

  /** A run of one address. */
  lemma RunOne(a: IpAddr)
    ensures Run(a, 1) == [a]
  {
    CountsUpUnique(Run(a, 1), [a], a);
  }

  /** The last address of a `/p` network. */
  function LastOf(net: NetAddr, p: nat): int
    requires p <= net.Addr().Bits()
  {
    net.Addr().Value() + Pow2(net.Addr().Bits() - p) - 1
  }

  /** The iterator yields the last address of a `/p` network and then stops, in the usual case. */
  lemma YieldsLast(net: NetAddr, p: nat, c: IpAddr)
    requires PrefixNet(net, p)
    requires c.SameFamily(net.Addr()) && c.Value() == LastOf(net, p)
    requires LastOf(net, p) + 2 != Pow2(c.Bits())
    ensures Yields(net, Some(c)) == [c]
  {
    if IsLast(c) {
      YieldsAtLast(net, c);
    } else {
      ContainsIpCidrRange(net, p, c);
      YieldsStep(net, c);
      var d := WithValue(c, c.Value() + 1);
      ContainsIpCidrRange(net, p, d);
      YieldsStop(net, d);
    }
  }

  /** From an address of a `/p` network, in the usual case, the iterator yields `n` addresses, up to the last one. */
  lemma {:induction false} YieldsCount(net: NetAddr, p: nat, c: IpAddr, n: nat)
    requires PrefixNet(net, p)
    requires c.SameFamily(net.Addr()) && net.Addr().Value() <= c.Value() <= LastOf(net, p)
    requires LastOf(net, p) + 2 != Pow2(c.Bits())
    requires n == LastOf(net, p) - c.Value() + 1
    ensures |Yields(net, Some(c))| == n
    decreases n
  {
    assert LastOf(net, p) < Pow2(c.Bits()) && ContainsIp(net, c) by {
      ContainsIpCidrRange(net, p, c);
    }
    if n == 1 {
      YieldsLast(net, p, c);
    } else {
      assert !IsLast(c);
      YieldsStep(net, c);
      YieldsCount(net, p, WithValue(c, c.Value() + 1), n - 1);
    }
  }

  /**
   * From any address of a `/p` network onwards, the iterator yields exactly the
   * rest of the network, unless the address after the network is the family's
   * last address, which would be yielded too.
   */
  lemma YieldsRest(net: NetAddr, p: nat, c: IpAddr, n: nat)
    requires PrefixNet(net, p)
    requires c.SameFamily(net.Addr()) && net.Addr().Value() <= c.Value() <= LastOf(net, p)
    requires LastOf(net, p) + 2 != Pow2(c.Bits())
    requires n == LastOf(net, p) - c.Value() + 1
    ensures LastOf(net, p) < Pow2(c.Bits())
    ensures Yields(net, Some(c)) == Run(c, n)
  {
    ContainsIpCidrRange(net, p, c);
    YieldsCount(net, p, c, n);
    YieldsCountUp(net, c);
    CountsUpUnique(Yields(net, Some(c)), Run(c, n), c);
  }

  /**
   * A `/p` network yields its `2^(w-p)` addresses in ascending order, from the
   * network address, when the address after its last one is not the family's
   * last address.
   */
  lemma YieldsNetwork(net: NetAddr, p: nat, size: nat)
    requires PrefixNet(net, p) && size == Pow2(net.Addr().Bits() - p)
    requires net.Addr().Value() + size + 1 != Pow2(net.Addr().Bits())
    ensures net.Addr().Value() + size <= Pow2(net.Addr().Bits())
    ensures Yields(net, Some(net.Addr())) == Run(net.Addr(), size)
  {
    YieldsRest(net, p, net.Addr(), size);
  }

  /**
   * The exception: a single-address network just below the family's last
   * address yields that last address as well, though it is not in the network.
   */
  lemma YieldsPastNetwork(net: NetAddr)
    requires Canonical(net) && net.Mask().Value() == Max(net.Addr().Bits())
    requires net.Addr().Value() + 2 == Pow2(net.Addr().Bits())
    ensures Yields(net, Some(net.Addr())) == [net.Addr(), WithValue(net.Addr(), net.Addr().Value() + 1)]
    ensures IsLast(WithValue(net.Addr(), net.Addr().Value() + 1))
    ensures !ContainsIp(net, WithValue(net.Addr(), net.Addr().Value() + 1))
  {
    var a := net.Addr();
    var b := WithValue(a, a.Value() + 1);
    SingleContains(net, b);
    YieldsStep(net, a);
    YieldsAtLast(net, b);
  }

  /** A single-address network contains its address and no other. */
  lemma SingleContains(net: NetAddr, b: IpAddr)
    requires Canonical(net) && net.Mask().Value() == Max(net.Addr().Bits())
    ensures ContainsIp(net, net.Addr())
    ensures ContainsIp(net, b) <==> b == net.Addr()
  {
    var w := net.Addr().Bits();
    PrefixMaskFull(w);
    assert Pow2(w - w) == 1;
    ContainsIpCidrRange(net, w, net.Addr());
    ContainsIpCidrRange(net, w, b);
    if ContainsIp(net, b) {
      IpAddrEq(b, net.Addr());
    }
  }

  // ---------------------------------------------------------------------
  // The crate's iterator tests

  /** A network whose mask is the IPv4 `/p` mask and whose address has no host bits is a `/p` network. */
  lemma PrefixNetV4(m: u32, x: u32, p: nat, size: nat)
    requires p <= V4_BITS && m == PrefixMask(p, V4_BITS) && size == Pow2(V4_BITS - p) && x % size == 0
    ensures PrefixNet(NetAddr.V4(Netv4.Netv4Addr(m, x)), p)
  {
    MaskV4Prefix(x, m, p);
  }

  /** A network whose mask is the IPv6 `/p` mask and whose address has no host bits is a `/p` network. */
  lemma PrefixNetV6(m: u128, x: u128, p: nat, size: nat)
    requires p <= V6_BITS && m == PrefixMask(p, V6_BITS) && size == Pow2(V6_BITS - p) && x % size == 0
    ensures PrefixNet(NetAddr.V6(Netv6.Netv6Addr(m, x)), p)
  {
    MaskV6Prefix(x, m, p);
  }

  /** A `/p` IPv4 network yields its addresses from the network address, in the usual case. */
  lemma YieldsPrefixV4(m: u32, x: u32, p: nat, size: nat)
    requires p <= V4_BITS && m == PrefixMask(p, V4_BITS) && size == Pow2(V4_BITS - p) && x % size == 0
    requires x + size + 1 != U32_LIMIT
    ensures x + size <= Pow2(V4_BITS)
    ensures Yields(NetAddr.V4(Netv4.Netv4Addr(m, x)), Some(IpAddr.V4(x))) == Run(IpAddr.V4(x), size)
  {
    Pow2At32();
    PrefixNetV4(m, x, p, size);
    YieldsNetwork(NetAddr.V4(Netv4.Netv4Addr(m, x)), p, size);
  }

  /** A `/p` IPv6 network yields its addresses from the network address, in the usual case. */
  lemma YieldsPrefixV6(m: u128, x: u128, p: nat, size: nat)
    requires p <= V6_BITS && m == PrefixMask(p, V6_BITS) && size == Pow2(V6_BITS - p) && x % size == 0
    requires x + size + 1 != U128_LIMIT
    ensures x + size <= Pow2(V6_BITS)
    ensures Yields(NetAddr.V6(Netv6.Netv6Addr(m, x)), Some(IpAddr.V6(x))) == Run(IpAddr.V6(x), size)
  {
    Pow2At128();
    PrefixNetV6(m, x, p, size);
    YieldsNetwork(NetAddr.V6(Netv6.Netv6Addr(m, x)), p, size);
  }

  /** The `/29` and `/31` IPv4 masks. */
  lemma MasksV4()
    ensures PrefixMask(29, V4_BITS) == 0xFFFF_FFF8 && PrefixMask(31, V4_BITS) == 0xFFFF_FFFE
  {
    Pow2At32();
  }

  /** The `/125` and `/127` IPv6 masks. */
  lemma MasksV6()
    ensures PrefixMask(125, V6_BITS) == 0xffff_ffff_ffff_ffff_ffff_ffff_ffff_fff8
    ensures PrefixMask(127, V6_BITS) == U128_MAX - 1
  {
    Pow2At128();
  }

  /** 127.0.16.0/32 yields 127.0.16.0 only. */
  lemma YieldsV4Slash32()
    ensures Yields(NetAddr.V4(Netv4.Netv4Addr(U32_MAX, 0x7F00_1000)), Some(IpAddr.V4(0x7F00_1000)))
         == [IpAddr.V4(0x7F00_1000)]
  {
    Pow2At32();
    PrefixMaskFull(V4_BITS);
    assert Pow2(V4_BITS - 32) == 1;
    YieldsPrefixV4(U32_MAX, 0x7F00_1000, 32, 1);
    RunOne(IpAddr.V4(0x7F00_1000));
  }

  /** 127.0.16.0/29 yields 127.0.16.0 up to 127.0.16.7. */
  lemma YieldsV4Slash29()
    ensures Yields(NetAddr.V4(Netv4.Netv4Addr(0xFFFF_FFF8, 0x7F00_1000)), Some(IpAddr.V4(0x7F00_1000)))
         == Run(IpAddr.V4(0x7F00_1000), 8)
  {
    MasksV4();
    assert Pow2(V4_BITS - 29) == 8;
    YieldsPrefixV4(0xFFFF_FFF8, 0x7F00_1000, 29, 8);
  }

  /** 255.255.255.254/31 yields 255.255.255.254 and 255.255.255.255, then stops. */
  lemma YieldsV4Top()
    ensures Yields(NetAddr.V4(Netv4.Netv4Addr(0xFFFF_FFFE, 0xFFFF_FFFE)), Some(IpAddr.V4(0xFFFF_FFFE)))
         == Run(IpAddr.V4(0xFFFF_FFFE), 2)
  {
    MasksV4();
    assert Pow2(V4_BITS - 31) == 2;
    YieldsPrefixV4(0xFFFF_FFFE, 0xFFFF_FFFE, 31, 2);
  }

  /** 2001:db8::/125 yields 2001:db8:: up to 2001:db8::7. */
  lemma YieldsV6Slash125()
    ensures Yields(NetAddr.V6(Netv6.Netv6Addr(0xffff_ffff_ffff_ffff_ffff_ffff_ffff_fff8, 0x2001_0db8_0000_0000_0000_0000_0000_0000)), Some(IpAddr.V6(0x2001_0db8_0000_0000_0000_0000_0000_0000)))
         == Run(IpAddr.V6(0x2001_0db8_0000_0000_0000_0000_0000_0000), 8)
  {
    MasksV6();
    assert Pow2(V6_BITS - 125) == 8;
    YieldsPrefixV6(0xffff_ffff_ffff_ffff_ffff_ffff_ffff_fff8, 0x2001_0db8_0000_0000_0000_0000_0000_0000, 125, 8);
  }

  /** 2001:db8::1/128 yields 2001:db8::1 only. */
  lemma YieldsV6Slash128()
    ensures Yields(NetAddr.V6(Netv6.Netv6Addr(U128_MAX, 0x2001_0db8_0000_0000_0000_0000_0000_0001)), Some(IpAddr.V6(0x2001_0db8_0000_0000_0000_0000_0000_0001)))
         == [IpAddr.V6(0x2001_0db8_0000_0000_0000_0000_0000_0001)]
  {
    Pow2At128();
    PrefixMaskFull(V6_BITS);
    assert Pow2(V6_BITS - 128) == 1;
    YieldsPrefixV6(U128_MAX, 0x2001_0db8_0000_0000_0000_0000_0000_0001, 128, 1);
    RunOne(IpAddr.V6(0x2001_0db8_0000_0000_0000_0000_0000_0001));
  }

  /** ffff:ffff:ffff:ffff:ffff:ffff:ffff:fffe/127 yields its two addresses, then stops. */
  lemma YieldsV6Top()
    ensures Yields(NetAddr.V6(Netv6.Netv6Addr(U128_MAX - 1, U128_MAX - 1)), Some(IpAddr.V6(U128_MAX - 1)))
         == Run(IpAddr.V6(U128_MAX - 1), 2)
  {
    MasksV6();
    assert Pow2(V6_BITS - 127) == 2;
    YieldsPrefixV6(U128_MAX - 1, U128_MAX - 1, 127, 2);
  }

  /** 255.255.255.254/32 yields 255.255.255.254 and then 255.255.255.255, which it does not contain. */
  lemma YieldsV4PastNetwork()
    ensures Yields(NetAddr.V4(Netv4.Netv4Addr(U32_MAX, 0xFFFF_FFFE)), Some(IpAddr.V4(0xFFFF_FFFE)))
         == [IpAddr.V4(0xFFFF_FFFE), IpAddr.V4(0xFFFF_FFFF)]
    ensures !ContainsIp(NetAddr.V4(Netv4.Netv4Addr(U32_MAX, 0xFFFF_FFFE)), IpAddr.V4(0xFFFF_FFFF))
  {
    var net := NetAddr.V4(Netv4.Netv4Addr(U32_MAX, 0xFFFF_FFFE));
    var a := IpAddr.V4(0xFFFF_FFFE);
    assert Pow2(V4_BITS) == U32_LIMIT && Max(V4_BITS) == U32_MAX by { Pow2At32(); }
    assert Canonical(net) by { AndMax(0xFFFF_FFFE, V4_BITS); }
    YieldsPastNetwork(net);
    IpAddrEq(WithValue(a, 0xFFFF_FFFF), IpAddr.V4(0xFFFF_FFFF));
  }

  /** The iterator object on 127.0.16.0/32: the network address, then `None`, then `None` again. */
  method IterateSlash32()
  {
    var net := NetAddr.V4(Netv4.Netv4Addr(U32_MAX, 0x7F00_1000));
    var it := new AddressIterator(net);
    YieldsV4Slash32();
    var first := it.Next();
    assert first == Some(IpAddr.V4(0x7F00_1000));
    var second := it.Next();
    assert second == None;
    var third := it.Next();
    assert third == None;
  }
}
