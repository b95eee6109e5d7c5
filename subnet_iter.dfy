/**
 * `SubnetIterator`: a cursor over the subnets of an IPv4 network that have a
 * requested mask. Each call of `next` yields the current candidate if the
 * outer network contains it, and moves the cursor on by the candidate's
 * size as long as the moved candidate is still contained.
 *
 * Two helpers the iterator calls are not part of this model, `Netv4Addr::len`
 * and `Offset<u32> for Netv4Addr`; they are defined here as what the iterator
 * needs of them: the number of addresses a mask leaves (`None` when that
 * number does not fit in a `u32`), and moving the base address by a checked
 * add while keeping the mask.
 */
module SubnetIter {
  import opened Wrappers
  import opened Bits
  import opened Addr
  import opened Masking
  import opened Offsets
  import opened Netv4

  lemma OnesFit(mask: u32)
    ensures CountOnes(mask) <= V4_BITS
  {
    Pow2At32();
    CountOnesFits(mask, V4_BITS);
  }

  /** The number of addresses a network with this mask spans: two to the number of zero bits. */
  function HostCount(mask: u32): nat
  {
    OnesFit(mask);
    Pow2(V4_BITS - CountOnes(mask))
  }

  /** Only the mask without one bits spans the whole address space. */
  lemma HostCountFits(mask: u32)
    ensures CountOnes(mask) > 0 ==> HostCount(mask) < U32_LIMIT
    ensures CountOnes(mask) == 0 ==> HostCount(mask) == U32_LIMIT
  {
    OnesFit(mask);
    Pow2At32();
    if CountOnes(mask) > 0 {
      Pow2Lt(V4_BITS - CountOnes(mask), V4_BITS);
    }
  }

  /** `Netv4Addr::len`: the network's address count, `None` for a mask without one bits. */
  function Len(n: Netv4Addr): (r: Option<u32>)
    ensures r.Some? <==> CountOnes(n.mask) > 0
    ensures r.Some? ==> r.value == HostCount(n.mask) && r.value < U32_LIMIT
  {
    HostCountFits(n.mask);
    if CountOnes(n.mask) == 0 then None else Some(HostCount(n.mask))
  }

  /** `Offset<u32> for Netv4Addr`: the base address moved by a checked add, the mask kept. */
  function OffsetNet(n: Netv4Addr, k: u32): (r: Option<Netv4Addr>)
    ensures r.Some? <==> n.addr + k < U32_LIMIT
    ensures r.Some? ==> r.value.mask == n.mask && r.value.addr == n.addr + k
  {
    match V4ByU32(n.addr, k)
    case Some(s) => Some(Netv4Addr(n.mask, s))
    case None => None
  }

  /**
   * Whether a contained candidate has a successor in the outer network: the
   * address one block further on exists and is in it.
   */
  predicate HasNext(net: Netv4Addr, c: Netv4Addr)
  {
    && CountOnes(c.mask) > 0
    && c.addr + HostCount(c.mask) < U32_LIMIT
    && ContainsAddr(net, c.addr + HostCount(c.mask))
  }

  /** How far the cursor is from the end of the address space. */
  function Remaining(cur: Option<Netv4Addr>): nat
  {
    match cur
    case None => 0
    case Some(c) => U32_LIMIT - c.addr
  }

  /** One call of `next`, on values: the item returned and the cursor left behind. */
  function Step(net: Netv4Addr, cur: Option<Netv4Addr>): (r: (Option<Netv4Addr>, Option<Netv4Addr>))
    ensures cur.None? ==> r == (None, None)
    ensures cur.Some? && !Contains(net, cur.value) ==> r == (None, cur)
    ensures cur.Some? && Contains(net, cur.value) ==> r.0 == cur
    ensures r.0.Some? && r.1.Some? ==>
      && r.1.value.mask == cur.value.mask
      && r.1.value.addr == cur.value.addr + HostCount(cur.value.mask)
    ensures r.0.Some? ==> Remaining(r.1) < Remaining(cur)
  {
    match cur
    case None => (None, None)
    case Some(c) =>
      if !Contains(net, c) then (None, cur)
      else
        var next := match Len(c) case Some(count) => OffsetNet(c, count) case None => None;
        match next
        case Some(x) => if Contains(net, x) then (cur, Some(x)) else (cur, None)
        case None => (cur, None)
  }

  /** Everything successive calls of `next` yield from cursor `cur`, up to the first `None`. */
  function Yields(net: Netv4Addr, cur: Option<Netv4Addr>): seq<Netv4Addr>
    decreases Remaining(cur)
  {
    var r := Step(net, cur);
    if r.0.None? then [] else [r.0.value] + Yields(net, r.1)
  }

  class SubnetIterator {
    const net: Netv4Addr
    var cur: Option<Netv4Addr>

    /** `subnets(mask)`: the first candidate is the outer base address under the requested mask. */
    constructor (net: Netv4Addr, mask: u32)
      ensures this.net == net && cur == Some(New(net.addr, mask))
    {
      this.net := net;
      cur := Some(New(net.addr, mask));
    }

    /** The subnets this iterator has still to yield. */
    function Pending(): seq<Netv4Addr>
      reads this
    {
      Yields(net, cur)
    }

    /** `Iterator::next`. */
    method Next() returns (item: Option<Netv4Addr>)
      modifies this
      ensures (item, cur) == Step(net, old(cur))
      ensures item.Some? ==> old(Pending()) == [item.value] + Pending()
      ensures item.None? <==> old(Pending()) == []
      ensures item.None? ==> cur == old(cur)
    {
      match cur {
        case Some(c) =>
          if Contains(net, c) {
            var count := Len(c);
            var next := match count case Some(k) => OffsetNet(c, k) case None => None;
            match next {
              case Some(x) =>
                if Contains(net, x) {
                  cur := Some(x);
                } else {
                  cur := None;
                }
              case None =>
                cur := None;
            }
            item := Some(c);
          } else {
            item := None;
          }
        case None =>
          item := None;
      }
    }
  }

  // ---------------------------------------------------------------------
  // What a run of the iterator yields

  /** Once `next` has returned `None` it returns `None` again: the cursor is left as it was. */
  lemma NoneIsFinal(net: Netv4Addr, cur: Option<Netv4Addr>)
    requires Step(net, cur).0.None?
    ensures Step(net, cur).1 == cur && Yields(net, cur) == []
  {
  }

  /**
   * A contained candidate is followed by the next block exactly when that
   * block exists and is still in the outer network; the cursor never leaves
   * the outer network.
   */
  lemma StepSuccessor(net: Netv4Addr, c: Netv4Addr)
    requires Contains(net, c)
    ensures Step(net, Some(c)).1.Some? <==> HasNext(net, c)
    ensures Step(net, Some(c)).1.Some? ==> Contains(net, Step(net, Some(c)).1.value)
  {
    var r := Step(net, Some(c));
    if r.1.Some? {
      ContainsBaseOnly(net, r.1.value);
    }
  }

  /** For a `/q` mask `len` is `2^(32-q)`, the size of the network, except for `/0`. */
  lemma LenPrefix(n: Netv4Addr, q: nat)
    requires q <= V4_BITS && n.mask == PrefixMask(q, V4_BITS)
    ensures Len(n).Some? <==> q > 0
    ensures Len(n).Some? ==> Len(n).value == Pow2(V4_BITS - q)
    ensures Canonical(n) && Len(n).Some? ==>
      forall a: u32 :: ContainsAddr(n, a) <==> n.addr <= a < n.addr + Len(n).value
  {
    CountOnesPrefix(q, V4_BITS);
    if Canonical(n) {
      forall a: u32 ensures ContainsAddr(n, a) <==> n.addr <= a < n.addr + Pow2(V4_BITS - q) {
        ContainsCidrRange(n, q, a);
      }
    }
  }

  /** The facts about a canonical `/p` network the splitting proofs share. */
  lemma OuterSpan(outer: Netv4Addr, p: nat, q: nat)
    requires p <= q <= V4_BITS && outer.mask == PrefixMask(p, V4_BITS) && Canonical(outer)
    ensures Pow2(V4_BITS - p) == Pow2(q - p) * Pow2(V4_BITS - q)
    ensures outer.addr + Pow2(V4_BITS - p) <= U32_LIMIT
    ensures outer.addr % Pow2(V4_BITS - q) == 0
  {
    SpanSplit(p, q);
    OuterFits(outer, p);
    OuterAligned(outer, p, q);
  }

  /** A `/p` span is `2^(q-p)` spans of `/q`. */
  lemma SpanSplit(p: nat, q: nat)
    requires p <= q <= V4_BITS
    ensures Pow2(V4_BITS - p) == Pow2(q - p) * Pow2(V4_BITS - q)
  {
    Pow2Add(q - p, V4_BITS - q);
    assert q - p + (V4_BITS - q) == V4_BITS - p;
  }

  /** A canonical `/p` network ends inside the address space. */
  lemma OuterFits(outer: Netv4Addr, p: nat)
    requires p <= V4_BITS && outer.mask == PrefixMask(p, V4_BITS) && Canonical(outer)
    ensures outer.addr + Pow2(V4_BITS - p) <= U32_LIMIT
  {
    AddrFits(outer.addr, p);
  }

  /** The base of a canonical `/p` network is aligned on every longer prefix. */
  lemma OuterAligned(outer: Netv4Addr, p: nat, q: nat)
    requires p <= q <= V4_BITS && outer.mask == PrefixMask(p, V4_BITS) && Canonical(outer)
    ensures outer.addr % Pow2(V4_BITS - q) == 0
  {
    AddrAligned(outer.addr, p, q);
  }

  lemma AddrFits(a: nat, p: nat)
    requires p <= V4_BITS && a < U32_LIMIT && And(a, PrefixMask(p, V4_BITS)) == a
    ensures a + Pow2(V4_BITS - p) <= U32_LIMIT
  {
    Pow2At32();
    AlignedPrefix(a, p, V4_BITS);
    AlignedFits(a, V4_BITS - p, V4_BITS);
  }

  lemma AddrAligned(a: nat, p: nat, q: nat)
    requires p <= q <= V4_BITS && a < U32_LIMIT && And(a, PrefixMask(p, V4_BITS)) == a
    ensures a % Pow2(V4_BITS - q) == 0
  {
    Pow2At32();
    AlignedLonger(a, p, q, V4_BITS);
    AlignedPrefix(a, q, V4_BITS);
  }

  /** Where block `j` of `k` blocks of `size` addresses from `base` ends. */
  lemma NextBlock(base: nat, size: nat, k: nat, j: nat, addr: nat)
    requires size > 0 && j < k && addr == base + j * size
    ensures base <= addr
    ensures addr + size == base + (j + 1) * size
    ensures addr + size <= base + k * size
    ensures j + 1 < k ==> addr + 2 * size <= base + k * size
    ensures j + 1 == k ==> addr + size == base + k * size
  {
    assert (j + 1) * size == j * size + size;
    MulMono(k, j + 1, size);
    if j + 1 < k {
      MulMono(k, j + 2, size);
      assert (j + 2) * size == j * size + 2 * size;
    }
  }

  /**
   * The `j`-th `/q` block of a canonical `/p` network, when it is not the
   * last one, is yielded and moves the cursor to the next block.
   */
  lemma TileStep(outer: Netv4Addr, p: nat, q: nat, j: nat, c: Netv4Addr, x: Netv4Addr)
    requires p <= q <= V4_BITS && outer.mask == PrefixMask(p, V4_BITS) && Canonical(outer)
    requires j < Pow2(q - p)
    requires c.mask == PrefixMask(q, V4_BITS) && c.addr == outer.addr + j * Pow2(V4_BITS - q)
    requires j + 1 < Pow2(q - p)
    requires x.mask == c.mask && x.addr == c.addr + Pow2(V4_BITS - q)
    ensures Step(outer, Some(c)) == (Some(c), Some(x))
  {
    TileContained(outer, p, q, j, c);
    TileSize(c, q);
    TileHasNext(outer, p, q, j, c);
    StepInto(outer, c, x);
  }

  /** A contained candidate with a next block yields itself and moves to that block. */
  lemma StepInto(net: Netv4Addr, c: Netv4Addr, x: Netv4Addr)
    requires Contains(net, c) && HasNext(net, c)
    requires x.mask == c.mask && x.addr == c.addr + HostCount(c.mask)
    ensures Step(net, Some(c)) == (Some(c), Some(x))
  {
  }

  /** The last block is yielded and clears the cursor. */
  lemma TileStepLast(outer: Netv4Addr, p: nat, q: nat, j: nat, c: Netv4Addr)
    requires p <= q <= V4_BITS && outer.mask == PrefixMask(p, V4_BITS) && Canonical(outer)
    requires j + 1 == Pow2(q - p)
    requires c.mask == PrefixMask(q, V4_BITS) && c.addr == outer.addr + j * Pow2(V4_BITS - q)
    ensures Step(outer, Some(c)) == (Some(c), None)
  {
    TileContained(outer, p, q, j, c);
    TileHasNext(outer, p, q, j, c);
    StepSuccessor(outer, c);
  }

  lemma TileContained(outer: Netv4Addr, p: nat, q: nat, j: nat, c: Netv4Addr)
    requires p <= q <= V4_BITS && outer.mask == PrefixMask(p, V4_BITS) && Canonical(outer)
    requires j < Pow2(q - p)
    requires c.mask == PrefixMask(q, V4_BITS) && c.addr == outer.addr + j * Pow2(V4_BITS - q)
    ensures Contains(outer, c)
  {
    var size, k, span := Pow2(V4_BITS - q), Pow2(q - p), Pow2(V4_BITS - p);
    OuterSpan(outer, p, q);
    NextBlock(outer.addr, size, k, j, c.addr);
    InOuter(outer, p, c.addr);
    ContainsBaseOnly(outer, c);
  }

  lemma TileSize(c: Netv4Addr, q: nat)
    requires q <= V4_BITS && c.mask == PrefixMask(q, V4_BITS)
    ensures HostCount(c.mask) == Pow2(V4_BITS - q) && CountOnes(c.mask) == q
  {
    var ones := CountOnes(c.mask);
    assert ones == q by { CountOnesPrefix(q, V4_BITS); }
    assert HostCount(c.mask) == Pow2(V4_BITS - ones);
  }

  lemma TileHasNext(outer: Netv4Addr, p: nat, q: nat, j: nat, c: Netv4Addr)
    requires p <= q <= V4_BITS && outer.mask == PrefixMask(p, V4_BITS) && Canonical(outer)
    requires j < Pow2(q - p)
    requires c.mask == PrefixMask(q, V4_BITS) && c.addr == outer.addr + j * Pow2(V4_BITS - q)
    ensures HasNext(outer, c) <==> j + 1 < Pow2(q - p)
  {
    var size, k, span := Pow2(V4_BITS - q), Pow2(q - p), Pow2(V4_BITS - p);
    TileSize(c, q);
    if q == 0 {
      assert k == 1;
    } else {
      var x := c.addr + size;
      assert outer.addr <= x && outer.addr + span <= U32_LIMIT && (x < outer.addr + span <==> j + 1 < k) by {
        OuterSpan(outer, p, q);
        NextInside(outer.addr, size, k, j, c.addr, span);
      }
      InOuter(outer, p, x);
      HasNextBelow(outer, c, x, outer.addr + span);
    }
  }

  /** `HasNext` when it is known which successor addresses are still in the outer network. */
  lemma HasNextBelow(net: Netv4Addr, c: Netv4Addr, x: nat, bound: nat)
    requires CountOnes(c.mask) > 0 && x == c.addr + HostCount(c.mask)
    requires (x < U32_LIMIT && ContainsAddr(net, x)) <==> x < bound
    ensures HasNext(net, c) <==> x < bound
  {
  }

  /** Block `j` of `k` is followed by another block inside the span exactly when it is not the last. */
  lemma NextInside(base: nat, size: nat, k: nat, j: nat, addr: nat, span: nat)
    requires size > 0 && j < k && addr == base + j * size && span == k * size
    ensures base <= addr
    ensures addr + size < base + span <==> j + 1 < k
  {
    NextBlock(base, size, k, j, addr);
  }

  /** Past the network address, an address is in a canonical `/p` network exactly below its end. */
  lemma InOuter(outer: Netv4Addr, p: nat, x: nat)
    requires p <= V4_BITS && outer.mask == PrefixMask(p, V4_BITS) && Canonical(outer)
    requires outer.addr <= x && outer.addr + Pow2(V4_BITS - p) <= U32_LIMIT
    ensures (x < U32_LIMIT && ContainsAddr(outer, x)) <==> x < outer.addr + Pow2(V4_BITS - p)
  {
    if x < U32_LIMIT {
      ContainsCidrRange(outer, p, x);
    }
  }

  /**
   * The `n` consecutive networks with mask `m` and `size` addresses each,
   * starting at address `start`; the list stops early at the end of the
   * address space.
   */
  function Tiles(m: u32, start: nat, size: nat, n: nat): seq<Netv4Addr>
    decreases n
  {
    if n == 0 || start + size > U32_LIMIT || size == 0 then []
    else [Netv4Addr(m, start)] + Tiles(m, start + size, size, n - 1)
  }

  /** Blocks that fit the address space are all there, in ascending order, `size` apart. */
  lemma {:induction false} TilesShape(m: u32, start: nat, size: nat, n: nat)
    requires size > 0 && start + n * size <= U32_LIMIT
    ensures |Tiles(m, start, size, n)| == n
    ensures forall i :: 0 <= i < n ==>
      Tiles(m, start, size, n)[i].mask == m && Tiles(m, start, size, n)[i].addr == start + i * size
    decreases n
  {
    if n > 0 {
      MulAtLeast(n, size);
      assert (n - 1) * size + size == n * size;
      TilesShape(m, start + size, size, n - 1);
      var t := Tiles(m, start, size, n);
      var rest := Tiles(m, start + size, size, n - 1);
      forall i | 0 <= i < n
        ensures t[i].mask == m && t[i].addr == start + i * size
      {
        if i > 0 {
          assert t[i] == rest[i - 1];
          assert start + size + (i - 1) * size == start + i * size;
        }
      }
    }
  }

  /**
   * The cursor at the `j`-th of the `k` `/q` blocks of a canonical `/p`
   * network, blocks of `size` addresses, yields blocks `j`, `j + 1`, ... up
   * to the last block inside the outer network.
   */
  lemma {:induction false} TilesFrom(outer: Netv4Addr, p: nat, q: nat, size: nat, k: nat, j: nat, c: Netv4Addr, n: nat)
    requires p <= q <= V4_BITS && outer.mask == PrefixMask(p, V4_BITS) && Canonical(outer)
    requires size == Pow2(V4_BITS - q) && k == Pow2(q - p)
    requires j < k && n == k - j
    requires c.mask == PrefixMask(q, V4_BITS) && c.addr == outer.addr + j * size
    ensures Yields(outer, Some(c)) == Tiles(c.mask, c.addr, size, n)
    decreases n
  {
    if j + 1 < k {
      TileNextAddr(outer, p, q, size, k, j, c.addr);
      var x := Netv4Addr(c.mask, c.addr + size);
      TilesFrom(outer, p, q, size, k, j + 1, x, n - 1);
      TilesMore(outer, p, q, size, k, j, c, x, n);
    } else {
      TilesLast(outer, p, q, size, k, j, c);
    }
  }

  /** Past block `j`, when it is not the last, comes block `j + 1`, still in the address space. */
  lemma TileNextAddr(outer: Netv4Addr, p: nat, q: nat, size: nat, k: nat, j: nat, addr: nat)
    requires p <= q <= V4_BITS && outer.mask == PrefixMask(p, V4_BITS) && Canonical(outer)
    requires size == Pow2(V4_BITS - q) && k == Pow2(q - p)
    requires j + 1 < k && addr == outer.addr + j * size
    ensures addr + size < U32_LIMIT && addr + size == outer.addr + (j + 1) * size
  {
    OuterSpan(outer, p, q);
    NextBlock(outer.addr, size, k, j, addr);
  }

  lemma TilesMore(outer: Netv4Addr, p: nat, q: nat, size: nat, k: nat, j: nat, c: Netv4Addr, x: Netv4Addr, n: nat)
    requires p <= q <= V4_BITS && outer.mask == PrefixMask(p, V4_BITS) && Canonical(outer)
    requires size == Pow2(V4_BITS - q) && k == Pow2(q - p)
    requires j + 1 < k && n == k - j
    requires c.mask == PrefixMask(q, V4_BITS) && c.addr == outer.addr + j * size
    requires x.mask == c.mask && x.addr == c.addr + size
    requires Yields(outer, Some(x)) == Tiles(x.mask, x.addr, size, n - 1)
    ensures Yields(outer, Some(c)) == Tiles(c.mask, c.addr, size, n)
  {
    assert c.addr + size <= U32_LIMIT by {
      OuterSpan(outer, p, q);
      NextBlock(outer.addr, size, k, j, c.addr);
    }
    TileStep(outer, p, q, j, c, x);
    YieldsCons(outer, c, x, size, n);
  }

  lemma TilesLast(outer: Netv4Addr, p: nat, q: nat, size: nat, k: nat, j: nat, c: Netv4Addr)
    requires p <= q <= V4_BITS && outer.mask == PrefixMask(p, V4_BITS) && Canonical(outer)
    requires size == Pow2(V4_BITS - q) && k == Pow2(q - p)
    requires j + 1 == k
    requires c.mask == PrefixMask(q, V4_BITS) && c.addr == outer.addr + j * size
    ensures Yields(outer, Some(c)) == Tiles(c.mask, c.addr, size, 1)
  {
    assert c.addr + size <= U32_LIMIT by {
      OuterSpan(outer, p, q);
      NextBlock(outer.addr, size, k, j, c.addr);
    }
    TileStepLast(outer, p, q, j, c);
    YieldsCons(outer, c, c, size, 1);
  }

  /** A step that yields a block and moves to the next one, or stops, extends the tiling by that block. */
  lemma YieldsCons(net: Netv4Addr, c: Netv4Addr, x: Netv4Addr, size: nat, n: nat)
    requires size > 0 && c.addr + size <= U32_LIMIT && n > 0
    requires n == 1 ==> Step(net, Some(c)) == (Some(c), None)
    requires n > 1 ==> Step(net, Some(c)) == (Some(c), Some(x))
    requires n > 1 ==> x.mask == c.mask && x.addr == c.addr + size
    requires n > 1 ==> Yields(net, Some(x)) == Tiles(x.mask, x.addr, size, n - 1)
    ensures Yields(net, Some(c)) == Tiles(c.mask, c.addr, size, n)
  {
    if n == 1 {
      assert Yields(net, None) == [];
    }
  }

  /**
   * Splitting: the subnets of a canonical `/p` network at a `/q` mask, for
   * `p <= q`, are its `2^(q-p)` blocks of `2^(32-q)` addresses, in ascending
   * order.
   */
  lemma SubnetsTile(outer: Netv4Addr, p: nat, q: nat, m: u32)
    requires p <= q <= V4_BITS && outer.mask == PrefixMask(p, V4_BITS) && Canonical(outer)
    requires m == PrefixMask(q, V4_BITS)
    ensures Yields(outer, Some(New(outer.addr, m))) == Tiles(m, outer.addr, Pow2(V4_BITS - q), Pow2(q - p))
  {
    assert New(outer.addr, m) == Netv4Addr(m, outer.addr) by {
      Pow2At32();
      AlignedLonger(outer.addr, p, q, V4_BITS);
    }
    TilesFrom(outer, p, q, Pow2(V4_BITS - q), Pow2(q - p), 0, Netv4Addr(m, outer.addr), Pow2(q - p));
  }

  /** Hence there are exactly `2^(q-p)` subnets, and subnet `i` starts `i` blocks past the base address. */
  lemma SubnetsShape(outer: Netv4Addr, p: nat, q: nat, m: u32)
    requires p <= q <= V4_BITS && outer.mask == PrefixMask(p, V4_BITS) && Canonical(outer)
    requires m == PrefixMask(q, V4_BITS)
    ensures |Yields(outer, Some(New(outer.addr, m)))| == Pow2(q - p)
    ensures forall i :: 0 <= i < |Yields(outer, Some(New(outer.addr, m)))| ==>
      && Yields(outer, Some(New(outer.addr, m)))[i].mask == m
      && Yields(outer, Some(New(outer.addr, m)))[i].addr == outer.addr + i * Pow2(V4_BITS - q)
  {
    SubnetsTile(outer, p, q, m);
    OuterSpan(outer, p, q);
    TilesShape(m, outer.addr, Pow2(V4_BITS - q), Pow2(q - p));
  }

  /**
   * The subnets cover the outer network exactly once: an address is in the
   * outer network if and only if it is in one of them, and then it is in
   * block number `(a - base) / 2^(32-q)` and in no other.
   */
  lemma SubnetsPartition(outer: Netv4Addr, p: nat, q: nat, m: u32, a: u32)
    requires p <= q <= V4_BITS && outer.mask == PrefixMask(p, V4_BITS) && Canonical(outer)
    requires m == PrefixMask(q, V4_BITS)
    ensures forall i :: 0 <= i < |Yields(outer, Some(New(outer.addr, m)))| ==>
      (ContainsAddr(Yields(outer, Some(New(outer.addr, m)))[i], a)
       <==> ContainsAddr(outer, a) && i == (a - outer.addr) / Pow2(V4_BITS - q))
    ensures ContainsAddr(outer, a) ==>
      (a - outer.addr) / Pow2(V4_BITS - q) < |Yields(outer, Some(New(outer.addr, m)))|
  {
    SubnetsShape(outer, p, q, m);
    var y := Yields(outer, Some(New(outer.addr, m)));
    forall i | 0 <= i < |y|
      ensures ContainsAddr(y[i], a) <==> ContainsAddr(outer, a) && i == (a - outer.addr) / Pow2(V4_BITS - q)
    {
      BlockContains(outer, p, q, i, y[i], a);
    }
    if ContainsAddr(outer, a) {
      IndexInRange(outer, p, q, a);
    }
  }

  /** An address of the outer network falls in one of its `2^(q-p)` blocks. */
  lemma IndexInRange(outer: Netv4Addr, p: nat, q: nat, a: u32)
    requires p <= q <= V4_BITS && outer.mask == PrefixMask(p, V4_BITS) && Canonical(outer)
    requires ContainsAddr(outer, a)
    ensures outer.addr <= a && (a - outer.addr) / Pow2(V4_BITS - q) < Pow2(q - p)
  {
    OuterSpan(outer, p, q);
    ContainsCidrRange(outer, p, a);
    InBlockIff(outer.addr, Pow2(V4_BITS - q), Pow2(q - p), 0, a);
  }

  /** Block `i` of the splitting contains exactly the outer addresses whose offset divided by the block size is `i`. */
  lemma BlockContains(outer: Netv4Addr, p: nat, q: nat, i: nat, b: Netv4Addr, a: u32)
    requires p <= q <= V4_BITS && outer.mask == PrefixMask(p, V4_BITS) && Canonical(outer)
    requires i < Pow2(q - p)
    requires b.mask == PrefixMask(q, V4_BITS) && b.addr == outer.addr + i * Pow2(V4_BITS - q)
    ensures ContainsAddr(b, a) <==>
      ContainsAddr(outer, a) && i == (a - outer.addr) / Pow2(V4_BITS - q)
  {
    OuterSpan(outer, p, q);
    BlockCanonical(b, q, outer.addr, i);
    ContainsCidrRange(b, q, a);
    ContainsCidrRange(outer, p, a);
    InBlockIff(outer.addr, Pow2(V4_BITS - q), Pow2(q - p), i, a);
  }

  /**
   * Of `k` blocks of `size` numbers from `base`, block `i` holds exactly the
   * numbers of the whole range whose offset divided by `size` is `i`.
   */
  lemma InBlockIff(base: nat, size: nat, k: nat, i: nat, a: nat)
    requires size > 0 && i < k
    ensures (base + i * size <= a < base + i * size + size)
        <==> (base <= a < base + k * size && i == (a - base) / size)
    ensures base <= a < base + k * size ==> (a - base) / size < k
  {
    NextBlock(base, size, k, i, base + i * size);
    if base <= a {
      BlockIndex(a - base, size, i);
      IndexBound(a - base, size, k);
    }
  }

  /** An offset lies in block `i` of `size` numbers exactly when dividing it by `size` gives `i`. */
  lemma BlockIndex(d: nat, size: nat, i: nat)
    requires size > 0
    ensures (i * size <= d < i * size + size) <==> i == d / size
  {
    if i * size <= d < i * size + size {
      DivModUnique(d, size, i, d - i * size);
    }
    if i == d / size {
      assert d == (d / size) * size + d % size;
    }
  }

  /** An offset below `k` blocks has a block index below `k`. */
  lemma IndexBound(d: nat, size: nat, k: nat)
    requires size > 0
    ensures d < k * size ==> d / size < k
  {
    if d < k * size && d / size >= k {
      MulMono(d / size, k, size);
    }
  }

  /** A `/q` block starting at an aligned base plus a multiple of its size is canonical. */
  lemma BlockCanonical(b: Netv4Addr, q: nat, base: nat, i: nat)
    requires q <= V4_BITS && b.mask == PrefixMask(q, V4_BITS)
    requires base % Pow2(V4_BITS - q) == 0 && b.addr == base + i * Pow2(V4_BITS - q)
    ensures Canonical(b)
  {
    Pow2At32();
    BlockAligned(base, i, Pow2(V4_BITS - q));
    AndPrefix(b.addr, q, V4_BITS);
  }

  /** Adding a multiple of an alignment to an aligned address keeps it aligned. */
  lemma BlockAligned(base: nat, i: nat, size: nat)
    requires size > 0 && base % size == 0
    ensures (base + i * size) % size == 0
  {
    var m := base / size;
    assert base + i * size == (m + i) * size;
    DivModUnique(base + i * size, size, m + i, 0);
  }

  /** A candidate outside the outer network yields nothing. */
  lemma YieldsOutside(net: Netv4Addr, c: Netv4Addr)
    requires !Contains(net, c)
    ensures Yields(net, Some(c)) == []
  {
  }

  /** A contained candidate without a next block yields itself alone. */
  lemma YieldsAlone(net: Netv4Addr, c: Netv4Addr)
    requires Contains(net, c) && !HasNext(net, c)
    ensures Yields(net, Some(c)) == [c]
  {
    StepSuccessor(net, c);
    assert Yields(net, None) == [];
  }

  /**
   * A requested mask shorter than the outer one is not refused as such: when
   * the outer base address is aligned on the shorter mask, the iterator
   * yields the larger network, once. 127.0.0.0/24 split at 255.0.0.0 yields
   * 127.0.0.0/8.
   */
  lemma SubnetsLargerAligned()
    ensures Yields(Netv4Addr(0xFFFF_FF00, 0x7F00_0000), Some(New(0x7F00_0000, 0xFF00_0000)))
         == [Netv4Addr(0xFF00_0000, 0x7F00_0000)]
  {
    var outer, c := Netv4Addr(0xFFFF_FF00, 0x7F00_0000), Netv4Addr(0xFF00_0000, 0x7F00_0000);
    Outer24At(0x7F_0000, 0x7F00_0000);
    assert New(0x7F00_0000, 0xFF00_0000) == c by { Base8(0x7F, 0x7F00_0000, 0); }
    assert Contains(outer, c) by { Mask24(0x7F_0000, 0x7F00_0000, 0); }
    assert !HasNext(outer, c) by {
      assert HostCount(c.mask) == 0x100_0000 by {
        assert PrefixMask(8, V4_BITS) == 0xFF00_0000 by { Pow2At32(); }
        TileSize(c, 8);
        Pow2At24();
      }
      assert Pow2(V4_BITS - 24) == 0x100 by { Pow2Byte(); }
      InOuter(outer, 24, 0x7F00_0000 + 0x100_0000);
    }
    YieldsAlone(outer, c);
  }

  /** Masking with 255.255.255.0 keeps the top three bytes. */
  lemma Mask24(k: nat, hi: nat, lo: nat)
    requires hi == k * 0x100 && lo < 0x100 && hi + lo < U32_LIMIT
    ensures MaskV4(hi + lo, 0xFFFF_FF00) == hi
  {
    assert PrefixMask(24, V4_BITS) == 0xFFFF_FF00 by { Pow2At32(); }
    assert Pow2(V4_BITS - 24) == 0x100 by { Pow2Byte(); }
    MaskV4Split(0xFFFF_FF00, 24, 0x100, k, hi, lo);
  }

  /** An address under the 255.0.0.0 mask: its top byte. */
  lemma Base8(k: nat, hi: nat, lo: nat)
    requires hi == k * 0x100_0000 && lo < 0x100_0000 && hi + lo < U32_LIMIT
    ensures New(hi + lo, 0xFF00_0000) == Netv4Addr(0xFF00_0000, hi)
  {
    assert PrefixMask(8, V4_BITS) == 0xFF00_0000 by { Pow2At32(); }
    assert Pow2(V4_BITS - 8) == 0x100_0000 by { Pow2At24(); }
    NewSplit(8, 0x100_0000, k, hi, lo);
  }

  /** A /24 network at an aligned address is a canonical `/24`. */
  lemma Outer24At(k: nat, a: u32)
    requires a == k * 0x100
    ensures Netv4Addr(0xFFFF_FF00, a).mask == PrefixMask(24, V4_BITS)
    ensures Canonical(Netv4Addr(0xFFFF_FF00, a))
  {
    assert PrefixMask(24, V4_BITS) == 0xFFFF_FF00 by { Pow2At32(); }
    Mask24(k, a, 0);
  }

  // ---------------------------------------------------------------------
  // The crate's iterator tests

  /** 127.0.16.0/24 split at 255.0.0.0 yields nothing: the first candidate, 127.0.0.0/8, is not in it. */
  lemma SubnetsLargerNone()
    ensures Yields(Netv4Addr(0xFFFF_FF00, 0x7F00_1000), Some(New(0x7F00_1000, 0xFF00_0000))) == []
  {
    var outer, c := Netv4Addr(0xFFFF_FF00, 0x7F00_1000), Netv4Addr(0xFF00_0000, 0x7F00_0000);
    assert New(0x7F00_1000, 0xFF00_0000) == c by { Base8(0x7F, 0x7F00_0000, 0x1000); }
    assert !Contains(outer, c) by { Mask24(0x7F_0000, 0x7F00_0000, 0); }
    YieldsOutside(outer, c);
  }

  /**
   * Splitting a canonical `/p` network at a shorter `/q` mask: the first
   * candidate is the outer base masked to `/q`. When the outer base is aligned
   * on `/q` that larger network is yielded once; otherwise nothing is.
   */
  lemma SubnetsLarger(outer: Netv4Addr, p: nat, q: nat, m: u32)
    requires q < p <= V4_BITS && outer.mask == PrefixMask(p, V4_BITS) && Canonical(outer)
    requires m == PrefixMask(q, V4_BITS)
    ensures MaskV4(outer.addr, m) == outer.addr ==>
      Yields(outer, Some(New(outer.addr, m))) == [Netv4Addr(m, outer.addr)]
    ensures MaskV4(outer.addr, m) != outer.addr ==> Yields(outer, Some(New(outer.addr, m))) == []
  {
    var c := New(outer.addr, m);
    LargerCandidate(outer, p, q, c);
    if c.addr == outer.addr {
      LargerAlone(outer, p, q, c);
      YieldsAlone(outer, c);
    } else {
      YieldsOutside(outer, c);
    }
  }

  /** A candidate aligned on a shorter prefix is in the outer network only if it starts at its base. */
  lemma LargerCandidate(outer: Netv4Addr, p: nat, q: nat, c: Netv4Addr)
    requires q < p <= V4_BITS && outer.mask == PrefixMask(p, V4_BITS)
    requires c.mask == PrefixMask(q, V4_BITS) && Canonical(c)
    ensures Contains(outer, c) <==> c.addr == outer.addr
  {
    Pow2At32();
    AlignedLonger(c.addr, q, p, V4_BITS);
  }

  /** The larger network at the outer base has no successor inside the outer network. */
  lemma LargerAlone(outer: Netv4Addr, p: nat, q: nat, c: Netv4Addr)
    requires q < p <= V4_BITS && outer.mask == PrefixMask(p, V4_BITS) && Canonical(outer)
    requires c.mask == PrefixMask(q, V4_BITS) && c.addr == outer.addr
    ensures Contains(outer, c) && !HasNext(outer, c)
  {
    TileSize(c, q);
    if q > 0 {
      var x, bound := c.addr + HostCount(c.mask), outer.addr + Pow2(V4_BITS - p);
      OuterFits(outer, p);
      assert bound <= x by { Pow2Le(V4_BITS - p, V4_BITS - q); }
      InOuter(outer, p, x);
      HasNextBelow(outer, c, x, bound);
    }
  }

  /** The outer network of the splitting tests: 127.16.32.0/24. */
  lemma Outer24()
    ensures Netv4Addr(0xFFFF_FF00, 0x7F10_2000).mask == PrefixMask(24, V4_BITS)
    ensures Canonical(Netv4Addr(0xFFFF_FF00, 0x7F10_2000))
  {
    Outer24At(0x7F_1020, 0x7F10_2000);
  }

  /** 127.16.32.0/24 split at 255.255.255.0 yields itself. */
  lemma Subnets24()
    ensures Yields(Netv4Addr(0xFFFF_FF00, 0x7F10_2000), Some(New(0x7F10_2000, 0xFFFF_FF00)))
         == [Netv4Addr(0xFFFF_FF00, 0x7F10_2000)]
  {
    Outer24();
    SubnetsTile(Netv4Addr(0xFFFF_FF00, 0x7F10_2000), 24, 24, 0xFFFF_FF00);
  }

  /** 127.16.32.0/24 split at 255.255.255.128 yields 127.16.32.0/25 and 127.16.32.128/25. */
  lemma Subnets25()
    ensures Yields(Netv4Addr(0xFFFF_FF00, 0x7F10_2000), Some(New(0x7F10_2000, 0xFFFF_FF80)))
         == [Netv4Addr(0xFFFF_FF80, 0x7F10_2000), Netv4Addr(0xFFFF_FF80, 0x7F10_2080)]
  {
    Outer24();
    Pow2At32();
    assert PrefixMask(25, V4_BITS) == 0xFFFF_FF80;
    SubnetsTile(Netv4Addr(0xFFFF_FF00, 0x7F10_2000), 24, 25, 0xFFFF_FF80);
    assert Pow2(V4_BITS - 25) == 0x80 && Pow2(25 - 24) == 2;
    Tiles25();
  }

  /** The 2 blocks of 0x80 addresses from 127.16.32.0 with mask 0xFFFF_FF80. */
  lemma Tiles25()
    ensures Tiles(0xFFFF_FF80, 0x7F10_2000, 0x80, 2)
         == [Netv4Addr(0xFFFF_FF80, 0x7F10_2000), Netv4Addr(0xFFFF_FF80, 0x7F10_2080)]
  {
    assert Tiles(0xFFFF_FF80, 0x7F10_2080, 0x80, 1) == [Netv4Addr(0xFFFF_FF80, 0x7F10_2080)];
  }

  /** 127.16.32.0/24 split at 255.255.255.192 yields its four /26 blocks in order. */
  lemma Subnets26()
    ensures Yields(Netv4Addr(0xFFFF_FF00, 0x7F10_2000), Some(New(0x7F10_2000, 0xFFFF_FFC0)))
         == [Netv4Addr(0xFFFF_FFC0, 0x7F10_2000), Netv4Addr(0xFFFF_FFC0, 0x7F10_2040),
             Netv4Addr(0xFFFF_FFC0, 0x7F10_2080), Netv4Addr(0xFFFF_FFC0, 0x7F10_20C0)]
  {
    Outer24();
    Pow2At32();
    assert PrefixMask(26, V4_BITS) == 0xFFFF_FFC0;
    SubnetsTile(Netv4Addr(0xFFFF_FF00, 0x7F10_2000), 24, 26, 0xFFFF_FFC0);
    assert Pow2(V4_BITS - 26) == 0x40 && Pow2(26 - 24) == 4;
    Tiles26();
  }

  /** The 4 blocks of 0x40 addresses from 127.16.32.0 with mask 0xFFFF_FFC0. */
  lemma Tiles26()
    ensures Tiles(0xFFFF_FFC0, 0x7F10_2000, 0x40, 4)
         == [Netv4Addr(0xFFFF_FFC0, 0x7F10_2000), Netv4Addr(0xFFFF_FFC0, 0x7F10_2040),
             Netv4Addr(0xFFFF_FFC0, 0x7F10_2080), Netv4Addr(0xFFFF_FFC0, 0x7F10_20C0)]
  {
    assert Tiles(0xFFFF_FFC0, 0x7F10_20C0, 0x40, 1) == [Netv4Addr(0xFFFF_FFC0, 0x7F10_20C0)];
    assert Tiles(0xFFFF_FFC0, 0x7F10_2080, 0x40, 2) == [Netv4Addr(0xFFFF_FFC0, 0x7F10_2080), Netv4Addr(0xFFFF_FFC0, 0x7F10_20C0)];
    assert Tiles(0xFFFF_FFC0, 0x7F10_2040, 0x40, 3) == [Netv4Addr(0xFFFF_FFC0, 0x7F10_2040), Netv4Addr(0xFFFF_FFC0, 0x7F10_2080), Netv4Addr(0xFFFF_FFC0, 0x7F10_20C0)];
  }

  /** 127.16.32.0/24 split at 255.255.255.224 yields its eight /27 blocks in order. */
  lemma Subnets27()
    ensures Yields(Netv4Addr(0xFFFF_FF00, 0x7F10_2000), Some(New(0x7F10_2000, 0xFFFF_FFE0)))
         == [Netv4Addr(0xFFFF_FFE0, 0x7F10_2000), Netv4Addr(0xFFFF_FFE0, 0x7F10_2020),
             Netv4Addr(0xFFFF_FFE0, 0x7F10_2040), Netv4Addr(0xFFFF_FFE0, 0x7F10_2060),
             Netv4Addr(0xFFFF_FFE0, 0x7F10_2080), Netv4Addr(0xFFFF_FFE0, 0x7F10_20A0),
             Netv4Addr(0xFFFF_FFE0, 0x7F10_20C0), Netv4Addr(0xFFFF_FFE0, 0x7F10_20E0)]
  {
    Outer24();
    Pow2At32();
    assert PrefixMask(27, V4_BITS) == 0xFFFF_FFE0;
    SubnetsTile(Netv4Addr(0xFFFF_FF00, 0x7F10_2000), 24, 27, 0xFFFF_FFE0);
    assert Pow2(V4_BITS - 27) == 0x20 && Pow2(27 - 24) == 8;
    Tiles27();
  }

  /** The 8 blocks of 0x20 addresses from 127.16.32.0 with mask 0xFFFF_FFE0. */
  lemma Tiles27()
    ensures Tiles(0xFFFF_FFE0, 0x7F10_2000, 0x20, 8)
         == [Netv4Addr(0xFFFF_FFE0, 0x7F10_2000), Netv4Addr(0xFFFF_FFE0, 0x7F10_2020),
             Netv4Addr(0xFFFF_FFE0, 0x7F10_2040), Netv4Addr(0xFFFF_FFE0, 0x7F10_2060),
             Netv4Addr(0xFFFF_FFE0, 0x7F10_2080), Netv4Addr(0xFFFF_FFE0, 0x7F10_20A0),
             Netv4Addr(0xFFFF_FFE0, 0x7F10_20C0), Netv4Addr(0xFFFF_FFE0, 0x7F10_20E0)]
  {
    Tiles27Upper();
    assert Tiles(0xFFFF_FFE0, 0x7F10_2040, 0x20, 6)
        == [Netv4Addr(0xFFFF_FFE0, 0x7F10_2040), Netv4Addr(0xFFFF_FFE0, 0x7F10_2060),
           Netv4Addr(0xFFFF_FFE0, 0x7F10_2080), Netv4Addr(0xFFFF_FFE0, 0x7F10_20A0),
           Netv4Addr(0xFFFF_FFE0, 0x7F10_20C0), Netv4Addr(0xFFFF_FFE0, 0x7F10_20E0)];
  }

  /** The upper four of them. */
  lemma Tiles27Upper()
    ensures Tiles(0xFFFF_FFE0, 0x7F10_2080, 0x20, 4)
         == [Netv4Addr(0xFFFF_FFE0, 0x7F10_2080), Netv4Addr(0xFFFF_FFE0, 0x7F10_20A0),
             Netv4Addr(0xFFFF_FFE0, 0x7F10_20C0), Netv4Addr(0xFFFF_FFE0, 0x7F10_20E0)]
  {
    assert Tiles(0xFFFF_FFE0, 0x7F10_20C0, 0x20, 2) == [Netv4Addr(0xFFFF_FFE0, 0x7F10_20C0), Netv4Addr(0xFFFF_FFE0, 0x7F10_20E0)];
  }

  /** Two consecutive blocks that fit the address space. */
  lemma TilesTwo(m: u32, start: nat, size: nat)
    requires size > 0 && start + 2 * size <= U32_LIMIT
    ensures Tiles(m, start, size, 2) == [Netv4Addr(m, start), Netv4Addr(m, start + size)]
  {
    assert Tiles(m, start + size, size, 1) == [Netv4Addr(m, start + size)];
  }

  /** A canonical `/p` network split one bit longer yields its lower and its upper half. */
  lemma SubnetsHalves(outer: Netv4Addr, p: nat, m: u32)
    requires p < V4_BITS && outer.mask == PrefixMask(p, V4_BITS) && Canonical(outer)
    requires m == PrefixMask(p + 1, V4_BITS)
    ensures outer.addr + Pow2(V4_BITS - (p + 1)) < U32_LIMIT
    ensures Yields(outer, Some(New(outer.addr, m)))
         == [Netv4Addr(m, outer.addr), Netv4Addr(m, outer.addr + Pow2(V4_BITS - (p + 1)))]
  {
    var size := Pow2(V4_BITS - (p + 1));
    assert Pow2(p + 1 - p) == 2;
    OuterSpan(outer, p, p + 1);
    SubnetsTile(outer, p, p + 1, m);
    TilesTwo(m, outer.addr, size);
  }

  /** A sequence split into its head and its tail. */
  lemma HeadTail<T>(s: seq<T>, x: T, rest: seq<T>)
    requires s == [x] + rest
    ensures x == s[0] && rest == s[1..]
  {
  }

  /** One call of `next` on an iterator with `x` first in line yields `x` and leaves the rest. */
  method TakeNext(it: SubnetIterator, x: Netv4Addr, rest: seq<Netv4Addr>) returns (item: Option<Netv4Addr>)
    requires it.Pending() == [x] + rest
    modifies it
    ensures item == Some(x) && it.Pending() == rest
  {
    ghost var before := it.Pending();
    item := it.Next();
    ghost var after := it.Pending();
    assert item.Some?;
    HeadTail(before, item.value, after);
  }

  /**
   * The iterator object on a canonical `/p` network split one bit longer:
   * the lower half, the upper half, then `None`.
   */
  method IterateHalves(outer: Netv4Addr, p: nat, m: u32)
    returns (first: Option<Netv4Addr>, second: Option<Netv4Addr>, third: Option<Netv4Addr>)
    requires p < V4_BITS && outer.mask == PrefixMask(p, V4_BITS) && Canonical(outer)
    requires m == PrefixMask(p + 1, V4_BITS)
    ensures first == Some(Netv4Addr(m, outer.addr))
    ensures second == Some(Netv4Addr(m, outer.addr + Pow2(V4_BITS - (p + 1))))
    ensures third == None
  {
    var it := StartHalves(outer, p, m);
    first, second, third := TakeTwo(it, Netv4Addr(m, outer.addr), Netv4Addr(m, outer.addr + Pow2(V4_BITS - (p + 1))));
  }

  /** Three calls of `next` on an iterator with two subnets pending: those two, then `None`. */
  method TakeTwo(it: SubnetIterator, x: Netv4Addr, y: Netv4Addr)
    returns (first: Option<Netv4Addr>, second: Option<Netv4Addr>, third: Option<Netv4Addr>)
    requires it.Pending() == [x] + [y]
    modifies it
    ensures first == Some(x) && second == Some(y) && third == None
  {
    first := TakeNext(it, x, [y]);
    assert it.Pending() == [y] + [];
    second := TakeNext(it, y, []);
    third := it.Next();
  }

  /** `subnets(mask)` on a canonical `/p` network, one bit longer: the two halves are pending. */
  method StartHalves(outer: Netv4Addr, p: nat, m: u32) returns (it: SubnetIterator)
    requires p < V4_BITS && outer.mask == PrefixMask(p, V4_BITS) && Canonical(outer)
    requires m == PrefixMask(p + 1, V4_BITS)
    ensures outer.addr + Pow2(V4_BITS - (p + 1)) < U32_LIMIT
    ensures fresh(it)
    ensures it.Pending() == [Netv4Addr(m, outer.addr)] + [Netv4Addr(m, outer.addr + Pow2(V4_BITS - (p + 1)))]
  {
    SubnetsHalves(outer, p, m);
    it := new SubnetIterator(outer, m);
    assert it.Pending() == [Netv4Addr(m, outer.addr), Netv4Addr(m, outer.addr + Pow2(V4_BITS - (p + 1)))];
  }
}
