/** `core::cmp::Ordering` and the comparison of unsigned integers. */
module Order {
  datatype Ordering = Less | Equal | Greater {
    /** `Ordering::reverse`. */
    function Reverse(): Ordering
    {
      match this
      case Less => Greater
      case Equal => Equal
      case Greater => Less
    }
  }

  /** `Ord::cmp` on integers. */
  function CmpNat(a: int, b: int): (o: Ordering)
    ensures o == Less <==> a < b
    ensures o == Equal <==> a == b
    ensures o == Greater <==> a > b
  {
    if a < b then Less else if a == b then Equal else Greater
  }

  /** Comparing the other way round reverses the ordering. */
  lemma CmpNatReverse(a: int, b: int)
    ensures CmpNat(b, a) == CmpNat(a, b).Reverse()
  {
  }

  /** `Less` and `Equal` compose: the comparison is a total preorder. */
  lemma CmpNatTransitive(a: int, b: int, c: int)
    requires CmpNat(a, b) != Greater && CmpNat(b, c) != Greater
    ensures CmpNat(a, c) != Greater
    ensures CmpNat(a, c) == Equal <==> CmpNat(a, b) == Equal && CmpNat(b, c) == Equal
  {
  }
}
