/**
 * Fixed-width unsigned integer operations on natural numbers.
 *
 * A Rust `u32` is the naturals below 2^32 and a `u128` the naturals below
 * 2^128; every operator the crate uses on them (`&`, `|`, `^`, `!`, `<<`, `>>`,
 * `checked_shl`, `checked_shr`, `checked_add`, `checked_sub`, `count_ones`) is
 * defined here once, for an arbitrary width `w`, bit by bit from the least
 * significant end.
 */
module Bits {
  import opened Wrappers

  function Pow2(n: nat): (r: nat)
    ensures r >= 1
  {
    if n == 0 then 1 else 2 * Pow2(n - 1)
  }

  /** The largest value of a `w`-bit word (`u32::MAX`, `u128::MAX`). */
  function Max(w: nat): nat
  {
    Pow2(w) - 1
  }

  /** Bitwise AND. */
  function And(a: nat, b: nat): nat
    decreases a + b
  {
    if a == 0 && b == 0 then 0
    else (if a % 2 == 1 && b % 2 == 1 then 1 else 0) + 2 * And(a / 2, b / 2)
  }

  /** Bitwise inclusive OR. */
  function Or(a: nat, b: nat): nat
    decreases a + b
  {
    if a == 0 && b == 0 then 0
    else (if a % 2 == 1 || b % 2 == 1 then 1 else 0) + 2 * Or(a / 2, b / 2)
  }

  /** Bitwise exclusive OR. */
  function Xor(a: nat, b: nat): nat
    decreases a + b
  {
    if a == 0 && b == 0 then 0
    else (if a % 2 != b % 2 then 1 else 0) + 2 * Xor(a / 2, b / 2)
  }

  /** Bitwise complement of a `w`-bit word (Rust's `!`). */
  function Not(a: nat, w: nat): nat
  {
    if w == 0 then 0 else (1 - a % 2) + 2 * Not(a / 2, w - 1)
  }

  /** Number of one bits (`count_ones`). */
  function CountOnes(a: nat): nat
  {
    if a == 0 then 0 else a % 2 + CountOnes(a / 2)
  }

  /** `a << s` on a `w`-bit word: bits shifted past the top are lost. */
  function Shl(a: nat, s: nat, w: nat): nat
  {
    (a * Pow2(s)) % Pow2(w)
  }

  /** `a >> s`: the low `s` bits are dropped one at a time. */
  function Shr(a: nat, s: nat): nat
  {
    if s == 0 then a else Shr(a / 2, s - 1)
  }

  /** `checked_shl`: no result when the shift amount is not below the width. */
  function CheckedShl(a: nat, s: nat, w: nat): Option<nat>
  {
    if s < w then Some(Shl(a, s, w)) else None
  }

  /** `checked_shr`: no result when the shift amount is not below the width. */
  function CheckedShr(a: nat, s: nat, w: nat): Option<nat>
  {
    if s < w then Some(Shr(a, s)) else None
  }

  /** `checked_add` on a `w`-bit word: no result on overflow. */
  function CheckedAdd(a: nat, k: nat, w: nat): Option<nat>
  {
    if a + k < Pow2(w) then Some(a + k) else None
  }

  /** `checked_sub` on an unsigned word: no result below zero. */
  function CheckedSub(a: nat, k: nat): Option<nat>
  {
    if k <= a then Some(a - k) else None
  }

  /**
   * The mask whose `p` most significant bits (of `w`) are one and whose other
   * bits are zero: the netmask of a `/p` network.
   */
  function PrefixMask(p: nat, w: nat): nat
    requires p <= w
  {
    Pow2Le(w - p, w);
    Pow2(w) - Pow2(w - p)
  }

  // ---------------------------------------------------------------------
  // Powers of two and division by them

  lemma {:induction false} Pow2Add(a: nat, b: nat)
    ensures Pow2(a + b) == Pow2(a) * Pow2(b)
    decreases a
  {
    if a > 0 {
      Pow2Add(a - 1, b);
      assert Pow2(a + b) == 2 * Pow2(a - 1 + b);
    }
  }

  lemma {:induction false} Pow2Le(a: nat, b: nat)
    requires a <= b
    ensures Pow2(a) <= Pow2(b)
    decreases b
  {
    if a < b {
      Pow2Le(a, b - 1);
    }
  }

  lemma Pow2Lt(a: nat, b: nat)
    requires a < b
    ensures 2 * Pow2(a) <= Pow2(b)
  {
    Pow2Le(a + 1, b);
  }

  lemma DivModUnique(x: int, d: int, q: int, r: int)
    requires d > 0 && 0 <= r < d && x == q * d + r
    ensures x / d == q && x % d == r
  {
    var q', r' := x / d, x % d;
    assert (q' - q) * d == r - r';
    if q' > q {
      MulAtLeast(q' - q, d);
    } else if q' < q {
      MulAtLeast(q - q', d);
    }
  }

  lemma MulAtLeast(k: int, d: int)
    requires k >= 1 && d > 0
    ensures k * d >= d
  {
    assert k * d == (k - 1) * d + d;
  }

  /** The low `z` bits of `x` are its low bit plus twice the low `z - 1` bits of `x / 2`. */
  lemma ModPow2Step(x: nat, z: nat)
    requires z > 0
    ensures x % Pow2(z) == x % 2 + 2 * ((x / 2) % Pow2(z - 1))
    ensures x / Pow2(z) == (x / 2) / Pow2(z - 1)
  {
    var h := x / 2;
    var q, r := h / Pow2(z - 1), h % Pow2(z - 1);
    assert h == q * Pow2(z - 1) + r;
    assert x == q * Pow2(z) + (x % 2 + 2 * r);
    DivModUnique(x, Pow2(z), q, x % 2 + 2 * r);
  }

  /** The all-ones word is one more than twice the all-ones word one bit narrower. */
  lemma MaxStep(w: nat)
    requires w > 0
    ensures Max(w) == 2 * Max(w - 1) + 1
    ensures Max(w) % 2 == 1 && Max(w) / 2 == Max(w - 1)
  {
  }

  lemma HalfFits(x: nat, w: nat)
    requires w > 0 && x < Pow2(w)
    ensures x / 2 < Pow2(w - 1)
  {
  }

  lemma MultipleOf(a: nat, big: nat, k: nat, f: nat, small: nat)
    requires big > 0 && a % big == 0 && k == a / big && big == f * small
    ensures a == (k * f) * small
  {
    assert a == k * big;
  }

  /** A block of `Pow2(z)` addresses aligned on its size and starting inside the word ends inside it. */
  lemma AlignedFits(a: nat, z: nat, w: nat)
    requires z <= w && a < Pow2(w) && a % Pow2(z) == 0
    ensures a + Pow2(z) <= Pow2(w)
  {
    Pow2Add(w - z, z);
    BlockFits(a, Pow2(z), Pow2(w - z), Pow2(w));
  }

  lemma BlockFits(a: nat, d: nat, m: nat, big: nat)
    requires d > 0 && big == m * d && a < big && a % d == 0
    ensures a + d <= big
  {
    var k := a / d;
    assert a == k * d;
    assert k < m by {
      if k >= m {
        MulMono(k, m, d);
      }
    }
    MulMono(m, k + 1, d);
    assert (k + 1) * d == a + d;
  }

  lemma MulMono(k: int, m: int, d: int)
    requires d > 0 && k >= m
    ensures k * d >= m * d
  {
    assert k * d - m * d == (k - m) * d;
    if k > m {
      MulAtLeast(k - m, d);
    }
  }

  /** Multiples of `Pow2(z)` shifted by less than `Pow2(z)` keep their remainder. */
  lemma ModAligned(a: nat, d: nat, z: nat)
    requires a % Pow2(z) == 0 && d < Pow2(z)
    ensures (a + d) % Pow2(z) == d
    ensures (a + d) - (a + d) % Pow2(z) == a
  {
    DivModUnique(a + d, Pow2(z), a / Pow2(z), d);
  }

  // ---------------------------------------------------------------------
  // AND

  lemma {:induction false} AndComm(a: nat, b: nat)
    ensures And(a, b) == And(b, a)
    decreases a + b
  {
    if a != 0 || b != 0 {
      AndComm(a / 2, b / 2);
    }
  }

  lemma {:induction false} AndIdem(a: nat, m: nat)
    ensures And(And(a, m), m) == And(a, m)
    decreases a + m
  {
    if a != 0 || m != 0 {
      var r, b, h := And(a, m), (if a % 2 == 1 && m % 2 == 1 then 1 else 0), And(a / 2, m / 2);
      BitSplit(r, b, h);
      AndIdem(a / 2, m / 2);
      assert And(r, m) == b + 2 * And(h, m / 2);
    }
  }

  lemma {:induction false} AndLe(a: nat, b: nat)
    ensures And(a, b) <= a && And(a, b) <= b
    decreases a + b
  {
    if a != 0 || b != 0 {
      AndLe(a / 2, b / 2);
    }
  }

  lemma {:induction false} AndZero(a: nat)
    ensures And(a, 0) == 0
    decreases a
  {
    if a != 0 {
      AndZero(a / 2);
    }
  }

  /** AND with the all-ones word of width `w` leaves a `w`-bit value unchanged. */
  lemma {:induction false} AndMax(a: nat, w: nat)
    requires a < Pow2(w)
    ensures And(a, Max(w)) == a
    decreases w
  {
    if w > 0 {
      MaxStep(w);
      HalfFits(a, w);
      AndMax(a / 2, w - 1);
    }
  }

  lemma {:induction false} AndFits(a: nat, b: nat, w: nat)
    requires a < Pow2(w)
    ensures And(a, b) < Pow2(w)
  {
    AndLe(a, b);
  }

  // ---------------------------------------------------------------------
  // OR, NOT and XOR

  lemma {:induction false} OrGe(a: nat, b: nat)
    ensures Or(a, b) >= a
    decreases a + b
  {
    if a != 0 || b != 0 {
      OrGe(a / 2, b / 2);
    }
  }

  lemma {:induction false} OrFits(a: nat, b: nat, w: nat)
    requires a < Pow2(w) && b < Pow2(w)
    ensures Or(a, b) < Pow2(w)
    decreases w
  {
    if w > 0 && (a != 0 || b != 0) {
      HalfFits(a, w);
      HalfFits(b, w);
      OrFits(a / 2, b / 2, w - 1);
    }
  }

  /** The complement of a `w`-bit value is the distance to the all-ones word. */
  lemma {:induction false} NotIsMaxMinus(a: nat, w: nat)
    requires a < Pow2(w)
    ensures Not(a, w) == Max(w) - a
    decreases w
  {
    if w > 0 {
      HalfFits(a, w);
      NotIsMaxMinus(a / 2, w - 1);
    }
  }

  /** XOR with the all-ones word complements a `w`-bit value. */
  lemma {:induction false} XorMax(y: nat, w: nat)
    requires y < Pow2(w)
    ensures Xor(Max(w), y) == Max(w) - y
    decreases w
  {
    if w > 0 {
      MaxStep(w);
      HalfFits(y, w);
      XorMax(y / 2, w - 1);
      XorStep(Max(w), y);
    }
  }

  lemma XorStep(a: nat, b: nat)
    ensures Xor(a, b) == (if a % 2 != b % 2 then 1 else 0) + 2 * Xor(a / 2, b / 2)
  {
  }

  lemma {:induction false} XorZero(x: nat)
    ensures Xor(x, 0) == x
    decreases x
  {
    if x != 0 {
      XorZero(x / 2);
    }
  }

  /**
   * Setting the host bits and masking them off again gives the network part:
   * `(a | !m) & m == a & m`.
   */
  lemma {:induction false} AndOrNot(a: nat, m: nat, w: nat)
    ensures And(Or(a, Not(m, w)), m) == And(a, m)
    decreases w
  {
    if w == 0 {
      OrZeroR(a);
    } else {
      var n := Not(m, w);
      assert n % 2 == 1 - m % 2 && n / 2 == Not(m / 2, w - 1);
      var o := Or(a, n);
      OrStep(a, n);
      AndOrNot(a / 2, m / 2, w - 1);
      AndStep(o, m);
      AndStep(a, m);
    }
  }

  lemma {:induction false} OrZeroR(a: nat)
    ensures Or(a, 0) == a
    decreases a
  {
    if a != 0 {
      OrZeroR(a / 2);
    }
  }

  lemma OrStep(a: nat, b: nat)
    ensures Or(a, b) % 2 == (if a % 2 == 1 || b % 2 == 1 then 1 else 0)
    ensures Or(a, b) / 2 == Or(a / 2, b / 2)
  {
  }

  /** A low bit and the remaining bits determine a number and are determined by it. */
  lemma BitSplit(r: nat, b: nat, h: nat)
    requires b < 2 && r == b + 2 * h
    ensures r % 2 == b && r / 2 == h
  {
  }

  lemma AndStep(a: nat, b: nat)
    ensures And(a, b) == (if a % 2 == 1 && b % 2 == 1 then 1 else 0) + 2 * And(a / 2, b / 2)
  {
  }

  // ---------------------------------------------------------------------
  // count_ones

  lemma {:induction false} CountOnesFits(x: nat, w: nat)
    requires x < Pow2(w)
    ensures CountOnes(x) <= w
    decreases w
  {
    if w > 0 && x != 0 {
      HalfFits(x, w);
      CountOnesFits(x / 2, w - 1);
    }
  }

  lemma {:induction false} CountOnesMax(w: nat)
    ensures CountOnes(Max(w)) == w
    decreases w
  {
    if w > 0 {
      MaxStep(w);
      CountOnesMax(w - 1);
    }
  }

  // ---------------------------------------------------------------------
  // Prefix masks

  lemma PrefixMaskFits(p: nat, w: nat)
    requires p <= w
    ensures PrefixMask(p, w) < Pow2(w)
  {
  }

  /** Halving a prefix mask of `w` bits gives the same prefix over `w - 1` bits. */
  lemma PrefixMaskHalf(p: nat, w: nat)
    requires p < w
    ensures PrefixMask(p, w) % 2 == 0
    ensures PrefixMask(p, w) / 2 == PrefixMask(p, w - 1)
  {
    assert Pow2(w) == 2 * Pow2(w - 1);
    assert Pow2(w - p) == 2 * Pow2(w - 1 - p);
  }

  lemma PrefixMaskFull(w: nat)
    ensures PrefixMask(w, w) == Max(w)
  {
  }

  /** A `/p` mask has exactly `p` one bits. */
  lemma {:induction false} CountOnesPrefix(p: nat, w: nat)
    requires p <= w
    ensures CountOnes(PrefixMask(p, w)) == p
    decreases w
  {
    if p == w {
      CountOnesMax(w);
    } else {
      PrefixMaskHalf(p, w);
      CountOnesPrefix(p, w - 1);
      if PrefixMask(p, w) == 0 {
        assert p == 0;
      }
    }
  }

  /** Masking with a `/p` mask clears exactly the low `w - p` bits. */
  lemma {:induction false} AndPrefix(x: nat, p: nat, w: nat)
    requires p <= w && x < Pow2(w)
    ensures And(x, PrefixMask(p, w)) == x - x % Pow2(w - p)
    decreases w
  {
    if p == w {
      AndMax(x, w);
    } else {
      var m, h := PrefixMask(p, w), x / 2;
      var r := h % Pow2(w - 1 - p);
      assert And(x, m) == 2 * (h - r) by {
        PrefixMaskHalf(p, w);
        HalfFits(x, w);
        AndPrefix(h, p, w - 1);
        AndStep(x, m);
      }
      assert x % Pow2(w - p) == x % 2 + 2 * r by {
        ModPow2Step(x, w - p);
      }
    }
  }

  /** Prefix masks are ordered as their lengths. */
  lemma PrefixMaskLess(p: nat, q: nat, w: nat)
    requires p < q <= w
    ensures PrefixMask(p, w) < PrefixMask(q, w)
  {
    Pow2Lt(w - q, w - p);
  }

  /** A network address aligned on a `/p` boundary has zero low bits. */
  lemma AlignedPrefix(a: nat, p: nat, w: nat)
    requires p <= w && a < Pow2(w) && And(a, PrefixMask(p, w)) == a
    ensures a % Pow2(w - p) == 0
  {
    AndPrefix(a, p, w);
  }

  /**
   * For a base address aligned on a `/p` boundary, the addresses that mask to
   * it are exactly the `Pow2(w - p)` consecutive ones starting at it.
   */
  lemma PrefixRange(x: nat, a: nat, p: nat, w: nat)
    requires p <= w && a < Pow2(w) && x < Pow2(w) && And(a, PrefixMask(p, w)) == a
    ensures And(x, PrefixMask(p, w)) == a <==> a <= x < a + Pow2(w - p)
  {
    AlignedPrefix(a, p, w);
    AndPrefix(x, p, w);
    if a <= x < a + Pow2(w - p) {
      ModAligned(a, x - a, w - p);
    }
  }

  /** An address aligned on a shorter prefix is also aligned on a longer one. */
  lemma AlignedLonger(a: nat, p: nat, q: nat, w: nat)
    requires p <= q <= w && a < Pow2(w) && And(a, PrefixMask(p, w)) == a
    ensures And(a, PrefixMask(q, w)) == a
  {
    AlignedPrefix(a, p, w);
    AndPrefix(a, q, w);
    var big, small, f := Pow2(w - p), Pow2(w - q), Pow2(q - p);
    Pow2Add(q - p, w - q);
    assert big == f * small;
    var k := a / big;
    MultipleOf(a, big, k, f, small);
    DivModUnique(a, small, k * f, 0);
  }

  /** Setting the low `z` bits of an address whose low `z` bits are clear adds them. */
  lemma {:induction false} OrLowOnes(a: nat, z: nat)
    requires a % Pow2(z) == 0
    ensures Or(a, Max(z)) == a + Max(z)
    decreases z
  {
    if z == 0 {
      OrZeroR(a);
    } else {
      ModPow2Step(a, z);
      MaxStep(z);
      OrStep(a, Max(z));
      OrLowOnes(a / 2, z - 1);
      BitSplit(Or(a, Max(z)), 1, Or(a / 2, Max(z - 1)));
    }
  }

  /** Shifting the all-ones word left by `s < w` places leaves `w - s` leading ones. */
  lemma ShlMax(s: nat, w: nat)
    requires s < w
    ensures Shl(Max(w), s, w) == PrefixMask(w - s, w)
  {
    var big, low := Pow2(w), Pow2(s);
    Pow2Lt(s, w);
    assert Max(w) * low == (low - 1) * big + (big - low);
    DivModUnique(Max(w) * low, big, low - 1, big - low);
  }

  /** Shifting a `/n` mask left by one place gives the `/(n - 1)` mask (`/0` stays `/0`). */
  lemma ShlPrefixOne(n: nat, w: nat)
    requires n <= w
    ensures n == 0 ==> Shl(PrefixMask(n, w), 1, w) == 0
    ensures n > 0 ==> Shl(PrefixMask(n, w), 1, w) == PrefixMask(n - 1, w)
  {
    var m := PrefixMask(n, w);
    ShlOne(m, w);
    if n > 0 {
      DoublePrefix(n, w);
    }
  }

  lemma ShlOne(a: nat, w: nat)
    ensures Shl(a, 1, w) == (2 * a) % Pow2(w)
  {
    assert Pow2(1) == 2;
  }

  /** Twice a `/n` mask is the word's size plus the `/(n - 1)` mask. */
  lemma DoublePrefix(n: nat, w: nat)
    requires 0 < n <= w
    ensures (2 * PrefixMask(n, w)) % Pow2(w) == PrefixMask(n - 1, w)
  {
    var big, low := Pow2(w), Pow2(w - n);
    assert Pow2(w - (n - 1)) == 2 * low;
    Pow2Lt(w - n, w);
    DivModUnique(2 * PrefixMask(n, w), big, 1, big - 2 * low);
  }

  /** Shifting the all-ones word right by `c < w` places leaves `w - c` low ones. */
  lemma {:induction false} ShrMax(c: nat, w: nat)
    requires c < w
    ensures Shr(Max(w), c) == Max(w - c)
    decreases c
  {
    if c > 0 {
      assert Max(w) / 2 == Max(w - 1);
      ShrMax(c - 1, w - 1);
    }
  }
}
