/** Aligned address blocks: the reference notion of a CIDR block against which
    the bit manipulations of `utils/ipMath.ts` are checked. A block of prefix
    length p covers 2^(32-p) consecutive unsigned addresses and starts at a
    multiple of its size. */
module Blocks {

  import opened JsNumbers
  import DivMod

  /** The number of addresses in a block of prefix length p. */
  function Size(p: nat): (s: nat)
    requires p <= 32
    ensures 1 <= s <= TWO32
  {
    Pow2AtMost32(32 - p);
    Pow2(32 - p)
  }

  /** A block of prefix length p that starts at `start`. */
  predicate IsBlock(start: int, p: nat) {
    p <= 32 && 0 <= start && start % Size(p) == 0 && start + Size(p) <= TWO32
  }

  /** The k low bits of a are zero, tested one bit at a time. (The second
      component of the termination measure only keeps the verifier from
      unrolling the definition eagerly when k is a literal.) */
  predicate LowZero(a: int, k: nat)
    decreases k, a
  {
    k == 0 || (a % 2 == 0 && LowZero(a / 2, k - 1))
  }

  /** Having the k low bits zero is being a multiple of 2^k. */
  lemma {:induction false} LowZeroMod(a: nat, k: nat)
    ensures LowZero(a, k) <==> a % Pow2(k) == 0
    decreases k
  {
    LowZeroBits(a, k);
    LowBitsMod(a, k);
  }

  lemma {:induction false} LowZeroBits(a: nat, k: nat)
    ensures LowZero(a, k) <==> LowBits(a, k) == 0
    decreases k
  {
    if k > 0 {
      LowZeroBits(a / 2, k - 1);
    }
  }

  /** Fewer low bits of a multiple of 2^k are zero as well. */
  lemma {:induction false} LowZeroWeaken(a: int, k: nat)
    requires LowZero(a, k) && k >= 1
    ensures LowZero(a, k - 1)
    decreases k
  {
    if k > 1 {
      LowZeroWeaken(a / 2, k - 1);
    }
  }

  /** A block start is a start whose 32 - p low bits are zero and whose block
      ends inside the address space. */
  lemma IsBlockLowZero(s: int, p: nat)
    requires 0 <= s && p <= 32
    ensures IsBlock(s, p) <==> LowZero(s, 32 - p) && s + Size(p) <= TWO32
  {
    LowZeroMod(s, 32 - p);
  }

  /** The last address of a block. */
  function Last(start: int, p: nat): int
    requires p <= 32
  {
    start + Size(p) - 1
  }

  /** The start of the block of prefix length p that holds address a. */
  function BlockStart(a: int, p: nat): int
    requires p <= 32
  {
    a - a % Size(p)
  }

  /** A multiple of d strictly below another multiple of d is at least d below it. */
  lemma MultipleGap(d: int, k: int, m: int)
    requires d > 0 && d * k < d * m
    ensures d * k + d <= d * m
  {
    if k >= m {
      DivMod.MulMonotone(d, m, k);
    }
    DivMod.MulMonotone(d, k + 1, m);
  }

  /** 2^32 is a whole number of blocks of any prefix length. */
  lemma BlocksInSpace(p: nat)
    requires p <= 32
    ensures TWO32 == Size(p) * Pow2(p)
  {
    Pow2Values();
    Pow2Add(32 - p, p);
  }

  /** BlockStart names an aligned block holding a, and no other aligned block
      of the same prefix length holds a. */
  lemma BlockStartIsBlock(a: int, p: nat)
    requires 0 <= a < TWO32 && p <= 32
    ensures IsBlock(BlockStart(a, p), p)
    ensures BlockStart(a, p) <= a <= Last(BlockStart(a, p), p)
  {
    BlocksInSpace(p);
    DivMod.AlignDown(a, Size(p), Pow2(p));
  }

  lemma BlockStartUnique(a: int, p: nat, s: int)
    requires 0 <= a < TWO32 && p <= 32
    requires IsBlock(s, p) && s <= a <= Last(s, p)
    ensures s == BlockStart(a, p)
  {
    DivMod.AlignUnique(a, Size(p), s);
  }

  /** A block of prefix length at least 1 lies inside one half of the address
      space, so the signed view of its addresses is monotone on it. */
  lemma BlockInOneHalf(s: int, p: nat)
    requires IsBlock(s, p) && p >= 1
    ensures s < TWO31 <==> Last(s, p) < TWO31
  {
    var d := Size(p);
    Pow2Values();
    Pow2Add(32 - p, p - 1);
    assert TWO31 == d * Pow2(p - 1);
    var k := s / d;
    DivMod.DivExact(s, d);
    if s < TWO31 {
      MultipleGap(d, k, Pow2(p - 1));
    }
  }

  /** Two blocks intersect exactly when neither ends before the other starts. */
  predicate Intersect(s1: int, p1: nat, s2: int, p2: nat)
    requires p1 <= 32 && p2 <= 32
  {
    !(Last(s1, p1) < s2 || Last(s2, p2) < s1)
  }

  /** Aligned blocks never partly overlap: if they intersect, the one with the
      shorter prefix contains the other. */
  lemma BlocksNest(s1: int, p1: nat, s2: int, p2: nat)
    requires IsBlock(s1, p1) && IsBlock(s2, p2) && p1 <= p2
    requires Intersect(s1, p1, s2, p2)
    ensures s1 <= s2 && Last(s2, p2) <= Last(s1, p1)
  {
    var d1, d2 := Size(p1), Size(p2);
    var e := Pow2(p2 - p1);
    Pow2Add(32 - p2, p2 - p1);
    assert d1 == d2 * e;
    var k1, k2 := s1 / d1, s2 / d2;
    DivMod.DivExact(s1, d1);
    DivMod.DivExact(s2, d2);
    var i := e * k1;
    DivMod.MulAssoc(d2, e, k1);
    assert s1 == d2 * i;
    if s1 > s2 {
      MultipleGap(d2, k2, i);
      assert false;
    }
    DivMod.MulAddRight(d2, i, e);
    MultipleGap(d2, k2, i + e);
  }
}
