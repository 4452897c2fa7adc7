/** JavaScript number semantics that the address arithmetic depends on.

    JavaScript numbers are doubles, but every value the IPv4 code handles is an
    integer, so a number is an unbounded `int` here. The bitwise operators
    convert their operands with ToInt32 / ToUint32 (reduction modulo 2^32),
    take shift counts modulo 32, and produce a signed 32-bit result, except
    `>>>` whose result is unsigned. AND and OR are defined bit by bit over the
    32-bit unsigned images of their operands. `Math.ceil(Math.log2(n))` on a
    positive integer is the integer `CeilLog2`. */
module JsNumbers {

  import DivMod

  const TWO31: int := 0x8000_0000
  const TWO32: int := 0x1_0000_0000
  /** The largest 32-bit unsigned value, `0xFFFFFFFF`. */
  const ALL_ONES: int := 0xFFFF_FFFF

  function Pow2(n: nat): (r: nat)
    ensures r >= 1
  {
    if n == 0 then 1 else 2 * Pow2(n - 1)
  }

  lemma {:induction false} Pow2Add(a: nat, b: nat)
    ensures Pow2(a + b) == Pow2(a) * Pow2(b)
    decreases a
  {
    if a > 0 {
      Pow2Add(a - 1, b);
      assert Pow2(a + b) == 2 * Pow2(a - 1 + b);
    }
  }

  lemma {:induction false} Pow2Monotone(a: nat, b: nat)
    requires a < b
    ensures Pow2(a) < Pow2(b)
    decreases b
  {
    if a < b - 1 {
      Pow2Monotone(a, b - 1);
    }
  }

  lemma Pow2Values()
    ensures Pow2(8) == 256 && Pow2(16) == 0x1_0000 && Pow2(24) == 0x100_0000
    ensures Pow2(31) == TWO31 && Pow2(32) == TWO32
  {
  }

  lemma Pow2AtMost32(k: nat)
    requires k <= 32
    ensures Pow2(k) <= TWO32
  {
    Pow2Values();
    if k < 32 {
      Pow2Monotone(k, 32);
    }
  }

  /** Two powers of two, the smaller dividing the larger. */
  lemma Pow2Divides(a: nat, b: nat)
    requires a <= b
    ensures Pow2(b) == Pow2(a) * Pow2(b - a)
    ensures Pow2(b) % Pow2(a) == 0
  {
    Pow2Add(a, b - a);
    DivMod.MulMod(Pow2(b - a), Pow2(a));
  }

  /** Reduction modulo 2^32 (the ECMAScript ToUint32 operation on integers). */
  function ToUint32(x: int): (r: int)
    ensures 0 <= r < TWO32
    ensures 0 <= x < TWO32 ==> r == x
  {
    x % TWO32
  }

  /** The ECMAScript ToInt32 operation on integers: the representative of x
      modulo 2^32 in [-2^31, 2^31). */
  function ToInt32(x: int): (r: int)
    ensures -TWO31 <= r < TWO31
    ensures -TWO31 <= x < TWO31 ==> r == x
    ensures 0 <= x < TWO32 ==> (r < 0 <==> x >= TWO31)
    ensures ToUint32(r) == ToUint32(x)
  {
    var u := ToUint32(x);
    if u >= TWO31 then u - TWO32 else u
  }

  /** The shift count of `<<`, `>>` and `>>>`: the right operand's low five bits. */
  function ShiftCount(b: int): (r: nat)
    ensures r < 32
    ensures 0 <= b < 32 ==> r == b
  {
    ToUint32(b) % 32
  }

  /** `a << b` */
  function Shl(a: int, b: int): int
  {
    ToInt32(ToUint32(a) * Pow2(ShiftCount(b)))
  }

  /** `a >>> b` */
  function Ushr(a: int, b: int): (r: int)
    ensures 0 <= r < TWO32
    ensures ShiftCount(b) == 0 ==> r == ToUint32(a)
  {
    DivMod.DivBound(ToUint32(a), Pow2(ShiftCount(b)));
    ToUint32(a) / Pow2(ShiftCount(b))
  }

  /** AND of the low n bits of a and b, least significant bit first. */
  function AndBits(a: nat, b: nat, n: nat): (r: nat)
    ensures r < Pow2(n)
  {
    if n == 0 then 0
    else 2 * AndBits(a / 2, b / 2, n - 1) + (if a % 2 == 1 && b % 2 == 1 then 1 else 0)
  }

  /** OR of the low n bits of a and b, least significant bit first. */
  function OrBits(a: nat, b: nat, n: nat): (r: nat)
    ensures r < Pow2(n)
  {
    if n == 0 then 0
    else 2 * OrBits(a / 2, b / 2, n - 1) + (if a % 2 == 1 || b % 2 == 1 then 1 else 0)
  }

  /** `a & b` */
  function BitAnd(a: int, b: int): int
  {
    ToInt32(AndBits(ToUint32(a), ToUint32(b), 32))
  }

  /** `a | b` */
  function BitOr(a: int, b: int): int
  {
    ToInt32(OrBits(ToUint32(a), ToUint32(b), 32))
  }

  /** `~a`: the complement of every bit of the 32-bit image of a. */
  function BitNot(a: int): (r: int)
    ensures ToUint32(r) == ALL_ONES - ToUint32(a)
  {
    -ToInt32(a) - 1
  }

  /** `Math.ceil(Math.log2(n))` for a positive integer n: the least k with n <= 2^k. */
  function CeilLog2(n: nat): (k: nat)
    requires n >= 1
    ensures n <= Pow2(k)
    ensures k > 0 ==> Pow2(k - 1) < n
    decreases n
  {
    if n == 1 then 0 else 1 + CeilLog2((n + 1) / 2)
  }

  /** CeilLog2 is the least exponent whose power of two reaches n. */
  lemma CeilLog2Least(n: nat, j: nat)
    requires n >= 1 && n <= Pow2(j)
    ensures CeilLog2(n) <= j
  {
    var k := CeilLog2(n);
    if j < k {
      if j < k - 1 {
        Pow2Monotone(j, k - 1);
      }
      assert false;
    }
  }

  lemma CeilLog2OfPow2(j: nat)
    ensures CeilLog2(Pow2(j)) == j
  {
    CeilLog2Least(Pow2(j), j);
    var k := CeilLog2(Pow2(j));
    if k < j {
      Pow2Monotone(k, j);
    }
  }

  // ---------------------------------------------------------------------------
  // Bit-level facts about AND / OR with contiguous masks.

  /** The value of the k low bits of a, least significant bit first. */
  function LowBits(a: nat, k: nat): (r: nat)
    ensures r < Pow2(k)
  {
    if k == 0 then 0 else 2 * LowBits(a / 2, k - 1) + a % 2
  }

  /** Splitting a remainder by a power of two into its lowest bit and the rest. */
  lemma ModHalf(a: nat, k: nat)
    ensures a % Pow2(k + 1) == 2 * ((a / 2) % Pow2(k)) + a % 2
  {
    var p := Pow2(k);
    var q := (a / 2) / p;
    var s := (a / 2) % p;
    assert a / 2 == p * q + s;
    assert a == (2 * p) * q + (2 * s + a % 2);
    DivMod.ModUnique(a, 2 * p, q, 2 * s + a % 2);
  }

  /** The k low bits of a are a modulo 2^k. */
  lemma {:induction false} LowBitsMod(a: nat, k: nat)
    ensures LowBits(a, k) == a % Pow2(k)
    decreases k
  {
    if k == 0 {
      DivMod.ModOne(a);
    } else {
      LowBitsMod(a / 2, k - 1);
      ModHalf(a, k - 1);
    }
  }

  /** A mask of k >= 1 low ones is odd and halves to k - 1 low ones. */
  lemma OddMask(k: nat)
    requires k >= 1
    ensures (Pow2(k) - 1) / 2 == Pow2(k - 1) - 1 && (Pow2(k) - 1) % 2 == 1
  {
  }

  /** A mask of the bits k to n - 1 (k >= 1) is even and halves to the bits
      k - 1 to n - 2. */
  lemma EvenMask(k: nat, n: nat)
    requires 1 <= k <= n
    ensures (Pow2(n) - Pow2(k)) / 2 == Pow2(n - 1) - Pow2(k - 1)
    ensures (Pow2(n) - Pow2(k)) % 2 == 0
  {
  }

  /** AND with zero clears every bit. */
  lemma {:induction false} AndZero(a: nat, n: nat)
    ensures AndBits(a, 0, n) == 0
    decreases n
  {
    if n > 0 {
      AndZero(a / 2, n - 1);
    }
  }

  /** AND with a low mask m of k ones keeps the k low bits. */
  lemma {:induction false} AndLowBits(a: nat, m: nat, k: nat, n: nat)
    requires k <= n && m + 1 == Pow2(k)
    ensures AndBits(a, m, n) == LowBits(a, k)
    decreases n
  {
    if k == 0 {
      AndZero(a, n);
    } else {
      OddMask(k);
      AndLowBits(a / 2, m / 2, k - 1, n - 1);
    }
  }

  /** AND with a high mask m (ones from bit k to bit n - 1) clears the k low bits. */
  lemma {:induction false} AndHighBits(a: nat, m: nat, k: nat, n: nat)
    requires k <= n && m + Pow2(k) == Pow2(n)
    ensures AndBits(a, m, n) == LowBits(a, n) - LowBits(a, k)
    decreases n
  {
    if k == 0 {
      AndLowBits(a, m, n, n);
    } else {
      EvenMask(k, n);
      AndHighBits(a / 2, m / 2, k - 1, n - 1);
    }
  }

  /** OR with zero keeps the n low bits. */
  lemma {:induction false} OrZero(a: nat, n: nat)
    ensures OrBits(a, 0, n) == LowBits(a, n)
    decreases n
  {
    if n > 0 {
      OrZero(a / 2, n - 1);
    }
  }

  /** OR with a low mask m of k ones sets the k low bits. */
  lemma {:induction false} OrLowBits(a: nat, m: nat, k: nat, n: nat)
    requires k <= n && m + 1 == Pow2(k)
    ensures OrBits(a, m, n) == LowBits(a, n) - LowBits(a, k) + m
    decreases n
  {
    if k == 0 {
      OrZero(a, n);
    } else {
      OddMask(k);
      OrLowBits(a / 2, m / 2, k - 1, n - 1);
    }
  }

  /** AND with k low ones is reduction modulo 2^k. */
  lemma AndLowMask(a: nat, k: nat, n: nat)
    requires k <= n
    ensures AndBits(a, Pow2(k) - 1, n) == a % Pow2(k)
  {
    AndLowBits(a, Pow2(k) - 1, k, n);
    LowBitsMod(a, k);
  }

  /** AND with the ones from bit k to bit n - 1 rounds a modulo 2^n down to a
      multiple of 2^k. */
  lemma AndHighMask(a: nat, k: nat, n: nat)
    requires k <= n
    ensures Pow2(k) <= Pow2(n)
    ensures AndBits(a, Pow2(n) - Pow2(k), n) == a % Pow2(n) - a % Pow2(k)
  {
    if k < n {
      Pow2Monotone(k, n);
    }
    AndHighBits(a, Pow2(n) - Pow2(k), k, n);
    LowBitsMod(a, k);
    LowBitsMod(a, n);
  }

  /** OR with k low ones sets the low k bits of a modulo 2^n. */
  lemma OrLowMask(a: nat, k: nat, n: nat)
    requires k <= n
    ensures OrBits(a, Pow2(k) - 1, n) == a % Pow2(n) - a % Pow2(k) + Pow2(k) - 1
  {
    OrLowBits(a, Pow2(k) - 1, k, n);
    LowBitsMod(a, k);
    LowBitsMod(a, n);
  }
}

/** Small facts about Euclidean division that the solver does not find alone. */
module DivMod {

  lemma DivBound(a: int, d: int)
    requires a >= 0 && d >= 1
    ensures 0 <= a / d <= a
  {
  }

  /** Division and remainder are determined by any decomposition a == m * q + r. */
  lemma ModUnique(a: int, m: int, q: int, r: int)
    requires m > 0 && 0 <= r < m && a == m * q + r
    ensures a / m == q && a % m == r
  {
    var q' := a / m;
    var r' := a % m;
    assert m * q' + r' == m * q + r;
    if q' > q {
      assert m * q' >= m * (q + 1) by { MulMonotone(m, q + 1, q'); }
    } else if q' < q {
      assert m * q >= m * (q' + 1) by { MulMonotone(m, q' + 1, q); }
    }
  }

  lemma MulMonotone(m: int, a: int, b: int)
    requires m >= 0 && a <= b
    ensures m * a <= m * b
  {
  }

  lemma Euclid(a: int, d: int)
    requires d > 0
    ensures a == d * (a / d) + a % d && 0 <= a % d < d
  {
  }

  /** An exact multiple of d is d times its quotient. */
  lemma DivExact(s: int, d: int)
    requires d > 0 && s % d == 0
    ensures s == d * (s / d)
  {
  }

  lemma MulAssoc(a: int, b: int, c: int)
    ensures a * (b * c) == (a * b) * c
  {
  }

  lemma MulAddRight(a: int, b: int, c: int)
    ensures a * (b + c) == a * b + a * c
  {
  }

  /** Rounding a down to a multiple of d keeps it within the same block of d
      values, and below d * m when a is. */
  lemma AlignDown(a: int, d: int, m: int)
    requires d > 0 && 0 <= a < d * m
    ensures 0 <= a - a % d <= a < a - a % d + d
    ensures (a - a % d) % d == 0
    ensures a - a % d + d <= d * m
  {
    var q := a / d;
    Euclid(a, d);
    assert a - a % d == d * q;
    MulMod(q, d);
    if q >= m {
      MulMonotone(d, m, q);
    }
    MulMonotone(d, q + 1, m);
  }

  /** The only multiple of d in the d values from s (a multiple) is s. */
  lemma AlignUnique(a: int, d: int, s: int)
    requires d > 0 && s % d == 0 && s <= a < s + d
    ensures s == a - a % d
  {
    DivExact(s, d);
    ModUnique(a, d, s / d, a - s);
  }

  lemma ModOne(a: int)
    ensures a % 1 == 0
  {
  }

  lemma MulMod(q: int, m: int)
    requires m > 0
    ensures (m * q) % m == 0 && (m * q) / m == q
  {
    ModUnique(m * q, m, q, 0);
  }
}
