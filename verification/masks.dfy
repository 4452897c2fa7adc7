/** Subnet masks in `utils/ipMath.ts`: prefix length to mask and back, and the
    mask / wildcard complement. */
module Masks {

  import opened Wrappers
  import opened JsNumbers
  import opened JsStrings
  import opened Address
  import DivMod

  /** The netmask of prefix length p: p one bits followed by 32 - p zero bits,
      as an unsigned 32-bit value. Prefix 0 is the empty mask 0. */
  function MaskValue(p: nat): (m: int)
    requires p <= 32
    ensures 0 <= m < TWO32
    ensures m + Pow2(32 - p) == TWO32
  {
    Pow2AtMost32(32 - p);
    TWO32 - Pow2(32 - p)
  }

  lemma MaskValueZero()
    ensures MaskValue(0) == 0
  {
    Pow2Values();
  }

  /** Distinct prefix lengths have distinct masks, and longer prefixes have
      numerically larger masks. */
  lemma MaskValueMonotone(p: nat, q: nat)
    requires p < q <= 32
    ensures MaskValue(p) < MaskValue(q)
  {
    Pow2Monotone(32 - q, 32 - p);
  }

  lemma MaskValueInjective(p: nat, q: nat)
    requires p <= 32 && q <= 32 && MaskValue(p) == MaskValue(q)
    ensures p == q
  {
    if p < q { MaskValueMonotone(p, q); }
    if q < p { MaskValueMonotone(q, p); }
  }

  /** A mask has its top bit set exactly when its prefix is not empty. */
  lemma MaskValueTopBit(p: nat)
    requires p <= 32
    ensures MaskValue(p) >= TWO31 <==> p >= 1
  {
    Pow2Values();
    if p >= 1 {
      if p > 1 { Pow2Monotone(32 - p, 31); }
    } else {
      assert Pow2(32 - p) == TWO32;
    }
  }

  /** `(0xFFFFFFFF << k) >>> 0` for a shift count below 32: the ones from bit
      k upwards. */
  lemma ShiftAllOnes(k: nat)
    requires k < 32
    ensures Ushr(Shl(ALL_ONES, k), 0) == TWO32 - Pow2(k)
  {
    Pow2AtMost32(k);
    var y := ALL_ONES * Pow2(k);
    assert y == TWO32 * (Pow2(k) - 1) + (TWO32 - Pow2(k));
    DivMod.ModUnique(y, TWO32, Pow2(k) - 1, TWO32 - Pow2(k));
  }

  /** `(0xFFFFFFFF << 32) >>> 0`: the count 32 is taken modulo 32, so nothing
      is shifted. */
  lemma ShiftAllOnes32()
    ensures Ushr(Shl(ALL_ONES, 32), 0) == ALL_ONES
  {
    assert ShiftCount(32) == 0;
  }

  /** `(0xFFFFFFFF << (32 - p)) >>> 0`, the mask expression of lines 105, 123,
      188 and 240. The shift count is taken modulo 32, so for p = 0 nothing is
      shifted out and the result is all ones instead of the empty mask. */
  function ShiftedMask(p: nat): (m: int)
    requires p <= 32
    ensures 1 <= p ==> m == MaskValue(p)
    ensures p == 0 ==> m == ALL_ONES == MaskValue(32)
  {
    var k: nat := 32 - p;
    if p == 0 then
      ShiftAllOnes32();
      Ushr(Shl(ALL_ONES, k), 0)
    else
      ShiftAllOnes(k);
      Ushr(Shl(ALL_ONES, k), 0)
  }

  // ---------------------------------------------------------------------------
  // prefixToMask

  /** `prefixToMask(prefix)` as written: for prefix 0 it returns
      255.255.255.255 rather than 0.0.0.0. */
  function PrefixToMask(prefix: int): (r: Result<string, IpError>)
    ensures r.Success? <==> 0 <= prefix <= 32
    ensures r.Failure? ==> r.error == InvalidPrefix
    ensures 1 <= prefix <= 32 ==> r == Success(Dotted(MaskValue(prefix)))
    ensures prefix == 0 ==> r == Success(Dotted(ALL_ONES))
  {
    if prefix < 0 || prefix > 32 then Failure(InvalidPrefix)
    else IntToIp(ShiftedMask(prefix))
  }

  /** The intended `prefixToMask`: the empty mask for prefix 0. */
  function PrefixToMaskFixed(prefix: int): (r: Result<string, IpError>)
    ensures r.Success? <==> 0 <= prefix <= 32
    ensures r.Failure? ==> r.error == InvalidPrefix
    ensures r.Success? ==> r.value == Dotted(MaskValue(prefix))
  {
    if prefix < 0 || prefix > 32 then Failure(InvalidPrefix)
    else if prefix == 0 then
      MaskValueZero();
      IntToIp(0)
    else IntToIp(ShiftedMask(prefix))
  }

  /** The as-written and intended `prefixToMask` differ only at prefix 0. */
  lemma PrefixToMaskZero()
    ensures PrefixToMask(0) == Success(Dotted(ALL_ONES))
    ensures PrefixToMaskFixed(0) == Success(Dotted(0))
    ensures PrefixToMask(0) != PrefixToMaskFixed(0)
  {
    MaskValueZero();
    if Dotted(ALL_ONES) == Dotted(0) {
      DottedInjective(ALL_ONES, 0);
    }
  }

  // ---------------------------------------------------------------------------
  // maskToPrefix

  /** Bit 31 of an unsigned 32-bit value, kept by AND with 2^31. */
  lemma TopBitUnsigned(u: int)
    requires 0 <= u < TWO32
    ensures AndBits(u, TWO31, 32) == if u >= TWO31 then TWO31 else 0
  {
    Pow2Values();
    AndHighMask(u, 31, 32);
    DivMod.ModUnique(u, TWO32, 0, u);
    if u >= TWO31 {
      DivMod.ModUnique(u, TWO31, 1, u - TWO31);
    } else {
      DivMod.ModUnique(u, TWO31, 0, u);
    }
  }

  /** Bit 31 of a number: `x & 0x80000000` is non-zero exactly when the
      unsigned image of x is at least 2^31. */
  lemma TopBit(x: int)
    ensures BitAnd(x, 0x8000_0000) != 0 <==> ToUint32(x) >= TWO31
  {
    var u := ToUint32(x);
    assert ToUint32(0x8000_0000) == TWO31;
    TopBitUnsigned(u);
  }

  /** Reduction modulo m commutes with doubling. */
  lemma ModDouble(a: int, m: int)
    requires m > 0
    ensures ((a % m) * 2) % m == (a * 2) % m
  {
    var q, r := a / m, a % m;
    var q2, r2 := (2 * r) / m, (2 * r) % m;
    assert a * 2 == m * (2 * q + q2) + r2;
    DivMod.ModUnique(a * 2, m, 2 * q + q2, r2);
  }

  /** Shifting the mask of prefix q left by k leaves the mask of q - k. */
  lemma MaskShift(q: nat, k: nat)
    requires k <= q <= 32
    ensures (MaskValue(q) * Pow2(k)) % TWO32 == MaskValue(q - k)
  {
    Pow2Add(k, 32 - q);
    assert k + (32 - q) == 32 - (q - k);
    Pow2AtMost32(32 - (q - k));
    ShiftOutOnes(TWO32, Pow2(k), Pow2(32 - q), Pow2(32 - (q - k)));
  }

  /** With t = 2^32, b = 2^(32-q) and a = 2^k: (t - b) * a wraps to t - a * b. */
  lemma ShiftOutOnes(t: int, a: int, b: int, c: int)
    requires a >= 1 && b >= 1 && c == a * b && c <= t
    ensures ((t - b) * a) % t == t - c
  {
    assert (t - b) * a == t * (a - 1) + (t - c);
    DivMod.ModUnique((t - b) * a, t, a - 1, t - c);
  }

  /** `t & 0x80000000`, the loop test of line 117, as a truth value. */
  function TopBitSet(t: int): (b: bool)
    ensures b <==> ToUint32(t) >= TWO31
  {
    TopBit(t);
    BitAnd(t, 0x8000_0000) != 0
  }

  /** `(t << 1) >>> 0`, the loop step of line 119: the unsigned image doubled
      modulo 2^32. */
  function ShiftLeftOnce(t: int): (r: int)
    ensures r == (ToUint32(t) * 2) % TWO32
  {
    assert Pow2(ShiftCount(1)) == 2;
    Ushr(Shl(t, 1), 0)
  }

  /** After p + 1 steps the shifted value is u * 2^(p+1) modulo 2^32. */
  lemma ShiftStep(t: int, u: int, p: nat)
    requires ToUint32(t) == (u * Pow2(p)) % TWO32
    ensures ToUint32(ShiftLeftOnce(t)) == (u * Pow2(p + 1)) % TWO32
  {
    ModDouble(u * Pow2(p), TWO32);
    assert (u * Pow2(p)) * 2 == u * Pow2(p + 1);
  }

  /** After 32 shifts nothing is left. */
  lemma ShiftedOut(u: int)
    ensures (u * Pow2(32)) % TWO32 == 0
  {
    Pow2Values();
    DivMod.MulMod(u, TWO32);
  }

  /** While counting the leading ones of the mask of prefix q, bit 31 of the
      shifted value is set exactly until q shifts have been made. */
  lemma MaskCountStep(u: int, q: nat, prefix: nat, t: int)
    requires prefix <= q <= 32 && u == MaskValue(q)
    requires ToUint32(t) == (u * Pow2(prefix)) % TWO32
    ensures ToUint32(t) >= TWO31 <==> prefix < q
  {
    MaskShift(q, prefix);
    MaskValueTopBit(q - prefix);
  }

  /** The loop of lines 114-120: counts the leading one bits of x by shifting
      left until bit 31 is clear. */
  method CountLeadingOnes(x: int) returns (prefix: nat)
    ensures prefix <= 32
    ensures prefix >= 1 <==> ToUint32(x) >= TWO31
    ensures forall q :: 0 <= q <= 32 && ToUint32(x) == MaskValue(q) ==> prefix == q
  {
    var u := ToUint32(x);
    prefix := 0;
    var testMask := x;
    assert Pow2(0) == 1;
    while TopBitSet(testMask)
      invariant prefix <= 32
      invariant ToUint32(testMask) == (u * Pow2(prefix)) % TWO32
      invariant prefix >= 1 ==> u >= TWO31
      invariant forall q :: 0 <= q <= 32 && u == MaskValue(q) ==> prefix <= q
      decreases 32 - prefix
    {
      if prefix == 32 {
        ShiftedOut(u);
        assert false;
      }
      forall q | 0 <= q <= 32 && u == MaskValue(q)
        ensures prefix < q
      {
        MaskCountStep(u, q, prefix, testMask);
      }
      ShiftStep(testMask, u, prefix);
      prefix := prefix + 1;
      testMask := ShiftLeftOnce(testMask);
    }
    forall q | 0 <= q <= 32 && u == MaskValue(q)
      ensures prefix == q
    {
      MaskCountStep(u, q, prefix, testMask);
    }
  }

  /** `maskToPrefix(mask)` as written. The count is compared with `!==`
      between the signed `maskInt` and the unsigned expected mask, so no mask
      is ever accepted: a mask with its top bit set is negative, one without
      it counts prefix 0 whose expected mask is all ones. */
  method MaskToPrefix(mask: string) returns (r: Result<nat, IpError>)
    ensures r.Failure?
    ensures IsFourOctets(mask) ==> r.error == InvalidSubnetMask
    ensures !IsFourOctets(mask) ==> r.error == InvalidIpAddress
  {
    var parsed := IpToInt(mask);
    if parsed.Failure? {
      return Failure(InvalidIpAddress);
    }
    var maskInt := parsed.value;
    var prefix := CountLeadingOnes(maskInt);
    var expectedMask := ShiftedMask(prefix);
    r := if maskInt != expectedMask then Failure(InvalidSubnetMask) else Success(prefix);
  }

  /** A value is a netmask when it is the mask of some prefix length. */
  predicate IsNetmask(u: int) {
    exists q :: 0 <= q <= 32 && MaskValue(q) == u
  }

  /** The intended `maskToPrefix`: the parsed mask is compared as an unsigned
      value with the mask of the counted prefix, the empty mask for prefix 0. */
  method MaskToPrefixFixed(mask: string) returns (r: Result<nat, IpError>)
    ensures r.Success? <==> IsFourOctets(mask) && IsNetmask(ToUint32(IpToInt(mask).value))
    ensures r.Success? ==> r.value <= 32 && MaskValue(r.value) == ToUint32(IpToInt(mask).value)
    ensures r.Failure? ==> r.error == if IsFourOctets(mask) then InvalidSubnetMask else InvalidIpAddress
    ensures forall p :: 0 <= p <= 32 && mask == Dotted(MaskValue(p)) ==> r == Success(p)
  {
    var parsed := IpToInt(mask);
    if parsed.Failure? {
      forall p | 0 <= p <= 32 && mask == Dotted(MaskValue(p))
        ensures false
      {
        DottedComponents(MaskValue(p));
      }
      return Failure(InvalidIpAddress);
    }
    var maskInt := Ushr(parsed.value, 0);
    var prefix := CountLeadingOnes(maskInt);
    var expectedMask := if prefix == 0 then 0 else ShiftedMask(prefix);
    assert expectedMask == MaskValue(prefix) by {
      if prefix == 0 { MaskValueZero(); }
    }
    forall p | 0 <= p <= 32 && mask == Dotted(MaskValue(p))
      ensures maskInt == MaskValue(p)
    {
      IpToIntOfDotted(MaskValue(p));
    }
    if maskInt != expectedMask {
      assert !IsNetmask(maskInt);
      return Failure(InvalidSubnetMask);
    }
    assert IsNetmask(maskInt);
    forall p | 0 <= p <= 32 && mask == Dotted(MaskValue(p))
      ensures prefix == p
    {
      MaskValueInjective(p, prefix);
    }
    return Success(prefix);
  }

  // ---------------------------------------------------------------------------
  // Wildcards

  /** `(~x) >>> 0`: the bitwise complement as an unsigned value. */
  function Complement(x: int): (c: int)
    ensures 0 <= c < TWO32
    ensures c == ALL_ONES - ToUint32(x)
  {
    Ushr(BitNot(x), 0)
  }

  /** The parse of an accepted text, read back as unsigned, is the
      big-endian value of its octets. */
  lemma UnsignedOfParse(text: string)
    requires IsFourOctets(text)
    ensures IpToInt(text).Success?
    ensures ToUint32(IpToInt(text).value) == BigEndian(OctetNumbers(text))
  {
    var u := BigEndian(OctetNumbers(text));
    assert ToUint32(ToInt32(u)) == u;
  }

  /** `maskToWildcard(mask)`: the complement of the parsed mask. */
  function MaskToWildcard(mask: string): (r: Result<string, IpError>)
    ensures r.Success? <==> IsFourOctets(mask)
    ensures r.Success? ==> r.value == Dotted(ALL_ONES - BigEndian(OctetNumbers(mask)))
    ensures r.Failure? ==> r.error == InvalidIpAddress
  {
    var maskInt :- IpToInt(mask);
    UnsignedOfParse(mask);
    IntToIp(Complement(maskInt))
  }

  /** `wildcardToMask(wildcard)`: the complement of the parsed wildcard. */
  function WildcardToMask(wildcard: string): (r: Result<string, IpError>)
    ensures r.Success? <==> IsFourOctets(wildcard)
    ensures r.Success? ==> r.value == Dotted(ALL_ONES - BigEndian(OctetNumbers(wildcard)))
    ensures r.Failure? ==> r.error == InvalidIpAddress
  {
    var wildcardInt :- IpToInt(wildcard);
    UnsignedOfParse(wildcard);
    IntToIp(Complement(wildcardInt))
  }

  /** Each octet o replaced by 255 - o. */
  function Flip(o: seq<int>): (f: seq<int>)
    requires |o| == 4
    ensures |f| == 4
  {
    [255 - o[0], 255 - o[1], 255 - o[2], 255 - o[3]]
  }

  /** Four bytes are the octets of their big-endian value. */
  lemma OctetsOfBigEndian(o: seq<int>)
    requires |o| == 4 && forall i :: 0 <= i < 4 ==> 0 <= o[i] <= 255
    ensures 0 <= BigEndian(o) < TWO32
    ensures Octets(BigEndian(o)) == o
  {
    var n := BigEndian(o);
    OctetDecomposition(n);
    var d := Octets(n);
    assert d[0] == o[0];
    assert d[1] == o[1];
    assert d[2] == o[2];
  }

  /** The complement of four bytes is the big-endian value of the flipped
      bytes, and its octets are those flipped bytes. */
  lemma FlipValue(o: seq<int>)
    requires |o| == 4 && forall i :: 0 <= i < 4 ==> 0 <= o[i] <= 255
    ensures ALL_ONES - BigEndian(o) == BigEndian(Flip(o))
    ensures Octets(BigEndian(Flip(o))) == Flip(o)
  {
    OctetsOfBigEndian(Flip(o));
  }

  /** On every text `ipToInt` accepts, canonical or not ("255.255.255.000",
      "010.0.0.0"), both conversions replace each octet o by 255 - o. */
  lemma ComplementFlipsOctets(text: string)
    requires IsFourOctets(text)
    ensures MaskToWildcard(text) == Success(Dotted(BigEndian(Flip(OctetNumbers(text)))))
    ensures WildcardToMask(text) == Success(Dotted(BigEndian(Flip(OctetNumbers(text)))))
    ensures Octets(BigEndian(Flip(OctetNumbers(text)))) == Flip(OctetNumbers(text))
  {
    FlipValue(OctetNumbers(text));
  }

  /** The wildcard of a dotted value is the dotted complement of the value. */
  lemma MaskToWildcardOfDotted(n: nat, c: nat)
    requires n < TWO32 && c == ALL_ONES - n
    ensures MaskToWildcard(Dotted(n)) == Success(Dotted(c))
    ensures WildcardToMask(Dotted(n)) == Success(Dotted(c))
  {
    ComplementOfParsed(n, c);
    assert MaskToWildcard(Dotted(n)) == IntToIp(c);
    assert WildcardToMask(Dotted(n)) == IntToIp(c);
  }

  /** The complement of the parsed text of n is c, whichever sign the parse
      gives. */
  lemma ComplementOfParsed(n: nat, c: nat)
    requires n < TWO32 && c == ALL_ONES - n
    ensures IpToInt(Dotted(n)).Success?
    ensures Complement(IpToInt(Dotted(n)).value) == c
  {
    IpToIntOfDotted(n);
    assert ToUint32(ToInt32(n)) == n;
  }

  /** `wildcardToMask` undoes `maskToWildcard` on canonical addresses and vice
      versa: both map the text of n to the text of its complement c, and the
      text of c back to the text of n. */
  lemma WildcardRoundTrip(n: nat, c: nat)
    requires n < TWO32 && c == ALL_ONES - n
    ensures MaskToWildcard(Dotted(n)) == Success(Dotted(c))
    ensures WildcardToMask(Dotted(c)) == Success(Dotted(n))
    ensures WildcardToMask(Dotted(n)) == Success(Dotted(c))
    ensures MaskToWildcard(Dotted(c)) == Success(Dotted(n))
  {
    MaskToWildcardOfDotted(n, c);
    MaskToWildcardOfDotted(c, n);
  }

  /** The wildcard of the mask of prefix p has the 32 - p low bits set. */
  lemma WildcardOfMask(p: nat)
    requires p <= 32
    ensures MaskToWildcard(Dotted(MaskValue(p))) == Success(Dotted(Pow2(32 - p) - 1))
  {
    MaskToWildcardOfDotted(MaskValue(p), Pow2(32 - p) - 1);
  }
}
