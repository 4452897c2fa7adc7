/** The address codec and the validators of `utils/ipMath.ts`: dotted-decimal
    text to a JavaScript number and back, binary rendering, and the IP / CIDR
    validators. */
module Address {

  import opened Wrappers
  import opened JsNumbers
  import opened JsStrings
  import DivMod

  /** The exceptions the library throws, one constructor per throw site. */
  datatype IpError =
    | InvalidIpAddress      // ipToInt: not four octets in [0, 255]
    | InvalidIpInteger      // intToIp: value outside [0, 2^32 - 1]
    | InvalidPrefix         // prefixToMask: prefix outside [0, 32]
    | InvalidSubnetMask     // maskToPrefix: mask is not contiguous
    | InvalidCidrNotation   // cidrToRange: validateCIDR failed
    | InvalidIpAddresses    // rangeToCIDR: validateIP failed
    | StartAfterEnd         // rangeToCIDR: start > end
    | InvalidCidr           // subnetByCount / subnetByHosts: validateCIDR failed
    | SubnetCountTooSmall   // subnetByCount: count < 1
    | TooManySubnets        // subnetByCount: new prefix > 32
    | HostCountTooSmall     // subnetByHosts: hosts < 1
    | TooManyHosts          // subnetByHosts: new prefix < network prefix
    | InvalidCidrBlocks     // checkMultipleOverlaps: an entry failed validateCIDR

  // ---------------------------------------------------------------------------
  // Octets

  /** The unsigned value of four octets, most significant first. */
  function BigEndian(o: seq<int>): int
    requires |o| == 4
  {
    o[0] * 0x100_0000 + o[1] * 0x1_0000 + o[2] * 0x100 + o[3]
  }

  /** The four octets of an unsigned 32-bit value, most significant first. */
  function Octets(n: nat): (o: seq<nat>)
    ensures |o| == 4 && forall i :: 0 <= i < 4 ==> o[i] <= 255
  {
    [(n / 0x100_0000) % 256, (n / 0x1_0000) % 256, (n / 0x100) % 256, n % 256]
  }

  /** The octets are the bytes of n taken off one at a time from the low end. */
  lemma OctetsByBytes(n: nat)
    requires n < TWO32
    ensures Octets(n) == [n / 256 / 256 / 256, n / 256 / 256 % 256, n / 256 % 256, n % 256]
    ensures n / 256 / 256 / 256 < 256
  {
    var x0, y0 := n % 256, n / 256;
    var x1, y1 := y0 % 256, y0 / 256;
    var x2, x3 := y1 % 256, y1 / 256;
    assert n == 0x1_0000 * y1 + (256 * x1 + x0);
    DivMod.ModUnique(n, 0x1_0000, y1, 256 * x1 + x0);
    assert n == 0x100_0000 * x3 + (0x1_0000 * x2 + 256 * x1 + x0);
    DivMod.ModUnique(n, 0x100_0000, x3, 0x1_0000 * x2 + 256 * x1 + x0);
  }

  /** Every unsigned 32-bit value is the big-endian value of its four octets. */
  lemma OctetDecomposition(n: nat)
    requires n < TWO32
    ensures Octets(n)[0] == n / 0x100_0000 < 256
    ensures n == BigEndian(Octets(n))
  {
    OctetsByBytes(n);
    var y1 := n / 256 / 256;
    assert n == 0x1_0000 * y1 + (256 * (n / 256 % 256) + n % 256);
    assert y1 == 256 * (y1 / 256) + y1 % 256;
  }

  /** The canonical dotted-decimal text of an unsigned 32-bit value: its four
      octets in decimal, most significant first, separated by dots. */
  function Dotted(n: nat): string
    requires n < TWO32
  {
    DottedLow(n, 4)
  }

  /** The dotted text of the k low octets of n. (The second component of the
      termination measure only keeps the verifier from unrolling the
      definition eagerly when k is a literal.) */
  function DottedLow(n: nat, k: nat): string
    requires 1 <= k
    decreases k, n
  {
    if k == 1 then Decimal(n % 256) else DottedLow(n / 256, k - 1) + "." + Decimal(n % 256)
  }

  /** The dotted text is the octet texts joined with '.'. */
  lemma DottedIsJoin(n: nat)
    requires n < TWO32
    ensures Dotted(n) == Join(OctetTexts(n), '.')
  {
    OctetsByBytes(n);
    var t := OctetTexts(n);
    assert DottedLow(n / 256 / 256, 2) == t[0] + "." + t[1];
    assert DottedLow(n / 256, 3) == t[0] + "." + t[1] + "." + t[2];
    assert t == [t[0], t[1], t[2], t[3]];
    JoinFour(t[0], t[1], t[2], t[3], '.');
  }

  function OctetTexts(n: nat): (texts: seq<string>)
    requires n < TWO32
    ensures |texts| == 4
    ensures forall i :: 0 <= i < 4 ==> texts[i] == Decimal(Octets(n)[i])
  {
    var o := Octets(n);
    [Decimal(o[0]), Decimal(o[1]), Decimal(o[2]), Decimal(o[3])]
  }

  /** The octet texts hold neither separator. */
  lemma OctetTextsPlain(n: nat)
    requires n < TWO32
    ensures forall i :: 0 <= i < 4 ==> '.' !in OctetTexts(n)[i] && '/' !in OctetTexts(n)[i]
  {
    var texts := OctetTexts(n);
    forall i | 0 <= i < 4
      ensures AllDigits(texts[i])
    {
      DecimalSpec(Octets(n)[i]);
    }
  }

  // ---------------------------------------------------------------------------
  // ipToInt / intToIp

  /** An octet component as `ipToInt` accepts it: `Number(part)` is in [0, 255]. */
  predicate IsOctetNumber(part: string) {
    var v := ToNumber(part);
    v.Some? && 0 <= v.value <= 255
  }

  /** The four components `ipToInt` accepts. */
  predicate IsFourOctets(ip: string) {
    var parts := Split(ip, '.');
    |parts| == 4 && forall i :: 0 <= i < 4 ==> IsOctetNumber(parts[i])
  }

  /** The octet value of component i of an accepted address. */
  function OctetNumber(ip: string, i: nat): (v: int)
    requires IsFourOctets(ip) && i < 4
    ensures 0 <= v <= 255
  {
    ToNumber(Split(ip, '.')[i]).value
  }

  /** The four octet values of an accepted address, in order. */
  function OctetNumbers(ip: string): (o: seq<int>)
    requires IsFourOctets(ip)
    ensures |o| == 4 && forall i :: 0 <= i < 4 ==> 0 <= o[i] <= 255
  {
    [OctetNumber(ip, 0), OctetNumber(ip, 1), OctetNumber(ip, 2), OctetNumber(ip, 3)]
  }

  /** The shifted sum `ipToInt` computes is the signed view of the octets'
      big-endian value. */
  lemma ShiftedOctetSum(a: int, b: int, c: int, d: int)
    requires 0 <= a <= 255 && 0 <= b <= 255 && 0 <= c <= 255 && 0 <= d <= 255
    ensures 0 <= BigEndian([a, b, c, d]) < TWO32
    ensures BigEndian([a, b, c, d]) >= TWO31 <==> a >= 128
    ensures Shl(a, 24) + Shl(b, 16) + Shl(c, 8) + d == ToInt32(BigEndian([a, b, c, d]))
  {
    Pow2Values();
    assert Shl(b, 16) == b * 0x1_0000;
    assert Shl(c, 8) == c * 0x100;
    var rest := b * 0x1_0000 + c * 0x100 + d;
    assert 0 <= rest < 0x100_0000;
    if a < 128 {
      assert Shl(a, 24) == a * 0x100_0000;
    } else {
      assert Shl(a, 24) == a * 0x100_0000 - TWO32;
    }
  }

  /** `ipToInt(ip)`: `(p0 << 24) + (p1 << 16) + (p2 << 8) + p3`. The first term
      is a signed 32-bit shift, so the result is negative from 128.0.0.0 on. */
  function IpToInt(ip: string): (r: Result<int, IpError>)
    ensures r.Success? <==> IsFourOctets(ip)
    ensures r.Success? ==>
      var u := BigEndian(OctetNumbers(ip));
      && 0 <= u < TWO32
      && r.value == ToInt32(u)
      && (r.value < 0 <==> OctetNumber(ip, 0) >= 128)
    ensures r.Failure? ==> r.error == InvalidIpAddress
  {
    var parts := Split(ip, '.');
    if |parts| != 4 || exists i :: 0 <= i < 4 && !IsOctetNumber(parts[i]) then
      Failure(InvalidIpAddress)
    else
      var p0, p1, p2, p3 := OctetNumber(ip, 0), OctetNumber(ip, 1), OctetNumber(ip, 2), OctetNumber(ip, 3);
      ShiftedOctetSum(p0, p1, p2, p3);
      Success(Shl(p0, 24) + Shl(p1, 16) + Shl(p2, 8) + p3)
  }

  /** `(n >>> shift) & 0xFF` is the octet of n at bit `shift`. */
  lemma OctetByShiftAndMask(n: nat, shift: nat)
    requires n < TWO32 && shift < 32
    ensures BitAnd(Ushr(n, shift), 0xFF) == (n / Pow2(shift)) % 256
  {
    var v := Ushr(n, shift);
    assert v == n / Pow2(shift);
    Pow2Values();
    AndLowMask(v, 8, 32);
    assert ToUint32(0xFF) == Pow2(8) - 1;
  }

  /** The four masked shifts of `intToIp` are the octets of n. */
  lemma ShiftedOctets(n: nat)
    requires n < TWO32
    ensures [BitAnd(Ushr(n, 24), 0xFF), BitAnd(Ushr(n, 16), 0xFF), BitAnd(Ushr(n, 8), 0xFF), BitAnd(n, 0xFF)]
      == Octets(n)
  {
    Pow2Values();
    assert Pow2(0) == 1;
    OctetByShiftAndMask(n, 24);
    OctetByShiftAndMask(n, 16);
    OctetByShiftAndMask(n, 8);
    OctetByShiftAndMask(n, 0);
    assert Ushr(n, 0) == n;
  }

  /** `intToIp(n)` */
  function IntToIp(n: int): (r: Result<string, IpError>)
    ensures r.Success? <==> 0 <= n < TWO32
    ensures r.Success? ==> r.value == Dotted(n)
    ensures r.Failure? ==> r.error == InvalidIpInteger
  {
    if n < 0 || n > ALL_ONES then Failure(InvalidIpInteger)
    else
      var octets := [BitAnd(Ushr(n, 24), 0xFF), BitAnd(Ushr(n, 16), 0xFF), BitAnd(Ushr(n, 8), 0xFF), BitAnd(n, 0xFF)];
      ShiftedOctets(n);
      DottedIsJoin(n);
      Success(Join([NumberToString(octets[0]), NumberToString(octets[1]), NumberToString(octets[2]), NumberToString(octets[3])], '.'))
  }

  /** The decimal text of an octet is an octet component with that value. */
  lemma OctetText(v: nat)
    requires v <= 255
    ensures ToNumber(Decimal(v)) == Some(v)
    ensures IsOctetNumber(Decimal(v))
  {
    DecimalSpec(v);
    ParseDigits(Decimal(v));
  }

  lemma SplitDotted(n: nat)
    requires n < TWO32
    ensures Split(Dotted(n), '.') == OctetTexts(n)
  {
    DottedIsJoin(n);
    OctetTextsPlain(n);
    SplitJoin(OctetTexts(n), '.');
  }

  /** The components of `Dotted(n)` are its four octets. */
  lemma DottedComponents(n: nat)
    requires n < TWO32
    ensures IsFourOctets(Dotted(n))
    ensures OctetNumbers(Dotted(n)) == Octets(n)
  {
    var parts := Split(Dotted(n), '.');
    SplitDotted(n);
    forall i | 0 <= i < 4
      ensures IsOctetNumber(parts[i]) && ToNumber(parts[i]) == Some(Octets(n)[i])
    {
      OctetText(Octets(n)[i]);
    }
  }

  /** Parsing the dotted form of n gives back n, reinterpreted as a signed
      32-bit value: n itself below 2^31, n - 2^32 from 128.0.0.0 on. */
  lemma IpToIntOfDotted(n: nat)
    requires n < TWO32
    ensures IpToInt(Dotted(n)) == Success(ToInt32(n))
    ensures n < TWO31 ==> IpToInt(Dotted(n)) == Success(n)
    ensures n >= TWO31 ==> IpToInt(Dotted(n)) == Success(n - TWO32)
  {
    DottedComponents(n);
    IpToIntOfOctets(Dotted(n), n);
    SignedView(n);
  }

  /** The signed view of an unsigned 32-bit value. */
  lemma SignedView(n: nat)
    requires n < TWO32
    ensures n < TWO31 ==> ToInt32(n) == n
    ensures n >= TWO31 ==> ToInt32(n) == n - TWO32
  {
  }

  /** An accepted address whose octets are those of n parses to n's signed view. */
  lemma IpToIntOfOctets(ip: string, n: nat)
    requires n < TWO32 && IsFourOctets(ip) && OctetNumbers(ip) == Octets(n)
    ensures IpToInt(ip) == Success(ToInt32(n))
  {
    OctetDecomposition(n);
  }

  /** `intToIp` and `ipToInt` are inverse on [0, 2^32) up to the signed view. */
  lemma IntToIpRoundTrip(n: int)
    requires 0 <= n < TWO32
    ensures IntToIp(n).Success?
    ensures IpToInt(IntToIp(n).value) == Success(ToInt32(n))
  {
    IpToIntOfDotted(n);
  }

  /** Two values with the same dotted text are equal. */
  lemma DottedInjective(a: nat, b: nat)
    requires a < TWO32 && b < TWO32 && Dotted(a) == Dotted(b)
    ensures a == b
  {
    IpToIntOfDotted(a);
    IpToIntOfDotted(b);
  }

  // ---------------------------------------------------------------------------
  // Validators

  /** `validateIP(ip)`: four '.'-separated parts, each with `parseInt` in [0, 255]. */
  predicate ValidateIp(ip: string) {
    var parts := Split(ip, '.');
    && |parts| == 4
    && forall i :: 0 <= i < 4 ==>
         var v := ParseInt(parts[i]);
         v.Some? && 0 <= v.value <= 255
  }

  /** Groups of 1 to `maxLen` decimal digits. */
  predicate DigitGroup(t: string, maxLen: nat) {
    1 <= |t| <= maxLen && AllDigits(t)
  }

  /** The language of `/^(\d{1,3}\.){3}\d{1,3}\/(\d{1,2})$/`. */
  predicate CidrPattern(s: string) {
    var halves := Split(s, '/');
    && |halves| == 2
    && var groups := Split(halves[0], '.');
    && |groups| == 4
    && (forall i :: 0 <= i < 4 ==> DigitGroup(groups[i], 3))
    && DigitGroup(halves[1], 2)
  }

  /** `validateCIDR(cidr)` */
  predicate ValidateCidr(cidr: string) {
    if !CidrPattern(cidr) then false
    else
      var halves := Split(cidr, '/');
      var prefixNum := ParseInt(halves[1]);
      if prefixNum.Some? && (prefixNum.value < 0 || prefixNum.value > 32) then false
      else IpToInt(halves[0]).Success?
  }

  /** The address part and the prefix of a CIDR string. */
  function CidrAddressText(cidr: string): string {
    Split(cidr, '/')[0]
  }

  function CidrPrefixText(cidr: string): string {
    var halves := Split(cidr, '/');
    if |halves| >= 2 then halves[1] else ""
  }

  /** What a valid CIDR string guarantees: one '/', an address `ipToInt`
      accepts before it, and a decimal prefix in [0, 32] after it. */
  lemma ValidCidrParts(cidr: string)
    requires ValidateCidr(cidr)
    ensures |Split(cidr, '/')| == 2
    ensures IpToInt(CidrAddressText(cidr)).Success?
    ensures AllDigits(CidrPrefixText(cidr)) && 1 <= |CidrPrefixText(cidr)| <= 2
    ensures ParseInt(CidrPrefixText(cidr)) == Some(DecimalValue(CidrPrefixText(cidr)))
    ensures DecimalValue(CidrPrefixText(cidr)) <= 32
  {
    ParseDigits(CidrPrefixText(cidr));
  }

  /** The prefix length of a valid CIDR string. */
  function CidrPrefix(cidr: string): (p: nat)
    requires ValidateCidr(cidr)
    ensures p <= 32
    ensures ParseInt(CidrPrefixText(cidr)) == Some(p)
  {
    ValidCidrParts(cidr);
    DecimalValue(CidrPrefixText(cidr))
  }

  /** The canonical text of a CIDR block. */
  function CidrText(n: nat, p: nat): string
    requires n < TWO32
  {
    Dotted(n) + "/" + Decimal(p)
  }

  /** The dotted text of a value has four groups of one to three digits and
      no '/'. */
  lemma DottedGroups(n: nat)
    requires n < TWO32
    ensures '/' !in Dotted(n)
    ensures |Split(Dotted(n), '.')| == 4
    ensures forall i :: 0 <= i < 4 ==> DigitGroup(Split(Dotted(n), '.')[i], 3)
  {
    var texts := OctetTexts(n);
    DottedIsJoin(n);
    OctetTextsPlain(n);
    JoinAvoids(texts, '.', '/');
    SplitJoin(texts, '.');
    forall i | 0 <= i < 4
      ensures DigitGroup(texts[i], 3)
    {
      DecimalSpec(Octets(n)[i]);
      DecimalLength(Octets(n)[i]);
    }
  }

  /** Every canonical CIDR text with a prefix in [0, 32] is valid, and reads
      back as the same address and prefix. */
  lemma CanonicalCidrIsValid(n: nat, p: nat)
    requires n < TWO32 && p <= 32
    ensures ValidateCidr(CidrText(n, p))
    ensures CidrAddressText(CidrText(n, p)) == Dotted(n)
    ensures CidrPrefix(CidrText(n, p)) == p
  {
    DottedGroups(n);
    DecimalSpec(p);
    assert '/' !in Decimal(p);
    SplitAtSeparator(Dotted(n), Decimal(p), '/');
    assert CidrText(n, p) == Dotted(n) + ['/'] + Decimal(p);
    DecimalLength(p);
    ParseDigits(Decimal(p));
    IpToIntOfDotted(n);
  }

  lemma {:induction false} JoinAvoids(parts: seq<string>, sep: char, c: char)
    requires c != sep
    requires forall i :: 0 <= i < |parts| ==> c !in parts[i]
    ensures c !in Join(parts, sep)
    decreases |parts|
  {
    if |parts| > 1 {
      JoinAvoids(parts[1..], sep, c);
    }
  }

  // ---------------------------------------------------------------------------
  // Binary rendering

  /** `intToBinary(num)`: `(num >>> 0).toString(2).padStart(32, '0')`. */
  function IntToBinary(num: int): (r: string)
    ensures |r| == 32 && AllBits(r)
    ensures BinaryValue(r) == ToUint32(num)
  {
    var digits := Binary(Ushr(num, 0));
    Pow2Values();
    BinaryLength(Ushr(num, 0), 32);
    BinaryValueLeadingZeros(32 - |digits|, digits);
    PadStart(digits, 32, '0')
  }

  /** `binaryToOctetString(binary)`: `binary.match(/.{8}/g)?.join('.') || ''`. */
  function BinaryToOctetString(binary: string): (r: string)
    ensures |binary| < 8 ==> r == ""
    ensures |binary| == 32 && AllBits(binary) ==>
      r == binary[..8] + "." + binary[8..16] + "." + binary[16..24] + "." + binary[24..]
  {
    var matches := MatchEights(binary);
    BitsMatchInEights(binary);
    if |matches| == 0 then ""
    else if |binary| == 32 then
      JoinFour(binary[..8], binary[8..16], binary[16..24], binary[24..], '.');
      Join(matches, '.')
    else Join(matches, '.')
  }

  /** Four parts joined: the separator between consecutive parts. */
  lemma JoinFour(a: string, b: string, c: string, d: string, sep: char)
    ensures Join([a, b, c, d], sep) == a + [sep] + b + [sep] + c + [sep] + d
  {
    assert [a, b, c, d][1..] == [b, c, d];
    assert [b, c, d][1..] == [c, d];
    assert [c, d][1..] == [d];
    assert Join([c, d], sep) == c + [sep] + d;
    assert Join([b, c, d], sep) == b + [sep] + (c + [sep] + d);
  }

  /** On a string of bits every window is a match, so `/.{8}/g` cuts
      consecutive groups of eight. */
  lemma MatchEightsOfBits(s: string)
    requires AllBits(s) && |s| >= 8
    ensures MatchEights(s) == [s[..8]] + MatchEights(s[8..])
  {
    assert forall i :: 0 <= i < 8 ==> IsBit(s[i]);
  }

  lemma BitsMatchInEights(s: string)
    ensures AllBits(s) && |s| == 32 ==>
      MatchEights(s) == [s[..8], s[8..16], s[16..24], s[24..]]
  {
    if AllBits(s) && |s| == 32 {
      var t := s[8..];
      var u := t[8..];
      var v := u[8..];
      MatchEightsOfBits(v);
      MatchEightsOfBits(u);
      MatchEightsOfBits(t);
      MatchEightsOfBits(s);
      assert MatchEights(v[8..]) == [];
      assert t[..8] == s[8..16] && u[..8] == s[16..24] && v[..8] == s[24..];
    }
  }
}
