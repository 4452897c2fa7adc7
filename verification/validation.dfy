/** The request schemas of `lib/validation.ts`: the IPv4 and CIDR regular
    expressions, the prefix refinement of `cidrSchema`, the octet-by-octet
    order check of `ipRangeSchema`, and the field constraints of
    `subnetSchema` and `overlapCheckerSchema`. A schema is modelled as the
    predicate "the value parses without issues". */
module Validation {

  import opened Wrappers
  import opened JsNumbers
  import opened JsStrings
  import opened Address
  import RangeToCidr
  import Overlaps

  // ---------------------------------------------------------------------------
  // The regular expressions

  /** `[01]?[0-9][0-9]?`: an optional 0 or 1, a digit, an optional digit. */
  predicate ShortOctet(t: string) {
    || (|t| == 1 && IsDigit(t[0]))
    || (|t| == 2 && (t[0] == '0' || t[0] == '1') && IsDigit(t[1]))
    || (|t| == 2 && IsDigit(t[0]) && IsDigit(t[1]))
    || (|t| == 3 && (t[0] == '0' || t[0] == '1') && IsDigit(t[1]) && IsDigit(t[2]))
  }

  /** `25[0-5]|2[0-4][0-9]|[01]?[0-9][0-9]?`, one octet of both expressions. */
  predicate OctetAlternative(t: string) {
    || (|t| == 3 && t[0] == '2' && t[1] == '5' && '0' <= t[2] <= '5')
    || (|t| == 3 && t[0] == '2' && '0' <= t[1] <= '4' && IsDigit(t[2]))
    || ShortOctet(t)
  }

  /** `[0-9]|[1-2][0-9]|3[0-2]`, the prefix group of `cidrRegex`. */
  predicate PrefixAlternative(t: string) {
    || (|t| == 1 && IsDigit(t[0]))
    || (|t| == 2 && '1' <= t[0] <= '2' && IsDigit(t[1]))
    || (|t| == 2 && t[0] == '3' && '0' <= t[1] <= '2')
  }

  /** `ipv4Regex` (line 3). The expression is anchored and no octet
      alternative matches a '.', so a string matches exactly when its
      '.'-separated parts are four octet alternatives. */
  predicate Ipv4Regex(s: string) {
    var groups := Split(s, '.');
    |groups| == 4 && forall i :: 0 <= i < 4 ==> OctetAlternative(groups[i])
  }

  /** `cidrRegex` (line 4): an `ipv4Regex` address, '/', a prefix alternative.
      Neither side matches a '/'. */
  predicate CidrRegex(s: string) {
    var halves := Split(s, '/');
    |halves| == 2 && Ipv4Regex(halves[0]) && PrefixAlternative(halves[1])
  }

  /** The octet alternatives are exactly the one- to three-digit groups of
      value at most 255; leading zeros such as "010" or "007" are allowed. */
  lemma OctetAlternativeValue(t: string)
    ensures OctetAlternative(t) <==> DigitGroup(t, 3) && DecimalValue(t) <= 255
  {
    if DigitGroup(t, 3) {
      DecimalDigits(t);
    }
  }

  /** The prefix alternatives are exactly the decimal numbers 0 to 32 written
      without a leading zero: "05" and "33" are rejected. */
  lemma PrefixAlternativeValue(t: string)
    ensures PrefixAlternative(t) <==>
      DigitGroup(t, 2) && (|t| == 2 ==> t[0] != '0') && DecimalValue(t) <= 32
  {
    if DigitGroup(t, 2) {
      DecimalDigits(t);
    }
  }

  /** The value of a digit string of length one to three, digit by digit. */
  lemma DecimalDigits(t: string)
    requires DigitGroup(t, 3)
    ensures |t| == 1 ==> DecimalValue(t) == DigitValue(t[0])
    ensures |t| == 2 ==> DecimalValue(t) == 10 * DigitValue(t[0]) + DigitValue(t[1])
    ensures |t| == 3 ==> DecimalValue(t) == 100 * DigitValue(t[0]) + 10 * DigitValue(t[1]) + DigitValue(t[2])
  {
    assert DecimalValue(t[..0]) == 0;
    if |t| >= 2 {
      assert t[..|t| - 1][..|t| - 2] == t[..|t| - 2];
    }
    if |t| == 3 {
      assert t[..1][..0] == t[..0];
      assert t[..2][..1] == t[..1];
    }
  }

  /** An octet alternative is a digit group that both number parsers read
      as its decimal value, at most 255. */
  lemma OctetAlternativeParses(t: string)
    requires OctetAlternative(t)
    ensures DigitGroup(t, 3) && DecimalValue(t) <= 255
    ensures ParseInt(t) == Some(DecimalValue(t)) && ToNumber(t) == Some(DecimalValue(t))
  {
    OctetAlternativeValue(t);
    ParseDigits(t);
  }

  /** An address the IPv4 expression accepts passes `ipToInt`, each
      component reading as its decimal value. */
  lemma Ipv4RegexParses(s: string)
    requires Ipv4Regex(s)
    ensures IsFourOctets(s)
    ensures forall i :: 0 <= i < 4 ==>
      DigitGroup(Split(s, '.')[i], 3) && ToNumber(Split(s, '.')[i]) == Some(DecimalValue(Split(s, '.')[i]))
  {
    var groups := Split(s, '.');
    forall i | 0 <= i < 4
      ensures IsOctetNumber(groups[i])
      ensures DigitGroup(groups[i], 3) && ToNumber(groups[i]) == Some(DecimalValue(groups[i]))
    {
      OctetAlternativeParses(groups[i]);
    }
  }

  /** An address the IPv4 expression accepts passes `validateIP`. */
  lemma Ipv4RegexValidIp(s: string)
    requires Ipv4Regex(s)
    ensures ValidateIp(s)
  {
    var groups := Split(s, '.');
    forall i | 0 <= i < 4
      ensures ParseInt(groups[i]).Some? && 0 <= ParseInt(groups[i]).value <= 255
    {
      OctetAlternativeParses(groups[i]);
    }
  }

  /** The canonical dotted text of every 32-bit value matches the IPv4
      expression. */
  lemma DottedMatchesIpv4(n: nat)
    requires n < TWO32
    ensures Ipv4Regex(Dotted(n))
  {
    SplitDotted(n);
    forall i | 0 <= i < 4
      ensures OctetAlternative(OctetTexts(n)[i])
    {
      OctetTextsPlain(n);
      DecimalSpec(Octets(n)[i]);
      DecimalLength(Octets(n)[i]);
      OctetAlternativeValue(OctetTexts(n)[i]);
    }
  }

  /** On four groups of one to three digits, `validateIP` and the IPv4
      expression agree. They part only on other texts: `parseInt` also reads
      "1a", " 7", "+3", "-0" and "0010", which the expression rejects. */
  lemma ValidateIpOnDigitGroups(s: string)
    requires |Split(s, '.')| == 4
    requires forall i :: 0 <= i < 4 ==> DigitGroup(Split(s, '.')[i], 3)
    ensures ValidateIp(s) <==> Ipv4Regex(s)
  {
    var groups := Split(s, '.');
    if ValidateIp(s) {
      forall i | 0 <= i < 4
        ensures OctetAlternative(groups[i])
      {
        ParseDigits(groups[i]);
        OctetAlternativeValue(groups[i]);
      }
    } else if Ipv4Regex(s) {
      Ipv4RegexValidIp(s);
    }
  }

  // ---------------------------------------------------------------------------
  // cidrSchema (lines 6-12)

  /** The refinement: the text after the first '/' (NaN when there is none)
      has `parseInt` in [0, 32]. */
  predicate PrefixRefine(s: string) {
    var prefixNum := ParseInt(CidrPrefixText(s));
    prefixNum.Some? && 0 <= prefixNum.value <= 32
  }

  /** `cidrSchema`: the expression matches and the refinement holds. */
  predicate CidrSchema(s: string) {
    CidrRegex(s) && PrefixRefine(s)
  }

  /** The refinement never rejects a string the expression accepted, so the
      schema is the expression alone. */
  lemma RefineNeverFails(s: string)
    ensures CidrRegex(s) ==> PrefixRefine(s)
    ensures CidrSchema(s) <==> CidrRegex(s)
  {
    if CidrRegex(s) {
      var prefix := CidrPrefixText(s);
      PrefixAlternativeValue(prefix);
      ParseDigits(prefix);
    }
  }

  /** A CIDR that passes the schema passes `validateCIDR`. */
  lemma SchemaCidrIsValid(s: string)
    requires CidrSchema(s)
    ensures ValidateCidr(s)
  {
    var halves := Split(s, '/');
    Ipv4RegexParses(halves[0]);
    PrefixAlternativeValue(halves[1]);
    ParseDigits(halves[1]);
  }

  /** `validateCIDR` is looser than the schema: it takes a one-digit prefix
      written with a leading zero, such as "10.0.0.0/08", which the
      expression rejects. */
  lemma ValidateCidrLooser(n: nat, p: nat)
    requires n < TWO32 && p < 10
    ensures ValidateCidr(Dotted(n) + "/0" + Decimal(p))
    ensures !CidrSchema(Dotted(n) + "/0" + Decimal(p))
  {
    var t := "0" + Decimal(p);
    assert Dotted(n) + "/0" + Decimal(p) == Dotted(n) + "/" + t;
    ZeroPadded(p);
    DottedGroups(n);
    ValidCidrOfParts(n, t, p);
    NotSchemaOfParts(Dotted(n), t);
  }

  /** A digit below 10 written with a leading zero: two digits that
      `parseInt` reads as the digit, and not a prefix alternative. */
  lemma ZeroPadded(p: nat)
    requires p < 10
    ensures DigitGroup("0" + Decimal(p), 2) && '/' !in "0" + Decimal(p)
    ensures ParseInt("0" + Decimal(p)) == Some(p)
    ensures !PrefixAlternative("0" + Decimal(p))
  {
    var c := DigitChar(p);
    var t := "0" + Decimal(p);
    assert Decimal(p) == [c];
    assert t == ['0', c];
    DecimalDigits(t);
    ParseDigits(t);
  }

  /** Splitting "a/t" at '/' when neither side holds one. */
  lemma SplitAtSlash(a: string, t: string)
    requires '/' !in a && '/' !in t
    ensures Split(a + "/" + t, '/') == [a, t]
  {
    assert a + "/" + t == a + ['/'] + t;
    SplitAtSeparator(a, t, '/');
    SplitNoSeparator(t, '/');
  }

  /** A dotted address, '/', and a one- or two-digit prefix at most 32 is a
      valid CIDR. */
  lemma ValidCidrOfParts(n: nat, t: string, p: nat)
    requires n < TWO32 && DigitGroup(t, 2) && ParseInt(t) == Some(p) && p <= 32
    ensures ValidateCidr(Dotted(n) + "/" + t)
  {
    DottedGroups(n);
    assert '/' !in t;
    SplitAtSlash(Dotted(n), t);
    IpToIntOfDotted(n);
  }

  /** A prefix that is not a prefix alternative fails the expression. */
  lemma NotSchemaOfParts(a: string, t: string)
    requires '/' !in a && '/' !in t && !PrefixAlternative(t)
    ensures !CidrSchema(a + "/" + t)
  {
    SplitAtSlash(a, t);
  }

  /** The canonical text of every block passes the schema. */
  lemma CanonicalCidrPassesSchema(n: nat, p: nat)
    requires n < TWO32 && p <= 32
    ensures CidrSchema(CidrText(n, p))
  {
    PrefixText(p);
    DottedGroups(n);
    SplitAtSlash(Dotted(n), Decimal(p));
    DottedMatchesIpv4(n);
    assert CidrRegex(CidrText(n, p));
    RefineNeverFails(CidrText(n, p));
  }

  /** The decimal text of a prefix length is a prefix alternative. */
  lemma PrefixText(p: nat)
    requires p <= 32
    ensures PrefixAlternative(Decimal(p)) && '/' !in Decimal(p)
  {
    DecimalSpec(p);
    DecimalLength(p);
    PrefixAlternativeValue(Decimal(p));
  }

  // ---------------------------------------------------------------------------
  // ipRangeSchema (lines 17-29)

  /** `ip.split('.').map(Number)`. */
  function NumberParts(ip: string): (ps: seq<Option<int>>)
    ensures |ps| == |Split(ip, '.')|
    ensures forall i :: 0 <= i < |ps| ==> ps[i] == ToNumber(Split(ip, '.')[i])
  {
    var parts := Split(ip, '.');
    seq(|parts|, i requires 0 <= i < |parts| => ToNumber(parts[i]))
  }

  /** `parts[i]` of the mapped split: `undefined`, which compares like NaN
      (`None`), past the end. */
  function At(ps: seq<Option<int>>, i: nat): Option<int> {
    if i < |ps| then ps[i] else None
  }

  /** `a < b` on two numbers that may be NaN: false when either is NaN. */
  predicate Below(a: Option<int>, b: Option<int>) {
    a.Some? && b.Some? && a.value < b.value
  }

  /** Neither part is below the other at position i. */
  predicate Tie(xs: seq<Option<int>>, ys: seq<Option<int>>, i: nat) {
    !Below(At(xs, i), At(ys, i)) && !Below(At(ys, i), At(xs, i))
  }

  /** Position k is where the loop returns false: every earlier position
      ties, and the start is above the end at k. */
  predicate DecidedAbove(xs: seq<Option<int>>, ys: seq<Option<int>>, k: nat) {
    && k < 4
    && (forall i: nat :: i < k ==> Tie(xs, ys, i))
    && Below(At(ys, k), At(xs, k))
  }

  /** The refinement's loop over the mapped parts (lines 24-28): the first
      position where the parts differ decides, and ties throughout give
      true. */
  method RangeRefine(startParts: seq<Option<int>>, endParts: seq<Option<int>>) returns (ok: bool)
    ensures ok <==> !exists k: nat :: k < 4 && DecidedAbove(startParts, endParts, k)
  {
    var i: nat := 0;
    while i < 4
      invariant i <= 4
      invariant forall j: nat :: j < i ==> Tie(startParts, endParts, j)
    {
      var a, b := At(startParts, i), At(endParts, i);
      if Below(a, b) {
        assert !Tie(startParts, endParts, i);
        forall k: nat | k < 4
          ensures !DecidedAbove(startParts, endParts, k)
        {
          if k < i {
            assert Tie(startParts, endParts, k);
          }
        }
        return true;
      }
      if Below(b, a) {
        assert DecidedAbove(startParts, endParts, i);
        return false;
      }
      i := i + 1;
    }
    forall k: nat | k < 4
      ensures !DecidedAbove(startParts, endParts, k)
    {
      assert Tie(startParts, endParts, k);
    }
    return true;
  }

  /** `ipRangeSchema`: both addresses match the IPv4 expression and the
      refinement holds. */
  predicate RangeSchema(startIP: string, endIP: string) {
    && Ipv4Regex(startIP) && Ipv4Regex(endIP)
    && !exists k: nat :: k < 4 && DecidedAbove(NumberParts(startIP), NumberParts(endIP), k)
  }

  /** Lexicographic order on four octets is the order of their big-endian
      values. */
  lemma LexicographicIsNumeric(a: seq<int>, b: seq<int>)
    requires |a| == 4 && |b| == 4
    requires forall i :: 0 <= i < 4 ==> 0 <= a[i] <= 255 && 0 <= b[i] <= 255
    ensures BigEndian(a) <= BigEndian(b) <==>
      !exists k :: 0 <= k < 4 && (forall i :: 0 <= i < k ==> a[i] == b[i]) && a[k] > b[k]
  {
    forall k | 0 <= k < 4 && (forall i :: 0 <= i < k ==> a[i] == b[i]) && a[k] > b[k]
      ensures BigEndian(a) > BigEndian(b)
    {
      if k >= 1 { assert a[0] == b[0]; }
      if k >= 2 { assert a[1] == b[1]; }
      if k >= 3 { assert a[2] == b[2]; }
    }
    if BigEndian(a) > BigEndian(b) {
      var k := if a[0] != b[0] then 0 else if a[1] != b[1] then 1 else if a[2] != b[2] then 2 else 3;
      assert (forall i :: 0 <= i < k ==> a[i] == b[i]) && a[k] > b[k];
    }
  }

  /** On addresses the IPv4 expression accepts, the refinement holds exactly
      when the start is at most the end as unsigned 32-bit values. The order
      is unsigned, unlike the signed comparison in `rangeToCIDR`. */
  lemma RangeSchemaIsUnsignedOrder(startIP: string, endIP: string)
    requires Ipv4Regex(startIP) && Ipv4Regex(endIP)
    ensures IsFourOctets(startIP) && IsFourOctets(endIP)
    ensures RangeSchema(startIP, endIP) <==> RangeToCidr.Unsigned(startIP) <= RangeToCidr.Unsigned(endIP)
  {
    PartsAreOctets(startIP);
    PartsAreOctets(endIP);
    UnsignedIsBigEndian(startIP);
    UnsignedIsBigEndian(endIP);
    LexOfParts(NumberParts(startIP), NumberParts(endIP), OctetNumbers(startIP), OctetNumbers(endIP));
  }

  /** The mapped parts of an address the IPv4 expression accepts are its
      four octet values. */
  lemma PartsAreOctets(ip: string)
    requires Ipv4Regex(ip)
    ensures IsFourOctets(ip)
    ensures forall i: nat :: i < 4 ==> At(NumberParts(ip), i) == Some(OctetNumbers(ip)[i])
  {
    Ipv4RegexParses(ip);
  }

  /** The unsigned view of a parsed address is the big-endian value of its
      octets. */
  lemma UnsignedIsBigEndian(ip: string)
    requires IsFourOctets(ip)
    ensures RangeToCidr.Unsigned(ip) == BigEndian(OctetNumbers(ip))
  {
  }

  /** The loop's verdict on two sequences of four octets is their
      big-endian order. */
  lemma LexOfParts(xs: seq<Option<int>>, ys: seq<Option<int>>, a: seq<int>, b: seq<int>)
    requires |a| == 4 && |b| == 4
    requires forall i :: 0 <= i < 4 ==> 0 <= a[i] <= 255 && 0 <= b[i] <= 255
    requires forall i: nat :: i < 4 ==> At(xs, i) == Some(a[i]) && At(ys, i) == Some(b[i])
    ensures (exists k: nat :: k < 4 && DecidedAbove(xs, ys, k)) <==> BigEndian(a) > BigEndian(b)
  {
    LexicographicIsNumeric(a, b);
    if exists k: nat :: k < 4 && DecidedAbove(xs, ys, k) {
      var k: nat :| k < 4 && DecidedAbove(xs, ys, k);
      forall i | 0 <= i < k
        ensures a[i] == b[i]
      {
        assert Tie(xs, ys, i);
      }
    }
    if exists k :: 0 <= k < 4 && (forall i :: 0 <= i < k ==> a[i] == b[i]) && a[k] > b[k] {
      var k :| 0 <= k < 4 && (forall i :: 0 <= i < k ==> a[i] == b[i]) && a[k] > b[k];
      assert DecidedAbove(xs, ys, k);
    }
  }

  // ---------------------------------------------------------------------------
  // subnetSchema and overlapCheckerSchema (lines 31-44)

  /** `z.coerce.number().int().positive()` on a submitted text: `Number`
      must give an integer (not NaN) greater than zero. */
  predicate PositiveInteger(value: string) {
    var v := ToNumber(value);
    v.Some? && v.value > 0
  }

  /** `subnetSchema`. */
  predicate SubnetSchema(networkCidr: string, mode: string, value: string) {
    && CidrSchema(networkCidr)
    && (mode == "subnets" || mode == "hosts")
    && PositiveInteger(value)
  }

  /** A request that passes `subnetSchema` gets past the input checks of
      `subnetByCount` and `subnetByHosts`: the CIDR is valid and the count is
      at least 1. */
  lemma SubnetSchemaPassesChecks(networkCidr: string, mode: string, value: string)
    requires SubnetSchema(networkCidr, mode, value)
    ensures ValidateCidr(networkCidr)
    ensures ToNumber(value).value >= 1
  {
    SchemaCidrIsValid(networkCidr);
  }

  /** `overlapCheckerSchema`: at least two entries, each a `cidrSchema`. */
  predicate OverlapCheckerSchema(cidrs: seq<string>) {
    |cidrs| >= 2 && forall i :: 0 <= i < |cidrs| ==> CidrSchema(cidrs[i])
  }

  /** A list that passes `overlapCheckerSchema` passes the validation step of
      `checkMultipleOverlaps`, so that step never reports invalid blocks. */
  lemma OverlapSchemaPassesChecks(cidrs: seq<string>)
    requires OverlapCheckerSchema(cidrs)
    ensures Overlaps.All(ValidateCidr, cidrs)
  {
    forall i | 0 <= i < |cidrs|
      ensures ValidateCidr(cidrs[i])
    {
      SchemaCidrIsValid(cidrs[i]);
    }
  }
}
