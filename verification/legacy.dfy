/** The older calculator of `cidr-calculator/utils/ipMath.ts`, which leaves the
    address arithmetic to the `ip-address` library. The library is not part of
    this model: it enters as a parameter, `Library`, that reads CIDR text into
    an address record and divides a block into sub-blocks. What the calculator
    decides itself is modelled exactly: the wildcard text, the host counts and
    ranges, the checks on subnet and host counts, the order in which a mask text
    is tried, and the classification of overlapping blocks. Properties that
    depend on the library behaving like a CIDR library are stated under the
    explicit assumptions `Aligned` and `DividesFully`. */
module Legacy {

  import opened Wrappers
  import opened JsNumbers
  import opened JsStrings
  import opened Address
  import Blocks
  import Masks

  /** An unsigned 32-bit address value. */
  type Uint32 = n: nat | n < TWO32

  /** What the library reports for `new Address4(text)`: the first and last
      address of the block, its prefix length (`subnetMask`), its `cidr` text and
      its `subnet` text. */
  datatype LibAddress = LibAddress(start: Uint32, end: Uint32, prefix: nat, cidr: string, subnet: string)

  /** The library as the calculator uses it. `parse(text)` is `new Address4(text)`,
      `None` when the constructor throws; `divide(a, q)` is `a.subnet(q)`, the
      sub-blocks of prefix length q in address order. */
  datatype Library = Library(parse: string -> Option<LibAddress>, divide: (LibAddress, int) -> seq<LibAddress>)

  /** The exceptions the calculator turns into `{ error }` values. */
  datatype LegacyError =
    | LibraryError          // the library threw (message not modelled)
    | CountNotPositive      // calculateSubnetsBySubnetCount: count <= 0
    | NotEnoughSpace        // calculateSubnetsBySubnetCount: new prefix > 32
    | HostCountNotPositive  // calculateSubnetsByHostCount: count <= 0
    | HostsDoNotFit         // calculateSubnetsByHostCount: new prefix < network prefix
    | CidrOutOfRange        // convertMask: "/n" with n not in [0, 32]
    | UnrecognizedMask      // convertMask: no reading of the text was accepted

  /** A record that describes a genuine CIDR block: the assumption about the
      library under which the block-level properties hold. */
  predicate Aligned(a: LibAddress) {
    Blocks.IsBlock(a.start, a.prefix) && a.end == Blocks.Last(a.start, a.prefix)
  }

  /** The library's `subnet(q)` returns every sub-block of prefix q. */
  ghost predicate DividesFully(lib: Library) {
    forall a: LibAddress, q: int ::
      a.prefix <= q <= 32 ==> |lib.divide(a, q)| == Pow2(q - a.prefix)
  }

  // ---------------------------------------------------------------------------
  // calculateWildcardMask

  /** `255 - parseInt(octet, 10)` rendered as text; "NaN" when the part has no
      leading digits. */
  function ComplementPart(part: string): string
  {
    var v := ParseInt(part);
    if v.None? then "NaN" else NumberToString(255 - v.value)
  }

  /** The complement is "NaN" exactly when the part does not read as a number. */
  lemma ComplementPartNaN(part: string)
    ensures ComplementPart(part) == "NaN" <==> ParseInt(part).None?
  {
    var v := ParseInt(part);
    if v.Some? {
      NumberTextIsNotNaN(255 - v.value);
    }
  }

  /** A number's text begins with a sign or a digit. */
  lemma NumberTextIsNotNaN(x: int)
    ensures NumberToString(x) != "NaN"
  {
    if x >= 0 {
      DecimalSpec(x);
      assert IsDigit(NumberToString(x)[0]);
    } else {
      assert NumberToString(x)[0] == '-';
    }
  }

  /** The complement of the decimal text of an octet is the decimal text of
      255 minus it. */
  lemma ComplementOfDecimal(o: nat)
    requires o <= 255
    ensures ComplementPart(Decimal(o)) == Decimal(255 - o)
  {
    var text := Decimal(o);
    DecimalSpec(o);
    ParseDigits(text);
    assert ParseInt(text) == Some(o);
    assert ComplementPart(text) == NumberToString(255 - o) == Decimal(255 - o);
  }

  /** The parts with every one complemented. */
  function ComplementParts(parts: seq<string>): (r: seq<string>)
    ensures |r| == |parts|
    ensures forall i :: 0 <= i < |parts| ==> r[i] == ComplementPart(parts[i])
  {
    seq(|parts|, i requires 0 <= i < |parts| => ComplementPart(parts[i]))
  }

  /** `calculateWildcardMask`: every dot-separated part replaced by its
      complement to 255. */
  function WildcardText(mask: string): string
  {
    Join(ComplementParts(Split(mask, '.')), '.')
  }

  /** The octets of the complement are the complemented octets. */
  lemma OctetsOfComplement(n: Uint32, c: Uint32)
    requires c == ALL_ONES - n
    ensures Octets(c) == Masks.Flip(Octets(n))
  {
    OctetDecomposition(n);
    Masks.FlipValue(Octets(n));
  }

  /** The decimal texts of four octets. */
  function DecimalTexts(o: seq<nat>): (texts: seq<string>)
    requires |o| == 4
    ensures |texts| == 4
  {
    [Decimal(o[0]), Decimal(o[1]), Decimal(o[2]), Decimal(o[3])]
  }

  /** Complementing the decimal texts of four octets gives the texts of the
      complemented octets. */
  lemma ComplementDecimalTexts(o: seq<nat>)
    requires |o| == 4 && forall i :: 0 <= i < 4 ==> o[i] <= 255
    ensures ComplementParts(DecimalTexts(o)) == DecimalTexts(Masks.Flip(o))
  {
    var r, f := ComplementParts(DecimalTexts(o)), DecimalTexts(Masks.Flip(o));
    forall i | 0 <= i < 4
      ensures r[i] == f[i]
    {
      ComplementAt(o, i);
    }
  }

  lemma FlipTextAt(o: seq<nat>, i: nat)
    requires |o| == 4 && forall k :: 0 <= k < 4 ==> o[k] <= 255
    requires i < 4
    ensures DecimalTexts(Masks.Flip(o))[i] == Decimal(255 - o[i])
  {
  }

  lemma ComplementPartAt(o: seq<nat>, i: nat)
    requires |o| == 4 && forall k :: 0 <= k < 4 ==> o[k] <= 255
    requires i < 4
    ensures ComplementParts(DecimalTexts(o))[i] == ComplementPart(Decimal(o[i]))
  {
    var parts := DecimalTexts(o);
    assert parts[i] == Decimal(o[i]);
    assert ComplementParts(parts)[i] == ComplementPart(parts[i]);
  }

  lemma ComplementAt(o: seq<nat>, i: nat)
    requires |o| == 4 && forall k :: 0 <= k < 4 ==> o[k] <= 255
    requires i < 4
    ensures ComplementParts(DecimalTexts(o))[i] == DecimalTexts(Masks.Flip(o))[i]
  {
    FlipTextAt(o, i);
    ComplementPartAt(o, i);
    ComplementOfDecimal(o[i]);
  }

  /** Complementing the octet texts of n gives the octet texts of the complement. */
  lemma ComplementOctetTexts(n: Uint32, c: Uint32)
    requires c == ALL_ONES - n
    ensures ComplementParts(OctetTexts(n)) == OctetTexts(c)
  {
    var o := Octets(n);
    assert OctetTexts(n) == DecimalTexts(o);
    ComplementDecimalTexts(o);
    OctetsOfComplement(n, c);
    assert OctetTexts(c) == DecimalTexts(Octets(c));
  }

  /** On canonical dotted text the wildcard text is the dotted text of the
      bitwise complement. */
  lemma WildcardOfDotted(n: Uint32, c: Uint32)
    requires c == ALL_ONES - n
    ensures WildcardText(Dotted(n)) == Dotted(c)
  {
    SplitDotted(n);
    ComplementOctetTexts(n, c);
    DottedIsJoin(c);
  }

  /** Complementing a canonical mask text twice gives it back. */
  lemma WildcardInvolution(n: Uint32)
    ensures WildcardText(WildcardText(Dotted(n))) == Dotted(n)
  {
    var c: Uint32 := ALL_ONES - n;
    WildcardOfDotted(n, c);
    WildcardOfDotted(c, n);
  }

  /** The wildcard text agrees with the newer calculator's `maskToWildcard` on
      every canonical netmask text. */
  lemma WildcardAgreesWithMaskToWildcard(n: Uint32)
    ensures Masks.MaskToWildcard(Dotted(n)) == Success(WildcardText(Dotted(n)))
  {
    var c: Uint32 := ALL_ONES - n;
    WildcardOfDotted(n, c);
    Masks.MaskToWildcardOfDotted(n, c);
  }

  // ---------------------------------------------------------------------------
  // getCidrInfo

  datatype CidrInfo = CidrInfo(
    networkAddress: string, broadcastAddress: string,
    usableHosts: int, totalHosts: int, ipRange: string,
    cidr: string, subnetMask: string, wildcardMask: string)

  /** The dotted text of an address begins with a digit, so it is never "N/A". */
  lemma DottedStartsWithDigit(n: Uint32)
    ensures IsDigit(Dotted(n)[0]) && Dotted(n) != "N/A"
  {
    LowStartsWithDigit(n, 4);
  }

  lemma {:induction false} LowStartsWithDigit(n: nat, k: nat)
    requires 1 <= k
    ensures IsDigit(DottedLow(n, k)[0])
    decreases k
  {
    if k == 1 {
      DecimalSpec(n % 256);
    } else {
      LowStartsWithDigit(n / 256, k - 1);
    }
  }

  /** The usable-host count of `getCidrInfo`: 1 for /32, 2 for /31, otherwise
      the total less network and broadcast, never negative. */
  function UsableCount(prefix: nat, total: int): (u: int)
    ensures u >= 0
    ensures prefix < 31 ==> (u == 0 <==> total <= 2)
  {
    if prefix == 32 then 1 else if prefix == 31 then 2 else if total > 2 then total - 2 else 0
  }

  /** The ipRange text of `getCidrInfo` for a block with the given usable count. */
  function RangeText(a: LibAddress, usable: int): (range: string)
    ensures a.prefix < 31 ==> (range == "N/A" <==> usable <= 0 || a.end - a.start < 2)
  {
    if a.prefix == 32 then Dotted(a.start)
    else if a.prefix == 31 then Dotted(a.start) + " - " + Dotted(a.end)
    else if usable > 0 && a.end - a.start >= 2 then
      DottedStartsWithDigit(a.start + 1);
      var range := Dotted(a.start + 1) + " - " + Dotted(a.end - 1);
      assert range[0] == Dotted(a.start + 1)[0];
      range
    else "N/A"
  }

  /** The description `getCidrInfo` builds from the library's record. */
  function Describe(a: LibAddress): (info: CidrInfo)
    ensures info.networkAddress == Dotted(a.start) && info.broadcastAddress == Dotted(a.end)
    ensures info.wildcardMask == WildcardText(info.subnetMask)
    ensures info.usableHosts >= 0
    ensures a.prefix < 31 ==> (info.ipRange == "N/A" <==> info.usableHosts == 0)
  {
    var total := a.end - a.start + 1;
    var usable := UsableCount(a.prefix, total);
    CidrInfo(Dotted(a.start), Dotted(a.end), usable, total, RangeText(a, usable), a.cidr, a.subnet, WildcardText(a.subnet))
  }

  /** The usable-host count `calculateSubnetsByHostCount` promises for a
      sub-block of prefix q. */
  function PlanUsable(q: nat): int
    requires q <= 32
  {
    var total := Pow2(32 - q);
    if q >= 31 then total else total - 2
  }

  /** For a genuine block of prefix at most 30 `getCidrInfo` reports the total
      less network and broadcast, which leaves at least 2. */
  lemma WideBlockCounts(a: LibAddress)
    requires Aligned(a) && a.prefix <= 30
    ensures Describe(a).totalHosts == Blocks.Size(a.prefix)
    ensures a.start + 1 < a.end
    ensures Describe(a).usableHosts == Describe(a).totalHosts - 2 >= 2
  {
    SizeAtLeastFour(a.prefix);
  }

  /** For a genuine block of prefix at most 30 the range runs strictly between
      network and broadcast; "N/A" is never produced. */
  lemma WideBlockRange(a: LibAddress)
    requires Aligned(a) && a.prefix <= 30
    ensures Describe(a).ipRange == Dotted(a.start + 1) + " - " + Dotted(a.end - 1)
    ensures Describe(a).ipRange != "N/A"
  {
    WideBlockCounts(a);
    var info := Describe(a);
    assert info.ipRange == RangeText(a, info.usableHosts);
    RangeBetween(a, info.usableHosts);
  }

  lemma RangeBetween(a: LibAddress, usable: int)
    requires a.prefix <= 30 && usable > 0 && a.end - a.start >= 2
    ensures RangeText(a, usable) == Dotted(a.start + 1) + " - " + Dotted(a.end - 1)
    ensures RangeText(a, usable) != "N/A"
  {
  }

  lemma SizeAtLeastFour(p: nat)
    requires p <= 30
    ensures Blocks.Size(p) >= 4
  {
    Pow2Add(2, 30 - p);
    assert Pow2(2) == 4;
  }

  /** For a genuine /31 block both addresses are usable and the range is the pair. */
  lemma PairBlockRange(a: LibAddress)
    requires Aligned(a) && a.prefix == 31
    ensures Describe(a).totalHosts == Blocks.Size(a.prefix) == 2
    ensures Describe(a).usableHosts == 2
    ensures Describe(a).ipRange == Dotted(a.start) + " - " + Dotted(a.end)
  {
    assert Pow2(1) == 2;
  }

  /** For a genuine /32 block the single address is the range. */
  lemma SingleBlockRange(a: LibAddress)
    requires Aligned(a) && a.prefix == 32
    ensures Describe(a).totalHosts == Blocks.Size(a.prefix) == 1
    ensures a.start == a.end && Describe(a).networkAddress == Describe(a).broadcastAddress
    ensures Describe(a).usableHosts == 1
    ensures Describe(a).ipRange == Describe(a).networkAddress
  {
  }

  /** For every genuine block the usable count is the one the host planner
      promises for its prefix. */
  lemma UsableMatchesPlan(a: LibAddress)
    requires Aligned(a)
    ensures Describe(a).usableHosts == PlanUsable(a.prefix)
  {
    if a.prefix <= 30 {
      WideBlockCounts(a);
    } else if a.prefix == 31 {
      PairBlockRange(a);
    } else {
      SingleBlockRange(a);
    }
  }

  // ---------------------------------------------------------------------------
  // calculateSubnetsBySubnetCount / calculateSubnetsByHostCount

  datatype SubnetInfo = SubnetInfo(info: CidrInfo, subnetId: int)

  /** Every text read by the library, or `None` as soon as one read throws. */
  function ReadAll(lib: Library, texts: seq<string>): (r: Option<seq<LibAddress>>)
    ensures r.Some? <==> forall i :: 0 <= i < |texts| ==> lib.parse(texts[i]).Some?
    ensures r.Some? ==> |r.value| == |texts|
    ensures r.Some? ==> forall i :: 0 <= i < |texts| ==> r.value[i] == lib.parse(texts[i]).value
  {
    if |texts| == 0 then Some([])
    else
      var init := texts[..|texts| - 1];
      assert forall i :: 0 <= i < |init| ==> init[i] == texts[i];
      var front :- ReadAll(lib, init);
      var last :- lib.parse(texts[|texts| - 1]);
      Some(front + [last])
  }

  /** The `cidr` texts of a list of blocks. */
  function CidrTexts(blocks: seq<LibAddress>): (texts: seq<string>)
    ensures |texts| == |blocks| && forall i :: 0 <= i < |blocks| ==> texts[i] == blocks[i].cidr
  {
    seq(|blocks|, i requires 0 <= i < |blocks| => blocks[i].cidr)
  }

  /** The `subnets.map(...)` step: every sub-block's `cidr` text is read again
      and described, numbered from 1; one failed read fails the whole call. */
  function NumberSubnets(lib: Library, subnets: seq<LibAddress>): (r: Result<seq<SubnetInfo>, LegacyError>)
    ensures r.Success? <==> forall i :: 0 <= i < |subnets| ==> lib.parse(subnets[i].cidr).Some?
    ensures r.Failure? ==> r.error == LibraryError
    ensures r.Success? ==> |r.value| == |subnets|
    ensures r.Success? ==> forall i :: 0 <= i < |subnets| ==>
      r.value[i] == SubnetInfo(Describe(lib.parse(subnets[i].cidr).value), i + 1)
  {
    match ReadAll(lib, CidrTexts(subnets))
    case None => Failure(LibraryError)
    case Some(blocks) => Success(seq(|blocks|, i requires 0 <= i < |blocks| => SubnetInfo(Describe(blocks[i]), i + 1)))
  }

  /** `calculateSubnetsBySubnetCount`: the network is read first; the count
      must be positive, and the network's prefix plus ceil(log2(count)) must
      not exceed 32. */
  function SubnetsByCount(lib: Library, networkCidr: string, count: int): (r: Result<seq<SubnetInfo>, LegacyError>)
    ensures lib.parse(networkCidr).None? ==> r == Failure(LibraryError)
    ensures lib.parse(networkCidr).Some? && count <= 0 ==> r == Failure(CountNotPositive)
    ensures (lib.parse(networkCidr).Some? && count >= 1
             && lib.parse(networkCidr).value.prefix + CeilLog2(count) > 32) ==> r == Failure(NotEnoughSpace)
    ensures r.Success? ==> forall i :: 0 <= i < |r.value| ==> r.value[i].subnetId == i + 1
    ensures r.Success? ==>
      count >= 1 && |r.value| == |lib.divide(lib.parse(networkCidr).value, lib.parse(networkCidr).value.prefix + CeilLog2(count))|
    ensures r.Success? ==>
      var a := lib.parse(networkCidr).value;
      NumberSubnets(lib, lib.divide(a, a.prefix + CeilLog2(count))) == r
  {
    match lib.parse(networkCidr)
    case None => Failure(LibraryError)
    case Some(a) =>
      if count <= 0 then Failure(CountNotPositive)
      else
        var newPrefix := a.prefix + CeilLog2(count);
        if newPrefix > 32 then Failure(NotEnoughSpace)
        else NumberSubnets(lib, lib.divide(a, newPrefix))
  }

  lemma DividesCount(lib: Library, a: LibAddress, q: int)
    requires DividesFully(lib) && a.prefix <= q <= 32
    ensures |lib.divide(a, q)| == Pow2(q - a.prefix)
  {
  }

  /** With a library that returns every sub-block, at least the requested
      number of subnets is produced, and fewer than twice as many. */
  lemma SubnetsByCountEnough(lib: Library, networkCidr: string, count: int)
    requires DividesFully(lib)
    requires SubnetsByCount(lib, networkCidr, count).Success?
    ensures count <= |SubnetsByCount(lib, networkCidr, count).value| < 2 * count
    ensures |SubnetsByCount(lib, networkCidr, count).value| == Pow2(CeilLog2(count))
  {
    var a := lib.parse(networkCidr).value;
    var k := CeilLog2(count);
    assert |SubnetsByCount(lib, networkCidr, count).value| == |lib.divide(a, a.prefix + k)|;
    PowerCovers(count);
    DividesCount(lib, a, a.prefix + k);
  }

  /** The least power of two that reaches n is below 2n. */
  lemma PowerCovers(n: int)
    requires n >= 1
    ensures n <= Pow2(CeilLog2(n)) < 2 * n
  {
    var k := CeilLog2(n);
    if k > 0 {
      assert Pow2(k) == 2 * Pow2(k - 1);
    }
  }

  /** The address count `calculateSubnetsByHostCount` plans for: two more than
      the hosts (network and broadcast), except a single host, which gets a /32. */
  function HostsNeeded(hosts: int): int
  {
    if hosts >= 2 then hosts + 2 else if hosts == 1 then 1 else 2
  }

  datatype HostPlan = HostPlan(subnets: seq<SubnetInfo>, hostsPerSubnet: int, newSubnetMask: int)

  /** `calculateSubnetsByHostCount`: the sub-block prefix is 32 minus
      ceil(log2(HostsNeeded(hosts))), rejected when shorter than the network's. */
  function SubnetsByHosts(lib: Library, networkCidr: string, hosts: int): (r: Result<HostPlan, LegacyError>)
    ensures lib.parse(networkCidr).None? ==> r == Failure(LibraryError)
    ensures lib.parse(networkCidr).Some? && hosts <= 0 ==> r == Failure(HostCountNotPositive)
    ensures (lib.parse(networkCidr).Some? && hosts >= 1
             && 32 - CeilLog2(HostsNeeded(hosts)) < lib.parse(networkCidr).value.prefix) ==> r == Failure(HostsDoNotFit)
    ensures r.Success? ==> lib.parse(networkCidr).value.prefix <= r.value.newSubnetMask <= 32
    ensures r.Success? ==> hosts >= 1 && 0 <= r.value.newSubnetMask == 32 - CeilLog2(HostsNeeded(hosts))
    ensures r.Success? ==> r.value.hostsPerSubnet == PlanUsable(r.value.newSubnetMask)
    ensures r.Success? ==> forall i :: 0 <= i < |r.value.subnets| ==> r.value.subnets[i].subnetId == i + 1
    ensures r.Success? ==>
      NumberSubnets(lib, lib.divide(lib.parse(networkCidr).value, r.value.newSubnetMask)) == Success(r.value.subnets)
  {
    match lib.parse(networkCidr)
    case None => Failure(LibraryError)
    case Some(a) =>
      if hosts <= 0 then Failure(HostCountNotPositive)
      else
        var bits := CeilLog2(HostsNeeded(hosts));
        var newMask := 32 - bits;
        if newMask < a.prefix then Failure(HostsDoNotFit)
        else
          var subnets :- NumberSubnets(lib, lib.divide(a, newMask));
          Success(HostPlan(subnets, PlanUsable(newMask), newMask))
  }

  /** A successful host plan gives every sub-block room for the requested
      hosts, a single host gets a /32, and the prefix is the longest that fits:
      one bit more would leave too few addresses. */
  lemma HostPlanFits(lib: Library, networkCidr: string, hosts: int)
    ensures var r := SubnetsByHosts(lib, networkCidr, hosts);
      r.Success? ==>
        && r.value.hostsPerSubnet >= hosts >= 1
        && (hosts == 1 ==> r.value.newSubnetMask == 32 && r.value.hostsPerSubnet == 1)
        && (r.value.newSubnetMask < 32 ==> Pow2(31 - r.value.newSubnetMask) < HostsNeeded(hosts))
  {
    var r := SubnetsByHosts(lib, networkCidr, hosts);
    if r.Success? {
      PlanFits(hosts, CeilLog2(HostsNeeded(hosts)));
    }
  }

  /** With a library that returns every sub-block, the host plan lists all
      2^(q-p) sub-blocks of the planned prefix q inside the network's /p. */
  lemma SubnetsByHostsCount(lib: Library, networkCidr: string, hosts: int)
    requires DividesFully(lib)
    requires SubnetsByHosts(lib, networkCidr, hosts).Success?
    ensures var r := SubnetsByHosts(lib, networkCidr, hosts);
      |r.value.subnets| == Pow2(r.value.newSubnetMask - lib.parse(networkCidr).value.prefix)
  {
    var a := lib.parse(networkCidr).value;
    DividesCount(lib, a, SubnetsByHosts(lib, networkCidr, hosts).value.newSubnetMask);
  }

  /** The planned prefix leaves room for the requested hosts, and no longer
      prefix would: 2^(bits-1) addresses are too few. */
  lemma PlanFits(hosts: int, bits: nat)
    requires hosts >= 1 && bits == CeilLog2(HostsNeeded(hosts)) && bits <= 32
    ensures PlanUsable(32 - bits) >= hosts
    ensures hosts == 1 ==> bits == 0 && PlanUsable(32 - bits) == 1
    ensures bits > 0 ==> Pow2(bits - 1) < HostsNeeded(hosts)
  {
    if hosts >= 2 {
      assert Pow2(bits) >= 4;
      assert bits >= 2 by {
        assert Pow2(0) == 1 && Pow2(1) == 2;
      }
      assert PlanUsable(32 - bits) == Pow2(bits) - 2;
    }
  }

  /** Every sub-block the library returns for the planned prefix is described
      with exactly the promised number of usable hosts. */
  lemma HostsPerSubnetIsUsable(b: LibAddress, plan: HostPlan)
    requires Aligned(b) && b.prefix == plan.newSubnetMask && plan.hostsPerSubnet == PlanUsable(b.prefix)
    ensures Describe(b).usableHosts == plan.hostsPerSubnet
  {
    UsableMatchesPlan(b);
  }

  // ---------------------------------------------------------------------------
  // convertMask

  datatype MaskInfo = MaskInfo(cidr: int, subnetMask: string, wildcardMask: string)

  datatype MaskKind = Netmask | Wildcard

  /** `isValidMask`: the library's reading of `10.0.0.1/<mask>`, the mask first
      complemented when it is offered as a wildcard; accepted when the reported
      prefix length lies in [0, 32]. */
  function IsValidMask(lib: Library, mask: string, kind: MaskKind): (r: Option<LibAddress>)
    ensures r.Some? ==> r.value.prefix <= 32
    ensures r.Some? ==> r == lib.parse("10.0.0.1/" + (if kind == Netmask then mask else WildcardText(mask)))
  {
    var tested := if kind == Netmask then mask else WildcardText(mask);
    var a := lib.parse("10.0.0.1/" + tested);
    if a.Some? && a.value.prefix <= 32 then a else None
  }

  /** `convertMask`: a trimmed input starting with '/' is a prefix length in
      [0, 32]; otherwise a dotted input is tried as a netmask first and only
      then as a wildcard; anything else is rejected. */
  function ConvertMask(lib: Library, input: string): (r: Result<MaskInfo, LegacyError>)
    ensures r.Success? ==> 0 <= r.value.cidr <= 32
    ensures var t := Trim(input);
      |t| > 0 && t[0] == '/' ==>
        (r.Success? ==> ParseInt(t[1..]).Some? && r.value.cidr == ParseInt(t[1..]).value
                        && r.value.wildcardMask == WildcardText(r.value.subnetMask))
        && (ParseInt(t[1..]).None? || !(0 <= ParseInt(t[1..]).value <= 32) ==> r == Failure(CidrOutOfRange))
    ensures var t := Trim(input);
      !(|t| > 0 && t[0] == '/') && '.' in t && IsValidMask(lib, t, Netmask).Some? ==>
        r == Success(MaskInfo(IsValidMask(lib, t, Netmask).value.prefix, t, WildcardText(t)))
    ensures var t := Trim(input);
      r.Success? && !(|t| > 0 && t[0] == '/') ==>
        '.' in t && (r.value.subnetMask == t || (IsValidMask(lib, t, Netmask).None? && r.value.wildcardMask == t))
    ensures var t := Trim(input);
      r.Success? && r.value.wildcardMask != WildcardText(r.value.subnetMask) ==>
        r.value.wildcardMask == t && r.value.subnetMask == WildcardText(t)
  {
    var t := Trim(input);
    if |t| > 0 && t[0] == '/' then
      var cidr := ParseInt(t[1..]);
      if cidr.None? || cidr.value < 0 || cidr.value > 32 then Failure(CidrOutOfRange)
      else
        match lib.parse("0.0.0.0/" + NumberToString(cidr.value))
        case None => Failure(LibraryError)
        case Some(a) => Success(MaskInfo(cidr.value, a.subnet, WildcardText(a.subnet)))
    else if '.' in t then
      match IsValidMask(lib, t, Netmask)
      case Some(a) => Success(MaskInfo(a.prefix, t, WildcardText(t)))
      case None =>
        match IsValidMask(lib, t, Wildcard)
        case Some(a) => Success(MaskInfo(a.prefix, WildcardText(t), t))
        case None => Failure(UnrecognizedMask)
    else Failure(UnrecognizedMask)
  }

  /** On canonical dotted input the reported masks are always each other's
      complement, whichever reading the library accepted. */
  lemma ConvertMaskComplements(lib: Library, input: string, n: Uint32)
    requires Trim(input) == Dotted(n)
    requires ConvertMask(lib, input).Success?
    ensures ConvertMask(lib, input).value.wildcardMask == WildcardText(ConvertMask(lib, input).value.subnetMask)
    ensures ConvertMask(lib, input).value.subnetMask == WildcardText(ConvertMask(lib, input).value.wildcardMask)
  {
    var t := Trim(input);
    var info := ConvertMask(lib, input).value;
    DottedStartsWithDigit(n);
    assert t[0] != '/';
    WildcardInvolution(n);
    if IsValidMask(lib, t, Netmask).Some? {
      assert info.subnetMask == t && info.wildcardMask == WildcardText(t);
    } else {
      assert info.subnetMask == WildcardText(t) && info.wildcardMask == t;
    }
  }

  // ---------------------------------------------------------------------------
  // checkCidrOverlap

  datatype Relation = Contains | IsContainedBy | OverlapsWith

  datatype OverlapRecord = OverlapRecord(cidr1: string, cidr2: string, kind: Relation)

  datatype OverlapReport = OverlapReport(overlaps: seq<OverlapRecord>, duplicates: seq<string>)

  /** The relation reported for a pair, tested in the source's order:
      containment of the second in the first, then of the first in the
      second, then a partial overlap. */
  function Classify(a: LibAddress, b: LibAddress): (r: Option<Relation>)
    ensures r == Some(Contains) <==> a.start <= b.start && b.end <= a.end
    ensures r == Some(IsContainedBy) <==> !(a.start <= b.start && b.end <= a.end) && b.start <= a.start && a.end <= b.end
    ensures a.start <= a.end && b.start <= b.end ==> (r.None? <==> a.end < b.start || b.end < a.start)
  {
    if a.start <= b.start && a.end >= b.end then Some(Contains)
    else if b.start <= a.start && b.end >= a.end then Some(IsContainedBy)
    else if a.start <= b.end && a.end >= b.start then Some(OverlapsWith)
    else None
  }

  /** Two genuine blocks either nest or are apart, so a partial overlap is
      never reported for them. */
  lemma AlignedNeverPartial(a: LibAddress, b: LibAddress)
    requires Aligned(a) && Aligned(b)
    ensures Classify(a, b) != Some(OverlapsWith)
  {
    if Blocks.Intersect(a.start, a.prefix, b.start, b.prefix) {
      if a.prefix <= b.prefix {
        Blocks.BlocksNest(a.start, a.prefix, b.start, b.prefix);
      } else {
        Blocks.BlocksNest(b.start, b.prefix, a.start, a.prefix);
      }
    }
  }

  /** The record a pair contributes, if any. */
  function PairRecord(a: LibAddress, b: LibAddress): (r: seq<OverlapRecord>)
    ensures |r| <= 1
  {
    match Classify(a, b)
    case None => []
    case Some(kind) => [OverlapRecord(a.cidr, b.cidr, kind)]
  }

  /** The records of the pairs (i, j) with i < j < k, in the loop's order. */
  function RowRecords(addrs: seq<LibAddress>, i: nat, k: nat): seq<OverlapRecord>
    requires i < |addrs| && k <= |addrs|
  {
    if k <= i + 1 then [] else RowRecords(addrs, i, k - 1) + PairRecord(addrs[i], addrs[k - 1])
  }

  /** The records of every pair whose first member lies below m. */
  function PairRecords(addrs: seq<LibAddress>, m: nat): seq<OverlapRecord>
    requires m <= |addrs|
  {
    if m == 0 then [] else PairRecords(addrs, m - 1) + RowRecords(addrs, m - 1, |addrs|)
  }

  /** A record of row i names a later block j and the relation of the pair. */
  lemma {:induction false} RowMembers(addrs: seq<LibAddress>, i: nat, k: nat, o: OverlapRecord)
    requires i < |addrs| && k <= |addrs|
    ensures o in RowRecords(addrs, i, k) <==>
      exists j :: i < j < k && Classify(addrs[i], addrs[j]) == Some(o.kind)
        && o == OverlapRecord(addrs[i].cidr, addrs[j].cidr, o.kind)
    decreases k
  {
    if k > i + 1 {
      RowMembers(addrs, i, k - 1, o);
      var j := k - 1;
      assert o in PairRecord(addrs[i], addrs[j]) <==>
        Classify(addrs[i], addrs[j]) == Some(o.kind) && o == OverlapRecord(addrs[i].cidr, addrs[j].cidr, o.kind);
    }
  }

  /** Every related pair i < j with i below m is recorded. */
  lemma {:induction false} PairRecorded(addrs: seq<LibAddress>, m: nat, i: nat, j: nat)
    requires m <= |addrs| && i < m && i < j < |addrs| && Classify(addrs[i], addrs[j]).Some?
    ensures OverlapRecord(addrs[i].cidr, addrs[j].cidr, Classify(addrs[i], addrs[j]).value) in PairRecords(addrs, m)
    decreases m
  {
    var o := OverlapRecord(addrs[i].cidr, addrs[j].cidr, Classify(addrs[i], addrs[j]).value);
    if i == m - 1 {
      RowMembers(addrs, i, |addrs|, o);
    } else {
      PairRecorded(addrs, m - 1, i, j);
    }
  }

  /** Every record names a pair i < j with i below m and their relation. */
  lemma {:induction false} RecordOfPair(addrs: seq<LibAddress>, m: nat, o: OverlapRecord)
    requires m <= |addrs| && o in PairRecords(addrs, m)
    ensures exists i, j ::
      0 <= i < m && i < j < |addrs| && Classify(addrs[i], addrs[j]) == Some(o.kind)
      && o == OverlapRecord(addrs[i].cidr, addrs[j].cidr, o.kind)
    decreases m
  {
    if o in PairRecords(addrs, m - 1) {
      RecordOfPair(addrs, m - 1, o);
    } else {
      RowMembers(addrs, m - 1, |addrs|, o);
    }
  }

  /** The records are exactly the related pairs i < j, in both directions. */
  lemma PairMembers(addrs: seq<LibAddress>, o: OverlapRecord)
    ensures o in PairRecords(addrs, |addrs|) <==>
      exists i, j :: 0 <= i < j < |addrs| && Classify(addrs[i], addrs[j]) == Some(o.kind)
        && o == OverlapRecord(addrs[i].cidr, addrs[j].cidr, o.kind)
  {
    if o in PairRecords(addrs, |addrs|) {
      RecordOfPair(addrs, |addrs|, o);
    }
    if exists i, j :: 0 <= i < j < |addrs| && Classify(addrs[i], addrs[j]) == Some(o.kind)
        && o == OverlapRecord(addrs[i].cidr, addrs[j].cidr, o.kind) {
      var i, j :| 0 <= i < j < |addrs| && Classify(addrs[i], addrs[j]) == Some(o.kind)
        && o == OverlapRecord(addrs[i].cidr, addrs[j].cidr, o.kind);
      PairRecorded(addrs, |addrs|, i, j);
    }
  }

  /** Among genuine blocks only containment is ever reported. */
  lemma AlignedOnlyNesting(addrs: seq<LibAddress>)
    requires forall i :: 0 <= i < |addrs| ==> Aligned(addrs[i])
    ensures forall o :: o in PairRecords(addrs, |addrs|) ==> o.kind != OverlapsWith
  {
    forall o | o in PairRecords(addrs, |addrs|)
      ensures o.kind != OverlapsWith
    {
      RecordOfPair(addrs, |addrs|, o);
      var i, j :| 0 <= i < |addrs| && i < j < |addrs| && Classify(addrs[i], addrs[j]) == Some(o.kind);
      AlignedNeverPartial(addrs[i], addrs[j]);
    }
  }

  /** An entry that survives `c.trim() !== ''`. */
  predicate Filled(x: string) {
    |Trim(x)| > 0
  }

  /** `cidrList.filter(c => c.trim() !== '')` */
  function NonBlank(xs: seq<string>): (ys: seq<string>)
    ensures forall x :: x in ys <==> x in xs && Filled(x)
  {
    if |xs| == 0 then []
    else
      var init, last := xs[..|xs| - 1], xs[|xs| - 1];
      assert xs == init + [last];
      NonBlank(init) + (if Filled(last) then [last] else [])
  }

  /** Entry i is non-blank and not the first occurrence of its text. */
  predicate RepeatedAt(xs: seq<string>, i: nat)
    requires i < |xs|
  {
    Filled(xs[i]) && IndexOf(xs, xs[i]) != i
  }

  /** `cidrList.filter((c, i) => c.trim() !== '' && cidrList.indexOf(c) !== i)`
      over the first k entries. */
  function RepeatedEntries(xs: seq<string>, k: nat): (d: seq<string>)
    requires k <= |xs|
    ensures |d| <= k
  {
    if k == 0 then []
    else RepeatedEntries(xs, k - 1) + (if RepeatedAt(xs, k - 1) then [xs[k - 1]] else [])
  }

  /** Everything the filter keeps is an entry at a repeated position. */
  lemma {:induction false} RepeatedFrom(xs: seq<string>, k: nat, x: string)
    requires k <= |xs| && x in RepeatedEntries(xs, k)
    ensures exists i :: 0 <= i < k && xs[i] == x && RepeatedAt(xs, i)
    decreases k
  {
    var front := RepeatedEntries(xs, k - 1);
    var tail := if RepeatedAt(xs, k - 1) then [xs[k - 1]] else [];
    assert RepeatedEntries(xs, k) == front + tail;
    if x in front {
      RepeatedFrom(xs, k - 1, x);
      var i :| 0 <= i < k - 1 && xs[i] == x && RepeatedAt(xs, i);
      assert 0 <= i < k;
    } else {
      assert x in tail;
    }
  }

  /** The filter keeps the entry at every repeated position. */
  lemma {:induction false} RepeatedTo(xs: seq<string>, k: nat, i: nat)
    requires i < k <= |xs| && RepeatedAt(xs, i)
    ensures xs[i] in RepeatedEntries(xs, k)
    decreases k
  {
    if i < k - 1 {
      RepeatedTo(xs, k - 1, i);
    }
  }

  /** The filter keeps exactly the non-blank entries found at a position other
      than their first occurrence. */
  lemma RepeatedMembers(xs: seq<string>, k: nat, x: string)
    requires k <= |xs|
    ensures x in RepeatedEntries(xs, k) <==>
      exists i :: 0 <= i < k && xs[i] == x && RepeatedAt(xs, i)
  {
    if x in RepeatedEntries(xs, k) {
      RepeatedFrom(xs, k, x);
    }
    if exists i :: 0 <= i < k && xs[i] == x && RepeatedAt(xs, i) {
      var i :| 0 <= i < k && xs[i] == x && RepeatedAt(xs, i);
      RepeatedTo(xs, k, i);
    }
  }

  /** An entry is repeated exactly when it occurs at two positions. */
  lemma RepeatedMeansTwice(xs: seq<string>, x: string)
    ensures x in RepeatedEntries(xs, |xs|) <==>
      Filled(x) && exists i, j :: 0 <= i < j < |xs| && xs[i] == x && xs[j] == x
  {
    if x in RepeatedEntries(xs, |xs|) {
      RepeatedFrom(xs, |xs|, x);
      var j :| 0 <= j < |xs| && xs[j] == x && RepeatedAt(xs, j);
      IndexOfAtMost(xs, x, j);
      var i := IndexOf(xs, x);
      assert 0 <= i < j && xs[i] == x;
    }
    if Filled(x) && exists i, j :: 0 <= i < j < |xs| && xs[i] == x && xs[j] == x {
      var i, j :| 0 <= i < j < |xs| && xs[i] == x && xs[j] == x;
      IndexOfAtMost(xs, x, i);
      assert RepeatedAt(xs, j);
      RepeatedTo(xs, |xs|, j);
    }
  }

  /** The nested loop over the pairs of parsed blocks. */
  method ClassifyPairs(addrs: seq<LibAddress>) returns (overlaps: seq<OverlapRecord>)
    ensures overlaps == PairRecords(addrs, |addrs|)
  {
    overlaps := [];
    var i := 0;
    while i < |addrs|
      invariant 0 <= i <= |addrs|
      invariant overlaps == PairRecords(addrs, i)
    {
      overlaps := ClassifyRow(addrs, i, overlaps);
      i := i + 1;
    }
  }

  /** The inner loop: the pairs (i, j) for every j above i, appended in order. */
  method ClassifyRow(addrs: seq<LibAddress>, i: nat, before: seq<OverlapRecord>) returns (overlaps: seq<OverlapRecord>)
    requires i < |addrs|
    ensures overlaps == before + RowRecords(addrs, i, |addrs|)
  {
    overlaps := before;
    var j := i + 1;
    while j < |addrs|
      invariant i + 1 <= j <= |addrs|
      invariant overlaps == before + RowRecords(addrs, i, j)
    {
      var kind := Classify(addrs[i], addrs[j]);
      if kind.Some? {
        overlaps := overlaps + [OverlapRecord(addrs[i].cidr, addrs[j].cidr, kind.value)];
      }
      j := j + 1;
    }
  }

  /** `checkCidrOverlap`: the non-blank entries are de-duplicated and read by
      the library, any failed read failing the whole call; every pair of
      distinct entries is classified; the repeated entries are listed once. */
  method CheckCidrOverlap(lib: Library, cidrList: seq<string>) returns (r: Result<OverlapReport, LegacyError>)
    ensures r.Failure? <==> exists c :: c in cidrList && Filled(c) && lib.parse(c).None?
    ensures r.Failure? ==> r.error == LibraryError
    ensures r.Success? ==> NoDuplicates(r.value.duplicates)
    ensures r.Success? ==> forall x :: x in r.value.duplicates <==>
      Filled(x) && exists i, j :: 0 <= i < j < |cidrList| && cidrList[i] == x && cidrList[j] == x
    ensures r.Success? ==> ReadAll(lib, Dedupe(NonBlank(cidrList))).Some?
    ensures r.Success? ==> r.value.overlaps == PairRecords(ReadAll(lib, Dedupe(NonBlank(cidrList))).value, |Dedupe(NonBlank(cidrList))|)
  {
    var unique := Dedupe(NonBlank(cidrList));
    var repeated := RepeatedEntries(cidrList, |cidrList|);
    forall x
      ensures x in Dedupe(repeated) <==>
        Filled(x) && exists i, j :: 0 <= i < j < |cidrList| && cidrList[i] == x && cidrList[j] == x
    {
      RepeatedMeansTwice(cidrList, x);
    }
    var addresses := ReadAll(lib, unique);
    if addresses.None? {
      var k :| 0 <= k < |unique| && lib.parse(unique[k]).None?;
      assert unique[k] in cidrList;
      return Failure(LibraryError);
    }
    var overlaps := ClassifyPairs(addresses.value);
    r := Success(OverlapReport(overlaps, Dedupe(repeated)));
  }
}
