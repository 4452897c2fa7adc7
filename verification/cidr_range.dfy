/** `cidrToRange` and `getIPClass` of `utils/ipMath.ts`: everything about one
    CIDR block, computed with 32-bit masks. */
module CidrRange {

  import opened Wrappers
  import opened JsNumbers
  import opened JsStrings
  import opened Address
  import opened Masks
  import opened Blocks
  import DivMod

  // ---------------------------------------------------------------------------
  // Address classes

  /** The classful address classes, rendered by the source as 'A', 'B', 'C',
      'D (Multicast)', 'E (Reserved)' and 'Unknown'. */
  datatype IpClass = ClassA | ClassB | ClassC | ClassD | ClassE | Unknown

  /** `getIPClass(ip)`: decided by `parseInt` of the first component. NaN
      fails every comparison and ends in 'Unknown'. */
  function GetIpClass(ip: string): IpClass
  {
    var firstOctet := ParseInt(Split(ip, '.')[0]);
    if firstOctet.None? then Unknown else ClassOfFirstOctet(firstOctet.value)
  }

  /** The comparisons of lines 168-173; 0, 127 and values above 255 are 'Unknown'. */
  function ClassOfFirstOctet(v: int): IpClass
  {
    if 1 <= v <= 126 then ClassA
    else if 128 <= v <= 191 then ClassB
    else if 192 <= v <= 223 then ClassC
    else if 224 <= v <= 239 then ClassD
    else if 240 <= v <= 255 then ClassE
    else Unknown
  }

  /** The classful class of an address by its leading bits: 0 for A, 10 for
      B, 110 for C, 1110 for D and 1111 for E; the networks 0/8 and 127/8 are
      classless. */
  function ClassfulClass(n: nat): IpClass
    requires n < TWO32
  {
    if n < 0x100_0000 || 0x7F00_0000 <= n < 0x8000_0000 then Unknown
    else if n < 0x8000_0000 then ClassA
    else if n < 0xC000_0000 then ClassB
    else if n < 0xE000_0000 then ClassC
    else if n < 0xF000_0000 then ClassD
    else ClassE
  }

  /** The leading-bit classes are the first-octet ranges of the source. */
  lemma ClassfulByFirstOctet(n: nat)
    requires n < TWO32
    ensures ClassfulClass(n) == ClassOfFirstOctet(n / 0x100_0000)
  {
    var o := n / 0x100_0000;
    DivMod.Euclid(n, 0x100_0000);
    assert 0x100_0000 * o <= n < 0x100_0000 * (o + 1);
    assert o < 256;
  }

  /** On canonical addresses `getIPClass` is the classful class. */
  lemma GetIpClassOfDotted(n: nat)
    requires n < TWO32
    ensures GetIpClass(Dotted(n)) == ClassfulClass(n)
  {
    SplitDotted(n);
    OctetDecomposition(n);
    var o := Octets(n)[0];
    DecimalSpec(o);
    ParseDigits(Decimal(o));
    assert ParseInt(Split(Dotted(n), '.')[0]) == Some(o);
    ClassfulByFirstOctet(n);
  }

  // ---------------------------------------------------------------------------
  // Masking

  /** `(ip & mask) >>> 0`, line 190: the network address. */
  function NetworkOf(ip: int, mask: int): (r: int)
    ensures 0 <= r < TWO32
  {
    Ushr(BitAnd(ip, mask), 0)
  }

  /** `(network | (~mask >>> 0)) >>> 0`, line 191: the broadcast address. */
  function BroadcastOf(network: int, mask: int): (r: int)
    ensures 0 <= r < TWO32
  {
    Ushr(BitOr(network, Complement(mask)), 0)
  }

  /** With the netmask of prefix q, the two mask expressions compute the first
      and the last address of the aligned block of prefix q holding ip. */
  lemma MaskedBlock(ip: int, q: nat)
    requires q <= 32
    ensures NetworkOf(ip, MaskValue(q)) == BlockStart(ToUint32(ip), q)
    ensures BroadcastOf(BlockStart(ToUint32(ip), q), MaskValue(q)) == Last(BlockStart(ToUint32(ip), q), q)
  {
    NetworkOfMask(ip, q);
    BlockStartIsBlock(ToUint32(ip), q);
    BroadcastOfMask(BlockStart(ToUint32(ip), q), q);
  }

  /** AND with the netmask of prefix q rounds an unsigned value down to the
      start of its block. */
  lemma AndNetmask(a: int, q: nat)
    requires 0 <= a < TWO32 && q <= 32
    ensures AndBits(a, MaskValue(q), 32) == BlockStart(a, q)
  {
    Pow2Values();
    AndHighMask(a, 32 - q, 32);
    DivMod.ModUnique(a, TWO32, 0, a);
  }

  lemma NetworkOfMask(ip: int, q: nat)
    requires q <= 32
    ensures NetworkOf(ip, MaskValue(q)) == BlockStart(ToUint32(ip), q)
  {
    var a := ToUint32(ip);
    AndNetmask(a, q);
    BlockStartIsBlock(a, q);
    assert BitAnd(ip, MaskValue(q)) == ToInt32(BlockStart(a, q));
  }

  /** OR with the wildcard of prefix q fills a block start up to the block's
      last address. */
  lemma OrWildcard(s: int, q: nat)
    requires IsBlock(s, q)
    ensures OrBits(s, Size(q) - 1, 32) == Last(s, q)
  {
    Pow2Values();
    OrLowMask(s, 32 - q, 32);
    DivMod.ModUnique(s, TWO32, 0, s);
  }

  lemma BroadcastOfMask(s: int, q: nat)
    requires IsBlock(s, q)
    ensures BroadcastOf(s, MaskValue(q)) == Last(s, q)
  {
    var c := Complement(MaskValue(q));
    assert c == Size(q) - 1;
    OrWildcard(s, q);
    assert BitOr(s, c) == ToInt32(Last(s, q));
  }

  /** `usableHosts`, lines 194, 293 and 348. */
  function UsableHosts(prefix: nat, totalHosts: int): int
  {
    if prefix == 32 then 1 else if prefix == 31 then 2 else totalHosts - 2
  }

  /** `firstUsable`, lines 196, 294 and 349. */
  function FirstUsable(prefix: nat, network: int): int
  {
    if prefix == 32 then network else if prefix == 31 then network else network + 1
  }

  /** `lastUsable`, lines 197, 295 and 350. */
  function LastUsable(prefix: nat, network: int, broadcast: int): int
  {
    if prefix == 32 then network else if prefix == 31 then broadcast else broadcast - 1
  }

  /** The usable host range of a block lies inside it and counts the usable
      hosts: both ends are dropped for blocks of 4 or more addresses, a /31
      uses both addresses, a /32 its only one; alignment plays no part. */
  lemma UsableRange(s: int, p: nat)
    requires p <= 32
    ensures s <= FirstUsable(p, s) <= LastUsable(p, s, Last(s, p)) <= Last(s, p)
    ensures p <= 30 ==> FirstUsable(p, s) == s + 1 && LastUsable(p, s, Last(s, p)) == Last(s, p) - 1
    ensures UsableHosts(p, Size(p)) == if p == 32 then 1 else LastUsable(p, s, Last(s, p)) - FirstUsable(p, s) + 1
  {
    if p <= 30 {
      Pow2Monotone(1, 32 - p);
      assert Size(p) >= 4;
    } else if p == 31 {
      assert Size(p) == 2;
    } else {
      assert Size(p) == 1;
    }
  }

  // ---------------------------------------------------------------------------
  // cidrToRange

  /** The fields of the `CIDRInfo` interface. */
  datatype CidrInfo = CidrInfo(
    cidr: string,
    networkAddress: string,
    broadcastAddress: string,
    firstUsable: string,
    lastUsable: string,
    totalHosts: nat,
    usableHosts: int,
    subnetMask: string,
    wildcardMask: string,
    binarySubnetMask: string,
    ipClass: IpClass)

  /** The unsigned address of a valid CIDR string. */
  function CidrAddress(cidr: string): (a: nat)
    requires ValidateCidr(cidr)
    ensures a < TWO32
  {
    ValidCidrParts(cidr);
    ToUint32(IpToInt(CidrAddressText(cidr)).value)
  }

  /** The four `intToIp` calls of lines 200-203, in order: the first number
      out of range ends the computation with its error. */
  function RenderFour(w: int, x: int, y: int, z: int): (r: Result<seq<string>, IpError>)
    ensures r.Success? <==> 0 <= w < TWO32 && 0 <= x < TWO32 && 0 <= y < TWO32 && 0 <= z < TWO32
    ensures r.Success? ==> r.value == [Dotted(w), Dotted(x), Dotted(y), Dotted(z)]
    ensures r.Failure? ==> r.error == InvalidIpInteger
  {
    var a :- IntToIp(w);
    var b :- IntToIp(x);
    var c :- IntToIp(y);
    var d :- IntToIp(z);
    Success([a, b, c, d])
  }

  /** Lines 187-215 once the prefix, the parsed address, the mask and the
      subnet-mask text are known. */
  function Describe(cidr: string, prefix: nat, ipInt: int, mask: int, subnetMask: Result<string, IpError>)
    : (r: Result<CidrInfo, IpError>)
    requires prefix <= 32
    ensures subnetMask.Failure? ==> r == Failure(subnetMask.error)
    ensures subnetMask.Success? && r.Failure? ==> r.error in {InvalidIpAddress, InvalidIpInteger}
    ensures subnetMask.Success? && IsFourOctets(subnetMask.value) && r.Failure? ==> r.error == InvalidIpInteger
  {
    var networkInt := NetworkOf(ipInt, mask);
    var broadcastInt := BroadcastOf(networkInt, mask);
    var totalHosts := Pow2(32 - prefix);
    var usableHosts := UsableHosts(prefix, totalHosts);
    var firstUsableInt := FirstUsable(prefix, networkInt);
    var lastUsableInt := LastUsable(prefix, networkInt, broadcastInt);
    var subnetMaskText :- subnetMask;
    var wildcardMask :- MaskToWildcard(subnetMaskText);
    var binaryMask := IntToBinary(mask);
    var texts :- RenderFour(networkInt, broadcastInt, firstUsableInt, lastUsableInt);
    Success(CidrInfo(cidr, texts[0], texts[1], texts[2], texts[3],
                     totalHosts, usableHosts, subnetMaskText, wildcardMask,
                     BinaryToOctetString(binaryMask), GetIpClass(texts[0])))
  }

  /** `Describe` succeeds exactly when the wildcard conversion succeeds and
      the usable range lies in the address space, and then reports the
      network and broadcast addresses of the mask in dotted form. */
  lemma DescribeResult(cidr: string, prefix: nat, ipInt: int, mask: int, subnetMask: string)
    requires prefix <= 32
    ensures
      var r := Describe(cidr, prefix, ipInt, mask, Success(subnetMask));
      var network := NetworkOf(ipInt, mask);
      var broadcast := BroadcastOf(network, mask);
      var wildcard := MaskToWildcard(subnetMask);
      var first := FirstUsable(prefix, network);
      var last := LastUsable(prefix, network, broadcast);
      && (r.Success? <==> wildcard.Success? && 0 <= first < TWO32 && 0 <= last < TWO32)
      && (r.Success? ==> r.value == CidrInfo(cidr, Dotted(network), Dotted(broadcast), Dotted(first), Dotted(last),
                                              Pow2(32 - prefix), UsableHosts(prefix, Pow2(32 - prefix)),
                                              subnetMask, wildcard.value,
                                              BinaryToOctetString(IntToBinary(mask)), GetIpClass(Dotted(network))))
  {
    var network := NetworkOf(ipInt, mask);
    var broadcast := BroadcastOf(network, mask);
    var first := FirstUsable(prefix, network);
    var last := LastUsable(prefix, network, broadcast);
    var texts := RenderFour(network, broadcast, first, last);
    assert texts.Success? <==> 0 <= first < TWO32 && 0 <= last < TWO32;
    if texts.Success? {
      assert texts.value == [Dotted(network), Dotted(broadcast), Dotted(first), Dotted(last)];
    }
  }

  /** `cidrToRange(cidr)` as written: the mask is `(0xFFFFFFFF << (32 - p)) >>> 0`,
      which for p = 0 is all ones. */
  function CidrToRange(cidr: string): Result<CidrInfo, IpError>
  {
    if !ValidateCidr(cidr) then Failure(InvalidCidrNotation)
    else
      var prefix := CidrPrefix(cidr);
      ValidCidrParts(cidr);
      var ipInt := IpToInt(CidrAddressText(cidr)).value;
      var mask := ShiftedMask(prefix);
      var subnetMask := PrefixToMask(prefix);
      Describe(cidr, prefix, ipInt, mask, subnetMask)
  }

  /** The intended `cidrToRange`: the empty mask for prefix 0. */
  function CidrToRangeFixed(cidr: string): Result<CidrInfo, IpError>
  {
    if !ValidateCidr(cidr) then Failure(InvalidCidrNotation)
    else
      var prefix := CidrPrefix(cidr);
      ValidCidrParts(cidr);
      var ipInt := IpToInt(CidrAddressText(cidr)).value;
      var mask := if prefix == 0 then 0 else ShiftedMask(prefix);
      var subnetMask := PrefixToMaskFixed(prefix);
      Describe(cidr, prefix, ipInt, mask, subnetMask)
  }

  /** Both versions reject exactly the strings `validateCIDR` rejects. */
  lemma CidrToRangeInvalid(cidr: string)
    ensures !ValidateCidr(cidr) ==> CidrToRange(cidr) == Failure(InvalidCidrNotation)
    ensures !ValidateCidr(cidr) ==> CidrToRangeFixed(cidr) == Failure(InvalidCidrNotation)
  {
  }

  /** On a valid CIDR string both versions describe its parsed address with
      their own mask and mask text. */
  lemma CidrToRangeValid(cidr: string)
    requires ValidateCidr(cidr)
    ensures IpToInt(CidrAddressText(cidr)).Success?
    ensures
      var p := CidrPrefix(cidr);
      var ipInt := IpToInt(CidrAddressText(cidr)).value;
      && ToUint32(ipInt) == CidrAddress(cidr)
      && CidrToRange(cidr) == Describe(cidr, p, ipInt, ShiftedMask(p), PrefixToMask(p))
      && CidrToRangeFixed(cidr) == Describe(cidr, p, ipInt, if p == 0 then 0 else ShiftedMask(p), PrefixToMaskFixed(p))
  {
    ValidCidrParts(cidr);
  }

  /** The description of the aligned block of prefix p holding address a:
      its first and last address, its usable range, its sizes, its masks and
      the class of its network address. */
  function BlockInfo(cidr: string, a: nat, p: nat): (info: CidrInfo)
    requires a < TWO32 && p <= 32
    ensures info.totalHosts == Size(p)
  {
    var s := BlockStart(a, p);
    BlockStartIsBlock(a, p);
    UsableRange(s, p);
    CidrInfo(cidr, Dotted(s), Dotted(Last(s, p)), Dotted(FirstUsable(p, s)),
             Dotted(LastUsable(p, s, Last(s, p))), Size(p), UsableHosts(p, Size(p)),
             Dotted(MaskValue(p)), Dotted(Size(p) - 1),
             BinaryToOctetString(IntToBinary(MaskValue(p))), ClassfulClass(s))
  }

  /** With the netmask of prefix p, `Describe` yields the block description. */
  lemma DescribeBlock(cidr: string, p: nat, ipInt: int)
    requires p <= 32
    ensures Describe(cidr, p, ipInt, MaskValue(p), Success(Dotted(MaskValue(p))))
            == Success(BlockInfo(cidr, ToUint32(ipInt), p))
  {
    var a := ToUint32(ipInt);
    var mask := MaskValue(p);
    var s := BlockStart(a, p);
    BlockStartIsBlock(a, p);
    MaskedBlock(ipInt, p);
    var last := Last(s, p);
    assert NetworkOf(ipInt, mask) == s;
    assert BroadcastOf(s, mask) == last;
    UsableRange(s, p);
    WildcardOfMask(p);
    GetIpClassOfDotted(s);
    DescribeResult(cidr, p, ipInt, mask, Dotted(mask));
  }

  /** For prefixes 1 to 32, `cidrToRange` describes the aligned block of that
      prefix holding the address. */
  lemma CidrToRangeBlock(cidr: string)
    requires ValidateCidr(cidr) && CidrPrefix(cidr) >= 1
    ensures CidrToRange(cidr) == Success(BlockInfo(cidr, CidrAddress(cidr), CidrPrefix(cidr)))
  {
    CidrToRangeValid(cidr);
    var p := CidrPrefix(cidr);
    assert ShiftedMask(p) == MaskValue(p);
    DescribeBlock(cidr, p, IpToInt(CidrAddressText(cidr)).value);
  }

  /** The all-ones mask keeps an address whole: it is its own network and
      broadcast address, and the wildcard of 255.255.255.255 is 0.0.0.0. */
  lemma AllOnesMasking(ipInt: int)
    ensures NetworkOf(ipInt, ALL_ONES) == ToUint32(ipInt)
    ensures BroadcastOf(ToUint32(ipInt), ALL_ONES) == ToUint32(ipInt)
    ensures MaskToWildcard(Dotted(ALL_ONES)) == Success(Dotted(0))
  {
    var a := ToUint32(ipInt);
    assert MaskValue(32) == ALL_ONES;
    MaskedBlock(ipInt, 32);
    assert Size(32) == 1;
    assert BlockStart(a, 32) == a;
    MaskToWildcardOfDotted(ALL_ONES, 0);
  }

  /** With the all-ones mask and prefix 0, `Describe` reports the single
      address as network and broadcast, the addresses on either side of it as
      the usable range, and 2^32 hosts; it fails when a neighbour falls
      outside the address space. */
  lemma DescribeAllOnes(cidr: string, ipInt: int)
    ensures
      var a := ToUint32(ipInt);
      Describe(cidr, 0, ipInt, ALL_ONES, Success(Dotted(ALL_ONES)))
      == if 0 < a < ALL_ONES then Success(SingleAddressInfo(cidr, a)) else Failure(InvalidIpInteger)
  {
    var a := ToUint32(ipInt);
    var r := Describe(cidr, 0, ipInt, ALL_ONES, Success(Dotted(ALL_ONES)));
    AllOnesMasking(ipInt);
    assert Pow2(32) == TWO32 by { Pow2Values(); }
    DescribeResult(cidr, 0, ipInt, ALL_ONES, Dotted(ALL_ONES));
    if 0 < a < ALL_ONES {
      GetIpClassOfDotted(a);
      assert r.Success?;
    } else {
      DottedComponents(ALL_ONES);
      assert r.Failure?;
    }
  }

  /** What `cidrToRange` reports for a /0 whose address is a: the block of
      that one address, with the neighbours of a as its usable range. */
  function SingleAddressInfo(cidr: string, a: nat): (info: CidrInfo)
    requires 0 < a < ALL_ONES
    ensures info.networkAddress == info.broadcastAddress == Dotted(a)
    ensures info.totalHosts == TWO32
  {
    CidrInfo(cidr, Dotted(a), Dotted(a), Dotted(a + 1), Dotted(a - 1), TWO32, TWO32 - 2,
             Dotted(ALL_ONES), Dotted(0), BinaryToOctetString(IntToBinary(ALL_ONES)), ClassfulClass(a))
  }

  /** For prefix 0, `cidrToRange` treats the block as the single address:
      network and broadcast are the address itself, the first usable address
      is one past it and the last one before it, so the call throws for
      0.0.0.0/0 and 255.255.255.255/0. The mask reported is 255.255.255.255
      while the host count is 2^32. */
  lemma CidrToRangeZeroPrefix(cidr: string)
    requires ValidateCidr(cidr) && CidrPrefix(cidr) == 0
    ensures
      var a := CidrAddress(cidr);
      CidrToRange(cidr) == if 0 < a < ALL_ONES then Success(SingleAddressInfo(cidr, a)) else Failure(InvalidIpInteger)
  {
    CidrToRangeValid(cidr);
    assert ShiftedMask(0) == ALL_ONES;
    assert PrefixToMask(0) == Success(Dotted(ALL_ONES));
    DescribeAllOnes(cidr, IpToInt(CidrAddressText(cidr)).value);
  }

  /** The intended `cidrToRange` describes the aligned block for every prefix,
      including the whole address space for prefix 0. */
  lemma CidrToRangeFixedBlock(cidr: string)
    requires ValidateCidr(cidr)
    ensures CidrToRangeFixed(cidr) == Success(BlockInfo(cidr, CidrAddress(cidr), CidrPrefix(cidr)))
  {
    CidrToRangeValid(cidr);
    var p := CidrPrefix(cidr);
    if p == 0 {
      MaskValueZero();
    }
    assert (if p == 0 then 0 else ShiftedMask(p)) == MaskValue(p);
    assert PrefixToMaskFixed(p) == Success(Dotted(MaskValue(p)));
    DescribeBlock(cidr, p, IpToInt(CidrAddressText(cidr)).value);
  }

  /** The intended `cidrToRange` reports 0.0.0.0 - 255.255.255.255 for any /0. */
  lemma CidrToRangeFixedZeroPrefix(cidr: string)
    requires ValidateCidr(cidr) && CidrPrefix(cidr) == 0
    ensures CidrToRangeFixed(cidr).Success?
    ensures CidrToRangeFixed(cidr).value.networkAddress == Dotted(0)
    ensures CidrToRangeFixed(cidr).value.broadcastAddress == Dotted(ALL_ONES)
  {
    CidrToRangeFixedBlock(cidr);
    Pow2Values();
    assert Size(0) == TWO32;
    assert BlockStart(CidrAddress(cidr), 0) == 0;
  }
}
