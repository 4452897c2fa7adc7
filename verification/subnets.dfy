/** Subnetting from `utils/ipMath.ts`: `subnetByCount` splits a network into a
    requested number of equal subnets, `subnetByHosts` into every subnet that
    leaves room for a requested number of hosts. Both read the parent network
    back through `cidrToRange` and the signed `ipToInt`; the corrected
    variants read it unsigned (`>>> 0`) from the intended `cidrToRange`. */
module Subnets {

  import opened Wrappers
  import opened JsNumbers
  import opened JsStrings
  import opened Address
  import opened Blocks
  import opened CidrRange
  import DivMod

  /** The fields of the `SubnetInfo` interface. */
  datatype SubnetInfo = SubnetInfo(
    subnet: string,
    networkAddress: string,
    broadcastAddress: string,
    firstUsable: string,
    lastUsable: string,
    usableHosts: int,
    totalHosts: nat)

  /** The record of the 2^(32-p) addresses from s: its CIDR text, its first
      and last address, its usable range and its host counts. */
  function SubnetRecord(s: nat, p: nat): (info: SubnetInfo)
    requires p <= 32 && s + Size(p) <= TWO32
    ensures info.totalHosts == Size(p)
    ensures info.usableHosts == UsableHosts(p, Size(p))
  {
    UsableRange(s, p);
    SubnetInfo(CidrText(s, p), Dotted(s), Dotted(Last(s, p)), Dotted(FirstUsable(p, s)),
               Dotted(LastUsable(p, s, Last(s, p))), UsableHosts(p, Size(p)), Size(p))
  }

  /** The body of either loop (lines 289-305 and 344-361) for the subnet of
      prefix p whose network number is `network`: its record, or the error
      of the first `intToIp` call that is out of range. */
  method SubnetEntry(network: int, p: nat) returns (r: Result<SubnetInfo, IpError>)
    requires p <= 32
    ensures r.Success? <==> 0 <= network && network + Size(p) <= TWO32
    ensures r.Success? ==> r.value == SubnetRecord(network, p)
    ensures r.Failure? ==> r.error == InvalidIpInteger
  {
    var subnetSize := Pow2(32 - p);
    var broadcast := network + subnetSize - 1;
    UsableRange(network, p);
    var texts :- RenderFour(network, broadcast, FirstUsable(p, network), LastUsable(p, network, broadcast));
    EntryRecord(network, p, texts);
    return Success(SubnetInfo(texts[0] + "/" + NumberToString(p), texts[0], texts[1], texts[2], texts[3],
                              UsableHosts(p, subnetSize), subnetSize));
  }

  /** The rendered addresses of a subnet, with the template
      `${intToIp(n)}/${p}` for its CIDR text, make up its record. */
  lemma EntryRecord(n: nat, p: nat, texts: seq<string>)
    requires p <= 32 && n + Size(p) <= TWO32
    requires texts == [Dotted(n), Dotted(Last(n, p)), Dotted(FirstUsable(p, n)), Dotted(LastUsable(p, n, Last(n, p)))]
    ensures SubnetInfo(texts[0] + "/" + NumberToString(p), texts[0], texts[1], texts[2], texts[3],
                       UsableHosts(p, Pow2(32 - p)), Pow2(32 - p)) == SubnetRecord(n, p)
  {
  }

  /** The network number of the i-th subnet of prefix p from `first`, one
      subnet size at a time. */
  function SubnetStart(first: int, p: nat, i: nat): (n: int)
    requires p <= 32
    ensures first <= n
    decreases i
  {
    if i == 0 then first else SubnetStart(first, p, i - 1) + Size(p)
  }

  lemma OneMore(i: int, d: int)
    ensures (i - 1) * d + d == i * d
  {
  }

  /** The i-th subnet starts i subnet sizes past the first. */
  lemma {:induction false} StartIsProduct(first: int, p: nat, i: nat)
    requires p <= 32
    ensures SubnetStart(first, p, i) == first + i * Size(p)
    decreases i
  {
    if i > 0 {
      StartIsProduct(first, p, i - 1);
      OneMore(i, Size(p));
    }
  }

  /** Later subnets start later, each a whole subnet after the one before. */
  lemma {:induction false} StartMonotone(first: int, p: nat, i: nat, j: nat)
    requires p <= 32 && i < j
    ensures SubnetStart(first, p, i) + Size(p) <= SubnetStart(first, p, j)
    decreases j
  {
    if i < j - 1 {
      StartMonotone(first, p, i, j - 1);
    }
  }

  /** The records of `count` consecutive subnets of prefix p from `first`. */
  function SubnetRecords(first: nat, p: nat, count: nat): (rs: seq<SubnetInfo>)
    requires p <= 32 && SubnetStart(first, p, count) <= TWO32
    ensures |rs| == count
    decreases count
  {
    if count == 0 then []
    else SubnetRecords(first, p, count - 1) + [SubnetRecord(SubnetStart(first, p, count - 1), p)]
  }

  /** The i-th record is that of the i-th subnet. */
  lemma {:induction false} SubnetRecordsAt(first: nat, p: nat, count: nat, i: nat)
    requires p <= 32 && SubnetStart(first, p, count) <= TWO32 && i < count
    ensures SubnetStart(first, p, i) + Size(p) <= SubnetStart(first, p, count)
    ensures SubnetRecords(first, p, count)[i] == SubnetRecord(SubnetStart(first, p, i), p)
    decreases count
  {
    StartMonotone(first, p, i, count);
    if i < count - 1 {
      SubnetRecordsAt(first, p, count - 1, i);
    }
  }

  /** Every subnet a successful list holds has the usable hosts of prefix p. */
  lemma ListHosts(first: int, p: nat, count: nat)
    requires p <= 32
    ensures SubnetList(first, p, count).Success? ==>
              forall i :: 0 <= i < |SubnetList(first, p, count).value| ==>
                SubnetList(first, p, count).value[i].usableHosts == UsableHosts(p, Size(p))
  {
    if count > 0 && 0 <= first && SubnetStart(first, p, count) <= TWO32 {
      RecordsHosts(first, p, count);
    }
  }

  /** Subnets that all fit in the address space are listed by their records. */
  lemma ListOfFit(first: int, p: nat, count: nat)
    requires p <= 32 && count > 0 && 0 <= first && SubnetStart(first, p, count) <= TWO32
    ensures SubnetList(first, p, count) == Success(SubnetRecords(first, p, count))
  {
  }

  /** A subnet outside the address space makes the list the error. */
  lemma ListOfMiss(first: int, p: nat, count: nat)
    requires p <= 32 && count > 0 && (first < 0 || SubnetStart(first, p, count) > TWO32)
    ensures SubnetList(first, p, count) == Failure(InvalidIpInteger)
  {
  }

  /** One more subnet that fits in the address space adds its record. */
  lemma RecordsStep(first: nat, p: nat, i: nat)
    requires p <= 32 && SubnetStart(first, p, i) + Size(p) <= TWO32
    ensures SubnetStart(first, p, i + 1) <= TWO32
    ensures SubnetRecords(first, p, i + 1) == SubnetRecords(first, p, i) + [SubnetRecord(SubnetStart(first, p, i), p)]
  {
  }

  /** Every record of subnets of prefix p counts the same usable hosts. */
  lemma {:induction false} RecordsHosts(first: nat, p: nat, count: nat)
    requires p <= 32 && SubnetStart(first, p, count) <= TWO32
    ensures forall i :: 0 <= i < count ==> SubnetRecords(first, p, count)[i].usableHosts == UsableHosts(p, Size(p))
    decreases count
  {
    if count > 0 {
      StartMonotone(first, p, count - 1, count);
      RecordsHosts(first, p, count - 1);
    }
  }

  /** What a loop producing `count` subnets of prefix p from `first` returns:
      all their records when every one lies in the address space, and
      otherwise the error `intToIp` throws for the first one that does not. */
  function SubnetList(first: int, p: nat, count: nat): Result<seq<SubnetInfo>, IpError>
    requires p <= 32
  {
    if count == 0 then Success([])
    else if 0 <= first && SubnetStart(first, p, count) <= TWO32 then Success(SubnetRecords(first, p, count))
    else Failure(InvalidIpInteger)
  }

  /** A subnet that ends past the address space leaves every later one past
      it too. */
  lemma PastTheEnd(first: int, p: nat, i: nat, count: nat)
    requires p <= 32 && i < count && SubnetStart(first, p, i) + Size(p) > TWO32
    ensures SubnetStart(first, p, count) > TWO32
  {
    StartMonotone(first, p, i, count);
  }

  /** Line 290: the i-th subnet's network number `networkInt + i * subnetSize`. */
  method CountNetwork(first: int, subnetSize: nat, p: nat, i: nat) returns (network: int)
    requires p <= 32 && subnetSize == Size(p)
    ensures network == SubnetStart(first, p, i)
  {
    network := first + i * subnetSize;
    StartIsProduct(first, p, i);
  }

  /** The loop of `subnetByCount` (lines 288-306): subnet i starts i subnet
      sizes past `first`. */
  method CountLoop(first: int, p: nat, count: int) returns (r: Result<seq<SubnetInfo>, IpError>)
    requires p <= 32
    ensures count <= 0 ==> r == Success([])
    ensures count > 0 ==> r == SubnetList(first, p, count)
  {
    var subnetSize := Pow2(32 - p);
    var subnets: seq<SubnetInfo> := [];
    var i := 0;
    while i < count
      invariant 0 <= i && (i == 0 || i <= count)
      invariant i > 0 ==> 0 <= first && SubnetStart(first, p, i) <= TWO32 && subnets == SubnetRecords(first, p, i)
      invariant i == 0 ==> subnets == []
    {
      var network := CountNetwork(first, subnetSize, p, i);
      var entry := SubnetEntry(network, p);
      if entry.Failure? {
        if first >= 0 {
          PastTheEnd(first, p, i, count);
        }
        ListOfMiss(first, p, count);
        return Failure(entry.error);
      }
      RecordsStep(first, p, i);
      subnets := subnets + [entry.value];
      i := i + 1;
    }
    if count > 0 {
      ListOfFit(first, p, count);
    }
    return Success(subnets);
  }

  /** The number of whole subnets of `size` addresses from `network` up to
      `broadcast`. */
  function WholeSubnets(network: int, broadcast: int, size: nat): nat
    requires size >= 1
  {
    if broadcast < network then 0 else (broadcast - network + 1) / size
  }

  /** m subnets that end by `broadcast` are among the whole subnets. */
  lemma WholeSubnetsAtLeast(network: int, broadcast: int, p: nat, m: nat)
    requires p <= 32 && m >= 1 && SubnetStart(network, p, m) <= broadcast + 1
    ensures m <= WholeSubnets(network, broadcast, Size(p))
  {
    StartIsProduct(network, p, m);
    DivAtLeast(broadcast - network + 1, Size(p), m);
  }

  /** m whole multiples of d within x leave a quotient of at least m. */
  lemma DivAtLeast(x: int, d: int, m: int)
    requires d >= 1 && m * d <= x
    ensures m <= x / d
  {
    var q := x / d;
    DivMod.Euclid(x, d);
    if q < m {
      DivMod.MulMonotone(d, q + 1, m);
    }
  }

  /** Exactly i whole subnets fit when the (i+1)-th would end past `broadcast`. */
  lemma WholeSubnetsExactly(network: int, broadcast: int, p: nat, i: nat)
    requires p <= 32
    requires SubnetStart(network, p, i) <= broadcast + 1 < SubnetStart(network, p, i) + Size(p)
    ensures WholeSubnets(network, broadcast, Size(p)) == i
  {
    StartIsProduct(network, p, i);
    var size := Size(p);
    var x := broadcast - network + 1;
    if broadcast >= network {
      DivMod.ModUnique(x, size, i, x - i * size);
    }
  }

  /** The loop of `subnetByHosts` (lines 337-364): subnets of prefix p from
      `network` on, as long as the next one ends by `broadcast`. */
  method HostsLoop(network: int, broadcast: int, p: nat) returns (r: Result<seq<SubnetInfo>, IpError>)
    requires p <= 32
    ensures r == SubnetList(network, p, WholeSubnets(network, broadcast, Size(p)))
  {
    var subnetSize := Pow2(32 - p);
    var subnets: seq<SubnetInfo> := [];
    var current := network;
    ghost var i: nat := 0;
    ghost var k := WholeSubnets(network, broadcast, subnetSize);
    while current <= broadcast
      invariant current == SubnetStart(network, p, i)
      invariant i <= k
      invariant i > 0 ==> current <= broadcast + 1
      invariant i > 0 ==> 0 <= network && SubnetStart(network, p, i) <= TWO32 && subnets == SubnetRecords(network, p, i)
      invariant i == 0 ==> subnets == []
      decreases broadcast - current
    {
      var subnetBroadcast := current + subnetSize - 1;
      if subnetBroadcast > broadcast {
        break;
      }
      WholeSubnetsAtLeast(network, broadcast, p, i + 1);
      var entry := SubnetEntry(current, p);
      if entry.Failure? {
        if network >= 0 {
          PastTheEnd(network, p, i, k);
        }
        ListOfMiss(network, p, k);
        return Failure(entry.error);
      }
      RecordsStep(network, p, i);
      subnets := subnets + [entry.value];
      current := current + subnetSize;
      i := i + 1;
    }
    if i > 0 || current <= broadcast {
      WholeSubnetsExactly(network, broadcast, p, i);
    }
    if i > 0 {
      ListOfFit(network, p, i);
    }
    return Success(subnets);
  }

  // ---------------------------------------------------------------------------
  // Subnets of an aligned block

  /** Subnets of prefix q cut from the aligned block of prefix p at s: at
      most 2^(q-p) of them fit, each is an aligned block inside the parent,
      and 2^(q-p) of them cover it to its last address. */
  lemma SubnetsInside(s: int, p: nat, q: nat, count: nat)
    requires IsBlock(s, p) && p <= q <= 32 && count <= Pow2(q - p)
    ensures SubnetStart(s, q, count) <= s + Size(p) <= TWO32
    ensures count == Pow2(q - p) ==> SubnetStart(s, q, count) == Last(s, p) + 1
    ensures forall i :: 0 <= i < count ==>
              IsBlock(SubnetStart(s, q, i), q) && s <= SubnetStart(s, q, i) && Last(SubnetStart(s, q, i), q) <= Last(s, p)
  {
    var e := Pow2(q - p);
    var d := Size(q);
    Pow2Add(32 - q, q - p);
    assert Size(p) == d * e;
    DivMod.MulMonotone(d, count, e);
    StartIsProduct(s, q, count);
    var k := s / Size(p);
    DivMod.DivExact(s, Size(p));
    DivMod.MulAssoc(d, e, k);
    forall i | 0 <= i < count
      ensures IsBlock(SubnetStart(s, q, i), q) && s <= SubnetStart(s, q, i) && Last(SubnetStart(s, q, i), q) <= Last(s, p)
    {
      StartIsProduct(s, q, i);
      SubnetOfBlock(s, d, e, k, i, count);
    }
  }

  /** Arithmetic of one subnet: i subnet sizes past a multiple of e subnet
      sizes is a multiple of the subnet size, and the subnet ends within the
      e sizes when i < e. */
  lemma SubnetOfBlock(s: int, d: int, e: int, k: int, i: int, count: int)
    requires d >= 1 && s == d * (e * k) && 0 <= i < count <= e
    ensures (s + i * d) % d == 0
    ensures s + i * d + d <= s + d * e
  {
    DivMod.MulAddRight(d, e * k, i);
    DivMod.MulMod(e * k + i, d);
    DivMod.MulMonotone(d, i + 1, e);
  }

  /** The records of subnets of an aligned block describe aligned blocks
      inside it, one after another. */
  lemma SubnetRecordsTile(s: nat, p: nat, q: nat, count: nat)
    requires IsBlock(s, p) && p <= q <= 32 && count <= Pow2(q - p)
    ensures SubnetStart(s, q, count) <= TWO32
    ensures forall i :: 0 <= i < count ==>
              && IsBlock(SubnetStart(s, q, i), q)
              && s <= SubnetStart(s, q, i) && Last(SubnetStart(s, q, i), q) <= Last(s, p)
              && SubnetRecords(s, q, count)[i] == SubnetRecord(SubnetStart(s, q, i), q)
    ensures forall i :: 0 <= i < count - 1 ==> SubnetStart(s, q, i + 1) == Last(SubnetStart(s, q, i), q) + 1
  {
    SubnetsInside(s, p, q, count);
    forall i | 0 <= i < count
      ensures SubnetRecords(s, q, count)[i] == SubnetRecord(SubnetStart(s, q, i), q)
    {
      SubnetRecordsAt(s, q, count, i);
    }
  }

  // ---------------------------------------------------------------------------
  // The parent network

  /** The network number the source reads back from `cidrToRange`: the
      aligned block's first address for prefixes 1 to 32, the address itself
      for prefix 0. */
  function ParentStart(cidr: string): (n: nat)
    requires ValidateCidr(cidr)
    ensures n < TWO32
  {
    var a := CidrAddress(cidr);
    var p := CidrPrefix(cidr);
    BlockStartIsBlock(a, p);
    if p == 0 then a else BlockStart(a, p)
  }

  /** The broadcast number the source reads back from `cidrToRange`. */
  function ParentEnd(cidr: string): (n: nat)
    requires ValidateCidr(cidr)
    ensures n < TWO32
  {
    var a := CidrAddress(cidr);
    var p := CidrPrefix(cidr);
    BlockStartIsBlock(a, p);
    if p == 0 then a else Last(BlockStart(a, p), p)
  }

  /** `cidrToRange` succeeds on every valid CIDR except 0.0.0.0/0 and
      255.255.255.255/0, and `ipToInt` reads its network and broadcast
      addresses back as the signed views of ParentStart and ParentEnd: an
      aligned block for prefixes 1 to 32, the address alone for prefix 0. */
  lemma ParentRange(cidr: string)
    requires ValidateCidr(cidr)
    ensures
      var info := CidrToRange(cidr);
      var p := CidrPrefix(cidr);
      var a := CidrAddress(cidr);
      && (info.Success? <==> p >= 1 || 0 < a < ALL_ONES)
      && (info.Failure? ==> info.error == InvalidIpInteger)
      && (info.Success? ==> IpToInt(info.value.networkAddress) == Success(ToInt32(ParentStart(cidr))))
      && (info.Success? ==> IpToInt(info.value.broadcastAddress) == Success(ToInt32(ParentEnd(cidr))))
  {
    if CidrPrefix(cidr) >= 1 {
      ParentBlock(cidr);
    } else {
      ParentSingle(cidr);
    }
  }

  /** The parent is an aligned block for prefixes 1 to 32 and the address
      alone for prefix 0. */
  lemma ParentShape(cidr: string)
    requires ValidateCidr(cidr)
    ensures
      var p := CidrPrefix(cidr);
      && (p >= 1 ==> IsBlock(ParentStart(cidr), p) && ParentEnd(cidr) == Last(ParentStart(cidr), p))
      && (p == 0 ==> ParentStart(cidr) == ParentEnd(cidr) == CidrAddress(cidr))
  {
    BlockStartIsBlock(CidrAddress(cidr), CidrPrefix(cidr));
  }

  /** Lines 281-282 and 334-336: `cidrToRange(networkCIDR)` and the signed
      `ipToInt` of its network and broadcast addresses. (`subnetByCount`
      reads only the network address; reading the broadcast address as well
      cannot throw.) */
  method ReadParent(cidr: string) returns (r: Result<(int, int), IpError>)
    requires ValidateCidr(cidr)
    ensures r.Success? <==> CidrPrefix(cidr) >= 1 || 0 < CidrAddress(cidr) < ALL_ONES
    ensures r.Failure? ==> r.error == InvalidIpInteger
    ensures r.Success? ==> r.value == (ToInt32(ParentStart(cidr)), ToInt32(ParentEnd(cidr)))
  {
    ParentRange(cidr);
    var info :- CidrToRange(cidr);
    var networkInt := IpToInt(info.networkAddress).value;
    var broadcastInt := IpToInt(info.broadcastAddress).value;
    return Success((networkInt, broadcastInt));
  }

  /** The corrected reading: the intended `cidrToRange` and `ipToInt(...) >>> 0`
      give the unsigned first and last address of the aligned block. */
  method ReadParentFixed(cidr: string) returns (networkInt: int, broadcastInt: int)
    requires ValidateCidr(cidr)
    ensures
      var s := BlockStart(CidrAddress(cidr), CidrPrefix(cidr));
      networkInt == s && broadcastInt == Last(s, CidrPrefix(cidr))
  {
    ParentRangeFixed(cidr);
    var info := CidrToRangeFixed(cidr).value;
    networkInt := ToUint32(IpToInt(info.networkAddress).value);
    broadcastInt := ToUint32(IpToInt(info.broadcastAddress).value);
  }

  lemma ParentBlock(cidr: string)
    requires ValidateCidr(cidr) && CidrPrefix(cidr) >= 1
    ensures
      var info := CidrToRange(cidr);
      var p := CidrPrefix(cidr);
      var s := ParentStart(cidr);
      && info.Success?
      && IpToInt(info.value.networkAddress) == Success(ToInt32(s))
      && IpToInt(info.value.broadcastAddress) == Success(ToInt32(ParentEnd(cidr)))
      && IsBlock(s, p) && ParentEnd(cidr) == Last(s, p)
  {
    var a := CidrAddress(cidr);
    var p := CidrPrefix(cidr);
    CidrToRangeBlock(cidr);
    var s := BlockStart(a, p);
    BlockStartIsBlock(a, p);
    IpToIntOfDotted(s);
    IpToIntOfDotted(Last(s, p));
  }

  lemma ParentSingle(cidr: string)
    requires ValidateCidr(cidr) && CidrPrefix(cidr) == 0
    ensures
      var info := CidrToRange(cidr);
      var a := CidrAddress(cidr);
      && (info.Success? <==> 0 < a < ALL_ONES)
      && (info.Failure? ==> info.error == InvalidIpInteger)
      && (info.Success? ==> IpToInt(info.value.networkAddress) == Success(ToInt32(a)))
      && (info.Success? ==> IpToInt(info.value.broadcastAddress) == Success(ToInt32(a)))
      && ParentStart(cidr) == ParentEnd(cidr) == a
  {
    var a := CidrAddress(cidr);
    CidrToRangeZeroPrefix(cidr);
    if 0 < a < ALL_ONES {
      IpToIntOfDotted(a);
    }
  }

  /** The intended `cidrToRange` always succeeds, with the aligned block of
      the prefix as network and broadcast address. */
  lemma ParentRangeFixed(cidr: string)
    requires ValidateCidr(cidr)
    ensures
      var info := CidrToRangeFixed(cidr);
      var s := BlockStart(CidrAddress(cidr), CidrPrefix(cidr));
      && IsBlock(s, CidrPrefix(cidr))
      && info.Success?
      && IpToInt(info.value.networkAddress) == Success(ToInt32(s))
      && IpToInt(info.value.broadcastAddress) == Success(ToInt32(Last(s, CidrPrefix(cidr))))
  {
    var a := CidrAddress(cidr);
    var p := CidrPrefix(cidr);
    CidrToRangeFixedBlock(cidr);
    var s := BlockStart(a, p);
    BlockStartIsBlock(a, p);
    IpToIntOfDotted(s);
    IpToIntOfDotted(Last(s, p));
  }

  // ---------------------------------------------------------------------------
  // subnetByCount

  /** `subnetByCount(networkCIDR, subnetCount)` as written (lines 260-309).
      For prefixes 1 to 32 it lists `count` consecutive subnets of prefix
      p + ceil(log2 count) from the network address, all inside the parent,
      as long as the network lies below 128.0.0.0; from 128.0.0.0 on the
      signed network number makes the first `intToIp` throw. For prefix 0
      it counts from the address itself, and fails for 0.0.0.0/0 and for
      addresses from 128.0.0.0 on. */
  method SubnetByCount(cidr: string, count: int) returns (r: Result<seq<SubnetInfo>, IpError>)
    ensures !ValidateCidr(cidr) ==> r == Failure(InvalidCidr)
    ensures ValidateCidr(cidr) && count < 1 ==> r == Failure(SubnetCountTooSmall)
    ensures ValidateCidr(cidr) && count >= 1 && CidrPrefix(cidr) + CeilLog2(count) > 32 ==> r == Failure(TooManySubnets)
    ensures ValidateCidr(cidr) && count >= 1 && CidrPrefix(cidr) + CeilLog2(count) <= 32 && CidrPrefix(cidr) >= 1 ==>
              var s := ParentStart(cidr);
              var q := CidrPrefix(cidr) + CeilLog2(count);
              if s < TWO31 then r.Success? && r == SubnetList(s, q, count) else r == Failure(InvalidIpInteger)
    ensures ValidateCidr(cidr) && count >= 1 && CeilLog2(count) <= 32 && CidrPrefix(cidr) == 0 ==>
              var a := CidrAddress(cidr);
              var q := CidrPrefix(cidr) + CeilLog2(count);
              r == if 0 < a < TWO31 then SubnetList(a, q, count) else Failure(InvalidIpInteger)
  {
    if !ValidateCidr(cidr) {
      return Failure(InvalidCidr);
    }
    if count < 1 {
      return Failure(SubnetCountTooSmall);
    }
    // `parseInt` of the text after '/'
    var prefix := CidrPrefix(cidr);
    var bitsNeeded := CeilLog2(count);
    var newPrefix := prefix + bitsNeeded;
    if newPrefix > 32 {
      return Failure(TooManySubnets);
    }
    ParentShape(cidr);
    var parent :- ReadParent(cidr);
    var networkInt := parent.0;
    r := CountSplit(ParentStart(cidr), prefix, newPrefix, count, networkInt);
  }

  /** The loop of `subnetByCount` on the parent's first address s read back
      signed as `networkInt`, with the new prefix q chosen for `count`
      subnets. */
  method CountSplit(s: nat, p: nat, q: nat, count: int, networkInt: int) returns (r: Result<seq<SubnetInfo>, IpError>)
    requires s < TWO32 && count >= 1 && q == p + CeilLog2(count) && q <= 32
    requires p >= 1 ==> IsBlock(s, p)
    requires networkInt == ToInt32(s)
    ensures r == if s < TWO31 then SubnetList(s, q, count) else Failure(InvalidIpInteger)
    ensures p >= 1 && s < TWO31 ==> r.Success?
  {
    r := CountLoop(networkInt, q, count);
    CountOutcome(s, p, q, count, networkInt);
  }

  /** Where `subnetByCount` ends up once the parent's network number s is
      read back signed as `networkInt`: s is an aligned block start for
      prefixes 1 to 32, and the q-subnets of the request fit in its block. */
  lemma CountOutcome(s: nat, p: nat, q: nat, count: nat, networkInt: int)
    requires s < TWO32 && p <= q <= 32 && 1 <= count <= Pow2(q - p)
    requires p >= 1 ==> IsBlock(s, p)
    requires networkInt == ToInt32(s)
    ensures p >= 1 && s < TWO31 ==> networkInt == s && SubnetList(s, q, count).Success?
    ensures p >= 1 && s >= TWO31 ==> SubnetList(networkInt, q, count) == Failure(InvalidIpInteger)
    ensures SubnetList(networkInt, q, count) == if s < TWO31 then SubnetList(s, q, count) else Failure(InvalidIpInteger)
  {
    SignedView(s);
    if p >= 1 {
      SubnetsInside(s, p, q, count);
    }
  }

  /** The intended `subnetByCount`, reading the network number unsigned from
      the intended `cidrToRange`: every request it accepts yields `count`
      consecutive aligned subnets inside the parent block. */
  method SubnetByCountFixed(cidr: string, count: int) returns (r: Result<seq<SubnetInfo>, IpError>)
    ensures !ValidateCidr(cidr) ==> r == Failure(InvalidCidr)
    ensures ValidateCidr(cidr) && count < 1 ==> r == Failure(SubnetCountTooSmall)
    ensures ValidateCidr(cidr) && count >= 1 && CidrPrefix(cidr) + CeilLog2(count) > 32 ==> r == Failure(TooManySubnets)
    ensures ValidateCidr(cidr) && count >= 1 && CidrPrefix(cidr) + CeilLog2(count) <= 32 ==>
              var s := BlockStart(CidrAddress(cidr), CidrPrefix(cidr));
              r.Success? && r == SubnetList(s, CidrPrefix(cidr) + CeilLog2(count), count)
  {
    if !ValidateCidr(cidr) {
      return Failure(InvalidCidr);
    }
    if count < 1 {
      return Failure(SubnetCountTooSmall);
    }
    var prefix := CidrPrefix(cidr);
    var bitsNeeded := CeilLog2(count);
    var newPrefix := prefix + bitsNeeded;
    if newPrefix > 32 {
      return Failure(TooManySubnets);
    }
    var networkInt, _ := ReadParentFixed(cidr);
    BlockStartIsBlock(CidrAddress(cidr), prefix);
    r := CountSplitFixed(BlockStart(CidrAddress(cidr), prefix), prefix, newPrefix, count, networkInt);
  }

  /** The loop of `subnetByCount` on the parent read back unsigned: `count`
      subnets of prefix q from the start s of the aligned block. */
  method CountSplitFixed(s: nat, p: nat, q: nat, count: int, networkInt: int) returns (r: Result<seq<SubnetInfo>, IpError>)
    requires IsBlock(s, p) && count >= 1 && q == p + CeilLog2(count) && q <= 32
    requires networkInt == s
    ensures r.Success? && r == SubnetList(s, q, count)
  {
    SubnetsInside(s, p, q, count);
    r := CountLoop(networkInt, q, count);
  }

  // ---------------------------------------------------------------------------
  // subnetByHosts

  /** The prefix `subnetByHosts` picks: the longest one whose subnets have
      room for `hosts` hosts besides the network and broadcast addresses. It
      is at most 30, and its subnets' usable host count reaches `hosts`. */
  lemma HostsPrefix(hosts: nat)
    requires hosts >= 1 && CeilLog2(hosts + 2) <= 32
    ensures 32 - CeilLog2(hosts + 2) <= 30
    ensures UsableHosts(32 - CeilLog2(hosts + 2), Size(32 - CeilLog2(hosts + 2))) >= hosts
  {
    assert Pow2(1) == 2;
  }

  /** The number of subnets of prefix q in a block of prefix p. */
  function SubnetsPerBlock(p: nat, q: nat): nat
    requires p <= q
  {
    Pow2(q - p)
  }

  /** Every subnet of the prefix `subnetByHosts` picks has room for `hosts`
      hosts. */
  lemma HostsRoom(first: int, hosts: nat, count: nat)
    requires hosts >= 1 && CeilLog2(hosts + 2) <= 32
    ensures
      var list := SubnetList(first, 32 - CeilLog2(hosts + 2), count);
      list.Success? ==> forall i :: 0 <= i < |list.value| ==> list.value[i].usableHosts >= hosts
  {
    HostsPrefix(hosts);
    ListHosts(first, 32 - CeilLog2(hosts + 2), count);
  }

  /** Prefix q cuts the aligned block of prefix p at s into exactly 2^(q-p)
      whole subnets. */
  lemma WholeSubnetsOfBlock(s: int, p: nat, q: nat)
    requires IsBlock(s, p) && p <= q <= 32
    ensures WholeSubnets(s, Last(s, p), Size(q)) == Pow2(q - p)
  {
    var e := Pow2(q - p);
    Pow2Add(32 - q, q - p);
    assert Size(p) == Size(q) * e;
    DivMod.ModUnique(Size(p), Size(q), e, 0);
  }

  /** `subnetByHosts(networkCIDR, hostsPerSubnet)` as written (lines
      314-366). For prefixes 1 to 32 below 128.0.0.0 it cuts the parent
      block into all 2^(q-p) subnets of the chosen prefix q; from 128.0.0.0
      on the signed network number makes the first `intToIp` throw. For
      prefix 0 the parent is the single address and no subnet fits: the
      list is empty, except that 0.0.0.0/0 and 255.255.255.255/0 fail,
      because `cidrToRange` cannot render their usable ends. (HostsRoom:
      every subnet listed has room for `hosts` hosts.) */
  method SubnetByHosts(cidr: string, hosts: int) returns (r: Result<seq<SubnetInfo>, IpError>)
    ensures !ValidateCidr(cidr) ==> r == Failure(InvalidCidr)
    ensures ValidateCidr(cidr) && hosts < 1 ==> r == Failure(HostCountTooSmall)
    ensures ValidateCidr(cidr) && hosts >= 1 && CidrPrefix(cidr) + CeilLog2(hosts + 2) > 32 ==> r == Failure(TooManyHosts)
    ensures ValidateCidr(cidr) && hosts >= 1 && CidrPrefix(cidr) + CeilLog2(hosts + 2) <= 32 && CidrPrefix(cidr) >= 1 ==>
              var s := ParentStart(cidr);
              var p := CidrPrefix(cidr);
              var q := 32 - CeilLog2(hosts + 2);
              if s < TWO31 then r.Success? && r == SubnetList(s, q, SubnetsPerBlock(p, q)) else r == Failure(InvalidIpInteger)
    ensures ValidateCidr(cidr) && hosts >= 1 && CeilLog2(hosts + 2) <= 32 && CidrPrefix(cidr) == 0 ==>
              var a := CidrAddress(cidr);
              r == if 0 < a < ALL_ONES then Success([]) else Failure(InvalidIpInteger)
  {
    if !ValidateCidr(cidr) {
      return Failure(InvalidCidr);
    }
    if hosts < 1 {
      return Failure(HostCountTooSmall);
    }
    var hostBitsNeeded: int := CeilLog2(hosts + 2);
    var newPrefix: int := 32 - hostBitsNeeded;
    var prefix := CidrPrefix(cidr);
    if newPrefix < prefix {
      return Failure(TooManyHosts);
    }
    ParentShape(cidr);
    var parent :- ReadParent(cidr);
    var networkInt, broadcastInt := parent.0, parent.1;
    r := HostsSplit(ParentStart(cidr), ParentEnd(cidr), prefix, newPrefix, hosts, networkInt, broadcastInt);
  }

  /** The loop of `subnetByHosts` on the parent read back signed as
      `networkInt` and `broadcastInt` from its first and last address s and
      e, with the new prefix q chosen for `hosts` hosts. */
  method HostsSplit(s: nat, e: nat, p: nat, q: int, hosts: int, networkInt: int, broadcastInt: int)
    returns (r: Result<seq<SubnetInfo>, IpError>)
    requires s < TWO32 && e < TWO32 && hosts >= 1 && q == 32 - CeilLog2(hosts + 2) && p <= q
    requires p >= 1 ==> IsBlock(s, p) && e == Last(s, p)
    requires p == 0 ==> e == s
    requires networkInt == ToInt32(s) && broadcastInt == ToInt32(e)
    ensures p >= 1 ==> if s < TWO31 then r.Success? && r == SubnetList(s, q, SubnetsPerBlock(p, q)) else r == Failure(InvalidIpInteger)
    ensures p == 0 ==> r == Success([])
  {
    HostsPrefix(hosts);
    r := HostsLoop(networkInt, broadcastInt, q);
    HostsOutcome(s, e, p, q, networkInt, broadcastInt);
  }

  /** Where `subnetByHosts` ends up once the parent's network and broadcast
      numbers s and e are read back signed: for prefixes 1 to 32 they bound
      an aligned block, for prefix 0 they are the same address. */
  lemma HostsOutcome(s: nat, e: nat, p: nat, q: nat, networkInt: int, broadcastInt: int)
    requires s < TWO32 && e < TWO32 && p <= q <= 30
    requires p >= 1 ==> IsBlock(s, p) && e == Last(s, p)
    requires p == 0 ==> e == s
    requires networkInt == ToInt32(s) && broadcastInt == ToInt32(e)
    ensures
      var k := WholeSubnets(networkInt, broadcastInt, Size(q));
      && (p >= 1 && s < TWO31 ==> networkInt == s && k == Pow2(q - p) && SubnetList(s, q, k).Success?)
      && (p >= 1 && s >= TWO31 ==> SubnetList(networkInt, q, k) == Failure(InvalidIpInteger))
      && (p == 0 ==> k == 0)
  {
    SignedView(s);
    SignedView(e);
    if p >= 1 {
      BlockInOneHalf(s, p);
      WholeSubnetsOfBlock(s, p, q);
      SubnetsInside(s, p, q, Pow2(q - p));
      if s >= TWO31 {
        SubnetsInside(s, p, q, 1);
        WholeSubnetsAtLeast(networkInt, broadcastInt, q, 1);
      }
    } else {
      Pow2Monotone(1, 32 - q);
    }
  }

  /** The intended `subnetByHosts`, reading the parent unsigned from the
      intended `cidrToRange`: every request it accepts cuts the parent block
      into all of its subnets of the chosen prefix. */
  method SubnetByHostsFixed(cidr: string, hosts: int) returns (r: Result<seq<SubnetInfo>, IpError>)
    ensures !ValidateCidr(cidr) ==> r == Failure(InvalidCidr)
    ensures ValidateCidr(cidr) && hosts < 1 ==> r == Failure(HostCountTooSmall)
    ensures ValidateCidr(cidr) && hosts >= 1 && CidrPrefix(cidr) + CeilLog2(hosts + 2) > 32 ==> r == Failure(TooManyHosts)
    ensures ValidateCidr(cidr) && hosts >= 1 && CidrPrefix(cidr) + CeilLog2(hosts + 2) <= 32 ==>
              var s := BlockStart(CidrAddress(cidr), CidrPrefix(cidr));
              var q := 32 - CeilLog2(hosts + 2);
              r.Success? && r == SubnetList(s, q, SubnetsPerBlock(CidrPrefix(cidr), q))
  {
    if !ValidateCidr(cidr) {
      return Failure(InvalidCidr);
    }
    if hosts < 1 {
      return Failure(HostCountTooSmall);
    }
    var hostBitsNeeded: int := CeilLog2(hosts + 2);
    var newPrefix: int := 32 - hostBitsNeeded;
    var prefix := CidrPrefix(cidr);
    if newPrefix < prefix {
      return Failure(TooManyHosts);
    }
    var networkInt, broadcastInt := ReadParentFixed(cidr);
    BlockStartIsBlock(CidrAddress(cidr), prefix);
    r := HostsSplitFixed(BlockStart(CidrAddress(cidr), prefix), prefix, newPrefix, hosts, networkInt, broadcastInt);
  }

  /** The loop of `subnetByHosts` on the parent read back unsigned: all the
      subnets of prefix q of the aligned block at s. */
  method HostsSplitFixed(s: nat, p: nat, q: int, hosts: int, networkInt: int, broadcastInt: int)
    returns (r: Result<seq<SubnetInfo>, IpError>)
    requires IsBlock(s, p) && hosts >= 1 && q == 32 - CeilLog2(hosts + 2) && p <= q
    requires networkInt == s && broadcastInt == Last(s, p)
    ensures r.Success? && r == SubnetList(s, q, SubnetsPerBlock(p, q))
  {
    HostsPrefix(hosts);
    WholeSubnetsOfBlock(s, p, q);
    SubnetsInside(s, p, q, Pow2(q - p));
    r := HostsLoop(networkInt, broadcastInt, q);
  }
}
