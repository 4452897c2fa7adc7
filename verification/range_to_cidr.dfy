/** `rangeToCIDR` of `utils/ipMath.ts`: the greedy decomposition of an address
    range into aligned CIDR blocks, checked against a functional reference
    (`GreedyBlocks`) that picks, at each start, the largest aligned block that
    fits in what is left of the range. */
module RangeToCidr {

  import opened Wrappers
  import opened JsNumbers
  import opened JsStrings
  import opened Address
  import opened Masks
  import opened Blocks
  import opened CidrRange
  import DivMod

  /** A prefix length. */
  type PrefixLength = p: nat | p <= 32

  /** A CIDR block by its first address and prefix length. */
  datatype Block = Block(start: nat, prefix: PrefixLength)

  /** The block of prefix p at `start` is aligned and ends by `end`; the
      search of lines 235-244 only considers prefixes 1 to 32. Alignment is
      stated bit by bit (`LowZero`), which `FitsIsBlock` relates to `IsBlock`. */
  predicate Fits(start: int, end: int, p: nat) {
    1 <= p <= 32 && 0 <= start && LowZero(start, 32 - p) && start + Size(p) <= TWO32 && Last(start, p) <= end
  }

  /** `Fits` is: an aligned block of prefix 1 to 32 at `start` ending by `end`. */
  lemma FitsIsBlock(start: int, end: int, p: nat)
    requires 0 <= start
    ensures Fits(start, end, p) <==> 1 <= p <= 32 && IsBlock(start, p) && Last(start, p) <= end
  {
    if 1 <= p <= 32 {
      IsBlockLowZero(start, p);
    }
  }

  /** The /32 at any address of the range fits. */
  lemma FitsSingle(start: int, end: int)
    requires 0 <= start <= end < TWO32
    ensures Fits(start, end, 32)
  {
    assert Size(32) == 1;
  }

  /** Halving a fitting block gives a fitting block at the same start. */
  lemma FitsMonotone(start: int, end: int, q: nat)
    requires Fits(start, end, q) && q < 32
    ensures Fits(start, end, q + 1)
  {
    assert Size(q) == 2 * Size(q + 1);
    LowZeroWeaken(start, 32 - q);
  }

  /** A fitting prefix below q makes every prefix from it up to q fit. */
  lemma {:induction false} FitsUpTo(start: int, end: int, q: nat, r: nat)
    requires Fits(start, end, q) && q <= r <= 32
    ensures Fits(start, end, r)
    decreases r - q
  {
    if q < r {
      FitsMonotone(start, end, q);
      FitsUpTo(start, end, q + 1, r);
    }
  }

  /** The smallest fitting prefix at least q: the largest block from q on. */
  function MinFitFrom(start: int, end: int, q: nat): (p: nat)
    requires 0 <= start <= end < TWO32 && 1 <= q <= 32
    ensures q <= p <= 32 && Fits(start, end, p)
    ensures forall j :: q <= j < p ==> !Fits(start, end, j)
    decreases 32 - q, start
  {
    if q == 32 then
      FitsSingle(start, end);
      32
    else if Fits(start, end, q) then q
    else MinFitFrom(start, end, q + 1)
  }

  /** The prefix of the largest aligned block (at most a /1) that starts at
      `start` and ends by `end`. */
  function BestPrefix(start: int, end: int): (p: nat)
    requires 0 <= start <= end < TWO32
    ensures Fits(start, end, p)
    ensures forall q :: 1 <= q < p ==> !Fits(start, end, q)
  {
    MinFitFrom(start, end, 1)
  }

  /** The reference decomposition: from `start`, the largest fitting block,
      then the decomposition of the rest of the range. */
  function GreedyBlocks(start: nat, end: int): (bs: seq<Block>)
    requires end < TWO32
    ensures forall i :: 0 <= i < |bs| ==> start <= bs[i].start <= end
    decreases end - start + 1
  {
    if start > end then []
    else
      var p := BestPrefix(start, end);
      [Block(start, p)] + GreedyBlocks(start + Size(p), end)
  }

  /** Every block of the decomposition is the largest block that fits at its
      start. */
  lemma {:induction false} GreedyBlocksBest(start: nat, end: int)
    requires end < TWO32
    ensures forall b :: b in GreedyBlocks(start, end) ==> b.prefix == BestPrefix(b.start, end)
    decreases end - start + 1
  {
    if start <= end {
      var p := BestPrefix(start, end);
      GreedyStep(start, end);
      GreedyBlocksBest(start + Size(p), end);
    }
  }

  /** One step of the decomposition: the best block at `start`, then the
      decomposition of what follows it. */
  lemma GreedyStep(start: nat, end: int)
    requires start <= end < TWO32
    ensures start + Size(BestPrefix(start, end)) <= end + 1
    ensures GreedyBlocks(start, end)
            == [Block(start, BestPrefix(start, end))] + GreedyBlocks(start + Size(BestPrefix(start, end)), end)
  {
  }

  /** Blocks laid end to end from `start` to `end` without gap or overlap:
      the first starts at `start`, each next one right after the previous
      one, and the last ends at `end`. */
  predicate Tiles(bs: seq<Block>, start: int, end: int)
    decreases |bs|
  {
    if |bs| == 0 then start > end
    else
      && bs[0].prefix <= 32
      && bs[0].start == start
      && Last(start, bs[0].prefix) <= end
      && Tiles(bs[1..], Last(start, bs[0].prefix) + 1, end)
  }

  /** The greedy blocks tile the range exactly. */
  lemma {:induction false} GreedyTiles(start: nat, end: int)
    requires end < TWO32
    ensures Tiles(GreedyBlocks(start, end), start, end)
    decreases end - start + 1
  {
    if start <= end {
      var p := BestPrefix(start, end);
      GreedyStep(start, end);
      GreedyTiles(start + Size(p), end);
      TilesCons(Block(start, p), GreedyBlocks(start + Size(p), end), end);
    }
  }

  /** A block from `start` followed by a tiling of what is left of the range
      is a tiling of the range. */
  lemma TilesCons(b: Block, rest: seq<Block>, end: int)
    requires Last(b.start, b.prefix) <= end && Tiles(rest, Last(b.start, b.prefix) + 1, end)
    ensures Tiles([b] + rest, b.start, end)
  {
    assert ([b] + rest)[1..] == rest;
  }

  /** A tiling of a non-empty range is non-empty, lies inside the range, and
      its last block ends at `end`. */
  lemma {:induction false} TilesInside(bs: seq<Block>, start: int, end: int)
    requires Tiles(bs, start, end)
    ensures |bs| == 0 <==> start > end
    ensures forall i :: 0 <= i < |bs| ==> bs[i].prefix <= 32 && start <= bs[i].start && Last(bs[i].start, bs[i].prefix) <= end
    ensures |bs| > 0 ==> Last(bs[|bs| - 1].start, bs[|bs| - 1].prefix) == end
    decreases |bs|
  {
    if |bs| > 0 {
      var next := Last(start, bs[0].prefix) + 1;
      TilesInside(bs[1..], next, end);
      forall i | 1 <= i < |bs|
        ensures bs[i] == bs[1..][i - 1]
      {
      }
    }
  }

  /** In a tiling the blocks ascend, each starting right after the previous
      one ends, so no two overlap. */
  lemma {:induction false} TilesAscending(bs: seq<Block>, start: int, end: int)
    requires Tiles(bs, start, end)
    ensures forall i :: 0 <= i < |bs| - 1 ==> bs[i + 1].start == Last(bs[i].start, bs[i].prefix) + 1
    ensures forall i, j :: 0 <= i < j < |bs| ==> Last(bs[i].start, bs[i].prefix) < bs[j].start
    decreases |bs|
  {
    if |bs| > 0 {
      var rest := bs[1..];
      var next := Last(start, bs[0].prefix) + 1;
      TilesAscending(rest, next, end);
      TilesInside(rest, next, end);
      forall i | 1 <= i < |bs|
        ensures bs[i] == rest[i - 1]
      {
      }
    }
  }

  /** Every address of the range lies in one of the blocks of a tiling. */
  lemma {:induction false} BlockHolding(bs: seq<Block>, start: int, end: int, x: int) returns (i: nat)
    requires Tiles(bs, start, end) && start <= x <= end
    ensures i < |bs| && bs[i].start <= x <= Last(bs[i].start, bs[i].prefix)
    decreases |bs|
  {
    var last0 := Last(start, bs[0].prefix);
    if x <= last0 {
      i := 0;
    } else {
      var j := BlockHolding(bs[1..], last0 + 1, end, x);
      assert bs[j + 1] == bs[1..][j];
      i := j + 1;
    }
  }

  // ---------------------------------------------------------------------------
  // The loops of lines 233-254

  /** The body of the inner loop at prefix m: the block of prefix m at `start`
      passes both tests of lines 237-242 exactly when it fits. */
  lemma InnerTest(start: int, end: int, m: nat)
    requires 0 <= start <= end < TWO32 && 1 <= m <= 32
    ensures
      var mask := ShiftedMask(m);
      var networkInt := NetworkOf(start, mask);
      (networkInt == start && BroadcastOf(networkInt, mask) <= end) <==> Fits(start, end, m)
  {
    MaskedBlock(start, m);
    BlockStartIsBlock(start, m);
    FitsIsBlock(start, end, m);
    if IsBlock(start, m) {
      BlockStartUnique(start, m, start);
    }
  }

  /** A negative start is never the (unsigned) network address of any mask. */
  lemma NegativeStart(start: int, m: nat)
    requires start < 0 && 1 <= m <= 32
    ensures NetworkOf(start, ShiftedMask(m)) != start
  {
  }

  /** The inner loop of lines 235-245 followed by `maxSize++`: the prefix of
      the largest fitting block at `start`. For a negative (signed) start the
      first test already fails and the result is 33. */
  method LargestPrefixAt(start: int, end: int) returns (maxSize: int)
    requires start <= end < TWO32
    ensures start < 0 ==> maxSize == 33
    ensures 0 <= start ==> maxSize == BestPrefix(start, end)
  {
    maxSize := 32;
    while maxSize > 0
      invariant 0 <= maxSize <= 32
      invariant start < 0 ==> maxSize == 32
      invariant 0 <= start ==> forall q :: maxSize < q <= 32 ==> Fits(start, end, q)
      decreases maxSize
    {
      var mask := ShiftedMask(maxSize);
      var networkInt := NetworkOf(start, mask);
      if start < 0 {
        NegativeStart(start, maxSize);
      } else {
        InnerTest(start, end, maxSize);
      }
      if networkInt != start {
        break;
      }
      var broadcastInt := BroadcastOf(networkInt, mask);
      if broadcastInt > end {
        break;
      }
      maxSize := maxSize - 1;
    }
    if 0 <= start {
      if maxSize > 0 {
        assert !Fits(start, end, maxSize);
      }
      LoopExitIsBest(start, end, maxSize);
    }
    maxSize := maxSize + 1;
  }

  /** Where the inner loop stops, one more than the failing prefix is the best. */
  lemma LoopExitIsBest(start: int, end: int, m: nat)
    requires 0 <= start <= end < TWO32 && m <= 32
    requires forall q :: m < q <= 32 ==> Fits(start, end, q)
    requires m > 0 ==> !Fits(start, end, m)
    ensures m + 1 == BestPrefix(start, end)
  {
    forall q | 1 <= q <= m
      ensures !Fits(start, end, q)
    {
      if Fits(start, end, q) {
        FitsUpTo(start, end, q, m);
      }
    }
    MaxSizeIsBest(start, end, m + 1);
  }

  /** The prefix p that fits while no smaller prefix does is the best one. */
  lemma MaxSizeIsBest(start: int, end: int, p: nat)
    requires 0 <= start <= end < TWO32 && 1 <= p <= 32
    requires forall q :: p <= q <= 32 ==> Fits(start, end, q)
    requires forall q :: 1 <= q < p ==> !Fits(start, end, q)
    ensures p == BestPrefix(start, end)
  {
    var b := BestPrefix(start, end);
    assert Fits(start, end, p);
  }

  /** The texts `${intToIp(start)}/${maxSize}` of a list of blocks, in the
      order the outer loop pushes them. */
  function BlockTexts(bs: seq<Block>): (texts: seq<string>)
    requires forall i :: 0 <= i < |bs| ==> bs[i].start < TWO32
    ensures |texts| == |bs|
  {
    if |bs| == 0 then []
    else
      var last := bs[|bs| - 1];
      BlockTexts(bs[..|bs| - 1]) + [CidrText(last.start, last.prefix)]
  }

  /** The i-th text is the CIDR text of the i-th block. */
  lemma {:induction false} BlockTextAt(bs: seq<Block>, i: nat)
    requires forall i :: 0 <= i < |bs| ==> bs[i].start < TWO32
    requires i < |bs|
    ensures BlockTexts(bs)[i] == CidrText(bs[i].start, bs[i].prefix)
    decreases |bs|
  {
    if i < |bs| - 1 {
      var front := bs[..|bs| - 1];
      BlockTextAt(front, i);
      assert front[i] == bs[i];
    }
  }

  /** The outer loop of lines 233-254 from a parsed `start` to a parsed `end`.
      A negative start makes `intToIp(start)` throw in the first iteration. */
  method CoverRange(start0: int, end: int) returns (r: Result<seq<string>, IpError>)
    requires start0 <= end < TWO32
    ensures start0 < 0 ==> r == Failure(InvalidIpInteger)
    ensures 0 <= start0 ==> r == Success(BlockTexts(GreedyBlocks(start0, end)))
  {
    if start0 < 0 {
      var maxSize := LargestPrefixAt(start0, end);
      var address := IntToIp(start0);
      return Failure(address.error);
    }
    r := CoverFrom(start0, end);
  }

  /** The outer loop from a non-negative start: each iteration pushes the text
      of the largest fitting block and moves past it. `Math.pow(2, 32 -
      maxSize)` is the size of that block. */
  method CoverFrom(start0: nat, end: int) returns (r: Result<seq<string>, IpError>)
    requires start0 <= end < TWO32
    ensures r == Success(BlockTexts(GreedyBlocks(start0, end)))
  {
    var start: nat := start0;
    var cidrs: seq<string> := [];
    ghost var done: seq<Block> := [];
    while start <= end
      invariant start <= end + 1
      invariant GreedyBlocks(start0, end) == done + GreedyBlocks(start, end)
      invariant forall i :: 0 <= i < |done| ==> done[i].start < TWO32
      invariant cidrs == BlockTexts(done)
      decreases end - start
    {
      var maxSize := LargestPrefixAt(start, end);
      var text := BlockCidr(start, maxSize);
      var blockSize := Pow2(32 - maxSize);
      ghost var b := Block(start, maxSize);
      assert blockSize == Size(maxSize);
      CoverStep(GreedyBlocks(start0, end), done, start, end, maxSize, start + blockSize);
      assert (done + [b])[..|done|] == done;
      cidrs := cidrs + [text];
      done := done + [b];
      start := start + blockSize;
    }
    assert GreedyBlocks(start, end) == [];
    assert done + [] == done;
    return Success(cidrs);
  }

  /** The text `${intToIp(start)}/${maxSize}` pushed by the outer loop, for a
      start `intToIp` accepts. */
  method BlockCidr(start: nat, maxSize: nat) returns (text: string)
    requires start < TWO32
    ensures text == CidrText(start, maxSize)
  {
    var address := IntToIp(start).value;
    text := address + "/" + NumberToString(maxSize);
  }

  /** One iteration of the outer loop: the best block at `start` moves from
      what is left of the decomposition to what is done. */
  lemma CoverStep(whole: seq<Block>, done: seq<Block>, start: nat, end: int, p: PrefixLength, next: int)
    requires start <= end < TWO32
    requires whole == done + GreedyBlocks(start, end)
    requires p == BestPrefix(start, end) && next == start + Size(p)
    ensures next <= end + 1
    ensures whole == (done + [Block(start, p)]) + GreedyBlocks(next, end)
  {
    GreedyStep(start, end);
    assert done + ([Block(start, p)] + GreedyBlocks(next, end)) == (done + [Block(start, p)]) + GreedyBlocks(next, end);
  }

  // ---------------------------------------------------------------------------
  // rangeToCIDR

  /** Both texts pass `validateIP` and parse with `ipToInt`. */
  predicate BothParse(startIP: string, endIP: string) {
    ValidateIp(startIP) && ValidateIp(endIP) && IsFourOctets(startIP) && IsFourOctets(endIP)
  }

  /** The unsigned address of a text `ipToInt` accepts. */
  function Unsigned(ip: string): (u: nat)
    requires IsFourOctets(ip)
    ensures u < TWO32
  {
    ToUint32(IpToInt(ip).value)
  }

  /** `rangeToCIDR(startIP, endIP)` as written. The endpoints are compared as
      signed values, so a range that crosses 128.0.0.0 upwards is reported as
      start after end, and any range whose start lies at or above 128.0.0.0
      (above it, or crossing it downwards) fails in `intToIp`. */
  method RangeToCidr(startIP: string, endIP: string) returns (r: Result<seq<string>, IpError>)
    ensures !ValidateIp(startIP) || !ValidateIp(endIP) ==> r == Failure(InvalidIpAddresses)
    ensures ValidateIp(startIP) && ValidateIp(endIP) && !(IsFourOctets(startIP) && IsFourOctets(endIP))
            ==> r == Failure(InvalidIpAddress)
    ensures BothParse(startIP, endIP) && Unsigned(startIP) <= Unsigned(endIP) < TWO31
            ==> r == Success(BlockTexts(GreedyBlocks(Unsigned(startIP), Unsigned(endIP))))
    ensures BothParse(startIP, endIP) && Unsigned(startIP) < TWO31 <= Unsigned(endIP)
            ==> r == Failure(StartAfterEnd)
    ensures BothParse(startIP, endIP) && TWO31 <= Unsigned(startIP) <= Unsigned(endIP)
            ==> r == Failure(InvalidIpInteger)
    ensures BothParse(startIP, endIP) && Unsigned(endIP) < TWO31 <= Unsigned(startIP)
            ==> r == Failure(InvalidIpInteger)
    ensures BothParse(startIP, endIP) && Unsigned(startIP) > Unsigned(endIP)
            && (Unsigned(startIP) < TWO31 || TWO31 <= Unsigned(endIP))
            ==> r == Failure(StartAfterEnd)
  {
    if !ValidateIp(startIP) || !ValidateIp(endIP) {
      return Failure(InvalidIpAddresses);
    }
    var start :- IpToInt(startIP);
    var end :- IpToInt(endIP);
    if start > end {
      return Failure(StartAfterEnd);
    }
    r := CoverRange(start, end);
  }

  /** The intended `rangeToCIDR`: the endpoints are read as unsigned values
      (`ipToInt(ip) >>> 0`), so every ordered range is decomposed. */
  method RangeToCidrFixed(startIP: string, endIP: string) returns (r: Result<seq<string>, IpError>)
    ensures !ValidateIp(startIP) || !ValidateIp(endIP) ==> r == Failure(InvalidIpAddresses)
    ensures ValidateIp(startIP) && ValidateIp(endIP) && !(IsFourOctets(startIP) && IsFourOctets(endIP))
            ==> r == Failure(InvalidIpAddress)
    ensures BothParse(startIP, endIP) && Unsigned(startIP) <= Unsigned(endIP)
            ==> r == Success(BlockTexts(GreedyBlocks(Unsigned(startIP), Unsigned(endIP))))
    ensures BothParse(startIP, endIP) && Unsigned(startIP) > Unsigned(endIP)
            ==> r == Failure(StartAfterEnd)
  {
    if !ValidateIp(startIP) || !ValidateIp(endIP) {
      return Failure(InvalidIpAddresses);
    }
    var startSigned :- IpToInt(startIP);
    var endSigned :- IpToInt(endIP);
    var start := Ushr(startSigned, 0);
    var end := Ushr(endSigned, 0);
    if start > end {
      return Failure(StartAfterEnd);
    }
    r := CoverRange(start, end);
  }

  /** The text of an aligned block is a valid CIDR string naming the block,
      and the intended `cidrToRange` describes exactly that block. */
  lemma BlockTextDescribesBlock(s: nat, p: nat)
    requires p <= 32 && IsBlock(s, p)
    ensures
      var text := CidrText(s, p);
      && ValidateCidr(text)
      && CidrAddress(text) == s
      && CidrPrefix(text) == p
      && CidrToRangeFixed(text) == Success(BlockInfo(text, s, p))
      && BlockStart(s, p) == s
  {
    var text := CidrText(s, p);
    CanonicalCidrIsValid(s, p);
    IpToIntOfDotted(s);
    CidrToRangeFixedBlock(text);
    BlockStartUnique(s, p, s);
  }

  /** Every text the decomposition produces is a valid CIDR string naming its
      block, and the intended `cidrToRange` describes exactly that block. */
  lemma BlockTextsDescribeBlocks(start: nat, end: int, i: nat)
    requires end < TWO32 && i < |GreedyBlocks(start, end)|
    ensures
      var b := GreedyBlocks(start, end)[i];
      var text := BlockTexts(GreedyBlocks(start, end))[i];
      && text == CidrText(b.start, b.prefix)
      && ValidateCidr(text)
      && CidrAddress(text) == b.start
      && CidrPrefix(text) == b.prefix
      && CidrToRangeFixed(text) == Success(BlockInfo(text, b.start, b.prefix))
  {
    var bs := GreedyBlocks(start, end);
    var b := bs[i];
    BlockTextAt(bs, i);
    GreedyBlocksBest(start, end);
    assert b in bs;
    FitsIsBlock(b.start, end, b.prefix);
    BlockTextDescribesBlock(b.start, b.prefix);
  }
}
