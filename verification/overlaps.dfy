/** `checkOverlap` and `checkMultipleOverlaps` (utils/ipMath.ts): whether two
    CIDR blocks share an address, and the report over every pair of a list of
    blocks. Both read the blocks back through `cidrToRange` and the signed
    `ipToInt`; the corrected variants read them unsigned (`>>> 0`) from the
    intended `cidrToRange`. */
module Overlaps {

  import opened Wrappers
  import opened JsNumbers
  import opened JsStrings
  import opened Address
  import opened Blocks
  import opened CidrRange
  import opened Subnets

  datatype Overlap = Overlap(cidr1: string, cidr2: string, overlapRange: string)

  datatype OverlapResult = OverlapResult(hasOverlaps: bool, overlaps: seq<Overlap>, suggestions: seq<string>)

  /** `Math.max` and `Math.min` on two integers. */
  function Max(a: int, b: int): (m: int)
    ensures m >= a && m >= b && (m == a || m == b)
  {
    if a >= b then a else b
  }

  function Min(a: int, b: int): (m: int)
    ensures m <= a && m <= b && (m == a || m == b)
  {
    if a <= b then a else b
  }

  // ---------------------------------------------------------------------------
  // Two ranges

  /** The test of line 384: neither range ends before the other starts. */
  predicate Meet(s1: int, e1: int, s2: int, e2: int) {
    !(e1 < s2 || e2 < s1)
  }

  /** A range `cidrToRange` reports for prefix length p, as unsigned numbers:
      an aligned block for p >= 1, a single address for p == 0. */
  predicate Span(s: int, e: int, p: nat) {
    0 <= s <= e < TWO32 && (if p >= 1 then IsBlock(s, p) && e == Last(s, p) else s == e)
  }

  /** Such a range never straddles 2^31, so its signed view is a shift of it. */
  lemma SpanInOneHalf(s: int, e: int, p: nat)
    requires Span(s, e, p)
    ensures s < TWO31 <==> e < TWO31
  {
    if p >= 1 {
      BlockInOneHalf(s, p);
    }
  }

  /** Comparing the signed views of two such ranges gives the same answer as
      comparing the ranges, and the signed `Math.max` of the starts and
      `Math.min` of the ends are the signed views of the unsigned ones. */
  lemma SignedMeet(s1: int, e1: int, p1: nat, s2: int, e2: int, p2: nat)
    requires Span(s1, e1, p1) && Span(s2, e2, p2)
    ensures Meet(ToInt32(s1), ToInt32(e1), ToInt32(s2), ToInt32(e2)) == Meet(s1, e1, s2, e2)
    ensures Meet(s1, e1, s2, e2) ==>
      && Max(ToInt32(s1), ToInt32(s2)) == ToInt32(Max(s1, s2))
      && Min(ToInt32(e1), ToInt32(e2)) == ToInt32(Min(e1, e2))
      && Max(s1, s2) <= Min(e1, e2)
      && (Max(s1, s2) < TWO31 <==> s1 < TWO31 && s2 < TWO31)
  {
    SpanInOneHalf(s1, e1, p1);
    SpanInOneHalf(s2, e2, p2);
  }

  /** `cidrToRange` returns on the valid CIDR instead of throwing (it throws
      on 0.0.0.0/0 and 255.255.255.255/0). */
  predicate Readable(cidr: string)
    requires ValidateCidr(cidr)
  {
    CidrPrefix(cidr) >= 1 || 0 < CidrAddress(cidr) < ALL_ONES
  }

  lemma ParentSpan(cidr: string)
    requires ValidateCidr(cidr)
    ensures Span(ParentStart(cidr), ParentEnd(cidr), CidrPrefix(cidr))
  {
    ParentShape(cidr);
  }

  /** What `checkOverlap` answers for two valid CIDRs, stated on the unsigned
      ranges `cidrToRange` reports: whether they meet, or the error it throws. */
  function OverlapOutcome(c1: string, c2: string): Result<bool, IpError>
    requires ValidateCidr(c1) && ValidateCidr(c2)
  {
    if Readable(c1) && Readable(c2) then
      Success(Meet(ParentStart(c1), ParentEnd(c1), ParentStart(c2), ParentEnd(c2)))
    else Failure(InvalidIpInteger)
  }

  /** Lines 371-385: false when either CIDR is invalid; otherwise the signed
      comparison of the two ranges. */
  method CheckOverlap(c1: string, c2: string) returns (r: Result<bool, IpError>)
    ensures !(ValidateCidr(c1) && ValidateCidr(c2)) ==> r == Success(false)
    ensures ValidateCidr(c1) && ValidateCidr(c2) ==> r == OverlapOutcome(c1, c2)
  {
    if !ValidateCidr(c1) || !ValidateCidr(c2) {
      return Success(false);
    }
    var range1 := ReadParent(c1);
    if range1.Failure? {
      assert !Readable(c1);
      return Failure(range1.error);
    }
    var range2 := ReadParent(c2);
    if range2.Failure? {
      assert !Readable(c2);
      return Failure(range2.error);
    }
    assert Readable(c1) && Readable(c2);
    ParentSpan(c1);
    ParentSpan(c2);
    var meet := SignedTest(ParentStart(c1), ParentEnd(c1), CidrPrefix(c1), ParentStart(c2), ParentEnd(c2), CidrPrefix(c2),
                           range1.value.0, range1.value.1, range2.value.0, range2.value.1);
    return Success(meet);
  }

  /** Line 384 on two ranges read back signed. */
  method SignedTest(s1: int, e1: int, p1: nat, s2: int, e2: int, p2: nat,
                    start1: int, end1: int, start2: int, end2: int) returns (meet: bool)
    requires Span(s1, e1, p1) && Span(s2, e2, p2)
    requires start1 == ToInt32(s1) && end1 == ToInt32(e1) && start2 == ToInt32(s2) && end2 == ToInt32(e2)
    ensures meet == Meet(s1, e1, s2, e2)
  {
    SignedMeet(s1, e1, p1, s2, e2, p2);
    meet := !(end1 < start2 || end2 < start1);
  }

  /** The answer does not depend on the order of the two CIDRs. */
  lemma OverlapSymmetric(c1: string, c2: string)
    requires ValidateCidr(c1) && ValidateCidr(c2)
    ensures OverlapOutcome(c1, c2) == OverlapOutcome(c2, c1)
  {
  }

  /** One aligned block holds all of another. */
  predicate Contains(s1: int, p1: nat, s2: int, p2: nat)
    requires p1 <= 32 && p2 <= 32
  {
    s1 <= s2 && Last(s2, p2) <= Last(s1, p1)
  }

  /** Two aligned blocks meet exactly when one contains the other. */
  lemma NestOrApart(s1: int, p1: nat, s2: int, p2: nat)
    requires IsBlock(s1, p1) && IsBlock(s2, p2)
    ensures Intersect(s1, p1, s2, p2) <==> Contains(s1, p1, s2, p2) || Contains(s2, p2, s1, p1)
  {
    if Intersect(s1, p1, s2, p2) {
      if p1 <= p2 {
        BlocksNest(s1, p1, s2, p2);
      } else {
        BlocksNest(s2, p2, s1, p1);
      }
    }
  }

  /** For prefixes 1 to 32 `checkOverlap` answers whether one block contains
      the other. */
  lemma OverlapIsNesting(c1: string, c2: string)
    requires ValidateCidr(c1) && ValidateCidr(c2)
    requires CidrPrefix(c1) >= 1 && CidrPrefix(c2) >= 1
    ensures
      var s1, p1, s2, p2 := ParentStart(c1), CidrPrefix(c1), ParentStart(c2), CidrPrefix(c2);
      OverlapOutcome(c1, c2) == Success(Contains(s1, p1, s2, p2) || Contains(s2, p2, s1, p1))
  {
    ParentShape(c1);
    ParentShape(c2);
    NestOrApart(ParentStart(c1), CidrPrefix(c1), ParentStart(c2), CidrPrefix(c2));
  }

  /** With prefix 0 the source's range is the address alone, so a /0 block
      overlaps only the blocks that hold its address (instead of all). */
  lemma ZeroPrefixOverlap(c1: string, c2: string)
    requires ValidateCidr(c1) && ValidateCidr(c2) && Readable(c1) && Readable(c2)
    requires CidrPrefix(c1) == 0
    ensures OverlapOutcome(c1, c2) == Success(ParentStart(c2) <= CidrAddress(c1) <= ParentEnd(c2))
  {
    ParentShape(c1);
  }

  /** The aligned block the intended `cidrToRange` reports for a CIDR. */
  function BlockOf(cidr: string): (s: nat)
    requires ValidateCidr(cidr)
    ensures IsBlock(s, CidrPrefix(cidr)) && s <= CidrAddress(cidr) <= Last(s, CidrPrefix(cidr))
  {
    BlockStartIsBlock(CidrAddress(cidr), CidrPrefix(cidr));
    BlockStart(CidrAddress(cidr), CidrPrefix(cidr))
  }

  /** The corrected check: unsigned reads of the intended `cidrToRange`, under
      which two valid blocks overlap exactly when one contains the other. */
  method CheckOverlapFixed(c1: string, c2: string) returns (b: bool)
    ensures b <==>
      && ValidateCidr(c1) && ValidateCidr(c2)
      && (Contains(BlockOf(c1), CidrPrefix(c1), BlockOf(c2), CidrPrefix(c2))
          || Contains(BlockOf(c2), CidrPrefix(c2), BlockOf(c1), CidrPrefix(c1)))
  {
    if !ValidateCidr(c1) || !ValidateCidr(c2) {
      return false;
    }
    var start1, end1 := ReadParentFixed(c1);
    var start2, end2 := ReadParentFixed(c2);
    b := !(end1 < start2 || end2 < start1);
    NestOrApart(BlockOf(c1), CidrPrefix(c1), BlockOf(c2), CidrPrefix(c2));
  }

  // ---------------------------------------------------------------------------
  // One pair of checkMultipleOverlaps

  /** The suggestion pushed for an overlapping pair (lines 421-423). */
  function Suggestion(c1: string, c2: string): string {
    "Consider using non-overlapping ranges or consolidating " + c1 + " and " + c2 + " into a larger supernet."
  }

  /** The text `${intToIp(start)} - ${intToIp(end)}` of an overlap. */
  function RangeText(s: nat, e: nat): string
    requires s < TWO32 && e < TWO32
  {
    Dotted(s) + " - " + Dotted(e)
  }

  /** The record of two ranges that meet, naming their common part. */
  function CommonPart(c1: string, c2: string, s1: nat, e1: nat, s2: nat, e2: nat): Option<Overlap>
    requires s1 < TWO32 && e1 < TWO32 && s2 < TWO32 && e2 < TWO32
  {
    if Meet(s1, e1, s2, e2) then Some(Overlap(c1, c2, RangeText(Max(s1, s2), Min(e1, e2)))) else None
  }

  /** A range as the pair loop reads it: whether `cidrToRange` returns, the
      unsigned first and last address, and the prefix length. */
  datatype Reading = Reading(readable: bool, start: nat, end: nat, prefix: nat)

  predicate WellRead(r: Reading) {
    r.start < TWO32 && r.end < TWO32
  }

  /** The shape of a reading: as written, a range `cidrToRange` reports; corrected,
      an aligned block. */
  predicate Shaped(r: Reading, corrected: bool) {
    && r.prefix <= 32
    && (if corrected then IsBlock(r.start, r.prefix) && r.end == Last(r.start, r.prefix)
        else Span(r.start, r.end, r.prefix))
  }

  /** The range read for a valid CIDR: as written, the range `cidrToRange`
      reports, or none for 0.0.0.0/0 and 255.255.255.255/0, on which it
      throws; corrected, the intended aligned block. */
  function ReadingOf(cidr: string, corrected: bool): (r: Reading)
    requires ValidateCidr(cidr)
    ensures Shaped(r, corrected) && WellRead(r)
    ensures r.readable <==> corrected || Readable(cidr)
  {
    ParentShape(cidr);
    if corrected then Reading(true, BlockOf(cidr), Last(BlockOf(cidr), CidrPrefix(cidr)), CidrPrefix(cidr))
    else if !Readable(cidr) then Reading(false, 0, 0, 0)
    else Reading(true, ParentStart(cidr), ParentEnd(cidr), CidrPrefix(cidr))
  }

  /** What one step of the pair loop produces from the two readings: the
      error of an unreadable range; nothing for ranges that do not meet; for
      ranges that meet, the record of their common part, except that as
      written two ranges meeting at or above 128.0.0.0 have a negative signed
      start, on which `intToIp` throws. */
  function StepOutcome(c1: string, c2: string, r1: Reading, r2: Reading, corrected: bool): Result<Option<Overlap>, IpError>
    requires WellRead(r1) && WellRead(r2)
  {
    if !r1.readable || !r2.readable then Failure(InvalidIpInteger)
    else if !corrected && Meet(r1.start, r1.end, r2.start, r2.end) && r1.start >= TWO31 && r2.start >= TWO31 then
      Failure(InvalidIpInteger)
    else Success(CommonPart(c1, c2, r1.start, r1.end, r2.start, r2.end))
  }

  /** The step for the pair (c1, c2) of valid CIDRs. */
  function PairOutcome(c1: string, c2: string, corrected: bool): Result<Option<Overlap>, IpError>
    requires ValidateCidr(c1) && ValidateCidr(c2)
  {
    StepOutcome(c1, c2, ReadingOf(c1, corrected), ReadingOf(c2, corrected), corrected)
  }

  /** Lines 402-424 for one pair (c1, c2) with readings r1 and r2: the test
      of `checkOverlap` (which throws when a range cannot be read), then on
      overlap `Math.max` of the starts, `Math.min` of the ends and the two
      `intToIp` calls. As written the numbers are the signed `ipToInt`
      views; corrected, the unsigned ones. */
  method PairStep(c1: string, c2: string, r1: Reading, r2: Reading, corrected: bool)
    returns (r: Result<Option<Overlap>, IpError>)
    requires Shaped(r1, corrected) && Shaped(r2, corrected)
    ensures r == StepOutcome(c1, c2, r1, r2, corrected)
  {
    if !r1.readable || !r2.readable {
      return Failure(InvalidIpInteger);
    }
    if corrected {
      if r1.end < r2.start || r2.end < r1.start {
        return Success(None);
      }
      r := FixedRecord(c1, c2, r1.start, r1.end, r2.start, r2.end);
    } else {
      var start1, end1 := ToInt32(r1.start), ToInt32(r1.end);
      var start2, end2 := ToInt32(r2.start), ToInt32(r2.end);
      var meet := SignedTest(r1.start, r1.end, r1.prefix, r2.start, r2.end, r2.prefix, start1, end1, start2, end2);
      if !meet {
        return Success(None);
      }
      r := OverlapRecord(c1, c2, r1.start, r1.end, r1.prefix, r2.start, r2.end, r2.prefix, start1, end1, start2, end2);
    }
  }

  /** The record of two meeting ranges read back signed. */
  method OverlapRecord(c1: string, c2: string, s1: nat, e1: nat, p1: nat, s2: nat, e2: nat, p2: nat,
                       start1: int, end1: int, start2: int, end2: int)
    returns (r: Result<Option<Overlap>, IpError>)
    requires Span(s1, e1, p1) && Span(s2, e2, p2) && Meet(s1, e1, s2, e2)
    requires start1 == ToInt32(s1) && end1 == ToInt32(e1) && start2 == ToInt32(s2) && end2 == ToInt32(e2)
    ensures r == if s1 >= TWO31 && s2 >= TWO31 then Failure(InvalidIpInteger)
                 else Success(CommonPart(c1, c2, s1, e1, s2, e2))
  {
    SignedMeet(s1, e1, p1, s2, e2, p2);
    var overlapStart := Max(start1, start2);
    var overlapEnd := Min(end1, end2);
    var startText :- IntToIp(overlapStart);
    var endText := IntToIp(overlapEnd).value;
    return Success(Some(Overlap(c1, c2, startText + " - " + endText)));
  }

  /** The record of two meeting ranges read back unsigned. */
  method FixedRecord(c1: string, c2: string, start1: nat, end1: nat, start2: nat, end2: nat)
    returns (r: Result<Option<Overlap>, IpError>)
    requires start1 < TWO32 && end1 < TWO32 && start2 < TWO32 && end2 < TWO32
    requires Meet(start1, end1, start2, end2)
    ensures r == Success(CommonPart(c1, c2, start1, end1, start2, end2))
  {
    var overlapStart := Max(start1, start2);
    var overlapEnd := Min(end1, end2);
    var startText := IntToIp(overlapStart).value;
    var endText := IntToIp(overlapEnd).value;
    return Success(Some(Overlap(c1, c2, startText + " - " + endText)));
  }

  /** The common part of two nested aligned blocks is the inner block: the
      one with the longer prefix. */
  lemma CommonPartIsInnerBlock(c1: string, c2: string, s1: nat, p1: nat, s2: nat, p2: nat)
    requires IsBlock(s1, p1) && IsBlock(s2, p2)
    requires CommonPart(c1, c2, s1, Last(s1, p1), s2, Last(s2, p2)).Some?
    ensures
      var inner, q := if p1 >= p2 then s1 else s2, if p1 >= p2 then p1 else p2;
      && IsBlock(inner, q)
      && CommonPart(c1, c2, s1, Last(s1, p1), s2, Last(s2, p2)).value.overlapRange == RangeText(inner, Last(inner, q))
  {
    if p1 <= p2 {
      BlocksNest(s1, p1, s2, p2);
    } else {
      BlocksNest(s2, p2, s1, p1);
    }
  }

  /** On the corrected reading the overlap reported for two blocks is the
      more specific of them. */
  lemma FixedOverlapIsInnerBlock(c1: string, c2: string)
    requires ValidateCidr(c1) && ValidateCidr(c2)
    requires PairOutcome(c1, c2, true).Success? && PairOutcome(c1, c2, true).value.Some?
    ensures
      var s1, p1, s2, p2 := BlockOf(c1), CidrPrefix(c1), BlockOf(c2), CidrPrefix(c2);
      var inner, q := if p1 >= p2 then s1 else s2, if p1 >= p2 then p1 else p2;
      && IsBlock(inner, q)
      && PairOutcome(c1, c2, true).value.value.overlapRange == RangeText(inner, Last(inner, q))
  {
    CommonPartIsInnerBlock(c1, c2, BlockOf(c1), CidrPrefix(c1), BlockOf(c2), CidrPrefix(c2));
  }

  /** As written, a pair fails exactly when one of its CIDRs is 0.0.0.0/0 or
      255.255.255.255/0, or its ranges meet at or above 128.0.0.0; the
      corrected pair never fails. */
  lemma PairFailsWhen(c1: string, c2: string)
    requires ValidateCidr(c1) && ValidateCidr(c2)
    ensures PairOutcome(c1, c2, false).Failure? <==>
      || !Readable(c1) || !Readable(c2)
      || (OverlapOutcome(c1, c2) == Success(true) && ParentStart(c1) >= TWO31 && ParentStart(c2) >= TWO31)
    ensures PairOutcome(c1, c2, true).Success?
  {
  }

  // ---------------------------------------------------------------------------
  // The sweep over all pairs

  predicate All(keep: string -> bool, xs: seq<string>) {
    forall k :: 0 <= k < |xs| ==> keep(xs[k])
  }

  /** `xs.filter(keep)`: it drops an entry exactly when some entry fails. */
  function Filter(keep: string -> bool, xs: seq<string>): (ys: seq<string>)
    ensures |ys| <= |xs|
    ensures |ys| == |xs| <==> All(keep, xs)
    ensures All(keep, xs) ==> ys == xs
  {
    if |xs| == 0 then []
    else
      var front := Filter(keep, xs[..|xs| - 1]);
      var last := xs[|xs| - 1];
      assert All(keep, xs) <==> All(keep, xs[..|xs| - 1]) && keep(last);
      if keep(last) then front + [last] else front
  }

  predicate AllWellRead(readings: seq<Reading>) {
    forall k :: 0 <= k < |readings| ==> WellRead(readings[k])
  }

  predicate AllShaped(readings: seq<Reading>, corrected: bool) {
    forall k :: 0 <= k < |readings| ==> Shaped(readings[k], corrected) && WellRead(readings[k])
  }

  /** The readings of a list of valid CIDRs, one per entry. (`cidrToRange`
      is a function of its argument, so reading every CIDR once gives the
      values the source reads again for every pair.) */
  function ReadingsOf(cidrs: seq<string>, corrected: bool): (readings: seq<Reading>)
    requires All(ValidateCidr, cidrs)
    ensures |readings| == |cidrs| && AllShaped(readings, corrected) && AllWellRead(readings)
    ensures forall k :: 0 <= k < |cidrs| ==> readings[k] == ReadingOf(cidrs[k], corrected)
  {
    seq(|cidrs|, k requires 0 <= k < |cidrs| => ReadingOf(cidrs[k], corrected))
  }

  function Entries(o: Option<Overlap>): seq<Overlap> {
    if o.Some? then [o.value] else []
  }

  /** The steps of the pair loop, indexed by the positions of the pair. */
  type StepTable = (nat, nat) -> Result<Option<Overlap>, IpError>

  /** The steps over a list of CIDRs and their readings. */
  function Steps(cidrs: seq<string>, readings: seq<Reading>, corrected: bool): StepTable
    requires |readings| == |cidrs| && AllWellRead(readings)
  {
    (i: nat, j: nat) =>
      if i < |cidrs| && j < |cidrs| then StepOutcome(cidrs[i], cidrs[j], readings[i], readings[j], corrected)
      else Success(None)
  }

  /** The inner loop of lines 401-426 for row i up to (not including) k:
      the records of the pairs (i, j), i < j < k, in order, or the first
      error. */
  function RowSweep(step: StepTable, i: nat, k: nat): Result<seq<Overlap>, IpError>
    decreases k
  {
    if k <= i + 1 then Success([])
    else
      var front :- RowSweep(step, i, k - 1);
      var o :- step(i, k - 1);
      Success(front + Entries(o))
  }

  /** The outer loop over n entries up to (not including) row m. */
  function Sweep(step: StepTable, n: nat, m: nat): Result<seq<Overlap>, IpError>
    decreases m
  {
    if m == 0 then Success([])
    else
      var front :- Sweep(step, n, m - 1);
      var row :- RowSweep(step, m - 1, n);
      Success(front + row)
  }

  /** The suggestions pushed alongside the records, one per record. */
  function SuggestionsOf(overlaps: seq<Overlap>): (s: seq<string>)
    ensures |s| == |overlaps|
  {
    if |overlaps| == 0 then []
    else
      var last := overlaps[|overlaps| - 1];
      SuggestionsOf(overlaps[..|overlaps| - 1]) + [Suggestion(last.cidr1, last.cidr2)]
  }

  /** Lines 428-432: the result built from the records. */
  function Report(overlaps: seq<Overlap>): OverlapResult {
    OverlapResult(|overlaps| > 0, overlaps, Dedupe(SuggestionsOf(overlaps)))
  }

  /** The result of the whole sweep over n entries: the report, or the error
      it stopped on. */
  function SweepReport(step: StepTable, n: nat): Result<OverlapResult, IpError> {
    var sweep := Sweep(step, n, n);
    if sweep.Success? then Success(Report(sweep.value)) else Failure(sweep.error)
  }

  /** Lines 390-432. */
  method CheckMultipleOverlaps(cidrs: seq<string>) returns (r: Result<OverlapResult, IpError>)
    ensures !All(ValidateCidr, cidrs) ==> r == Failure(InvalidCidrBlocks)
    ensures All(ValidateCidr, cidrs) ==> r == SweepReport(Steps(cidrs, ReadingsOf(cidrs, false), false), |cidrs|)
  {
    var validCidrs := Filter(ValidateCidr, cidrs);
    if |validCidrs| != |cidrs| {
      return Failure(InvalidCidrBlocks);
    }
    r := SweepPairs(validCidrs, ReadingsOf(validCidrs, false), false);
  }

  /** The corrected `checkMultipleOverlaps`: it fails only on invalid CIDRs. */
  method CheckMultipleOverlapsFixed(cidrs: seq<string>) returns (r: Result<OverlapResult, IpError>)
    ensures !All(ValidateCidr, cidrs) ==> r == Failure(InvalidCidrBlocks)
    ensures All(ValidateCidr, cidrs) ==> r.Success? && r == SweepReport(Steps(cidrs, ReadingsOf(cidrs, true), true), |cidrs|)
  {
    var validCidrs := Filter(ValidateCidr, cidrs);
    if |validCidrs| != |cidrs| {
      return Failure(InvalidCidrBlocks);
    }
    FixedSweepSucceeds(validCidrs);
    r := SweepPairs(validCidrs, ReadingsOf(validCidrs, true), true);
  }

  /** Lines 428-432: the result built from the records and suggestions
      that the loop of lines 400-426 collected. */
  method SweepPairs(cidrs: seq<string>, readings: seq<Reading>, corrected: bool) returns (r: Result<OverlapResult, IpError>)
    requires |readings| == |cidrs| && AllShaped(readings, corrected) && AllWellRead(readings)
    ensures r == SweepReport(Steps(cidrs, readings, corrected), |cidrs|)
  {
    var swept := SweepLoop(cidrs, readings, corrected);
    if swept.Failure? {
      return Failure(swept.error);
    }
    var (overlaps, suggestions) := swept.value;
    return Success(OverlapResult(|overlaps| > 0, overlaps, Dedupe(suggestions)));
  }

  /** The outer loop of lines 400-426: the records and, one per record, the
      suggestions. */
  method SweepLoop(cidrs: seq<string>, readings: seq<Reading>, corrected: bool)
    returns (r: Result<(seq<Overlap>, seq<string>), IpError>)
    requires |readings| == |cidrs| && AllShaped(readings, corrected) && AllWellRead(readings)
    ensures r.Failure? ==> Sweep(Steps(cidrs, readings, corrected), |cidrs|, |cidrs|) == Failure(r.error)
    ensures r.Success? ==>
      && Sweep(Steps(cidrs, readings, corrected), |cidrs|, |cidrs|) == Success(r.value.0)
      && r.value.1 == SuggestionsOf(r.value.0)
  {
    ghost var step := Steps(cidrs, readings, corrected);
    var overlaps: seq<Overlap> := [];
    var suggestions: seq<string> := [];
    var i := 0;
    while i < |cidrs|
      invariant 0 <= i <= |cidrs|
      invariant Sweep(step, |cidrs|, i) == Success(overlaps)
      invariant suggestions == SuggestionsOf(overlaps)
    {
      var next := SweepOnce(cidrs, readings, corrected, i, overlaps, suggestions);
      if next.Failure? {
        SweepFailureStays(step, |cidrs|, i + 1, |cidrs|);
        return Failure(next.error);
      }
      overlaps, suggestions := next.value.0, next.value.1;
      i := i + 1;
    }
    return Success((overlaps, suggestions));
  }

  /** One pass of the outer loop of lines 400-426: row i appended to the
      records and suggestions collected so far. */
  method SweepOnce(cidrs: seq<string>, readings: seq<Reading>, corrected: bool, i: nat,
                   overlaps: seq<Overlap>, suggestions: seq<string>)
    returns (r: Result<(seq<Overlap>, seq<string>), IpError>)
    requires |readings| == |cidrs| && AllShaped(readings, corrected) && AllWellRead(readings) && i < |cidrs|
    requires Sweep(Steps(cidrs, readings, corrected), |cidrs|, i) == Success(overlaps)
    requires suggestions == SuggestionsOf(overlaps)
    ensures r.Failure? ==> Sweep(Steps(cidrs, readings, corrected), |cidrs|, i + 1) == Failure(r.error)
    ensures r.Success? ==>
      && Sweep(Steps(cidrs, readings, corrected), |cidrs|, i + 1) == Success(r.value.0)
      && r.value.1 == SuggestionsOf(r.value.0)
  {
    var row := SweepRow(cidrs, readings, i, corrected);
    if row.Failure? {
      return Failure(row.error);
    }
    SuggestionsAppend(overlaps, row.value);
    return Success((overlaps + row.value, suggestions + SuggestionsOf(row.value)));
  }

  /** The inner loop of lines 401-426 for row i. */
  method SweepRow(cidrs: seq<string>, readings: seq<Reading>, i: nat, corrected: bool) returns (r: Result<seq<Overlap>, IpError>)
    requires |readings| == |cidrs| && AllShaped(readings, corrected) && AllWellRead(readings) && i < |cidrs|
    ensures r == RowSweep(Steps(cidrs, readings, corrected), i, |cidrs|)
  {
    ghost var step := Steps(cidrs, readings, corrected);
    var row: seq<Overlap> := [];
    var j := i + 1;
    while j < |cidrs|
      invariant i + 1 <= j <= |cidrs|
      invariant RowSweep(step, i, j) == Success(row)
    {
      var entry := PairStep(cidrs[i], cidrs[j], readings[i], readings[j], corrected);
      assert entry == step(i, j);
      if entry.Failure? {
        RowFailureStays(step, i, j + 1, |cidrs|);
        return Failure(entry.error);
      }
      row := row + Entries(entry.value);
      j := j + 1;
    }
    return Success(row);
  }

  lemma {:induction false} SuggestionsAppend(xs: seq<Overlap>, ys: seq<Overlap>)
    ensures SuggestionsOf(xs + ys) == SuggestionsOf(xs) + SuggestionsOf(ys)
    decreases |ys|
  {
    if |ys| > 0 {
      var init := ys[..|ys| - 1];
      SuggestionsAppend(xs, init);
      assert (xs + ys)[..|xs + ys| - 1] == xs + init;
      assert (xs + ys)[|xs + ys| - 1] == ys[|ys| - 1];
    } else {
      assert xs + ys == xs;
    }
  }

  // ---------------------------------------------------------------------------
  // What the sweep computes

  lemma {:induction false} RowFailureStays(step: StepTable, i: nat, k: nat, n: nat)
    requires k <= n
    requires RowSweep(step, i, k).Failure?
    ensures RowSweep(step, i, n) == RowSweep(step, i, k)
    decreases n
  {
    if n > k {
      RowFailureStays(step, i, k, n - 1);
    }
  }

  lemma {:induction false} SweepFailureStays(step: StepTable, n: nat, m: nat, l: nat)
    requires m <= l
    requires Sweep(step, n, m).Failure?
    ensures Sweep(step, n, l) == Sweep(step, n, m)
    decreases l
  {
    if l > m {
      SweepFailureStays(step, n, m, l - 1);
    }
  }

  /** Row i fails exactly when one of its pairs fails; when it succeeds it
      holds exactly the records of its overlapping pairs. */
  lemma {:induction false} RowSweepSpec(step: StepTable, i: nat, k: nat)
    ensures RowSweep(step, i, k).Failure? <==> exists j :: i < j < k && step(i, j).Failure?
    ensures RowSweep(step, i, k).Success? ==> forall o ::
      o in RowSweep(step, i, k).value <==> exists j :: i < j < k && step(i, j) == Success(Some(o))
    decreases k
  {
    if k > i + 1 {
      RowSweepSpec(step, i, k - 1);
    }
  }

  /** The sweep fails exactly when some pair i < j fails; when it succeeds it
      holds exactly the records of the overlapping pairs. */
  lemma {:induction false} SweepSpec(step: StepTable, n: nat, m: nat)
    ensures Sweep(step, n, m).Failure? <==> exists i, j :: 0 <= i < m && i < j < n && step(i, j).Failure?
    ensures Sweep(step, n, m).Success? ==> forall o ::
      o in Sweep(step, n, m).value <==> exists i, j :: 0 <= i < m && i < j < n && step(i, j) == Success(Some(o))
    decreases m
  {
    if m > 0 {
      SweepSpec(step, n, m - 1);
      RowSweepSpec(step, m - 1, n);
    }
  }

  /** The result of the sweep fails exactly when one of its pair steps
      fails, and otherwise reports exactly the records of the overlapping
      pairs, with `hasOverlaps` set exactly when there is one. */
  lemma SweepReportSpec(step: StepTable, n: nat)
    ensures SweepReport(step, n).Failure? <==> exists i, j :: 0 <= i < j < n && step(i, j).Failure?
    ensures SweepReport(step, n).Success? ==>
      && (forall o :: o in SweepReport(step, n).value.overlaps <==>
            exists i, j :: 0 <= i < j < n && step(i, j) == Success(Some(o)))
      && (SweepReport(step, n).value.hasOverlaps <==>
            exists i, j :: 0 <= i < j < n && step(i, j) != Success(None))
  {
    SweepSpec(step, n, n);
    var sweep := Sweep(step, n, n);
    if sweep.Success? {
      var os := sweep.value;
      if |os| > 0 {
        assert os[0] in os;
      }
      if exists i, j :: 0 <= i < j < n && step(i, j) != Success(None) {
        var i, j :| 0 <= i < j < n && step(i, j) != Success(None);
        assert step(i, j).value.value in os;
      }
    }
  }

  /** The pair steps over the readings of a list of valid CIDRs are the
      steps of its pairs. */
  lemma ReadingsStep(cidrs: seq<string>, corrected: bool, i: nat, j: nat)
    requires All(ValidateCidr, cidrs) && i < j < |cidrs|
    ensures Steps(cidrs, ReadingsOf(cidrs, corrected), corrected)(i, j) == PairOutcome(cidrs[i], cidrs[j], corrected)
  {
  }

  /** `checkMultipleOverlaps` on valid CIDRs fails exactly when one of its
      pairs fails. */
  lemma MultipleOverlapsFail(cidrs: seq<string>, corrected: bool)
    requires All(ValidateCidr, cidrs)
    ensures SweepReport(Steps(cidrs, ReadingsOf(cidrs, corrected), corrected), |cidrs|).Failure? <==>
      exists i, j :: 0 <= i < j < |cidrs| && PairOutcome(cidrs[i], cidrs[j], corrected).Failure?
  {
    var step := Steps(cidrs, ReadingsOf(cidrs, corrected), corrected);
    SweepReportSpec(step, |cidrs|);
    if SweepReport(step, |cidrs|).Failure? {
      var i, j :| 0 <= i < j < |cidrs| && step(i, j).Failure?;
      ReadingsStep(cidrs, corrected, i, j);
    }
    if exists i, j :: 0 <= i < j < |cidrs| && PairOutcome(cidrs[i], cidrs[j], corrected).Failure? {
      var i, j :| 0 <= i < j < |cidrs| && PairOutcome(cidrs[i], cidrs[j], corrected).Failure?;
      ReadingsStep(cidrs, corrected, i, j);
    }
  }

  /** When it succeeds, `checkMultipleOverlaps` reports exactly the records
      of the overlapping pairs of the list. */
  lemma MultipleOverlapsRecords(cidrs: seq<string>, corrected: bool)
    requires All(ValidateCidr, cidrs)
    requires SweepReport(Steps(cidrs, ReadingsOf(cidrs, corrected), corrected), |cidrs|).Success?
    ensures forall o :: o in SweepReport(Steps(cidrs, ReadingsOf(cidrs, corrected), corrected), |cidrs|).value.overlaps <==>
      exists i, j :: 0 <= i < j < |cidrs| && PairOutcome(cidrs[i], cidrs[j], corrected) == Success(Some(o))
  {
    var step := Steps(cidrs, ReadingsOf(cidrs, corrected), corrected);
    SweepReportSpec(step, |cidrs|);
    var os := SweepReport(step, |cidrs|).value.overlaps;
    forall o
      ensures o in os <==> exists i, j :: 0 <= i < j < |cidrs| && PairOutcome(cidrs[i], cidrs[j], corrected) == Success(Some(o))
    {
      if o in os {
        var i, j :| 0 <= i < j < |cidrs| && step(i, j) == Success(Some(o));
        ReadingsStep(cidrs, corrected, i, j);
      }
      if exists i, j :: 0 <= i < j < |cidrs| && PairOutcome(cidrs[i], cidrs[j], corrected) == Success(Some(o)) {
        var i, j :| 0 <= i < j < |cidrs| && PairOutcome(cidrs[i], cidrs[j], corrected) == Success(Some(o));
        ReadingsStep(cidrs, corrected, i, j);
      }
    }
  }

  /** On the corrected reading no pair fails. */
  lemma FixedSweepSucceeds(cidrs: seq<string>)
    requires All(ValidateCidr, cidrs)
    ensures SweepReport(Steps(cidrs, ReadingsOf(cidrs, true), true), |cidrs|).Success?
  {
    var step := Steps(cidrs, ReadingsOf(cidrs, true), true);
    SweepReportSpec(step, |cidrs|);
    if SweepReport(step, |cidrs|).Failure? {
      var i, j :| 0 <= i < j < |cidrs| && step(i, j).Failure?;
      ReadingsStep(cidrs, true, i, j);
      assert false;
    }
  }

  /** Each suggestion names the two CIDRs of a record, and every record has
      its suggestion. */
  lemma {:induction false} SuggestionsNameRecords(overlaps: seq<Overlap>)
    ensures forall s :: s in SuggestionsOf(overlaps) <==> exists o :: o in overlaps && s == Suggestion(o.cidr1, o.cidr2)
  {
    if |overlaps| > 0 {
      var init := overlaps[..|overlaps| - 1];
      SuggestionsNameRecords(init);
      assert overlaps == init + [overlaps[|overlaps| - 1]];
    }
  }

  /** The reported suggestions are those of the records, each once. */
  lemma ReportSuggestions(overlaps: seq<Overlap>)
    ensures NoDuplicates(Report(overlaps).suggestions)
    ensures forall s :: s in Report(overlaps).suggestions <==>
      exists o :: o in overlaps && s == Suggestion(o.cidr1, o.cidr2)
  {
    SuggestionsNameRecords(overlaps);
  }
}
