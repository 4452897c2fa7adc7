# IPv4 subnet calculator: a Dafny model

This project models the IPv4 arithmetic behind a web-based subnet calculator and proves properties about it. It covers:

- the address helpers of `utils/ipMath.ts`:
  - conversion between dotted text and 32-bit integers;
  - prefix, netmask and wildcard conversions;
  - CIDR-to-range description, range-to-CIDR cover and the two subnetting modes;
  - pairwise and multiple overlap checks.
- the request schemas of `lib/validation.ts`.
- the older calculator of `cidr-calculator/utils/ipMath.ts`, which delegates address arithmetic to the `ip-address` library. Its own decisions are modelled: the wildcard text, host counts and ranges, subnet and host checks, mask-reading order, and overlap classification.

## Modules

| file | module | what it holds |
|---|---|---|
| wrappers.dfy | Wrappers | `Option` and `Result` |
| js_numbers.dfy | JsNumbers | JavaScript 32-bit operators on unbounded integers: `ToUint32`, `ToInt32`, the shifts `<<` and `>>>`, bitwise and, or and not; powers of two; ceil(log2) |
| js_strings.dfy | JsStrings | `split`/`join`, `trim` with JavaScript white space, `Number(...)`, `parseInt(...)`, decimal and binary texts, `indexOf`, `new Set` |
| address.dfy | Address | `ipToInt`, `intToIp`, `validateIP`, `validateCIDR`, `intToBinary`, `binaryToOctetString` |
| blocks.dfy | Blocks | aligned address blocks: start, size, last address |
| masks.dfy | Masks | `prefixToMask`, `maskToPrefix`, `maskToWildcard`, `wildcardToMask` |
| cidr_range.dfy | CidrRange | `getIPClass`, `cidrToRange` |
| range_to_cidr.dfy | RangeToCidr | `rangeToCIDR` and the greedy cover it computes |
| subnets.dfy | Subnets | `subnetByCount`, `subnetByHosts` |
| overlaps.dfy | Overlaps | `checkOverlap`, `checkMultipleOverlaps` |
| validation.dfy | Validation | `ipv4Regex`, `cidrRegex`, `cidrSchema`, `ipRangeSchema`, `subnetSchema`, `overlapCheckerSchema` |
| legacy.dfy | Legacy | the older calculator over an abstract `ip-address` library |

## Modelling choices

- **Numbers.** JavaScript numbers become unbounded `int`s.
  - 32-bit operators are written out: `ToInt32`/`ToUint32` wrap modulo 2^32, and a shift count is taken modulo 32.
  - `&` and `|` are defined bit by bit over 32 bits.
  - This is why `ipToInt` is signed: `parts[0] << 24` is an `int32`.
- **Errors.** A thrown `Error` becomes `Failure(kind)`: a constructor of `IpError` for `utils/ipMath.ts` and of `LegacyError` for the older calculator. The message text is not kept.
- **Regular expressions** are modelled by the language they accept. The alternations of `lib/validation.ts` are written down literally and proved equal to a numeric description.
- **Fixed members.** Where the source is wrong (see "## Findings"), the as-written behaviour is modelled by the member that carries the function's name. The intended behaviour is a `...Fixed` member. Both are proved.
- **The `ip-address` library** is not part of this model. The older calculator receives it as a parameter `Library(parse, divide)`:
  - `parse(text)` is `new Address4(text)`, `None` when the constructor throws. It yields a record of start, end, prefix length, `cidr` text and `subnet` text.
  - `divide(a, q)` is `a.subnet(q)`.
  - Properties that hold only for a library that behaves like a CIDR library are stated under two explicit assumptions:
    - `Legacy.Aligned`: a record is a genuine aligned block;
    - `Legacy.DividesFully`: `subnet(q)` of a /p block has 2^(q-p) entries.

## Model

| member | source | states |
|---|---|---|
| Address.IpToInt | utils/ipMath.ts:43-49 | Accepts exactly the texts with four '.'-separated parts that `Number` reads as integers in 0..255. Returns the big-endian value of those octets as a signed 32-bit number, negative exactly when the first octet is 128 or more. Any other text is the invalid-address error |
| Address.ShiftedOctetSum | utils/ipMath.ts:48 | The sum of the four shifted octets is the signed 32-bit reading of their unsigned big-endian value. That value is at least 2^31 exactly when the first octet is 128 or more |
| Address.IntToIp | utils/ipMath.ts:54-64 | Accepts exactly the integers in [0, 2^32) and renders them as dotted text. Every other integer is the invalid-integer error |
| Address.ShiftedOctets | utils/ipMath.ts:58-63 | The four `>>>`/`& 0xFF` expressions extract the octets of the value, most significant first |
| Address.IntToIpRoundTrip | utils/ipMath.ts:43-64 | Rendering any 32-bit value and parsing the text back returns that value in its signed reading |
| Address.IpToIntOfDotted | utils/ipMath.ts:43-49 | Parsing canonical dotted text gives the value itself below 128.0.0.0, and the value minus 2^32 from there on |
| Address.DottedInjective | utils/ipMath.ts:54-64 | Distinct 32-bit values render to distinct texts |
| Address.ValidCidrParts | utils/ipMath.ts:69-84 | A text that `validateCIDR` accepts has one '/'. Its address part passes `ipToInt`, and its prefix is one or two digits of value at most 32 |
| Address.CanonicalCidrIsValid | utils/ipMath.ts:69-84 | Every canonical "a.b.c.d/p" with p ≤ 32 passes `validateCIDR`. Its address part and prefix read back as the values it was made from |
| Address.IntToBinary | utils/ipMath.ts:152-154 | The result is 32 binary digits whose value is the unsigned 32-bit reading of the number, negative numbers included |
| Address.BinaryToOctetString | utils/ipMath.ts:159-161 | 32 binary digits are cut into four groups of 8, joined by '.'. A text shorter than 8 characters gives the empty string |
| Address.BitsMatchInEights | utils/ipMath.ts:160 | On 32 binary digits, `/.{8}/g` matches exactly the four consecutive groups of 8 |
| Masks.ShiftedMask | utils/ipMath.ts:105 | `(0xFFFFFFFF << (32 - p)) >>> 0` is the netmask with p leading ones for p in 1..32. For p = 0 it is all ones, since the shift count 32 wraps to 0 |
| Masks.PrefixToMask | utils/ipMath.ts:101-107 | Succeeds exactly for prefixes 0..32; others are the invalid-prefix error. Prefixes 1..32 give the mask with that many leading ones; prefix 0 gives 255.255.255.255 |
| Masks.PrefixToMaskFixed | utils/ipMath.ts:101-107 | Same domain. Every accepted prefix gives the mask with exactly that many leading ones, so 0 gives 0.0.0.0 |
| Masks.PrefixToMaskZero | utils/ipMath.ts:105 | For prefix 0 the written code and the intended mask differ: 255.255.255.255 against 0.0.0.0 |
| Masks.CountLeadingOnes | utils/ipMath.ts:114-120 | The loop's count is positive exactly when the top bit is set. It equals q whenever the value is the mask with q leading ones |
| Masks.MaskToPrefix | utils/ipMath.ts:112-129 | Never succeeds. Unreadable text gives the invalid-address error; every four-octet text, 255.255.255.0 included, gives the invalid-mask error |
| Masks.MaskToPrefixFixed | utils/ipMath.ts:112-129 | Succeeds exactly when the text's unsigned value is a contiguous netmask, and returns the prefix whose mask it is. The canonical text of every /p mask returns p. The error tells unreadable text from a non-contiguous mask |
| Masks.MaskToWildcard | utils/ipMath.ts:134-138 | Succeeds exactly on readable four-octet texts. Returns the complement of the unsigned address value within 32 bits |
| Masks.WildcardToMask | utils/ipMath.ts:143-147 | Succeeds exactly on readable four-octet texts. Returns the complement of the unsigned address value within 32 bits |
| Masks.ComplementFlipsOctets | utils/ipMath.ts:134-147 | Both conversions replace every octet o by 255 - o |
| Masks.WildcardRoundTrip | utils/ipMath.ts:134-147 | For every 32-bit value, mask-to-wildcard then wildcard-to-mask returns the original text, and the other way round too |
| Masks.WildcardOfMask | utils/ipMath.ts:134-138 | The wildcard of the /p mask is 2^(32-p) - 1, the host part of a /p block |
| CidrRange.ClassfulByFirstOctet | utils/ipMath.ts:166-174 | The first-octet ranges of `getIPClass` are the classful leading-bit classes (0, 10, 110, 1110, 1111), with 0/8 and 127/8 unclassified |
| CidrRange.GetIpClassOfDotted | utils/ipMath.ts:166-174 | The class of a dotted address agrees with the independent leading-bit definition of the classes |
| CidrRange.NetworkOfMask | utils/ipMath.ts:190 | Masking an address with the /q netmask gives the start of the aligned /q block that holds it |
| CidrRange.BroadcastOfMask | utils/ipMath.ts:191 | OR-ing an aligned /q block start with the /q wildcard gives the block's last address |
| CidrRange.UsableRange | utils/ipMath.ts:193-197 | The first and last usable addresses lie in order inside the block. Up to /30 they exclude network and broadcast. `usableHosts` counts the addresses between them, and is 1 for /32 |
| CidrRange.CidrToRangeInvalid | utils/ipMath.ts:180-182 | Text that `validateCIDR` rejects is the invalid-notation error |
| CidrRange.DescribeResult | utils/ipMath.ts:187-215 | Every field of the record is given. The call fails exactly when the wildcard or a usable end leaves 0..2^32-1 |
| CidrRange.CidrToRangeBlock | utils/ipMath.ts:179-216 | For prefixes 1..32 the record describes the aligned block of that prefix that holds the address. It gives network, broadcast, usable ends, 2^(32-p) total hosts, mask, wildcard, binary mask and class |
| CidrRange.CidrToRangeZeroPrefix | utils/ipMath.ts:188 | For /0 network and broadcast are the address itself while `totalHosts` is 2^32. The texts 0.0.0.0/0 and 255.255.255.255/0 fail |
| CidrRange.CidrToRangeFixedBlock | utils/ipMath.ts:179-216 | With the corrected mask, every valid CIDR, /0 included, describes its aligned block |
| CidrRange.CidrToRangeFixedZeroPrefix | utils/ipMath.ts:188 | With the corrected mask, /0 spans 0.0.0.0 to 255.255.255.255 |
| RangeToCidr.LargestPrefixAt | utils/ipMath.ts:235-249 | The inner loop plus `maxSize++` picks the shortest prefix whose aligned block starts at `start` and ends no later than `end`. A negative start leaves the loop at once with 33 |
| RangeToCidr.GreedyBlocksBest | utils/ipMath.ts:236-249 | Every block of the cover is the largest aligned block that starts at its address and stays inside the range |
| RangeToCidr.GreedyTiles | utils/ipMath.ts:233-256 | The cover's blocks are aligned and follow one another with no gap or overlap. Together they span exactly [start, end] |
| RangeToCidr.TilesAscending | utils/ipMath.ts:233-256 | The blocks of a cover are in strictly ascending address order |
| RangeToCidr.BlockHolding | utils/ipMath.ts:233-256 | Every address of the range lies in some block of the cover |
| RangeToCidr.CoverRange | utils/ipMath.ts:233-256 | From a non-negative start the texts emitted are the greedy cover. A negative start fails in `intToIp` |
| RangeToCidr.BlockTextsDescribeBlocks | utils/ipMath.ts:252 | Each emitted text is a valid CIDR whose (corrected) `cidrToRange` describes exactly that block |
| RangeToCidr.RangeToCidr | utils/ipMath.ts:221-257 | Gives the cover only for ranges below 128.0.0.0. A range crossing 128.0.0.0 upwards is reported as start after end. A start at or above 128.0.0.0 fails in `intToIp`. The validation errors come first |
| RangeToCidr.RangeToCidrFixed | utils/ipMath.ts:221-257 | With unsigned endpoints, every ordered pair of addresses gives the greedy cover. A reversed pair is the start-after-end error |
| Subnets.SubnetEntry | utils/ipMath.ts:289-305 | A subnet record is produced exactly when the whole subnet lies in 0..2^32-1. Otherwise `intToIp` fails |
| Subnets.CountLoop | utils/ipMath.ts:288-306 | The loop lists `count` consecutive /q subnets from the network, or fails at the first one that leaves the address space |
| Subnets.SubnetRecordsTile | utils/ipMath.ts:288-306 | The listed subnets are aligned /q blocks inside the parent, each starting right after the previous one |
| Subnets.ReadParent | utils/ipMath.ts:282-283 | Reading network and broadcast back through `ipToInt` gives their signed values. It fails only for 0.0.0.0/0 and 255.255.255.255/0 |
| Subnets.SubnetByCount | utils/ipMath.ts:262-309 | Checks come in order: invalid CIDR, count below 1, prefix + ceil(log2 count) above 32. Then a network below 128.0.0.0 gives `count` consecutive subnets of that longer prefix, and one from 128.0.0.0 on fails. For /0, counting starts at the address itself; 0.0.0.0/0 and addresses from 128.0.0.0 on fail |
| Subnets.SubnetByCountFixed | utils/ipMath.ts:262-309 | Same checks. Every accepted request lists `count` consecutive subnets from the aligned network |
| Subnets.HostsPrefix | utils/ipMath.ts:324-325 | The chosen prefix is at most /30, and its usable host count is at least the requested number |
| Subnets.HostsRoom | utils/ipMath.ts:347-348 | Every listed subnet has room for at least the requested number of hosts |
| Subnets.WholeSubnetsOfBlock | utils/ipMath.ts:342-345 | The loop over an aligned /p parent lists exactly 2^(q-p) subnets of prefix q |
| Subnets.HostsLoop | utils/ipMath.ts:340-363 | The loop lists as many whole /q subnets as fit between network and broadcast |
| Subnets.SubnetByHosts | utils/ipMath.ts:314-366 | Checks come in order: invalid CIDR, hosts below 1, new prefix shorter than the network's. Then a network below 128.0.0.0 gives all 2^(q-p) subnets of the parent, and one from 128.0.0.0 on fails. For /0 the list is empty, except that 0.0.0.0/0 and 255.255.255.255/0 fail |
| Subnets.SubnetByHostsFixed | utils/ipMath.ts:314-366 | Same checks. Every accepted request lists all 2^(q-p) subnets of the aligned parent |
| Overlaps.SignedMeet | utils/ipMath.ts:384 | For two CIDR spans, comparing the signed readings decides overlap the same way as comparing unsigned values, because no block straddles 128.0.0.0 |
| Overlaps.CheckOverlap | utils/ipMath.ts:371-385 | Invalid text is "no overlap". Valid pairs give the outcome defined by the two parent ranges, which fails only when one is 0.0.0.0/0 or 255.255.255.255/0 |
| Overlaps.OverlapSymmetric | utils/ipMath.ts:371-385 | The answer does not depend on the order of the two CIDRs |
| Overlaps.OverlapIsNesting | utils/ipMath.ts:371-385 | For prefixes of at least 1, two blocks overlap exactly when one contains the other |
| Overlaps.ZeroPrefixOverlap | utils/ipMath.ts:371-385 | A readable /0 CIDR overlaps another exactly when its address lies in the other's range |
| Overlaps.CheckOverlapFixed | utils/ipMath.ts:371-385 | Corrected: true exactly when both texts are valid and one aligned block contains the other |
| Overlaps.PairStep | utils/ipMath.ts:402-424 | One pair of the sweep: no record for disjoint blocks, otherwise the record of the common range |
| Overlaps.FixedOverlapIsInnerBlock | utils/ipMath.ts:411-417 | For two overlapping CIDRs the reported overlap range is the whole inner (longer-prefix) block |
| Overlaps.PairFailsWhen | utils/ipMath.ts:402-424 | As written, a pair fails exactly when one CIDR is 0.0.0.0/0 or 255.255.255.255/0, or when the two overlap at or above 128.0.0.0. The corrected pair never fails |
| Overlaps.Filter | utils/ipMath.ts:391-395 | The filtered list keeps every entry exactly when all entries are valid, so a length mismatch means an invalid entry |
| Overlaps.CheckMultipleOverlaps | utils/ipMath.ts:390-432 | An invalid entry is the invalid-blocks error. Otherwise the result is the report of the sweep over all pairs i < j |
| Overlaps.MultipleOverlapsFail | utils/ipMath.ts:400-425 | The sweep fails exactly when some pair i < j fails |
| Overlaps.MultipleOverlapsRecords | utils/ipMath.ts:400-425 | The overlaps listed are exactly the records of the pairs i < j that overlap |
| Overlaps.FixedSweepSucceeds | utils/ipMath.ts:390-432 | The corrected sweep succeeds for every list of valid CIDRs |
| Overlaps.CheckMultipleOverlapsFixed | utils/ipMath.ts:390-432 | Corrected: every list of valid CIDRs gives a report, and an invalid entry is still the error |
| Overlaps.ReportSuggestions | utils/ipMath.ts:420-430 | The suggestions are free of duplicates and name exactly the pairs that overlap |
| JsStrings.DedupeKeepsFirstOccurrenceOrder | utils/ipMath.ts:430 | `[...new Set(xs)]` keeps each value once, in the order of its first occurrence |
| Validation.OctetAlternativeValue | lib/validation.ts:3 | The octet alternation accepts exactly the one- to three-digit texts of value at most 255, leading zeros included |
| Validation.PrefixAlternativeValue | lib/validation.ts:4 | The prefix alternation accepts exactly 0..32 written without a leading zero |
| Validation.Ipv4RegexParses | lib/validation.ts:3 | An address the IPv4 expression accepts is read by `Number`, component by component, as its decimal value |
| Validation.Ipv4RegexValidIp | lib/validation.ts:3 | Every address the IPv4 expression accepts passes `validateIP` |
| Validation.ValidateIpOnDigitGroups | utils/ipMath.ts:89-96 | On four groups of one to three digits, `validateIP` and the IPv4 expression accept the same texts |
| Validation.DottedMatchesIpv4 | lib/validation.ts:14-15 | The canonical text of every 32-bit value is accepted by `ipAddressSchema` |
| Validation.RefineNeverFails | lib/validation.ts:6-12 | The prefix refinement never rejects a text the CIDR expression accepts, so the schema is the expression alone |
| Validation.SchemaCidrIsValid | lib/validation.ts:6-12 | A text that `cidrSchema` accepts passes `validateCIDR` |
| Validation.ValidateCidrLooser | utils/ipMath.ts:69-84 | `validateCIDR` accepts a zero-padded prefix such as "/05" that `cidrSchema` rejects |
| Validation.CanonicalCidrPassesSchema | lib/validation.ts:6-12 | Every canonical "a.b.c.d/p" with p ≤ 32 passes `cidrSchema` |
| Validation.RangeRefine | lib/validation.ts:20-29 | The octet loop accepts exactly when no position k has equal octets before it and a larger start octet at k |
| Validation.RangeSchemaIsUnsignedOrder | lib/validation.ts:17-29 | For addresses that pass the IPv4 expression, `ipRangeSchema` accepts exactly when start ≤ end as unsigned 32-bit values |
| Validation.LexicographicIsNumeric | lib/validation.ts:24-28 | Octet-by-octet comparison agrees with the big-endian value order |
| Validation.SubnetSchemaPassesChecks | lib/validation.ts:31-35 | A request that `subnetSchema` accepts passes `validateCIDR` and the value is at least 1 |
| Validation.OverlapSchemaPassesChecks | lib/validation.ts:42-44 | A list that `overlapCheckerSchema` accepts passes the validity filter of `checkMultipleOverlaps` |
| Legacy.ComplementPartNaN | cidr-calculator/utils/ipMath.ts:18 | A component becomes "NaN" exactly when `parseInt` cannot read it |
| Legacy.ComplementOfDecimal | cidr-calculator/utils/ipMath.ts:18 | The decimal text of o in 0..255 becomes the decimal text of 255 - o |
| Legacy.WildcardOfDotted | cidr-calculator/utils/ipMath.ts:17-19 | The wildcard text of a dotted address is the dotted text of its 32-bit complement |
| Legacy.WildcardInvolution | cidr-calculator/utils/ipMath.ts:17-19 | Applying the wildcard text twice to a dotted address returns it unchanged |
| Legacy.WildcardAgreesWithMaskToWildcard | cidr-calculator/utils/ipMath.ts:17-19 | On dotted addresses the older wildcard text agrees with `maskToWildcard` of `utils/ipMath.ts` |
| Legacy.UsableCount | cidr-calculator/utils/ipMath.ts:39 | The count is never negative. Below /31 it is 0 exactly when the block has at most 2 addresses |
| Legacy.RangeText | cidr-calculator/utils/ipMath.ts:32-47 | Below /31 the range is "N/A" exactly when nothing is usable or the block has fewer than 3 addresses |
| Legacy.Describe | cidr-calculator/utils/ipMath.ts:21-65 | Network and broadcast are the block's ends, and the wildcard is the complement text of the mask. The usable count is not negative; below /31 the range is "N/A" exactly when it is 0 |
| Legacy.WideBlockCounts | cidr-calculator/utils/ipMath.ts:38-39 | An aligned block up to /30 has 2^(32-p) addresses and 2^(32-p) - 2 ≥ 2 usable ones |
| Legacy.WideBlockRange | cidr-calculator/utils/ipMath.ts:40-46 | For an aligned block up to /30 the range runs from network + 1 to broadcast - 1, and is never "N/A" |
| Legacy.PairBlockRange | cidr-calculator/utils/ipMath.ts:35-37 | A /31 block has 2 usable addresses, and its range runs from network to broadcast |
| Legacy.SingleBlockRange | cidr-calculator/utils/ipMath.ts:32-34 | A /32 block has 1 usable address, and its range is the single address |
| Legacy.UsableMatchesPlan | cidr-calculator/utils/ipMath.ts:29-47 | The usable count reported per aligned block equals the host-plan formula of line 135 |
| Legacy.ReadAll | cidr-calculator/utils/ipMath.ts:227 | All texts are read, in order, exactly when the library reads every one of them |
| Legacy.NumberSubnets | cidr-calculator/utils/ipMath.ts:105-111 | Each sub-block becomes its description with id i + 1. One description the library cannot read fails the whole call |
| Legacy.SubnetsByCount | cidr-calculator/utils/ipMath.ts:89-116 | Checks come in order: unreadable network, count ≤ 0, prefix + ceil(log2 count) above 32. A success is exactly the library's sub-blocks of the new prefix, each read again and described, numbered from 1 |
| Legacy.SubnetsByCountEnough | cidr-calculator/utils/ipMath.ts:96-103 | For a library that divides fully, the count of subnets is exactly 2^ceil(log2 count): at least the request and below twice it |
| Legacy.SubnetsByHosts | cidr-calculator/utils/ipMath.ts:118-151 | Checks come in order: unreadable network, hosts ≤ 0, new prefix shorter than the network's. A success reports the new prefix within [network prefix, 32], hostsPerSubnet is the usable count of that prefix, and the subnets are exactly the library's sub-blocks of that prefix, described and numbered from 1 |
| Legacy.SubnetsByHostsCount | cidr-calculator/utils/ipMath.ts:133-144 | For a library that divides fully, the host plan lists 2^(q-p) subnets: every /q sub-block of the network's /p |
| Legacy.HostPlanFits | cidr-calculator/utils/ipMath.ts:125-135 | The reported hostsPerSubnet is at least the request. One host gives a /32 plan of 1. A prefix one bit longer would not hold the hosts needed |
| Legacy.HostsPerSubnetIsUsable | cidr-calculator/utils/ipMath.ts:134-143 | The plan's hostsPerSubnet equals the usable count described for every aligned sub-block of the new prefix |
| Legacy.IsValidMask | cidr-calculator/utils/ipMath.ts:161-169 | A mask is accepted only as the library's reading of "10.0.0.1/<mask>", complemented first when offered as a wildcard, with a prefix in [0, 32] |
| Legacy.ConvertMask | cidr-calculator/utils/ipMath.ts:171-212 | Handles "/n" with n out of range as an error. A dotted text is tried as a netmask before a wildcard. The wildcard is the complement text of the mask unless the input was read as a wildcard, in which case the mask is the complement text of the input |
| Legacy.ConvertMaskComplements | cidr-calculator/utils/ipMath.ts:185-204 | For a dotted input that converts, mask and wildcard are each other's complement text, whichever reading was taken |
| Legacy.Classify | cidr-calculator/utils/ipMath.ts:240-254 | Containment of the second block is tested first, then containment of the first, then partial overlap. Equal ranges are "contains", and disjoint ranges give no record |
| Legacy.AlignedNeverPartial | cidr-calculator/utils/ipMath.ts:252-254 | Two aligned blocks are never classified as a partial overlap |
| Legacy.PairMembers | cidr-calculator/utils/ipMath.ts:230-256 | The records are exactly one per pair i < j whose blocks meet, carrying the pair's classification |
| Legacy.AlignedOnlyNesting | cidr-calculator/utils/ipMath.ts:230-256 | For aligned blocks no record is "overlaps_with" |
| Legacy.NonBlank | cidr-calculator/utils/ipMath.ts:224 | The entries kept are exactly those that are not blank after trimming |
| Legacy.RepeatedMembers | cidr-calculator/utils/ipMath.ts:225 | An entry is collected exactly when it is not blank and an earlier copy exists |
| Legacy.RepeatedMeansTwice | cidr-calculator/utils/ipMath.ts:225 | The duplicates are exactly the non-blank texts that occur at least twice in the list |
| Legacy.ClassifyRow | cidr-calculator/utils/ipMath.ts:231-255 | The inner loop appends the records of row i |
| Legacy.ClassifyPairs | cidr-calculator/utils/ipMath.ts:230-256 | The double loop produces the records of all pairs i < j in order |
| Legacy.CheckCidrOverlap | cidr-calculator/utils/ipMath.ts:222-260 | Fails exactly when some non-blank entry cannot be read. Otherwise the duplicates are the repeated non-blank entries, each once, and the overlaps are the classified pairs of the distinct non-blank entries |

## Left out

- ToNumber: `Number(text)` is modelled only for the forms the calculator produces or rejects. Leading and trailing JavaScript white space is trimmed, "" reads as 0, a run of decimal digits reads as its value, and everything else is NaN (`None`). A sign, a fraction, an exponent, a hex, octal or binary prefix, and "Infinity" are all read as NaN. So "+1", "1e2" and "0x1F", which `Number` reads as 1, 100 and 31, are NaN here.
- ParseInt: `parseInt(text)` without a radix is modelled with leading white space, an optional sign and the leading decimal digits. It does not model the "0x"/"0X" hex prefix: `parseInt("0x1F")` is 31 in JavaScript but 0 here. Calls with radix 10 (the older calculator) are modelled exactly.
- IpToInt: because of the ToNumber choice, texts such as "+1.0.0.0" or "1e2.0.0.0" are the invalid-address error here, while JavaScript reads them as 16777216 and 100.0.0.0. The same divergence reaches `rangeToCIDR` and `validateCIDR` through `ipToInt`.
  - Example: `rangeToCIDR("1e2.0.0.0", "1e2.0.0.0")` returns ["100.0.0.0/32"] in JavaScript. Here it is the invalid-address error.
- Subnets.SubnetByCount: the count is an integer. A fractional count such as 2.5 is not modelled, nor is NaN. JavaScript would run the loop while `i < 2.5` and list three subnets. The same holds for the host count of Subnets.SubnetByHosts.
- Legacy.SubnetsByCount: the count is an integer, so the `!Number.isInteger(numberOfSubnets)` rejection (cidr-calculator/utils/ipMath.ts:92) of a fractional or NaN count is not modelled; only `count <= 0` reaches the "must be a positive integer" error. Legacy.SubnetsByHosts likewise takes an integer host count and does not model the rejection at line 121.
- Strings are sequences of Unicode code points, not UTF-16 code units. This matters only for texts outside the Basic Multilingual Plane, which the calculator never accepts.
- Math.log2 and Math.ceil are modelled as the exact ceil(log2 n) on integers (`CeilLog2`). The floating-point result is assumed exact for the integer arguments that occur.
- Math.pow(2, 32 - prefix) is the exact power of two. All such values up to 2^32 are exact doubles.
- `getCidrFromRange` (cidr-calculator/utils/ipMath.ts:69-81) is left out. It is a direct call to the library's `Address4.summarize`, and the library is not part of this model.
- Legacy.Describe: `totalHosts` is taken as the library's end minus start plus one. The conversion through `bigInteger().toJSNumber()` is not modelled.
- The `ip-address` library itself: its parsing rules, its error messages, and whether its records are aligned blocks. The block-level properties assume `Legacy.Aligned` and `Legacy.DividesFully` instead.
- Error messages of thrown errors and of zod issues are left out; only the error kind is kept.
- `maskConverterSchema` (lib/validation.ts:37-40) and the enum field of `subnetSchema` are plain string membership checks with no arithmetic; `mode` is modelled as a string equal to "subnets" or "hosts".
- `z.coerce.number().int()` is modelled through `Number` as above. A fractional or exponent value text is rejected here rather than coerced.
- The API routes, React components and every other file that only calls these functions, together with I/O and rendering.

## Findings

| source | as written | input that shows it | evidently intended | confidence | as-written member | corrected member |
|---|---|---|---|---|---|---|
| utils/ipMath.ts:105 | `0xFFFFFFFF << (32 - prefix)` with prefix 0 shifts by 32, which JavaScript takes modulo 32, so the mask is all ones | `prefixToMask(0)` gives "255.255.255.255" | "0.0.0.0" | high, not executed | Masks.PrefixToMaskZero | Masks.PrefixToMaskFixed |
| utils/ipMath.ts:112-129 | `maskInt` is the signed result of `ipToInt` but `expectedMask` is unsigned, so they never compare equal. For a mask with top bit 0 the count is 0 and the expected mask is all ones (shift by 32) | `maskToPrefix("255.255.255.0")` throws "Invalid subnet mask" | 24 | high, not executed | Masks.MaskToPrefix | Masks.MaskToPrefixFixed |
| utils/ipMath.ts:188 | the same shift by 32 makes the /0 mask all ones, so network and broadcast are the address itself | `cidrToRange("10.0.0.0/0")` reports network and broadcast 10.0.0.0 with totalHosts 4294967296; `cidrToRange("0.0.0.0/0")` throws "Invalid IP integer: -1" | network 0.0.0.0, broadcast 255.255.255.255 | high, not executed | CidrRange.CidrToRangeZeroPrefix | CidrRange.CidrToRangeFixedZeroPrefix |
| utils/ipMath.ts:48 | `parts[0] << 24` is a signed 32-bit value, so every address from 128.0.0.0 on is negative, and `rangeToCIDR` compares and walks these signed values | `rangeToCIDR("192.168.1.0", "192.168.1.255")` throws "Invalid IP integer"; `rangeToCIDR("127.255.255.255", "128.0.0.0")` throws "Start IP must be less than or equal to end IP" | ["192.168.1.0/24"] and ["127.255.255.255/32", "128.0.0.0/32"] | high, not executed | RangeToCidr.RangeToCidr | RangeToCidr.RangeToCidrFixed |
| utils/ipMath.ts:283 | the network read back by `ipToInt` is negative from 128.0.0.0 on, and the first `intToIp` throws | `subnetByCount("192.168.0.0/24", 2)` throws "Invalid IP integer" | 192.168.0.0/25 and 192.168.0.128/25 | high, not executed | Subnets.SubnetByCount | Subnets.SubnetByCountFixed |
| utils/ipMath.ts:335-336 | network and broadcast read back by `ipToInt` are negative from 128.0.0.0 on, and the first `intToIp` throws | `subnetByHosts("192.168.0.0/24", 100)` throws "Invalid IP integer" | 192.168.0.0/25 and 192.168.0.128/25 | high, not executed | Subnets.SubnetByHosts | Subnets.SubnetByHostsFixed |
| utils/ipMath.ts:406-417 | the overlap start is the maximum of two signed starts, negative when both blocks lie from 128.0.0.0 on, and `intToIp` throws | `checkMultipleOverlaps(["192.168.0.0/24", "192.168.0.0/25"])` throws "Invalid IP integer" | one overlap, 192.168.0.0 - 192.168.0.127 | high, not executed | Overlaps.PairFailsWhen | Overlaps.CheckMultipleOverlapsFixed |
