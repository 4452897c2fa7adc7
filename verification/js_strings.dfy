/** The JavaScript string operations the address code uses, on `seq<char>`:
    `split`, `join`, `trim`, `Number(s)`, `parseInt(s)`, number-to-string,
    `toString(2)`, `padStart`, `match(/.{8}/g)`, `indexOf` and the
    insertion-ordered de-duplication `[...new Set(xs)]`. */
module JsStrings {

  import opened Wrappers
  import opened JsNumbers

  // ---------------------------------------------------------------------------
  // Decimal digits

  predicate IsDigit(c: char) {
    '0' <= c <= '9'
  }

  predicate AllDigits(s: string) {
    forall i :: 0 <= i < |s| ==> IsDigit(s[i])
  }

  function DigitValue(c: char): nat
    requires IsDigit(c)
  {
    c as int - '0' as int
  }

  function DigitChar(d: nat): (c: char)
    requires d < 10
    ensures IsDigit(c) && DigitValue(c) == d
  {
    ('0' as int + d) as char
  }

  /** The value of a decimal digit string, most significant digit first. */
  function DecimalValue(s: string): nat
    requires AllDigits(s)
  {
    if |s| == 0 then 0 else 10 * DecimalValue(s[..|s| - 1]) + DigitValue(s[|s| - 1])
  }

  /** `String(n)` for a non-negative integer: shortest decimal form, no leading zero. */
  function Decimal(n: nat): (s: string)
    ensures 1 <= |s|
  {
    if n < 10 then [DigitChar(n)] else Decimal(n / 10) + [DigitChar(n % 10)]
  }

  /** The decimal text of n is a digit string that reads back as n, with a
      leading zero only for 0 itself. */
  lemma {:induction false} DecimalSpec(n: nat)
    ensures AllDigits(Decimal(n)) && DecimalValue(Decimal(n)) == n
    ensures Decimal(n)[0] == '0' ==> n == 0 && |Decimal(n)| == 1
    decreases n
  {
    if n >= 10 {
      DecimalSpec(n / 10);
      var s := Decimal(n);
      assert s[..|s| - 1] == Decimal(n / 10);
    }
  }

  lemma DecimalLength(n: nat)
    ensures n < 10 ==> |Decimal(n)| == 1
    ensures n < 100 ==> |Decimal(n)| <= 2
    ensures n < 1000 ==> |Decimal(n)| <= 3
  {
    if n >= 10 {
      DecimalLength(n / 10);
    }
  }

  /** `String(x)` for any integer. */
  function NumberToString(x: int): string
  {
    if x < 0 then "-" + Decimal(-x) else Decimal(x)
  }

  // ---------------------------------------------------------------------------
  // split / join

  /** `s.split(sep)` for a one-character separator. */
  function Split(s: string, sep: char): (parts: seq<string>)
    ensures |parts| >= 1
    ensures forall i :: 0 <= i < |parts| ==> sep !in parts[i]
    ensures Join(parts, sep) == s
    decreases |s|
  {
    if |s| == 0 then [""]
    else
      var rest := Split(s[1..], sep);
      if s[0] == sep then
        assert Join([""] + rest, sep) == [sep] + Join(rest, sep);
        [""] + rest
      else
        var parts := [[s[0]] + rest[0]] + rest[1..];
        assert Join(parts, sep) == s by {
          if |rest| > 1 {
            assert parts[1..] == rest[1..];
            assert Join(rest, sep) == rest[0] + [sep] + Join(rest[1..], sep);
          }
        }
        parts
  }

  /** `parts.join(sep)`. */
  function Join(parts: seq<string>, sep: char): string
  {
    if |parts| == 0 then ""
    else if |parts| == 1 then parts[0]
    else parts[0] + [sep] + Join(parts[1..], sep)
  }

  lemma {:induction false} SplitNoSeparator(x: string, sep: char)
    requires sep !in x
    ensures Split(x, sep) == [x]
    decreases |x|
  {
    if |x| > 0 {
      SplitNoSeparator(x[1..], sep);
    }
  }

  lemma {:induction false} SplitAtSeparator(x: string, y: string, sep: char)
    requires sep !in x
    ensures Split(x + [sep] + y, sep) == [x] + Split(y, sep)
    decreases |x|
  {
    var s := x + [sep] + y;
    if |x| == 0 {
      assert s[1..] == y;
    } else {
      assert s[1..] == x[1..] + [sep] + y;
      SplitAtSeparator(x[1..], y, sep);
      assert [x[0]] + x[1..] == x;
    }
  }

  /** Splitting a join of separator-free parts gives the parts back. */
  lemma {:induction false} SplitJoin(parts: seq<string>, sep: char)
    requires |parts| >= 1
    requires forall i :: 0 <= i < |parts| ==> sep !in parts[i]
    ensures Split(Join(parts, sep), sep) == parts
    decreases |parts|
  {
    if |parts| == 1 {
      SplitNoSeparator(parts[0], sep);
    } else {
      SplitJoin(parts[1..], sep);
      SplitAtSeparator(parts[0], Join(parts[1..], sep), sep);
    }
  }

  // ---------------------------------------------------------------------------
  // Whitespace, Number(), parseInt()

  /** WhiteSpace and LineTerminator code points, the set `trim` removes. */
  predicate IsJsSpace(c: char) {
    || c in {' ', '\t', '\n', '\r', '\U{B}', '\U{C}', '\U{A0}', '\U{1680}'}
    || c in {'\U{2028}', '\U{2029}', '\U{202F}', '\U{205F}', '\U{3000}', '\U{FEFF}'}
    || '\U{2000}' <= c <= '\U{200A}'
  }

  /** `s.trimStart()` */
  function TrimStart(s: string): (t: string)
    ensures |t| <= |s| && t == s[|s| - |t|..]
    ensures |t| > 0 ==> !IsJsSpace(t[0])
    ensures forall i :: 0 <= i < |s| - |t| ==> IsJsSpace(s[i])
  {
    if |s| > 0 && IsJsSpace(s[0]) then TrimStart(s[1..]) else s
  }

  /** `s.trimEnd()` */
  function TrimEnd(s: string): (t: string)
    ensures |t| <= |s| && t == s[..|t|]
    ensures |t| > 0 ==> !IsJsSpace(t[|t| - 1])
    ensures forall i :: |t| <= i < |s| ==> IsJsSpace(s[i])
  {
    if |s| > 0 && IsJsSpace(s[|s| - 1]) then TrimEnd(s[..|s| - 1]) else s
  }

  /** `s.trim()` */
  function Trim(s: string): string
  {
    TrimEnd(TrimStart(s))
  }

  /** `s.trim() === ''` */
  predicate IsBlank(s: string) {
    forall i :: 0 <= i < |s| ==> IsJsSpace(s[i])
  }

  lemma TrimEmptyIffBlank(s: string)
    ensures Trim(s) == "" <==> IsBlank(s)
  {
    var t := TrimStart(s);
    assert |t| > 0 ==> t[0] == s[|s| - |t|];
  }

  /** `Number(s)` on the decimal forms the model admits: surrounding whitespace
      is ignored, an empty (or blank) string is 0, a digit string is its value,
      anything else is NaN (`None`). */
  function ToNumber(s: string): Option<int>
  {
    var t := Trim(s);
    if |t| == 0 then Some(0)
    else if AllDigits(t) then Some(DecimalValue(t))
    else None
  }

  /** The longest prefix of s made of decimal digits. */
  function LeadingDigits(s: string): (d: string)
    ensures |d| <= |s| && d == s[..|d|] && AllDigits(d)
    ensures |d| < |s| ==> !IsDigit(s[|d|])
  {
    if |s| > 0 && IsDigit(s[0]) then [s[0]] + LeadingDigits(s[1..]) else ""
  }

  /** `parseInt(s)` / `parseInt(s, 10)`: leading whitespace, an optional sign,
      then the longest run of decimal digits; NaN (`None`) when there is none. */
  function ParseInt(s: string): Option<int>
  {
    var t := TrimStart(s);
    var negative := |t| > 0 && t[0] == '-';
    var body := if |t| > 0 && (t[0] == '-' || t[0] == '+') then t[1..] else t;
    var digits := LeadingDigits(body);
    var v: int := DecimalValue(digits);
    if |digits| == 0 then None
    else if negative then Some(-v)
    else Some(v)
  }

  lemma LeadingDigitsOfDigits(s: string)
    requires AllDigits(s)
    ensures LeadingDigits(s) == s
  {
    if |s| > 0 {
      LeadingDigitsOfDigits(s[1..]);
    }
  }

  lemma TrimDigits(s: string)
    requires 1 <= |s| && AllDigits(s)
    ensures TrimStart(s) == s && TrimEnd(s) == s && Trim(s) == s
  {
    assert !IsJsSpace(s[0]) && !IsJsSpace(s[|s| - 1]);
  }

  /** On a non-empty digit string both number parsers give its decimal value. */
  lemma ParseDigits(s: string)
    requires 1 <= |s| && AllDigits(s)
    ensures ParseInt(s) == Some(DecimalValue(s))
    ensures ToNumber(s) == Some(DecimalValue(s))
  {
    TrimDigits(s);
    LeadingDigitsOfDigits(s);
    assert s[0] != '-' && s[0] != '+';
  }

  // ---------------------------------------------------------------------------
  // Binary digits

  predicate IsBit(c: char) {
    c == '0' || c == '1'
  }

  predicate AllBits(s: string) {
    forall i :: 0 <= i < |s| ==> IsBit(s[i])
  }

  function BinaryValue(s: string): nat
    requires AllBits(s)
  {
    if |s| == 0 then 0 else 2 * BinaryValue(s[..|s| - 1]) + (if s[|s| - 1] == '1' then 1 else 0)
  }

  /** `n.toString(2)` for a non-negative integer. */
  function Binary(n: nat): (s: string)
    ensures 1 <= |s| && AllBits(s) && BinaryValue(s) == n
  {
    var bit := if n % 2 == 1 then '1' else '0';
    if n < 2 then [bit]
    else
      var s := Binary(n / 2) + [bit];
      assert s[..|s| - 1] == Binary(n / 2);
      s
  }

  /** `s.padStart(width, pad)` */
  function PadStart(s: string, width: nat, pad: char): (t: string)
    ensures |t| == if |s| >= width then |s| else width
  {
    if |s| >= width then s else seq(width - |s|, _ => pad) + s
  }

  lemma {:induction false} BinaryValueLeadingZeros(z: nat, s: string)
    requires AllBits(s)
    ensures AllBits(seq(z, _ => '0') + s)
    ensures BinaryValue(seq(z, _ => '0') + s) == BinaryValue(s)
    decreases |s|
  {
    var t := seq(z, _ => '0') + s;
    if |s| == 0 {
      assert t == seq(z, _ => '0');
      AllZerosValue(z);
    } else {
      assert t[..|t| - 1] == seq(z, _ => '0') + s[..|s| - 1];
      BinaryValueLeadingZeros(z, s[..|s| - 1]);
    }
  }

  lemma {:induction false} AllZerosValue(z: nat)
    ensures AllBits(seq(z, _ => '0'))
    ensures BinaryValue(seq(z, _ => '0')) == 0
  {
    if z > 0 {
      assert seq(z, _ => '0')[..z - 1] == seq(z - 1, _ => '0');
      AllZerosValue(z - 1);
    }
  }

  /** The binary form of n fits in k digits exactly when n < 2^k. */
  lemma {:induction false} BinaryLength(n: nat, k: nat)
    requires 1 <= k && n < Pow2(k)
    ensures |Binary(n)| <= k
    decreases k
  {
    if n >= 2 {
      assert k >= 2;
      BinaryLength(n / 2, k - 1);
    }
  }

  // ---------------------------------------------------------------------------
  // match(/.{8}/g)

  predicate IsLineTerminator(c: char) {
    c in {'\n', '\r', '\U{2028}', '\U{2029}'}
  }

  /** The successive non-overlapping matches of `/.{8}/g` in s (`.` matches any
      character except a line terminator). */
  function MatchEights(s: string): (m: seq<string>)
    ensures forall i :: 0 <= i < |m| ==> |m[i]| == 8
    decreases |s|
  {
    if |s| < 8 then []
    else if forall i :: 0 <= i < 8 ==> !IsLineTerminator(s[i]) then [s[..8]] + MatchEights(s[8..])
    else MatchEights(s[1..])
  }

  // ---------------------------------------------------------------------------
  // indexOf and insertion-ordered de-duplication

  /** `xs.indexOf(x)`: the first index of x, or -1. */
  function IndexOf<T(==)>(xs: seq<T>, x: T): (i: int)
    ensures -1 <= i < |xs|
    ensures i == -1 <==> x !in xs
    ensures i >= 0 ==> xs[i] == x && x !in xs[..i]
  {
    if |xs| == 0 then -1
    else if xs[0] == x then 0
    else
      var j := IndexOf(xs[1..], x);
      if j == -1 then -1
      else
        assert xs[..j + 1] == [xs[0]] + xs[1..][..j];
        j + 1
  }

  predicate NoDuplicates<T(==)>(xs: seq<T>) {
    forall i, j :: 0 <= i < j < |xs| ==> xs[i] != xs[j]
  }

  /** `[...new Set(xs)]`: every element once, in order of first occurrence. */
  function Dedupe(xs: seq<string>): (d: seq<string>)
    ensures NoDuplicates(d)
    ensures forall x :: x in d <==> x in xs
  {
    if |xs| == 0 then []
    else
      var front := Dedupe(xs[..|xs| - 1]);
      var last := xs[|xs| - 1];
      assert forall x :: x in xs <==> x in xs[..|xs| - 1] || x == last by {
        assert xs == xs[..|xs| - 1] + [last];
      }
      if last in front then front else front + [last]
  }

  /** De-duplication keeps the order of first occurrences. */
  lemma {:induction false} DedupeKeepsFirstOccurrenceOrder(xs: seq<string>)
    ensures forall i, j :: 0 <= i < j < |Dedupe(xs)| ==>
      IndexOf(xs, Dedupe(xs)[i]) < IndexOf(xs, Dedupe(xs)[j])
  {
    if |xs| > 0 {
      var init := xs[..|xs| - 1];
      var last := xs[|xs| - 1];
      assert xs == init + [last];
      DedupeKeepsFirstOccurrenceOrder(init);
      var front := Dedupe(init);
      forall y | y in init
        ensures IndexOf(xs, y) == IndexOf(init, y)
      {
        IndexOfPrefix(init, last, y);
      }
      if last in front {
        assert Dedupe(xs) == front;
      } else {
        assert Dedupe(xs) == front + [last];
        AppendedLastComesLast(xs, init, last, front);
      }
    }
  }

  /** Appending an element that first occurs at the end keeps the order. */
  lemma AppendedLastComesLast(xs: seq<string>, init: seq<string>, last: string, front: seq<string>)
    requires xs == init + [last] && last !in init
    requires forall x :: x in front ==> x in init
    requires forall y :: y in init ==> IndexOf(xs, y) == IndexOf(init, y)
    requires forall i, j :: 0 <= i < j < |front| ==> IndexOf(init, front[i]) < IndexOf(init, front[j])
    ensures forall i, j :: 0 <= i < j < |front + [last]| ==>
      IndexOf(xs, (front + [last])[i]) < IndexOf(xs, (front + [last])[j])
  {
    var d := front + [last];
    assert IndexOf(xs, last) == |xs| - 1;
    forall i, j | 0 <= i < j < |d|
      ensures IndexOf(xs, d[i]) < IndexOf(xs, d[j])
    {
      assert d[i] == front[i] && front[i] in init;
      if j < |d| - 1 {
        assert d[j] == front[j] && front[j] in init;
      }
    }
  }

  lemma IndexOfPrefix<T>(init: seq<T>, last: T, y: T)
    requires y in init
    ensures IndexOf(init + [last], y) == IndexOf(init, y)
  {
    var xs := init + [last];
    var i := IndexOf(init, y);
    assert xs[..i] == init[..i];
    IndexOfUnique(xs, y, i);
  }

  /** The first occurrence comes no later than any occurrence. */
  lemma {:induction false} IndexOfAtMost<T>(xs: seq<T>, y: T, j: nat)
    requires j < |xs| && xs[j] == y
    ensures 0 <= IndexOf(xs, y) <= j
    decreases |xs|
  {
    if xs[0] != y {
      assert xs[1..][j - 1] == y;
      IndexOfAtMost(xs[1..], y, j - 1);
    }
  }

  /** The first occurrence is the only index before which the element is absent. */
  lemma {:induction false} IndexOfUnique<T>(xs: seq<T>, y: T, i: nat)
    requires i < |xs| && xs[i] == y && y !in xs[..i]
    ensures IndexOf(xs, y) == i
    decreases |xs|
  {
    if i > 0 {
      assert xs[..i][0] == xs[0];
      assert xs[1..][..i - 1] == xs[..i][1..];
      IndexOfUnique(xs[1..], y, i - 1);
    }
  }
}
