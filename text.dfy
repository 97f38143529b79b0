/**
 * The string operations of the JavaScript runtime that the core relies on,
 * written out: `trim`, ASCII `toUpperCase`/`toLowerCase`, `indexOf`/`lastIndexOf`
 * of a character, `includes` of a substring, and decimal `toString` of integers.
 */
module Text {
  import opened Wrappers

  /** The characters JavaScript's `trim` removes and the regex class `\s` matches
    * (WhiteSpace and LineTerminator of ECMAScript). */
  predicate IsJsSpace(c: char) {
    || c == ' ' || c == '\t' || c == '\n' || c == '\r'
    || c == '\U{000B}' || c == '\U{000C}' || c == '\U{00A0}' || c == '\U{1680}'
    || ('\U{2000}' <= c <= '\U{200A}')
    || c == '\U{2028}' || c == '\U{2029}' || c == '\U{202F}' || c == '\U{205F}'
    || c == '\U{3000}' || c == '\U{FEFF}'
  }

  predicate AllSpace(s: string) {
    forall i :: 0 <= i < |s| ==> IsJsSpace(s[i])
  }

  /** The end of the run of whitespace that starts at `i`. */
  function SkipSpace(s: string, i: nat): (j: nat)
    requires i <= |s|
    ensures i <= j <= |s|
    ensures forall k :: i <= k < j ==> IsJsSpace(s[k])
    ensures j == |s| || !IsJsSpace(s[j])
    decreases |s| - i
  {
    if i == |s| || !IsJsSpace(s[i]) then i else SkipSpace(s, i + 1)
  }

  /** The start of the run of whitespace that ends at `hi`, not going below `lo`. */
  function SkipSpaceBack(s: string, lo: nat, hi: nat): (j: nat)
    requires lo <= hi <= |s|
    ensures lo <= j <= hi
    ensures forall k :: j <= k < hi ==> IsJsSpace(s[k])
    ensures j == lo || !IsJsSpace(s[j - 1])
    decreases hi
  {
    if hi == lo || !IsJsSpace(s[hi - 1]) then hi else SkipSpaceBack(s, lo, hi - 1)
  }

    /** A run of whitespace from `i` to `n` is skipped whole. */
  lemma {:induction false} SkipSpaceCoversRun(s: string, i: nat, n: nat)
    requires i <= n <= |s|
    requires forall k :: i <= k < n ==> IsJsSpace(s[k])
    ensures n <= SkipSpace(s, i)
    decreases n - i
  {
    if i < n {
      SkipSpaceCoversRun(s, i + 1, n);
    }
  }

/** `trimStart`: drops the longest all-space prefix. */
  function TrimStart(s: string): (r: string)
    ensures |r| <= |s| && r == s[|s| - |r|..]
    ensures forall k :: 0 <= k < |s| - |r| ==> IsJsSpace(s[k])
    ensures r == [] || !IsJsSpace(r[0])
  {
    s[SkipSpace(s, 0)..]
  }

  /** `trimEnd`: drops the longest all-space suffix. */
  function TrimEnd(s: string): (r: string)
    ensures |r| <= |s| && r == s[..|r|]
    ensures forall k :: |r| <= k < |s| ==> IsJsSpace(s[k])
    ensures r == [] || !IsJsSpace(r[|r| - 1])
  {
    s[..SkipSpaceBack(s, 0, |s|)]
  }

  /** Where `trim` starts its window: after the leading whitespace. */
  function TrimFrom(s: string): (i: nat)
    ensures i <= |s|
    ensures forall k :: 0 <= k < i ==> IsJsSpace(s[k])
    ensures i == |s| || !IsJsSpace(s[i])
  {
    SkipSpace(s, 0)
  }

  /** Where `trim` ends its window: before the trailing whitespace, and never before
    * the start of the window. */
  function TrimTo(s: string): (j: nat)
    ensures TrimFrom(s) <= j <= |s|
    ensures forall k :: j <= k < |s| ==> IsJsSpace(s[k])
    ensures j == TrimFrom(s) || !IsJsSpace(s[j - 1])
  {
    SkipSpaceBack(s, TrimFrom(s), |s|)
  }

  /** `trim`: the text between the leading and the trailing whitespace. */
  function Trim(s: string): (r: string)
  {
    s[TrimFrom(s)..TrimTo(s)]
  }

  /** `trim` is `trimStart` followed by `trimEnd`. */
  lemma TrimIsBothEnds(s: string)
    ensures Trim(s) == TrimEnd(TrimStart(s))
  {
  }

  /** The start of the closing whitespace run is the one position after which all is
    * space and before which is a non-space (or the lower bound). */
  lemma SkipSpaceBackIsUnique(s: string, lo: nat, hi: nat, p: nat)
    requires lo <= p <= hi <= |s|
    requires forall k :: p <= k < hi ==> IsJsSpace(s[k])
    requires p == lo || !IsJsSpace(s[p - 1])
    ensures SkipSpaceBack(s, lo, hi) == p
    decreases hi
  {
  }

  /** The window `trim` keeps has no space at either end. */
  lemma TrimUnpadded(s: string)
    ensures var r := Trim(s); r == [] || (!IsJsSpace(r[0]) && !IsJsSpace(r[|r| - 1]))
  {
  }

  /** Trimming twice is trimming once. */
  lemma TrimIdempotent(s: string)
    ensures Trim(Trim(s)) == Trim(s)
  {
  }

  /** `trim` gives the empty string exactly for all-space input. */
  lemma TrimEmptyIff(s: string)
    ensures Trim(s) == [] <==> AllSpace(s)
  {
  }

  function UpperChar(c: char): char {
    if 'a' <= c <= 'z' then (c as int - 32) as char else c
  }

  function LowerChar(c: char): char {
    if 'A' <= c <= 'Z' then (c as int + 32) as char else c
  }

  /** `toUpperCase`, for the ASCII letters. */
  function ToUpper(s: string): (r: string)
    ensures |r| == |s|
    ensures forall i :: 0 <= i < |s| ==> r[i] == UpperChar(s[i])
  {
    seq(|s|, i requires 0 <= i < |s| => UpperChar(s[i]))
  }

  /** `toLowerCase`, for the ASCII letters. */
  function ToLower(s: string): (r: string)
    ensures |r| == |s|
    ensures forall i :: 0 <= i < |s| ==> r[i] == LowerChar(s[i])
  {
    seq(|s|, i requires 0 <= i < |s| => LowerChar(s[i]))
  }

  /** A lower-cased string holds no upper-case ASCII letter. */
  lemma ToLowerHasNoUpper(s: string, i: int)
    requires 0 <= i < |s|
    ensures !('A' <= ToLower(s)[i] <= 'Z')
  {
  }

  /** The first position at or after `i` holding `c`. */
  function ScanForward(s: string, c: char, i: nat): (r: Option<nat>)
    requires i <= |s|
    ensures r.None? ==> forall k :: i <= k < |s| ==> s[k] != c
    ensures r.Some? ==>
      i <= r.value < |s| && s[r.value] == c && forall k :: i <= k < r.value ==> s[k] != c
    decreases |s| - i
  {
    if i == |s| then None else if s[i] == c then Some(i) else ScanForward(s, c, i + 1)
  }

  /** The last position before `hi` holding `c`. */
  function ScanBackward(s: string, c: char, hi: nat): (r: Option<nat>)
    requires hi <= |s|
    ensures r.None? ==> forall k :: 0 <= k < hi ==> s[k] != c
    ensures r.Some? ==>
      r.value < hi && s[r.value] == c && forall k :: r.value < k < hi ==> s[k] != c
    decreases hi
  {
    if hi == 0 then None else if s[hi - 1] == c then Some(hi - 1) else ScanBackward(s, c, hi - 1)
  }

  /** `indexOf` of one character: the first position holding it, if any. */
  function IndexOf(s: string, c: char): (r: Option<nat>)
  {
    ScanForward(s, c, 0)
  }

  /** `lastIndexOf` of one character: the last position holding it, if any. */
  function LastIndexOf(s: string, c: char): (r: Option<nat>)
  {
    ScanBackward(s, c, |s|)
  }

  /** `indexOf` finds `c` exactly when it occurs, and what it finds is the one
    * occurrence with none before it. */
  lemma IndexOfFirst(s: string, c: char)
    ensures IndexOf(s, c).None? <==> c !in s
    ensures forall p :: (0 <= p < |s| && s[p] == c && (forall k :: 0 <= k < p ==> s[k] != c))
                        ==> IndexOf(s, c) == Some(p)
  {
  }

  /** `lastIndexOf` finds `c` exactly when it occurs, and what it finds is the one
    * occurrence with none after it. */
  lemma LastIndexOfLast(s: string, c: char)
    ensures LastIndexOf(s, c).None? <==> c !in s
    ensures forall p :: (0 <= p < |s| && s[p] == c && (forall k :: p < k < |s| ==> s[k] != c))
                        ==> LastIndexOf(s, c) == Some(p)
  {
  }

  /** A position found in a slice, as a position of the whole string. */
  function Shift(o: Option<nat>, d: nat): Option<nat>
  {
    if o.Some? then Some(o.value + d) else None
  }

  /** When `c` occurs only inside the window `s[lo..hi]`, `indexOf` finds it where it
    * finds it in the window, moved by `lo`. */
  lemma IndexOfWindow(s: string, c: char, lo: nat, hi: nat)
    requires lo <= hi <= |s|
    requires forall k :: 0 <= k < lo ==> s[k] != c
    requires forall k :: hi <= k < |s| ==> s[k] != c
    ensures IndexOf(s, c) == Shift(IndexOf(s[lo..hi], c), lo)
  {
  }

  /** When `c` occurs only inside the window `s[lo..hi]`, `lastIndexOf` finds it where it
    * finds it in the window, moved by `lo`. */
  lemma LastIndexOfWindow(s: string, c: char, lo: nat, hi: nat)
    requires lo <= hi <= |s|
    requires forall k :: 0 <= k < lo ==> s[k] != c
    requires forall k :: hi <= k < |s| ==> s[k] != c
    ensures LastIndexOf(s, c) == Shift(LastIndexOf(s[lo..hi], c), lo)
  {
  }

  predicate OccursAt(s: string, sub: string, i: int) {
    0 <= i && i + |sub| <= |s| && s[i..i + |sub|] == sub
  }

  predicate StartsWith(s: string, prefix: string) {
    |prefix| <= |s| && s[..|prefix|] == prefix
  }

  predicate EndsWith(s: string, suffix: string) {
    |suffix| <= |s| && s[|s| - |suffix|..] == suffix
  }

  /** `includes`: a left-to-right scan for `sub`. */
  function Contains(s: string, sub: string): (r: bool)
    ensures r <==> exists i :: OccursAt(s, sub, i)
    decreases |s|
  {
    if StartsWith(s, sub) then
      assert OccursAt(s, sub, 0);
      true
    else if |s| == 0 then
      assert forall i :: !OccursAt(s, sub, i);
      false
    else
      var rest := Contains(s[1..], sub);
      if rest then
        var i :| OccursAt(s[1..], sub, i);
        assert OccursAt(s, sub, i + 1);
        true
      else
        forall i | OccursAt(s, sub, i) && i > 0 ensures false {
          assert OccursAt(s[1..], sub, i - 1);
        }
        false
  }

  predicate IsDigit(c: char) {
    '0' <= c <= '9'
  }

  predicate AllDigits(s: string) {
    forall i :: 0 <= i < |s| ==> IsDigit(s[i])
  }

  function DigitChar(d: nat): (c: char)
    requires d < 10
    ensures IsDigit(c)
  {
    (('0' as int) + d) as char
  }

  function DigitValue(c: char): nat
    requires IsDigit(c)
  {
    c as int - '0' as int
  }

  /** `Number.prototype.toString()` of a non-negative integer: its decimal digits,
    * with no leading zero. */
  function NatToDecimal(n: nat): (r: string)
    ensures |r| >= 1 && AllDigits(r)
    ensures r[0] == '0' ==> r == "0"
    decreases n
  {
    if n < 10 then [DigitChar(n)] else NatToDecimal(n / 10) + [DigitChar(n % 10)]
  }

  /** The number a string of digits denotes. */
  function DecimalValue(s: string): nat
    requires AllDigits(s)
  {
    if |s| == 0 then 0 else 10 * DecimalValue(s[..|s| - 1]) + DigitValue(s[|s| - 1])
  }

  /** Reading back the digits gives the number. */
  lemma {:induction false} DecimalRoundTrip(n: nat)
    ensures DecimalValue(NatToDecimal(n)) == n
    decreases n
  {
    var r := NatToDecimal(n);
    if n >= 10 {
      DecimalRoundTrip(n / 10);
      assert r[..|r| - 1] == NatToDecimal(n / 10);
    }
  }

  /** `toString` of any integer: a minus sign before the digits of a negative one. */
  function IntToDecimal(n: int): (r: string)
  {
    if n < 0 then "-" + NatToDecimal(-n) else NatToDecimal(n)
  }

  /** The integer a decimal string with an optional leading minus sign denotes. */
  function SignedDecimalValue(s: string): int
    requires |s| >= 1 && (s[0] == '-' || IsDigit(s[0])) && AllDigits(s[1..])
  {
    if s[0] == '-' then 0 - DecimalValue(s[1..]) as int else DecimalValue(s)
  }

  lemma {:induction false} SignedDecimalRoundTrip(n: int)
    ensures var r := IntToDecimal(n);
      |r| >= 1 && (r[0] == '-' || IsDigit(r[0])) && AllDigits(r[1..])
      && SignedDecimalValue(r) == n
  {
    var r := IntToDecimal(n);
    if n < 0 {
      var d := NatToDecimal(-n);
      assert r == "-" + d;
      assert r[1..] == d;
      DecimalRoundTrip(-n);
    } else {
      assert AllDigits(r[1..]) by {
        forall k | 0 <= k < |r| - 1 ensures IsDigit(r[1..][k]) {
          assert r[1..][k] == r[k + 1];
        }
      }
      DecimalRoundTrip(n);
    }
  }

  /** `join(sep)` of a list of strings. */
  function Join(parts: seq<string>, sep: string): string
  {
    if |parts| == 0 then ""
    else if |parts| == 1 then parts[0]
    else parts[0] + sep + Join(parts[1..], sep)
  }
}
