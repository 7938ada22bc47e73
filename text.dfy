/**
 * String helpers shared by every manager: the .NET string predicates the
 * source relies on (IsNullOrWhiteSpace, Trim, OrdinalIgnoreCase comparison,
 * EndsWith, Contains) and decimal formatting and parsing of integers
 * (Int32.ToString and int.TryParse).
 *
 * Case folding is ASCII only and white space is the ASCII set
 * (tab, line feed, vertical tab, form feed, carriage return, space).
 */
module Text {
  import opened Wrappers

  // ---------------------------------------------------------------------------
  // White space and blank strings
  // ---------------------------------------------------------------------------

  /** Tab, line feed, vertical tab, form feed, carriage return (9 to 13), and space. */
  predicate IsWhiteSpace(c: char) {
    ('\t' <= c <= '\r') || c == ' '
  }

  /** `string.IsWhiteSpace`-only content: the empty string is blank too. */
  predicate IsBlank(s: string) {
    forall i :: 0 <= i < |s| ==> IsWhiteSpace(s[i])
  }

  /** `string.IsNullOrWhiteSpace` */
  predicate IsNullOrWhiteSpace(s: Option<string>): (r: bool)
    ensures s.Some? && |s.value| > 0 && !IsWhiteSpace(s.value[0]) ==> !r
    ensures s.Some? && |s.value| > 0 && !IsWhiteSpace(s.value[|s.value| - 1]) ==> !r
    ensures s == Some("") ==> r
  {
    s.None? || IsBlank(s.value)
  }

  /** `string.IsNullOrEmpty` */
  predicate IsNullOrEmpty(s: Option<string>) {
    s.None? || s.value == ""
  }

  /** The first index at or after `i` that does not hold white space. */
  function SkipWhiteSpace(s: string, i: nat): (k: nat)
    requires i <= |s|
    ensures i <= k <= |s|
    ensures k == |s| || !IsWhiteSpace(s[k])
    decreases |s| - i
  {
    if i < |s| && IsWhiteSpace(s[i]) then SkipWhiteSpace(s, i + 1) else i
  }

  /** Everything `SkipWhiteSpace` passes over is white space. */
  lemma {:induction false} SkippedWhite(s: string, i: nat)
    requires i <= |s|
    ensures forall j :: i <= j < SkipWhiteSpace(s, i) ==> IsWhiteSpace(s[j])
    decreases |s| - i
  {
    if i < |s| && IsWhiteSpace(s[i]) {
      SkippedWhite(s, i + 1);
    }
  }

  /** The smallest index at or before `j` from which on up to `j` all is white space. */
  function BackOverWhiteSpace(s: string, j: nat): (k: nat)
    requires j <= |s|
    ensures k <= j
    ensures k == 0 || !IsWhiteSpace(s[k - 1])
  {
    if j > 0 && IsWhiteSpace(s[j - 1]) then BackOverWhiteSpace(s, j - 1) else j
  }

  /** Everything `BackOverWhiteSpace` passes over is white space. */
  lemma {:induction false} BackedWhite(s: string, j: nat)
    requires j <= |s|
    ensures forall m :: BackOverWhiteSpace(s, j) <= m < j ==> IsWhiteSpace(s[m])
  {
    if j > 0 && IsWhiteSpace(s[j - 1]) {
      BackedWhite(s, j - 1);
    }
  }

  /** `string.Trim()`: the text between the first and the last character
      that is not white space; empty when there is none. */
  function Trim(s: string): (r: string)
    ensures |r| <= |s|
    ensures r == [] || (!IsWhiteSpace(r[0]) && !IsWhiteSpace(r[|r| - 1]))
  {
    var lo := SkipWhiteSpace(s, 0);
    var hi := BackOverWhiteSpace(s, |s|);
    if lo < hi then s[lo..hi] else []
  }

  /** The first non-white-space index is the one every earlier index
      and no later one is white space before. */
  lemma SkipAt(s: string, k: nat)
    requires k <= |s| && (forall j :: 0 <= j < k ==> IsWhiteSpace(s[j]))
    requires k == |s| || !IsWhiteSpace(s[k])
    ensures SkipWhiteSpace(s, 0) == k
  {
    SkippedWhite(s, 0);
  }

  /** The same for the end: `k` starts the trailing white space. */
  lemma BackAt(s: string, k: nat)
    requires k <= |s| && (forall j :: k <= j < |s| ==> IsWhiteSpace(s[j]))
    requires k == 0 || !IsWhiteSpace(s[k - 1])
    ensures BackOverWhiteSpace(s, |s|) == k
  {
    BackedWhite(s, |s|);
  }

  /** `s` holds `m` at offset `d`, with only white space around it. */
  predicate PaddedAt(s: string, d: nat, m: string) {
    d + |m| <= |s| &&
    (forall i :: 0 <= i < d ==> IsWhiteSpace(s[i])) &&
    (forall i :: 0 <= i < |m| ==> s[d + i] == m[i]) &&
    (forall i :: d + |m| <= i < |s| ==> IsWhiteSpace(s[i]))
  }

  lemma PaddedStart(s: string, d: nat, m: string)
    requires PaddedAt(s, d, m) && SkipWhiteSpace(m, 0) < |m|
    ensures SkipWhiteSpace(s, 0) == d + SkipWhiteSpace(m, 0)
  {
    var lo := SkipWhiteSpace(m, 0);
    SkippedWhite(m, 0);
    forall j | d <= j < d + lo
      ensures IsWhiteSpace(s[j])
    {
      assert s[d + (j - d)] == m[j - d];
    }
    assert s[d + lo] == m[lo];
    SkipAt(s, d + lo);
  }

  lemma PaddedEnd(s: string, d: nat, m: string)
    requires PaddedAt(s, d, m) && BackOverWhiteSpace(m, |m|) > 0
    ensures BackOverWhiteSpace(s, |s|) == d + BackOverWhiteSpace(m, |m|)
  {
    var hi := BackOverWhiteSpace(m, |m|);
    BackedWhite(m, |m|);
    forall j | d + hi <= j < d + |m|
      ensures IsWhiteSpace(s[j])
    {
      assert s[d + (j - d)] == m[j - d];
    }
    assert s[d + (hi - 1)] == m[hi - 1];
    BackAt(s, d + hi);
  }

  lemma PaddedSlice(s: string, d: nat, m: string, lo: nat, hi: nat)
    requires PaddedAt(s, d, m) && lo <= hi <= |m|
    ensures s[d + lo..d + hi] == m[lo..hi]
  {
    forall i | 0 <= i < hi - lo
      ensures s[d + lo..d + hi][i] == m[lo..hi][i]
    {
      assert s[d + (lo + i)] == m[lo + i];
    }
  }

  lemma PaddedBlank(s: string, d: nat, m: string)
    requires PaddedAt(s, d, m) && IsBlank(m)
    ensures IsBlank(s)
  {
    forall j | d <= j < d + |m|
      ensures IsWhiteSpace(s[j])
    {
      assert s[d + (j - d)] == m[j - d];
    }
  }

  /** Trim in terms of the two ends, where they do not cross. */
  lemma TrimBetween(s: string, lo: nat, hi: nat)
    requires lo < hi <= |s|
    requires SkipWhiteSpace(s, 0) == lo && BackOverWhiteSpace(s, |s|) == hi
    ensures Trim(s) == s[lo..hi]
  {
  }

  lemma TrimShiftedCore(s: string, d: nat, m: string)
    requires PaddedAt(s, d, m)
    requires SkipWhiteSpace(m, 0) < BackOverWhiteSpace(m, |m|)
    ensures Trim(s) == Trim(m)
  {
    var lo := SkipWhiteSpace(m, 0);
    var hi := BackOverWhiteSpace(m, |m|);
    PaddedStart(s, d, m);
    PaddedEnd(s, d, m);
    PaddedSlice(s, d, m, lo, hi);
    TrimMoved(s, d, m, lo, hi);
  }

  /** Ends that move by `d` around the same text give the same trim. */
  lemma TrimMoved(s: string, d: nat, m: string, lo: nat, hi: nat)
    requires lo < hi <= |m| && d + |m| <= |s|
    requires SkipWhiteSpace(m, 0) == lo && BackOverWhiteSpace(m, |m|) == hi
    requires SkipWhiteSpace(s, 0) == d + lo && BackOverWhiteSpace(s, |s|) == d + hi
    requires s[d + lo..d + hi] == m[lo..hi]
    ensures Trim(s) == Trim(m)
  {
    TrimBetween(m, lo, hi);
    TrimBetween(s, d + lo, d + hi);
  }

  lemma TrimShiftedBlank(s: string, d: nat, m: string)
    requires PaddedAt(s, d, m)
    requires SkipWhiteSpace(m, 0) >= BackOverWhiteSpace(m, |m|)
    ensures Trim(s) == [] && Trim(m) == []
  {
    SkippedWhite(m, 0);
    BackedWhite(m, |m|);
    assert IsBlank(m);
    PaddedBlank(s, d, m);
    SkipAt(s, |s|);
  }

  /** Text padded with white space trims as the text itself does. */
  lemma TrimShifted(s: string, d: nat, m: string)
    requires PaddedAt(s, d, m)
    ensures Trim(s) == Trim(m)
  {
    if SkipWhiteSpace(m, 0) < BackOverWhiteSpace(m, |m|) {
      TrimShiftedCore(s, d, m);
    } else {
      TrimShiftedBlank(s, d, m);
    }
  }

  /** Blank padding on either side does not change the trimmed text. */
  lemma TrimPadded(a: string, m: string, b: string)
    requires IsBlank(a) && IsBlank(b)
    ensures Trim(a + m + b) == Trim(m)
  {
    var s := a + m + b;
    assert forall i :: 0 <= i < |a| ==> s[i] == a[i];
    assert forall i :: 0 <= i < |m| ==> s[|a| + i] == m[i];
    assert forall i :: |a| + |m| <= i < |s| ==> s[i] == b[i - |a| - |m|];
    TrimShifted(s, |a|, m);
  }

  /** A string that neither starts nor ends with white space is its own trim. */
  lemma TrimUnchanged(s: string)
    requires |s| > 0 && !IsWhiteSpace(s[0]) && !IsWhiteSpace(s[|s| - 1])
    ensures Trim(s) == s
  {
    assert SkipWhiteSpace(s, 0) == 0;
    assert BackOverWhiteSpace(s, |s|) == |s|;
    assert s[0..|s|] == s;
  }

  /** Trimming gives the unique core `r` of `s == p + r + q` with blank
      `p` and `q` and `r` neither starting nor ending with white space. */
  lemma TrimCore(s: string, p: string, r: string, q: string)
    requires s == p + r + q && IsBlank(p) && IsBlank(q)
    requires r == [] || (!IsWhiteSpace(r[0]) && !IsWhiteSpace(r[|r| - 1]))
    ensures Trim(s) == r
  {
    TrimPadded(p, r, q);
    if r != [] {
      TrimUnchanged(r);
    }
  }

  lemma SplitAround(s: string, lo: nat, hi: nat)
    requires lo < hi <= |s| && Trim(s) == s[lo..hi]
    ensures s == s[..lo] + Trim(s) + s[hi..]
    ensures Trim(s)[0] == s[lo] && Trim(s)[|Trim(s)| - 1] == s[hi - 1]
  {
    assert s == s[..lo] + s[lo..hi] + s[hi..];
  }

  /** Conversely, `s` is its trim with blank text on either side. */
  lemma TrimParts(s: string) returns (p: string, q: string)
    ensures s == p + Trim(s) + q && IsBlank(p) && IsBlank(q)
    ensures Trim(s) == [] || (!IsWhiteSpace(Trim(s)[0]) && !IsWhiteSpace(Trim(s)[|Trim(s)| - 1]))
  {
    var lo := SkipWhiteSpace(s, 0);
    var hi := BackOverWhiteSpace(s, |s|);
    SkippedWhite(s, 0);
    BackedWhite(s, |s|);
    if lo < hi {
      TrimBetween(s, lo, hi);
      SplitAround(s, lo, hi);
      p, q := s[..lo], s[hi..];
      assert forall j :: 0 <= j < |p| ==> p[j] == s[j];
      assert forall j :: 0 <= j < |q| ==> q[j] == s[hi + j];
    } else {
      assert forall j :: 0 <= j < |s| ==> IsWhiteSpace(s[j]);
      assert s + [] + [] == s;
      p, q := s, [];
    }
  }

  // ---------------------------------------------------------------------------
  // Case-insensitive comparison (StringComparison.OrdinalIgnoreCase)
  // ---------------------------------------------------------------------------

  function LowerChar(c: char): char {
    if 'A' <= c <= 'Z' then (c as int + 32) as char else c
  }

  /** `char.ToUpper` over ASCII letters. */
  function UpperChar(c: char): char {
    if 'a' <= c <= 'z' then (c as int - 32) as char else c
  }

  /** `ToLower()` over ASCII letters; every other character is kept. */
  function Lower(s: string): (r: string)
    ensures |r| == |s|
    ensures forall i :: 0 <= i < |s| ==> r[i] == LowerChar(s[i])
  {
    if s == [] then [] else [LowerChar(s[0])] + Lower(s[1..])
  }

  predicate EqualsIgnoreCase(a: string, b: string): (r: bool)
    ensures r ==> |a| == |b|
    ensures a == b ==> r
  {
    Lower(a) == Lower(b)
  }

  lemma LowerAppend(a: string, b: string)
    ensures Lower(a + b) == Lower(a) + Lower(b)
  {
    assert forall i :: 0 <= i < |a + b| ==> Lower(a + b)[i] == (Lower(a) + Lower(b))[i];
  }

  lemma LowerIdempotent(s: string)
    ensures Lower(Lower(s)) == Lower(s)
  {
    assert forall i :: 0 <= i < |s| ==> Lower(Lower(s))[i] == Lower(s)[i];
  }

  // ---------------------------------------------------------------------------
  // Substrings
  // ---------------------------------------------------------------------------

  /** `s.Contains(sub)` (ordinal). */
  predicate Contains(s: string, sub: string) {
    exists i :: 0 <= i <= |s| - |sub| && OccursAt(s, sub, i)
  }

  predicate OccursAt(s: string, sub: string, i: int)
    requires 0 <= i <= |s| - |sub|
  {
    s[i..i + |sub|] == sub
  }

  predicate EndsWith(s: string, suffix: string) {
    |suffix| <= |s| && s[|s| - |suffix|..] == suffix
  }

  /** `s.EndsWith(suffix, StringComparison.OrdinalIgnoreCase)` */
  predicate EndsWithIgnoreCase(s: string, suffix: string): (r: bool)
    ensures r ==> |suffix| <= |s|
  {
    EndsWith(Lower(s), Lower(suffix))
  }

  /** Appending a suffix makes the string end with it, in any casing. */
  lemma EndsWithAppended(s: string, suffix: string)
    ensures EndsWithIgnoreCase(s + suffix, suffix)
  {
    LowerAppend(s, suffix);
    assert Lower(s + suffix)[|s + suffix| - |suffix|..] == Lower(suffix);
  }

  /** Position of the first occurrence of `c` in `s`, if any (`IndexOf`). */
  function IndexOf(s: string, c: char): (r: Option<nat>)
    ensures r.Some? ==> r.value < |s| && s[r.value] == c && forall j :: 0 <= j < r.value ==> s[j] != c
    ensures r.None? ==> forall j :: 0 <= j < |s| ==> s[j] != c
  {
    if s == [] then None
    else if s[0] == c then Some(0)
    else match IndexOf(s[1..], c)
      case None => None
      case Some(k) => Some(k + 1)
  }

  /** The first occurrence is the one `IndexOf` finds. */
  lemma IndexOfFirst(s: string, c: char, i: nat)
    requires i < |s| && s[i] == c && forall j :: 0 <= j < i ==> s[j] != c
    ensures IndexOf(s, c) == Some(i)
  {
    var r := IndexOf(s, c);
    assert r.Some? by {
      if r.None? {
        assert false;
      }
    }
  }

  // ---------------------------------------------------------------------------
  // Decimal text of integers
  // ---------------------------------------------------------------------------

  predicate IsDigit(c: char) {
    '0' <= c <= '9'
  }

  predicate AllDigits(s: string) {
    forall i :: 0 <= i < |s| ==> IsDigit(s[i])
  }

  function DigitChar(d: nat): (c: char)
    requires d < 10
    ensures IsDigit(c)
  {
    ('0' as int + d) as char
  }

  /** The decimal text of a natural number, without leading zeros. */
  function NatToString(n: nat): (r: string)
    ensures |r| > 0 && AllDigits(r)
    decreases n
  {
    if n < 10 then [DigitChar(n)] else NatToString(n / 10) + [DigitChar(n % 10)]
  }

  /** The number a string of decimal digits denotes. */
  function DigitsValue(s: string): nat
    requires AllDigits(s)
  {
    if s == [] then 0 else DigitsValue(s[..|s| - 1]) * 10 + (s[|s| - 1] as int - '0' as int)
  }

  /** Reading back the decimal text of `n` gives `n`. */
  lemma {:induction false} DigitsRoundTrip(n: nat)
    ensures DigitsValue(NatToString(n)) == n
    decreases n
  {
    if n >= 10 {
      var s := NatToString(n);
      assert s[..|s| - 1] == NatToString(n / 10);
      DigitsRoundTrip(n / 10);
    }
  }

  /** Different numbers have different decimal texts. */
  lemma NatToStringInjective(a: nat, b: nat)
    ensures NatToString(a) == NatToString(b) ==> a == b
  {
    DigitsRoundTrip(a);
    DigitsRoundTrip(b);
  }

  /** The range of C#'s `int` (System.Int32). */
  type int32 = x: int | -0x8000_0000 <= x < 0x8000_0000

  /** Unchecked 32-bit two's-complement wrap-around of an exact sum. */
  function Wrap32(x: int): (r: int32)
    ensures -0x8000_0000 <= x < 0x8000_0000 ==> r == x
    ensures (r - x) % 0x1_0000_0000 == 0
  {
    (x + 0x8000_0000) % 0x1_0000_0000 - 0x8000_0000
  }

  /** `Int32.ToString()` */
  function IntToString(x: int): (r: string)
    ensures |r| > 0 && (r[0] == '-' <==> x < 0)
  {
    if x < 0 then "-" + NatToString(-x) else NatToString(x)
  }

  /**
   * `int.TryParse(s, out v)` with the default integer style: optional
   * surrounding white space, an optional sign, at least one decimal digit,
   * and a value within the Int32 range; anything else fails.
   */
  function ParseInt32(s: string): (r: Option<int32>)
    ensures Trim(s) == [] ==> r.None?
    ensures r.Some? && r.value < 0 ==> Trim(s)[0] == '-'
  {
    var t := Trim(s);
    if |t| == 0 then None
    else
      var digits := if t[0] == '-' || t[0] == '+' then t[1..] else t;
      if |digits| == 0 || !AllDigits(digits) then None
      else
        var v := if t[0] == '-' then -(DigitsValue(digits) as int) else DigitsValue(digits) as int;
        if -0x8000_0000 <= v < 0x8000_0000 then Some(v) else None
  }

  /** Parsing the text an Int32 formats to gives the same Int32 back. */
  lemma ParseFormatRoundTrip(x: int32)
    ensures ParseInt32(IntToString(x)) == Some(x)
  {
    var s := IntToString(x);
    var n: nat := if x < 0 then -(x as int) else x;
    var d := NatToString(n);
    DigitsRoundTrip(n);
    if x < 0 {
      assert s == "-" + d;
      assert s[1..] == d;
      assert s[|s| - 1] == d[|d| - 1];
      assert IsDigit(s[|s| - 1]);
      TrimUnchanged(s);
      assert Trim(s) == s;
      assert s[0] == '-';
    } else {
      assert s == d;
      assert IsDigit(s[0]) && IsDigit(s[|s| - 1]);
      TrimUnchanged(s);
      assert Trim(s) == s;
      assert s[0] != '-' && s[0] != '+';
    }
  }
}
