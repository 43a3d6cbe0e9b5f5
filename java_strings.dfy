/**
 The parts of java.lang's string behaviour that the harness helpers rely on:
 String.replace, String.indexOf, String.trim, String.isBlank (through
 Character.isWhitespace) and the decimal rendering of a non-negative long.
 A Java string is modelled as a sequence of Unicode scalar values; every
 character these operations single out lies in the Basic Multilingual Plane,
 so the UTF-16 encoding Java uses internally makes no difference to them.
 */
module JavaStrings {

  /** True when `pat` occurs in `s` starting at index `i`. */
  predicate OccursAt(s: string, i: int, pat: string) {
    0 <= i && i + |pat| <= |s| && s[i..i + |pat|] == pat
  }

  /** True when `pat` occurs nowhere in `s`. */
  predicate Absent(s: string, pat: string) {
    forall i :: 0 <= i < |s| ==> !OccursAt(s, i, pat)
  }

  // ---------------------------------------------------------------------
  // String.replace(CharSequence target, CharSequence replacement)
  // ---------------------------------------------------------------------

  /**
   One left-to-right pass that replaces every non-overlapping occurrence of
   `target` by `replacement`. The text produced by a replacement is not
   scanned again, exactly as in String.replace.
   */
  function Replace(s: string, target: string, replacement: string): (r: string)
    requires |target| > 0
    ensures |replacement| <= |target| ==> |r| <= |s|
    decreases |s|
  {
    if |s| < |target| then
      s
    else if s[..|target|] == target then
      replacement + Replace(s[|target|..], target, replacement)
    else
      [s[0]] + Replace(s[1..], target, replacement)
  }

  /** One mismatching character rules out an occurrence. */
  lemma MismatchAt(s: string, i: int, pat: string, j: nat)
    requires 0 <= i && j < |pat| && i + j < |s| && s[i + j] != pat[j]
    ensures !OccursAt(s, i, pat)
  {
    if i + |pat| <= |s| {
      assert s[i..i + |pat|][j] == s[i + j];
    }
  }

  /** An occurrence of `target` in `s[1..]` is one in `s`, one place later. */
  lemma OccursAtTail(s: string, i: int, target: string)
    requires |s| > 0 && OccursAt(s[1..], i, target)
    ensures OccursAt(s, i + 1, target)
  {
    assert s[1..][i..i + |target|] == s[i + 1..i + 1 + |target|];
  }

  /** Where no occurrence starts at the front, the first character is kept. */
  lemma ReplaceKeepsFirst(s: string, target: string, replacement: string)
    requires |target| > 0 && |s| > 0 && !OccursAt(s, 0, target)
    ensures Replace(s, target, replacement) == [s[0]] + Replace(s[1..], target, replacement)
  {
    if |s| < |target| {
      assert |s[1..]| < |target|;
      assert s == [s[0]] + s[1..];
    }
  }

  /**
   A prefix in which no occurrence of `target` starts passes through a
   replacement untouched.
   */
  lemma {:induction false} ReplaceKeepsPrefix(a: string, b: string, target: string, replacement: string)
    requires |target| > 0
    requires forall i :: 0 <= i < |a| ==> !OccursAt(a + b, i, target)
    ensures Replace(a + b, target, replacement) == a + Replace(b, target, replacement)
    decreases |a|
  {
    if a == [] {
      assert a + b == b;
    } else {
      var s := a + b;
      assert s[1..] == a[1..] + b;
      forall i | 0 <= i < |a[1..]| ensures !OccursAt(a[1..] + b, i, target) {
        if OccursAt(a[1..] + b, i, target) {
          OccursAtTail(s, i, target);
        }
      }
      ReplaceKeepsPrefix(a[1..], b, target, replacement);
      ReplaceKeepsFirst(s, target, replacement);
      assert a == [a[0]] + a[1..];
    }
  }

  /** Where `target` does not occur, a replacement changes nothing. */
  lemma ReplaceAbsent(s: string, target: string, replacement: string)
    requires |target| > 0 && Absent(s, target)
    ensures Replace(s, target, replacement) == s
  {
    assert s + [] == s;
    ReplaceKeepsPrefix(s, [], target, replacement);
  }

  /** An occurrence at the very front is replaced and the scan resumes after it. */
  lemma ReplaceLeading(t: string, target: string, replacement: string)
    requires |target| > 0
    ensures Replace(target + t, target, replacement) == replacement + Replace(t, target, replacement)
  {
    assert (target + t)[..|target|] == target;
    assert (target + t)[|target|..] == t;
  }

  // ---------------------------------------------------------------------
  // String.indexOf
  // ---------------------------------------------------------------------

  /** The index of the first `c` in `s`, or -1 when there is none. */
  function IndexOf(s: string, c: char): (k: int)
    ensures -1 <= k < |s|
    ensures k == -1 <==> c !in s
    ensures 0 <= k ==> s[k] == c && c !in s[..k]
  {
    if |s| == 0 then
      -1
    else if s[0] == c then
      0
    else
      var k := IndexOf(s[1..], c);
      assert s == [s[0]] + s[1..];
      if k == -1 then -1
      else
        assert s[..k + 1] == [s[0]] + s[1..][..k];
        k + 1
  }

  // ---------------------------------------------------------------------
  // Character.isWhitespace and String.isBlank
  // ---------------------------------------------------------------------

  /**
   Character.isWhitespace: the Unicode space, line and paragraph separators
   except the three non-breaking spaces (U+00A0, U+2007, U+202F), together
   with the controls U+0009..U+000D and U+001C..U+001F.
   */
  predicate IsWhitespace(c: char) {
    || ('\t' <= c <= '\r')
    || ('\U{1C}' <= c <= '\U{1F}')
    || c == ' '
    || c == '\U{1680}'
    || ('\U{2000}' <= c <= '\U{200A}' && c != '\U{2007}')
    || c == '\U{2028}'
    || c == '\U{2029}'
    || c == '\U{205F}'
    || c == '\U{3000}'
  }

  /**
   The boundaries of Character.isWhitespace: the non-breaking spaces and the
   next-line control U+0085 are not whitespace, while the line separator
   U+2028 and the ideographic space U+3000 are. Of the characters up to
   U+0020, only the controls U+0009..U+000D and U+001C..U+001F and the space
   itself are whitespace.
   */
  lemma WhitespaceBoundaries(c: char)
    ensures !IsWhitespace('\U{85}') && !IsWhitespace('\U{A0}')
    ensures !IsWhitespace('\U{2007}') && !IsWhitespace('\U{202F}')
    ensures IsWhitespace('\U{2028}') && IsWhitespace('\U{3000}')
    ensures c <= ' ' ==> (IsWhitespace(c) <==> '\t' <= c <= '\r' || '\U{1C}' <= c <= ' ')
  {
  }

  /** String.isBlank: empty, or made only of Character.isWhitespace characters. */
  predicate IsBlank(s: string) {
    forall i :: 0 <= i < |s| ==> IsWhitespace(s[i])
  }

  // ---------------------------------------------------------------------
  // String.trim
  // ---------------------------------------------------------------------

  /** The characters String.trim removes: every code point up to U+0020. */
  predicate IsTrimmable(c: char) {
    c <= ' '
  }

  /** A string that String.trim leaves as it is. */
  predicate IsTrimmed(s: string) {
    s == [] || (!IsTrimmable(s[0]) && !IsTrimmable(s[|s| - 1]))
  }

  /** How many trimmable characters `s` starts with (trim's first loop). */
  function LeadingCount(s: string): (n: nat)
    ensures n <= |s|
    ensures forall i :: 0 <= i < n ==> IsTrimmable(s[i])
    ensures n < |s| ==> !IsTrimmable(s[n])
  {
    if |s| > 0 && IsTrimmable(s[0]) then 1 + LeadingCount(s[1..]) else 0
  }

  /** How many trimmable characters `s` ends with (trim's second loop). */
  function TrailingCount(s: string): (n: nat)
    ensures n <= |s|
    ensures forall i :: |s| - n <= i < |s| ==> IsTrimmable(s[i])
    ensures n < |s| ==> !IsTrimmable(s[|s| - 1 - n])
  {
    if |s| > 0 && IsTrimmable(s[|s| - 1]) then 1 + TrailingCount(s[..|s| - 1]) else 0
  }

  /**
   String.trim: drops the leading trimmable characters, then the trailing ones
   of what is left. The result is the slice of `s` that starts at the first
   non-trimmable character, ends at the last one, and is empty when there is
   none.
   */
  function Trim(s: string): (r: string)
    ensures IsTrimmed(r)
    ensures LeadingCount(s) + |r| <= |s|
    ensures r == s[LeadingCount(s)..LeadingCount(s) + |r|]
    ensures forall i :: LeadingCount(s) + |r| <= i < |s| ==> IsTrimmable(s[i])
  {
    var rest := s[LeadingCount(s)..];
    rest[..|rest| - TrailingCount(rest)]
  }

  /** Trimming a string that has nothing to trim changes nothing. */
  lemma TrimFixesTrimmed(s: string)
    requires IsTrimmed(s)
    ensures Trim(s) == s
  {
    assert LeadingCount(s) == 0;
    assert TrailingCount(s) == 0;
  }

  /** String.trim is idempotent. */
  lemma TrimIdempotent(s: string)
    ensures Trim(Trim(s)) == Trim(s)
  {
    TrimFixesTrimmed(Trim(s));
  }

  /**
   The two tests differ: U+0001 is no whitespace, so "\U{1}" is not blank,
   yet trim removes it; U+3000 is whitespace, so "\U{3000}" is blank, yet
   trim keeps it.
   */
  lemma BlankAndTrimDiffer()
    ensures !IsBlank("\U{1}") && Trim("\U{1}") == ""
    ensures IsBlank("\U{3000}") && Trim("\U{3000}") == "\U{3000}"
  {
    assert !IsWhitespace("\U{1}"[0]);
    TrimFixesTrimmed("\U{3000}");
  }

  // ---------------------------------------------------------------------
  // Long.toString for a non-negative value, and its inverse
  // ---------------------------------------------------------------------

  predicate IsDigit(c: char) {
    '0' <= c <= '9'
  }

  function DigitChar(d: nat): (c: char)
    requires d < 10
    ensures IsDigit(c)
  {
    ('0' as int + d) as char
  }

  function DigitValue(c: char): (d: nat)
    requires IsDigit(c)
    ensures d < 10
  {
    (c as int - '0' as int)
  }

  /** The decimal digits of `n`, without leading zeros; "0" for zero. */
  function Decimal(n: nat): (s: string)
    ensures |s| >= 1
    ensures forall i :: 0 <= i < |s| ==> IsDigit(s[i])
    ensures |s| > 1 ==> s[0] != '0'
  {
    if n < 10 then [DigitChar(n)] else Decimal(n / 10) + [DigitChar(n % 10)]
  }

  /** Reads a string of decimal digits back as a number. */
  function ParseDecimal(s: string): (n: nat)
    requires forall i :: 0 <= i < |s| ==> IsDigit(s[i])
  {
    if s == [] then 0 else 10 * ParseDecimal(s[..|s| - 1]) + DigitValue(s[|s| - 1])
  }

  /** Reading back a rendered number gives the number. */
  lemma {:induction false} DecimalRoundTrip(n: nat)
    ensures ParseDecimal(Decimal(n)) == n
  {
    var s := Decimal(n);
    if n < 10 {
      assert s[..0] == [];
    } else {
      assert s[..|s| - 1] == Decimal(n / 10);
      DecimalRoundTrip(n / 10);
    }
  }

  /** Distinct numbers are rendered as distinct strings. */
  lemma DecimalInjective(m: nat, n: nat)
    requires Decimal(m) == Decimal(n)
    ensures m == n
  {
    DecimalRoundTrip(m);
    DecimalRoundTrip(n);
  }
}
