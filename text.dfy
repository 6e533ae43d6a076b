/**
 * Character classes and the few Python string operations that both scripts
 * rely on: `str.strip()`, `str.endswith`, the leading digit run that `^\d+`
 * matches, `rsplit('.md', 1)[0]` and `str(n)` for a counter.
 */
module Text {

  /** An ASCII decimal digit (what `\d` matches in the file names modelled here). */
  predicate IsDigit(c: char) {
    '0' <= c <= '9'
  }

  /** The class `[a-zA-Z]`. */
  predicate IsAsciiLetter(c: char) {
    'a' <= c <= 'z' || 'A' <= c <= 'Z'
  }

  /** The characters Python's `str.strip()` removes (Python's whitespace set, by code point). */
  predicate IsSpace(c: char) {
    var n := c as int;
    (9 <= n <= 13) || (0x1C <= n <= 0x20) || n == 0x85 || n == 0xA0 || n == 0x1680
    || (0x2000 <= n <= 0x200A) || n == 0x2028 || n == 0x2029 || n == 0x202F
    || n == 0x205F || n == 0x3000
  }

  predicate AllDigits(s: string) {
    forall i :: 0 <= i < |s| ==> IsDigit(s[i])
  }

  predicate AllSpace(s: string) {
    forall i :: 0 <= i < |s| ==> IsSpace(s[i])
  }

  /** `s.endswith(suffix)` */
  predicate EndsWith(s: string, suffix: string) {
    |suffix| <= |s| && s[|s| - |suffix|..] == suffix
  }

  /** `s.lstrip()` with no argument: drops the longest all-whitespace prefix. */
  function LStripSpace(s: string): (r: string)
    ensures |r| <= |s| && r == s[|s| - |r|..]
    ensures AllSpace(s[..|s| - |r|])
    ensures r != [] ==> !IsSpace(r[0])
  {
    if s != [] && IsSpace(s[0]) then LStripSpace(s[1..]) else s
  }

  /** `s.rstrip()` with no argument: drops the longest all-whitespace suffix. */
  function RStripSpace(s: string): (r: string)
    ensures |r| <= |s| && r == s[..|r|]
    ensures AllSpace(s[|r|..])
    ensures r != [] ==> !IsSpace(r[|r| - 1])
  {
    if s != [] && IsSpace(s[|s| - 1]) then RStripSpace(s[..|s| - 1]) else s
  }

  /** `s.strip()` */
  function Strip(s: string): (r: string)
    ensures |r| <= |s|
    ensures r != [] ==> !IsSpace(r[0]) && !IsSpace(r[|r| - 1])
  {
    RStripSpace(LStripSpace(s))
  }

  /** A string strips to nothing exactly when every character of it is whitespace. */
  lemma StripEmptyIffAllSpace(s: string)
    ensures Strip(s) == [] <==> AllSpace(s)
  {
    var l := LStripSpace(s);
    if l == [] {
      assert s[..|s|] == s;
    } else {
      // the first character lstrip keeps is not whitespace, and rstrip keeps it too
      assert l[0] == s[|s| - |l|];
      assert RStripSpace(l) != [] by {
        assert l[0..][0] == l[0];
      }
    }
  }

  /** The run of digits `^(\d+)` captures; empty when the string does not start with a digit. */
  function LeadingDigits(s: string): (r: string)
    ensures r <= s && AllDigits(r)
    ensures |r| < |s| ==> !IsDigit(s[|r|])
  {
    if s != [] && IsDigit(s[0]) then [s[0]] + LeadingDigits(s[1..]) else []
  }

  /** The digit run of `d + x` is `d` when `x` does not go on with a digit. */
  lemma {:induction false} LeadingDigitsOfPrefixed(d: string, x: string)
    requires AllDigits(d)
    requires x == [] || !IsDigit(x[0])
    ensures LeadingDigits(d + x) == d
  {
    if d != [] {
      assert (d + x)[1..] == d[1..] + x;
      LeadingDigitsOfPrefixed(d[1..], x);
    } else {
      assert d + x == x;
    }
  }

  /** ".md" occurs in `s` starting at index `q`. */
  predicate MdAt(s: string, q: nat) {
    q + 3 <= |s| && s[q..q + 3] == ".md"
  }

  /**
   * The start of the last occurrence of ".md" that ends at or before `e`,
   * scanning leftwards as `rsplit` does.
   */
  function LastMdAt(s: string, e: nat): (r: Option<nat>)
    requires e <= |s|
    ensures r.Some? ==> r.value + 3 <= e && MdAt(s, r.value)
    ensures r.Some? ==> forall q: nat :: r.value < q && q + 3 <= e ==> !MdAt(s, q)
    ensures r.None? ==> forall q: nat :: q + 3 <= e ==> !MdAt(s, q)
    decreases e
  {
    if e < 3 then None
    else if MdAt(s, e - 3) then Some(e - 3)
    else LastMdAt(s, e - 1)
  }

  /** `s.rsplit('.md', 1)[0]`: everything before the last ".md", or all of `s` when there is none. */
  function BeforeLastMd(s: string): (r: string)
    ensures r <= s
  {
    match LastMdAt(s, |s|)
    case None => s
    case Some(p) => s[..p]
  }

  /** On a name that ends in ".md", `rsplit('.md', 1)[0]` drops exactly that final extension. */
  lemma BeforeLastMdOfSuffixed(s: string)
    ensures BeforeLastMd(s + ".md") == s
  {
    var t := s + ".md";
    assert t[|t| - 3..|t|] == ".md";
    assert t[..|s|] == s;
  }

  /** A string without ".md" is left whole. */
  lemma BeforeLastMdWithoutMd(s: string)
    requires forall q: nat :: !MdAt(s, q)
    ensures BeforeLastMd(s) == s
  {
  }

  datatype Option<T> = None | Some(value: T)

  function DigitChar(d: nat): (c: char)
    requires d < 10
    ensures IsDigit(c) && DigitValue(c) == d
  {
    (48 + d) as char
  }

  function DigitValue(c: char): nat
    requires IsDigit(c)
  {
    c as int - 48
  }

  /** `str(n)` for a natural number: its decimal digits, most significant first. */
  function DecimalString(n: nat): (r: string)
    ensures |r| >= 1 && AllDigits(r)
    decreases n
  {
    if n < 10 then [DigitChar(n)] else DecimalString(n / 10) + [DigitChar(n % 10)]
  }

  /** The number a string of decimal digits denotes (`int(s)`). */
  function DecimalValue(s: string): nat
    requires AllDigits(s)
  {
    if s == [] then 0 else DecimalValue(s[..|s| - 1]) * 10 + DigitValue(s[|s| - 1])
  }

  /** Reading back the decimal string of `n` gives `n`. */
  lemma {:induction false} DecimalRoundTrip(n: nat)
    ensures DecimalValue(DecimalString(n)) == n
    decreases n
  {
    var s := DecimalString(n);
    if n < 10 {
      assert s[..0] == [];
    } else {
      assert s[..|s| - 1] == DecimalString(n / 10);
      DecimalRoundTrip(n / 10);
    }
  }

  /** Distinct numbers have distinct decimal strings. */
  lemma DecimalStringInjective(a: nat, b: nat)
    requires DecimalString(a) == DecimalString(b)
    ensures a == b
  {
    DecimalRoundTrip(a);
    DecimalRoundTrip(b);
  }
}
