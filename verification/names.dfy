/**
 * Raster names: decimal rendering of species codes, the species-code parse
 * `int(name.split('_')[0][1:])` every stage applies to a raster name, and the
 * facts that make derived output names keep their species code.
 */
module Names {
  import opened Wrappers

  // ------------------------------------------------------------ decimal digits

  predicate IsDigit(c: char) {
    '0' <= c <= '9'
  }

  predicate AllDigits(s: string) {
    forall i :: 0 <= i < |s| ==> IsDigit(s[i])
  }

  function DigitValue(c: char): nat
    requires IsDigit(c)
  {
    (c as int) - ('0' as int)
  }

  function DigitChar(d: nat): (c: char)
    requires d < 10
    ensures IsDigit(c) && DigitValue(c) == d
  {
    (('0' as int) + d) as char
  }

  /** The number a string of decimal digits denotes, most significant digit first. */
  function DigitsValue(s: string): nat
    requires AllDigits(s)
    decreases |s|
  {
    if s == [] then 0 else DigitsValue(s[..|s| - 1]) * 10 + DigitValue(s[|s| - 1])
  }

  /** Python's `str(n)` for a non-negative integer. */
  function ShowNat(n: nat): (s: string)
    ensures |s| > 0 && AllDigits(s)
    ensures DigitsValue(s) == n
    decreases n
  {
    if n < 10 then [DigitChar(n)]
    else
      var front := ShowNat(n / 10);
      var s := front + [DigitChar(n % 10)];
      assert s[..|s| - 1] == front;
      s
  }

  /**
   * Python's `int(s)` on a string without surrounding blanks: an optional sign
   * followed by at least one decimal digit; anything else raises, here `None`.
   */
  function ParseInt(s: string): (r: Option<int>)
    ensures r.Some? <==> |s| > 0 && (AllDigits(s) || ((s[0] == '-' || s[0] == '+') && |s| > 1 && AllDigits(s[1..])))
    ensures |s| > 0 && AllDigits(s) ==> r == Some(DigitsValue(s))
    ensures r.Some? ==> (r.value < 0 ==> s[0] == '-')
    ensures |s| > 1 && s[0] == '+' && IsDigit(s[1]) ==> r == ParseInt(s[1..])
    ensures |s| > 1 && s[0] == '-' && IsDigit(s[1]) ==>
      r.Some? == ParseInt(s[1..]).Some? && (r.Some? ==> r.value == 0 - ParseInt(s[1..]).value)
  {
    if |s| > 0 && (s[0] == '-' || s[0] == '+') then
      var digits := s[1..];
      if |digits| > 0 && AllDigits(digits) then
        Some(if s[0] == '-' then 0 - DigitsValue(digits) as int else DigitsValue(digits))
      else None
    else if |s| > 0 && AllDigits(s) then Some(DigitsValue(s))
    else None
  }

  /** A leading zero does not change the number: `int("007") == int("7")`. */
  lemma {:induction false} LeadingZeroIgnored(s: string)
    requires AllDigits(s)
    ensures AllDigits("0" + s) && DigitsValue("0" + s) == DigitsValue(s)
    decreases |s|
  {
    var t := "0" + s;
    assert AllDigits(t) by {
      forall i | 0 <= i < |t|
        ensures IsDigit(t[i])
      {
        if i > 0 { assert t[i] == s[i - 1]; }
      }
    }
    if s != [] {
      assert t[..|t| - 1] == "0" + s[..|s| - 1];
      LeadingZeroIgnored(s[..|s| - 1]);
    }
  }

  lemma ParseLeadingZero(s: string)
    requires |s| > 0 && AllDigits(s)
    ensures ParseInt("0" + s) == ParseInt(s)
  {
    LeadingZeroIgnored(s);
  }

  lemma ParseShow(n: nat)
    ensures ParseInt(ShowNat(n)) == Some(n)
  {
    var s := ShowNat(n);
    assert IsDigit(s[0]);
  }

  // ---------------------------------------------------------- name suffixes

  /** Two names built with the same suffix are equal only if their stems are. */
  lemma SuffixCancel(a: string, b: string, x: string)
    requires a + x == b + x
    ensures a == b
  {
    assert a == (a + x)[..|a|];
    assert b == (b + x)[..|b|];
  }

  /** Equal names agree on their `n`-th character from the end. */
  lemma EndChar(a: string, x: string, b: string, y: string, n: int)
    requires a + x == b + y && 0 < n <= |x| && n <= |y|
    ensures x[|x| - n] == y[|y| - n]
  {
    assert (a + x)[|a + x| - n] == x[|x| - n];
    assert (b + y)[|b + y| - n] == y[|y| - n];
  }

  // ------------------------------------------------------- splitting on '_'

  /** `s.split('_')[0]`: the longest prefix of `s` free of underscores. */
  function FirstToken(s: string): (t: string)
    ensures '_' !in t
    ensures t <= s
    ensures t == s || (|t| < |s| && s[|t|] == '_')
    decreases |s|
  {
    if s == [] then []
    else if s[0] == '_' then []
    else [s[0]] + FirstToken(s[1..])
  }

  /** `t[1:]`: everything after the first character (empty stays empty). */
  function DropFirst(t: string): string {
    if t == [] then [] else t[1..]
  }

  /** `int(name.split('_')[0][1:])`, `None` where Python raises. */
  function SpeciesCode(name: string): Option<int> {
    ParseInt(DropFirst(FirstToken(name)))
  }

  /** The raster name of a species, `'s' + str(code)`. */
  function SpeciesName(code: nat): string {
    "s" + ShowNat(code)
  }

  lemma {:induction false} FirstTokenWhole(s: string)
    requires '_' !in s
    ensures FirstToken(s) == s
    decreases |s|
  {
    if s != [] {
      FirstTokenWhole(s[1..]);
    }
  }

  /** Appending a suffix that starts with '_' does not change the first token. */
  lemma {:induction false} FirstTokenAppend(s: string, suffix: string)
    requires suffix != [] && suffix[0] == '_'
    ensures FirstToken(s + suffix) == FirstToken(s)
    decreases |s|
  {
    if s == [] {
      assert s + suffix == suffix;
    } else if s[0] != '_' {
      assert (s + suffix)[1..] == s[1..] + suffix;
      FirstTokenAppend(s[1..], suffix);
    }
  }

  /** A derived name `<name>_<anything>` carries the same species code as `<name>`. */
  lemma SpeciesCodeKeptBySuffix(name: string, suffix: string)
    requires suffix != [] && suffix[0] == '_'
    ensures SpeciesCode(name + suffix) == SpeciesCode(name)
  {
    FirstTokenAppend(name, suffix);
  }

  /** The code parsed back from `s<code>` or `s<code>_<anything>` is `code`. */
  lemma SpeciesCodeOfName(code: nat, suffix: string)
    requires suffix == [] || suffix[0] == '_'
    ensures SpeciesCode(SpeciesName(code) + suffix) == Some(code)
  {
    var name := SpeciesName(code);
    FirstTokenWhole(name);
    if suffix != [] {
      FirstTokenAppend(name, suffix);
    } else {
      assert name + suffix == name;
    }
    assert DropFirst(name) == ShowNat(code);
    ParseShow(code);
  }

  /** Distinct species codes give distinct species raster names. */
  lemma SpeciesNameInjective(a: nat, b: nat)
    requires SpeciesName(a) == SpeciesName(b)
    ensures a == b
  {
    SpeciesCodeOfName(a, []);
    SpeciesCodeOfName(b, []);
    assert SpeciesName(a) + [] == SpeciesName(a);
    assert SpeciesName(b) + [] == SpeciesName(b);
  }
}
