/** The Python string built-ins the program relies on, restricted to ASCII:
    `str.lower()`, `str.capitalize()`, the `\w` character class of `re`, and
    the decimal rendering of a positive integer in an f-string. */
module Text {

  predicate IsLowerLetter(c: char) { 'a' <= c <= 'z' }

  predicate IsUpperLetter(c: char) { 'A' <= c <= 'Z' }

  predicate IsDigit(c: char) { '0' <= c <= '9' }

  /** The `\w` class: letters, digits and the underscore. */
  predicate IsWordChar(c: char) {
    IsLowerLetter(c) || IsUpperLetter(c) || IsDigit(c) || c == '_'
  }

  /** Every character of `s` is one of `a`-`z`. */
  predicate AllLower(s: string) {
    forall k :: 0 <= k < |s| ==> IsLowerLetter(s[k])
  }

  /** `w` occurs in `s` starting at position `i`. */
  predicate OccursAt(s: string, w: string, i: int) {
    0 <= i && i + |w| <= |s| && s[i..i + |w|] == w
  }

  /** `w in s` for strings. */
  ghost predicate Contains(s: string, w: string) {
    exists i :: OccursAt(s, w, i)
  }

  lemma ConcatAssoc<T>(a: seq<T>, b: seq<T>, c: seq<T>)
    ensures a + (b + c) == (a + b) + c
  {
  }

  /** Extending a prefix of `s` by one element. */
  lemma PrefixStep<T>(a: seq<T>, s: seq<T>, k: int)
    requires 0 <= k < |s|
    ensures a + s[..k + 1] == (a + s[..k]) + [s[k]]
  {
    assert s[..k + 1] == s[..k] + [s[k]];
  }

  /** `s` around its element at `i`. */
  lemma SplitAround<T>(s: seq<T>, i: int)
    requires 0 <= i < |s|
    ensures s[..i + 1] == s[..i] + [s[i]]
    ensures s == s[..i + 1] + s[i + 1..]
  {
    assert s[..i + 1] == s[..i] + [s[i]];
    assert s == s[..i + 1] + s[i + 1..];
  }

  lemma OccursInMiddle(a: string, w: string, c: string)
    ensures OccursAt(a + w + c, w, |a|)
  {
    assert (a + w + c)[|a|..|a| + |w|] == w;
  }

  function LowerChar(c: char): (r: char)
    ensures IsUpperLetter(c) ==> IsLowerLetter(r)
    ensures !IsUpperLetter(c) ==> r == c
  {
    if IsUpperLetter(c) then (c as int - 'A' as int + 'a' as int) as char else c
  }

  function UpperChar(c: char): (r: char)
    ensures IsLowerLetter(c) ==> IsUpperLetter(r) && LowerChar(r) == c
    ensures !IsLowerLetter(c) ==> r == c
  {
    if IsLowerLetter(c) then (c as int - 'a' as int + 'A' as int) as char else c
  }

  /** `str.lower()`: upper-case ASCII letters become lower case, nothing else changes. */
  function Lower(s: string): (r: string)
    ensures |r| == |s|
    ensures forall k :: 0 <= k < |s| ==> r[k] == LowerChar(s[k])
  {
    seq(|s|, k requires 0 <= k < |s| => LowerChar(s[k]))
  }

  /** `str.capitalize()`: the first character in upper case, the rest in lower case. */
  function Capitalize(s: string): string
  {
    if s == [] then [] else [UpperChar(s[0])] + Lower(s[1..])
  }

  /** On a lower-case word, `capitalize()` upper-cases the first letter, leaves
      the remaining letters as they are, and `lower()` undoes it. */
  lemma CapitalizeLowerWord(w: string)
    requires w != [] && AllLower(w)
    ensures |Capitalize(w)| == |w|
    ensures IsUpperLetter(Capitalize(w)[0]) && LowerChar(Capitalize(w)[0]) == w[0]
    ensures Capitalize(w)[1..] == w[1..]
    ensures Lower(Capitalize(w)) == w
  {
    var r := Capitalize(w);
    assert r[1..] == Lower(w[1..]);
    assert Lower(w[1..]) == w[1..];
    assert Lower(r)[0] == w[0];
    forall k | 1 <= k < |w| ensures Lower(r)[k] == w[k] {
      assert r[k] == w[k];
    }
  }

  function DigitChar(d: nat): (c: char)
    requires d < 10
    ensures IsDigit(c)
  {
    ('0' as int + d) as char
  }

  function DigitValue(c: char): (d: nat)
    requires IsDigit(c)
    ensures d < 10 && DigitChar(d) == c
  {
    c as int - '0' as int
  }

  predicate AllDigits(s: string) {
    forall k :: 0 <= k < |s| ==> IsDigit(s[k])
  }

  /** `str(n)` for a natural number: decimal digits, no leading zero. */
  function Decimal(n: nat): (r: string)
    ensures r != [] && AllDigits(r)
    ensures n > 0 ==> r[0] != '0'
    decreases n
  {
    if n < 10 then [DigitChar(n)] else Decimal(n / 10) + [DigitChar(n % 10)]
  }

  /** Reads a run of decimal digits back as a number. */
  function ParseDecimal(s: string): nat
    requires AllDigits(s)
    decreases |s|
  {
    if s == [] then 0
    else ParseDecimal(s[..|s| - 1]) * 10 + DigitValue(s[|s| - 1])
  }

  /** The decimal rendering of a number reads back as that number. */
  lemma {:induction false} DecimalRoundTrip(n: nat)
    ensures ParseDecimal(Decimal(n)) == n
    decreases n
  {
    var r := Decimal(n);
    if n < 10 {
      assert r[..0] == [];
    } else {
      DecimalRoundTrip(n / 10);
      assert r[..|r| - 1] == Decimal(n / 10);
    }
  }

  /** Different numbers get different renderings. */
  lemma DecimalInjective(m: nat, n: nat)
    requires Decimal(m) == Decimal(n)
    ensures m == n
  {
    DecimalRoundTrip(m);
    DecimalRoundTrip(n);
  }

  /** The longest prefix of `s` made of decimal digits. */
  function LeadingDigits(s: string): (r: string)
    ensures AllDigits(r) && |r| <= |s| && r == s[..|r|]
    ensures |r| < |s| ==> !IsDigit(s[|r|])
    decreases |s|
  {
    if s != [] && IsDigit(s[0]) then [s[0]] + LeadingDigits(s[1..]) else []
  }

  /** A number rendered in front of a non-digit is recovered by reading the leading digits. */
  lemma {:induction false} LeadingDigitsOfDecimal(n: nat, rest: string)
    requires rest != [] && !IsDigit(rest[0])
    ensures LeadingDigits(Decimal(n) + rest) == Decimal(n)
    ensures ParseDecimal(LeadingDigits(Decimal(n) + rest)) == n
  {
    LeadingDigitsOfDigits(Decimal(n), rest);
    DecimalRoundTrip(n);
  }

  lemma {:induction false} LeadingDigitsOfDigits(d: string, rest: string)
    requires AllDigits(d) && rest != [] && !IsDigit(rest[0])
    ensures LeadingDigits(d + rest) == d
    decreases |d|
  {
    if d == [] {
      assert d + rest == rest;
    } else {
      assert (d + rest)[1..] == d[1..] + rest;
      LeadingDigitsOfDigits(d[1..], rest);
    }
  }
}
