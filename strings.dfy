/** The string operations the core relies on: the character classes of JavaScript regular
    expressions (without the `u` flag), `String.prototype.toLowerCase` restricted to the
    characters that can matter here, `String.prototype.includes`, and decimal rendering of
    numbers as done by template literals and `Number.prototype.toString`. */
module Strings {

  predicate IsDigit(c: char) { '0' <= c <= '9' }
  predicate IsUpper(c: char) { 'A' <= c <= 'Z' }
  predicate IsLower(c: char) { 'a' <= c <= 'z' }

  /** `\w`. */
  predicate IsWordChar(c: char) { IsDigit(c) || IsUpper(c) || IsLower(c) || c == '_' }

  /** `\s`: the ECMAScript WhiteSpace and LineTerminator code points (among ASCII: space, and
      tab, line feed, vertical tab, form feed and carriage return, U+0009 to U+000D). */
  predicate IsSpace(c: char) {
    if c < '\U{0080}' then c == ' ' || '\t' <= c <= '\r'
    else (c == '\U{00A0}' || c == '\U{1680}' || ('\U{2000}' <= c <= '\U{200A}')
      || c == '\U{2028}' || c == '\U{2029}' || c == '\U{202F}' || c == '\U{205F}'
      || c == '\U{3000}' || c == '\U{FEFF}')
  }

  /** `\b` at position `i` (between s[i-1] and s[i]): exactly one side is a word character. */
  predicate Boundary(s: string, i: nat)
    requires i <= |s|
  {
    (i > 0 && IsWordChar(s[i - 1])) != (i < |s| && IsWordChar(s[i]))
  }

  /** Every character of s[i..j] satisfies P. */
  predicate AllBetween(s: string, i: nat, j: nat, P: char -> bool) {
    i <= j <= |s| && forall k :: i <= k < j ==> P(s[k])
  }

  /** Length of the longest run of characters satisfying P that starts at i: what a greedy
      `P*` consumes. */
  function Run(s: string, i: nat, P: char -> bool): (n: nat)
    requires i <= |s|
    ensures AllBetween(s, i, i + n, P)
    ensures i + n == |s| || !P(s[i + n])
    decreases |s| - i
  {
    if i == |s| || !P(s[i]) then 0 else 1 + Run(s, i + 1, P)
  }

  /** A run is determined by any span of P-characters that is followed by a non-P character. */
  lemma RunExact(s: string, i: nat, j: nat, P: char -> bool)
    requires AllBetween(s, i, j, P) && (j == |s| || !P(s[j]))
    ensures Run(s, i, P) == j - i
  {
  }

  /** A span of P-characters never reaches past the run that starts where it starts. */
  lemma RunCovers(s: string, i: nat, j: nat, P: char -> bool)
    requires AllBetween(s, i, j, P)
    ensures j <= i + Run(s, i, P)
  {
  }

  /** The lower-case mapping of `toLowerCase` for the characters whose lower-case form is
      ASCII: A-Z and U+212A KELVIN SIGN. Every other character is left as it is. */
  function LowerChar(c: char): (d: char)
    ensures IsUpper(c) ==> IsLower(d) && d as int == c as int + 32
    ensures c == '\U{212A}' ==> d == 'k'
    ensures !IsUpper(c) && c != '\U{212A}' ==> d == c
  {
    if IsUpper(c) then (c as int + 32) as char
    else if c == '\U{212A}' then 'k'
    else c
  }

  function ToLower(s: string): (r: string)
    ensures |r| == |s| && forall i :: 0 <= i < |s| ==> r[i] == LowerChar(s[i])
  {
    seq(|s|, i requires 0 <= i < |s| => LowerChar(s[i]))
  }

  /** The canonical form used by a regular expression with the `i` flag and without `u`:
      only ASCII letters are folded, since non-ASCII characters are never folded to ASCII. */
  function FoldChar(c: char): char {
    if IsUpper(c) then (c as int + 32) as char else c
  }

  predicate IsLowerCase(s: string) {
    forall i :: 0 <= i < |s| ==> !IsUpper(s[i]) && s[i] != '\U{212A}'
  }

  /** Lower-casing leaves a string with no upper-case letter unchanged. */
  lemma LowerCaseFixed(s: string)
    requires IsLowerCase(s)
    ensures ToLower(s) == s
  {
  }

  /** `t` occurs in `s` at index `i`. */
  ghost predicate OccursAt(s: string, t: string, i: nat) {
    i + |t| <= |s| && s[i..i + |t|] == t
  }

  /** `s.includes(t)`. */
  function Includes(s: string, t: string): (b: bool)
    ensures b <==> exists i: nat :: OccursAt(s, t, i)
    decreases |s|
  {
    if |t| > |s| then false
    else if s[..|t|] == t then assert OccursAt(s, t, 0); true
    else
      var b := Includes(s[1..], t);
      assert forall i: nat :: OccursAt(s[1..], t, i) <==> OccursAt(s, t, i + 1) by {
        forall i: nat ensures OccursAt(s[1..], t, i) <==> OccursAt(s, t, i + 1) {
          if i + |t| <= |s[1..]| { assert s[1..][i..i + |t|] == s[i + 1..i + 1 + |t|]; }
        }
      }
      assert !OccursAt(s, t, 0);
      assert (exists i: nat :: OccursAt(s, t, i)) ==> exists i: nat :: OccursAt(s[1..], t, i) by {
        if exists i: nat :: OccursAt(s, t, i) {
          var i: nat :| OccursAt(s, t, i);
          assert i > 0;
          assert OccursAt(s[1..], t, i - 1);
        }
      }
      b
  }

  function DigitChar(d: nat): (c: char)
    requires d < 10
    ensures IsDigit(c)
  {
    ('0' as int + d) as char
  }

  function DigitValue(c: char): (d: nat)
    requires IsDigit(c)
    ensures d < 10 && DigitChar(d) == c
  {
    c as int - '0' as int
  }

  predicate AllDigits(s: string) {
    forall i :: 0 <= i < |s| ==> IsDigit(s[i])
  }

  /** Decimal rendering of a natural number, as in `${n}`: no leading zero. */
  function NatToDecimal(n: nat): (r: string)
    ensures |r| >= 1 && AllDigits(r)
    ensures |r| > 1 ==> r[0] != '0'
  {
    if n < 10 then [DigitChar(n)] else NatToDecimal(n / 10) + [DigitChar(n % 10)]
  }

  /** `Number.prototype.toString` for an integer. */
  function IntToDecimal(i: int): (r: string)
    ensures |r| >= 1
    ensures i >= 0 <==> AllDigits(r)
  {
    if i < 0 then
      var r := "-" + NatToDecimal(-i);
      assert !IsDigit(r[0]);
      r
    else NatToDecimal(i)
  }

  /** The value of a string of decimal digits: the inverse of NatToDecimal. */
  function DecimalValue(s: string): nat
    requires AllDigits(s)
  {
    if s == [] then 0 else DecimalValue(s[..|s| - 1]) * 10 + DigitValue(s[|s| - 1])
  }

  lemma {:induction false} DecimalRoundTrip(n: nat)
    ensures DecimalValue(NatToDecimal(n)) == n
  {
    if n >= 10 {
      var r := NatToDecimal(n);
      assert r[..|r| - 1] == NatToDecimal(n / 10);
      DecimalRoundTrip(n / 10);
    }
  }

  /** Decimal rendering is injective. */
  lemma NatToDecimalInjective(m: nat, n: nat)
    requires NatToDecimal(m) == NatToDecimal(n)
    ensures m == n
  {
    DecimalRoundTrip(m);
    DecimalRoundTrip(n);
  }
}
