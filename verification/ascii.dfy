/**
 * The character operations of the .NET runtime that the modelled code relies on:
 * `char.ToUpper` / `string.ToUpper`, `StringComparison.OrdinalIgnoreCase` and
 * `string.IsNullOrWhiteSpace`. Case mapping is modelled on ASCII letters only.
 */
module Ascii {

  predicate IsLower(c: char) {
    'a' <= c <= 'z'
  }

  /** `char.ToUpper` restricted to ASCII: `a`..`z` map to `A`..`Z`, everything else is kept. */
  function ToUpperChar(c: char): (u: char)
    ensures !IsLower(u)
    ensures IsLower(c) ==> 'A' <= u <= 'Z' && u as int + 32 == c as int
    ensures !IsLower(c) ==> u == c
  {
    if IsLower(c) then (c as int - 32) as char else c
  }

  /** `string.ToUpper`: every character upper-cased, in place. */
  function ToUpper(s: string): (u: string)
    ensures |u| == |s|
    ensures forall i :: 0 <= i < |s| ==> u[i] == ToUpperChar(s[i])
  {
    if s == [] then [] else [ToUpperChar(s[0])] + ToUpper(s[1..])
  }

  /** `a.Equals(b, StringComparison.OrdinalIgnoreCase)`. */
  predicate EqualsIgnoreCase(a: string, b: string) {
    ToUpper(a) == ToUpper(b)
  }

  /** `char.IsWhiteSpace`: the Unicode separators plus the C0/C1 layout controls. */
  predicate IsWhiteSpace(c: char) {
    var n := c as int;
    (0x09 <= n <= 0x0D) || n == 0x20 || n == 0x85 || n == 0xA0 || n == 0x1680
    || (0x2000 <= n <= 0x200A) || n == 0x2028 || n == 0x2029 || n == 0x202F
    || n == 0x205F || n == 0x3000
  }

  /** `string.IsNullOrWhiteSpace` on a non-null string, scanning it from the front. */
  predicate IsNullOrWhiteSpace(s: string) {
    s == [] || (IsWhiteSpace(s[0]) && IsNullOrWhiteSpace(s[1..]))
  }

  /** A string is blank exactly when every character is white space. */
  lemma {:induction false} BlankIsAllWhiteSpace(s: string)
    ensures IsNullOrWhiteSpace(s) <==> forall i :: 0 <= i < |s| ==> IsWhiteSpace(s[i])
  {
    if s != [] {
      BlankIsAllWhiteSpace(s[1..]);
      assert forall i :: 1 <= i < |s| ==> s[i] == s[1..][i - 1];
    }
  }

  /** Upper-casing never produces a lower-case letter, so a literal holding one never equals it. */
  lemma UpperHasNoLower(s: string, i: int)
    requires 0 <= i < |s|
    ensures !IsLower(ToUpper(s)[i])
  {
  }

  /** Whether a line is blank does not depend on letter case. */
  lemma {:induction false} BlankIgnoresCase(s: string)
    ensures IsNullOrWhiteSpace(ToUpper(s)) == IsNullOrWhiteSpace(s)
  {
    if s != [] {
      BlankIgnoresCase(s[1..]);
      assert ToUpper(s)[1..] == ToUpper(s[1..]);
    }
  }

  /** Two strings are equal ignoring case exactly when they agree letter by letter after upper-casing. */
  lemma EqualsIgnoreCasePointwise(a: string, b: string)
    ensures EqualsIgnoreCase(a, b) <==>
      |a| == |b| && forall i :: 0 <= i < |a| ==> ToUpperChar(a[i]) == ToUpperChar(b[i])
  {
  }
}
