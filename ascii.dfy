/**
 * Upper-casing of identifiers, as `str::to_uppercase` does it for the ASCII
 * letters that asset ids are made of.
 */
module Ascii {

  predicate IsLower(c: char) { 'a' <= c <= 'z' }

  /** `c` upper-cased: a lower-case letter moves to its capital, anything else stays. */
  function UpperChar(c: char): (u: char)
    ensures !IsLower(u)
    ensures IsLower(c) ==> u as int == c as int - 32
    ensures !IsLower(c) ==> u == c
  {
    if IsLower(c) then (c as int - 32) as char else c
  }

  /** A string with no lower-case letter. */
  predicate IsUpperCase(s: string) {
    forall i :: 0 <= i < |s| ==> !IsLower(s[i])
  }

  /** `s.to_uppercase()`: every character upper-cased, in place. */
  function Upper(s: string): (r: string)
    ensures |r| == |s|
    ensures forall i :: 0 <= i < |s| ==> r[i] == UpperChar(s[i])
    ensures IsUpperCase(r)
  {
    if s == [] then [] else [UpperChar(s[0])] + Upper(s[1..])
  }
}
