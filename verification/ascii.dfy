/** ASCII upper-casing and case-insensitive comparison, standing in for the source's
    `strings.ToUpper` and `strings.EqualFold`. */
module Ascii {

  predicate IsLower(c: char) {
    'a' <= c <= 'z'
  }

  /** Upper-case of one character; characters other than `a`..`z` are left alone. */
  function UpperChar(c: char): char {
    if IsLower(c) then (c as int - 32) as char else c
  }

  /** `strings.ToUpper` over ASCII. */
  function Upper(s: string): (r: string)
    ensures |r| == |s|
    ensures forall i :: 0 <= i < |s| ==> r[i] == UpperChar(s[i])
    ensures forall i :: 0 <= i < |r| ==> !IsLower(r[i])
  {
    if |s| == 0 then "" else [UpperChar(s[0])] + Upper(s[1..])
  }

  /** `strings.EqualFold` over ASCII: same length, and position by position the two
      characters agree once upper-cased. Equivalently, the upper-cased strings are equal. */
  predicate EqualFold(a: string, b: string)
    ensures EqualFold(a, b) <==> Upper(a) == Upper(b)
    decreases |a|
  {
    if |a| != |b| then
      assert |Upper(a)| != |Upper(b)|;
      false
    else if |a| == 0 then
      true
    else
      assert Upper(a) == [UpperChar(a[0])] + Upper(a[1..]);
      assert Upper(b) == [UpperChar(b[0])] + Upper(b[1..]);
      assert Upper(a) == Upper(b) ==> Upper(a)[0] == Upper(b)[0] && Upper(a)[1..] == Upper(b)[1..];
      UpperChar(a[0]) == UpperChar(b[0]) && EqualFold(a[1..], b[1..])
  }

  /** Upper-casing twice changes nothing more than upper-casing once. */
  lemma UpperIdempotent(s: string)
    ensures Upper(Upper(s)) == Upper(s)
  {
    var u := Upper(s);
    assert forall i :: 0 <= i < |u| ==> UpperChar(u[i]) == u[i];
  }

  /** Every string is case-insensitively equal to itself. */
  lemma EqualFoldReflexive(s: string)
    ensures EqualFold(s, s)
  {
  }

  /** Case-insensitive equality does not depend on the order of its arguments. */
  lemma EqualFoldSymmetric(a: string, b: string)
    ensures EqualFold(a, b) <==> EqualFold(b, a)
  {
  }

  /** A string is case-insensitively equal to its own upper-case form. */
  lemma EqualFoldUpper(s: string)
    ensures EqualFold(s, Upper(s))
  {
    UpperIdempotent(s);
  }
}
