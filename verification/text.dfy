/**
  Case-insensitive string comparison, as `String.equalsIgnoreCase` does it
  for ASCII text.
 */
module Text {

  /** Upper-case an ASCII letter; every other character is left alone. */
  function ToUpper(c: char): (u: char)
    ensures 'a' <= c <= 'z' ==> 'A' <= u <= 'Z' && u as int == c as int - 32
    ensures !('a' <= c <= 'z') ==> u == c
  {
    if 'a' <= c <= 'z' then (c as int - 32) as char else c
  }

  /** `a.equalsIgnoreCase(b)`: same length, and equal character by character after folding. */
  predicate EqualsIgnoreCase(a: string, b: string)
  {
    if |a| != |b| then false
    else if |a| == 0 then true
    else ToUpper(a[0]) == ToUpper(b[0]) && EqualsIgnoreCase(a[1..], b[1..])
  }

  /** The recursive comparison agrees with the pointwise definition. */
  lemma {:induction false} EqualsIgnoreCasePointwise(a: string, b: string)
    ensures EqualsIgnoreCase(a, b) <==>
      |a| == |b| && forall k :: 0 <= k < |a| ==> ToUpper(a[k]) == ToUpper(b[k])
    decreases |a|
  {
    if |a| == |b| && |a| > 0 {
      EqualsIgnoreCasePointwise(a[1..], b[1..]);
      assert forall k :: 1 <= k < |a| ==> a[1..][k - 1] == a[k] && b[1..][k - 1] == b[k];
    }
  }

  lemma EqualsIgnoreCaseReflexive(a: string)
    ensures EqualsIgnoreCase(a, a)
  {
    EqualsIgnoreCasePointwise(a, a);
  }

  lemma EqualsIgnoreCaseSymmetric(a: string, b: string)
    ensures EqualsIgnoreCase(a, b) ==> EqualsIgnoreCase(b, a)
  {
    EqualsIgnoreCasePointwise(a, b);
    EqualsIgnoreCasePointwise(b, a);
  }

  lemma EqualsIgnoreCaseTransitive(a: string, b: string, c: string)
    ensures EqualsIgnoreCase(a, b) && EqualsIgnoreCase(b, c) ==> EqualsIgnoreCase(a, c)
  {
    EqualsIgnoreCasePointwise(a, b);
    EqualsIgnoreCasePointwise(b, c);
    EqualsIgnoreCasePointwise(a, c);
  }
}
