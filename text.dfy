/** Cutting a string at the first occurrence of a separator character. */
module Text {

  /** The part of `s` before the first `c` (all of `s` when there is none). */
  function UpTo(s: string, c: char): (r: string)
    ensures |r| <= |s| && r == s[..|r|]
    ensures forall i :: 0 <= i < |r| ==> r[i] != c
    ensures |r| < |s| ==> s[|r|] == c
    decreases |s|
  {
    if s == [] then [] else if s[0] == c then [] else [s[0]] + UpTo(s[1..], c)
  }

  lemma {:induction false} CutAt(a: string, c: char, b: string)
    requires forall i :: 0 <= i < |a| ==> a[i] != c
    ensures UpTo(a + [c] + b, c) == a
    decreases |a|
  {
    if a != [] {
      assert (a + [c] + b)[1..] == a[1..] + [c] + b;
      CutAt(a[1..], c, b);
    }
  }
}
