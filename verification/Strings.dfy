/** Searching strings, as Go's strings package does. */
module Strings {

  /** The first index of c, or the length where there is none. */
  function IndexOf(s: string, c: char): (i: nat)
    ensures i <= |s| && c !in s[..i] && (i < |s| ==> s[i] == c)
  {
    if s == "" || s[0] == c then 0 else 1 + IndexOf(s[1..], c)
  }

  lemma {:induction false} IndexPast(a: string, c: char, rest: string)
    requires c !in a
    ensures IndexOf(a + [c] + rest, c) == |a|
    ensures IndexOf(a, c) == |a|
  {
    if a == "" {
    } else {
      assert (a + [c] + rest)[1..] == a[1..] + [c] + rest;
      IndexPast(a[1..], c, rest);
    }
  }
}
