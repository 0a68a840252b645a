/** Case-insensitive string equality, shared by the service's own
    `equalsIgnoreCase` test and the store's `...IgnoreCase` lookups.
    Folding is ASCII-only: 'A'..'Z' map to 'a'..'z', every other
    character is left as it is. */
module CaseFold {

  function Lower(c: char): char
  {
    if 'A' <= c <= 'Z' then (c as int + 32) as char else c
  }

  /** The string with every character lower-cased. */
  function Fold(s: string): (r: string)
    ensures |r| == |s|
    ensures forall i :: 0 <= i < |s| ==> r[i] == Lower(s[i])
  {
    seq(|s|, i requires 0 <= i < |s| => Lower(s[i]))
  }

  /** Two strings are equal ignoring case when their folds agree. Equal
      strings are, and strings of different lengths are not. */
  function CiEq(a: string, b: string): (r: bool)
    ensures a == b ==> r
    ensures r ==> |a| == |b|
  {
    Fold(a) == Fold(b)
  }

  /** Equality ignoring case compares character by character: same length,
      and each pair of characters equal once lower-cased. */
  lemma CiEqIsCharwise(a: string, b: string)
    ensures CiEq(a, b) <==> |a| == |b| && forall i :: 0 <= i < |a| ==> Lower(a[i]) == Lower(b[i])
  {
    if |a| == |b| && forall i :: 0 <= i < |a| ==> Lower(a[i]) == Lower(b[i]) {
      assert forall i :: 0 <= i < |a| ==> Fold(a)[i] == Fold(b)[i];
    }
  }
}
