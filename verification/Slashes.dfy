/** Where the next slash of a path is. */
module Slashes {
  /** The length of what comes before the next slash, or before the end. */
  function SegLen(s: string): (n: nat)
    ensures n <= |s| && (n < |s| ==> s[n] == '/') && forall i :: 0 <= i < n ==> s[i] != '/'
  {
    if s == "" || s[0] == '/' then 0 else 1 + SegLen(s[1..])
  }

  lemma SegLenIs(s: string, n: nat)
    requires n <= |s| && (n == |s| || s[n] == '/') && forall i :: 0 <= i < n ==> s[i] != '/'
    ensures SegLen(s) == n
  {
  }
}
