/** Small facts about sequences that several modules lean on. */
module Sequences {

  /**
   * Concatenation regroups freely. Dafny knows this unaided; calling it names
   * the regrouping a proof needs, which keeps the solver from searching for it.
   */
  lemma ConcatAssoc<T>(a: seq<T>, b: seq<T>, c: seq<T>)
    ensures (a + b) + c == a + (b + c)
  {
  }

  /** A non-empty sequence is its prefix without the last element, then that element. */
  lemma InitLast<T>(s: seq<T>)
    requires s != []
    ensures s[..|s| - 1] + [s[|s| - 1]] == s
  {
  }

  /** The first `|p| + 1` elements of `s` are `p` with `x` placed at index `j`. */
  lemma Spliced<T>(s: seq<T>, p: seq<T>, j: nat, x: T)
    requires j <= |p| < |s|
    requires forall k :: 0 <= k < j ==> s[k] == p[k]
    requires s[j] == x
    requires forall k :: j < k <= |p| ==> s[k] == p[k - 1]
    ensures s[..|p| + 1] == p[..j] + [x] + p[j..]
  {
  }
}
