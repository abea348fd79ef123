/**
 * The search as `main` runs it before printing: the pattern is translated
 * and compiled, the tree below the start directory is walked, and the
 * records are sorted when a sort key was given.
 */
module Finder {
  import opened Wrappers
  import opened FileSystem
  import opened Glob
  import opened Traversal
  import opened Ordering
  import opened StableSort
  import opened Sorting

  /**
   * `compile` stands for compiling an expression with the regex library and
   * asking the result whether it matches a string (`is_match`, which finds a
   * match anywhere unless the expression's anchors forbid it); `root` is the start
   * directory and `listing` what reading it gives.
   */
  method FindAndSort(pattern: string, root: string, listing: Listing, compile: string -> string -> bool,
                     contentSearch: bool, sortBy: Option<string>)
    returns (results: seq<FileInfo>)
    ensures results == Arrange(sortBy, Walk([root], listing, compile(GlobRegex(pattern)), contentSearch))
  {
    var regexPattern := GlobToRegex(pattern);
    var isMatch := compile(regexPattern);
    var found := FindFiles([root], listing, isMatch, contentSearch);
    var a := new FileInfo[|found|](k requires 0 <= k < |found| => found[k]);
    assert a[..] == found;
    SortResults(a, sortBy);
    results := a[..];
  }

  /**
   * The printed records are exactly the walk's records: the same multiset,
   * every one of them lying below the start directory, and in discovery
   * order when no known sort key was given.
   */
  lemma SearchResults(pattern: string, root: string, listing: Listing, compile: string -> string -> bool,
                      contentSearch: bool, sortBy: Option<string>)
    ensures var isMatch := compile(GlobRegex(pattern));
      var found := Walk([root], listing, isMatch, contentSearch);
      var results := Arrange(sortBy, found);
      && multiset(results) == multiset(found)
      && (forall r :: r in results ==> Sound([root], r, isMatch, contentSearch))
      && (sortBy.None? || ParseSortKey(sortBy.value).None? ==> results == found)
  {
    var isMatch := compile(GlobRegex(pattern));
    var found := Walk([root], listing, isMatch, contentSearch);
    WalkSound([root], listing, isMatch, contentSearch);
    var results := Arrange(sortBy, found);
    forall r | r in results
      ensures Sound([root], r, isMatch, contentSearch)
    {
      assert r in multiset(results);
    }
  }
}
