/**
 * The sort step of `main`: when `--sort` names a known key the records are
 * sorted stably by that key's comparator; any other value, or no value,
 * leaves them in the order the walk found them.
 */
module Sorting {
  import opened Wrappers
  import opened FileSystem
  import opened StableSort
  import opened Ordering

  /** The records as the sort step leaves them. */
  function Arrange(sortBy: Option<string>, s: seq<FileInfo>): (r: seq<FileInfo>)
    ensures multiset(r) == multiset(s)
    ensures sortBy.None? || ParseSortKey(sortBy.value).None? ==> r == s
  {
    if sortBy.Some? && ParseSortKey(sortBy.value).Some? then
      var cmp := Comparator(ParseSortKey(sortBy.value).value);
      SortPermutes(cmp, s);
      SortBy(cmp, s)
    else s
  }

  /**
   * With a known key the records come out ordered by it, ties in discovery
   * order, and no other ordering of the same records has both properties.
   */
  lemma ArrangeIsStableSort(sortBy: Option<string>, s: seq<FileInfo>, key: SortKey, t: seq<FileInfo>)
    requires sortBy.Some? && ParseSortKey(sortBy.value) == Some(key)
    ensures Sorted(Comparator(key), Arrange(sortBy, s))
    ensures StableWrt(Comparator(key), s, Arrange(sortBy, s))
    ensures Sorted(Comparator(key), t) && StableWrt(Comparator(key), s, t) ==> t == Arrange(sortBy, s)
  {
    var cmp := Comparator(key);
    ComparatorIsTotalPreorder(key);
    SortSorts(cmp, s);
    SortIsStable(cmp, s);
    if Sorted(cmp, t) && StableWrt(cmp, s, t) {
      SortedIsUnique(cmp, s, t);
    }
  }

  /**
   * What "ordered by the key" means for each key: names ascending (a record
   * without a final name component first), sizes and modification times
   * descending.
   */
  lemma SortOrders(key: SortKey, s: seq<FileInfo>)
    ensures key == ByName ==> forall i, j :: 0 <= i < j < |SortBy(Comparator(key), s)| ==>
      CompareName(FileName(SortBy(Comparator(key), s)[i].path), FileName(SortBy(Comparator(key), s)[j].path)) != Greater
    ensures key == BySize ==> forall i, j :: 0 <= i < j < |SortBy(Comparator(key), s)| ==>
      SortBy(Comparator(key), s)[i].size >= SortBy(Comparator(key), s)[j].size
    ensures key == ByDate ==> forall i, j :: 0 <= i < j < |SortBy(Comparator(key), s)| ==>
      SortBy(Comparator(key), s)[i].modified >= SortBy(Comparator(key), s)[j].modified
  {
    ComparatorIsTotalPreorder(key);
    SortSorts(Comparator(key), s);
    var r := SortBy(Comparator(key), s);
    forall i, j | 0 <= i < j < |r|
      ensures Compare(key, r[i], r[j]) != Greater
    {
    }
  }

  /** The sort step on the result vector, in place, as `main` runs it. */
  method SortResults(a: array<FileInfo>, sortBy: Option<string>)
    modifies a
    ensures a[..] == Arrange(sortBy, old(a[..]))
  {
    if sortBy.Some? {
      match sortBy.value {
        case "name" => SortInPlace(a, Comparator(ByName));
        case "size" => SortInPlace(a, Comparator(BySize));
        case "date" => SortInPlace(a, Comparator(ByDate));
        case _ =>
      }
    }
  }
}
