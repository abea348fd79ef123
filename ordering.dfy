/**
 * The three comparators the results can be sorted with: by file name
 * ascending, by size descending, by modification time descending.
 */
module Ordering {
  import opened Wrappers
  import opened FileSystem
  import opened StableSort

  /** Three-way comparison of integers. */
  function CompareInt(a: int, b: int): (r: Order)
    ensures r == Less <==> a < b
    ensures r == Greater <==> a > b
  {
    if a < b then Less else if a > b then Greater else Equal
  }

  /**
   * Lexicographic comparison of names, character by character; a proper
   * prefix comes first. For well-formed UTF-8 names this is the byte order
   * the platform's name comparison uses.
   */
  function CompareStr(a: string, b: string): Order {
    if a == [] && b == [] then Equal
    else if a == [] then Less
    else if b == [] then Greater
    else if a[0] < b[0] then Less
    else if a[0] > b[0] then Greater
    else CompareStr(a[1..], b[1..])
  }

  /** Comparison of optional names: a missing name sorts before every name. */
  function CompareName(a: Option<string>, b: Option<string>): Order {
    match (a, b)
    case (None, None) => Equal
    case (None, Some(_)) => Less
    case (Some(_), None) => Greater
    case (Some(x), Some(y)) => CompareStr(x, y)
  }

  /** The sort keys the command line accepts. */
  datatype SortKey = ByName | BySize | ByDate

  /** The value `--sort` names, or `None` for any other value (the `_ => {}` arm). */
  function ParseSortKey(s: string): (r: Option<SortKey>)
    ensures r == Some(ByName) <==> s == "name"
    ensures r == Some(BySize) <==> s == "size"
    ensures r == Some(ByDate) <==> s == "date"
  {
    if s == "name" then Some(ByName)
    else if s == "size" then Some(BySize)
    else if s == "date" then Some(ByDate)
    else None
  }

  /** The comparator used for a key: the size and date comparators swap their operands. */
  function Compare(key: SortKey, a: FileInfo, b: FileInfo): Order {
    match key
    case ByName => CompareName(FileName(a.path), FileName(b.path))
    case BySize => CompareInt(b.size, a.size)
    case ByDate => CompareInt(b.modified, a.modified)
  }

  /** The two records agree on what the key looks at. */
  predicate SameKey(key: SortKey, a: FileInfo, b: FileInfo) {
    match key
    case ByName => FileName(a.path) == FileName(b.path)
    case BySize => a.size == b.size
    case ByDate => a.modified == b.modified
  }

  lemma {:induction false} CompareStrEqual(a: string, b: string)
    ensures CompareStr(a, b) == Equal <==> a == b
  {
    if a != [] && b != [] && a[0] == b[0] {
      CompareStrEqual(a[1..], b[1..]);
      if a[1..] == b[1..] {
        assert a == [a[0]] + a[1..] && b == [b[0]] + b[1..];
      }
    }
  }

  lemma {:induction false} CompareStrFlip(a: string, b: string)
    ensures CompareStr(a, b) == Greater <==> CompareStr(b, a) == Less
  {
    if a != [] && b != [] && a[0] == b[0] {
      CompareStrFlip(a[1..], b[1..]);
    }
  }

  lemma {:induction false} CompareStrTransitive(a: string, b: string, c: string)
    requires CompareStr(a, b) != Greater && CompareStr(b, c) != Greater
    ensures CompareStr(a, c) != Greater
  {
    if a != [] && b != [] && c != [] && a[0] == b[0] && b[0] == c[0] {
      CompareStrTransitive(a[1..], b[1..], c[1..]);
    }
  }

  /**
   * Each comparator is a total preorder whose ties are exactly the records
   * that agree on the key: what a stable sort needs of it.
   */
  lemma CompareIsTotalPreorder(key: SortKey, a: FileInfo, b: FileInfo, c: FileInfo)
    ensures Compare(key, a, b) == Equal <==> SameKey(key, a, b)
    ensures Compare(key, a, b) == Greater <==> Compare(key, b, a) == Less
    ensures Compare(key, a, b) != Greater || Compare(key, b, a) != Greater
    ensures Compare(key, a, b) != Greater && Compare(key, b, c) != Greater ==> Compare(key, a, c) != Greater
  {
    if key == ByName {
      var x, y, z := FileName(a.path), FileName(b.path), FileName(c.path);
      if x.Some? && y.Some? {
        CompareStrEqual(x.value, y.value);
        CompareStrFlip(x.value, y.value);
      }
      if x.Some? && y.Some? && z.Some? && CompareStr(x.value, y.value) != Greater && CompareStr(y.value, z.value) != Greater {
        CompareStrTransitive(x.value, y.value, z.value);
      }
    }
  }

  /** The comparator `sort_by` is given for a key. */
  function Comparator(key: SortKey): (FileInfo, FileInfo) -> Order {
    (a, b) => Compare(key, a, b)
  }

  /** Each of the three comparators meets what a stable sort expects of it. */
  lemma ComparatorIsTotalPreorder(key: SortKey)
    ensures TotalPreorder(Comparator(key))
    ensures forall a, b :: Comparator(key)(a, b) == Equal <==> SameKey(key, a, b)
  {
    forall a, b
      ensures Comparator(key)(a, b) == Equal <==> SameKey(key, a, b)
      ensures Comparator(key)(a, b) == Greater <==> Comparator(key)(b, a) == Less
    {
      CompareIsTotalPreorder(key, a, b, b);
    }
    forall a, b, c
      ensures Precedes(Comparator(key), a, b) && Precedes(Comparator(key), b, c) ==> Precedes(Comparator(key), a, c)
    {
      CompareIsTotalPreorder(key, a, b, c);
    }
  }
}
