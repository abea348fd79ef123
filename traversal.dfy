/**
 * The traversal engine: a depth-first walk of a directory tree that keeps a
 * record for every entry whose name matches the pattern, or whose content
 * does when content search is on, and descends into every directory.
 */
module Traversal {
  import opened Wrappers
  import opened Content
  import opened FileSystem
  import opened Sequences

  /**
   * The record made for one entry found in directory `dir`, or `None`. The
   * name test and, for a regular file under content search, the content
   * test use the same matcher; metadata must be readable.
   */
  function Record(dir: Path, n: Node, isMatch: string -> bool, contentSearch: bool): (r: Option<FileInfo>)
    ensures r.Some? <==>
      !n.Broken? && (isMatch(n.name) || (contentSearch && n.FileNode? && ContentMatches(n.content, isMatch)))
    ensures r.Some? ==>
      && r.value.path == dir + [n.name]
      && r.value.size == n.len
      && r.value.modified == (if n.modified.Some? then n.modified.value else UnixEpoch)
      && r.value.matchesContent == (contentSearch && n.FileNode? && ContentMatches(n.content, isMatch))
  {
    var nameMatches := isMatch(n.name);
    if nameMatches || (contentSearch && n.FileNode?) then
      if n.Broken? then None
      else
        var matchesContent := if contentSearch && n.FileNode? then ContentMatches(n.content, isMatch) else false;
        if nameMatches || matchesContent then
          Some(FileInfo(dir + [n.name], n.len, n.modified.GetOr(UnixEpoch), matchesContent))
        else None
    else None
  }

  function AsSeq(r: Option<FileInfo>): seq<FileInfo> {
    if r.Some? then [r.value] else []
  }

  /** The records found below a directory with the given listing. */
  function Walk(dir: Path, listing: Listing, isMatch: string -> bool, contentSearch: bool): seq<FileInfo>
    decreases listing
  {
    match listing
    case Unreadable => []
    case Listed(entries) => WalkEntries(dir, entries, isMatch, contentSearch)
  }

  /** The records found for a sequence of entries of `dir`, in listing order. */
  function WalkEntries(dir: Path, entries: seq<DirEntry>, isMatch: string -> bool, contentSearch: bool): seq<FileInfo>
    decreases entries
  {
    if entries == [] then []
    else EntryRecords(dir, entries[0], isMatch, contentSearch) + WalkEntries(dir, entries[1..], isMatch, contentSearch)
  }

  /** The records for one entry: its own, then those of its subtree if it is a directory. */
  function EntryRecords(dir: Path, e: DirEntry, isMatch: string -> bool, contentSearch: bool): seq<FileInfo>
    decreases e
  {
    match e
    case EntryError => []
    case Entry(n) =>
      AsSeq(Record(dir, n, isMatch, contentSearch))
      + (if n.DirNode? then Walk(dir + [n.name], n.listing, isMatch, contentSearch) else [])
  }

  /** The walk as the program runs it: a loop over the listing, recursing into directories. */
  method FindFiles(dir: Path, listing: Listing, isMatch: string -> bool, contentSearch: bool)
    returns (results: seq<FileInfo>)
    ensures results == Walk(dir, listing, isMatch, contentSearch)
    decreases listing
  {
    results := [];
    if listing.Listed? {
      var entries := listing.entries;
      var i := 0;
      while i < |entries|
        invariant 0 <= i <= |entries|
        invariant results == WalkEntries(dir, entries[..i], isMatch, contentSearch)
      {
        assert entries[..i + 1] == entries[..i] + [entries[i]];
        WalkEntriesAppend(dir, entries[..i], [entries[i]], isMatch, contentSearch);
        assert entries[i] in entries;
        var found := FindInEntry(dir, entries[i], isMatch, contentSearch);
        results := results + found;
        i := i + 1;
      }
      assert entries[..i] == entries;
    }
  }

  /**
   * One pass of the loop body: an entry that could not be read is skipped;
   * otherwise its own record comes first, then, for a directory, everything
   * found below it.
   */
  method FindInEntry(dir: Path, e: DirEntry, isMatch: string -> bool, contentSearch: bool)
    returns (found: seq<FileInfo>)
    ensures found == EntryRecords(dir, e, isMatch, contentSearch)
    decreases e
  {
    found := [];
    if e.Entry? {
      var n := e.node;
      var path := dir + [n.name];
      found := OwnRecord(dir, n, isMatch, contentSearch);
      if n.DirNode? {
        var sub := FindFiles(path, n.listing, isMatch, contentSearch);
        found := found + sub;
      }
    }
  }

  /**
   * The record the loop body pushes for one readable entry, if any: the name
   * is tried first, and a file's content is read only when content search
   * is on.
   */
  method OwnRecord(dir: Path, n: Node, isMatch: string -> bool, contentSearch: bool)
    returns (own: seq<FileInfo>)
    ensures own == AsSeq(Record(dir, n, isMatch, contentSearch))
  {
    own := [];
    var nameMatches := isMatch(n.name);
    if nameMatches || (contentSearch && n.FileNode?) {
      if !n.Broken? {
        var matchesContent := false;
        if contentSearch && n.FileNode? {
          matchesContent := SearchFileContent(n.content, isMatch);
        }
        if nameMatches || matchesContent {
          own := [FileInfo(dir + [n.name], n.len, n.modified.GetOr(UnixEpoch), matchesContent)];
        }
      }
    }
  }

  /** Walking two runs of entries one after the other gives their records one after the other. */
  lemma {:induction false} WalkEntriesAppend(dir: Path, a: seq<DirEntry>, b: seq<DirEntry>, isMatch: string -> bool, contentSearch: bool)
    ensures WalkEntries(dir, a + b, isMatch, contentSearch)
         == WalkEntries(dir, a, isMatch, contentSearch) + WalkEntries(dir, b, isMatch, contentSearch)
  {
    if a == [] {
      assert a + b == b;
    } else {
      assert (a + b)[1..] == a[1..] + b;
      WalkEntriesAppend(dir, a[1..], b, isMatch, contentSearch);
    }
  }

  /** Entry `i`'s records sit between those of the entries before and after it. */
  lemma EntryPlacement(dir: Path, entries: seq<DirEntry>, i: nat, isMatch: string -> bool, contentSearch: bool)
    requires i < |entries|
    ensures WalkEntries(dir, entries, isMatch, contentSearch)
         == WalkEntries(dir, entries[..i], isMatch, contentSearch)
          + (EntryRecords(dir, entries[i], isMatch, contentSearch)
          + WalkEntries(dir, entries[i + 1..], isMatch, contentSearch))
  {
    var rest := [entries[i]] + entries[i + 1..];
    assert entries == entries[..i] + rest;
    WalkEntriesAppend(dir, entries[..i], rest, isMatch, contentSearch);
    assert rest[1..] == entries[i + 1..];
  }

  /** An entry that cannot be read contributes nothing, and its siblings are still walked. */
  lemma FailedEntrySkipped(dir: Path, entries: seq<DirEntry>, i: nat, isMatch: string -> bool, contentSearch: bool)
    requires i < |entries| && entries[i].EntryError?
    ensures WalkEntries(dir, entries, isMatch, contentSearch)
         == WalkEntries(dir, entries[..i], isMatch, contentSearch) + WalkEntries(dir, entries[i + 1..], isMatch, contentSearch)
  {
    EntryPlacement(dir, entries, i, isMatch, contentSearch);
  }

  /**
   * A directory entry's subtree is walked whether or not the directory's
   * own name matched, and its records follow the directory's own record
   * before those of the next sibling.
   */
  lemma SubtreeFollowsEntry(dir: Path, entries: seq<DirEntry>, i: nat, isMatch: string -> bool, contentSearch: bool)
    requires i < |entries| && entries[i].Entry? && entries[i].node.DirNode?
    ensures var n := entries[i].node;
      WalkEntries(dir, entries, isMatch, contentSearch)
      == WalkEntries(dir, entries[..i], isMatch, contentSearch)
       + (AsSeq(Record(dir, n, isMatch, contentSearch))
       + (Walk(dir + [n.name], n.listing, isMatch, contentSearch)
       + WalkEntries(dir, entries[i + 1..], isMatch, contentSearch)))
  {
    var n := entries[i].node;
    EntryPlacement(dir, entries, i, isMatch, contentSearch);
    ConcatAssoc(AsSeq(Record(dir, n, isMatch, contentSearch)),
                Walk(dir + [n.name], n.listing, isMatch, contentSearch),
                WalkEntries(dir, entries[i + 1..], isMatch, contentSearch));
  }

  /** What every record of a walk below `dir` satisfies. */
  ghost predicate Sound(dir: Path, r: FileInfo, isMatch: string -> bool, contentSearch: bool) {
    && |r.path| > |dir|
    && r.path[..|dir|] == dir
    && (isMatch(r.path[|r.path| - 1]) || r.matchesContent)
    && (r.matchesContent ==> contentSearch)
  }

  lemma SoundBelow(dir: Path, name: string, r: FileInfo, isMatch: string -> bool, contentSearch: bool)
    requires Sound(dir + [name], r, isMatch, contentSearch)
    ensures Sound(dir, r, isMatch, contentSearch)
  {
    assert r.path[..|dir|] == r.path[..|dir| + 1][..|dir|];
  }

  /**
   * Every record lies strictly below the start directory, was kept because
   * its name or its content matched, and claims a content match only when
   * content search is on.
   */
  lemma {:induction false} WalkSound(dir: Path, listing: Listing, isMatch: string -> bool, contentSearch: bool)
    ensures forall r :: r in Walk(dir, listing, isMatch, contentSearch) ==> Sound(dir, r, isMatch, contentSearch)
    decreases listing
  {
    if listing.Listed? {
      WalkEntriesSound(dir, listing.entries, isMatch, contentSearch);
    }
  }

  lemma {:induction false} WalkEntriesSound(dir: Path, entries: seq<DirEntry>, isMatch: string -> bool, contentSearch: bool)
    ensures forall r :: r in WalkEntries(dir, entries, isMatch, contentSearch) ==> Sound(dir, r, isMatch, contentSearch)
    decreases entries
  {
    if entries != [] {
      EntryRecordsSound(dir, entries[0], isMatch, contentSearch);
      WalkEntriesSound(dir, entries[1..], isMatch, contentSearch);
    }
  }

  lemma {:induction false} EntryRecordsSound(dir: Path, e: DirEntry, isMatch: string -> bool, contentSearch: bool)
    ensures forall r :: r in EntryRecords(dir, e, isMatch, contentSearch) ==> Sound(dir, r, isMatch, contentSearch)
    decreases e
  {
    if e.Entry? {
      var n := e.node;
      var own := Record(dir, n, isMatch, contentSearch);
      if own.Some? {
        assert own.value.path[..|dir|] == dir;
      }
      if n.DirNode? {
        WalkSound(dir + [n.name], n.listing, isMatch, contentSearch);
        forall r | r in Walk(dir + [n.name], n.listing, isMatch, contentSearch)
          ensures Sound(dir, r, isMatch, contentSearch)
        {
          SoundBelow(dir, n.name, r, isMatch, contentSearch);
        }
      }
    }
  }

  /** An entry together with the directory it was listed in. */
  datatype Located = Located(dir: Path, node: Node)

  function PathOf(loc: Located): Path {
    loc.dir + [loc.node.name]
  }

  /**
   * Every entry the walk reaches, in depth-first pre-order: each readable
   * directory's entries in listing order, each directory's subtree right
   * after the directory itself. It does not depend on the pattern.
   */
  function Reached(dir: Path, listing: Listing): seq<Located>
    decreases listing
  {
    match listing
    case Unreadable => []
    case Listed(entries) => ReachedEntries(dir, entries)
  }

  function ReachedEntries(dir: Path, entries: seq<DirEntry>): seq<Located>
    decreases entries
  {
    if entries == [] then [] else ReachedEntry(dir, entries[0]) + ReachedEntries(dir, entries[1..])
  }

  function ReachedEntry(dir: Path, e: DirEntry): seq<Located>
    decreases e
  {
    match e
    case EntryError => []
    case Entry(n) => [Located(dir, n)] + (if n.DirNode? then Reached(dir + [n.name], n.listing) else [])
  }

  /** The records the inclusion rule keeps from a sequence of reached entries, in order. */
  function Collect(locs: seq<Located>, isMatch: string -> bool, contentSearch: bool): seq<FileInfo> {
    if locs == [] then []
    else AsSeq(Record(locs[0].dir, locs[0].node, isMatch, contentSearch)) + Collect(locs[1..], isMatch, contentSearch)
  }

  lemma {:induction false} CollectAppend(a: seq<Located>, b: seq<Located>, isMatch: string -> bool, contentSearch: bool)
    ensures Collect(a + b, isMatch, contentSearch) == Collect(a, isMatch, contentSearch) + Collect(b, isMatch, contentSearch)
  {
    if a == [] {
      assert a + b == b;
    } else {
      assert (a + b)[1..] == a[1..] + b;
      CollectAppend(a[1..], b, isMatch, contentSearch);
      ConcatAssoc(AsSeq(Record(a[0].dir, a[0].node, isMatch, contentSearch)),
                  Collect(a[1..], isMatch, contentSearch), Collect(b, isMatch, contentSearch));
    }
  }

  /** A record is collected exactly when it is the record of some reached entry. */
  lemma {:induction false} CollectMembership(locs: seq<Located>, isMatch: string -> bool, contentSearch: bool, r: FileInfo)
    ensures r in Collect(locs, isMatch, contentSearch) <==>
      exists j :: 0 <= j < |locs| && Record(locs[j].dir, locs[j].node, isMatch, contentSearch) == Some(r)
  {
    if locs != [] {
      CollectMembership(locs[1..], isMatch, contentSearch, r);
      if r in Collect(locs[1..], isMatch, contentSearch) {
        var j :| 0 <= j < |locs[1..]| && Record(locs[1..][j].dir, locs[1..][j].node, isMatch, contentSearch) == Some(r);
        assert locs[j + 1] == locs[1..][j];
      }
      if exists j :: 0 <= j < |locs| && Record(locs[j].dir, locs[j].node, isMatch, contentSearch) == Some(r) {
        var j :| 0 <= j < |locs| && Record(locs[j].dir, locs[j].node, isMatch, contentSearch) == Some(r);
        if j > 0 {
          assert locs[1..][j - 1] == locs[j];
        }
      }
    }
  }

  /**
   * The walk is the inclusion rule applied, in order, to every reached
   * entry: traversal order and descent are independent of what matches.
   */
  lemma {:induction false} WalkIsCollectOfReached(dir: Path, listing: Listing, isMatch: string -> bool, contentSearch: bool)
    ensures Walk(dir, listing, isMatch, contentSearch) == Collect(Reached(dir, listing), isMatch, contentSearch)
    decreases listing
  {
    if listing.Listed? {
      WalkEntriesIsCollect(dir, listing.entries, isMatch, contentSearch);
    }
  }

  lemma {:induction false} WalkEntriesIsCollect(dir: Path, entries: seq<DirEntry>, isMatch: string -> bool, contentSearch: bool)
    ensures WalkEntries(dir, entries, isMatch, contentSearch) == Collect(ReachedEntries(dir, entries), isMatch, contentSearch)
    decreases entries
  {
    if entries != [] {
      EntryRecordsIsCollect(dir, entries[0], isMatch, contentSearch);
      WalkEntriesIsCollect(dir, entries[1..], isMatch, contentSearch);
      CollectAppend(ReachedEntry(dir, entries[0]), ReachedEntries(dir, entries[1..]), isMatch, contentSearch);
    }
  }

  lemma {:induction false} EntryRecordsIsCollect(dir: Path, e: DirEntry, isMatch: string -> bool, contentSearch: bool)
    ensures EntryRecords(dir, e, isMatch, contentSearch) == Collect(ReachedEntry(dir, e), isMatch, contentSearch)
    decreases e
  {
    if e.Entry? {
      var n := e.node;
      var sub := if n.DirNode? then Reached(dir + [n.name], n.listing) else [];
      if n.DirNode? {
        WalkIsCollectOfReached(dir + [n.name], n.listing, isMatch, contentSearch);
      }
      CollectAppend([Located(dir, n)], sub, isMatch, contentSearch);
      assert [Located(dir, n)][1..] == [];
    }
  }

  /** A record is found exactly when some reached entry passes the inclusion rule with it. */
  lemma FoundIff(dir: Path, listing: Listing, isMatch: string -> bool, contentSearch: bool, r: FileInfo)
    ensures r in Walk(dir, listing, isMatch, contentSearch) <==>
      exists loc :: loc in Reached(dir, listing) && Record(loc.dir, loc.node, isMatch, contentSearch) == Some(r)
  {
    var locs := Reached(dir, listing);
    WalkIsCollectOfReached(dir, listing, isMatch, contentSearch);
    CollectMembership(locs, isMatch, contentSearch, r);
    if exists loc :: loc in locs && Record(loc.dir, loc.node, isMatch, contentSearch) == Some(r) {
      var loc :| loc in locs && Record(loc.dir, loc.node, isMatch, contentSearch) == Some(r);
      var j :| 0 <= j < |locs| && locs[j] == loc;
    }
  }

  /** Within every readable directory, no two entries share a name. */
  ghost predicate WellFormed(listing: Listing)
    decreases listing
  {
    listing.Listed? ==> EntriesWellFormed(listing.entries)
  }

  ghost predicate EntriesWellFormed(entries: seq<DirEntry>)
    decreases entries
  {
    && (forall i, j :: 0 <= i < j < |entries| && entries[i].Entry? && entries[j].Entry? ==>
          entries[i].node.name != entries[j].node.name)
    && (forall i :: 0 <= i < |entries| ==> EntryWellFormed(entries[i]))
  }

  ghost predicate EntryWellFormed(e: DirEntry)
    decreases e
  {
    e.Entry? && e.node.DirNode? ==> WellFormed(e.node.listing)
  }

  /** No two reached entries have the same path. */
  ghost predicate PathsDistinct(locs: seq<Located>) {
    forall i, j :: 0 <= i < j < |locs| ==> PathOf(locs[i]) != PathOf(locs[j])
  }

  lemma DistinctConcat(a: seq<Located>, b: seq<Located>)
    requires PathsDistinct(a) && PathsDistinct(b)
    requires forall x, y :: x in a && y in b ==> PathOf(x) != PathOf(y)
    ensures PathsDistinct(a + b)
  {
    var c := a + b;
    forall i, j | 0 <= i < j < |c|
      ensures PathOf(c[i]) != PathOf(c[j])
    {
      if j < |a| {
        assert c[i] == a[i] && c[j] == a[j];
      } else if i >= |a| {
        assert c[i] == b[i - |a|] && c[j] == b[j - |a|];
      } else {
        assert c[i] in a && c[j] in b;
      }
    }
  }

  /** Every entry reached below `dir` has a path that extends `dir`. */
  lemma {:induction false} ReachedUnder(dir: Path, listing: Listing)
    ensures forall loc :: loc in Reached(dir, listing) ==>
      |PathOf(loc)| > |dir| && PathOf(loc)[..|dir|] == dir
    decreases listing
  {
    if listing.Listed? {
      ReachedEntriesUnder(dir, listing.entries);
    }
  }

  /** Some entry of the listing that could be read has this name. */
  ghost predicate HasEntryNamed(entries: seq<DirEntry>, name: string) {
    exists k :: 0 <= k < |entries| && entries[k].Entry? && entries[k].node.name == name
  }

  lemma {:induction false} ReachedEntriesUnder(dir: Path, entries: seq<DirEntry>)
    ensures forall loc :: loc in ReachedEntries(dir, entries) ==>
      && |PathOf(loc)| > |dir| && PathOf(loc)[..|dir|] == dir
      && HasEntryNamed(entries, PathOf(loc)[|dir|])
    decreases entries
  {
    if entries != [] {
      var head, tail := ReachedEntry(dir, entries[0]), ReachedEntries(dir, entries[1..]);
      ReachedEntryUnder(dir, entries[0]);
      ReachedEntriesUnder(dir, entries[1..]);
      forall loc | loc in head
        ensures |PathOf(loc)| > |dir| && PathOf(loc)[..|dir|] == dir
        ensures HasEntryNamed(entries, PathOf(loc)[|dir|])
      {
        var p := dir + [entries[0].node.name];
        assert PathOf(loc)[..|dir|] == p[..|dir|];
        assert PathOf(loc)[|dir|] == p[|dir|];
      }
      forall loc | loc in tail
        ensures HasEntryNamed(entries, PathOf(loc)[|dir|])
      {
        var k :| 0 <= k < |entries[1..]| && entries[1..][k].Entry? && entries[1..][k].node.name == PathOf(loc)[|dir|];
        assert entries[k + 1] == entries[1..][k];
      }
    }
  }

  lemma {:induction false} ReachedEntryUnder(dir: Path, e: DirEntry)
    ensures forall loc :: loc in ReachedEntry(dir, e) ==>
      e.Entry? && |PathOf(loc)| > |dir| && PathOf(loc)[..|dir| + 1] == dir + [e.node.name]
    decreases e
  {
    if e.Entry? {
      var n := e.node;
      var p := dir + [n.name];
      if n.DirNode? {
        ReachedUnder(p, n.listing);
        forall loc | loc in Reached(p, n.listing)
          ensures PathOf(loc)[..|dir| + 1] == p
        {
          assert |p| == |dir| + 1;
        }
      }
    }
  }

  /** In a well-formed tree, no two reached entries share a path. */
  lemma {:induction false} ReachedDistinct(dir: Path, listing: Listing)
    requires WellFormed(listing)
    ensures PathsDistinct(Reached(dir, listing))
    decreases listing
  {
    if listing.Listed? {
      ReachedEntriesDistinct(dir, listing.entries);
    }
  }

  lemma {:induction false} ReachedEntriesDistinct(dir: Path, entries: seq<DirEntry>)
    requires EntriesWellFormed(entries)
    ensures PathsDistinct(ReachedEntries(dir, entries))
    decreases entries
  {
    if entries != [] {
      var head, tail := ReachedEntry(dir, entries[0]), ReachedEntries(dir, entries[1..]);
      assert EntriesWellFormed(entries[1..]) by {
        forall i | 0 <= i < |entries[1..]| ensures entries[1..][i] == entries[i + 1] { }
      }
      ReachedEntryDistinct(dir, entries[0]);
      ReachedEntriesDistinct(dir, entries[1..]);
      ReachedEntryUnder(dir, entries[0]);
      ReachedEntriesUnder(dir, entries[1..]);
      forall x, y | x in head && y in tail
        ensures PathOf(x) != PathOf(y)
      {
        var k :| 0 <= k < |entries[1..]| && entries[1..][k].Entry? && entries[1..][k].node.name == PathOf(y)[|dir|];
        assert entries[1..][k] == entries[k + 1];
        assert PathOf(x)[|dir|] == (dir + [entries[0].node.name])[|dir|];
      }
      DistinctConcat(head, tail);
    }
  }

  lemma {:induction false} ReachedEntryDistinct(dir: Path, e: DirEntry)
    requires EntryWellFormed(e)
    ensures PathsDistinct(ReachedEntry(dir, e))
    decreases e
  {
    if e.Entry? {
      var n := e.node;
      var own: seq<Located> := [Located(dir, n)];
      if n.DirNode? {
        var p := dir + [n.name];
        ReachedDistinct(p, n.listing);
        ReachedUnder(p, n.listing);
        DistinctConcat(own, Reached(p, n.listing));
      }
    }
  }

  /** No two records have the same path. */
  ghost predicate RecordPathsDistinct(rs: seq<FileInfo>) {
    forall i, j :: 0 <= i < j < |rs| ==> rs[i].path != rs[j].path
  }

  /** Records collected from entries with distinct paths have distinct paths. */
  lemma {:induction false} CollectDistinct(locs: seq<Located>, isMatch: string -> bool, contentSearch: bool)
    requires PathsDistinct(locs)
    ensures RecordPathsDistinct(Collect(locs, isMatch, contentSearch))
  {
    if locs != [] {
      var own := AsSeq(Record(locs[0].dir, locs[0].node, isMatch, contentSearch));
      var rest := Collect(locs[1..], isMatch, contentSearch);
      var rs := own + rest;
      assert PathsDistinct(locs[1..]) by {
        forall i | 0 <= i < |locs| - 1 ensures locs[1..][i] == locs[i + 1] { }
      }
      CollectDistinct(locs[1..], isMatch, contentSearch);
      forall i, j | 0 <= i < j < |rs|
        ensures rs[i].path != rs[j].path
      {
        if i < |own| {
          assert rs[i] == own[0] && rs[i].path == PathOf(locs[0]);
          CollectMembership(locs[1..], isMatch, contentSearch, rs[j]);
          assert rs[j] in rest;
          var k :| 0 <= k < |locs[1..]| && Record(locs[1..][k].dir, locs[1..][k].node, isMatch, contentSearch) == Some(rs[j]);
          assert locs[1..][k] == locs[k + 1];
          assert PathOf(locs[0]) != PathOf(locs[k + 1]);
          assert rs[j].path == PathOf(locs[k + 1]);
        } else {
          assert rs[i] == rest[i - |own|] && rs[j] == rest[j - |own|];
          assert rest[i - |own|].path != rest[j - |own|].path;
        }
      }
    }
  }

  /** In a well-formed tree, the walk never reports the same path twice. */
  lemma PathsUnique(dir: Path, listing: Listing, isMatch: string -> bool, contentSearch: bool)
    requires WellFormed(listing)
    ensures RecordPathsDistinct(Walk(dir, listing, isMatch, contentSearch))
  {
    WalkIsCollectOfReached(dir, listing, isMatch, contentSearch);
    ReachedDistinct(dir, listing);
    CollectDistinct(Reached(dir, listing), isMatch, contentSearch);
  }
}
