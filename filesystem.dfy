/**
 * The filesystem as the traversal sees it: a tree of directory entries, and
 * the record kept for each entry found.
 */
module FileSystem {
  import opened Wrappers
  import opened Content

  /** Unsigned 64-bit integers: the byte length reported by metadata. */
  type U64 = x: int | 0 <= x < 0x1_0000_0000_0000_0000

  /** Time as a signed count of nanoseconds from the Unix epoch. */
  type Time = int

  /** The fallback modification time when the platform cannot report one. */
  const UnixEpoch: Time := 0

  /** A path: the start directory followed by the names of the entries below it. */
  type Path = seq<string>

  /**
   * What one directory entry's path leads to. Metadata, the file test and the
   * directory test all look at the same target, so an entry whose metadata
   * cannot be read (`Broken`) is neither a file nor a directory. `modified` is
   * `None` when the platform has no modification time for the entry.
   */
  datatype Node =
    | FileNode(name: string, len: U64, modified: Option<Time>, content: FileContent)
    | DirNode(name: string, len: U64, modified: Option<Time>, listing: Listing)
    | OtherNode(name: string, len: U64, modified: Option<Time>)
    | Broken(name: string)

  /** A directory as listing it turns out: unreadable, or a sequence of entries. */
  datatype Listing = Unreadable | Listed(entries: seq<DirEntry>)

  /** One item of a directory listing: an entry, or an error reading it. */
  datatype DirEntry = EntryError | Entry(node: Node)

  /** The record kept for each entry found (the `FileInfo` struct). */
  datatype FileInfo = FileInfo(path: Path, size: U64, modified: Time, matchesContent: bool)

  /** The last component of a path, as `Path::file_name` gives it. */
  function FileName(p: Path): (r: Option<string>)
    ensures r.Some? <==> p != []
    ensures forall d, n :: p == d + [n] ==> r == Some(n)
  {
    if p == [] then None else Some(p[|p| - 1])
  }
}
