# RustFileFinder in Dafny

A verified model of the search core of RustFileFinder, a command-line file
finder. Given a pattern, a start directory and some options, the program does
four things:

- it rewrites the glob-like pattern into a regular expression that starts with
  `^` and ends with the character `$`;
- it walks the directory tree, recording every entry whose name matches the
  expression or, with content search on, every file one of whose lines matches
  it;
- it optionally sorts the records by name, size or modification date;
- it prints the records.

The model covers the first three steps and the record they produce.

| file | module | models |
|---|---|---|
| `glob.dfy` | `Glob` | `glob_to_regex`: the one-pass translator as a method, plus a declarative description of its output |
| `content.dfy` | `Content` | `search_file_content`: the early-exit scan over a file's lines |
| `filesystem.dfy` | `FileSystem` | the directory tree as the walk sees it, and the `FileInfo` record |
| `traversal.dfy` | `Traversal` | `find_files`: the loop-and-recurse walk as methods, its recursive specification, and what is proved about it |
| `stable_sort.dfy` | `StableSort` | the contract of `slice::sort_by` (a stable sort), for any comparator that is a total preorder, with an in-place insertion sort meeting it |
| `ordering.dfy` | `Ordering` | the three comparators of the sort block and the `--sort` values that select them |
| `sorting.dfy` | `Sorting` | the sort block of `main`, on the result vector |
| `finder.dfy` | `Finder` | `main` up to printing: translate, compile, walk, sort |
| `wrappers.dfy`, `sequences.dfy` | `Wrappers`, `Sequences` | `Option`, and small sequence lemmas used by the proofs |

Modelling choices:

- **The matcher.** The regular-expression library is not part of this model.
  A compiled expression is a parameter `isMatch: string -> bool`, and
  compilation is a parameter `compile: string -> string -> bool` of `Finder`.
  The same `isMatch` is used for names and for lines, as in the program.
- **The filesystem.** The filesystem is a finite tree (`Node`, `Listing`,
  `DirEntry`).
  - The metadata call, the file test and the directory test on an entry's path
    all see the same target.
  - `Broken` is an entry whose metadata cannot be read. Such an entry is
    neither a file nor a directory.
  - A listing may be `Unreadable`, a listed entry may be an `EntryError`, and a
    file may be `Unopenable` or contain a `LineError`.
- **Times** are integers counted from the Unix epoch. A missing modification
  time is `None`.
- **Sizes** are `U64`.
- **Paths** are sequences of names: the start directory, then the name of each
  entry below it.
- **Anchoring.** The final `$` anchors the match at the end only when the
  translation before it does not end in a backslash. A backslash is copied
  bare, so a pattern ending in one yields an expression ending in `\$`, a
  literal dollar sign (`Glob.TrailingBackslashEscapesEnd`). For example, `abc\`
  becomes `^abc\$`, which matches `abc$xyz`. The model keeps this behaviour
  as written.

## Model

| member | source | states |
|---|---|---|
| Glob.Emit | src/main.rs:174-204 | What one character becomes. Outside brackets, `*` becomes `.*`, `?` becomes `.`, and each of `. + ( ) ^ $ @ %` and the vertical bar gets exactly one backslash in front. Inside brackets every character is copied bare, and `[`, `]` and every other character are always copied unchanged. The output is one or two characters. |
| Glob.GlobToRegex | src/main.rs:169-208 | The one-pass translator with its `in_brackets` flag computes `GlobRegex(pattern)`. The result starts with `^`, ends with `$`, is between n+2 and 2n+2 characters long for a pattern of n characters, and the empty pattern gives exactly `^$`. |
| Glob.TranslationLength | src/main.rs:173-205 | Each pattern character contributes one or two output characters. |
| Glob.StateAfterSnoc | src/main.rs:189-196 | The bracket flag after one more character is the flag updated by that character alone. |
| Glob.TranslateSnoc | src/main.rs:173-205 | The translation of a longer pattern extends the translation of its prefix, in input order. |
| Glob.OpenAfterSnoc | src/main.rs:189-196 | The declarative bracket state ("some `[` not followed by any `]`") changes only on `[` (to open) and `]` (to closed). |
| Glob.StateIsOpenAfter | src/main.rs:171-196 | The translator's flag after a prefix is true exactly when some `[` in the prefix has no later `]`. A second `[` keeps it open, and no escape affects it. |
| Glob.TranslationAppends | src/main.rs:170-205 | Appending a character appends exactly its `Emit` in the bracket state its prefix leaves. Starting from the empty pattern, this fixes the whole output character by character. |
| Glob.TrailingBackslashEscapesEnd | src/main.rs:203-207 | A pattern ending in a backslash yields an expression whose last two characters are a backslash and `$`, so the `$` is escaped and is no end anchor. |
| Glob.TrailingBackslashExample | src/main.rs:197-207 | The pattern `abc` followed by a backslash translates to `^abc`, a backslash, then `$`. |
| Glob.PlainPatternCopied | src/main.rs:203 | A pattern with no special character is copied unchanged, and the bracket flag does not change. |
| Glob.BracketContentsCopied | src/main.rs:175-196 | Inside an open bracket expression, everything up to the closing `]` is copied bare, and the expression stays open. |
| Content.SearchFileContent | src/main.rs:155-167 | The result is true exactly when the file opens and some successfully read line satisfies the matcher. An unopenable file gives false. |
| FileSystem.FileName | src/main.rs:79 | The last path component. It exists exactly for a non-empty path and is the name appended last. |
| Traversal.Record | src/main.rs:126-141 | An entry gets a record exactly when its metadata is readable and either its name matches or (content search is on, it is a file, and some line matches). The record holds the entry's path, the metadata length, the modification time or the Unix epoch, and `matches_content`, which is true only for a content hit with content search on. |
| Traversal.OwnRecord | src/main.rs:123-143 | The loop body's push computes `Record`, reading a file's content only for content search. |
| Traversal.FindInEntry | src/main.rs:122-148 | One loop pass computes `EntryRecords`: a failed entry gives nothing, otherwise the entry's own record is followed by its directory's subtree. |
| Traversal.FindFiles | src/main.rs:117-153 | The loop-and-recurse walk computes `Walk`. An unreadable directory gives no records. |
| Traversal.WalkEntriesAppend | src/main.rs:121-149 | Records come in listing order: walking two runs of entries gives their records concatenated. |
| Traversal.EntryPlacement | src/main.rs:121-149 | Entry `i`'s records lie between those of the entries before it and those after it. |
| Traversal.FailedEntrySkipped | src/main.rs:121-122 | An entry that fails to read contributes nothing, and iteration over its siblings continues. |
| Traversal.SubtreeFollowsEntry | src/main.rs:126-147 | Every directory is descended into, whether or not its name matched. Its subtree's records come right after its own record and before the next sibling's. |
| Traversal.SoundBelow | src/main.rs:123-146 | A record below a subdirectory is also below its parent. |
| Traversal.WalkSound | src/main.rs:117-153 | Every record lies strictly below the start directory and was kept because its name or its content matched. `matches_content` is true only with content search on. |
| Traversal.WalkEntriesSound | src/main.rs:121-149 | The same, for a sequence of entries. |
| Traversal.EntryRecordsSound | src/main.rs:122-148 | The same, for one entry and its subtree. |
| Traversal.CollectAppend | src/main.rs:121-149 | Applying the inclusion rule distributes over concatenation. |
| Traversal.CollectMembership | src/main.rs:126-141 | A record is collected exactly when it is the record of some reached entry. |
| Traversal.WalkIsCollectOfReached | src/main.rs:117-153 | The walk equals the inclusion rule applied in order to every reachable entry in depth-first pre-order. Which entries are visited, and in what order, does not depend on the pattern. |
| Traversal.WalkEntriesIsCollect | src/main.rs:121-149 | The same, for a sequence of entries. |
| Traversal.EntryRecordsIsCollect | src/main.rs:122-148 | The same, for one entry and its subtree. |
| Traversal.FoundIff | src/main.rs:117-153 | A record is found exactly when some reachable entry passes the inclusion rule with that record (both directions). |
| Traversal.DistinctConcat | src/main.rs:146 | Entries with distinct paths, followed by entries with distinct paths none of which are among the first, have distinct paths. |
| Traversal.ReachedUnder | src/main.rs:123-146 | Every reachable entry's path extends the directory walked. |
| Traversal.ReachedEntriesUnder | src/main.rs:121-149 | The same, for a listing, and the component right below the directory names an entry of that listing. |
| Traversal.ReachedEntryUnder | src/main.rs:123-147 | Everything reached through an entry has a path starting with that entry's path. |
| Traversal.ReachedDistinct | src/main.rs:117-153 | In a tree whose directories hold no two entries with one name, no two reachable entries share a path. |
| Traversal.ReachedEntriesDistinct | src/main.rs:121-149 | The same, for a listing. |
| Traversal.ReachedEntryDistinct | src/main.rs:122-148 | The same, for one entry and its subtree. |
| Traversal.CollectDistinct | src/main.rs:126-141 | Records taken from entries with distinct paths have distinct paths. |
| Traversal.PathsUnique | src/main.rs:117-153 | In such a tree, the walk never reports the same path twice. |
| Ordering.CompareInt | src/main.rs:80-81 | Three-way integer comparison: `Less` exactly when smaller, `Greater` exactly when larger. |
| Ordering.ParseSortKey | src/main.rs:77-83 | `"name"`, `"size"` and `"date"` select their keys (each if and only if). Every other value selects nothing. |
| Ordering.CompareStrEqual | src/main.rs:79 | Name comparison returns `Equal` exactly for equal names. |
| Ordering.CompareStrFlip | src/main.rs:79 | Swapping the names flips `Greater` into `Less`. |
| Ordering.CompareStrTransitive | src/main.rs:79 | Name comparison's "not greater" is transitive. |
| Ordering.CompareIsTotalPreorder | src/main.rs:79-81 | Each comparator is total and transitive, and swapping flips it. Its ties are exactly the records with the same file name, size or modification time. |
| Ordering.ComparatorIsTotalPreorder | src/main.rs:79-81 | The three closures handed to `sort_by` meet what a stable sort expects, and their ties are the records that agree on the key. |
| StableSort.TiesAreEquivalence | src/main.rs:79-81 | For a total preorder, ties are reflexive, symmetric and transitive, any two elements are ordered one way or the other, and mutual precedence means a tie. |
| StableSort.PrecedesTransitive | src/main.rs:79-81 | "Not greater" is transitive for a total preorder. |
| StableSort.InsertPermutes | src/main.rs:79-81 | Inserting adds exactly one copy of the element. |
| StableSort.InsertSorted | src/main.rs:79-81 | Inserting into a sorted sequence keeps it sorted. |
| StableSort.TieClassSnoc | src/main.rs:79-81 | A tie class grows by the appended element exactly when that element ties. |
| StableSort.InsertKeepsTies | src/main.rs:79-81 | Inserting after every element that is not greater puts the new element last among its ties. |
| StableSort.SortPermutes | src/main.rs:79-81 | The sort is a permutation of its input. |
| StableSort.SortSorts | src/main.rs:79-81 | The sort orders every pair of elements. |
| StableSort.SortIsStable | src/main.rs:79-81 | The sort is stable: elements that tie keep their input order. |
| StableSort.TieClassMembers | src/main.rs:79-81 | A tie class holds only elements of the sequence that tie. |
| StableSort.SortedPrefix | src/main.rs:79-81 | A sorted sequence's prefix is sorted, and its last element is preceded by every element. |
| StableSort.LastInOwnClass | src/main.rs:79-81 | The last element belongs to its own tie class. |
| StableSort.LastPrecedesLast | src/main.rs:79-81 | If the two tie classes of the last element of `a` are equal, that element precedes the last element of the sorted `b`. |
| StableSort.ClassEndsWithLast | src/main.rs:79-81 | A last element that ties with `x` ends `x`'s tie class. |
| StableSort.LastsEqual | src/main.rs:79-81 | Sorted sequences with matching tie classes end with the same element. |
| StableSort.DropLastKeepsClasses | src/main.rs:79-81 | Equal tie classes stay equal once a common last element is dropped. |
| StableSort.SortedClassesDetermine | src/main.rs:79-81 | Sorted sequences with the same tie classes are equal. |
| StableSort.SortedIsUnique | src/main.rs:79-81 | Any sorted, stable rearrangement of the input is the one the sort computes. So any stable sort, `sort_by`'s merge sort included, gives the modelled order. |
| StableSort.SortInPlace | src/main.rs:79-81 | Sorting the vector in place leaves it holding `SortBy` of its old contents. |
| StableSort.InsertLast | src/main.rs:79-81 | One insertion step places the element where `Insert` puts it and leaves the rest of the array unchanged. |
| StableSort.InsertAt | src/main.rs:79-81 | An element inserted after a non-greater element and before only greater ones lands at that position. |
| StableSort.SortBySnoc | src/main.rs:79-81 | Sorting one more element is inserting it into the sorted prefix. |
| Sorting.Arrange | src/main.rs:76-84 | The sort step keeps the multiset of records. With no `--sort` value, or an unknown one, it keeps the discovery order. |
| Sorting.ArrangeIsStableSort | src/main.rs:77-83 | With a known key the records come out sorted by its comparator and stably, and no other ordering has both properties. |
| Sorting.SortOrders | src/main.rs:79-81 | `name` gives names ascending (a missing name first), `size` gives sizes descending, and `date` gives modification times descending. |
| Sorting.SortResults | src/main.rs:76-84 | The in-place sort block leaves the vector holding `Arrange` of its old contents. |
| Finder.FindAndSort | src/main.rs:72-84 | Translate, compile, walk from the start directory, then sort: the result is `Arrange` of the walk under the compiled translation. |
| Finder.SearchResults | src/main.rs:72-84 | The final records are the walk's records: the same multiset, every one below the start directory and justified by a name or content match, and in discovery order when no known sort key was given. |

## Left out

- Argument parsing. The `Args` structure and `clap` are library glue; their
  fields are parameters here. `clap` also restricts `--sort` to the three
  keys, which the model does not rely on: it keeps the `_ => {}` arm.
- Regular-expression compilation and matching. These belong to the `regex`
  library, which is not part of this model, so matching is a parameter.
  `Regex::new(...).unwrap()` panics on an invalid expression, and that panic
  is not modelled: `compile` always yields a matcher. (The program has no
  error path for an invalid pattern. It stops at the `unwrap`.)
- Real filesystem calls: `read_dir`, `metadata`, `is_file`, `is_dir`,
  `File::open` and `lines`. They become the tree datatype. Changes to the
  filesystem between these separate calls are not modelled: each entry has one
  coherent status.
- The print-time re-check `file.path.is_file()` before printing a size. It
  depends on the live filesystem.
- Output formatting and the date rendering with `chrono`. These are I/O and a
  foreign library.
- `human_readable_size`, because it computes with floating-point `log`,
  `powi` and division. Its unit index would pass the end of the six-entry unit
  table for sizes of 2^60 bytes and more, but showing that needs floating-point
  reasoning.
- The panicking `unwrap`s on `file_name()` and `to_str()` for unusual or
  non-UTF-8 paths. Names are well-formed strings here. `to_string_lossy` is
  the identity on them.
- Symlink cycles and unbounded recursion depth. The modelled tree is finite.
- Content.SearchFileContent: a file whose reads keep failing is modelled as
  finitely many `LineError`s, so the scan always ends. In the program, the
  lines iterator yields an error again on every call while a read error
  persists, and each error is skipped, so the scan and the whole run would
  never end.
- `Ordering.CompareStr`: platform names are compared as byte strings. The
  model compares them as character sequences, which is the same order for
  well-formed UTF-8.
- `StableSort.SortInPlace`: `sort_by` is a library merge sort. The model sorts
  with insertion sort instead. `StableSort.SortedIsUnique` shows that every
  stable sort by the same comparator gives the same sequence, so the visible
  result is the same.
- `Traversal.FindFiles`: it recurses over a finite tree rather than calling
  `read_dir` on a path. A listing failure and the failure of an individual
  entry are the two error points, as in the program.
