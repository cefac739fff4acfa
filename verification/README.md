# Git repository discovery and registry — a Dafny model

This project models the core of a small command-line tool (`scan.go`) that
finds Git repositories below a folder and records them in a per-user registry
file for later statistics. The tool has two parts:

- **Repository discovery** (`recursiveScanFolder`, `scanGitFolders`): a
  depth-first, pre-order walk of a directory tree. A directory entry named
  `.git` records its parent's path and is not entered. Directories named
  `vendor` or `node_modules` are skipped whole. Every other directory is
  entered. Entries that are not directories are ignored. One accumulator list
  is threaded through the recursion. A directory that cannot be opened or
  listed ends the process (`log.Fatal`).
- **Registry merge** (`sliceContains`, `joinSlices`,
  `addNewSliceElementsToFile`): the registry is an ordered list of paths
  without duplicates. It is stored as the list joined with `"\n"` and read
  back line by line. New paths are appended only when the list built so far
  does not already hold them, so repeats inside the new input are dropped too.

The Dafny modules follow that split:

- `Registry` (`registry.dfy`): `SliceContains`; the specification function
  `Merge`; the `JoinSlices` loop; and the merge lemmas (prefix kept, coverage,
  no duplicates, idempotence, and the appended part as an independent
  `Novel` definition).
- `Store` (`store.dfy`): the registry file as a text value. `Lines` is the
  reading side, a split on `'\n'` as a line scanner does it: no line for
  empty text, and no empty last line after a final newline. `JoinLines` is
  the writing side. The module also holds the `ParseFileLinesToSlice` loop,
  `AddNewSliceElementsToFile`, and the round trips between the two sides.
- `Scanner` (`scanner.dfy`): the file system as a tree of `Entry` values.
  A directory's children are in the order the directory read returns them.
  An `Unlistable` directory stands for one whose open or read fails. The
  walk is the method `ScanGitFolders`, proved equal to the specification
  function `Found`. `Found` is then proved equal to an independent
  description: routes of child positions from the root through enterable
  directories (`Leads`, `Reached`, `PathAlong`, `Discovers`, `Blocked`).
- `AddFolder` (`add_folder.dfy`): the `scan` driver, which walks and then
  merges.

Where the code does less than the tool's stated intent, the model follows the code:

- Only one trailing `/` is trimmed from a folder path (`strings.TrimSuffix`),
  so recorded paths are not fully normalised.
- The registry file is not created when it is missing. `getDotFilePath`
  only builds the path, and reading a missing file panics. The model takes
  the file's current text as given.
- Idempotence of the stored text is proved when no new path contains a
  newline and the merged list does not end with an empty entry. Only those two
  cases break it. A path with a newline is split into two on the next read
  (`Store.UpdatedNotIdempotentOnNewline`). An empty last line turns into a
  final newline that the next read drops: stored `"a\n\n"` becomes `"a\n"`
  and then `"a"` (`Store.UpdatedNotIdempotentOnEmptyLast`). The in-memory
  merge is idempotent without conditions.

## Model

| member | source | states |
|---|---|---|
| `Registry.SliceContains` | scan.go:53-61 | true exactly when some element of the slice equals the value |
| `Registry.JoinSlices` | scan.go:63-71 | the loop returns `Merge(new, existing)`; `existing` is a prefix of the result; the result holds exactly the old and the new paths; it has no duplicates when `existing` has none |
| `Registry.MergeExtends` | scan.go:64-71 | a merge never removes or reorders an existing entry, and it appends at most one entry per new path |
| `Registry.MergeMembers` | scan.go:65-69 | every new path is in the merged list, and every merged entry is an old or a new path |
| `Registry.MergeNoDuplicates` | scan.go:66-67 | a duplicate-free list stays duplicate-free, even when the new paths repeat one another |
| `Registry.MergeAbsorbs` | scan.go:64-71 | merging paths that are all present already, the empty input among them, leaves the list unchanged |
| `Registry.MergeIdempotent` | scan.go:64-71 | merging the same paths a second time changes nothing |
| `Registry.MergeAppendsNovel` | scan.go:65-69 | the merged list is the old list followed by the new paths not yet present, each at its first occurrence, in input order |
| `Registry.MergeExample` | scan.go:63-71 | `["/a/b","/a/c"]` merged with `["/a/c","/a/d","/a/d"]` gives `["/a/b","/a/c","/a/d"]` |
| `Store.NewlineIndex` | scan.go:44-45 | the scanner's next token ends at the first newline, or at the end of the text if there is none |
| `Store.Lines` | scan.go:39-46 | no line read from the file contains a newline |
| `Store.ParseFileLinesToSlice` | scan.go:32-50 | the scanning loop, which appends one line per iteration, returns exactly `Lines(content)` |
| `Store.AddNewSliceElementsToFile` | scan.go:83-86 | the file afterwards holds the `"\n"`-join of `Merge(newRepos, Lines(old text))` |
| `Store.NewlineIndexAfter` | scan.go:74 | in a joined text, the first separator follows the first entry |
| `Store.LinesOfJoinLines` | scan.go:73-75 | reading back a joined list gives the list, when no entry holds a newline and the last one is non-empty |
| `Store.JoinLinesOfLines` | scan.go:39-46 | joining the lines read from a text gives the text back, unless the text ends with a newline |
| `Store.LinesIgnoreFinalNewline` | scan.go:39-46 | a final newline after a non-empty last line adds no line: the text reads the same with or without it |
| `Store.MergeKeepsEntries` | scan.go:64-71 | merging non-empty, newline-free paths yields only such paths |
| `Store.UpdatedReadsBack` | scan.go:83-86 | after the update, reading the file gives the merged list: stored entries keep their places and every new path is present, when no new path holds a newline and the merged list does not end with an empty entry |
| `Store.UpdatedOfJoined` | scan.go:83-86 | updating a file written from a list that reads back (no newline in an entry, non-empty last entry) writes the join of the merge into exactly that list |
| `Store.UpdatedIdempotent` | scan.go:79-87 | running the update twice with the same paths leaves the same text as running it once, under the same condition as `UpdatedReadsBack` |
| `Store.UpdatedNotIdempotentOnNewline` | scan.go:73-75 | a path containing a newline is split on the next read, so a second update changes the text |
| `Store.UpdatedNotIdempotentOnEmptyLast` | scan.go:83-86 | stored text ending in an empty line, `"a\n\n"`, becomes `"a\n"` after one update and `"a"` after a second |
| `Scanner.TrimSuffix` | scan.go:107 | the suffix is removed exactly once when present, and otherwise the string is unchanged |
| `Scanner.FoundAmongStep` | scan.go:119-133 | one loop iteration extends the accumulator by what the current entry adds |
| `Scanner.MarkerPath` | scan.go:121-123 | trimming `"/.git"` from a marker's path gives the (trimmed) folder itself |
| `Scanner.FatalPersists` | scan.go:108-116 | an abort while listing any entry aborts the whole directory |
| `Scanner.ScanGitFolders` | scan.go:103-135 | the walk returns `folders` followed by `Found(folder, dir)`, or aborts exactly when `Found` does; `folders` is a prefix of the result |
| `Scanner.BlockedStep` | scan.go:108-131 | a directory's walk meets an unlistable directory exactly when one of its enterable entries does |
| `Scanner.DiscoversStep` | scan.go:119-133 | a directory discovers its own path when it holds a `.git` directory, plus whatever its enterable entries discover |
| `Scanner.FoundMeaning` | scan.go:106-135 | the walk aborts exactly when an unlistable directory is reachable; otherwise it records exactly the parents of reachable `.git` directories |
| `Scanner.FoundAmongMeaning` | scan.go:119-133 | a directory's entries abort the walk exactly when an enterable one is blocked; otherwise they record the folder once per `.git` entry, plus what the enterable entries discover |
| `Scanner.FoundAmongConcat` | scan.go:119-133 | the entries can be walked in two consecutive parts whose records are concatenated |
| `Scanner.DropSilent` | scan.go:119-133 | removing an entry for which nothing is recorded leaves the result unchanged |
| `Scanner.IgnoredSubtreeAddsNothing` | scan.go:128-130 | a `vendor` or `node_modules` directory adds nothing and never aborts the scan, whatever it contains, `.git` directories included |
| `Scanner.NonDirectoryIgnored` | scan.go:119-120 | an entry that is not a directory adds nothing |
| `Scanner.MarkerAddsParent` | scan.go:121-126 | a `.git` directory adds exactly the folder, at its place in the walk, and its contents are never examined |
| `Scanner.ScanExample` | scan.go:106-135 | scanning `/root` with `proj1/.git`, `proj2/node_modules/.git` and `proj3/.git` gives `["/root/proj1","/root/proj3"]` |
| `Scanner.RecursiveScanFolder` | scan.go:89-93 | the walk starts from an empty accumulator; it aborts exactly when an unlistable directory is reachable, and otherwise returns exactly the parents of the `.git` directories reachable without entering an ignored name |
| `AddFolder.Scan` | scan.go:95-101 | a scan that aborts leaves the registry text unchanged; otherwise the text becomes the merge of the discovered paths; when no discovered path holds a newline and the merged list does not end with an empty entry, every stored entry keeps its place and every discovered repository is in the registry afterwards |

## Left out

- `getDotFilePath` and `openFile` (scan.go:12-30): the user lookup and file creation are operating-system calls with no logic of their own.
- File input and output: the registry file is modelled by its text before and after the update. A read that fails (including a missing file, which the code does not create) panics in the source. That panic is not modelled, because the text is always given.
- The line scanner's limits: its 1 MiB token limit (a longer line panics) and its removal of a `'\r'` before each newline are not modelled. `Lines` splits on `'\n'` only.
- The ignored `os.WriteFile` error (scan.go:75): the model assumes the write succeeds.
- Process termination: `log.Fatal` in the walk is the result `Outcome.Fatal`, and the abort itself is not modelled.
- Console output (scan.go:96, 100, 124): `fmt.Println` prints each path as it is found, even when the scan later aborts. That printing is a side effect only and is not modelled.
- The enumeration order of the directory read: each directory's child order is given by the tree. Symbolic links need no separate case. `Readdir` describes each entry as `Lstat` would (scan.go:112, 120), so a link to a directory is not a directory and the walk never follows it. Such an entry is a `File` in the tree, and the walk cannot meet a cycle.
- Open failures that depend on the path string: a scan of `/` trims the path to the empty string, and opening that fails (scan.go:107-110). In the model, whether a directory can be opened is given by the tree (`Unlistable`), not derived from its path.
- Slice aliasing: `append` in `joinSlices` may write into the caller's backing array. The model works on sequence values, and the caller's list is a local one in any case.
- The `User` struct (scan.go:137-148) is unused. `main.go` only parses flags and dispatches, and the statistics part is not part of this model.
- Store.UpdatedReadsBack: requires that no new path contains a newline and that the merged list does not end with an empty entry. A path with a newline is split by the next read, and an empty last entry leaves only a final newline, which the next read drops.
- Store.UpdatedIdempotent: re-adding the same repositories is meant to leave the registry file unchanged. The lemma proves it only under the condition of `Store.UpdatedReadsBack`. `Store.UpdatedNotIdempotentOnNewline` and `Store.UpdatedNotIdempotentOnEmptyLast` show inputs outside that condition where the code does not provide it.
