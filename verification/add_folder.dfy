/**
 The "add folder" workflow (`scan` in scan.go): discover the repositories
 below a folder, then merge them into the registry file. An aborted scan
 leaves the registry file as it was.
 */
module AddFolder {
  import opened Registry
  import opened Store
  import opened Scanner

  /**
   `scan`: `stored` is the registry file's text before the call, `written` its
   text afterwards, and `found` what the walk recorded.
   */
  method Scan(folder: string, root: Entry, stored: string) returns (found: Outcome, written: string)
    ensures found.Fatal? <==> Blocked(root)
    ensures found.Ok? ==> forall p :: p in found.paths <==> Discovers(folder, root, p)
    ensures written == if found.Fatal? then stored else Updated(stored, found.paths)
    ensures found.Ok? && (forall i :: 0 <= i < |found.paths| ==> '\n' !in found.paths[i]) &&
            (var merged := Merge(found.paths, Lines(stored)); merged == [] || merged[|merged| - 1] != "") ==>
      Lines(stored) <= Lines(written) && forall p :: Discovers(folder, root, p) ==> p in Lines(written)
  {
    found := RecursiveScanFolder(folder, root);
    if found.Fatal? {
      return found, stored;
    }
    written := AddNewSliceElementsToFile(stored, found.paths);
    var merged := Merge(found.paths, Lines(stored));
    if (forall i :: 0 <= i < |found.paths| ==> '\n' !in found.paths[i]) && (merged == [] || merged[|merged| - 1] != "") {
      UpdatedReadsBack(stored, found.paths);
    }
  }
}
