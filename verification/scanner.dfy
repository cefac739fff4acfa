/**
 Repository discovery (`recursiveScanFolder` and `scanGitFolders` in scan.go).
 The file system is an abstract tree: a directory lists its entries in the
 order the directory read returns them. The walk is depth-first and pre-order;
 a directory named ".git" marks its parent as a repository root and is not
 entered, and directories named "vendor" or "node_modules" are skipped whole.
 A directory that cannot be opened or listed aborts the whole scan.
 */
module Scanner {

  /** One directory entry, with the contents of a directory that can be listed. */
  datatype Entry =
    | File(name: string)
    | Dir(name: string, children: seq<Entry>)
    | Unlistable(name: string)  // a directory whose open or read fails

  /** The outcome of a scan: the recorded paths, or the abort of `log.Fatal`. */
  datatype Outcome = Ok(paths: seq<string>) | Fatal

  /** `FileInfo.IsDir`: an unlistable directory is still a directory. */
  predicate IsDir(e: Entry)
  {
    !e.File?
  }

  predicate IsIgnored(name: string)
  {
    name == "vendor" || name == "node_modules"
  }

  /** The marker directory whose parent is a repository root. */
  predicate IsMarker(e: Entry)
  {
    IsDir(e) && e.name == ".git"
  }

  /** A directory the walk descends into. */
  predicate Enterable(e: Entry)
  {
    IsDir(e) && e.name != ".git" && !IsIgnored(e.name)
  }

  /** `strings.TrimSuffix`: drop `suffix` once from the end of `s` if `s` ends with it. */
  function TrimSuffix(s: string, suffix: string): (r: string)
    ensures r == s || r + suffix == s
    ensures |suffix| <= |s| && s[|s| - |suffix|..] == suffix ==> r + suffix == s
  {
    if |suffix| <= |s| && s[|s| - |suffix|..] == suffix then s[..|s| - |suffix|] else s
  }

  /** The paths already gathered, followed by those of a scan that did not abort. */
  function Append(folders: seq<string>, o: Outcome): Outcome
  {
    match o
    case Ok(paths) => Ok(folders + paths)
    case Fatal => Fatal
  }

  /** The paths the walk records below `dir`, reached under the path `folder`. */
  function Found(folder: string, dir: Entry): Outcome
    decreases dir, 0
  {
    if dir.Dir? then FoundAmong(TrimSuffix(folder, "/"), dir.children) else Fatal
  }

  /** The paths recorded for the entries `files` of the directory at `folder`, in order. */
  function FoundAmong(folder: string, files: seq<Entry>): Outcome
    decreases files, 2
  {
    if files == [] then Ok([])
    else
      match FoundAmong(folder, files[..|files| - 1])
      case Fatal => Fatal
      case Ok(before) => Append(before, Visit(folder, files[|files| - 1]))
  }

  /** The paths recorded for one entry of the directory at `folder`. */
  function Visit(folder: string, file: Entry): Outcome
    decreases file, 1
  {
    if !IsDir(file) then Ok([])
    else if file.name == ".git" then Ok([folder])
    else if IsIgnored(file.name) then Ok([])
    else Found(folder + "/" + file.name, file)
  }

  /**
   If the walk over the first k entries extends `folders` to `acc`, the walk
   over the first k + 1 extends it to what entry k adds to `acc`.
   */
  lemma FoundAmongStep(folders: seq<string>, acc: seq<string>, folder: string, files: seq<Entry>, k: nat)
    requires k < |files|
    requires Append(folders, FoundAmong(folder, files[..k])) == Ok(acc)
    ensures Append(folders, FoundAmong(folder, files[..k + 1])) == Append(acc, Visit(folder, files[k]))
  {
    assert files[..k + 1][..k] == files[..k];
  }

  /** Trimming "/.git" from the marker's path gives back the directory's own path. */
  lemma MarkerPath(here: string)
    ensures TrimSuffix(here + "/" + ".git", "/.git") == here
  {
  }

  /** Once a prefix of the entries aborts, the whole directory aborts. */
  lemma {:induction false} FatalPersists(folder: string, files: seq<Entry>, j: nat)
    requires j <= |files| && FoundAmong(folder, files[..j]).Fatal?
    ensures FoundAmong(folder, files).Fatal?
    decreases |files|
  {
    if j < |files| {
      var init := files[..|files| - 1];
      assert init[..j] == files[..j];
      FatalPersists(folder, init, j);
    } else {
      assert files[..j] == files;
    }
  }

  /**
   `scanGitFolders`: walk the directory `dir` found at path `folder`, appending
   the roots it discovers to `folders`, which the result extends.
   */
  method ScanGitFolders(folders: seq<string>, folder: string, dir: Entry) returns (result: Outcome)
    ensures result == Append(folders, Found(folder, dir))
    ensures result.Ok? ==> folders <= result.paths
    decreases dir
  {
    var here := TrimSuffix(folder, "/");
    if !dir.Dir? {
      return Fatal;
    }
    var files := dir.children;
    var acc := folders;
    for k := 0 to |files|
      invariant Append(folders, FoundAmong(here, files[..k])) == Ok(acc)
    {
      var file := files[k];
      FoundAmongStep(folders, acc, here, files, k);
      if IsDir(file) {
        var path := here + "/" + file.name;
        if file.name == ".git" {
          MarkerPath(here);
          path := TrimSuffix(path, "/.git");
          acc := acc + [path];
          continue;
        }
        if IsIgnored(file.name) {
          continue;
        }
        var sub := ScanGitFolders(acc, path, file);
        if sub.Fatal? {
          assert FoundAmong(here, files[..k + 1]).Fatal?;
          FatalPersists(here, files, k + 1);
          return Fatal;
        }
        acc := sub.paths;
      }
    }
    assert files[..|files|] == files;
    return Ok(acc);
  }

  // The reference description: which directories a walk from the root reaches,
  // as routes of child positions through enterable directories.

  /** `route` leads from `from` through listed, enterable directories. */
  ghost predicate Leads(from: Entry, route: seq<nat>)
    decreases |route|
  {
    route == [] ||
    (from.Dir? && route[0] < |from.children| && Enterable(from.children[route[0]])
     && Leads(from.children[route[0]], route[1..]))
  }

  /** The entry at the end of `route`. */
  ghost function Reached(from: Entry, route: seq<nat>): Entry
    requires Leads(from, route)
    decreases |route|
  {
    if route == [] then from else Reached(from.children[route[0]], route[1..])
  }

  /** The path of the entry at the end of `route`, as the walk spells it. */
  ghost function PathAlong(folder: string, from: Entry, route: seq<nat>): string
    requires Leads(from, route)
    decreases |route|
  {
    if route == [] then TrimSuffix(folder, "/")
    else
      var c := from.children[route[0]];
      PathAlong(TrimSuffix(folder, "/") + "/" + c.name, c, route[1..])
  }

  /** A listed directory that has a marker directory among its entries. */
  ghost predicate HasMarker(d: Entry)
  {
    d.Dir? && exists j :: 0 <= j < |d.children| && IsMarker(d.children[j])
  }

  /** `p` is the path of a reachable repository root below `root` at `folder`. */
  ghost predicate Discovers(folder: string, root: Entry, p: string)
  {
    exists route :: Leads(root, route) && HasMarker(Reached(root, route)) && PathAlong(folder, root, route) == p
  }

  /** Some directory the walk has to list cannot be listed. */
  ghost predicate Blocked(root: Entry)
  {
    exists route :: Leads(root, route) && !Reached(root, route).Dir?
  }

  /** A directory is blocked exactly when one of its enterable entries is. */
  lemma BlockedStep(d: Entry)
    requires d.Dir?
    ensures Blocked(d) <==> exists j :: 0 <= j < |d.children| && Enterable(d.children[j]) && Blocked(d.children[j])
  {
    if Blocked(d) {
      var route :| Leads(d, route) && !Reached(d, route).Dir?;
      var j := route[0];
      assert Leads(d.children[j], route[1..]) && !Reached(d.children[j], route[1..]).Dir?;
    }
    if exists j :: 0 <= j < |d.children| && Enterable(d.children[j]) && Blocked(d.children[j]) {
      var j :| 0 <= j < |d.children| && Enterable(d.children[j]) && Blocked(d.children[j]);
      var route :| Leads(d.children[j], route) && !Reached(d.children[j], route).Dir?;
      var full := [j] + route;
      assert full[1..] == route;
      assert Leads(d, full) && !Reached(d, full).Dir?;
    }
  }

  /** A directory discovers its own path when it holds a marker, and what its enterable entries discover. */
  lemma DiscoversStep(folder: string, d: Entry, p: string)
    requires d.Dir?
    ensures Discovers(folder, d, p) <==>
      (HasMarker(d) && p == TrimSuffix(folder, "/")) ||
      exists j :: 0 <= j < |d.children| && Enterable(d.children[j])
        && Discovers(TrimSuffix(folder, "/") + "/" + d.children[j].name, d.children[j], p)
  {
    var here := TrimSuffix(folder, "/");
    if Discovers(folder, d, p) {
      var route :| Leads(d, route) && HasMarker(Reached(d, route)) && PathAlong(folder, d, route) == p;
      if route != [] {
        var j := route[0];
        var c := d.children[j];
        assert Leads(c, route[1..]) && HasMarker(Reached(c, route[1..])) && PathAlong(here + "/" + c.name, c, route[1..]) == p;
      }
    }
    if HasMarker(d) && p == here {
      assert Leads(d, []) && Reached(d, []) == d && PathAlong(folder, d, []) == p;
    }
    if exists j :: 0 <= j < |d.children| && Enterable(d.children[j])
        && Discovers(here + "/" + d.children[j].name, d.children[j], p) {
      var j :| 0 <= j < |d.children| && Enterable(d.children[j])
        && Discovers(here + "/" + d.children[j].name, d.children[j], p);
      var c := d.children[j];
      var route :| Leads(c, route) && HasMarker(Reached(c, route)) && PathAlong(here + "/" + c.name, c, route) == p;
      var full := [j] + route;
      assert full[1..] == route;
      assert Leads(d, full) && HasMarker(Reached(d, full)) && PathAlong(folder, d, full) == p;
    }
  }

  /** The walk below one entry aborts exactly when that entry is blocked, and otherwise records what it discovers. */
  lemma {:induction false} FoundMeaning(folder: string, dir: Entry)
    ensures Found(folder, dir).Fatal? <==> Blocked(dir)
    ensures Found(folder, dir).Ok? ==> forall p :: p in Found(folder, dir).paths <==> Discovers(folder, dir, p)
    decreases dir, 0
  {
    if dir.Dir? {
      var here := TrimSuffix(folder, "/");
      FoundAmongMeaning(here, dir.children);
      BlockedStep(dir);
      forall p {
        DiscoversStep(folder, dir, p);
      }
    } else {
      assert Leads(dir, []) && !Reached(dir, []).Dir?;
    }
  }

  /** The entries of one directory, taken together: the induction step of the walk. */
  lemma {:induction false} FoundAmongMeaning(folder: string, files: seq<Entry>)
    ensures FoundAmong(folder, files).Fatal? <==>
      exists j :: 0 <= j < |files| && Enterable(files[j]) && Blocked(files[j])
    ensures FoundAmong(folder, files).Ok? ==> forall p :: p in FoundAmong(folder, files).paths <==>
      ((exists j :: 0 <= j < |files| && IsMarker(files[j])) && p == folder) ||
      exists j :: 0 <= j < |files| && Enterable(files[j]) && Discovers(folder + "/" + files[j].name, files[j], p)
    decreases files, 2
  {
    if files != [] {
      var n := |files| - 1;
      var init, file := files[..n], files[n];
      FoundAmongMeaning(folder, init);
      assert forall j :: 0 <= j < n ==> init[j] == files[j];
      if Enterable(file) {
        FoundMeaning(folder + "/" + file.name, file);
      }
    }
  }

  /** The entries of a directory can be walked in two consecutive parts. */
  lemma {:induction false} FoundAmongConcat(folder: string, a: seq<Entry>, b: seq<Entry>)
    ensures FoundAmong(folder, a + b) ==
      match FoundAmong(folder, a)
      case Fatal => Fatal
      case Ok(before) => Append(before, FoundAmong(folder, b))
    decreases |b|
  {
    if b == [] {
      assert a + b == a;
    } else {
      var n := |b| - 1;
      assert (a + b)[..|a + b| - 1] == a + b[..n];
      assert (a + b)[|a + b| - 1] == b[n];
      FoundAmongConcat(folder, a, b[..n]);
    }
  }

  /** An entry for which the walk records nothing can be dropped without changing the result. */
  lemma DropSilent(folder: string, files: seq<Entry>, i: nat)
    requires i < |files| && Visit(folder, files[i]) == Ok([])
    ensures FoundAmong(folder, files[..i] + files[i + 1..]) == FoundAmong(folder, files)
  {
    assert files == files[..i] + [files[i]] + files[i + 1..];
    assert FoundAmong(folder, [files[i]]) == Ok([]) by {
      assert [files[i]][..0] == [];
    }
    FoundAmongConcat(folder, files[..i], files[i + 1..]);
    FoundAmongConcat(folder, files[..i] + [files[i]], files[i + 1..]);
    FoundAmongConcat(folder, files[..i], [files[i]]);
  }

  /**
   A "vendor" or "node_modules" directory adds nothing to the scan and never
   aborts it, whatever it holds, marker directories included.
   */
  lemma IgnoredSubtreeAddsNothing(folder: string, name: string, files: seq<Entry>, i: nat)
    requires i < |files| && IsDir(files[i]) && IsIgnored(files[i].name)
    ensures Found(folder, Dir(name, files[..i] + files[i + 1..])) == Found(folder, Dir(name, files))
  {
    DropSilent(TrimSuffix(folder, "/"), files, i);
  }

  /** An entry that is not a directory adds nothing to the scan. */
  lemma NonDirectoryIgnored(folder: string, name: string, files: seq<Entry>, i: nat)
    requires i < |files| && files[i].File?
    ensures Found(folder, Dir(name, files[..i] + files[i + 1..])) == Found(folder, Dir(name, files))
  {
    DropSilent(TrimSuffix(folder, "/"), files, i);
  }

  /**
   A marker directory among the entries of the directory at `folder` adds
   exactly `folder`, at its place in the walk, and its contents are never
   looked at: any other marker in its place gives the same result.
   */
  lemma MarkerAddsParent(folder: string, files: seq<Entry>, i: nat, other: Entry)
    requires i < |files| && IsMarker(files[i]) && IsMarker(other)
    ensures FoundAmong(folder, files) ==
      match FoundAmong(folder, files[..i])
      case Fatal => Fatal
      case Ok(before) => Append(before + [folder], FoundAmong(folder, files[i + 1..]))
    ensures FoundAmong(folder, files[i := other]) == FoundAmong(folder, files)
  {
    var swapped := files[i := other];
    assert files == files[..i] + [files[i]] + files[i + 1..];
    assert swapped == files[..i] + [other] + files[i + 1..];
    assert swapped[..i] == files[..i] && swapped[i + 1..] == files[i + 1..];
    assert FoundAmong(folder, [files[i]]) == Ok([folder]) by {
      assert [files[i]][..0] == [];
    }
    assert FoundAmong(folder, [other]) == Ok([folder]) by {
      assert [other][..0] == [];
    }
    FoundAmongConcat(folder, files[..i] + [files[i]], files[i + 1..]);
    FoundAmongConcat(folder, files[..i], [files[i]]);
    FoundAmongConcat(folder, files[..i] + [other], files[i + 1..]);
    FoundAmongConcat(folder, files[..i], [other]);
  }

  /**
   The documented example: in /root, proj1 and proj3 hold ".git", and proj2
   holds one only inside node_modules.
   */
  lemma ScanExample()
    ensures Found("/root", Dir("root", [
      Dir("proj1", [Dir(".git", [])]),
      Dir("proj2", [Dir("node_modules", [Dir(".git", [])])]),
      Dir("proj3", [Dir(".git", [])])])) == Ok(["/root/proj1", "/root/proj3"])
  {
    var marker := [Dir(".git", [])];
    var proj1, proj2, proj3 := Dir("proj1", marker), Dir("proj2", [Dir("node_modules", marker)]), Dir("proj3", marker);
    var entries := [proj1, proj2, proj3];
    assert marker[..0] == [] && [proj1][..0] == [];
    assert TrimSuffix("/root", "/") == "/root" by {
      assert "/root"[4..] != "/";
    }
    assert "/root" + "/" + "proj1" == "/root/proj1";
    assert "/root" + "/" + "proj2" == "/root/proj2";
    assert "/root" + "/" + "proj3" == "/root/proj3";
    assert Visit("/root", proj1) == Ok(["/root/proj1"]) by {
      assert TrimSuffix("/root/proj1", "/") == "/root/proj1" by {
        assert "/root/proj1"[10..] != "/";
      }
    }
    assert Visit("/root", proj2) == Ok([]) by {
      var inner := [Dir("node_modules", marker)];
      assert inner[..0] == [] && proj2.children == inner;
      assert IsIgnored(inner[0].name) && inner[0].name != ".git";
      assert Visit("/root/proj2", inner[0]) == Ok([]);
      assert FoundAmong("/root/proj2", inner) == Ok([]);
    }
    assert Visit("/root", proj3) == Ok(["/root/proj3"]) by {
      assert TrimSuffix("/root/proj3", "/") == "/root/proj3" by {
        assert "/root/proj3"[10..] != "/";
      }
    }
    assert entries[..2] == [proj1, proj2] && entries[..2][..1] == [proj1];
    assert FoundAmong("/root", [proj1]) == Ok(["/root/proj1"]);
    assert FoundAmong("/root", entries[..2]) == Ok(["/root/proj1"]);
    assert entries[..3][..2] == entries[..2] && entries[..3] == entries;
  }

  /**
   `recursiveScanFolder`: the walk from the root with an empty accumulator. It
   aborts exactly when a directory it must list cannot be listed, and otherwise
   returns exactly the parents of the reachable marker directories.
   */
  method RecursiveScanFolder(folder: string, root: Entry) returns (result: Outcome)
    ensures result == Found(folder, root)
    ensures result.Fatal? <==> Blocked(root)
    ensures result.Ok? ==> forall p :: p in result.paths <==> Discovers(folder, root, p)
  {
    result := ScanGitFolders([], folder, root);
    FoundMeaning(folder, root);
  }
}
