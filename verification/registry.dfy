/**
 The in-memory side of the repository registry: an ordered list of repository
 paths without duplicates, and the merge that appends newly discovered paths
 to it (`sliceContains` and `joinSlices` in scan.go).
 */
module Registry {

  /** `sliceContains`: whether some element of `slice` equals `value` exactly. */
  function SliceContains(slice: seq<string>, value: string): (found: bool)
    ensures found <==> exists i :: 0 <= i < |slice| && slice[i] == value
  {
    slice != [] && (slice[0] == value || SliceContains(slice[1..], value))
  }

  /** No path occurs twice in the list. */
  ghost predicate NoDuplicates(s: seq<string>)
  {
    forall i, j :: 0 <= i < j < |s| ==> s[i] != s[j]
  }

  /**
   The list `joinSlices(new, existing)` returns (here `incoming` is Go's `new`): its paths are taken in
   order, and each is appended unless the list built so far already holds it.
   */
  function Merge(incoming: seq<string>, existing: seq<string>): seq<string>
    decreases |incoming|
  {
    if incoming == [] then existing
    else Merge(incoming[1..], if SliceContains(existing, incoming[0]) then existing else existing + [incoming[0]])
  }

  /**
   Independent description of what a merge appends: the paths of `incoming` that
   are not in `seen`, each at its first occurrence, in input order.
   */
  function Novel(incoming: seq<string>, seen: set<string>): seq<string>
    decreases |incoming|
  {
    if incoming == [] then []
    else if incoming[0] in seen then Novel(incoming[1..], seen)
    else [incoming[0]] + Novel(incoming[1..], seen + {incoming[0]})
  }

  /** `joinSlices`: the loop over `incoming` that appends to `existing`. */
  method JoinSlices(incoming: seq<string>, existing: seq<string>) returns (repos: seq<string>)
    ensures repos == Merge(incoming, existing)
    ensures existing <= repos
    ensures forall x :: x in repos <==> x in existing || x in incoming
    ensures NoDuplicates(existing) ==> NoDuplicates(repos)
  {
    repos := existing;
    for k := 0 to |incoming|
      invariant Merge(incoming[k..], repos) == Merge(incoming, existing)
    {
      assert incoming[k..][1..] == incoming[k + 1..];
      if !SliceContains(repos, incoming[k]) {
        repos := repos + [incoming[k]];
      }
    }
    assert incoming[|incoming|..] == [];
    MergeExtends(incoming, existing);
    MergeMembers(incoming, existing);
    if NoDuplicates(existing) {
      MergeNoDuplicates(incoming, existing);
    }
  }

  /** A merge never removes or reorders an existing entry, and appends at most |incoming| paths. */
  lemma {:induction false} MergeExtends(incoming: seq<string>, existing: seq<string>)
    ensures existing <= Merge(incoming, existing)
    ensures |Merge(incoming, existing)| <= |existing| + |incoming|
    decreases |incoming|
  {
    if incoming != [] {
      var next := if SliceContains(existing, incoming[0]) then existing else existing + [incoming[0]];
      MergeExtends(incoming[1..], next);
    }
  }

  /** Every path of `incoming` ends up in the list, and nothing but old or incoming paths does. */
  lemma {:induction false} MergeMembers(incoming: seq<string>, existing: seq<string>)
    ensures forall x :: x in Merge(incoming, existing) <==> x in existing || x in incoming
    decreases |incoming|
  {
    if incoming != [] {
      var next := if SliceContains(existing, incoming[0]) then existing else existing + [incoming[0]];
      MergeMembers(incoming[1..], next);
      assert incoming == [incoming[0]] + incoming[1..];
    }
  }

  /** A duplicate-free list stays duplicate-free, even when `incoming` repeats a path. */
  lemma {:induction false} MergeNoDuplicates(incoming: seq<string>, existing: seq<string>)
    requires NoDuplicates(existing)
    ensures NoDuplicates(Merge(incoming, existing))
    decreases |incoming|
  {
    if incoming != [] {
      var next := if SliceContains(existing, incoming[0]) then existing else existing + [incoming[0]];
      MergeNoDuplicates(incoming[1..], next);
    }
  }

  /** Merging paths that are all present already leaves the list as it is. */
  lemma {:induction false} MergeAbsorbs(incoming: seq<string>, existing: seq<string>)
    requires forall x :: x in incoming ==> x in existing
    ensures Merge(incoming, existing) == existing
    decreases |incoming|
  {
    if incoming != [] {
      assert incoming[0] in incoming;
      MergeAbsorbs(incoming[1..], existing);
    }
  }

  /** Merging the same paths a second time changes nothing. */
  lemma MergeIdempotent(incoming: seq<string>, existing: seq<string>)
    ensures Merge(incoming, Merge(incoming, existing)) == Merge(incoming, existing)
  {
    MergeMembers(incoming, existing);
    MergeAbsorbs(incoming, Merge(incoming, existing));
  }

  /** What a merge appends is exactly the novel paths of `incoming`, in input order. */
  lemma {:induction false} MergeAppendsNovel(incoming: seq<string>, existing: seq<string>)
    ensures Merge(incoming, existing) == existing + Novel(incoming, set x | x in existing)
    decreases |incoming|
  {
    if incoming != [] {
      var x := incoming[0];
      if x in existing {
        MergeAppendsNovel(incoming[1..], existing);
      } else {
        MergeAppendsNovel(incoming[1..], existing + [x]);
        assert (set y | y in existing + [x]) == (set y | y in existing) + {x};
      }
    }
  }

  /** The registry example: ["/a/b", "/a/c"] merged with ["/a/c", "/a/d", "/a/d"]. */
  lemma MergeExample()
    ensures Merge(["/a/c", "/a/d", "/a/d"], ["/a/b", "/a/c"]) == ["/a/b", "/a/c", "/a/d"]
  {
  }
}
