/**
 The persisted side of the registry: the dot file holds the registry as text,
 one path per line. Reading splits the text into lines the way a line scanner
 does (`parseFileLinesToSlice`), writing joins the list with "\n"
 (`dumpStringsSliceToFile`), and `addNewSliceElementsToFile` reads, merges and
 rewrites. The file is modelled by its text before and after the call.
 */
module Store {
  import opened Registry

  /** Position of the first newline of `text`, or |text| when it has none. */
  function NewlineIndex(text: string): (k: nat)
    ensures k <= |text|
    ensures forall i :: 0 <= i < k ==> text[i] != '\n'
    ensures k < |text| ==> text[k] == '\n'
  {
    if text == [] || text[0] == '\n' then 0 else 1 + NewlineIndex(text[1..])
  }

  /**
   The lines a line scanner yields for `text`: the pieces between newlines; a
   final newline does not start an empty last line, and empty text has no lines.
   */
  function Lines(text: string): (lines: seq<string>)
    ensures forall i :: 0 <= i < |lines| ==> '\n' !in lines[i]
    decreases |text|
  {
    if text == [] then []
    else
      var k := NewlineIndex(text);
      if k == |text| then [text] else [text[..k]] + Lines(text[k + 1..])
  }

  /** The text `strings.Join(lines, "\n")` builds. */
  function JoinLines(lines: seq<string>): string
  {
    if lines == [] then ""
    else if |lines| == 1 then lines[0]
    else lines[0] + "\n" + JoinLines(lines[1..])
  }

  /** A well-formed registry path: non-empty, without a newline. */
  predicate IsEntry(s: string)
  {
    s != "" && '\n' !in s
  }

  ghost predicate AllEntries(lines: seq<string>)
  {
    forall i :: 0 <= i < |lines| ==> IsEntry(lines[i])
  }

  /** The text the dot file holds after `addNewSliceElementsToFile(newRepos)`. */
  function Updated(stored: string, newRepos: seq<string>): string
  {
    JoinLines(Merge(newRepos, Lines(stored)))
  }

  /** Joining an entry in front of a non-empty list puts one separator after it. */
  lemma JoinLinesCons(a: string, tail: seq<string>)
    requires tail != []
    ensures JoinLines([a] + tail) == a + "\n" + JoinLines(tail)
  {
  }

  /**
   `parseFileLinesToSlice`: the scanning loop, which takes one line per
   iteration and appends it.
   */
  method ParseFileLinesToSlice(content: string) returns (lines: seq<string>)
    ensures lines == Lines(content)
  {
    lines := [];
    var rest := content;
    while rest != []
      invariant lines + Lines(rest) == Lines(content)
      decreases |rest|
    {
      var k := NewlineIndex(rest);
      if k == |rest| {
        lines, rest := lines + [rest], [];
      } else {
        lines, rest := lines + [rest[..k]], rest[k + 1..];
      }
    }
  }

  /** `addNewSliceElementsToFile`: read the stored lines, merge, and write the join back. */
  method AddNewSliceElementsToFile(stored: string, newRepos: seq<string>) returns (written: string)
    ensures written == Updated(stored, newRepos)
  {
    var existing := ParseFileLinesToSlice(stored);
    var repos := JoinSlices(newRepos, existing);
    written := JoinLines(repos);
  }

  /** In "a\nb", the first newline sits right after "a". */
  lemma NewlineIndexAfter(a: string, b: string)
    requires '\n' !in a
    ensures NewlineIndex(a + "\n" + b) == |a|
  {
    var t := a + "\n" + b;
    assert t[|a|] == '\n';
    forall i | 0 <= i < |a| ensures t[i] != '\n' {
      assert t[i] == a[i];
    }
  }

  /**
   The text `JoinLines(lines)` reads back as `lines`: no entry holds a newline,
   and the last one is not empty (an empty last entry leaves only a final newline).
   */
  ghost predicate ReadsBack(lines: seq<string>)
  {
    (forall i :: 0 <= i < |lines| ==> '\n' !in lines[i]) && (lines == [] || lines[|lines| - 1] != "")
  }

  /** Reading back what was written gives the list, when its last entry is not empty. */
  lemma {:induction false} LinesOfJoinLines(lines: seq<string>)
    requires ReadsBack(lines)
    ensures Lines(JoinLines(lines)) == lines
  {
    if |lines| == 1 {
      assert NewlineIndex(lines[0]) == |lines[0]|;
    } else if |lines| > 1 {
      var a := lines[0];
      var b := JoinLines(lines[1..]);
      var t := a + "\n" + b;
      NewlineIndexAfter(a, b);
      assert t[..|a|] == a;
      assert t[|a| + 1..] == b;
      LinesOfJoinLines(lines[1..]);
      assert lines == [a] + lines[1..];
    }
  }

  /** Writing back what was read gives the text, unless it ended with a newline. */
  lemma {:induction false} JoinLinesOfLines(text: string)
    requires text == [] || text[|text| - 1] != '\n'
    ensures JoinLines(Lines(text)) == text
    decreases |text|
  {
    if text != [] {
      var k := NewlineIndex(text);
      if k < |text| {
        assert k != |text| - 1;
        var line, rest := text[..k], text[k + 1..];
        assert Lines(text) == [line] + Lines(rest);
        assert rest[|rest| - 1] == text[|text| - 1];
        JoinLinesOfLines(rest);
        JoinLinesCons(line, Lines(rest));
        SplitAtNewline(text, k);
      }
    }
  }

  /** A text is the part before a newline, the newline, and the part after it. */
  lemma SplitAtNewline(text: string, k: nat)
    requires k < |text| && text[k] == '\n'
    ensures text == text[..k] + "\n" + text[k + 1..]
  {
  }

  /** Merging well-formed entries yields well-formed entries. */
  lemma MergeKeepsEntries(newRepos: seq<string>, existing: seq<string>)
    requires AllEntries(newRepos) && AllEntries(existing)
    ensures AllEntries(Merge(newRepos, existing))
  {
  }

  /**
   After the update, reading the file gives the merged list, so every stored
   entry keeps its place and every new path is present. It suffices that no new
   path holds a newline and that the merged list does not end with an empty entry.
   */
  lemma UpdatedReadsBack(stored: string, newRepos: seq<string>)
    requires forall i :: 0 <= i < |newRepos| ==> '\n' !in newRepos[i]
    requires var merged := Merge(newRepos, Lines(stored)); merged == [] || merged[|merged| - 1] != ""
    ensures Lines(Updated(stored, newRepos)) == Merge(newRepos, Lines(stored))
    ensures Lines(stored) <= Lines(Updated(stored, newRepos))
    ensures forall p :: p in newRepos ==> p in Lines(Updated(stored, newRepos))
  {
    var merged := Merge(newRepos, Lines(stored));
    MergeMembers(newRepos, Lines(stored));
    forall i | 0 <= i < |merged| ensures '\n' !in merged[i] {
      assert merged[i] in merged;
    }
    LinesOfJoinLines(merged);
    MergeExtends(newRepos, Lines(stored));
  }

  /** Updating a file written from a list that reads back merges into that list. */
  lemma UpdatedOfJoined(entries: seq<string>, newRepos: seq<string>)
    requires ReadsBack(entries)
    ensures Updated(JoinLines(entries), newRepos) == JoinLines(Merge(newRepos, entries))
  {
    LinesOfJoinLines(entries);
  }

  /** Updating the file twice with the same paths leaves the text of a single update. */
  lemma UpdatedIdempotent(stored: string, newRepos: seq<string>)
    requires forall i :: 0 <= i < |newRepos| ==> '\n' !in newRepos[i]
    requires var merged := Merge(newRepos, Lines(stored)); merged == [] || merged[|merged| - 1] != ""
    ensures Updated(Updated(stored, newRepos), newRepos) == Updated(stored, newRepos)
  {
    UpdatedReadsBack(stored, newRepos);
    MergeIdempotent(newRepos, Lines(stored));
  }

  /** Without the entry condition the update is not idempotent: a path holding a newline is split. */
  lemma UpdatedNotIdempotentOnNewline()
    ensures Updated(Updated("", ["a\nb"]), ["a\nb"]) != Updated("", ["a\nb"])
  {
  }

  /**
   Nor when the stored text ends with an empty line: "a\n\n" reads as ["a", ""],
   is written as "a\n", which reads as ["a"] and is written as "a".
   */
  lemma UpdatedNotIdempotentOnEmptyLast()
    ensures Updated("a\n\n", []) == "a\n"
    ensures Updated(Updated("a\n\n", []), []) == "a"
  {
  }

  /** The first newline of a text is the one its characterization names. */
  lemma NewlineIndexUnique(text: string, k: nat)
    requires k <= |text|
    requires forall i :: 0 <= i < k ==> text[i] != '\n'
    requires k < |text| ==> text[k] == '\n'
    ensures NewlineIndex(text) == k
  {
  }

  /** A final newline after the last line adds no line: it only ends that line. */
  lemma {:induction false} LinesIgnoreFinalNewline(text: string)
    requires text != [] && text[|text| - 1] != '\n'
    ensures Lines(text + "\n") == Lines(text)
    decreases |text|
  {
    var t := text + "\n";
    var k := NewlineIndex(text);
    NewlineIndexUnique(t, k);
    if k == |text| {
      assert t[k + 1..] == [];
    } else {
      var rest := text[k + 1..];
      assert t[..k] == text[..k];
      assert t[k + 1..] == rest + "\n";
      assert rest[|rest| - 1] == text[|text| - 1];
      LinesIgnoreFinalNewline(rest);
    }
  }
}
