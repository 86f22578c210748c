/**
 * The blank-line check: every file the walk reaches, and the exclusion rules
 * do not skip, must end with a newline byte.
 */
module BlankLine {
  import opened Wrappers
  import opened Paths
  import opened Exclusion
  import opened Walk

  /** A file is flagged when it is empty or its last byte is not '\n'. */
  predicate MissingFinalNewline(b: string) {
    |b| == 0 || b[|b| - 1] != '\n'
  }

  /**
   * The walk callback of `checkBlankLine` for one visited entry: `SkipDir`
   * for an excluded directory, nothing for an excluded file or a directory,
   * a read error for an unreadable file, and otherwise the path appended
   * when the file lacks its final newline.
   */
  method BlankLineCallback(e: Entry, excludeMap: set<string>, exclude: seq<string>, m: Matcher, errorFiles: seq<Path>)
    returns (action: Action, errorFiles': seq<Path>)
    requires excludeMap == set x | x in exclude
    ensures action == SkipDir <==> e.isDir && Excluded(exclude, m, e.path)
    ensures action.Fail? <==> !e.isDir && !Excluded(exclude, m, e.path) && e.content.None?
    ensures action.Fail? ==> action.path == e.path
    ensures errorFiles' == errorFiles +
      if !e.isDir && !Excluded(exclude, m, e.path) && e.content.Some? &&
         MissingFinalNewline(e.content.value) then [e.path] else []
  {
    errorFiles' := errorFiles;
    var v := ExcludeVerdict(excludeMap, exclude, m, e.path, e.isDir);
    if v == Prune {
      return SkipDir, errorFiles';
    } else if v == Skip || e.isDir {
      return Proceed, errorFiles';
    }
    if e.content.None? {
      return Fail(e.path), errorFiles';
    }
    if MissingFinalNewline(e.content.value) {
      errorFiles' := errorFiles' + [e.path];
    }
    return Proceed, errorFiles';
  }

  /**
   * `checkBlankLine`: walk the listing, honour `SkipDir` for excluded
   * directories, read every remaining file and collect those without a final
   * newline. The result is the one an entry-by-entry test of the listing
   * gives.
   */
  method CheckBlankLine(entries: seq<Entry>, exclude: seq<string>, m: Matcher) returns (r: CheckResult)
    ensures r == Report(Scan(CheckedFiles(entries, exclude, m), MissingFinalNewline))
  {
    var excludeMap := ToSet(exclude);
    var errorFiles: seq<Path> := [];
    var pruned: seq<Path> := [];
    ghost var visited: seq<Entry> := [];
    var i := 0;
    while i < |entries|
      invariant 0 <= i <= |entries|
      invariant visited == Visited(entries[..i], exclude, m)
      invariant pruned == PrunedDirs(visited, exclude, m)
      invariant Scan(CheckedFiles(visited, exclude, m), MissingFinalNewline) == Scanned(errorFiles)
    {
      var e := entries[i];
      WalkStep(entries, i, exclude, m, MissingFinalNewline);
      if !UnderAny(pruned, e.path) {
        assert Visited(entries[..i + 1], exclude, m) == visited + [e];
        visited := visited + [e];
        var action;
        action, errorFiles := BlankLineCallback(e, excludeMap, exclude, m, errorFiles);
        if action.Fail? {
          FailureIsFinal(entries, i + 1, exclude, m, MissingFinalNewline);
          return ReadFailed(action.path);
        } else if action == SkipDir {
          pruned := pruned + [e.path];
        }
      } else {
        assert Visited(entries[..i + 1], exclude, m) == visited;
      }
      i := i + 1;
    }
    PruningEquivalence(entries, exclude, m);
    assert entries[..i] == entries;
    r := if errorFiles == [] then Clean else Issues(errorFiles);
  }

  /** Only the last byte matters: two non-empty files ending in the same byte are judged alike. */
  lemma OnlyLastByteMatters(a: string, b: string)
    requires a != [] && b != [] && a[|a| - 1] == b[|b| - 1]
    ensures MissingFinalNewline(a) == MissingFinalNewline(b)
  {
  }

  /** The empty file fails; any content followed by one '\n' passes. */
  lemma NewlineExamples(body: string)
    ensures MissingFinalNewline("")
    ensures !MissingFinalNewline(body + "\n")
  {
  }

  /**
   * A file is reported exactly when it is listed, is not a directory, is
   * not excluded and lacks the final newline.
   */
  lemma ReportedIffMissingNewline(entries: seq<Entry>, exclude: seq<string>, m: Matcher, p: Path)
    requires Scan(CheckedFiles(entries, exclude, m), MissingFinalNewline).Scanned?
    ensures p in Scan(CheckedFiles(entries, exclude, m), MissingFinalNewline).flagged <==>
      exists e :: e in entries && e.path == p && !e.isDir && !Excluded(exclude, m, e.path) &&
                  e.content.Some? && MissingFinalNewline(e.content.value)
  {
    var files := CheckedFiles(entries, exclude, m);
    if p in Scan(files, MissingFinalNewline).flagged {
      ScanFlagsExactly(files, MissingFinalNewline, p);
      var k :| 0 <= k < |files| && files[k].path == p && files[k].content.Some? && MissingFinalNewline(files[k].content.value);
      CheckedFilesMembers(entries, exclude, m, files[k]);
    } else {
      forall e | e in entries && e.path == p && !e.isDir && !Excluded(exclude, m, e.path) && e.content.Some?
        ensures !MissingFinalNewline(e.content.value)
      {
        CheckedFilesMembers(entries, exclude, m, e);
        var k :| 0 <= k < |files| && files[k] == e;
        ScanFlagsExactly(files, MissingFinalNewline, p);
      }
    }
  }

  /**
   * Excluded files are never read: when the check aborts, the unreadable
   * file it names is a listed file that no rule excludes.
   */
  lemma AbortNamesCheckedFile(entries: seq<Entry>, exclude: seq<string>, m: Matcher)
    requires Scan(CheckedFiles(entries, exclude, m), MissingFinalNewline).Unreadable?
    ensures exists e :: e in entries && e.path == Scan(CheckedFiles(entries, exclude, m), MissingFinalNewline).path &&
                        !e.isDir && !Excluded(exclude, m, e.path) && e.content.None?
  {
    var files := CheckedFiles(entries, exclude, m);
    ScanStopsAtFirstUnreadable(files, MissingFinalNewline);
    var k :| 0 <= k < |files| && files[k].path == Scan(files, MissingFinalNewline).path && files[k].content.None? &&
             (forall j :: 0 <= j < k ==> files[j].content.Some?);
    CheckedFilesMembers(entries, exclude, m, files[k]);
  }

  /**
   * A tree holding `testdata/x.go` without a final newline: with the rule
   * "testdata" the directory is pruned and the check passes, whatever the
   * pattern matcher does; without rules the file is reported.
   */
  lemma TestdataExample(m: Matcher)
    ensures var entries := [Entry([], true, None), Entry(["testdata"], true, None),
                            Entry(["testdata", "x.go"], false, Some("package x"))];
      Report(Scan(CheckedFiles(entries, ["testdata"], m), MissingFinalNewline)) == Clean &&
      Report(Scan(CheckedFiles(entries, [], m), MissingFinalNewline)) == Issues([["testdata", "x.go"]])
  {
    var entries := [Entry([], true, None), Entry(["testdata"], true, None),
                    Entry(["testdata", "x.go"], false, Some("package x"))];
    assert Join(["testdata"]) == "testdata";
    assert Excluded(["testdata"], m, ["testdata"]);
    assert Dir(["testdata", "x.go"]) == ["testdata"];
    assert Excluded(["testdata"], m, ["testdata", "x.go"]);
    assert !Excluded([], m, ["testdata", "x.go"]);
    assert entries[..2] == [Entry([], true, None), Entry(["testdata"], true, None)];
    assert entries[..1] == [Entry([], true, None)];
    assert entries[..1][..0] == [];
    assert entries[..2][..1] == entries[..1];
    assert CheckedFiles(entries[..1], ["testdata"], m) == [];
    assert CheckedFiles(entries[..2], ["testdata"], m) == [];
    assert CheckedFiles(entries, ["testdata"], m) == [];
    assert CheckedFiles(entries[..1], [], m) == [];
    assert CheckedFiles(entries[..2], [], m) == [];
    var x := entries[2];
    assert CheckedFiles(entries, [], m) == [x];
    assert [x][..0] == [];
    assert Scan([x], MissingFinalNewline) == Scanned([x.path]);
  }
}
