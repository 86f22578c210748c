/**
 * The tree walk both checks are built on. `filepath.Walk` is replaced by the
 * depth-first, pre-order listing of the tree it would produce, each entry
 * carrying what `os.ReadFile` would return for it.
 *
 * Two readings of one listing are defined here: `Visited`, the entries the
 * walk actually hands to the callback once `SkipDir` has pruned the
 * subtrees of excluded directories, and `CheckedFiles`, the files that pass
 * the exclusion test when every entry is tested on its own.
 * `PruningEquivalence` shows that both lead to the same files.
 */
module Walk {
  import opened Wrappers
  import opened Paths
  import opened Exclusion

  /** One listed entry; `content` is None when reading the file fails. */
  datatype Entry = Entry(path: Path, isDir: bool, content: Option<string>)

  /** The accumulation loop's outcome: the offending paths, or the first read failure. */
  datatype ScanResult = Scanned(flagged: seq<Path>) | Unreadable(path: Path)

  /** What a check returns to the command. */
  datatype CheckResult =
    | Clean                          // nil
    | Issues(errorFiles: seq<Path>)  // "... issue found", with the offending paths
    | ReadFailed(path: Path)         // the error of os.ReadFile, returned through the walk
    | NoLicenseFile                  // "no license file found"

  /** What a walk callback returns to `filepath.Walk`: nil, `filepath.SkipDir`, or a read error. */
  datatype Action = Proceed | SkipDir | Fail(path: Path)

  /** Some directory in `dirs` lies strictly above `p`. */
  predicate UnderAny(dirs: seq<Path>, p: Path) {
    exists d :: d in dirs && IsAncestorOf(d, p)
  }

  /** The directories for which the callback returned `SkipDir`, among the visited entries. */
  function PrunedDirs(vis: seq<Entry>, exclude: seq<string>, m: Matcher): seq<Path>
    decreases |vis|
  {
    if vis == [] then []
    else
      var e := vis[|vis| - 1];
      PrunedDirs(vis[..|vis| - 1], exclude, m) + if e.isDir && Excluded(exclude, m, e.path) then [e.path] else []
  }

  /** Every visited excluded directory is pruned. */
  lemma {:induction false} ExcludedDirIsPruned(vis: seq<Entry>, exclude: seq<string>, m: Matcher, k: nat)
    requires k < |vis| && vis[k].isDir && Excluded(exclude, m, vis[k].path)
    ensures vis[k].path in PrunedDirs(vis, exclude, m)
    decreases |vis|
  {
    if k < |vis| - 1 {
      ExcludedDirIsPruned(vis[..|vis| - 1], exclude, m, k);
    }
  }

  /** Every directory the walk pruned was excluded. */
  lemma {:induction false} PrunedDirExcluded(vis: seq<Entry>, exclude: seq<string>, m: Matcher, d: Path)
    requires d in PrunedDirs(vis, exclude, m)
    ensures Excluded(exclude, m, d)
    decreases |vis|
  {
    var e := vis[|vis| - 1];
    if d in PrunedDirs(vis[..|vis| - 1], exclude, m) {
      PrunedDirExcluded(vis[..|vis| - 1], exclude, m, d);
    }
  }

  /**
   * The entries the walk hands to the callback: an entry lying beneath a
   * directory already pruned is never visited.
   */
  function Visited(entries: seq<Entry>, exclude: seq<string>, m: Matcher): seq<Entry>
    decreases |entries|
  {
    if entries == [] then []
    else
      var vis := Visited(entries[..|entries| - 1], exclude, m);
      var e := entries[|entries| - 1];
      if UnderAny(PrunedDirs(vis, exclude, m), e.path) then vis else vis + [e]
  }

  /** No entry of `vis` lies beneath an excluded directory listed before it. */
  predicate NoEntryBeneathPruned(vis: seq<Entry>, exclude: seq<string>, m: Matcher) {
    forall i, j :: 0 <= i < j < |vis| && vis[i].isDir && Excluded(exclude, m, vis[i].path) ==>
      !IsAncestorOf(vis[i].path, vis[j].path)
  }

  /** The walk never visits an entry beneath an excluded directory it visited before. */
  lemma {:induction false} PrunedSubtreeNeverVisited(entries: seq<Entry>, exclude: seq<string>, m: Matcher)
    ensures NoEntryBeneathPruned(Visited(entries, exclude, m), exclude, m)
    decreases |entries|
  {
    if entries != [] {
      var front := entries[..|entries| - 1];
      var e := entries[|entries| - 1];
      var vis := Visited(front, exclude, m);
      var pruned := PrunedDirs(vis, exclude, m);
      PrunedSubtreeNeverVisited(front, exclude, m);
      if UnderAny(pruned, e.path) {
        assert Visited(entries, exclude, m) == vis;
      } else {
        var vis' := vis + [e];
        assert Visited(entries, exclude, m) == vis';
        assert forall i, j :: 0 <= i < j < |vis| && vis[i].isDir && Excluded(exclude, m, vis[i].path) ==>
          !IsAncestorOf(vis[i].path, vis[j].path);
        forall i, j | 0 <= i < j < |vis'| && vis'[i].isDir && Excluded(exclude, m, vis'[i].path)
          ensures !IsAncestorOf(vis'[i].path, vis'[j].path)
        {
          assert vis'[i] == vis[i];
          if j == |vis| {
            ExcludedDirIsPruned(vis, exclude, m, i);
            assert vis'[j] == e;
          } else {
            assert vis'[j] == vis[j];
          }
        }
      }
    }
  }

  /** The files the callback goes on to read: not directories, not excluded. In walk order. */
  function CheckedFiles(entries: seq<Entry>, exclude: seq<string>, m: Matcher): seq<Entry>
    decreases |entries|
  {
    if entries == [] then []
    else
      var e := entries[|entries| - 1];
      CheckedFiles(entries[..|entries| - 1], exclude, m) + if !e.isDir && !Excluded(exclude, m, e.path) then [e] else []
  }

  /**
   * The accumulation over the checked files, in walk order: the first
   * unreadable file aborts; otherwise every file whose content `flag`
   * rejects is appended to `errorFiles`.
   */
  function Scan(files: seq<Entry>, flag: string -> bool): ScanResult
    decreases |files|
  {
    if files == [] then Scanned([])
    else
      var f := files[|files| - 1];
      var front := files[..|files| - 1];
      match Scan(front, flag)
      case Unreadable(p) => Unreadable(p)
      case Scanned(bad) =>
        if f.content.None? then Unreadable(f.path)
        else Scanned(bad + if flag(f.content.value) then [f.path] else [])
  }

  /** The checked files are the listed files that are not excluded. */
  lemma {:induction false} CheckedFilesMembers(entries: seq<Entry>, exclude: seq<string>, m: Matcher, e: Entry)
    ensures e in CheckedFiles(entries, exclude, m) <==> e in entries && !e.isDir && !Excluded(exclude, m, e.path)
    decreases |entries|
  {
    if entries != [] {
      var front := entries[..|entries| - 1];
      CheckedFilesMembers(front, exclude, m, e);
      assert entries == front + [entries[|entries| - 1]];
    }
  }

  /** The walk only visits listed entries. */
  lemma {:induction false} VisitedAreListed(entries: seq<Entry>, exclude: seq<string>, m: Matcher, e: Entry)
    requires e in Visited(entries, exclude, m)
    ensures e in entries
    decreases |entries|
  {
    var front := entries[..|entries| - 1];
    if e in Visited(front, exclude, m) {
      VisitedAreListed(front, exclude, m, e);
    }
  }

  /** The scan completes exactly when every checked file can be read. */
  lemma {:induction false} ScanCompletesIffReadable(files: seq<Entry>, flag: string -> bool)
    ensures Scan(files, flag).Scanned? <==> forall k :: 0 <= k < |files| ==> files[k].content.Some?
    decreases |files|
  {
    if files != [] {
      ScanCompletesIffReadable(files[..|files| - 1], flag);
    }
  }

  /**
   * A completed scan lists exactly the paths of the files whose content the
   * flag rejects, and no more paths than there are files.
   */
  lemma {:induction false} ScanFlagsExactly(files: seq<Entry>, flag: string -> bool, p: Path)
    requires Scan(files, flag).Scanned?
    ensures |Scan(files, flag).flagged| <= |files|
    ensures p in Scan(files, flag).flagged <==>
      exists k :: 0 <= k < |files| && files[k].path == p && files[k].content.Some? && flag(files[k].content.value)
    decreases |files|
  {
    if files != [] {
      var front := files[..|files| - 1];
      ScanFlagsExactly(front, flag, p);
      var f := files[|files| - 1];
      if exists k :: 0 <= k < |front| && front[k].path == p && front[k].content.Some? && flag(front[k].content.value) {
        var k :| 0 <= k < |front| && front[k].path == p && front[k].content.Some? && flag(front[k].content.value);
        assert files[k] == front[k];
      }
      if exists k :: 0 <= k < |files| && files[k].path == p && files[k].content.Some? && flag(files[k].content.value) {
        var k :| 0 <= k < |files| && files[k].path == p && files[k].content.Some? && flag(files[k].content.value);
        if k < |front| {
          assert front[k] == files[k];
        }
      }
    }
  }

  /** An aborted scan names the first unreadable file. */
  lemma {:induction false} ScanStopsAtFirstUnreadable(files: seq<Entry>, flag: string -> bool)
    requires Scan(files, flag).Unreadable?
    ensures exists k :: 0 <= k < |files| && files[k].path == Scan(files, flag).path && files[k].content.None? &&
                        (forall j :: 0 <= j < k ==> files[j].content.Some?)
    decreases |files|
  {
    var front := files[..|files| - 1];
    if Scan(front, flag).Unreadable? {
      ScanStopsAtFirstUnreadable(front, flag);
      var k :| 0 <= k < |front| && front[k].path == Scan(front, flag).path && front[k].content.None? &&
               (forall j :: 0 <= j < k ==> front[j].content.Some?);
      assert Scan(files, flag) == Scan(front, flag);
      forall j | 0 <= j < k
        ensures files[j].content.Some?
      {
        assert files[j] == front[j];
      }
      assert files[k] == front[k];
    } else {
      LastFileUnreadable(files, flag);
    }
  }

  /** When the scan completes up to the last file and then aborts, it names that file, and every file before it was read. */
  lemma LastFileUnreadable(files: seq<Entry>, flag: string -> bool)
    requires files != [] && Scan(files[..|files| - 1], flag).Scanned? && Scan(files, flag).Unreadable?
    ensures files[|files| - 1].path == Scan(files, flag).path && files[|files| - 1].content.None?
    ensures forall j :: 0 <= j < |files| - 1 ==> files[j].content.Some?
  {
    var front := files[..|files| - 1];
    ScanCompletesIffReadable(front, flag);
    forall j | 0 <= j < |files| - 1
      ensures files[j].content.Some?
    {
      assert files[j] == front[j];
    }
  }

  /**
   * How the command turns the accumulated list into its result: the walk's
   * error is returned as it is; otherwise an empty list is success and a
   * non-empty one an issue carrying the paths.
   */
  function Report(s: ScanResult): CheckResult {
    match s
    case Unreadable(p) => ReadFailed(p)
    case Scanned(bad) => if bad == [] then Clean else Issues(bad)
  }

  /** The walk's result is success, an issue carrying the paths, or the read error, and never "no license file". */
  lemma ReportCases(s: ScanResult)
    ensures Report(s) != NoLicenseFile
    ensures Report(s) == Clean <==> s == Scanned([])
    ensures Report(s).ReadFailed? <==> s.Unreadable?
    ensures Report(s).ReadFailed? ==> Report(s).path == s.path
    ensures Report(s).Issues? ==> s.Scanned? && s.flagged != [] && Report(s).errorFiles == s.flagged
  {
  }

  lemma {:induction false} CheckedFilesAppend(a: seq<Entry>, b: seq<Entry>, exclude: seq<string>, m: Matcher)
    ensures CheckedFiles(a + b, exclude, m) == CheckedFiles(a, exclude, m) + CheckedFiles(b, exclude, m)
    decreases |b|
  {
    if b != [] {
      var b' := b[..|b| - 1];
      assert (a + b)[..|a + b| - 1] == a + b';
      CheckedFilesAppend(a, b', exclude, m);
    } else {
      assert a + b == a;
    }
  }

  /** Once the scan has hit an unreadable file, nothing later changes its outcome. */
  lemma {:induction false} ScanStopsAtUnreadable(a: seq<Entry>, b: seq<Entry>, flag: string -> bool)
    requires Scan(a, flag).Unreadable?
    ensures Scan(a + b, flag) == Scan(a, flag)
    decreases |b|
  {
    if b != [] {
      var b' := b[..|b| - 1];
      assert (a + b)[..|a + b| - 1] == a + b';
      ScanStopsAtUnreadable(a, b', flag);
    } else {
      assert a + b == a;
    }
  }

  /**
   * Pruning loses nothing and adds nothing: the files of the pruned walk
   * that pass the exclusion test are exactly the files an entry-by-entry
   * test keeps, in the same order.
   */
  lemma {:induction false} PruningEquivalence(entries: seq<Entry>, exclude: seq<string>, m: Matcher)
    ensures CheckedFiles(Visited(entries, exclude, m), exclude, m) == CheckedFiles(entries, exclude, m)
    decreases |entries|
  {
    if entries != [] {
      var front := entries[..|entries| - 1];
      var e := entries[|entries| - 1];
      var vis := Visited(front, exclude, m);
      PruningEquivalence(front, exclude, m);
      var pruned := PrunedDirs(vis, exclude, m);
      if UnderAny(pruned, e.path) {
        var d :| d in pruned && IsAncestorOf(d, e.path);
        PrunedDirExcluded(vis, exclude, m, d);
        ExcludedBeneath(exclude, m, d, e.path);
      } else {
        assert (vis + [e])[..|vis|] == vis;
      }
    }
  }

  /**
   * A read failure at entry `i - 1` decides the whole check: the scan of
   * the full listing stops at the same file.
   */
  lemma FailureIsFinal(entries: seq<Entry>, i: nat, exclude: seq<string>, m: Matcher, flag: string -> bool)
    requires i <= |entries|
    requires Scan(CheckedFiles(Visited(entries[..i], exclude, m), exclude, m), flag).Unreadable?
    ensures Scan(CheckedFiles(entries, exclude, m), flag) == Scan(CheckedFiles(Visited(entries[..i], exclude, m), exclude, m), flag)
  {
    PruningEquivalence(entries[..i], exclude, m);
    PrefixFailureIsFinal(entries, i, exclude, m, flag);
  }

  /** A read failure among the checked files of a prefix of the listing is the result for the whole listing. */
  lemma PrefixFailureIsFinal(entries: seq<Entry>, i: nat, exclude: seq<string>, m: Matcher, flag: string -> bool)
    requires i <= |entries|
    requires Scan(CheckedFiles(entries[..i], exclude, m), flag).Unreadable?
    ensures Scan(CheckedFiles(entries, exclude, m), flag) == Scan(CheckedFiles(entries[..i], exclude, m), flag)
  {
    var front, back := entries[..i], entries[i..];
    assert entries == front + back;
    CheckedFilesAppend(front, back, exclude, m);
    ScanStopsAtUnreadable(CheckedFiles(front, exclude, m), CheckedFiles(back, exclude, m), flag);
  }

  lemma VisitedStep(entries: seq<Entry>, i: nat, exclude: seq<string>, m: Matcher)
    requires i < |entries|
    ensures var vis := Visited(entries[..i], exclude, m);
      Visited(entries[..i + 1], exclude, m) ==
        if UnderAny(PrunedDirs(vis, exclude, m), entries[i].path) then vis else vis + [entries[i]]
  {
    assert entries[..i + 1][..i] == entries[..i];
  }

  /** One more visited entry: it is pruned when it is an excluded directory. */
  lemma PrunedDirsStep(vis: seq<Entry>, e: Entry, exclude: seq<string>, m: Matcher)
    ensures PrunedDirs(vis + [e], exclude, m) ==
      PrunedDirs(vis, exclude, m) + if e.isDir && Excluded(exclude, m, e.path) then [e.path] else []
  {
    assert (vis + [e])[..|vis|] == vis;
  }

  /** One more entry: it is checked when it is a file that is not excluded. */
  lemma CheckedFilesStep(vis: seq<Entry>, e: Entry, exclude: seq<string>, m: Matcher)
    ensures CheckedFiles(vis + [e], exclude, m) ==
      CheckedFiles(vis, exclude, m) + if !e.isDir && !Excluded(exclude, m, e.path) then [e] else []
  {
    assert (vis + [e])[..|vis|] == vis;
  }

  /** One more checked file after a clean prefix: it aborts the scan, or is appended when flagged. */
  lemma ScanStep(files: seq<Entry>, f: Entry, flag: string -> bool)
    requires Scan(files, flag).Scanned?
    ensures Scan(files + [f], flag) ==
      if f.content.None? then Unreadable(f.path)
      else Scanned(Scan(files, flag).flagged + if flag(f.content.value) then [f.path] else [])
  {
    assert (files + [f])[..|files|] == files;
  }

  /**
   * One step of the walk over the listing, as the check runners take it:
   * what visiting `entries[i]` does to the visited entries, the pruned
   * directories and the scan of the checked files.
   */
  lemma WalkStep(entries: seq<Entry>, i: nat, exclude: seq<string>, m: Matcher, flag: string -> bool)
    requires i < |entries|
    requires Scan(CheckedFiles(Visited(entries[..i], exclude, m), exclude, m), flag).Scanned?
    ensures var vis, e := Visited(entries[..i], exclude, m), entries[i];
      var before := Scan(CheckedFiles(vis, exclude, m), flag);
      var after := Scan(CheckedFiles(Visited(entries[..i + 1], exclude, m), exclude, m), flag);
      if UnderAny(PrunedDirs(vis, exclude, m), e.path) then
        Visited(entries[..i + 1], exclude, m) == vis && after == before
      else
        Visited(entries[..i + 1], exclude, m) == vis + [e] &&
        PrunedDirs(vis + [e], exclude, m) ==
          PrunedDirs(vis, exclude, m) + (if e.isDir && Excluded(exclude, m, e.path) then [e.path] else []) &&
        after == if e.isDir || Excluded(exclude, m, e.path) then before
                 else if e.content.None? then Unreadable(e.path)
                 else Scanned(before.flagged + if flag(e.content.value) then [e.path] else [])
  {
    var vis, e := Visited(entries[..i], exclude, m), entries[i];
    VisitedStep(entries, i, exclude, m);
    if !UnderAny(PrunedDirs(vis, exclude, m), e.path) {
      PrunedDirsStep(vis, e, exclude, m);
      CheckedFilesStep(vis, e, exclude, m);
      var cf := CheckedFiles(vis, exclude, m);
      if !e.isDir && !Excluded(exclude, m, e.path) {
        ScanStep(cf, e, flag);
      } else {
        assert cf + [] == cf;
      }
    }
  }

  /** A file checked under a larger rule list is checked under a smaller one. */
  lemma CheckedUnderMoreRules(entries: seq<Entry>, exclude: seq<string>, more: seq<string>, m: Matcher, e: Entry)
    requires forall r :: r in exclude ==> r in more
    requires e in CheckedFiles(entries, more, m)
    ensures e in CheckedFiles(entries, exclude, m)
  {
    CheckedFilesMembers(entries, more, m, e);
    CheckedFilesMembers(entries, exclude, m, e);
    if Excluded(exclude, m, e.path) {
      ExcludedMonotone(exclude, more, m, e.path);
    }
  }

  /**
   * Adding exclusion rules can only shrink the set of flagged files (and can
   * only remove read failures): every file checked under the larger rule
   * list is checked under the smaller one.
   */
  lemma MoreRulesFewerFlags(entries: seq<Entry>, exclude: seq<string>, more: seq<string>, m: Matcher,
                            flag: string -> bool, p: Path)
    requires forall r :: r in exclude ==> r in more
    requires Scan(CheckedFiles(entries, exclude, m), flag).Scanned?
    ensures Scan(CheckedFiles(entries, more, m), flag).Scanned?
    ensures p in Scan(CheckedFiles(entries, more, m), flag).flagged ==>
              p in Scan(CheckedFiles(entries, exclude, m), flag).flagged
  {
    var fewer, most := CheckedFiles(entries, exclude, m), CheckedFiles(entries, more, m);
    ScanCompletesIffReadable(fewer, flag);
    ScanCompletesIffReadable(most, flag);
    forall k | 0 <= k < |most|
      ensures most[k].content.Some?
    {
      CheckedUnderMoreRules(entries, exclude, more, m, most[k]);
      var j :| 0 <= j < |fewer| && fewer[j] == most[k];
    }
    ScanFlagsExactly(most, flag, p);
    ScanFlagsExactly(fewer, flag, p);
    if p in Scan(most, flag).flagged {
      var k :| 0 <= k < |most| && most[k].path == p && most[k].content.Some? && flag(most[k].content.value);
      CheckedUnderMoreRules(entries, exclude, more, m, most[k]);
      var j :| 0 <= j < |fewer| && fewer[j] == most[k];
    }
  }
}
