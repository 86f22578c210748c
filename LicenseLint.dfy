/**
 * The license-header check: settle the license family (from the override or
 * by detection), then walk the listing like the blank-line check, skip the
 * files whose extension or name is on the ignore list, and report every
 * remaining file whose text lacks the family's header.
 */
module LicenseLint {
  import opened Wrappers
  import opened Paths
  import opened Exclusion
  import opened Walk
  import opened LicenseUtils

  /**
   * A file named `name` is left out of the header check: the list is not
   * empty and either the file's lower-cased extension is a non-empty entry
   * of it, or some entry, read as a pattern, matches the name.
   */
  predicate IgnoredByExtension(name: string, exts: set<string>, m: Matcher) {
    exts != {} &&
    ((ToLower(Ext(name)) in exts && ToLower(Ext(name)) != "") || exists e :: e in exts && m(e, name))
  }

  /**
   * `ignoreExcludeExtension`. `filepath.Ext` stops at the last separator, so
   * the extension of the whole path is that of its final element.
   */
  method IgnoreExcludeExtension(path: Path, excludeExtensions: set<string>, m: Matcher) returns (ignore: bool)
    ensures ignore == IgnoredByExtension(Base(path), excludeExtensions, m)
  {
    if |excludeExtensions| == 0 {
      return false;
    }
    var ext := ToLower(Ext(Base(path)));
    if ext in excludeExtensions && ext != "" {
      return true;
    }
    var basename := Base(path);
    var remaining := excludeExtensions;
    while remaining != {}
      invariant remaining <= excludeExtensions
      invariant forall e :: e in excludeExtensions && e !in remaining ==> !m(e, basename)
      decreases remaining
    {
      var extension :| extension in remaining;
      if m(extension, basename) {
        return true;
      }
      remaining := remaining - {extension};
    }
    return false;
  }

  /** A file the callback reads and validates: not a directory, not excluded, not ignored by extension. */
  predicate Validated(e: Entry, exclude: seq<string>, exts: set<string>, m: Matcher) {
    !e.isDir && !Excluded(exclude, m, e.path) && !IgnoredByExtension(Base(e.path), exts, m)
  }

  /** The files whose header the check reads and validates, tested entry by entry. In walk order. */
  function ValidatedFiles(entries: seq<Entry>, exclude: seq<string>, exts: set<string>, m: Matcher): seq<Entry>
    decreases |entries|
  {
    if entries == [] then []
    else
      var e := entries[|entries| - 1];
      ValidatedFiles(entries[..|entries| - 1], exclude, exts, m) + if Validated(e, exclude, exts, m) then [e] else []
  }

  /** A file is flagged when its text does not carry the header of family `lt`. */
  function MissingHeader(lt: LicenseType): string -> bool {
    content => !ValidateLicenseHeader(content, lt)
  }

  /** The accumulation the header check performs over a listing, for family `lt`. */
  function LicenseScan(entries: seq<Entry>, exclude: seq<string>, exts: set<string>, m: Matcher, lt: LicenseType): ScanResult {
    Scan(ValidatedFiles(entries, exclude, exts, m), MissingHeader(lt))
  }

  /**
   * `checkLicenseHeader`: a non-empty `license` is used verbatim; otherwise
   * the family is detected from `dir` (the files at the top of the
   * directory), and `Unlicensed` ends the command with "no license file".
   * The walk then proceeds as `CheckHeaders` describes.
   */
  method CheckLicenseHeader(dir: map<string, string>, license: string, entries: seq<Entry>,
                            exclude: seq<string>, excludeExtensions: seq<string>, m: Matcher)
    returns (licenseType: LicenseType, r: CheckResult)
    ensures license != "" ==> licenseType == license
    ensures license == "" ==> Admissible(LicenseText(dir), licenseType)
    ensures license == "" && licenseType == Unlicensed ==> r == NoLicenseFile
    ensures license != "" || licenseType != Unlicensed ==>
      r == Report(LicenseScan(entries, exclude, (set x | x in excludeExtensions), m, licenseType))
  {
    if license != "" {
      licenseType := license;
    } else {
      licenseType := DetectLicenseType(dir);
      if licenseType == Unlicensed {
        return licenseType, NoLicenseFile;
      }
    }
    r := CheckHeaders(licenseType, entries, exclude, excludeExtensions, m);
  }

  /**
   * The walk callback of `checkLicenseHeader` for one visited entry:
   * `SkipDir` for an excluded directory, nothing more for an excluded file,
   * a directory or a file ignored by extension, the read error for an
   * unreadable file, and otherwise the file's path appended to
   * `errorFiles` when its text lacks the header.
   */
  method HeaderCallback(e: Entry, excludeMap: set<string>, exclude: seq<string>, excludeExtensionMap: set<string>,
                        m: Matcher, licenseType: LicenseType, errorFiles: seq<Path>)
    returns (action: Action, errorFiles': seq<Path>)
    requires excludeMap == set x | x in exclude
    ensures action == SkipDir <==> e.isDir && Excluded(exclude, m, e.path)
    ensures action.Fail? <==> Validated(e, exclude, excludeExtensionMap, m) && e.content.None?
    ensures action.Fail? ==> action.path == e.path
    ensures errorFiles' == errorFiles +
      if Validated(e, exclude, excludeExtensionMap, m) && e.content.Some? &&
         MissingHeader(licenseType)(e.content.value) then [e.path] else []
  {
    var v := ExcludeVerdict(excludeMap, exclude, m, e.path, e.isDir);
    if v == Prune {
      return SkipDir, errorFiles;
    } else if v == Skip || e.isDir {
      return Proceed, errorFiles;
    }
    action, errorFiles' := CheckFileHeader(e, excludeExtensionMap, m, licenseType, errorFiles);
  }

  /**
   * The file part of the callback, for a file no rule excludes: skip it when
   * its extension is ignored, else read it and append its path when the
   * header is missing.
   */
  method CheckFileHeader(e: Entry, excludeExtensionMap: set<string>, m: Matcher, licenseType: LicenseType,
                         errorFiles: seq<Path>)
    returns (action: Action, errorFiles': seq<Path>)
    ensures action != SkipDir
    ensures action.Fail? <==> !IgnoredByExtension(Base(e.path), excludeExtensionMap, m) && e.content.None?
    ensures action.Fail? ==> action.path == e.path
    ensures errorFiles' == errorFiles +
      if !IgnoredByExtension(Base(e.path), excludeExtensionMap, m) && e.content.Some? &&
         MissingHeader(licenseType)(e.content.value) then [e.path] else []
  {
    var ignore := IgnoreExcludeExtension(e.path, excludeExtensionMap, m);
    if ignore {
      return Proceed, errorFiles;
    }
    if e.content.None? {
      return Fail(e.path), errorFiles;
    }
    errorFiles' := errorFiles;
    if MissingHeader(licenseType)(e.content.value) {
      errorFiles' := errorFiles' + [e.path];
    }
    return Proceed, errorFiles';
  }

  /**
   * The walk of `checkLicenseHeader` once the family is settled: honour
   * `SkipDir` for excluded directories, stop at the first read error, and
   * collect the files lacking the header. The result is the one an
   * entry-by-entry test of the listing gives.
   */
  method CheckHeaders(licenseType: LicenseType, entries: seq<Entry>, exclude: seq<string>,
                      excludeExtensions: seq<string>, m: Matcher)
    returns (r: CheckResult)
    ensures r == Report(LicenseScan(entries, exclude, (set x | x in excludeExtensions), m, licenseType))
  {
    var excludeExtensionMap := ToSet(excludeExtensions);
    var excludeMap := ToSet(exclude);
    ghost var flag := MissingHeader(licenseType);

    var errorFiles: seq<Path> := [];
    var pruned: seq<Path> := [];
    ghost var visited: seq<Entry> := [];
    var i := 0;
    while i < |entries|
      invariant 0 <= i <= |entries|
      invariant visited == Visited(entries[..i], exclude, m)
      invariant pruned == PrunedDirs(visited, exclude, m)
      invariant Scan(ValidatedFiles(visited, exclude, excludeExtensionMap, m), flag) == Scanned(errorFiles)
    {
      var e := entries[i];
      HeaderWalkStep(entries, i, exclude, excludeExtensionMap, m, flag);
      if !UnderAny(pruned, e.path) {
        assert Visited(entries[..i + 1], exclude, m) == visited + [e];
        visited := visited + [e];
        var action;
        action, errorFiles := HeaderCallback(e, excludeMap, exclude, excludeExtensionMap, m, licenseType, errorFiles);
        if action.Fail? {
          HeaderFailureIsFinal(entries, i + 1, exclude, excludeExtensionMap, m, flag);
          return ReadFailed(action.path);
        } else if action == SkipDir {
          pruned := pruned + [e.path];
        }
      } else {
        assert Visited(entries[..i + 1], exclude, m) == visited;
      }
      i := i + 1;
    }
    ValidatedPruningEquivalence(entries, exclude, excludeExtensionMap, m);
    assert entries[..i] == entries;
    r := if errorFiles == [] then Clean else Issues(errorFiles);
  }

  /** The validated files are the listed entries that pass `Validated`. */
  lemma {:induction false} ValidatedFilesMembers(entries: seq<Entry>, exclude: seq<string>, exts: set<string>,
                                                 m: Matcher, e: Entry)
    ensures e in ValidatedFiles(entries, exclude, exts, m) <==> e in entries && Validated(e, exclude, exts, m)
    decreases |entries|
  {
    if entries != [] {
      var front := entries[..|entries| - 1];
      ValidatedFilesMembers(front, exclude, exts, m, e);
      assert entries == front + [entries[|entries| - 1]];
    }
  }

  lemma {:induction false} ValidatedFilesAppend(a: seq<Entry>, b: seq<Entry>, exclude: seq<string>, exts: set<string>,
                                                m: Matcher)
    ensures ValidatedFiles(a + b, exclude, exts, m) == ValidatedFiles(a, exclude, exts, m) + ValidatedFiles(b, exclude, exts, m)
    decreases |b|
  {
    if b != [] {
      var b' := b[..|b| - 1];
      assert (a + b)[..|a + b| - 1] == a + b';
      ValidatedFilesAppend(a, b', exclude, exts, m);
    } else {
      assert a + b == a;
    }
  }

  /**
   * Pruning loses nothing and adds nothing: the files of the pruned walk
   * that the callback validates are exactly those an entry-by-entry test
   * keeps, in the same order.
   */
  lemma {:induction false} ValidatedPruningEquivalence(entries: seq<Entry>, exclude: seq<string>, exts: set<string>,
                                                       m: Matcher)
    ensures ValidatedFiles(Visited(entries, exclude, m), exclude, exts, m) == ValidatedFiles(entries, exclude, exts, m)
    decreases |entries|
  {
    if entries != [] {
      var front := entries[..|entries| - 1];
      var e := entries[|entries| - 1];
      var vis := Visited(front, exclude, m);
      ValidatedPruningEquivalence(front, exclude, exts, m);
      var pruned := PrunedDirs(vis, exclude, m);
      if UnderAny(pruned, e.path) {
        var d :| d in pruned && IsAncestorOf(d, e.path);
        PrunedDirExcluded(vis, exclude, m, d);
        ExcludedBeneath(exclude, m, d, e.path);
      } else {
        assert (vis + [e])[..|vis|] == vis;
      }
    }
  }

  /**
   * One step of the header check's walk: what visiting `entries[i]` does to
   * the visited entries, the pruned directories and the scan of the
   * validated files.
   */
  lemma HeaderWalkStep(entries: seq<Entry>, i: nat, exclude: seq<string>, exts: set<string>, m: Matcher,
                       flag: string -> bool)
    requires i < |entries|
    requires Scan(ValidatedFiles(Visited(entries[..i], exclude, m), exclude, exts, m), flag).Scanned?
    ensures var vis, e := Visited(entries[..i], exclude, m), entries[i];
      var before := Scan(ValidatedFiles(vis, exclude, exts, m), flag);
      var after := Scan(ValidatedFiles(Visited(entries[..i + 1], exclude, m), exclude, exts, m), flag);
      if UnderAny(PrunedDirs(vis, exclude, m), e.path) then
        Visited(entries[..i + 1], exclude, m) == vis && after == before
      else
        Visited(entries[..i + 1], exclude, m) == vis + [e] &&
        PrunedDirs(vis + [e], exclude, m) ==
          PrunedDirs(vis, exclude, m) + (if e.isDir && Excluded(exclude, m, e.path) then [e.path] else []) &&
        after == if !Validated(e, exclude, exts, m) then before
                 else if e.content.None? then Unreadable(e.path)
                 else Scanned(before.flagged + if flag(e.content.value) then [e.path] else [])
  {
    var vis, e := Visited(entries[..i], exclude, m), entries[i];
    VisitedStep(entries, i, exclude, m);
    if !UnderAny(PrunedDirs(vis, exclude, m), e.path) {
      PrunedDirsStep(vis, e, exclude, m);
      var vf := ValidatedFiles(vis, exclude, exts, m);
      assert (vis + [e])[..|vis|] == vis;
      if Validated(e, exclude, exts, m) {
        ScanStep(vf, e, flag);
      } else {
        assert vf + [] == vf;
      }
    }
  }

  /** Once the header check meets an unreadable file, the rest of the listing does not change its result. */
  lemma HeaderFailureIsFinal(entries: seq<Entry>, i: nat, exclude: seq<string>, exts: set<string>, m: Matcher,
                             flag: string -> bool)
    requires i <= |entries|
    requires Scan(ValidatedFiles(Visited(entries[..i], exclude, m), exclude, exts, m), flag).Unreadable?
    ensures Scan(ValidatedFiles(entries, exclude, exts, m), flag) ==
            Scan(ValidatedFiles(Visited(entries[..i], exclude, m), exclude, exts, m), flag)
  {
    ValidatedPruningEquivalence(entries[..i], exclude, exts, m);
    ValidatedPrefixFailureIsFinal(entries, i, exclude, exts, m, flag);
  }

  /** A read failure among the validated files of a prefix of the listing is the result for the whole listing. */
  lemma ValidatedPrefixFailureIsFinal(entries: seq<Entry>, i: nat, exclude: seq<string>, exts: set<string>, m: Matcher,
                                      flag: string -> bool)
    requires i <= |entries|
    requires Scan(ValidatedFiles(entries[..i], exclude, exts, m), flag).Unreadable?
    ensures Scan(ValidatedFiles(entries, exclude, exts, m), flag) == Scan(ValidatedFiles(entries[..i], exclude, exts, m), flag)
  {
    var front, back := entries[..i], entries[i..];
    assert entries == front + back;
    ValidatedFilesAppend(front, back, exclude, exts, m);
    ScanStopsAtUnreadable(ValidatedFiles(front, exclude, exts, m), ValidatedFiles(back, exclude, exts, m), flag);
  }

  /** The validated files are the files the blank-line check would read, less those ignored by extension. */
  lemma ValidatedAreChecked(entries: seq<Entry>, exclude: seq<string>, exts: set<string>, m: Matcher, e: Entry)
    ensures e in ValidatedFiles(entries, exclude, exts, m) <==>
            e in CheckedFiles(entries, exclude, m) && !IgnoredByExtension(Base(e.path), exts, m)
  {
    ValidatedFilesMembers(entries, exclude, exts, m, e);
    CheckedFilesMembers(entries, exclude, m, e);
  }

  /**
   * A completed header check reports exactly the listed, non-excluded,
   * non-ignored files whose text lacks the header of family `lt`.
   */
  lemma ReportedIffHeaderMissing(entries: seq<Entry>, exclude: seq<string>, exts: set<string>, m: Matcher,
                                 lt: LicenseType, p: Path)
    requires LicenseScan(entries, exclude, exts, m, lt).Scanned?
    ensures p in LicenseScan(entries, exclude, exts, m, lt).flagged <==>
      exists e :: e in entries && e.path == p && !e.isDir && !Excluded(exclude, m, e.path) &&
                  !IgnoredByExtension(Base(e.path), exts, m) &&
                  e.content.Some? && !ValidateLicenseHeader(e.content.value, lt)
  {
    var files := ValidatedFiles(entries, exclude, exts, m);
    var flag := MissingHeader(lt);
    if p in Scan(files, flag).flagged {
      ScanFlagsExactly(files, flag, p);
      var k :| 0 <= k < |files| && files[k].path == p && files[k].content.Some? && flag(files[k].content.value);
      ValidatedFilesMembers(entries, exclude, exts, m, files[k]);
    } else {
      forall e | e in entries && e.path == p && !e.isDir && !Excluded(exclude, m, e.path) &&
                 !IgnoredByExtension(Base(e.path), exts, m) && e.content.Some?
        ensures ValidateLicenseHeader(e.content.value, lt)
      {
        ValidatedFilesMembers(entries, exclude, exts, m, e);
        var k :| 0 <= k < |files| && files[k] == e;
        ScanFlagsExactly(files, flag, p);
      }
    }
  }

  /**
   * With an override naming a family `validateLicenseHeader` does not
   * support (LGPL, MPL, BSD or any other name), every readable file the
   * check reaches is reported.
   */
  lemma UnsupportedOverrideFlagsEveryFile(entries: seq<Entry>, exclude: seq<string>, exts: set<string>, m: Matcher,
                                          lt: LicenseType, p: Path)
    requires lt != Apache2 && lt != MIT && lt != GPL2 && lt != GPL3
    requires LicenseScan(entries, exclude, exts, m, lt).Scanned?
    ensures p in LicenseScan(entries, exclude, exts, m, lt).flagged <==>
      exists e :: e in entries && e.path == p && !e.isDir && !Excluded(exclude, m, e.path) &&
                  !IgnoredByExtension(Base(e.path), exts, m) && e.content.Some?
  {
    ReportedIffHeaderMissing(entries, exclude, exts, m, lt, p);
    forall e | e in entries && e.content.Some?
      ensures !ValidateLicenseHeader(e.content.value, lt)
    {
      UnsupportedFamiliesNeverValidate(e.content.value, lt);
    }
  }

  /**
   * Ignored files are never read: when the header check aborts, the
   * unreadable file it names is a listed, non-excluded file the extension
   * list does not ignore.
   */
  lemma AbortNamesValidatedFile(entries: seq<Entry>, exclude: seq<string>, exts: set<string>, m: Matcher, lt: LicenseType)
    requires LicenseScan(entries, exclude, exts, m, lt).Unreadable?
    ensures exists e :: e in entries && e.path == LicenseScan(entries, exclude, exts, m, lt).path &&
                        !e.isDir && !Excluded(exclude, m, e.path) &&
                        !IgnoredByExtension(Base(e.path), exts, m) && e.content.None?
  {
    var files := ValidatedFiles(entries, exclude, exts, m);
    ScanStopsAtFirstUnreadable(files, MissingHeader(lt));
    var k :| 0 <= k < |files| && files[k].path == Scan(files, MissingHeader(lt)).path && files[k].content.None? &&
             (forall j :: 0 <= j < k ==> files[j].content.Some?);
    ValidatedFilesMembers(entries, exclude, exts, m, files[k]);
  }

  /** An empty extension list ignores nothing: the header check reads the files the blank-line check reads. */
  lemma {:induction false} NoExtensionsIgnoreNothing(entries: seq<Entry>, exclude: seq<string>, m: Matcher)
    ensures ValidatedFiles(entries, exclude, {}, m) == CheckedFiles(entries, exclude, m)
    decreases |entries|
  {
    if entries != [] {
      NoExtensionsIgnoreNothing(entries[..|entries| - 1], exclude, m);
    }
  }

  /** A file without a '.' in its name is ignored only by a pattern matching its name. */
  lemma ExtensionlessOnlyByPattern(name: string, exts: set<string>, m: Matcher)
    requires '.' !in name
    ensures IgnoredByExtension(name, exts, m) <==> exists e :: e in exts && m(e, name)
  {
    assert ToLower(Ext(name)) == "";
  }

  /** The extension of `stem.suffix`, when `suffix` holds no '.', is `.suffix`. */
  lemma {:induction false} ExtAfterLastDot(stem: string, suffix: string)
    requires '.' !in suffix
    ensures Ext(stem + "." + suffix) == "." + suffix
    decreases |suffix|
  {
    var name := stem + "." + suffix;
    if suffix != "" {
      var front := suffix[..|suffix| - 1];
      assert name[..|name| - 1] == stem + "." + front;
      ExtAfterLastDot(stem, front);
      assert "." + front + [suffix[|suffix| - 1]] == "." + suffix;
    }
  }

  /**
   * Extensions are compared lower-cased: a name ending in `.suffix` is
   * ignored whenever the lower-cased `.suffix` is on the list, whatever the
   * pattern matcher does.
   */
  lemma ListedExtensionIgnored(stem: string, suffix: string, exts: set<string>, m: Matcher)
    requires '.' !in suffix && ToLower("." + suffix) in exts
    ensures IgnoredByExtension(stem + "." + suffix, exts, m)
  {
    ExtAfterLastDot(stem, suffix);
    assert |ToLower("." + suffix)| > 0;
  }

  /**
   * A tree with `a.go` lacking the Apache header and `b.go` carrying it in a
   * comment: under Apache-2.0 with no rules and no ignored extensions, only
   * `a.go` is reported, whatever the pattern matcher does.
   */
  lemma ApacheHeaderExample(m: Matcher)
    ensures var entries := [Entry([], true, None), Entry(["a.go"], false, Some("package a\n")),
                            Entry(["b.go"], false, Some("// " + ApacheHeader + "\n"))];
      Report(LicenseScan(entries, [], {}, m, Apache2)) == Issues([["a.go"]])
  {
    var a := Entry(["a.go"], false, Some("package a\n"));
    var b := Entry(["b.go"], false, Some("// " + ApacheHeader + "\n"));
    TwoFilesValidated(m, a, b);
    ExampleHeaders();
    ScanFirstOfTwo(a, b, MissingHeader(Apache2));
  }

  /** With no rules and no ignored extensions, both files of the example tree are validated, in order. */
  lemma TwoFilesValidated(m: Matcher, a: Entry, b: Entry)
    requires a.path == ["a.go"] && b.path == ["b.go"] && !a.isDir && !b.isDir
    ensures ValidatedFiles([Entry([], true, None), a, b], [], {}, m) == [a, b]
  {
    var entries := [Entry([], true, None), a, b];
    assert !Excluded([], m, a.path) && !Excluded([], m, b.path);
    assert entries[..2] == [Entry([], true, None), a];
    assert entries[..2][..1] == [Entry([], true, None)];
    assert [Entry([], true, None)][..0] == [];
    assert ValidatedFiles(entries[..2][..1], [], {}, m) == [];
    assert ValidatedFiles(entries[..2], [], {}, m) == [a];
  }

  /** "package a\n" lacks the Apache header; a comment line holding it passes. */
  lemma ExampleHeaders()
    ensures !ValidateLicenseHeader("package a\n", Apache2)
    ensures ValidateLicenseHeader("// " + ApacheHeader + "\n", Apache2)
  {
    ShortNeverContains("package a\n", ApacheHeader);
    assert Contains(ApacheHeader, ApacheHeader) by {
      assert IsPrefix(ApacheHeader, ApacheHeader);
    }
    ContainsAfter("// ", ApacheHeader, ApacheHeader);
    ContainsBefore("// " + ApacheHeader, "\n", ApacheHeader);
  }

  /** Two readable files of which only the first is rejected: only its path is collected. */
  lemma ScanFirstOfTwo(a: Entry, b: Entry, flag: string -> bool)
    requires a.content.Some? && b.content.Some? && flag(a.content.value) && !flag(b.content.value)
    ensures Scan([a, b], flag) == Scanned([a.path])
  {
    assert [a, b][..1] == [a];
    assert [a][..0] == [];
    assert Scan([a], flag) == Scanned([a.path]);
  }
}
