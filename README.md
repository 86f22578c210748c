# lintool: exclusion rules, license engine and check runners

A Dafny model of the logic behind two of lintool's checks.

- `lintool blankline` walks a directory tree and reports every file that does not end with a newline byte.
- `lintool license` settles the project's license family and reports every file whose text lacks that family's header.
  - A non-empty `--license` flag names the family verbatim.
  - Otherwise the family is detected from the first readable `LICENSE`/`COPYING` file.

Both checks share one exclusion rule. A walked entry is left out when its relative path, or any ancestor of that path short of the root, is in the `--exclude` list or matches one of its entries as a regular expression. An excluded directory answers `SkipDir`, so its subtree is never visited. An excluded file is never read.

Modules:

- `Paths`: relative paths as sequences of segments (`[]` is the root `.`), `filepath.Dir`, `Base`, `Ext` and ASCII lower-casing.
- `Exclusion`: the ancestor chain, the exclusion predicate `Excluded`, and `ExcludeVerdict`, the ancestor loop run by both walk callbacks.
- `Walk`: the directory walk as a pre-order listing of entries, with two descriptions of it.
  - `Visited` and `PrunedDirs` describe what `filepath.Walk` visits once `SkipDir` prunes subtrees.
  - `CheckedFiles` is an independent entry-by-entry test.
  - `Scan` is the read-and-accumulate fold; it stops at the first unreadable file.
  - `PruningEquivalence` proves that the two descriptions keep the same files in the same order.
- `BlankLine`: the newline predicate and `CheckBlankLine`.
- `LicenseUtils`: the license families and their detection phrases, `DetectLicenseType` and `ValidateLicenseHeader`.
- `LicenseLint`: `IgnoreExcludeExtension`, the walk callback of the license check, and `CheckLicenseHeader`.

Each imperative runner (`CheckBlankLine`, `CheckHeaders`, `ExcludeVerdict`, `IgnoreExcludeExtension`, `DetectLicenseType`) is a method with loops. It is proved against the specification functions of `Walk`, `Exclusion`, `LicenseUtils` and `LicenseLint`. The lemmas state the properties of those functions.

Go iterates maps in an unspecified order, and detection tries the families in that order. The model therefore picks the next family nondeterministically. `Admissible` describes every result detection may give.

## Model

| member | source | states |
|---|---|---|
| Paths.DirShortens | license_lint.go:107-123 | each `filepath.Dir` step strictly shortens the tested string and keeps a prefix of it, so the ancestor loop ends at "." |
| Paths.Ext | license_lint.go:164 | the extension is a suffix of the name that starts at its last '.', and is empty exactly when the name has no '.' |
| Exclusion.Ancestors | license_lint.go:106-123 | the strings the ancestor loop tests are, in order, the path and each parent, one per segment, never the root |
| Exclusion.ToSet | license_lint.go:89-92 | the `excludeMap` built from the rule list holds exactly the rules |
| Exclusion.ExcludeVerdict | license_lint.go:106-124 | `SkipDir` iff the entry is a directory and excluded, skip iff a file and excluded, continue iff not excluded |
| Exclusion.RootNeverExcluded | license_lint.go:107 | the root "." is never tested, so it is never excluded |
| Exclusion.ExcludedIffAncestorHits | license_lint.go:106-124 | an entry is excluded iff some string of its ancestor chain is a rule or matches a rule |
| Exclusion.ExcludedIffPrefixHits | blankline.go:80-98 | an entry is excluded iff some non-empty prefix of its path, joined with '/', is a rule or matches one |
| Exclusion.ExcludedBeneath | blankline.go:80-98 | everything beneath an excluded directory is excluded |
| Exclusion.ExcludedMonotone | blankline.go:80-98 | adding rules never un-excludes a path |
| Walk.PrunedDirs | blankline.go:80-98 | (definition) the directories the callback answered `SkipDir` for: the visited entries that are directories and excluded, in walk order |
| Walk.Visited | blankline.go:68 | (definition) the pre-order listing with every entry beneath an already pruned directory dropped, which is how `filepath.Walk` honours `SkipDir` |
| Walk.ExcludedDirIsPruned | blankline.go:83-84 | every visited excluded directory is pruned |
| Walk.PrunedDirExcluded | blankline.go:91-92 | only excluded directories are pruned |
| Walk.PrunedSubtreeNeverVisited | blankline.go:83-84 | no visited entry lies beneath a pruned directory |
| Walk.VisitedAreListed | blankline.go:68 | the walk visits only entries of the tree |
| Walk.CheckedFilesMembers | blankline.go:80-102 | the files that are read are exactly the listed non-directories that are not excluded |
| Walk.Scan | blankline.go:100-111 | (definition) the read-and-append fold over the checked files in walk order: the first unreadable file aborts with its path; otherwise each file the flag rejects has its path appended |
| Walk.ScanCompletesIffReadable | blankline.go:104-107 | the accumulation completes iff every checked file can be read |
| Walk.ScanFlagsExactly | blankline.go:104-111 | a completed accumulation holds exactly the paths of the checked files the flag rejects, and no more paths than files |
| Walk.ScanStopsAtFirstUnreadable | blankline.go:104-107 | an aborted accumulation names the first unreadable checked file, and every file before it was read |
| Walk.LastFileUnreadable | blankline.go:104-107 | when the fold completes up to the last file and then aborts, it names that file and every earlier file was read |
| Walk.ScanStopsAtUnreadable | blankline.go:113-115 | once a read fails, later files do not change the outcome |
| Walk.PruningEquivalence | blankline.go:80-98 | the pruned walk and the entry-by-entry test keep the same files in the same order |
| Walk.FailureIsFinal | blankline.go:104-107 | a read failure met by the walk is the result of the whole check |
| Walk.PrefixFailureIsFinal | blankline.go:104-107 | once a checked file of a prefix of the listing cannot be read, the rest of the listing does not change the outcome |
| Walk.Report | blankline.go:113-120 | (definition) the walk's error is returned as it is; otherwise no collected path is success and a non-empty list is an issue carrying the paths |
| Walk.ReportCases | license_lint.go:146-156 | the result is `Clean` iff the fold completed with no path, `ReadFailed` iff it aborted (with the same path), `Issues` only for a completed fold with paths (carrying exactly them), and never "no license file" |
| Walk.CheckedUnderMoreRules | blankline.go:80-98 | a file checked under more rules is checked under fewer |
| Walk.MoreRulesFewerFlags | blankline.go:80-98 | adding rules keeps a completed check completed and only removes reported files |
| BlankLine.MissingFinalNewline | blankline.go:108 | (definition) a file is flagged when it is empty or its last byte is not '\n' |
| BlankLine.BlankLineCallback | blankline.go:68-111 | `SkipDir` iff an excluded directory; a read error iff a non-excluded file is unreadable; the path is appended iff a non-excluded file is readable and lacks the final newline |
| BlankLine.CheckBlankLine | blankline.go:61-121 | the walk's result is the accumulation over the entry-by-entry filtered files with the newline predicate: clean, the offending files in walk order, or the first read failure |
| BlankLine.OnlyLastByteMatters | blankline.go:108 | two non-empty files ending in the same byte are judged alike |
| BlankLine.NewlineExamples | blankline.go:108 | the empty file is flagged; any text followed by '\n' is not |
| BlankLine.ReportedIffMissingNewline | blankline.go:100-111 | a file is reported iff it is listed, is not a directory, is not excluded, is readable and lacks the final newline |
| BlankLine.AbortNamesCheckedFile | blankline.go:104-107 | a read failure names a listed, non-excluded file: excluded files are never read |
| BlankLine.TestdataExample | blankline.go:80-98 | the rule "testdata" prunes `testdata/` whatever the matcher does; without rules its file is reported |
| LicenseUtils.LicensePatternsTable | license_utils.go:38-46 | the detection table `LicensePatterns` has exactly the seven families Apache-2.0, MIT, GPL-2.0, GPL-3.0, LGPL, MPL and BSD, not `Unlicensed`; each has at least one phrase; the two GPL families share the title phrase and differ in the version phrase |
| LicenseUtils.FirstReadable | license_utils.go:51-67 | absent iff no candidate can be read; otherwise the content of the first readable candidate |
| LicenseUtils.DetectLicenseType | license_utils.go:49-89 | the result is admissible: `Unlicensed` for empty text, else a family whose phrases all occur, else `Apache2` |
| LicenseUtils.ApacheHeaderHoldsDetectionPhrases | license_utils.go:95 | a file holding the Apache header also holds the phrases "Apache License" and "Version 2.0" |
| LicenseUtils.ValidateLicenseHeader | license_utils.go:92-107 | only Apache-2.0, MIT, GPL-2.0 and GPL-3.0 can pass |
| LicenseUtils.HeaderAgreesWithDetection | license_utils.go:94-103 | a passing header holds its family's first detection phrase; the GPL cases pass iff both detection phrases occur; MIT passes iff "MIT License" occurs, so whenever the MIT detection phrases do; Apache-2.0 passes iff the Apache header sentence occurs |
| LicenseUtils.UnlicensedIffEmpty | license_utils.go:69-72 | detection gives `Unlicensed` exactly for empty text |
| LicenseUtils.DetectedFamilyHoldsItsPhrases | license_utils.go:75-88 | a non-fallback result holds all its family's phrases; text matching no family gives `Apache2` |
| LicenseUtils.SingleMatchDetermined | license_utils.go:75-86 | when exactly one family matches, detection must give that family |
| LicenseUtils.GplVersionsNotConflated | license_utils.go:41-42 | a GPL-2.0 result needs "Version 2" and a GPL-3.0 result needs "Version 3" |
| LicenseUtils.AmbiguousGplText | license_utils.go:75 | a text holding both GPL versions admits both results, so the outcome depends on map order |
| LicenseUtils.FirstCandidateDecides | license_utils.go:60-67 | a readable `LICENSE` decides the text, and an empty one gives `Unlicensed` even when a later candidate is not empty |
| LicenseUtils.NoCandidateUnlicensed | license_utils.go:59-72 | with no readable candidate, detection gives `Unlicensed` |
| LicenseUtils.UnsupportedFamiliesNeverValidate | license_utils.go:104-105 | LGPL, MPL, BSD, UNLICENSED and any other name never validate |
| LicenseLint.IgnoreExcludeExtension | license_lint.go:160-176 | a file is ignored iff the list is not empty and its lower-cased extension is a non-empty entry, or an entry matches its base name |
| LicenseLint.CheckFileHeader | license_lint.go:130-143 | for a file no rule excludes: a read error iff it is not ignored and unreadable; its path is appended iff it is not ignored, readable and lacks the header; never `SkipDir` |
| LicenseLint.HeaderCallback | license_lint.go:95-143 | `SkipDir` iff an excluded directory; a read error iff the file is validated and unreadable; the path is appended iff the file is validated, readable and lacks the header |
| LicenseLint.CheckHeaders | license_lint.go:84-156 | the walk's result is the accumulation over the non-excluded, non-ignored files with the header test |
| LicenseLint.CheckLicenseHeader | license_lint.go:67-157 | a non-empty override is used verbatim; otherwise the family is admissible for the license text; a detected `Unlicensed` ends with "no license file" before any walk; else the walk's result |
| LicenseLint.ValidatedFilesMembers | license_lint.go:106-133 | the files the header check reads are exactly the listed non-directories that no rule excludes and no extension entry ignores |
| LicenseLint.ValidatedAreChecked | license_lint.go:126-133 | the header check reads exactly the files the blank-line check would read, less those ignored by extension |
| LicenseLint.ValidatedPruningEquivalence | license_lint.go:106-133 | the pruned walk and the entry-by-entry test keep the same validated files in the same order |
| LicenseLint.HeaderFailureIsFinal | license_lint.go:135-138 | a read failure met by the walk is the result of the whole check |
| LicenseLint.ValidatedPrefixFailureIsFinal | license_lint.go:135-138 | once a validated file cannot be read, files listed after it do not change the outcome |
| LicenseLint.ReportedIffHeaderMissing | license_lint.go:126-153 | a file is reported iff it is listed, is not a directory, is not excluded, is not ignored, is readable and fails header validation |
| LicenseLint.UnsupportedOverrideFlagsEveryFile | license_lint.go:71-72 | with an override naming an unsupported family, every readable validated file is reported |
| LicenseLint.AbortNamesValidatedFile | license_lint.go:130-138 | a read failure names a listed, non-excluded, non-ignored file: ignored files are never read |
| LicenseLint.NoExtensionsIgnoreNothing | license_lint.go:161-163 | with an empty extension list the header check reads exactly the files the blank-line check reads |
| LicenseLint.ExtensionlessOnlyByPattern | license_lint.go:164-175 | a name without '.' is ignored iff some entry matches it as a pattern |
| LicenseLint.ExtAfterLastDot | license_lint.go:164 | the extension of `stem.suffix` is `.suffix` when the suffix holds no '.' |
| LicenseLint.ExampleHeaders | license_utils.go:94-95 | "package a\n" fails the Apache-2.0 header test; a comment line holding the Apache header sentence passes it |
| LicenseLint.ApacheHeaderExample | license_lint.go:126-156 | a tree with `a.go` lacking the Apache header and `b.go` carrying it: under Apache-2.0 with no rules and no ignored extensions the check gives `Issues([["a.go"]])`, whatever the pattern matcher does |
| LicenseLint.ListedExtensionIgnored | license_lint.go:164-167 | a name ending in `.suffix` is ignored whatever the matcher does when the lower-cased `.suffix` is listed |

## Left out

- Regular expressions: `regexp.MustCompile(rule).MatchString(s)` is the parameter `m: Matcher` of every member. RE2 semantics and the panic on an invalid pattern are not modelled.
- File-system access: the tree is a pre-order listing of entries, and an unreadable file is an entry without content. Errors that `filepath.Walk` hands to the callback and errors from `filepath.Rel` are not modelled. Only read failures are.
- The detection input `dir` maps each readable top-level file name to its content. It is independent of the walked listing.
- Reported paths are relative paths (segment sequences). The source reports the path joined to the `--directory` argument.
- A root that is itself a file: its relative path is `[]` ("."). It is never excluded and is read and checked like any other file, but `Base([])` is ".", so the extension filter of the license check sees the name "." and not the file's real name; an ignored extension never applies to such a root, where `filepath.Ext` of the real path would apply it.
- `strings.ToLower` is ASCII lower-casing. File contents are strings with one character per byte, and there is no Unicode case mapping.
- Printing (`fmt.Println`, `fmt.Printf`) and the text of returned errors: results are the `CheckResult` cases `Clean`, `Issues`, `ReadFailed` and `NoLicenseFile`.
- Command wiring (cobra flags, `lint.go`) and the commit-signature check (`sign_commit.go`) are not part of this model.
- LicenseUtils.DetectLicenseType: the family is chosen in an unspecified order, as Go's map iteration does, so the contract admits any matching family rather than one fixed answer.
- The comment at license_utils.go:69 says a missing license file defaults to Apache-2.0. The code returns `Unlicensed`, and the model follows the code.
