/**
 * The license engine: which license family a project uses, read from its
 * first license file, and whether one file's text carries that family's
 * header.
 *
 * `LicenseType` is a string, as in the source: the constants below are the
 * recognised families, and a `--license` flag may hand in any other name.
 */
module LicenseUtils {
  import opened Wrappers

  type LicenseType = string

  const Apache2: LicenseType := "Apache-2.0"
  const MIT: LicenseType := "MIT"
  const GPL2: LicenseType := "GPL-2.0"
  const GPL3: LicenseType := "GPL-3.0"
  const LGPL: LicenseType := "LGPL"
  const Mozilla: LicenseType := "MPL"
  const BSD: LicenseType := "BSD"
  const Unlicensed: LicenseType := "UNLICENSED"

  /** The phrases of the detection table; the header test reuses some of them. */
  const ApacheTitle := "Apache License"
  const ApacheVersion := "Version 2.0"
  const ApacheUrl := "http://www.apache.org/licenses/LICENSE-2.0"
  const MitTitle := "MIT License"
  const MitGrant := "Permission is hereby granted, free of charge"
  const GplTitle := "GNU GENERAL PUBLIC LICENSE"
  const GplVersion2 := "Version 2"
  const GplVersion3 := "Version 3"
  const LgplTitle := "GNU LESSER GENERAL PUBLIC LICENSE"
  const MplTitle := "Mozilla Public License"
  const BsdTitle := "BSD License"
  const BsdGrant := "Redistribution and use in source and binary forms"

  /** The phrases a license file must all contain to be classified as each family. */
  const LicensePatterns: map<LicenseType, seq<string>> := map[
    Apache2 := [ApacheTitle, ApacheVersion, ApacheUrl],
    MIT := [MitTitle, MitGrant],
    GPL2 := [GplTitle, GplVersion2],
    GPL3 := [GplTitle, GplVersion3],
    LGPL := [LgplTitle],
    Mozilla := [MplTitle],
    BSD := [BsdTitle, BsdGrant]
  ]

  /**
   * The detection table covers seven families, `Unlicensed` is not one of
   * them, every family has at least one phrase, and the two GPL families
   * share their title and differ in their version phrase.
   */
  lemma LicensePatternsTable()
    ensures LicensePatterns.Keys == {Apache2, MIT, GPL2, GPL3, LGPL, Mozilla, BSD}
    ensures Unlicensed !in LicensePatterns
    ensures forall f :: f in LicensePatterns ==> |LicensePatterns[f]| >= 1
    ensures LicensePatterns[GPL2][0] == LicensePatterns[GPL3][0] == GplTitle
    ensures LicensePatterns[GPL2][1] != LicensePatterns[GPL3][1]
  {
  }

  /** The license file names tried, in this order. */
  const LicenseFileNames: seq<string> := ["LICENSE", "LICENSE.txt", "LICENSE.md", "COPYING", "COPYING.txt"]

  /** The header phrase an Apache-2.0 file must carry: "Licensed under the Apache License, Version 2.0". */
  const ApacheHeader := "Licensed under the " + ApacheTitle + ", " + ApacheVersion

  predicate IsPrefix(p: string, s: string) {
    |p| <= |s| && s[..|p|] == p
  }

  /** `strings.Contains`: `sub` occurs somewhere in `s` (the empty string occurs everywhere). */
  predicate Contains(s: string, sub: string)
    decreases |s|
  {
    IsPrefix(sub, s) || (|s| > 0 && Contains(s[1..], sub))
  }

  lemma {:induction false} ContainsAfter(a: string, s: string, sub: string)
    requires Contains(s, sub)
    ensures Contains(a + s, sub)
    decreases |a|
  {
    if a != [] {
      assert (a + s)[1..] == a[1..] + s;
      ContainsAfter(a[1..], s, sub);
    } else {
      assert a + s == s;
    }
  }

  lemma {:induction false} ContainsBefore(s: string, b: string, sub: string)
    requires Contains(s, sub)
    ensures Contains(s + b, sub)
    decreases |s|
  {
    if IsPrefix(sub, s) {
      assert (s + b)[..|sub|] == s[..|sub|];
    } else {
      ContainsBefore(s[1..], b, sub);
      assert (s + b)[1..] == s[1..] + b;
    }
  }

  /** Containment is transitive: what occurs in a part occurs in the whole. */
  lemma {:induction false} ContainsTransitive(s: string, t: string, u: string)
    requires Contains(s, t) && Contains(t, u)
    ensures Contains(s, u)
    decreases |s|
  {
    if IsPrefix(t, s) {
      assert s == t + s[|t|..];
      ContainsBefore(t, s[|t|..], u);
    } else {
      ContainsTransitive(s[1..], t, u);
      assert s == [s[0]] + s[1..];
      ContainsAfter([s[0]], s[1..], u);
    }
  }

  /** What occurs in an occurrence occurs in the whole: the left part. */
  lemma ContainsLeft(s: string, a: string, b: string)
    requires Contains(s, a + b)
    ensures Contains(s, a)
  {
    assert IsPrefix(a, a + b);
    ContainsTransitive(s, a + b, a);
  }

  /** What occurs in an occurrence occurs in the whole: the right part. */
  lemma ContainsRight(s: string, a: string, b: string)
    requires Contains(s, a + b)
    ensures Contains(s, b)
  {
    assert IsPrefix(b, b);
    ContainsAfter(a, b, b);
    ContainsTransitive(s, a + b, b);
  }

  /** A string shorter than `sub` does not contain it. */
  lemma {:induction false} ShortNeverContains(s: string, sub: string)
    requires |s| < |sub|
    ensures !Contains(s, sub)
    decreases |s|
  {
    if |s| > 0 {
      ShortNeverContains(s[1..], sub);
    }
  }

  /** `content` holds every detection phrase of family `lt`. */
  predicate Satisfies(content: string, lt: LicenseType) {
    lt in LicensePatterns && forall p :: p in LicensePatterns[lt] ==> Contains(content, p)
  }

  /**
   * The license text detection reads: the content of the first candidate
   * file that can be read, or "" when none can. An empty first file wins
   * over a later non-empty one.
   */
  function FirstReadable(names: seq<string>, dir: map<string, string>): (r: Option<string>)
    ensures r.None? <==> forall k :: 0 <= k < |names| ==> names[k] !in dir
    ensures r.Some? ==> exists k :: 0 <= k < |names| && names[k] in dir && dir[names[k]] == r.value &&
                                    (forall j :: 0 <= j < k ==> names[j] !in dir)
    decreases |names|
  {
    if names == [] then None
    else if names[0] in dir then Some(dir[names[0]])
    else
      var rest := names[1..];
      var r := FirstReadable(rest, dir);
      assert forall k :: 1 <= k < |names| ==> names[k] == rest[k - 1];
      assert r.Some? ==> exists k :: 0 <= k < |names| && names[k] in dir && dir[names[k]] == r.value &&
                                     (forall j :: 0 <= j < k ==> names[j] !in dir) by {
        if r.Some? {
          var k :| 0 <= k < |rest| && rest[k] in dir && dir[rest[k]] == r.value &&
                   (forall j :: 0 <= j < k ==> rest[j] !in dir);
          assert names[k + 1] == rest[k];
          forall j | 0 <= j < k + 1
            ensures names[j] !in dir
          {
            if j > 0 {
              assert names[j] == rest[j - 1];
            }
          }
        }
      }
      r
  }

  function LicenseText(dir: map<string, string>): string {
    match FirstReadable(LicenseFileNames, dir)
    case None => ""
    case Some(content) => content
  }

  /**
   * The results detection may give for a license text: `Unlicensed` for an
   * empty one; otherwise any family whose phrases it all holds (the
   * families are tried in map order, which is unspecified), and `Apache2`
   * when it holds no family's phrases.
   */
  ghost predicate Admissible(content: string, lt: LicenseType) {
    if content == "" then lt == Unlicensed
    else if exists f :: Satisfies(content, f) then Satisfies(content, lt)
    else lt == Apache2
  }

  /**
   * `detectLicenseType`: read the first readable candidate, give
   * `Unlicensed` for an empty text, else try the families in an unspecified
   * order and return the first whose phrases all occur, else `Apache2`.
   */
  method DetectLicenseType(dir: map<string, string>) returns (lt: LicenseType)
    ensures Admissible(LicenseText(dir), lt)
  {
    var licenseContent := "";
    var i := 0;
    while i < |LicenseFileNames|
      invariant 0 <= i <= |LicenseFileNames|
      invariant forall j :: 0 <= j < i ==> LicenseFileNames[j] !in dir
    {
      var name := LicenseFileNames[i];
      if name in dir {
        licenseContent := dir[name];
        break;
      }
      i := i + 1;
    }
    assert licenseContent == LicenseText(dir);

    if licenseContent == "" {
      return Unlicensed;
    }

    var remaining := LicensePatterns.Keys;
    while remaining != {}
      invariant remaining <= LicensePatterns.Keys
      invariant forall f :: f in LicensePatterns && f !in remaining ==> !Satisfies(licenseContent, f)
      decreases remaining
    {
      var licType :| licType in remaining;
      var patterns := LicensePatterns[licType];
      var matched := true;
      var j := 0;
      while j < |patterns|
        invariant 0 <= j <= |patterns|
        invariant forall k :: 0 <= k < j ==> Contains(licenseContent, patterns[k])
      {
        if !Contains(licenseContent, patterns[j]) {
          matched := false;
          break;
        }
        j := j + 1;
      }
      if matched {
        return licType;
      }
      remaining := remaining - {licType};
    }
    return Apache2;
  }

  /** A validated Apache header also holds the first two Apache detection phrases. */
  lemma ApacheHeaderHoldsDetectionPhrases(content: string)
    requires Contains(content, ApacheHeader)
    ensures Contains(content, ApacheTitle) && Contains(content, ApacheVersion)
  {
    var lead := "Licensed under the ";
    ContainsLeft(content, lead + ApacheTitle + ", ", ApacheVersion);
    ContainsRight(content, lead + ApacheTitle + ", ", ApacheVersion);
    ContainsLeft(content, lead + ApacheTitle, ", ");
    ContainsRight(content, lead, ApacheTitle);
  }

  /** `validateLicenseHeader`: only Apache-2.0, MIT, GPL-2.0 and GPL-3.0 can pass. */
  function ValidateLicenseHeader(content: string, lt: LicenseType): (ok: bool)
    ensures ok ==> lt == Apache2 || lt == MIT || lt == GPL2 || lt == GPL3
  {
    if lt == Apache2 then Contains(content, ApacheHeader)
    else if lt == MIT then Contains(content, MitTitle)
    else if lt == GPL2 then Contains(content, GplTitle) && Contains(content, GplVersion2)
    else if lt == GPL3 then Contains(content, GplTitle) && Contains(content, GplVersion3)
    else false
  }

  /**
   * Header validation against the detection table: a passing header holds
   * its family's leading detection phrase; for the GPL families the header
   * phrases are exactly the detection phrases; an MIT header is the first
   * MIT detection phrase, so an MIT license text passes as an MIT header;
   * an Apache header is the sentence `ApacheHeader`.
   */
  lemma HeaderAgreesWithDetection(content: string, lt: LicenseType)
    ensures ValidateLicenseHeader(content, lt) ==> lt in LicensePatterns && Contains(content, LicensePatterns[lt][0])
    ensures lt == GPL2 || lt == GPL3 ==> (ValidateLicenseHeader(content, lt) <==> Satisfies(content, lt))
    ensures lt == MIT ==> (ValidateLicenseHeader(content, lt) <==> Contains(content, LicensePatterns[MIT][0]))
    ensures lt == MIT && Satisfies(content, MIT) ==> ValidateLicenseHeader(content, lt)
    ensures lt == Apache2 ==> (ValidateLicenseHeader(content, lt) <==> Contains(content, ApacheHeader))
  {
    if lt == Apache2 && Contains(content, ApacheHeader) {
      ApacheHeaderHoldsDetectionPhrases(content);
    }
  }

  /** Detection gives `Unlicensed` exactly for an empty license text. */
  lemma UnlicensedIffEmpty(content: string, lt: LicenseType)
    requires Admissible(content, lt)
    ensures lt == Unlicensed <==> content == ""
  {
    assert Unlicensed !in LicensePatterns;
  }

  /**
   * A result other than the fallback holds every detection phrase of its
   * family; a non-empty text that holds no family's phrases gives `Apache2`
   * and nothing else.
   */
  lemma DetectedFamilyHoldsItsPhrases(content: string, lt: LicenseType)
    requires content != "" && Admissible(content, lt)
    ensures Satisfies(content, lt) || (lt == Apache2 && forall f :: !Satisfies(content, f))
    ensures (forall f :: !Satisfies(content, f)) ==> lt == Apache2
  {
  }

  /** When exactly one family's phrases all occur, detection is determined: it gives that family. */
  lemma SingleMatchDetermined(content: string, f: LicenseType, lt: LicenseType)
    requires content != "" && Satisfies(content, f)
    requires forall g :: g != f ==> !Satisfies(content, g)
    ensures Admissible(content, lt) <==> lt == f
  {
  }

  /** GPL-2.0 needs "Version 2" and GPL-3.0 needs "Version 3": a text with one version alone is never taken for the other. */
  lemma GplVersionsNotConflated(content: string)
    ensures Admissible(content, GPL2) ==> Contains(content, GplTitle) && Contains(content, GplVersion2)
    ensures Admissible(content, GPL3) ==> Contains(content, GplTitle) && Contains(content, GplVersion3)
  {
    if Admissible(content, GPL2) {
      assert Satisfies(content, GPL2);
      assert GplVersion2 == LicensePatterns[GPL2][1];
    }
    if Admissible(content, GPL3) {
      assert Satisfies(content, GPL3);
      assert GplVersion3 == LicensePatterns[GPL3][1];
    }
  }

  /**
   * A text holding the GPL title and both "Version 2" and "Version 3" may be
   * classified either way: the outcome depends on map iteration order.
   */
  lemma AmbiguousGplText()
    ensures var text := GplTitle + " " + GplVersion2 + " " + GplVersion3;
      Admissible(text, GPL2) && Admissible(text, GPL3)
  {
    var text := GplTitle + " " + GplVersion2 + " " + GplVersion3;
    assert Contains(text, text) by { assert IsPrefix(text, text); }
    ContainsRight(text, GplTitle + " " + GplVersion2 + " ", GplVersion3);
    ContainsLeft(text, GplTitle + " " + GplVersion2 + " ", GplVersion3);
    ContainsLeft(text, GplTitle + " " + GplVersion2, " ");
    ContainsRight(text, GplTitle + " ", GplVersion2);
    ContainsLeft(text, GplTitle + " ", GplVersion2);
    ContainsLeft(text, GplTitle, " ");
    SatisfiesPair(text, GPL2);
    SatisfiesPair(text, GPL3);
  }

  /** A family with two phrases is satisfied when both occur. */
  lemma SatisfiesPair(content: string, lt: LicenseType)
    requires lt in LicensePatterns && |LicensePatterns[lt]| == 2
    requires Contains(content, LicensePatterns[lt][0]) && Contains(content, LicensePatterns[lt][1])
    ensures Satisfies(content, lt)
  {
    var ps := LicensePatterns[lt];
    assert ps == [ps[0], ps[1]];
  }

  /**
   * Only the first readable candidate counts: a readable `LICENSE` decides
   * the text even when it is empty and a later `COPYING` is not.
   */
  lemma FirstCandidateDecides(dir: map<string, string>)
    requires "LICENSE" in dir
    ensures LicenseText(dir) == dir["LICENSE"]
    ensures dir["LICENSE"] == "" ==> forall lt :: Admissible(LicenseText(dir), lt) <==> lt == Unlicensed
  {
  }

  /** With no readable candidate the text is empty and detection gives `Unlicensed`. */
  lemma NoCandidateUnlicensed(dir: map<string, string>)
    requires forall name :: name in LicenseFileNames ==> name !in dir
    ensures LicenseText(dir) == ""
    ensures forall lt :: Admissible(LicenseText(dir), lt) <==> lt == Unlicensed
  {
  }

  /** LGPL, MPL, BSD, `Unlicensed` and every unknown name fail validation for every content. */
  lemma UnsupportedFamiliesNeverValidate(content: string, lt: LicenseType)
    requires lt != Apache2 && lt != MIT && lt != GPL2 && lt != GPL3
    ensures !ValidateLicenseHeader(content, lt)
  {
  }
}
