/**
 * The hierarchical exclusion matcher shared by the license check and the
 * blank-line check (the same code sits in license_lint.go and blankline.go).
 *
 * A rule is read two ways at once: as a literal key of the exclude map and
 * as a regular expression. An entry is excluded when some element of its
 * ancestor chain -- its own relative path, then each parent, stopping before
 * the root "." -- hits some rule either way.
 */
module Exclusion {
  import opened Paths

  /**
   * `regexp.MustCompile(rule).MatchString(candidate)`, left uninterpreted:
   * the rule comes first, the candidate string second.
   */
  type Matcher = (string, string) -> bool

  /** The strings the ancestor walk tests, most specific first; the root is never among them. */
  function Ancestors(p: Path): (chain: seq<string>)
    ensures |chain| == |p|
    ensures forall i :: 0 <= i < |p| ==> chain[i] == Join(p[..|p| - i])
    decreases |p|
  {
    if p == [] then []
    else
      var chain := [Join(p)] + Ancestors(Dir(p));
      assert forall i :: 0 <= i < |p| ==> chain[i] == Join(p[..|p| - i]) by {
        assert p[..|p|] == p;
        forall i | 0 < i < |p|
          ensures chain[i] == Join(p[..|p| - i])
        {
          assert Dir(p)[..|Dir(p)| - (i - 1)] == p[..|p| - i];
        }
      }
      chain
  }

  /** One ancestor string hits the rules: literally, or as a match of some rule. */
  predicate Hit(exclude: seq<string>, m: Matcher, s: string) {
    s in exclude || exists rule :: rule in exclude && m(rule, s)
  }

  /**
   * `p` is excluded: it hits the rules itself, or its parent is excluded.
   * The root is not. `ExcludedIffAncestorHits` reads this as a property of
   * the whole ancestor chain.
   */
  predicate Excluded(exclude: seq<string>, m: Matcher, p: Path)
    decreases |p|
  {
    p != [] && (Hit(exclude, m, Join(p)) || Excluded(exclude, m, Dir(p)))
  }

  /** What the walk callback decides for one entry before looking at its content. */
  datatype Verdict =
    | Continue  // not excluded: go on with the entry
    | Skip      // an excluded file: return nil without reading it
    | Prune     // an excluded directory: return filepath.SkipDir

  /** The loop that fills `excludeMap` (or `excludeExtensionMap`) from a flag list. */
  method ToSet(xs: seq<string>) returns (s: set<string>)
    ensures s == set x | x in xs
  {
    s := {};
    var i := 0;
    while i < |xs|
      invariant 0 <= i <= |xs|
      invariant s == set x | x in xs[..i]
    {
      assert xs[..i + 1] == xs[..i] + [xs[i]];
      s := s + {xs[i]};
      i := i + 1;
    }
    assert xs[..i] == xs;
  }

  /**
   * The ancestor walk of the callback: step `current` from the relative path
   * up to the root; on each string test the exclude map first, then every
   * rule as a pattern in list order; the first hit decides.
   */
  method ExcludeVerdict(excludeMap: set<string>, exclude: seq<string>, m: Matcher, relPath: Path, isDir: bool)
    returns (v: Verdict)
    requires excludeMap == set x | x in exclude
    ensures v == Prune <==> isDir && Excluded(exclude, m, relPath)
    ensures v == Skip <==> !isDir && Excluded(exclude, m, relPath)
    ensures v == Continue <==> !Excluded(exclude, m, relPath)
  {
    var current := relPath;
    while current != []
      invariant Excluded(exclude, m, relPath) <==> Excluded(exclude, m, current)
      decreases |current|
    {
      var s := Join(current);
      if s in excludeMap {
        return if isDir then Prune else Skip;
      }
      var k := 0;
      while k < |exclude|
        invariant 0 <= k <= |exclude|
        invariant forall j :: 0 <= j < k ==> !m(exclude[j], s)
      {
        if m(exclude[k], s) {
          return if isDir then Prune else Skip;
        }
        k := k + 1;
      }
      current := Dir(current);
    }
    v := Continue;
  }

  /** The root "." is never tested, so it is never excluded. */
  lemma RootNeverExcluded(exclude: seq<string>, m: Matcher)
    ensures !Excluded(exclude, m, [])
  {
  }

  /**
   * An entry is excluded exactly when some string of its ancestor chain,
   * from its own path up to but not including the root, hits the rules.
   */
  lemma {:induction false} ExcludedIffAncestorHits(exclude: seq<string>, m: Matcher, p: Path)
    ensures Excluded(exclude, m, p) <==> exists a :: a in Ancestors(p) && Hit(exclude, m, a)
    decreases |p|
  {
    if p != [] {
      ExcludedIffAncestorHits(exclude, m, Dir(p));
      assert Ancestors(p) == [Join(p)] + Ancestors(Dir(p));
    }
  }

  /**
   * The ancestor chain read as prefixes: `p` is excluded exactly when one of
   * its non-empty prefixes, joined with '/', hits the rules.
   */
  lemma ExcludedIffPrefixHits(exclude: seq<string>, m: Matcher, p: Path)
    ensures Excluded(exclude, m, p) <==> exists k :: 1 <= k <= |p| && Hit(exclude, m, Join(p[..k]))
  {
    ExcludedIffAncestorHits(exclude, m, p);
    var chain := Ancestors(p);
    if Excluded(exclude, m, p) {
      var a :| a in chain && Hit(exclude, m, a);
      var i :| 0 <= i < |chain| && chain[i] == a;
      assert Hit(exclude, m, Join(p[..|p| - i]));
    }
    if exists k :: 1 <= k <= |p| && Hit(exclude, m, Join(p[..k])) {
      var k :| 1 <= k <= |p| && Hit(exclude, m, Join(p[..k]));
      assert chain[|p| - k] == Join(p[..k]);
    }
  }

  /**
   * Everything beneath an excluded path is excluded too: its chain passes
   * through the excluded one. This is why pruning at an excluded directory
   * loses nothing.
   */
  lemma {:induction false} ExcludedBeneath(exclude: seq<string>, m: Matcher, d: Path, p: Path)
    requires |d| <= |p| && p[..|d|] == d
    requires Excluded(exclude, m, d)
    ensures Excluded(exclude, m, p)
    decreases |p|
  {
    if |d| < |p| {
      assert Dir(p)[..|d|] == d;
      ExcludedBeneath(exclude, m, d, Dir(p));
    } else {
      assert p == d;
    }
  }

  /** Adding rules can only exclude more. */
  lemma {:induction false} ExcludedMonotone(exclude: seq<string>, more: seq<string>, m: Matcher, p: Path)
    requires forall r :: r in exclude ==> r in more
    requires Excluded(exclude, m, p)
    ensures Excluded(more, m, p)
    decreases |p|
  {
    if !Hit(exclude, m, Join(p)) {
      ExcludedMonotone(exclude, more, m, Dir(p));
    }
  }
}
