/**
 * Relative paths as the tree-walking checks see them, and the few
 * `path/filepath` and `strings` helpers they use.
 *
 * A path relative to the scan root is a sequence of elements; the root
 * itself (the "." that `filepath.Rel` returns for the root) is the empty
 * sequence.
 */
module Paths {

  type Path = seq<string>

  /** The shape `filepath.Rel` produces: no empty element, no separator inside one. */
  predicate IsClean(p: Path) {
    forall i :: 0 <= i < |p| ==> p[i] != "" && '/' !in p[i]
  }

  /** The path as a '/'-separated string: the value held in `current` and tested against the rules. */
  function Join(p: Path): string
    decreases |p|
  {
    if |p| == 0 then ""
    else if |p| == 1 then p[0]
    else Join(p[..|p| - 1]) + "/" + p[|p| - 1]
  }

  /** `filepath.Dir` on a clean relative path: drop the last element ("a" goes to "."). */
  function Dir(p: Path): Path
    requires p != []
  {
    p[..|p| - 1]
  }

  /** `filepath.Base`: the last element; the root is named ".". */
  function Base(p: Path): string {
    if p == [] then "." else p[|p| - 1]
  }

  /** `d` names a directory strictly above `p`. */
  predicate IsAncestorOf(d: Path, p: Path) {
    |d| < |p| && p[..|d|] == d
  }

  /**
   * One step of the ancestor walk strictly shortens the string, and what
   * remains is a prefix of it: the loop over `current` terminates.
   */
  lemma {:induction false} DirShortens(p: Path)
    requires p != [] && IsClean(p)
    ensures |Join(Dir(p))| < |Join(p)|
    ensures Join(p)[..|Join(Dir(p))|] == Join(Dir(p))
  {
    if |p| > 1 {
      assert Join(p) == Join(Dir(p)) + "/" + p[|p| - 1];
    } else {
      assert Join(p) == p[0] && p[0] != "";
    }
  }

  /**
   * `filepath.Ext` of one path element: the suffix starting at the final
   * '.', or "" when the element has no '.'.
   */
  function Ext(name: string): (e: string)
    ensures |e| <= |name| && e == name[|name| - |e|..]
    ensures e != "" ==> e[0] == '.' && '.' !in e[1..]
    ensures e == "" ==> '.' !in name
    decreases |name|
  {
    if name == "" then ""
    else if name[|name| - 1] == '.' then "."
    else
      var e := Ext(name[..|name| - 1]);
      assert name == name[..|name| - 1] + [name[|name| - 1]];
      if e == "" then "" else e + [name[|name| - 1]]
  }

  /** ASCII lower-casing, standing for `strings.ToLower`. */
  function LowerChar(c: char): char {
    if 'A' <= c <= 'Z' then (c as int + 32) as char else c
  }

  function ToLower(s: string): string {
    seq(|s|, i requires 0 <= i < |s| => LowerChar(s[i]))
  }
}
