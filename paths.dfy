/** Paths as the sequence of components `Path::components` produces. An
    absolute path starts with the root component "/"; a relative one does not.
    Component sequences are taken as already normalised. */
module Paths {
  import opened Io

  type Component = string
  type Path = seq<Component>

  const ROOT: Component := "/"
  const CUR_DIR: Component := "."
  const PARENT_DIR: Component := ".."

  predicate IsAbsolute(p: Path) {
    |p| > 0 && p[0] == ROOT
  }

  /** `a` is `b` or one of its ancestors, by components. */
  predicate IsPrefix(a: Path, b: Path) {
    |a| <= |b| && b[..|a|] == a
  }

  /** `a` is a proper ancestor of `b`: `b` lies strictly below `a`. */
  predicate IsProperPrefix(a: Path, b: Path) {
    |a| < |b| && b[..|a|] == a
  }

  /** `Path::parent`: nothing above the root or the empty path, otherwise
      the path without its last component. */
  function Parent(p: Path): (r: Option<Path>)
    ensures r.None? <==> p == [] || p == [ROOT]
    ensures r.Some? ==> IsProperPrefix(r.value, p) && |r.value| + 1 == |p|
  {
    if p == [] || p == [ROOT] then None else Some(p[..|p| - 1])
  }

  /** `Path::ancestors`: the path itself, then its parent, and so on while
      there is one. */
  function Ancestors(p: Path): seq<Path>
    decreases |p|
  {
    match Parent(p)
    case None => [p]
    case Some(q) => [p] + Ancestors(q)
  }

  /** `Ancestors(p)` lists `p` with one component fewer at each step, down to
      the root for an absolute path and to the empty path for a relative one. */
  lemma {:induction false} AncestorsShape(p: Path)
    ensures |Ancestors(p)| == if |p| > 0 && p[0] == ROOT then |p| else |p| + 1
    ensures forall i | 0 <= i < |Ancestors(p)| :: Ancestors(p)[i] == p[..|p| - i]
    decreases |p|
  {
    match Parent(p)
    case None =>
    case Some(q) =>
      AncestorsShape(q);
      assert q == p[..|p| - 1];
      assert |q| > 0 && q[0] == ROOT <==> |p| > 0 && p[0] == ROOT;
      forall i | 0 < i < |Ancestors(p)|
        ensures Ancestors(p)[i] == p[..|p| - i]
      {
        assert Ancestors(p)[i] == Ancestors(q)[i - 1];
      }
  }

  /** `PathBuf::join`: an absolute argument replaces the base, a relative one
      is appended to it. */
  function Join(base: Path, p: Path): (r: Path)
    ensures IsAbsolute(p) ==> r == p
    ensures !IsAbsolute(p) ==> IsPrefix(base, r) && r[|base|..] == p
  {
    if IsAbsolute(p) then p else base + p
  }
}
