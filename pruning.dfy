/** The deletion boundary of `main`: the one ancestor of the source directory
    that `remove_dir_all` removes after the moves. The candidates are the
    proper ancestors of the source, nearest first, up to but excluding the
    target, and only those that have a parent; each is paired with its
    parent, every parent is probed, and the first candidate whose parent
    directly holds a file or symbolic link is chosen, or else the last one. */
module Pruning {
  import opened Io
  import opened Paths
  import opened Filesystem
  import opened ContainsFileSymlink

  /** `take_while(|current| current != target)`. */
  function TakeWhileNot(xs: seq<Path>, target: Path): (r: seq<Path>)
    ensures |r| <= |xs| && r == xs[..|r|]
    ensures forall i | 0 <= i < |r| :: xs[i] != target
    ensures |r| < |xs| ==> xs[|r|] == target
  {
    if xs == [] || xs[0] == target then []
    else [xs[0]] + TakeWhileNot(xs[1..], target)
  }

  /** `filter_map(|current| Some((current, current.parent()?)))`. */
  function WithParents(xs: seq<Path>): seq<(Path, Path)> {
    if xs == [] then []
    else match Parent(xs[0])
      case None => WithParents(xs[1..])
      case Some(p) => [(xs[0], p)] + WithParents(xs[1..])
  }

  /** The candidates for deletion with their parents. */
  function Candidates(child: Path, target: Path): seq<(Path, Path)> {
    WithParents(TakeWhileNot(Ancestors(child)[1..], target))
  }

  /** Probing every candidate's parent and collecting the results: the first
      probe error wins, whatever the earlier probes found. */
  function Probes(fs: Fs, cs: seq<(Path, Path)>): Result<seq<(Path, bool)>> {
    if cs == [] then Ok([])
    else match Probe(fs, cs[0].1)
      case Err(e) => Err(e)
      case Ok(keep) =>
        match Probes(fs, cs[1..])
        case Err(e) => Err(e)
        case Ok(rest) => Ok([(cs[0].0, keep)] + rest)
  }

  /** Itertools' `find_or_last`: the first element whose flag is set, or else
      the last element, or nothing for an empty sequence. */
  function FindOrLast(xs: seq<(Path, bool)>): (r: Option<Path>)
    ensures r.None? <==> xs == []
  {
    if xs == [] then None
    else if xs[0].1 || |xs| == 1 then Some(xs[0].0)
    else FindOrLast(xs[1..])
  }

  function DeletionBoundary(fs: Fs, child: Path, target: Path): Result<Path> {
    match Probes(fs, Candidates(child, target))
    case Err(e) => Err(e)
    case Ok(ps) =>
      match FindOrLast(ps)
      case None => Err(NotFound)
      case Some(b) => Ok(b)
  }

  // ---- The candidates ----------------------------------------------------

  lemma {:induction false} WithParentsAll(xs: seq<Path>)
    requires forall i | 0 <= i < |xs| :: Parent(xs[i]).Some?
    ensures |WithParents(xs)| == |xs|
    ensures forall i | 0 <= i < |xs| :: WithParents(xs)[i] == (xs[i], Parent(xs[i]).value)
  {
    if xs != [] {
      WithParentsAll(xs[1..]);
      forall i | 0 < i < |xs| ensures WithParents(xs)[i] == (xs[i], Parent(xs[i]).value) {
        assert xs[1..][i - 1] == xs[i];
      }
    }
  }

  lemma {:induction false} WithParentsDropsLast(xs: seq<Path>, y: Path)
    requires Parent(y).None?
    ensures WithParents(xs + [y]) == WithParents(xs)
  {
    if xs == [] {
      assert WithParents([y]) == WithParents([y][1..]);
    } else {
      assert (xs + [y])[1..] == xs[1..] + [y];
      WithParentsDropsLast(xs[1..], y);
    }
  }

  /** Only the last ancestor of a path, the root or the empty path, has no
      parent. */
  lemma AncestorParents(child: Path, i: nat)
    requires i < |Ancestors(child)|
    ensures Parent(Ancestors(child)[i]).None? <==> i == |Ancestors(child)| - 1
  {
    AncestorsShape(child);
    var a := Ancestors(child)[i];
    assert a == child[..|child| - i];
    if |a| == 1 && a == [ROOT] {
      assert child[0] == a[0];
    }
  }

  /** The candidates are the proper ancestors of the source, nearest first,
      each with its parent; none is the target. When the target is an
      ancestor of the source, they are exactly the directories strictly
      between the two. */
  lemma CandidatesShape(child: Path, target: Path)
    ensures var cs := Candidates(child, target);
      forall i | 0 <= i < |cs| ::
        |child| >= i + 2 && cs[i] == (child[..|child| - 1 - i], child[..|child| - 2 - i]) &&
        cs[i].0 != target && Parent(cs[i].0) == Some(cs[i].1)
    ensures target != [] && IsProperPrefix(target, child) ==>
      |Candidates(child, target)| == |child| - |target| - 1
  {
    var cs := Candidates(child, target);
    forall i | 0 <= i < |cs|
      ensures |child| >= i + 2 && cs[i] == (child[..|child| - 1 - i], child[..|child| - 2 - i]) &&
        cs[i].0 != target && Parent(cs[i].0) == Some(cs[i].1)
    {
      CandidateAt(child, target, i);
    }
    if target != [] && IsProperPrefix(target, child) {
      CandidatesBetween(child, target);
    }
  }

  lemma CandidateAt(child: Path, target: Path, i: nat)
    requires i < |Candidates(child, target)|
    ensures var c := Candidates(child, target)[i];
      |child| >= i + 2 && c == (child[..|child| - 1 - i], child[..|child| - 2 - i]) &&
      c.0 != target && Parent(c.0) == Some(c.1)
  {
    var a := Ancestors(child)[1..];
    var t := TakeWhileNot(a, target);
    ProperAncestors(child);
    CandidatesPairs(child, target);
    assert t[i] == a[i];
    assert |a[i]| == |child| - 1 - i;
    assert Parent(a[i]).value == child[..|child| - 2 - i];
  }

  lemma CandidatesBetween(child: Path, target: Path)
    requires target != [] && IsProperPrefix(target, child)
    ensures |Candidates(child, target)| == |child| - |target| - 1
  {
    var a := Ancestors(child)[1..];
    ProperAncestors(child);
    CandidatesPairs(child, target);
    var m := |child| - 1 - |target|;
    assert m < |a| && a[m] == target;
    forall i | 0 <= i < m ensures a[i] != target { assert |a[i]| > |target|; }
    TakeWhileNotFirst(a, target, m);
  }

  /** The proper ancestors of a path, nearest first; only the last has no
      parent. */
  lemma ProperAncestors(child: Path)
    ensures var a := Ancestors(child)[1..];
      (|a| == |child| - 1 || |a| == |child|) &&
      forall i | 0 <= i < |a| :: a[i] == child[..|child| - 1 - i] && (Parent(a[i]).None? <==> i == |a| - 1)
  {
    var anc := Ancestors(child);
    AncestorsShape(child);
    var a := anc[1..];
    forall i | 0 <= i < |a| ensures a[i] == child[..|child| - 1 - i] && (Parent(a[i]).None? <==> i == |a| - 1) {
      AncestorParents(child, i + 1);
    }
  }

  /** Each candidate is a chain element paired with its parent; only a chain
      that reaches the last ancestor loses its last element. */
  lemma CandidatesPairs(child: Path, target: Path)
    ensures var a := Ancestors(child)[1..];
      var t := TakeWhileNot(a, target);
      var cs := Candidates(child, target);
      |cs| <= |t| && (|t| < |a| ==> |cs| == |t|) &&
      forall i | 0 <= i < |cs| :: Parent(t[i]).Some? && cs[i] == (t[i], Parent(t[i]).value)
  {
    var a := Ancestors(child)[1..];
    ProperAncestors(child);
    PairsOfChain(a, TakeWhileNot(a, target));
  }

  /** `WithParents` of a prefix of a chain in which only the last element
      has no parent. */
  lemma PairsOfChain(a: seq<Path>, t: seq<Path>)
    requires forall i | 0 <= i < |a| :: Parent(a[i]).None? <==> i == |a| - 1
    requires |t| <= |a| && t == a[..|t|]
    ensures var cs := WithParents(t);
      |cs| <= |t| && (|t| < |a| ==> |cs| == |t|) &&
      forall i | 0 <= i < |cs| :: Parent(t[i]).Some? && cs[i] == (t[i], Parent(t[i]).value)
  {
    if |t| == |a| && a != [] {
      WholeChain(a, t);
      var b := a[..|a| - 1];
      WithParentsDropsLast(b, a[|a| - 1]);
      assert forall i | 0 <= i < |b| :: b[i] == a[i];
      WithParentsAll(b);
    } else {
      assert forall i | 0 <= i < |t| :: t[i] == a[i];
      WithParentsAll(t);
    }
  }

  lemma WholeChain<T>(a: seq<T>, t: seq<T>)
    requires a != [] && |t| == |a| && t == a[..|t|]
    ensures t == a[..|a| - 1] + [a[|a| - 1]]
  {
  }

  /** When the target is not an ancestor of an absolute source, the
      candidates run all the way up to the directory just below the root. */
  lemma CandidatesUnrelated(child: Path, target: Path)
    requires IsAbsolute(child) && |child| >= 2 && !IsPrefix(target, child)
    ensures |Candidates(child, target)| == |child| - 2
  {
    var anc := Ancestors(child);
    AncestorsShape(child);
    var a := anc[1..];
    var t := TakeWhileNot(a, target);
    forall i | 0 <= i < |a| ensures a[i] != target {
      assert a[i] == child[..|child| - 1 - i];
    }
    assert |t| == |a|;
    assert t == a[..|a| - 1] + [a[|a| - 1]];
    AncestorParents(child, |anc| - 1);
    WithParentsDropsLast(a[..|a| - 1], a[|a| - 1]);
    var b := a[..|a| - 1];
    forall i | 0 <= i < |b| ensures Parent(b[i]).Some? {
      assert b[i] == a[i];
      AncestorParents(child, i + 1);
    }
    WithParentsAll(b);
  }

  lemma {:induction false} TakeWhileNotFirst(xs: seq<Path>, target: Path, m: nat)
    requires m < |xs| && xs[m] == target && forall i | 0 <= i < m :: xs[i] != target
    ensures |TakeWhileNot(xs, target)| == m
  {
    if m > 0 {
      TakeWhileNotFirst(xs[1..], target, m - 1);
    }
  }

  // ---- Probing and choosing ----------------------------------------------

  /** The collected probes succeed exactly when every probe succeeds, and then
      pair each candidate with its parent's probe result, in order. */
  lemma {:induction false} ProbesOk(fs: Fs, cs: seq<(Path, Path)>)
    ensures Probes(fs, cs).Ok? <==> forall i | 0 <= i < |cs| :: Probe(fs, cs[i].1).Ok?
    ensures Probes(fs, cs).Ok? ==>
      |Probes(fs, cs).value| == |cs| &&
      forall i | 0 <= i < |cs| :: Probes(fs, cs).value[i] == (cs[i].0, Probe(fs, cs[i].1).value)
  {
    if cs != [] {
      ProbesOk(fs, cs[1..]);
      if Probe(fs, cs[0].1).Ok? && Probes(fs, cs[1..]).Err? {
        var i :| 0 <= i < |cs[1..]| && !Probe(fs, cs[1..][i].1).Ok?;
        assert cs[1..][i] == cs[i + 1];
      }
      if forall i | 0 <= i < |cs| :: Probe(fs, cs[i].1).Ok? {
        assert forall i | 0 <= i < |cs[1..]| :: Probe(fs, cs[1..][i].1).Ok? by {
          forall i | 0 <= i < |cs[1..]| ensures Probe(fs, cs[1..][i].1).Ok? {
            assert cs[1..][i] == cs[i + 1];
          }
        }
        var ps := Probes(fs, cs).value;
        forall i | 0 < i < |cs| ensures ps[i] == (cs[i].0, Probe(fs, cs[i].1).value) {
          assert cs[1..][i - 1] == cs[i];
        }
      }
    }
  }

  /** A probe error fails the collection with that error once every probe
      before it succeeded, even if one of them found a file. */
  lemma {:induction false} ProbesErr(fs: Fs, cs: seq<(Path, Path)>, i: nat, k: ErrorKind)
    requires i < |cs| && Probe(fs, cs[i].1) == Err(k)
    requires forall j | 0 <= j < i :: Probe(fs, cs[j].1).Ok?
    ensures Probes(fs, cs) == Err(k)
  {
    if i > 0 {
      forall j | 0 <= j < i - 1 ensures Probe(fs, cs[1..][j].1).Ok? {
        assert cs[1..][j] == cs[j + 1];
      }
      ProbesErr(fs, cs[1..], i - 1, k);
    }
  }

  lemma {:induction false} FindsFirstKept(xs: seq<(Path, bool)>, i: nat)
    requires i < |xs| && xs[i].1 && forall j | 0 <= j < i :: !xs[j].1
    ensures FindOrLast(xs) == Some(xs[i].0)
  {
    if i > 0 {
      FindsFirstKept(xs[1..], i - 1);
    }
  }

  lemma {:induction false} LastWhenNoneKept(xs: seq<(Path, bool)>)
    requires xs != [] && forall j | 0 <= j < |xs| :: !xs[j].1
    ensures FindOrLast(xs) == Some(xs[|xs| - 1].0)
  {
    if |xs| > 1 {
      LastWhenNoneKept(xs[1..]);
    }
  }

  lemma {:induction false} FindOrLastIsElement(xs: seq<(Path, bool)>)
    ensures FindOrLast(xs).Some? ==> exists i | 0 <= i < |xs| :: xs[i].0 == FindOrLast(xs).value
  {
    if xs != [] && !(xs[0].1 || |xs| == 1) {
      FindOrLastIsElement(xs[1..]);
      var i :| 0 <= i < |xs[1..]| && xs[1..][i].0 == FindOrLast(xs).value;
      assert xs[i + 1].0 == FindOrLast(xs).value;
    }
  }

  // ---- The boundary ------------------------------------------------------

  /** The boundary is a proper ancestor of the source that has a parent; it is
      never the source itself and never the target. */
  lemma BoundaryIsCandidate(fs: Fs, child: Path, target: Path)
    requires DeletionBoundary(fs, child, target).Ok?
    ensures var b := DeletionBoundary(fs, child, target).value;
      IsProperPrefix(b, child) && b != target && b != child && Parent(b).Some?
  {
    var cs := Candidates(child, target);
    var ps := Probes(fs, cs).value;
    ProbesOk(fs, cs);
    CandidatesShape(child, target);
    FindOrLastIsElement(ps);
    var i :| 0 <= i < |ps| && ps[i].0 == DeletionBoundary(fs, child, target).value;
    assert ps[i].0 == cs[i].0;
  }

  /** With every probe succeeding, the boundary is the first candidate whose
      parent directly holds a file or symbolic link. */
  lemma BoundaryFirstKept(fs: Fs, child: Path, target: Path, i: nat)
    requires var cs := Candidates(child, target);
      i < |cs| && (forall j | 0 <= j < |cs| :: Probe(fs, cs[j].1).Ok?) &&
      Probe(fs, cs[i].1) == Ok(true) && forall j | 0 <= j < i :: Probe(fs, cs[j].1) == Ok(false)
    ensures DeletionBoundary(fs, child, target) == Ok(Candidates(child, target)[i].0)
  {
    var cs := Candidates(child, target);
    ProbesOk(fs, cs);
    FindsFirstKept(Probes(fs, cs).value, i);
  }

  /** When no parent holds a file or symbolic link, the boundary is the last
      candidate, the one farthest up. */
  lemma BoundaryLastWhenNoneKept(fs: Fs, child: Path, target: Path)
    requires var cs := Candidates(child, target);
      cs != [] && forall j | 0 <= j < |cs| :: Probe(fs, cs[j].1) == Ok(false)
    ensures var cs := Candidates(child, target);
      DeletionBoundary(fs, child, target) == Ok(cs[|cs| - 1].0)
  {
    var cs := Candidates(child, target);
    ProbesOk(fs, cs);
    LastWhenNoneKept(Probes(fs, cs).value);
  }

  /** No candidates at all is a `NotFound` error. */
  lemma BoundaryNotFound(fs: Fs, child: Path, target: Path)
    requires Candidates(child, target) == []
    ensures DeletionBoundary(fs, child, target) == Err(NotFound)
  {
  }

  /** A source directly inside the target has no candidate: `NotFound`. */
  lemma DirectChildNotFound(fs: Fs, target: Path, name: Component)
    requires IsAbsolute(target)
    ensures DeletionBoundary(fs, target + [name], target) == Err(NotFound)
  {
    var child := target + [name];
    assert Parent(child) == Some(target);
    assert Ancestors(child)[1..] == Ancestors(target);
    assert Ancestors(target)[0] == target;
    assert TakeWhileNot(Ancestors(target), target) == [];
    BoundaryNotFound(fs, child, target);
  }

  /** Every probe runs before the choice: a failing probe fails the step even
      when an earlier candidate's parent holds a file. */
  lemma BoundaryProbeErrorWins(fs: Fs, child: Path, target: Path, i: nat, k: ErrorKind)
    requires var cs := Candidates(child, target);
      i < |cs| && Probe(fs, cs[i].1) == Err(k) && forall j | 0 <= j < i :: Probe(fs, cs[j].1).Ok?
    ensures DeletionBoundary(fs, child, target) == Err(k)
  {
    ProbesErr(fs, Candidates(child, target), i, k);
  }

  // ---- Consequences of the rule as written -------------------------------

  /** `/in/a/b` is the source; its parent `/in/a` also holds `keep.txt`,
      and `/in` holds the file `x.txt`. */
  function HoldsFileFs(): Fs {
    Fs(map[["/"] := Dir, ["/", "in"] := Dir, ["/", "out"] := Dir, ["/", "in", "x.txt"] := File,
           ["/", "in", "a"] := Dir, ["/", "in", "a", "b"] := Dir, ["/", "in", "a", "keep.txt"] := File],
       map[["/"] := ["in", "out"], ["/", "in"] := ["a", "x.txt"], ["/", "in", "a"] := ["b", "keep.txt"]],
       map[], map[], map[])
  }

  /** The boundary may directly hold a file: `/in` holds a file, so `/in/a`
      is chosen, and removing it takes `keep.txt` along. */
  lemma BoundaryMayHoldFile()
    ensures Metadata(HoldsFileFs(), ["/", "in", "a", "keep.txt"]) == Ok(File)
    ensures DeletionBoundary(HoldsFileFs(), ["/", "in", "a", "b"], ["/", "out"]) == Ok(["/", "in", "a"])
  {
    HoldsFileKeep();
    HoldsFileCandidates();
    HoldsFileInner();
    HoldsFileRoot();
    FirstOfTwoKept(HoldsFileFs(), ["/", "in", "a", "b"], ["/", "out"], (["/", "in", "a"], ["/", "in"]), (["/", "in"], ["/"]));
  }

  /** Two candidates, the first of whose parents holds a file. */
  lemma FirstOfTwoKept(fs: Fs, child: Path, target: Path, c0: (Path, Path), c1: (Path, Path))
    requires Candidates(child, target) == [c0, c1]
    requires Probe(fs, c0.1) == Ok(true) && Probe(fs, c1.1).Ok?
    ensures DeletionBoundary(fs, child, target) == Ok(c0.0)
  {
    BoundaryFirstKept(fs, child, target, 0);
  }

  /** Two candidates, neither of whose parents holds a file. */
  lemma LastOfTwo(fs: Fs, child: Path, target: Path, c0: (Path, Path), c1: (Path, Path))
    requires Candidates(child, target) == [c0, c1]
    requires Probe(fs, c0.1) == Ok(false) && Probe(fs, c1.1) == Ok(false)
    ensures DeletionBoundary(fs, child, target) == Ok(c1.0)
  {
    BoundaryLastWhenNoneKept(fs, child, target);
  }

  lemma HoldsFileKeep()
    ensures Metadata(HoldsFileFs(), ["/", "in", "a", "keep.txt"]) == Ok(File)
  {
  }

  lemma HoldsFileCandidates()
    ensures Candidates(["/", "in", "a", "b"], ["/", "out"]) == [(["/", "in", "a"], ["/", "in"]), (["/", "in"], ["/"])]
  {
    var child: Path, target: Path := ["/", "in", "a", "b"], ["/", "out"];
    assert child[..2] == ["/", "in"] && "in" != "out";
    CandidatesUnrelated(child, target);
    CandidatesShape(child, target);
    var cs := Candidates(child, target);
    assert child[..3] == ["/", "in", "a"] && child[..1] == ["/"];
    assert cs[0] == (["/", "in", "a"], ["/", "in"]);
    assert cs[1] == (["/", "in"], ["/"]);
  }

  lemma HoldsFileInner()
    ensures Probe(HoldsFileFs(), ["/", "in"]) == Ok(true)
  {
    assert ["/", "in"] + ["a"] == ["/", "in", "a"] && ["/", "in"] + ["x.txt"] == ["/", "in", "x.txt"];
    ProbeTrueOnLeafChild(HoldsFileFs(), ["/", "in"], 1);
  }

  lemma HoldsFileRoot()
    ensures Probe(HoldsFileFs(), ["/"]) == Ok(false)
  {
    assert ["/"] + ["in"] == ["/", "in"] && ["/"] + ["out"] == ["/", "out"];
    ProbeFalseOnDirsOnly(HoldsFileFs(), ["/"]);
  }

  /** `/a/b/c` is the source and `/a/x` the target; there is no file. */
  function NoFileFs(): Fs {
    Fs(map[["/"] := Dir, ["/", "a"] := Dir, ["/", "a", "b"] := Dir, ["/", "a", "x"] := Dir,
           ["/", "a", "b", "c"] := Dir],
       map[["/"] := ["a"], ["/", "a"] := ["b", "x"], ["/", "a", "b"] := ["c"]],
       map[], map[], map[])
  }

  /** The boundary may be an ancestor of the target: the last candidate `/a`
      is chosen, and removing it removes the target too. */
  lemma BoundaryMayContainTarget()
    ensures DeletionBoundary(NoFileFs(), ["/", "a", "b", "c"], ["/", "a", "x"]) == Ok(["/", "a"])
    ensures IsProperPrefix(["/", "a"], ["/", "a", "x"])
  {
    NoFileCandidates();
    NoFileProbes();
    LastOfTwo(NoFileFs(), ["/", "a", "b", "c"], ["/", "a", "x"], (["/", "a", "b"], ["/", "a"]), (["/", "a"], ["/"]));
  }

  lemma NoFileCandidates()
    ensures Candidates(["/", "a", "b", "c"], ["/", "a", "x"]) == [(["/", "a", "b"], ["/", "a"]), (["/", "a"], ["/"])]
  {
    var child: Path, target: Path := ["/", "a", "b", "c"], ["/", "a", "x"];
    assert child[..3] == ["/", "a", "b"] && "b"[0] != "x"[0];
    CandidatesUnrelated(child, target);
    CandidatesShape(child, target);
    var cs := Candidates(child, target);
    assert child[..2] == ["/", "a"] && child[..1] == ["/"];
    assert cs[0] == (["/", "a", "b"], ["/", "a"]);
    assert cs[1] == (["/", "a"], ["/"]);
  }

  lemma NoFileProbes()
    ensures Probe(NoFileFs(), ["/", "a"]) == Ok(false) && Probe(NoFileFs(), ["/"]) == Ok(false)
  {
    assert ["/", "a"] + ["b"] == ["/", "a", "b"] && ["/", "a"] + ["x"] == ["/", "a", "x"];
    ProbeFalseOnDirsOnly(NoFileFs(), ["/", "a"]);
    assert ["/"] + ["a"] == ["/", "a"];
    ProbeFalseOnDirsOnly(NoFileFs(), ["/"]);
  }

  // ---- The intended rule ---------------------------------------------------

  /** A directory's listing, read without error, is exactly the one entry
      `name`: the next directory of the chain. */
  predicate OnlyChain(c: Cursor, name: Component) {
    |c.rest| == 1 && c.rest[0].Ok? && c.rest[0].value.name == name
  }

  /** The climb cannot go above `b`: `b` is the root, its parent is the
      target or above it, or its parent's listing is read and holds more
      than `b` alone. */
  predicate ClimbStopsAt(fs: Fs, b: Path, target: Path)
    requires b != []
  {
    match Parent(b)
    case None => true
    case Some(p) =>
      IsPrefix(p, target) || (ReadDir(fs, p).Ok? && !OnlyChain(ReadDir(fs, p).value, b[|b| - 1]))
  }

  /** Climbing from `a` towards the root: go up to the parent while the
      parent is neither the target nor above it and lists nothing but `a`;
      stop where the climb cannot go on. A parent that cannot be read fails
      the climb with its error. The result is therefore the highest
      ancestor that can be removed without touching anything but the
      chain. */
  function Climb(fs: Fs, a: Path, target: Path): (r: Result<Path>)
    requires !IsPrefix(a, target)
    ensures r.Ok? ==> IsPrefix(r.value, a) && !IsPrefix(r.value, target)
    ensures r.Ok? ==> forall k | |r.value| <= k < |a| :: Names(fs, a[..k]) == [a[k]]
    ensures r.Ok? ==> r.value != [] && ClimbStopsAt(fs, r.value, target)
    ensures r.Err? ==> exists k | 1 <= k < |a| ::
      !IsPrefix(a[..k], target) && ReadDir(fs, a[..k]) == Err(r.error)
    decreases |a|
  {
    match Parent(a)
    case None => Ok(a)
    case Some(p) =>
      if IsPrefix(p, target) then Ok(a)
      else match ReadDir(fs, p)
        case Err(e) =>
          assert a[..|p|] == p;
          Err(e)
        case Ok(c) =>
          if !OnlyChain(c, a[|a| - 1]) then Ok(a)
          else
            assert Names(fs, p) == [a[|p|]];
            var r := Climb(fs, p, target);
            assert r.Ok? ==> forall k | |r.value| <= k < |a| :: a[..k] == p[..k] || k == |p|;
            assert forall k | 1 <= k < |p| :: a[..k] == p[..k];
            r
  }

  /** The corrected deletion boundary: the source itself, or the highest
      ancestor the climb from it reaches. It is never the target nor above
      it, every directory between it and the source, itself included,
      lists only the next directory of the chain, and the climb could not
      go above it. A source that is the target or lies above it has no
      boundary; otherwise a failure is the error of a parent on the way
      that could not be opened. */
  function CorrectedBoundary(fs: Fs, child: Path, target: Path): (r: Result<Path>)
    ensures IsPrefix(child, target) ==> r == Err(NotFound)
    ensures r.Ok? ==> IsPrefix(r.value, child) && !IsPrefix(r.value, target)
    ensures r.Ok? ==> forall k | |r.value| <= k < |child| :: Names(fs, child[..k]) == [child[k]]
    ensures r.Ok? ==> r.value != [] && ClimbStopsAt(fs, r.value, target)
    ensures r.Err? && !IsPrefix(child, target) ==> exists k | 1 <= k < |child| ::
      !IsPrefix(child[..k], target) && ReadDir(fs, child[..k]) == Err(r.error)
  {
    if IsPrefix(child, target) then Err(NotFound) else Climb(fs, child, target)
  }

  /** One step of the chain: below a directory `p` that lists only the
      next component of `a`, every object lies at or below `a`. */
  lemma OnlyChainBelow(fs: Fs, a: Path, q: Path)
    requires Listed(fs) && q in fs.kinds && 2 <= |a|
    requires Names(fs, a[..|a| - 1]) == [a[|a| - 1]]
    requires IsPrefix(a[..|a| - 1], q) && |q| >= |a|
    ensures IsPrefix(a, q)
  {
    var n := |a| - 1;
    ListedAncestor(fs, q, n);
    assert q[..n] == a[..n];
    assert q[..|a|] == q[..n] + [q[n]];
    assert a == a[..n] + [a[n]];
  }

  /** Below where the climb stops there is nothing but the chain and what
      lies below `a`: every object below the result is `a`'s ancestor or
      lies at or below `a`. */
  lemma {:induction false} ClimbRemovesOnlyChain(fs: Fs, a: Path, target: Path)
    requires Listed(fs) && !IsPrefix(a, target)
    ensures var r := Climb(fs, a, target);
      r.Ok? ==> forall q | q in fs.kinds && IsPrefix(r.value, q) :: IsPrefix(a, q) || IsProperPrefix(q, a)
    decreases |a|
  {
    var r := Climb(fs, a, target);
    if r.Ok? && r.value != a {
      var p := a[..|a| - 1];
      assert Parent(a) == Some(p);
      assert !IsPrefix(p, target);
      assert r == Climb(fs, p, target);
      ClimbRemovesOnlyChain(fs, p, target);
      assert Names(fs, p) == [a[|a| - 1]] by {
        assert |r.value| <= |p| && a[..|p|] == p;
      }
      forall q | q in fs.kinds && IsPrefix(r.value, q)
        ensures IsPrefix(a, q) || IsProperPrefix(q, a)
      {
        if IsPrefix(p, q) && q != p {
          OnlyChainBelow(fs, a, q);
        }
      }
    }
  }

  /** On a file system where every object is listed in its directory,
      removing the corrected boundary removes only the source, what lies
      below it, and the chain of otherwise empty directories above it. */
  lemma CorrectedRemovesOnlyChain(fs: Fs, child: Path, target: Path)
    requires Listed(fs)
    ensures var r := CorrectedBoundary(fs, child, target);
      r.Ok? ==> forall q | q in fs.kinds && IsPrefix(r.value, q) :: IsPrefix(child, q) || IsProperPrefix(q, child)
  {
    if !IsPrefix(child, target) {
      ClimbRemovesOnlyChain(fs, child, target);
    }
  }

  /** On the filesystem where the rule as written removes `/in/a` with its
      `keep.txt`, the corrected rule removes only the emptied `/in/a/b`. */
  lemma CorrectedKeepsFile()
    ensures CorrectedBoundary(HoldsFileFs(), ["/", "in", "a", "b"], ["/", "out"]) == Ok(["/", "in", "a", "b"])
  {
    var fs := HoldsFileFs();
    var child := ["/", "in", "a", "b"];
    assert child[..3] == ["/", "in", "a"] && Parent(child) == Some(["/", "in", "a"]);
    assert |ReadDir(fs, ["/", "in", "a"]).value.rest| == 2;
  }

  /** `/in/a/b` is the source; its parent `/in/a` also holds the directory
      `c` with the file `f.txt`. */
  function SiblingFs(): Fs {
    Fs(map[["/"] := Dir, ["/", "in"] := Dir, ["/", "out"] := Dir, ["/", "in", "x.txt"] := File,
           ["/", "in", "a"] := Dir, ["/", "in", "a", "b"] := Dir, ["/", "in", "a", "c"] := Dir,
           ["/", "in", "a", "c", "f.txt"] := File],
       map[["/"] := ["in", "out"], ["/", "in"] := ["a", "x.txt"], ["/", "in", "a"] := ["b", "c"],
           ["/", "in", "a", "c"] := ["f.txt"]],
       map[], map[], map[])
  }

  /** A sibling directory holding files stops the climb: only `/in/a/b` is
      removed, and `/in/a/c/f.txt` stays. */
  lemma CorrectedSparesSibling()
    ensures CorrectedBoundary(SiblingFs(), ["/", "in", "a", "b"], ["/", "out"]) == Ok(["/", "in", "a", "b"])
  {
    var fs := SiblingFs();
    var child := ["/", "in", "a", "b"];
    assert child[..3] == ["/", "in", "a"] && Parent(child) == Some(["/", "in", "a"]);
    assert |ReadDir(fs, ["/", "in", "a"]).value.rest| == 2;
  }

  /** Where the rule as written removes `/a`, above the target `/a/x`, the
      corrected rule stops below it at `/a/b`. */
  lemma CorrectedSparesTarget()
    ensures CorrectedBoundary(NoFileFs(), ["/", "a", "b", "c"], ["/", "a", "x"]) == Ok(["/", "a", "b"])
  {
    var fs := NoFileFs();
    var child, target := ["/", "a", "b", "c"], ["/", "a", "x"];
    assert child[..3] == ["/", "a", "b"] && Parent(child) == Some(["/", "a", "b"]);
    assert "b"[0] != "x"[0] && target[..3] == target && target[2] != ["/", "a", "b"][2];
    assert !IsPrefix(["/", "a", "b"], target);
    assert ["/", "a", "b"] + ["c"] == ["/", "a", "b", "c"];
    assert ReadDir(fs, ["/", "a", "b"]).value.rest == [Ok(DirEntry("c", FileTypeOf(fs, ["/", "a", "b", "c"])))];
    assert ["/", "a", "b"][..2] == ["/", "a"] && Parent(["/", "a", "b"]) == Some(["/", "a"]);
    assert target[..2] == ["/", "a"] && IsPrefix(["/", "a"], target);
    assert Climb(fs, ["/", "a", "b"], target) == Ok(["/", "a", "b"]);
  }
}
