/** The move step of `main`: every discovered path is paired with its
    re-rooted destination, the pairs are split by whether the destination
    already exists, and each movable pair gets its destination's parent
    created and is renamed into place. */
module Moves {
  import opened Io
  import opened Paths
  import opened Filesystem
  import opened SplicePath

  /** A discovered path and the destination it is re-rooted to. */
  datatype Move = Move(from: Path, to: Path)

  /** `.map(|filepath| (filepath.clone(), filepath.splice(&target, &child)))`. */
  function Reroute(items: seq<Path>, target: Path, child: Path): (r: seq<Move>)
    ensures |r| == |items| && forall i | 0 <= i < |r| :: r[i].from == items[i]
  {
    seq(|items|, i requires 0 <= i < |items| => Move(items[i], Splice(items[i], target, child)))
  }

  /** `.partition(|(_, to)| !to.try_exists().unwrap())`: the movable pairs,
      then the conflicting ones, each in discovery order. */
  function Partition(fs: Fs, moves: seq<Move>): (seq<Move>, seq<Move>) {
    if moves == [] then ([], [])
    else
      var (movable, conflicts) := Partition(fs, moves[1..]);
      if !Exists(fs, moves[0].to) then ([moves[0]] + movable, conflicts)
      else (movable, [moves[0]] + conflicts)
  }

  /** The calls one move makes: `create_dir_all` of the destination's parent,
      when it has one, then `rename`. */
  function StepPlan(m: Move): seq<Action> {
    (match Parent(m.to)
     case None => []
     case Some(d) => [CreateDirAllOf(d)]) + [RenameOf(m.from, m.to)]
  }

  /** The calls of the whole move loop, in order. */
  function MovePlan(moves: seq<Move>): seq<Action> {
    if moves == [] then [] else StepPlan(moves[0]) + MovePlan(moves[1..])
  }

  /** The moves a sequence of calls performs, in order. */
  function Renames(actions: seq<Action>): seq<Move> {
    if actions == [] then []
    else match actions[0]
      case RenameOf(from, to) => [Move(from, to)] + Renames(actions[1..])
      case _ => Renames(actions[1..])
  }

  // ---- Re-rooting --------------------------------------------------------

  /** Every discovered path below the source keeps its place below the
      target, and different paths get different destinations. */
  lemma RerouteRelocates(items: seq<Path>, target: Path, child: Path)
    requires child != []
    requires forall i | 0 <= i < |items| :: IsProperPrefix(child, items[i])
    ensures forall i | 0 <= i < |items| ::
      |child| < |items[i]| && Reroute(items, target, child)[i].to == target + items[i][|child|..]
    ensures forall i, j | 0 <= i < |items| && 0 <= j < |items| && items[i] != items[j] ::
      Reroute(items, target, child)[i].to != Reroute(items, target, child)[j].to
  {
    var ms := Reroute(items, target, child);
    forall i | 0 <= i < |ms| ensures |child| < |items[i]| && ms[i].to == target + items[i][|child|..] {
      assert items[i] == child + items[i][|child|..];
      SpliceReroots(items[i], target, child, items[i][|child|..]);
    }
    forall i, j | 0 <= i < |ms| && 0 <= j < |ms| && items[i] != items[j] ensures ms[i].to != ms[j].to {
      assert items[i][0] == child[0] == items[j][0];
      SpliceInjective(items[i], items[j], target, child);
    }
  }

  // ---- Partition ---------------------------------------------------------

  /** A pair is movable exactly when its destination does not exist and
      conflicting exactly when it does; no pair is lost or duplicated. */
  lemma {:induction false} PartitionSplits(fs: Fs, moves: seq<Move>)
    ensures var (movable, conflicts) := Partition(fs, moves);
      (forall m :: m in movable <==> m in moves && !Exists(fs, m.to)) &&
      (forall m :: m in conflicts <==> m in moves && Exists(fs, m.to)) &&
      multiset(movable) + multiset(conflicts) == multiset(moves)
  {
    if moves != [] {
      PartitionSplits(fs, moves[1..]);
      assert moves == [moves[0]] + moves[1..];
      assert multiset(moves) == multiset([moves[0]]) + multiset(moves[1..]);
    }
  }

  /** With no destination taken every pair is movable, in order; with every
      destination taken nothing is. */
  lemma {:induction false} PartitionExtremes(fs: Fs, moves: seq<Move>)
    ensures (forall i | 0 <= i < |moves| :: !Exists(fs, moves[i].to)) ==> Partition(fs, moves) == (moves, [])
    ensures (forall i | 0 <= i < |moves| :: Exists(fs, moves[i].to)) ==> Partition(fs, moves) == ([], moves)
  {
    if moves != [] {
      PartitionExtremes(fs, moves[1..]);
      assert forall i | 0 <= i < |moves[1..]| :: moves[1..][i] == moves[i + 1];
      assert moves == [moves[0]] + moves[1..];
    }
  }

  /** The split keeps discovery order: splitting a concatenation is
      concatenating the splits, so of two pairs on the same side the earlier
      one comes first. */
  lemma {:induction false} PartitionConcat(fs: Fs, a: seq<Move>, b: seq<Move>)
    ensures Partition(fs, a + b).0 == Partition(fs, a).0 + Partition(fs, b).0
    ensures Partition(fs, a + b).1 == Partition(fs, a).1 + Partition(fs, b).1
  {
    if a == [] {
      assert a + b == b;
    } else {
      assert (a + b)[0] == a[0] && (a + b)[1..] == a[1..] + b;
      PartitionConcat(fs, a[1..], b);
    }
  }

  // ---- The plan ----------------------------------------------------------

  lemma {:induction false} MovePlanConcat(a: seq<Move>, b: seq<Move>)
    ensures MovePlan(a + b) == MovePlan(a) + MovePlan(b)
  {
    if a == [] {
      assert a + b == b;
    } else {
      assert (a + b)[0] == a[0] && (a + b)[1..] == a[1..] + b;
      MovePlanConcat(a[1..], b);
    }
  }

  lemma {:induction false} RenamesConcat(a: seq<Action>, b: seq<Action>)
    ensures Renames(a + b) == Renames(a) + Renames(b)
  {
    if a == [] {
      assert a + b == b;
    } else {
      assert (a + b)[0] == a[0] && (a + b)[1..] == a[1..] + b;
      RenamesConcat(a[1..], b);
    }
  }

  /** The plan renames exactly the given pairs, in order, and its other
      calls each create the parent of one of their destinations. */
  lemma {:induction false} MovePlanRenames(moves: seq<Move>)
    ensures Renames(MovePlan(moves)) == moves
    ensures forall a | a in MovePlan(moves) && !a.RenameOf? ::
      a.CreateDirAllOf? && exists m | m in moves :: Parent(m.to) == Some(a.dir)
  {
    PlanRenamesAll(moves);
    PlanCreatesParents(moves);
  }

  lemma {:induction false} PlanRenamesAll(moves: seq<Move>)
    ensures Renames(MovePlan(moves)) == moves
  {
    if moves != [] {
      var m := moves[0];
      PlanRenamesAll(moves[1..]);
      RenamesConcat(StepPlan(m), MovePlan(moves[1..]));
      StepRenames(m);
      assert [m] + moves[1..] == moves;
    }
  }

  lemma StepRenames(m: Move)
    ensures Renames(StepPlan(m)) == [m]
  {
    var rename := [RenameOf(m.from, m.to)];
    assert rename[1..] == [];
    assert Renames(rename) == [m];
    match Parent(m.to) {
      case None =>
        assert StepPlan(m) == rename;
      case Some(d) =>
        assert StepPlan(m) == [CreateDirAllOf(d)] + rename;
        assert StepPlan(m)[1..] == rename;
    }
  }

  lemma {:induction false} PlanCreatesParents(moves: seq<Move>)
    ensures forall a | a in MovePlan(moves) && !a.RenameOf? ::
      a.CreateDirAllOf? && exists m | m in moves :: Parent(m.to) == Some(a.dir)
  {
    if moves != [] {
      var m := moves[0];
      PlanCreatesParents(moves[1..]);
      forall a | a in MovePlan(moves) && !a.RenameOf?
        ensures a.CreateDirAllOf? && exists m' | m' in moves :: Parent(m'.to) == Some(a.dir)
      {
        if a in StepPlan(m) {
          assert Parent(m.to) == Some(a.dir);
        } else {
          assert a in MovePlan(moves[1..]);
          var m' :| m' in moves[1..] && Parent(m'.to) == Some(a.dir);
          assert m' in moves;
        }
      }
    }
  }

  // ---- Running the plan --------------------------------------------------

  lemma PlanSplit(moves: seq<Move>, i: nat)
    requires i < |moves|
    ensures MovePlan(moves[..i + 1]) == MovePlan(moves[..i]) + StepPlan(moves[i])
    ensures MovePlan(moves) == MovePlan(moves[..i]) + StepPlan(moves[i]) + MovePlan(moves[i + 1..])
  {
    var m, pre, post := moves[i], moves[..i], moves[i + 1..];
    MovePlanSingle(m);
    SplitAt(moves, i);
    MovePlanConcat(pre, [m]);
    MovePlanConcat(pre + [m], post);
  }

  lemma SplitAt<T>(s: seq<T>, i: nat)
    requires i < |s|
    ensures s[..i + 1] == s[..i] + [s[i]]
    ensures s == s[..i] + [s[i]] + s[i + 1..]
  {
  }

  lemma MovePlanSingle(m: Move)
    ensures MovePlan([m]) == StepPlan(m)
  {
    assert [m][1..] == [];
  }

  /** One pass of the move loop. A dry run only reports the calls it would
      make; a real run makes them, and a failing `create_dir_all` or `rename`
      panics (`unwrap`), leaving the filesystem as the calls before it left
      it. */
  method MoveOne(fs: Fs, m: Move, dryRun: bool) returns (out: Fs, log: seq<Action>, panic: Option<ErrorKind>)
    ensures dryRun ==> out == fs && log == StepPlan(m) && panic == None
    ensures !dryRun ==> log == [] && out == ApplyAll(fs, StepPlan(m)).fs
    ensures !dryRun ==> panic == ApplyAll(fs, StepPlan(m)).failed
  {
    out, log, panic := fs, [], None;
    ghost var done: seq<Action> := [];
    assert ApplyAll(fs, done) == Trace(out, done, None);
    var rename := RenameOf(m.from, m.to);
    var parent := Parent(m.to);
    if parent.Some? {
      var create := CreateDirAllOf(parent.value);
      assert StepPlan(m) == [create] + [rename];
      if dryRun {
        log := log + [create];
      } else {
        var created := CreateDirAll(out, parent.value);
        if created.Err? {
          ApplyAllStopsAt(fs, [], create, [rename]);
          assert [] + [create] + [rename] == StepPlan(m);
          panic := Some(created.error);
          return;
        }
        ApplyAllSnoc(fs, [], create);
        out := created.value;
      }
      done := [create];
    }
    assert done + [rename] == StepPlan(m) && done + [rename] + [] == StepPlan(m);
    if dryRun {
      log := log + [rename];
    } else {
      var renamed := Rename(out, m.from, m.to);
      if renamed.Err? {
        ApplyAllStopsAt(fs, done, rename, []);
        panic := Some(renamed.error);
        return;
      }
      ApplyAllSnoc(fs, done, rename);
      out := renamed.value;
    }
  }

  /** Extending a successful run of the first `i` moves by the next one. */
  lemma PlanStep(fs: Fs, moves: seq<Move>, i: nat, mid: Fs)
    requires i < |moves|
    requires ApplyAll(fs, MovePlan(moves[..i])) == Trace(mid, MovePlan(moves[..i]), None)
    ensures var tb := ApplyAll(mid, StepPlan(moves[i]));
      (tb.failed.None? ==> ApplyAll(fs, MovePlan(moves[..i + 1])) == Trace(tb.fs, MovePlan(moves[..i + 1]), None)) &&
      (tb.failed.Some? ==> ApplyAll(fs, MovePlan(moves)).fs == tb.fs && ApplyAll(fs, MovePlan(moves)).failed == tb.failed)
  {
    var pre, step, rest := MovePlan(moves[..i]), StepPlan(moves[i]), MovePlan(moves[i + 1..]);
    PlanSplit(moves, i);
    ApplyAllConcat(fs, pre, step);
    ApplyAllConcat(fs, pre + step, rest);
  }

  /** The move loop over the movable pairs, in order. */
  method MoveAll(fs: Fs, moves: seq<Move>, dryRun: bool) returns (out: Fs, log: seq<Action>, panic: Option<ErrorKind>)
    ensures dryRun ==> out == fs && log == MovePlan(moves) && panic == None
    ensures !dryRun ==> log == [] && out == ApplyAll(fs, MovePlan(moves)).fs
    ensures !dryRun ==> panic == ApplyAll(fs, MovePlan(moves)).failed
  {
    out, log, panic := fs, [], None;
    var i := 0;
    while i < |moves|
      invariant 0 <= i <= |moves| && panic == None
      invariant dryRun ==> out == fs && log == MovePlan(moves[..i])
      invariant !dryRun ==> log == [] && ApplyAll(fs, MovePlan(moves[..i])) == Trace(out, MovePlan(moves[..i]), None)
    {
      PlanSplit(moves, i);
      if !dryRun {
        PlanStep(fs, moves, i, out);
      }
      var stepLog;
      out, stepLog, panic := MoveOne(out, moves[i], dryRun);
      if panic.Some? {
        return;
      }
      log := log + stepLog;
      i := i + 1;
    }
    assert moves[..i] == moves;
  }

  // ---- What a successful run does ----------------------------------------

  /** One move that succeeded: the file left its place and appeared at the
      destination with its kind, everything else that existed stayed as it
      was, and anything new lies on the way to the destination. */
  lemma StepEffect(fs: Fs, m: Move)
    requires ApplyAll(fs, StepPlan(m)).failed.None?
    ensures var out := ApplyAll(fs, StepPlan(m)).fs;
      m.from in fs.kinds && m.from !in out.kinds &&
      m.to in out.kinds && out.kinds[m.to] == fs.kinds[m.from] &&
      (forall p | p in fs.kinds && p != m.from :: p in out.kinds && out.kinds[p] == fs.kinds[p]) &&
      (forall p | p in out.kinds && p !in fs.kinds :: IsPrefix(p, m.to))
  {
    var out := ApplyAll(fs, StepPlan(m)).fs;
    var fs1 := StepPrepared(fs, m);
    assert Rename(fs1, m.from, m.to) == Ok(out);
    if Parent(m.to).Some? {
      var d := Parent(m.to).value;
      forall p | p in fs1.kinds && p !in fs.kinds ensures IsPrefix(p, m.to) {
        assert IsPrefix(p, d) && IsPrefix(d, m.to);
        assert m.to[..|p|] == d[..|p|];
      }
    }
  }

  /** The filesystem a successful pass renames in: the one `create_dir_all`
      of the destination's parent left. A successful pass always has that
      parent, since `rename` needs the directory it puts the file in. */
  function StepPrepared(fs: Fs, m: Move): (fs1: Fs)
    requires ApplyAll(fs, StepPlan(m)).failed.None?
    ensures Parent(m.to).Some? && CreateDirAll(fs, Parent(m.to).value) == Ok(fs1)
    ensures Rename(fs1, m.from, m.to) == Ok(ApplyAll(fs, StepPlan(m)).fs)
  {
    match Parent(m.to)
    case None =>
      ParentlessPanics(fs, m);
      assert false;
      fs
    case Some(d) =>
      PreparedCreate(fs, m, d);
      CreateDirAll(fs, d).value
  }

  /** A destination without a parent, the root or the empty path, makes the
      pass panic: there is nothing to create and `rename` fails. */
  lemma ParentlessPanics(fs: Fs, m: Move)
    requires Parent(m.to).None?
    ensures ApplyAll(fs, StepPlan(m)) == Trace(fs, [], Some(Rename(fs, m.from, m.to).error))
  {
    var rename := RenameOf(m.from, m.to);
    assert StepPlan(m) == [] + [rename] + [];
    assert ApplyAll(fs, []) == Trace(fs, [], None);
    ApplyAllStopsAt(fs, [], rename, []);
  }

  lemma PreparedCreate(fs: Fs, m: Move, d: Path)
    requires Parent(m.to) == Some(d) && ApplyAll(fs, StepPlan(m)).failed.None?
    ensures CreateDirAll(fs, d).Ok?
    ensures Rename(CreateDirAll(fs, d).value, m.from, m.to) == Ok(ApplyAll(fs, StepPlan(m)).fs)
  {
    var rename := RenameOf(m.from, m.to);
    var create := CreateDirAllOf(d);
    assert StepPlan(m) == [] + [create] + [rename];
    assert ApplyAll(fs, []) == Trace(fs, [], None);
    if CreateDirAll(fs, d).Err? {
      ApplyAllStopsAt(fs, [], create, [rename]);
      assert false;
    }
    ApplyAllSnoc(fs, [], create);
    var fs1 := CreateDirAll(fs, d).value;
    assert [create] + [rename] + [] == StepPlan(m);
    if Rename(fs1, m.from, m.to).Err? {
      ApplyAllStopsAt(fs, [create], rename, []);
      assert false;
    }
    ApplyAllSnoc(fs, [create], rename);
  }

  predicate NoSourceAboveDestination(moves: seq<Move>) {
    forall i, j | 0 <= i < |moves| && 0 <= j < |moves| :: !IsPrefix(moves[i].from, moves[j].to)
  }

  /** The source path of `m` is gone and its destination holds an object of
      the source's kind. */
  predicate Moved(fs: Fs, out: Fs, m: Move) {
    m.from in fs.kinds && m.from !in out.kinds && m.to in out.kinds && out.kinds[m.to] == fs.kinds[m.from]
  }

  predicate IsSourceOf(p: Path, moves: seq<Move>) {
    exists i | 0 <= i < |moves| :: p == moves[i].from
  }

  predicate OnTheWay(p: Path, moves: seq<Move>) {
    exists i | 0 <= i < |moves| :: IsPrefix(p, moves[i].to)
  }

  /** `out` is `fs` with every pair of `moves` relocated: each source gone
      and its destination holding the source's kind, every other object
      untouched, and every new object on the way to some destination. */
  predicate Relocated(fs: Fs, out: Fs, moves: seq<Move>) {
    (forall i | 0 <= i < |moves| :: Moved(fs, out, moves[i])) &&
    (forall p | p in fs.kinds && !IsSourceOf(p, moves) :: p in out.kinds && out.kinds[p] == fs.kinds[p]) &&
    (forall p | p in out.kinds && p !in fs.kinds :: OnTheWay(p, moves))
  }

  /** Relocating the first pair and then the rest relocates them all. */
  lemma RelocatedCons(fs: Fs, fs1: Fs, out: Fs, moves: seq<Move>)
    requires moves != [] && NoSourceAboveDestination(moves)
    requires Relocated(fs, fs1, [moves[0]])
    requires Relocated(fs1, out, moves[1..])
    ensures Relocated(fs, out, moves)
  {
    ConsMoved(fs, fs1, out, moves);
    ConsKeeps(fs, fs1, out, moves);
    ConsNew(fs, fs1, out, moves);
  }

  lemma ConsMoved(fs: Fs, fs1: Fs, out: Fs, moves: seq<Move>)
    requires moves != [] && NoSourceAboveDestination(moves)
    requires Relocated(fs, fs1, [moves[0]])
    requires Relocated(fs1, out, moves[1..])
    ensures forall i | 0 <= i < |moves| :: Moved(fs, out, moves[i])
  {
    forall i | 0 <= i < |moves| ensures Moved(fs, out, moves[i]) {
      if i == 0 {
        ConsMovedFirst(fs, fs1, out, moves);
      } else {
        ConsMovedLater(fs, fs1, out, moves, i);
      }
    }
  }

  lemma ConsMovedFirst(fs: Fs, fs1: Fs, out: Fs, moves: seq<Move>)
    requires moves != [] && NoSourceAboveDestination(moves)
    requires Relocated(fs, fs1, [moves[0]])
    requires Relocated(fs1, out, moves[1..])
    ensures Moved(fs, out, moves[0])
  {
    var m, tail := moves[0], moves[1..];
    assert Moved(fs, fs1, [m][0]);
    assert !IsSourceOf(m.to, tail) by {
      forall i | 0 <= i < |tail| ensures m.to != tail[i].from {
        assert !IsPrefix(moves[i + 1].from, moves[0].to);
      }
    }
  }

  lemma ConsMovedLater(fs: Fs, fs1: Fs, out: Fs, moves: seq<Move>, i: nat)
    requires 0 < i < |moves| && NoSourceAboveDestination(moves)
    requires Relocated(fs, fs1, [moves[0]])
    requires Relocated(fs1, out, moves[1..])
    ensures Moved(fs, out, moves[i])
  {
    var m, tail := moves[0], moves[1..];
    var f := moves[i].from;
    assert Moved(fs1, out, tail[i - 1]);
    assert Moved(fs, fs1, [m][0]);
    assert !IsPrefix(f, m.to);
    assert !OnTheWay(f, [m]);
    assert f in fs.kinds;
  }

  lemma ConsKeeps(fs: Fs, fs1: Fs, out: Fs, moves: seq<Move>)
    requires moves != []
    requires Relocated(fs, fs1, [moves[0]])
    requires Relocated(fs1, out, moves[1..])
    ensures forall p | p in fs.kinds && !IsSourceOf(p, moves) :: p in out.kinds && out.kinds[p] == fs.kinds[p]
  {
    var m, tail := moves[0], moves[1..];
    forall p | p in fs.kinds && !IsSourceOf(p, moves) ensures p in out.kinds && out.kinds[p] == fs.kinds[p] {
      assert p != moves[0].from;
      assert forall i | 0 <= i < |tail| :: p != tail[i].from;
    }
  }

  lemma ConsNew(fs: Fs, fs1: Fs, out: Fs, moves: seq<Move>)
    requires moves != []
    requires Relocated(fs, fs1, [moves[0]])
    requires Relocated(fs1, out, moves[1..])
    ensures forall p | p in out.kinds && p !in fs.kinds :: OnTheWay(p, moves)
  {
    var m, tail := moves[0], moves[1..];
    forall p | p in out.kinds && p !in fs.kinds ensures OnTheWay(p, moves) {
      if p in fs1.kinds {
        assert OnTheWay(p, [m]);
        assert IsPrefix(p, moves[0].to);
      } else {
        assert OnTheWay(p, tail);
        var i :| 0 <= i < |tail| && IsPrefix(p, tail[i].to);
        assert tail[i] == moves[i + 1];
      }
    }
  }

  /** A move loop that ran to the end relocated every pair. This needs no
      source path to lie on the way to any destination, which a later move
      would otherwise recreate or overwrite. */
  lemma {:induction false} MovesRelocate(fs: Fs, moves: seq<Move>)
    requires NoSourceAboveDestination(moves)
    requires ApplyAll(fs, MovePlan(moves)).failed.None?
    ensures Relocated(fs, ApplyAll(fs, MovePlan(moves)).fs, moves)
    decreases |moves|
  {
    if moves != [] {
      var m := moves[0];
      var tail := moves[1..];
      ApplyAllConcat(fs, StepPlan(m), MovePlan(tail));
      var fs1 := ApplyAll(fs, StepPlan(m)).fs;
      StepRelocates(fs, m);
      TailNoSourceAbove(moves);
      MovesRelocate(fs1, tail);
      RelocatedCons(fs, fs1, ApplyAll(fs1, MovePlan(tail)).fs, moves);
    }
  }

  lemma StepRelocates(fs: Fs, m: Move)
    requires ApplyAll(fs, StepPlan(m)).failed.None?
    ensures Relocated(fs, ApplyAll(fs, StepPlan(m)).fs, [m])
  {
    var fs1 := ApplyAll(fs, StepPlan(m)).fs;
    StepEffect(fs, m);
    forall p | p in fs1.kinds && p !in fs.kinds ensures OnTheWay(p, [m]) {
      assert IsPrefix(p, [m][0].to);
    }
  }

  lemma TailNoSourceAbove(moves: seq<Move>)
    requires moves != [] && NoSourceAboveDestination(moves)
    ensures NoSourceAboveDestination(moves[1..])
  {
    var tail := moves[1..];
    forall i, j | 0 <= i < |tail| && 0 <= j < |tail| ensures !IsPrefix(tail[i].from, tail[j].to) {
      assert tail[i] == moves[i + 1] && tail[j] == moves[j + 1];
    }
  }
}
