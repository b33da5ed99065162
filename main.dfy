/** The body of `main`: for each source, resolve it against the target,
    skip it unless it is a directory, discover the files and symbolic links
    below it, move every one whose destination is free, then remove the
    deletion boundary. A dry run reads as a real run does but only reports
    the calls that change the filesystem. */
module Estrange {
  import opened Io
  import opened Paths
  import opened Filesystem
  import opened Walker
  import opened Moves
  import opened Pruning

  /** How the handling of one source ends: it finished, it was skipped as
      not a directory, a `?` returned an error from `main`, or an `unwrap`
      panicked. */
  datatype Outcome = Done | Skipped | Failed(error: ErrorKind) | Aborted(error: ErrorKind)

  /** A line of the log: the warning for a skipped source, one line per
      conflicting destination, and in a dry run each call that would change
      the filesystem. */
  datatype Note = SkipWarning | Conflict(to: Path) | Would(action: Action)

  function ConflictNotes(conflicts: seq<Move>): (r: seq<Note>)
    ensures |r| == |conflicts| && forall i | 0 <= i < |r| :: r[i] == Conflict(conflicts[i].to)
  {
    seq(|conflicts|, i requires 0 <= i < |conflicts| => Conflict(conflicts[i].to))
  }

  function WouldNotes(actions: seq<Action>): (r: seq<Note>)
    ensures |r| == |actions| && forall i | 0 <= i < |r| :: r[i] == Would(actions[i])
  {
    seq(|actions|, i requires 0 <= i < |actions| => Would(actions[i]))
  }

  /** The pairs found below `child`, re-rooted to `target`. */
  function Discovered(fs: Fs, target: Path, child: Path): Result<seq<Move>> {
    match Discover(fs, child)
    case Err(e) => Err(e)
    case Ok(items) => Ok(Reroute(items, target, child))
  }

  /** What the moves leave behind: the filesystem itself in a dry run. */
  function AfterMoves(fs: Fs, movable: seq<Move>, dryRun: bool): Fs {
    if dryRun then fs else ApplyAll(fs, MovePlan(movable)).fs
  }

  /** The lines logged by the time the moves are over: one per conflict,
      then, in a dry run, one per call the moves would make. */
  function MoveNotes(fs: Fs, moves: seq<Move>, dryRun: bool): seq<Note> {
    var (movable, conflicts) := Partition(fs, moves);
    ConflictNotes(conflicts) + WouldNotes(if dryRun then MovePlan(movable) else [])
  }

  /** The handling of one source after the walk, as a value: how it ends,
      the filesystem it leaves behind and the lines it logs. A failing call
      of the move loop panics; a failing probe, a missing boundary and a
      failing `remove_dir_all` return their error from `main`. */
  function AfterWalk(fs: Fs, target: Path, child: Path, moves: seq<Move>, dryRun: bool): (Outcome, Fs, seq<Note>) {
    var (movable, conflicts) := Partition(fs, moves);
    var t := ApplyAll(fs, MovePlan(movable));
    if !dryRun && t.failed.Some? then (Aborted(t.failed.value), t.fs, ConflictNotes(conflicts))
    else
      var moved := AfterMoves(fs, movable, dryRun);
      var logged := MoveNotes(fs, moves, dryRun);
      match DeletionBoundary(moved, child, target)
      case Err(e) => (Failed(e), moved, logged)
      case Ok(b) =>
        if dryRun then (Done, moved, logged + [Would(RemoveDirAllOf(b))])
        else match RemoveDirAll(moved, b)
          case Err(e) => (Failed(e), moved, logged)
          case Ok(removed) => (Done, removed, logged)
  }

  /** The handling of one source, as a value. */
  function Handle(fs: Fs, target: Path, source: Path, dryRun: bool): (Outcome, Fs, seq<Note>) {
    var child := Join(target, source);
    match Metadata(fs, child)
    case Err(e) => (Failed(e), fs, [])
    case Ok(kind) =>
      if kind != Dir then (Skipped, fs, [SkipWarning])
      else match Discovered(fs, target, child)
        case Err(e) => (Failed(e), fs, [])
        case Ok(moves) => AfterWalk(fs, target, child, moves, dryRun)
  }

  /** The loop over the sources, as a value: the outcome that stopped it,
      if any, the filesystem it leaves behind and every line logged. A
      skipped or finished source goes on to the next one; an error or a
      panic ends the run. */
  function RunFrom(fs: Fs, target: Path, sources: seq<Path>, dryRun: bool): (Option<Outcome>, Fs, seq<Note>)
    decreases |sources|
  {
    if sources == [] then (None, fs, [])
    else
      var (outcome, next, notes) := Handle(fs, target, sources[0], dryRun);
      if outcome.Failed? || outcome.Aborted? then (Some(outcome), next, notes)
      else
        var (stopped, out, rest) := RunFrom(next, target, sources[1..], dryRun);
        (stopped, out, notes + rest)
  }

  /** The part of the handling of one source after the walk: split the
      discovered pairs, report the conflicts, move, then find and remove the
      deletion boundary. */
  method MoveAndPrune(fs: Fs, target: Path, child: Path, moves: seq<Move>, dryRun: bool)
      returns (outcome: Outcome, out: Fs, notes: seq<Note>)
    ensures (outcome, out, notes) == AfterWalk(fs, target, child, moves, dryRun)
  {
    var (movable, conflicts) := Partition(fs, moves);
    notes := ConflictNotes(conflicts);
    var moved, log, panic := MoveAll(fs, movable, dryRun);
    if panic.Some? {
      return Aborted(panic.value), moved, notes;
    }
    assert moved == AfterMoves(fs, movable, dryRun);
    notes := notes + WouldNotes(log);
    var deletable := DeletionBoundary(moved, child, target);
    if deletable.Err? {
      return Failed(deletable.error), moved, notes;
    }
    if dryRun {
      return Done, moved, notes + [Would(RemoveDirAllOf(deletable.value))];
    }
    var removed := RemoveDirAll(moved, deletable.value);
    if removed.Err? {
      return Failed(removed.error), moved, notes;
    }
    return Done, removed.value, notes;
  }

  /** The handling of one source. `target` is absolute, as canonicalising
      it or taking the current directory makes it. */
  method ProcessSource(fs: Fs, target: Path, source: Path, dryRun: bool)
      returns (outcome: Outcome, out: Fs, notes: seq<Note>)
    requires IsAbsolute(target)
    ensures (outcome, out, notes) == Handle(fs, target, source, dryRun)
  {
    var child := Join(target, source);
    var metadata := Metadata(fs, child);
    if metadata.Err? {
      return Failed(metadata.error), fs, [];
    }
    if metadata.value != Dir {
      return Skipped, fs, [SkipWarning];
    }
    var readDir := ReadDir(fs, child);
    if readDir.Err? {
      return Failed(readDir.error), fs, [];
    }
    var walker := new FilesUnfollowed.From(fs, readDir.value);
    var collected := CollectAll(walker);
    if collected.Err? {
      return Failed(collected.error), fs, [];
    }
    var moves := Reroute(collected.value, target, child);
    assert Discovered(fs, target, child) == Ok(moves);
    outcome, out, notes := MoveAndPrune(fs, target, child, moves, dryRun);
  }

  /** The loop over the sources. */
  method Run(fs: Fs, target: Path, sources: seq<Path>, dryRun: bool)
      returns (stopped: Option<Outcome>, out: Fs, notes: seq<Note>)
    requires IsAbsolute(target)
    ensures (stopped, out, notes) == RunFrom(fs, target, sources, dryRun)
  {
    stopped, out, notes := None, fs, [];
    var i := 0;
    RunFromEnds(fs, target, sources, dryRun, notes);
    while i < |sources|
      invariant 0 <= i <= |sources|
      invariant RunFrom(fs, target, sources, dryRun) == Resumed(notes, RunFrom(out, target, sources[i..], dryRun))
    {
      var outcome, next, sourceNotes := ProcessSource(out, target, sources[i], dryRun);
      RunFromNext(fs, out, target, sources, i, dryRun, notes, outcome, next, sourceNotes);
      if outcome.Failed? || outcome.Aborted? {
        return Some(outcome), next, notes + sourceNotes;
      }
      out, notes := next, notes + sourceNotes;
      i := i + 1;
    }
    RunFromEnds(out, target, sources, dryRun, notes);
  }

  /** A run's result with `notes` logged before it. */
  function Resumed(notes: seq<Note>, r: (Option<Outcome>, Fs, seq<Note>)): (Option<Outcome>, Fs, seq<Note>) {
    (r.0, r.1, notes + r.2)
  }

  /** The loop starts with the whole run ahead and nothing logged, and ends
      with nothing left to run. */
  lemma RunFromEnds(fs: Fs, target: Path, sources: seq<Path>, dryRun: bool, notes: seq<Note>)
    ensures RunFrom(fs, target, sources, dryRun) == Resumed([], RunFrom(fs, target, sources[0..], dryRun))
    ensures Resumed(notes, RunFrom(fs, target, sources[|sources|..], dryRun)) == (None, fs, notes)
  {
    assert sources[0..] == sources;
    assert [] + RunFrom(fs, target, sources, dryRun).2 == RunFrom(fs, target, sources, dryRun).2;
    assert sources[|sources|..] == [];
    assert notes + [] == notes;
  }

  /** One step of the loop: the next source is handled, and the run stops
      or goes on with the rest from where it left the filesystem. */
  lemma RunFromNext(fs: Fs, out: Fs, target: Path, sources: seq<Path>, i: nat, dryRun: bool,
                    notes: seq<Note>, outcome: Outcome, next: Fs, sourceNotes: seq<Note>)
    requires i < |sources|
    requires RunFrom(fs, target, sources, dryRun) == Resumed(notes, RunFrom(out, target, sources[i..], dryRun))
    requires (outcome, next, sourceNotes) == Handle(out, target, sources[i], dryRun)
    ensures outcome.Failed? || outcome.Aborted? ==>
      RunFrom(fs, target, sources, dryRun) == (Some(outcome), next, notes + sourceNotes)
    ensures !(outcome.Failed? || outcome.Aborted?) ==>
      RunFrom(fs, target, sources, dryRun) ==
        Resumed(notes + sourceNotes, RunFrom(next, target, sources[i + 1..], dryRun))
  {
    assert sources[i..][0] == sources[i] && sources[i..][1..] == sources[i + 1..];
    if !(outcome.Failed? || outcome.Aborted?) {
      Reassociate(notes, sourceNotes, RunFrom(next, target, sources[i + 1..], dryRun).2);
    }
  }

  // ---- How one source ends ------------------------------------------------

  /** The handling after the walk never skips; a dry run changes nothing
      and never panics. */
  lemma AfterWalkOutcomes(fs: Fs, target: Path, child: Path, moves: seq<Move>, dryRun: bool)
    ensures var r := AfterWalk(fs, target, child, moves, dryRun);
      r.0 != Skipped && (dryRun ==> r.1 == fs && !r.0.Aborted?)
  {
  }

  /** A real run logs only the conflicts, whatever happens after the walk. */
  lemma AfterWalkQuiet(fs: Fs, target: Path, child: Path, moves: seq<Move>)
    ensures AfterWalk(fs, target, child, moves, false).2 == ConflictNotes(Partition(fs, moves).1)
  {
    var conflicts := Partition(fs, moves).1;
    assert WouldNotes([]) == [];
    assert MoveNotes(fs, moves, false) == ConflictNotes(conflicts) + [] == ConflictNotes(conflicts);
  }

  /** A panic is exactly a failing `create_dir_all` or `rename` of the move
      loop of a real run: the filesystem is left as the failing call found
      it and only the conflicts were logged. */
  lemma AfterWalkAborted(fs: Fs, target: Path, child: Path, moves: seq<Move>, dryRun: bool)
    ensures var r := AfterWalk(fs, target, child, moves, dryRun);
      var (movable, conflicts) := Partition(fs, moves);
      var t := ApplyAll(fs, MovePlan(movable));
      (r.0.Aborted? <==> !dryRun && t.failed.Some?) &&
      (r.0.Aborted? ==> t.failed == Some(r.0.error) && r.1 == t.fs && r.2 == ConflictNotes(conflicts))
  {
  }

  /** Finishing means the deletion boundary was found, and it is a proper
      ancestor of the source other than the target. */
  lemma AfterWalkDone(fs: Fs, target: Path, child: Path, moves: seq<Move>, dryRun: bool)
    ensures AfterWalk(fs, target, child, moves, dryRun).0 == Done ==>
      var boundary := DeletionBoundary(AfterMoves(fs, Partition(fs, moves).0, dryRun), child, target);
      boundary.Ok? && IsProperPrefix(boundary.value, child) && boundary.value != target
  {
    var moved := AfterMoves(fs, Partition(fs, moves).0, dryRun);
    if DeletionBoundary(moved, child, target).Ok? {
      BoundaryIsCandidate(moved, child, target);
    }
  }

  /** A dry run that finishes changes nothing and logs the conflicts, then
      every call of the move loop, then the removal of the boundary. */
  lemma AfterWalkDoneDry(fs: Fs, target: Path, child: Path, moves: seq<Move>)
    ensures var r := AfterWalk(fs, target, child, moves, true);
      r.0 == Done ==>
      var (movable, conflicts) := Partition(fs, moves);
      var boundary := DeletionBoundary(fs, child, target);
      boundary.Ok? && r.1 == fs &&
      r.2 == ConflictNotes(conflicts) + WouldNotes(MovePlan(movable) + [RemoveDirAllOf(boundary.value)])
  {
    var (movable, conflicts) := Partition(fs, moves);
    var boundary := DeletionBoundary(fs, child, target);
    if boundary.Ok? {
      assert WouldNotes(MovePlan(movable)) + [Would(RemoveDirAllOf(boundary.value))] ==
        WouldNotes(MovePlan(movable) + [RemoveDirAllOf(boundary.value)]);
    }
  }

  /** A real run that finishes made every call of the move loop
      successfully, then removed the boundary from what the moves left. */
  lemma AfterWalkDoneReal(fs: Fs, target: Path, child: Path, moves: seq<Move>)
    ensures var r := AfterWalk(fs, target, child, moves, false);
      r.0 == Done ==>
      var t := ApplyAll(fs, MovePlan(Partition(fs, moves).0));
      var boundary := DeletionBoundary(t.fs, child, target);
      t.failed == None && boundary.Ok? && RemoveDirAll(t.fs, boundary.value) == Ok(r.1)
  {
  }

  /** Once the moves are over (or only reported), a failing probe or a
      missing boundary returns its error from `main`: the moved files stay
      where they are and the log holds the conflicts and the reported calls. */
  lemma AfterWalkBoundaryFails(fs: Fs, target: Path, child: Path, moves: seq<Move>, dryRun: bool)
    requires var movable := Partition(fs, moves).0;
      (dryRun || ApplyAll(fs, MovePlan(movable)).failed.None?) &&
      DeletionBoundary(AfterMoves(fs, movable, dryRun), child, target).Err?
    ensures var movable := Partition(fs, moves).0;
      var moved := AfterMoves(fs, movable, dryRun);
      AfterWalk(fs, target, child, moves, dryRun) ==
        (Failed(DeletionBoundary(moved, child, target).error), moved, MoveNotes(fs, moves, dryRun))
  {
  }

  /** A failing `remove_dir_all` of a real run returns its error from
      `main`, leaving the filesystem as the moves left it. */
  lemma AfterWalkRemoveFails(fs: Fs, target: Path, child: Path, moves: seq<Move>)
    requires var movable := Partition(fs, moves).0;
      var moved := ApplyAll(fs, MovePlan(movable));
      var boundary := DeletionBoundary(moved.fs, child, target);
      moved.failed.None? && boundary.Ok? && RemoveDirAll(moved.fs, boundary.value).Err?
    ensures var movable := Partition(fs, moves).0;
      var moved := ApplyAll(fs, MovePlan(movable)).fs;
      var boundary := DeletionBoundary(moved, child, target);
      AfterWalk(fs, target, child, moves, false) ==
        (Failed(RemoveDirAll(moved, boundary.value).error), moved, ConflictNotes(Partition(fs, moves).1))
  {
    var (movable, conflicts) := Partition(fs, moves);
    var t := ApplyAll(fs, MovePlan(movable));
    assert AfterMoves(fs, movable, false) == t.fs;
    var b := DeletionBoundary(t.fs, child, target).value;
    assert WouldNotes([]) == [];
    assert MoveNotes(fs, moves, false) == ConflictNotes(conflicts) + [] == ConflictNotes(conflicts);
    assert AfterWalk(fs, target, child, moves, false) ==
      (Failed(RemoveDirAll(t.fs, b).error), t.fs, MoveNotes(fs, moves, false));
  }

  /** Before the walk: a failing `metadata` returns its error, exactly the
      sources that exist and are not directories are skipped with a warning,
      and a failing walk returns its error; none of these changes anything. */
  lemma HandleBeforeWalk(fs: Fs, target: Path, source: Path, dryRun: bool)
    ensures var child := Join(target, source);
      var r := Handle(fs, target, source, dryRun);
      (Metadata(fs, child).Err? ==> r == (Failed(NotFound), fs, [])) &&
      (r.0 == Skipped <==> child in fs.kinds && fs.kinds[child] != Dir) &&
      (r.0 == Skipped ==> r == (Skipped, fs, [SkipWarning])) &&
      (IsDir(fs, child) && Discover(fs, child).Err? ==> r == (Failed(Discover(fs, child).error), fs, []))
  {
    var child := Join(target, source);
    if IsDir(fs, child) && Discovered(fs, target, child).Ok? {
      AfterWalkOutcomes(fs, target, child, Discovered(fs, target, child).value, dryRun);
    }
  }

  /** After a successful walk, the source is handled as `AfterWalk` says,
      on the discovered pairs re-rooted to the target. */
  lemma HandleAfterWalk(fs: Fs, target: Path, source: Path, dryRun: bool)
    requires var child := Join(target, source);
      IsDir(fs, child) && Discover(fs, child).Ok?
    ensures var child := Join(target, source);
      Handle(fs, target, source, dryRun) ==
        AfterWalk(fs, target, child, Reroute(Discover(fs, child).value, target, child), dryRun)
  {
  }

  /** A dry run changes nothing and never panics; only a dry run logs calls. */
  lemma HandleDryRun(fs: Fs, target: Path, source: Path, dryRun: bool)
    ensures var r := Handle(fs, target, source, dryRun);
      (dryRun ==> r.1 == fs && !r.0.Aborted?) &&
      (!dryRun ==> forall i | 0 <= i < |r.2| :: !r.2[i].Would?)
  {
    var child := Join(target, source);
    if IsDir(fs, child) && Discovered(fs, target, child).Ok? {
      var moves := Discovered(fs, target, child).value;
      AfterWalkOutcomes(fs, target, child, moves, dryRun);
      if !dryRun {
        AfterWalkQuiet(fs, target, child, moves);
      }
    }
  }

  // ---- The loop over the sources ------------------------------------------

  /** The run stops only on an error or a panic, and a dry run only on an
      error; a dry run changes nothing, and only a dry run logs calls. */
  lemma {:induction false} RunFromOutcomes(fs: Fs, target: Path, sources: seq<Path>, dryRun: bool)
    ensures var r := RunFrom(fs, target, sources, dryRun);
      (r.0.Some? ==> r.0.value.Failed? || r.0.value.Aborted?) &&
      (dryRun ==> r.1 == fs && (r.0.None? || r.0.value.Failed?)) &&
      (!dryRun ==> forall i | 0 <= i < |r.2| :: !r.2[i].Would?)
    decreases |sources|
  {
    if sources != [] {
      HandleDryRun(fs, target, sources[0], dryRun);
      var h := Handle(fs, target, sources[0], dryRun);
      if !(h.0.Failed? || h.0.Aborted?) {
        RunFromOutcomes(h.1, target, sources[1..], dryRun);
      }
    }
  }

  /** Running two lists of sources one after the other: the second list
      starts where the first left the filesystem, unless the first stopped. */
  lemma {:induction false} RunFromConcat(fs: Fs, target: Path, s1: seq<Path>, s2: seq<Path>, dryRun: bool)
    ensures var r1 := RunFrom(fs, target, s1, dryRun);
      var r2 := RunFrom(r1.1, target, s2, dryRun);
      RunFrom(fs, target, s1 + s2, dryRun) ==
        if r1.0.Some? then r1 else (r2.0, r2.1, r1.2 + r2.2)
    decreases |s1|
  {
    if s1 == [] {
      assert s1 + s2 == s2;
      assert [] + RunFrom(fs, target, s2, dryRun).2 == RunFrom(fs, target, s2, dryRun).2;
    } else {
      assert (s1 + s2)[0] == s1[0] && (s1 + s2)[1..] == s1[1..] + s2;
      var h := Handle(fs, target, s1[0], dryRun);
      if !(h.0.Failed? || h.0.Aborted?) {
        RunFromConcat(h.1, target, s1[1..], s2, dryRun);
        var r1 := RunFrom(h.1, target, s1[1..], dryRun);
        var r2 := RunFrom(r1.1, target, s2, dryRun);
        Reassociate(h.2, r1.2, r2.2);
      }
    }
  }

  lemma Reassociate<T>(a: seq<T>, b: seq<T>, c: seq<T>)
    ensures a + (b + c) == (a + b) + c
  {
  }

  /** Sources that all name existing files or symbolic links are each
      skipped with a warning, and the run goes through them all. */
  lemma {:induction false} RunFromSkipsFiles(fs: Fs, target: Path, sources: seq<Path>, dryRun: bool)
    requires forall i | 0 <= i < |sources| ::
      Join(target, sources[i]) in fs.kinds && fs.kinds[Join(target, sources[i])] != Dir
    ensures RunFrom(fs, target, sources, dryRun) == (None, fs, seq(|sources|, _ => SkipWarning))
    decreases |sources|
  {
    if sources != [] {
      HandleBeforeWalk(fs, target, sources[0], dryRun);
      assert Handle(fs, target, sources[0], dryRun) == (Skipped, fs, [SkipWarning]);
      RunFromSkipsFiles(fs, target, sources[1..], dryRun);
      assert RunFrom(fs, target, sources, dryRun) == Resumed([SkipWarning], RunFrom(fs, target, sources[1..], dryRun));
      assert [SkipWarning] + seq(|sources| - 1, _ => SkipWarning) == seq(|sources|, _ => SkipWarning);
    } else {
      assert seq(|sources|, _ => SkipWarning) == [];
    }
  }

  // ---- What a finished real run does to the files -------------------------

  /** When the moves of a source all succeed, every discovered file or
      symbolic link whose destination was free now lives at the same place
      below the target as it did below the source, with its kind; the
      destinations are all distinct; and everything else that existed is
      untouched. This needs no source path to lie on the way to a
      destination. */
  lemma SourceRelocated(fs: Fs, target: Path, child: Path)
    requires child != []
    requires Discovered(fs, target, child).Ok?
    requires var movable := Partition(fs, Discovered(fs, target, child).value).0;
      NoSourceAboveDestination(movable) && ApplyAll(fs, MovePlan(movable)).failed.None?
    ensures var movable := Partition(fs, Discovered(fs, target, child).value).0;
      Relocated(fs, ApplyAll(fs, MovePlan(movable)).fs, movable) &&
      forall m | m in movable ::
        IsProperPrefix(child, m.from) && IsLeafKind(fs.kinds[m.from]) &&
        m.to == target + m.from[|child|..] && !Exists(fs, m.to)
  {
    var movable := Partition(fs, Discovered(fs, target, child).value).0;
    MovesRelocate(fs, movable);
    MovableFromSource(fs, target, child);
  }

  /** Every movable pair takes a file or symbolic link below `child` to the
      same place below `target`, where nothing existed. */
  lemma MovableFromSource(fs: Fs, target: Path, child: Path)
    requires child != []
    requires Discovered(fs, target, child).Ok?
    ensures var movable := Partition(fs, Discovered(fs, target, child).value).0;
      forall m | m in movable ::
        IsProperPrefix(child, m.from) && m.from in fs.kinds && IsLeafKind(fs.kinds[m.from]) &&
        m.to == target + m.from[|child|..] && !Exists(fs, m.to)
  {
    var items := Discover(fs, child).value;
    var moves := Reroute(items, target, child);
    var movable := Partition(fs, moves).0;
    DiscoverSound(fs, child);
    RerouteRelocates(items, target, child);
    PartitionSplits(fs, moves);
    forall m | m in movable
      ensures IsProperPrefix(child, m.from) && m.from in fs.kinds && IsLeafKind(fs.kinds[m.from]) &&
        m.to == target + m.from[|child|..] && !Exists(fs, m.to)
    {
      assert m in moves;
      var i :| 0 <= i < |moves| && moves[i] == m;
      assert items[i] in items;
    }
  }

  /** A source and a target in separate trees, neither inside the other,
      always meet the condition of `SourceRelocated`. */
  lemma SeparateTreesDoNotOverlap(target: Path, child: Path, moves: seq<Move>)
    requires !IsPrefix(child, target) && !IsPrefix(target, child)
    requires forall m | m in moves :: IsProperPrefix(child, m.from) && IsPrefix(target, m.to)
    ensures NoSourceAboveDestination(moves)
  {
    forall i, j | 0 <= i < |moves| && 0 <= j < |moves| ensures !IsPrefix(moves[i].from, moves[j].to) {
      assert moves[i] in moves && moves[j] in moves;
    }
  }
}
