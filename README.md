# estrange — flatten, merge and prune, modelled in Dafny

`estrange` moves every file found below one or more source directories into a
target directory. Each file keeps its path relative to its source. Afterwards
one ancestor of the source, the deletion boundary, is deleted in one
`remove_dir_all`: the lowest proper ancestor whose parent directly holds a file
or symbolic link, or else the last candidate before the target or the root.
The boundary may
still hold files of its own, and for a source outside the target it may lie
above the target (see "Findings"). This project models that engine on a
value-level file system and proves what it does:

- `paths.dfy` (`Paths`): paths as component sequences; an absolute path starts
  with the root component `"/"`; `Parent`, `Ancestors` and `Join` follow
  `std::path`.
- `filesystem.dfy` (`Filesystem`): the file system as a value `Fs`. It maps each
  path to its kind without following symbolic links. It also holds each
  directory's listing order, and fault maps for `read_dir`, for directory
  entries and for `file_type`. `ReadDir` takes a snapshot cursor. `Metadata`,
  `CreateDirAll`, `Rename` and `RemoveDirAll` return `Result`s. `ApplyAll`
  runs a list of mutating calls and stops at the first failure.
- `splice.dfy` (`SplicePath`): the length-based re-rooting `splice`.
- `walker.dfy` (`Walker`): the `FilesUnfollowed` iterator as a class. It holds a
  stack of directory cursors. `Next` is proved equal to the specification
  function `Advance`. `CollectAll` models `.collect::<Result<Vec<_>,_>>()`.
- `probe.dfy` (`ContainsFileSymlink`): `contains_file_symlink_in_directory`
  as a loop over the directory's entries, proved equal to `Probe`.
- `pruning.dfy` (`Pruning`): the ancestor chain, the probes and
  `find_or_last` that choose the deletion boundary, and beside them the
  corrected boundary rule (see "Findings").
- `moves.dfy` (`Moves`): re-rooting the discovered files, splitting them into
  movable and conflicting, and the move loop (`create_dir_all` of the
  destination's parent, then `rename`), both for real and as a dry run.
- `main.dfy` (`Estrange`): the body of the per-source loop of `main`, and the
  loop itself. Each is a method proved equal to a specification function:
  `AfterWalk` for the part after the walk, `Handle` for one source and
  `RunFrom` for the loop, which stops at the first error or panic.
- `relative_path.dfy` (`RelativePath`): `RelativePath::relative` as a loop
  proved equal to a recursive specification, with its unit tests as lemmas.

Calls that end `main` with `?` become the outcome `Failed(kind)`. Calls that
`unwrap` become `Aborted(kind)`, a panic. Log lines become `Note` values.

## Model

| member | source | states |
|---|---|---|
| Paths.Join | src/main.rs:73-77 | an absolute source is taken as it is; a relative one is placed below the target, with the source's components after the target's |
| Paths.Parent | src/main.rs:103 | there is no parent exactly for the empty path and the root; otherwise the parent is the path without its last component, a proper prefix |
| Paths.AncestorsShape | src/main.rs:118-120 | `ancestors` lists the path itself, then one component shorter each step; it has as many entries as the absolute path has components |
| Filesystem.Metadata | src/main.rs:79 | succeeds exactly for an existing path and reports its kind; a missing path fails with `NotFound` |
| Filesystem.ReadDir | src/main.rs:87 | opens exactly an existing directory without an open fault; the cursor is positioned at that directory and its i-th entry is the directory's i-th child in listing order, with that child's entry fault or its true kind |
| Filesystem.FileTypeOf | src/main.rs:196 | a successful `file_type` reports the kind the path has, without following symbolic links |
| Filesystem.Exists | src/main.rs:92 | `try_exists` is presence of the path; `Moves.PartitionSplits` states how it splits the pairs |
| Filesystem.ApplyAll | src/main.rs:102-116 | the calls performed are a prefix of the plan, and the run failed exactly when that prefix is not the whole plan; `ApplyAllConcat`, `ApplyAllStopsAt` and `ApplyAllSnoc` state how runs compose and where they stop |
| Filesystem.CreateDirAll | src/main.rs:107 | keeps every existing object and its kind; every object it adds is a directory on the way to the requested path; that path is a directory afterwards |
| Filesystem.Rename | src/main.rs:114 | succeeds only for an existing non-directory source and an absent, different destination whose parent is an existing directory; afterwards the source is gone, the destination has the source's kind, and nothing else changes |
| Filesystem.RemoveDirAll | src/main.rs:137 | succeeds only on an existing directory or symbolic link; removes exactly that path and everything below it; every other object keeps its kind |
| SplicePath.Splice | src/main.rs:153-172 | with an empty `stop` an absolute `self` comes back unchanged, because collecting its root component into the `PathBuf` replaces `start`; otherwise the result starts with `start` and has the components of `self` beyond the length of `stop` |
| SplicePath.SpliceReroots | src/main.rs:163-168 | a path below a non-empty `stop` (or a relative path below an empty one) is moved below `start` with the same suffix |
| SplicePath.SpliceEmptyStop | src/main.rs:165-168 | with an empty `stop`, `/in/f` stays `/in/f` while `in/f` becomes `/out/in/f` |
| SplicePath.SpliceShortIsStart | src/main.rs:165-168 | a path no longer than `stop` splices to `start` itself |
| SplicePath.SpliceCountsOnly | src/main.rs:165 | only the number of components of `stop` matters, not their names |
| SplicePath.SpliceIgnoresContent | src/main.rs:165-168 | a path outside `stop` is still cut by `stop`'s length: `/in/a/b/file.txt` with stop `/elsewhere` lands at `/out/a/b/file.txt` |
| SplicePath.SpliceInjective | src/main.rs:163-168 | two different paths below `stop`, both absolute or both relative, never splice to the same destination |
| Walker.Pull | src/main.rs:191 | taking the next entry of the top cursor leaves the cursors below unchanged; it yields nothing exactly when the top cursor is exhausted |
| Walker.Resume | src/main.rs:193-217 | the walk never pops a cursor: the stack only grows, the cursors below the top stay as they were, and the measure (entries deeper than the top directory, then entries left in the top cursor) never rises |
| Walker.Advance | src/main.rs:189-218 | an empty stack yields `None`; every yielded item strictly lowers a well-founded measure, so collecting terminates |
| Walker.FilesUnfollowed.From | src/main.rs:178-184 | the walker starts with exactly the given cursor on its stack |
| Walker.FilesUnfollowed.Next | src/main.rs:189-218 | the item returned and the new stack are those of `Advance` on the old stack |
| Walker.Collected | src/main.rs:87-88 | the items of the walk from a stack of cursors up to the first error; `CollectedSound` states what they are |
| Walker.Discover | src/main.rs:87-88 | `read_dir` of the source and the collected walk from it; `DiscoverSound` states what it finds |
| Walker.CollectAll | src/main.rs:87-88 | collecting the walker gives the first error, or every item in order |
| Walker.AdvanceSound | src/main.rs:196-206 | starting from cursors on directories below the root, the walk opens only directories below the root and yields only files and symlinks strictly below it |
| Walker.CollectedSound | src/main.rs:87-88 | every collected path is a file or symlink strictly below the root |
| Walker.DiscoverSound | src/main.rs:87-88 | every path discovered from a source is a file or symlink strictly below that source |
| Walker.SkipsOther | src/main.rs:198-208 | entries that are neither file, symlink nor directory are passed over without effect |
| Walker.YieldsFirstLeaf | src/main.rs:199-200 | the first file or symlink entry is yielded as the directory's path plus its name, and the cursor moves past it |
| Walker.YieldsFirstError | src/main.rs:194-197 | a failing entry or `file_type` is yielded as that error, and the cursor moves past it |
| Walker.DescendsIntoDir | src/main.rs:201-206 | a directory entry is opened: a failing `read_dir` is yielded as its error, otherwise the walk continues in the new cursor pushed on top |
| Walker.NoneOnlyAtExhaustedTop | src/main.rs:191-217 | the walk ends only on an empty stack or when the top cursor is exhausted; an exhausted top ends it at once, with cursors below still unread |
| Walker.EmptySubdirEndsWalk | src/main.rs:206-217 | a source whose first entry is an empty directory discovers nothing, although a file follows it |
| ContainsFileSymlink.ContainsFileSymlinkInDirectory | src/contains_file_symlink_in_directory.rs:11-21 | the loop returns what `Probe` specifies for that directory |
| ContainsFileSymlink.Scan | src/contains_file_symlink_in_directory.rs:12-20 | the answer for a sequence of entries; `ScanTrueIff`, `ScanFalseIff` and `ScanErrIff` characterise it |
| ContainsFileSymlink.Probe | src/contains_file_symlink_in_directory.rs:11-21 | `read_dir` of the directory, then the scan of its entries; the `Probe*` lemmas state its answers |
| ContainsFileSymlink.ScanTrueIff | src/contains_file_symlink_in_directory.rs:12-17 | `Ok(true)` exactly when a file or symlink entry comes before any failing entry |
| ContainsFileSymlink.ScanFalseIff | src/contains_file_symlink_in_directory.rs:12-20 | `Ok(false)` exactly when every entry is read without error and is neither file nor symlink |
| ContainsFileSymlink.ScanErrIff | src/contains_file_symlink_in_directory.rs:13 | an error is returned exactly when an entry or its type fails before any file or symlink |
| ContainsFileSymlink.ProbeOpenError | src/contains_file_symlink_in_directory.rs:12 | a directory that cannot be opened gives that error |
| ContainsFileSymlink.ProbeTrueMeansLeafChild | src/contains_file_symlink_in_directory.rs:15-16 | `Ok(true)` means the directory has a child that is a file or symlink |
| ContainsFileSymlink.ProbeTrueOnLeafChild | src/contains_file_symlink_in_directory.rs:12-17 | a readable directory whose first file or symlink follows only directories answers `Ok(true)` |
| ContainsFileSymlink.ProbeFalseOnDirsOnly | src/contains_file_symlink_in_directory.rs:12-20 | a readable directory holding only directories answers `Ok(false)` |
| Pruning.TakeWhileNot | src/main.rs:121 | the result is the prefix of the chain before the first occurrence of the target |
| Pruning.FindOrLast | src/main.rs:130 | `find_or_last` finds nothing exactly on an empty chain |
| Pruning.WithParents | src/main.rs:122 | each path paired with its parent, dropping a path without one; `WithParentsAll` and `WithParentsDropsLast` state it |
| Pruning.Candidates | src/main.rs:118-122 | the candidates for deletion with their parents; `CandidatesShape` and `CandidatesUnrelated` state which they are |
| Pruning.Probes | src/main.rs:123-128 | the probes of the candidates' parents collected into one result; `ProbesOk` and `ProbesErr` state it |
| Pruning.DeletionBoundary | src/main.rs:118-132 | the boundary as the source chooses it; the `Boundary*` lemmas and `DirectChildNotFound` state which directory it is and when it fails |
| Pruning.WithParentsAll | src/main.rs:122 | each ancestor that has a parent is paired with it, in order |
| Pruning.WithParentsDropsLast | src/main.rs:122 | an ancestor without a parent is dropped |
| Pruning.AncestorParents | src/main.rs:119-122 | only the last ancestor has no parent |
| Pruning.CandidatesShape | src/main.rs:118-122 | the i-th candidate is the source cut by i+1 components, paired with its parent, never the target; below the target there are exactly as many candidates as levels between them |
| Pruning.CandidatesUnrelated | src/main.rs:118-122 | a source outside the target gets every proper ancestor except the root as a candidate |
| Pruning.TakeWhileNotFirst | src/main.rs:121 | the chain stops at the first position that equals the target |
| Pruning.ProbesOk | src/main.rs:123-128 | the probes succeed exactly when each candidate's parent can be probed, and then pair each candidate with its parent's answer |
| Pruning.ProbesErr | src/main.rs:123-128 | the first failing probe's error is the result |
| Pruning.FindsFirstKept | src/main.rs:130 | `find_or_last` picks the first entry whose parent holds a file |
| Pruning.LastWhenNoneKept | src/main.rs:130 | with no such entry it picks the last one |
| Pruning.FindOrLastIsElement | src/main.rs:130-131 | whatever it picks is one of the candidates |
| Pruning.BoundaryIsCandidate | src/main.rs:118-132 | the boundary is a proper ancestor of the source, not the target, and not the root |
| Pruning.BoundaryFirstKept | src/main.rs:118-131 | the boundary is the lowest candidate whose parent holds a file or symlink |
| Pruning.BoundaryLastWhenNoneKept | src/main.rs:118-131 | if no parent holds one, the boundary is the highest candidate |
| Pruning.BoundaryNotFound | src/main.rs:132 | no candidates gives `NotFound` |
| Pruning.DirectChildNotFound | src/main.rs:118-132 | a source directly inside the target has no boundary: `NotFound` |
| Pruning.BoundaryProbeErrorWins | src/main.rs:123-128 | a failing probe fails the boundary search with its error, whatever the later probes say |
| Pruning.BoundaryMayHoldFile | src/main.rs:118-137 | the boundary chosen for `/in/a/b` may itself still hold a file (`/in/a/keep.txt`), which `remove_dir_all` then deletes |
| Pruning.BoundaryMayContainTarget | src/main.rs:118-137 | for a source outside the target, the boundary may be an ancestor of the target |
| Pruning.Climb | src/main.rs:118-132 | the corrected climb from a directory not above the target ends at an ancestor of it that is neither the target nor above it, and every directory it climbed into lists exactly one entry, the next directory towards the start; it stops only at the root, below the target or an ancestor of it, or below a readable parent that lists more than the chain, so the result is the highest such ancestor; a failure is the open error of a parent on the way |
| Pruning.CorrectedBoundary | src/main.rs:118-132 | the corrected boundary is the source or an ancestor of it, never the target nor above it, and every directory from it down to the source's parent lists only the next directory of the chain, and the climb could not go above it (`ClimbStopsAt`); a source at or above the target has none, and any other failure is the open error of a parent on the way |
| Filesystem.ListedAncestor | src/main.rs:118-137 | on a file system where every object is listed in an existing parent, every ancestor of an object exists and lists the next component towards it (the hypothesis of `CorrectedRemovesOnlyChain`) |
| Pruning.OnlyChainBelow | src/main.rs:118-137 | below a parent that lists only the next component of `a`, every object of such a file system lies at or below `a` |
| Pruning.ClimbRemovesOnlyChain | src/main.rs:118-137 | on such a file system, everything at or below where the climb stops is an ancestor of the start or lies at or below it |
| Pruning.CorrectedRemovesOnlyChain | src/main.rs:118-137 | on such a file system, `remove_dir_all` of the corrected boundary removes only the source, what lies below it, and the chain of directories between them; no sibling and nothing else |
| Pruning.CorrectedKeepsFile | src/main.rs:118-137 | where the rule as written removes `/in/a` with `keep.txt`, the corrected rule removes only `/in/a/b` |
| Pruning.CorrectedSparesSibling | src/main.rs:118-137 | with `/in/x.txt`, `/in/a/b` the source and a sibling `/in/a/c/f.txt`, the corrected rule removes only `/in/a/b` |
| Pruning.CorrectedSparesTarget | src/main.rs:118-137 | where the rule as written removes `/a` above the target `/a/x`, the corrected rule removes only `/a/b` |
| Moves.Reroute | src/main.rs:90 | each discovered path is paired, in order, with its spliced destination; `RerouteRelocates` states where that is |
| Moves.Partition | src/main.rs:92 | the pairs split by whether the destination exists; `PartitionSplits`, `PartitionExtremes` and `PartitionConcat` state it |
| Moves.StepPlan | src/main.rs:103-115 | the calls of one pass: `create_dir_all` of the destination's parent when it has one, then `rename`; `StepEffect` states their effect |
| Moves.MovePlan | src/main.rs:102-116 | the calls of the whole loop in order; `MovePlanRenames` and `MovesRelocate` state them and their effect |
| Moves.RerouteRelocates | src/main.rs:90 | for a non-empty source, each discovered file's destination is the target followed by the file's path below the source; distinct files get distinct destinations |
| Moves.PartitionSplits | src/main.rs:92 | movable pairs are exactly those whose destination is absent, conflicts exactly those whose destination exists; together they are the input |
| Moves.PartitionExtremes | src/main.rs:92 | with no destination present everything is movable; with every destination present everything conflicts |
| Moves.PartitionConcat | src/main.rs:92 | the split keeps the discovery order |
| Moves.MovePlanRenames | src/main.rs:102-116 | the move loop renames exactly the movable pairs, in order; every other call creates a destination's parent |
| Moves.MoveOne | src/main.rs:103-115 | one pass of the loop: a dry run changes nothing and logs its calls; otherwise it makes the calls and panics on the first failure |
| Moves.MoveAll | src/main.rs:102-116 | the loop performs the plan's calls in order and panics on the first failure; a dry run changes nothing and logs the whole plan |
| Moves.ParentlessPanics | src/main.rs:103-115 | a destination without a parent (the root) creates nothing, and its `rename` fails, so the pass panics with the filesystem unchanged |
| Moves.StepEffect | src/main.rs:103-115 | a successful pass removes the source and puts its kind at the destination; other objects are unchanged; new objects lie on the way to the destination |
| Moves.MovesRelocate | src/main.rs:102-116 | when no source lies on the way to a destination, a successful loop moves every pair and keeps every other object; new objects lie on the way to a destination |
| Estrange.Discovered | src/main.rs:87-90 | the walk's pairs of discovered path and destination; `MovableFromSource` states what the movable ones are |
| Estrange.AfterMoves | src/main.rs:102-116 | what the move loop leaves: the file system itself in a dry run, else the result of running the plan |
| Estrange.MoveAndPrune | src/main.rs:92-138 | outcome, file system and log are those of `AfterWalk` for the same inputs |
| Estrange.ProcessSource | src/main.rs:71-138 | outcome, file system and log are those of `Handle` for the same inputs |
| Estrange.Run | src/main.rs:71-139 | the outcome that stopped the loop, the file system and the log are those of `RunFrom`: each source handled as `Handle` says, in order, from where the previous one left the file system, stopping at the first error or panic |
| Estrange.AfterWalkOutcomes | src/main.rs:92-138 | after the walk a source is never skipped; a dry run changes nothing and never panics |
| Estrange.AfterWalkQuiet | src/main.rs:94-138 | a real run logs only the conflicts |
| Estrange.AfterWalkAborted | src/main.rs:102-116 | a panic happens exactly when a call of the move loop of a real run fails; it leaves the file system as that call found it, with only the conflicts logged |
| Estrange.AfterWalkDone | src/main.rs:118-138 | finishing means a boundary was found, a proper ancestor of the source other than the target |
| Estrange.AfterWalkDoneDry | src/main.rs:94-138 | a finished dry run changes nothing and logs the conflicts, every call of the move loop and the removal of the boundary |
| Estrange.AfterWalkDoneReal | src/main.rs:102-138 | a finished real run made every call of the move loop, then removed the boundary from what the moves left |
| Estrange.AfterWalkBoundaryFails | src/main.rs:118-132 | after the moves (or their report), a failing probe or a missing boundary returns its error; the moved files stay and the log holds the conflicts and reported calls |
| Estrange.AfterWalkRemoveFails | src/main.rs:137 | a failing `remove_dir_all` returns its error and leaves the file system as the moves left it, with only the conflicts logged |
| Estrange.HandleBeforeWalk | src/main.rs:72-88 | a missing source fails with `NotFound`; exactly the existing non-directories are skipped with a warning; a failing walk returns its error; none of these changes anything or logs more |
| Estrange.HandleAfterWalk | src/main.rs:87-138 | after a successful walk the source is handled as `AfterWalk` says on the re-rooted pairs |
| Estrange.HandleDryRun | src/main.rs:71-138 | a dry run changes nothing and never panics; only a dry run logs calls |
| Estrange.RunFromOutcomes | src/main.rs:71-141 | the loop stops only on an error or a panic, a dry run only on an error; a dry run changes nothing; only a dry run logs calls |
| Estrange.RunFromConcat | src/main.rs:71-139 | running two lists of sources one after the other is running their concatenation, unless the first stops |
| Estrange.RunFromSkipsFiles | src/main.rs:79-85 | sources that all name existing non-directories are each skipped with a warning and change nothing |
| Estrange.SourceRelocated | src/main.rs:87-116 | for a non-empty source, when no source path of a movable pair lies on the way to any destination and the move loop succeeds, every movable file sits at the target plus its path below the source, where nothing was before, and everything else is kept |
| Estrange.SeparateTreesDoNotOverlap | src/main.rs:87-92 | when source and target are not nested, no source lies on the way to any destination |
| RelativePath.Relative | src/relative_path.rs:15-74 | a relative `self` or `to` fails with `Other`; otherwise the loop returns `Emitted(self, to)` |
| RelativePath.EmittedSkipsCommon | src/relative_path.rs:40-47 | a common prefix contributes nothing |
| RelativePath.EmittedCopies | src/relative_path.rs:56-62 | once `self` is used up, the rest of `to` is copied after a leading `.` |
| RelativePath.EmittedClimbs | src/relative_path.rs:51-55 | once `to` is used up, each remaining component of `self` becomes `..` |
| RelativePath.Emitted | src/relative_path.rs:36-71 | what the loop appends from a state of both component streams; `EmittedSame`, `EmittedCopies`, `EmittedClimbs` and `EmittedSkipsCommon` state it |
| RelativePath.RelativeSame | src/relative_path.rs:64-67 | a path relative to itself is `.` |
| RelativePath.RelativeDown | src/relative_path.rs:56-67 | a descendant is `.` followed by the extra components |
| RelativePath.RelativeUp | src/relative_path.rs:51-67 | an ancestor is one `..` per extra component |
| RelativePath.DotOnlyAtFront | src/relative_path.rs:36-71 | for a `to` without `.` or `..`, a `.` appears only first and never together with `..` |
| RelativePath.RelativeToDeeper | src/relative_path.rs:81-89 | `/hello/world/say/goodbye` to `/hello/world/tell/the/world` is `../../tell/the/world` |
| RelativePath.RelativeToShallower | src/relative_path.rs:91-99 | the same source to `/hello/world/tell` is `../../tell` |
| RelativePath.RelativeNotDeep | src/relative_path.rs:101-109 | the same source to `/hello/world` is `../..` |
| RelativePath.RelativeDownTest | src/relative_path.rs:111-119 | `/hello` to `/hello/world/bro/sup` is `./world/bro/sup` |
| RelativePath.RelativeSameTest | src/relative_path.rs:121-129 | a path to itself is `.` |
| RelativePath.RelativeResyncMisses | src/relative_path.rs:40-49 | from `/a/x/c` to `/x/c` the loop answers `..`, which leads to `/a/x`, not `/x/c` |
| RelativePath.CorrectedResolves | src/relative_path.rs:15-74 | the corrected relative path, resolved against `self`, leads to `to` for every absolute `self` and every absolute `to` without `.` or `..` components |
| RelativePath.CorrectedResync | src/relative_path.rs:40-49 | the corrected answer for `/a/x/c` to `/x/c` is `../../../x/c`, which leads to `/x/c` |

## Left out

- Argument parsing, `canonicalize` and `current_dir` (src/main.rs:1-60) are left out: the target is an absolute path given to `Run`, and a source is a component sequence.
- Logging is reduced to `Note` values: a skip warning, one conflict note per blocked destination, and the calls a dry run would make. The single "Skipping directory" header before the conflicts and the log level are not modelled.
- Paths are component sequences already normalised as `Path::components` yields them. Windows prefixes are not modelled.
- The file system is a value passed in and returned. Concurrent changes by other processes between the existence check and the rename are not modelled.
- Directory listing order is given by each directory's `listing` in `Fs`. New entries are appended at the end of their parent's listing.
- Failures are modelled for reading: `read_dir`, a directory entry, and `file_type`. Mutating calls fail only for logical reasons (a missing source, an existing destination, a file in the way). Device faults and cross-device renames are not modelled.
- Estrange.ProcessSource: `metadata` follows symbolic links, but the model reads kinds without following them. A source that is a symlink to a directory is therefore skipped here, where the program would walk the directory it points to.
- Moves.PartitionSplits: `try_exists` is modelled as presence of the path, so its `unwrap` at src/main.rs:92 never panics here. A dangling symlink at a destination counts as existing here, where `try_exists` would report `false`.
- Filesystem.Rename: POSIX `rename` replaces an existing file at the destination. The model fails with `AlreadyExists` instead. Renaming a directory is not modelled; the walker never yields one.
- Filesystem.ReadDir: `read_dir` follows symbolic links, but the model fails with `NotADirectory` on a symbolic link, even one to a directory. This matters for a probe of a parent that is such a link.
- Filesystem.CreateDirAll: a symbolic link to a directory on the way fails with `AlreadyExists` or `NotADirectory`, where `create_dir_all` accepts it.
- Filesystem.RemoveDirAll: removal is all-or-nothing. A removal that fails halfway and leaves part of the tree is not modelled.
- Moves.MovesRelocate: needs that no source lies on the way to any destination. That can fail when the source directory is inside the target; `SeparateTreesDoNotOverlap` gives the common case.
- `RelativePath::relative` is not called from `main`; it is modelled on its own.

## Findings

| source | as written | input that shows it | evidently intended | confidence | as-written member | corrected member |
|---|---|---|---|---|---|---|
| src/main.rs:118-132 | each candidate is judged only through its parent; the candidate itself is never probed, and the chain stops at the target but not at its ancestors | source `/in/a/b`, target `/out`, with `/in/x.txt` and `/in/a/keep.txt`: the boundary is `/in/a`, and `remove_dir_all` deletes `keep.txt` | climb from the source only into a parent that lists nothing but the chain and is neither the target nor above it, so that the removal takes nothing but the source and the emptied chain | not executed | Pruning.BoundaryMayHoldFile | Pruning.CorrectedBoundary |
| src/relative_path.rs:40-49 | on a mismatch the loop emits `..` but keeps the pending component of `to`, so a later equal component of `self` is treated as common | `/a/x/c` relative to `/x/c` gives `..`, which resolves to `/a/x` | climb to the common prefix, then descend: `../../../x/c` | not executed | RelativePath.RelativeResyncMisses | RelativePath.CorrectedResolves |

The per-source model in `main.dfy` keeps the boundary rule as written, so that
its outcomes are those of the program; `CorrectedBoundary` states the intended
rule beside it. The corrected rule reads only the directories
above the source: files left inside the source by a conflict are not looked
at, and a source directly inside the target is itself its boundary instead of
failing with `NotFound`. What it removes is proved under the hypothesis
`Filesystem.Listed`, that every object is listed in its existing parent, as on
a real file system. A parent that cannot be opened fails the climb with its
error; one with an entry that cannot be read stops it.
