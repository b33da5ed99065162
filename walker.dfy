/** `FilesUnfollowed`: the iterator that yields the files and symbolic links
    below a directory without opening symbolic links. It keeps a stack of open
    `ReadDir` cursors and only ever reads from the top one; nothing is ever
    popped, so iteration stops as soon as the most recently opened directory
    is exhausted. */
module Walker {
  import opened Io
  import opened Paths
  import opened Filesystem

  function Last<T>(s: seq<T>): T
    requires s != []
  {
    s[|s| - 1]
  }

  /** Everything below the top of the stack. */
  function Below<T>(s: seq<T>): seq<T>
    requires s != []
  {
    s[..|s| - 1]
  }

  /** `read_dirs.last_mut()?.next()` on a non-empty stack: the next entry of
      the top cursor, which is advanced past it; `None` once it is exhausted. */
  function Pull(stack: seq<Cursor>): (r: (seq<Cursor>, Option<EntryResult>))
    requires stack != []
    ensures |r.0| == |stack| && Below(r.0) == Below(stack) && Last(r.0).dir == Last(stack).dir
    ensures r.1.None? <==> Last(stack).rest == []
    ensures r.1.None? ==> r.0 == stack
    ensures r.1.Some? ==> r.1.value == Last(stack).rest[0] && Last(r.0).rest == Last(stack).rest[1..]
  {
    var top := Last(stack);
    if top.rest == [] then (stack, None)
    else (Below(stack) + [Cursor(top.dir, top.rest[1..])], Some(top.rest[0]))
  }

  /** The number of existing paths deeper than the top directory: it shrinks
      whenever a subdirectory is pushed. */
  function Depth(fs: Fs, stack: seq<Cursor>): nat {
    if stack == [] then 0
    else
      var deeper := set q | q in fs.kinds && |q| > |Last(stack).dir|;
      |deeper|
  }

  function Remaining(stack: seq<Cursor>): nat {
    if stack == [] then 0 else |Last(stack).rest|
  }

  /** `(Depth, Remaining)` of `s1` is lexicographically at most / below that
      of `s0`. */
  predicate NoHigher(fs: Fs, s1: seq<Cursor>, s0: seq<Cursor>) {
    Depth(fs, s1) < Depth(fs, s0) || (Depth(fs, s1) == Depth(fs, s0) && Remaining(s1) <= Remaining(s0))
  }

  predicate Lower(fs: Fs, s1: seq<Cursor>, s0: seq<Cursor>) {
    Depth(fs, s1) < Depth(fs, s0) || (Depth(fs, s1) == Depth(fs, s0) && Remaining(s1) < Remaining(s0))
  }

  lemma CardStrict<T>(a: set<T>, b: set<T>, x: T)
    requires a <= b && x in b && x !in a
    ensures |a| < |b|
  {
    assert b == a + (b - a);
    assert x in b - a;
  }

  /** Pushing the cursor of an existing subdirectory of the top lowers the depth. */
  lemma PushLowersDepth(fs: Fs, stack: seq<Cursor>, c: Cursor)
    requires stack != [] && c.dir in fs.kinds && |c.dir| > |Last(stack).dir|
    ensures Depth(fs, stack + [c]) < Depth(fs, stack)
  {
    var a := set q | q in fs.kinds && |q| > |c.dir|;
    var b := set q | q in fs.kinds && |q| > |Last(stack).dir|;
    assert Last(stack + [c]) == c;
    CardStrict(a, b, c.dir);
  }

  /** The `while let Some(result) = item_option` loop of `next`, entered with
      the entry `pending` just taken from the top cursor. */
  function Resume(fs: Fs, stack: seq<Cursor>, pending: Option<EntryResult>): (r: (Option<Result<Path>>, seq<Cursor>))
    requires stack != []
    ensures |r.1| >= |stack| && r.1[..|stack| - 1] == Below(stack)
    ensures NoHigher(fs, r.1, stack)
    decreases Depth(fs, stack), Remaining(stack), if pending.Some? then 1 else 0
  {
    match pending
    case None => (None, stack)
    case Some(Err(e)) => (Some(Err(e)), stack)
    case Some(Ok(entry)) =>
      match entry.fileType
      case Err(e) => (Some(Err(e)), stack)
      case Ok(kind) =>
        var path := Last(stack).dir + [entry.name];
        if kind == File || kind == Symlink then (Some(Ok(path)), stack)
        else if kind == Dir then
          match ReadDir(fs, path)
          case Err(e) => (Some(Err(e)), stack)
          case Ok(c) =>
            PushLowersDepth(fs, stack, c);
            var pulled := Pull(stack + [c]);
            var r := Resume(fs, pulled.0, pulled.1);
            assert Below(stack + [c]) == stack;
            assert r.1[..|stack| - 1] == (r.1[..|stack|])[..|stack| - 1];
            r
        else
          var pulled := Pull(stack);
          Resume(fs, pulled.0, pulled.1)
  }

  /** `FilesUnfollowed::next` as a function of the stack: the item it
      returns and the stack it leaves. A returned item always means progress. */
  function Advance(fs: Fs, stack: seq<Cursor>): (r: (Option<Result<Path>>, seq<Cursor>))
    ensures stack == [] ==> r == (None, stack)
    ensures stack != [] ==> |r.1| >= |stack| && r.1[..|stack| - 1] == Below(stack)
    ensures r.0.Some? ==> Lower(fs, r.1, stack)
  {
    if stack == [] then (None, stack)
    else
      var pulled := Pull(stack);
      Resume(fs, pulled.0, pulled.1)
  }

  /** `collect::<Result<Vec<_>, _>>()` over the walker: every item up to the
      end of iteration, or the first error. */
  function Collected(fs: Fs, stack: seq<Cursor>): Result<seq<Path>>
    decreases Depth(fs, stack), Remaining(stack)
  {
    var r := Advance(fs, stack);
    match r.0
    case None => Ok([])
    case Some(Err(e)) => Err(e)
    case Some(Ok(p)) =>
      match Collected(fs, r.1)
      case Err(e) => Err(e)
      case Ok(ps) => Ok([p] + ps)
  }

  /** The walk below `dir` as `main` starts it: `read_dir`, then collect. */
  function Discover(fs: Fs, dir: Path): Result<seq<Path>> {
    match ReadDir(fs, dir)
    case Err(e) => Err(e)
    case Ok(c) => Collected(fs, [c])
  }

  // ---- What the walker reads and yields -------------------------------

  /** A cursor that lists a real directory at or below `root` and whose
      entries report the types the filesystem has. */
  predicate CursorSound(fs: Fs, root: Path, c: Cursor) {
    Faithful(fs, c) && IsPrefix(root, c.dir) && IsDir(fs, c.dir)
  }

  predicate Sound(fs: Fs, root: Path, stack: seq<Cursor>) {
    forall i | 0 <= i < |stack| :: CursorSound(fs, root, stack[i])
  }

  /** A yielded `Ok` path is a file or a symbolic link strictly below `root`. */
  predicate LeafBelow(fs: Fs, root: Path, item: Option<Result<Path>>) {
    item.Some? && item.value.Ok? ==>
      var p := item.value.value;
      IsProperPrefix(root, p) && p in fs.kinds && IsLeafKind(fs.kinds[p])
  }

  lemma PullSound(fs: Fs, root: Path, stack: seq<Cursor>)
    requires stack != [] && Sound(fs, root, stack)
    ensures Sound(fs, root, Pull(stack).0)
    ensures Pull(stack).1.Some? ==> EntryAgrees(fs, Last(stack).dir, Pull(stack).1.value)
  {
    var s := Pull(stack).0;
    assert CursorSound(fs, root, Last(stack));
    forall i | 0 <= i < |s| ensures CursorSound(fs, root, s[i]) {
      if i < |s| - 1 {
        assert s[i] == Below(s)[i] == Below(stack)[i] == stack[i];
      } else {
        assert s[i] == Last(s);
      }
    }
  }

  /** The loop of `next` only opens real directories below `root`, and only
      yields files and symbolic links below `root`. */
  lemma {:induction false} ResumeSound(fs: Fs, root: Path, stack: seq<Cursor>, pending: Option<EntryResult>)
    requires stack != [] && Sound(fs, root, stack)
    requires pending.Some? ==> EntryAgrees(fs, Last(stack).dir, pending.value)
    ensures Sound(fs, root, Resume(fs, stack, pending).1)
    ensures LeafBelow(fs, root, Resume(fs, stack, pending).0)
    decreases Depth(fs, stack), Remaining(stack), if pending.Some? then 1 else 0
  {
    assert CursorSound(fs, root, Last(stack));
    match pending
    case None =>
    case Some(Err(e)) =>
    case Some(Ok(entry)) =>
      match entry.fileType
      case Err(e) =>
      case Ok(kind) =>
        var path := Last(stack).dir + [entry.name];
        assert FileTypeOf(fs, path) == Ok(kind);
        assert IsProperPrefix(root, path) by {
          assert path[..|root|] == Last(stack).dir[..|root|];
        }
        if kind == File || kind == Symlink {
        } else if kind == Dir {
          match ReadDir(fs, path)
          case Err(e) =>
          case Ok(c) =>
            PushLowersDepth(fs, stack, c);
            var pushed := stack + [c];
            assert CursorSound(fs, root, c);
            assert Sound(fs, root, pushed) by {
              forall i | 0 <= i < |pushed| ensures CursorSound(fs, root, pushed[i]) {
                if i < |stack| { assert pushed[i] == stack[i]; }
              }
            }
            PullSound(fs, root, pushed);
            var pulled := Pull(pushed);
            ResumeSound(fs, root, pulled.0, pulled.1);
        } else {
          PullSound(fs, root, stack);
          var pulled := Pull(stack);
          ResumeSound(fs, root, pulled.0, pulled.1);
        }
  }

  lemma AdvanceSound(fs: Fs, root: Path, stack: seq<Cursor>)
    requires Sound(fs, root, stack)
    ensures Sound(fs, root, Advance(fs, stack).1)
    ensures LeafBelow(fs, root, Advance(fs, stack).0)
  {
    if stack != [] {
      PullSound(fs, root, stack);
      ResumeSound(fs, root, Pull(stack).0, Pull(stack).1);
    }
  }

  /** Every path a completed walk collects is a file or a symbolic link
      strictly below `root`: directories are never yielded. */
  lemma {:induction false} CollectedSound(fs: Fs, root: Path, stack: seq<Cursor>)
    requires Sound(fs, root, stack)
    ensures Collected(fs, stack).Ok? ==>
      forall p | p in Collected(fs, stack).value :: IsProperPrefix(root, p) && p in fs.kinds && IsLeafKind(fs.kinds[p])
    decreases Depth(fs, stack), Remaining(stack)
  {
    var r := Advance(fs, stack);
    AdvanceSound(fs, root, stack);
    if r.0.Some? && r.0.value.Ok? {
      CollectedSound(fs, root, r.1);
    }
  }

  /** What `main` collects below `dir` are files and symbolic links strictly
      below `dir`, each one a path that exists. */
  lemma DiscoverSound(fs: Fs, dir: Path)
    ensures Discover(fs, dir).Ok? ==>
      forall p | p in Discover(fs, dir).value :: IsProperPrefix(dir, p) && p in fs.kinds && IsLeafKind(fs.kinds[p])
  {
    match ReadDir(fs, dir)
    case Err(e) =>
    case Ok(c) =>
      assert CursorSound(fs, dir, c);
      assert Sound(fs, dir, [c]);
      CollectedSound(fs, dir, [c]);
  }

  // ---- How `next` moves through the top cursor ----------------------------

  /** The stack with the first `j` entries of its top cursor consumed. */
  function DropTop(stack: seq<Cursor>, j: nat): seq<Cursor>
    requires stack != [] && j <= |Last(stack).rest|
  {
    Below(stack) + [Cursor(Last(stack).dir, Last(stack).rest[j..])]
  }

  /** Entries of any kind other than file, symbolic link and directory are
      skipped without a trace. */
  lemma {:induction false} SkipsOther(fs: Fs, stack: seq<Cursor>, j: nat)
    requires stack != [] && j <= |Last(stack).rest|
    requires forall i | 0 <= i < j :: IsOtherEntry(Last(stack).rest[i])
    ensures Advance(fs, stack) == Advance(fs, DropTop(stack, j))
    decreases j
  {
    if j == 0 {
      assert Last(stack).rest[0..] == Last(stack).rest;
      assert DropTop(stack, 0) == stack;
    } else {
      var s1 := DropTop(stack, 1);
      SkipOne(fs, stack);
      forall i | 0 <= i < j - 1 ensures IsOtherEntry(Last(s1).rest[i]) {
        assert Last(s1).rest[i] == Last(stack).rest[i + 1];
      }
      SkipsOther(fs, s1, j - 1);
      DropTopTwice(stack, j);
    }
  }

  lemma SkipOne(fs: Fs, stack: seq<Cursor>)
    requires stack != [] && Last(stack).rest != [] && IsOtherEntry(Last(stack).rest[0])
    ensures Advance(fs, stack) == Advance(fs, DropTop(stack, 1))
  {
    assert Pull(stack).0 == DropTop(stack, 1);
  }

  lemma DropTopTwice(stack: seq<Cursor>, j: nat)
    requires stack != [] && 0 < j <= |Last(stack).rest|
    ensures DropTop(DropTop(stack, 1), j - 1) == DropTop(stack, j)
  {
    var s1 := DropTop(stack, 1);
    assert Last(s1).rest == Last(stack).rest[1..];
    assert Last(s1).rest[j - 1..] == Last(stack).rest[j..];
    assert Below(s1) == Below(stack);
  }

  /** The first file or symbolic link of the top cursor, after skipped
      entries, is what `next` yields; the cursor stops right after it. */
  lemma YieldsFirstLeaf(fs: Fs, stack: seq<Cursor>, j: nat)
    requires stack != [] && j < |Last(stack).rest|
    requires forall i | 0 <= i < j :: IsOtherEntry(Last(stack).rest[i])
    requires IsLeafEntry(Last(stack).rest[j])
    ensures Advance(fs, stack) == (Some(Ok(Last(stack).dir + [Last(stack).rest[j].value.name])), DropTop(stack, j + 1))
  {
    SkipsOther(fs, stack, j);
    var s := DropTop(stack, j);
    assert Last(s).rest[0] == Last(stack).rest[j];
    assert Last(s).rest[1..] == Last(stack).rest[j + 1..];
  }

  /** An error from the iterator or from `file_type`, after skipped entries,
      is yielded as an `Err` item. */
  lemma YieldsFirstError(fs: Fs, stack: seq<Cursor>, j: nat, k: ErrorKind)
    requires stack != [] && j < |Last(stack).rest|
    requires forall i | 0 <= i < j :: IsOtherEntry(Last(stack).rest[i])
    requires FailsWith(Last(stack).rest[j], k)
    ensures Advance(fs, stack) == (Some(Err(k)), DropTop(stack, j + 1))
  {
    SkipsOther(fs, stack, j);
    var s := DropTop(stack, j);
    assert Last(s).rest[0] == Last(stack).rest[j];
    assert Last(s).rest[1..] == Last(stack).rest[j + 1..];
  }

  /** A directory entry is never yielded: it is opened with `read_dir` and its
      cursor pushed on top, where the walk goes on; failing to open it is
      yielded as an `Err` item. */
  lemma DescendsIntoDir(fs: Fs, stack: seq<Cursor>, j: nat)
    requires stack != [] && j < |Last(stack).rest|
    requires forall i | 0 <= i < j :: IsOtherEntry(Last(stack).rest[i])
    requires IsDirEntry(Last(stack).rest[j])
    ensures var path := Last(stack).dir + [Last(stack).rest[j].value.name];
      Advance(fs, stack) ==
        match ReadDir(fs, path)
        case Err(e) => (Some(Err(e)), DropTop(stack, j + 1))
        case Ok(c) => Advance(fs, DropTop(stack, j + 1) + [c])
  {
    SkipsOther(fs, stack, j);
    var s := DropTop(stack, j);
    assert Last(s).rest[0] == Last(stack).rest[j];
    assert Last(s).rest[1..] == Last(stack).rest[j + 1..];
  }

  /** `next` returns `None` exactly when it reaches the end of the cursor on
      top of the stack (or the stack is empty); that cursor stays on the
      stack, so nothing below it is ever read again. */
  lemma NoneOnlyAtExhaustedTop(fs: Fs, stack: seq<Cursor>)
    ensures Advance(fs, stack).0.None? ==>
      stack == [] || (Advance(fs, stack).1 != [] && Last(Advance(fs, stack).1).rest == [])
    ensures stack != [] && Last(stack).rest == [] ==> Advance(fs, stack) == (None, stack)
  {
    if stack != [] {
      var pulled := Pull(stack);
      ResumeNone(fs, pulled.0, pulled.1);
    }
  }

  lemma {:induction false} ResumeNone(fs: Fs, stack: seq<Cursor>, pending: Option<EntryResult>)
    requires stack != []
    requires pending.None? ==> Last(stack).rest == []
    ensures Resume(fs, stack, pending).0.None? ==> Last(Resume(fs, stack, pending).1).rest == []
    decreases Depth(fs, stack), Remaining(stack), if pending.Some? then 1 else 0
  {
    match pending
    case None =>
    case Some(Err(e)) =>
    case Some(Ok(entry)) =>
      match entry.fileType
      case Err(e) =>
      case Ok(kind) =>
        var path := Last(stack).dir + [entry.name];
        if kind == File || kind == Symlink {
        } else if kind == Dir {
          match ReadDir(fs, path)
          case Err(e) =>
          case Ok(c) =>
            PushLowersDepth(fs, stack, c);
            var pulled := Pull(stack + [c]);
            ResumeNone(fs, pulled.0, pulled.1);
        } else {
          var pulled := Pull(stack);
          ResumeNone(fs, pulled.0, pulled.1);
        }
  }

  class FilesUnfollowed {
    const fs: Fs
    var readDirs: seq<Cursor>

    /** `From<ReadDir>`: a walker over one open directory. */
    constructor From(fs: Fs, readDir: Cursor)
      ensures this.fs == fs && readDirs == [readDir]
    {
      this.fs := fs;
      readDirs := [readDir];
    }

    method Next() returns (item: Option<Result<Path>>)
      modifies this
      ensures (item, readDirs) == Advance(fs, old(readDirs))
    {
      if readDirs == [] {
        return None;
      }
      var pulled := Pull(readDirs);
      readDirs := pulled.0;
      var itemOption := pulled.1;
      while itemOption.Some?
        invariant readDirs != []
        invariant Resume(fs, readDirs, itemOption) == Advance(fs, old(readDirs))
        decreases Depth(fs, readDirs), Remaining(readDirs), if itemOption.Some? then 1 else 0
      {
        match itemOption.value {
          case Err(e) =>
            return Some(Err(e));
          case Ok(entry) =>
            match entry.fileType {
              case Err(e) =>
                return Some(Err(e));
              case Ok(kind) =>
                var path := Last(readDirs).dir + [entry.name];
                if kind == File || kind == Symlink {
                  return Some(Ok(path));
                } else if kind == Dir {
                  match ReadDir(fs, path) {
                    case Err(e) =>
                      return Some(Err(e));
                    case Ok(c) =>
                      PushLowersDepth(fs, readDirs, c);
                      readDirs := readDirs + [c];
                  }
                }
            }
        }
        pulled := Pull(readDirs);
        readDirs := pulled.0;
        itemOption := pulled.1;
      }
      return None;
    }
  }

  /** Because nothing is ever popped, an empty subdirectory listed before a
      file ends the walk: below `/d`, holding the empty directory `e` and then
      the file `f`, the walk collects nothing. */
  lemma EmptySubdirEndsWalk()
    ensures var fs := Fs(
        map[["/"] := Dir, ["/", "d"] := Dir, ["/", "d", "e"] := Dir, ["/", "d", "f"] := File],
        map[["/", "d"] := ["e", "f"], ["/", "d", "e"] := []],
        map[], map[], map[]);
      fs.kinds[["/", "d", "f"]] == File && Discover(fs, ["/", "d"]) == Ok([])
  {
    var fs := Fs(
      map[["/"] := Dir, ["/", "d"] := Dir, ["/", "d", "e"] := Dir, ["/", "d", "f"] := File],
      map[["/", "d"] := ["e", "f"], ["/", "d", "e"] := []],
      map[], map[], map[]);
    var d, e := ["/", "d"], ["/", "d", "e"];
    assert d + ["e"] == e;
    assert Names(fs, d) == ["e", "f"];
    var c := ReadDir(fs, d).value;
    assert c.rest[0] == Ok(DirEntry("e", Ok(Dir)));
    DescendsIntoDir(fs, [c], 0);
    var c2 := ReadDir(fs, e).value;
    assert c2.rest == [];
    var s := DropTop([c], 1) + [c2];
    NoneOnlyAtExhaustedTop(fs, s);
    assert Advance(fs, [c]).0 == None;
  }

  /** Drains the walker the way `collect::<Result<Vec<_>, _>>()` does. */
  method CollectAll(w: FilesUnfollowed) returns (r: Result<seq<Path>>)
    modifies w
    ensures r == Collected(w.fs, old(w.readDirs))
  {
    var acc: seq<Path> := [];
    assert forall ps: seq<Path> :: acc + ps == ps;
    while true
      invariant Collected(w.fs, old(w.readDirs)) ==
        match Collected(w.fs, w.readDirs)
        case Err(e) => Err(e)
        case Ok(ps) => Ok(acc + ps)
      decreases Depth(w.fs, w.readDirs), Remaining(w.readDirs)
    {
      ghost var before := w.readDirs;
      var item := w.Next();
      match item {
        case None =>
          assert Collected(w.fs, before) == Ok([]);
          assert acc + [] == acc;
          return Ok(acc);
        case Some(Err(e)) =>
          return Err(e);
        case Some(Ok(p)) =>
          assert forall ps :: acc + ([p] + ps) == (acc + [p]) + ps;
          acc := acc + [p];
      }
    }
  }
}
