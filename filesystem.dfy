/** The filesystem the tool reads and changes, as a value: what kind of
    object each path names (as `symlink_metadata` reports it), the order in
    which `read_dir` enumerates each directory, and faults that make a
    `read_dir`, an entry of its iterator or an entry's `file_type` fail.
    The operations are `std::fs` as the tool uses it. */
module Filesystem {
  import opened Io
  import opened Paths

  datatype Kind = File | Symlink | Dir | Other

  predicate IsLeafKind(k: Kind) {
    k == File || k == Symlink
  }

  datatype Fs = Fs(
    kinds: map<Path, Kind>,
    listing: map<Path, seq<Component>>,
    openFaults: map<Path, ErrorKind>,
    entryFaults: map<Path, ErrorKind>,
    typeFaults: map<Path, ErrorKind>)

  /** A `DirEntry`: its file name and what `file_type()` returns for it. */
  datatype DirEntry = DirEntry(name: Component, fileType: Result<Kind>)

  /** One item of a `ReadDir` iterator. */
  type EntryResult = Result<DirEntry>

  /** An open `ReadDir`: the directory it lists and the entries not yet
      returned by `next()`. */
  datatype Cursor = Cursor(dir: Path, rest: seq<EntryResult>)

  function Names(fs: Fs, dir: Path): seq<Component> {
    if dir in fs.listing then fs.listing[dir] else []
  }

  /** `DirEntry::file_type`, which does not follow symbolic links. */
  function FileTypeOf(fs: Fs, p: Path): (r: Result<Kind>)
    ensures r.Ok? ==> p in fs.kinds && fs.kinds[p] == r.value
  {
    if p in fs.typeFaults then Err(fs.typeFaults[p])
    else if p in fs.kinds then Ok(fs.kinds[p])
    else Err(NotFound)
  }

  function EntryOf(fs: Fs, dir: Path, name: Component): EntryResult {
    var p := dir + [name];
    if p in fs.entryFaults then Err(fs.entryFaults[p])
    else Ok(DirEntry(name, FileTypeOf(fs, p)))
  }

  /** An entry agrees with the filesystem when its reported file type is the
      one `FileTypeOf` gives for its path. */
  predicate EntryAgrees(fs: Fs, dir: Path, e: EntryResult) {
    e.Ok? ==> e.value.fileType == FileTypeOf(fs, dir + [e.value.name])
  }

  predicate Faithful(fs: Fs, c: Cursor) {
    forall i | 0 <= i < |c.rest| :: EntryAgrees(fs, c.dir, c.rest[i])
  }

  predicate IsOtherEntry(e: EntryResult) {
    e.Ok? && e.value.fileType == Ok(Kind.Other)
  }

  predicate IsLeafEntry(e: EntryResult) {
    e.Ok? && e.value.fileType.Ok? && IsLeafKind(e.value.fileType.value)
  }

  predicate IsDirEntry(e: EntryResult) {
    e.Ok? && e.value.fileType == Ok(Dir)
  }

  /** `e` is an error of the iterator, or an entry whose `file_type` fails. */
  predicate FailsWith(e: EntryResult, k: ErrorKind) {
    e == Err(k) || (e.Ok? && e.value.fileType == Err(k))
  }

  predicate IsDir(fs: Fs, p: Path) {
    p in fs.kinds && fs.kinds[p] == Dir
  }

  /** `fs::read_dir`: fails on an injected fault, a missing path or a
      non-directory; otherwise a cursor over the entries in listing order. */
  function ReadDir(fs: Fs, dir: Path): (r: Result<Cursor>)
    ensures r.Ok? <==> dir !in fs.openFaults && IsDir(fs, dir)
    ensures r.Ok? ==> r.value.dir == dir && Faithful(fs, r.value)
    ensures r.Ok? ==> |r.value.rest| == |Names(fs, dir)|
    ensures r.Ok? ==> forall i | 0 <= i < |r.value.rest| :: r.value.rest[i] == EntryOf(fs, dir, Names(fs, dir)[i])
  {
    if dir in fs.openFaults then Err(fs.openFaults[dir])
    else if dir !in fs.kinds then Err(NotFound)
    else if fs.kinds[dir] != Dir then Err(NotADirectory)
    else
      var names := Names(fs, dir);
      Ok(Cursor(dir, seq(|names|, i requires 0 <= i < |names| => EntryOf(fs, dir, names[i]))))
  }

  /** `Path::metadata`, taken without following symbolic links. */
  function Metadata(fs: Fs, p: Path): (r: Result<Kind>)
    ensures r.Ok? <==> p in fs.kinds
    ensures r.Ok? ==> r.value == fs.kinds[p]
    ensures r.Err? ==> r.error == NotFound
  {
    if p in fs.kinds then Ok(fs.kinds[p]) else Err(NotFound)
  }

  /** Every object other than the root lies in a directory that exists and
      lists it, as on a real file system. */
  predicate Listed(fs: Fs) {
    forall q | q in fs.kinds && Parent(q).Some? ::
      Parent(q).value in fs.kinds && q[|q| - 1] in Names(fs, Parent(q).value)
  }

  /** On such a file system every ancestor of an object, below the first
      component, exists and lists the next component on the way to it. */
  lemma {:induction false} ListedAncestor(fs: Fs, q: Path, k: nat)
    requires Listed(fs) && q in fs.kinds && 1 <= k < |q|
    ensures q[..k + 1] in fs.kinds && q[k] in Names(fs, q[..k])
    decreases |q|
  {
    var d := q[..|q| - 1];
    assert Parent(q) == Some(d);
    if k == |q| - 1 {
      assert q[..k + 1] == q;
    } else {
      ListedAncestor(fs, d, k);
      assert d[..k + 1] == q[..k + 1] && d[..k] == q[..k] && d[k] == q[k];
    }
  }

  /** `Path::try_exists`. */
  predicate Exists(fs: Fs, p: Path) {
    p in fs.kinds
  }

  function Without(names: seq<Component>, n: Component): (r: seq<Component>)
    ensures n !in r
    ensures forall x :: x in r <==> x in names && x != n
  {
    if names == [] then []
    else if names[0] == n then Without(names[1..], n)
    else [names[0]] + Without(names[1..], n)
  }

  /** Records a new object at `p`, listed last in its parent directory. */
  function AddEntry(fs: Fs, p: Path, k: Kind): (r: Fs)
    requires p != []
    ensures r.kinds == fs.kinds[p := k]
  {
    var listing := if k == Dir then fs.listing[p := []] else fs.listing;
    var listing' := match Parent(p)
      case None => listing
      case Some(d) => listing[d := Names(fs, d) + [p[|p| - 1]]];
    fs.(kinds := fs.kinds[p := k], listing := listing')
  }

  /** Forgets the object at `p` and its name in the parent's listing. */
  function DropEntry(fs: Fs, p: Path): (r: Fs)
    requires p != []
    ensures r.kinds == fs.kinds - {p}
  {
    var listing := match Parent(p)
      case None => fs.listing
      case Some(d) => if d in fs.listing then fs.listing[d := Without(fs.listing[d], p[|p| - 1])] else fs.listing;
    fs.(kinds := fs.kinds - {p}, listing := listing - {p})
  }

  /** `fs::create_dir_all`: succeeds at once on an existing directory and
      fails on any other existing object; otherwise creates the missing
      ancestors first, then `p`. The objects that existed keep their kinds and
      every object it adds is a directory on the way to `p`. */
  function CreateDirAll(fs: Fs, p: Path): (r: Result<Fs>)
    ensures r.Ok? ==> forall q | q in fs.kinds :: q in r.value.kinds && r.value.kinds[q] == fs.kinds[q]
    ensures r.Ok? ==> forall q | q in r.value.kinds && q !in fs.kinds :: IsPrefix(q, p) && r.value.kinds[q] == Dir
    ensures r.Ok? && p != [] ==> IsDir(r.value, p)
    decreases |p|
  {
    if p == [] then Ok(fs)
    else if p in fs.kinds then
      if fs.kinds[p] == Dir then Ok(fs) else Err(AlreadyExists)
    else match Parent(p)
      case None => Err(ErrorKind.Other)
      case Some(d) =>
        if d in fs.kinds && fs.kinds[d] != Dir then Err(NotADirectory)
        else match CreateDirAll(fs, d)
          case Err(e) => Err(e)
          case Ok(fs1) => Ok(AddEntry(fs1, p, Dir))
  }

  /** `fs::rename` of a file or symbolic link to a path that does not exist
      yet, inside an existing directory. */
  function Rename(fs: Fs, from: Path, to: Path): (r: Result<Fs>)
    ensures r.Ok? ==> from in fs.kinds && fs.kinds[from] != Dir && to !in fs.kinds && from != to
    ensures r.Ok? ==> Parent(to).Some? && IsDir(fs, Parent(to).value)
    ensures r.Ok? ==> r.value.kinds == (fs.kinds - {from})[to := fs.kinds[from]]
  {
    if from == [] || from !in fs.kinds then Err(NotFound)
    else if fs.kinds[from] == Dir then Err(Unsupported)
    else if to in fs.kinds then Err(AlreadyExists)
    else match Parent(to)
      case None => Err(NotFound)
      case Some(d) =>
        if !IsDir(fs, d) then Err(NotFound)
        else Ok(AddEntry(DropEntry(fs, from), to, fs.kinds[from]))
  }

  /** `fs::remove_dir_all`: removes a directory and everything below it, or
      a symbolic link itself. */
  function RemoveDirAll(fs: Fs, p: Path): (r: Result<Fs>)
    ensures r.Ok? ==> p in fs.kinds && (fs.kinds[p] == Dir || fs.kinds[p] == Symlink)
    ensures r.Ok? ==> forall q :: q in r.value.kinds <==> q in fs.kinds && !IsPrefix(p, q)
    ensures r.Ok? ==> forall q | q in r.value.kinds :: r.value.kinds[q] == fs.kinds[q]
  {
    if p !in fs.kinds then Err(NotFound)
    else if fs.kinds[p] == File || fs.kinds[p] == Kind.Other then Err(NotADirectory)
    else
      assert fs.kinds[p].Dir? || fs.kinds[p].Symlink?;
      var kinds := map q | q in fs.kinds && !IsPrefix(p, q) :: fs.kinds[q];
      var listing := map q | q in fs.listing && !IsPrefix(p, q) :: fs.listing[q];
      var listing' := match Parent(p)
        case None => listing
        case Some(d) => if d in listing then listing[d := Without(listing[d], p[|p| - 1])] else listing;
      Ok(fs.(kinds := kinds, listing := listing'))
  }

  /** A call that changes the filesystem. */
  datatype Action = CreateDirAllOf(dir: Path) | RenameOf(from: Path, to: Path) | RemoveDirAllOf(dir: Path)

  function Apply(fs: Fs, a: Action): Result<Fs> {
    match a
    case CreateDirAllOf(d) => CreateDirAll(fs, d)
    case RenameOf(from, to) => Rename(fs, from, to)
    case RemoveDirAllOf(d) => RemoveDirAll(fs, d)
  }

  /** What running a sequence of calls leaves behind: the final filesystem,
      the calls that succeeded, and the error of the one that failed. */
  datatype Trace = Trace(fs: Fs, performed: seq<Action>, failed: Option<ErrorKind>)

  /** Runs `actions` in order and stops at the first one that fails. */
  function ApplyAll(fs: Fs, actions: seq<Action>): (t: Trace)
    ensures |t.performed| <= |actions| && t.performed == actions[..|t.performed|]
    ensures t.failed.None? <==> t.performed == actions
    decreases |actions|
  {
    if actions == [] then Trace(fs, [], None)
    else match Apply(fs, actions[0])
      case Err(e) => Trace(fs, [], Some(e))
      case Ok(fs1) =>
        var t := ApplyAll(fs1, actions[1..]);
        Trace(t.fs, [actions[0]] + t.performed, t.failed)
  }

  /** Running two sequences of calls one after the other is running their
      concatenation, stopping at the first failure. */
  lemma {:induction false} ApplyAllConcat(fs: Fs, a: seq<Action>, b: seq<Action>)
    ensures var ta := ApplyAll(fs, a);
      ApplyAll(fs, a + b) ==
        if ta.failed.Some? then ta
        else var tb := ApplyAll(ta.fs, b); Trace(tb.fs, a + tb.performed, tb.failed)
    decreases |a|
  {
    if a == [] {
      assert a + b == b;
    } else {
      var ab := a + b;
      assert ab[0] == a[0] && ab[1..] == a[1..] + b;
      match Apply(fs, a[0])
      case Err(e) =>
        assert ApplyAll(fs, a) == Trace(fs, [], Some(e));
        assert ApplyAll(fs, ab) == Trace(fs, [], Some(e));
      case Ok(fs1) =>
        ApplyAllConcat(fs1, a[1..], b);
        var ta := ApplyAll(fs1, a[1..]);
        var tab := ApplyAll(fs1, a[1..] + b);
        assert ApplyAll(fs, a) == Trace(ta.fs, [a[0]] + ta.performed, ta.failed);
        assert ApplyAll(fs, ab) == Trace(tab.fs, [a[0]] + tab.performed, tab.failed);
        if ta.failed.None? {
          var tb := ApplyAll(ta.fs, b);
          assert ta.performed == a[1..];
          assert [a[0]] + (a[1..] + tb.performed) == a + tb.performed;
        }
    }
  }

  /** A run that has succeeded so far, extended by a call that fails, ends
      there with that call's error, whatever was to follow. */
  lemma ApplyAllStopsAt(fs: Fs, pre: seq<Action>, a: Action, rest: seq<Action>)
    requires ApplyAll(fs, pre).failed.None?
    requires Apply(ApplyAll(fs, pre).fs, a).Err?
    ensures ApplyAll(fs, pre + [a] + rest) ==
      Trace(ApplyAll(fs, pre).fs, pre, Some(Apply(ApplyAll(fs, pre).fs, a).error))
  {
    var ta := ApplyAll(fs, pre);
    var tail := [a] + rest;
    ApplyAllConcat(fs, pre, tail);
    assert pre + [a] + rest == pre + tail;
    assert tail[0] == a;
    var tb := ApplyAll(ta.fs, tail);
    assert tb == Trace(ta.fs, [], Some(Apply(ta.fs, a).error));
    assert ta.performed == pre;
    assert pre + [] == pre;
  }

  /** A run that has succeeded so far, extended by a call that succeeds, has
      succeeded with that call's result. */
  lemma ApplyAllSnoc(fs: Fs, pre: seq<Action>, a: Action)
    requires ApplyAll(fs, pre).failed.None?
    requires Apply(ApplyAll(fs, pre).fs, a).Ok?
    ensures ApplyAll(fs, pre + [a]) == Trace(Apply(ApplyAll(fs, pre).fs, a).value, pre + [a], None)
  {
    var ta := ApplyAll(fs, pre);
    ApplyAllConcat(fs, pre, [a]);
    var g := Apply(ta.fs, a).value;
    assert [a][1..] == [];
    assert ApplyAll(ta.fs, [a]) == Trace(g, [a], None);
    assert ta.performed == pre;
  }
}
