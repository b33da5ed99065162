/** `contains_file_symlink_in_directory`: whether the direct entries of a
    directory include a file or a symbolic link. */
module ContainsFileSymlink {
  import opened Io
  import opened Paths
  import opened Filesystem

  /** An entry that lets the scan go on: its type is known and is neither
      file nor symbolic link (a directory, or something else). */
  predicate IsPassEntry(e: EntryResult) {
    e.Ok? && e.value.fileType.Ok? && !IsLeafKind(e.value.fileType.value)
  }

  /** The `for` loop over the entries: the first entry that is an error, or a
      file or symbolic link, decides; running out of entries gives `false`. */
  function Scan(entries: seq<EntryResult>): Result<bool> {
    if entries == [] then Ok(false)
    else match entries[0]
      case Err(e) => Err(e)
      case Ok(entry) =>
        match entry.fileType
        case Err(e) => Err(e)
        case Ok(kind) => if IsLeafKind(kind) then Ok(true) else Scan(entries[1..])
  }

  /** The probe as a function: `read_dir` fails, or the scan of its entries. */
  function Probe(fs: Fs, dir: Path): Result<bool> {
    match ReadDir(fs, dir)
    case Err(e) => Err(e)
    case Ok(c) => Scan(c.rest)
  }

  method ContainsFileSymlinkInDirectory(fs: Fs, dir: Path) returns (r: Result<bool>)
    ensures r == Probe(fs, dir)
  {
    var readDir := ReadDir(fs, dir);
    if readDir.Err? {
      return Err(readDir.error);
    }
    var entries := readDir.value.rest;
    var i := 0;
    while i < |entries|
      invariant 0 <= i <= |entries|
      invariant Scan(entries[i..]) == Scan(entries)
    {
      var dirEntry := entries[i];
      if dirEntry.Err? {
        return Err(dirEntry.error);
      }
      var fileType := dirEntry.value.fileType;
      if fileType.Err? {
        return Err(fileType.error);
      }
      if fileType.value == File || fileType.value == Symlink {
        return Ok(true);
      }
      assert entries[i..][1..] == entries[i + 1..];
      i := i + 1;
    }
    return Ok(false);
  }

  /** `Ok(true)` exactly when some entry is a file or symbolic link and every
      entry before it is a directory or another non-file kind. */
  lemma {:induction false} ScanTrueIff(entries: seq<EntryResult>)
    ensures Scan(entries) == Ok(true) <==>
      exists i | 0 <= i < |entries| :: IsLeafEntry(entries[i]) && forall j | 0 <= j < i :: IsPassEntry(entries[j])
  {
    if Scan(entries) == Ok(true) {
      ScanTrueAt(entries);
    }
    if exists i | 0 <= i < |entries| :: IsLeafEntry(entries[i]) && forall j | 0 <= j < i :: IsPassEntry(entries[j]) {
      var i :| 0 <= i < |entries| && IsLeafEntry(entries[i]) && forall j | 0 <= j < i :: IsPassEntry(entries[j]);
      ScanFindsAt(entries, i);
    }
  }

  lemma {:induction false} ScanTrueAt(entries: seq<EntryResult>)
    requires Scan(entries) == Ok(true)
    ensures exists i | 0 <= i < |entries| :: IsLeafEntry(entries[i]) && forall j | 0 <= j < i :: IsPassEntry(entries[j])
  {
    if !IsLeafEntry(entries[0]) {
      ScanTrueAt(entries[1..]);
      var i :| 0 <= i < |entries[1..]| && IsLeafEntry(entries[1..][i]) && forall j | 0 <= j < i :: IsPassEntry(entries[1..][j]);
      assert IsLeafEntry(entries[i + 1]);
      forall j | 0 <= j < i + 1 ensures IsPassEntry(entries[j]) {
        if j > 0 { assert entries[j] == entries[1..][j - 1]; }
      }
    }
  }

  lemma {:induction false} ScanFindsAt(entries: seq<EntryResult>, i: nat)
    requires i < |entries| && IsLeafEntry(entries[i]) && forall j | 0 <= j < i :: IsPassEntry(entries[j])
    ensures Scan(entries) == Ok(true)
  {
    if i > 0 {
      assert IsPassEntry(entries[0]);
      forall j | 0 <= j < i - 1 ensures IsPassEntry(entries[1..][j]) {
        assert entries[1..][j] == entries[j + 1];
      }
      ScanFindsAt(entries[1..], i - 1);
    }
  }

  /** `Ok(false)` exactly when every entry is a directory or another
      non-file kind, so in particular for an empty directory. */
  lemma {:induction false} ScanFalseIff(entries: seq<EntryResult>)
    ensures Scan(entries) == Ok(false) <==> forall i | 0 <= i < |entries| :: IsPassEntry(entries[i])
  {
    if entries != [] {
      ScanFalseIff(entries[1..]);
      if forall i | 0 <= i < |entries| :: IsPassEntry(entries[i]) {
        assert forall i | 0 <= i < |entries[1..]| :: IsPassEntry(entries[1..][i]) by {
          forall i | 0 <= i < |entries[1..]| ensures IsPassEntry(entries[1..][i]) {
            assert entries[1..][i] == entries[i + 1];
          }
        }
      }
      if Scan(entries) == Ok(false) {
        assert IsPassEntry(entries[0]);
        forall i | 0 <= i < |entries| ensures IsPassEntry(entries[i]) {
          if i > 0 { assert entries[i] == entries[1..][i - 1]; }
        }
      }
    }
  }

  /** An error is returned exactly when an entry fails, either as an item of
      the iterator or in `file_type`, before any file or symbolic link: the
      entries after the first file are never examined. */
  lemma {:induction false} ScanErrIff(entries: seq<EntryResult>, k: ErrorKind)
    ensures Scan(entries) == Err(k) <==>
      exists i | 0 <= i < |entries| :: FailsWith(entries[i], k) && forall j | 0 <= j < i :: IsPassEntry(entries[j])
  {
    if Scan(entries) == Err(k) {
      ScanErrAt(entries, k);
    }
    if exists i | 0 <= i < |entries| :: FailsWith(entries[i], k) && forall j | 0 <= j < i :: IsPassEntry(entries[j]) {
      var i :| 0 <= i < |entries| && FailsWith(entries[i], k) && forall j | 0 <= j < i :: IsPassEntry(entries[j]);
      ScanFailsAt(entries, k, i);
    }
  }

  lemma {:induction false} ScanErrAt(entries: seq<EntryResult>, k: ErrorKind)
    requires Scan(entries) == Err(k)
    ensures exists i | 0 <= i < |entries| :: FailsWith(entries[i], k) && forall j | 0 <= j < i :: IsPassEntry(entries[j])
  {
    if !FailsWith(entries[0], k) {
      ScanErrAt(entries[1..], k);
      var i :| 0 <= i < |entries[1..]| && FailsWith(entries[1..][i], k) && forall j | 0 <= j < i :: IsPassEntry(entries[1..][j]);
      assert FailsWith(entries[i + 1], k);
      forall j | 0 <= j < i + 1 ensures IsPassEntry(entries[j]) {
        if j > 0 { assert entries[j] == entries[1..][j - 1]; }
      }
    }
  }

  lemma {:induction false} ScanFailsAt(entries: seq<EntryResult>, k: ErrorKind, i: nat)
    requires i < |entries| && FailsWith(entries[i], k) && forall j | 0 <= j < i :: IsPassEntry(entries[j])
    ensures Scan(entries) == Err(k)
  {
    if i > 0 {
      assert IsPassEntry(entries[0]);
      forall j | 0 <= j < i - 1 ensures IsPassEntry(entries[1..][j]) {
        assert entries[1..][j] == entries[j + 1];
      }
      ScanFailsAt(entries[1..], k, i - 1);
    }
  }

  /** An error opening the directory is returned as it is. */
  lemma ProbeOpenError(fs: Fs, dir: Path)
    requires ReadDir(fs, dir).Err?
    ensures Probe(fs, dir) == Err(ReadDir(fs, dir).error)
  {
  }

  /** `Ok(true)` means a direct child of `dir` is a file or a symbolic link
      in the filesystem; the probe does not look any deeper. */
  lemma ProbeTrueMeansLeafChild(fs: Fs, dir: Path)
    requires Probe(fs, dir) == Ok(true)
    ensures exists name | name in Names(fs, dir) :: dir + [name] in fs.kinds && IsLeafKind(fs.kinds[dir + [name]])
  {
    var c := ReadDir(fs, dir).value;
    ScanTrueIff(c.rest);
    var i :| 0 <= i < |c.rest| && IsLeafEntry(c.rest[i]) && forall j | 0 <= j < i :: IsPassEntry(c.rest[j]);
    var name := Names(fs, dir)[i];
    assert c.rest[i] == EntryOf(fs, dir, name);
    assert FileTypeOf(fs, dir + [name]) == c.rest[i].value.fileType;
  }

  /** A directory whose listing is empty, or holds only subdirectories,
      gives `Ok(false)` when nothing fails. */
  lemma ProbeFalseOnDirsOnly(fs: Fs, dir: Path)
    requires dir !in fs.openFaults && IsDir(fs, dir)
    requires forall n | n in Names(fs, dir) :: dir + [n] !in fs.entryFaults && dir + [n] !in fs.typeFaults
                                          && dir + [n] in fs.kinds && fs.kinds[dir + [n]] == Dir
    ensures Probe(fs, dir) == Ok(false)
  {
    var c := ReadDir(fs, dir).value;
    forall i | 0 <= i < |c.rest| ensures IsPassEntry(c.rest[i]) {
      var n := Names(fs, dir)[i];
      assert c.rest[i] == EntryOf(fs, dir, n);
    }
    ScanFalseIff(c.rest);
  }

  /** Conversely, a file or symbolic link among the direct children, listed
      after only non-file children and with nothing failing up to it, gives
      `Ok(true)`. */
  lemma ProbeTrueOnLeafChild(fs: Fs, dir: Path, i: nat)
    requires dir !in fs.openFaults && IsDir(fs, dir) && i < |Names(fs, dir)|
    requires forall j | 0 <= j <= i ::
      (dir + [Names(fs, dir)[j]] !in fs.entryFaults && dir + [Names(fs, dir)[j]] !in fs.typeFaults &&
       dir + [Names(fs, dir)[j]] in fs.kinds)
    requires IsLeafKind(fs.kinds[dir + [Names(fs, dir)[i]]])
    requires forall j | 0 <= j < i :: !IsLeafKind(fs.kinds[dir + [Names(fs, dir)[j]]])
    ensures Probe(fs, dir) == Ok(true)
  {
    var c := ReadDir(fs, dir).value;
    forall j | 0 <= j <= i ensures c.rest[j] == Ok(DirEntry(Names(fs, dir)[j], Ok(fs.kinds[dir + [Names(fs, dir)[j]]]))) {
      assert c.rest[j] == EntryOf(fs, dir, Names(fs, dir)[j]);
    }
    assert IsLeafEntry(c.rest[i]);
    assert forall j | 0 <= j < i :: IsPassEntry(c.rest[j]);
    ScanTrueIff(c.rest);
  }
}
