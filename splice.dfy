/** `SplicePath::splice`: re-rooting a discovered path from the source
    directory to the target directory by counting components. */
module SplicePath {
  import opened Paths

  /** The destination of `self`: every component of `start`, then the
      components of `self` left after skipping as many as `stop` has.
      `stop`'s components are counted, never compared. The components are
      collected into a `PathBuf`, where pushing a root replaces everything
      before it: when `stop` is empty nothing of an absolute `self` is
      skipped, its root replaces `start`, and `self` comes back unchanged. */
  function Splice(self: Path, start: Path, stop: Path): (r: Path)
    ensures |stop| == 0 && IsAbsolute(self) ==> r == self
    ensures |stop| > 0 || !IsAbsolute(self) ==>
      IsPrefix(start, r) && |r| == |start| + (if |self| <= |stop| then 0 else |self| - |stop|)
  {
    if |stop| == 0 && IsAbsolute(self) then self
    else start + (if |self| <= |stop| then [] else self[|stop|..])
  }

  /** Re-rooting keeps the layout below the source root: when `self` is
      `stop` followed by `suffix`, the result is `start` followed by `suffix`. */
  lemma SpliceReroots(self: Path, start: Path, stop: Path, suffix: Path)
    requires self == stop + suffix && (stop != [] || !IsAbsolute(suffix))
    ensures Splice(self, start, stop) == start + suffix
    ensures Splice(self, start, stop)[|start|..] == self[|stop|..]
  {
    if suffix == [] {
      assert self == stop;
    } else {
      assert self[|stop|..] == suffix;
    }
  }

  /** A path with no more components than `stop` is sent to `start` itself
      (an empty `self` included). */
  lemma SpliceShortIsStart(self: Path, start: Path, stop: Path)
    requires |self| <= |stop|
    ensures Splice(self, start, stop) == start
  {
  }

  /** Only the number of `stop`'s components matters: a `stop` of the same
      length but other content gives the same result, even when `self` does not
      lie below either of them. */
  lemma SpliceCountsOnly(self: Path, start: Path, stop1: Path, stop2: Path)
    requires |stop1| == |stop2|
    ensures Splice(self, start, stop1) == Splice(self, start, stop2)
  {
  }

  /** Concretely: re-rooting `/in/a/b/file.txt` from `/elsewhere` (same number
      of components as `/in`) to `/out` yields `/out/a/b/file.txt`. */
  lemma SpliceIgnoresContent()
    ensures Splice(["/", "in", "a", "b", "file.txt"], ["/", "out"], ["/", "elsewhere"])
         == ["/", "out", "a", "b", "file.txt"]
  {
    assert ["/", "in", "a", "b", "file.txt"][2..] == ["a", "b", "file.txt"];
  }

  /** Concretely: with an empty `stop`, `/in/f` re-rooted to `/out` stays
      `/in/f`, while the relative `in/f` becomes `/out/in/f`. */
  lemma SpliceEmptyStop()
    ensures Splice(["/", "in", "f"], ["/", "out"], []) == ["/", "in", "f"]
    ensures Splice(["in", "f"], ["/", "out"], []) == ["/", "out", "in", "f"]
  {
  }

  /** Two different paths below the same root, both absolute or both
      relative, are sent to different destinations. */
  lemma SpliceInjective(p1: Path, p2: Path, start: Path, stop: Path)
    requires IsProperPrefix(stop, p1) && IsProperPrefix(stop, p2) && p1 != p2
    requires IsAbsolute(p1) == IsAbsolute(p2)
    ensures Splice(p1, start, stop) != Splice(p2, start, stop)
  {
    if stop == [] && IsAbsolute(p1) {
      return;
    }
    var s1, s2 := p1[|stop|..], p2[|stop|..];
    assert p1 == stop + s1 && p2 == stop + s2;
    SpliceReroots(p1, start, stop, s1);
    SpliceReroots(p2, start, stop, s2);
    assert s1 != s2;
  }
}
