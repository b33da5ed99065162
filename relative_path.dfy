/** `RelativePath::relative`: the path that leads from `self` to `to`, built
    by walking the two component streams side by side. The tool declares
    this module but never calls it. */
module RelativePath {
  import opened Io
  import opened Paths

  /** `Iterator::next` on a component stream: the next component, and the
      stream after it; an exhausted stream stays exhausted. */
  function NextOf(s: Path): (r: (Option<Component>, Path))
    ensures s == [] ==> r == (None, [])
    ensures s != [] ==> r == (Some(s[0]), s[1..])
  {
    if s == [] then (None, []) else (Some(s[0]), s[1..])
  }

  /** The components not yet consumed: the current one, if any, and the rest
      of its stream. */
  function Pending(c: Option<Component>, rest: Path): Path {
    match c
    case None => []
    case Some(x) => [x] + rest
  }

  /** What the loop appends to the buffer from a state where `ls` and `rs`
      are the pending components of the two streams: a mismatch emits `..`
      and consumes only the left component; a match consumes both; leftover
      left components each emit `..`; leftover right components are copied,
      preceded by `.` if nothing was emitted before; at the end, `.` if
      nothing was emitted at all. */
  function Emitted(ls: Path, rs: Path, dotted: bool): Path
    decreases |ls| + |rs|
  {
    if ls != [] && rs != [] then
      if ls[0] != rs[0] then [PARENT_DIR] + Emitted(ls[1..], rs, true)
      else Emitted(ls[1..], rs[1..], dotted)
    else if ls != [] then [PARENT_DIR] + Emitted(ls[1..], rs, true)
    else if rs != [] then (if dotted then [] else [CUR_DIR]) + [rs[0]] + Emitted(ls, rs[1..], true)
    else if dotted then [] else [CUR_DIR]
  }

  /** Appending what one more step emits to the buffer. */
  lemma Emit(buffer: Path, out: Path, rest: Path)
    ensures buffer + (out + rest) == (buffer + out) + rest
  {
  }

  /** The loop of `relative`, on `l`, `r`, the remaining streams and the
      `dotted` flag. */
  method Relative(self: Path, to: Path) returns (result: Result<Path>)
    ensures !IsAbsolute(self) ==> result == Err(ErrorKind.Other)
    ensures IsAbsolute(self) && !IsAbsolute(to) ==> result == Err(ErrorKind.Other)
    ensures IsAbsolute(self) && IsAbsolute(to) ==> result == Ok(Emitted(self, to, false))
  {
    if !IsAbsolute(self) {
      return Err(ErrorKind.Other);
    }
    if !IsAbsolute(to) {
      return Err(ErrorKind.Other);
    }
    var buffer: Path := [];
    var l, left := NextOf(self).0, NextOf(self).1;
    var r, right := NextOf(to).0, NextOf(to).1;
    var dotted := false;
    assert Pending(l, left) == self && Pending(r, right) == to;
    while true
      invariant l.None? ==> left == []
      invariant r.None? ==> right == []
      invariant buffer + Emitted(Pending(l, left), Pending(r, right), dotted) == Emitted(self, to, false)
      decreases |Pending(l, left)| + |Pending(r, right)|
    {
      ghost var ls, rs, buffer0, dotted0 := Pending(l, left), Pending(r, right), buffer, dotted;
      if l.Some? && r.Some? {
        assert ls == [l.value] + left && rs == [r.value] + right;
        if l.value != r.value {
          buffer := buffer + [PARENT_DIR];
          dotted := true;
          Emit(buffer0, [PARENT_DIR], Emitted(ls[1..], rs, true));
        } else {
          r, right := NextOf(right).0, NextOf(right).1;
          assert Pending(r, right) == rs[1..];
        }
        l, left := NextOf(left).0, NextOf(left).1;
        assert Pending(l, left) == ls[1..];
      } else if l.Some? {
        assert ls == [l.value] + left && rs == [];
        buffer := buffer + [PARENT_DIR];
        dotted := true;
        Emit(buffer0, [PARENT_DIR], Emitted(ls[1..], rs, true));
        l, left := NextOf(left).0, NextOf(left).1;
        assert Pending(l, left) == ls[1..];
      } else if r.Some? {
        assert ls == [] && rs == [r.value] + right;
        var out := (if dotted then [] else [CUR_DIR]) + [r.value];
        if !dotted {
          buffer := buffer + [CUR_DIR];
          dotted := true;
        }
        buffer := buffer + [r.value];
        assert buffer == buffer0 + out;
        Emit(buffer0, out, Emitted(ls, rs[1..], true));
        r, right := NextOf(right).0, NextOf(right).1;
        assert Pending(r, right) == rs[1..];
      } else {
        if !dotted {
          buffer := buffer + [CUR_DIR];
        }
        assert buffer == Emitted(self, to, false);
        return Ok(buffer);
      }
    }
  }

  // ---- What the loop emits -------------------------------------------------

  /** `n` parent-directory components. */
  function Dots(n: nat): (r: Path)
    ensures |r| == n && forall i | 0 <= i < n :: r[i] == PARENT_DIR
  {
    seq(n, _ => PARENT_DIR)
  }

  /** Identical pending streams emit nothing but the final `.`. */
  lemma {:induction false} EmittedSame(p: Path, dotted: bool)
    ensures Emitted(p, p, dotted) == if dotted then [] else [CUR_DIR]
    decreases |p|
  {
    if p != [] {
      EmittedSame(p[1..], dotted);
    }
  }

  /** Right components left over are copied, after `.` if nothing was
      emitted before. */
  lemma {:induction false} EmittedCopies(ext: Path, dotted: bool)
    ensures Emitted([], ext, dotted) == (if dotted then [] else [CUR_DIR]) + ext
    decreases |ext|
  {
    if ext != [] {
      EmittedCopies(ext[1..], true);
      assert ext == [ext[0]] + ext[1..];
    }
  }

  /** Left components left over each emit `..`, and no `.` follows them. */
  lemma {:induction false} EmittedClimbs(ext: Path, dotted: bool)
    ensures Emitted(ext, [], dotted) == Dots(|ext|) + (if dotted || ext != [] then [] else [CUR_DIR])
    decreases |ext|
  {
    if ext != [] {
      EmittedClimbs(ext[1..], true);
      assert Dots(|ext|) == [PARENT_DIR] + Dots(|ext| - 1);
    }
  }

  /** A common front of the two streams emits nothing. */
  lemma {:induction false} EmittedSkipsCommon(p: Path, ls: Path, rs: Path, dotted: bool)
    ensures Emitted(p + ls, p + rs, dotted) == Emitted(ls, rs, dotted)
    decreases |p|
  {
    if p != [] {
      assert (p + ls)[1..] == p[1..] + ls && (p + rs)[1..] == p[1..] + rs;
      EmittedSkipsCommon(p[1..], ls, rs, dotted);
    } else {
      assert p + ls == ls && p + rs == rs;
    }
  }

  /** Identical paths give `.`. */
  lemma RelativeSame(p: Path)
    ensures Emitted(p, p, false) == [CUR_DIR]
  {
    EmittedSame(p, false);
  }

  /** When `to` extends `self`, the result is `.` followed by the extra
      components. */
  lemma RelativeDown(p: Path, ext: Path)
    ensures Emitted(p, p + ext, false) == [CUR_DIR] + ext
  {
    EmittedSkipsCommon(p, [], ext, false);
    assert p + [] == p;
    EmittedCopies(ext, false);
  }

  /** When `to` is a proper prefix of `self`, the result is one `..` per
      extra component of `self`, with no `.`. */
  lemma RelativeUp(p: Path, ext: Path)
    requires ext != []
    ensures Emitted(p + ext, p, false) == Dots(|ext|)
  {
    EmittedSkipsCommon(p, ext, [], false);
    assert p + [] == p;
    EmittedClimbs(ext, false);
  }

  /** With no `.` or `..` among the components of `to`, a `.` appears in
      the result only at its front, and only in a result with no `..` at
      all; once something was emitted, no `.` follows. */
  lemma {:induction false} DotOnlyAtFront(ls: Path, rs: Path, dotted: bool)
    requires CUR_DIR !in rs && PARENT_DIR !in rs
    ensures var e := Emitted(ls, rs, dotted);
      (dotted ==> CUR_DIR !in e) &&
      (CUR_DIR in e ==> e[0] == CUR_DIR && CUR_DIR !in e[1..] && PARENT_DIR !in e)
    decreases |ls| + |rs|
  {
    if ls != [] && rs != [] {
      if ls[0] != rs[0] {
        DotOnlyAtFront(ls[1..], rs, true);
      } else {
        assert CUR_DIR !in rs[1..] && PARENT_DIR !in rs[1..] by {
          assert forall x | x in rs[1..] :: x in rs;
        }
        DotOnlyAtFront(ls[1..], rs[1..], dotted);
      }
    } else if ls != [] {
      DotOnlyAtFront(ls[1..], rs, true);
    } else if rs != [] {
      assert CUR_DIR !in rs[1..] && PARENT_DIR !in rs[1..] by {
        assert forall x | x in rs[1..] :: x in rs;
      }
      assert rs[0] in rs;
      DotOnlyAtFront(ls, rs[1..], true);
      EmittedCopies(rs[1..], true);
      var e := Emitted(ls, rs, dotted);
      if !dotted {
        assert e == [CUR_DIR] + rs;
        assert e[1..] == rs;
      }
    }
  }

  // ---- The unit tests ------------------------------------------------------

  lemma RelativeToDeeper()
    ensures Emitted(["/", "hello", "world", "say", "goodbye"], ["/", "hello", "world", "tell", "the", "world"], false)
         == ["..", "..", "tell", "the", "world"]
  {
    var common: Path := ["/", "hello", "world"];
    EmittedSkipsCommon(common, ["say", "goodbye"], ["tell", "the", "world"], false);
    assert common + ["say", "goodbye"] == ["/", "hello", "world", "say", "goodbye"];
    assert common + ["tell", "the", "world"] == ["/", "hello", "world", "tell", "the", "world"];
    assert "say"[0] != "tell"[0] && "goodbye"[0] != "tell"[0];
    EmittedCopies(["tell", "the", "world"], true);
  }

  lemma RelativeToShallower()
    ensures Emitted(["/", "hello", "world", "say", "goodbye"], ["/", "hello", "world", "tell"], false)
         == ["..", "..", "tell"]
  {
    var common: Path := ["/", "hello", "world"];
    EmittedSkipsCommon(common, ["say", "goodbye"], ["tell"], false);
    assert common + ["say", "goodbye"] == ["/", "hello", "world", "say", "goodbye"];
    assert common + ["tell"] == ["/", "hello", "world", "tell"];
    assert "say"[0] != "tell"[0] && "goodbye"[0] != "tell"[0];
    EmittedCopies(["tell"], true);
  }

  lemma RelativeNotDeep()
    ensures Emitted(["/", "hello", "world", "say", "goodbye"], ["/", "hello", "world"], false) == ["..", ".."]
  {
    RelativeUp(["/", "hello", "world"], ["say", "goodbye"]);
    assert ["/", "hello", "world"] + ["say", "goodbye"] == ["/", "hello", "world", "say", "goodbye"];
  }

  lemma RelativeDownTest()
    ensures Emitted(["/", "hello"], ["/", "hello", "world", "bro", "sup"], false) == [".", "world", "bro", "sup"]
  {
    RelativeDown(["/", "hello"], ["world", "bro", "sup"]);
    assert ["/", "hello"] + ["world", "bro", "sup"] == ["/", "hello", "world", "bro", "sup"];
  }

  lemma RelativeSameTest()
    ensures Emitted(["/", "hello", "world", "bro", "sup"], ["/", "hello", "world", "bro", "sup"], false) == ["."]
  {
    RelativeSame(["/", "hello", "world", "bro", "sup"]);
  }

  // ---- Re-synchronisation --------------------------------------------------

  /** Lexical resolution of a relative path against an absolute base: `.`
      stays, `..` goes to the parent (the root is its own parent), any other
      component descends. */
  function Resolve(base: Path, rel: Path): Path
    decreases |rel|
  {
    if rel == [] then base
    else if rel[0] == CUR_DIR then Resolve(base, rel[1..])
    else if rel[0] == PARENT_DIR then
      Resolve(match Parent(base) case None => base case Some(q) => q, rel[1..])
    else Resolve(base + [rel[0]], rel[1..])
  }

  /** Because a mismatch keeps the pending `to` component, the streams can
      fall back into step on a later component: from `/a/x/c` to `/x/c` the
      loop emits a single `..`, which leads to `/a/x`, not to `/x/c`. */
  lemma RelativeResyncMisses()
    ensures Emitted(["/", "a", "x", "c"], ["/", "x", "c"], false) == [".."]
    ensures Resolve(["/", "a", "x", "c"], [".."]) == ["/", "a", "x"] != ["/", "x", "c"]
  {
    var common: Path := ["/"];
    EmittedSkipsCommon(common, ["a", "x", "c"], ["x", "c"], false);
    assert common + ["a", "x", "c"] == ["/", "a", "x", "c"];
    assert common + ["x", "c"] == ["/", "x", "c"];
    assert "a"[0] != "x"[0];
    EmittedSame(["x", "c"], true);
    assert ["/", "a", "x", "c"][..3] == ["/", "a", "x"];
  }

  /** The length of the longest common front of two paths. */
  function CommonLength(a: Path, b: Path): (k: nat)
    ensures k <= |a| && k <= |b| && a[..k] == b[..k]
    ensures k < |a| && k < |b| ==> a[k] != b[k]
  {
    if a == [] || b == [] || a[0] != b[0] then 0
    else
      var k := 1 + CommonLength(a[1..], b[1..]);
      assert a[..k] == [a[0]] + a[1..][..k - 1];
      assert b[..k] == [b[0]] + b[1..][..k - 1];
      k
  }

  /** The relative path the tests and the name promise: one `..` per
      component of `self` after the common front, `.` when there is none,
      then the components of `to` after the common front. */
  function CorrectedRelative(self: Path, to: Path): Path {
    var k := CommonLength(self, to);
    Dots(|self| - k) + (if k == |self| then [CUR_DIR] else []) + to[k..]
  }

  /** A component sequence without `.` and `..`. */
  predicate Plain(p: Path) {
    CUR_DIR !in p && PARENT_DIR !in p
  }

  lemma {:induction false} ResolveDescends(base: Path, names: Path)
    requires Plain(names)
    ensures Resolve(base, names) == base + names
    decreases |names|
  {
    if names != [] {
      assert names[0] in names;
      assert Plain(names[1..]) by {
        assert forall x | x in names[1..] :: x in names;
      }
      ResolveDescends(base + [names[0]], names[1..]);
      assert base + [names[0]] + names[1..] == base + names;
    }
  }

  lemma {:induction false} ResolveClimbs(base: Path, n: nat, rest: Path)
    requires n < |base|
    ensures Resolve(base, Dots(n) + rest) == Resolve(base[..|base| - n], rest)
    decreases n
  {
    if n == 0 {
      assert Dots(0) + rest == rest;
      assert base[..|base|] == base;
    } else {
      var rel := Dots(n) + rest;
      assert rel[0] == PARENT_DIR && rel[1..] == Dots(n - 1) + rest;
      assert |base| >= 2;
      var q := base[..|base| - 1];
      assert Parent(base) == Some(q);
      ResolveClimbs(q, n - 1, rest);
      assert q[..|q| - (n - 1)] == base[..|base| - n];
    }
  }

  lemma CommonOfAbsolute(self: Path, to: Path)
    requires IsAbsolute(self) && IsAbsolute(to)
    ensures CommonLength(self, to) >= 1
  {
  }

  /** Resolving the corrected result against `self` leads to `to`, for
      absolute paths whose components hold no `.` or `..`. */
  lemma CorrectedResolves(self: Path, to: Path)
    requires IsAbsolute(self) && IsAbsolute(to) && Plain(to)
    ensures Resolve(self, CorrectedRelative(self, to)) == to
  {
    var k := CommonLength(self, to);
    CorrectedShape(self, to);
    var tail := to[k..];
    PlainSuffix(to, k);
    var rest: Path := (if k == |self| then [CUR_DIR] else []) + tail;
    ResolveClimbs(self, |self| - k, rest);
    if k == |self| {
      ResolveSkipsDot(to[..k], tail);
    } else {
      assert rest == tail;
    }
    ResolveDescends(to[..k], tail);
    Rejoin(to, k);
  }

  lemma CorrectedShape(self: Path, to: Path)
    requires IsAbsolute(self) && IsAbsolute(to)
    ensures var k := CommonLength(self, to);
      1 <= k && self[..|self| - (|self| - k)] == to[..k] &&
      CorrectedRelative(self, to) == Dots(|self| - k) + ((if k == |self| then [CUR_DIR] else []) + to[k..])
  {
    CommonOfAbsolute(self, to);
  }

  lemma PlainSuffix(p: Path, k: nat)
    requires Plain(p) && k <= |p|
    ensures Plain(p[k..])
  {
    assert forall x | x in p[k..] :: x in p;
  }

  lemma ResolveSkipsDot(base: Path, rel: Path)
    ensures Resolve(base, [CUR_DIR] + rel) == Resolve(base, rel)
  {
    assert ([CUR_DIR] + rel)[1..] == rel;
  }

  lemma Rejoin<T>(s: seq<T>, k: nat)
    requires k <= |s|
    ensures s[..k] + s[k..] == s
  {
  }

  /** On the re-synchronising input the corrected path leads to `to`. */
  lemma CorrectedResync()
    ensures CorrectedRelative(["/", "a", "x", "c"], ["/", "x", "c"]) == ["..", "..", "..", "x", "c"]
    ensures Resolve(["/", "a", "x", "c"], ["..", "..", "..", "x", "c"]) == ["/", "x", "c"]
  {
    var self: Path, to: Path := ["/", "a", "x", "c"], ["/", "x", "c"];
    assert "a"[0] != "x"[0];
    assert CommonLength(self, to) == 1;
    assert to[1..] == ["x", "c"];
    assert Plain(to) by {
      assert "x"[0] != '.' && "c"[0] != '.';
    }
    CorrectedResolves(self, to);
  }
}
