/**
 * The path helpers of the output plugin on POSIX: `abspath` (a `normpath` of
 * the working directory joined with the path), `dirname`, `basename`, and the
 * module's own `relpath`, which wraps `os.path.relpath` and forces `/`.
 *
 * An absolute, normalised path is the sequence of its segments: `/a/b` is
 * `["a", "b"]` and the root `/` is `[]`.  The working directory is always
 * passed explicitly.
 */
module Paths {

  type Path = seq<string>

  /** A segment that survives `normpath`. */
  predicate ValidSegment(seg: string)
  {
    seg != [] && seg != "." && seg != ".." && '/' !in seg
  }

  predicate ValidPath(p: Path)
  {
    forall k :: 0 <= k < |p| ==> ValidSegment(p[k])
  }

  predicate NoSlash(parts: seq<string>)
  {
    forall k :: 0 <= k < |parts| ==> '/' !in parts[k]
  }

  /** `'/'.join(parts)` */
  function Join(parts: seq<string>): string
  {
    if |parts| == 0 then []
    else if |parts| == 1 then parts[0]
    else parts[0] + "/" + Join(parts[1..])
  }

  /** `s.split('/')`: the pieces between slashes, so that joining them gives `s` back. */
  function Split(s: string): (parts: seq<string>)
    ensures |parts| >= 1 && NoSlash(parts)
    ensures Join(parts) == s
  {
    if s == [] then [[]]
    else
      var rest := Split(s[1..]);
      if s[0] == '/' then [[]] + rest
      else
        assert Join(rest) == s[1..];
        [[s[0]] + rest[0]] + rest[1..]
  }

  /** Splitting a join of slash-free pieces gives the pieces back. */
  lemma {:induction false} SplitJoin(parts: seq<string>)
    requires |parts| >= 1 && NoSlash(parts)
    ensures Split(Join(parts)) == parts
  {
    if |parts| == 1 {
      SplitWithoutSlash(parts[0]);
    } else {
      SplitJoin(parts[1..]);
      SplitAfterPiece(parts[0], Join(parts[1..]));
    }
  }

  lemma {:induction false} SplitWithoutSlash(s: string)
    requires '/' !in s
    ensures Split(s) == [s]
  {
    if s != [] {
      SplitWithoutSlash(s[1..]);
    }
  }

  lemma {:induction false} SplitAfterPiece(a: string, b: string)
    requires '/' !in a
    ensures Split(a + "/" + b) == [a] + Split(b)
  {
    if a == [] {
      assert (a + "/" + b)[1..] == b;
    } else {
      assert (a + "/" + b)[1..] == a[1..] + "/" + b;
      assert (a + "/" + b)[0] == a[0] && a[0] != '/';
      SplitAfterPiece(a[1..], b);
      assert [a[0]] + a[1..] == a;
    }
  }

  /** One step of `normpath`: skip empty and `.` segments, let `..` drop the last segment (never above the root). */
  function Step(base: Path, part: string): Path
  {
    if part == [] || part == "." then base
    else if part == ".." then (if base == [] then [] else base[..|base| - 1])
    else base + [part]
  }

  /** `normpath` of the absolute path `base` followed by `parts`. */
  function Normalize(base: Path, parts: seq<string>): (p: Path)
    requires ValidPath(base) && NoSlash(parts)
    ensures ValidPath(p)
    decreases |parts|
  {
    if parts == [] then base
    else Normalize(Step(base, parts[0]), parts[1..])
  }

  /** `os.path.abspath(p)` with working directory `cwd`. */
  function AbsPath(cwd: Path, p: string): (r: Path)
    requires ValidPath(cwd)
    ensures ValidPath(r)
  {
    Normalize(if |p| > 0 && p[0] == '/' then [] else cwd, Split(p))
  }

  /** The string form of an absolute path: `/a/b`, or `/` for the root. */
  function PathString(p: Path): string
  {
    "/" + Join(p)
  }

  function DirName(p: Path): Path
  {
    if p == [] then [] else p[..|p| - 1]
  }

  function BaseName(p: Path): string
  {
    if p == [] then [] else p[|p| - 1]
  }

  lemma {:induction false} NormalizeAppend(base: Path, a: seq<string>, b: seq<string>)
    requires ValidPath(base) && NoSlash(a) && NoSlash(b)
    ensures NoSlash(a + b) && Normalize(base, a + b) == Normalize(Normalize(base, a), b)
    decreases |a|
  {
    assert NoSlash(a + b);
    if a != [] {
      assert (a + b)[0] == a[0];
      assert (a + b)[1..] == a[1..] + b;
      NormalizeAppend(Step(base, a[0]), a[1..], b);
      assert Normalize(base, a + b) == Normalize(Step(base, a[0]), a[1..] + b);
      assert Normalize(base, a) == Normalize(Step(base, a[0]), a[1..]);
    } else {
      assert a + b == b;
    }
  }

  /** Normalising already valid segments only appends them. */
  lemma {:induction false} NormalizeValid(base: Path, parts: seq<string>)
    requires ValidPath(base) && ValidPath(parts)
    ensures NoSlash(parts) && Normalize(base, parts) == base + parts
    decreases |parts|
  {
    if parts != [] {
      NormalizeValid(base + [parts[0]], parts[1..]);
      assert base + [parts[0]] + parts[1..] == base + parts;
    }
  }

  function Parents(n: nat): (r: seq<string>)
    ensures |r| == n && NoSlash(r)
    ensures forall k :: 0 <= k < n ==> r[k] == ".."
  {
    if n == 0 then [] else [".."] + Parents(n - 1)
  }

  /** Each `..` drops one trailing segment. */
  lemma {:induction false} NormalizeParents(base: Path, n: nat)
    requires ValidPath(base) && n <= |base|
    ensures Normalize(base, Parents(n)) == base[..|base| - n]
  {
    if n > 0 {
      var ups := Parents(n);
      assert ups[0] == ".." && ups[1..] == Parents(n - 1);
      assert Step(base, "..") == base[..|base| - 1];
      assert Normalize(base, ups) == Normalize(base[..|base| - 1], Parents(n - 1));
      NormalizeParents(base[..|base| - 1], n - 1);
      assert base[..|base| - 1][..|base| - 1 - (n - 1)] == base[..|base| - n];
    }
  }

  /** `abspath` leaves the string form of an absolute normalised path as it is. */
  lemma AbsPathOfPathString(cwd: Path, p: Path)
    requires ValidPath(cwd) && ValidPath(p)
    ensures AbsPath(cwd, PathString(p)) == p
  {
    var s := PathString(p);
    assert s[0] == '/';
    assert s == [] + "/" + Join(p);
    SplitAfterPiece([], Join(p));
    assert NoSlash(p);
    if p == [] {
      assert Split(s) == [[], []];
      assert Normalize([], [[], []]) == Normalize([], [[]]) == Normalize([], []) == [];
    } else {
      SplitJoin(p);
      NormalizeValid([], p);
      assert Split(s) == [[]] + p;
      assert Normalize([], [[]] + p) == Normalize([], p);
    }
  }

  /** Length of the longest common prefix of two paths (`os.path.commonprefix` on their segments). */
  function CommonPrefixLength(a: Path, b: Path): (n: nat)
    ensures n <= |a| && n <= |b| && a[..n] == b[..n]
    ensures n < |a| && n < |b| ==> a[n] != b[n]
  {
    if a == [] || b == [] || a[0] != b[0] then 0
    else
      var m := CommonPrefixLength(a[1..], b[1..]);
      assert a[..m + 1] == [a[0]] + a[1..][..m];
      assert b[..m + 1] == [b[0]] + b[1..][..m];
      m + 1
  }

  /** The segments `relpath` joins: one `..` for each segment of `start` past the common prefix, then the rest of `target`. */
  function RelSegments(target: Path, start: Path): seq<string>
  {
    var n := CommonPrefixLength(target, start);
    Parents(|start| - n) + target[n..]
  }

  lemma JoinHead(parts: seq<string>)
    requires |parts| >= 1
    ensures |Join(parts)| >= |parts[0]| && Join(parts)[..|parts[0]|] == parts[0]
    ensures |parts| >= 2 ==> |Join(parts)| > |parts[0]|
  {
  }

  /**
   * The module's `relpath(target, start)` on POSIX: `os.path.relpath` already
   * joins with `/`, so the replacement of `os.sep` by `/` changes nothing.
   */
  function RelPath(target: Path, start: Path): (r: string)
    requires ValidPath(target) && ValidPath(start)
    ensures |r| > 0 && r[0] != '/'
    ensures r == "." <==> target == start
  {
    var n := CommonPrefixLength(target, start);
    var segs := RelSegments(target, start);
    if segs == [] then
      assert target == target[..n] == start[..n] == start;
      "."
    else
      JoinHead(segs);
      assert segs[0] == ".." || segs[0] == target[n];
      assert Join(segs) != "." by {
        if |segs| == 1 { assert segs[0] != "."; }
        else { assert |Join(segs)| > |segs[0]| >= 1; }
      }
      Join(segs)
  }

  /** The common prefix of a path and one of its prefixes is that prefix. */
  lemma {:induction false} CommonPrefixOfPrefix(a: Path, b: Path)
    requires |b| <= |a| && a[..|b|] == b
    ensures CommonPrefixLength(a, b) == |b|
  {
    if b != [] {
      assert a[0] == b[0];
      assert a[1..][..|b| - 1] == b[1..];
      CommonPrefixOfPrefix(a[1..], b[1..]);
    }
  }

  lemma RelPathIsJoin(target: Path, start: Path)
    requires ValidPath(target) && ValidPath(start)
    ensures RelSegments(target, start) == [] ==> RelPath(target, start) == "." && target == start
    ensures RelSegments(target, start) != [] ==> RelPath(target, start) == Join(RelSegments(target, start))
  {
  }

  lemma PrefixThenRest<T>(a: seq<T>, b: seq<T>, n: nat)
    requires n <= |a| && n <= |b| && a[..n] == b[..n]
    ensures a[..n] + b[n..] == b
  {
    assert b[..n] + b[n..] == b;
  }

  /** `abspath` of slash-free segments joined with `/`, the first one nonempty, normalises them against the working directory. */
  lemma AbsPathOfJoin(cwd: Path, segs: seq<string>)
    requires ValidPath(cwd) && |segs| >= 1 && NoSlash(segs) && segs[0] != []
    ensures AbsPath(cwd, Join(segs)) == Normalize(cwd, segs)
  {
    JoinHead(segs);
    assert Join(segs)[0] == Join(segs)[..|segs[0]|][0] == segs[0][0];
    assert segs[0][0] in segs[0];
    SplitJoin(segs);
  }

  /** Going up to the first `n` segments of `start`, then down along valid segments. */
  lemma NormalizeUpThenDown(start: Path, n: nat, rest: Path)
    requires ValidPath(start) && n <= |start| && ValidPath(rest)
    ensures NoSlash(Parents(|start| - n) + rest)
    ensures Normalize(start, Parents(|start| - n) + rest) == start[..n] + rest
  {
    var ups := Parents(|start| - n);
    assert NoSlash(rest);
    NormalizeAppend(start, ups, rest);
    NormalizeParents(start, |start| - n);
    assert start[..|start| - (|start| - n)] == start[..n];
    NormalizeValid(start[..n], rest);
  }

  /** Resolving the relative path against its start directory gives the target back. */
  lemma RelPathResolves(target: Path, start: Path)
    requires ValidPath(target) && ValidPath(start)
    ensures AbsPath(start, RelPath(target, start)) == target
  {
    var n := CommonPrefixLength(target, start);
    RelPathIsJoin(target, start);
    var segs := RelSegments(target, start);
    if segs == [] {
      SplitWithoutSlash(".");
      assert Normalize(start, ["."]) == Normalize(start, []);
    } else {
      NormalizeUpThenDown(start, n, target[n..]);
      assert segs[0] == ".." || segs[0] == target[n];
      AbsPathOfJoin(start, segs);
      PrefixThenRest(start, target, n);
    }
  }

  /** A path relative to its own directory is its base name. */
  lemma RelPathToOwnDirectory(f: Path)
    requires ValidPath(f) && f != []
    ensures RelPath(f, DirName(f)) == BaseName(f)
  {
    CommonPrefixOfPrefix(f, DirName(f));
    assert RelSegments(f, DirName(f)) == [f[|f| - 1]];
  }

  /** A path below `base` is reached from `base` by joining the segments that follow it. */
  lemma RelPathToDescendant(base: Path, segs: Path)
    requires ValidPath(base) && ValidPath(segs) && segs != []
    ensures ValidPath(base + segs) && RelPath(base + segs, base) == Join(segs)
  {
    var t := base + segs;
    assert t[..|base|] == base;
    CommonPrefixOfPrefix(t, base);
    assert t[|base|..] == segs;
    assert RelSegments(t, base) == segs;
    RelPathIsJoin(t, base);
  }

  /** `abspath` of a single plain segment puts it under the working directory. */
  lemma AbsPathOfSegment(cwd: Path, seg: string)
    requires ValidPath(cwd) && ValidSegment(seg)
    ensures AbsPath(cwd, seg) == cwd + [seg]
  {
    SplitWithoutSlash(seg);
    assert seg[0] in seg;
    NormalizeValid(cwd, [seg]);
  }

  lemma JoinThen(parts: seq<string>, h: string)
    requires |parts| >= 2
    ensures Join(parts) + "/" + h == parts[0] + "/" + (Join(parts[1..]) + "/" + h)
  {
  }

  lemma ConsAppend<T>(a: seq<T>, b: seq<T>)
    requires |a| >= 1
    ensures [a[0]] + (a[1..] + b) == a + b
  {
  }

  /** Splitting a join of pieces, a slash and more text. */
  lemma {:induction false} SplitJoinThen(parts: seq<string>, h: string)
    requires |parts| >= 1 && NoSlash(parts)
    ensures Split(Join(parts) + "/" + h) == parts + Split(h)
    decreases |parts|
  {
    if |parts| == 1 {
      SplitAfterPiece(parts[0], h);
    } else {
      var rest := Join(parts[1..]);
      JoinThen(parts, h);
      SplitAfterPiece(parts[0], rest + "/" + h);
      SplitJoinThen(parts[1..], h);
      ConsAppend(parts, Split(h));
    }
  }

  lemma PathStringThen(dir: Path, h: string)
    ensures dir == [] ==> PathString(dir) + "/" + h == [] + "/" + ([] + "/" + h)
    ensures dir != [] ==> PathString(dir) + "/" + h == [] + "/" + (Join(dir) + "/" + h)
  {
  }

  lemma SplitPathStringThen(dir: Path, h: string)
    requires ValidPath(dir)
    ensures Split(PathString(dir) + "/" + h) == [[]] + ((if dir == [] then [[]] else dir) + Split(h))
  {
    PathStringThen(dir, h);
    assert NoSlash(dir);
    if dir == [] {
      SplitAfterPiece([], [] + "/" + h);
      SplitAfterPiece([], h);
    } else {
      SplitAfterPiece([], Join(dir) + "/" + h);
      SplitJoinThen(dir, h);
    }
  }

  /**
   * `abspath(dir + '/' + h)` for an absolute directory: the relative
   * reference `h` resolved against `dir`, whatever `h` holds.
   */
  lemma AbsPathUnder(cwd: Path, dir: Path, h: string)
    requires ValidPath(cwd) && ValidPath(dir)
    ensures NoSlash(Split(h))
    ensures AbsPath(cwd, PathString(dir) + "/" + h) == Normalize(dir, Split(h))
  {
    var s := PathString(dir) + "/" + h;
    assert s[0] == '/';
    SplitPathStringThen(dir, h);
    var mid: seq<string> := if dir == [] then [[]] else dir;
    var rest := Split(h);
    assert NoSlash(mid);
    assert AbsPath(cwd, s) == Normalize([], [[]] + (mid + rest));
    NormalizeAppend([], [[]], mid + rest);
    assert Normalize([], [[]]) == [];
    NormalizeAppend([], mid, rest);
    if dir != [] {
      NormalizeValid([], dir);
      assert [] + dir == dir;
    } else {
      assert Normalize([], mid) == [];
    }
  }
}
