/**
  The lexical POSIX path arithmetic of Node's `path` module as the server
  uses it: `String.prototype.split("/")`, `Array.prototype.join("/")`,
  `path.posix.join`, `path.posix.normalize`, `path.resolve` of an absolute
  path and `path.posix.dirname`. Nothing here looks at the filesystem:
  symbolic links are never followed.

  Node's `normalizeString` walks the characters of a path; it is modelled
  by the equivalent walk over the path's `/`-separated segments.
*/
module PosixPath {

  predicate StartsWith(s: string, prefix: string) {
    |prefix| <= |s| && s[..|prefix|] == prefix
  }

  predicate IsAbsolute(p: string) {
    |p| > 0 && p[0] == '/'
  }

  /** `s.split("/")`: never empty; `""` splits into `[""]`. */
  function Split(s: string): (r: seq<string>)
    ensures |r| >= 1
  {
    if s == [] then [""]
    else if s[|s| - 1] == '/' then Split(s[..|s| - 1]) + [""]
    else AppendToLast(Split(s[..|s| - 1]), s[|s| - 1])
  }

  /** A character read while splitting extends the last piece. */
  function AppendToLast(pieces: seq<string>, c: char): (r: seq<string>)
    requires |pieces| >= 1
    ensures |r| == |pieces|
  {
    pieces[..|pieces| - 1] + [pieces[|pieces| - 1] + [c]]
  }

  /** `segs.join("/")`. */
  function Join(segs: seq<string>): string {
    if |segs| == 0 then ""
    else if |segs| == 1 then segs[0]
    else Join(segs[..|segs| - 1]) + "/" + segs[|segs| - 1]
  }

  /** A segment that survives normalisation unchanged and cannot climb: not empty, not `.`, not `..`, no `/`. */
  predicate Clean(seg: string) {
    seg != "" && seg != "." && seg != ".." && '/' !in seg
  }

  predicate AllClean(segs: seq<string>) {
    forall i :: 0 <= i < |segs| ==> Clean(segs[i])
  }

  /** One segment of `normalizeString`: empty and `.` vanish, `..` drops the previous segment or, when allowed, is kept. */
  function Step(stack: seq<string>, seg: string, allowAboveRoot: bool): seq<string> {
    if seg == "" || seg == "." then stack
    else if seg == ".." then
      if |stack| > 0 && stack[|stack| - 1] != ".." then stack[..|stack| - 1]
      else if allowAboveRoot then stack + [".."]
      else stack
    else stack + [seg]
  }

  function NormalizeSegments(segs: seq<string>, allowAboveRoot: bool): seq<string> {
    if segs == [] then []
    else Step(NormalizeSegments(segs[..|segs| - 1], allowAboveRoot), segs[|segs| - 1], allowAboveRoot)
  }

  /** `path.posix.normalize`: never empty, and it keeps a leading and a trailing `/`. */
  function Normalize(p: string): (r: string)
    ensures r != []
    ensures IsAbsolute(p) ==> IsAbsolute(r)
    ensures p != [] && p[|p| - 1] == '/' ==> r[|r| - 1] == '/'
  {
    if p == [] then "."
    else
      var absolute := p[0] == '/';
      var trailing := p[|p| - 1] == '/';
      var body := Join(NormalizeSegments(Split(p), !absolute));
      if body == [] then (if absolute then "/" else if trailing then "./" else ".")
      else
        var b := if trailing then body + "/" else body;
        if absolute then "/" + b else b
  }

  function NonEmpty(args: seq<string>): seq<string> {
    if args == [] then []
    else NonEmpty(args[..|args| - 1]) + (if args[|args| - 1] == [] then [] else [args[|args| - 1]])
  }

  /** `path.posix.join(...args)`: the non-empty arguments joined by `/`, then normalised (`"."` when none). */
  function PathJoin(args: seq<string>): (r: string)
    ensures r != []
    ensures NonEmpty(args) == [] ==> r == "."
  {
    Normalize(Join(NonEmpty(args)))
  }

  /** `path.resolve(p)` for an absolute `p`: normalised, no trailing `/` except for the root itself. */
  function Resolve(p: string): (r: string)
    requires IsAbsolute(p)
    ensures IsAbsolute(r)
  {
    "/" + Join(NormalizeSegments(Split(p + "/"), false))
  }

  /** The segments an absolute path names once `.`, `..` and empty segments are resolved away. */
  function Segments(p: string): seq<string> {
    NormalizeSegments(Split(p), false)
  }

  /** No piece of a split holds the separator. */
  lemma {:induction false} SplitHasNoSlash(s: string)
    ensures forall i :: 0 <= i < |Split(s)| ==> '/' !in Split(s)[i]
    decreases |s|
  {
    if s != [] {
      SplitHasNoSlash(s[..|s| - 1]);
    }
  }

  lemma SplitSnoc(s: string, c: char)
    ensures Split(s + [c]) == if c == '/' then Split(s) + [""] else AppendToLast(Split(s), c)
  {
    assert (s + [c])[..|s|] == s;
  }

  lemma AppendToLastShared(front: seq<string>, q: seq<string>, c: char)
    requires |q| >= 1
    ensures AppendToLast(front + q, c) == front + AppendToLast(q, c)
  {
    var p := front + q;
    assert p[..|p| - 1] == front + q[..|q| - 1];
  }

  /** Appending a character to two strings whose splits share a tail keeps them sharing it. */
  lemma SplitSnocShared(w: string, y: string, front: seq<string>, c: char)
    requires Split(w) == front + Split(y)
    ensures Split(w + [c]) == front + Split(y + [c])
  {
    SplitSnoc(w, c);
    SplitSnoc(y, c);
    if c != '/' {
      AppendToLastShared(front, Split(y), c);
    }
  }

  lemma {:induction false} SplitConcat(x: string, y: string)
    ensures Split(x + "/" + y) == Split(x) + Split(y)
    decreases |y|
  {
    if y == [] {
      SplitSnoc(x, '/');
      assert x + "/" + y == x + ['/'];
    } else {
      var y', c := y[..|y| - 1], y[|y| - 1];
      assert y == y' + [c];
      SplitConcat(x, y');
      assert x + "/" + y == (x + "/" + y') + [c];
      SplitSnocShared(x + "/" + y', y', Split(x), c);
    }
  }

  lemma {:induction false} SplitNoSlash(t: string)
    requires '/' !in t
    ensures Split(t) == [t]
    decreases |t|
  {
    if t != [] {
      var t', c := t[..|t| - 1], t[|t| - 1];
      assert t' + [c] == t;
      SplitNoSlash(t');
      SplitSnoc(t', c);
      assert AppendToLast([t'], c) == [t' + [c]];
    }
  }

  /** Splitting undoes joining, for segments without `/`. */
  lemma {:induction false} SplitJoin(segs: seq<string>)
    requires |segs| >= 1
    requires forall i :: 0 <= i < |segs| ==> '/' !in segs[i]
    ensures Split(Join(segs)) == segs
    decreases |segs|
  {
    if |segs| == 1 {
      SplitNoSlash(segs[0]);
    } else {
      var init, last := segs[..|segs| - 1], segs[|segs| - 1];
      assert Join(segs) == Join(init) + "/" + last;
      assert forall i :: 0 <= i < |init| ==> '/' !in init[i] by {
        forall i | 0 <= i < |init| ensures '/' !in init[i] {
          assert init[i] == segs[i];
        }
      }
      SplitJoin(init);
      SplitConcat(Join(init), last);
      SplitNoSlash(last);
      assert init + [last] == segs;
    }
  }

  lemma {:induction false} JoinConcat(a: seq<string>, b: seq<string>)
    requires |a| >= 1 && |b| >= 1
    ensures Join(a + b) == Join(a) + "/" + Join(b)
    decreases |b|
  {
    var ab := a + b;
    if |b| == 1 {
      assert ab[..|ab| - 1] == a;
    } else {
      assert ab[..|ab| - 1] == a + b[..|b| - 1];
      JoinConcat(a, b[..|b| - 1]);
    }
  }

  lemma {:induction false} JoinCleanNonEmpty(segs: seq<string>)
    requires AllClean(segs) && segs != []
    ensures Join(segs) != []
    decreases |segs|
  {
    if |segs| > 1 {
      JoinCleanNonEmpty(segs[..|segs| - 1]);
    }
  }

  /** Clean segments pass through normalisation unchanged, whatever came before them. */
  lemma {:induction false} NormalizeClean(a: seq<string>, b: seq<string>, allowAboveRoot: bool)
    requires AllClean(b)
    ensures NormalizeSegments(a + b, allowAboveRoot) == NormalizeSegments(a, allowAboveRoot) + b
    decreases |b|
  {
    if b != [] {
      var ab := a + b;
      assert ab[..|ab| - 1] == a + b[..|b| - 1];
      var b', last := b[..|b| - 1], b[|b| - 1];
      assert Clean(last);
      assert ab[|ab| - 1] == last;
      NormalizeClean(a, b', allowAboveRoot);
      assert NormalizeSegments(ab, allowAboveRoot) == Step(NormalizeSegments(a, allowAboveRoot) + b', last, allowAboveRoot);
      assert b' + [last] == b;
    } else {
      assert a + b == a;
    }
  }

  /** With ascent above the root forbidden, normalisation leaves only clean segments. */
  lemma {:induction false} NormalizedAreClean(segs: seq<string>)
    requires forall i :: 0 <= i < |segs| ==> '/' !in segs[i]
    ensures AllClean(NormalizeSegments(segs, false))
    decreases |segs|
  {
    if segs != [] {
      NormalizedAreClean(segs[..|segs| - 1]);
    }
  }

  lemma SplitRooted(y: string)
    ensures Split("/" + y) == [""] + Split(y)
  {
    SplitConcat("", y);
    assert "" + "/" + y == "/" + y;
  }

  lemma TrailingSlashSegments(p: string)
    ensures NormalizeSegments(Split(p + "/"), false) == Segments(p)
  {
    SplitConcat(p, "");
    assert p + "/" + "" == p + "/";
    var segs := Split(p) + [""];
    assert segs[..|segs| - 1] == Split(p);
  }

  /** `path.resolve` of an absolute path is `/` followed by its resolved segments. */
  lemma ResolveSegments(p: string)
    requires IsAbsolute(p)
    ensures Resolve(p) == "/" + Join(Segments(p))
  {
    TrailingSlashSegments(p);
  }

  lemma RootSegments()
    ensures Segments("/") == []
  {
    SplitRooted("");
    assert Split("/") == ["", ""];
    assert ["", ""][..1] == [""];
    assert NormalizeSegments([""], false) == [];
  }

  /** `/` followed by clean segments, with or without a trailing `/`, names exactly those segments. */
  lemma RootedJoinSegments(segs: seq<string>)
    requires AllClean(segs) && segs != []
    ensures Segments("/" + Join(segs)) == segs
    ensures Segments("/" + Join(segs) + "/") == segs
  {
    var body := "/" + Join(segs);
    SplitRooted(Join(segs));
    SplitJoin(segs);
    NormalizeClean([""], segs, false);
    assert Segments(body) == segs;
    TrailingSlashSegments(body);
  }

  /** What `path.posix.normalize` returns for an absolute path. */
  lemma NormalizeAbsoluteShape(p: string)
    requires IsAbsolute(p)
    ensures var segs := Segments(p);
      Normalize(p) == if segs == [] then "/"
        else if p[|p| - 1] == '/' then "/" + Join(segs) + "/" else "/" + Join(segs)
  {
    var segs := Segments(p);
    if segs != [] {
      SplitHasNoSlash(p);
      NormalizedAreClean(Split(p));
      JoinCleanNonEmpty(segs);
    }
  }

  /** Normalising an absolute path keeps it absolute and keeps the segments it names. */
  lemma NormalizeAbsolute(p: string)
    requires IsAbsolute(p)
    ensures IsAbsolute(Normalize(p)) && Segments(Normalize(p)) == Segments(p)
  {
    var segs := Segments(p);
    NormalizeAbsoluteShape(p);
    if segs == [] {
      RootSegments();
    } else {
      SplitHasNoSlash(p);
      NormalizedAreClean(Split(p));
      RootedJoinSegments(segs);
    }
  }

  lemma {:induction false} NonEmptyAll(args: seq<string>)
    requires forall i :: 0 <= i < |args| ==> args[i] != []
    ensures NonEmpty(args) == args
    decreases |args|
  {
    if args != [] {
      NonEmptyAll(args[..|args| - 1]);
    }
  }

  /** `path.join(a, ...segs)` with an absolute `a` and clean `segs` names the segments of `a` followed by `segs`. */
  lemma JoinOnto(a: string, segs: seq<string>)
    requires IsAbsolute(a) && AllClean(segs)
    ensures IsAbsolute(PathJoin([a] + segs))
    ensures Segments(PathJoin([a] + segs)) == Segments(a) + segs
  {
    NonEmptyAll([a] + segs);
    var j := Join([a] + segs);
    if segs == [] {
      assert j == a;
    } else {
      JoinConcat([a], segs);
      assert j == a + "/" + Join(segs);
      SplitConcat(a, Join(segs));
      SplitJoin(segs);
      NormalizeClean(Split(a), segs, false);
      assert IsAbsolute(j) && Segments(j) == Segments(a) + segs;
    }
    NormalizeAbsolute(j);
  }

  /** `path.join(a, b)` with an absolute `a`: the segments of `a` and then those of `b`, normalised together. */
  lemma JoinTwo(a: string, b: string)
    requires IsAbsolute(a)
    ensures IsAbsolute(PathJoin([a, b]))
    ensures Segments(PathJoin([a, b])) == NormalizeSegments(Split(a) + Split(b), false)
  {
    var j := Join(NonEmpty([a, b]));
    assert [a, b][..1] == [a];
    assert NonEmpty([a]) == [a];
    if b == [] {
      assert j == a;
      var segs := Split(a) + [""];
      assert segs[..|segs| - 1] == Split(a);
    } else {
      assert NonEmpty([a, b]) == [a, b];
      assert Join([a]) == a;
      assert Join([a, b]) == Join([a, b][..1]) + "/" + b;
      assert j == a + "/" + b;
      SplitConcat(a, b);
    }
    NormalizeAbsolute(j);
  }

  /** The scan of `path.posix.dirname`: from index `i` down to 1, the first `/` seen after a non-`/`; -1 when none. */
  function DirnameEnd(p: string, i: int, matchedSlash: bool): (e: int)
    requires i < |p|
    ensures e == -1 || 1 <= e <= i
    decreases i
  {
    if i < 1 then -1
    else if p[i] == '/' then (if !matchedSlash then i else DirnameEnd(p, i - 1, true))
    else DirnameEnd(p, i - 1, false)
  }

  /** `path.posix.dirname`: never empty, never longer than a non-empty path, and absolute for an absolute path. */
  function Dirname(p: string): (r: string)
    ensures r != []
    ensures p != [] ==> |r| <= |p|
    ensures IsAbsolute(p) ==> IsAbsolute(r)
  {
    if p == [] then "."
    else
      var hasRoot := p[0] == '/';
      var end := DirnameEnd(p, |p| - 1, true);
      if end == -1 then (if hasRoot then "/" else ".")
      else if hasRoot && end == 1 then "//"
      else p[..end]
  }

  lemma {:induction false} DirnameSkipSegment(p: string, i: int, lo: int, matchedSlash: bool)
    requires 1 <= lo <= i < |p|
    requires forall k :: lo <= k <= i ==> p[k] != '/'
    ensures DirnameEnd(p, i, matchedSlash) == DirnameEnd(p, lo - 1, false)
    decreases i
  {
    if i > lo {
      DirnameSkipSegment(p, i - 1, lo, false);
    }
  }

  /** Removing the last clean segment of a rooted path. */
  lemma DirnameAppend(q: string, last: string)
    requires Clean(last)
    requires q == [] || (|q| >= 2 && q[0] == '/')
    ensures Dirname(q + "/" + last) == if q == [] then "/" else q
  {
    var p := q + "/" + last;
    var lo := |q| + 1;
    assert p[lo..] == last;
    forall k | lo <= k <= |p| - 1 ensures p[k] != '/' {
      assert p[k] == last[k - lo];
    }
    DirnameSkipSegment(p, |p| - 1, lo, true);
    assert p[|q|] == '/';
    if q != [] {
      assert p[..|q|] == q;
    }
  }

  lemma DirnameOfLonger(init: seq<string>, last: string)
    requires AllClean(init) && init != [] && Clean(last)
    ensures Dirname("/" + Join(init) + "/" + last) == "/" + Join(init)
  {
    JoinCleanNonEmpty(init);
    DirnameAppend("/" + Join(init), last);
  }

  lemma DirnameOfSingle(last: string)
    requires Clean(last)
    ensures Dirname("/" + last) == "/"
  {
    DirnameAppend([], last);
    assert [] + "/" + last == "/" + last;
  }

  lemma ConcatAssoc(a: string, b: string, c: string)
    ensures a + (b + "/" + c) == a + b + "/" + c
  {
  }

  lemma DirnameOfDeep(segs: seq<string>)
    requires AllClean(segs) && |segs| >= 2
    ensures Dirname("/" + Join(segs)) == "/" + Join(segs[..|segs| - 1])
  {
    var init, last := segs[..|segs| - 1], segs[|segs| - 1];
    var j := Join(init);
    assert Join(segs) == j + "/" + last;
    ConcatAssoc("/", j, last);
    DirnameOfLonger(init, last);
  }

  /** The parent of `/s1/.../sn` is `/s1/.../s(n-1)`, and `/` when n is 1. */
  lemma DirnameOfRooted(segs: seq<string>)
    requires AllClean(segs) && segs != []
    ensures Dirname("/" + Join(segs)) == "/" + Join(segs[..|segs| - 1])
  {
    if |segs| == 1 {
      assert Join(segs) == segs[0];
      assert segs[..0] == [];
      DirnameOfSingle(segs[0]);
    } else {
      DirnameOfDeep(segs);
    }
  }

  /** `p` is `dir` itself or lies below it, the boundary falling between two segments. */
  predicate Inside(p: string, dir: string) {
    p == dir || StartsWith(p, if dir == "/" then "/" else dir + "/")
  }

  /** The resolved form of an absolute path whose segments are a prefix plus more lies inside the prefix's. */
  lemma InsideRooted(a: seq<string>, b: seq<string>)
    requires AllClean(a)
    ensures Inside("/" + Join(a + b), "/" + Join(a))
  {
    if a == [] {
      assert a + b == b;
    } else if b != [] {
      JoinConcat(a, b);
      assert "/" + Join(a + b) == ("/" + Join(a) + "/") + Join(b);
    } else {
      assert a + b == a;
    }
  }

  lemma StartsWithTransitive(s: string, mid: string, prefix: string)
    requires StartsWith(s, mid) && StartsWith(mid, prefix)
    ensures StartsWith(s, prefix)
  {
    assert s[..|prefix|] == s[..|mid|][..|prefix|];
  }

  lemma InsideStartsWith(p: string, dir: string)
    requires Inside(p, dir)
    ensures StartsWith(p, dir)
  {
    if p != dir && dir != "/" {
      assert p[..|dir|] == (dir + "/")[..|dir|] == dir;
    }
  }

  /** The segments of an absolute path are clean. */
  lemma SegmentsClean(p: string)
    ensures AllClean(Segments(p))
  {
    SplitHasNoSlash(p);
    NormalizedAreClean(Split(p));
  }

  lemma JoinAppendToLast(pieces: seq<string>, c: char)
    requires |pieces| >= 1
    ensures Join(AppendToLast(pieces, c)) == Join(pieces) + [c]
  {
    var r := AppendToLast(pieces, c);
    if |pieces| > 1 {
      assert r[..|r| - 1] == pieces[..|pieces| - 1];
    }
  }

  /** Joining undoes splitting. */
  lemma {:induction false} JoinSplit(s: string)
    ensures Join(Split(s)) == s
    decreases |s|
  {
    if s != [] {
      var s', c := s[..|s| - 1], s[|s| - 1];
      assert s' + [c] == s;
      JoinSplit(s');
      SplitSnoc(s', c);
      if c == '/' {
        var p := Split(s') + [""];
        assert p[..|p| - 1] == Split(s');
      } else {
        JoinAppendToLast(Split(s'), c);
      }
    }
  }

  lemma JoinSnoc(segs: seq<string>, x: string)
    ensures Join(segs + [x]) == if segs == [] then x else Join(segs) + "/" + x
  {
    var r := segs + [x];
    assert r[..|r| - 1] == segs;
  }

  /** Normalisation carried on from an already normalised stack. */
  function NormalizeOnto(stack: seq<string>, segs: seq<string>, allowAboveRoot: bool): seq<string> {
    if segs == [] then stack
    else Step(NormalizeOnto(stack, segs[..|segs| - 1], allowAboveRoot), segs[|segs| - 1], allowAboveRoot)
  }

  lemma {:induction false} NormalizeConcat(a: seq<string>, b: seq<string>, allowAboveRoot: bool)
    ensures NormalizeSegments(a + b, allowAboveRoot) == NormalizeOnto(NormalizeSegments(a, allowAboveRoot), b, allowAboveRoot)
    decreases |b|
  {
    if b == [] {
      assert a + b == a;
    } else {
      var ab := a + b;
      assert ab[..|ab| - 1] == a + b[..|b| - 1];
      NormalizeConcat(a, b[..|b| - 1], allowAboveRoot);
    }
  }

  lemma CleanHasNoSlash(segs: seq<string>)
    requires AllClean(segs)
    ensures forall i :: 0 <= i < |segs| ==> '/' !in segs[i]
  {
    forall i | 0 <= i < |segs| ensures '/' !in segs[i] { assert Clean(segs[i]); }
  }

  /** Joining clean segments is injective. */
  lemma JoinInjective(a: seq<string>, b: seq<string>)
    requires AllClean(a) && AllClean(b) && b != [] && Join(a) == Join(b)
    ensures a == b
  {
    JoinCleanNonEmpty(b);
    CleanHasNoSlash(a);
    CleanHasNoSlash(b);
    SplitJoin(a);
    SplitJoin(b);
  }

  /** A join of clean segments that extends another past a separator extends its segments. */
  lemma JoinExtends(a: seq<string>, b: seq<string>, rest: string)
    requires AllClean(a) && AllClean(b) && b != [] && Join(a) == Join(b) + "/" + rest
    ensures |b| <= |a| && a[..|b|] == b
  {
    CleanHasNoSlash(a);
    CleanHasNoSlash(b);
    SplitJoin(a);
    SplitJoin(b);
    SplitConcat(Join(b), rest);
    assert a == b + Split(rest);
  }

  lemma DropLeadingSlash(x: string, y: string, rest: string)
    requires StartsWith("/" + x, "/" + y + "/") && rest == ("/" + x)[|y| + 2..]
    ensures x == y + "/" + rest
  {
    var p := "/" + x;
    assert p == p[..|y| + 2] + rest;
    assert p[..|y| + 2] == "/" + y + "/";
    assert p[1..] == x;
  }

  lemma InsideUnrooted(x: string, y: string)
    requires y != "" && Inside("/" + x, "/" + y)
    ensures x == y || (|y| + 1 <= |x| && x == y + "/" + x[|y| + 1..])
  {
    var p, dir := "/" + x, "/" + y;
    if p == dir {
      assert p[1..] == x && dir[1..] == y;
    } else {
      DropLeadingSlash(x, y, p[|dir| + 1..]);
      assert p[|dir| + 1..] == x[|y| + 1..];
    }
  }

  /** A resolved path inside another has the other's segments as a prefix. */
  lemma InsideHasPrefix(a: seq<string>, b: seq<string>)
    requires AllClean(a) && AllClean(b) && b != []
    requires Inside("/" + Join(a), "/" + Join(b))
    ensures |b| <= |a| && a[..|b|] == b
  {
    JoinCleanNonEmpty(b);
    var x, y := Join(a), Join(b);
    InsideUnrooted(x, y);
    if x == y {
      JoinInjective(a, b);
    } else {
      JoinExtends(a, b, x[|y| + 1..]);
    }
  }

  /** Between resolved paths, lying inside is exactly having the directory's segments as a prefix. */
  lemma InsideRootedIff(a: seq<string>, b: seq<string>)
    requires AllClean(a) && AllClean(b)
    ensures Inside("/" + Join(a), "/" + Join(b)) <==> |b| <= |a| && a[..|b|] == b
  {
    if |b| <= |a| && a[..|b|] == b {
      assert a == b + a[|b|..];
      InsideRooted(b, a[|b|..]);
    }
    if Inside("/" + Join(a), "/" + Join(b)) && b != [] {
      InsideHasPrefix(a, b);
    }
  }

  /** A single clean segment is its own normal form. */
  lemma NormalizePlain(name: string)
    requires Clean(name)
    ensures Normalize(name) == name
  {
    SplitNoSlash(name);
    assert [name][..0] == [];
    assert NormalizeSegments([name], true) == [name];
    assert Join([name]) == name;
  }

  lemma JoinTwoNonEmpty(a: string, b: string)
    requires a != "" && b != ""
    ensures Join(NonEmpty([a, b])) == a + "/" + b
  {
    NonEmptyAll([a, b]);
    JoinSnoc([a], b);
  }

  /** `path.join(a, name)` for an absolute `a` and one clean segment: `a`'s segments and then `name`, rooted. */
  lemma JoinName(a: string, name: string)
    requires IsAbsolute(a) && Clean(name)
    ensures Segments(a + "/" + name) == Segments(a) + [name]
    ensures PathJoin([a, name]) == "/" + Join(Segments(a) + [name])
  {
    JoinTwoNonEmpty(a, name);
    var p := a + "/" + name;
    SplitConcat(a, name);
    SplitNoSlash(name);
    NormalizeClean(Split(a), [name], false);
    NormalizeAbsoluteShape(p);
    assert p[|p| - 1] == name[|name| - 1];
  }

  /** Joining anything onto an absolute path gives an absolute path. */
  lemma JoinedAbsolute(a: string, b: string)
    requires IsAbsolute(a)
    ensures IsAbsolute(Join(NonEmpty([a, b])))
  {
    if b == "" {
      assert [a, b][..1] == [a];
      NonEmptyAll([a]);
      assert NonEmpty([a, b]) == [a];
    } else {
      JoinTwoNonEmpty(a, b);
    }
  }

  /** `path.join(a, b)` of an absolute `a` is absolute. */
  lemma PathJoinAbsolute(a: string, b: string)
    ensures IsAbsolute(a) ==> IsAbsolute(PathJoin([a, b]))
  {
    if IsAbsolute(a) {
      JoinedAbsolute(a, b);
    }
  }

  /** Three pieces without `/`, joined by `/`, split back into themselves. */
  lemma SplitThree(x: string, y: string, z: string)
    requires '/' !in x && '/' !in y && '/' !in z
    ensures Split(x + "/" + y + "/" + z) == [x, y, z]
  {
    assert x + "/" + y + "/" + z == x + "/" + (y + "/" + z);
    SplitConcat(x, y + "/" + z);
    SplitConcat(y, z);
    SplitNoSlash(x);
    SplitNoSlash(y);
    SplitNoSlash(z);
  }

  /** Appending a clean segment keeps a sequence clean. */
  lemma CleanSnoc(segs: seq<string>, name: string)
    requires AllClean(segs) && Clean(name)
    ensures AllClean(segs + [name])
  {
    var full := segs + [name];
    forall k | 0 <= k < |full| ensures Clean(full[k]) {
      if k < |segs| {
        assert full[k] == segs[k];
      }
    }
  }
}
