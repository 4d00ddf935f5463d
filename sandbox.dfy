/**
  The request sandbox of server.js (lines 93-126): the middleware that
  percent-decodes the request path, keeps only its ordinary segments,
  joins them onto the root directory and hands `safePath` and
  `relativePath` to the handlers after it.
*/
module Sandbox {
  import opened Wrappers
  import Uri
  import opened PosixPath

  /** `path.join(os.homedir(), "/")` (server.js:13). */
  function RootDir(home: string): (r: string)
    ensures IsAbsolute(home) ==> IsAbsolute(r)
  {
    PathJoinAbsolute(home, "/");
    PathJoin([home, "/"])
  }

  /** The filter of server.js:104: `p && p !== ".." && p !== "."`. */
  predicate Kept(seg: string) {
    seg != "" && seg != ".." && seg != "."
  }

  function KeepSegments(parts: seq<string>): (r: seq<string>)
    ensures |r| <= |parts|
  {
    if parts == [] then []
    else KeepSegments(parts[..|parts| - 1]) + (if Kept(parts[|parts| - 1]) then [parts[|parts| - 1]] else [])
  }

  /** The outcome of the middleware: a 400, a 403, or `next()` with the two request fields set. */
  datatype Outcome = BadRequest | Forbidden | Next(safePath: string, relativePath: string)

  /** The segments of the decoded request path that survive the filter. */
  function RequestSegments(decoded: string): seq<string> {
    KeepSegments(Split(decoded))
  }

  /** The middleware of server.js:93-126 for the request path `rawPath`. */
  function ResolveRequest(home: string, rawPath: string): (r: Outcome)
    requires IsAbsolute(home)
    ensures r.BadRequest? <==> Uri.Decode(rawPath).None?
  {
    match Uri.Decode(rawPath)
    case None => BadRequest
    case Some(decoded) =>
      var segs := RequestSegments(decoded);
      var root := RootDir(home);
      RootDirAbsolute(home);
      SurvivorsClean(decoded);
      JoinOnto(root, segs);
      var safe := Resolve(PathJoin([root] + segs));
      var resolvedRoot := Resolve(root);
      if !StartsWith(safe, resolvedRoot) then Forbidden
      else Next(safe, "/" + Join(segs))
  }

  /** The resolved root directory that the guard of server.js:112 compares against. */
  function ResolvedRoot(home: string): (r: string)
    requires IsAbsolute(home)
    ensures r == "/" + Join(Segments(home))
  {
    RootDirAbsolute(home);
    ResolveSegments(RootDir(home));
    Resolve(RootDir(home))
  }

  /** The root directory is absolute and names the home directory's segments (the trailing `/` adds none). */
  lemma RootDirAbsolute(home: string)
    requires IsAbsolute(home)
    ensures IsAbsolute(RootDir(home)) && Segments(RootDir(home)) == Segments(home)
  {
    JoinTwo(home, "/");
    SplitRooted("");
    assert Split("/") == ["", ""];
    var segs := Split(home) + ["", ""];
    assert segs[..|segs| - 1][..|segs| - 2] == Split(home);
  }

  /** Every segment that survives the filter is non-empty, neither `.` nor `..`, and holds no `/`. */
  lemma SurvivorsClean(decoded: string)
    ensures AllClean(RequestSegments(decoded))
  {
    SplitHasNoSlash(decoded);
    KeepSegmentsClean(Split(decoded));
  }

  lemma {:induction false} KeepSegmentsClean(parts: seq<string>)
    requires forall i :: 0 <= i < |parts| ==> '/' !in parts[i]
    ensures AllClean(KeepSegments(parts))
    decreases |parts|
  {
    if parts != [] {
      KeepSegmentsClean(parts[..|parts| - 1]);
    }
  }

  /** Clean segments all pass the filter. */
  lemma {:induction false} KeepClean(parts: seq<string>)
    requires AllClean(parts)
    ensures KeepSegments(parts) == parts
    decreases |parts|
  {
    if parts != [] {
      assert Clean(parts[|parts| - 1]);
      KeepClean(parts[..|parts| - 1]);
    }
  }

  lemma {:induction false} KeepSegmentsConcat(a: seq<string>, b: seq<string>)
    ensures KeepSegments(a + b) == KeepSegments(a) + KeepSegments(b)
    decreases |b|
  {
    if b == [] {
      assert a + b == a;
    } else {
      var ab := a + b;
      assert ab[..|ab| - 1] == a + b[..|b| - 1];
      KeepSegmentsConcat(a, b[..|b| - 1]);
    }
  }

  /**
    Containment (server.js:107-118): because no `..` survives the filter,
    the resolved path is the resolved root followed by the surviving
    segments, so it lies inside the root on a segment boundary and the
    403 branch is never taken.
  */
  lemma Containment(home: string, rawPath: string)
    requires IsAbsolute(home)
    ensures var r := ResolveRequest(home, rawPath);
      && !r.Forbidden?
      && (r.Next? ==>
            && r.safePath == "/" + Join(Segments(home) + RequestSegments(Uri.Decode(rawPath).value))
            && Inside(r.safePath, ResolvedRoot(home)))
  {
    match Uri.Decode(rawPath)
    case None =>
    case Some(decoded) =>
      var segs := RequestSegments(decoded);
      var root := RootDir(home);
      RootDirAbsolute(home);
      SurvivorsClean(decoded);
      JoinOnto(root, segs);
      var joined := PathJoin([root] + segs);
      ResolveSegments(joined);
      var safe := Resolve(joined);
      assert safe == "/" + Join(Segments(home) + segs);
      SegmentsClean(home);
      InsideRooted(Segments(home), segs);
      InsideStartsWith(safe, ResolvedRoot(home));
      assert StartsWith(safe, Resolve(root));
  }

  /** The surviving segments of `"/" + segs.join("/")` are `segs` again, for clean segments. */
  lemma RelativeSegments(segs: seq<string>)
    requires AllClean(segs)
    ensures RequestSegments("/" + Join(segs)) == segs
  {
    if segs == [] {
      SplitRooted("");
      assert Split("/") == ["", ""];
      assert ["", ""][..1] == [""];
    } else {
      var j := Join(segs);
      SplitRooted(j);
      CleanSplitJoin(segs);
      KeepAfterRoot(segs);
    }
  }

  lemma CleanSplitJoin(segs: seq<string>)
    requires AllClean(segs) && segs != []
    ensures Split(Join(segs)) == segs
  {
    forall i | 0 <= i < |segs| ensures '/' !in segs[i] {
      assert Clean(segs[i]);
    }
    SplitJoin(segs);
  }

  lemma KeepAfterRoot(segs: seq<string>)
    requires AllClean(segs)
    ensures KeepSegments([""] + segs) == segs
  {
    KeepSegmentsConcat([""], segs);
    KeepClean(segs);
    assert KeepSegments([""]) == [];
  }

  /**
    `relativePath` (server.js:122) starts with `/`, is `/` exactly when no
    segment survives, and splitting and filtering it again gives back the
    surviving segments.
  */
  lemma RelativePathShape(home: string, rawPath: string)
    requires IsAbsolute(home)
    ensures var r := ResolveRequest(home, rawPath);
      r.Next? ==>
        var segs := RequestSegments(Uri.Decode(rawPath).value);
        && StartsWith(r.relativePath, "/")
        && (r.relativePath == "/" <==> segs == [])
        && RequestSegments(r.relativePath) == segs
  {
    Containment(home, rawPath);
    if Uri.Decode(rawPath).Some? {
      var segs := RequestSegments(Uri.Decode(rawPath).value);
      SurvivorsClean(Uri.Decode(rawPath).value);
      RelativeSegments(segs);
      if segs != [] {
        JoinCleanNonEmpty(segs);
      }
    }
  }

  /**
    Resolving the `relativePath` of an earlier resolution again gives the
    same outcome, provided it holds no `%` (the middleware decodes once
    more, so a decoded `%` would be read as the start of an escape).
  */
  lemma ResolveIdempotent(home: string, rawPath: string)
    requires IsAbsolute(home)
    requires ResolveRequest(home, rawPath).Next?
    requires '%' !in ResolveRequest(home, rawPath).relativePath
    ensures ResolveRequest(home, ResolveRequest(home, rawPath).relativePath) == ResolveRequest(home, rawPath)
  {
    var rel := ResolveRequest(home, rawPath).relativePath;
    RelativePathShape(home, rawPath);
    Uri.DecodeWithoutEscapes(rel);
  }

  /** The outcome of the middleware for a request path that decodes. */
  lemma NextOutcome(home: string, rawPath: string, decoded: string)
    requires IsAbsolute(home) && Uri.Decode(rawPath) == Some(decoded)
    ensures ResolveRequest(home, rawPath)
      == Next("/" + Join(Segments(home) + RequestSegments(decoded)), "/" + Join(RequestSegments(decoded)))
  {
    Containment(home, rawPath);
  }

  /** The filter shortens the list of pieces exactly when some piece is empty, `.` or `..`. */
  lemma {:induction false} KeepDrops(parts: seq<string>)
    ensures |KeepSegments(parts)| < |parts| <==> exists i :: 0 <= i < |parts| && !Kept(parts[i])
    decreases |parts|
  {
    if parts != [] {
      var init, x := parts[..|parts| - 1], parts[|parts| - 1];
      KeepDrops(init);
      assert forall i :: 0 <= i < |init| ==> init[i] == parts[i];
      if !Kept(x) {
        assert !Kept(parts[|parts| - 1]);
      } else if exists i :: 0 <= i < |parts| && !Kept(parts[i]) {
        var i :| 0 <= i < |parts| && !Kept(parts[i]);
        assert i < |init| && !Kept(init[i]);
      }
    }
  }

  /** The filter only removes pieces, so the joined survivors are no longer than the joined pieces. */
  lemma {:induction false} KeepShortens(parts: seq<string>)
    ensures |Join(KeepSegments(parts))| <= |Join(parts)|
    decreases |parts|
  {
    if parts != [] {
      var init, x := parts[..|parts| - 1], parts[|parts| - 1];
      assert init + [x] == parts;
      KeepShortens(init);
      JoinSnoc(init, x);
      assert KeepSegments(parts) == KeepSegments(init) + (if Kept(x) then [x] else []);
      if Kept(x) {
        var k := KeepSegments(init);
        JoinSnoc(k, x);
        assert KeepSegments(parts) == k + [x];
        if init == [] {
          assert k == [];
          assert Join(parts) == x;
        } else {
          assert |Join(parts)| == |Join(init)| + 1 + |x|;
          assert |Join(k + [x])| <= |Join(k)| + 1 + |x|;
        }
      } else {
        assert KeepSegments(parts) == KeepSegments(init) + [];
        assert KeepSegments(init) + [] == KeepSegments(init);
        if init != [] {
          assert |Join(parts)| == |Join(init)| + 1 + |x|;
        }
      }
    }
  }

  /** A leading `/` is one character that never survives. */
  lemma RootedSurvivorsShorter(d: string)
    requires d != [] && d[0] == '/'
    ensures 1 + |Join(RequestSegments(d))| <= |d|
  {
    var d' := d[1..];
    assert d == "/" + d';
    SplitRooted(d');
    var pieces := Split(d');
    KeepSegmentsConcat([""], pieces);
    assert KeepSegments([""]) == [];
    assert RequestSegments(d) == KeepSegments(pieces);
    KeepShortens(pieces);
    JoinSplit(d');
  }

  /**
    Where idempotence breaks: when `relativePath` holds a `%` (decoded from
    `%25`), resolving it again either fails to decode or yields a shorter,
    hence different, `relativePath`.
  */
  lemma ResolveNotIdempotentWithPercent(home: string, rawPath: string)
    requires IsAbsolute(home)
    requires ResolveRequest(home, rawPath).Next?
    requires '%' in ResolveRequest(home, rawPath).relativePath
    ensures ResolveRequest(home, ResolveRequest(home, rawPath).relativePath) != ResolveRequest(home, rawPath)
  {
    var rel := ResolveRequest(home, rawPath).relativePath;
    RelativePathShape(home, rawPath);
    if Uri.Decode(rel).Some? {
      var d := Uri.Decode(rel).value;
      Uri.DecodeShrinks(rel);
      RootedSurvivorsShorter(d);
      NextOutcome(home, rel, d);
      assert |ResolveRequest(home, rel).relativePath| < |rel|;
    }
  }

  /**
    A `..` between two ordinary segments is dropped, not applied: the
    request `a/../b` reaches `a/b`, not `b`.
  */
  lemma AscentDropped(a: string, b: string)
    requires Clean(a) && Clean(b)
    ensures RequestSegments(a + "/../" + b) == [a, b]
  {
    assert a + "/../" + b == a + "/" + ".." + "/" + b;
    SplitThree(a, "..", b);
    var parts := [a, "..", b];
    assert parts[..2] == [a, ".."];
    assert [a, ".."][..1] == [a];
    assert [a][..0] == [];
    assert KeepSegments([a]) == [a];
    assert KeepSegments([a, ".."]) == [a] + [];
    assert KeepSegments(parts) == [a] + [] + [b];
  }

  /** The request object as the middleware sees it: Express's `req.path` and the two fields it sets. */
  class Request {
    const path: string
    var safePath: string
    var relativePath: string

    constructor(path: string)
      ensures this.path == path && safePath == "" && relativePath == ""
    {
      this.path := path;
      safePath := "";
      relativePath := "";
    }
  }

  /**
    The middleware of server.js:93-126 run on a request object: on success
    it assigns `req.safePath` and `req.relativePath` (server.js:118, 122)
    and passes the request on; on a 400 or 403 it leaves the request alone.
  */
  method Annotate(home: string, req: Request) returns (r: Outcome)
    requires IsAbsolute(home)
    modifies req
    ensures r == ResolveRequest(home, req.path)
    ensures r.Next? ==> req.safePath == r.safePath && req.relativePath == r.relativePath
    ensures !r.Next? ==> req.safePath == old(req.safePath) && req.relativePath == old(req.relativePath)
  {
    r := ResolveRequest(home, req.path);
    if r.Next? {
      req.safePath := r.safePath;
      req.relativePath := r.relativePath;
    }
  }
}
