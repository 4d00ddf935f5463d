/**
  The thumbnail endpoint of server.js (lines 166-222). It decodes the
  `path` query parameter once more, resolves it against the root
  directory, and refuses whatever its prefix guard rejects. It then
  asks the image or the video thumbnailer for a data URL.
*/
module Thumbnail {
  import opened Wrappers
  import Uri
  import opened PosixPath
  import Sandbox
  import Media

  /** What `fs.stat` reports for the resolved path: ENOENT, a directory, anything else, or another failure. */
  datatype Stat = NoEntry | DirectoryEntry | FileEntry | StatFailure

  /** Why a request was refused; each reason has its own response text in the endpoint. */
  datatype Refusal =
    | MissingPath | MalformedPath | OutsideRoot | IsDirectory
    | Unsupported | NotFound | GenerationFailed | InternalError

  /** An error status with its reason, or the `text/plain` body holding the thumbnail's data URL. */
  datatype Reply = Refused(status: int, why: Refusal) | DataUrl(body: string)

  /** The resolved file a decoded query names: `path.resolve(path.join(rootDir, decoded))`. */
  function Target(home: string, decoded: string): (t: string)
    requires IsAbsolute(home)
    ensures t == "/" + Join(NormalizeOnto(Segments(home), Split(decoded), false))
  {
    var root := Sandbox.RootDir(home);
    Sandbox.RootDirAbsolute(home);
    JoinTwo(root, decoded);
    NormalizeConcat(Split(root), Split(decoded), false);
    ResolveSegments(PathJoin([root, decoded]));
    Resolve(PathJoin([root, decoded]))
  }

  /** The guard of server.js:185 as written: a prefix test on strings, and the root itself excluded. */
  predicate PrefixGuard(target: string, root: string)
    ensures PrefixGuard(target, root) <==> |root| < |target| && target[..|root|] == root
  {
    StartsWith(target, root) && target != root
  }

  /** The guard as intended: the target lies strictly below the root, on a segment boundary. */
  predicate BoundaryGuard(target: string, root: string) {
    Inside(target, root) && target != root
  }

  /** What happens once the guard has passed (server.js:190-221). */
  function Serve(target: string, decoded: string, stat: string -> Stat,
                 imageThumbnail: string -> Option<string>, videoThumbnail: string -> Option<string>): (r: Reply)
    ensures stat(target) == NoEntry ==> r == Refused(404, NotFound)
    ensures stat(target) == DirectoryEntry ==> r == Refused(400, IsDirectory)
    ensures stat(target) == StatFailure ==> r == Refused(500, InternalError)
    ensures stat(target) == FileEntry && !Media.IsImage(decoded) && !Media.IsVideo(decoded) ==> r == Refused(400, Unsupported)
    ensures stat(target) == FileEntry && Media.IsImage(decoded) ==> r == Delivered(imageThumbnail(target))
    ensures stat(target) == FileEntry && !Media.IsImage(decoded) && Media.IsVideo(decoded) ==> r == Delivered(videoThumbnail(target))
    ensures r.DataUrl? ==> stat(target) == FileEntry && r.body != ""
    ensures r.DataUrl? && Media.IsImage(decoded) ==> imageThumbnail(target) == Some(r.body)
    ensures r.DataUrl? && !Media.IsImage(decoded) ==> Media.IsVideo(decoded) && videoThumbnail(target) == Some(r.body)
  {
    match stat(target)
    case NoEntry => Refused(404, NotFound)
    case StatFailure => Refused(500, InternalError)
    case DirectoryEntry => Refused(400, IsDirectory)
    case FileEntry =>
      match Media.Classify(decoded)
      case Other => Refused(400, Unsupported)
      case Image => Delivered(imageThumbnail(target))
      case Video => Delivered(videoThumbnail(target))
  }

  /** `if (thumbnailData)`: `null` and the empty string are both falsy. */
  function Delivered(thumbnail: Option<string>): (r: Reply)
    ensures r.DataUrl? <==> thumbnail.Some? && thumbnail.value != ""
    ensures r.DataUrl? ==> r.body == thumbnail.value
    ensures r.Refused? ==> r == Refused(500, GenerationFailed)
  {
    match thumbnail
    case Some(data) => if data == "" then Refused(500, GenerationFailed) else DataUrl(data)
    case None => Refused(500, GenerationFailed)
  }

  /** `GET /thumbnail?path=query` (server.js:166-222); `query` is the value Express has already decoded once. */
  function Handle(home: string, query: Option<string>, stat: string -> Stat,
                  imageThumbnail: string -> Option<string>, videoThumbnail: string -> Option<string>): (r: Reply)
    requires IsAbsolute(home)
    ensures query.None? || query == Some("") ==> r == Refused(400, MissingPath)
    ensures query.Some? && query.value != "" && Uri.Decode(query.value).None? ==> r == Refused(400, MalformedPath)
    ensures r == Refused(403, OutsideRoot) <==>
      && query.Some? && query.value != "" && Uri.Decode(query.value).Some?
      && !PrefixGuard(Target(home, Uri.Decode(query.value).value), Sandbox.ResolvedRoot(home))
    ensures (query.Some? && query.value != "" && Uri.Decode(query.value).Some?
             && PrefixGuard(Target(home, Uri.Decode(query.value).value), Sandbox.ResolvedRoot(home))) ==>
      r == Serve(Target(home, Uri.Decode(query.value).value), Uri.Decode(query.value).value, stat, imageThumbnail, videoThumbnail)
  {
    match query
    case None => Refused(400, MissingPath)
    case Some(q) =>
      if q == "" then Refused(400, MissingPath)
      else match Uri.Decode(q)
        case None => Refused(400, MalformedPath)
        case Some(decoded) =>
          var target := Target(home, decoded);
          if !PrefixGuard(target, Sandbox.ResolvedRoot(home)) then Refused(403, OutsideRoot)
          else Serve(target, decoded, stat, imageThumbnail, videoThumbnail)
  }

  /**
    For a regular file the reply depends only on the lower-cased final
    extension of the decoded path: the image thumbnailer for an image
    extension, the video thumbnailer for a video extension, and 400 for
    any other extension or none.
  */
  lemma ServeByExtension(target: string, decoded: string, stat: string -> Stat,
                         imageThumbnail: string -> Option<string>, videoThumbnail: string -> Option<string>)
    requires stat(target) == FileEntry
    ensures Serve(target, decoded, stat, imageThumbnail, videoThumbnail) == match Media.Extension(decoded)
      case None => Refused(400, Unsupported)
      case Some(e) =>
        if Media.Lower(e) in Media.ImageExtensions then Delivered(imageThumbnail(target))
        else if Media.Lower(e) in Media.VideoExtensions then Delivered(videoThumbnail(target))
        else Refused(400, Unsupported)
  {
    Media.ClassifyByExtension(decoded);
  }

  /** Without `..` pieces, resolution only drops the empty and `.` pieces and appends the rest. */
  lemma {:induction false} NormalizeWithoutAscent(stack: seq<string>, parts: seq<string>)
    requires forall i :: 0 <= i < |parts| ==> parts[i] != ".."
    ensures NormalizeOnto(stack, parts, false) == stack + Sandbox.KeepSegments(parts)
    decreases |parts|
  {
    if parts == [] {
      assert stack + [] == stack;
    } else {
      var init := parts[..|parts| - 1];
      NormalizeWithoutAscent(stack, init);
      if Sandbox.Kept(parts[|parts| - 1]) {
        assert stack + Sandbox.KeepSegments(parts) == (stack + Sandbox.KeepSegments(init)) + [parts[|parts| - 1]];
      } else {
        assert Sandbox.KeepSegments(parts) == Sandbox.KeepSegments(init) + [];
        assert Sandbox.KeepSegments(init) + [] == Sandbox.KeepSegments(init);
      }
    }
  }

  /**
    A query that never climbs (no `..` piece) and names something below
    the root resolves to the root followed by its ordinary segments,
    and both guards let it through.
  */
  lemma DescendantsAdmitted(home: string, decoded: string)
    requires IsAbsolute(home)
    requires forall i :: 0 <= i < |Split(decoded)| ==> Split(decoded)[i] != ".."
    requires Sandbox.RequestSegments(decoded) != []
    ensures var t := Target(home, decoded);
      && t == "/" + Join(Segments(home) + Sandbox.RequestSegments(decoded))
      && BoundaryGuard(t, Sandbox.ResolvedRoot(home))
      && PrefixGuard(t, Sandbox.ResolvedRoot(home))
  {
    var S, segs := Segments(home), Sandbox.RequestSegments(decoded);
    NormalizeWithoutAscent(S, Split(decoded));
    var t := Target(home, decoded);
    var root := Sandbox.ResolvedRoot(home);
    SegmentsClean(home);
    Sandbox.SurvivorsClean(decoded);
    InsideRooted(S, segs);
    InsideStartsWith(t, root);
    JoinCleanNonEmpty(segs);
    if S != [] {
      JoinConcat(S, segs);
    } else {
      assert S + segs == segs;
    }
    assert |t| > |root|;
  }

  /** A resolved path no deeper than the root is never let through: the root itself and every directory above it. */
  lemma RootAndAboveRefused(home: string, decoded: string)
    requires IsAbsolute(home)
    requires var T, S := NormalizeOnto(Segments(home), Split(decoded), false), Segments(home);
      |T| <= |S| && S[..|T|] == T
    ensures !PrefixGuard(Target(home, decoded), Sandbox.ResolvedRoot(home))
  {
    var T, S := NormalizeOnto(Segments(home), Split(decoded), false), Segments(home);
    SegmentsClean(home);
    if |T| < |S| {
      assert S == T + S[|T|..];
      JoinCleanNonEmpty(S[|T|..]);
      if T == [] {
        JoinCleanNonEmpty(S);
        assert |"/" + Join(T)| < |"/" + Join(S)|;
      } else {
        JoinConcat(T, S[|T|..]);
        assert |"/" + Join(T)| < |"/" + Join(S)|;
      }
    } else {
      assert T == S;
    }
  }

  /** The corrected guard is the written one with the segment boundary added. */
  lemma BoundaryRefinesPrefix(target: string, root: string)
    ensures BoundaryGuard(target, root) <==> PrefixGuard(target, root) && Inside(target, root)
  {
    if Inside(target, root) {
      InsideStartsWith(target, root);
    }
  }

  /**
    The corrected guard admits a query exactly when its resolved
    segments strictly extend the home directory's: the file lies
    strictly below the root.
  */
  lemma BoundaryGuardExact(home: string, decoded: string)
    requires IsAbsolute(home)
    ensures var T, S := NormalizeOnto(Segments(home), Split(decoded), false), Segments(home);
      BoundaryGuard(Target(home, decoded), Sandbox.ResolvedRoot(home)) <==> |S| < |T| && T[..|S|] == S
  {
    var T, S := NormalizeOnto(Segments(home), Split(decoded), false), Segments(home);
    SegmentsClean(home);
    NormalizeConcat(Split(home), Split(decoded), false);
    SplitHasNoSlash(home);
    SplitHasNoSlash(decoded);
    NormalizedAreClean(Split(home) + Split(decoded));
    InsideRootedIff(T, S);
    if T == S {
      assert "/" + Join(T) == "/" + Join(S);
    }
    if "/" + Join(T) == "/" + Join(S) && S != [] {
      assert Join(T) == ("/" + Join(T))[1..];
      JoinInjective(T, S);
    }
    if "/" + Join(T) == "/" + Join(S) && S == [] && T != [] {
      JoinCleanNonEmpty(T);
    }
  }

  /** The query `../<sibling>/<name>`, which climbs out of the root and back down beside it. */
  function SiblingQuery(sibling: string, name: string): string {
    "../" + sibling + "/" + name
  }

  lemma SiblingJoin(prefix: seq<string>, u: string, sibling: string, name: string)
    requires |u| < |sibling| && sibling[..|u|] == u
    ensures Join(prefix + [sibling, name]) == Join(prefix + [u]) + sibling[|u|..] + "/" + name
  {
    var front := prefix + [sibling];
    assert prefix + [sibling, name] == front + [name];
    JoinSnoc(front, name);
    SnocExtended(prefix, u, sibling);
  }

  lemma SnocExtended(prefix: seq<string>, u: string, sibling: string)
    requires |u| < |sibling| && sibling[..|u|] == u
    ensures Join(prefix + [sibling]) == Join(prefix + [u]) + sibling[|u|..]
  {
    JoinSnoc(prefix, sibling);
    JoinSnoc(prefix, u);
    assert sibling == u + sibling[|u|..];
  }

  /** On strings: the root's text followed by more than a separator passes the text test but is not inside. */
  lemma ExtendedNotInside(root: string, more: string, name: string)
    requires |root| >= 2 && more != [] && '/' !in more
    ensures PrefixGuard(root + more + "/" + name, root) && !Inside(root + more + "/" + name, root)
  {
    var t := root + more + "/" + name;
    assert t[..|root|] == root;
    assert t[|root|] == more[0];
    assert more[0] in more;
  }

  lemma SiblingSplit(sibling: string, name: string)
    requires Clean(sibling) && Clean(name)
    ensures Split(SiblingQuery(sibling, name)) == ["..", sibling, name]
  {
    assert SiblingQuery(sibling, name) == ".." + "/" + sibling + "/" + name;
    SplitThree("..", sibling, name);
  }

  lemma ClimbThenDescend(S: seq<string>, sibling: string, name: string)
    requires AllClean(S) && S != [] && Clean(sibling) && Clean(name)
    ensures NormalizeOnto(S, ["..", sibling, name], false) == S[..|S| - 1] + [sibling, name]
  {
    var parts := ["..", sibling, name];
    assert parts[..2] == ["..", sibling];
    assert ["..", sibling][..1] == [".."];
    assert [".."][..0] == [];
    assert Clean(S[|S| - 1]);
    assert NormalizeOnto(S, [".."], false) == S[..|S| - 1];
  }

  lemma SiblingSegments(home: string, sibling: string, name: string)
    requires IsAbsolute(home) && Segments(home) != []
    requires Clean(sibling) && Clean(name)
    ensures var S := Segments(home);
      NormalizeOnto(S, Split(SiblingQuery(sibling, name)), false) == S[..|S| - 1] + [sibling, name]
  {
    SiblingSplit(sibling, name);
    SegmentsClean(home);
    ClimbThenDescend(Segments(home), sibling, name);
  }

  /** On segments: a sibling `<u><more>` of the root's last segment `u` passes the text test but is not inside. */
  lemma SiblingOutside(S: seq<string>, sibling: string, name: string)
    requires AllClean(S) && S != []
    requires |S[|S| - 1]| < |sibling| && sibling[..|S[|S| - 1]|] == S[|S| - 1]
    requires Clean(sibling)
    ensures var t, root := "/" + Join(S[..|S| - 1] + [sibling, name]), "/" + Join(S);
      PrefixGuard(t, root) && !Inside(t, root)
  {
    var u := S[|S| - 1];
    SiblingJoin(S[..|S| - 1], u, sibling, name);
    assert S[..|S| - 1] + [u] == S;
    JoinCleanNonEmpty(S);
    var more := sibling[|u|..];
    assert forall k :: 0 <= k < |more| ==> more[k] == sibling[|u| + k];
    ExtendedNotInside("/" + Join(S), more, name);
  }

  /**
    The prefix guard lets a sibling of the root through: when the root's
    last segment is `u`, the query `../<u><more>/<name>` resolves into the
    directory `<u><more>` beside the root. That path starts with the
    root's text but does not lie inside the root.
  */
  lemma SiblingEscape(home: string, sibling: string, name: string)
    requires IsAbsolute(home) && Segments(home) != []
    requires var S := Segments(home); |S[|S| - 1]| < |sibling| && sibling[..|S[|S| - 1]|] == S[|S| - 1]
    requires Clean(sibling) && Clean(name)
    ensures var S := Segments(home);
      var t := Target(home, SiblingQuery(sibling, name));
      && t == "/" + Join(S[..|S| - 1] + [sibling, name])
      && PrefixGuard(t, Sandbox.ResolvedRoot(home))
      && !Inside(t, Sandbox.ResolvedRoot(home))
  {
    SiblingSegments(home, sibling, name);
    SegmentsClean(home);
    SiblingOutside(Segments(home), sibling, name);
  }

  /**
    The escape reaches the thumbnailers: when the sibling's names hold no
    `%`, the second decoding changes nothing and the request is served
    from outside the root exactly as a file inside it would be.
  */
  lemma SiblingServed(home: string, sibling: string, name: string, stat: string -> Stat,
                      imageThumbnail: string -> Option<string>, videoThumbnail: string -> Option<string>)
    requires IsAbsolute(home) && Segments(home) != []
    requires var S := Segments(home); |S[|S| - 1]| < |sibling| && sibling[..|S[|S| - 1]|] == S[|S| - 1]
    requires Clean(sibling) && Clean(name) && '%' !in sibling && '%' !in name
    ensures var q := SiblingQuery(sibling, name);
      var t := Target(home, q);
      && !Inside(t, Sandbox.ResolvedRoot(home))
      && Handle(home, Some(q), stat, imageThumbnail, videoThumbnail) == Serve(t, q, stat, imageThumbnail, videoThumbnail)
  {
    var q := SiblingQuery(sibling, name);
    assert '%' !in q;
    Uri.DecodeWithoutEscapes(q);
    SiblingEscape(home, sibling, name);
  }

  lemma ClimbBack(S: seq<string>, a: string, b: string)
    requires Clean(a) && Clean(b)
    ensures NormalizeOnto(S, [a, "..", b], false) == S + [b]
  {
    var parts := [a, "..", b];
    assert parts[..2] == [a, ".."];
    assert [a, ".."][..1] == [a];
    assert [a][..0] == [];
    assert NormalizeOnto(S, [a], false) == S + [a];
    assert (S + [a])[..|S|] == S;
  }

  /**
    Unlike the sandbox, the thumbnail endpoint applies `..`: the query
    `a/../b` names the file `b` directly below the root.
  */
  lemma AscentApplied(home: string, a: string, b: string)
    requires IsAbsolute(home) && Clean(a) && Clean(b)
    ensures Target(home, a + "/../" + b) == "/" + Join(Segments(home) + [b])
  {
    assert a + "/../" + b == a + "/" + ".." + "/" + b;
    SplitThree(a, "..", b);
    ClimbBack(Segments(home), a, b);
  }
}
