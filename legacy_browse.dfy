/**
  The older browse handler of index.js (lines 51-105). It serves
  `~/Documents`. The request path is joined onto that root and checked
  with a plain prefix test. Every readdir item is then listed in order,
  and a thumbnail is attempted for images only.
*/
module LegacyBrowse {
  import opened Wrappers
  import opened PosixPath
  import Media
  import Listing
  import Thumbnail

  /** `path.join(os.homedir(), "Documents")` (index.js:9). */
  function RootDir(home: string): (r: string)
    ensures IsAbsolute(home) ==> IsAbsolute(r)
  {
    PathJoinAbsolute(home, "Documents");
    PathJoin([home, "Documents"])
  }

  /** `path.join(rootDir, req.path)` (index.js:53); `req.path` is not percent-decoded here. */
  function CurrentPath(home: string, requestPath: string): (r: string)
    ensures IsAbsolute(home) ==> IsAbsolute(r)
  {
    PathJoinAbsolute(RootDir(home), requestPath);
    PathJoin([RootDir(home), requestPath])
  }

  /** The guard of index.js:55 as written. */
  predicate Admitted(home: string, requestPath: string) {
    StartsWith(CurrentPath(home, requestPath), RootDir(home))
  }

  /** The guard with a segment boundary: the resolved current path lies inside the resolved root. */
  predicate AdmittedWithinRoot(home: string, requestPath: string)
    requires IsAbsolute(home)
  {
    RootDirAbsolute(home);
    JoinTwo(RootDir(home), requestPath);
    Inside(Resolve(CurrentPath(home, requestPath)), Resolve(RootDir(home)))
  }

  /** The record of index.js:75-83 for one readdir item; the MIME type is left out. */
  datatype File = File(
    name: string,
    path: string,
    isDirectory: bool,
    isImage: bool,
    isVideo: bool,
    thumbnail: Option<string>)

  /** index.js:63-84 for one item. `generateThumbnail` yields a data URL, or `null` on failure. */
  function MakeFile(home: string, requestPath: string, item: Listing.Dirent,
                    generateThumbnail: string -> Option<string>): (f: File)
    ensures f.name == item.name && f.isDirectory == item.isDirectory
    ensures !(f.isImage && f.isVideo)
    ensures f.thumbnail.Some? ==> f.isImage
  {
    Media.BrowseVideoMissesWebm(item.name);
    Media.ImageAndVideoDisjoint(item.name);
    var isImage := Media.IsImage(item.name);
    File(
      item.name,
      PathJoin([requestPath, item.name]),
      item.isDirectory,
      isImage,
      Media.IsBrowseVideo(item.name),
      if isImage then generateThumbnail(PathJoin([CurrentPath(home, requestPath), item.name])) else None)
  }

  /** The Up link is emitted only below the root (index.js:101-105). */
  predicate ShowUp(requestPath: string) {
    requestPath != "/"
  }

  /** Its target: `/browse/` followed by `path.dirname(req.path)` (index.js:87, 103). */
  function UpHref(requestPath: string): (r: string)
    ensures StartsWith(r, "/browse/")
    ensures IsAbsolute(requestPath) ==> |r| > 8 && r[8] == '/'
  {
    "/browse/" + Dirname(requestPath)
  }

  /** The response: 403, the readdir error handed to `next`, or the page. */
  datatype Response =
    | Forbidden
    | ReaddirFailed
    | Page(files: seq<File>, showUp: bool, upHref: string)

  /**
    `GET /browse<requestPath>` (index.js:52-105). `items` is the result of
    `fs.readdir(currentPath)`: `None` for an error.
  */
  function Browse(home: string, requestPath: string, items: Option<seq<Listing.Dirent>>,
                  generateThumbnail: string -> Option<string>): (r: Response)
    ensures r == Forbidden <==> !StartsWith(PathJoin([RootDir(home), requestPath]), RootDir(home))
    ensures r == ReaddirFailed <==> Admitted(home, requestPath) && items.None?
    ensures r.Page? ==> items.Some? && |r.files| == |items.value|
    ensures r.Page? ==> (r.showUp <==> requestPath != "/") && r.upHref == UpHref(requestPath)
  {
    if !Admitted(home, requestPath) then Forbidden
    else match items
      case None => ReaddirFailed
      case Some(entries) =>
        Page(
          seq(|entries|, i requires 0 <= i < |entries| => MakeFile(home, requestPath, entries[i], generateThumbnail)),
          ShowUp(requestPath),
          UpHref(requestPath))
  }

  /**
    Every readdir item is listed, hidden ones included, in readdir order.
    Each keeps its name and kind, carries the flags of its extension
    (`.webm` is not a video here), and gets a thumbnail only when it is an
    image, generated from its file below the current directory.
  */
  lemma FilesDescribeItems(home: string, requestPath: string, items: seq<Listing.Dirent>,
                           generateThumbnail: string -> Option<string>, i: int)
    requires Admitted(home, requestPath) && 0 <= i < |items|
    ensures var f := Browse(home, requestPath, Some(items), generateThumbnail).files[i];
      && f.name == items[i].name && f.isDirectory == items[i].isDirectory
      && f.path == PathJoin([requestPath, items[i].name])
      && (f.isImage <==> Media.Classify(f.name) == Media.Image)
      && (f.isVideo <==> Media.IsVideo(f.name) && !(Media.Extension(f.name).Some? && Media.Lower(Media.Extension(f.name).value) == "webm"))
      && (f.thumbnail.Some? ==> f.isImage)
      && (f.isImage ==> f.thumbnail == generateThumbnail(PathJoin([CurrentPath(home, requestPath), f.name])))
  {
    var files := Browse(home, requestPath, Some(items), generateThumbnail).files;
    assert files[i] == MakeFile(home, requestPath, items[i], generateThumbnail);
    Media.BrowseVideoMissesWebm(items[i].name);
  }

  /** The root is `~/Documents`: the home directory's segments followed by `Documents`. */
  lemma RootDirAbsolute(home: string)
    requires IsAbsolute(home)
    ensures IsAbsolute(RootDir(home))
    ensures Segments(RootDir(home)) == Segments(home) + ["Documents"]
    ensures RootDir(home) == "/" + Join(Segments(home) + ["Documents"])
  {
    assert Clean("Documents");
    JoinName(home, "Documents");
    JoinOnto(home, ["Documents"]);
    assert [home] + ["Documents"] == [home, "Documents"];
  }

  /**
    For a request path below the root the Up link is shown, and it leads
    to the parent directory; the `/browse/` prefix and the parent's own
    leading `/` make the separator double.
  */
  lemma UpLinkToParent(segs: seq<string>)
    requires AllClean(segs)
    ensures ShowUp("/" + Join(segs)) <==> segs != []
    ensures segs != [] ==> UpHref("/" + Join(segs)) == "/browse/" + "/" + Join(segs[..|segs| - 1])
  {
    if segs == [] {
      assert "/" + Join(segs) == "/";
    } else {
      var p := "/" + Join(segs);
      JoinCleanNonEmpty(segs);
      assert p != "/";
      DirnameOfRooted(segs);
      assert UpHref(p) == "/browse/" + Dirname(p);
      assert Dirname(p) == "/" + Join(segs[..|segs| - 1]);
    }
  }

  /** The `req.path` `/../<sibling>/<name>` (a request for `/browse/../<sibling>/<name>`): up out of `Documents` and into a directory beside it. */
  function SiblingRequest(sibling: string, name: string): string {
    "/../" + sibling + "/" + name
  }

  lemma SiblingRequestSplit(sibling: string, name: string)
    requires Clean(sibling) && Clean(name)
    ensures Split(SiblingRequest(sibling, name)) == ["", "..", sibling, name]
  {
    assert SiblingRequest(sibling, name) == "" + "/" + (".." + "/" + sibling + "/" + name);
    SplitConcat("", ".." + "/" + sibling + "/" + name);
    SplitThree("..", sibling, name);
    assert Split("") == [""];
  }

  lemma ClimbFromDocuments(S: seq<string>, sibling: string, name: string)
    requires AllClean(S) && S != [] && Clean(sibling) && Clean(name)
    ensures NormalizeOnto(S, ["", "..", sibling, name], false) == S[..|S| - 1] + [sibling, name]
  {
    var parts := ["", "..", sibling, name];
    var up := S[..|S| - 1];
    assert Clean(S[|S| - 1]);
    assert parts[..3][..2][..1] == [""] && [""][..0] == [];
    assert NormalizeOnto(S, [""], false) == Step(S, "", false) == S;
    assert parts[..3][..2] == ["", ".."];
    assert NormalizeOnto(S, ["", ".."], false) == Step(S, "..", false) == up;
    assert parts[..3] == ["", "..", sibling];
    assert NormalizeOnto(S, parts[..3], false) == Step(up, sibling, false) == up + [sibling];
    assert NormalizeOnto(S, parts, false) == Step(up + [sibling], name, false) == up + [sibling] + [name];
  }

  lemma SiblingCurrentPath(home: string, sibling: string, name: string)
    requires IsAbsolute(home) && Clean(sibling) && Clean(name)
    ensures CurrentPath(home, SiblingRequest(sibling, name)) == "/" + Join(Segments(home) + [sibling, name])
  {
    var root := RootDir(home);
    var req := SiblingRequest(sibling, name);
    RootDirAbsolute(home);
    JoinTwoNonEmpty(root, req);
    var p := root + "/" + req;
    SplitConcat(root, req);
    SiblingRequestSplit(sibling, name);
    NormalizeConcat(Split(root), Split(req), false);
    SegmentsClean(root);
    ClimbFromDocuments(Segments(root), sibling, name);
    var S := Segments(home) + ["Documents"];
    assert S[..|S| - 1] == Segments(home);
    assert Segments(p) == Segments(home) + [sibling, name];
    NormalizeAbsoluteShape(p);
    assert p[|p| - 1] == name[|name| - 1];
  }

  /**
    The prefix test of index.js:55 admits a sibling of the root: for any
    directory name that extends `Documents` (say `Documents2`), the request
    `/../Documents2/<name>` names `~/Documents2/<name>`. That path starts
    with the root's text but does not lie inside the root.
  */
  lemma SiblingAdmitted(home: string, sibling: string, name: string)
    requires IsAbsolute(home)
    requires |sibling| > 9 && sibling[..9] == "Documents" && Clean(sibling) && Clean(name)
    ensures var current := CurrentPath(home, SiblingRequest(sibling, name));
      && current == "/" + Join(Segments(home) + [sibling, name])
      && Admitted(home, SiblingRequest(sibling, name))
      && !Inside(current, RootDir(home))
  {
    SiblingCurrentPath(home, sibling, name);
    RootDirAbsolute(home);
    var S := Segments(home) + ["Documents"];
    SegmentsClean(home);
    assert Clean("Documents");
    assert AllClean(S) by {
      CleanSnoc(Segments(home), "Documents");
    }
    assert S[..|S| - 1] == Segments(home);
    Thumbnail.SiblingOutside(S, sibling, name);
  }

  /** The corrected guard admits exactly the request paths whose resolution stays at or below `~/Documents`. */
  lemma AdmittedWithinRootExact(home: string, requestPath: string)
    requires IsAbsolute(home)
    ensures var T, R := NormalizeOnto(Segments(RootDir(home)), Split(requestPath), false), Segments(RootDir(home));
      AdmittedWithinRoot(home, requestPath) <==> |R| <= |T| && T[..|R|] == R
  {
    var root := RootDir(home);
    RootDirAbsolute(home);
    JoinTwo(root, requestPath);
    var current := CurrentPath(home, requestPath);
    NormalizeConcat(Split(root), Split(requestPath), false);
    ResolveSegments(current);
    ResolveSegments(root);
    SegmentsClean(current);
    SegmentsClean(root);
    InsideRootedIff(Segments(current), Segments(root));
  }

  /** The corrected guard only narrows the written one. */
  lemma WithinRootIsAdmitted(home: string, requestPath: string)
    requires IsAbsolute(home) && AdmittedWithinRoot(home, requestPath)
    ensures Admitted(home, requestPath)
  {
    var root := RootDir(home);
    RootDirAbsolute(home);
    var current := CurrentPath(home, requestPath);
    CurrentExtendsResolved(home, requestPath);
    ResolveSegments(root);
    assert Resolve(root) == root;
    InsideStartsWith(Resolve(current), root);
    StartsWithTransitive(current, Resolve(current), root);
  }

  lemma CurrentExtendsResolved(home: string, requestPath: string)
    requires IsAbsolute(home)
    ensures IsAbsolute(CurrentPath(home, requestPath))
    ensures StartsWith(CurrentPath(home, requestPath), Resolve(CurrentPath(home, requestPath)))
  {
    var p := Join(NonEmpty([RootDir(home), requestPath]));
    RootDirAbsolute(home);
    JoinedAbsolute(RootDir(home), requestPath);
    NormalizeAbsolute(p);
    NormalizeAbsoluteShape(p);
    ResolveSegments(Normalize(p));
  }
}
