# FinderFI request sandbox and listing rules, in Dafny

FinderFI is a small Express file browser that serves the home directory
(`server.js`) and, in an older version, `~/Documents` (`index.js`). This
project models the logic between HTTP and the filesystem:

- **Request sandbox** (`sandbox.dfy`, server.js:93-126). It percent-decodes
  the request path, drops the empty, `.` and `..` segments and joins the
  rest onto the root. It resolves the result, applies the `startsWith`
  guard, and sets `req.safePath` and `req.relativePath`.
- **`/thumbnail` endpoint** (`thumbnail.dfy`, server.js:166-222). The
  `path` query value is decoded a second time and joined onto the root
  without filtering. A string-prefix guard follows, and it also rejects
  the root itself. The endpoint then returns 404, 400 or 500 from what
  `fs.stat` reports, or dispatches to the image or video thumbnailer by
  extension.
- **Directory listing** (`listing.dfy`, server.js:224-303). Files are
  redirected to `/file`. A failed stat, readdir, per-item stat or
  template read gives 404 or 500. Hidden names are filtered out. Each entry gets
  its media flags and its `thumbnailRequestPath`. The entries are sorted
  in place with folders first, and the Up link target is computed.
- **Legacy browse handler** (`legacy_browse.dfy`, index.js:51-105). It
  uses a normalise-then-`startsWith` guard and its own video list (no
  `.webm`). It attempts thumbnails for images only, lists every readdir
  item in order, and has its own Up link rule.

Supporting modules:

- `uri.dfy`: ECMAScript `decodeURIComponent`/`encodeURIComponent`,
  including UTF-8 validation of `%XX` sequences, which is the percent
  encoding of section 2.1 of RFC 3986.
- `posix_path.dfy`: Node's `path.posix.join`, `normalize`, `resolve` and
  `dirname`, lexical only.
- `media.dfy`: the case-insensitive extension tests.
- `wrappers.dfy`: an `Option` type.

Paths are strings (`seq<char>`). `Split`/`Join` mirror JavaScript's
`split("/")` and `join("/")`. Normalisation is Node's `normalizeString`,
expressed as a stack of segments.

Two properties are proved:

- The sandbox never takes its 403 branch, and `safePath` lies inside the
  root on a segment boundary.
- Both string-prefix guards, the thumbnail endpoint's and index.js's,
  admit a sibling directory whose name extends the root's last segment.
  These are listed under "## Findings", each paired with a corrected
  boundary guard and its exact characterisation.

Behaviour of the code worth knowing:

- The sandbox does not apply `..`, it drops it. So `pics/../pics/cat.jpg`
  reaches `pics/pics/cat.jpg` (`Sandbox.AscentDropped`), and `../../etc`
  reaches `<root>/etc` instead of being forbidden (`Sandbox.Containment`:
  the 403 branch is unreachable). Of the server.js handlers modelled, only
  the thumbnail endpoint applies `..` (`Thumbnail.AscentApplied`); the
  `/browse` handler of index.js applies it as well
  (`LegacyBrowse.SiblingCurrentPath`).
- Re-resolving a `relativePath` gives the same result only when it holds
  no `%`. It is decoded again, so `%` in a file name breaks the round trip
  (`Sandbox.ResolveIdempotent`, `Sandbox.ResolveNotIdempotentWithPercent`).
- Within each group, the listing is ordered by `localeCompare`, which is
  kept abstract (any total preorder). No particular name order, such as a
  case-insensitive one, is built in.
- The legacy handler neither hides dot-files nor checks on a segment
  boundary.

## Model

| member | source | states |
|---|---|---|
| Uri.DecodeEncode | server.js:248 | decodeURIComponent(encodeURIComponent(s)) == s for every string, including multi-byte UTF-8 characters |
| Uri.Encode | server.js:260-263 | every character of encodeURIComponent's output is an unreserved character, `%` or a hex digit |
| Uri.DecodeShrinks | server.js:95-100 | a successful decode never lengthens the string, strictly shortens it when it holds `%`, and keeps a leading non-`%` character |
| Uri.DecodeWithoutEscapes | server.js:174 | a string with no `%` decodes to itself |
| Uri.EscapeOfByte | server.js:95-100 | the escape `encodeURIComponent` writes for an octet is read back by `decodeURIComponent` as that same octet |
| Uri.Decode | server.js:96 | a successful `decodeURIComponent` is never longer than its input |
| Uri.HexDigit | server.js:248 | the upper-case hex digit for 0..15 reads back as that value |
| PosixPath.SplitConcat | server.js:102-104 | `(x + "/" + y).split("/")` is the pieces of x followed by the pieces of y |
| PosixPath.JoinSplit | server.js:102-104 | joining the pieces of a split with `/` gives back the string |
| PosixPath.SplitJoin | server.js:122-123 | splitting a join of slash-free segments gives back the segments |
| PosixPath.NormalizeAbsolute | server.js:107-108 | normalising an absolute path keeps it absolute and keeps the segments it names |
| PosixPath.ResolveSegments | server.js:108-109 | `path.resolve` of an absolute path is `/` followed by its resolved segments |
| PosixPath.JoinOnto | server.js:107 | `path.join(root, ...segs)` with clean segments names the root's segments followed by them |
| PosixPath.JoinTwo | server.js:180 | `path.join(a, b)` names the normalisation of a's pieces followed by b's |
| PosixPath.NormalizeConcat | server.js:180-181 | normalising `a + b` continues from the normalised stack of `a` |
| PosixPath.Normalize | server.js:107 | `path.normalize` never returns an empty string and keeps a leading and a trailing `/` |
| PosixPath.PathJoin | server.js:107 | `path.join` never returns an empty string, and gives `.` when every argument is empty |
| PosixPath.Resolve | server.js:108-109 | `path.resolve` of an absolute path is absolute |
| PosixPath.Dirname | server.js:293-294 | `path.dirname` never returns an empty string, is never longer than a non-empty path, and is absolute for an absolute path |
| PosixPath.DirnameOfRooted | server.js:293-294 | `path.dirname("/s1/.../sn")` is `/s1/.../s(n-1)`, and `/` for one segment |
| PosixPath.InsideRootedIff | server.js:112 | between resolved paths, lying inside a directory on a segment boundary is exactly having its segments as a prefix |
| PosixPath.InsideStartsWith | server.js:112 | lying inside implies the string-prefix test |
| Sandbox.ResolveRequest | server.js:93-126 | the middleware answers 400 exactly when decodeURIComponent fails |
| Sandbox.SurvivorsClean | server.js:102-104 | every surviving segment is non-empty, neither `.` nor `..`, and slash-free |
| Sandbox.KeepSegments | server.js:104 | the filter never lengthens the list of pieces |
| Sandbox.KeepDrops | server.js:104 | the filter shortens the list of pieces exactly when some piece is empty, `.` or `..` |
| Sandbox.KeepShortens | server.js:102-104 | the survivors, joined with `/`, are no longer than the pieces joined with `/` |
| Sandbox.Containment | server.js:107-118 | the 403 branch is never taken, and `safePath` is the root's segments followed by the surviving ones, inside the root |
| Sandbox.RelativePathShape | server.js:122-123 | `relativePath` starts with `/`, equals `/` exactly when nothing survives, and re-splitting and re-filtering it gives the same segments |
| Sandbox.ResolveIdempotent | server.js:93-126 | resolving a `relativePath` without `%` again yields the same `safePath` and `relativePath` |
| Sandbox.ResolveNotIdempotentWithPercent | server.js:95-100 | when the `relativePath` holds `%`, resolving it again does not yield the same outcome |
| Sandbox.AscentDropped | server.js:102-104 | a `..` between two segments is dropped, not applied: `a/../b` reaches `a/b` |
| Sandbox.Annotate | server.js:118-125 | on `next()` the request's `safePath` and `relativePath` are set to the middleware's results, and on 400/403 they are untouched |
| Sandbox.RootDir | server.js:13 | `path.join(os.homedir(), "/")` is absolute for an absolute home |
| PosixPath.PathJoinAbsolute | server.js:13 | `path.join` onto an absolute path gives an absolute path |
| Sandbox.ResolvedRoot | server.js:110 | the resolved root is `/` followed by the home directory's segments |
| Media.IsImage | server.js:196 | the image regular expression matches exactly when the lower-cased final extension is jpg, jpeg, png, gif or webp |
| Media.IsVideo | server.js:197 | the video regular expression matches exactly when the lower-cased final extension is mp4, mov, avi, mkv or webm |
| Media.IsBrowseVideo | index.js:68 | the legacy video test matches exactly when the lower-cased final extension is mp4, mov, avi or mkv |
| Media.Classify | server.js:200-206 | the image test is tried first, then the video test, otherwise neither |
| Media.ClassifyByExtension | server.js:196-206 | classification reads only the lower-cased final extension: image for jpg/jpeg/png/gif/webp, video for mp4/mov/avi/mkv/webm, otherwise none |
| Media.ClassifyIgnoresCase | server.js:243-244 | lower-casing a name never changes its classification |
| Media.ImageAndVideoDisjoint | server.js:196-197 | no name is both an image and a video |
| Media.BrowseVideoMissesWebm | index.js:68 | the legacy video test agrees with server.js:244 except that `.webm` is not a video |
| Media.Extension | server.js:196 | the extension is the text after the last dot: dot-free and shorter than the name |
| Thumbnail.Handle | server.js:166-188 | 400 for a missing or empty path, 400 for a malformed one, 403 exactly when the resolved target fails the prefix guard, and otherwise the reply `Serve` gives for that target |
| Thumbnail.PrefixGuard | server.js:185 | a target passes exactly when the resolved root is a proper prefix of it, followed by any character at all, not only `/` |
| Thumbnail.Serve | server.js:190-221 | ENOENT gives 404, a directory 400, another stat failure 500; a regular file that is neither image nor video gives 400, an image goes to the image thumbnailer and a video to the video thumbnailer; a data URL is sent only for a regular file, from the matching thumbnailer |
| Thumbnail.ServeByExtension | server.js:190-206 | for a regular file the reply depends only on the lower-cased final extension of the decoded path |
| Thumbnail.Delivered | server.js:208-214 | the data URL is sent exactly when the thumbnailer returned a non-empty string, otherwise 500 |
| Thumbnail.Target | server.js:180-181 | the resolved target is the home directory's segments normalised on with the query's pieces |
| Thumbnail.DescendantsAdmitted | server.js:180-188 | a query without `..` that names something below the root resolves to the root plus its ordinary segments and passes both guards |
| Thumbnail.RootAndAboveRefused | server.js:185 | a target that is the root or one of its ancestors is refused |
| Thumbnail.AscentApplied | server.js:180-181 | the endpoint applies `..`: `a/../b` names `b` directly below the root |
| Thumbnail.SiblingEscape | server.js:185 | a query `../<u><more>/<name>`, where `u` is the root's last segment, passes the prefix guard while resolving outside the root |
| Thumbnail.SiblingServed | server.js:174-206 | without `%` in the names the escape reaches the thumbnailers, exactly as a file inside the root would |
| Thumbnail.BoundaryRefinesPrefix | server.js:185 | the corrected guard is the written one plus the segment boundary |
| Thumbnail.BoundaryGuardExact | server.js:185 | the corrected guard admits exactly the targets whose segments strictly extend the root's |
| Listing.Visible | server.js:236 | no listed item's name starts with `.` |
| Listing.VisibleSubsequence | server.js:236 | the visible items are a sub-sequence of readdir's items |
| Listing.VisibleMembers | server.js:236 | an item is listed exactly when readdir returned it and its name does not start with `.` |
| Listing.EntriesDescribeItems | server.js:240-251 | each record keeps its item's name and kind, its encoded name decodes back to the name, and its flags follow the name's extension |
| Listing.MakeEntry | server.js:246-264 | a record keeps its item's name and kind, its `encodedName` decodes back to the name, it is never both image and video, and its thumbnail request path holds only `encodeURIComponent` characters |
| Listing.Entries | server.js:236-266 | one record per visible item, in readdir order, with that item's name and kind and an `encodedName` that decodes to the name |
| Listing.ThumbnailRequestPath | server.js:260-263 | the thumbnail request path holds only characters `encodeURIComponent` emits |
| Listing.ThumbnailRequestDecodes | server.js:260-263 | the thumbnail request path of `name` under `/segs` decodes to `segs/name` |
| Listing.ThumbnailRequestNamesEntry | server.js:260-263 | that path, resolved by the thumbnail endpoint, names the entry's own file below the root, and the guard admits it |
| Listing.Compare | server.js:269-277 | a folder sorts before a file, and within one kind the order is `localeCompare`'s |
| Listing.OrderedTotal | server.js:269-277 | the folders-first comparator is total when `localeCompare` is |
| Listing.OrderedTransitive | server.js:269-277 | the folders-first comparator is transitive when `localeCompare` is |
| Listing.SortEntries | server.js:269-277 | sorting in place yields a permutation of the entries that is ordered by the comparator |
| Listing.SortedGroups | server.js:269-277 | in a sorted listing every folder precedes every file, and names within a group follow `localeCompare` |
| Listing.FirstItemFailure | server.js:238-266 | the per-item stats reject exactly when some visible item's `fs.stat` fails, and with one of those failures |
| Listing.Browse | server.js:224-303 | redirect to `/file<relativePath>` exactly for a file; 404 for ENOENT from the directory's stat or its readdir; 500 for another failure there or a failed template read; for failing item stats, 404 when every failure is ENOENT, 500 when none is, and 404 or 500 when both kinds occur; a 404 or 500 only from such a failure; otherwise, and only then, the sorted permutation of the visible entries with the parent URL and an Up link exactly below the root |
| Listing.SortedEntries | server.js:238-277 | the listing's records, sorted in an array, are a permutation of the visible items' records ordered folders first |
| Listing.ParentUrl | server.js:293-294 | the parent URL of an absolute relative path is absolute and no longer than it |
| Listing.ParentUrlDropsLast | server.js:293-294 | the parent URL of `/segs` drops the last segment, and the Up link is shown exactly when `segs` is not empty |
| LegacyBrowse.Browse | index.js:52-105 | 403 exactly when the normalised join does not start with `rootDir`, one file per readdir item, and the Up link exactly when `req.path` is not `/` |
| LegacyBrowse.CurrentPath | index.js:53 | `path.join(rootDir, req.path)` is absolute for an absolute home, whatever the request path |
| LegacyBrowse.RootDir | index.js:9 | `~/Documents` is absolute for an absolute home |
| LegacyBrowse.MakeFile | index.js:63-84 | a file record keeps its item's name and kind, is never both image and video, and carries a thumbnail only when it is an image |
| LegacyBrowse.UpHref | index.js:87-103 | the Up link starts with `/browse/`, followed by a second `/` for an absolute request path |
| LegacyBrowse.FilesDescribeItems | index.js:62-85 | every item is listed in readdir order with its name, kind and path; a thumbnail is generated only for images, from the item's file |
| LegacyBrowse.RootDirAbsolute | index.js:9 | the root is the home directory's segments followed by `Documents` |
| LegacyBrowse.UpLinkToParent | index.js:87-105 | below the root the Up link is shown and leads to the parent directory |
| LegacyBrowse.SiblingAdmitted | index.js:53-57 | the request `/../Documents<more>/<name>` passes the prefix test while naming a file outside `~/Documents` |
| LegacyBrowse.AdmittedWithinRootExact | index.js:55 | the corrected guard admits exactly the requests whose resolution stays at or below `~/Documents` |
| LegacyBrowse.WithinRootIsAdmitted | index.js:55 | the corrected guard only narrows the written one |

## Left out

- Filesystem calls are inputs. In server.js, `fs.stat` is a `Stat` value (or a function from path to `Stat`), `fs.readdir` a `Readdir` value (items, ENOENT or another error), and reading the template a flag saying whether it succeeded. In index.js, `fs.readdir` is the list of `Dirent`s, or `None` for an error.
- Listing.Browse: the per-item `fs.stat` of server.js:242 is modelled only by whether it succeeds. Size and birth time are only displayed. When failing items report both ENOENT and another error, `Promise.all` rejects with whichever failure comes first in time; the model takes the first in readdir order, and its contract then promises only 404 or 500. When every failure is of one kind the contract names the reply.
- `generateImageThumbnail`, `generateVideoThumbnail` and index.js `generateThumbnail` wrap sharp and ffmpeg and are not part of this model. They are parameters returning a data URL or `None`. Temporary-file handling and cleanup, concurrency and timeouts are not modelled.
- Express wiring, static file serving and headers, the error middleware (a `next(err)` of the listing handler is modelled as the 500 of Express's default handler), `getIP`, the start-up banner and QR code are plumbing and are not modelled.
- HTML templating (`generateHeader`, `generateFileList`, index.js markup), `formatSize` (floating point) and `formatDate` (locale formatting) are not modelled. Only the Up link condition and target are modelled.
- `mime.lookup` in index.js is a library call and is not modelled.
- LegacyBrowse.Browse: the synchronous read of `style.css` while the page is built (index.js:95) is not modelled; the page is produced as if it succeeded.
- `localeCompare` is an abstract comparator, required to be a total preorder.
- Listing.SortEntries: does not state stability of `Array.prototype.sort`, only ordering and permutation.
- `req.query.path` given as an array or object by Express's query parser is not modelled; the query is a string or absent.
- The home directory is taken to be absolute. `os.homedir()` returns `$HOME` on POSIX without checking it, so this is an assumption about the environment, not something the code ensures. Every `requires IsAbsolute(home)` rests on it. Given it, every `path.resolve` call in the core receives an absolute path, and `path.resolve` is modelled for absolute arguments only. The working directory is not modelled.
- The platform `path` module is modelled as `path.posix`: the model assumes a POSIX host. On Windows, Node's `path` is `path.win32`, with `\` separators and drive letters, which is not modelled.
- Symbolic links are not resolved: the code only normalises lexically, so no claim is made about symlinks.
- Dafny strings hold Unicode scalar values, so lone UTF-16 surrogates cannot be written in a name. `encodeURIComponent`'s URIError on them is not modelled.

## Findings

| source | as written | input that shows it | evidently intended | confidence | as-written member | corrected member |
|---|---|---|---|---|---|---|
| server.js:185 | `resolvedFullPath.startsWith(resolvedRootDir)` compares strings, so a sibling directory whose name extends the root's last segment passes | home `/home/user`, `?path=../user2/x.jpg` resolves to `/home/user2/x.jpg`, passes the guard and, as an image file, is thumbnailed | admit only paths strictly below the root, on a segment boundary | not executed | Thumbnail.SiblingEscape | Thumbnail.BoundaryGuardExact |
| index.js:55 | `currentPath.startsWith(rootDir)` compares strings after `path.join` has applied `..` | home `/home/user`, `/browse/../Documents2/x` lists `/home/user/Documents2/x` | admit only paths at or below `~/Documents` | not executed | LegacyBrowse.SiblingAdmitted | LegacyBrowse.AdmittedWithinRootExact |
