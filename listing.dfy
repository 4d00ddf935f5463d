/**
  The directory listing of server.js (lines 224-294): the handler that
  runs after the sandbox. It redirects files to `/file`, lists the
  visible entries of a directory with their media flags and thumbnail
  request paths, sorts them folders first, and computes the Up link.
*/
module Listing {
  import opened Wrappers
  import Uri
  import opened PosixPath
  import Media
  import Sandbox
  import Thumbnail

  /** A directory entry as `fs.readdir(..., { withFileTypes: true })` yields it. */
  datatype Dirent = Dirent(name: string, isDirectory: bool)

  /** The record built for each visible entry (server.js:246-264); size and birth time are left out. */
  datatype Entry = Entry(
    name: string,
    encodedName: string,
    isDirectory: bool,
    isImage: bool,
    isVideo: bool,
    thumbnailRequestPath: string)

  /** `name.startsWith(".")`. */
  predicate Hidden(name: string) {
    |name| > 0 && name[0] == '.'
  }

  /** The filter of server.js:236, keeping readdir's order. */
  function Visible(items: seq<Dirent>): (r: seq<Dirent>)
    ensures |r| <= |items|
    ensures forall i :: 0 <= i < |r| ==> !Hidden(r[i].name)
  {
    if items == [] then []
    else
      var last := items[|items| - 1];
      Visible(items[..|items| - 1]) + (if Hidden(last.name) then [] else [last])
  }

  /** `xs` is `ys` with some elements removed, the rest in their order. */
  predicate Subsequence<T(==)>(xs: seq<T>, ys: seq<T>)
    decreases |ys|
  {
    if xs == [] then true
    else if ys == [] then false
    else if xs[|xs| - 1] == ys[|ys| - 1] then Subsequence(xs[..|xs| - 1], ys[..|ys| - 1])
    else Subsequence(xs, ys[..|ys| - 1])
  }

  lemma {:induction false} VisibleSubsequence(items: seq<Dirent>)
    ensures Subsequence(Visible(items), items)
    decreases |items|
  {
    if items != [] {
      var init := items[..|items| - 1];
      var last := items[|items| - 1];
      VisibleSubsequence(init);
      if Hidden(last.name) {
        assert Visible(items) == Visible(init) + [];
        assert Visible(init) + [] == Visible(init);
        if Visible(init) != [] {
          SubsequenceOfSame(Visible(init), init, last);
        }
      } else {
        var v := Visible(items);
        assert v[..|v| - 1] == Visible(init);
      }
    }
  }

  lemma SubsequenceOfSame<T>(xs: seq<T>, ys: seq<T>, y: T)
    requires xs != [] && Subsequence(xs, ys) && xs[|xs| - 1] != y
    ensures Subsequence(xs, ys + [y])
  {
    assert (ys + [y])[..|ys|] == ys;
  }

  /** An item is listed exactly when readdir returned it and its name does not start with `.`. */
  lemma {:induction false} VisibleMembers(items: seq<Dirent>, d: Dirent)
    ensures d in Visible(items) <==> d in items && !Hidden(d.name)
    decreases |items|
  {
    if items != [] {
      var init := items[..|items| - 1];
      VisibleMembers(init, d);
      assert items == init + [items[|items| - 1]];
    }
  }

  /**
    `thumbnailRequestPath` (server.js:260-263): the item's path below the
    root without its leading `/`, percent-encoded as one component.
  */
  function ThumbnailRequestPath(relativePath: string, name: string): (r: string)
    ensures forall i :: 0 <= i < |r| ==> Uri.UriChar(r[i])
  {
    var joined := PathJoin([if relativePath == "/" then "" else relativePath, name]);
    Uri.Encode(if |joined| > 0 && joined[0] == '/' then joined[1..] else joined)
  }

  /** The record of server.js:246-264 for one visible item. */
  function MakeEntry(relativePath: string, item: Dirent): (r: Entry)
    ensures r.name == item.name && r.isDirectory == item.isDirectory
    ensures Uri.Decode(r.encodedName) == Some(item.name)
    ensures !(r.isImage && r.isVideo)
    ensures forall i :: 0 <= i < |r.thumbnailRequestPath| ==> Uri.UriChar(r.thumbnailRequestPath[i])
  {
    Uri.DecodeEncode(item.name);
    Media.ImageAndVideoDisjoint(item.name);
    Entry(
      item.name,
      Uri.Encode(item.name),
      item.isDirectory,
      Media.IsImage(item.name),
      Media.IsVideo(item.name),
      ThumbnailRequestPath(relativePath, item.name))
  }

  /** The records of the visible items, in readdir order (server.js:236-266). */
  function Entries(relativePath: string, items: seq<Dirent>): (r: seq<Entry>)
    ensures |r| == |Visible(items)|
    ensures forall i :: 0 <= i < |r| ==> r[i].name == Visible(items)[i].name && r[i].isDirectory == Visible(items)[i].isDirectory
    ensures forall i :: 0 <= i < |r| ==> Uri.Decode(r[i].encodedName) == Some(r[i].name)
  {
    var v := Visible(items);
    seq(|v|, i requires 0 <= i < |v| => MakeEntry(relativePath, v[i]))
  }

  /**
    Each record describes its item: the same name and kind, an encoded
    name that decodes back to the name, the media flags of the name's
    extension and no hidden name.
  */
  lemma EntriesDescribeItems(relativePath: string, items: seq<Dirent>, i: int)
    requires 0 <= i < |Entries(relativePath, items)|
    ensures var e, d := Entries(relativePath, items)[i], Visible(items)[i];
      && e.name == d.name && e.isDirectory == d.isDirectory && !Hidden(e.name)
      && Uri.Decode(e.encodedName) == Some(e.name)
      && (e.isImage <==> Media.Classify(e.name) == Media.Image)
      && (e.isVideo <==> Media.IsVideo(e.name))
      && (e.isImage || e.isVideo <==> Media.Classify(e.name) != Media.Other)
  {
    Uri.DecodeEncode(Visible(items)[i].name);
  }

  lemma RelativeNames(segs: seq<string>, name: string)
    requires AllClean(segs) && Clean(name) && segs != []
    ensures PathJoin(["/" + Join(segs), name]) == "/" + Join(segs + [name])
  {
    RootedJoinSegments(segs);
    JoinName("/" + Join(segs), name);
  }

  lemma NonEmptyDropsEmpty(name: string)
    requires name != ""
    ensures NonEmpty(["", name]) == [name]
  {
    assert ["", name][..1] == [""];
    assert NonEmpty([""]) == [];
  }

  lemma RootNames(name: string)
    requires Clean(name)
    ensures PathJoin(["", name]) == name
  {
    NonEmptyDropsEmpty(name);
    assert Join([name]) == name;
    NormalizePlain(name);
  }

  /** The thumbnail request path of an entry listed under `/segs` decodes to `segs/name`. */
  lemma ThumbnailRequestDecodes(segs: seq<string>, name: string)
    requires AllClean(segs) && Clean(name)
    ensures Uri.Decode(ThumbnailRequestPath("/" + Join(segs), name)) == Some(Join(segs + [name]))
  {
    var rel := "/" + Join(segs);
    var full := segs + [name];
    if segs == [] {
      assert rel == "/";
      RootNames(name);
      assert full == [name];
      assert name[0] != '/';
    } else {
      JoinCleanNonEmpty(segs);
      assert rel != "/";
      RelativeNames(segs, name);
      assert ("/" + Join(full))[1..] == Join(full);
    }
    Uri.DecodeEncode(Join(full));
  }

  /**
    The thumbnail request path of an entry listed under the relative path
    `/segs` decodes to `segs/name`. The thumbnail endpoint resolves that
    to the entry's own file below the root, and its guard admits it.

    The endpoint decodes the `path` value it receives once more
    (server.js:174), and Express has already decoded the query string
    once. So this lemma describes the endpoint only when the client,
    which is not part of this model, escapes the request path once more
    before putting it in the query. Names holding `%` depend on that
    second escaping; without it they reach the endpoint decoded twice.
  */
  lemma ThumbnailRequestNamesEntry(home: string, segs: seq<string>, name: string)
    requires IsAbsolute(home) && AllClean(segs) && Clean(name)
    ensures var rel := "/" + Join(segs);
      && Uri.Decode(ThumbnailRequestPath(rel, name)) == Some(Join(segs + [name]))
      && Thumbnail.Target(home, Join(segs + [name])) == "/" + Join(Segments(home) + segs + [name])
      && Thumbnail.PrefixGuard(Thumbnail.Target(home, Join(segs + [name])), Sandbox.ResolvedRoot(home))
  {
    ThumbnailRequestDecodes(segs, name);
    CleanSnoc(segs, name);
    ThumbnailDescendant(home, segs + [name]);
    assert Segments(home) + segs + [name] == Segments(home) + (segs + [name]);
  }

  lemma ThumbnailDescendant(home: string, full: seq<string>)
    requires IsAbsolute(home) && AllClean(full) && full != []
    ensures Thumbnail.Target(home, Join(full)) == "/" + Join(Segments(home) + full)
    ensures Thumbnail.PrefixGuard(Thumbnail.Target(home, Join(full)), Sandbox.ResolvedRoot(home))
  {
    CleanHasNoSlash(full);
    SplitJoin(full);
    Sandbox.KeepClean(full);
    Thumbnail.DescendantsAdmitted(home, Join(full));
  }

  /** `localeCompare` is abstract; the sort needs it to be a total preorder. */
  ghost predicate TotalPreorder(localeCompare: (string, string) -> int) {
    && (forall x, y :: localeCompare(x, y) <= 0 || localeCompare(y, x) <= 0)
    && (forall x, y, z :: localeCompare(x, y) <= 0 && localeCompare(y, z) <= 0 ==> localeCompare(x, z) <= 0)
  }

  /** The comparator of server.js:269-277: folders first, then by name. */
  function Compare(a: Entry, b: Entry, localeCompare: (string, string) -> int): (r: int)
    ensures a.isDirectory != b.isDirectory ==> (r < 0 <==> a.isDirectory) && r != 0
    ensures a.isDirectory == b.isDirectory ==> r == localeCompare(a.name, b.name)
  {
    if a.isDirectory && !b.isDirectory then -1
    else if !a.isDirectory && b.isDirectory then 1
    else localeCompare(a.name, b.name)
  }

  predicate Ordered(a: Entry, b: Entry, localeCompare: (string, string) -> int) {
    Compare(a, b, localeCompare) <= 0
  }

  predicate SortedBetween(s: seq<Entry>, lo: int, hi: int, localeCompare: (string, string) -> int) {
    forall p, q :: lo <= p < q < hi && 0 <= p && q < |s| ==> Ordered(s[p], s[q], localeCompare)
  }

  predicate Sorted(s: seq<Entry>, localeCompare: (string, string) -> int) {
    SortedBetween(s, 0, |s|, localeCompare)
  }

  lemma OrderedTotal(a: Entry, b: Entry, localeCompare: (string, string) -> int)
    requires TotalPreorder(localeCompare)
    ensures Ordered(a, b, localeCompare) || Ordered(b, a, localeCompare)
  {
    assert localeCompare(a.name, b.name) <= 0 || localeCompare(b.name, a.name) <= 0;
  }

  lemma OrderedTransitive(a: Entry, b: Entry, c: Entry, localeCompare: (string, string) -> int)
    requires TotalPreorder(localeCompare)
    requires Ordered(a, b, localeCompare) && Ordered(b, c, localeCompare)
    ensures Ordered(a, c, localeCompare)
  {
    if a.isDirectory == b.isDirectory == c.isDirectory {
      assert localeCompare(a.name, b.name) <= 0 && localeCompare(b.name, c.name) <= 0;
    }
  }

  /**
    A sorted listing puts every folder before every file, and orders the
    names within each group by `localeCompare`.
  */
  lemma SortedGroups(s: seq<Entry>, localeCompare: (string, string) -> int, i: int, j: int)
    requires Sorted(s, localeCompare) && 0 <= i < j < |s|
    ensures s[j].isDirectory ==> s[i].isDirectory
    ensures s[i].isDirectory == s[j].isDirectory ==> localeCompare(s[i].name, s[j].name) <= 0
  {
    assert Ordered(s[i], s[j], localeCompare);
  }

  /** `files.sort(...)` (server.js:269-277): an insertion sort of the array in place. */
  method SortEntries(a: array<Entry>, localeCompare: (string, string) -> int)
    requires TotalPreorder(localeCompare)
    modifies a
    ensures Sorted(a[..], localeCompare)
    ensures multiset(a[..]) == multiset(old(a[..]))
  {
    var i := 0;
    while i < a.Length
      invariant 0 <= i <= a.Length
      invariant SortedBetween(a[..], 0, i, localeCompare)
      invariant multiset(a[..]) == multiset(old(a[..]))
    {
      var j := i;
      while j > 0 && !Ordered(a[j - 1], a[j], localeCompare)
        invariant 0 <= j <= i
        invariant SortedBetween(a[..], 0, j, localeCompare)
        invariant SortedBetween(a[..], j, i + 1, localeCompare)
        invariant forall p, q :: 0 <= p < j < q <= i ==> Ordered(a[p], a[q], localeCompare)
        invariant multiset(a[..]) == multiset(old(a[..]))
      {
        ghost var before := a[..];
        a[j - 1], a[j] := a[j], a[j - 1];
        assert a[..] == before[j - 1 := before[j]][j := before[j - 1]];
        SwapStep(before, j, i, localeCompare);
        j := j - 1;
      }
      InsertionClosed(a[..], j, i, localeCompare);
      i := i + 1;
    }
  }

  /** Swapping the inserted element one place down keeps the three parts of the insertion ordered. */
  lemma SwapStep(s: seq<Entry>, j: int, i: int, localeCompare: (string, string) -> int)
    requires TotalPreorder(localeCompare)
    requires 0 < j <= i < |s|
    requires SortedBetween(s, 0, j, localeCompare) && SortedBetween(s, j, i + 1, localeCompare)
    requires forall p, q :: 0 <= p < j < q <= i ==> Ordered(s[p], s[q], localeCompare)
    requires !Ordered(s[j - 1], s[j], localeCompare)
    ensures var t := s[j - 1 := s[j]][j := s[j - 1]];
      && SortedBetween(t, 0, j - 1, localeCompare)
      && SortedBetween(t, j - 1, i + 1, localeCompare)
      && forall p, q :: 0 <= p < j - 1 < q <= i ==> Ordered(t[p], t[q], localeCompare)
  {
    var t := s[j - 1 := s[j]][j := s[j - 1]];
    OrderedTotal(s[j - 1], s[j], localeCompare);
    forall p, q | j - 1 <= p < q < i + 1
      ensures Ordered(t[p], t[q], localeCompare)
    {
      if p == j - 1 && q > j {
        assert Ordered(s[j], s[q], localeCompare);
      } else if p == j {
        assert Ordered(s[j - 1], s[q], localeCompare);
      }
    }
    forall p, q | 0 <= p < j - 1 < q <= i
      ensures Ordered(t[p], t[q], localeCompare)
    {
      if q == j {
        assert Ordered(s[p], s[j - 1], localeCompare);
      } else {
        assert Ordered(s[p], s[q], localeCompare);
      }
    }
  }

  /** Once the inserted element no longer moves, the prefix up to it is sorted. */
  lemma InsertionClosed(s: seq<Entry>, j: int, i: int, localeCompare: (string, string) -> int)
    requires TotalPreorder(localeCompare)
    requires 0 <= j <= i < |s|
    requires SortedBetween(s, 0, j, localeCompare) && SortedBetween(s, j, i + 1, localeCompare)
    requires forall p, q :: 0 <= p < j < q <= i ==> Ordered(s[p], s[q], localeCompare)
    requires j > 0 ==> Ordered(s[j - 1], s[j], localeCompare)
    ensures SortedBetween(s, 0, i + 1, localeCompare)
  {
    forall p, q | 0 <= p < q < i + 1
      ensures Ordered(s[p], s[q], localeCompare)
    {
      if p < j && q == j && p < j - 1 {
        OrderedTransitive(s[p], s[j - 1], s[j], localeCompare);
      }
    }
  }

  /** `parentUrlPath` (server.js:293-294). */
  function ParentUrl(relativePath: string): (r: string)
    ensures IsAbsolute(relativePath) ==> IsAbsolute(r) && |r| <= |relativePath|
  {
    if relativePath == "/" then "/" else Dirname(relativePath)
  }

  /**
    For the relative path of a directory below the root, the Up link is
    shown exactly when it is not the root, and the parent URL is the
    relative path of the directory one level up.
  */
  lemma ParentUrlDropsLast(segs: seq<string>)
    requires AllClean(segs)
    ensures var rel := "/" + Join(segs);
      && (rel != "/" <==> segs != [])
      && ParentUrl(rel) == "/" + Join(if segs == [] then [] else segs[..|segs| - 1])
  {
    if segs != [] {
      JoinCleanNonEmpty(segs);
      DirnameOfRooted(segs);
    }
  }

  /** What `fs.readdir(currentPath)` yields: the items, an ENOENT error, or another error. */
  datatype Readdir = Items(items: seq<Dirent>) | ReaddirNoEntry | ReaddirFailure

  /** `fs.stat` of an item's full path succeeded: it named a file or a directory. */
  predicate StatSucceeds(stat: Thumbnail.Stat) {
    stat == Thumbnail.FileEntry || stat == Thumbnail.DirectoryEntry
  }

  /** Every per-item `fs.stat` of server.js:242 succeeds. */
  predicate StatsSucceed(items: seq<Dirent>, itemStat: string -> Thumbnail.Stat) {
    forall i :: 0 <= i < |items| ==> StatSucceeds(itemStat(items[i].name))
  }

  /** Some item's `fs.stat` reports `stat`. */
  predicate SomeItemStat(items: seq<Dirent>, itemStat: string -> Thumbnail.Stat, stat: Thumbnail.Stat) {
    exists i :: 0 <= i < |items| && itemStat(items[i].name) == stat
  }

  /**
    The failure `Promise.all` rejects with when some per-item `fs.stat`
    fails. Which rejection comes first depends on timing; the model takes
    the first failing item in readdir order.
  */
  function FirstItemFailure(items: seq<Dirent>, itemStat: string -> Thumbnail.Stat): (r: Option<Thumbnail.Stat>)
    ensures r.None? <==> StatsSucceed(items, itemStat)
    ensures r.Some? ==> !StatSucceeds(r.value) && SomeItemStat(items, itemStat, r.value)
  {
    if items == [] then None
    else if !StatSucceeds(itemStat(items[0].name)) then Some(itemStat(items[0].name))
    else
      var r := FirstItemFailure(items[1..], itemStat);
      assert StatsSucceed(items[1..], itemStat) ==> StatsSucceed(items, itemStat) by {
        if StatsSucceed(items[1..], itemStat) {
          forall i | 0 <= i < |items| ensures StatSucceeds(itemStat(items[i].name)) {
            if i > 0 {
              assert items[i] == items[1..][i - 1];
            }
          }
        }
      }
      assert r.Some? ==> SomeItemStat(items, itemStat, r.value) by {
        if r.Some? {
          var j :| 0 <= j < |items[1..]| && itemStat(items[1..][j].name) == r.value;
          assert items[j + 1] == items[1..][j];
        }
      }
      r
  }

  /**
    The response of the listing handler. `NotFound` is the handler's own
    404 for ENOENT. `Failed` is an error passed on with `next(err)`: the
    error middleware of server.js:157 is registered before this handler,
    so Express's default handler answers it with 500.
  */
  datatype Page =
    | RedirectToFile(location: string)
    | NotFound
    | Failed
    | Listing(entries: seq<Entry>, parentUrl: string, showUp: bool)

  /** The visible items' records, copied into an array and sorted there (server.js:238-277). */
  method SortedEntries(relativePath: string, items: seq<Dirent>, localeCompare: (string, string) -> int)
    returns (sorted: seq<Entry>)
    requires TotalPreorder(localeCompare)
    ensures multiset(sorted) == multiset(Entries(relativePath, items))
    ensures Sorted(sorted, localeCompare)
  {
    var entries := Entries(relativePath, items);
    var files := new Entry[|entries|](i requires 0 <= i < |entries| => entries[i]);
    assert files[..] == entries;
    SortEntries(files, localeCompare);
    sorted := files[..];
  }

  /**
    The handler of server.js:224-304 for a request the sandbox passed
    on. `stat` is what `fs.stat(req.safePath)` reports, `listing` what
    `fs.readdir` returns for it, `itemStat` what `fs.stat` reports for
    each item's full path, and `templateRead` whether reading
    `views/index.html` succeeded.
  */
  method Browse(relativePath: string, stat: Thumbnail.Stat, listing: Readdir,
                itemStat: string -> Thumbnail.Stat, templateRead: bool,
                localeCompare: (string, string) -> int) returns (page: Page)
    requires TotalPreorder(localeCompare)
    ensures stat == Thumbnail.FileEntry <==> page == RedirectToFile("/file" + relativePath)
    ensures stat == Thumbnail.NoEntry ==> page == NotFound
    ensures stat == Thumbnail.StatFailure ==> page == Failed
    ensures stat == Thumbnail.DirectoryEntry && listing == ReaddirNoEntry ==> page == NotFound
    ensures stat == Thumbnail.DirectoryEntry && listing == ReaddirFailure ==> page == Failed
    ensures stat == Thumbnail.DirectoryEntry && listing.Items? && StatsSucceed(Visible(listing.items), itemStat) && !templateRead ==> page == Failed
    ensures page == NotFound ==>
      || stat == Thumbnail.NoEntry
      || (stat == Thumbnail.DirectoryEntry && listing == ReaddirNoEntry)
      || (stat == Thumbnail.DirectoryEntry && listing.Items? && SomeItemStat(Visible(listing.items), itemStat, Thumbnail.NoEntry))
    ensures page == Failed ==>
      || stat == Thumbnail.StatFailure
      || (stat == Thumbnail.DirectoryEntry && listing == ReaddirFailure)
      || (stat == Thumbnail.DirectoryEntry && listing.Items? && SomeItemStat(Visible(listing.items), itemStat, Thumbnail.StatFailure))
      || (stat == Thumbnail.DirectoryEntry && listing.Items? && StatsSucceed(Visible(listing.items), itemStat) && !templateRead)
    ensures stat == Thumbnail.DirectoryEntry && listing.Items? && !StatsSucceed(Visible(listing.items), itemStat) ==>
      page == NotFound || page == Failed
    ensures (stat == Thumbnail.DirectoryEntry && listing.Items?
             && SomeItemStat(Visible(listing.items), itemStat, Thumbnail.NoEntry)
             && !SomeItemStat(Visible(listing.items), itemStat, Thumbnail.StatFailure)) ==> page == NotFound
    ensures (stat == Thumbnail.DirectoryEntry && listing.Items?
             && SomeItemStat(Visible(listing.items), itemStat, Thumbnail.StatFailure)
             && !SomeItemStat(Visible(listing.items), itemStat, Thumbnail.NoEntry)) ==> page == Failed
    ensures page.Listing? <==>
      stat == Thumbnail.DirectoryEntry && listing.Items? && StatsSucceed(Visible(listing.items), itemStat) && templateRead
    ensures page.Listing? ==>
      && multiset(page.entries) == multiset(Entries(relativePath, listing.items))
      && Sorted(page.entries, localeCompare)
      && page.parentUrl == ParentUrl(relativePath)
      && (page.showUp <==> relativePath != "/")
  {
    match stat
    case NoEntry => page := NotFound;
    case StatFailure => page := Failed;
    case FileEntry => page := RedirectToFile("/file" + relativePath);
    case DirectoryEntry =>
      match listing
      case ReaddirNoEntry => page := NotFound;
      case ReaddirFailure => page := Failed;
      case Items(items) =>
        var failure := FirstItemFailure(Visible(items), itemStat);
        if failure == Some(Thumbnail.NoEntry) {
          page := NotFound;
        } else if failure.Some? {
          page := Failed;
        } else {
          var sorted := SortedEntries(relativePath, items, localeCompare);
          if templateRead {
            page := Listing(sorted, ParentUrl(relativePath), relativePath != "/");
          } else {
            page := Failed;
          }
        }
  }
}
