/**
  Media classification by file name, as the regular expressions of
  server.js (lines 196-197 and 243-244) and index.js (lines 67-68) do it:
  `/\.(jpg|jpeg|png|gif|webp)$/i` and its video counterparts. Without the
  `u` flag, `/i` folds only ASCII letters onto ASCII letters, so case-
  insensitivity is ASCII lower-casing here.
*/
module Media {
  import opened Wrappers

  function LowerAscii(c: char): (d: char)
    ensures d == '.' <==> c == '.'
  {
    if 'A' <= c <= 'Z' then (c as int - 'A' as int + 'a' as int) as char else c
  }

  function Lower(s: string): (r: string)
    ensures |r| == |s|
  {
    seq(|s|, i requires 0 <= i < |s| => LowerAscii(s[i]))
  }

  /** The name ends in `suffix` (given in lower case), ignoring the case of ASCII letters. */
  predicate EndsWithIgnoringCase(name: string, suffix: string) {
    |suffix| <= |name| && Lower(name[|name| - |suffix|..]) == suffix
  }

  /** The alternation `\.(e1|e2|...)$` with flag `i`. */
  predicate MatchesExtension(name: string, exts: seq<string>) {
    exts != [] && (EndsWithIgnoringCase(name, "." + exts[0]) || MatchesExtension(name, exts[1..]))
  }

  const ImageExtensions: seq<string> := ["jpg", "jpeg", "png", "gif", "webp"]
  const VideoExtensions: seq<string> := ["mp4", "mov", "avi", "mkv", "webm"]
  /** index.js:68 leaves `webm` out. */
  const BrowseVideoExtensions: seq<string> := ["mp4", "mov", "avi", "mkv"]

  /** server.js:196, server.js:243 and index.js:67. */
  predicate IsImage(name: string)
    ensures IsImage(name) <==> Extension(name).Some? && Lower(Extension(name).value) in ImageExtensions
  {
    ExtensionListsPlain();
    MatchesByExtension(name, ImageExtensions);
    MatchesExtension(name, ImageExtensions)
  }

  /** server.js:197 and server.js:244. */
  predicate IsVideo(name: string)
    ensures IsVideo(name) <==> Extension(name).Some? && Lower(Extension(name).value) in VideoExtensions
  {
    ExtensionListsPlain();
    MatchesByExtension(name, VideoExtensions);
    MatchesExtension(name, VideoExtensions)
  }

  /** index.js:68. */
  predicate IsBrowseVideo(name: string)
    ensures IsBrowseVideo(name) <==> Extension(name).Some? && Lower(Extension(name).value) in BrowseVideoExtensions
  {
    ExtensionListsPlain();
    MatchesByExtension(name, BrowseVideoExtensions);
    MatchesExtension(name, BrowseVideoExtensions)
  }

  datatype MediaKind = Image | Video | Other

  /** The dispatch of server.js:200-206: the image test is tried first. */
  function Classify(name: string): (k: MediaKind)
    ensures k == Image <==> IsImage(name)
    ensures k == Video <==> !IsImage(name) && IsVideo(name)
  {
    if IsImage(name) then Image else if IsVideo(name) then Video else Other
  }

  /** The text after the last `.` of a name; `None` when it has no `.`. */
  function Extension(name: string): (r: Option<string>)
    ensures r.Some? ==> '.' !in r.value && |r.value| < |name|
  {
    if name == [] then None
    else if name[|name| - 1] == '.' then Some([])
    else match Extension(name[..|name| - 1])
      case None => None
      case Some(e) => Some(e + [name[|name| - 1]])
  }

  lemma {:induction false} ExtensionOfDotted(p: string, e: string)
    requires '.' !in e
    ensures Extension(p + "." + e) == Some(e)
    decreases |e|
  {
    var name := p + "." + e;
    if e == [] {
      assert name[|name| - 1] == '.';
    } else {
      var e' := e[..|e| - 1];
      assert name[..|name| - 1] == p + "." + e';
      ExtensionOfDotted(p, e');
      assert e' + [e[|e| - 1]] == e;
    }
  }

  lemma {:induction false} ExtensionSplits(name: string)
    requires Extension(name).Some?
    ensures var e := Extension(name).value;
      name == name[..|name| - |e| - 1] + "." + e
    decreases |name|
  {
    if name[|name| - 1] != '.' {
      var init := name[..|name| - 1];
      ExtensionSplits(init);
      var e' := Extension(init).value;
      assert init == init[..|init| - |e'| - 1] + "." + e';
      assert name == init + [name[|name| - 1]];
    }
  }

  lemma LowerConcat(a: string, b: string)
    ensures Lower(a + b) == Lower(a) + Lower(b)
  {
    assert forall i :: 0 <= i < |a + b| ==> Lower(a + b)[i] == (Lower(a) + Lower(b))[i];
  }

  /** Lower-casing neither adds nor removes a `.`. */
  lemma LowerKeepsDots(s: string)
    ensures '.' in s <==> '.' in Lower(s)
  {
    if '.' in s {
      var j :| 0 <= j < |s| && s[j] == '.';
      assert Lower(s)[j] == '.';
    }
    if '.' in Lower(s) {
      var j :| 0 <= j < |Lower(s)| && Lower(s)[j] == '.';
      assert s[j] == '.';
    }
  }

  lemma SplitAt(s: string, k: int)
    requires 0 <= k < |s|
    ensures s == s[..k] + [s[k]] + s[k + 1..]
  {
  }

  lemma DotThenRest(c: char, rest: string, x: string)
    requires Lower([c] + rest) == "." + x && '.' !in x
    ensures c == '.' && Lower(rest) == x && '.' !in rest
  {
    LowerConcat([c], rest);
    assert Lower([c]) == [LowerAscii(c)];
    assert ("." + x)[0] == '.' && ("." + x)[1..] == x;
    assert (Lower([c]) + Lower(rest))[1..] == Lower(rest);
    LowerKeepsDots(rest);
  }

  lemma MatchedSuffixIsExtension(name: string, x: string)
    requires '.' !in x && EndsWithIgnoringCase(name, "." + x)
    ensures Extension(name) == Some(name[|name| - |x|..]) && Lower(name[|name| - |x|..]) == x
  {
    var k := |name| - |x| - 1;
    var pre, c, rest := name[..k], name[k], name[k + 1..];
    assert name[k..] == [c] + rest;
    DotThenRest(c, rest, x);
    SplitAt(name, k);
    ExtensionOfDotted(pre, rest);
  }

  lemma ExtensionIsMatchedSuffix(name: string, x: string)
    requires Extension(name).Some? && Lower(Extension(name).value) == x
    ensures EndsWithIgnoringCase(name, "." + x)
  {
    var e := Extension(name).value;
    ExtensionSplits(name);
    var tail := name[|name| - |x| - 1..];
    assert tail == "." + e;
    LowerConcat(".", e);
  }

  /** Matching `\.x$` case-insensitively is reading `x` as the text after the last dot, for a dot-free lower-case `x`. */
  lemma EndsWithDotExtension(name: string, x: string)
    requires '.' !in x && Lower(x) == x
    ensures EndsWithIgnoringCase(name, "." + x) <==> Extension(name).Some? && Lower(Extension(name).value) == x
  {
    if EndsWithIgnoringCase(name, "." + x) {
      MatchedSuffixIsExtension(name, x);
    }
    if Extension(name).Some? && Lower(Extension(name).value) == x {
      ExtensionIsMatchedSuffix(name, x);
    }
  }

  predicate PlainExtensions(exts: seq<string>) {
    forall i :: 0 <= i < |exts| ==> '.' !in exts[i] && Lower(exts[i]) == exts[i]
  }

  /** The regular expression holds exactly when the lower-cased final extension is one of the alternatives. */
  lemma {:induction false} MatchesByExtension(name: string, exts: seq<string>)
    requires PlainExtensions(exts)
    ensures MatchesExtension(name, exts) <==> Extension(name).Some? && Lower(Extension(name).value) in exts
    decreases |exts|
  {
    if exts != [] {
      EndsWithDotExtension(name, exts[0]);
      MatchesByExtension(name, exts[1..]);
      assert exts == [exts[0]] + exts[1..];
    }
  }

  /** A string without ASCII capitals is its own lower-case form. */
  lemma LowerOfLowercase(s: string)
    requires forall i :: 0 <= i < |s| ==> !('A' <= s[i] <= 'Z')
    ensures Lower(s) == s
  {
    assert forall i :: 0 <= i < |s| ==> Lower(s)[i] == s[i];
  }

  lemma PlainExtensionsFrom(exts: seq<string>)
    requires forall i, j :: 0 <= i < |exts| && 0 <= j < |exts[i]| ==> 'a' <= exts[i][j] <= 'z' || '0' <= exts[i][j] <= '9'
    ensures PlainExtensions(exts)
  {
    forall i | 0 <= i < |exts|
      ensures '.' !in exts[i] && Lower(exts[i]) == exts[i]
    {
      LowerOfLowercase(exts[i]);
    }
  }

  lemma ExtensionListsPlain()
    ensures PlainExtensions(ImageExtensions) && PlainExtensions(VideoExtensions) && PlainExtensions(BrowseVideoExtensions)
  {
    PlainExtensionsFrom(ImageExtensions);
    PlainExtensionsFrom(VideoExtensions);
    PlainExtensionsFrom(BrowseVideoExtensions);
  }

  /**
    Classification (server.js:196-206, 243-244) looks only at the final
    extension, lower-cased: an image for jpg, jpeg, png, gif and webp, a
    video for mp4, mov, avi, mkv and webm, and nothing otherwise (no
    extension included).
  */
  lemma ClassifyByExtension(name: string)
    ensures Classify(name) == match Extension(name)
      case None => Other
      case Some(e) =>
        if Lower(e) in ImageExtensions then Image
        else if Lower(e) in VideoExtensions then Video
        else Other
  {
    ExtensionListsPlain();
    MatchesByExtension(name, ImageExtensions);
    MatchesByExtension(name, VideoExtensions);
  }

  /** No name is both an image and a video, so the order of the two tests never matters. */
  lemma ImageAndVideoDisjoint(name: string)
    ensures !(IsImage(name) && IsVideo(name))
  {
    ExtensionListsPlain();
    MatchesByExtension(name, ImageExtensions);
    MatchesByExtension(name, VideoExtensions);
  }

  /** index.js:68 agrees with server.js:244 except that a `.webm` file is no video there. */
  lemma BrowseVideoMissesWebm(name: string)
    ensures IsBrowseVideo(name) <==> IsVideo(name) && !(Extension(name).Some? && Lower(Extension(name).value) == "webm")
  {
    ExtensionListsPlain();
    MatchesByExtension(name, VideoExtensions);
    MatchesByExtension(name, BrowseVideoExtensions);
  }

  lemma {:induction false} ExtensionOfLower(name: string)
    ensures Extension(Lower(name)).Some? <==> Extension(name).Some?
    ensures Extension(name).Some? ==> Extension(Lower(name)).value == Lower(Extension(name).value)
    decreases |name|
  {
    if name != [] {
      var init := name[..|name| - 1];
      var c := name[|name| - 1];
      assert Lower(name)[..|name| - 1] == Lower(init);
      assert Lower(name)[|name| - 1] == LowerAscii(c);
      ExtensionOfLower(init);
      if c != '.' && Extension(init).Some? {
        var e := Extension(init).value;
        assert Lower(e + [c]) == Lower(e) + [LowerAscii(c)];
      }
    }
  }

  /** The case of ASCII letters never changes the classification. */
  lemma ClassifyIgnoresCase(name: string)
    ensures Classify(Lower(name)) == Classify(name)
  {
    ClassifyByExtension(name);
    ClassifyByExtension(Lower(name));
    ExtensionOfLower(name);
    if Extension(name).Some? {
      var e := Extension(name).value;
      assert Lower(Lower(e)) == Lower(e);
    }
  }
}
