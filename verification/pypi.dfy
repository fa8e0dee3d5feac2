/**
 * Release selection from the PyPI index, the cached `release_info` and
 * `archive_url` properties, and `archive_name`, in their current and their
 * first form.
 */
module PyPi {

  import opened Common
  import opened Strings

  /** One entry of `data['releases'][version]`. */
  datatype Release = Release(filename: string, url: string, pythonVersion: string)

  /** The platform tag both generations look for. */
  const Platform: string := "win_amd64"

  /** A release list of exactly one source distribution is kept as it is. */
  predicate LoneSource(rs: seq<Release>) {
    |rs| == 1 && rs[0].pythonVersion == "source"
  }

  /** The current filter: the platform tag, or `any` between non-word characters. */
  predicate Eligible(r: Release) {
    Contains(r.filename, Platform) || HasBoundedAny(r.filename)
  }

  /** The first form's filter: the platform tag only. */
  predicate OnPlatform(r: Release) {
    Contains(r.filename, Platform)
  }

  /** `[r for r in rs if keep(r)]`. */
  function Keep(rs: seq<Release>, keep: Release -> bool): (r: seq<Release>)
    ensures |r| <= |rs|
    ensures forall x :: x in r <==> x in rs && keep(x)
  {
    if rs == [] then []
    else (if keep(rs[0]) then [rs[0]] else []) + Keep(rs[1..], keep)
  }

  /** Position of the first release `keep` accepts: the reference for "take the first". */
  function FirstKept(rs: seq<Release>, keep: Release -> bool): (r: Option<nat>)
    ensures r.Some? ==> r.value < |rs| && keep(rs[r.value])
    ensures r.Some? ==> forall j :: 0 <= j < r.value ==> !keep(rs[j])
    ensures r.None? ==> forall j :: 0 <= j < |rs| ==> !keep(rs[j])
  {
    if rs == [] then None
    else if keep(rs[0]) then Some(0)
    else match FirstKept(rs[1..], keep)
      case None => None
      case Some(i) => Some(i + 1)
  }

  /** The head of the filtered list is the first accepted release of the original one. */
  lemma {:induction false} KeepHead(rs: seq<Release>, keep: Release -> bool)
    ensures Keep(rs, keep) != [] <==> FirstKept(rs, keep).Some?
    ensures Keep(rs, keep) != [] ==> Keep(rs, keep)[0] == rs[FirstKept(rs, keep).value]
  {
    if rs != [] && !keep(rs[0]) {
      KeepHead(rs[1..], keep);
    }
  }

  /**
   * The selection of `release_info`: keep a lone source release, otherwise
   * filter with `Eligible`; assert that something is left; take the first.
   */
  function SelectRelease(rs: seq<Release>): (r: Result<Release>)
    ensures r.Success? ==> r.value in rs
    ensures LoneSource(rs) ==> r == Success(rs[0])
    ensures !LoneSource(rs) ==> (r.Success? <==> FirstKept(rs, Eligible).Some?)
    ensures !LoneSource(rs) && r.Success? ==> r.value == rs[FirstKept(rs, Eligible).value] && Eligible(r.value)
    ensures r.Failure? ==> r.error.AssertionFailed?
  {
    var kept := if LoneSource(rs) then rs else Keep(rs, Eligible);
    KeepHead(rs, Eligible);
    if |kept| >= 1 then Success(kept[0])
    else Failure(AssertionFailed("No unique release available"))
  }

  /** The first form: keep only platform releases, assert one is left, take the first. */
  function OldSelectRelease(rs: seq<Release>): (r: Result<Release>)
    ensures r.Success? <==> FirstKept(rs, OnPlatform).Some?
    ensures r.Success? ==> r.value == rs[FirstKept(rs, OnPlatform).value] && OnPlatform(r.value)
    ensures r.Failure? ==> r.error.AssertionFailed?
  {
    var kept := Keep(rs, OnPlatform);
    KeepHead(rs, OnPlatform);
    if |kept| >= 1 then Success(kept[0])
    else Failure(AssertionFailed("No unique release available"))
  }

  /**
   * Widening the filter never loses a selection: when the first form finds
   * a platform release, the current one finds one at the same or an earlier
   * position (a lone source release aside).
   */
  lemma {:induction false} SelectionWidened(rs: seq<Release>)
    requires OldSelectRelease(rs).Success? && !LoneSource(rs)
    ensures SelectRelease(rs).Success?
    ensures FirstKept(rs, Eligible).value <= FirstKept(rs, OnPlatform).value
  {
    var k := FirstKept(rs, OnPlatform).value;
    assert Eligible(rs[k]);
  }

  /** The JSON index: `data['releases']`, or the error of fetching it. */
  type Index = Result<map<string, seq<Release>>>

  /**
   * `PyPiPackage.release_info`: the cached `_release_info` when set, otherwise
   * fetch the index, look up the version (KeyError when absent), select and
   * cache.
   */
  function ReleaseInfo(cache: Option<Release>, version: string, index: Index): (r: (Result<Release>, Option<Release>))
    ensures cache.Some? ==> r == (Success(cache.value), cache)
    ensures cache.None? && index.Success? && version !in index.value ==> r.0 == Failure(KeyError(version))
    ensures cache.None? && index.Success? && version in index.value ==> r.0 == SelectRelease(index.value[version])
    ensures r.0.Success? ==> r.1 == Some(r.0.value)
    ensures r.0.Failure? ==> r.1 == cache
  {
    if cache.Some? then (Success(cache.value), cache)
    else match index
      case Failure(e) => (Failure(e), cache)
      case Success(releases) =>
        if version !in releases then (Failure(KeyError(version)), cache)
        else match SelectRelease(releases[version])
          case Failure(e) => (Failure(e), cache)
          case Success(rel) => (Success(rel), Some(rel))
  }

  /** The cached state of a PyPI package: `_archive_url` and `_release_info`. */
  datatype UrlCache = UrlCache(archiveUrl: string, releaseInfo: Option<Release>)

  /** `PyPiPackage.archive_url`: the cached URL when non-empty, otherwise the selected release's URL, cached. */
  function ArchiveUrl(c: UrlCache, version: string, index: Index): (r: (Result<string>, UrlCache))
    ensures c.archiveUrl != "" ==> r == (Success(c.archiveUrl), c)
    ensures c.archiveUrl == "" ==>
      var info := ReleaseInfo(c.releaseInfo, version, index);
      && (r.0.Success? <==> info.0.Success?)
      && (r.0.Success? ==> r.0.value == info.0.value.url && r.1 == UrlCache(info.0.value.url, info.1))
    ensures r.0.Success? ==> r.1.archiveUrl == r.0.value
  {
    if c.archiveUrl != "" then (Success(c.archiveUrl), c)
    else match ReleaseInfo(c.releaseInfo, version, index)
      case (Failure(e), info) => (Failure(e), c.(releaseInfo := info))
      case (Success(rel), info) => (Success(rel.url), UrlCache(rel.url, info))
  }

  /**
   * The index is consulted at most once: after a successful access the next
   * one returns the same URL whatever the index would now say.
   */
  lemma {:induction false} ArchiveUrlCached(c: UrlCache, version: string, index: Index, later: Index)
    requires ArchiveUrl(c, version, index).0.Success?
    ensures var (url, c1) := ArchiveUrl(c, version, index);
      ArchiveUrl(c1, version, later) == (url, c1)
  {
  }

  /** The first form of `archive_url`: `_archive_url` when non-empty, else the first platform release's URL. */
  function OldArchiveUrl(cache: string, version: string, index: Index): (r: (Result<string>, string))
    ensures cache != "" ==> r == (Success(cache), cache)
    ensures cache == "" && index.Success? && version !in index.value ==> r.0 == Failure(KeyError(version))
    ensures cache == "" && index.Success? && version in index.value ==>
      var sel := OldSelectRelease(index.value[version]);
      (r.0.Success? <==> sel.Success?) && (sel.Success? ==> r.0.value == sel.value.url)
    ensures r.0.Success? ==> r.1 == r.0.value
    ensures r.0.Failure? ==> r.1 == cache
  {
    if cache != "" then (Success(cache), cache)
    else match index
      case Failure(e) => (Failure(e), cache)
      case Success(releases) =>
        if version !in releases then (Failure(KeyError(version)), cache)
        else match OldSelectRelease(releases[version])
          case Failure(e) => (Failure(e), cache)
          case Success(rel) => (Success(rel.url), rel.url)
  }

  // ---------------------------------------------------------------------------
  // archive_name

  predicate IsSchemeChar(c: char) {
    ('a' <= c <= 'z') || ('A' <= c <= 'Z') || ('0' <= c <= '9') || c == '+' || c == '-' || c == '.'
  }

  predicate IsAsciiLetter(c: char) {
    ('a' <= c <= 'z') || ('A' <= c <= 'Z')
  }

  function Lower(s: string): (r: string)
    ensures |r| == |s|
  {
    if s == [] then []
    else [if 'A' <= s[0] <= 'Z' then (s[0] - 'A' + 'a') as char else s[0]] + Lower(s[1..])
  }

  /** The schemes for which `urlparse` splits `;params` off the path. */
  const UsesParams: set<string> := {"", "ftp", "hdl", "prospero", "http", "imap", "https", "shttp",
                                    "rtsp", "rtspu", "sip", "sips", "mms", "sftp", "tel"}

  /** The scheme `urlsplit` recognises, and the rest of the URL. */
  function SplitScheme(url: string): (r: (string, string))
    ensures EndsWith(url, r.1)
  {
    match FirstIndexOf(url, ':')
    case None => ("", url)
    case Some(i) =>
      if i > 0 && IsAsciiLetter(url[0]) && forall k :: 0 <= k < i ==> IsSchemeChar(url[k]) then
        assert url[|url| - |url[i + 1..]|..] == url[i + 1..];
        (Lower(url[..i]), url[i + 1..])
      else ("", url)
  }

  /** Position of the first of `/`, `?`, `#` at or after `start`, or the length. */
  function NetlocEnd(s: string, start: nat): (r: nat)
    requires start <= |s|
    ensures start <= r <= |s|
    ensures forall k :: start <= k < r ==> s[k] != '/' && s[k] != '?' && s[k] != '#'
    ensures r < |s| ==> s[r] == '/' || s[r] == '?' || s[r] == '#'
    decreases |s| - start
  {
    if start == |s| then start
    else if s[start] == '/' || s[start] == '?' || s[start] == '#' then start
    else NetlocEnd(s, start + 1)
  }

  /**
   * `_splitparams`: cut at the first `;` at or after the last `/`, or at the
   * first `;` when there is no `/`; without such a `;` the path is kept whole.
   */
  function SplitParams(path: string): (r: string)
    ensures StartsWith(path, r)
    ensures r != path ==> path[|r|] == ';'
    ensures forall k :: |r| < k < |path| ==> path[k] != '/'
    ensures forall k :: 0 <= k < |r| && path[k] == ';' ==> exists j :: k < j < |path| && path[j] == '/'
    ensures ';' !in path ==> r == path
  {
    match LastIndexOf(path, '/')
    case None => Before(path, ';')
    case Some(slash) =>
      match FirstIndexOf(path[slash..], ';')
      case None =>
        assert forall k :: slash <= k < |path| ==> path[k] == path[slash..][k - slash];
        path
      case Some(j) =>
        assert forall k :: slash <= k < slash + j ==> path[k] == path[slash..][k - slash];
        assert path[slash + j] == path[slash..][j];
        path[..slash + j]
  }

  /** The URL after its scheme and, when it starts with `//`, its network location. */
  function AfterNetloc(url: string): (r: string)
    ensures EndsWith(url, r)
  {
    var rest := SplitScheme(url).1;
    if |rest| >= 2 && rest[..2] == "//" then
      var r := rest[NetlocEnd(rest, 2)..];
      assert rest[|rest| - |r|..] == r;
      EndsWithTrans(url, rest, r);
      r
    else rest
  }

  lemma {:induction false} EndsWithTrans(a: string, b: string, c: string)
    requires EndsWith(a, b) && EndsWith(b, c)
    ensures EndsWith(a, c)
  {
    assert a[|a| - |c|..] == b[|b| - |c|..];
  }

  /** `urllib.parse.urlparse(url).path`. */
  function UrlPath(url: string): (r: string)
    ensures '?' !in r && '#' !in r
  {
    var path := Before(Before(AfterNetloc(url), '#'), '?');
    if SplitScheme(url).0 in UsesParams && ';' in path then SplitParams(path) else path
  }

  /** `WebResource.archive_name`: the URL path's text after its last `/`. */
  function ArchiveName(url: string): (r: Result<string>)
    ensures r.Success? <==> '/' in UrlPath(url)
    ensures r.Success? ==> '/' !in r.value && '?' !in r.value && '#' !in r.value
    ensures r.Success? ==> EndsWith(UrlPath(url), "/" + r.value)
  {
    var path := UrlPath(url);
    var r := AfterLastSlash(path);
    if r.Success? then
      SuffixLacks(path, "/" + r.value, '?');
      SuffixLacks(path, "/" + r.value, '#');
      r
    else r
  }

  /** A character absent from a string is absent from its suffixes. */
  lemma {:induction false} SuffixLacks(s: string, t: string, c: char)
    requires EndsWith(s, t) && c !in s
    ensures c !in t && (|t| > 0 ==> c !in t[1..])
  {
    assert forall k :: 0 <= k < |t| ==> t[k] == s[|s| - |t| + k];
  }

  /** The last occurrence of `c` is the one with no `c` after it. */
  lemma {:induction false} LastIndexAt(s: string, c: char, i: nat)
    requires i < |s| && s[i] == c && forall k :: i < k < |s| ==> s[k] != c
    ensures LastIndexOf(s, c) == Some(i)
  {
  }

  /** The first occurrence of `c` is the one with no `c` before it. */
  lemma {:induction false} FirstIndexAt(s: string, c: char, i: nat)
    requires i < |s| && s[i] == c && forall k :: 0 <= k < i ==> s[k] != c
    ensures FirstIndexOf(s, c) == Some(i)
  {
  }

  /** In `x/y;z`, with no `/` in `y` or `z`, the last `/` is the one after `x`. */
  lemma {:induction false} LastSlashAfter(x: string, y: string, z: string)
    requires '/' !in y && '/' !in z
    ensures LastIndexOf(x + "/" + y + ";" + z, '/') == Some(|x|)
  {
    var path := x + "/" + y + ";" + z;
    var n := |x|;
    assert forall k :: n < k <= n + |y| ==> path[k] == y[k - n - 1];
    assert forall k :: n + |y| + 1 < k < |path| ==> path[k] == z[k - n - |y| - 2];
    LastIndexAt(path, '/', n);
  }

  /**
   * Parameters are cut from the last segment only: a `;` before the last `/`
   * stays in the path, the first `;` after it ends the path.
   */
  lemma {:induction false} ParamsOfLastSegment(x: string, y: string, z: string)
    requires '/' !in y && ';' !in y && '/' !in z
    ensures SplitParams(x + "/" + y + ";" + z) == x + "/" + y
  {
    var path := x + "/" + y + ";" + z;
    LastSlashAfter(x, y, z);
    var tail := "/" + y + ";" + z;
    assert path[|x|..] == tail;
    assert forall k :: 1 <= k <= |y| ==> tail[k] == y[k - 1];
    FirstIndexAt(tail, ';', |y| + 1);
    assert path[..|x| + |y| + 1] == x + "/" + y;
  }

  /**
   * For an `http` URL with a plain network location, the path `urlparse`
   * reports is the rest of the URL with its last segment's parameters cut.
   */
  lemma {:induction false} HttpUrlPath(host: string, path: string)
    requires forall k :: 0 <= k < |host| ==> host[k] != '/' && host[k] != '?' && host[k] != '#'
    requires |path| > 0 && path[0] == '/' && '?' !in path && '#' !in path
    ensures UrlPath("http://" + host + path) == SplitParams(path)
  {
    var url := "http://" + host + path;
    assert SplitScheme(url) == ("http", url[5..]) by {
      assert FirstIndexOf(url, ':') == Some(4) by {
        assert url[4] == ':' && forall k :: 0 <= k < 4 ==> url[k] != ':';
      }
      assert url[..4] == "http" && IsAsciiLetter(url[0]) && forall k :: 0 <= k < 4 ==> IsSchemeChar(url[k]);
      assert Lower("http") == "http" by {
        assert "http"[1..] == "ttp" && "ttp"[1..] == "tp" && "tp"[1..] == "p";
      }
    }
    var rest := url[5..];
    var e := 2 + |host|;
    assert AfterNetloc(url) == path by {
      assert rest == "//" + host + path;
      assert rest[e] == '/' && forall k :: 2 <= k < e ==> rest[k] == host[k - 2];
      assert NetlocEnd(rest, 2) == e;
      assert rest[..2] == "//" && rest[e..] == path;
    }
    assert Before(path, '#') == path && Before(path, '?') == path;
    assert "http" in UsesParams;
    if ';' !in path {
      assert SplitParams(path) == path;
    }
  }

  /** The text after the last `/` of `x/y` is `y` when `y` holds no `/`. */
  lemma {:induction false} AfterLastSlashOfSegment(x: string, y: string)
    requires '/' !in y
    ensures AfterLastSlash(x + "/" + y) == Success(y)
  {
    var p := x + "/" + y;
    assert forall k :: |x| < k < |p| ==> p[k] == y[k - |x| - 1];
    LastIndexAt(p, '/', |x|);
    assert p[|x| + 1..] == y;
  }

  /**
   * `archive_name` of an `http` URL whose last segment carries parameters:
   * the name is that segment up to its first `;`, whatever `;` occur earlier
   * (`http://h/a;b/c;d` is named `c`).
   */
  lemma {:induction false} ArchiveNameOfLastSegment(host: string, x: string, y: string, z: string)
    requires forall k :: 0 <= k < |host| ==> host[k] != '/' && host[k] != '?' && host[k] != '#'
    requires (x == "" || x[0] == '/') && '?' !in x && '#' !in x
    requires '/' !in y && ';' !in y && '?' !in y && '#' !in y
    requires '/' !in z && '?' !in z && '#' !in z
    ensures UrlPath("http://" + host + (x + "/" + y + ";" + z)) == x + "/" + y
    ensures ArchiveName("http://" + host + (x + "/" + y + ";" + z)) == Success(y)
  {
    var path := x + "/" + y + ";" + z;
    assert path[0] == '/' && '?' !in path && '#' !in path by {
      assert forall k :: 0 <= k < |path| ==> path[k] in x || path[k] in y || path[k] in z || path[k] in "/;";
    }
    HttpUrlPath(host, path);
    ParamsOfLastSegment(x, y, z);
    AfterLastSlashOfSegment(x, y);
  }

  /** The first form of `archive_name`: the raw URL's text after its last `/`. */
  function OldArchiveName(url: string): (r: Result<string>)
    ensures r.Success? <==> '/' in url
    ensures r.Success? ==> '/' !in r.value && EndsWith(url, "/" + r.value)
  {
    AfterLastSlash(url)
  }

  /** The text after the last `/` of a string is that of any suffix that still holds a `/`. */
  lemma {:induction false} AfterLastSlashSuffix(s: string, t: string)
    requires EndsWith(s, t) && '/' in t
    ensures AfterLastSlash(s) == AfterLastSlash(t)
  {
    var d := |s| - |t|;
    assert forall k :: 0 <= k < |t| ==> t[k] == s[d + k];
    var j := LastIndexOf(t, '/').value;
    assert s[d + j] == '/';
    var i := LastIndexOf(s, '/').value;
    assert i == d + j;
    assert s[i + 1..] == t[j + 1..];
  }

  /**
   * For a URL without query, fragment or parameters the two forms agree
   * whenever the URL path has a `/`.
   */
  lemma {:induction false} ArchiveNamesAgree(url: string)
    requires '?' !in url && '#' !in url && ';' !in url
    requires '/' in UrlPath(url)
    ensures ArchiveName(url) == OldArchiveName(url)
  {
    var rest := AfterNetloc(url);
    SuffixLacks(url, rest, '?');
    SuffixLacks(url, rest, '#');
    SuffixLacks(url, rest, ';');
    assert UrlPath(url) == rest;
    AfterLastSlashSuffix(url, rest);
  }

}
