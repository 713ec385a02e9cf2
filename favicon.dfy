/**
 * The favicon lookup of the browser UI: an http or https page URL is mapped
 * to its origin followed by "/favicon.ico", and the answer is remembered per
 * origin so that every page of a site shares one entry.
 */
module Favicon {
  import opened Wrappers
  import opened Strings

  const HttpPrefix: string := "http://"
  const HttpsPrefix: string := "https://"
  const SchemeSeparator: string := "://"
  const FaviconPath: string := "/favicon.ico"

  /** The `strncmp` tests: the text starts with "http://" or with "https://", in that case. */
  predicate IsHttpUrl(u: string): (b: bool)
    ensures b ==> |HttpPrefix| <= |u| && "http" <= u
  {
    HttpPrefix <= u || HttpsPrefix <= u
  }

  /** `strstr(s + from, pat)`: the first index at or after `from` where pat occurs. */
  function FindFrom(s: string, pat: string, from: nat): (k: Option<nat>)
    requires from <= |s|
    ensures k.Some? ==> from <= k.value && k.value + |pat| <= |s| && s[k.value..k.value + |pat|] == pat
    ensures k.Some? ==> forall j :: from <= j < k.value ==> !(pat <= s[j..])
    ensures k.None? ==> forall j :: from <= j <= |s| ==> !(pat <= s[j..])
    decreases |s| - from
  {
    if pat <= s[from..] then Some(from)
    else if from == |s| then None
    else FindFrom(s, pat, from + 1)
  }

  /** `strchr(s + from, c)`: the first index at or after `from` holding c. */
  function FindChar(s: string, c: char, from: nat): (k: Option<nat>)
    requires from <= |s|
    ensures k.Some? ==> from <= k.value < |s| && s[k.value] == c
    ensures k.Some? ==> forall j :: from <= j < k.value ==> s[j] != c
    ensures k.None? ==> forall j :: from <= j < |s| ==> s[j] != c
    decreases |s| - from
  {
    if from == |s| then None
    else if s[from] == c then Some(from)
    else FindChar(s, c, from + 1)
  }

  /**
   * The origin of a page URL: the URL up to the first '/' after "://", or
   * the whole URL when no '/' follows; none for a URL that is not http or https.
   */
  function Origin(u: string): (o: Option<string>)
    ensures o.Some? ==> IsHttpUrl(u) && o.value <= u
  {
    if !IsHttpUrl(u) then None
    else match FindFrom(u, SchemeSeparator, 0)
      case None => None
      case Some(k) =>
        match FindChar(u, '/', k + |SchemeSeparator|)
        case None => Some(u)
        case Some(slash) => Some(u[..slash])
  }

  /** What GetFaviconURL answers for a page URL, whatever the cache holds. */
  function FaviconURL(pageUrl: string): (r: string)
    ensures r == [] || (|r| >= |FaviconPath| && r[|r| - |FaviconPath|..] == FaviconPath)
  {
    match Origin(CString(pageUrl))
    case None => ""
    case Some(o) => o + FaviconPath
  }

  /** Where the host begins: after "http://" or "https://". */
  function HostStart(u: string): nat
    requires IsHttpUrl(u)
  {
    if HttpPrefix <= u then 7 else 8
  }

  /** "://" first occurs where the scheme ends, so strstr finds that one. */
  lemma {:induction false} SchemeSeparatorFound(u: string)
    requires IsHttpUrl(u)
    ensures FindFrom(u, SchemeSeparator, 0) == Some(HostStart(u) - 3)
  {
    var k := HostStart(u) - 3;
    assert u[k..k + 3] == SchemeSeparator;
    forall j | 0 <= j < k
      ensures !(SchemeSeparator <= u[j..])
    {
      assert u[j] != ':';
    }
    FindFromAt(u, SchemeSeparator, 0, k);
  }

  /** FindFrom settles on the first occurrence. */
  lemma {:induction false} FindFromAt(s: string, pat: string, from: nat, k: nat)
    requires from <= k && k + |pat| <= |s| && s[k..k + |pat|] == pat
    requires forall j :: from <= j < k ==> !(pat <= s[j..])
    ensures FindFrom(s, pat, from) == Some(k)
    decreases k - from
  {
    assert pat <= s[k..];
    if from < k {
      FindFromAt(s, pat, from + 1, k);
    }
  }

  /** The origin of an http(s) URL: a prefix of it, with no '/' in its host, ending where the path begins. */
  lemma OriginShape(u: string)
    requires IsHttpUrl(u)
    ensures Origin(u).Some?
    ensures var o := Origin(u).value;
      o <= u && IsHttpUrl(o) && HostStart(o) == HostStart(u) && HostStart(u) <= |o| &&
      (forall j :: HostStart(u) <= j < |o| ==> o[j] != '/') &&
      (|o| == |u| || u[|o|] == '/')
  {
    SchemeSeparatorFound(u);
    var o := Origin(u).value;
    assert u[..HostStart(u)] <= o;
  }

  /** A URL without the http or https prefix has no origin and no favicon. */
  lemma NonHttpHasNoFavicon(pageUrl: string)
    requires !IsHttpUrl(CString(pageUrl))
    ensures FaviconURL(pageUrl) == ""
  {
  }

  /**
   * Any path after an origin leads back to that origin: pages of one site
   * share their cache entry and their favicon.
   */
  lemma OriginOfPage(o: string, path: string)
    requires IsHttpUrl(o) && HostStart(o) <= |o|
    requires forall j :: HostStart(o) <= j < |o| ==> o[j] != '/'
    requires path == [] || path[0] == '/'
    ensures Origin(o + path) == Some(o)
  {
    var u := o + path;
    assert o <= u;
    SchemeSeparatorFound(u);
    assert HostStart(u) == HostStart(o);
    if path == [] {
      assert u == o;
      assert FindChar(u, '/', HostStart(u)).None?;
    } else {
      assert u[|o|] == '/';
      FindCharAt(u, '/', HostStart(u), |o|);
      assert u[..|o|] == o;
    }
  }

  lemma {:induction false} FindCharAt(s: string, c: char, from: nat, k: nat)
    requires from <= k < |s| && s[k] == c
    requires forall j :: from <= j < k ==> s[j] != c
    ensures FindChar(s, c, from) == Some(k)
    decreases k - from
  {
    if from < k {
      FindCharAt(s, c, from + 1, k);
    }
  }

  /** Two pages of the same origin get the same favicon URL. */
  lemma SameOriginSameFavicon(o: string, p1: string, p2: string)
    requires IsHttpUrl(o) && HostStart(o) <= |o| && '\0' !in o
    requires forall j :: HostStart(o) <= j < |o| ==> o[j] != '/'
    requires p1 == [] || p1[0] == '/'
    requires p2 == [] || p2[0] == '/'
    requires '\0' !in p1 && '\0' !in p2
    ensures FaviconURL(o + p1) == FaviconURL(o + p2) == o + FaviconPath
  {
    NoNulIsCString(o + p1);
    NoNulIsCString(o + p2);
    OriginOfPage(o, p1);
    OriginOfPage(o, p2);
  }

  /** The part of the UI that keeps the favicon cache. */
  class UI {
    /** Favicon URL by origin; only GetFaviconURL writes it. */
    var faviconCache: map<string, string>

    /** Every entry is its origin followed by "/favicon.ico". */
    ghost predicate Valid()
      reads this
    {
      forall o :: o in faviconCache ==> faviconCache[o] == o + FaviconPath
    }

    constructor ()
      ensures Valid() && faviconCache == map[]
    {
      faviconCache := map[];
    }

    /** The scheme test and the two searches of GetFaviconURL. */
    static method OriginOf(url: string) returns (origin: Option<string>)
      ensures origin == Origin(url)
    {
      if !(HttpPrefix <= url) && !(HttpsPrefix <= url) {
        return None;
      }
      var schemeSep := FindFrom(url, SchemeSeparator, 0);
      if schemeSep.None? {
        return None;
      }
      var hostStart := schemeSep.value + |SchemeSeparator|;
      var slashAfterHost := FindChar(url, '/', hostStart);
      origin := Some(if slashAfterHost.None? then url else url[..slashAfterHost.value]);
    }

    /**
     * The favicon URL of a page: "" unless it is http or https; otherwise the
     * cached answer for its origin, or a new one that is then cached.
     */
    method GetFaviconURL(pageUrl: string) returns (r: string)
      requires Valid()
      modifies this
      ensures Valid()
      ensures r == FaviconURL(pageUrl)
      ensures match Origin(CString(pageUrl))
        case None => faviconCache == old(faviconCache)
        case Some(o) =>
          if o in old(faviconCache) then faviconCache == old(faviconCache) && r == old(faviconCache)[o]
          else faviconCache == old(faviconCache)[o := r]
    {
      var found := OriginOf(CString(pageUrl));
      if found.None? {
        return "";
      }
      var origin := found.value;
      if origin in faviconCache {
        return faviconCache[origin];
      }
      var favicon := origin + FaviconPath;
      faviconCache := faviconCache[origin := favicon];
      return favicon;
    }
  }
}
