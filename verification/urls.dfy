/**
  The coordinator's page keys. `normalizeUrl` keeps a URL's origin and path and drops its query
  and fragment, so every visit of one page shares one set of saved edits; `isInjectableUrl`
  decides which pages the page script may run in. The URL is split the simple way: a scheme,
  the host up to the first '/', '?' or '#', then the path up to the first '?' or '#'.
*/
module Urls {
  import Strings

  const Http := "http://"
  const Https := "https://"

  /** `isInjectableUrl`: the URL starts with `http://` or `https://`. */
  predicate IsInjectable(url: string) {
    Strings.StartsWith(url, Http) || Strings.StartsWith(url, Https)
  }

  /** The length of the scheme and its `//`, or 0 for a scheme the split does not know. */
  function SchemeLength(url: string): (k: nat)
    ensures k <= |url|
  {
    if Strings.StartsWith(url, Http) then |Http|
    else if Strings.StartsWith(url, Https) then |Https|
    else 0
  }

  /** The first index from `i` on that holds one of `stops`, or the length of `s`. */
  function FirstOf(s: string, i: nat, stops: set<char>): (n: nat)
    requires i <= |s|
    ensures i <= n <= |s|
    decreases |s| - i
  {
    if i == |s| || s[i] in stops then i else FirstOf(s, i + 1, stops)
  }

  /** `FirstOf` stops at the first stop character and nowhere earlier. */
  lemma {:induction false} FirstOfSpec(s: string, i: nat, stops: set<char>)
    requires i <= |s|
    ensures var n := FirstOf(s, i, stops);
      && (forall j | i <= j < n :: s[j] !in stops)
      && (n < |s| ==> s[n] in stops)
    decreases |s| - i
  {
    if i < |s| && s[i] !in stops {
      FirstOfSpec(s, i + 1, stops);
    }
  }

  /** `FirstOf` from `i` is `n` when no stop lies in between and `n` is a stop or the end. */
  lemma {:induction false} FirstOfAt(s: string, i: nat, n: nat, stops: set<char>)
    requires i <= n <= |s|
    requires forall j | i <= j < n :: s[j] !in stops
    requires n < |s| ==> s[n] in stops
    ensures FirstOf(s, i, stops) == n
    decreases n - i
  {
    if i < n {
      FirstOfAt(s, i + 1, n, stops);
    }
  }

  const HostStops: set<char> := {'/', '?', '#'}
  const PathStops: set<char> := {'?', '#'}

  /** The end of the host: the first '/', '?' or '#' after the scheme. */
  function HostEnd(url: string): nat
    requires SchemeLength(url) > 0
  {
    FirstOf(url, SchemeLength(url), HostStops)
  }

  /** The split succeeds: a known scheme followed by a non-empty host (`new URL` would throw otherwise). */
  predicate Parsable(url: string) {
    SchemeLength(url) > 0 && HostEnd(url) > SchemeLength(url)
  }

  /**
    `normalizeUrl`: `origin + pathname`, where an empty path reads as "/"; what cannot be parsed
    is returned unchanged.
  */
  function NormalizeUrl(url: string): (key: string) {
    if !Parsable(url) then url
    else
      var h := HostEnd(url);
      var e := FirstOf(url, h, PathStops);
      url[..h] + (if e == h then "/" else url[h..e])
  }

  // ---------------------------------------------------------------- properties

  /** What cannot be parsed is its own key. */
  lemma UnparsableUnchanged(url: string)
    requires !Parsable(url)
    ensures NormalizeUrl(url) == url
  {
  }

  /**
    A key is the address up to its query or fragment, with "/" standing in for an empty path: it
    keeps the origin and the path, has neither a query nor a fragment, and its path starts with '/'.
  */
  lemma NormalizedHasNoQuery(url: string)
    requires Parsable(url)
    ensures var r, e := NormalizeUrl(url), FirstOf(url, HostEnd(url), PathStops);
      && r == url[..e] + (if e == HostEnd(url) then "/" else "")
      && '?' !in r && '#' !in r
      && r[..HostEnd(url)] == url[..HostEnd(url)]
      && |r| > HostEnd(url) && r[HostEnd(url)] == '/'
  {
    var k, h := SchemeLength(url), HostEnd(url);
    var e := FirstOf(url, h, PathStops);
    FirstOfSpec(url, k, HostStops);
    FirstOfSpec(url, h, PathStops);
    var r := NormalizeUrl(url);
    assert r[..h] == url[..h];
    forall j | 0 <= j < |r|
      ensures r[j] != '?' && r[j] != '#'
    {
      if j < k {
        if k == |Http| { assert r[j] == Http[j]; } else { assert r[j] == Https[j]; }
      } else if j < h {
        assert r[j] == url[j];
      } else if e != h {
        assert r[j] == url[j];
      }
    }
    if h < |url| && e != h {
      assert url[h] !in PathStops;
    }
  }

  /** An address with a path and neither query nor fragment is its own key. */
  lemma PlainAddressIsKey(url: string)
    requires Parsable(url) && '?' !in url && '#' !in url && HostEnd(url) < |url|
    ensures NormalizeUrl(url) == url
  {
    var h := HostEnd(url);
    FirstOfSpec(url, SchemeLength(url), HostStops);
    assert forall j | h <= j < |url| :: url[j] !in PathStops;
    FirstOfAt(url, h, |url|, PathStops);
    assert url[..h] + url[h..|url|] == url;
  }

  /** Normalizing a key gives the key back. */
  lemma NormalizeIdempotent(url: string)
    ensures NormalizeUrl(NormalizeUrl(url)) == NormalizeUrl(url)
  {
    if Parsable(url) {
      var r := NormalizeUrl(url);
      var k, h := SchemeLength(url), HostEnd(url);
      NormalizedHasNoQuery(url);
      FirstOfSpec(url, k, HostStops);
      assert r[..k] == url[..k];
      assert SchemeLength(r) == k;
      assert forall j | k <= j < h :: r[j] == url[j];
      FirstOfAt(r, k, h, HostStops);
      assert forall j | h <= j < |r| :: r[j] !in PathStops;
      FirstOfAt(r, h, |r|, PathStops);
      assert r[..h] + r[h..|r|] == r;
    }
  }

  /** Two addresses of one page that differ only in their query or fragment get the same key. */
  lemma QueryAndFragmentIgnored(url: string, suffix: string)
    requires Parsable(url) && '?' !in url && '#' !in url
    requires |suffix| > 0 && suffix[0] in PathStops
    ensures Parsable(url + suffix) && NormalizeUrl(url + suffix) == NormalizeUrl(url)
  {
    var v := url + suffix;
    var k, h := SchemeLength(url), HostEnd(url);
    assert v[..|url|] == url;
    assert v[..k] == url[..k];
    assert SchemeLength(v) == k;
    FirstOfSpec(url, k, HostStops);
    assert url[..h] == v[..h];
    assert forall j | k <= j < h :: v[j] == url[j];
    FirstOfAt(v, k, h, HostStops);
    var e := FirstOf(url, h, PathStops);
    FirstOfSpec(url, h, PathStops);
    assert e == |url|;
    assert forall j | h <= j < |url| :: v[j] == url[j] && url[j] !in PathStops;
    FirstOfAt(v, h, |url|, PathStops);
    assert v[h..|url|] == url[h..|url|];
  }

  /** Normalizing never changes whether a page is injectable. */
  lemma NormalizeKeepsInjectable(url: string)
    ensures IsInjectable(NormalizeUrl(url)) == IsInjectable(url)
  {
    if Parsable(url) {
      var r := NormalizeUrl(url);
      NormalizedHasNoQuery(url);
      var h := HostEnd(url);
      assert r[..|Http|] == url[..|Http|] by {
        assert r[..h][..|Http|] == r[..|Http|];
        assert url[..h][..|Http|] == url[..|Http|];
      }
      if |url| >= |Https| && |r| >= |Https| {
        assert r[..h][..|Https|] == r[..|Https|];
        assert url[..h][..|Https|] == url[..|Https|];
      }
    }
  }

  /** Every page the split can parse is injectable. */
  lemma ParsableIsInjectable(url: string)
    requires Parsable(url)
    ensures IsInjectable(url)
  {
  }
}
