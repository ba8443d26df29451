/** Recognising, normalising and collecting job-listing links on a search
    results page (glassdoorcrawler/scraper.py, `_is_job_listing_href`,
    `_normalize_job_link`, `_extract_job_links_from_search_soup`).
    HTML parsing is not modelled: a page is given as the sequence of its
    `<a>` tags in document order. */
module JobLinks {
  import opened Wrappers
  import opened Text
  import opened FirstSeen

  /** The path fragment that marks an individual job-listing page. */
  const ListingMarker := "/job-listing/"
  /** Prefix given to every href that does not start with "http". */
  const SiteOrigin := "https://www.glassdoor.com"

  /** One `<a>` tag: its `href` attribute, if present, and whether its class
      list contains the legacy `jobLink` class. */
  datatype Anchor = Anchor(href: Option<string>, hasJobLinkClass: bool)

  predicate IsAsciiLetter(c: char) {
    'a' <= c <= 'z' || 'A' <= c <= 'Z'
  }

  /** Characters allowed in a URL scheme. */
  predicate IsSchemeChar(c: char) {
    IsAsciiLetter(c) || '0' <= c <= '9' || c == '+' || c == '-' || c == '.'
  }

  /** The characters `urlsplit` strips from the start of a URL: the C0
      control characters and the space (U+0000 to U+0020). */
  predicate IsC0ControlOrSpace(c: char) {
    c <= ' '
  }

  /** The characters `urlsplit` deletes wherever they occur: tab, CR, LF. */
  predicate IsUnsafeUrlChar(c: char) {
    c == '\t' || c == '\r' || c == '\n'
  }

  /** `url.lstrip(_WHATWG_C0_CONTROL_OR_SPACE)`. */
  function StripLeadingControls(url: string): (r: string)
    ensures |r| <= |url| && r == url[|url| - |r|..]
    ensures r != [] ==> !IsC0ControlOrSpace(r[0])
    ensures forall k :: 0 <= k < |url| - |r| ==> IsC0ControlOrSpace(url[k])
  {
    if url != [] && IsC0ControlOrSpace(url[0]) then StripLeadingControls(url[1..]) else url
  }

  /** Deleting every tab, CR and LF. */
  function RemoveUnsafe(url: string): string {
    if url == [] then []
    else (if IsUnsafeUrlChar(url[0]) then [] else [url[0]]) + RemoveUnsafe(url[1..])
  }

  /** What is left holds no tab, CR or LF and only characters of `url`; a
      text without them is left as it is. */
  lemma {:induction false} RemoveUnsafeMembers(url: string)
    ensures forall c :: c in RemoveUnsafe(url) ==> c in url && !IsUnsafeUrlChar(c)
    ensures (forall c :: c in url ==> !IsUnsafeUrlChar(c)) ==> RemoveUnsafe(url) == url
  {
    if url != [] {
      RemoveUnsafeMembers(url[1..]);
      if forall c :: c in url ==> !IsUnsafeUrlChar(c) {
        assert forall c :: c in url[1..] ==> c in url;
      }
    }
  }

  /** The text `urlsplit` goes on to parse: leading controls and spaces
      stripped, then tab, CR and LF deleted. */
  function CleanUrl(href: string): string {
    RemoveUnsafe(StripLeadingControls(href))
  }

  /** `urlparse(url).scheme` is non-empty exactly when the text before the
      first ':' is a non-empty run of scheme characters starting with a
      letter. `url` is a cleaned href. */
  predicate HasScheme(href: string) {
    var i := IndexOfAny(href, {':'});
    0 < i < |href| && IsAsciiLetter(href[0]) &&
    forall k :: 0 <= k < i ==> IsSchemeChar(href[k])
  }

  /** `urlparse(href).path` for an href that has a scheme: what follows the
      scheme's ':' and the `//authority` part, up to the first '?' or '#'. */
  function SchemePath(href: string): string
    requires HasScheme(href)
  {
    PathAfterScheme(href[IndexOfAny(href, {':'}) + 1..])
  }

  /** The path read from what follows the scheme's ':'. */
  function PathAfterScheme(rest: string): string {
    var afterAuthority :=
      if StartsWith(rest, "//") then rest[2 + IndexOfAny(rest[2..], {'/', '?', '#'})..]
      else rest;
    afterAuthority[..IndexOfAny(afterAuthority, {'?', '#'})]
  }

  /** The text searched for the listing marker: the path of the cleaned URL
      when it has a scheme, otherwise the whole href as given. */
  function HrefPath(href: string): string {
    var url := CleanUrl(href);
    if HasScheme(url) then SchemePath(url) else href
  }

  /** `_is_job_listing_href`: the path contains "/job-listing/", ignoring case. */
  predicate IsJobListingHref(href: string) {
    Contains(Lower(HrefPath(href)), ListingMarker)
  }

  /** `_normalize_job_link`: hrefs starting with "http" are kept, all others
      get the site origin in front. */
  function NormalizeJobLink(href: string): string {
    if StartsWith(href, "http") then href else SiteOrigin + href
  }

  /** A normalised link starts with "http", normalising is idempotent, and
      an href already starting with "http" is returned unchanged. */
  lemma NormalizeJobLinkProperties(href: string)
    ensures StartsWith(NormalizeJobLink(href), "http")
    ensures NormalizeJobLink(NormalizeJobLink(href)) == NormalizeJobLink(href)
    ensures StartsWith(href, "http") <==> NormalizeJobLink(href) == href
  {
    if !StartsWith(href, "http") {
      assert (SiteOrigin + href)[..4] == SiteOrigin[..4];
      if SiteOrigin + href == href {
        assert |SiteOrigin + href| > |href|;
      }
    }
  }

  /** A relative href without ':' is searched whole: it is a job link exactly
      when it contains the marker in any letter case. */
  lemma RelativeHrefIsSearchedWhole(href: string)
    requires ':' !in href
    ensures IsJobListingHref(href) <==> Contains(Lower(href), ListingMarker)
  {
    var url := CleanUrl(href);
    CleanUrlMembers(href);
    assert IndexOfAny(url, {':'}) == |url|;
  }

  /** Leading controls and spaces are stripped whatever follows them. */
  lemma {:induction false} StripLeadingControlsPrefix(pre: string, url: string)
    requires forall k :: 0 <= k < |pre| ==> IsC0ControlOrSpace(pre[k])
    ensures StripLeadingControls(pre + url) == StripLeadingControls(url)
  {
    if pre == [] {
      assert pre + url == url;
    } else {
      assert (pre + url)[0] == pre[0];
      assert (pre + url)[1..] == pre[1..] + url;
      StripLeadingControlsPrefix(pre[1..], url);
    }
  }

  /** Deleting tab, CR and LF works piece by piece. */
  lemma {:induction false} RemoveUnsafeAppend(x: string, y: string)
    ensures RemoveUnsafe(x + y) == RemoveUnsafe(x) + RemoveUnsafe(y)
  {
    if x == [] {
      assert x + y == y;
    } else {
      assert (x + y)[0] == x[0];
      assert (x + y)[1..] == x[1..] + y;
      RemoveUnsafeAppend(x[1..], y);
    }
  }

  /** Cleaning only drops characters. */
  lemma CleanUrlMembers(href: string)
    ensures forall c :: c in CleanUrl(href) ==> c in href && !IsUnsafeUrlChar(c)
  {
    var t := StripLeadingControls(href);
    RemoveUnsafeMembers(t);
    forall c | c in t ensures c in href {
      var k :| 0 <= k < |t| && t[k] == c;
      assert href[|href| - |t| + k] == c;
    }
  }

  /** Cleaning drops only leading controls and spaces and then tab, CR and
      LF: a cleaned href never starts with a control or space, holds no tab,
      CR or LF, and is its own cleaning. */
  lemma CleanUrlProperties(href: string)
    ensures var url := CleanUrl(href);
            (url != [] ==> !IsC0ControlOrSpace(url[0])) &&
            (forall c :: c in url ==> c in href && !IsUnsafeUrlChar(c)) &&
            CleanUrl(url) == url
  {
    var t := StripLeadingControls(href);
    var url := RemoveUnsafe(t);
    RemoveUnsafeMembers(t);
    if t != [] {
      assert !IsUnsafeUrlChar(t[0]);
      assert url == [t[0]] + RemoveUnsafe(t[1..]);
      StripVisibleStart(url);
    }
    CleanUrlMembers(href);
    RemoveUnsafeMembers(url);
  }

  /** A text made only of characters above the space is its own cleaning. */
  lemma CleanUrlOfVisible(s: string)
    requires forall k :: 0 <= k < |s| ==> s[k] > ' '
    ensures CleanUrl(s) == s
  {
    assert StripLeadingControls(s) == s by {
      if s != [] {
        assert s[0] > ' ';
      }
    }
    forall c | c in s ensures !IsUnsafeUrlChar(c) {
      var k :| 0 <= k < |s| && s[k] == c;
    }
    RemoveUnsafeMembers(s);
  }

  /** Two hrefs with the same cleaning and a scheme get the same verdict. */
  lemma SameCleaningSameVerdict(a: string, b: string)
    requires CleanUrl(a) == CleanUrl(b) && HasScheme(CleanUrl(a))
    ensures IsJobListingHref(a) <==> IsJobListingHref(b)
  {
  }

  /** Controls and spaces in front of an href with a scheme do not change
      the verdict: `urlsplit` strips them before reading the scheme. */
  lemma LeadingControlsIgnored(pre: string, href: string)
    requires forall k :: 0 <= k < |pre| ==> IsC0ControlOrSpace(pre[k])
    requires HasScheme(CleanUrl(href))
    ensures CleanUrl(pre + href) == CleanUrl(href)
    ensures IsJobListingHref(pre + href) <==> IsJobListingHref(href)
  {
    StripLeadingControlsPrefix(pre, href);
    SameCleaningSameVerdict(pre + href, href);
  }

  /** Nothing is stripped from a text that starts with a visible character. */
  lemma StripVisibleStart(s: string)
    requires s != [] && !IsC0ControlOrSpace(s[0])
    ensures StripLeadingControls(s) == s
  {
  }

  /** A tab, CR or LF between two texts is deleted. */
  lemma RemoveUnsafeSkips(x: string, c: char, y: string)
    requires IsUnsafeUrlChar(c)
    ensures RemoveUnsafe(x + [c] + y) == RemoveUnsafe(x + y)
  {
    assert RemoveUnsafe([c]) == [] by {
      assert RemoveUnsafe([c]) == [] + RemoveUnsafe([c][1..]);
      assert [c][1..] == [];
    }
    calc {
      RemoveUnsafe(x + [c] + y);
      { RemoveUnsafeAppend(x + [c], y); }
      RemoveUnsafe(x + [c]) + RemoveUnsafe(y);
      { RemoveUnsafeAppend(x, [c]); }
      RemoveUnsafe(x) + RemoveUnsafe([c]) + RemoveUnsafe(y);
      RemoveUnsafe(x) + RemoveUnsafe(y);
      { RemoveUnsafeAppend(x, y); }
      RemoveUnsafe(x + y);
    }
  }

  /** Cleaning deletes a tab, CR or LF that follows a visible start. */
  lemma CleanUrlSkipsUnsafe(x: string, c: char, y: string)
    requires IsUnsafeUrlChar(c)
    requires x != [] && !IsC0ControlOrSpace(x[0])
    ensures CleanUrl(x + [c] + y) == CleanUrl(x + y)
  {
    var u := x + [c] + y;
    var v := x + y;
    assert u[0] == x[0] && v[0] == x[0];
    StripVisibleStart(u);
    StripVisibleStart(v);
    RemoveUnsafeSkips(x, c, y);
  }

  /** A tab, CR or LF inside an href with a scheme does not change the
      verdict: `urlsplit` deletes it before parsing. */
  lemma UnsafeCharIgnored(x: string, c: char, y: string)
    requires IsUnsafeUrlChar(c)
    requires x != [] && !IsC0ControlOrSpace(x[0])
    requires HasScheme(CleanUrl(x + y))
    ensures CleanUrl(x + [c] + y) == CleanUrl(x + y)
    ensures IsJobListingHref(x + [c] + y) <==> IsJobListingHref(x + y)
  {
    var u := x + [c] + y;
    CleanUrlSkipsUnsafe(x, c, y);
    SameCleaningSameVerdict(u, x + y);
  }

  /** The scheme of `scheme:rest` is `scheme` when it is a valid one. */
  lemma SchemeFound(scheme: string, rest: string)
    requires scheme != [] && IsAsciiLetter(scheme[0])
    requires forall k :: 0 <= k < |scheme| ==> IsSchemeChar(scheme[k])
    ensures var url := scheme + [':'] + rest;
            HasScheme(url) && url[IndexOfAny(url, {':'}) + 1..] == rest
  {
    var url := scheme + [':'] + rest;
    IndexOfAnyAfter(scheme, ':', rest, {':'});
    assert url[0] == scheme[0];
    assert forall k :: 0 <= k < |scheme| ==> url[k] == scheme[k];
    assert url[|scheme| + 1..] == rest;
  }

  /** After "//" the authority runs up to the '/' that starts the path. */
  lemma AuthoritySkipped(host: string, path: string, tail: string)
    requires forall k :: 0 <= k < |host| ==> host[k] !in {'/', '?', '#'}
    requires path != [] && path[0] == '/'
    ensures var rest := "//" + host + path + tail;
            StartsWith(rest, "//") && rest[2 + IndexOfAny(rest[2..], {'/', '?', '#'})..] == path + tail
  {
    var rest := "//" + host + path + tail;
    assert rest[2..] == host + ['/'] + (path[1..] + tail);
    IndexOfAnyAfter(host, '/', path[1..] + tail, {'/', '?', '#'});
    assert rest[2 + |host|..] == path + tail;
  }

  /** The path ends where the query or fragment starts. */
  lemma PathBeforeQuery(path: string, tail: string)
    requires forall k :: 0 <= k < |path| ==> path[k] !in {'?', '#'}
    requires tail != [] ==> tail[0] in {'?', '#'}
    ensures (path + tail)[..IndexOfAny(path + tail, {'?', '#'})] == path
  {
    if tail == [] {
      assert path + tail == path;
      IndexOfAnyNone(path, {'?', '#'});
    } else {
      assert path + tail == path + [tail[0]] + tail[1..];
      IndexOfAnyAfter(path, tail[0], tail[1..], {'?', '#'});
    }
  }

  /** The path read after "//host" is the text up to the query or fragment. */
  lemma AuthorityPath(host: string, path: string, tail: string)
    requires forall k :: 0 <= k < |host| ==> host[k] !in {'/', '?', '#'}
    requires path != [] && path[0] == '/'
    requires forall k :: 0 <= k < |path| ==> path[k] !in {'?', '#'}
    requires tail != [] ==> tail[0] in {'?', '#'}
    ensures PathAfterScheme("//" + host + path + tail) == path
  {
    var rest := "//" + host + path + tail;
    AuthoritySkipped(host, path, tail);
    var after := rest[2 + IndexOfAny(rest[2..], {'/', '?', '#'})..];
    assert after == path + tail;
    PathBeforeQuery(path, tail);
  }

  /** How `urlsplit` reads `scheme://host/path` followed by an optional query
      or fragment: the scheme is found and the path is `path`. */
  lemma AbsoluteUrlPath(scheme: string, host: string, path: string, tail: string)
    requires scheme != [] && IsAsciiLetter(scheme[0])
    requires forall k :: 0 <= k < |scheme| ==> IsSchemeChar(scheme[k])
    requires forall k :: 0 <= k < |host| ==> host[k] !in {'/', '?', '#'}
    requires path != [] && path[0] == '/'
    requires forall k :: 0 <= k < |path| ==> path[k] !in {'?', '#'}
    requires tail != [] ==> tail[0] in {'?', '#'}
    ensures HasScheme(scheme + "://" + host + path + tail)
    ensures SchemePath(scheme + "://" + host + path + tail) == path
  {
    var rest := "//" + host + path + tail;
    assert scheme + "://" + host + path + tail == scheme + [':'] + rest;
    SchemeFound(scheme, rest);
    AuthorityPath(host, path, tail);
  }

  /** An href `scheme://host/?query`, with any controls or spaces in front,
      is not a job link whatever its query holds (even the listing marker):
      only its path "/" is searched. */
  lemma QueryNotSearched(pre: string, scheme: string, host: string, query: string)
    requires forall k :: 0 <= k < |pre| ==> IsC0ControlOrSpace(pre[k])
    requires scheme != [] && IsAsciiLetter(scheme[0])
    requires forall k :: 0 <= k < |scheme| ==> IsSchemeChar(scheme[k])
    requires forall k :: 0 <= k < |host| ==> host[k] !in {'/', '?', '#'} && host[k] > ' '
    ensures !IsJobListingHref(pre + scheme + "://" + host + "/?" + query)
  {
    var head := scheme + "://" + host + "/";
    var href := head + ("?" + query);
    assert pre + scheme + "://" + host + "/?" + query == pre + href;
    var tail := "?" + RemoveUnsafe(query);
    HeadIsClean(scheme, host);
    assert CleanUrl(href) == head + tail by {
      StripVisibleStart(href);
      RemoveUnsafeAppend(head, "?" + query);
      RemoveUnsafeAppend("?", query);
      assert RemoveUnsafe("?") == "?";
    }
    AbsoluteUrlPath(scheme, host, "/", tail);
    assert head + tail == scheme + "://" + host + "/" + tail;
    assert !Contains(Lower("/"), ListingMarker) by {
      ContainsIffOccurs(Lower("/"), ListingMarker);
    }
    LeadingControlsIgnored(pre, href);
  }

  /** `scheme://host/` starts with a letter and holds no tab, CR or LF. */
  lemma HeadIsClean(scheme: string, host: string)
    requires scheme != [] && IsAsciiLetter(scheme[0])
    requires forall k :: 0 <= k < |scheme| ==> IsSchemeChar(scheme[k])
    requires forall k :: 0 <= k < |host| ==> host[k] > ' '
    ensures var head := scheme + "://" + host + "/";
            head[0] == scheme[0] && RemoveUnsafe(head) == head
  {
    var head := scheme + "://" + host + "/";
    forall c | c in head ensures !IsUnsafeUrlChar(c) {
      var k :| 0 <= k < |head| && head[k] == c;
      if k < |scheme| {
        assert c == scheme[k];
      } else if k >= |scheme| + 3 && k < |scheme| + 3 + |host| {
        assert c == host[k - |scheme| - 3];
      }
    }
    RemoveUnsafeMembers(head);
  }

  /** The anchors kept by the legacy pass: `jobLink` class and a non-empty
      job-listing href. */
  predicate IsLegacyJobAnchor(a: Anchor) {
    a.hasJobLinkClass && a.href.Some? && a.href.value != "" && IsJobListingHref(a.href.value)
  }

  /** The anchors kept by the scan of all anchors: any job-listing href. */
  predicate IsJobAnchor(a: Anchor) {
    a.href.Some? && IsJobListingHref(a.href.value)
  }

  /** Links appended by the legacy pass over `anchors`, in document order. */
  function LegacyLinks(anchors: seq<Anchor>): seq<string> {
    if anchors == [] then []
    else
      var a := anchors[|anchors| - 1];
      LegacyLinks(anchors[..|anchors| - 1]) +
        (if IsLegacyJobAnchor(a) then [NormalizeJobLink(a.href.value)] else [])
  }

  /** Links appended by the scan of all anchors, in document order. */
  function AnchorScanLinks(anchors: seq<Anchor>): seq<string> {
    if anchors == [] then []
    else
      var a := anchors[|anchors| - 1];
      AnchorScanLinks(anchors[..|anchors| - 1]) +
        (if IsJobAnchor(a) then [NormalizeJobLink(a.href.value)] else [])
  }

  /** The links of a search page: the legacy pass, or the scan of all anchors
      when the legacy pass found nothing, de-duplicated in first-seen order. */
  function SearchPageLinks(anchors: seq<Anchor>): seq<string> {
    var legacy := LegacyLinks(anchors);
    Dedup(if legacy != [] then legacy else AnchorScanLinks(anchors))
  }

  /** A link is found by the legacy pass exactly when some legacy anchor
      normalises to it. */
  lemma {:induction false} LegacyLinksMembers(anchors: seq<Anchor>, link: string)
    ensures link in LegacyLinks(anchors) <==>
            exists k :: 0 <= k < |anchors| && IsLegacyJobAnchor(anchors[k]) &&
                        link == NormalizeJobLink(anchors[k].href.value)
  {
    if anchors != [] {
      var p := anchors[..|anchors| - 1];
      LegacyLinksMembers(p, link);
      forall k | 0 <= k < |p| ensures p[k] == anchors[k] { }
    }
  }

  /** A link is found by the scan of all anchors exactly when some anchor
      with a job-listing href normalises to it. */
  lemma {:induction false} AnchorScanLinksMembers(anchors: seq<Anchor>, link: string)
    ensures link in AnchorScanLinks(anchors) <==>
            exists k :: 0 <= k < |anchors| && IsJobAnchor(anchors[k]) &&
                        link == NormalizeJobLink(anchors[k].href.value)
  {
    if anchors != [] {
      var p := anchors[..|anchors| - 1];
      AnchorScanLinksMembers(p, link);
      forall k | 0 <= k < |p| ensures p[k] == anchors[k] { }
    }
  }

  /** What a search page yields: no repeats; when some anchor passes the
      legacy test, exactly the normalised hrefs of the legacy anchors;
      otherwise exactly the normalised hrefs of all anchors whose path holds
      the listing marker. */
  lemma SearchPageLinksSpec(anchors: seq<Anchor>, link: string)
    ensures NoDups(SearchPageLinks(anchors))
    ensures (exists k :: 0 <= k < |anchors| && IsLegacyJobAnchor(anchors[k])) ==>
              (link in SearchPageLinks(anchors) <==>
               exists k :: 0 <= k < |anchors| && IsLegacyJobAnchor(anchors[k]) &&
                           link == NormalizeJobLink(anchors[k].href.value))
    ensures (forall k :: 0 <= k < |anchors| ==> !IsLegacyJobAnchor(anchors[k])) ==>
              (link in SearchPageLinks(anchors) <==>
               exists k :: 0 <= k < |anchors| && IsJobAnchor(anchors[k]) &&
                           link == NormalizeJobLink(anchors[k].href.value))
  {
    LegacyLinksMembers(anchors, link);
    AnchorScanLinksMembers(anchors, link);
    if exists k :: 0 <= k < |anchors| && IsLegacyJobAnchor(anchors[k]) {
      var k :| 0 <= k < |anchors| && IsLegacyJobAnchor(anchors[k]);
      LegacyLinksMembers(anchors, NormalizeJobLink(anchors[k].href.value));
    } else {
      if LegacyLinks(anchors) != [] {
        LegacyLinksMembers(anchors, LegacyLinks(anchors)[0]);
      }
    }
  }

  /** Every link of a search page is absolute-looking (starts with "http")
      and comes from an href whose path holds the listing marker. */
  lemma SearchPageLinksAreJobLinks(anchors: seq<Anchor>, link: string)
    requires link in SearchPageLinks(anchors)
    ensures StartsWith(link, "http")
    ensures exists k :: 0 <= k < |anchors| && anchors[k].href.Some? &&
              IsJobListingHref(anchors[k].href.value) &&
              link == NormalizeJobLink(anchors[k].href.value)
  {
    SearchPageLinksSpec(anchors, link);
    var k: int;
    if exists j :: 0 <= j < |anchors| && IsLegacyJobAnchor(anchors[j]) {
      k :| 0 <= k < |anchors| && IsLegacyJobAnchor(anchors[k]) &&
           link == NormalizeJobLink(anchors[k].href.value);
    } else {
      k :| 0 <= k < |anchors| && IsJobAnchor(anchors[k]) &&
           link == NormalizeJobLink(anchors[k].href.value);
    }
    NormalizeJobLinkProperties(anchors[k].href.value);
  }

  /** One more anchor of the legacy pass. */
  lemma LegacyLinksStep(anchors: seq<Anchor>, i: nat)
    requires i < |anchors|
    ensures LegacyLinks(anchors[..i + 1]) == LegacyLinks(anchors[..i]) +
              (if IsLegacyJobAnchor(anchors[i]) then [NormalizeJobLink(anchors[i].href.value)] else [])
  {
    assert anchors[..i + 1][..i] == anchors[..i];
  }

  /** One more anchor of the scan of all anchors. */
  lemma AnchorScanLinksStep(anchors: seq<Anchor>, i: nat)
    requires i < |anchors|
    ensures AnchorScanLinks(anchors[..i + 1]) == AnchorScanLinks(anchors[..i]) +
              (if IsJobAnchor(anchors[i]) then [NormalizeJobLink(anchors[i].href.value)] else [])
  {
    assert anchors[..i + 1][..i] == anchors[..i];
  }

  /** `_extract_job_links_from_search_soup`: the legacy loop, the fallback
      loop when the legacy loop appended nothing, then de-duplication. */
  method ExtractJobLinksFromSearch(anchors: seq<Anchor>) returns (links: seq<string>)
    ensures links == SearchPageLinks(anchors)
  {
    var found: seq<string> := [];
    for i := 0 to |anchors|
      invariant found == LegacyLinks(anchors[..i])
    {
      var a := anchors[i];
      LegacyLinksStep(anchors, i);
      if IsLegacyJobAnchor(a) {
        found := found + [NormalizeJobLink(a.href.value)];
      }
    }
    assert anchors[..|anchors|] == anchors;
    if found == [] {
      for i := 0 to |anchors|
        invariant found == AnchorScanLinks(anchors[..i])
      {
        var a := anchors[i];
        AnchorScanLinksStep(anchors, i);
        if IsJobAnchor(a) {
          found := found + [NormalizeJobLink(a.href.value)];
        }
      }
    }
    links := Dedup(found);
  }
}
