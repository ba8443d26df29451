/** Page-URL construction for later result pages (glassdoorcrawler/scraper.py,
    `_build_page_url`, `_replace_query_param`, `_build_page_url_candidates`).

    `_replace_query_param` goes through `urlparse`, `parse_qsl`, `dict`,
    `urlencode` and `urlunparse`. The model splits a URL at its first '?' or
    '#' into the part before the query, the query and the fragment; parses
    the query into key/value pairs; rebuilds it as a dictionary; sets the key;
    and joins everything again. Percent-encoding is not modelled: keys and
    values are carried verbatim. */
module PageUrls {
  import opened Wrappers
  import opened Text
  import opened FirstSeen

  /** A URL cut into the text before its query, its query and its fragment. */
  datatype UrlParts = UrlParts(head: string, query: string, fragment: string)

  /** `urlparse` as far as the query is concerned: the query runs from the
      first '?' (when no '#' comes before it) to the first '#' after it. */
  function SplitUrl(url: string): (p: UrlParts)
    ensures '?' !in p.head && '#' !in p.head && '#' !in p.query
  {
    var i := IndexOfAny(url, {'?', '#'});
    if i == |url| then UrlParts(url, "", "")
    else if url[i] == '#' then UrlParts(url[..i], "", url[i + 1..])
    else
      var rest := url[i + 1..];
      var j := IndexOfAny(rest, {'#'});
      UrlParts(url[..i], rest[..j], if j < |rest| then rest[j + 1..] else "")
  }

  /** `urlunparse`: an empty query or fragment is dropped with its delimiter. */
  function UnsplitUrl(p: UrlParts): string {
    p.head + (if p.query != "" then "?" + p.query else "") +
    (if p.fragment != "" then "#" + p.fragment else "")
  }

  /** How `SplitUrl` reads a head without stops, a '?' and the rest. */
  lemma SplitAtQuestion(head: string, rest: string, j: nat)
    requires '?' !in head && '#' !in head
    requires IndexOfAny(rest, {'#'}) == j
    ensures SplitUrl(head + ['?'] + rest) == UrlParts(head, rest[..j], if j < |rest| then rest[j + 1..] else "")
  {
    var url := head + ['?'] + rest;
    QuestionAfterHead(head, rest);
    var i := IndexOfAny(url, {'?', '#'});
    assert url[i] == '?' && i < |url|;
    assert SplitUrl(url) == UrlParts(url[..i], url[i + 1..][..j], if j < |url[i + 1..]| then url[i + 1..][j + 1..] else "");
  }

  /** The pieces of `head + ['?'] + rest` that `SplitUrl` looks at. */
  lemma QuestionAfterHead(head: string, rest: string)
    requires '?' !in head && '#' !in head
    ensures var url := head + ['?'] + rest;
            IndexOfAny(url, {'?', '#'}) == |head| && url[|head|] == '?' &&
            url[..|head|] == head && url[|head| + 1..] == rest
  {
    var url := head + ['?'] + rest;
    IndexOfAnyAfter(head, '?', rest, {'?', '#'});
    assert url[..|head|] == head;
    assert url[|head| + 1..] == rest;
  }

  /** Splitting a rebuilt URL gives its parts back when the head holds no
      '?' or '#', the query is non-empty and holds no '#'. */
  lemma SplitUnsplit(p: UrlParts)
    requires '?' !in p.head && '#' !in p.head && '#' !in p.query && p.query != ""
    ensures SplitUrl(UnsplitUrl(p)) == p
  {
    if p.fragment != "" {
      SplitUnsplitWithFragment(p.head, p.query, p.fragment);
    } else {
      SplitUnsplitWithoutFragment(p.head, p.query);
    }
  }

  lemma SplitUnsplitWithFragment(head: string, query: string, fragment: string)
    requires '?' !in head && '#' !in head && '#' !in query && query != "" && fragment != ""
    ensures SplitUrl(UnsplitUrl(UrlParts(head, query, fragment))) == UrlParts(head, query, fragment)
  {
    var rest := query + ['#'] + fragment;
    assert UnsplitUrl(UrlParts(head, query, fragment)) == head + ['?'] + rest;
    IndexOfAnyAfter(query, '#', fragment, {'#'});
    SplitAtQuestion(head, rest, |query|);
    assert rest[..|query|] == query;
    assert rest[|query| + 1..] == fragment;
  }

  lemma SplitUnsplitWithoutFragment(head: string, query: string)
    requires '?' !in head && '#' !in head && '#' !in query && query != ""
    ensures SplitUrl(UnsplitUrl(UrlParts(head, query, ""))) == UrlParts(head, query, "")
  {
    assert UnsplitUrl(UrlParts(head, query, "")) == head + ['?'] + query;
    IndexOfAnyNone(query, {'#'});
    SplitAtQuestion(head, query, |query|);
    assert query[..|query|] == query;
  }

  type QueryPair = (string, string)

  /** One `key=value` piece of a query; a piece without '=' has an empty value
      (`keep_blank_values=True`). */
  function ParsePiece(piece: string): QueryPair {
    var i := IndexOfAny(piece, {'='});
    if i == |piece| then (piece, "") else (piece[..i], piece[i + 1..])
  }

  /** The pieces of a query in order, skipping empty ones. */
  function ParsePieces(pieces: seq<string>): seq<QueryPair> {
    if pieces == [] then []
    else if pieces[0] == "" then ParsePieces(pieces[1..])
    else [ParsePiece(pieces[0])] + ParsePieces(pieces[1..])
  }

  /** `parse_qsl(query, keep_blank_values=True)`. */
  function ParseQuery(query: string): seq<QueryPair> {
    ParsePieces(Split(query, '&'))
  }

  predicate DistinctKeys(d: seq<QueryPair>) {
    forall i, j :: 0 <= i < j < |d| ==> d[i].0 != d[j].0
  }

  /** Python's `d[key] = value` on a dictionary kept as its items in order:
      an existing key keeps its place, a new key goes last. */
  function Assign(d: seq<QueryPair>, key: string, value: string): (r: seq<QueryPair>)
    ensures |r| == |d| || r == d + [(key, value)]
    ensures DistinctKeys(d) ==> DistinctKeys(r)
    ensures forall i :: 0 <= i < |r| ==> r[i].0 == key || r[i] in d
  {
    if d == [] then [(key, value)]
    else if d[0].0 == key then [(key, value)] + d[1..]
    else [d[0]] + Assign(d[1..], key, value)
  }

  /** The value a dictionary holds for `key`. */
  function Lookup(d: seq<QueryPair>, key: string): Option<string> {
    if d == [] then None
    else if d[0].0 == key then Some(d[0].1)
    else Lookup(d[1..], key)
  }

  /** After `d[key] = value` the key maps to `value` and every other key to
      what it mapped to before. */
  lemma {:induction false} AssignLookup(d: seq<QueryPair>, key: string, value: string, other: string)
    ensures Lookup(Assign(d, key, value), key) == Some(value)
    ensures other != key ==> Lookup(Assign(d, key, value), other) == Lookup(d, other)
  {
    if d != [] && d[0].0 != key {
      AssignLookup(d[1..], key, value, other);
    }
  }

  /** `dict(pairs)`: later pairs overwrite earlier ones with the same key. */
  function ToDict(pairs: seq<QueryPair>): (d: seq<QueryPair>)
    ensures DistinctKeys(d)
  {
    if pairs == [] then []
    else
      var last := pairs[|pairs| - 1];
      Assign(ToDict(pairs[..|pairs| - 1]), last.0, last.1)
  }

  /** Assigning a key that is absent appends it. */
  lemma {:induction false} AssignNew(d: seq<QueryPair>, key: string, value: string)
    requires forall i :: 0 <= i < |d| ==> d[i].0 != key
    ensures Assign(d, key, value) == d + [(key, value)]
  {
    if d != [] {
      AssignNew(d[1..], key, value);
    }
  }

  /** A dictionary rebuilt from its own items is itself. */
  lemma {:induction false} ToDictOfDistinct(d: seq<QueryPair>)
    requires DistinctKeys(d)
    ensures ToDict(d) == d
  {
    if d != [] {
      var p := d[..|d| - 1];
      ToDictOfDistinct(p);
      AssignNew(p, d[|d| - 1].0, d[|d| - 1].1);
      assert p + [d[|d| - 1]] == d;
    }
  }

  /** `urlencode(d)` without percent-encoding. */
  function EncodeQuery(d: seq<QueryPair>): string {
    Join("&", EncodePieces(d))
  }

  function EncodePieces(d: seq<QueryPair>): (r: seq<string>)
    ensures |r| == |d|
    ensures forall i :: 0 <= i < |d| ==> r[i] == d[i].0 + "=" + d[i].1
  {
    if d == [] then [] else [d[0].0 + "=" + d[0].1] + EncodePieces(d[1..])
  }

  /** A key or value that survives encoding and parsing unchanged. */
  predicate PlainPair(p: QueryPair) {
    '&' !in p.0 && '=' !in p.0 && '#' !in p.0 && '&' !in p.1 && '#' !in p.1
  }

  /** Encoding a dictionary of plain pairs and parsing it back gives it back. */
  lemma ParseEncodedQuery(d: seq<QueryPair>)
    requires forall i :: 0 <= i < |d| ==> PlainPair(d[i])
    ensures ParseQuery(EncodeQuery(d)) == d
  {
    var pieces := EncodePieces(d);
    if d == [] {
      assert Split("", '&') == [""];
    } else {
      forall i | 0 <= i < |pieces| ensures '&' !in pieces[i] {
        assert pieces[i] == d[i].0 + "=" + d[i].1;
      }
      SplitJoin(pieces, '&');
      ParsePiecesOfEncoded(d);
    }
  }

  lemma {:induction false} ParsePiecesOfEncoded(d: seq<QueryPair>)
    requires forall i :: 0 <= i < |d| ==> PlainPair(d[i])
    ensures ParsePieces(EncodePieces(d)) == d
  {
    if d != [] {
      var piece := d[0].0 + "=" + d[0].1;
      assert piece[|d[0].0|] == '=';
      assert IndexOfAny(piece, {'='}) == |d[0].0|;
      assert piece[..|d[0].0|] == d[0].0 && piece[|d[0].0| + 1..] == d[0].1;
      ParsePiecesOfEncoded(d[1..]);
    }
  }

  /** The pairs parsed out of a query without '#' are plain. */
  lemma {:induction false} ParsedPiecesArePlain(pieces: seq<string>)
    requires forall k :: 0 <= k < |pieces| ==> '&' !in pieces[k] && '#' !in pieces[k]
    ensures forall i :: 0 <= i < |ParsePieces(pieces)| ==> PlainPair(ParsePieces(pieces)[i])
  {
    if pieces != [] {
      ParsedPiecesArePlain(pieces[1..]);
      if pieces[0] != "" {
        var p := ParsePiece(pieces[0]);
        var i := IndexOfAny(pieces[0], {'='});
        if i < |pieces[0]| {
          assert forall c :: c in p.0 ==> c in pieces[0];
          assert forall c :: c in p.1 ==> c in pieces[0];
        }
      }
    }
  }

  lemma {:induction false} AssignKeepsPlain(d: seq<QueryPair>, key: string, value: string)
    requires forall i :: 0 <= i < |d| ==> PlainPair(d[i])
    requires PlainPair((key, value))
    ensures forall i :: 0 <= i < |Assign(d, key, value)| ==> PlainPair(Assign(d, key, value)[i])
  {
    if d != [] && d[0].0 != key {
      AssignKeepsPlain(d[1..], key, value);
    }
  }

  lemma {:induction false} ToDictKeepsPlain(pairs: seq<QueryPair>)
    requires forall i :: 0 <= i < |pairs| ==> PlainPair(pairs[i])
    ensures forall i :: 0 <= i < |ToDict(pairs)| ==> PlainPair(ToDict(pairs)[i])
  {
    if pairs != [] {
      ToDictKeepsPlain(pairs[..|pairs| - 1]);
      var last := pairs[|pairs| - 1];
      AssignKeepsPlain(ToDict(pairs[..|pairs| - 1]), last.0, last.1);
    }
  }

  /** The query of `url` as the dictionary `_replace_query_param` builds. */
  function QueryDict(url: string): seq<QueryPair> {
    ToDict(ParseQuery(SplitUrl(url).query))
  }

  /** `_replace_query_param(url, key, value)`. */
  function ReplaceQueryParam(url: string, key: string, value: string): string {
    var p := SplitUrl(url);
    UnsplitUrl(p.(query := EncodeQuery(Assign(QueryDict(url), key, value))))
  }

  /** Setting a query parameter changes only the query, and in it only `key`,
      which now maps to `value`; the other parameters keep their values. */
  lemma ReplaceQueryParamSetsOnlyKey(url: string, key: string, value: string)
    requires PlainPair((key, value))
    ensures SplitUrl(ReplaceQueryParam(url, key, value)).head == SplitUrl(url).head
    ensures SplitUrl(ReplaceQueryParam(url, key, value)).fragment == SplitUrl(url).fragment
    ensures QueryDict(ReplaceQueryParam(url, key, value)) == Assign(QueryDict(url), key, value)
    ensures Lookup(QueryDict(ReplaceQueryParam(url, key, value)), key) == Some(value)
    ensures forall other :: other != key ==>
              Lookup(QueryDict(ReplaceQueryParam(url, key, value)), other) == Lookup(QueryDict(url), other)
  {
    var p := SplitUrl(url);
    var pieces := Split(p.query, '&');
    forall k | 0 <= k < |pieces| ensures '&' !in pieces[k] && '#' !in pieces[k] {
      JoinSplit(p.query, '&');
      JoinedPartsOccur(pieces, k, "&");
    }
    ParsedPiecesArePlain(pieces);
    ToDictKeepsPlain(ParseQuery(p.query));
    var d := Assign(QueryDict(url), key, value);
    AssignKeepsPlain(QueryDict(url), key, value);
    var q := EncodeQuery(d);
    assert d != [] by {
      AssignLookup(QueryDict(url), key, value, key);
    }
    assert q != "" by {
      assert EncodePieces(d)[0] == d[0].0 + "=" + d[0].1;
      JoinedPartsOccur(EncodePieces(d), 0, "&");
    }
    assert '#' !in q by {
      EncodedHasNoHash(d);
    }
    SplitUnsplit(p.(query := q));
    ParseEncodedQuery(d);
    ToDictOfDistinct(d);
    forall other | other != key
      ensures Lookup(QueryDict(ReplaceQueryParam(url, key, value)), other) == Lookup(QueryDict(url), other)
    {
      AssignLookup(QueryDict(url), key, value, other);
    }
    AssignLookup(QueryDict(url), key, value, key);
  }

  /** Every character of a part is a character of the joined string. */
  lemma {:induction false} JoinedPartsOccur(parts: seq<string>, k: nat, sep: string)
    requires k < |parts|
    ensures forall c :: c in parts[k] ==> c in Join(sep, parts)
  {
    if k > 0 {
      JoinedPartsOccur(parts[1..], k - 1, sep);
    }
  }

  lemma {:induction false} EncodedHasNoHash(d: seq<QueryPair>)
    requires forall i :: 0 <= i < |d| ==> PlainPair(d[i])
    ensures '#' !in EncodeQuery(d)
  {
    var pieces := EncodePieces(d);
    JoinHasNoChar(pieces, "&", '#');
  }

  lemma {:induction false} JoinHasNoChar(parts: seq<string>, sep: string, c: char)
    requires c !in sep
    requires forall k :: 0 <= k < |parts| ==> c !in parts[k]
    ensures c !in Join(sep, parts)
  {
    if |parts| > 1 {
      JoinHasNoChar(parts[1..], sep, c);
    }
  }

  /** `_build_page_url`: the base URL for page 1 (or less); otherwise the
      legacy `_P<n>.htm` suffix on a `.htm` base, or `?page=<n>` appended. */
  function BuildPageUrl(base: string, page: int): string {
    if page <= 1 then base
    else if EndsWith(base, ".htm") then base[..|base| - 4] + "_P" + IntString(page) + ".htm"
    else base + "?page=" + IntString(page)
  }

  /** The candidate URLs in the order they are appended, before duplicates
      are dropped. */
  function RawPageUrlCandidates(base: string, page: int): seq<string> {
    var n := IntString(page);
    [ReplaceQueryParam(base, "page", n), ReplaceQueryParam(base, "p", n)] +
    (if EndsWith(base, ".htm")
     then [base[..|base| - 4] + "_IP" + n + ".htm", base[..|base| - 4] + "_P" + n + ".htm"]
     else [base + "?page=" + n])
  }

  /** `_build_page_url_candidates`. */
  function BuildPageUrlCandidates(base: string, page: int): seq<string> {
    if page <= 1 then [base] else Dedup(RawPageUrlCandidates(base, page))
  }

  /** For a later page the candidates start with the `page=` query URL, then
      hold every constructed URL exactly once, and always include the URL
      `_build_page_url` gives for that page. */
  lemma PageUrlCandidatesSpec(base: string, page: int)
    requires page >= 2
    ensures var c := BuildPageUrlCandidates(base, page);
      NoDups(c) && 2 <= |RawPageUrlCandidates(base, page)| &&
      |c| <= |RawPageUrlCandidates(base, page)| <= 4 &&
      c[0] == ReplaceQueryParam(base, "page", IntString(page)) &&
      (forall u :: u in c <==> u in RawPageUrlCandidates(base, page)) &&
      BuildPageUrl(base, page) in c
  {
    var raw := RawPageUrlCandidates(base, page);
    var c := Dedup(raw);
    DedupKeepsFirstOccurrenceOrder(raw);
    assert raw[0] in c;
    var k := FirstIndex(c, raw[0]);
    if k > 0 {
      assert false;
    }
    assert raw[|raw| - 1] == BuildPageUrl(base, page);
  }

  /** A URL without '?' or '#' is all head. */
  lemma SplitPlainUrl(base: string)
    requires '?' !in base && '#' !in base
    ensures SplitUrl(base) == UrlParts(base, "", "")
  {
    assert IndexOfAny(base, {'?', '#'}) == |base|;
  }

  /** An empty query holds no parameters. */
  lemma EmptyQueryDict(base: string)
    requires SplitUrl(base).query == ""
    ensures QueryDict(base) == []
  {
    assert Split("", '&') == [""];
    assert ParsePieces([""]) == [];
  }

  /** Setting a parameter on a URL without query or fragment appends
      `?key=value`. */
  lemma ReplaceOnPlainUrl(base: string, key: string, value: string)
    requires '?' !in base && '#' !in base
    ensures ReplaceQueryParam(base, key, value) == base + "?" + key + "=" + value
  {
    SplitPlainUrl(base);
    EmptyQueryDict(base);
    assert Assign([], key, value) == [(key, value)];
    assert EncodePieces([(key, value)]) == [key + "=" + value];
    assert EncodeQuery([(key, value)]) == key + "=" + value;
  }

  /** A list `a, b, a` with `a != b` de-duplicates to `a, b`. */
  lemma DedupRepeatedFirst(a: string, b: string)
    requires a != b
    ensures Dedup([a, b, a]) == [a, b]
  {
    var raw := [a, b, a];
    assert raw[..2][..1] == [a] && [a][..0] == [];
    assert Dedup([a]) == [a];
    assert raw[..2] == [a, b];
    assert Dedup(raw[..2]) == [a, b];
  }

  /** The `page=` and `p=` forms of a URL differ. */
  lemma PageAndPDiffer(base: string, n: string)
    ensures base + "?page=" + n != base + "?p=" + n
  {
    var a := base + "?page=" + n;
    var b := base + "?p=" + n;
    assert a[|base| + 2] == 'a' && b[|base| + 2] == '=';
  }

  /** Without a `.htm` ending the third candidate is the appended `?page=`
      form. */
  lemma RawCandidatesWithoutHtm(base: string, page: int)
    requires !EndsWith(base, ".htm")
    ensures var n := IntString(page);
            RawPageUrlCandidates(base, page) ==
            [ReplaceQueryParam(base, "page", n), ReplaceQueryParam(base, "p", n), base + "?page=" + n]
  {
  }

  /** For a base URL with no query, no fragment and no `.htm` ending, the
      candidates are exactly `base?page=<n>` and `base?p=<n>`: the appended
      `?page=<n>` form repeats the first candidate and is dropped. */
  lemma PlainBaseCandidates(base: string, page: int)
    requires page >= 2
    requires '?' !in base && '#' !in base && !EndsWith(base, ".htm")
    ensures BuildPageUrlCandidates(base, page) ==
            [base + "?page=" + IntString(page), base + "?p=" + IntString(page)]
  {
    var n := IntString(page);
    var a := base + "?page=" + n;
    var b := base + "?p=" + n;
    ReplaceOnPlainUrl(base, "page", n);
    ReplaceOnPlainUrl(base, "p", n);
    assert base + "?" + "page" + "=" + n == a;
    assert base + "?" + "p" + "=" + n == b;
    RawCandidatesWithoutHtm(base, page);
    PageAndPDiffer(base, n);
    DedupRepeatedFirst(a, b);
  }

  /** Distinct page numbers give distinct page URLs. */
  lemma BuildPageUrlInjective(base: string, m: int, n: int)
    requires 1 <= m < n
    ensures BuildPageUrl(base, m) != BuildPageUrl(base, n)
  {
    var um := BuildPageUrl(base, m);
    var un := BuildPageUrl(base, n);
    if m == 1 {
      assert |un| > |base|;
    } else if EndsWith(base, ".htm") {
      var h := base[..|base| - 4] + "_P";
      if um == un {
        assert um[|h|..|um| - 4] == Decimal(m);
        assert un[|h|..|un| - 4] == Decimal(n);
        DecimalInjective(m, n);
      }
    } else {
      var h := base + "?page=";
      if um == un {
        assert um[|h|..] == Decimal(m);
        assert un[|h|..] == Decimal(n);
        DecimalInjective(m, n);
      }
    }
  }
}
