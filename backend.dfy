/** The paginated backend query for a later results page
    (glassdoorcrawler/scraper.py, `_get_links_from_bff_page`): the request
    payload built from the bootstrap, and the links read from the JSON
    response. The POST itself, `raise_for_status` and `response.json()` are
    one oracle, `post`, that either returns the decoded body or fails. */
module Backend {
  import opened Wrappers
  import opened Text
  import opened FirstSeen
  import opened Json
  import opened JobLinks
  import opened Bootstrap

  /** Page size asked of the backend. */
  const NumJobsToShow := 30
  /** Page-type tag sent with every query. */
  const PageType := "SERP"

  /** The JSON body of the backend query, field by field. */
  datatype BffPayload = BffPayload(
    excludeJobListingIds: seq<int>,
    filterParams: Json,
    includeIndeedJobAttributes: bool,
    keyword: string,
    locationId: int,
    locationType: string,
    numJobsToShow: int,
    originalPageUrl: string,
    pageCursor: string,
    pageNumber: int,
    pageType: string,
    parameterUrlInput: string,
    queryString: string,
    seoFriendlyUrlInput: string,
    seoUrl: bool)

  /** The cursor for `page`, or "" when the bootstrap has none. */
  function CursorFor(page: int, b: SearchBootstrap): string {
    if page in b.paginationCursors then b.paginationCursors[page] else ""
  }

  /** The payload of the query for `page`; `None` when there is no non-empty
      cursor for it, in which case no request is sent. */
  function BffPayloadFor(page: int, b: SearchBootstrap): Option<BffPayload> {
    var cursor := CursorFor(page, b);
    if cursor == "" then None
    else Some(BffPayload(
      excludeJobListingIds := if b.jobListingIdFromUrl != 0 then [b.jobListingIdFromUrl] else [],
      filterParams := b.filterParams,
      includeIndeedJobAttributes := !b.isLoggedIn,
      keyword := b.keyword,
      locationId := b.locationId,
      locationType := b.locationType,
      numJobsToShow := NumJobsToShow,
      originalPageUrl := b.absoluteUrl,
      pageCursor := cursor,
      pageNumber := page,
      pageType := PageType,
      parameterUrlInput := b.parameterUrlInput,
      queryString := b.queryString,
      seoFriendlyUrlInput := b.seoFriendlyUrlInput,
      seoUrl := b.seoUrl))
  }

  /** A query is built exactly when the bootstrap has a non-empty cursor for
      the page, and then carries that cursor and page number, excludes the
      originating listing exactly when its id is non-zero, asks for external
      job attributes exactly when not logged in, and asks for 30 jobs. */
  lemma BffPayloadSpec(page: int, b: SearchBootstrap)
    ensures BffPayloadFor(page, b).Some? <==>
              page in b.paginationCursors && b.paginationCursors[page] != ""
    ensures BffPayloadFor(page, b).Some? ==>
              var p := BffPayloadFor(page, b).value;
              p.pageCursor == b.paginationCursors[page] && p.pageNumber == page &&
              (p.excludeJobListingIds == [b.jobListingIdFromUrl] <==> b.jobListingIdFromUrl != 0) &&
              (p.excludeJobListingIds == [] <==> b.jobListingIdFromUrl == 0) &&
              (p.includeIndeedJobAttributes <==> !b.isLoggedIn) &&
              p.numJobsToShow == 30 && p.pageType == "SERP" &&
              p.keyword == b.keyword && p.locationId == b.locationId &&
              p.locationType == b.locationType && p.originalPageUrl == b.absoluteUrl
  {
  }

  /** What reading one listing item gives: nothing (not a dictionary, or no
      non-empty string link), a normalised link, or an exception (a truthy
      `jobview` or `header` that is not a dictionary). */
  datatype ItemOutcome = Skip | Link(link: string) | Raise

  /** The falsy-to-`{}` step of `(x or {})` followed by `.get(key)`: `None`
      when the value is truthy but not a dictionary, so `.get` raises. */
  function GetFromTruthy(v: Json, key: string): Option<Json> {
    if !Truthy(v) then Some(JNull)
    else if v.JObject? then Some(GetOr(v.fields, key, JNull))
    else None
  }

  /** One iteration of the loop over listing items. */
  function ItemLink(item: Json): ItemOutcome {
    if !item.JObject? then Skip
    else
      match GetFromTruthy(GetOr(item.fields, "jobview", JNull), "header")
      case None => Raise
      case Some(header) =>
        match GetFromTruthy(header, "seoJobLink")
        case None => Raise
        case Some(seo) =>
          if seo.JString? && seo.s != "" then Link(NormalizeJobLink(seo.s)) else Skip
  }

  /** The outcome of each item, in order. */
  function ItemOutcomes(items: seq<Json>): (r: seq<ItemOutcome>)
    ensures |r| == |items| && forall k :: 0 <= k < |items| ==> r[k] == ItemLink(items[k])
  {
    seq(|items|, k requires 0 <= k < |items| => ItemLink(items[k]))
  }

  /** The links the loop appends, in item order; `None` if an item raises. */
  function Collect(outcomes: seq<ItemOutcome>): Option<seq<string>> {
    if outcomes == [] then Some([])
    else
      match Collect(outcomes[..|outcomes| - 1])
      case None => None
      case Some(links) =>
        match outcomes[|outcomes| - 1]
        case Raise => None
        case Skip => Some(links)
        case Link(l) => Some(links + [l])
  }

  /** The listing items of a response body, `None` when reaching them raises:
      `body.get("data", body)` for a dictionary body, `{}` otherwise; then
      `.get("jobListings", {})` and, if that is a dictionary, its
      `"jobListings"` entry. Iterating a string or a dictionary yields no
      dictionaries, and iterating any other scalar raises. */
  function ListingItems(body: Json): Option<seq<Json>> {
    var data := if body.JObject? then GetOr(body.fields, "data", body) else JObject([]);
    match GetFromTruthy(data, "jobListings")
    case None => None
    case Some(section) =>
      var section' := if section == JNull then JObject([]) else section;
      var items := if section'.JObject? then GetOr(section'.fields, "jobListings", JArray([])) else JArray([]);
      match items
      case JArray(xs) => Some(xs)
      case JString(_) => Some([])
      case JObject(_) => Some([])
      case _ => None
  }

  /** The links of a response body, de-duplicated; `None` when reading the
      body raises. */
  function BffResponseLinks(body: Json): Option<seq<string>> {
    match ListingItems(body)
    case None => None
    case Some(items) =>
      match Collect(ItemOutcomes(items))
      case None => None
      case Some(links) => Some(Dedup(links))
  }

  /** The loop collects a link exactly when some item yields it, and it
      completes only when no item raises. */
  lemma {:induction false} CollectMembers(outcomes: seq<ItemOutcome>, link: string)
    requires Collect(outcomes).Some?
    ensures link in Collect(outcomes).value <==> Link(link) in outcomes
    ensures Raise !in outcomes
  {
    if outcomes != [] {
      var n := |outcomes| - 1;
      CollectMembers(outcomes[..n], link);
      assert outcomes == outcomes[..n] + [outcomes[n]];
    }
  }

  /** An item yields a link only when it is a dictionary whose
      `jobview.header.seoJobLink` is a non-empty string, and the link is that
      string normalised. */
  lemma ItemLinkSource(item: Json)
    requires ItemLink(item).Link?
    ensures item.JObject?
    ensures exists s :: s != "" && ItemLink(item).link == NormalizeJobLink(s) &&
              GetFromTruthy(GetOr(item.fields, "jobview", JNull), "header").Some? &&
              GetFromTruthy(GetFromTruthy(GetOr(item.fields, "jobview", JNull), "header").value,
                            "seoJobLink") == Some(JString(s))
  {
  }

  /** The links of a response have no repeats, start with "http", and are
      exactly the normalised links of its items. */
  lemma BffResponseLinksSpec(body: Json, link: string)
    requires BffResponseLinks(body).Some?
    ensures NoDups(BffResponseLinks(body).value)
    ensures link in BffResponseLinks(body).value <==>
              exists k :: 0 <= k < |ListingItems(body).value| &&
                          ItemLink(ListingItems(body).value[k]) == Link(link)
    ensures link in BffResponseLinks(body).value ==> StartsWith(link, "http")
  {
    var items := ListingItems(body).value;
    CollectMembers(ItemOutcomes(items), link);
    if link in BffResponseLinks(body).value {
      var k :| 0 <= k < |items| && ItemOutcomes(items)[k] == Link(link);
      ItemLinkSource(items[k]);
      var s :| s != "" && link == NormalizeJobLink(s) &&
               GetFromTruthy(GetOr(items[k].fields, "jobview", JNull), "header").Some? &&
               GetFromTruthy(GetFromTruthy(GetOr(items[k].fields, "jobview", JNull), "header").value,
                             "seoJobLink") == Some(JString(s));
      NormalizeJobLinkProperties(s);
    }
  }

  /** The result of `_get_links_from_bff_page` as `get_all_links` sees it:
      links, or a failure (a request error, a non-2xx status, an undecodable
      body, or an exception while reading it). */
  datatype BffResult = BffLinks(links: seq<string>) | BffFailed

  /** `_get_links_from_bff_page(page, bootstrap)` with the POST as `post`. */
  function GetLinksFromBffPage(page: int, b: SearchBootstrap, post: BffPayload -> Fetched<Json>): BffResult {
    match BffPayloadFor(page, b)
    case None => BffLinks([])
    case Some(payload) =>
      match post(payload)
      case NetworkError => BffFailed
      case Ok(body) =>
        match BffResponseLinks(body)
        case None => BffFailed
        case Some(links) => BffLinks(links)
  }

  /** Without a cursor for the page the result is no links and does not
      depend on the backend at all: no request is made. */
  lemma NoCursorNoRequest(page: int, b: SearchBootstrap, post1: BffPayload -> Fetched<Json>,
                          post2: BffPayload -> Fetched<Json>)
    requires page !in b.paginationCursors
    ensures GetLinksFromBffPage(page, b, post1) == BffLinks([])
    ensures GetLinksFromBffPage(page, b, post1) == GetLinksFromBffPage(page, b, post2)
  {
  }

  /** The loop over the items of a response body, then de-duplication. */
  method LinksFromBffResponse(body: Json) returns (r: Option<seq<string>>)
    ensures r == BffResponseLinks(body)
  {
    var items := ListingItems(body);
    if items.None? {
      return None;
    }
    var xs := items.value;
    ghost var outcomes := ItemOutcomes(xs);
    var links: seq<string> := [];
    for i := 0 to |xs|
      invariant Collect(outcomes[..i]) == Some(links)
    {
      CollectStep(outcomes, i, links);
      var item := xs[i];
      if !item.JObject? {
        continue;
      }
      var header := GetFromTruthy(GetOr(item.fields, "jobview", JNull), "header");
      if header.None? {
        RaiseAborts(outcomes, i + 1);
        return None;
      }
      var seo := GetFromTruthy(header.value, "seoJobLink");
      if seo.None? {
        RaiseAborts(outcomes, i + 1);
        return None;
      }
      if seo.value.JString? && seo.value.s != "" {
        links := links + [NormalizeJobLink(seo.value.s)];
      }
    }
    assert outcomes[..|xs|] == outcomes;
    r := Some(Dedup(links));
  }

  /** One more item: a raise ends the loop, a link is appended, anything
      else leaves the links as they are. */
  lemma CollectStep(outcomes: seq<ItemOutcome>, i: nat, links: seq<string>)
    requires i < |outcomes| && Collect(outcomes[..i]) == Some(links)
    ensures Collect(outcomes[..i + 1]) ==
            match outcomes[i]
            case Raise => None
            case Skip => Some(links)
            case Link(l) => Some(links + [l])
  {
    assert outcomes[..i + 1][..i] == outcomes[..i];
  }

  /** Once a prefix of the outcomes raises, the whole loop raises. */
  lemma {:induction false} RaiseAborts(outcomes: seq<ItemOutcome>, n: nat)
    requires 0 < n <= |outcomes| && Collect(outcomes[..n]) == None
    ensures Collect(outcomes) == None
    decreases |outcomes| - n
  {
    if n < |outcomes| {
      assert outcomes[..n + 1][..n] == outcomes[..n];
      RaiseAborts(outcomes, n + 1);
    } else {
      assert outcomes[..n] == outcomes;
    }
  }
}
