/** Assembly of the pagination bootstrap from the first results page
    (glassdoorcrawler/scraper.py, `_map_location_type_for_bff` and
    `_extract_search_bootstrap_for_pagination`). Locating the streamed payload,
    JSON-string decoding and the regular-expression searches are not modelled:
    their captures are the input. */
module Bootstrap {
  import opened Wrappers
  import opened Text
  import opened Json

  /** One `{"cursor":"...","pageNumber":N}` occurrence in the payload; the page
      number is the captured run of digits. */
  datatype CursorMatch = CursorMatch(cursor: string, pageDigits: string)

  /** What the regular expressions capture from the decoded payload; `None`
      where a pattern does not match. `filterParams` is the decoded filter
      array, `None` when it does not match or is not valid JSON. */
  datatype PayloadCaptures = PayloadCaptures(
    cursorMatches: seq<CursorMatch>,
    filterParams: Option<Json>,
    absoluteUrl: Option<string>,
    queryString: Option<string>,
    isLoggedIn: Option<string>,
    jobListingIdFromUrl: Option<string>,
    keyword: Option<string>,
    locationId: Option<string>,
    locationType: Option<string>,
    parameterUrlInput: Option<string>,
    seoFriendlyUrlInput: Option<string>,
    seoUrl: Option<string>)

  /** The captures the patterns can produce: page numbers and ids are runs of
      ASCII digits. */
  predicate WellFormedCaptures(c: PayloadCaptures) {
    (forall k :: 0 <= k < |c.cursorMatches| ==> IsDigits(c.cursorMatches[k].pageDigits)) &&
    (c.jobListingIdFromUrl.Some? ==> IsDigits(c.jobListingIdFromUrl.value)) &&
    (c.locationId.Some? ==> IsDigits(c.locationId.value))
  }

  /** Captures as the patterns produce them. */
  type Captures = c: PayloadCaptures | WellFormedCaptures(c)
    witness PayloadCaptures([], None, None, None, None, None, None, None, None, None, None, None)

  /** The parameters of later backend queries, recovered from page 1. */
  datatype SearchBootstrap = SearchBootstrap(
    absoluteUrl: string,
    queryString: string,
    filterParams: Json,
    isLoggedIn: bool,
    jobListingIdFromUrl: nat,
    keyword: string,
    locationId: nat,
    locationType: string,
    parameterUrlInput: string,
    seoFriendlyUrlInput: string,
    seoUrl: bool,
    paginationCursors: map<int, string>)

  /** `_map_location_type_for_bff`. */
  function MapLocationType(code: string): string {
    if code == "C" then "CITY"
    else if code == "S" then "STATE"
    else if code == "N" then "NATION"
    else if code == "M" then "METRO"
    else code
  }

  /** A mapped location type is one of the four backend names or the code
      itself; mapping twice is mapping once; and a one-letter code is
      changed exactly when it is C, S, N or M. */
  lemma MapLocationTypeProperties(code: string)
    ensures MapLocationType(code) in ["CITY", "STATE", "NATION", "METRO"] ||
            MapLocationType(code) == code
    ensures MapLocationType(MapLocationType(code)) == MapLocationType(code)
    ensures |code| == 1 ==>
              (MapLocationType(code) != code <==> code in ["C", "S", "N", "M"])
  {
  }

  /** The page number of a cursor match, `int(page_number)`. */
  function PageOf(m: CursorMatch): nat
    requires IsDigits(m.pageDigits)
  {
    ParseDecimal(m.pageDigits)
  }

  /** The `pagination_cursors` dictionary comprehension: page numbers of 2 or
      more, a later occurrence of a page number replacing an earlier one. */
  function CursorMap(ms: seq<CursorMatch>): (m: map<int, string>)
    requires forall k :: 0 <= k < |ms| ==> IsDigits(ms[k].pageDigits)
  {
    if ms == [] then map[]
    else
      var last := ms[|ms| - 1];
      var earlier := CursorMap(ms[..|ms| - 1]);
      if PageOf(last) >= 2 then earlier[PageOf(last) as int := last.cursor] else earlier
  }

  /** The cursor map holds exactly the page numbers of 2 or more that occur,
      each with the cursor of its last occurrence. */
  lemma {:induction false} CursorMapSpec(ms: seq<CursorMatch>, page: int)
    requires forall k :: 0 <= k < |ms| ==> IsDigits(ms[k].pageDigits)
    ensures page in CursorMap(ms) <==>
              page >= 2 && exists k :: 0 <= k < |ms| && PageOf(ms[k]) == page
    ensures page in CursorMap(ms) ==>
              exists k :: 0 <= k < |ms| && PageOf(ms[k]) == page &&
                CursorMap(ms)[page] == ms[k].cursor &&
                forall j :: k < j < |ms| ==> PageOf(ms[j]) != page
  {
    if ms != [] {
      var n := |ms| - 1;
      var p := ms[..n];
      CursorMapSpec(p, page);
      assert forall k :: 0 <= k < n ==> p[k] == ms[k];
      if PageOf(ms[n]) != page && page in CursorMap(ms) {
        var k :| 0 <= k < |p| && PageOf(p[k]) == page &&
                 CursorMap(p)[page] == p[k].cursor &&
                 forall j :: k < j < |p| ==> PageOf(p[j]) != page;
        assert forall j :: k < j < |ms| ==> PageOf(ms[j]) != page;
      }
    }
  }

  /** `int(raw or "0")` for an optional run of digits. */
  function NumberOrZero(raw: Option<string>): nat
    requires raw.Some? ==> IsDigits(raw.value)
  {
    if raw.Some? then ParseDecimal(raw.value) else 0
  }

  /** `_extract_search_bootstrap_for_pagination` after the payload has been
      found and searched; `None` for the payload means there is none. */
  function ExtractSearchBootstrap(captures: Option<PayloadCaptures>): Option<SearchBootstrap>
    requires captures.Some? ==> WellFormedCaptures(captures.value)
  {
    if captures.None? then None
    else
      var c := captures.value;
      var cursors := CursorMap(c.cursorMatches);
      if cursors == map[] then None
      else Some(SearchBootstrap(
        absoluteUrl := c.absoluteUrl.GetOr(""),
        queryString := c.queryString.GetOr(""),
        filterParams := c.filterParams.GetOr(JArray([])),
        isLoggedIn := c.isLoggedIn == Some("true"),
        jobListingIdFromUrl := NumberOrZero(c.jobListingIdFromUrl),
        keyword := c.keyword.GetOr(""),
        locationId := NumberOrZero(c.locationId),
        locationType := MapLocationType(c.locationType.GetOr("")),
        parameterUrlInput := c.parameterUrlInput.GetOr(""),
        seoFriendlyUrlInput := c.seoFriendlyUrlInput.GetOr(""),
        seoUrl := c.seoUrl == Some("true"),
        paginationCursors := cursors))
  }

  /** The bootstrap is absent exactly when there is no payload or no cursor
      occurrence with a page number of 2 or more; when present its cursor map
      holds exactly those page numbers, every cursor map key is at least 2,
      and missing ids default to 0. */
  lemma ExtractSearchBootstrapSpec(captures: Option<PayloadCaptures>, page: int)
    requires captures.Some? ==> WellFormedCaptures(captures.value)
    ensures ExtractSearchBootstrap(captures).None? <==>
              captures.None? ||
              forall k :: 0 <= k < |captures.value.cursorMatches| ==>
                PageOf(captures.value.cursorMatches[k]) < 2
    ensures ExtractSearchBootstrap(captures).Some? ==>
              var b := ExtractSearchBootstrap(captures).value;
              var c := captures.value;
              (page in b.paginationCursors <==>
                 page >= 2 && exists k :: 0 <= k < |c.cursorMatches| && PageOf(c.cursorMatches[k]) == page) &&
              (c.locationId.None? ==> b.locationId == 0) &&
              (c.jobListingIdFromUrl.None? ==> b.jobListingIdFromUrl == 0) &&
              (b.isLoggedIn <==> c.isLoggedIn == Some("true")) &&
              b.locationType == MapLocationType(c.locationType.GetOr(""))
  {
    if captures.Some? {
      var ms := captures.value.cursorMatches;
      CursorMapSpec(ms, page);
      if CursorMap(ms) == map[] {
        forall k | 0 <= k < |ms| ensures PageOf(ms[k]) < 2 {
          CursorMapSpec(ms, PageOf(ms[k]));
        }
      } else {
        var m := CursorMap(ms);
        if forall k :: 0 <= k < |ms| ==> PageOf(ms[k]) < 2 {
          forall p: int ensures p !in m {
            CursorMapSpec(ms, p);
          }
        }
      }
    }
  }

  /** The unit test's payload: cursors for pages 2 and 3, location type C,
      not logged in, SEO URL, and the listing and location ids written in
      decimal (123456 and 2514646 in the test; here any ids). */
  lemma TestPayloadBootstrap(c: PayloadCaptures, listingId: nat, locationId: nat)
    requires c.cursorMatches == [CursorMatch("cursor-page-2", "2"), CursorMatch("cursor-page-3", "3")]
    requires c.isLoggedIn == Some("false") && c.seoUrl == Some("true") && c.locationType == Some("C")
    requires c.jobListingIdFromUrl == Some(Decimal(listingId)) && c.locationId == Some(Decimal(locationId))
    ensures WellFormedCaptures(c)
    ensures var b := ExtractSearchBootstrap(Some(c));
      b.Some? && b.value.paginationCursors == map[2 := "cursor-page-2", 3 := "cursor-page-3"] &&
      b.value.jobListingIdFromUrl == listingId && b.value.locationId == locationId &&
      b.value.locationType == "CITY" && !b.value.isLoggedIn && b.value.seoUrl
  {
    var ms := c.cursorMatches;
    assert PageOf(ms[0]) == 2 && PageOf(ms[1]) == 3;
    assert ms[..1][..0] == [];
    assert CursorMap(ms[..1]) == map[2 := "cursor-page-2"];
    assert CursorMap(ms) == map[2 := "cursor-page-2", 3 := "cursor-page-3"];
    assert 2 in CursorMap(ms);
    ParseDecimalOfDecimal(listingId);
    ParseDecimalOfDecimal(locationId);
  }
}
