# glassdoorcrawler link collection, modelled in Dafny

This project models the link-collection core of glassdoorcrawler, a crawler
that walks the result pages of a Glassdoor job search and then reads each job
page. The model covers:

- the HTTP client that falls back from the primary transport to a
  browser-impersonating transport (profiles `chrome124`, then `safari184`)
  when Cloudflare serves its security page. The fallback is then preferred for
  every later request. This is module `Transport`, with class
  `Transport.HttpClient`.
- job-link recognition and normalisation on a results page, with the legacy
  `jobLink` anchors tried first and a scan of all anchors otherwise
  (`JobLinks`).
- the pagination bootstrap recovered from the first page: the cursor map, the
  location-type mapping and the defaults (`Bootstrap`).
- the backend (BFF) query for a later page and the links read from its JSON
  answer (`Backend`).
- page-URL construction and the ordered, duplicate-free candidate URLs for
  the HTML fallback (`PageUrls`).
- `get_all_links`: the page loop, the choice between backend and candidate
  URLs, the stop rule when a page brings no new link, and the flattening and
  de-duplication done by `crawl_jobs` (`Crawl`).
- the location and salary cells read from a job page's JSON-LD
  `JobPosting` (`JobPosting`).

Supporting modules: `Wrappers` (Option, and a fetch outcome with a network
error), `Text` (the Python string operations used), `FirstSeen`
(`list(dict.fromkeys(...))` and list flattening) and `Json` (parsed JSON
values, `dict.get`, truthiness and `str()`).

The network is represented by oracles: functions from a request to its
response, or to an exception raised by the call (a network error). A fetch is
the first search page, a backend POST, a candidate page, or a transport call.
In the HTTP client an exception leaves the request at once: no later profile
is tried and the preference for the fallback transport stays as it was. Operations that loop or update
state in the source are methods with loops. Each method is proved equal to a
specification function: `ExtractJobLinksFromSearch`, `LinksFromBffResponse`,
`SelectCandidate`, `ResolveLaterPage`, `GetAllLinks`, `ExtractLocation`, and
the methods of `HttpClient`. The properties are lemmas about those functions.
Every source path below is under `glassdoorcrawler/`.

## Model

| member | source | states |
|---|---|---|
| Transport.AcceptedIffNotBlocked | glassdoorcrawler/scraper.py:93 | The fallback loop's test `status < 400 or not security page` accepts a response exactly when it is not the security page. A security page never has a status below 400. |
| Transport.UpperCaseServerBlocked | glassdoorcrawler/scraper.py:45-53 | A 403 whose `server` header is "CLOUDFLARE" and whose body holds "Security \| Glassdoor" is the security page, because the header is lower-cased before the test. |
| Transport.NoTitleNotBlocked | glassdoorcrawler/scraper.py:45-53 | A body without the title "Security \| Glassdoor" is never taken for the security page, whatever the status and header. |
| Transport.FallbackFirstAccepted | glassdoorcrawler/scraper.py:80-97 | When earlier profiles returned rejected responses and profile i returns an accepted one, the loop returns profile i's response with the accepted flag set. Exactly the profiles up to i were called, in order. |
| Transport.FallbackRaisedAt | glassdoorcrawler/scraper.py:80-93 | When earlier profiles returned rejected responses and the call for profile i raises, the exception leaves the loop. No later profile is called and nothing is accepted, so the flag is not set. |
| Transport.FallbackAllRejected | glassdoorcrawler/scraper.py:80-99 | When every profile returns a rejected response, the last profile's response is returned, not accepted, after every profile was called in order. |
| Transport.FallbackFromAccepted | glassdoorcrawler/scraper.py:80-99 | The loop's result is accepted exactly when some profile returns an accepted response after every earlier one returned a rejected response. It is an exception exactly when some profile raises after the same kind of prefix. Its flag agrees with the test on what it returns. It makes between one call and one call per profile, all through the fallback transport for the same request. |
| Transport.RequestOutcomeLatch | glassdoorcrawler/scraper.py:101-134 | After a request the preference flag is set exactly when it was set before, or the fallback was used and returned an accepted response. A set flag is never cleared, and an exception from either transport leaves the flag as it was. The fallback is used only when installed. |
| Transport.PreferredSkipsPrimary | glassdoorcrawler/scraper.py:109-116 | With the preference set and the fallback installed, the primary transport is not called and the fallback loop's response is returned. |
| Transport.PrimaryResponseKept | glassdoorcrawler/scraper.py:118-134 | Without the preference, an exception from the primary transport, or a response that is not the security page, is passed on as it is after one primary call, with the flag unchanged. So is every answer when the fallback library is missing. |
| Transport.BlockedPrimaryRetried | glassdoorcrawler/scraper.py:125-133 | A blocked primary response is retried with chrome124, then safari184. The first accepted response is returned and sets the flag. If both are blocked, safari184's response is returned and the flag stays clear. If chrome124 raises, safari184 is never called; an exception from either leaves the flag clear. The exact call sequence is given for each case. |
| Transport.RunLatch | glassdoorcrawler/scraper.py:109-134 | Over any sequence of requests the flag is never cleared and the trace only grows. Once the flag is set with the fallback installed, no later request reaches the primary transport. |
| Transport.HttpClient.constructor | glassdoorcrawler/scraper.py:38-43 | A new client does not prefer the fallback, has no fallback session, has made no calls, and satisfies `Valid`. |
| Transport.HttpClient.EnsureFallbackSession | glassdoorcrawler/scraper.py:61-66 | It raises exactly when the library is not installed. Otherwise the session is open afterwards, and an open session is kept. |
| Transport.HttpClient.RequestWithFallback | glassdoorcrawler/scraper.py:68-99 | The loop returns the specified fallback result, an exception included. The flag becomes `old flag or accepted`, the calls made are appended to the trace, the session stays open, and `Valid` is preserved. |
| Transport.HttpClient.Send | glassdoorcrawler/scraper.py:101-134 | The response or exception, the new flag and the calls are those of the request specification. The session is open afterwards iff it was before or the fallback was used. `Valid` (flag set implies session open, which implies the library is installed) is preserved. |
| Transport.HttpClient.Get | glassdoorcrawler/scraper.py:136-137 | A GET without payload, with the outcome of the request specification: response, flag, call trace, and the fallback session open iff it was open or the fallback was used. |
| Transport.HttpClient.Post | glassdoorcrawler/scraper.py:139-152 | A POST with a JSON payload, with the outcome of the request specification: response, flag, call trace, and the fallback session open iff it was open or the fallback was used. |
| JobLinks.NormalizeJobLinkProperties | glassdoorcrawler/scraper.py:388-391 | A normalised link starts with "http". Normalising twice is normalising once. A link is left unchanged exactly when it already starts with "http". |
| JobLinks.RelativeHrefIsSearchedWhole | glassdoorcrawler/scraper.py:394-397 | For an href without ':', which has no scheme, the whole href as given, lower-cased, is searched for "/job-listing/". |
| JobLinks.CleanUrlProperties | glassdoorcrawler/scraper.py:395 | The text `urlparse` reads after cleaning never starts with a control character or space, holds no tab, CR or LF, holds only characters of the href, and is its own cleaning. |
| JobLinks.LeadingControlsIgnored | glassdoorcrawler/scraper.py:394-397 | Control characters and spaces in front of an href with a scheme change neither the cleaned text nor the verdict. |
| JobLinks.UnsafeCharIgnored | glassdoorcrawler/scraper.py:394-397 | A tab, CR or LF inside an href with a scheme changes neither the cleaned text nor the verdict. |
| JobLinks.AbsoluteUrlPath | glassdoorcrawler/scraper.py:395-396 | For `scheme://host/path` followed by an optional query or fragment, the scheme is found and the path searched is exactly `path`. |
| JobLinks.QueryNotSearched | glassdoorcrawler/scraper.py:394-397 | An href `scheme://host/?query`, with any controls or spaces in front, is not a job link, even when its query holds "/job-listing/". Only its path "/" is searched. |
| JobLinks.SearchPageLinksSpec | glassdoorcrawler/scraper.py:272-288 | The links have no repeats. When some legacy `jobLink` anchor qualifies, the links are exactly the normalised qualifying legacy hrefs. Otherwise they are exactly the normalised job-listing hrefs of all anchors. |
| JobLinks.SearchPageLinksAreJobLinks | glassdoorcrawler/scraper.py:272-288 | Every link found starts with "http" and is the normalisation of the href of some anchor recognised as a job listing. |
| JobLinks.ExtractJobLinksFromSearch | glassdoorcrawler/scraper.py:272-288 | The two anchor loops compute exactly the specified link list. |
| Bootstrap.MapLocationTypeProperties | glassdoorcrawler/scraper.py:216-222 | The result is CITY, STATE, NATION, METRO or the code itself. Mapping twice is mapping once. A one-letter code is changed exactly when it is C, S, N or M. |
| Bootstrap.CursorMapSpec | glassdoorcrawler/scraper.py:244-248 | A page number is in the cursor map exactly when it is at least 2 and some match carries it. The cursor stored is the one of its last match. |
| Bootstrap.ExtractSearchBootstrapSpec | glassdoorcrawler/scraper.py:225-269 | No bootstrap exactly when there is no payload or no cursor for a page of 2 or more. When there is one, its cursor map holds exactly those pages, missing ids default to 0, logged-in is "true" only, and the location type is mapped. |
| Bootstrap.TestPayloadBootstrap | glassdoorcrawler/scraper.py:225-269 | The unit-test payload gives cursors {2, 3}, CITY, not logged in, and an SEO URL. The listing and location ids written in decimal (123456 and 2514646 in the test, any ids here) are read back as those numbers. |
| Backend.BffPayloadSpec | glassdoorcrawler/scraper.py:306-328 | A query is built exactly when the page has a non-empty cursor. It carries that cursor and page number. It excludes the originating listing iff its id is non-zero, asks for external attributes iff not logged in, and asks for 30 SERP jobs with the bootstrap's search fields. |
| Backend.NoCursorNoRequest | glassdoorcrawler/scraper.py:306-308 | Without a cursor for the page no request is made: the result is no links, whatever the POST would answer. |
| Backend.CollectMembers | glassdoorcrawler/scraper.py:357-364 | When the item loop completes, a link is collected exactly when some item yields it, and no item raised. |
| Backend.ItemLinkSource | glassdoorcrawler/scraper.py:358-364 | An item yields a link only when it is a dictionary whose `jobview.header.seoJobLink` is a non-empty string, and the link is that string normalised. |
| Backend.BffResponseLinksSpec | glassdoorcrawler/scraper.py:352-366 | The response's links have no repeats and start with "http". They are exactly the links its listing items yield. |
| Backend.RaiseAborts | glassdoorcrawler/scraper.py:358-364 | An item that raises (a truthy non-dictionary `jobview` or `header`) aborts the whole response, whatever follows. |
| Backend.LinksFromBffResponse | glassdoorcrawler/scraper.py:352-366 | The item loop computes exactly the specified links, or the abort. |
| PageUrls.ReplaceQueryParamSetsOnlyKey | glassdoorcrawler/scraper.py:483-487 | Setting a parameter keeps the part before the query and the fragment. The key is assigned in the query dictionary and maps to the new value. Every other key keeps its value. |
| PageUrls.SplitUnsplit | glassdoorcrawler/scraper.py:484-487 | Rebuilding a URL from its parts and splitting it again gives the parts back, when the part before the query holds no '?' or '#', the query is non-empty and the query holds no '#' (the parts the page-URL code splits out). |
| PageUrls.ParseEncodedQuery | glassdoorcrawler/scraper.py:485-487 | Encoding a dictionary of plain pairs and parsing it back gives it back. |
| PageUrls.AssignLookup | glassdoorcrawler/scraper.py:486 | After `query[key] = value` the key maps to the value and every other key is unchanged. |
| PageUrls.PageUrlCandidatesSpec | glassdoorcrawler/scraper.py:490-508 | For a later page the candidates have no repeats and start with the `page=` query URL. They hold exactly the constructed URLs, of which there are 2 to 4 before repeats are dropped, and so at most that many after. They include the URL `_build_page_url` gives. |
| PageUrls.PlainBaseCandidates | glassdoorcrawler/scraper.py:490-508 | For a base with no query, fragment or `.htm` ending, the candidates are exactly `base?page=n` and `base?p=n`. |
| PageUrls.BuildPageUrlInjective | glassdoorcrawler/scraper.py:474-480 | Distinct page numbers of 1 or more give distinct page URLs. |
| Crawl.NewCountSpec | glassdoorcrawler/scraper.py:542 | The count of unseen links is positive iff some link is unseen. It equals the number of links iff all are unseen. |
| Crawl.SelectionSpec | glassdoorcrawler/scraper.py:555-573 | The candidate loop tries a prefix of the candidates in order. It stops early only at a non-empty page whose links are all new, and fails exactly when its last fetch raised. Otherwise it keeps the first candidate with the most new links. |
| Crawl.SelectCandidate | glassdoorcrawler/scraper.py:555-573 | The candidate loop computes exactly the specified selection. |
| Crawl.LaterPageSpec | glassdoorcrawler/scraper.py:529-588 | A later page appended is empty or brings a new link. Backend links, when present, are used without fetching candidates, and stop the loop iff none is new. Otherwise a non-empty prefix of the candidates is fetched, in order, and the page fails iff the candidate search failed, stops iff the chosen page has links and none is new, and else appends the chosen links. |
| Crawl.CandidateStep | glassdoorcrawler/scraper.py:554-590 | For a page the backend gave no links for: fail iff the candidate search failed; stop iff it did not fail and the chosen page is non-empty with no new link; otherwise the chosen links are appended. |
| Crawl.ResolveLaterPage | glassdoorcrawler/scraper.py:529-588 | The body of the loop for a later page computes exactly the specified outcome. |
| Crawl.GetAllLinks | glassdoorcrawler/scraper.py:511-596 | The page loop returns exactly the specified pages and makes exactly the specified calls. The method handles page 1 before its loop over later pages; the calls and their order are those of the single loop. |
| Crawl.CrawlSpec | glassdoorcrawler/scraper.py:511-596 | At most `num_pages` pages are collected. The first call fetches the base URL. Every collected page is empty or brings a link no earlier page had. |
| Crawl.CrawlConsistent | glassdoorcrawler/scraper.py:518-591 | `seen_links` is always the set of links of the collected pages, and each collected page is empty or brings a new link. |
| Crawl.CrawlPrefix | glassdoorcrawler/scraper.py:523-596 | Asking for more pages only adds pages at the end. Once the loop stops early, asking for more changes nothing. |
| Crawl.UniqueLinks | glassdoorcrawler/scraper.py:690-691 | The flattened, de-duplicated links have no repeats and are exactly the links of the collected pages. |
| Crawl.UniqueLinksCount | glassdoorcrawler/scraper.py:690-691 | The unique links number at least as many as the non-empty collected pages. |
| Crawl.BackendPaginationScenario | glassdoorcrawler/scraper.py:511-596 | The backend-pagination unit test: pages [[l1, l2], [l2, l3]] are collected, the backend is asked for pages 2 and 3, and no candidate is fetched. |
| Crawl.FallbackSelectionPage | glassdoorcrawler/scraper.py:529-588 | The candidate-fallback unit test's second page: with no bootstrap, the third candidate, the first whose two links are all new, is chosen. The calls fetch the first three candidates in order, and the fourth is never fetched. |
| Crawl.FallbackSelectionRun | glassdoorcrawler/scraper.py:511-596 | The candidate-fallback unit test's run. The first page gives one link and no bootstrap. Page 2 tries its first three candidates in order and takes the third, whose links are all new. The two pages are collected, and the calls are the first fetch and the three candidate fetches. |
| Crawl.HttpSourcesWellFormed | glassdoorcrawler/scraper.py:291-297 | Search pages, candidate pages and backend answers fetched over HTTP give absolute links without repeats. |
| Crawl.HttpCrawlWellFormed | glassdoorcrawler/scraper.py:511-596 | Every page collected over HTTP holds absolute links without repeats. |
| JobPosting.LocationSpec | glassdoorcrawler/scraper.py:400-426 | The location is NaN exactly when `jobLocation` is falsy or no item gives an address line. Otherwise it is non-empty and contains every item's line. It is the " \| "-join of a list that holds every item's line exactly once and nothing else, in the order the lines first occur. |
| JobPosting.LocationLinesMembers | glassdoorcrawler/scraper.py:408-421 | A line is collected exactly when some item gives it, and no collected line is empty. |
| JobPosting.RepeatedLocationsCollapse | glassdoorcrawler/scraper.py:426 | Repeating the location list gives the same location, because repeated lines are dropped. |
| JobPosting.SingleLocationLikeList | glassdoorcrawler/scraper.py:405 | A location given as one dictionary reads like a one-item list. |
| JobPosting.AddressLineOfTwoParts | glassdoorcrawler/scraper.py:415-419 | A stripped locality and region give the line "locality, region". |
| JobPosting.NullLocalityReadsNone | glassdoorcrawler/scraper.py:416 | A null locality is rendered by `str()` as "None", and with no region the line is "None". |
| JobPosting.OneAddressLocation | glassdoorcrawler/scraper.py:400-426 | A posting with one address of locality and region reads "locality, region", as in the JSON-LD unit test. |
| JobPosting.ExtractLocation | glassdoorcrawler/scraper.py:400-426 | The item loop computes exactly the specified location. |
| JobPosting.SalaryFieldsSpec | glassdoorcrawler/scraper.py:429-459 | Without a salary dictionary every cell is missing. With one, the bounds are `minValue`/`maxValue` or missing. The estimate is missing iff there is no `value`, formatted iff the value is a number and the currency truthy, and a formatted amount reads back as the value. |
| JobPosting.SalaryAsWrittenDiffers | glassdoorcrawler/scraper.py:447-456 | The code as written and the corrected reading differ only in the estimate. They differ exactly when the salary dictionary has no `value` and the currency is truthy. |
| JobPosting.SalaryNanWitness | glassdoorcrawler/scraper.py:449-456 | A salary with bounds but no `value`, in BRL, gives the estimate "BRL nan" as written and a missing estimate as intended. |
| JobPosting.SalaryExample | glassdoorcrawler/scraper.py:449-453 | A value of 7000 in BRL gives the estimate "BRL 7000", as in the JSON-LD unit test. |
| Text.StripProperties | glassdoorcrawler/scraper.py:416-417 | `strip()` returns a substring with no surrounding white space. It is empty exactly when the input is all white space. |
| Text.ParseDecimalOfDecimal | glassdoorcrawler/scraper.py:245 | Reading back the decimal digits of a number gives the number. |
| FirstSeen.DedupKeepsFirstOccurrenceOrder | glassdoorcrawler/scraper.py:288 | `list(dict.fromkeys(xs))` keeps elements in the order of their first occurrences. |
| FirstSeen.DedupOfNoDups | glassdoorcrawler/scraper.py:508 | A list without repeats is its own de-duplication. |
| FirstSeen.DedupLength | glassdoorcrawler/scraper.py:691 | The de-duplicated list has one entry per distinct element. |

## Left out

- Network I/O is not modelled: `requests`, `curl_cffi`, `_get`, `raise_for_status`, headers, timeouts, proxies (`_curl_proxies`), `close`. Every fetch, transport calls included, is a deterministic oracle that returns a value or raises an exception (a network error).
- HTML parsing (BeautifulSoup), the regular-expression searches and the JSON decoding of the Next.js payload are not modelled. A page is its anchors plus what the patterns capture.
- `urlparse`/`urlunparse` are modelled only for the query and fragment when page URLs are built. The part before `?` is carried verbatim, so scheme, netloc and path normalisation are left out there.
- JobLinks.IsJobListingHref: follows `urlsplit` as in Python 3.12: leading C0 controls and spaces are stripped, tab, CR and LF are deleted, then scheme, authority and path are read. The `ValueError`s that `urlsplit` raises are not modelled: for an authority with unbalanced `[` or `]`, and (from `_checknetloc`) for a non-ASCII authority whose NFKC normal form holds one of `/ ? # @ :`; Unicode normalisation is outside this model. The `;params` split of `urlparse` is not modelled either. It only cuts text after the last '/', so it cannot remove a "/job-listing/" that ends with '/'.
- Percent-encoding is not modelled. `urlencode` and `parse_qsl` carry keys and values verbatim, and the round-trip lemmas require plain keys and values.
- `str.lower()` is ASCII-only here. `str.strip()` uses Python's white-space set. `int()` reads ASCII digits only.
- JSON floating-point numbers are not modelled, and `repr` of strings inside containers does no escaping.
- Sleeping between pages and logging are left out, and so are the progress bar, the Excel output, `scrap_job_page`, `_extract_page_state`, `_extract_job_posting_jsonld`, the command-line entry points and the package initialiser.
- The `except Exception` around the backend call is modelled as a backend failure. That lets the page fall back to candidate URLs.
- Crawl.BackendPaginationScenario: the unit test's mock answers the backend in call order. The model keys the answer by page number, which gives the same answers here.
- Transport.HttpClient.RequestWithFallback: requires the library to be installed. Both callers check this, so its `RuntimeError` path is modelled only in `EnsureFallbackSession`.
- Transport.HttpClient: the transport-call trace is a ghost field. Both sessions are reduced to whether the fallback session is open.

## Findings

| source | as written | input that shows it | evidently intended | confidence | as-written member | corrected member |
|---|---|---|---|---|---|---|
| glassdoorcrawler/scraper.py:447-456 | A missing exact `value` defaults to `np.nan`, a float, so `isinstance(exact_value, (int, float))` holds. With a currency it is formatted into the text "BRL nan". That text equals itself, so the NaN filter on line 456 keeps it. | `{"baseSalary": {"value": {"minValue": 5000}}, "salaryCurrency": "BRL"}` | The estimate is missing (NaN) when there is no exact value, as for the bounds. | not executed | JobPosting.SalaryNanWitness | JobPosting.SalaryFieldsSpec |
