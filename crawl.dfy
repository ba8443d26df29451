/** The result-page loop of glassdoorcrawler/scraper.py (`get_all_links`) and
    the flatten-and-deduplicate step of `crawl_jobs`. The three fetchers the
    loop calls (`_get_search_page_links_and_bootstrap`,
    `_get_links_from_bff_page`, `get_position_links`) are oracles; the calls
    made are recorded in order. */
module Crawl {
  import opened Wrappers
  import opened Text
  import opened FirstSeen
  import opened Json
  import opened JobLinks
  import opened Bootstrap
  import opened Backend
  import opened PageUrls

  /** What the first results page yields: its links and the bootstrap. */
  datatype SearchResult = SearchResult(links: seq<string>, bootstrap: Option<SearchBootstrap>)

  /** The fetchers the loop calls. `NetworkError` and `BffFailed` stand for a
      raised exception. */
  datatype Sources = Sources(
    searchPage: string -> Fetched<SearchResult>,
    bffPage: (int, SearchBootstrap) -> BffResult,
    positionLinks: string -> Fetched<seq<string>>)

  /** One call to a fetcher. */
  datatype Call = SearchCall(url: string) | BffCall(page: int) | PositionCall(url: string)

  /** The links not yet seen, in order. */
  function Unseen(links: seq<string>, seen: set<string>): (r: seq<string>)
    ensures forall l :: l in r <==> l in links && l !in seen
    ensures |r| <= |links|
  {
    if links == [] then []
    else (if links[0] in seen then [] else [links[0]]) + Unseen(links[1..], seen)
  }

  /** `len([link for link in links if link not in seen])`. */
  function NewCount(links: seq<string>, seen: set<string>): nat {
    |Unseen(links, seen)|
  }

  /** The count is positive exactly when some link is new, and equals the
      number of links exactly when every link is new. */
  lemma {:induction false} NewCountSpec(links: seq<string>, seen: set<string>)
    ensures NewCount(links, seen) > 0 <==> exists l :: l in links && l !in seen
    ensures NewCount(links, seen) == |links| <==> forall l :: l in links ==> l !in seen
  {
    if links != [] {
      NewCountSpec(links[1..], seen);
      assert links == [links[0]] + links[1..];
      if NewCount(links, seen) > 0 {
        var l :| l in Unseen(links, seen);
      }
    }
  }

  /** A candidate page whose links are all new ends the search early. */
  predicate AllNew(links: seq<string>, seen: set<string>) {
    links != [] && NewCount(links, seen) == |links|
  }

  /** The best candidate so far (`best_links`, `best_url`, `best_new_count`),
      the candidates fetched so far, and whether a fetch raised. */
  datatype Selection = Selection(links: seq<string>, url: Option<string>, newCount: int,
                                 tried: seq<string>, failed: bool)

  const NoSelection := Selection([], None, -1, [], false)

  /** The candidate loop from candidate `i` on: a strictly larger count of new
      links replaces the best, a page of only new links stops the search, and
      a fetch that raises aborts it. */
  function SelectFrom(cands: seq<string>, i: nat, seen: set<string>,
                      fetch: string -> Fetched<seq<string>>, best: Selection): Selection
    requires i <= |cands|
    decreases |cands| - i
  {
    if i == |cands| then best
    else
      match fetch(cands[i])
      case NetworkError => best.(tried := best.tried + [cands[i]], failed := true)
      case Ok(links) =>
        var best' := Consider(best, cands[i], links, seen);
        if AllNew(links, seen) then best' else SelectFrom(cands, i + 1, seen, fetch, best')
  }

  /** The new-link count of a fetched candidate. */
  function CountAt(fetch: string -> Fetched<seq<string>>, url: string, seen: set<string>): nat {
    if fetch(url).Ok? then NewCount(fetch(url).value, seen) else 0
  }
  /** `cands[k]`, among the first `t` candidates, is the first with the
      largest count of new links, and `sel` holds it. */
  predicate BestAmong(cands: seq<string>, t: nat, seen: set<string>,
                      fetch: string -> Fetched<seq<string>>, sel: Selection, k: nat)
    requires t <= |cands|
  {
    k < t && fetch(cands[k]).Ok? && sel.url == Some(cands[k]) && sel.links == fetch(cands[k]).value &&
    sel.newCount == NewCount(sel.links, seen) &&
    (forall j :: 0 <= j < t ==> CountAt(fetch, cands[j], seen) <= sel.newCount) &&
    (forall j :: 0 <= j < k ==> CountAt(fetch, cands[j], seen) < sel.newCount)
  }

  /** What the candidate search promises. */
  predicate SelectionOutcome(cands: seq<string>, seen: set<string>,
                             fetch: string -> Fetched<seq<string>>, r: Selection)
  {
    var t := |r.tried|;
    1 <= t <= |cands| && r.tried == cands[..t] &&
    (forall j :: 0 <= j < t - 1 ==> fetch(cands[j]).Ok? && !AllNew(fetch(cands[j]).value, seen)) &&
    (r.failed <==> fetch(cands[t - 1]).NetworkError?) &&
    (!r.failed && t < |cands| ==> AllNew(fetch(cands[t - 1]).value, seen)) &&
    (!r.failed ==> exists k :: 0 <= k < t && BestAmong(cands, t, seen, fetch, r, k))
  }

  /** The selection after a candidate that fetched: a strictly larger count
      replaces the best. */
  function Consider(sel: Selection, url: string, links: seq<string>, seen: set<string>): Selection {
    var n := NewCount(links, seen);
    if n > sel.newCount then Selection(links, Some(url), n, sel.tried + [url], false)
    else sel.(tried := sel.tried + [url])
  }

  /** A candidate whose fetch raises ends the search. */
  lemma SelectFailsAt(cands: seq<string>, i: nat, seen: set<string>,
                      fetch: string -> Fetched<seq<string>>, sel: Selection)
    requires i < |cands| && fetch(cands[i]).NetworkError?
    ensures SelectFrom(cands, i, seen, fetch, sel) == sel.(tried := sel.tried + [cands[i]], failed := true)
  {
  }

  /** A candidate that fetched only new links ends the search. */
  lemma SelectStopsAt(cands: seq<string>, i: nat, seen: set<string>,
                      fetch: string -> Fetched<seq<string>>, sel: Selection, links: seq<string>)
    requires i < |cands| && fetch(cands[i]) == Ok(links) && AllNew(links, seen)
    ensures SelectFrom(cands, i, seen, fetch, sel) == Consider(sel, cands[i], links, seen)
  {
  }

  /** A candidate that fetched and was not all new hands on to the next. */
  lemma SelectPassesOver(cands: seq<string>, i: nat, seen: set<string>,
                         fetch: string -> Fetched<seq<string>>, sel: Selection, links: seq<string>)
    requires i < |cands| && fetch(cands[i]) == Ok(links) && !AllNew(links, seen)
    ensures SelectFrom(cands, i, seen, fetch, sel) == SelectFrom(cands, i + 1, seen, fetch, Consider(sel, cands[i], links, seen))
  {
  }

  /** From candidate `i` on, the search fetches candidates in order, passes
      over only those that fetched and were not all new, and ends at a fetch
      that raised, at an all-new page or at the last candidate. */
  lemma {:induction false} SearchTried(cands: seq<string>, i: nat, seen: set<string>,
                                       fetch: string -> Fetched<seq<string>>, sel: Selection)
    returns (r: Selection)
    requires i < |cands| && sel.tried == cands[..i] && !sel.failed
    ensures r == SelectFrom(cands, i, seen, fetch, sel)
    ensures i < |r.tried| <= |cands| && r.tried == cands[..|r.tried|]
    ensures forall j :: i <= j < |r.tried| - 1 ==> fetch(cands[j]).Ok? && !AllNew(fetch(cands[j]).value, seen)
    ensures r.failed <==> fetch(cands[|r.tried| - 1]).NetworkError?
    ensures !r.failed && |r.tried| < |cands| ==> AllNew(fetch(cands[|r.tried| - 1]).value, seen)
    decreases |cands| - i
  {
    assert sel.tried + [cands[i]] == cands[..i + 1];
    if fetch(cands[i]).NetworkError? {
      SelectFailsAt(cands, i, seen, fetch, sel);
      r := sel.(tried := sel.tried + [cands[i]], failed := true);
    } else {
      var links := fetch(cands[i]).value;
      var next := Consider(sel, cands[i], links, seen);
      assert next.tried == cands[..i + 1] && !next.failed;
      if AllNew(links, seen) {
        SelectStopsAt(cands, i, seen, fetch, sel, links);
        r := next;
      } else {
        SelectPassesOver(cands, i, seen, fetch, sel, links);
        if i + 1 < |cands| {
          r := SearchTried(cands, i + 1, seen, fetch, next);
        } else {
          assert SelectFrom(cands, i + 1, seen, fetch, next) == next;
          r := next;
        }
      }
    }
  }

  /** Considering one more candidate that fetched keeps the best among all
      candidates considered. */
  lemma ConsiderBest(cands: seq<string>, i: nat, seen: set<string>,
                     fetch: string -> Fetched<seq<string>>, sel: Selection, k: nat)
    requires i < |cands| && |sel.tried| == i && !sel.failed
    requires i == 0 ==> sel.newCount < 0
    requires i > 0 ==> BestAmong(cands, i, seen, fetch, sel, k)
    requires fetch(cands[i]).Ok?
    ensures var next := Consider(sel, cands[i], fetch(cands[i]).value, seen);
            |next.tried| == i + 1 && !next.failed &&
            BestAmong(cands, i + 1, seen, fetch, next,
                      if NewCount(fetch(cands[i]).value, seen) > sel.newCount then i else k)
  {
    assert CountAt(fetch, cands[i], seen) == NewCount(fetch(cands[i]).value, seen);
  }

  /** From candidate `i` on, a search that does not fail ends holding the
      first candidate with the largest count of new links, given that `sel`
      holds the best of the candidates before `i`. */
  lemma {:induction false} SearchBest(cands: seq<string>, i: nat, seen: set<string>,
                                      fetch: string -> Fetched<seq<string>>, sel: Selection, k: nat)
    requires i < |cands| && |sel.tried| == i && !sel.failed
    requires i == 0 ==> sel.newCount < 0
    requires i > 0 ==> BestAmong(cands, i, seen, fetch, sel, k)
    ensures var r := SelectFrom(cands, i, seen, fetch, sel);
            !r.failed ==> i < |r.tried| <= |cands| &&
                          exists k' :: 0 <= k' < |r.tried| && BestAmong(cands, |r.tried|, seen, fetch, r, k')
    decreases |cands| - i
  {
    if fetch(cands[i]).NetworkError? {
      SelectFailsAt(cands, i, seen, fetch, sel);
    } else {
      var links := fetch(cands[i]).value;
      var next := Consider(sel, cands[i], links, seen);
      var k' := if NewCount(links, seen) > sel.newCount then i else k;
      ConsiderBest(cands, i, seen, fetch, sel, k);
      if AllNew(links, seen) {
        SelectStopsAt(cands, i, seen, fetch, sel, links);
      } else {
        SelectPassesOver(cands, i, seen, fetch, sel, links);
        if i + 1 < |cands| {
          SearchBest(cands, i + 1, seen, fetch, next, k');
        } else {
          assert SelectFrom(cands, i + 1, seen, fetch, next) == next;
        }
      }
    }
  }

  /** The candidate search fetches a non-empty prefix of the candidates in
      order, passes over only candidates that fetched and were not all new,
      stops early only at an all-new page, fails exactly when its last fetch
      raised, and otherwise returns the first candidate with the largest
      count of new links. */
  lemma SelectionSpec(cands: seq<string>, seen: set<string>, fetch: string -> Fetched<seq<string>>)
    requires cands != []
    ensures SelectionOutcome(cands, seen, fetch, SelectFrom(cands, 0, seen, fetch, NoSelection))
  {
    var r := SearchTried(cands, 0, seen, fetch, NoSelection);
    SearchBest(cands, 0, seen, fetch, NoSelection, 0);
  }

  /** The candidate loop of `get_all_links`. */
  method SelectCandidate(cands: seq<string>, seen: set<string>, fetch: string -> Fetched<seq<string>>)
    returns (sel: Selection)
    ensures sel == SelectFrom(cands, 0, seen, fetch, NoSelection)
  {
    sel := NoSelection;
    var i := 0;
    while i < |cands|
      invariant i <= |cands|
      invariant SelectFrom(cands, i, seen, fetch, sel) == SelectFrom(cands, 0, seen, fetch, NoSelection)
    {
      var url := cands[i];
      var tried := sel.tried + [url];
      var r := fetch(url);
      if r.NetworkError? {
        sel := sel.(tried := tried, failed := true);
        return;
      }
      var links := r.value;
      var n := NewCount(links, seen);
      if n > sel.newCount {
        sel := Selection(links, Some(url), n, tried, false);
      } else {
        sel := sel.(tried := tried);
      }
      if n == |links| && links != [] {
        return;
      }
      i := i + 1;
    }
  }

  /** What one results page does to the loop: append its links, stop because
      it brought nothing new, or stop because a fetch raised. */
  datatype PageStep = Append(links: seq<string>) | Stop | Fail

  datatype PageOutcome = PageOutcome(step: PageStep, calls: seq<Call>)

  function PositionCalls(urls: seq<string>): (r: seq<Call>)
    ensures |r| == |urls| && forall k :: 0 <= k < |urls| ==> r[k] == PositionCall(urls[k])
  {
    seq(|urls|, k requires 0 <= k < |urls| => PositionCall(urls[k]))
  }

  function Max0(n: int): nat {
    if n < 0 then 0 else n
  }

  /** The links the backend gives for `page`, or none when there is no
      bootstrap or the query failed. */
  function BackendLinks(page: int, bootstrap: Option<SearchBootstrap>, src: Sources): seq<string> {
    if bootstrap.Some? && src.bffPage(page, bootstrap.value).BffLinks? then
      src.bffPage(page, bootstrap.value).links
    else []
  }

  /** A page after the first: the backend query when there is a bootstrap;
      the URL candidates when it gave no links. */
  function LaterPage(page: int, baseUrl: string, seen: set<string>,
                     bootstrap: Option<SearchBootstrap>, src: Sources): PageOutcome
  {
    var bffCalls := if bootstrap.Some? then [BffCall(page)] else [];
    var bffLinks := BackendLinks(page, bootstrap, src);
    if bffLinks != [] then
      PageOutcome(if NewCount(bffLinks, seen) == 0 then Stop else Append(bffLinks), bffCalls)
    else
      var sel := SelectFrom(BuildPageUrlCandidates(baseUrl, page), 0, seen, src.positionLinks, NoSelection);
      var calls := bffCalls + PositionCalls(sel.tried);
      if sel.failed then PageOutcome(Fail, calls)
      else if sel.links != [] && Max0(sel.newCount) == 0 then PageOutcome(Stop, calls)
      else PageOutcome(Append(sel.links), calls)
  }

  /** A page is appended only when it is empty or brings a link not seen
      before; it stops the loop for want of new links only when it has
      links and none is new. Candidate URLs are fetched only when the
      backend gave no links, and then in candidate order. */
  lemma LaterPageSpec(page: int, baseUrl: string, seen: set<string>,
                      bootstrap: Option<SearchBootstrap>, src: Sources)
    ensures var out := LaterPage(page, baseUrl, seen, bootstrap, src);
            (out.step.Append? ==> out.step.links == [] || exists l :: l in out.step.links && l !in seen) &&
            (BackendLinks(page, bootstrap, src) != [] ==>
               out.calls == [BffCall(page)] &&
               out.step != Fail &&
               (out.step == Stop <==> forall l :: l in BackendLinks(page, bootstrap, src) ==> l in seen)) &&
            (BackendLinks(page, bootstrap, src) == [] ==>
               (exists t :: 1 <= t <= |BuildPageUrlCandidates(baseUrl, page)| &&
                 out.calls == (if bootstrap.Some? then [BffCall(page)] else []) +
                              PositionCalls(BuildPageUrlCandidates(baseUrl, page)[..t])) &&
               CandidateStepIs(out.step, SelectFrom(BuildPageUrlCandidates(baseUrl, page), 0, seen, src.positionLinks, NoSelection), seen))
  {
    if BackendLinks(page, bootstrap, src) != [] {
      BackendPageSpec(page, baseUrl, seen, bootstrap, src);
    } else {
      CandidatePageSpec(page, baseUrl, seen, bootstrap, src);
    }
  }

  /** `LaterPageSpec` for a page the backend gave links for. */
  lemma BackendPageSpec(page: int, baseUrl: string, seen: set<string>,
                        bootstrap: Option<SearchBootstrap>, src: Sources)
    requires BackendLinks(page, bootstrap, src) != []
    ensures var out := LaterPage(page, baseUrl, seen, bootstrap, src);
            (out.step.Append? ==> exists l :: l in out.step.links && l !in seen) &&
            out.calls == [BffCall(page)] &&
            out.step != Fail &&
            (out.step == Stop <==> forall l :: l in BackendLinks(page, bootstrap, src) ==> l in seen)
  {
    NewCountSpec(BackendLinks(page, bootstrap, src), seen);
  }

  /** `LaterPageSpec` for a page the backend gave no links for. */
  lemma CandidatePageSpec(page: int, baseUrl: string, seen: set<string>,
                          bootstrap: Option<SearchBootstrap>, src: Sources)
    requires BackendLinks(page, bootstrap, src) == []
    ensures var out := LaterPage(page, baseUrl, seen, bootstrap, src);
            (out.step.Append? ==> out.step.links == [] || exists l :: l in out.step.links && l !in seen) &&
            (exists t :: 1 <= t <= |BuildPageUrlCandidates(baseUrl, page)| &&
              out.calls == (if bootstrap.Some? then [BffCall(page)] else []) +
                           PositionCalls(BuildPageUrlCandidates(baseUrl, page)[..t])) &&
            CandidateStepIs(out.step, SelectFrom(BuildPageUrlCandidates(baseUrl, page), 0, seen, src.positionLinks, NoSelection), seen)
  {
    CandidateStep(page, baseUrl, seen, bootstrap, src);
    var cands := BuildPageUrlCandidates(baseUrl, page);
    if page >= 2 {
      PageUrlCandidatesSpec(baseUrl, page);
    }
    assert cands != [];
    var sel := SelectFrom(cands, 0, seen, src.positionLinks, NoSelection);
    var out := LaterPage(page, baseUrl, seen, bootstrap, src);
    CandidateOutcome(page, baseUrl, seen, bootstrap, src);
    SelectionFacts(cands, seen, src.positionLinks);
    if out.step.Append? && sel.links != [] {
      NewCountSpec(sel.links, seen);
    }
    var t := |sel.tried|;
    assert out.calls == (if bootstrap.Some? then [BffCall(page)] else []) + PositionCalls(cands[..t]);
  }

  /** How a candidate search decides the page: it fails exactly when the
      search failed, stops exactly when the chosen page has links and none
      is new, and otherwise appends the chosen links. */
  predicate CandidateStepIs(step: PageStep, sel: Selection, seen: set<string>) {
    (step == Fail <==> sel.failed) &&
    (step == Stop <==> !sel.failed && sel.links != [] && forall l :: l in sel.links ==> l in seen) &&
    (step.Append? ==> step.links == sel.links)
  }

  /** The step of a page the backend gave no links for, both ways. */
  lemma CandidateStep(page: int, baseUrl: string, seen: set<string>,
                      bootstrap: Option<SearchBootstrap>, src: Sources)
    requires BackendLinks(page, bootstrap, src) == []
    ensures CandidateStepIs(LaterPage(page, baseUrl, seen, bootstrap, src).step,
                            SelectFrom(BuildPageUrlCandidates(baseUrl, page), 0, seen, src.positionLinks, NoSelection), seen)
  {
    var cands := BuildPageUrlCandidates(baseUrl, page);
    if page >= 2 {
      PageUrlCandidatesSpec(baseUrl, page);
    }
    assert cands != [];
    var sel := SelectFrom(cands, 0, seen, src.positionLinks, NoSelection);
    SelectionFacts(cands, seen, src.positionLinks);
    NewCountSpec(sel.links, seen);
  }

  /** A page the backend gave no links for comes out of the candidate
      search: its calls are the backend call, if any, and one per candidate
      tried, and it appends the chosen links only when the search did not
      fail and found a new link or only empty pages. */
  lemma CandidateOutcome(page: int, baseUrl: string, seen: set<string>,
                         bootstrap: Option<SearchBootstrap>, src: Sources)
    requires BackendLinks(page, bootstrap, src) == []
    ensures var sel := SelectFrom(BuildPageUrlCandidates(baseUrl, page), 0, seen, src.positionLinks, NoSelection);
            var out := LaterPage(page, baseUrl, seen, bootstrap, src);
            out.calls == (if bootstrap.Some? then [BffCall(page)] else []) + PositionCalls(sel.tried) &&
            (out.step.Append? ==>
               !sel.failed && out.step.links == sel.links && (sel.links == [] || Max0(sel.newCount) != 0))
  {
  }

  /** The parts of `SelectionSpec` that a page's outcome needs: the
      candidates tried form a non-empty prefix, and a search that did not
      fail reports the new-link count of the links it chose. */
  lemma SelectionFacts(cands: seq<string>, seen: set<string>, fetch: string -> Fetched<seq<string>>)
    requires cands != []
    ensures var sel := SelectFrom(cands, 0, seen, fetch, NoSelection);
            1 <= |sel.tried| <= |cands| && sel.tried == cands[..|sel.tried|] &&
            (!sel.failed ==> sel.newCount == NewCount(sel.links, seen))
  {
    SelectionSpec(cands, seen, fetch);
  }

  /** The body of the loop for a page after the first. */
  method ResolveLaterPage(page: int, baseUrl: string, seen: set<string>,
                          bootstrap: Option<SearchBootstrap>, src: Sources)
    returns (out: PageOutcome)
    ensures out == LaterPage(page, baseUrl, seen, bootstrap, src)
  {
    var calls: seq<Call> := [];
    var bffLinks: seq<string> := [];
    if bootstrap.Some? {
      calls := [BffCall(page)];
      var bff := src.bffPage(page, bootstrap.value);
      if bff.BffLinks? {
        bffLinks := bff.links;
      }
    }
    assert bffLinks == BackendLinks(page, bootstrap, src);
    if bffLinks != [] {
      if NewCount(bffLinks, seen) == 0 {
        return PageOutcome(Stop, calls);
      }
      return PageOutcome(Append(bffLinks), calls);
    }
    var cands := BuildPageUrlCandidates(baseUrl, page);
    var sel := SelectCandidate(cands, seen, src.positionLinks);
    calls := calls + PositionCalls(sel.tried);
    if sel.failed {
      return PageOutcome(Fail, calls);
    }
    if sel.links != [] && Max0(sel.newCount) == 0 {
      return PageOutcome(Stop, calls);
    }
    out := PageOutcome(Append(sel.links), calls);
  }

  lemma AppendedPageIsNew(page: int, baseUrl: string, seen: set<string>,
                          bootstrap: Option<SearchBootstrap>, src: Sources)
    ensures var out := LaterPage(page, baseUrl, seen, bootstrap, src);
            out.step.Append? ==> out.step.links == [] || exists l :: l in out.step.links && l !in seen
  {
    LaterPageSpec(page, baseUrl, seen, bootstrap, src);
  }

  /** The loop's variables: `all_links`, `seen_links`, `search_bootstrap`,
      and the calls made so far. */
  datatype CrawlState = CrawlState(pages: seq<seq<string>>, seen: set<string>,
                                   bootstrap: Option<SearchBootstrap>, calls: seq<Call>)

  const Start := CrawlState([], {}, None, [])

  /** A page's links appended to `all_links` and added to `seen_links`. */
  function Extend(st: CrawlState, links: seq<string>): CrawlState {
    st.(pages := st.pages + [links], seen := st.seen + Elems(links))
  }

  /** The loop from a page after the first up to `numPages`. */
  function CrawlLater(page: int, numPages: int, baseUrl: string, src: Sources, st: CrawlState): CrawlState
    decreases numPages - page + 1
  {
    if page > numPages then st
    else
      var out := LaterPage(page, baseUrl, st.seen, st.bootstrap, src);
      var st' := st.(calls := st.calls + out.calls);
      if out.step.Append? then CrawlLater(page + 1, numPages, baseUrl, src, Extend(st', out.step.links))
      else st'
  }

  /** `get_all_links(num_pages, base_url)`: page 1 is the base URL's results
      page, which also yields the bootstrap; the later pages follow. */
  function Crawl(numPages: int, baseUrl: string, src: Sources): CrawlState {
    if numPages < 1 then Start
    else
      var url := BuildPageUrl(baseUrl, 1);
      match src.searchPage(url)
      case NetworkError => Start.(calls := [SearchCall(url)])
      case Ok(r) => CrawlLater(2, numPages, baseUrl, src, CrawlState([r.links], Elems(r.links), r.bootstrap, [SearchCall(url)]))
  }

  /** One later page: the loop either goes on from the extended state or
      stops with the calls of this page added. */
  lemma CrawlLaterStep(page: int, numPages: int, baseUrl: string, src: Sources, st: CrawlState)
    requires page <= numPages
    ensures var out := LaterPage(page, baseUrl, st.seen, st.bootstrap, src);
            var st' := st.(calls := st.calls + out.calls);
            CrawlLater(page, numPages, baseUrl, src, st) ==
              if out.step.Append? then CrawlLater(page + 1, numPages, baseUrl, src, Extend(st', out.step.links))
              else st'
  {
  }

  /** `get_all_links`, imperatively. The `page == 1` branch of the loop runs
      before the loop, which then covers pages 2 to `numPages`. */
  method GetAllLinks(numPages: int, baseUrl: string, src: Sources)
    returns (allLinks: seq<seq<string>>, calls: seq<Call>)
    ensures allLinks == Crawl(numPages, baseUrl, src).pages
    ensures calls == Crawl(numPages, baseUrl, src).calls
  {
    allLinks := [];
    calls := [];
    if numPages < 1 {
      return;
    }
    var url := BuildPageUrl(baseUrl, 1);
    assert url == baseUrl;
    calls := [SearchCall(url)];
    var r := src.searchPage(url);
    if r.NetworkError? {
      FirstPageFails(numPages, baseUrl, src);
      return;
    }
    FirstPageStep(numPages, baseUrl, src);
    allLinks := [r.value.links];
    var seen := Elems(r.value.links);
    var bootstrap := r.value.bootstrap;
    var page := 2;
    while page <= numPages
      invariant 2 <= page
      invariant CrawlLater(page, numPages, baseUrl, src, CrawlState(allLinks, seen, bootstrap, calls)) ==
                Crawl(numPages, baseUrl, src)
      decreases numPages - page
    {
      var out := ResolveLaterPage(page, baseUrl, seen, bootstrap, src);
      CrawlLaterStep(page, numPages, baseUrl, src, CrawlState(allLinks, seen, bootstrap, calls));
      calls := calls + out.calls;
      if !out.step.Append? {
        break;
      }
      allLinks := allLinks + [out.step.links];
      seen := seen + Elems(out.step.links);
      page := page + 1;
    }
  }

  /** Some link of `links` is not among `before`. */
  predicate HasNewLink(links: seq<string>, before: seq<string>) {
    exists l :: l in links && l !in before
  }

  /** Every collected page is empty or brings a link no earlier page had. */
  predicate EachPageBringsNew(pages: seq<seq<string>>) {
    forall j :: 0 <= j < |pages| ==> pages[j] == [] || HasNewLink(pages[j], Flatten(pages[..j]))
  }

  /** `seen_links` is the set of links of the pages collected so far. */
  predicate Consistent(st: CrawlState) {
    st.seen == Elems(Flatten(st.pages)) && EachPageBringsNew(st.pages)
  }

  lemma AppendKeepsConsistent(pages: seq<seq<string>>, seen: set<string>, links: seq<string>)
    requires seen == Elems(Flatten(pages)) && EachPageBringsNew(pages)
    requires links == [] || exists l :: l in links && l !in seen
    ensures EachPageBringsNew(pages + [links])
    ensures seen + Elems(links) == Elems(Flatten(pages + [links]))
  {
    FlattenAppend(pages, links);
    var p' := pages + [links];
    forall j | 0 <= j < |p'| ensures p'[j] == [] || HasNewLink(p'[j], Flatten(p'[..j])) {
      if j < |pages| {
        assert p'[..j] == pages[..j];
      } else {
        assert p'[..j] == pages;
      }
    }
  }

  /** The loop only ever appends pages and calls, one page per iteration. */
  lemma {:induction false} CrawlLaterExtends(page: int, numPages: int, baseUrl: string, src: Sources, st: CrawlState)
    ensures st.pages <= CrawlLater(page, numPages, baseUrl, src, st).pages
    ensures st.calls <= CrawlLater(page, numPages, baseUrl, src, st).calls
    ensures |CrawlLater(page, numPages, baseUrl, src, st).pages| <= |st.pages| + Max0(numPages - page + 1)
    decreases numPages - page + 1
  {
    if page <= numPages {
      var out := LaterPage(page, baseUrl, st.seen, st.bootstrap, src);
      var st' := st.(calls := st.calls + out.calls);
      CrawlLaterStep(page, numPages, baseUrl, src, st);
      if out.step.Append? {
        CrawlLaterExtends(page + 1, numPages, baseUrl, src, Extend(st', out.step.links));
      }
    }
  }

  lemma ConsistentAfterAppend(st: CrawlState, links: seq<string>)
    requires Consistent(st)
    requires links == [] || exists l :: l in links && l !in st.seen
    ensures Consistent(Extend(st, links))
  {
    AppendKeepsConsistent(st.pages, st.seen, links);
  }

  lemma {:induction false} LaterPagesConsistent(page: int, numPages: int, baseUrl: string, src: Sources, st: CrawlState)
    requires Consistent(st)
    ensures Consistent(CrawlLater(page, numPages, baseUrl, src, st))
    decreases numPages - page + 1
  {
    if page <= numPages {
      var out := LaterPage(page, baseUrl, st.seen, st.bootstrap, src);
      var st' := st.(calls := st.calls + out.calls);
      CrawlLaterStep(page, numPages, baseUrl, src, st);
      if out.step.Append? {
        AppendedPageIsNew(page, baseUrl, st.seen, st.bootstrap, src);
        ConsistentAfterAppend(st', out.step.links);
        LaterPagesConsistent(page + 1, numPages, baseUrl, src, Extend(st', out.step.links));
      }
    }
  }

  /** The first iteration fetches the base URL and, when that succeeds,
      starts the collection with its links and bootstrap. */
  lemma FirstPageStep(numPages: int, baseUrl: string, src: Sources)
    requires numPages >= 1 && src.searchPage(baseUrl).Ok?
    ensures var r := src.searchPage(baseUrl).value;
            Crawl(numPages, baseUrl, src) ==
            CrawlLater(2, numPages, baseUrl, src, CrawlState([r.links], Elems(r.links), r.bootstrap, [SearchCall(baseUrl)]))
  {
    assert BuildPageUrl(baseUrl, 1) == baseUrl;
  }

  /** When the first fetch raises, the run ends with that one call. */
  lemma FirstPageFails(numPages: int, baseUrl: string, src: Sources)
    requires numPages >= 1 && src.searchPage(baseUrl).NetworkError?
    ensures Crawl(numPages, baseUrl, src) == CrawlState([], {}, None, [SearchCall(baseUrl)])
  {
    assert BuildPageUrl(baseUrl, 1) == baseUrl;
  }

  /** The state after the first page is consistent. */
  lemma FirstPageConsistent(links: seq<string>, bootstrap: Option<SearchBootstrap>, calls: seq<Call>)
    ensures Consistent(CrawlState([links], Elems(links), bootstrap, calls))
  {
    var st := CrawlState([], {}, bootstrap, calls);
    assert Elems(Flatten(st.pages)) == {};
    assert Consistent(st);
    if links != [] {
      assert links[0] in links && links[0] !in st.seen;
    }
    ConsistentAfterAppend(st, links);
    assert st.pages + [links] == [links] && st.seen + Elems(links) == Elems(links);
  }

  lemma CrawlConsistent(numPages: int, baseUrl: string, src: Sources)
    ensures Consistent(Crawl(numPages, baseUrl, src))
  {
    if numPages >= 1 {
      if src.searchPage(baseUrl).Ok? {
        var r := src.searchPage(baseUrl).value;
        FirstPageStep(numPages, baseUrl, src);
        FirstPageConsistent(r.links, r.bootstrap, [SearchCall(baseUrl)]);
        LaterPagesConsistent(2, numPages, baseUrl, src, CrawlState([r.links], Elems(r.links), r.bootstrap, [SearchCall(baseUrl)]));
      } else {
        FirstPageFails(numPages, baseUrl, src);
      }
    }
  }

  /** At most `num_pages` pages are collected; the first call fetches the
      base URL; every collected page is empty or brings a link that no
      earlier page had, so the loop never appends a page of repeats. */
  lemma CrawlSpec(numPages: int, baseUrl: string, src: Sources)
    ensures |Crawl(numPages, baseUrl, src).pages| <= Max0(numPages)
    ensures EachPageBringsNew(Crawl(numPages, baseUrl, src).pages)
    ensures numPages < 1 ==> Crawl(numPages, baseUrl, src).calls == []
    ensures numPages >= 1 ==> |Crawl(numPages, baseUrl, src).calls| >= 1 &&
                              Crawl(numPages, baseUrl, src).calls[0] == SearchCall(baseUrl)
  {
    CrawlConsistent(numPages, baseUrl, src);
    if numPages >= 1 {
      if src.searchPage(baseUrl).Ok? {
        var r := src.searchPage(baseUrl).value;
        FirstPageStep(numPages, baseUrl, src);
        CrawlLaterExtends(2, numPages, baseUrl, src, CrawlState([r.links], Elems(r.links), r.bootstrap, [SearchCall(baseUrl)]));
      } else {
        FirstPageFails(numPages, baseUrl, src);
      }
    }
  }

  lemma {:induction false} CrawlLaterMonotone(page: int, n: int, m: int, baseUrl: string, src: Sources, st: CrawlState)
    requires n <= m
    ensures CrawlLater(page, n, baseUrl, src, st).pages <= CrawlLater(page, m, baseUrl, src, st).pages
    ensures |CrawlLater(page, n, baseUrl, src, st).pages| < |st.pages| + Max0(n - page + 1) ==>
              CrawlLater(page, m, baseUrl, src, st) == CrawlLater(page, n, baseUrl, src, st)
    decreases n - page + 1
  {
    if page > n {
      CrawlLaterExtends(page, m, baseUrl, src, st);
    } else {
      var out := LaterPage(page, baseUrl, st.seen, st.bootstrap, src);
      var st' := st.(calls := st.calls + out.calls);
      CrawlLaterStep(page, n, baseUrl, src, st);
      CrawlLaterStep(page, m, baseUrl, src, st);
      if out.step.Append? {
        CrawlLaterMonotone(page + 1, n, m, baseUrl, src, Extend(st', out.step.links));
      }
    }
  }

  /** Asking for more pages only adds pages at the end; once the loop has
      stopped before its last page, asking for more changes nothing. */
  lemma CrawlPrefix(n: int, m: int, baseUrl: string, src: Sources)
    requires n <= m
    ensures Crawl(n, baseUrl, src).pages <= Crawl(m, baseUrl, src).pages
    ensures |Crawl(n, baseUrl, src).pages| < Max0(n) ==> Crawl(m, baseUrl, src) == Crawl(n, baseUrl, src)
  {
    if n >= 1 {
      if src.searchPage(baseUrl).Ok? {
        var r := src.searchPage(baseUrl).value;
        FirstPageStep(n, baseUrl, src);
        FirstPageStep(m, baseUrl, src);
        CrawlLaterMonotone(2, n, m, baseUrl, src, CrawlState([r.links], Elems(r.links), r.bootstrap, [SearchCall(baseUrl)]));
      } else {
        FirstPageFails(n, baseUrl, src);
        FirstPageFails(m, baseUrl, src);
      }
    }
  }

  /** `crawl_jobs`: the collected links, flattened, first occurrences kept. */
  function UniqueLinks(pages: seq<seq<string>>): (r: seq<string>)
    ensures NoDups(r)
    ensures forall l :: l in r <==> exists j :: 0 <= j < |pages| && l in pages[j]
  {
    Dedup(Flatten(pages))
  }

  function NonEmptyPages(pages: seq<seq<string>>): nat {
    if pages == [] then 0
    else NonEmptyPages(pages[..|pages| - 1]) + (if pages[|pages| - 1] == [] then 0 else 1)
  }

  lemma {:induction false} DistinctLinksAtLeastPages(pages: seq<seq<string>>)
    requires EachPageBringsNew(pages)
    ensures |Elems(Flatten(pages))| >= NonEmptyPages(pages)
  {
    if pages != [] {
      var n := |pages| - 1;
      PrefixBringsNew(pages, n);
      DistinctLinksAtLeastPages(pages[..n]);
      LastPageGrows(pages);
    }
  }

  /** A prefix of pages that each bring a new link still does. */
  lemma PrefixBringsNew(pages: seq<seq<string>>, n: nat)
    requires n <= |pages| && EachPageBringsNew(pages)
    ensures EachPageBringsNew(pages[..n])
  {
    var prefix := pages[..n];
    forall j | 0 <= j < |prefix| ensures prefix[j] == [] || HasNewLink(prefix[j], Flatten(prefix[..j])) {
      assert prefix[..j] == pages[..j];
    }
  }

  /** A last page that is empty or brings a new link adds at least one
      distinct link. */
  lemma LastPageGrows(pages: seq<seq<string>>)
    requires pages != [] && EachPageBringsNew(pages)
    ensures var n := |pages| - 1;
            |Elems(Flatten(pages))| >= |Elems(Flatten(pages[..n]))| + (if pages[n] == [] then 0 else 1)
  {
    var n := |pages| - 1;
    var prefix := pages[..n];
    var last := pages[n];
    assert pages == prefix + [last];
    FlattenAppend(prefix, last);
    var before := Elems(Flatten(prefix));
    var after := Elems(Flatten(pages));
    if last != [] {
      assert HasNewLink(last, Flatten(prefix));
      var l :| l in last && l !in Flatten(prefix);
      GrowingSet(before, after, l);
    } else {
      assert after == before;
    }
  }

  lemma GrowingSet(before: set<string>, after: set<string>, l: string)
    requires before <= after && l in after && l !in before
    ensures |after| >= |before| + 1
  {
    var grown := before + {l};
    assert after == grown + (after - grown);
  }

  /** Each non-empty collected page adds at least one link to the
      de-duplicated list handed to the per-job scraping. */
  lemma UniqueLinksCount(numPages: int, baseUrl: string, src: Sources)
    ensures |UniqueLinks(Crawl(numPages, baseUrl, src).pages)| >= NonEmptyPages(Crawl(numPages, baseUrl, src).pages)
  {
    var pages := Crawl(numPages, baseUrl, src).pages;
    CrawlSpec(numPages, baseUrl, src);
    DistinctLinksAtLeastPages(pages);
    DedupLength(Flatten(pages));
  }

  /** A later page for which the backend answers with links: the answer is
      used as it is, and no candidate URL is fetched. */
  lemma BackendPage(page: int, baseUrl: string, seen: set<string>, b: SearchBootstrap, src: Sources, links: seq<string>)
    requires src.bffPage(page, b) == BffLinks(links) && links != []
    ensures LaterPage(page, baseUrl, seen, Some(b), src) ==
            PageOutcome(if NewCount(links, seen) == 0 then Stop else Append(links), [BffCall(page)])
  {
    assert BackendLinks(page, Some(b), src) == links;
  }

  /** The second page of the backend-pagination unit test: one new link, kept. */
  lemma BackendScenarioPage2(baseUrl: string, b: SearchBootstrap, src: Sources, l1: string, l2: string, l3: string)
    requires l1 != l3 && l2 != l3
    requires src.bffPage(2, b) == BffLinks([l2, l3])
    ensures CrawlLater(2, 3, baseUrl, src, CrawlState([[l1, l2]], Elems([l1, l2]), Some(b), [SearchCall(baseUrl)])) ==
            CrawlLater(3, 3, baseUrl, src, CrawlState([[l1, l2], [l2, l3]], Elems([l1, l2]) + Elems([l2, l3]), Some(b),
                                                      [SearchCall(baseUrl), BffCall(2)]))
  {
    var seen1 := Elems([l1, l2]);
    var st2 := CrawlState([[l1, l2]], seen1, Some(b), [SearchCall(baseUrl)]);
    OneNewLink(l1, l2, l3);
    BackendPage(2, baseUrl, seen1, b, src, [l2, l3]);
    CrawlLaterStep(2, 3, baseUrl, src, st2);
    assert Extend(st2.(calls := st2.calls + [BffCall(2)]), [l2, l3]) ==
           CrawlState([[l1, l2], [l2, l3]], seen1 + Elems([l2, l3]), Some(b), [SearchCall(baseUrl), BffCall(2)]);
  }

  lemma OneNewLink(l1: string, l2: string, l3: string)
    requires l1 != l3 && l2 != l3
    ensures NewCount([l2, l3], Elems([l1, l2])) == 1
  {
    assert l2 in Elems([l1, l2]) && l3 !in Elems([l1, l2]);
    assert Unseen([l3], Elems([l1, l2])) == [l3];
    assert Unseen([l2, l3], Elems([l1, l2])) == [l3];
  }

  /** The third page of that test: nothing new, so the loop stops. */
  lemma BackendScenarioPage3(baseUrl: string, b: SearchBootstrap, src: Sources, l1: string, l2: string, l3: string)
    requires src.bffPage(3, b) == BffLinks([l1, l2])
    ensures var st3 := CrawlState([[l1, l2], [l2, l3]], Elems([l1, l2]) + Elems([l2, l3]), Some(b),
                                  [SearchCall(baseUrl), BffCall(2)]);
            CrawlLater(3, 3, baseUrl, src, st3) == st3.(calls := [SearchCall(baseUrl), BffCall(2), BffCall(3)])
  {
    var st3 := CrawlState([[l1, l2], [l2, l3]], Elems([l1, l2]) + Elems([l2, l3]), Some(b),
                          [SearchCall(baseUrl), BffCall(2)]);
    assert Unseen([l1, l2], st3.seen) == [];
    BackendPage(3, baseUrl, st3.seen, b, src, [l1, l2]);
    CrawlLaterStep(3, 3, baseUrl, src, st3);
  }

  /** The scenario of the backend-pagination unit test: page 2 brings one new
      link and is kept, page 3 brings none and ends the loop; the backend is
      asked for pages 2 and 3 and no candidate URL is fetched. */
  lemma BackendPaginationScenario(baseUrl: string, b: SearchBootstrap, l1: string, l2: string, l3: string)
    requires l1 != l2 && l2 != l3 && l1 != l3
    ensures var src := Sources(
              u => Ok(SearchResult([l1, l2], Some(b))),
              (p: int, bs: SearchBootstrap) => if p == 2 then BffLinks([l2, l3]) else BffLinks([l1, l2]),
              u => NetworkError);
            Crawl(3, baseUrl, src).pages == [[l1, l2], [l2, l3]] &&
            Crawl(3, baseUrl, src).calls == [SearchCall(baseUrl), BffCall(2), BffCall(3)]
  {
    var src := Sources(
      u => Ok(SearchResult([l1, l2], Some(b))),
      (p: int, bs: SearchBootstrap) => if p == 2 then BffLinks([l2, l3]) else BffLinks([l1, l2]),
      u => NetworkError);
    FirstPageStep(3, baseUrl, src);
    BackendScenarioPage2(baseUrl, b, src, l1, l2, l3);
    BackendScenarioPage3(baseUrl, b, src, l1, l2, l3);
  }

  /** The candidate-selection step of that scenario. */
  lemma ScenarioSelection(cands: seq<string>, fetch: string -> Fetched<seq<string>>, l1: string, l2: string, l3: string)
    requires l1 != l2 && l2 != l3 && l1 != l3
    requires |cands| == 4 && cands[0] != cands[1] && cands[0] != cands[2] && cands[1] != cands[2]
    requires fetch(cands[0]) == Ok([l1]) && fetch(cands[1]) == Ok([l1, l2]) && fetch(cands[2]) == Ok([l2, l3])
    ensures SelectFrom(cands, 0, Elems([l1]), fetch, NoSelection) ==
            Selection([l2, l3], Some(cands[2]), 2, cands[..3], false)
  {
    var seen := Elems([l1]);
    ScenarioCounts(l1, l2, l3);
    var s1 := Selection([l1], Some(cands[0]), 0, [cands[0]], false);
    var s2 := Selection([l1, l2], Some(cands[1]), 1, [cands[0], cands[1]], false);
    assert Consider(NoSelection, cands[0], [l1], seen) == s1;
    assert Consider(s1, cands[1], [l1, l2], seen) == s2;
    SelectPassesOver(cands, 0, seen, fetch, NoSelection, [l1]);
    SelectPassesOver(cands, 1, seen, fetch, s1, [l1, l2]);
    SelectStopsAt(cands, 2, seen, fetch, s2, [l2, l3]);
    assert cands[..3] == [cands[0], cands[1], cands[2]];
  }

  /** The counts of new links of the three candidate pages of that scenario. */
  lemma ScenarioCounts(l1: string, l2: string, l3: string)
    requires l1 != l2 && l2 != l3 && l1 != l3
    ensures NewCount([l1], Elems([l1])) == 0 && !AllNew([l1], Elems([l1]))
    ensures NewCount([l1, l2], Elems([l1])) == 1 && !AllNew([l1, l2], Elems([l1]))
    ensures NewCount([l2, l3], Elems([l1])) == 2 && AllNew([l2, l3], Elems([l1]))
  {
    var seen := Elems([l1]);
    assert l1 in seen && l2 !in seen && l3 !in seen;
    assert Unseen([l1], seen) == [];
    assert Unseen([l2], seen) == [l2];
    assert Unseen([l1, l2], seen) == [l2];
    assert Unseen([l3], seen) == [l3];
    assert Unseen([l2, l3], seen) == [l2, l3];
  }

  lemma CandidatesDistinct(baseUrl: string, page: int, c0: string, c1: string, c2: string, c3: string)
    requires BuildPageUrlCandidates(baseUrl, page) == [c0, c1, c2, c3]
    ensures c0 != c1 && c0 != c2 && c1 != c2
  {
    var cands := [c0, c1, c2, c3];
    if page >= 2 {
      PageUrlCandidatesSpec(baseUrl, page);
      assert cands[0] != cands[1] && cands[0] != cands[2] && cands[1] != cands[2];
    }
  }

  /** The page of the candidate-selection unit test: with no bootstrap, a
      later page tries the candidates in order, keeps the one with the most
      new links, and stops at the first candidate whose links are all new,
      never fetching the fourth. */
  lemma FallbackSelectionPage(page: int, baseUrl: string, src: Sources, seen: set<string>,
                           c0: string, c1: string, c2: string, c3: string, l1: string, l2: string, l3: string)
    requires l1 != l2 && l2 != l3 && l1 != l3 && seen == Elems([l1])
    requires page >= 2 && BuildPageUrlCandidates(baseUrl, page) == [c0, c1, c2, c3]
    requires src.positionLinks(c0) == Ok([l1]) && src.positionLinks(c1) == Ok([l1, l2]) &&
             src.positionLinks(c2) == Ok([l2, l3])
    ensures LaterPage(page, baseUrl, seen, None, src) ==
            PageOutcome(Append([l2, l3]), [PositionCall(c0), PositionCall(c1), PositionCall(c2)])
  {
    CandidatesDistinct(baseUrl, page, c0, c1, c2, c3);
    var cands := [c0, c1, c2, c3];
    ScenarioSelection(cands, src.positionLinks, l1, l2, l3);
    assert cands[..3] == [c0, c1, c2];
    ThreePositionCalls(c0, c1, c2);
    CandidatePageAppended(page, baseUrl, seen, src, cands, Selection([l2, l3], Some(c2), 2, [c0, c1, c2], false),
                          [PositionCall(c0), PositionCall(c1), PositionCall(c2)]);
  }

  lemma ThreePositionCalls(c0: string, c1: string, c2: string)
    ensures PositionCalls([c0, c1, c2]) == [PositionCall(c0), PositionCall(c1), PositionCall(c2)]
  {
  }

  /** A later page without bootstrap whose candidate search succeeded and
      found a new link (or only empty pages) appends the chosen links. */
  lemma CandidatePageAppended(page: int, baseUrl: string, seen: set<string>, src: Sources,
                              cands: seq<string>, sel: Selection, calls: seq<Call>)
    requires BuildPageUrlCandidates(baseUrl, page) == cands
    requires sel == SelectFrom(cands, 0, seen, src.positionLinks, NoSelection)
    requires !sel.failed && (sel.links == [] || Max0(sel.newCount) != 0)
    requires calls == PositionCalls(sel.tried)
    ensures LaterPage(page, baseUrl, seen, None, src) == PageOutcome(Append(sel.links), calls)
  {
    assert BackendLinks(page, None, src) == [];
    assert [] + calls == calls;
  }

  /** The run of the candidate-selection unit test: the first page gives one
      link and no bootstrap; page 2 tries its candidates in order and takes
      the third, whose links are all new. Two pages are collected, and the
      calls are the first fetch and the three candidate fetches. */
  lemma FallbackSelectionRun(baseUrl: string, src: Sources, c0: string, c1: string, c2: string, c3: string,
                             l1: string, l2: string, l3: string)
    requires l1 != l2 && l2 != l3 && l1 != l3
    requires src.searchPage(baseUrl) == Ok(SearchResult([l1], None))
    requires BuildPageUrlCandidates(baseUrl, 2) == [c0, c1, c2, c3]
    requires src.positionLinks(c0) == Ok([l1]) && src.positionLinks(c1) == Ok([l1, l2]) &&
             src.positionLinks(c2) == Ok([l2, l3])
    ensures Crawl(2, baseUrl, src).pages == [[l1], [l2, l3]] &&
            Crawl(2, baseUrl, src).calls ==
              [SearchCall(baseUrl), PositionCall(c0), PositionCall(c1), PositionCall(c2)]
  {
    var calls := [PositionCall(c0), PositionCall(c1), PositionCall(c2)];
    FallbackSelectionPage(2, baseUrl, src, Elems([l1]), c0, c1, c2, c3, l1, l2, l3);
    TwoPageRun(baseUrl, src, calls, l1, l2, l3);
    ConsFourCalls(SearchCall(baseUrl), PositionCall(c0), PositionCall(c1), PositionCall(c2));
  }

  lemma ConsFourCalls(a: Call, b: Call, c: Call, d: Call)
    ensures [a] + [b, c, d] == [a, b, c, d]
  {
  }

  /** A run of two pages whose first page gives one link and no bootstrap:
      the second page's outcome is appended after the first fetch. */
  lemma TwoPageRun(baseUrl: string, src: Sources, calls: seq<Call>, l1: string, l2: string, l3: string)
    requires src.searchPage(baseUrl) == Ok(SearchResult([l1], None))
    requires LaterPage(2, baseUrl, Elems([l1]), None, src) == PageOutcome(Append([l2, l3]), calls)
    ensures Crawl(2, baseUrl, src).pages == [[l1], [l2, l3]] &&
            Crawl(2, baseUrl, src).calls == [SearchCall(baseUrl)] + calls
  {
    var seen := Elems([l1]);
    FirstPageStep(2, baseUrl, src);
    var st2 := CrawlState([[l1]], seen, None, [SearchCall(baseUrl)]);
    CrawlLaterStep(2, 2, baseUrl, src, st2);
    var st3 := CrawlState([[l1], [l2, l3]], seen + Elems([l2, l3]), None, [SearchCall(baseUrl)] + calls);
    assert CrawlLater(3, 2, baseUrl, src, st3) == st3;
  }

  /** A fetched results page: its anchors and the captures of the embedded
      pagination payload. */
  datatype SearchPage = SearchPage(anchors: seq<Anchor>, captures: Option<Captures>)

  /** `_get_search_page_links_and_bootstrap` on a fetched page. */
  function SearchPageResult(page: Fetched<SearchPage>): Fetched<SearchResult> {
    match page
    case NetworkError => NetworkError
    case Ok(p) => Ok(SearchResult(SearchPageLinks(p.anchors), ExtractSearchBootstrap(p.captures)))
  }

  /** `get_position_links` on a fetched page. */
  function PositionLinks(page: Fetched<SearchPage>): Fetched<seq<string>> {
    match page
    case NetworkError => NetworkError
    case Ok(p) => Ok(SearchPageLinks(p.anchors))
  }

  /** The three fetchers built on one page fetcher (GET plus
      `raise_for_status` and HTML parsing) and one backend POST. */
  function HttpSources(getPage: string -> Fetched<SearchPage>, post: BffPayload -> Fetched<Json>): Sources {
    Sources(
      u => SearchPageResult(getPage(u)),
      (p: int, b: SearchBootstrap) => GetLinksFromBffPage(p, b, post),
      u => PositionLinks(getPage(u)))
  }

  /** Links without repeats, all absolute. */
  predicate WellFormedLinks(links: seq<string>) {
    NoDups(links) && forall l :: l in links ==> StartsWith(l, "http")
  }

  /** Every fetcher yields well-formed links. */
  ghost predicate WellFormedSources(src: Sources) {
    (forall u :: src.searchPage(u).Ok? ==> WellFormedLinks(src.searchPage(u).value.links)) &&
    (forall p, b :: src.bffPage(p, b).BffLinks? ==> WellFormedLinks(src.bffPage(p, b).links)) &&
    (forall u :: src.positionLinks(u).Ok? ==> WellFormedLinks(src.positionLinks(u).value))
  }

  lemma SearchLinksWellFormed(anchors: seq<Anchor>)
    ensures WellFormedLinks(SearchPageLinks(anchors))
  {
    forall l | l in SearchPageLinks(anchors) ensures StartsWith(l, "http") {
      SearchPageLinksAreJobLinks(anchors, l);
    }
  }

  lemma BffLinksWellFormed(page: int, b: SearchBootstrap, post: BffPayload -> Fetched<Json>)
    requires GetLinksFromBffPage(page, b, post).BffLinks?
    ensures WellFormedLinks(GetLinksFromBffPage(page, b, post).links)
  {
    var links := GetLinksFromBffPage(page, b, post).links;
    if BffPayloadFor(page, b).Some? {
      var body := post(BffPayloadFor(page, b).value).value;
      forall l | l in links ensures StartsWith(l, "http") {
        BffResponseLinksSpec(body, l);
      }
      if links != [] {
        BffResponseLinksSpec(body, links[0]);
      }
    }
  }

  /** The fetchers built on HTTP yield only absolute links without repeats. */
  lemma HttpSourcesWellFormed(getPage: string -> Fetched<SearchPage>, post: BffPayload -> Fetched<Json>)
    ensures WellFormedSources(HttpSources(getPage, post))
  {
    var src := HttpSources(getPage, post);
    forall u | src.searchPage(u).Ok? ensures WellFormedLinks(src.searchPage(u).value.links) {
      assert src.searchPage(u) == SearchPageResult(getPage(u));
      SearchLinksWellFormed(getPage(u).value.anchors);
    }
    forall p, b | src.bffPage(p, b).BffLinks? ensures WellFormedLinks(src.bffPage(p, b).links) {
      BffLinksWellFormed(p, b, post);
    }
    forall u | src.positionLinks(u).Ok? ensures WellFormedLinks(src.positionLinks(u).value) {
      assert src.positionLinks(u) == PositionLinks(getPage(u));
      SearchLinksWellFormed(getPage(u).value.anchors);
    }
  }

  lemma LaterPageWellFormed(page: int, baseUrl: string, seen: set<string>,
                            bootstrap: Option<SearchBootstrap>, src: Sources)
    requires WellFormedSources(src)
    requires LaterPage(page, baseUrl, seen, bootstrap, src).step.Append?
    ensures WellFormedLinks(LaterPage(page, baseUrl, seen, bootstrap, src).step.links)
  {
    var bffLinks := BackendLinks(page, bootstrap, src);
    if bffLinks != [] {
      assert LaterPage(page, baseUrl, seen, bootstrap, src).step.links == bffLinks;
    } else {
      var cands := BuildPageUrlCandidates(baseUrl, page);
      var sel := SelectFrom(cands, 0, seen, src.positionLinks, NoSelection);
      assert LaterPage(page, baseUrl, seen, bootstrap, src).step.links == sel.links && !sel.failed;
      if page >= 2 {
        PageUrlCandidatesSpec(baseUrl, page);
      }
      SelectedWellFormed(cands, seen, src.positionLinks);
    }
  }

  /** A search that did not fail returns the links of a page that fetched. */
  lemma SelectedWellFormed(cands: seq<string>, seen: set<string>, fetch: string -> Fetched<seq<string>>)
    requires cands != []
    requires forall u :: fetch(u).Ok? ==> WellFormedLinks(fetch(u).value)
    ensures var sel := SelectFrom(cands, 0, seen, fetch, NoSelection);
            !sel.failed ==> WellFormedLinks(sel.links)
  {
    var sel := SelectFrom(cands, 0, seen, fetch, NoSelection);
    SelectionSpec(cands, seen, fetch);
    if !sel.failed {
      var t := |sel.tried|;
      var k :| 0 <= k < t && sel.url == Some(cands[k]) && sel.links == fetch(cands[k]).value;
      assert fetch(cands[k]).Ok?;
    }
  }

  predicate AllWellFormed(pages: seq<seq<string>>) {
    forall j :: 0 <= j < |pages| ==> WellFormedLinks(pages[j])
  }

  lemma AppendKeepsWellFormed(pages: seq<seq<string>>, links: seq<string>)
    requires AllWellFormed(pages) && WellFormedLinks(links)
    ensures AllWellFormed(pages + [links])
  {
    var pages' := pages + [links];
    forall j | 0 <= j < |pages'| ensures WellFormedLinks(pages'[j]) {
      if j < |pages| {
        assert pages'[j] == pages[j];
      }
    }
  }

  lemma {:induction false} LaterPagesWellFormed(page: int, numPages: int, baseUrl: string, src: Sources, st: CrawlState)
    requires WellFormedSources(src) && AllWellFormed(st.pages)
    ensures AllWellFormed(CrawlLater(page, numPages, baseUrl, src, st).pages)
    decreases numPages - page + 1
  {
    if page <= numPages {
      var out := LaterPage(page, baseUrl, st.seen, st.bootstrap, src);
      var st' := st.(calls := st.calls + out.calls);
      CrawlLaterStep(page, numPages, baseUrl, src, st);
      if out.step.Append? {
        LaterPageWellFormed(page, baseUrl, st.seen, st.bootstrap, src);
        AppendKeepsWellFormed(st.pages, out.step.links);
        LaterPagesWellFormed(page + 1, numPages, baseUrl, src, Extend(st', out.step.links));
      }
    }
  }

  /** Every page collected over HTTP holds absolute links without repeats. */
  lemma HttpCrawlWellFormed(numPages: int, baseUrl: string,
                            getPage: string -> Fetched<SearchPage>, post: BffPayload -> Fetched<Json>)
    ensures AllWellFormed(Crawl(numPages, baseUrl, HttpSources(getPage, post)).pages)
  {
    var src := HttpSources(getPage, post);
    HttpSourcesWellFormed(getPage, post);
    if numPages >= 1 {
      if src.searchPage(baseUrl).Ok? {
        FirstPageStep(numPages, baseUrl, src);
        var r := src.searchPage(baseUrl).value;
        LaterPagesWellFormed(2, numPages, baseUrl, src,
                             CrawlState([r.links], Elems(r.links), r.bootstrap, [SearchCall(baseUrl)]));
      } else {
        FirstPageFails(numPages, baseUrl, src);
      }
    }
  }
}
