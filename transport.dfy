/** The crawler's HTTP client (glassdoorcrawler/scraper.py, `_HttpClient`):
    requests go through a primary transport until a Cloudflare security page
    comes back; then they are retried through a browser-impersonating
    transport, one fallback profile after another, and once a fallback
    response gets through every later request uses that transport directly.
    Both transports are oracles: what each gives for a request (and a
    profile), a response or a raised exception, is a parameter of the
    model. */
module Transport {
  import opened Wrappers
  import opened Text
  import opened Json

  datatype Verb = Get | Post

  /** A request; headers and the timeout are passed through unchanged and
      are not modelled. */
  datatype Request = Request(verb: Verb, url: string, payload: Option<Json>)

  /** What the client reads from a response: the status code, the `server`
      header (absent or a string) and the body text. */
  datatype Response = Response(status: int, server: Option<string>, text: string)

  /** The impersonation profiles of the fallback transport, in the order
      they are tried. */
  const FallbackProfiles: seq<string> := ["chrome124", "safari184"]

  /** One call made through a transport. */
  datatype Call = Primary(request: Request) | Fallback(request: Request, profile: string)

  /** `_is_cloudflare_security_page`: status 403, a `server` header naming
      Cloudflare in any letter case, and the Glassdoor security page title
      in the body. */
  predicate IsCloudflareSecurityPage(r: Response) {
    r.status == 403 &&
    Contains(Lower(r.server.GetOr("")), "cloudflare") &&
    Contains(r.text, "Security | Glassdoor")
  }

  /** The test a fallback response must pass to be returned at once:
      `status_code < 400 or not _is_cloudflare_security_page(response)`. */
  predicate Accepted(r: Response) {
    r.status < 400 || !IsCloudflareSecurityPage(r)
  }

  /** The status test adds nothing: a response is accepted exactly when it is
      not the security page, and a security page is never a success. */
  lemma AcceptedIffNotBlocked(r: Response)
    ensures Accepted(r) <==> !IsCloudflareSecurityPage(r)
    ensures r.status < 400 ==> !IsCloudflareSecurityPage(r)
  {
  }

  /** A response with a `server` header of "cloudflare" in capitals and the
      title in its body is the security page. */
  lemma UpperCaseServerBlocked(body: string)
    requires Contains(body, "Security | Glassdoor")
    ensures IsCloudflareSecurityPage(Response(403, Some("CLOUDFLARE"), body))
  {
    assert Lower("CLOUDFLARE") == "cloudflare";
    ContainsSelf("cloudflare");
  }

  /** A body without the title is never the security page, whatever the
      status and header. */
  lemma NoTitleNotBlocked(r: Response)
    requires !Contains(r.text, "Security | Glassdoor")
    ensures Accepted(r)
  {
  }

  /** The transports' answers: a response, or an exception raised by
      `session.request` (`NetworkError`). */
  type FallbackTransport = (Request, string) -> Fetched<Response>

  /** The primary transport's answers. */
  type PrimaryTransport = Request -> Fetched<Response>

  /** A call that returned a response the fallback loop rejects. */
  predicate Rejected(f: Fetched<Response>) {
    f.Ok? && !Accepted(f.value)
  }

  /** A call that returned a response the fallback loop accepts. */
  predicate AcceptedReply(f: Fetched<Response>) {
    f.Ok? && Accepted(f.value)
  }

  /** The result of the fallback loop: the response returned (or the
      exception that left it), whether it passed the test, and the calls
      made, in order. */
  datatype FallbackResult = FallbackResult(response: Fetched<Response>, accepted: bool, calls: seq<Call>)

  /** The fallback loop of `_request_with_curl` over `profiles`: the first
      accepted response is returned; when none is, the last response is. An
      exception from a call leaves the loop at once. */
  function FallbackFrom(req: Request, fallback: FallbackTransport, profiles: seq<string>): FallbackResult
    requires profiles != []
  {
    var r := fallback(req, profiles[0]);
    if !Rejected(r) || |profiles| == 1 then FallbackResult(r, AcceptedReply(r), [Fallback(req, profiles[0])])
    else
      var rest := FallbackFrom(req, fallback, profiles[1..]);
      FallbackResult(rest.response, rest.accepted, [Fallback(req, profiles[0])] + rest.calls)
  }

  /** The calls made through the fallback transport for `profiles`, in order. */
  function FallbackCalls(req: Request, profiles: seq<string>): (r: seq<Call>)
    ensures |r| == |profiles|
    ensures forall k :: 0 <= k < |profiles| ==> r[k] == Fallback(req, profiles[k])
  {
    seq(|profiles|, k requires 0 <= k < |profiles| => Fallback(req, profiles[k]))
  }

  /** Trying `profiles` is trying the first one and then the rest. */
  lemma FallbackCallsCons(req: Request, profiles: seq<string>, n: nat)
    requires 1 <= n <= |profiles|
    ensures FallbackCalls(req, profiles[..n]) == [Fallback(req, profiles[0])] + FallbackCalls(req, profiles[1..][..n - 1])
  {
  }

  /** Trying every profile is trying the first one and then the rest. */
  lemma FallbackCallsTail(req: Request, profiles: seq<string>)
    requires profiles != []
    ensures FallbackCalls(req, profiles) == [Fallback(req, profiles[0])] + FallbackCalls(req, profiles[1..])
  {
  }

  /** A rejected first profile passes on to the rest. */
  lemma FallbackFromRejectedFirst(req: Request, fallback: FallbackTransport, profiles: seq<string>)
    requires |profiles| > 1 && Rejected(fallback(req, profiles[0]))
    ensures var rest := FallbackFrom(req, fallback, profiles[1..]);
            FallbackFrom(req, fallback, profiles) ==
            FallbackResult(rest.response, rest.accepted, [Fallback(req, profiles[0])] + rest.calls)
  {
  }

  /** The profiles before index `i` all returned a rejected response. */
  predicate RejectedBefore(req: Request, fallback: FallbackTransport, profiles: seq<string>, i: nat)
    requires i <= |profiles|
  {
    forall k :: 0 <= k < i ==> Rejected(fallback(req, profiles[k]))
  }

  /** Rejections before index `i` are rejections before `i - 1` of the rest. */
  lemma RejectedBeforeTail(req: Request, fallback: FallbackTransport, profiles: seq<string>, i: nat)
    requires 0 < i <= |profiles| && RejectedBefore(req, fallback, profiles, i)
    ensures Rejected(fallback(req, profiles[0]))
    ensures RejectedBefore(req, fallback, profiles[1..], i - 1)
  {
    assert forall k :: 0 <= k < i - 1 ==> profiles[1..][k] == profiles[k + 1];
  }

  /** When the profiles before index `i` were all rejected and the call for
      profile `i` does not return a rejected response (it is accepted, or it
      raises, or it is the last profile), that call ends the loop: its
      answer is returned and exactly the profiles up to it were tried. */
  lemma {:induction false} FallbackEndsAt(req: Request, fallback: FallbackTransport,
                                          profiles: seq<string>, i: nat)
    requires i < |profiles| && RejectedBefore(req, fallback, profiles, i)
    requires !Rejected(fallback(req, profiles[i])) || i == |profiles| - 1
    ensures var r := fallback(req, profiles[i]);
            FallbackFrom(req, fallback, profiles) ==
            FallbackResult(r, AcceptedReply(r), FallbackCalls(req, profiles[..i + 1]))
  {
    if i > 0 {
      RejectedBeforeTail(req, fallback, profiles, i);
      FallbackEndsAt(req, fallback, profiles[1..], i - 1);
      FallbackFromRejectedFirst(req, fallback, profiles);
      FallbackCallsCons(req, profiles, i + 1);
    } else {
      assert FallbackCalls(req, profiles[..1]) == [Fallback(req, profiles[0])];
    }
  }

  /** When the profiles before index `i` were all rejected and profile `i` is
      accepted, its response is returned and exactly the profiles up to it
      were tried. */
  lemma FallbackFirstAccepted(req: Request, fallback: FallbackTransport, profiles: seq<string>, i: nat)
    requires i < |profiles| && RejectedBefore(req, fallback, profiles, i)
    requires AcceptedReply(fallback(req, profiles[i]))
    ensures FallbackFrom(req, fallback, profiles) ==
            FallbackResult(fallback(req, profiles[i]), true, FallbackCalls(req, profiles[..i + 1]))
  {
    FallbackEndsAt(req, fallback, profiles, i);
  }

  /** When the profiles before index `i` were all rejected and the call for
      profile `i` raises, the exception leaves the loop: no later profile is
      tried and nothing is accepted. */
  lemma FallbackRaisedAt(req: Request, fallback: FallbackTransport, profiles: seq<string>, i: nat)
    requires i < |profiles| && RejectedBefore(req, fallback, profiles, i)
    requires fallback(req, profiles[i]).NetworkError?
    ensures FallbackFrom(req, fallback, profiles) ==
            FallbackResult(NetworkError, false, FallbackCalls(req, profiles[..i + 1]))
  {
    FallbackEndsAt(req, fallback, profiles, i);
  }

  /** When every profile is rejected, the last profile's response is
      returned after every profile was tried. */
  lemma FallbackAllRejected(req: Request, fallback: FallbackTransport, profiles: seq<string>)
    requires profiles != [] && RejectedBefore(req, fallback, profiles, |profiles|)
    ensures FallbackFrom(req, fallback, profiles) ==
            FallbackResult(fallback(req, profiles[|profiles| - 1]), false, FallbackCalls(req, profiles))
  {
    var i := |profiles| - 1;
    assert RejectedBefore(req, fallback, profiles, i);
    FallbackEndsAt(req, fallback, profiles, i);
    assert profiles[..i + 1] == profiles;
  }

  /** A fallback result is accepted exactly when some profile is accepted
      after every earlier one was rejected; it is an exception exactly when
      some profile raised after every earlier one was rejected. Its flag is
      the verdict on the response it returns, and between one call and one
      call per profile are made, all through the fallback transport. */
  lemma {:induction false} FallbackFromAccepted(req: Request, fallback: FallbackTransport,
                                                profiles: seq<string>)
    requires profiles != []
    ensures var o := FallbackFrom(req, fallback, profiles);
            (o.accepted <==> exists k :: 0 <= k < |profiles| && RejectedBefore(req, fallback, profiles, k) &&
                                         AcceptedReply(fallback(req, profiles[k]))) &&
            (o.response.NetworkError? <==>
               exists k :: 0 <= k < |profiles| && RejectedBefore(req, fallback, profiles, k) &&
                           fallback(req, profiles[k]).NetworkError?) &&
            o.accepted == AcceptedReply(o.response) &&
            1 <= |o.calls| <= |profiles| &&
            forall c :: c in o.calls ==> c.Fallback? && c.request == req
  {
    var r := fallback(req, profiles[0]);
    assert RejectedBefore(req, fallback, profiles, 0);
    if Rejected(r) && |profiles| > 1 {
      var rest := profiles[1..];
      FallbackFromAccepted(req, fallback, rest);
      forall k | 0 < k < |profiles|
        ensures RejectedBefore(req, fallback, profiles, k) <==> RejectedBefore(req, fallback, rest, k - 1)
      {
        assert forall j :: 0 <= j < k - 1 ==> rest[j] == profiles[j + 1];
        if RejectedBefore(req, fallback, rest, k - 1) {
          forall j | 0 <= j < k ensures Rejected(fallback(req, profiles[j])) {
            if j > 0 {
              assert profiles[j] == rest[j - 1];
            }
          }
        }
      }
      forall k | 0 <= k < |rest| ensures rest[k] == profiles[k + 1] { }
    } else {
      forall k | 0 < k < |profiles| ensures !RejectedBefore(req, fallback, profiles, k) {
        assert !Rejected(fallback(req, profiles[0]));
      }
    }
  }

  /** What one request leads to: the response returned (or the exception
      raised), the new value of the preference flag, the calls made, and
      whether the fallback transport was used. */
  datatype Outcome = Outcome(response: Fetched<Response>, preferFallback: bool, calls: seq<Call>, usedFallback: bool)

  /** `_request`: straight to the fallback transport once it is preferred
      (and installed); otherwise the primary transport, and the fallback
      transport only when the primary one returns the security page. The
      preference is set by an accepted fallback response and never cleared.
      An exception from either transport leaves `_request` with the
      preference as it was. */
  function RequestOutcome(preferFallback: bool, fallbackInstalled: bool, req: Request,
                          primary: PrimaryTransport, fallback: FallbackTransport): Outcome
  {
    if preferFallback && fallbackInstalled then
      var f := FallbackFrom(req, fallback, FallbackProfiles);
      Outcome(f.response, preferFallback || f.accepted, f.calls, true)
    else
      var r := primary(req);
      if r.Ok? && IsCloudflareSecurityPage(r.value) && fallbackInstalled then
        var f := FallbackFrom(req, fallback, FallbackProfiles);
        Outcome(f.response, preferFallback || f.accepted, [Primary(req)] + f.calls, true)
      else
        Outcome(r, preferFallback, [Primary(req)], false)
  }

  /** The preference is a latch: it is set afterwards exactly when it was set
      before or the fallback transport was used and its response accepted;
      an exception leaves it as it was; the fallback transport is used only
      when installed. */
  lemma RequestOutcomeLatch(preferFallback: bool, fallbackInstalled: bool, req: Request,
                            primary: PrimaryTransport, fallback: FallbackTransport)
    ensures var o := RequestOutcome(preferFallback, fallbackInstalled, req, primary, fallback);
            (o.preferFallback <==> preferFallback || (o.usedFallback && AcceptedReply(o.response))) &&
            (preferFallback ==> o.preferFallback) &&
            (o.response.NetworkError? ==> o.preferFallback == preferFallback) &&
            (o.usedFallback ==> fallbackInstalled)
  {
    FallbackFromAccepted(req, fallback, FallbackProfiles);
  }

  /** Once the fallback is preferred, the primary transport is not called:
      every call goes through the fallback profiles, in order, until one is
      accepted or raises. */
  lemma PreferredSkipsPrimary(req: Request, primary: PrimaryTransport, fallback: FallbackTransport)
    ensures var o := RequestOutcome(true, true, req, primary, fallback);
            Primary(req) !in o.calls && o.preferFallback &&
            o.response == FallbackFrom(req, fallback, FallbackProfiles).response
  {
    FallbackFromAccepted(req, fallback, FallbackProfiles);
  }

  /** Without the preference, what the primary transport gives is returned
      as it is (a response that is not the security page, or an exception),
      after a single call of the primary transport; so is every answer when
      the fallback transport is not installed. */
  lemma PrimaryResponseKept(preferFallback: bool, fallbackInstalled: bool, req: Request,
                            primary: PrimaryTransport, fallback: FallbackTransport)
    requires !(preferFallback && fallbackInstalled)
    requires primary(req).NetworkError? || !IsCloudflareSecurityPage(primary(req).value) || !fallbackInstalled
    ensures RequestOutcome(preferFallback, fallbackInstalled, req, primary, fallback) ==
            Outcome(primary(req), preferFallback, [Primary(req)], false)
  {
  }

  /** A blocked primary response is retried: the first accepted fallback
      response is returned and sets the preference; when every profile is
      blocked the last profile's response is returned and the preference is
      left as it was; when a profile raises, no later profile is tried and
      the preference is left as it was. */
  lemma BlockedPrimaryRetried(req: Request, primary: PrimaryTransport, fallback: FallbackTransport)
    requires primary(req).Ok? && IsCloudflareSecurityPage(primary(req).value)
    ensures var o := RequestOutcome(false, true, req, primary, fallback);
            var first := fallback(req, FallbackProfiles[0]);
            var second := fallback(req, FallbackProfiles[1]);
            var both := [Primary(req), Fallback(req, "chrome124"), Fallback(req, "safari184")];
            (AcceptedReply(first) ==>
               o == Outcome(first, true, [Primary(req), Fallback(req, "chrome124")], true)) &&
            (first.NetworkError? ==>
               o == Outcome(NetworkError, false, [Primary(req), Fallback(req, "chrome124")], true)) &&
            (Rejected(first) && AcceptedReply(second) ==> o == Outcome(second, true, both, true)) &&
            (Rejected(first) && Rejected(second) ==> o == Outcome(second, false, both, true)) &&
            (Rejected(first) && second.NetworkError? ==> o == Outcome(NetworkError, false, both, true))
  {
    var ps := FallbackProfiles;
    assert ps[..1] == ["chrome124"] && ps[..2] == ps;
    assert RejectedBefore(req, fallback, ps, 0);
    if !Rejected(fallback(req, ps[0])) {
      FallbackEndsAt(req, fallback, ps, 0);
    } else {
      assert RejectedBefore(req, fallback, ps, 1);
      FallbackEndsAt(req, fallback, ps, 1);
    }
  }

  /** The preference flag and calls after a run of requests made in order,
      whatever each request gives, an exception included. */
  datatype RunState = RunState(preferFallback: bool, calls: seq<Call>)

  function Run(st: RunState, fallbackInstalled: bool, reqs: seq<Request>,
               primary: PrimaryTransport, fallback: FallbackTransport): RunState
    decreases |reqs|
  {
    if reqs == [] then st
    else
      var o := RequestOutcome(st.preferFallback, fallbackInstalled, reqs[0], primary, fallback);
      Run(RunState(o.preferFallback, st.calls + o.calls), fallbackInstalled, reqs[1..], primary, fallback)
  }

  /** Over a run of requests the preference is never cleared, and once it is
      set (with the fallback installed) no request of the run reaches the
      primary transport. */
  lemma {:induction false} RunLatch(st: RunState, fallbackInstalled: bool, reqs: seq<Request>,
                                    primary: PrimaryTransport, fallback: FallbackTransport)
    ensures var end := Run(st, fallbackInstalled, reqs, primary, fallback);
            (st.preferFallback ==> end.preferFallback) &&
            |st.calls| <= |end.calls| && end.calls[..|st.calls|] == st.calls &&
            (st.preferFallback && fallbackInstalled ==>
               forall k :: |st.calls| <= k < |end.calls| ==> end.calls[k].Fallback?)
    decreases |reqs|
  {
    if reqs != [] {
      var o := RequestOutcome(st.preferFallback, fallbackInstalled, reqs[0], primary, fallback);
      var next := RunState(o.preferFallback, st.calls + o.calls);
      RequestOutcomeLatch(st.preferFallback, fallbackInstalled, reqs[0], primary, fallback);
      FallbackFromAccepted(reqs[0], fallback, FallbackProfiles);
      RunLatch(next, fallbackInstalled, reqs[1..], primary, fallback);
      var end := Run(next, fallbackInstalled, reqs[1..], primary, fallback);
      assert end.calls[..|st.calls|] == next.calls[..|st.calls|];
      if st.preferFallback && fallbackInstalled {
        forall k | |st.calls| <= k < |end.calls| ensures end.calls[k].Fallback? {
          if k < |next.calls| {
            assert end.calls[k] == next.calls[k];
            assert next.calls[k] == o.calls[k - |st.calls|];
            assert o.calls[k - |st.calls|] in o.calls;
          }
        }
      }
    }
  }

  /** The client: the primary session, the optional fallback session, and
      the preference for the fallback transport. `calls` records every
      call made through either transport. */
  class HttpClient {
    /** Whether the fallback library is installed (`curl_requests is not None`). */
    const fallbackInstalled: bool
    const primary: PrimaryTransport
    const fallback: FallbackTransport
    var preferFallback: bool
    var fallbackSessionOpen: bool
    ghost var calls: seq<Call>

    /** The preference is only ever set after the fallback session was
        opened, and that session exists only when the library is installed. */
    ghost predicate Valid()
      reads this
    {
      (preferFallback ==> fallbackSessionOpen) && (fallbackSessionOpen ==> fallbackInstalled)
    }

    constructor(fallbackInstalled: bool, primary: PrimaryTransport, fallback: FallbackTransport)
      ensures Valid()
      ensures this.fallbackInstalled == fallbackInstalled && this.primary == primary && this.fallback == fallback
      ensures !preferFallback && !fallbackSessionOpen && calls == []
    {
      this.fallbackInstalled := fallbackInstalled;
      this.primary := primary;
      this.fallback := fallback;
      preferFallback := false;
      fallbackSessionOpen := false;
      calls := [];
    }

    /** `_ensure_curl_session`: a `RuntimeError` (here `raised`) when the
        library is not installed; otherwise the session is opened once and
        reused. */
    method EnsureFallbackSession() returns (raised: bool)
      requires Valid()
      modifies this
      ensures Valid()
      ensures raised <==> !fallbackInstalled
      ensures fallbackSessionOpen == (old(fallbackSessionOpen) || fallbackInstalled)
      ensures preferFallback == old(preferFallback) && calls == old(calls)
    {
      if !fallbackInstalled {
        return true;
      }
      if !fallbackSessionOpen {
        fallbackSessionOpen := true;
      }
      return false;
    }

    /** `_request_with_curl`: the profiles in order, returning the first
        accepted response (and setting the preference) or else the last
        response; an exception from a call leaves at once. Its callers only
        reach it with the library installed. */
    method RequestWithFallback(req: Request) returns (r: Fetched<Response>)
      requires Valid() && fallbackInstalled
      modifies this
      ensures Valid()
      ensures var f := FallbackFrom(req, fallback, FallbackProfiles);
              r == f.response && preferFallback == (old(preferFallback) || f.accepted) &&
              calls == old(calls) + f.calls && fallbackSessionOpen
    {
      var raised := EnsureFallbackSession();
      var profiles := FallbackProfiles;
      var last: Fetched<Response> := NetworkError;
      for i := 0 to |profiles|
        invariant Valid() && fallbackSessionOpen
        invariant preferFallback == old(preferFallback)
        invariant calls == old(calls) + FallbackCalls(req, profiles[..i])
        invariant RejectedBefore(req, fallback, profiles, i)
        invariant i > 0 ==> last == fallback(req, profiles[i - 1])
      {
        var response := fallback(req, profiles[i]);
        calls := calls + [Fallback(req, profiles[i])];
        assert FallbackCalls(req, profiles[..i + 1]) == FallbackCalls(req, profiles[..i]) + [Fallback(req, profiles[i])];
        if response.NetworkError? {
          FallbackRaisedAt(req, fallback, profiles, i);
          return NetworkError;
        }
        last := response;
        if Accepted(response.value) {
          preferFallback := true;
          FallbackFirstAccepted(req, fallback, profiles, i);
          return response;
        }
      }
      assert profiles[..|profiles|] == profiles;
      FallbackAllRejected(req, fallback, profiles);
      r := last;
    }

    /** `_request`. */
    method Send(req: Request) returns (r: Fetched<Response>)
      requires Valid()
      modifies this
      ensures Valid()
      ensures var o := RequestOutcome(old(preferFallback), fallbackInstalled, req, primary, fallback);
              r == o.response && preferFallback == o.preferFallback && calls == old(calls) + o.calls &&
              fallbackSessionOpen == (old(fallbackSessionOpen) || o.usedFallback)
    {
      if preferFallback && fallbackInstalled {
        r := RequestWithFallback(req);
        return;
      }
      var response := primary(req);
      calls := calls + [Primary(req)];
      if response.Ok? && IsCloudflareSecurityPage(response.value) && fallbackInstalled {
        r := RequestWithFallback(req);
        return;
      }
      r := response;
    }

    /** `get`: a GET request without a payload. */
    method Get(url: string) returns (r: Fetched<Response>)
      requires Valid()
      modifies this
      ensures Valid()
      ensures var o := RequestOutcome(old(preferFallback), fallbackInstalled, Request(Verb.Get, url, None), primary, fallback);
              r == o.response && preferFallback == o.preferFallback && calls == old(calls) + o.calls &&
              fallbackSessionOpen == (old(fallbackSessionOpen) || o.usedFallback)
    {
      r := Send(Request(Verb.Get, url, None));
    }

    /** `post`: a POST request with a JSON payload. */
    method Post(url: string, payload: Json) returns (r: Fetched<Response>)
      requires Valid()
      modifies this
      ensures Valid()
      ensures var o := RequestOutcome(old(preferFallback), fallbackInstalled, Request(Verb.Post, url, Some(payload)), primary, fallback);
              r == o.response && preferFallback == o.preferFallback && calls == old(calls) + o.calls &&
              fallbackSessionOpen == (old(fallbackSessionOpen) || o.usedFallback)
    {
      r := Send(Request(Verb.Post, url, Some(payload)));
    }
  }
}
