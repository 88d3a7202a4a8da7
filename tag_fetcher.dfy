/** `Repo#api_call`: fetch every page of the tags listing of a repository,
    following `Link` headers, and turn a failed page into the error the Ruby
    code raises. The HTTP exchange is abstracted: the responses the server
    gives to the successive requests are an input, already parsed. */
module TagFetcher {
  import opened Wrappers
  import opened Strings
  import opened LinkHeader

  const TokenKey := "GITHUB_API_TOKEN"
  const RateLimitPhrase := "API rate limit exceeded"
  const RateLimitAdvice := " -- increase limit by authenticating via " + TokenKey + "=your-token"

  /** What `JSON.parse` makes of a response body. */
  datatype Json =
    | TagArray(names: seq<string>)     // an array of tag records, given by their names
    | Object(message: Option<string>)  // a hash, with its `message` entry if any
    | OtherJson                        // any other JSON value
    | NotJson                          // `JSON::ParserError`

  /** One HTTP response: status code, raw body, parsed body, `Link` header. */
  datatype Response = Response(code: nat, body: string, json: Json, link: Option<string>)

  datatype FetchError =
    | RateLimited(text: string)            // `Error` raised for an exhausted rate limit
    | ApiError(text: string)               // `Error` raised for any other failed page
    | UnexpectedJson(url: string, code: nat) // a TypeError or ParserError escaping `api_call`
    | NoUrlInLink(entry: string)           // a rel=next entry without <...>: `nil[1]` raises
    | Unanswered(url: string)              // the responses given ran out; `url` was next

  /** The first request of a listing. */
  function FirstUrl(path: string): string {
    "https://api.github.com" + path + "?page=1&per_page=100"
  }

  /** `url << "&access_token=..." if ENV[TOKEN_KEY]`. */
  function WithToken(url: string, token: Option<string>): (r: string)
    ensures token.None? ==> r == url
    ensures token.Some? ==> StartsWith(r, url) && EndsWith(r, "&access_token=" + token.value)
  {
    match token
    case None => url
    case Some(t) => url + "&access_token=" + t
  }

  /** `"Error fetching #{url}: [#{code}] #{detail}"`. */
  function FetchingText(url: string, code: nat, detail: string): string {
    "Error fetching " + url + ": [" + Decimal(code) + "] " + detail
  }

  /** The error raised for a page whose status is not 200; `url` is the URL as
      requested, token included. */
  function Classify(url: string, resp: Response): FetchError
    requires resp.code != 200
  {
    match resp.json
    case Object(Some(m)) =>
      if resp.code == 403 && Contains(m, RateLimitPhrase) then RateLimited(m + RateLimitAdvice)
      else ApiError(FetchingText(url, resp.code, m))
    case Object(None) => ApiError(FetchingText(url, resp.code, resp.body))
    case NotJson => ApiError(FetchingText(url, resp.code, resp.body))
    case _ => UnexpectedJson(url, resp.code)
  }

  /** A failed page is reported as a rate limit exactly when it is a 403 whose
      message mentions the rate limit; the text then starts with that message
      and names the environment variable that lifts the limit. */
  lemma ClassifyRateLimit(url: string, resp: Response)
    requires resp.code != 200
    ensures Classify(url, resp).RateLimited?
        <==> resp.code == 403 && resp.json.Object? && resp.json.message.Some?
             && Contains(resp.json.message.value, RateLimitPhrase)
    ensures Classify(url, resp).RateLimited? ==>
              StartsWith(Classify(url, resp).text, resp.json.message.value)
              && Contains(Classify(url, resp).text, TokenKey)
  {
    if Classify(url, resp).RateLimited? {
      var m := resp.json.message.value;
      var text := m + " -- increase limit by authenticating via " + TokenKey + "=your-token";
      assert Classify(url, resp).text == text;
      ContainsPiece(m + " -- increase limit by authenticating via ", TokenKey, "=your-token");
      assert text[..|m|] == m;
    }
  }

  /** Any other failure names the requested URL and its status code, and
      ends with the server's message, or with the raw body when the body has
      no message or is not JSON. */
  lemma ClassifyApiError(url: string, resp: Response)
    requires resp.code != 200
    requires !Classify(url, resp).RateLimited?
    ensures Classify(url, resp).ApiError? <==> resp.json.Object? || resp.json.NotJson?
    ensures Classify(url, resp).ApiError? ==>
              var text := Classify(url, resp).text;
              && StartsWith(text, "Error fetching " + url + ": [" + Decimal(resp.code) + "] ")
              && EndsWith(text, if resp.json.Object? && resp.json.message.Some?
                                then resp.json.message.value else resp.body)
  {
    if Classify(url, resp).ApiError? {
      var head := "Error fetching " + url + ": [" + Decimal(resp.code) + "] ";
      var detail := if resp.json.Object? && resp.json.message.Some? then resp.json.message.value else resp.body;
      assert Classify(url, resp).text == head + detail;
      assert (head + detail)[..|head|] == head;
      assert (head + detail)[|head + detail| - |detail|..] == detail;
    }
  }

  /** What one page means for the loop. */
  datatype Verdict =
    | Follow(names: seq<string>, next: string)
    | Done(names: seq<string>)
    | Raise(error: FetchError)

  function Judge(url: string, resp: Response): (v: Verdict)
    ensures (v.Follow? || v.Done?)
        <==> (resp.code == 200 && resp.json.TagArray? && !NextPageOf(resp.link).NoUrlIn?)
  {
    if resp.code != 200 then Raise(Classify(url, resp))
    else if !resp.json.TagArray? then Raise(UnexpectedJson(url, 200))
    else
      match NextPageOf(resp.link)
      case LastPage => Done(resp.json.names)
      case NoUrlIn(entry) => Raise(NoUrlInLink(entry))
      case NextAt(next) => Follow(resp.json.names, next)
  }

  /** The outcome of a listing and the URLs requested, in order. */
  datatype Run = Run(outcome: Result<seq<string>, FetchError>, requested: seq<string>)

  /** Puts the pages already fetched in front of the rest of a run. */
  function Resume(tags: seq<string>, requested: seq<string>, run: Run): Run {
    Run(match run.outcome
        case Ok(rest) => Ok(tags + rest)
        case Err(e) => Err(e),
        requested + run.requested)
  }

  /** The listing from `url` on, given the responses still to come. */
  function Paginate(url: string, token: Option<string>, rs: seq<Response>): (run: Run)
    ensures |run.requested| <= |rs|
    decreases |rs|
  {
    if rs == [] then Run(Err(Unanswered(url)), [])
    else
      var req := WithToken(url, token);
      match Judge(req, rs[0])
      case Raise(e) => Run(Err(e), [req])
      case Done(names) => Run(Ok(names), [req])
      case Follow(names, next) => Resume(names, [req], Paginate(next, token, rs[1..]))
  }

  lemma PaginateFollows(url: string, token: Option<string>, rs: seq<Response>)
    requires rs != [] && Judge(WithToken(url, token), rs[0]).Follow?
    ensures var v := Judge(WithToken(url, token), rs[0]);
      Paginate(url, token, rs) == Resume(v.names, [WithToken(url, token)], Paginate(v.next, token, rs[1..]))
  {
  }

  lemma PaginateStops(url: string, token: Option<string>, rs: seq<Response>)
    requires rs != [] && !Judge(WithToken(url, token), rs[0]).Follow?
    ensures var v := Judge(WithToken(url, token), rs[0]);
      Paginate(url, token, rs)
        == Run(if v.Done? then Ok(v.names) else Err(v.error), [WithToken(url, token)])
  {
  }

  /** The tag lists of a run of 200 pages, in request order. */
  function AllNames(rs: seq<Response>): seq<string>
    requires forall i :: 0 <= i < |rs| ==> rs[i].json.TagArray?
  {
    if rs == [] then [] else rs[0].json.names + AllNames(rs[1..])
  }

  lemma AllNamesFront(rs: seq<Response>, n: nat)
    requires 1 <= n <= |rs|
    requires forall i :: 0 <= i < n ==> rs[i].json.TagArray?
    ensures AllNames(rs[..n]) == rs[0].json.names + AllNames(rs[1..][..n - 1])
  {
    assert rs[..n][0] == rs[0];
    assert rs[..n][1..] == rs[1..][..n - 1];
  }

  /** The requests form a chain: the first is the start URL with the token
      appended, and each later one is the `rel="next"` URL of the page before,
      again with the token appended; every page but the last was a 200
      carrying such a link. */
  lemma {:induction false} PaginateRequests(url: string, token: Option<string>, rs: seq<Response>)
    ensures var run := Paginate(url, token, rs);
      && |run.requested| <= |rs|
      && (rs != [] ==> |run.requested| >= 1 && run.requested[0] == WithToken(url, token))
      && forall i :: 0 <= i < |run.requested| - 1 ==>
           && Judge(run.requested[i], rs[i]).Follow?
           && run.requested[i + 1] == WithToken(Judge(run.requested[i], rs[i]).next, token)
    decreases |rs|
  {
    if rs != [] {
      var req := WithToken(url, token);
      var v := Judge(req, rs[0]);
      if v.Follow? {
        PaginateRequests(v.next, token, rs[1..]);
        var tail := Paginate(v.next, token, rs[1..]);
        var run := Paginate(url, token, rs);
        assert run.requested == [req] + tail.requested;
        forall i | 0 <= i < |run.requested| - 1
          ensures Judge(run.requested[i], rs[i]).Follow?
          ensures run.requested[i + 1] == WithToken(Judge(run.requested[i], rs[i]).next, token)
        {
          if i > 0 {
            assert run.requested[i] == tail.requested[i - 1];
            assert rs[i] == rs[1..][i - 1];
          }
        }
      }
    }
  }

  /** What a successful listing has seen: `n` pages, all 200s with a tag
      array, the last without a `rel="next"` entry, and the result is the
      concatenation of their tag lists in request order. */
  ghost predicate ListedFrom(run: Run, rs: seq<Response>)
    requires run.outcome.Ok?
  {
    var n := |run.requested|;
    && 1 <= n <= |rs|
    && (forall i :: 0 <= i < n ==> rs[i].code == 200 && rs[i].json.TagArray?)
    && Judge(run.requested[n - 1], rs[n - 1]).Done?
    && run.outcome.value == AllNames(rs[..n])
  }

  /** Every successful listing is made of 200 pages that lead on to each
      other, up to one without a `rel="next"` entry, and returns their tag
      lists concatenated in request order. */
  lemma {:induction false} PaginateSuccess(url: string, token: Option<string>, rs: seq<Response>)
    ensures Paginate(url, token, rs).outcome.Ok? ==> ListedFrom(Paginate(url, token, rs), rs)
    decreases |rs|
  {
    if rs != [] && Paginate(url, token, rs).outcome.Ok? {
      var v := Judge(WithToken(url, token), rs[0]);
      if v.Done? {
        assert rs[..1] == [rs[0]];
        assert AllNames(rs[..1]) == rs[0].json.names + AllNames([]);
      } else {
        PaginateSuccess(v.next, token, rs[1..]);
        PaginateSuccessStep(url, token, rs);
      }
    }
  }

  lemma PaginateSuccessStep(url: string, token: Option<string>, rs: seq<Response>)
    requires rs != [] && Judge(WithToken(url, token), rs[0]).Follow?
    requires var v := Judge(WithToken(url, token), rs[0]);
      Paginate(v.next, token, rs[1..]).outcome.Ok? ==> ListedFrom(Paginate(v.next, token, rs[1..]), rs[1..])
    ensures Paginate(url, token, rs).outcome.Ok? ==> ListedFrom(Paginate(url, token, rs), rs)
  {
    var run := Paginate(url, token, rs);
    var req := WithToken(url, token);
    var v := Judge(req, rs[0]);
    var tail := Paginate(v.next, token, rs[1..]);
    PaginateFollows(url, token, rs);
    if run.outcome.Ok? {
      var n := |run.requested|;
      assert run.requested == [req] + tail.requested;
      assert run.requested[n - 1] == tail.requested[n - 2];
      forall i | 0 <= i < n
        ensures rs[i].code == 200 && rs[i].json.TagArray?
      {
        if i > 0 { assert rs[i] == rs[1..][i - 1]; }
      }
      AllNamesFront(rs, n);
    }
  }

  /** Why a failed listing failed: the last page requested raised, or, when
      the responses given ran out, the error names the URL the loop would
      have requested next. */
  ghost predicate FailedFrom(run: Run, url: string, rs: seq<Response>)
    requires run.outcome.Err? && |run.requested| <= |rs|
  {
    var n := |run.requested|;
    || (n >= 1 && Judge(run.requested[n - 1], rs[n - 1]) == Raise(run.outcome.error))
    || (n == |rs| && run.outcome.error.Unanswered?
        && (n == 0 ==> run.outcome.error.url == url)
        && (n > 0 ==> Judge(run.requested[n - 1], rs[n - 1]).Follow?
                      && run.outcome.error.url == Judge(run.requested[n - 1], rs[n - 1]).next))
  }

  /** A listing fails with the error of its last page, or, when the
      responses given run out, with the URL the source would request next. */
  lemma {:induction false} PaginateFailure(url: string, token: Option<string>, rs: seq<Response>)
    ensures Paginate(url, token, rs).outcome.Err? ==> FailedFrom(Paginate(url, token, rs), url, rs)
    decreases |rs|
  {
    if rs != [] && Paginate(url, token, rs).outcome.Err? {
      var v := Judge(WithToken(url, token), rs[0]);
      if v.Follow? {
        PaginateFailure(v.next, token, rs[1..]);
        PaginateFailureStep(url, token, rs);
      } else {
        PaginateStops(url, token, rs);
      }
    }
  }

  lemma PaginateFailureStep(url: string, token: Option<string>, rs: seq<Response>)
    requires rs != [] && Judge(WithToken(url, token), rs[0]).Follow?
    requires var v := Judge(WithToken(url, token), rs[0]);
      Paginate(v.next, token, rs[1..]).outcome.Err? ==> FailedFrom(Paginate(v.next, token, rs[1..]), v.next, rs[1..])
    ensures Paginate(url, token, rs).outcome.Err? ==> FailedFrom(Paginate(url, token, rs), url, rs)
  {
    var run := Paginate(url, token, rs);
    var req := WithToken(url, token);
    var v := Judge(req, rs[0]);
    var tail := Paginate(v.next, token, rs[1..]);
    PaginateFollows(url, token, rs);
    if run.outcome.Err? {
      var n := |run.requested|;
      assert run.requested == [req] + tail.requested;
      if n >= 2 {
        assert run.requested[n - 1] == tail.requested[n - 2];
        assert rs[n - 1] == rs[1..][n - 2];
      }
    }
  }

  lemma ResumeResume(t1: seq<string>, r1: seq<string>, t2: seq<string>, r2: seq<string>, run: Run)
    ensures Resume(t1, r1, Resume(t2, r2, run)) == Resume(t1 + t2, r1 + r2, run)
  {
    if run.outcome.Ok? {
      assert t1 + (t2 + run.outcome.value) == (t1 + t2) + run.outcome.value;
    }
    assert r1 + (r2 + run.requested) == (r1 + r2) + run.requested;
  }

  lemma ResumeNothing(run: Run)
    ensures Resume([], [], run) == run
  {
    if run.outcome.Ok? { assert [] + run.outcome.value == run.outcome.value; }
    assert [] + run.requested == run.requested;
  }

  /** The body of the loop of `api_call` after the request: a failed page
      raises, a 200 page's tags are kept, and the `Link` header decides
      whether and where the loop goes on. */
  method Examine(url: string, response: Response) returns (v: Verdict)
    ensures v == Judge(url, response)
  {
    if response.code != 200 {
      return Raise(Classify(url, response));
    }
    if !response.json.TagArray? {
      return Raise(UnexpectedJson(url, 200));
    }
    var names := response.json.names;
    if response.link.None? {
      return Done(names);
    }
    var entry := FirstRelNext(Split(response.link.value));
    if entry.None? {
      return Done(names);
    }
    var next := AngleCapture(entry.value);
    if next.None? {
      return Raise(NoUrlInLink(entry.value));
    }
    v := Follow(names, next.value);
  }

  /** The `while true` loop of `api_call`: `url` grows by the token before
      each request, `tags` grows by each 200 page, and the loop leaves at the
      first page without a `rel="next"` entry or raises at a failed page. */
  method ApiCall(path: string, token: Option<string>, rs: seq<Response>) returns (run: Run)
    ensures run == Paginate(FirstUrl(path), token, rs)
  {
    var tags: seq<string> := [];
    var requested: seq<string> := [];
    var url := FirstUrl(path);
    var i := 0;
    ResumeNothing(Paginate(url, token, rs));
    assert rs[i..] == rs;
    while true
      invariant 0 <= i <= |rs|
      invariant Resume(tags, requested, Paginate(url, token, rs[i..])) == Paginate(FirstUrl(path), token, rs)
      decreases |rs| - i
    {
      if i == |rs| {
        return Run(Err(Unanswered(url)), requested);
      }
      PaginateAt(url, token, rs, i);
      url := WithToken(url, token);
      var v := Examine(url, rs[i]);
      i := i + 1;
      match v
      case Raise(e) =>
        return Run(Err(e), requested + [url]);
      case Done(names) =>
        ResumeResume(tags, requested, names, [url], Paginate(url, token, rs[i..]));
        return Run(Ok(tags + names), requested + [url]);
      case Follow(names, next) =>
        ResumeResume(tags, requested, names, [url], Paginate(next, token, rs[i..]));
        tags := tags + names;
        requested := requested + [url];
        url := next;
    }
  }

  /** One step of `Paginate`, at the `i`-th response. */
  lemma PaginateAt(url: string, token: Option<string>, rs: seq<Response>, i: nat)
    requires i < |rs|
    ensures var req := WithToken(url, token);
      Paginate(url, token, rs[i..]) == match Judge(req, rs[i])
        case Raise(e) => Run(Err(e), [req])
        case Done(names) => Run(Ok(names), [req])
        case Follow(names, next) => Resume(names, [req], Paginate(next, token, rs[i + 1..]))
  {
    assert rs[i..][0] == rs[i] && rs[i..][1..] == rs[i + 1..];
  }
}
