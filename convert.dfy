/** The request-independent parts of `src/handlers/convert.js`: reading the
    conversion options from the request, classifying a failed fetch, and
    deciding what a POST request converts. Fetching, JSON parsing and the
    building of responses are not modelled. */
module Convert {
  import opened Wrappers
  import opened Text
  import Processor

  /** A request parameter: missing, `null` (what `searchParams.get` returns
      for a missing query parameter), a JSON boolean, a string, or any other
      JSON value. */
  datatype Param = Absent | Null | Flag(b: bool) | Str(s: string) | Other

  /** `getOptions`: `title` turns the inline title on only when it is `true`
      or `"true"`; `links` removes links only when it is `false` or
      `"false"`; `clean` turns Readability off only when it is `false` or
      `"false"`. Missing parameters give: no inline title, links kept,
      Readability on. All three options are always set. */
  function GetOptions(title: Param, links: Param, clean: Param): (r: Processor.Options)
    ensures r.inlineTitle.Some? && r.ignoreLinks.Some? && r.improveReadability.Some?
    ensures r.inlineTitle.value <==> title == Flag(true) || title == Str("true")
    ensures r.ignoreLinks.value <==> links == Flag(false) || links == Str("false")
    ensures !r.improveReadability.value <==> clean == Flag(false) || clean == Str("false")
  {
    var inlineTitle := if title != Absent then title == Flag(true) || title == Str("true") else false;
    var ignoreLinks := if links != Absent then links == Flag(false) || links == Str("false") else false;
    var improveReadability := if clean != Absent then clean != Flag(false) && clean != Str("false") else true;
    Processor.Options(Some(inlineTitle), Some(ignoreLinks), Some(improveReadability))
  }

  /** The handler sets every option, so the processor's own defaults never
      apply: a request without `title` gets no inline title, although
      `processDom` alone would put it in. */
  lemma HandlerDefaultsWin()
    ensures Processor.Resolve(GetOptions(Absent, Absent, Absent)) == Processor.Settings(false, false, true)
    ensures Processor.Resolve(Processor.Options(None, None, None)) == Processor.Settings(true, false, true)
  {
  }

  /** A `null` parameter reads like a missing one. */
  lemma NullReadsAsAbsent(title: Param, links: Param, clean: Param)
    ensures GetOptions(Null, links, clean) == GetOptions(Absent, links, clean)
    ensures GetOptions(title, Null, clean) == GetOptions(title, Absent, clean)
    ensures GetOptions(title, links, Null) == GetOptions(title, links, Absent)
  {
  }

  const FailureMessage: string := "Sorry, could not fetch and convert that URL"
  const BlockedMessage: string := "This website blocks automated access. Try a different URL."

  /** `error.message?.includes(pat)`: false when the error has no message. */
  predicate Mentions(message: Option<string>, pat: string) {
    message.Some? && Contains(message.value, pat)
  }

  /** The error text for a failed fetch: the blocked message when the
      error's message mentions `403`, the generic failure otherwise. */
  function FailureText(message: Option<string>): (r: string)
    ensures r == BlockedMessage <==> Mentions(message, "403")
    ensures r == FailureMessage <==> !Mentions(message, "403")
  {
    if Mentions(message, "403") then BlockedMessage else FailureMessage
  }

  /** The status of a failed fetch: 502 when the error's message mentions
      `HTTP` (the site answered with an error), 504 otherwise. */
  function FailureStatus(message: Option<string>): (r: nat)
    ensures r == 502 || r == 504
    ensures r == 502 <==> Mentions(message, "HTTP")
  {
    if Mentions(message, "HTTP") then 502 else 504
  }

  /** The plain-text body of a failed GET: the error text, followed by the
      site's answer when the error's message mentions `HTTP`. */
  function GetFailureBody(message: Option<string>): (r: string)
    ensures |r| >= |FailureText(message)| && r[..|FailureText(message)|] == FailureText(message)
    ensures Mentions(message, "HTTP") ==> r[|FailureText(message)|..] == " as the website returned " + message.value
    ensures !Mentions(message, "HTTP") ==> r == FailureText(message)
  {
    var details := if Mentions(message, "HTTP") then " as the website returned " + message.value else "";
    assert (FailureText(message) + details)[..|FailureText(message)|] == FailureText(message);
    assert (FailureText(message) + details)[|FailureText(message)|..] == details;
    FailureText(message) + details
  }

  /** A site that answers 403 through an HTTP error is reported as blocking
      automated access, with status 502. */
  lemma ForbiddenIsBlocked(answer: string)
    ensures var m := Some("HTTP 403" + answer); FailureText(m) == BlockedMessage && FailureStatus(m) == 502
  {
    var m := "HTTP 403" + answer;
    assert StartsAt(m, 5, "403") by {
      assert m[5..8] == "403";
    }
    assert StartsAt(m, 0, "HTTP") by {
      assert m[0..4] == "HTTP";
    }
    ContainsIff(m, "403");
    ContainsIff(m, "HTTP");
  }

  /** What a fetch yields: the page, or an error with its message (which
      may be missing). */
  datatype Fetched = Page(html: string) | FetchError(message: Option<string>)

  /** What a POST request leads to: a conversion of `html`, filtered for
      `sourceUrl`; a rejection with a status and an error text; or a failed
      fetch, with the error's message as details. */
  datatype PostOutcome =
    | Conversion(sourceUrl: string, html: string)
    | Rejected(status: nat, error: string)
    | FetchFailed(status: nat, error: string, details: Option<string>)

  /** The decision of `handlePostConvert` for a body whose `url` and `html`
      are `url` and `html` (`""` when missing). `isValidUrl` and the fetch
      are parameters; a fetch yields the page or the error's message. */
  function PostDecision(url: string, html: string, isValidUrl: string -> bool,
                        fetch: string -> Fetched): (r: PostOutcome)
    ensures html != "" ==> r == Conversion(url, html)
    ensures r.Conversion? ==> r.sourceUrl == url && r.html != ""
    ensures r.Rejected? ==> r.status == 400
    ensures r.FetchFailed? ==> url != "" && html == "" && isValidUrl(url) && fetch(url).FetchError?
    ensures url == "" && html == "" ==> r == Rejected(400, "Please provide either a URL or HTML content")
  {
    if url != "" && html == "" then
      if !isValidUrl(url) then Rejected(400, "Please specify a valid URL")
      else
        match fetch(url)
        case FetchError(message) => FetchFailed(FailureStatus(message), FailureText(message), message)
        case Page(page) =>
          if page == "" then Rejected(400, "Please provide either a URL or HTML content")
          else Conversion(url, page)
    else if html == "" then Rejected(400, "Please provide either a URL or HTML content")
    else Conversion(url, html)
  }

  /** A fetched page is converted exactly when the address is valid, the
      fetch succeeds and the page is not empty. */
  lemma PostFetchConverts(url: string, isValidUrl: string -> bool, fetch: string -> Fetched)
    requires url != ""
    ensures PostDecision(url, "", isValidUrl, fetch).Conversion?
      <==> isValidUrl(url) && fetch(url).Page? && fetch(url).html != ""
  {
  }
}
