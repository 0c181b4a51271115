/**
 * The page component: four state cells (the job title, the shown result, the loading flag and the
 * error message), the effect that loads a shared analysis from the page URL once the page is
 * shown, the submit handler with its request to the analysis service, and the choice of panels.
 */
module App {
  import opened Wrappers
  import opened Unicode
  import Utf16
  import UrlQuery
  import ShareLink
  import opened Types
  import ResultsDisplay

  const EMPTY_TITLE: string := "Please enter a job title or field."
  const SERVICE_FAILED: string := "Failed to get analysis. The AI may be busy, or an error occurred. Please try again."
  const BAD_LINK: string := "The shared analysis link appears to be invalid or corrupted."

  /** How a request to the analysis service ends: with a result, or with a thrown error. */
  datatype Outcome = Ok(result: AnalysisResult) | Failed

  /** The panels below the search form. */
  datatype Panel = Spinner | ErrorPanel | Results | Welcome

  /**
   * The result a shared token stands for: the token decoded to JSON text, then parsed by `parse`
   * (JSON.parse); None when either throws.
   */
  function SharedResult(data: string, parse: JsString -> Option<AnalysisResult>): (r: Option<AnalysisResult>)
    ensures ShareLink.DecodeShareToken(data).None? ==> r.None?
  {
    match ShareLink.DecodeShareToken(data)
    case None => None
    case Some(json) => parse(json)
  }

  class App {
    var jobTitle: JsString
    var analysisResult: Option<AnalysisResult>
    var isLoading: bool
    var error: Option<string>
    /** `location.search`; the history update at the end of the load effect empties it. */
    var search: string

    /** While a request is in flight, nothing but the spinner is shown. */
    predicate Consistent()
      reads this
    {
      isLoading ==> error.None? && analysisResult.None?
    }

    /** The initial state of the four cells, on a page opened at `href`. */
    constructor(href: string)
      ensures jobTitle == [] && analysisResult.None? && !isLoading && error.None?
      ensures search == UrlQuery.LocationSearch(href)
      ensures Consistent()
    {
      jobTitle := [];
      analysisResult := None;
      isLoading := false;
      error := None;
      search := UrlQuery.LocationSearch(href);
    }

    /** The panels shown: the spinner, the error and the results each on their own flag; the welcome text when none of them is. */
    function Shown(): (r: set<Panel>)
      reads this
      ensures r != {}
      ensures Welcome in r <==> r == {Welcome}
      ensures Spinner in r <==> isLoading
      ensures ErrorPanel in r <==> error.Some?
      ensures Results in r <==> analysisResult.Some?
      ensures Welcome in r <==> !isLoading && error.None? && analysisResult.None?
    {
      (if isLoading then {Spinner} else {})
      + (if error.Some? then {ErrorPanel} else {})
      + (if analysisResult.Some? then {Results} else {})
      + (if !isLoading && error.None? && analysisResult.None? then {Welcome} else {})
    }

    /**
     * The load effect, run once after the first render (so before any request): a non-empty
     * "analysis" parameter is decoded and parsed; success shows the result and its job title,
     * failure shows the broken-link message; either way the query is removed from the URL. A
     * missing or empty parameter changes nothing.
     */
    method LoadFromUrl(parse: JsString -> Option<AnalysisResult>)
      requires !isLoading && Consistent()
      modifies this
      ensures Consistent() && isLoading == old(isLoading)
      ensures var data := UrlQuery.SearchParam(old(search), ShareLink.PARAM);
        if data.None? || data.value == [] then
          && jobTitle == old(jobTitle) && analysisResult == old(analysisResult)
          && error == old(error) && search == old(search)
        else
          && search == []
          && match SharedResult(data.value, parse)
             case Some(r) => analysisResult == Some(r) && jobTitle == r.jobTitle && error == old(error)
             case None => error == Some(BAD_LINK) && analysisResult == old(analysisResult) && jobTitle == old(jobTitle)
    {
      var data := UrlQuery.SearchParam(search, ShareLink.PARAM);
      if data.None? || data.value == [] {
        return;
      }
      var decoded := ShareLink.DecodeShareToken(data.value);
      var parsed := if decoded.Some? then parse(decoded.value) else None;
      if parsed.Some? {
        analysisResult := parsed;
        jobTitle := parsed.value.jobTitle;
      } else {
        error := Some(BAD_LINK);
      }
      search := [];
    }

    /**
     * The submit handler up to the request: an empty title only sets the error; any other title
     * clears the error and the result, records the title and starts the request (`requested`).
     * The search form cannot submit while a request is in flight.
     */
    method HandleAnalysis(title: JsString) returns (requested: bool)
      requires !isLoading && Consistent()
      modifies this
      ensures Consistent() && search == old(search)
      ensures requested <==> title != []
      ensures title == [] ==>
        && error == Some(EMPTY_TITLE) && !isLoading
        && analysisResult == old(analysisResult) && jobTitle == old(jobTitle)
      ensures title != [] ==>
        isLoading && error.None? && analysisResult.None? && jobTitle == title
    {
      if title == [] {
        error := Some(EMPTY_TITLE);
        return false;
      }
      isLoading := true;
      error := None;
      analysisResult := None;
      jobTitle := title;
      requested := true;
    }

    /** The rest of the submit handler: the request ends, its result or the failure message is shown, and loading stops. */
    method Settle(outcome: Outcome)
      requires isLoading && Consistent()
      modifies this
      ensures Consistent() && !isLoading && jobTitle == old(jobTitle) && search == old(search)
      ensures outcome.Ok? ==> analysisResult == Some(outcome.result) && error.None?
      ensures outcome.Failed? ==> error == Some(SERVICE_FAILED) && analysisResult.None?
    {
      if outcome.Ok? {
        analysisResult := Some(outcome.result);
      } else {
        error := Some(SERVICE_FAILED);
      }
      isLoading := false;
    }
  }

  // ---------------------------------------------------------------------------------------------
  // Runs of the page

  /** A request that succeeds, then an empty submit: the error and the earlier result are both shown. */
  method EmptySubmitAfterResult(r: AnalysisResult, title: JsString) returns (shown: set<Panel>)
    requires title != []
    ensures shown == {ErrorPanel, Results}
  {
    var app := new App([]);
    var requested := app.HandleAnalysis(title);
    app.Settle(Ok(r));
    requested := app.HandleAnalysis([]);
    shown := app.Shown();
  }

  /** A request that fails: only the failure message is shown, and the title stays as submitted. */
  method FailedRequest(title: JsString) returns (shown: set<Panel>, message: Option<string>, shownTitle: JsString)
    requires title != []
    ensures shown == {ErrorPanel} && message == Some(SERVICE_FAILED) && shownTitle == title
  {
    var app := new App([]);
    var requested := app.HandleAnalysis(title);
    shown := app.Shown();
    assert shown == {Spinner};
    app.Settle(Failed);
    shown, message, shownTitle := app.Shown(), app.error, app.jobTitle;
  }

  /**
   * A result shared with the button and opened from the copied link, when its token has no '+':
   * the page shows the same result and its job title, and the query is gone from the URL.
   * `stringify` and `parse` stand for JSON.stringify and JSON.parse, assumed to round-trip this
   * result; the JSON text of an object is never empty, and JSON.stringify writes a lone surrogate
   * as an escape sequence.
   */
  method ShareThenOpen(r: AnalysisResult, stringify: AnalysisResult -> JsString,
                       parse: JsString -> Option<AnalysisResult>, origin: string, pathname: string)
    returns (shown: set<Panel>, loaded: Option<AnalysisResult>, title: JsString, search: string)
    requires ShareLink.IsPagePrefix(origin, pathname)
    requires stringify(r) != [] && Utf16.WellFormed(stringify(r)) && parse(stringify(r)) == Some(r)
    requires ShareLink.EncodeShareToken(stringify(r)).Some? && '+' !in ShareLink.EncodeShareToken(stringify(r)).value
    ensures shown == {Results} && loaded == Some(r) && title == r.jobTitle && search == []
  {
    var json := stringify(r);
    var button := new ResultsDisplay.ShareButton();
    var written := button.HandleShare(Some(r), stringify, origin, pathname, true);
    ShareLink.ShareTokenRoundTrip(json);
    ShareLink.ShareTokenNonEmpty(json);
    ShareLink.ShareTokenShape(json);
    var token := ShareLink.EncodeShareToken(json).value;
    ShareLink.ReadAsWrittenWithoutPlus(origin, pathname, token);
    assert ShareLink.ReadParam(written.value) == Some(token);
    assert SharedResult(token, parse) == Some(r);
    var app := new App(written.value);
    app.LoadFromUrl(parse);
    shown, loaded, title, search := app.Shown(), app.analysisResult, app.jobTitle, app.search;
  }

  /**
   * A page opened at a URL whose "analysis" parameter is present but does not decode: only the
   * broken-link message is shown, and the title and the result stay empty.
   */
  method OpenUnreadableLink(href: string, parse: JsString -> Option<AnalysisResult>)
    returns (shown: set<Panel>, message: Option<string>, title: JsString, loaded: Option<AnalysisResult>)
    requires var data := ShareLink.ReadParam(href);
      data.Some? && data.value != [] && ShareLink.DecodeShareToken(data.value).None?
    ensures shown == {ErrorPanel} && message == Some(BAD_LINK) && title == [] && loaded.None?
  {
    var app := new App(href);
    app.LoadFromUrl(parse);
    shown, message, title, loaded := app.Shown(), app.error, app.jobTitle, app.analysisResult;
  }

  /**
   * A result whose token has exactly one '+' and ends in '=', shared with the button: the page
   * opened from the link the button writes shows only the broken-link message.
   */
  method OpenAsWrittenLink(r: AnalysisResult, stringify: AnalysisResult -> JsString,
                           parse: JsString -> Option<AnalysisResult>, origin: string, pathname: string)
    returns (shown: set<Panel>, message: Option<string>)
    requires ShareLink.IsPagePrefix(origin, pathname) && ShareLink.EncodeShareToken(stringify(r)).Some?
    requires var t := ShareLink.EncodeShareToken(stringify(r)).value;
      |t| > 0 && t[|t| - 1] == '=' && ShareLink.HasOnePlus(t)
    ensures shown == {ErrorPanel} && message == Some(BAD_LINK)
  {
    var button := new ResultsDisplay.ShareButton();
    var written := button.HandleShare(Some(r), stringify, origin, pathname, true);
    ShareLink.AsWrittenTokenBreaks(stringify(r), origin, pathname);
    var title, loaded;
    shown, message, title, loaded := OpenUnreadableLink(written.value, parse);
  }

  /** A page opened with "?analysis=not-valid-base64!!" shows only the broken-link message. */
  method OpenCorruptedLink(origin: string, pathname: string, parse: JsString -> Option<AnalysisResult>)
    returns (shown: set<Panel>, message: Option<string>, title: JsString, loaded: Option<AnalysisResult>)
    requires ShareLink.IsPagePrefix(origin, pathname)
    ensures shown == {ErrorPanel} && message == Some(BAD_LINK) && title == [] && loaded.None?
  {
    ShareLink.ForeignTokenRejected(origin, pathname);
    shown, message, title, loaded :=
      OpenUnreadableLink(ShareLink.ShareUrlAsWritten(origin, pathname, ShareLink.CorruptedToken()), parse);
  }
}
