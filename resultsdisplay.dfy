/**
 * The share button of the results view: it turns the shown result into a link, hands the link to
 * the clipboard, and shows for a while that the link was copied.
 */
module ResultsDisplay {
  import opened Wrappers
  import opened Unicode
  import Utf16
  import UrlQuery
  import ShareLink
  import opened Types

  datatype CopyStatus = Idle | Copied

  /** The button cannot be pressed while it reports a copied link. */
  function Disabled(status: CopyStatus): bool
  {
    status == Copied
  }

  function Label(status: CopyStatus): string
  {
    if status == Idle then "Share Results" else "Link Copied!"
  }

  /** The button offers to share exactly when it can be pressed, and reports a copy exactly when it cannot. */
  lemma LabelMatchesDisabled(status: CopyStatus)
    ensures Label(status) == "Share Results" <==> !Disabled(status)
    ensures Label(status) == "Link Copied!" <==> Disabled(status)
  {
  }

  class ShareButton {
    var copyStatus: CopyStatus

    constructor()
      ensures copyStatus == Idle
    {
      copyStatus := Idle;
    }

    /**
     * A press of the button. `stringify` stands for JSON.stringify and `clipboardAccepts` for the
     * outcome of the clipboard write. The result is the text handed to the clipboard: the page's
     * origin and path, "?analysis=" and the token as it is; or None when there is no result or
     * building the token throws. The status becomes Copied only when the
     * clipboard accepts the text; a refused write or a failed token leaves it as it was.
     */
    method HandleShare(result: Option<AnalysisResult>, stringify: AnalysisResult -> JsString,
                       origin: string, pathname: string, clipboardAccepts: bool)
      returns (written: Option<string>)
      modifies this
      ensures result.None? ==> written.None? && copyStatus == old(copyStatus)
      ensures result.Some? ==>
        var token := ShareLink.EncodeShareToken(stringify(result.value));
        && (token.None? <==> !Utf16.WellFormed(stringify(result.value)))
        && (token.None? ==> written.None? && copyStatus == old(copyStatus))
        && (token.Some? ==>
              && UrlQuery.IsAsciiText(token.value)
              && ShareLink.IsTokenText(token.value)
              && written == Some(ShareLink.ShareUrlAsWritten(origin, pathname, token.value))
              && copyStatus == (if clipboardAccepts then Copied else old(copyStatus)))
    {
      written := None;
      if result.None? {
        return;
      }
      var json := stringify(result.value);
      ShareLink.EncodeShareTokenIsBase64OfUtf8(json);
      var token := ShareLink.EncodeShareToken(json);
      if token.None? {
        return;
      }
      ShareLink.ShareTokenShape(json);
      ShareLink.TokenTextIsPlain(token.value);
      var url := ShareLink.ShareUrlAsWritten(origin, pathname, token.value);
      written := Some(url);
      if clipboardAccepts {
        copyStatus := Copied;
      }
    }

    /** The 2500 ms timer started by a successful copy fires: the button offers to share again. */
    method TimerElapsed()
      modifies this
      ensures copyStatus == Idle && !Disabled(copyStatus)
    {
      copyStatus := Idle;
    }
  }
}
