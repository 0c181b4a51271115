# Career-in-the-age-of-AI page: state and share link

This project models the two stateful parts of a single-page React application that asks an AI
service how a job field is changing and shows the answer:

- **The page component** (`App`). It holds four state cells: the job title, the shown analysis,
  the loading flag and the error message. It has three parts:
  - an effect that, once the page is shown, reads an `analysis` parameter from the page URL and
    turns it back into an analysis;
  - a submit handler that validates the title and asks the analysis service;
  - the choice of panels to show (spinner, error, results, welcome text).
- **The share button** of the results view (`ResultsDisplay.ShareButton`). It serializes the shown
  analysis and turns the JSON text into a token with
  `btoa(unescape(encodeURIComponent(json)))`. It puts the token into a link and writes the link to
  the clipboard. A "copied" state keeps the button disabled until a 2500 ms timer ends it.

The share token is the heart of the model. Each browser function involved is modelled on its own,
after the standard that defines it:

| module | standard functions | standard |
|---|---|---|
| `Utf16` | JavaScript strings as UTF-16 code units | ECMA-262 section 6.1.4 |
| `Utf8` | UTF-8 encoding, and strict and replacing decoding | RFC 3629 |
| `UriCodec` | `encodeURIComponent`, `decodeURIComponent` | ECMA-262 section 19.2.6 |
| `UriCodec` | `escape`, `unescape` | ECMA-262 Annex B.2.1 |
| `Base64` | base64 encoding | RFC 4648 section 4 |
| `Base64` | forgiving-base64 decoding behind `btoa`/`atob` | WHATWG Infra Standard |
| `UrlQuery` | `location.search`, and `URLSearchParams.get` with the application/x-www-form-urlencoded parser | WHATWG URL Standard |

`ShareLink` composes these. `ShareLink.EncodeShareToken` is the token of
components/ResultsDisplay.tsx:19, `ShareLink.DecodeShareToken` is the page's decoding of App.tsx:24,
and `ShareLink.ShareUrlAsWritten` is the link of components/ResultsDisplay.tsx:20. It proves three things:
- The token is exactly the base64 encoding of the UTF-8 octets of the JSON text.
- The token exists exactly when that text has no lone surrogate.
- The page's decoding, `decodeURIComponent(escape(atob(data)))`, returns the original text for every
  such token.

The page state and the share button are Dafny classes whose methods change their fields. Their
`ensures` clauses state the whole new state. Short methods (`ShareThenOpen`, `OpenCorruptedLink`, ...)
run the page through whole scenarios, and their contracts state what the user then sees.

External pieces are parameters:
- `JSON.stringify` and `JSON.parse` are the function parameters `stringify` and `parse`.
- The outcome of the request to the AI service is an `Outcome` value.
- The outcome of the clipboard write is a boolean.
- The page URL is a string `href`, or the pair `origin`, `pathname`.

## Model

| member | source | states |
|---|---|---|
| App.App.constructor | App.tsx:12-15 | The page starts with an empty title, no analysis, no error and not loading; its `search` is the query part of the page URL. |
| App.App.Shown | App.tsx:67-70 | At least one panel is shown. The spinner is shown exactly while loading, the error panel exactly when there is an error message, the results exactly when there is an analysis. The welcome text is shown exactly when none of these is, and then it is the only panel. |
| App.SharedResult | App.tsx:24-25 | A parameter that `decodeURIComponent(escape(atob(...)))` rejects yields no analysis, whatever the JSON parser does. |
| App.App.LoadFromUrl | App.tsx:17-37 | A missing or empty `analysis` parameter changes nothing. Otherwise the query is removed from the URL. A parameter that decodes and parses shows that analysis with its job title and keeps the error. Any other parameter sets the broken-link message and keeps the analysis and the title. |
| App.App.HandleAnalysis | App.tsx:39-47 | An empty title sets only the "Please enter a job title or field." message and starts no request. Any other title starts a request with the error and the analysis cleared and the title recorded. |
| App.App.Settle | App.tsx:49-57 | When the request ends, loading stops and the title stays. A result is shown with no error; a failure shows the "Failed to get analysis..." message and no analysis. |
| App.EmptySubmitAfterResult | App.tsx:40-43 | After a successful request, an empty submit shows the error panel and the earlier results together. |
| App.FailedRequest | App.tsx:52-56 | A failed request leaves only the error panel, with the service-failure message and the submitted title. |
| App.ShareThenOpen | App.tsx:24-27 | A result shared with the button and opened from the link it writes shows exactly the results panel with the same analysis and its job title, and the query is gone. This holds when the JSON text has no lone surrogate, `parse` inverts `stringify`, and the token has no '+' (see Findings). |
| App.OpenUnreadableLink | App.tsx:30-34 | A page whose `analysis` parameter is present but does not decode shows only the broken-link message, with empty title and no analysis. |
| App.OpenAsWrittenLink | components/ResultsDisplay.tsx:20 | Any result whose token has exactly one '+' and ends in '=', shared with the button: the page opened from the link the button writes shows only the broken-link message. |
| App.OpenCorruptedLink | App.tsx:21-24 | A page opened with `?analysis=not-valid-base64!!` shows only the broken-link message, with empty title and no analysis. |
| ResultsDisplay.ShareButton.constructor | components/ResultsDisplay.tsx:11 | The button starts idle. |
| ResultsDisplay.ShareButton.HandleShare | components/ResultsDisplay.tsx:13-33 | No analysis: nothing is written and the status is kept. Otherwise the token fails exactly when the JSON text has a lone surrogate; then nothing is written and the status is kept. A token uses only the base64 alphabet and '=', and the link written is the origin, the path, `?analysis=` and the token as it is; the status becomes "copied" exactly when the clipboard accepts. |
| ResultsDisplay.ShareButton.TimerElapsed | components/ResultsDisplay.tsx:24-26 | The timer returns the button to idle, so it can be pressed again. |
| ResultsDisplay.LabelMatchesDisabled | components/ResultsDisplay.tsx:44-48 | The label reads "Share Results" exactly when the button is enabled and "Link Copied!" exactly when it is disabled. |
| ShareLink.EncodeShareTokenIsBase64OfUtf8 | components/ResultsDisplay.tsx:19 | `btoa(unescape(encodeURIComponent(json)))` succeeds exactly when the JSON text is well-formed UTF-16, and is then the base64 encoding of its UTF-8 octets. |
| ShareLink.DecodeShareTokenIsUtf8OfBase64 | App.tsx:24 | `decodeURIComponent(escape(atob(data)))` is forgiving-base64 decoding followed by strict UTF-8 decoding, written back in UTF-16; it fails when either step fails. |
| ShareLink.ShareTokenRoundTrip | App.tsx:24 | Every JSON text without a lone surrogate comes back unchanged from its token. |
| ShareLink.ShareTokenShape | components/ResultsDisplay.tsx:19 | A token uses only the base64 alphabet and '=', with four characters per three UTF-8 octets or part thereof. |
| ShareLink.ShareTokenNonEmpty | App.tsx:21 | A non-empty JSON text gets a token of at least four characters, so the page never takes it for a missing parameter. |
| ShareLink.QueryValue | components/ResultsDisplay.tsx:20 | The percent-encoded token is ASCII and holds no '+', '&' or '#', so the query parser cannot split it or change it. |
| ShareLink.ReadOnePair | App.tsx:18-19 | A page URL whose query is the single pair `analysis=value` yields the value as the form-urlencoded parser decodes it. |
| ShareLink.ReadAsWritten | App.tsx:18-19 | The link as the button writes it reads back as the token with every '+' turned into a space. |
| ShareLink.ReadAsWrittenWithoutPlus | App.tsx:18-19 | A token without '+' reads back unchanged through the link as written. |
| ShareLink.AsWrittenLinkBreaks | components/ResultsDisplay.tsx:20 | A token with exactly one '+' that ends in '=' reads back through the link as written with that '+' turned into a space, and the page's decoding rejects it. |
| ShareLink.SpacedTokenUndecodable | App.tsx:24 | Such a token with its '+' turned into a space fails forgiving-base64 decoding. |
| ShareLink.BreaksWithOnePlus | components/ResultsDisplay.tsx:20 | The same for a token that has exactly one '+', wherever it is: the text read back is non-empty and does not decode. |
| ShareLink.AsWrittenTokenBreaks | components/ResultsDisplay.tsx:19-20 | For any JSON text whose token has exactly one '+' and ends in '=', the link as written yields a present, non-empty parameter that the page cannot decode. |
| ShareLink.ShareTokenGroups | components/ResultsDisplay.tsx:19 | A token's length is a multiple of four. |
| ShareLink.AsWrittenLinkBreaksOnPlus | components/ResultsDisplay.tsx:20 | The JSON text `"~~~"` gets the token `In5+fiI=`, the written link reads back `In5 fiI=`, and `atob` rejects that. |
| ShareLink.ReadCorrected | App.tsx:18-19 | The link with the percent-encoded token reads back every ASCII token unchanged, '+' included. |
| ShareLink.ShareLinkRoundTrip | components/ResultsDisplay.tsx:19-20 | For every JSON text without a lone surrogate, the corrected link carries the token back unchanged and the token decodes to the same text. |
| ShareLink.ForeignTokenRejected | App.tsx:24 | The value `not-valid-base64!!` reads back from the URL as it is, and decoding it fails. |
| ShareLink.ReadPlainValue | App.tsx:18-19 | A value with no '+', '%', '&' or '#' reads back unchanged. |
| ShareLink.ForeignTokenUndecodable | App.tsx:24 | A token with a character, anywhere, outside the base64 alphabet, whitespace and '=' fails to decode. |
| Utf16.DecodeIffWellFormed | components/ResultsDisplay.tsx:19 | A string decodes to code points exactly when every high surrogate is followed by a low one and every low surrogate follows a high one. |
| Utf16.DecodeEncode | App.tsx:24 | Decoding the UTF-16 encoding of code points gives them back. |
| Utf16.EncodeDecode | App.tsx:24 | Encoding the decoded code points gives back the string. |
| Utf16.DecodeNoSurrogates | components/ResultsDisplay.tsx:20 | A string without surrogates is its own sequence of code points; this supports the corrected link, whose token is percent-encoded. |
| Utf8.DecodeEncode | App.tsx:24 | Strict UTF-8 decoding of the encoding of code points gives them back. |
| Utf8.EncodeDecode | App.tsx:24 | Every octet string that strict decoding accepts is the encoding of its result. |
| Utf8.DecodeIffEncode | App.tsx:24 | Strict decoding yields `cps` from `bs` exactly when `cps` encodes to `bs`. |
| Utf8.DecodeFirstIsEncoded | App.tsx:24 | The octets of the first sequence accepted are the encoding of the code point decoded. |
| Utf8.DecodeLossyOfValid | App.tsx:19 | The replacing decoder of the query parser agrees with strict decoding on valid UTF-8. |
| Utf8.EncodeAscii | components/ResultsDisplay.tsx:19 | ASCII code points encode to themselves. |
| Utf8.DecodeLossyAscii | App.tsx:19 | ASCII octets decode to themselves under the replacing decoder. |
| Base64.EncodedLength | components/ResultsDisplay.tsx:19 | The body of `n` octets and its padding are `4 * ((n + 2) / 3)` characters; the body length is never 1 modulo 4. |
| Base64.EncodeShape | components/ResultsDisplay.tsx:19 | An encoding is alphabet characters followed by exactly the padding for the input length. |
| Base64.StripWhitespaceSpec | App.tsx:24 | Whitespace removal keeps exactly the other characters and leaves text without whitespace alone. |
| Base64.OctetsOfSextets | App.tsx:24 | Joining the 6-bit groups of an octet string gives the octets back. |
| Base64.ForgivingDecodeEncode | App.tsx:24 | Forgiving decoding of an encoding gives the octets back. |
| Base64.AtobBtoa | App.tsx:24 | `atob` undoes every `btoa` that succeeds. |
| Base64.ForeignCharRejected | App.tsx:24 | A character outside the alphabet, whitespace and '=' makes decoding fail. |
| Base64.MisplacedPaddingRejected | App.tsx:24 | A '=' followed, once whitespace is removed, by a character other than '=' makes decoding fail. |
| Base64.PaddedTripleRejected | App.tsx:24 | A text without whitespace whose length is 3 modulo 4 and which ends in '=' fails to decode. |
| Base64.DecodedLength | App.tsx:24 | A decoding has three octets for every four characters of the body, rounded down. |
| Base64.LeftoverBitsIgnored | App.tsx:24 | `QQ==` and `QR==` both decode to the single octet 0x41, so a changed character does not always fail. |
| Base64.EncodesQuotedTildes | components/ResultsDisplay.tsx:19 | The five octets of `"~~~"` encode to `In5+fiI=`. |
| Base64.OneSpaceTripleRejected | App.tsx:24 | Two whitespace-free texts joined by one space, whose lengths add up to 3 modulo 4 and whose end is '=', fail to decode. |
| Base64.EncodeGroups | components/ResultsDisplay.tsx:19 | An encoding is a whole number of four-character groups. |
| Base64.SpacedTokenRejected | App.tsx:24 | `In5 fiI=` fails to decode: without the space it is seven characters long, so its '=' is not padding. |
| UriCodec.EncodeUriComponentIsRender | components/ResultsDisplay.tsx:19 | `encodeURIComponent` fails exactly on a lone surrogate and otherwise writes the UTF-8 octets, unreserved ones as themselves and every other as "%XX". |
| UriCodec.UnescapeRender | components/ResultsDisplay.tsx:19 | `unescape` undoes any such rendering octet by octet. |
| UriCodec.UnescapeEncodeUriComponent | components/ResultsDisplay.tsx:19 | `unescape(encodeURIComponent(s))` is the UTF-8 octets of `s`, one code unit per octet. |
| UriCodec.EscapeIsRender | App.tsx:24 | `escape` on octets writes each one as itself or as "%XX", keeping exactly its unescaped set. |
| UriCodec.DecodeRender | App.tsx:24 | `decodeURIComponent` of any such rendering is the strict UTF-8 decoding of the octets, and fails exactly when that fails. |
| UriCodec.DecodeUriComponentEscape | App.tsx:24 | `decodeURIComponent(escape(octets))` is the strict UTF-8 decoding of the octets in UTF-16. |
| UriCodec.DecodeEncodeUriComponent | App.tsx:24 | `decodeURIComponent` undoes `encodeURIComponent` on every well-formed string. |
| UriCodec.ParsePercentEncodeByte | App.tsx:24 | The two hexadecimal digits of "%XX" read back as the octet. |
| UriCodec.RenderIsAscii | components/ResultsDisplay.tsx:20 | A percent rendering is ASCII; this supports the corrected link, whose token is percent-encoded. |
| UriCodec.AbsentFromRender | components/ResultsDisplay.tsx:20 | A character that is never kept and is neither '%' nor a hexadecimal digit does not occur in a rendering. |
| UrlQuery.Lookup | App.tsx:19 | `get` finds a value exactly when some pair has the name, and then the value is that of the first pair with the name. |
| UrlQuery.LocationSearchOfQuery | App.tsx:18 | `location.search` of a page URL with a query and no fragment is '?' followed by the query, or empty when the query is empty. |
| UrlQuery.SearchParamOfOnePair | App.tsx:18-19 | Parsing the query `?name=value` yields the decoded value for the name. |
| UrlQuery.DecodeFieldPlain | App.tsx:19 | An ASCII value without '+' or '%' is read as it is. |
| UrlQuery.DecodeFieldNoPercent | App.tsx:19 | An ASCII value without '%' is read with every '+' turned into a space and nothing else changed. |
| UrlQuery.PercentDecodeRender | App.tsx:19 | Percent-decoding undoes any percent rendering. |
| UrlQuery.DecodeFieldRender | App.tsx:19 | A value written by `encodeURIComponent` from ASCII octets is read back as those characters. |

## Left out

- The request to the AI service (`services/geminiService.ts`) is not part of this model. Its outcome, a result or a thrown error, is the `Outcome` parameter of `App.App.Settle`.
- JSON.stringify and JSON.parse are parameters. The page code casts the parsed value without any structural check. So "the JSON has every field of an analysis" is not checked anywhere, and `parse` returning an analysis or nothing is the only place where this would be decided.
- The clipboard write is a boolean parameter, and the 2500 ms timer is the separate method `ResultsDisplay.ShareButton.TimerElapsed`. Their timing, and the promise rejection that is only logged, are not modelled.
- `window.history.replaceState` is modelled only by its effect on `location.search`, which becomes empty. The page title and the history entry are not modelled.
- Rendering, styling, the other components and `console.error` are left out. Of the search form, only its refusal to submit while loading is kept, as a precondition.
- React's scheduling is left out: the state updates of one handler are applied together, and `await` splits the submit handler into `HandleAnalysis` and `Settle`.
- App.App.LoadFromUrl: requires `!isLoading`, because the effect runs once, on mount, before any submit can start a request.
- `UrlQuery.LocationSearch` leaves out two steps of the URL parser: removing tabs and newlines, and percent-encoding characters of the query. Percent-decoding in `URLSearchParams` undoes that encoding, so the value read back is the same, but `location.search` as modelled is not the browser's exact text.
- App.ShareThenOpen: requires that `parse` inverts `stringify` on the result and that the JSON text has no lone surrogate. JSON.stringify escapes lone surrogates, so a real JSON text never has one. It also requires that the token has no '+': with a '+' the link the button writes does not read back (see Findings), and `ShareLink.ShareLinkRoundTrip` states the round trip for the corrected link instead.
- Two properties one might expect of a share link do not hold of this code, and the model proves the opposite:
  - A changed token character is not always detected: `Base64.LeftoverBitsIgnored`.
  - A JSON text missing a field is not rejected, because there is no structural check (see above).

## Findings

| source | as written | input that shows it | evidently intended | confidence | as-written member | corrected member |
|---|---|---|---|---|---|---|
| components/ResultsDisplay.tsx:20 | The base64 token goes into the query without percent-encoding. `URLSearchParams` reads '+' as a space. | An analysis whose JSON text is `{"jobTitle":"a>"}` gets the token `eyJqb2JUaXRsZSI6ImE+In0=`. The page reads it back as `eyJqb2JUaXRsZSI6ImE In0=`, `atob` rejects that, and the page shows "The shared analysis link appears to be invalid or corrupted." Any JSON text whose UTF-8 octets put 62 in a 6-bit group is affected; the model proves the rejection for every token with exactly one '+' that ends in '=', and for the JSON text `"~~~"` (token `In5+fiI=`). | `encodeURIComponent(encodedData)` in the link, so every token reads back unchanged | not executed | ShareLink.ShareUrlAsWritten, ShareLink.AsWrittenTokenBreaks, ShareLink.AsWrittenLinkBreaksOnPlus | ShareLink.ShareUrl, ShareLink.ReadCorrected, ShareLink.ShareLinkRoundTrip |
