# LinkChecker Pro, the logic of its scripts in Dafny

LinkChecker Pro is a browser page that checks a list of links. The user pastes
or uploads URLs. The page counts and validates them, fetches each one
following redirects by hand, flags hostnames on a blacklist, shows a status
class and a health score, and exports the results as CSV. This project
models the logic of four scripts and proves what each promises:

- `link_input.dfy` (module `LinkInput`) covers `js/main.js`:
  - `isValidUrl`, which trims a line and puts `https://` in front unless a scheme is there, then asks the URL parser;
  - the split/trim/filter pipelines of the link counter, the file upload and the start-scan handler;
  - the status-to-class mapping of `displayResults`;
  - the health-score formula.
- `scanner.dfy` (module `Scanner`) covers `js/scanner.js`:
  - `fetchWithRedirect`, a method with a loop proved equal to the recursive function `Follow`;
  - `scanUrls`, a method that pushes one result per input in completion order;
  - `isRiskyDomain`.
- `csv_export.dfy` (module `CsvExport`) covers `exportCSV` of `js/export.js`. It models:
  - the removal of the first status icon by an alternation regular expression;
  - the risk flag and the redirect-chain column;
  - the quote doubling of rule 7 in section 2 of RFC 4180;
  - the header and line join.
- `pdf_csv_export.dfy` (module `PdfCsvExport`) covers `exportCSV` of `js/pdf-export.js`. It models:
  - five cells wrapped in quotes without escaping;
  - the character-class icon removal;
  - the timestamp prefix removal;
  - the row join.

Supporting modules:
- `strings.dfy` (`JsStrings`): the ECMAScript string operations the scripts use (`trim`, `startsWith`, `includes`/`indexOf`, `split`/`join`, `replace` of a string, ASCII `toLowerCase`), with their defining properties.
- `arrays.dfy` (`JsArrays`): `map`, `filter`, a filter-map (the `map(isValidUrl).filter(url => url)` idiom), order-preserving selections, and picking by a permutation (the completion order of `Promise.all`).
- `rfc4180.dfy` (`Rfc4180`): quote doubling, and a reader for a quoted field as section 2 of RFC 4180 defines it.
- `web.dfy` (`WebUrl`): the URL parser, passed in as a function from text to an optional parsed URL with its hostname.

How the world outside the scripts is modelled:
- The network is a function from a URL and a hop number to a reply:
  - a redirect, with an optional `Location`;
  - an answer, with a status and a status text;
  - a thrown error, with its message; the 5-second timeout is the error "Timeout".
- `scanUrls` gets one such function per input and the order in which the fetches complete, as a permutation of the input positions.
- The DOM text of a result row or card is a record of strings.

## Model

| member | source | states |
|---|---|---|
| LinkInput.ValidUrlShape | js/main.js:49-60 | `isValidUrl` returns a value exactly when the parser accepts the trimmed line with `https://` put in front if it had neither `http://` nor `https://`. That value is accepted, has a scheme, is trimmed and non-empty (so truthy). It equals the trimmed line exactly when the line had a scheme, and is `https://` plus the trimmed line otherwise. |
| LinkInput.HttpsPrefixed | js/main.js:52-53 | `https://` in front of a trimmed text gives a trimmed text with a scheme, different from the text |
| LinkInput.IsValidUrlIdempotent | js/main.js:51-56 | `isValidUrl` of its own result gives that result again |
| LinkInput.TrimmedLinesSpec | js/main.js:63 | every trimmed line has no white space at either end and no newline |
| LinkInput.IsValidUrl | js/main.js:49-60 | `isValidUrl`; its contract is stated by `ValidUrlShape` and `IsValidUrlIdempotent` |
| LinkInput.LinkCount | js/main.js:62-64 | the link counter; which lines it counts is stated by `LinkCountSpec` |
| LinkInput.LinkCountSpec | js/main.js:63-64 | the counter equals the number of lines whose trim `isValidUrl` accepts: they sit at a strictly increasing selection of line positions, and no accepted line is missed |
| LinkInput.UploadedInput | js/main.js:80-86 | the new input text after an upload; stated by `UploadSpec` |
| LinkInput.RawUrls | js/main.js:99 | `rawUrls`; stated by `RawUrlsSpec` |
| LinkInput.RawUrlsSpec | js/main.js:99 | the raw URLs are exactly the lines whose trim is non-empty, trimmed, in input order: each is `Trim(lines[idx[k]])` for strictly increasing `idx`, and every line with a non-empty trim is picked. They are non-empty trimmed texts without newlines. |
| LinkInput.StartScan | js/main.js:99-111 | the outcome of pressing "Start Scan"; stated by `StartScanOrder` and `StartScanSpec` |
| LinkInput.StartScanOrder | js/main.js:99-100 | the URLs of a scan are the normalised forms of the valid raw URLs, in input order: a strictly increasing selection of raw positions, every valid raw URL selected, `\|urls\| <= \|rawUrls\|` |
| LinkInput.StartScanSpec | js/main.js:100-111 | no scan starts exactly when no raw URL is valid; once started, the skipped-URLs warning is given exactly when some raw URL is invalid |
| LinkInput.UploadSpec | js/main.js:80-86 | given a URL parser that rejects a bare `https://`, after an upload the link counter equals the number of accepted trimmed lines. When at least one line is accepted, splitting the new input on newlines gives exactly those lines, un-normalised and in file order; with none accepted the new input is empty, and `"".split('\n')` is `[""]`, not `[]`. |
| LinkInput.EmptyInputCountsNothing | js/main.js:62-64 | an empty input counts no links, given a parser that rejects a bare `https://` |
| LinkInput.RecountAccepted | js/main.js:82-84 | a non-empty list of accepted, trimmed, newline-free lines, joined by newlines, splits back into the same lines, and all of them are counted again (an empty list would split into one empty line) |
| LinkInput.DisplayStatus | js/main.js:162-176 | each status gets exactly one of the four classes: `status-200` iff 200, `status-redirect` iff 301 or 302, `status-error` iff 404 or 500, `status-unknown` iff anything else including null. The labels are `200 OK`, `<code> Redirect`, `<code> Error` and `Unknown`. |
| LinkInput.OkCount | js/main.js:200 | the count of 200 results is the length of the results filtered on status 200; it is at most the number of results, equals it iff all are 200, and is 0 iff none is |
| LinkInput.OkCountSpec | js/main.js:200 | the 200 results counted are exactly those whose status is 200: they sit at a strictly increasing selection of result positions, and none is missed |
| LinkInput.HealthScore | js/main.js:199-201 | no score (NaN) exactly for no results; otherwise a value in 0..100 that is 100·k/n rounded half up (the bounds 2n·s <= 200k+n < 2n·(s+1)) |
| LinkInput.RoundedPercent | js/main.js:201 | `(200k + n) div 2n` lies in 0..100 and is 100k/n rounded half up |
| LinkInput.HealthScoreExtremes | js/main.js:199-201 | for a non-empty result list, the score is 100 when every status is 200 and 0 when none is (an empty list has no score, see `HealthScore`) |
| LinkInput.ThreeOfFourScore | js/main.js:199-201 | three 200s out of four results score 75 |
| Scanner.Follow | js/scanner.js:7-42 | the chain returned extends the chain passed in and never exceeds six URLs |
| Scanner.FetchWithRedirect | js/scanner.js:7-42 | the loop that pushes each redirecting URL and requests the next target returns exactly what the recursion `Follow` returns |
| Scanner.FollowOutcome | js/scanner.js:18-40 | the chain is the path of redirecting URLs in visit order, without the final URL. It holds six URLs exactly when the result has no URL, and then the code is null and the text "Too Many Redirects". Otherwise the result carries the final URL with its status and text, or null and the error message. At most six requests are made. |
| Scanner.FollowOutcomeFrom | js/scanner.js:18-40 | the same outcome from any point of a redirect path below the bound |
| Scanner.TimeoutSettles | js/scanner.js:34-40 | a timeout on any request settles the fetch with a null code, the text "Timeout", the chain so far and the URL that timed out; on the first request the chain is empty |
| Scanner.RedirectTarget | js/scanner.js:20 | `location \|\| url`; its use is stated by `FollowRedirectStep` and `SelfRedirectStops` |
| Scanner.FollowLastRedirect | js/scanner.js:21-23 | a redirect answered when five URLs are already in the chain ends the chase: six URLs, null code, "Too Many Redirects" |
| Scanner.FollowRedirectStep | js/scanner.js:20-25 | below the bound, a redirect pushes the current URL and goes on at the `Location` target, or at the same URL when the header is missing or empty |
| Scanner.SelfRedirectStops | js/scanner.js:20-23 | redirects without `Location` repeat the same URL six times and then stop with "Too Many Redirects" |
| Scanner.RedirectLoopExhaustsBound | js/scanner.js:20-25 | two non-empty URLs redirecting to each other are not detected as a loop: the chain alternates them over six URLs and the bound ends it |
| Scanner.IsRiskyDomain | js/scanner.js:56-63 | `isRiskyDomain`; stated by `IsRiskyDomainSpec` and `NothingRiskyWithoutMatch` |
| Scanner.HostMatches | js/scanner.js:58-59 | the `some`/`includes` test; stated by `HostMatchesSpec` and `HostMatchesIgnoresCase` |
| Scanner.IsRiskyDomainSpec | js/scanner.js:56-63 | a URL is risky iff it parses and some lower-cased blacklist entry occurs at some position of the lower-cased hostname |
| Scanner.HostMatchesSpec | js/scanner.js:58-59 | `blacklist.some(b => domain.includes(b.toLowerCase()))` holds iff some entry occurs in the hostname, both lower-cased |
| Scanner.NothingRiskyWithoutMatch | js/scanner.js:56-62 | an empty blacklist or an unparsable URL is never risky |
| Scanner.SubstringMatchExample | js/scanner.js:59 | `notscam.com` matches the entry `scam.com` (substring, not domain suffix) |
| Scanner.SingleEntryMatch | js/scanner.js:59 | a hostname matches a one-entry list wherever the lowered entry occurs in the lowered hostname |
| Scanner.HostMatchesIgnoresCase | js/scanner.js:58-59 | lowering the hostname, every entry, or both beforehand changes nothing |
| Scanner.EmptyEntryMatchesAll | js/scanner.js:59 | an empty blacklist entry flags every hostname |
| Scanner.PrepareUrl | js/scanner.js:45-46 | the URL `scanUrls` fetches; stated by `PrepareUrlSpec` |
| Scanner.PrepareUrlSpec | js/scanner.js:45-46 | the fetched URL starts with `http`; it is the trimmed input iff that starts with `http`, and `https://` plus the trimmed input otherwise |
| Scanner.KeptWhenHttpPrefixed | js/scanner.js:45-46 | a trimmed input starting with `http` is fetched as it is |
| Scanner.PrepareUrlKeepsHttpPrefixedHost | js/scanner.js:46 | `httpbin.org` is left without a scheme by the weaker test |
| Scanner.ScanOne | js/scanner.js:44-51 | the scan of one input; stated by `ScanOneSpec` |
| Scanner.ScanOneSpec | js/scanner.js:44-51 | the risk flag is that of the prepared input URL, not of the redirect target; the chain starts at the prepared URL and holds at most six URLs |
| Scanner.ScanUrls | js/scanner.js:2-54 | one result per input; the k-th pushed result is the scan of the input that completed k-th; the results are a permutation of the scans in input order |
| CsvExport.RemoveFirstMatch | js/export.js:5 | `replace` with the icon alternation; stated by `FirstMatchSpec`, `NoMatchSpec` and `LeadingMarkerRemoved` |
| CsvExport.StatusField | js/export.js:5 | the status column, the label without its first icon, trimmed; stated by the lemmas on `RemoveFirstMatch` and `TrimSpec` |
| CsvExport.FirstMatchSpec | js/export.js:5 | the search finds what the alternation `/✔️\|🔄\|❌\|🕒\|⚠️\|❓/` matches: the leftmost position where some alternative occurs, and there the first alternative listed |
| CsvExport.NoMatchSpec | js/export.js:5 | nothing matches iff no alternative occurs anywhere, and then the text is left as it is |
| CsvExport.SingleAlternativeIsRemoveFirst | js/export.js:5 | a one-alternative pattern removes what `replace` with that string removes |
| CsvExport.LeadingMarkerRemoved | js/export.js:5 | a label starting with an icon loses exactly that icon |
| CsvExport.RiskyField | js/export.js:6 | the risky column; stated by `RiskyFieldSpec` |
| CsvExport.RiskyFieldSpec | js/export.js:6 | the risky column is `Yes` iff `Risky` occurs in the status label, `No` otherwise |
| CsvExport.RiskyHasNoSeparator | js/export.js:6 | the risky column holds no comma and no newline |
| CsvExport.SeparatorMentionsChain | js/export.js:7-8 | details holding `Redirect Chain: ` mention `Redirect Chain` |
| CsvExport.ChainSegment | js/export.js:7-8 | the chain column, None for `undefined`; stated by `ChainSegmentSpec` |
| CsvExport.ChainSegmentSpec | js/export.js:7-8 | the chain column is undefined exactly when `Redirect Chain` occurs without `Redirect Chain: `. It is `None` when the chain is not mentioned. Otherwise it is the text after the first separator, up to the next separator or the end. |
| CsvExport.Quoted | js/export.js:9 | a field in quotes with its quotes doubled; stated by `QuotedRoundTrip` |
| CsvExport.Record | js/export.js:9 | the record template; stated by `RecordRoundTrip` |
| CsvExport.CsvLine | js/export.js:4-9 | the line of one row, None when its chain is undefined; stated by `CsvLineRoundTrip` and `ExportFailsIff` |
| CsvExport.QuotedRoundTrip | js/export.js:9 | a field in quotes with its quotes doubled reads back as its text, leaving what follows, provided what follows does not start with a double quote |
| CsvExport.RecordRoundTrip | js/export.js:9 | a record reads back as its URL, status, risky flag and chain when status and flag hold no comma; URL and chain come back exactly, whatever they hold |
| CsvExport.CsvLineRoundTrip | js/export.js:4-9 | when the row does not throw and its stripped status holds no comma, its line reads back as its URL, stripped status, risky flag and chain. The status column is not quoted, so a comma in it would shift the columns. |
| CsvExport.CsvLineHasNoNewline | js/export.js:4-9 | a row that does not throw and has no newline in its texts gives a one-line record |
| CsvExport.ExportCsv | js/export.js:2-12 | `exportCSV`, None when it throws; stated by `ExportFailsIff`, `ExportLines` and `EmptyExport` |
| CsvExport.ExportFailsIff | js/export.js:2-12 | the export throws exactly when some row mentions the chain without the separator |
| CsvExport.ExportLines | js/export.js:3-12 | when the export does not throw and no row text holds a newline, the report split on newlines gives the header, then one line per row in row order: \|rows\| + 1 lines (a newline in a row text gives more lines) |
| CsvExport.EmptyExport | js/export.js:12 | with no rows the report is the header alone |
| PdfCsvExport.FirstIn | js/pdf-export.js:120 | the position found holds a member of the class, and no earlier position does |
| PdfCsvExport.RemoveFirstIn | js/pdf-export.js:120 | `replace` with the character class; stated by `RemoveFirstInSpec` and `ClassIsAlternation` |
| PdfCsvExport.StatusText | js/pdf-export.js:120 | the status cell's text; stated by `StatusWithoutClassMember` and `CardRowRoundTrip` |
| PdfCsvExport.ClassIsAlternation | js/pdf-export.js:120 | removing the first member of a character class is what the alternation of its one-character members removes |
| PdfCsvExport.RemoveFirstInSpec | js/pdf-export.js:120 | at most one character is removed: exactly one iff some character is a member of the class, and none (text unchanged) otherwise |
| PdfCsvExport.IconsAreNotInClass | js/pdf-export.js:120 | none of the icons ✅ 🔁 ❌ 🕒 ⚠ ✔ is a member of the class as written; the no-break space is |
| PdfCsvExport.StatusWithoutClassMember | js/pdf-export.js:120 | a label with no member of the class is only trimmed |
| PdfCsvExport.ChainText | js/pdf-export.js:122 | the chain cell's text; stated by `ChainTextSpec` |
| PdfCsvExport.ChainTextSpec | js/pdf-export.js:122 | the chain cell reads `undefined` for a malformed mention, `None` without a mention, and the text after the first separator otherwise |
| PdfCsvExport.TimestampText | js/pdf-export.js:123 | the timestamp cell's text; stated by `TimestampStripsPrefix` |
| PdfCsvExport.TimestampStripsPrefix | js/pdf-export.js:123 | `Scanned: ` followed by a time gives the time |
| PdfCsvExport.Wrap | js/pdf-export.js:119-123 | a value between quotes, unescaped; stated by `WrappedRoundTripIff` |
| PdfCsvExport.CardCells | js/pdf-export.js:118-124 | the five cells of a card; stated by `CardRowRoundTrip` and `UrlCellRoundTripIff` |
| PdfCsvExport.PdfExportCsv | js/pdf-export.js:116-127 | `exportCSV`; stated by `PdfExportLines` |
| PdfCsvExport.WrappedRoundTripIff | js/pdf-export.js:119-123 | provided what follows does not start with a double quote, a value wrapped in quotes without escaping reads back, leaving what follows, iff it holds no double quote |
| PdfCsvExport.UrlCellRoundTripIff | js/pdf-export.js:119 | the URL cell reads back as the card's URL iff the URL holds no double quote |
| PdfCsvExport.WrappedCellsRoundTrip | js/pdf-export.js:118-124 | texts without double quotes, wrapped and joined by commas, read back as the same texts |
| PdfCsvExport.CardRowRoundTrip | js/pdf-export.js:118-124 | with no double quote in the card's texts, the row reads back cell by cell as the URL, the status without its first class member and trimmed, the risk flag, the chain text and the time |
| PdfCsvExport.CardRowHasNoNewline | js/pdf-export.js:118-124 | a card without newlines gives a one-line row |
| PdfCsvExport.PdfExportLines | js/pdf-export.js:116-127 | when no card text holds a newline, the report split on newlines gives the header row `URL,Status,Risky,Redirect Chain,Timestamp`, then one row per card in card order |
| Rfc4180.DoubleQuotes | js/export.js:9 | doubling adds one character per quote |
| Rfc4180.DoubledFieldRoundTrip | js/export.js:9 | a doubled text followed by a closing quote reads back as the text, leaving what follows, provided what follows does not start with a double quote |
| Rfc4180.NoQuoteNoDoubling | js/export.js:9 | text without quotes is unchanged by doubling |
| Rfc4180.UndoubledQuoteBreaksField | js/pdf-export.js:119-123 | a quote inside a field wrapped without doubling does not read back as the field |
| JsStrings.TrimSpec | js/main.js:51 | `trim` removes a white-space prefix and suffix, keeps the middle, and leaves no white space at either end |
| JsStrings.TrimIdempotent | js/main.js:51 | trimming twice is trimming once |
| JsStrings.ContainsIff | js/scanner.js:59 | `includes` holds iff the pattern occurs at some position |
| JsStrings.SplitJoin | js/main.js:82-84 | splitting a newline join of one or more pieces gives back the pieces when none holds a newline |
| JsStrings.SecondSegmentSpec | js/export.js:8 | `split(sep)[1]` exists iff the separator occurs. It is then the text after the first occurrence, up to the next occurrence or the end. |
| JsArrays.FilterMapSelection | js/main.js:100 | `map(f).filter(x => x)` keeps input order: its output is f at a strictly increasing selection of positions, exactly those where f gives a value |
| JsArrays.FilterIsFilterMap | js/main.js:99 | `filter(p)` is `map` to the element or a falsy value, then `filter` of the truthy ones |
| JsArrays.FilterSelection | js/main.js:99 | `filter(p)` keeps input order: its output is the input at a strictly increasing selection of positions, exactly those whose element passes |
| JsArrays.FilterMapDrops | js/main.js:100-108 | the output is empty iff f fails everywhere, and shorter than the input iff f fails somewhere |
| JsArrays.PermutedMultiset | js/scanner.js:44-51 | listing the elements in a permuted order keeps their multiset |

## Left out

- The page's theme toggle, tips timer, DOM rendering and event wiring in `js/main.js`, and all of `data/tips.js`: these are presentation only and hold no logic.
- `fetch`, `Promise.race` with `setTimeout`, the shared `AbortController` that is never aborted, and `no-cors` opaque responses. The network is a function parameter, and a timeout is the thrown error "Timeout".
- The URL parser of the WHATWG URL Standard (`new URL`). It is a function parameter that gives the hostname or fails.
- What a browser's `fetch` gives the follower. The request uses `redirect: 'manual'` and `mode: 'no-cors'` (`js/scanner.js:12-13`). Main fetch (section 4.1 of the Fetch Standard) returns a network error for a `no-cors` request whose redirect mode is not `follow`, unless the URL is on the page's own origin. So every cross-origin URL rejects on its first request, and the `catch` at `js/scanner.js:34-40` settles it with a null code, the browser's error message and an empty chain: the "null and the error message" case of `FollowOutcome`, with no redirect taken. Only a same-origin redirect yields an opaque-redirect response. Its header list is empty, so `response.headers.get('location')` at `js/scanner.js:20` is null and the URL is requested again until "Too Many Redirects", as `SelfRedirectStops` states. The transport is a parameter and may carry a `Location`. `FollowRedirectStep` and `RedirectLoopExhaustsBound` describe the code for a transport that exposes the header, which a browser does not.
- The completion order of `Promise.all` is a permutation parameter, not a schedule of concurrent tasks.
- `Blob`, object URLs, downloads, the dated file name, and the whole PDF report (`exportPDF` in both export files).
- `querySelector`/`textContent` extraction: each row or card is a record of its texts. `js/export.js` queries `tr` rows, which `displayResults` never renders.
- The scripts do not line up. `js/main.js` calls `scanLinks` and reads `result.status`, while `js/scanner.js` defines `scanUrls` and produces `statusCode`. Each file is modelled on its own terms.
- HealthScore: `Math.round` of a floating-point quotient is modelled as integer rounding half up, so the float tie artefacts are not modelled. No results gives NaN, which is None here.
- HostMatches: `toLowerCase` is modelled on ASCII letters only.
- Strings are sequences of Unicode code points, not UTF-16 code units. The icon alternation of `js/export.js` therefore compares code points.
