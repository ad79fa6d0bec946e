/** The page script of the link checker (js/main.js), its logic only: the
    URL check `isValidUrl`, the line pipelines behind the link counter, the
    file upload and the start of a scan, the mapping of an HTTP status to a
    display class, and the health score. */
module LinkInput {
  import opened JsStrings
  import opened WebUrl
  import opened JsArrays

  const Http := "http://"
  const Https := "https://"

  predicate HasScheme(t: string) {
    StartsWith(t, Http) || StartsWith(t, Https)
  }

  /** The text `isValidUrl` hands to the parser: the trimmed line, with
      `https://` in front unless it already starts with `http://` or `https://`. */
  function Normalize(s: string): string {
    var t := Trim(s);
    if HasScheme(t) then t else Https + t
  }

  /** `isValidUrl`: the normalised text when the parser accepts it, and
      `false` (here None) when the parser throws. */
  function IsValidUrl(s: string, parse: UrlParser): Option<string> {
    var u := Normalize(s);
    if parse(u).Some? then Some(u) else None
  }

  /** What `isValidUrl` returns is exactly what the parser was asked about and
      accepted; it has a scheme, no white space at its ends, is never empty
      (so it is truthy), and is the trimmed input itself, or the trimmed input
      behind `https://` exactly when that had no scheme. */
  lemma ValidUrlShape(s: string, parse: UrlParser)
    ensures var r := IsValidUrl(s, parse); var t := Trim(s);
      (r.Some? <==> parse(if HasScheme(t) then t else Https + t).Some?) &&
      (r.Some? ==>
        parse(r.value).Some? && HasScheme(r.value) && IsTrimmed(r.value) && |r.value| > 0 &&
        (r.value == t <==> HasScheme(t)) &&
        (r.value != t ==> r.value == Https + t))
  {
    var t := Trim(s);
    var _ := TrimSpec(s);
    if !HasScheme(t) {
      HttpsPrefixed(t);
    } else {
      SchemeStartsWithH(t);
    }
  }

  /** `https://` in front of a trimmed text gives a trimmed text with a scheme. */
  lemma HttpsPrefixed(t: string)
    requires IsTrimmed(t)
    ensures var u := Https + t; HasScheme(u) && IsTrimmed(u) && |u| > 0 && u != t
  {
    var u := Https + t;
    assert u[..|Https|] == Https;
    assert u[0] == 'h';
    if t != [] {
      assert u[|u| - 1] == t[|t| - 1];
    }
  }

  /** A text with a scheme starts with `h`, which is not white space. */
  lemma SchemeStartsWithH(t: string)
    requires HasScheme(t)
    ensures |t| > 0 && t[0] == 'h' && !IsWhiteSpace(t[0])
  {
    if StartsWith(t, Http) {
      assert t[0] == Http[0];
    } else {
      assert t[0] == Https[0];
    }
  }

  /** Applying `isValidUrl` to its own result gives that result again. */
  lemma IsValidUrlIdempotent(s: string, parse: UrlParser)
    requires IsValidUrl(s, parse).Some?
    ensures IsValidUrl(IsValidUrl(s, parse).value, parse) == IsValidUrl(s, parse)
  {
    var u := IsValidUrl(s, parse).value;
    ValidUrlShape(s, parse);
    TrimOfTrimmed(u);
  }

  /** `url => isValidUrl(url)` as a filter test: the line is accepted
      (every string `isValidUrl` returns is non-empty, hence truthy). */
  function Accepts(parse: UrlParser): string -> bool {
    s => IsValidUrl(s, parse).Some?
  }

  /** `url => isValidUrl(url)` as the mapping of the start-scan handler. */
  function Validator(parse: UrlParser): string -> Option<string> {
    s => IsValidUrl(s, parse)
  }

  /** `text.split('\n').map(url => url.trim())`. */
  function TrimmedLines(text: string): seq<string> {
    Map(Split(text, "\n"), Trim)
  }

  /** `updateLinkCount`: the number of trimmed lines the check accepts. */
  function LinkCount(text: string, parse: UrlParser): nat {
    |Filter(TrimmedLines(text), Accepts(parse))|
  }

  /** The file-upload handler's new input text: the accepted trimmed lines of
      the file, as they were (not normalised), joined by newlines. */
  function UploadedInput(content: string, parse: UrlParser): string {
    Join(Filter(TrimmedLines(content), Accepts(parse)), "\n")
  }

  /** The filter test `url => url`: a string is truthy when it is not empty. */
  predicate NonEmpty(s: string) {
    s != []
  }

  /** `rawUrls` of the start-scan handler: the trimmed, non-empty lines. */
  function RawUrls(text: string): seq<string> {
    Filter(TrimmedLines(text), NonEmpty)
  }

  /** What pressing "Start Scan" does with the input text: nothing but an
      alert when no line is a valid URL, otherwise a scan of the normalised
      URLs, with a warning first when some lines were skipped. */
  datatype ScanStart = NoValidUrl | Start(urls: seq<string>, someSkipped: bool)

  function StartScan(text: string, parse: UrlParser): ScanStart {
    var raw := RawUrls(text);
    var urls := FilterMap(raw, Validator(parse));
    if |urls| == 0 then NoValidUrl else Start(urls, |urls| < |raw|)
  }

  /** No trimmed line has white space at its ends or contains a newline. */
  lemma TrimmedLinesSpec(text: string)
    ensures forall k :: 0 <= k < |TrimmedLines(text)| ==>
      IsTrimmed(TrimmedLines(text)[k]) && '\n' !in TrimmedLines(text)[k]
  {
    var lines := Split(text, "\n");
    SplitPiecesAvoid(text, '\n');
    forall k | 0 <= k < |lines| ensures IsTrimmed(Trim(lines[k])) && '\n' !in Trim(lines[k]) {
      var _ := TrimSpec(lines[k]);
      TrimKeepsAbsent(lines[k], '\n');
    }
  }

  /** The raw URLs are exactly the lines whose trim is non-empty, trimmed, in
      input order: `idx` picks those lines strictly increasingly and misses
      none of them. So they are non-empty trimmed texts without newlines, no
      more of them than there are lines. */
  lemma RawUrlsSpec(text: string) returns (idx: seq<nat>)
    ensures var lines := Split(text, "\n"); var raw := RawUrls(text);
      |idx| == |raw| <= |lines| && IsSelection(idx, lines) &&
      (forall k :: 0 <= k < |idx| ==> raw[k] == Trim(lines[idx[k]])) &&
      (forall i :: 0 <= i < |lines| && Trim(lines[i]) != [] ==> i in idx)
    ensures forall k :: 0 <= k < |RawUrls(text)| ==>
      RawUrls(text)[k] != [] && IsTrimmed(RawUrls(text)[k]) && '\n' !in RawUrls(text)[k]
  {
    idx := RawUrlsSelection(text);
    RawUrlsShape(text);
  }

  lemma RawUrlsSelection(text: string) returns (idx: seq<nat>)
    ensures var lines := Split(text, "\n"); var raw := RawUrls(text);
      |idx| == |raw| <= |lines| && IsSelection(idx, lines) &&
      (forall k :: 0 <= k < |idx| ==> raw[k] == Trim(lines[idx[k]])) &&
      (forall i :: 0 <= i < |lines| && Trim(lines[i]) != [] ==> i in idx)
  {
    var lines := Split(text, "\n");
    var trimmed := TrimmedLines(text);
    idx := FilterSelection(trimmed, NonEmpty);
    forall i | 0 <= i < |lines| && Trim(lines[i]) != [] ensures i in idx {
      assert trimmed[i] == Trim(lines[i]);
    }
  }

  lemma RawUrlsShape(text: string)
    ensures forall k :: 0 <= k < |RawUrls(text)| ==>
      RawUrls(text)[k] != [] && IsTrimmed(RawUrls(text)[k]) && '\n' !in RawUrls(text)[k]
  {
    TrimmedLinesSpec(text);
    FilterKeeps(TrimmedLines(text), NonEmpty);
  }

  /** The link counter counts exactly the lines whose trim the check accepts:
      `idx` picks them strictly increasingly and misses none of them. */
  lemma LinkCountSpec(text: string, parse: UrlParser) returns (idx: seq<nat>)
    ensures var lines := Split(text, "\n");
      LinkCount(text, parse) == |idx| <= |lines| && IsSelection(idx, lines) &&
      (forall k :: 0 <= k < |idx| ==> IsValidUrl(Trim(lines[idx[k]]), parse).Some?) &&
      (forall i :: 0 <= i < |lines| && IsValidUrl(Trim(lines[i]), parse).Some? ==> i in idx)
  {
    var lines := Split(text, "\n");
    var trimmed := TrimmedLines(text);
    idx := FilterSelection(trimmed, Accepts(parse));
    forall k | 0 <= k < |idx| ensures IsValidUrl(Trim(lines[idx[k]]), parse).Some? {
      assert Accepts(parse)(trimmed[idx[k]]);
    }
    forall i | 0 <= i < |lines| && IsValidUrl(Trim(lines[i]), parse).Some? ensures i in idx {
      assert Accepts(parse)(trimmed[i]);
    }
  }

  /** The URLs a scan starts with are the normalised forms of the valid raw
      URLs, in input order: `idx` picks, strictly increasingly, the positions
      of the raw URLs that pass, and every raw URL that passes is picked. */
  lemma StartScanOrder(text: string, parse: UrlParser) returns (idx: seq<nat>)
    requires StartScan(text, parse).Start?
    ensures var raw := RawUrls(text); var urls := StartScan(text, parse).urls;
      |idx| == |urls| <= |raw| && IsSelection(idx, raw) &&
      (forall k :: 0 <= k < |idx| ==> IsValidUrl(raw[idx[k]], parse) == Some(urls[k])) &&
      (forall i :: 0 <= i < |raw| && IsValidUrl(raw[i], parse).Some? ==> i in idx)
  {
    idx := FilterMapSelection(RawUrls(text), Validator(parse));
  }

  /** A scan starts exactly when some raw URL is valid, and the "some URLs
      were invalid" warning is given exactly when some raw URL is not. */
  lemma StartScanSpec(text: string, parse: UrlParser)
    ensures var raw := RawUrls(text);
      (StartScan(text, parse).NoValidUrl? <==>
        forall i :: 0 <= i < |raw| ==> IsValidUrl(raw[i], parse).None?) &&
      (StartScan(text, parse).Start? ==>
        (StartScan(text, parse).someSkipped <==>
          exists i :: 0 <= i < |raw| && IsValidUrl(raw[i], parse).None?))
  {
    FilterMapDrops(RawUrls(text), Validator(parse));
  }

  /** After an upload the input holds the accepted trimmed lines of the file,
      unchanged and in order, one per line, and the link counter shows how
      many there are. */
  lemma UploadSpec(content: string, parse: UrlParser)
    requires RejectsEmptyHttpsHost(parse)
    ensures var accepted := Filter(TrimmedLines(content), Accepts(parse));
      LinkCount(UploadedInput(content, parse), parse) == |accepted| &&
      (accepted != [] ==> Split(UploadedInput(content, parse), "\n") == accepted)
  {
    var accepted := Filter(TrimmedLines(content), Accepts(parse));
    TrimmedLinesSpec(content);
    FilterKeeps(TrimmedLines(content), Accepts(parse));
    if accepted == [] {
      EmptyInputCountsNothing(parse);
    } else {
      RecountAccepted(accepted, parse);
    }
  }

  /** An empty input text holds one empty line, which `https://` cannot make valid. */
  lemma EmptyInputCountsNothing(parse: UrlParser)
    requires RejectsEmptyHttpsHost(parse)
    ensures LinkCount([], parse) == 0
  {
    assert TrimmedLines([]) == [[]] by {
      assert Split([], "\n") == [[]];
      assert Trim([]) == [];
    }
    assert !Accepts(parse)([]) by {
      assert !HasScheme([]);
      assert Normalize([]) == Https;
    }
    assert Filter([[]], Accepts(parse)) == [];
  }

  /** Accepted trimmed lines, joined by newlines, split and trimmed again,
      are the same lines, and all of them are accepted again. */
  lemma RecountAccepted(accepted: seq<string>, parse: UrlParser)
    requires accepted != []
    requires forall k :: 0 <= k < |accepted| ==>
      Accepts(parse)(accepted[k]) && IsTrimmed(accepted[k]) && '\n' !in accepted[k]
    ensures Split(Join(accepted, "\n"), "\n") == accepted
    ensures LinkCount(Join(accepted, "\n"), parse) == |accepted|
  {
    SplitJoin(accepted, '\n');
    TrimAllOfTrimmed(accepted);
    FilterAllPass(accepted, Accepts(parse));
  }

  lemma TrimAllOfTrimmed(xs: seq<string>)
    requires forall k :: 0 <= k < |xs| ==> IsTrimmed(xs[k])
    ensures Map(xs, Trim) == xs
  {
    forall k | 0 <= k < |xs| ensures Trim(xs[k]) == xs[k] {
      TrimOfTrimmed(xs[k]);
    }
  }

  /** The display of one result in `displayResults`: a CSS class and a label. */
  datatype StatusDisplay = StatusDisplay(cssClass: string, text: string)

  /** The if-chain on `result.status` (None: null or absent). Every status
      gets exactly one of the four classes. */
  function DisplayStatus(status: Option<int>): (d: StatusDisplay)
    ensures d.cssClass == "status-200" <==> status == Some(200)
    ensures d.cssClass == "status-redirect" <==> status == Some(301) || status == Some(302)
    ensures d.cssClass == "status-error" <==> status == Some(404) || status == Some(500)
    ensures d.cssClass == "status-unknown" <==>
      status !in {Some(200), Some(301), Some(302), Some(404), Some(500)}
    ensures status == Some(200) ==> d.text == "200 OK"
    ensures status == Some(301) ==> d.text == "301 Redirect"
    ensures status == Some(302) ==> d.text == "302 Redirect"
    ensures status == Some(404) ==> d.text == "404 Error"
    ensures status == Some(500) ==> d.text == "500 Error"
    ensures d.cssClass == "status-unknown" ==> d.text == "Unknown"
  {
    match status
    case Some(200) => StatusDisplay("status-200", "200 OK")
    case Some(301) => StatusDisplay("status-redirect", "301 Redirect")
    case Some(302) => StatusDisplay("status-redirect", "302 Redirect")
    case Some(404) => StatusDisplay("status-error", "404 Error")
    case Some(500) => StatusDisplay("status-error", "500 Error")
    case _ => StatusDisplay("status-unknown", "Unknown")
  }

  /** The test of `results.filter(r => r.status === 200)`. */
  predicate Is200(status: Option<int>) {
    status == Some(200)
  }

  /** `results.filter(r => r.status === 200).length`. */
  function OkCount(statuses: seq<Option<int>>): (k: nat)
    ensures k == |Filter(statuses, Is200)|
    ensures k <= |statuses|
    ensures k == |statuses| <==> forall i :: 0 <= i < |statuses| ==> statuses[i] == Some(200)
    ensures k == 0 <==> forall i :: 0 <= i < |statuses| ==> statuses[i] != Some(200)
  {
    if statuses == [] then 0
    else (if statuses[0] == Some(200) then 1 else 0) + OkCount(statuses[1..])
  }

  /** The count of 200 results counts exactly the results whose status is
      200: `idx` picks them strictly increasingly and misses none. */
  lemma OkCountSpec(statuses: seq<Option<int>>) returns (idx: seq<nat>)
    ensures OkCount(statuses) == |idx| && IsSelection(idx, statuses)
    ensures forall k :: 0 <= k < |idx| ==> statuses[idx[k]] == Some(200)
    ensures forall i :: 0 <= i < |statuses| && statuses[i] == Some(200) ==> i in idx
  {
    idx := FilterSelection(statuses, Is200);
  }

  /** `Math.round(validLinks / results.length * 100)`, in integers; None is
      the NaN that an empty result list gives. */
  function HealthScore(statuses: seq<Option<int>>): (score: Option<nat>)
    ensures score.None? <==> statuses == []
    ensures score.Some? ==> score.value <= 100
    ensures score.Some? ==>
      var n := |statuses|; var k := OkCount(statuses);
      2 * n * score.value <= 200 * k + n < 2 * n * (score.value + 1)
  {
    var n := |statuses|;
    if n == 0 then None
    else
      var k := OkCount(statuses);
      RoundedPercent(k, n);
      Some((200 * k + n) / (2 * n))
  }

  /** `(200k + n) div 2n` is 100k/n rounded half up, and lies in 0..100. */
  lemma RoundedPercent(k: nat, n: nat)
    requires 0 < n && k <= n
    ensures var q := (200 * k + n) / (2 * n);
      0 <= q <= 100 && 2 * n * q <= 200 * k + n < 2 * n * (q + 1)
  {
    var a, d := 200 * k + n, 2 * n;
    var q := a / d;
    DivBounds(a, d);
    if q > 100 {
      MulMonotone(d, 101, q);
      assert false;
    }
  }

  lemma DivBounds(a: nat, d: nat)
    requires d > 0
    ensures a / d >= 0 && d * (a / d) <= a < d * (a / d) + d
  {
  }

  lemma MulMonotone(d: nat, x: int, y: int)
    requires x <= y
    ensures d * x <= d * y
  {
  }

  /** The quotient is determined by the bounds it lies between. */
  lemma DivUnique(a: nat, d: nat, q: nat)
    requires d > 0 && d * q <= a < d * q + d
    ensures a / d == q
  {
    var q' := a / d;
    DivBounds(a, d);
    if q' < q {
      MulMonotone(d, q' + 1, q);
      assert false;
    } else if q' > q {
      MulMonotone(d, q + 1, q');
      assert false;
    }
  }

  /** The score is 100 when every result has status 200 and 0 when none has. */
  lemma HealthScoreExtremes(statuses: seq<Option<int>>)
    requires statuses != []
    ensures (forall i :: 0 <= i < |statuses| ==> statuses[i] == Some(200)) ==>
      HealthScore(statuses) == Some(100)
    ensures (forall i :: 0 <= i < |statuses| ==> statuses[i] != Some(200)) ==>
      HealthScore(statuses) == Some(0)
  {
    var n := |statuses|;
    if forall i :: 0 <= i < |statuses| ==> statuses[i] == Some(200) {
      assert OkCount(statuses) == n;
      DivUnique(200 * n + n, 2 * n, 100);
    }
    if forall i :: 0 <= i < |statuses| ==> statuses[i] != Some(200) {
      assert OkCount(statuses) == 0;
      DivUnique(n, 2 * n, 0);
    }
  }

  /** Three results of four with status 200 give a score of 75. */
  lemma ThreeOfFourScore()
    ensures HealthScore([Some(200), Some(200), Some(404), Some(200)]) == Some(75)
  {
    assert OkCount([Some(200), Some(200), Some(404), Some(200)]) == 3;
  }
}
