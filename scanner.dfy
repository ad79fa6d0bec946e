/** The scanner (js/scanner.js): `fetchWithRedirect`, which follows
    redirects by hand and gives up after a fixed number of them; `scanUrls`,
    which prepares each input URL, fetches it and flags it against the
    blacklist; and the blacklist matcher `isRiskyDomain`.

    The network is a parameter: a `Transport` says what the request for a
    URL answers, given how many redirects the current scan has already
    followed. The five-second timeout is one of the errors it may answer. */
module Scanner {
  import opened JsStrings
  import opened JsArrays
  import opened WebUrl

  /** What the race between `fetch(url, {redirect: 'manual'})` and the
      timeout settles on. */
  datatype Reply =
    | OpaqueRedirect(location: Option<string>)  // `response.type === 'opaqueredirect'`, with the `Location` header if any
    | Answer(status: int, statusText: string)   // any other response
    | Thrown(message: string)                   // a rejected fetch, or the `Timeout` error

  type Transport = (string, nat) -> Reply

  /** The object `fetchWithRedirect` resolves to; `url` is absent from the
      "Too Many Redirects" result, and `statusCode` None stands for null. */
  datatype FetchResult = FetchResult(
    statusCode: Option<int>,
    statusText: string,
    redirectChain: seq<string>,
    url: Option<string>)

  const MaxRedirects: nat := 5
  const TooManyRedirects := "Too Many Redirects"
  /** The message of the error the timer rejects with. */
  const TimeoutMessage := "Timeout"

  /** `response.headers.get('location') || url`: an absent or empty header
      sends the follower back to the same URL. */
  function RedirectTarget(location: Option<string>, url: string): string {
    if location.Some? && location.value != [] then location.value else url
  }

  /** The recursion of `fetchWithRedirect(url, redirects)`: a redirect pushes
      the current URL and, unless that makes more than five, follows the
      target; any other reply ends the chase. */
  function Follow(url: string, redirects: seq<string>, net: Transport): (r: FetchResult)
    requires |redirects| <= MaxRedirects
    ensures |redirects| <= |r.redirectChain| <= MaxRedirects + 1
    ensures r.redirectChain[..|redirects|] == redirects
    decreases MaxRedirects - |redirects|
  {
    match net(url, |redirects|)
    case OpaqueRedirect(location) =>
      var chain := redirects + [url];
      if |chain| > MaxRedirects then FetchResult(None, TooManyRedirects, chain, None)
      else
        var r := Follow(RedirectTarget(location, url), chain, net);
        assert chain == r.redirectChain[..|chain|];
        assert redirects == chain[..|redirects|];
        r
    case Answer(status, text) => FetchResult(Some(status), text, redirects, Some(url))
    case Thrown(message) => FetchResult(None, message, redirects, Some(url))
  }

  /** `fetchWithRedirect(url)`: the recursion run as a loop that grows the
      redirect chain in place. */
  method FetchWithRedirect(start: string, net: Transport) returns (r: FetchResult)
    ensures r == Follow(start, [], net)
  {
    var url := start;
    var redirects: seq<string> := [];
    while true
      invariant |redirects| <= MaxRedirects
      invariant Follow(url, redirects, net) == Follow(start, [], net)
      decreases MaxRedirects - |redirects|
    {
      match net(url, |redirects|)
      case OpaqueRedirect(location) =>
        var target := RedirectTarget(location, url);
        redirects := redirects + [url];
        if |redirects| > MaxRedirects {
          return FetchResult(None, TooManyRedirects, redirects, None);
        }
        url := target;
      case Answer(status, text) =>
        return FetchResult(Some(status), text, redirects, Some(url));
      case Thrown(message) =>
        return FetchResult(None, message, redirects, Some(url));
    }
  }

  /** `chain` is a path of redirects from `start`: each URL in it answered
      with a redirect to the next one, in visit order. */
  ghost predicate IsRedirectPath(start: string, chain: seq<string>, net: Transport) {
    (chain != [] ==> chain[0] == start) &&
    (forall i :: 0 <= i < |chain| ==> net(chain[i], i).OpaqueRedirect?) &&
    (forall i :: 0 <= i < |chain| - 1 ==>
      chain[i + 1] == RedirectTarget(net(chain[i], i).location, chain[i]))
  }

  /** The URL requested after following `chain` from `start`. */
  ghost function NextUrl(start: string, chain: seq<string>, net: Transport): string
    requires IsRedirectPath(start, chain, net)
  {
    if chain == [] then start
    else
      var last := |chain| - 1;
      RedirectTarget(net(chain[last], last).location, chain[last])
  }

  /** What `fetchWithRedirect(start)` resolves to, in terms of the replies:
      the chain is the path of redirects in visit order, without the URL of
      the final request; after the sixth redirect the result is "Too Many
      Redirects" with no URL; otherwise the result carries the final
      request's URL and its status and text, or null and the error message.
      So at most six requests are made. */
  lemma FollowOutcome(start: string, net: Transport)
    ensures var r := Follow(start, [], net); var c := r.redirectChain;
      IsRedirectPath(start, c, net) &&
      (r.url.None? <==> |c| == MaxRedirects + 1) &&
      (r.url.None? ==> r.statusCode.None? && r.statusText == TooManyRedirects) &&
      (r.url.Some? ==> r.url.value == NextUrl(start, c, net) && Settles(r, net(r.url.value, |c|))) &&
      |c| + (if r.url.Some? then 1 else 0) <= MaxRedirects + 1
  {
    FollowOutcomeFrom(start, start, [], net);
  }

  /** `r` reports the non-redirect reply `reply`. */
  ghost predicate Settles(r: FetchResult, reply: Reply) {
    match reply
    case OpaqueRedirect(_) => false
    case Answer(status, text) => r.statusCode == Some(status) && r.statusText == text
    case Thrown(message) => r.statusCode.None? && r.statusText == message
  }

  lemma {:induction false} FollowOutcomeFrom(start: string, url: string, redirects: seq<string>, net: Transport)
    requires |redirects| <= MaxRedirects
    requires IsRedirectPath(start, redirects, net) && url == NextUrl(start, redirects, net)
    ensures var r := Follow(url, redirects, net); var c := r.redirectChain;
      IsRedirectPath(start, c, net) &&
      (r.url.None? <==> |c| == MaxRedirects + 1) &&
      (r.url.None? ==> r.statusCode.None? && r.statusText == TooManyRedirects) &&
      (r.url.Some? ==> r.url.value == NextUrl(start, c, net) && Settles(r, net(r.url.value, |c|)))
    decreases MaxRedirects - |redirects|
  {
    match net(url, |redirects|)
    case OpaqueRedirect(location) =>
      var chain := redirects + [url];
      assert IsRedirectPath(start, chain, net) by {
        if redirects != [] {
          assert chain[|redirects|] == NextUrl(start, redirects, net);
        }
      }
      if |chain| <= MaxRedirects {
        FollowOutcomeFrom(start, RedirectTarget(location, url), chain, net);
      }
    case Answer(_, _) =>
    case Thrown(_) =>
  }

  /** A timeout on any request, after the redirects so far, settles the fetch
      with a null code, the text "Timeout", the chain so far and the URL
      that timed out; on the first request the chain is empty. */
  lemma TimeoutSettles(url: string, redirects: seq<string>, net: Transport)
    requires |redirects| <= MaxRedirects
    requires net(url, |redirects|) == Thrown(TimeoutMessage)
    ensures Follow(url, redirects, net) == FetchResult(None, TimeoutMessage, redirects, Some(url))
    ensures redirects == [] ==> Follow(url, [], net).redirectChain == []
  {
  }

  /** A redirect without a usable `Location` header leads back to the same URL,
      so a server that always answers that way is asked six times and the
      result is "Too Many Redirects" with that URL six times in the chain. */
  lemma SelfRedirectStops(start: string, net: Transport)
    requires forall u: string, k: nat :: net(u, k) == OpaqueRedirect(None)
    ensures Follow(start, [], net) ==
      FetchResult(None, TooManyRedirects, [start, start, start, start, start, start], None)
  {
    var s := start;
    FollowLastRedirect(s, [s, s, s, s, s], net);
    assert [s, s, s, s, s] + [s] == [s, s, s, s, s, s];
    assert [s, s, s, s] + [s] == [s, s, s, s, s];
    assert [s, s, s] + [s] == [s, s, s, s];
    assert [s, s] + [s] == [s, s, s];
    assert [s] + [s] == [s, s];
    assert [] + [s] == [s];
    FollowRedirectStep(s, [s, s, s, s], s, net);
    FollowRedirectStep(s, [s, s, s], s, net);
    FollowRedirectStep(s, [s, s], s, net);
    FollowRedirectStep(s, [s], s, net);
    FollowRedirectStep(s, [], s, net);
  }

  /** Two URLs redirecting to each other are not detected as a loop: the
      follower alternates between them until the bound. */
  lemma RedirectLoopExhaustsBound(a: string, b: string, net: Transport)
    requires forall k: nat :: net(a, k) == OpaqueRedirect(Some(b)) && net(b, k) == OpaqueRedirect(Some(a))
    requires a != [] && b != []
    ensures Follow(a, [], net) == FetchResult(None, TooManyRedirects, [a, b, a, b, a, b], None)
  {
    FollowLastRedirect(b, [a, b, a, b, a], net);
    assert [a, b, a, b, a] + [b] == [a, b, a, b, a, b];
    assert [a, b, a, b] + [a] == [a, b, a, b, a];
    assert [a, b, a] + [b] == [a, b, a, b];
    assert [a, b] + [a] == [a, b, a];
    assert [a] + [b] == [a, b];
    assert [] + [a] == [a];
    FollowRedirectStep(a, [a, b, a, b], b, net);
    FollowRedirectStep(b, [a, b, a], a, net);
    FollowRedirectStep(a, [a, b], b, net);
    FollowRedirectStep(b, [a], a, net);
    FollowRedirectStep(a, [], b, net);
  }

  /** The sixth redirect ends the chase. */
  lemma FollowLastRedirect(url: string, redirects: seq<string>, net: Transport)
    requires |redirects| == MaxRedirects
    requires net(url, |redirects|).OpaqueRedirect?
    ensures Follow(url, redirects, net) == FetchResult(None, TooManyRedirects, redirects + [url], None)
  {
  }

  /** One redirect below the bound: the chase goes on at the target with the
      URL pushed. */
  lemma FollowRedirectStep(url: string, redirects: seq<string>, target: string, net: Transport)
    requires |redirects| < MaxRedirects
    requires net(url, |redirects|).OpaqueRedirect?
    requires target == RedirectTarget(net(url, |redirects|).location, url)
    ensures Follow(url, redirects, net) == Follow(target, redirects + [url], net)
  {
  }

  /** The lower-cased hostname contains one of the lower-cased blacklist
      entries: `blacklist.some(b => domain.includes(b.toLowerCase()))`. */
  function HostMatches(host: string, blacklist: seq<string>): bool {
    if blacklist == [] then false
    else Contains(ToLower(host), ToLower(blacklist[0])) || HostMatches(host, blacklist[1..])
  }

  /** `isRiskyDomain(url)`: false when the URL does not parse. */
  function IsRiskyDomain(url: string, parse: UrlParser, blacklist: seq<string>): bool {
    match parse(url)
    case None => false
    case Some(u) => HostMatches(u.hostname, blacklist)
  }

  /** A URL is risky exactly when it parses and some blacklist entry occurs,
      case-insensitively, anywhere in its hostname: substring containment,
      not a match of the whole name or of a domain suffix. */
  lemma IsRiskyDomainSpec(url: string, parse: UrlParser, blacklist: seq<string>)
    ensures IsRiskyDomain(url, parse, blacklist) <==>
      parse(url).Some? &&
      exists j, i :: 0 <= j < |blacklist| && 0 <= i <= |parse(url).value.hostname| &&
        OccursAt(ToLower(parse(url).value.hostname), ToLower(blacklist[j]), i)
  {
    if parse(url).Some? {
      HostMatchesSpec(parse(url).value.hostname, blacklist);
    }
  }

  lemma {:induction false} HostMatchesSpec(host: string, blacklist: seq<string>)
    ensures HostMatches(host, blacklist) <==>
      exists j, i :: 0 <= j < |blacklist| && 0 <= i <= |host| &&
        OccursAt(ToLower(host), ToLower(blacklist[j]), i)
  {
    if blacklist != [] {
      var h := ToLower(host);
      var tail := blacklist[1..];
      HostMatchesSpec(host, tail);
      ContainsIff(h, ToLower(blacklist[0]));
      if HostMatches(host, blacklist) {
        if Contains(h, ToLower(blacklist[0])) {
          var i :| 0 <= i <= |h| && OccursAt(h, ToLower(blacklist[0]), i);
          assert 0 <= 0 < |blacklist| && 0 <= i <= |host| && OccursAt(h, ToLower(blacklist[0]), i);
        } else {
          var j, i :| 0 <= j < |tail| && 0 <= i <= |host| && OccursAt(h, ToLower(tail[j]), i);
          assert tail[j] == blacklist[j + 1];
          assert 0 <= j + 1 < |blacklist| && 0 <= i <= |host| && OccursAt(h, ToLower(blacklist[j + 1]), i);
        }
      }
      if exists j, i :: 0 <= j < |blacklist| && 0 <= i <= |host| && OccursAt(h, ToLower(blacklist[j]), i) {
        var j, i :| 0 <= j < |blacklist| && 0 <= i <= |host| && OccursAt(h, ToLower(blacklist[j]), i);
        if j > 0 {
          assert tail[j - 1] == blacklist[j];
          assert 0 <= j - 1 < |tail| && 0 <= i <= |host| && OccursAt(h, ToLower(tail[j - 1]), i);
        }
      }
    }
  }

  /** An empty blacklist flags nothing, and an unparsable URL is never risky. */
  lemma NothingRiskyWithoutMatch(url: string, parse: UrlParser, blacklist: seq<string>)
    requires blacklist == [] || parse(url).None?
    ensures !IsRiskyDomain(url, parse, blacklist)
  {
  }

  /** Substring matching flags `notscam.com` against the entry `scam.com`. */
  lemma SubstringMatchExample()
    ensures HostMatches("notscam.com", ["scam.com"])
  {
    SingleEntryMatch("notscam.com", "scam.com", "notscam.com", "scam.com", 3);
  }

  /** Lowering is idempotent. */
  lemma {:induction false} ToLowerIdempotent(s: string)
    ensures ToLower(ToLower(s)) == ToLower(s)
  {
    var l := ToLower(s);
    assert forall k :: 0 <= k < |s| ==> LowerChar(l[k]) == l[k];
  }

  /** The match ignores ASCII case on both sides: lowering the hostname,
      every blacklist entry, or both beforehand changes nothing. */
  lemma {:induction false} HostMatchesIgnoresCase(host: string, blacklist: seq<string>)
    ensures HostMatches(ToLower(host), blacklist) == HostMatches(host, blacklist)
    ensures HostMatches(host, Map(blacklist, ToLower)) == HostMatches(host, blacklist)
    ensures HostMatches(ToLower(host), Map(blacklist, ToLower)) == HostMatches(host, blacklist)
  {
    if blacklist != [] {
      ToLowerIdempotent(host);
      ToLowerIdempotent(blacklist[0]);
      var lowered := Map(blacklist, ToLower);
      assert lowered[1..] == Map(blacklist[1..], ToLower);
      HostMatchesIgnoresCase(host, blacklist[1..]);
    }
  }

  /** A hostname matches a one-entry blacklist when the lowered entry occurs
      in the lowered hostname. */
  lemma SingleEntryMatch(host: string, entry: string, lowHost: string, lowEntry: string, i: nat)
    requires |lowHost| == |host| && forall k :: 0 <= k < |host| ==> lowHost[k] == LowerChar(host[k])
    requires |lowEntry| == |entry| && forall k :: 0 <= k < |entry| ==> lowEntry[k] == LowerChar(entry[k])
    requires OccursAt(lowHost, lowEntry, i)
    ensures HostMatches(host, [entry])
  {
    assert ToLower(host) == lowHost;
    assert ToLower(entry) == lowEntry;
    ContainsIff(lowHost, lowEntry);
  }

  /** An empty blacklist entry occurs in every hostname. */
  lemma EmptyEntryMatchesAll(host: string, blacklist: seq<string>)
    requires [] in blacklist
    ensures HostMatches(host, blacklist)
  {
    var j :| 0 <= j < |blacklist| && blacklist[j] == [];
    assert OccursAt(ToLower(host), ToLower(blacklist[j]), 0);
    HostMatchesSpec(host, blacklist);
  }

  /** The URL `scanUrls` fetches and checks: trimmed, with `https://` in front
      unless it starts with `http` (so `httpbin.org` is left as it is). */
  function PrepareUrl(input: string): string {
    var u := Trim(input);
    if StartsWith(u, "http") then u else "https://" + u
  }

  /** A prepared URL always starts with `http`, is the trimmed input or the
      trimmed input behind `https://`, and is prefixed exactly when the
      trimmed input does not start with `http`. */
  lemma PrepareUrlSpec(input: string)
    ensures StartsWith(PrepareUrl(input), "http")
    ensures PrepareUrl(input) == Trim(input) <==> StartsWith(Trim(input), "http")
    ensures PrepareUrl(input) != Trim(input) ==> PrepareUrl(input) == "https://" + Trim(input)
  {
    var u := Trim(input);
    if !StartsWith(u, "http") {
      HttpsStartsWithHttp(u);
    }
  }

  lemma HttpsStartsWithHttp(u: string)
    ensures StartsWith("https://" + u, "http") && "https://" + u != u
  {
    assert ("https://" + u)[..4] == "http";
    assert |"https://" + u| == |u| + 8;
  }

  /** The weaker scheme test leaves `httpbin.org` without a scheme. */
  lemma PrepareUrlKeepsHttpPrefixedHost()
    ensures PrepareUrl("httpbin.org") == "httpbin.org"
  {
    KeptWhenHttpPrefixed("httpbin.org");
  }

  lemma KeptWhenHttpPrefixed(s: string)
    requires IsTrimmed(s) && StartsWith(s, "http")
    ensures PrepareUrl(s) == s
  {
    TrimOfTrimmed(s);
  }

  /** One element of the `results` array `scanUrls` resolves to. */
  datatype ScanResult = ScanResult(
    statusCode: Option<int>,
    statusText: string,
    redirectChain: seq<string>,
    url: Option<string>,
    isRisky: bool)

  /** The scan of one input: the fetch result of the prepared URL, with
      `isRisky` set from the prepared URL. */
  function ScanOne(input: string, net: Transport, parse: UrlParser, blacklist: seq<string>): ScanResult {
    var u := PrepareUrl(input);
    var f := Follow(u, [], net);
    ScanResult(f.statusCode, f.statusText, f.redirectChain, f.url, IsRiskyDomain(u, parse, blacklist))
  }

  /** The risk flag is that of the prepared input URL, whatever the redirects
      lead to; a non-empty chain starts at the prepared input URL. */
  lemma ScanOneSpec(input: string, net: Transport, parse: UrlParser, blacklist: seq<string>)
    ensures var r := ScanOne(input, net, parse, blacklist);
      r.isRisky == IsRiskyDomain(PrepareUrl(input), parse, blacklist) &&
      (r.redirectChain != [] ==> r.redirectChain[0] == PrepareUrl(input)) &&
      (r.redirectChain == [] && r.url.Some? ==> r.url.value == PrepareUrl(input)) &&
      |r.redirectChain| <= MaxRedirects + 1
  {
    FollowOutcome(PrepareUrl(input), net);
  }

  /** The scans of the inputs, listed in input order. */
  function InputOrderResults(urls: seq<string>, net: nat -> Transport, parse: UrlParser, blacklist: seq<string>): (r: seq<ScanResult>)
    ensures |r| == |urls|
    ensures forall i :: 0 <= i < |urls| ==> r[i] == ScanOne(urls[i], net(i), parse, blacklist)
  {
    seq(|urls|, i requires 0 <= i < |urls| => ScanOne(urls[i], net(i), parse, blacklist))
  }

  /** `scanUrls(urls)`: each input is scanned on its own (`net(i)` is the
      network as the i-th scan sees it) and its result is pushed when the
      scan completes; `completion` is the order in which the scans complete.
      There is exactly one result per input, and the results are the
      input-order results permuted into completion order. */
  method ScanUrls(urls: seq<string>, net: nat -> Transport, completion: seq<nat>,
                  parse: UrlParser, blacklist: seq<string>)
    returns (results: seq<ScanResult>)
    requires IsPermutationOf(completion, |urls|)
    ensures |results| == |urls|
    ensures forall k :: 0 <= k < |results| ==>
      results[k] == ScanOne(urls[completion[k]], net(completion[k]), parse, blacklist)
    ensures multiset(results) == multiset(InputOrderResults(urls, net, parse, blacklist))
  {
    var inOrder := InputOrderResults(urls, net, parse, blacklist);
    results := [];
    var k := 0;
    while k < |completion|
      invariant 0 <= k <= |completion|
      invariant results == Pick(inOrder, completion[..k])
    {
      var i := completion[k];
      var url := Trim(urls[i]);
      if !StartsWith(url, "http") {
        url := "https://" + url;
      }
      var fetched := FetchWithRedirect(url, net(i));
      var result := ScanResult(fetched.statusCode, fetched.statusText, fetched.redirectChain,
                               fetched.url, IsRiskyDomain(url, parse, blacklist));
      assert result == inOrder[i] by {
        assert url == PrepareUrl(urls[i]);
      }
      PickExtend(inOrder, completion, k);
      results := results + [result];
      k := k + 1;
    }
    assert completion[..k] == completion;
    PermutedMultiset(inOrder, completion);
  }
}
