/** The CSV report of js/export.js (`exportCSV`): one line per rendered result
    row with the URL, the status label stripped of its leading icon, the
    risk flag and the redirect chain, under a fixed header. The URL and the
    chain are quoted with rule 7 of section 2 of RFC 4180; the status is not
    quoted. A row whose details mention "Redirect Chain" without the
    "Redirect Chain: " separator makes `split(...)[1]` undefined, and the
    `.replace` on it throws, so that export produces no file (None).

    The Blob, the object URL and the download link are not part of this
    model; the export is the text that would be downloaded. */
module CsvExport {
  import opened JsStrings
  import opened JsArrays
  import opened Rfc4180

  /** The text content of a result row's `.url a`, `.status-tag` and
      `.details` elements. */
  datatype Row = Row(url: string, statusTag: string, details: string)

  /** The alternatives of `/✔️|🔄|❌|🕒|⚠️|❓/`, in order. */
  const StatusMarkers: seq<string> :=
    ["\U{2714}\U{FE0F}", "\U{1F504}", "\U{274C}", "\U{1F552}", "\U{26A0}\U{FE0F}", "\U{2753}"]

  const Header := "URL,Status,Risky,Redirect Chain"
  const ChainMention := "Redirect Chain"
  const ChainSeparator := "Redirect Chain: "

  /** The first alternative, from position `k` of the list on, that occurs at
      position `i` of `s`. */
  function AlternativeAt(s: string, alts: seq<string>, i: nat, k: nat): (r: Option<nat>)
    requires k <= |alts|
    ensures r.Some? ==> k <= r.value < |alts| && OccursAt(s, alts[r.value], i)
    ensures forall m :: k <= m < (if r.Some? then r.value else |alts|) ==> !OccursAt(s, alts[m], i)
    decreases |alts| - k
  {
    if k == |alts| then None
    else if OccursAt(s, alts[k], i) then Some(k)
    else AlternativeAt(s, alts, i, k + 1)
  }

  /** Where a regular expression made of the alternatives `alts` first
      matches `s` at or after `from`: the leftmost position at which some
      alternative occurs, and the first alternative in the list that occurs
      there. */
  function FirstMatch(s: string, alts: seq<string>, from: nat): (r: Option<(nat, nat)>)
    requires from <= |s|
    ensures r.Some? ==> from <= r.value.0 <= |s| && AlternativeAt(s, alts, r.value.0, 0) == Some(r.value.1)
    ensures forall j :: from <= j < (if r.Some? then r.value.0 else |s| + 1) ==> AlternativeAt(s, alts, j, 0).None?
    decreases |s| - from
  {
    match AlternativeAt(s, alts, from, 0)
    case Some(k) => Some((from, k))
    case None => if from == |s| then None else FirstMatch(s, alts, from + 1)
  }

  /** `s.replace(/a0|a1|.../, '')`: the first match removed. */
  function RemoveFirstMatch(s: string, alts: seq<string>): string {
    match FirstMatch(s, alts, 0)
    case None => s
    case Some((i, k)) => s[..i] + s[i + |alts[k]|..]
  }

  /** `alts[k]` at position `i` is where the regular expression matches
      first: no alternative occurs further left, and no alternative listed
      before `alts[k]` occurs at `i`. */
  ghost predicate IsFirstMatch(s: string, alts: seq<string>, i: nat, k: nat) {
    i <= |s| && k < |alts| && OccursAt(s, alts[k], i) &&
    (forall j, m :: 0 <= j < i && 0 <= m < |alts| ==> !OccursAt(s, alts[m], j)) &&
    (forall m :: 0 <= m < k ==> !OccursAt(s, alts[m], i))
  }

  /** The search finds the match a regular expression of alternatives finds,
      and nothing else. */
  lemma FirstMatchSpec(s: string, alts: seq<string>, i: nat, k: nat)
    ensures FirstMatch(s, alts, 0) == Some((i, k)) <==> IsFirstMatch(s, alts, i, k)
  {
    match FirstMatch(s, alts, 0)
    case None =>
      if i <= |s| && k < |alts| {
        assert AlternativeAt(s, alts, i, 0).None?;
      }
    case Some((i', k')) =>
      forall j, m | 0 <= j < i' && 0 <= m < |alts| ensures !OccursAt(s, alts[m], j) {
        assert AlternativeAt(s, alts, j, 0).None?;
      }
      assert IsFirstMatch(s, alts, i', k');
      if IsFirstMatch(s, alts, i, k) {
        assert i == i';
      }
  }

  /** The text is left as it is exactly when no alternative occurs in it. */
  lemma NoMatchSpec(s: string, alts: seq<string>)
    ensures FirstMatch(s, alts, 0).None? <==>
      forall i, k :: 0 <= i <= |s| && 0 <= k < |alts| ==> !OccursAt(s, alts[k], i)
    ensures FirstMatch(s, alts, 0).None? ==> RemoveFirstMatch(s, alts) == s
  {
    match FirstMatch(s, alts, 0)
    case None =>
      forall i, k | 0 <= i <= |s| && 0 <= k < |alts| ensures !OccursAt(s, alts[k], i) {
        assert AlternativeAt(s, alts, i, 0).None?;
      }
    case Some((i, k)) =>
      assert OccursAt(s, alts[k], i);
  }

  /** With a single alternative the regular expression behaves as the string
      pattern of `String.prototype.replace`. */
  lemma {:induction false} SingleAlternativeIsRemoveFirst(s: string, p: string)
    ensures RemoveFirstMatch(s, [p]) == RemoveFirst(s, p)
  {
    SingleAlternativeFrom(s, p, 0);
  }

  lemma {:induction false} SingleAlternativeFrom(s: string, p: string, from: nat)
    requires from <= |s|
    ensures match FirstMatch(s, [p], from)
      case None => IndexFrom(s, p, from).None?
      case Some((i, k)) => k == 0 && IndexFrom(s, p, from) == Some(i)
    decreases |s| - from
  {
    if !OccursAt(s, p, from) && from < |s| {
      SingleAlternativeFrom(s, p, from + 1);
    }
  }

  /** A tag that starts with an icon loses exactly that icon. */
  lemma LeadingMarkerRemoved(s: string, alts: seq<string>, k: nat)
    requires k < |alts| && OccursAt(s, alts[k], 0)
    requires forall m :: 0 <= m < k ==> !OccursAt(s, alts[m], 0)
    ensures RemoveFirstMatch(s, alts) == s[|alts[k]|..]
  {
    assert AlternativeAt(s, alts, 0, 0) == Some(k);
  }

  /** The status column: the status label without its first icon, trimmed. */
  function StatusField(tag: string): string {
    Trim(RemoveFirstMatch(tag, StatusMarkers))
  }

  /** The risky column, from the status label (`includes('Risky')`). */
  function RiskyField(tag: string): string {
    if Contains(tag, "Risky") then "Yes" else "No"
  }

  /** The risk flag is "Yes" exactly when "Risky" occurs somewhere in the
      label, and "No" otherwise. */
  lemma RiskyFieldSpec(tag: string)
    ensures RiskyField(tag) == "Yes" <==> exists i :: 0 <= i <= |tag| && OccursAt(tag, "Risky", i)
    ensures RiskyField(tag) != "Yes" ==> RiskyField(tag) == "No"
  {
    ContainsIff(tag, "Risky");
  }

  /** `details.includes('Redirect Chain') ? details.split('Redirect Chain: ')[1] : 'None'`,
      with None for `undefined`. */
  function ChainSegment(details: string): Option<string> {
    if Contains(details, ChainMention) then SecondSegment(details, ChainSeparator)
    else Some("None")
  }

  /** A longer pattern occurs only where its prefix occurs. */
  lemma PrefixOccurs(s: string, p: string, q: string, i: nat)
    requires OccursAt(s, p + q, i)
    ensures OccursAt(s, p, i)
  {
    assert s[i..i + |p|] == s[i..i + |p + q|][..|p|];
  }

  /** The separator starts with the mention, so a row that has the separator
      mentions the chain. */
  lemma SeparatorMentionsChain(details: string)
    ensures Contains(details, ChainSeparator) ==> Contains(details, ChainMention)
  {
    if Contains(details, ChainSeparator) {
      var i := IndexOf(details, ChainSeparator).value;
      assert ChainSeparator == ChainMention + ": ";
      PrefixOccurs(details, ChainMention, ": ", i);
      ContainsIff(details, ChainMention);
    }
  }

  /** A row whose details mention the chain without the separator. */
  predicate MalformedChain(details: string) {
    Contains(details, ChainMention) && !Contains(details, ChainSeparator)
  }

  /** The chain column is undefined exactly for a malformed mention; it is
      "None" when the chain is not mentioned, and otherwise the text after
      the first separator, up to the next separator or the end. */
  lemma ChainSegmentSpec(details: string)
    ensures ChainSegment(details).None? <==> MalformedChain(details)
    ensures !Contains(details, ChainMention) ==> ChainSegment(details) == Some("None")
    ensures Contains(details, ChainSeparator) ==>
      var i := IndexOf(details, ChainSeparator).value;
      var v := ChainSegment(details).value;
      StartsWith(details[i + |ChainSeparator|..], v) && !Contains(v, ChainSeparator) &&
      (i + |ChainSeparator| + |v| == |details| || OccursAt(details, ChainSeparator, i + |ChainSeparator| + |v|))
  {
    SeparatorMentionsChain(details);
    SecondSegmentSpec(details, ChainSeparator);
  }

  /** The CSV line of one row; None when its chain is undefined. */
  function CsvLine(row: Row): Option<string> {
    match ChainSegment(row.details)
    case None => None
    case Some(chain) => Some(Record(row.url, StatusField(row.statusTag), RiskyField(row.statusTag), chain))
  }

  /** The record template: URL and chain quoted with doubled quotes, the
      status and risky columns as they are. */
  function Record(url: string, status: string, risky: string, chain: string): string {
    Quoted(url) + "," + status + "," + risky + "," + Quoted(chain)
  }

  /** A field enclosed in quotes, its quotes doubled. */
  function Quoted(s: string): string {
    [Quote] + DoubleQuotes(s) + [Quote]
  }

  /** A quoted field reads back as its text, leaving what follows it. */
  lemma QuotedRoundTrip(s: string, rest: string)
    requires rest == [] || rest[0] != Quote
    ensures ParseQuotedField(Quoted(s) + rest) == Some((s, rest))
  {
    assert Quoted(s) + rest == [Quote] + (DoubleQuotes(s) + [Quote] + rest);
    DoubledFieldRoundTrip(s, rest);
  }

  /** `exportCSV`: the header and one line per row, in row order, joined by
      newlines; None when some row throws. */
  function ExportCsv(rows: seq<Row>): Option<string> {
    match AllSome(rows, CsvLine)
    case None => None
    case Some(lines) => Some(Join([Header] + lines, "\n"))
  }

  /** The export fails exactly when some row mentions the chain without the
      separator. */
  lemma ExportFailsIff(rows: seq<Row>)
    ensures ExportCsv(rows).None? <==> exists k :: 0 <= k < |rows| && MalformedChain(rows[k].details)
  {
    AllSomeSpec(rows, CsvLine);
    forall k | 0 <= k < |rows| ensures CsvLine(rows[k]).None? <==> MalformedChain(rows[k].details) {
      ChainSegmentSpec(rows[k].details);
    }
  }

  /** The text up to the next comma and what follows the comma; an unquoted
      field. */
  function ReadUnquoted(s: string): (string, string) {
    match IndexOf(s, ",")
    case None => (s, [])
    case Some(i) => (s[..i], s[i + 1..])
  }

  /** Reads a line of the report's shape: a quoted URL, the unquoted status
      and risky fields, and a quoted chain that ends the line. */
  function ReadLine(line: string): Option<(string, string, string, string)> {
    match ParseQuotedField(line)
    case None => None
    case Some((url, rest)) =>
      if rest == [] || rest[0] != ',' then None
      else
        var (status, rest1) := ReadUnquoted(rest[1..]);
        var (risky, rest2) := ReadUnquoted(rest1);
        match ParseQuotedField(rest2)
        case None => None
        case Some((chain, tail)) => if tail == [] then Some((url, status, risky, chain)) else None
  }

  lemma ReadUnquotedField(f: string, rest: string)
    requires ',' !in f
    ensures ReadUnquoted(f + "," + rest) == (f, rest)
  {
    IndexOfAfterAbsent(f, ',', rest);
    assert (f + "," + rest)[..|f|] == f;
    assert (f + "," + rest)[|f| + 1..] == rest;
  }

  /** A reader gets back the URL and the chain of a record exactly, whatever
      quotes they hold, together with the unquoted columns, provided these
      hold no comma. */
  lemma RecordRoundTrip(url: string, status: string, risky: string, chain: string)
    requires ',' !in status && ',' !in risky
    ensures ReadLine(Record(url, status, risky, chain)) == Some((url, status, risky, chain))
  {
    var tail := Quoted(chain);
    var afterStatus := risky + "," + tail;
    var rest := "," + (status + "," + afterStatus);
    assert Record(url, status, risky, chain) == Quoted(url) + rest;
    QuotedRoundTrip(url, rest);
    assert rest[1..] == status + "," + afterStatus;
    ReadUnquotedField(status, afterStatus);
    ReadUnquotedField(risky, tail);
    assert tail == tail + [];
    QuotedRoundTrip(chain, []);
  }

  /** Each row's URL and chain read back exactly from its line, with its
      status and risk flag, provided the status label has no comma (the
      status column is not quoted). */
  lemma CsvLineRoundTrip(row: Row)
    requires CsvLine(row).Some?
    requires ',' !in StatusField(row.statusTag)
    ensures ReadLine(CsvLine(row).value) ==
      Some((row.url, StatusField(row.statusTag), RiskyField(row.statusTag), ChainSegment(row.details).value))
  {
    var risky := RiskyField(row.statusTag);
    RiskyHasNoSeparator(row.statusTag);
    RecordRoundTrip(row.url, StatusField(row.statusTag), risky, ChainSegment(row.details).value);
  }

  lemma RiskyHasNoSeparator(tag: string)
    ensures ',' !in RiskyField(tag) && '\n' !in RiskyField(tag)
  {
    assert "Yes" == ['Y', 'e', 's'] && "No" == ['N', 'o'];
  }

  /** Text without a newline keeps none after rule-7 quoting. */
  lemma {:induction false} DoubleQuotesKeepsAbsent(s: string, c: char)
    requires c !in s && c != Quote
    ensures c !in DoubleQuotes(s)
  {
    if s != [] {
      assert c !in s[1..];
      DoubleQuotesKeepsAbsent(s[1..], c);
    }
  }

  /** Removing the first match keeps only characters of the input. */
  lemma RemoveFirstMatchKeepsAbsent(s: string, alts: seq<string>, c: char)
    requires c !in s
    ensures c !in RemoveFirstMatch(s, alts)
  {
    match FirstMatch(s, alts, 0)
    case None =>
    case Some((i, k)) =>
      assert OccursAt(s, alts[k], i);
      SliceKeepsAbsent(s, c, 0, i);
      SliceKeepsAbsent(s, c, i + |alts[k]|, |s|);
  }

  /** The chain column holds only characters of the details. */
  lemma ChainKeepsAbsent(details: string, c: char)
    requires c !in details && c !in "None"
    requires ChainSegment(details).Some?
    ensures c !in ChainSegment(details).value
  {
    ChainSegmentSpec(details);
    if Contains(details, ChainSeparator) {
      var i := IndexOf(details, ChainSeparator).value;
      var v := ChainSegment(details).value;
      assert v == details[i + |ChainSeparator|..i + |ChainSeparator| + |v|];
      SliceKeepsAbsent(details, c, i + |ChainSeparator|, i + |ChainSeparator| + |v|);
    }
  }

  lemma RecordHasNoNewline(url: string, status: string, risky: string, chain: string)
    requires '\n' !in url && '\n' !in status && '\n' !in risky && '\n' !in chain
    ensures '\n' !in Record(url, status, risky, chain)
  {
    DoubleQuotesKeepsAbsent(url, '\n');
    DoubleQuotesKeepsAbsent(chain, '\n');
    assert '\n' !in Quoted(url) && '\n' !in Quoted(chain);
  }

  /** A row without a newline in its texts gives a single-line record. */
  lemma CsvLineHasNoNewline(row: Row)
    requires '\n' !in row.url && '\n' !in row.statusTag && '\n' !in row.details
    requires CsvLine(row).Some?
    ensures '\n' !in CsvLine(row).value
  {
    var stripped := RemoveFirstMatch(row.statusTag, StatusMarkers);
    RemoveFirstMatchKeepsAbsent(row.statusTag, StatusMarkers, '\n');
    TrimKeepsAbsent(stripped, '\n');
    assert "None" == ['N', 'o', 'n', 'e'];
    ChainKeepsAbsent(row.details, '\n');
    var risky := RiskyField(row.statusTag);
    RiskyHasNoSeparator(row.statusTag);
    RecordHasNoNewline(row.url, StatusField(row.statusTag), risky, ChainSegment(row.details).value);
  }

  /** When no row text holds a newline, splitting the report into lines gives
      the header and then one record per row, in row order. */
  lemma ExportLines(rows: seq<Row>)
    requires forall k :: 0 <= k < |rows| ==>
      '\n' !in rows[k].url && '\n' !in rows[k].statusTag && '\n' !in rows[k].details
    requires ExportCsv(rows).Some?
    ensures var lines := Split(ExportCsv(rows).value, "\n");
      |lines| == |rows| + 1 && lines[0] == Header &&
      forall k :: 0 <= k < |rows| ==> CsvLine(rows[k]) == Some(lines[k + 1])
  {
    var lines := AllSome(rows, CsvLine).value;
    AllSomeSpec(rows, CsvLine);
    forall k | 0 <= k < |lines| ensures '\n' !in lines[k] {
      CsvLineHasNoNewline(rows[k]);
    }
    HeaderHasNoNewline();
    HeaderAndLines(Header, lines);
  }

  lemma HeaderHasNoNewline()
    ensures '\n' !in Header
  {
    forall k | 0 <= k < |Header| ensures Header[k] != '\n' {
    }
  }

  /** Lines without newlines, joined with newlines, split back into the same
      lines. */
  lemma HeaderAndLines(header: string, lines: seq<string>)
    requires '\n' !in header && forall k :: 0 <= k < |lines| ==> '\n' !in lines[k]
    ensures Split(Join([header] + lines, "\n"), "\n") == [header] + lines
  {
    var all := [header] + lines;
    forall k | 0 <= k < |all| ensures '\n' !in all[k] {
      if k > 0 {
        assert all[k] == lines[k - 1];
      }
    }
    assert "\n" == ['\n'];
    SplitJoin(all, '\n');
  }

  /** The header alone when there are no rows. */
  lemma EmptyExport()
    ensures ExportCsv([]) == Some(Header)
  {
  }
}
