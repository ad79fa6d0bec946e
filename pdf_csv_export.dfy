/** The CSV report of js/pdf-export.js (`exportCSV`), the variant that reads
    result cards: five columns, each value wrapped in double quotes with no
    escaping, a bare header row, cells joined by commas and rows by
    newlines. Unlike js/export.js it never throws: an undefined chain
    segment is written as the text "undefined".

    The icon pattern is a character class whose members are the UTF-8 bytes
    of the intended icons read as Windows-1251 text, so it removes the first
    of those characters (one character), and none of the icons themselves. */
module PdfCsvExport {
  import opened JsStrings
  import opened JsArrays
  import opened Rfc4180
  import opened CsvExport

  /** The text content of a result card's `.url`, `.status-tag`, `.details`
      and `.timestamp` elements. */
  datatype Card = Card(url: string, statusTag: string, details: string, timestamp: string)

  /** The members of the character class `/[вњ…рџ”ЃвќЊрџ•’вљ пёЏ]/`. */
  const IconClass: set<char> := {
    '\U{0432}', '\U{045A}', '\U{2026}', '\U{0440}', '\U{045F}', '\U{201D}', '\U{0403}', '\U{045C}',
    '\U{040A}', '\U{2022}', '\U{2019}', '\U{0459}', '\U{00A0}', '\U{043F}', '\U{0451}', '\U{040F}'
  }

  const PdfHeader: seq<string> := ["URL", "Status", "Risky", "Redirect Chain", "Timestamp"]
  const ScannedPrefix := "Scanned: "
  const Undefined := "undefined"

  /** The first position of `s` holding a member of `cls`. */
  function FirstIn(s: string, cls: set<char>): (r: Option<nat>)
    ensures r.Some? ==> r.value < |s| && s[r.value] in cls
    ensures forall j :: 0 <= j < (if r.Some? then r.value else |s|) ==> s[j] !in cls
  {
    if s == [] then None
    else if s[0] in cls then Some(0)
    else match FirstIn(s[1..], cls)
      case None => None
      case Some(i) => Some(i + 1)
  }

  /** `s.replace(/[...]/, '')`: the first member of the class removed. */
  function RemoveFirstIn(s: string, cls: set<char>): string {
    match FirstIn(s, cls)
    case None => s
    case Some(i) => s[..i] + s[i + 1..]
  }

  /** A character class is the alternation of its one-character members:
      removing the first member matches what the alternation regular
      expression removes. */
  lemma ClassIsAlternation(s: string, chars: seq<char>)
    ensures RemoveFirstIn(s, set c | c in chars) == RemoveFirstMatch(s, Map(chars, Single))
  {
    var cls := set c | c in chars;
    assert forall c :: c in cls <==> c in chars;
    match FirstIn(s, cls)
    case None =>
      NoMemberNoMatch(s, chars, cls);
    case Some(i) =>
      FirstMemberFirstMatch(s, chars, cls, i);
  }

  lemma NoMemberNoMatch(s: string, chars: seq<char>, cls: set<char>)
    requires forall c :: c in chars ==> c in cls
    requires FirstIn(s, cls).None?
    ensures RemoveFirstMatch(s, Map(chars, Single)) == s
  {
    var alts := Map(chars, Single);
    forall i, k | 0 <= i <= |s| && 0 <= k < |alts| ensures !OccursAt(s, alts[k], i) {
      SingleOccursAt(s, chars[k], i);
    }
    NoMatchSpec(s, alts);
  }

  lemma FirstMemberFirstMatch(s: string, chars: seq<char>, cls: set<char>, i: nat)
    requires forall c :: c in cls <==> c in chars
    requires FirstIn(s, cls) == Some(i)
    ensures RemoveFirstMatch(s, Map(chars, Single)) == s[..i] + s[i + 1..]
  {
    var alts := Map(chars, Single);
    var k := FirstIndex(chars, s[i]);
    SingleOccursAt(s, chars[k], i);
    NoSingleBefore(s, chars, cls, i);
    NoEarlierSingleAt(s, chars, i, k);
    FirstMatchSpec(s, alts, i, k);
  }

  /** Before the first member of the class no alternative matches. */
  lemma NoSingleBefore(s: string, chars: seq<char>, cls: set<char>, i: nat)
    requires forall c :: c in chars ==> c in cls
    requires i <= |s| && forall j :: 0 <= j < i ==> s[j] !in cls
    ensures var alts := Map(chars, Single);
      forall j, m :: 0 <= j < i && 0 <= m < |alts| ==> !OccursAt(s, alts[m], j)
  {
    var alts := Map(chars, Single);
    forall j, m | 0 <= j < i && 0 <= m < |alts| ensures !OccursAt(s, alts[m], j) {
      SingleOccursAt(s, chars[m], j);
    }
  }

  /** At the first member, no alternative listed before its own matches. */
  lemma NoEarlierSingleAt(s: string, chars: seq<char>, i: nat, k: nat)
    requires i < |s| && k < |chars| && forall m :: 0 <= m < k ==> chars[m] != s[i]
    ensures var alts := Map(chars, Single);
      forall m :: 0 <= m < k ==> !OccursAt(s, alts[m], i)
  {
    var alts := Map(chars, Single);
    forall m | 0 <= m < k ensures !OccursAt(s, alts[m], i) {
      SingleOccursAt(s, chars[m], i);
    }
  }

  /** A one-character pattern occurs where its character stands. */
  lemma SingleOccursAt(s: string, c: char, j: nat)
    ensures OccursAt(s, Single(c), j) <==> j < |s| && s[j] == c
  {
    if j < |s| {
      assert s[j..j + 1] == [s[j]];
    }
  }

  function Single(c: char): string {
    [c]
  }

  /** The first position of `c` in `chars`. */
  function FirstIndex(chars: seq<char>, c: char): (k: nat)
    requires c in chars
    ensures k < |chars| && chars[k] == c && forall m :: 0 <= m < k ==> chars[m] != c
  {
    if chars[0] == c then 0 else 1 + FirstIndex(chars[1..], c)
  }

  /** None of the status icons the page shows is a member of the class, so
      a status label keeps its icon unless a member of the class comes first;
      the no-break space, however, is a member. */
  lemma IconsAreNotInClass()
    ensures '\U{2705}' !in IconClass && '\U{274C}' !in IconClass && '\U{26A0}' !in IconClass
    ensures '\U{1F501}' !in IconClass && '\U{1F552}' !in IconClass && '\U{2714}' !in IconClass
    ensures '\U{00A0}' in IconClass
  {
  }

  /** The class pattern removes at most one character: exactly one when
      some character of the text is a member, the first such, and none
      otherwise. */
  lemma RemoveFirstInSpec(s: string, cls: set<char>)
    ensures var r := RemoveFirstIn(s, cls);
      (|r| == |s| - 1 <==> exists j :: 0 <= j < |s| && s[j] in cls) &&
      (|r| == |s| <==> forall j :: 0 <= j < |s| ==> s[j] !in cls) &&
      (|r| == |s| ==> r == s)
  {
    match FirstIn(s, cls)
    case None =>
    case Some(i) =>
      assert s[i] in cls;
  }

  /** A label without a member of the class is only trimmed. */
  lemma StatusWithoutClassMember(tag: string)
    requires forall j :: 0 <= j < |tag| ==> tag[j] !in IconClass
    ensures StatusText(tag) == Trim(tag)
  {
    assert FirstIn(tag, IconClass).None?;
  }

  /** The status cell's text: the first member of the class removed, then trimmed. */
  function StatusText(tag: string): string {
    Trim(RemoveFirstIn(tag, IconClass))
  }

  /** The chain cell's text: `undefined` prints as "undefined". */
  function ChainText(details: string): string {
    match ChainSegment(details)
    case None => Undefined
    case Some(v) => v
  }

  /** The chain cell reads "undefined" for a malformed mention, "None" when
      the chain is not mentioned, and the segment after the separator
      otherwise. */
  lemma ChainTextSpec(details: string)
    ensures MalformedChain(details) ==> ChainText(details) == Undefined
    ensures !Contains(details, ChainMention) ==> ChainText(details) == "None"
    ensures Contains(details, ChainSeparator) ==> Some(ChainText(details)) == ChainSegment(details)
  {
    ChainSegmentSpec(details);
  }

  /** The timestamp cell's text: the first "Scanned: " removed. */
  function TimestampText(timestamp: string): string {
    RemoveFirst(timestamp, ScannedPrefix)
  }

  /** A timestamp rendered as "Scanned: " followed by a time gives the time. */
  lemma TimestampStripsPrefix(time: string)
    ensures TimestampText(ScannedPrefix + time) == time
  {
    var s := ScannedPrefix + time;
    assert OccursAt(s, ScannedPrefix, 0);
    assert s[|ScannedPrefix|..] == time;
  }

  /** A value between double quotes, as the template literal writes it. */
  function Wrap(s: string): string {
    [Quote] + s + [Quote]
  }

  /** The five values of a card's row, before wrapping. */
  function CardTexts(card: Card): seq<string> {
    [card.url, StatusText(card.statusTag), RiskyField(card.statusTag),
     ChainText(card.details), TimestampText(card.timestamp)]
  }

  /** The five cells of a card. */
  function CardCells(card: Card): seq<string> {
    Map(CardTexts(card), Wrap)
  }

  function CommaJoin(cells: seq<string>): string {
    Join(cells, ",")
  }

  /** `exportCSV`: the header row and the cards' rows, cells joined by commas
      and rows by newlines. */
  function PdfExportCsv(cards: seq<Card>): string {
    Join(Map([PdfHeader] + Map(cards, CardCells), CommaJoin), "\n")
  }

  /** The URL cell reads back as the card's URL, leaving the rest of the
      row, exactly when the URL holds no double quote: the value is not
      escaped, so a quote in it ends the field early. */
  lemma UrlCellRoundTripIff(card: Card)
    ensures var line := CommaJoin(CardCells(card));
      |line| >= |card.url| + 2 &&
      (ParseQuotedField(line) == Some((card.url, line[|card.url| + 2..])) <==> Quote !in card.url)
  {
    assert CardTexts(card)[0] == card.url;
    FirstWrappedCell(CardCells(card), card.url);
  }

  lemma FirstWrappedCell(cells: seq<string>, url: string)
    requires |cells| > 1 && cells[0] == Wrap(url)
    ensures var line := CommaJoin(cells);
      |line| >= |url| + 2 &&
      (ParseQuotedField(line) == Some((url, line[|url| + 2..])) <==> Quote !in url)
  {
    var line := CommaJoin(cells);
    var after := "," + CommaJoin(cells[1..]);
    assert line == Wrap(url) + after;
    assert line[|url| + 2..] == after;
    WrappedRoundTripIff(url, after);
  }

  /** A value wrapped in quotes without escaping reads back, followed by what
      came after it, exactly when it holds no quote. */
  lemma WrappedRoundTripIff(s: string, after: string)
    requires after == [] || after[0] != Quote
    ensures ParseQuotedField(Wrap(s) + after) == Some((s, after)) <==> Quote !in s
  {
    assert Wrap(s) + after == [Quote] + (s + [Quote] + after);
    if Quote in s {
      UndoubledQuoteBreaksField(s, after);
    } else {
      NoQuoteNoDoubling(s);
      DoubledFieldRoundTrip(s, after);
    }
  }

  /** Reads a row of quoted cells separated by commas: the cells' texts, or
      None when the row is not of that shape. */
  function ReadCells(line: string): Option<seq<string>>
    decreases |line|
  {
    match ParseQuotedField(line)
    case None => None
    case Some(p) =>
      FieldShrinks(line);
      if p.1 == [] then Some([p.0])
      else if p.1[0] != ',' then None
      else match ReadCells(p.1[1..])
        case None => None
        case Some(cells) => Some([p.0] + cells)
  }

  /** Reading a quoted field consumes at least its two quotes. */
  lemma FieldShrinks(line: string)
    requires ParseQuotedField(line).Some?
    ensures |ParseQuotedField(line).value.1| < |line|
  {
    BodyLength(line[1..]);
  }

  /** Texts without double quotes, wrapped and joined by commas, read back
      as the same texts. */
  lemma {:induction false} WrappedCellsRoundTrip(texts: seq<string>)
    requires texts != [] && forall k :: 0 <= k < |texts| ==> Quote !in texts[k]
    ensures ReadCells(CommaJoin(Map(texts, Wrap))) == Some(texts)
    decreases |texts|
  {
    var cells := Map(texts, Wrap);
    if |texts| == 1 {
      assert CommaJoin(cells) == Wrap(texts[0]) + [];
      WrappedRoundTripIff(texts[0], []);
      assert texts == [texts[0]];
    } else {
      var rest := CommaJoin(Map(texts[1..], Wrap));
      assert cells[1..] == Map(texts[1..], Wrap);
      assert CommaJoin(cells) == Wrap(texts[0]) + ("," + rest);
      WrappedRoundTripIff(texts[0], "," + rest);
      assert ("," + rest)[1..] == rest;
      WrappedCellsRoundTrip(texts[1..]);
      assert [texts[0]] + texts[1..] == texts;
    }
  }

  /** A card whose texts hold no double quote gives a row that reads back,
      cell by cell, as its five values: the URL, the status without its first
      class member and trimmed, the risk flag, the chain text and the time. */
  lemma CardRowRoundTrip(card: Card)
    requires Quote !in card.url && Quote !in card.statusTag
    requires Quote !in card.details && Quote !in card.timestamp
    ensures ReadCells(CommaJoin(CardCells(card))) ==
      Some([card.url, StatusText(card.statusTag), RiskyField(card.statusTag),
            ChainText(card.details), TimestampText(card.timestamp)])
  {
    LiteralsHaveNoQuote();
    StatusTextKeepsAbsent(card.statusTag, Quote);
    ChainTextKeepsAbsent(card.details, Quote);
    RemoveFirstKeepsAbsent(card.timestamp, ScannedPrefix, Quote);
    FiveCellsRoundTrip(card.url, StatusText(card.statusTag), RiskyField(card.statusTag),
      ChainText(card.details), TimestampText(card.timestamp));
  }

  lemma FiveCellsRoundTrip(a: string, b: string, c: string, d: string, e: string)
    requires Quote !in a && Quote !in b && Quote !in c && Quote !in d && Quote !in e
    ensures ReadCells(CommaJoin(Map([a, b, c, d, e], Wrap))) == Some([a, b, c, d, e])
  {
    var texts := [a, b, c, d, e];
    forall k | 0 <= k < |texts| ensures Quote !in texts[k] {
    }
    WrappedCellsRoundTrip(texts);
  }

  lemma LiteralsHaveNoQuote()
    ensures Quote !in "Yes" && Quote !in "No" && Quote !in "None" && Quote !in Undefined
  {
    assert "Yes" == ['Y', 'e', 's'] && "No" == ['N', 'o'] && "None" == ['N', 'o', 'n', 'e'];
    assert Undefined == ['u', 'n', 'd', 'e', 'f', 'i', 'n', 'e', 'd'];
  }

  /** Splitting the report on newlines gives the header row and then one row
      per card, in card order, when no card text holds a newline. */
  lemma PdfExportLines(cards: seq<Card>)
    requires forall k :: 0 <= k < |cards| ==>
      '\n' !in cards[k].url && '\n' !in cards[k].statusTag &&
      '\n' !in cards[k].details && '\n' !in cards[k].timestamp
    ensures var lines := Split(PdfExportCsv(cards), "\n");
      |lines| == |cards| + 1 && lines[0] == "URL,Status,Risky,Redirect Chain,Timestamp" &&
      forall k :: 0 <= k < |cards| ==> lines[k + 1] == CommaJoin(CardCells(cards[k]))
  {
    var rows := Map(cards, CardCells);
    var lines := Map(rows, CommaJoin);
    assert Map([PdfHeader] + rows, CommaJoin) == [CommaJoin(PdfHeader)] + lines;
    PdfHeaderLine();
    PdfHeaderText();
    forall k | 0 <= k < |lines| ensures '\n' !in lines[k] {
      CardRowHasNoNewline(cards[k]);
    }
    HeaderAndLines(CommaJoin(PdfHeader), lines);
  }

  lemma PdfHeaderLine()
    ensures '\n' !in CommaJoin(PdfHeader)
  {
    forall k | 0 <= k < |PdfHeader| ensures '\n' !in PdfHeader[k] {
      var h := PdfHeader[k];
      forall j | 0 <= j < |h| ensures h[j] != '\n' {
      }
    }
    CellsHaveNoNewline(PdfHeader);
  }

  /** The header row as the file holds it. */
  lemma PdfHeaderText()
    ensures CommaJoin(PdfHeader) == "URL,Status,Risky,Redirect Chain,Timestamp"
  {
    assert PdfHeader == ["URL"] + ["Status", "Risky", "Redirect Chain", "Timestamp"];
    assert PdfHeader[1..] == ["Status"] + ["Risky", "Redirect Chain", "Timestamp"];
    assert PdfHeader[2..] == ["Risky"] + ["Redirect Chain", "Timestamp"];
    assert PdfHeader[3..] == ["Redirect Chain"] + ["Timestamp"];
    HeaderWordsWithComma();
    JoinCons("Redirect Chain", ["Timestamp"], ",");
    HeaderFromChain();
    JoinCons("Risky", PdfHeader[3..], ",");
    HeaderFromRisky();
    JoinCons("Status", PdfHeader[2..], ",");
    HeaderFromStatus();
    JoinCons("URL", PdfHeader[1..], ",");
    HeaderFromUrl();
  }

  /* The literal steps of `PdfHeaderText`, one concatenation of two texts
     each: longer literals make the solver's work grow quickly. */

  lemma HeaderWordsWithComma()
    ensures "URL" + "," == "URL," && "Status" + "," == "Status,"
    ensures "Risky" + "," == "Risky," && "Redirect Chain" + "," == "Redirect Chain,"
  {
  }

  lemma HeaderFromChain()
    ensures "Redirect Chain," + "Timestamp" == "Redirect Chain,Timestamp"
  {
  }

  lemma HeaderFromRisky()
    ensures "Risky," + "Redirect Chain,Timestamp" == "Risky,Redirect Chain,Timestamp"
  {
  }

  lemma HeaderFromStatus()
    ensures "Status," + "Risky,Redirect Chain,Timestamp" == "Status,Risky,Redirect Chain,Timestamp"
  {
  }

  lemma HeaderFromUrl()
    ensures "URL," + "Status,Risky,Redirect Chain,Timestamp" == "URL,Status,Risky,Redirect Chain,Timestamp"
  {
  }

  lemma CardRowHasNoNewline(card: Card)
    requires '\n' !in card.url && '\n' !in card.statusTag
    requires '\n' !in card.details && '\n' !in card.timestamp
    ensures '\n' !in CommaJoin(CardCells(card))
  {
    var status, risky := StatusText(card.statusTag), RiskyField(card.statusTag);
    var chain, time := ChainText(card.details), TimestampText(card.timestamp);
    NewlineNotInWords();
    StatusTextKeepsAbsent(card.statusTag, '\n');
    RiskyHasNoSeparator(card.statusTag);
    ChainTextKeepsAbsent(card.details, '\n');
    RemoveFirstKeepsAbsent(card.timestamp, ScannedPrefix, '\n');
    FiveTextsHaveNoNewline(card.url, status, risky, chain, time);
  }

  lemma FiveTextsHaveNoNewline(a: string, b: string, c: string, d: string, e: string)
    requires '\n' !in a && '\n' !in b && '\n' !in c && '\n' !in d && '\n' !in e
    ensures '\n' !in CommaJoin(Map([a, b, c, d, e], Wrap))
  {
    var texts := [a, b, c, d, e];
    forall k | 0 <= k < |texts| ensures '\n' !in texts[k] {
    }
    WrappedHaveNoNewline(texts);
  }

  lemma WrappedHaveNoNewline(texts: seq<string>)
    requires forall k :: 0 <= k < |texts| ==> '\n' !in texts[k]
    ensures '\n' !in CommaJoin(Map(texts, Wrap))
  {
    var cells := Map(texts, Wrap);
    forall k | 0 <= k < |cells| ensures '\n' !in cells[k] {
      assert cells[k] == [Quote] + texts[k] + [Quote];
    }
    CellsHaveNoNewline(cells);
  }

  lemma StatusTextKeepsAbsent(tag: string, c: char)
    requires c !in tag
    ensures c !in StatusText(tag)
  {
    RemoveFirstInKeepsAbsent(tag, IconClass, c);
    TrimKeepsAbsent(RemoveFirstIn(tag, IconClass), c);
  }

  /** The chain text holds only characters of the details or of its two
      fixed words. */
  lemma ChainTextKeepsAbsent(details: string, c: char)
    requires c !in details && c !in "None" && c !in Undefined
    ensures c !in ChainText(details)
  {
    if ChainSegment(details).Some? {
      ChainKeepsAbsent(details, c);
    }
  }

  lemma NewlineNotInWords()
    ensures '\n' !in "None" && '\n' !in Undefined
  {
    assert "None" == ['N', 'o', 'n', 'e'];
    assert Undefined == ['u', 'n', 'd', 'e', 'f', 'i', 'n', 'e', 'd'];
  }

  lemma RemoveFirstInKeepsAbsent(s: string, cls: set<char>, c: char)
    requires c !in s
    ensures c !in RemoveFirstIn(s, cls)
  {
    if FirstIn(s, cls).Some? {
      var i := FirstIn(s, cls).value;
      SliceKeepsAbsent(s, c, 0, i);
      SliceKeepsAbsent(s, c, i + 1, |s|);
    }
  }

  lemma RemoveFirstKeepsAbsent(s: string, p: string, c: char)
    requires c !in s
    ensures c !in RemoveFirst(s, p)
  {
    if IndexOf(s, p).Some? {
      var i := IndexOf(s, p).value;
      SliceKeepsAbsent(s, c, 0, i);
      SliceKeepsAbsent(s, c, i + |p|, |s|);
    }
  }

  /** Wrapped cells without newlines joined by commas hold no newline. */
  lemma {:induction false} CellsHaveNoNewline(cells: seq<string>)
    requires forall k :: 0 <= k < |cells| ==> '\n' !in cells[k]
    ensures '\n' !in CommaJoin(cells)
  {
    if |cells| > 1 {
      CellsHaveNoNewline(cells[1..]);
    }
  }
}
