/** Quoted fields of a CSV record as section 2 of RFC 4180 defines them:
    a field may be enclosed in double quotes, and a double quote inside such
    a field is written as two double quotes (rule 7). `ParseQuotedBody` is
    the reader side, used to state what a writer's output means. */
module Rfc4180 {
  import opened JsStrings

  const Quote: char := '"'

  /** The number of double quotes in `s`. */
  function QuoteCount(s: string): nat {
    if s == [] then 0 else (if s[0] == Quote then 1 else 0) + QuoteCount(s[1..])
  }

  /** `s.replace(/"/g, '""')`: every double quote doubled. */
  function DoubleQuotes(s: string): (r: string)
    ensures |r| == |s| + QuoteCount(s)
  {
    if s == [] then []
    else if s[0] == Quote then [Quote, Quote] + DoubleQuotes(s[1..])
    else [s[0]] + DoubleQuotes(s[1..])
  }

  /** Reads the inside of a quoted field, the opening quote already consumed:
      `""` stands for one quote, a lone quote closes the field. Yields the
      field's text and what follows the closing quote; None when no closing
      quote is found. */
  function ParseQuotedBody(t: string): Option<(string, string)> {
    if t == [] then None
    else if t[0] == Quote then
      (if |t| > 1 && t[1] == Quote then
         match ParseQuotedBody(t[2..])
         case None => None
         case Some(p) => Some(([Quote] + p.0, p.1))
       else Some(([], t[1..])))
    else
      match ParseQuotedBody(t[1..])
      case None => None
      case Some(p) => Some(([t[0]] + p.0, p.1))
  }

  /** Reads a field that starts with a double quote. */
  function ParseQuotedField(t: string): Option<(string, string)> {
    if t != [] && t[0] == Quote then ParseQuotedBody(t[1..]) else None
  }

  /** Rule 7 round trip: a field written as `"` + doubled text + `"` reads back
      as the original text, leaving exactly what followed it, provided what
      follows does not itself start with a quote. */
  lemma {:induction false} DoubledFieldRoundTrip(s: string, rest: string)
    requires rest == [] || rest[0] != Quote
    ensures ParseQuotedBody(DoubleQuotes(s) + [Quote] + rest) == Some((s, rest))
  {
    var t := DoubleQuotes(s) + [Quote] + rest;
    if s == [] {
      assert t == [Quote] + rest;
    } else if s[0] == Quote {
      assert t == [Quote, Quote] + (DoubleQuotes(s[1..]) + [Quote] + rest);
      DoubledFieldRoundTrip(s[1..], rest);
      assert [Quote] + s[1..] == s;
    } else {
      assert t == [s[0]] + (DoubleQuotes(s[1..]) + [Quote] + rest);
      DoubledFieldRoundTrip(s[1..], rest);
      assert [s[0]] + s[1..] == s;
    }
  }

  /** What the reader consumes: one input character per plain character of
      the field, two per quote, and one for the closing quote. */
  lemma {:induction false} BodyLength(t: string)
    ensures ParseQuotedBody(t).Some? ==>
      var p := ParseQuotedBody(t).value;
      |t| == |p.0| + QuoteCount(p.0) + 1 + |p.1|
  {
    if t == [] {
    } else if t[0] == Quote {
      if |t| > 1 && t[1] == Quote {
        BodyLength(t[2..]);
        if ParseQuotedBody(t[2..]).Some? {
          var p := ParseQuotedBody(t[2..]).value;
          assert ([Quote] + p.0)[1..] == p.0;
        }
      }
    } else {
      BodyLength(t[1..]);
      if ParseQuotedBody(t[1..]).Some? {
        var p := ParseQuotedBody(t[1..]).value;
        assert ([t[0]] + p.0)[1..] == p.0;
      }
    }
  }

  /** A quote inside a field that is wrapped in quotes without doubling
      breaks the field: a reader never gets the original text back followed
      by what came after it. */
  lemma UndoubledQuoteBreaksField(s: string, rest: string)
    requires Quote in s
    ensures ParseQuotedBody(s + [Quote] + rest) != Some((s, rest))
  {
    var t := s + [Quote] + rest;
    BodyLength(t);
    QuoteInCount(s);
  }

  lemma {:induction false} QuoteInCount(s: string)
    requires Quote in s
    ensures QuoteCount(s) > 0
  {
    if s[0] != Quote {
      assert Quote in s[1..];
      QuoteInCount(s[1..]);
    }
  }

  /** Text without quotes needs no doubling. */
  lemma {:induction false} NoQuoteNoDoubling(s: string)
    requires Quote !in s
    ensures DoubleQuotes(s) == s
  {
    if s != [] {
      assert s[0] != Quote;
      assert Quote !in s[1..];
      NoQuoteNoDoubling(s[1..]);
    }
  }
}
