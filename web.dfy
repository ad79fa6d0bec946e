/** The browser's URL parser (`new URL(text)` of the WHATWG URL Standard),
    which the link checker calls but does not implement. It enters the model
    as a parameter: a function from text to the parsed URL, or None where the
    constructor throws. */
module WebUrl {
  import opened JsStrings

  /** The one component of a parsed URL the checker reads. */
  datatype Url = Url(hostname: string)

  type UrlParser = string -> Option<Url>

  /** The URL Standard fails on `https://` with nothing after it, since a
      special scheme needs a non-empty host. */
  predicate RejectsEmptyHttpsHost(parse: UrlParser) {
    parse("https://").None?
  }
}
