/**
  The world outside the crawler, as values: the network, the HTML parser,
  URL joining and parsing, and the regular-expression engine. Each is a
  deterministic oracle; nothing here performs I/O.
 */
module Web {
  import opened UrlRules

  datatype Option<T> = None | Some(value: T)
  {
    function GetOr(default: T): T
    {
      match this
      case Some(v) => v
      case None => default
    }
  }

  /** What a successful GET yields: the decoded body and the Server header, if any. */
  datatype Response = Response(text: string, serverHeader: Option<string>)

  datatype Env = Env(
    /** URLs whose GET succeeds; a URL outside the map is one whose GET raises. */
    web: map<string, Response>,
    /** href values of the anchor elements of a page body, in document order. */
    anchors: string -> seq<string>,
    /** Resolution of an href against the page URL. */
    join: (string, string) -> string,
    /** Scheme and network location of a URL. */
    parse: string -> ParsedUrl,
    /** Whether a pattern compiles as a regular expression. */
    compiles: string -> bool,
    /** All matches of a (compiling) pattern in a text, in order, duplicates kept. */
    findall: (string, string) -> seq<string>,
    /** Bodies of the HTML comments of a text, in order. */
    comments: string -> seq<string>
  )
}
