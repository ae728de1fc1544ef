/**
  URL well-formedness as the crawler checks it (validate_url). The library
  parser is not modelled: the rule is stated over the (scheme, netloc) pair
  that the parser produces.
 */
module UrlRules {

  /** The two parts of a parsed URL that the crawler looks at. */
  datatype ParsedUrl = ParsedUrl(scheme: string, netloc: string)

  /** A URL is fetchable when its scheme is http or https and it names a host. */
  predicate ValidateUrl(u: ParsedUrl)
  {
    u.scheme in ["http", "https"] && |u.netloc| > 0
  }
}
