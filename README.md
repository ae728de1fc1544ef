# A verified model of the regex web crawler

`para.py` is a small security-reconnaissance crawler. It starts from a seed
URL and visits pages depth-first up to a configured depth. While it crawls it
records:

- every URL it visited, once each, in the order it visited them;
- for every page it fetched, a dictionary from each configured pattern that
  compiles and matches on the page to its match list;
- in advanced mode, the page's `Server` header and the bodies of its HTML
  comments.

This project models the crawler's core in Dafny and proves properties of the
model:

- the traversal in `Crawler.crawl`;
- link extraction in `extract_links`;
- pattern search in `search_regex` and the advanced information in
  `advanced_analysis`;
- pattern-file filtering in `load_regex_patterns`;
- the URL rule in `validate_url`.

Modules, one per concern:

- `UrlRules`: `validate_url` over an already-parsed (scheme, netloc) pair.
- `Web`: the world the crawler calls into, as one value `Env`. It holds:
  - the network, as a map from URL to response; a URL outside the map is one
    whose GET raises;
  - the HTML parser's anchor hrefs;
  - `urljoin` and `urlparse`;
  - the regular-expression engine: whether a pattern compiles, `findall`, and
    the comment-extracting expression.
- `PatternFile`: the `str.strip()` whitespace set and the line filter.
  `LoadRegexPatterns` is the loop, proved equal to the reference function
  `KeptLines`.
- `PageAnalysis`: reference definitions of what is recorded for one page.
  - `Findings` is `search_regex`'s dictionary.
  - `Links` is `extract_links`'s set.
  - `AdvancedAnalysis` is `advanced_analysis`.
  - `PageOf` is the dictionary stored under a URL.
  - Lemmas give the exact key set and values of each.
- `Discovery`: plain-value facts about a crawl:
  - duplicate-free sequences;
  - the discovery tree, meaning the depth of each URL and the page on which it
    was found;
  - every URL hangs below a root by a chain of links, one depth step per link.
- `CrawlInvariant`: the invariant of the crawler's state, over plain values.
  `VisitKeepsInvariant` proves that recording one new URL keeps it.
- `Crawling`: the `Crawler` class.
  - Like the Python object, it has the fields `visited`, `crawledUrls` and
    `results`, changed in place.
  - Ghost fields `depthOf`, `parent` and `roots` record the discovery tree.
  - The parent of a URL is the page its link was on.
  - `Crawl` is `crawl(url, depth)`. The ghost argument `via` names the page the
    URL was found on and is bookkeeping only.
  - `Crawl` is split into four methods, with the same effect as the single
    Python method:
    - `Crawl` holds the two early returns.
    - `Visit` records the URL, fetches it and stores its dictionary.
    - `FollowLinks` holds the loop over the page's links.
    - `CrawlLink` is one turn of that loop, the recursive call.
  - `CrawlFromSeed` is what `main` does with a fresh crawler:
    `crawler.crawl(base_url)`.

The `Crawler` invariant (`Valid`) states:

- `crawledUrls` has no duplicates, and its elements are exactly `visited`.
- `results` has an entry for exactly those visited URLs whose fetch succeeded.
  That entry is the page dictionary of the fetched response.
- Every visited URL was visited at a depth no greater than `max_depth`.
- Every non-root URL was found, one depth step down, among the links of a page
  that was fetched successfully below `max_depth`.
- The roots are the visited URLs that were not reached by a link.

## Behaviour the crawler does not have

- **No domain scoping.** `extract_links` keeps any joined URL with an
  http/https scheme and a non-empty network location (para.py:78). Nothing
  compares hosts with the seed, so links to other sites are followed.
- **Match lists are not deduplicated or sorted.** `findall`'s list is stored
  as returned (para.py:91-93).
- **Comment bodies are stored as returned.** They are not trimmed,
  deduplicated or sorted (para.py:107-109).
- **"Unknown" is stored.** A missing `Server` header is recorded as
  `"Unknown"` and not dropped (para.py:105).
- **The only output is the results dictionary and the crawl order**
  (para.py:141-146).
- **Not every URL within `max_depth` links of the seed is crawled.** A URL is
  crawled at the depth at which it is first reached, and a URL first
  reached deep down is skipped when a later link reaches it at a shallower
  depth (para.py:45-46). So the crawl does not visit everything within
  `max_depth` links of the seed. What the model proves instead is that every
  page fetched below the limit, at the depth it was first visited, has had
  all its links crawled.

One behaviour it does have is easy to miss: pattern keys and the `advanced`
key share one dictionary. A pattern spelled `advanced` that matches loses its
match list to the advanced entry in advanced mode (para.py:60-64). This is
proved as `PageAnalysis.AdvancedKeyShadowsPattern`.

## Model

| member | source | states |
|---|---|---|
| UrlRules.ValidateUrl | para.py:26-29 | definition, no contract: the parsed URL's scheme is "http" or "https" and its network location is non-empty |
| PatternFile.Strip | para.py:21 | definition, no contract: the line from its first non-whitespace character to just after its last one; its properties are the lemmas below |
| PatternFile.KeptLines | para.py:20-23 | definition, no contract: the file's lines stripped, in order, keeping those that are non-empty and do not start with '#'; its properties are the lemmas below |
| PatternFile.SkipSpaces | para.py:21 | the index found is the first non-whitespace character at or after the start (or the end), and everything skipped is whitespace in the sense of `str.isspace` |
| PatternFile.CutSpaces | para.py:21 | the end found is just after the last non-whitespace character (or the start), and everything cut is whitespace |
| PatternFile.StripEnds | para.py:21 | a stripped line is empty or has non-whitespace at both ends |
| PatternFile.StripPadded | para.py:21 | a stripped line is the slice of the line after its leading whitespace, and only whitespace follows it |
| PatternFile.StripIdempotent | para.py:21 | stripping a stripped line changes nothing |
| PatternFile.LoadRegexPatterns | para.py:16-24 | the loop returns exactly the kept stripped lines of the file, in file order |
| PatternFile.KeptLinesMembers | para.py:20-23 | a string is a pattern exactly when some line strips to it and it is non-empty and does not start with '#' |
| PatternFile.KeptLinesConcat | para.py:20-23 | filtering is line by line and keeps the order: the patterns of two concatenated files are the concatenation of their patterns |
| PatternFile.KeptLinesClean | para.py:21-23 | every pattern is non-empty, does not start with '#', and has no surrounding whitespace |
| PageAnalysis.Findings | para.py:84-94 | definition, no contract: for the configured patterns in order, each that compiles and whose findall list is non-empty is mapped to that list |
| PageAnalysis.LinksAmong | para.py:75-79 | definition, no contract: the joins of the page URL with the given hrefs that pass the URL rule |
| PageAnalysis.Links | para.py:73-80 | definition, no contract: the links among all anchor hrefs of the page |
| PageAnalysis.PageOf | para.py:60-64 | definition, no contract: the page's findings as match-list entries, plus the advanced entry under "advanced" in advanced mode |
| PageAnalysis.FindingsShape | para.py:84-94 | a pattern is a key exactly when it is configured, compiles and has a match; its value is findall's list as returned and is never empty |
| PageAnalysis.LinksAmongExactly | para.py:26-29 | a URL is a link exactly when it is the join of the page URL and one of its hrefs (the loop at para.py:73-80) and passes the URL rule: scheme "http" or "https" and a non-empty network location; no other filter, in particular no host check |
| PageAnalysis.LinksExactlyValid | para.py:75-79 | every link of a page passes the URL rule, and every href of the page whose join passes the rule gives a link |
| PageAnalysis.AdvancedAnalysis | para.py:96-110 | the server entry is the Server header or "Unknown"; the comment entry is present exactly when there are comments, and then holds all of them |
| PageAnalysis.PageShape | para.py:60-64 | a page's keys are its matching patterns plus "advanced" exactly in advanced mode; a pattern's value is its match list, never empty; "advanced" holds the advanced information |
| PageAnalysis.AdvancedKeyShadowsPattern | para.py:63-64 | a matching pattern spelled "advanced" has its match list stored in normal mode but is overwritten by the advanced entry in advanced mode |
| Crawling.Crawler.SearchRegex | para.py:82-94 | the loop builds exactly the reference dictionary of the configured patterns on the content |
| Crawling.Crawler.ExtractLinks | para.py:71-80 | the loop builds exactly the reference link set of the page |
| Crawling.Crawler.constructor | para.py:32-39 | the configuration is stored; the visited set, the crawl order and the results start empty; the invariant holds |
| Crawling.Crawler.Crawl | para.py:41-69 | keeps the invariant; a call too deep or on a visited URL changes nothing; otherwise the URL is appended right after the old crawl order, at this depth, with the page it was found on as its parent; a page at the limit, or one whose fetch failed, adds that URL and nothing else; a fetched page below the limit has had all its links visited, and so has every page the call fetched below the limit, at the depth it was visited (the crawl recurses); every other URL the call visits hangs below the URL (found on its page, or on the page of another URL the call visited); visited set, crawl order, result keys, depths and parents only grow; the only new root is the URL itself when it was not found on a page |
| Crawling.Crawler.Visit | para.py:48-64 | the URL is added to the visited set and appended to the crawl order; the results gain the page dictionary exactly when the fetch succeeds; the response is returned exactly when the fetch succeeds |
| Crawling.Crawler.FollowLinks | para.py:66-69 | every link of the page ends up visited, and every page the loop fetched below the limit has had its own links visited; every URL visited by the loop hangs below the page (found on it, or on the page of another URL the loop visited) and adds no root; nothing recorded before is lost |
| Crawling.Crawler.CrawlLink | para.py:68-69 | crawling one link of the page leaves the link visited and keeps everything recorded since the loop started; what it adds hangs below the page; every page fetched below the limit since the loop started has had its links visited |
| Crawling.CrawlFromSeed | para.py:137-138 | with a negative limit nothing is crawled; otherwise the seed is crawled first and is the only root, and every depth lies between 0 and the limit; with limit 0 only the seed is crawled; every visited page fetched below the limit, the seed first among them, has had all its links visited |
| CrawlInvariant.EmptyInvariant | para.py:35-38 | the empty state of a new crawler satisfies the invariant |
| CrawlInvariant.VisitKeepsInvariant | para.py:43-64 | recording a new URL within the depth limit keeps the invariant: it is appended to the order, gets its results entry on a successful fetch, its depth, and its parent when it was found on a page |
| CrawlInvariant.OrderMeaning | para.py:45-50 | the crawl order is as long as the visited set, holds exactly its URLs, and holds no URL twice |
| Discovery.DiscoveryPath | para.py:66-69 | every visited URL is reached from a root by a chain of link steps, one depth step each |
| Discovery.DepthIsLinkSteps | para.py:41-69 | when crawls start at depth 0, a URL's depth is never negative and equals the number of links between it and its root; depth 0 means it is a root |
| Discovery.OnlyRootAtDepthZero | para.py:67-69 | with a single root at depth 0 and no deeper URL, the root is the only visited URL |

## Left out

- Network I/O is not modelled: `requests.get`, its 10-second timeout and response decoding (para.py:53-54). A response is an oracle value. Any exception from the GET is modelled as the URL being absent from the network map.
- The HTML parser, `urljoin` and `urlparse` are not modelled (para.py:74-77, 28). They are oracle functions. Their own exceptions are not modelled, for example `urlparse` raising on a malformed IPv6 host.
- Regular-expression semantics are not modelled (para.py:87, 91, 107). Whether a pattern compiles, what `findall` returns, and the DOTALL comment expression are oracle functions.
- `findall`'s tuples for patterns with several groups are modelled as strings.
- The `Server` header's case-insensitive lookup is not modelled (para.py:105). It is part of the oracle response.
- `load_config`, YAML loading and dumping, file opening, `os.path.exists`, `sys.exit`, `print` and `main`'s configuration defaults and checks are not modelled (para.py:10-14, 112-148). They are I/O and process plumbing. `LoadRegexPatterns` takes the file as its sequence of lines.
- The iteration order of the link set is not modelled (para.py:68, 73). It is unordered in Python. The loop picks links in an unspecified order, and no contract promises a crawl order beyond the properties above.
- `Crawling.Crawler.Visit`: the source writes the page dictionary and then adds the `advanced` key in a second write to the stored dictionary (para.py:60-64). The model builds the same dictionary first and stores it once. The final state is the same.
- `Crawling.Crawler.Crawl`: the body's parts are split into `Crawl`, `Visit`, `FollowLinks` and `CrawlLink`. The order of effects is the source's.
- Exceptions raised after the fetch are not modelled. In the source they propagate out of `crawl`, because the `try` only guards the GET.
- Python's recursion limit is not modelled. Recursion is bounded by the depth limit.
