/**
  The crawler object (class Crawler): a depth-limited, depth-first descent
  from a seed URL that records every visited URL once, in visit order, and
  stores a page dictionary for every URL whose fetch succeeded.
 */
module Crawling {
  import opened UrlRules
  import opened Web
  import opened PageAnalysis
  import opened Discovery
  import opened CrawlInvariant

  class Crawler {
    const baseUrl: string
    const maxDepth: int
    const regexPatterns: seq<string>
    const advanced: bool
    /** The network and the libraries the crawler calls. */
    const env: Env

    var visited: set<string>
    var crawledUrls: seq<string>
    var results: map<string, map<string, Entry>>

    /** Depth at which each visited URL was visited. */
    ghost var depthOf: map<string, int>
    /** For each URL reached by following a link: the page that link was on. */
    ghost var parent: map<string, string>
    /** Visited URLs that were not reached through a link: where crawls were started. */
    ghost var roots: set<string>

    ghost predicate Valid()
      reads this
    {
      Invariant(env, regexPatterns, advanced, maxDepth, visited, crawledUrls, results, depthOf, parent, roots)
    }

    /** Every URL of s fetched below the depth limit has had all its links crawled. */
    ghost predicate LinksFollowed(s: set<string>)
      reads this
    {
      Followed(env, maxDepth, s, visited, depthOf)
    }

    constructor (baseUrl: string, maxDepth: int, regexPatterns: seq<string>, advanced: bool, env: Env)
      ensures Valid()
      ensures this.baseUrl == baseUrl && this.maxDepth == maxDepth
      ensures this.regexPatterns == regexPatterns && this.advanced == advanced && this.env == env
      ensures visited == {} && crawledUrls == [] && results == map[]
      ensures depthOf == map[] && parent == map[] && roots == {}
    {
      this.baseUrl := baseUrl;
      this.maxDepth := maxDepth;
      this.regexPatterns := regexPatterns;
      this.advanced := advanced;
      this.env := env;
      visited := {};
      crawledUrls := [];
      results := map[];
      depthOf := map[];
      parent := map[];
      roots := {};
      EmptyInvariant(env, regexPatterns, advanced, maxDepth);
    }

    /**
      crawl(url, depth). The ghost argument via names the page on which url
      was found (None for a crawl started from outside).
     */
    method Crawl(url: string, depth: int, ghost via: Option<string>)
      requires Valid()
      requires via.Some? ==> && via.value in visited && via.value in env.web
                             && depthOf[via.value] + 1 == depth
                             && url in Links(env, via.value, env.web[via.value].text)
      modifies this
      decreases maxDepth - depth, 2
      ensures Valid()
      // too deep, or seen before: nothing changes
      ensures depth > maxDepth || url in old(visited) ==> unchanged(this)
      // otherwise url is appended right after what was there, at this depth
      ensures depth <= maxDepth && url !in old(visited)
              ==> && |crawledUrls| > |old(crawledUrls)| && crawledUrls[|old(crawledUrls)|] == url
                  && url in visited && url in depthOf && depthOf[url] == depth
      // found on the page via names, if any
      ensures depth <= maxDepth && url !in old(visited) && via.Some? ==> url in parent && parent[url] == via.value
      // a page at the limit, or one whose fetch failed, adds url and nothing else
      ensures depth <= maxDepth && url !in old(visited) && (depth == maxDepth || url !in env.web)
              ==> crawledUrls == old(crawledUrls) + [url] && visited == old(visited) + {url}
      // every other URL visited by the call hangs below url
      ensures Descends(url, visited - old(visited) - {url}, parent)
      // and a fetched page below the limit has had every one of its links crawled
      ensures depth < maxDepth && url !in old(visited) && url in env.web ==> Links(env, url, env.web[url].text) <= visited
      // and so has every page the call fetched below the limit: the crawl recurses
      ensures LinksFollowed(visited - old(visited))
      // entries are only ever added, and never changed
      ensures old(crawledUrls) <= crawledUrls
      ensures old(visited) <= visited
      ensures old(results).Keys <= results.Keys
      ensures Keeps(old(depthOf), depthOf) && Keeps(old(parent), parent)
      // every URL newly visited was reached through a link, except url itself when via is None
      ensures roots == old(roots) + (if depth <= maxDepth && url !in old(visited) && via.None? then {url} else {})
    {
      if depth > maxDepth {
        return;
      }
      if url in visited {
        return;
      }
      var fetched := Visit(url, depth, via);
      KeepsAdd(old(depthOf), url, depth);
      if via.Some? {
        KeepsAdd(old(parent), url, via.value);
      }
      if fetched.None? {
        // the GET raised: no entry, and no link of this page is followed
        return;
      }
      if depth < maxDepth {
        ghost var visited1, depthOf1, parent1 := visited, depthOf, parent;
        FollowLinks(url, depth, fetched.value.text);
        KeepsTrans(old(depthOf), depthOf1, depthOf);
        KeepsTrans(old(parent), parent1, parent);
        FollowedUnion(env, maxDepth, {url}, visited - visited1, visited, depthOf, visited, depthOf);
        AddedAfter(old(visited), visited1, visited, url);
      }
    }

    /**
      The tail of crawl(url, depth) for a fetched page below the depth limit:
      crawl every link of the page at the next depth, in some order.
     */
    method FollowLinks(url: string, depth: int, content: string)
      requires Valid()
      requires url in visited && url in env.web && content == env.web[url].text
      requires url in depthOf && depthOf[url] == depth && depth < maxDepth
      modifies this
      decreases maxDepth - depth, 1
      ensures Valid()
      ensures old(crawledUrls) <= crawledUrls
      ensures old(visited) <= visited
      ensures old(results).Keys <= results.Keys
      ensures Keeps(old(depthOf), depthOf) && Keeps(old(parent), parent)
      // every link of the page has been crawled, and every URL visited here was reached through a link
      ensures Links(env, url, content) <= visited
      ensures roots == old(roots)
      // and hangs below this page, and has had its own links crawled when fetched below the limit
      ensures Descends(url, visited - old(visited), parent)
      ensures LinksFollowed(visited - old(visited))
    {
      ghost var visited0, crawled0, results0, depthOf0, parent0 := visited, crawledUrls, results, depthOf, parent;
      var links := ExtractLinks(url, content);
      while links != {}
        invariant Valid()
        invariant links <= Links(env, url, content)
        invariant Links(env, url, content) - links <= visited
        invariant url in depthOf && depthOf[url] == depth
        invariant Grown(visited0, crawled0, results0, depthOf0, parent0)
        invariant roots == old(roots)
        invariant Descends(url, visited - visited0, parent)
        invariant LinksFollowed(visited - visited0)
        decreases links
      {
        var link :| link in links;
        links := links - {link};
        CrawlLink(url, depth, content, link, visited0, crawled0, results0, depthOf0, parent0);
      }
    }

    /** The state has only grown since the one given: entries are added, never removed or changed. */
    ghost predicate Grown(visited0: set<string>, crawled0: seq<string>, results0: map<string, map<string, Entry>>,
                          depthOf0: map<string, int>, parent0: map<string, string>)
      reads this
    {
      && crawled0 <= crawledUrls
      && visited0 <= visited
      && results0.Keys <= results.Keys
      && Keeps(depthOf0, depthOf) && Keeps(parent0, parent)
    }

    /**
      One turn of the loop over the links of url's page: crawl(link, depth + 1).
      The ghost arguments are the state when the loop started.
     */
    method CrawlLink(url: string, depth: int, content: string, link: string,
                     ghost visited0: set<string>, ghost crawled0: seq<string>,
                     ghost results0: map<string, map<string, Entry>>,
                     ghost depthOf0: map<string, int>, ghost parent0: map<string, string>)
      requires Valid()
      requires url in visited && url in env.web && content == env.web[url].text
      requires url in depthOf && depthOf[url] == depth && depth < maxDepth
      requires link in Links(env, url, content)
      requires Grown(visited0, crawled0, results0, depthOf0, parent0)
      requires Descends(url, visited - visited0, parent)
      requires LinksFollowed(visited - visited0)
      modifies this
      decreases maxDepth - depth, 0
      ensures Valid()
      ensures url in depthOf && depthOf[url] == depth
      ensures link in visited && old(visited) <= visited
      ensures Grown(visited0, crawled0, results0, depthOf0, parent0)
      ensures roots == old(roots)
      ensures Descends(url, visited - visited0, parent)
      ensures LinksFollowed(visited - visited0)
    {
      Crawl(link, depth + 1, Some(url));
      KeepsTrans(depthOf0, old(depthOf), depthOf);
      KeepsTrans(parent0, old(parent), parent);
      DescendsThroughChild(url, visited - old(visited), link, parent);
      DescendsUnion(url, old(visited) - visited0, visited - old(visited), old(parent), parent);
      FollowedUnion(env, maxDepth, old(visited) - visited0, visited - old(visited), old(visited), old(depthOf), visited, depthOf);
      assert visited - visited0 == (old(visited) - visited0) + (visited - old(visited));
    }

    /**
      The part of crawl(url, depth) that handles url itself, once it is known
      to be new and within the depth limit: record it in the visited set and
      the crawl order, fetch it, and store its page dictionary.
     */
    method Visit(url: string, depth: int, ghost via: Option<string>) returns (fetched: Option<Response>)
      requires Valid() && depth <= maxDepth && url !in visited
      requires via.Some? ==> && via.value in visited && via.value in env.web
                             && depthOf[via.value] + 1 == depth
                             && url in Links(env, via.value, env.web[via.value].text)
      modifies this
      ensures Valid()
      ensures visited == old(visited) + {url}
      ensures crawledUrls == old(crawledUrls) + [url]
      ensures depthOf == old(depthOf)[url := depth]
      ensures parent == if via.Some? then old(parent)[url := via.value] else old(parent)
      ensures roots == if via.Some? then old(roots) else old(roots) + {url}
      ensures results == if url in env.web then old(results)[url := PageOf(env, regexPatterns, advanced, url, env.web[url])]
                         else old(results)
      ensures fetched == if url in env.web then Some(env.web[url]) else None
    {
      VisitKeepsInvariant(env, regexPatterns, advanced, maxDepth, visited, crawledUrls, results, depthOf, parent, roots,
                          url, depth, via);
      visited := visited + {url};
      crawledUrls := crawledUrls + [url];
      depthOf := depthOf[url := depth];
      if via.Some? {
        parent := parent[url := via.value];
      } else {
        roots := roots + {url};
      }
      if url !in env.web {
        return None;
      }
      var response := env.web[url];
      var found := SearchRegex(response.text);
      var page := AsEntries(found);
      if advanced {
        page := page["advanced" := Advanced(AdvancedAnalysis(env, url, response))];
      }
      results := results[url := page];
      return Some(response);
    }

    /** search_regex: one pass over the patterns, skipping those that do not compile. */
    method SearchRegex(content: string) returns (matches: map<string, seq<string>>)
      ensures matches == Findings(env, regexPatterns, content)
    {
      matches := map[];
      var i := 0;
      while i < |regexPatterns|
        invariant 0 <= i <= |regexPatterns|
        invariant matches == Findings(env, regexPatterns[..i], content)
      {
        var pattern := regexPatterns[i];
        if env.compiles(pattern) {
          var found := env.findall(pattern, content);
          if found != [] {
            matches := matches[pattern := found];
          }
        }
        assert regexPatterns[..i + 1][..i] == regexPatterns[..i];
        i := i + 1;
      }
      assert regexPatterns[..|regexPatterns|] == regexPatterns;
    }

    /** extract_links: one pass over the anchors, keeping each joined URL that passes the URL rule. */
    method ExtractLinks(base: string, content: string) returns (links: set<string>)
      ensures links == Links(env, base, content)
    {
      var hrefs := env.anchors(content);
      links := {};
      var i := 0;
      while i < |hrefs|
        invariant 0 <= i <= |hrefs|
        invariant links == LinksAmong(env, base, hrefs[..i])
      {
        var fullUrl := env.join(base, hrefs[i]);
        if ValidateUrl(env.parse(fullUrl)) {
          links := links + {fullUrl};
        }
        assert hrefs[..i + 1][..i] == hrefs[..i];
        i := i + 1;
      }
      assert hrefs[..|hrefs|] == hrefs;
    }
  }

  /**
    What main does with a fresh crawler: crawler.crawl(base_url). The seed is
    the first URL crawled, every URL sits between depth 0 and the limit, and
    with limit 0 only the seed is crawled.
   */
  method CrawlFromSeed(crawler: Crawler)
    requires crawler.Valid()
    requires crawler.visited == {} && crawler.crawledUrls == [] && crawler.results == map[]
    modifies crawler
    ensures crawler.Valid()
    ensures crawler.maxDepth < 0 ==> crawler.crawledUrls == [] && crawler.results == map[]
    ensures crawler.maxDepth >= 0 ==> |crawler.crawledUrls| > 0 && crawler.crawledUrls[0] == crawler.baseUrl
    ensures crawler.maxDepth >= 0 ==> crawler.roots == {crawler.baseUrl}
    ensures forall u | u in crawler.visited :: 0 <= crawler.depthOf[u] <= crawler.maxDepth
    ensures crawler.maxDepth == 0 ==> crawler.crawledUrls == [crawler.baseUrl]
    // every URL fetched below the limit, the seed and every page reached from it, has had its links crawled
    ensures crawler.LinksFollowed(crawler.visited)
  {
    crawler.Crawl(crawler.baseUrl, 0, None);
    assert crawler.visited - {} == crawler.visited;
    if crawler.maxDepth >= 0 {
      assert crawler.depthOf[crawler.baseUrl] == 0;
      forall r | r in crawler.depthOf && r !in crawler.parent
        ensures r == crawler.baseUrl
      {
        assert r in crawler.roots;
      }
      forall u | u in crawler.visited
        ensures 0 <= crawler.depthOf[u]
      {
        DepthIsLinkSteps(crawler.depthOf, crawler.parent, u);
      }
      if crawler.maxDepth == 0 {
        forall u | u in crawler.visited
          ensures u == crawler.baseUrl
        {
          OnlyRootAtDepthZero(crawler.depthOf, crawler.parent, crawler.baseUrl, u);
        }
        assert crawler.visited == {crawler.baseUrl};
        DistinctCount(crawler.crawledUrls);
        assert crawler.crawledUrls == [crawler.baseUrl];
      }
    }
  }
}
