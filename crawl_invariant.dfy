/**
  The invariant of the crawler's state, stated over plain values so that
  each step that changes the state can be proved to keep it on its own.
 */
module CrawlInvariant {
  import opened Web
  import opened PageAnalysis
  import opened Discovery

  /** Every URL is recorded once, in the visited set and the crawl order alike. */
  ghost predicate OrderOk(visited: set<string>, crawled: seq<string>)
  {
    NoDuplicates(crawled) && visited == Elements(crawled)
  }

  /**
    What OrderOk means for the crawl order: as long as the visited set,
    holding exactly its entries, no entry twice.
   */
  lemma OrderMeaning(visited: set<string>, crawled: seq<string>)
    requires OrderOk(visited, crawled)
    ensures |crawled| == |visited|
    ensures forall u :: u in visited <==> u in crawled
    ensures forall i, j | 0 <= i < j < |crawled| :: crawled[i] != crawled[j]
  {
    DistinctCount(crawled);
    forall u
      ensures u in visited <==> u in crawled
    {
      ElementsMembers(crawled, u);
    }
    forall i, j | 0 <= i < j < |crawled|
      ensures crawled[i] != crawled[j]
    {
      NoDuplicatesDistinct(crawled, i, j);
    }
  }

  /** Results exist for exactly the visited URLs whose fetch succeeded, and hold that page's dictionary. */
  ghost predicate ResultsOk(env: Env, patterns: seq<string>, advanced: bool,
                            visited: set<string>, results: map<string, map<string, Entry>>)
  {
    && results.Keys <= visited
    && (forall u | u in visited :: u in results <==> u in env.web)
    && (forall u | u in results :: u in env.web && results[u] == PageOf(env, patterns, advanced, u, env.web[u]))
  }

  /** Every visited URL has a depth, none beyond the limit. */
  ghost predicate DepthsOk(maxDepth: int, visited: set<string>, depthOf: map<string, int>)
  {
    depthOf.Keys == visited && forall u | u in depthOf :: depthOf[u] <= maxDepth
  }

  /** Links were followed only from fetched pages below the depth limit, and only to links of those pages. */
  ghost predicate LinksOk(env: Env, maxDepth: int, depthOf: map<string, int>, parent: map<string, string>)
  {
    && TreeShaped(depthOf, parent)
    && forall v | v in parent :: parent[v] in env.web && depthOf[parent[v]] < maxDepth
                                 && v in Links(env, parent[v], env.web[parent[v]].text)
  }

  ghost predicate Invariant(env: Env, patterns: seq<string>, advanced: bool, maxDepth: int,
                            visited: set<string>, crawled: seq<string>, results: map<string, map<string, Entry>>,
                            depthOf: map<string, int>, parent: map<string, string>, roots: set<string>)
  {
    && OrderOk(visited, crawled)
    && ResultsOk(env, patterns, advanced, visited, results)
    && DepthsOk(maxDepth, visited, depthOf)
    && LinksOk(env, maxDepth, depthOf, parent)
    && roots == visited - parent.Keys
  }

  /** The empty state of a new crawler satisfies the invariant. */
  lemma EmptyInvariant(env: Env, patterns: seq<string>, advanced: bool, maxDepth: int)
    ensures Invariant(env, patterns, advanced, maxDepth, {}, [], map[], map[], map[], {})
  {
  }

  /** Recording the dictionary of a newly visited URL, when its fetch succeeds, keeps ResultsOk. */
  lemma ResultsStep(env: Env, patterns: seq<string>, advanced: bool,
                    visited: set<string>, results: map<string, map<string, Entry>>, url: string)
    requires ResultsOk(env, patterns, advanced, visited, results) && url !in visited
    ensures ResultsOk(env, patterns, advanced, visited + {url},
                      if url in env.web then results[url := PageOf(env, patterns, advanced, url, env.web[url])] else results)
  {
  }

  /** Giving a newly visited URL a depth within the limit keeps DepthsOk. */
  lemma DepthsStep(maxDepth: int, visited: set<string>, depthOf: map<string, int>, url: string, depth: int)
    requires DepthsOk(maxDepth, visited, depthOf) && depth <= maxDepth
    ensures DepthsOk(maxDepth, visited + {url}, depthOf[url := depth])
  {
  }

  /**
    Giving a newly visited URL its depth, and its parent when it was found on
    a fetched page one level up below the limit, keeps LinksOk.
   */
  lemma LinksStep(env: Env, maxDepth: int, depthOf: map<string, int>, parent: map<string, string>,
                  url: string, depth: int, via: Option<string>)
    requires LinksOk(env, maxDepth, depthOf, parent) && url !in depthOf && depth <= maxDepth
    requires via.Some? ==> && via.value in depthOf && via.value in env.web
                           && depthOf[via.value] + 1 == depth
                           && url in Links(env, via.value, env.web[via.value].text)
    ensures LinksOk(env, maxDepth, depthOf[url := depth], if via.Some? then parent[url := via.value] else parent)
  {
    var depthOf' := depthOf[url := depth];
    var parent' := if via.Some? then parent[url := via.value] else parent;
    assert TreeShaped(depthOf', parent');
  }

  /** A newly visited URL is a new root exactly when it was not found on a page. */
  lemma RootsStep(visited: set<string>, parent: map<string, string>, roots: set<string>, url: string, via: Option<string>)
    requires roots == visited - parent.Keys && url !in visited && url !in parent
    ensures (if via.Some? then roots else roots + {url})
            == visited + {url} - (if via.Some? then parent[url := via.value] else parent).Keys
  {
  }

  /**
    Visiting a new URL within the depth limit keeps the invariant: it is
    appended to the order, gets its depth, its parent if it was found on a
    page (otherwise it is a new root), and its dictionary if its fetch succeeds.
   */
  lemma VisitKeepsInvariant(env: Env, patterns: seq<string>, advanced: bool, maxDepth: int,
                            visited: set<string>, crawled: seq<string>, results: map<string, map<string, Entry>>,
                            depthOf: map<string, int>, parent: map<string, string>, roots: set<string>,
                            url: string, depth: int, via: Option<string>)
    requires Invariant(env, patterns, advanced, maxDepth, visited, crawled, results, depthOf, parent, roots)
    requires depth <= maxDepth && url !in visited
    requires via.Some? ==> && via.value in visited && via.value in env.web
                           && depthOf[via.value] + 1 == depth
                           && url in Links(env, via.value, env.web[via.value].text)
    ensures Invariant(env, patterns, advanced, maxDepth,
                      visited + {url}, crawled + [url],
                      if url in env.web then results[url := PageOf(env, patterns, advanced, url, env.web[url])] else results,
                      depthOf[url := depth],
                      if via.Some? then parent[url := via.value] else parent,
                      if via.Some? then roots else roots + {url})
  {
    AppendFresh(crawled, url);
    ResultsStep(env, patterns, advanced, visited, results, url);
    DepthsStep(maxDepth, visited, depthOf, url, depth);
    LinksStep(env, maxDepth, depthOf, parent, url, depth, via);
    RootsStep(visited, parent, roots, url, via);
  }

  /**
    Every URL of s that was fetched below the depth limit has had its links
    crawled: each of them is visited.
   */
  ghost predicate Followed(env: Env, maxDepth: int, s: set<string>, visited: set<string>, depthOf: map<string, int>)
  {
    forall v | v in s && v in depthOf && v in env.web && depthOf[v] < maxDepth :: Links(env, v, env.web[v].text) <= visited
  }

  /**
    What was followed in an earlier state stays followed as URLs are visited
    and depths are added; so is the union with what was followed since.
   */
  lemma FollowedUnion(env: Env, maxDepth: int, a: set<string>, b: set<string>,
                      visited1: set<string>, depthOf1: map<string, int>,
                      visited2: set<string>, depthOf2: map<string, int>)
    requires a <= depthOf1.Keys
    requires Followed(env, maxDepth, a, visited1, depthOf1) && Followed(env, maxDepth, b, visited2, depthOf2)
    requires visited1 <= visited2 && Keeps(depthOf1, depthOf2)
    ensures Followed(env, maxDepth, a + b, visited2, depthOf2)
  {
    forall v | v in a + b && v in depthOf2 && v in env.web && depthOf2[v] < maxDepth
      ensures Links(env, v, env.web[v].text) <= visited2
    {
      if v in a {
        assert depthOf2[v] == depthOf1[v];
      }
    }
  }
}
