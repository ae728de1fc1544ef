/**
  What the crawler records about one fetched page: the matches of every
  configured pattern (search_regex), the links it may follow
  (extract_links), and, in advanced mode, the Server header and the HTML
  comment bodies (advanced_analysis). These are the reference definitions;
  the crawler's loops are proved equal to them.
 */
module PageAnalysis {
  import opened UrlRules
  import opened Web

  /** search_regex's dictionary after the given patterns: pattern to its matches, for compiling patterns with a match. */
  function Findings(env: Env, patterns: seq<string>, content: string): map<string, seq<string>>
  {
    if patterns == [] then map[]
    else
      var before := Findings(env, patterns[..|patterns| - 1], content);
      var p := patterns[|patterns| - 1];
      if env.compiles(p) && env.findall(p, content) != [] then before[p := env.findall(p, content)] else before
  }

  /**
    The keys are exactly the patterns that compile and match, each holding
    its match list as found (never empty); a failing or silent pattern is absent.
   */
  lemma {:induction false} FindingsShape(env: Env, patterns: seq<string>, content: string, p: string)
    ensures p in Findings(env, patterns, content)
            <==> p in patterns && env.compiles(p) && env.findall(p, content) != []
    ensures p in Findings(env, patterns, content)
            ==> Findings(env, patterns, content)[p] == env.findall(p, content)
                && Findings(env, patterns, content)[p] != []
  {
    if patterns != [] {
      var init := patterns[..|patterns| - 1];
      FindingsShape(env, init, content, p);
      assert patterns == init + [patterns[|patterns| - 1]];
    }
  }

  /** The links among the hrefs: each href joined to base, kept when the joined URL passes the URL rule. */
  function LinksAmong(env: Env, base: string, hrefs: seq<string>): set<string>
  {
    if hrefs == [] then {}
    else
      var full := env.join(base, hrefs[|hrefs| - 1]);
      LinksAmong(env, base, hrefs[..|hrefs| - 1]) + (if ValidateUrl(env.parse(full)) then {full} else {})
  }

  /** A URL is a link exactly when it is some href joined to base and passes the URL rule: no other filter. */
  lemma {:induction false} LinksAmongExactly(env: Env, base: string, hrefs: seq<string>, l: string)
    ensures l in LinksAmong(env, base, hrefs)
            <==> ValidateUrl(env.parse(l)) && exists i :: 0 <= i < |hrefs| && env.join(base, hrefs[i]) == l
  {
    if hrefs != [] {
      var init := hrefs[..|hrefs| - 1];
      LinksAmongExactly(env, base, init, l);
      if exists i :: 0 <= i < |hrefs| && env.join(base, hrefs[i]) == l {
        var i :| 0 <= i < |hrefs| && env.join(base, hrefs[i]) == l;
        if i < |hrefs| - 1 {
          assert init[i] == hrefs[i];
        }
      }
      if exists i :: 0 <= i < |init| && env.join(base, init[i]) == l {
        var i :| 0 <= i < |init| && env.join(base, init[i]) == l;
        assert hrefs[i] == init[i];
      }
    }
  }

  /** The links of a page body found at base. */
  function Links(env: Env, base: string, content: string): set<string>
  {
    LinksAmong(env, base, env.anchors(content))
  }

  /** Every link of a page is fetchable, and every fetchable joined href of the page is a link. */
  lemma LinksExactlyValid(env: Env, base: string, content: string, h: string)
    ensures forall l | l in Links(env, base, content) :: ValidateUrl(env.parse(l))
    ensures h in env.anchors(content) && ValidateUrl(env.parse(env.join(base, h)))
            ==> env.join(base, h) in Links(env, base, content)
  {
    var hrefs := env.anchors(content);
    forall l | l in Links(env, base, content)
      ensures ValidateUrl(env.parse(l))
    {
      LinksAmongExactly(env, base, hrefs, l);
    }
    if h in hrefs {
      var i :| 0 <= i < |hrefs| && hrefs[i] == h;
      LinksAmongExactly(env, base, hrefs, env.join(base, h));
    }
  }

  /** The advanced part of a page entry. */
  datatype AdvancedInfo = AdvancedInfo(serverHeader: string, htmlComments: Option<seq<string>>)

  /** advanced_analysis: the Server header, or "Unknown"; the comment bodies only when there are some. */
  function AdvancedAnalysis(env: Env, url: string, response: Response): (info: AdvancedInfo)
    ensures response.serverHeader.Some? ==> info.serverHeader == response.serverHeader.value
    ensures response.serverHeader.None? ==> info.serverHeader == "Unknown"
    ensures info.htmlComments.Some? <==> env.comments(response.text) != []
    ensures info.htmlComments.Some? ==> info.htmlComments.value == env.comments(response.text)
  {
    var comments := env.comments(response.text);
    AdvancedInfo(response.serverHeader.GetOr("Unknown"), if comments != [] then Some(comments) else None)
  }

  /** A value of a page's dictionary: a match list, or the advanced information. */
  datatype Entry = Matches(found: seq<string>) | Advanced(info: AdvancedInfo)

  /** search_regex's dictionary as the values of a page dictionary. */
  function AsEntries(found: map<string, seq<string>>): map<string, Entry>
  {
    map p | p in found :: Matches(found[p])
  }

  /** The dictionary stored for a fetched page; the advanced key is written after the pattern keys. */
  function PageOf(env: Env, patterns: seq<string>, advanced: bool, url: string, response: Response): map<string, Entry>
  {
    var page := AsEntries(Findings(env, patterns, response.text));
    if advanced then page["advanced" := Advanced(AdvancedAnalysis(env, url, response))] else page
  }

  /** The keys of a page are its matching patterns, plus "advanced" exactly in advanced mode; no match list is empty. */
  lemma {:induction false} PageShape(env: Env, patterns: seq<string>, advanced: bool, url: string, response: Response, key: string)
    ensures var page := PageOf(env, patterns, advanced, url, response);
      key in page <==> ((advanced && key == "advanced")
                        || (key in patterns && env.compiles(key) && env.findall(key, response.text) != []))
    ensures var page := PageOf(env, patterns, advanced, url, response);
      (key in page && !(advanced && key == "advanced"))
      ==> (page[key] == Matches(env.findall(key, response.text)) && page[key].found != [])
    ensures advanced ==> PageOf(env, patterns, advanced, url, response)["advanced"]
                         == Advanced(AdvancedAnalysis(env, url, response))
  {
    FindingsShape(env, patterns, response.text, key);
  }

  /** A pattern spelled "advanced" loses its match list to the advanced entry in advanced mode. */
  lemma AdvancedKeyShadowsPattern(env: Env, patterns: seq<string>, url: string, response: Response)
    requires "advanced" in patterns && env.compiles("advanced") && env.findall("advanced", response.text) != []
    ensures "advanced" in PageOf(env, patterns, false, url, response)
    ensures PageOf(env, patterns, false, url, response)["advanced"].Matches?
    ensures PageOf(env, patterns, true, url, response)["advanced"].Advanced?
  {
    FindingsShape(env, patterns, response.text, "advanced");
  }
}
