/**
  The discovery tree of a crawl, as values: the depth at which each URL was
  visited and the page on which each non-root URL was found. Every visited
  URL hangs below a root by a chain of links one depth step each.
 */
module Discovery {

  /**
    The set of elements of a sequence, that is set x | x in s. It is written
    recursively, on the last element, so that proofs about a sequence that
    grows at its end can go by induction.
   */
  ghost function Elements(s: seq<string>): set<string>
  {
    if s == [] then {} else Elements(s[..|s| - 1]) + {s[|s| - 1]}
  }

  /** Elements holds exactly what the sequence holds. */
  lemma {:induction false} ElementsMembers(s: seq<string>, x: string)
    ensures x in Elements(s) <==> x in s
  {
    if s != [] {
      var init := s[..|s| - 1];
      ElementsMembers(init, x);
      assert s == init + [s[|s| - 1]];
    }
  }

  /** No element occurs twice: each element is absent from the part before it. */
  ghost predicate NoDuplicates(s: seq<string>)
  {
    s == [] || (s[|s| - 1] !in Elements(s[..|s| - 1]) && NoDuplicates(s[..|s| - 1]))
  }

  /** Appending an element not yet present keeps a sequence duplicate-free, and adds it to the elements. */
  lemma AppendFresh(s: seq<string>, x: string)
    requires NoDuplicates(s) && x !in Elements(s)
    ensures NoDuplicates(s + [x]) && Elements(s + [x]) == Elements(s) + {x}
  {
    assert (s + [x])[..|s|] == s;
  }

  /** Duplicate-free in the positional sense: no two positions hold the same element. */
  lemma {:induction false} NoDuplicatesDistinct(s: seq<string>, i: int, j: int)
    requires NoDuplicates(s) && 0 <= i < j < |s|
    ensures s[i] != s[j]
  {
    var init := s[..|s| - 1];
    if j < |s| - 1 {
      NoDuplicatesDistinct(init, i, j);
    } else {
      ElementsMembers(init, s[i]);
      assert s[i] == init[i];
    }
  }

  /** A duplicate-free sequence has as many distinct elements as it is long. */
  lemma {:induction false} DistinctCount(s: seq<string>)
    requires NoDuplicates(s)
    ensures |Elements(s)| == |s|
  {
    if s != [] {
      DistinctCount(s[..|s| - 1]);
    }
  }

  /** m keeps every entry of m0: recorded depths and parents are never changed or removed. */
  ghost predicate Keeps<V>(m0: map<string, V>, m: map<string, V>)
  {
    forall u | u in m0 :: u in m && m[u] == m0[u]
  }

  /** Keeping entries composes. */
  lemma KeepsTrans<V>(m0: map<string, V>, m1: map<string, V>, m2: map<string, V>)
    requires Keeps(m0, m1) && Keeps(m1, m2)
    ensures Keeps(m0, m2)
  {
  }

  /** Adding an entry for a new key keeps the others. */
  lemma KeepsAdd<V>(m: map<string, V>, k: string, v: V)
    requires k !in m
    ensures Keeps(m, m[k := v])
  {
  }

  /** Each found URL is one depth step below the page it was found on. */
  ghost predicate TreeShaped(depthOf: map<string, int>, parent: map<string, string>)
  {
    && parent.Keys <= depthOf.Keys
    && forall v | v in parent :: parent[v] in depthOf && depthOf[v] == depthOf[parent[v]] + 1
  }

  /**
    The URLs in added all hang below root: each was found on root's page or on
    the page of another URL in added.
   */
  ghost predicate Descends(root: string, added: set<string>, parent: map<string, string>)
  {
    forall v | v in added :: v in parent && (parent[v] == root || parent[v] in added)
  }

  /** A link of root's page, when it adds anything, adds itself with URLs hanging below it: all of it hangs below root. */
  lemma DescendsThroughChild(root: string, b: set<string>, child: string, p: map<string, string>)
    requires b == {} || (child in b && child in p && p[child] == root && Descends(child, b - {child}, p))
    ensures Descends(root, b, p)
  {
    forall v | v in b
      ensures v in p && (p[v] == root || p[v] in b)
    {
      if v != child {
        assert v in b - {child};
      }
    }
  }

  /** What hung below root before still does when parent links are only added; so does the union with what was added since. */
  lemma DescendsUnion(root: string, a: set<string>, b: set<string>, p1: map<string, string>, p2: map<string, string>)
    requires Descends(root, a, p1) && Descends(root, b, p2)
    requires forall u | u in p1 :: u in p2 && p2[u] == p1[u]
    ensures Descends(root, a + b, p2)
  {
    forall v | v in a + b
      ensures v in p2 && (p2[v] == root || p2[v] in a + b)
    {
      if v in a {
        assert v in p1 && p2[v] == p1[v];
      }
    }
  }

  /** What a state added since a, when it first added x to a, is x and what it added after that. */
  lemma AddedAfter(a: set<string>, b: set<string>, c: set<string>, x: string)
    requires b == a + {x} && x !in a && b <= c
    ensures c - a == {x} + (c - b)
  {
  }

  /** The URLs visited at a depth below d. */
  ghost function Below(depthOf: map<string, int>, d: int): set<string>
  {
    set u | u in depthOf && depthOf[u] < d
  }

  /** A subset is no larger. */
  lemma SubsetNoLarger(a: set<string>, b: set<string>)
    requires a <= b
    ensures |a| <= |b|
  {
    assert b == a + (b - a);
  }

  /** The chain of pages through which v was reached, from a root to v. */
  ghost function DiscoveryPath(depthOf: map<string, int>, parent: map<string, string>, v: string): (path: seq<string>)
    requires TreeShaped(depthOf, parent) && v in depthOf
    ensures |path| > 0 && path[|path| - 1] == v
    ensures path[0] in depthOf && path[0] !in parent
    ensures |path| - 1 == depthOf[v] - depthOf[path[0]]
    ensures forall i | 1 <= i < |path| :: path[i] in parent && parent[path[i]] == path[i - 1]
    decreases |Below(depthOf, depthOf[v])|
  {
    if v !in parent then [v]
    else
      var p := parent[v];
      assert p in Below(depthOf, depthOf[v]) && p !in Below(depthOf, depthOf[p]);
      assert Below(depthOf, depthOf[p]) + {p} <= Below(depthOf, depthOf[v]);
      SubsetNoLarger(Below(depthOf, depthOf[p]) + {p}, Below(depthOf, depthOf[v]));
      DiscoveryPath(depthOf, parent, p) + [v]
  }

  /** When every root sits at depth 0, depths count the link steps from a root and are never negative. */
  lemma DepthIsLinkSteps(depthOf: map<string, int>, parent: map<string, string>, v: string)
    requires TreeShaped(depthOf, parent) && v in depthOf
    requires forall r | r in depthOf && r !in parent :: depthOf[r] == 0
    ensures depthOf[v] >= 0
    ensures depthOf[v] == |DiscoveryPath(depthOf, parent, v)| - 1
    ensures depthOf[v] == 0 <==> v !in parent
  {
    var path := DiscoveryPath(depthOf, parent, v);
    if v in parent {
      assert path[|path| - 1] in parent;
      assert |path| > 1;
    }
  }

  /** With a single root at depth 0 and no depth above 0, the root is the only URL. */
  lemma OnlyRootAtDepthZero(depthOf: map<string, int>, parent: map<string, string>, root: string, v: string)
    requires TreeShaped(depthOf, parent) && v in depthOf
    requires root in depthOf && depthOf[root] == 0
    requires forall r | r in depthOf && r !in parent :: r == root
    requires forall u | u in depthOf :: depthOf[u] <= 0
    ensures v == root
  {
    DepthIsLinkSteps(depthOf, parent, v);
  }
}
