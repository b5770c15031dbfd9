/**
 * `findCliqueCover`: a branch-and-bound search for a smallest partition of the vertices of a
 * graph into cliques. Branching on an edge v0-v1 either keeps v0 and v1 together (the graph
 * `ntract(v0, v1)`) or forces them apart (the graph without the edge); the search gives up on a
 * branch as soon as it can no longer beat the best cover found so far.
 */
module CliqueCover {
  import opened Wrappers
  import opened Graphs

  /** A list of cliques, each a list of vertex names; Java's `ArrayList<ArrayList<String>>`. */
  type Cover = seq<seq<string>>

  /** Every member is a vertex and every vertex is a member. */
  ghost predicate CoversVertices(edges: map<string, set<string>>, c: Cover) {
    && (forall p, x :: 0 <= p < |c| && x in c[p] ==> x in edges)
    && (forall v :: v in edges ==> exists p :: 0 <= p < |c| && v in c[p])
  }

  /** No vertex belongs to two cliques. */
  ghost predicate PairwiseDisjoint(c: Cover) {
    forall p, q, x :: 0 <= p < |c| && 0 <= q < |c| && p != q && x in c[p] ==> x !in c[q]
  }

  /** Any two different members of `s` are adjacent. */
  ghost predicate IsClique(edges: map<string, set<string>>, s: seq<string>) {
    forall u, w :: u in s && w in s && u != w ==> u in edges && w in edges[u]
  }

  /** Every part is a non-empty clique without repeated names. */
  ghost predicate ProperCliques(edges: map<string, set<string>>, c: Cover) {
    forall p :: 0 <= p < |c| ==> c[p] != [] && Distinct(c[p]) && IsClique(edges, c[p])
  }

  /** `c` partitions the vertices of the graph into cliques. */
  ghost predicate IsCliqueCover(edges: map<string, set<string>>, c: Cover) {
    CoversVertices(edges, c) && PairwiseDisjoint(c) && ProperCliques(edges, c)
  }

  /** `c` is a clique cover and no clique cover is smaller. */
  ghost predicate IsMinimumCliqueCover(edges: map<string, set<string>>, c: Cover) {
    IsCliqueCover(edges, c) && forall d :: IsCliqueCover(edges, d) ==> |c| <= |d|
  }

  /** The vertices before position `j` have no neighbours. */
  ghost predicate IsolatedBefore(g: GraphValue, j: int) {
    && 0 <= j <= |g.verts|
    && forall t :: 0 <= t < j ==> g.verts[t] in g.edges && g.edges[g.verts[t]] == {}
  }

  /**
   * The cover lists the leading isolated vertices first, in vertex order, and the first vertex
   * after them has the clique at its own position. The search relies on this when it adds v1
   * to clique `i` of the cover found for `ntract(v0, v1)`.
   */
  ghost predicate LeadsWithIsolated(g: GraphValue, c: Cover) {
    forall j :: 0 <= j < |g.verts| && IsolatedBefore(g, j) ==> j < |c| && g.verts[j] in c[j]
  }

  /** The size a cover must beat: the one found, or the bound when none was found. */
  function Best(bound: int, cover: Option<Cover>): int {
    if cover.Some? then |cover.value| else bound
  }

  /** No clique cover has fewer than `b` cliques. */
  ghost predicate NoCoverBelow(edges: map<string, set<string>>, b: int) {
    forall d :: IsCliqueCover(edges, d) ==> b <= |d|
  }

  /**
   * What `findCliqueCover(graph, bestSize)` answers: a cover found is a clique cover that leads
   * with the isolated vertices and is smaller than the bound (or the graph is empty), and no
   * clique cover is smaller than the cover found, or than the bound when there is none.
   */
  ghost predicate SearchResult(g: GraphValue, bound: int, cover: Option<Cover>) {
    && (cover.Some? ==>
         && IsCliqueCover(g.edges, cover.value)
         && LeadsWithIsolated(g, cover.value)
         && (|cover.value| < bound || g.verts == []))
    && NoCoverBelow(g.edges, Best(bound, cover))
  }

  /** One clique per vertex, in vertex order: the cover the search returns when no edge is left. */
  function Singletons(verts: seq<string>): Cover {
    seq(|verts|, j requires 0 <= j < |verts| => [verts[j]])
  }

  /** The singletons always form a clique cover, and they lead with every vertex. */
  lemma SingletonsCover(g: GraphValue)
    requires WellFormed(g)
    ensures IsCliqueCover(g.edges, Singletons(g.verts))
    ensures LeadsWithIsolated(g, Singletons(g.verts))
  {
    var c := Singletons(g.verts);
    forall v | v in g.edges
      ensures exists p :: 0 <= p < |c| && v in c[p]
    {
      var p :| 0 <= p < |g.verts| && g.verts[p] == v;
      assert v in c[p];
    }
  }

  /** Distinct numbers below `m` are at most `m` many. */
  lemma {:induction false} Pigeonhole(s: seq<int>, m: int)
    requires 0 <= m
    requires forall i :: 0 <= i < |s| ==> 0 <= s[i] < m
    requires forall i, j :: 0 <= i < j < |s| ==> s[i] != s[j]
    ensures |s| <= m
    decreases |s|
  {
    if s != [] {
      assert 0 <= s[0] < m;
      if k :| 0 <= k < |s| && s[k] == m - 1 {
        var t := s[..k] + s[k + 1..];
        assert forall i :: 0 <= i < |t| ==> t[i] == (if i < k then s[i] else s[i + 1]);
        assert forall i :: 0 <= i < |t| ==> 0 <= t[i] < m - 1;
        Pigeonhole(t, m - 1);
        assert |t| == |s| - 1;
      } else {
        assert forall i :: 0 <= i < |s| ==> s[i] != m - 1;
        assert forall i :: 0 <= i < |s[1..]| ==> s[1..][i] == s[i + 1];
        Pigeonhole(s[1..], m - 1);
      }
    }
  }

  /** The clique of a cover that holds `x`. */
  ghost function CliqueOf(d: Cover, x: string): (p: int)
    requires exists p :: 0 <= p < |d| && x in d[p]
    ensures 0 <= p < |d| && x in d[p]
  {
    var p :| 0 <= p < |d| && x in d[p]; p
  }

  /**
   * When the first `k` vertices are isolated, each needs a clique of its own, and the vertex
   * after them yet another one: every clique cover has at least `k` cliques, `k + 1` when a
   * vertex follows. This is why the search may give up once `i >= bestSize - 1`.
   */
  lemma LowerBound(g: GraphValue, d: Cover, k: int)
    requires WellFormed(g) && IsolatedBefore(g, k) && IsCliqueCover(g.edges, d)
    ensures k <= |d|
    ensures k < |g.verts| ==> k + 1 <= |d|
  {
    var m := if k < |g.verts| then k + 1 else k;
    assert forall j :: 0 <= j < m ==> g.verts[j] in g.edges;
    var idx := seq(m, j requires 0 <= j < m => CliqueOf(d, g.verts[j]));
    forall i, j | 0 <= i < j < m
      ensures idx[i] != idx[j]
    {
      var u, w := g.verts[i], g.verts[j];
      assert u != w;
      assert g.edges[u] == {};
      assert u in d[idx[i]] && w in d[idx[j]];
      assert IsClique(g.edges, d[idx[i]]);
    }
    Pigeonhole(idx, |d|);
  }

  /** The vertex picked by the search comes first in vertex order and its neighbour after it. */
  lemma BranchOrder(g: GraphValue, i: int, v1: string)
    requires WellFormed(g) && IsolatedBefore(g, i) && i < |g.verts|
    requires g.verts[i] in g.edges && v1 in g.edges[g.verts[i]]
    ensures IndexOf(g.verts, g.verts[i]) == i < IndexOf(g.verts, v1)
  {
    IndexOfDistinct(g.verts, i);
    var j := IndexOf(g.verts, v1);
    assert g.verts[i] in g.edges[v1] && g.verts[i] != v1;
    assert g.verts[j] == v1;
  }

  /** Removing the edge v0-v1 keeps the leading isolated vertices isolated, and more. */
  lemma IsolatedWithoutEdge(g: GraphValue, v0: string, v1: string, j: int)
    requires v0 in g.edges && v1 in g.edges && IsolatedBefore(g, j)
    ensures IsolatedBefore(WithoutEdge(g, v0, v1), j)
  {
    var r := WithoutEdge(g, v0, v1);
    forall t | 0 <= t < j
      ensures r.edges[g.verts[t]] == {}
    {
    }
  }

  /**
   * A cover of the graph without the edge v0-v1 covers the graph too, and still leads with the
   * isolated vertices: the search may return the second branch's answer as it is.
   */
  lemma LiftSeparated(g: GraphValue, v0: string, v1: string, c: Cover)
    requires WellFormed(g) && v0 in g.edges && v1 in g.edges
    requires IsCliqueCover(WithoutEdge(g, v0, v1).edges, c)
    requires LeadsWithIsolated(WithoutEdge(g, v0, v1), c)
    ensures IsCliqueCover(g.edges, c) && LeadsWithIsolated(g, c)
  {
    var r := WithoutEdge(g, v0, v1);
    forall p | 0 <= p < |c|
      ensures IsClique(g.edges, c[p])
    {
      assert IsClique(r.edges, c[p]);
    }
    forall j | 0 <= j < |g.verts| && IsolatedBefore(g, j)
      ensures j < |c| && g.verts[j] in c[j]
    {
      IsolatedWithoutEdge(g, v0, v1, j);
    }
  }

  /** A cover in which v0 and v1 are never together also covers the graph without their edge. */
  lemma SeparatedCover(g: GraphValue, v0: string, v1: string, d: Cover)
    requires v0 in g.edges && v1 in g.edges && IsCliqueCover(g.edges, d)
    requires forall p :: 0 <= p < |d| && v0 in d[p] ==> v1 !in d[p]
    ensures IsCliqueCover(WithoutEdge(g, v0, v1).edges, d)
  {
    var r := WithoutEdge(g, v0, v1);
    forall p | 0 <= p < |d|
      ensures IsClique(r.edges, d[p])
    {
      assert IsClique(g.edges, d[p]);
    }
  }

  /** The contraction keeps the vertices before s1 in place and keeps isolated vertices isolated. */
  lemma IsolatedContracted(g: GraphValue, v0: string, v1: string, i: int, j: int)
    requires WellFormed(g) && v0 in g.edges && v1 in g.edges[v0]
    requires IsolatedBefore(g, j) && j <= i < IndexOf(g.verts, v1)
    ensures IsolatedBefore(Contracted(g, v0, v1), j)
    ensures forall t :: 0 <= t <= i ==> Contracted(g, v0, v1).verts[t] == g.verts[t]
  {
    var r := Contracted(g, v0, v1);
    ContractedVertices(g, v0, v1);
    ContractedShrinks(g, v0, v1);
    forall t | 0 <= t < j
      ensures r.verts[t] in r.edges && r.edges[r.verts[t]] == {}
    {
      assert r.verts[t] == g.verts[t];
      assert g.verts[t] != v1;
    }
  }

  /**
   * Clique `i` of a cover of `ntract(v0, v1)` holds v0 (the cover leads with the isolated
   * vertices before it), and adding v1 to it gives a cover of the graph that still leads with
   * the isolated vertices.
   */
  lemma LiftMerged(g: GraphValue, i: int, v1: string, c: Cover)
    requires WellFormed(g) && IsolatedBefore(g, i) && i < |g.verts|
    requires g.verts[i] in g.edges && v1 in g.edges[g.verts[i]]
    requires IsCliqueCover(Contracted(g, g.verts[i], v1).edges, c)
    requires LeadsWithIsolated(Contracted(g, g.verts[i], v1), c)
    ensures i < |c| && g.verts[i] in c[i]
    ensures IsCliqueCover(g.edges, c[i := c[i] + [v1]])
    ensures LeadsWithIsolated(g, c[i := c[i] + [v1]])
  {
    var v0 := g.verts[i];
    var r := Contracted(g, v0, v1);
    BranchOrder(g, i, v1);
    ContractedVertices(g, v0, v1);
    ContractedAdjacency(g, v0, v1);
    IsolatedContracted(g, v0, v1, i, i);
    assert i < |r.verts| && r.verts[i] == v0;
    var c' := c[i := c[i] + [v1]];
    assert v1 !in r.edges;
    LiftMergedCover(g, v0, v1, i, c);
    LiftMergedLeads(g, i, v1, c);
  }

  /** The isolated prefix of `g` still leads the lifted cover. */
  lemma LiftMergedLeads(g: GraphValue, i: int, v1: string, c: Cover)
    requires WellFormed(g) && IsolatedBefore(g, i) && i < |g.verts|
    requires g.verts[i] in g.edges && v1 in g.edges[g.verts[i]]
    requires LeadsWithIsolated(Contracted(g, g.verts[i], v1), c)
    requires i < |c| && g.verts[i] in c[i]
    ensures LeadsWithIsolated(g, c[i := c[i] + [v1]])
  {
    var v0 := g.verts[i];
    var r := Contracted(g, v0, v1);
    var c' := c[i := c[i] + [v1]];
    BranchOrder(g, i, v1);
    forall j | 0 <= j < |g.verts| && IsolatedBefore(g, j)
      ensures j < |c'| && g.verts[j] in c'[j]
    {
      assert j <= i by {
        assert g.edges[g.verts[i]] != {};
      }
      IsolatedContracted(g, v0, v1, i, j);
      assert r.verts[j] in c[j];
    }
  }

  /** The clique cover half of `LiftMerged`. */
  lemma LiftMergedCover(g: GraphValue, v0: string, v1: string, i: int, c: Cover)
    requires WellFormed(g) && v0 in g.edges && v1 in g.edges[v0]
    requires IsCliqueCover(Contracted(g, v0, v1).edges, c)
    requires 0 <= i < |c| && v0 in c[i]
    ensures IsCliqueCover(g.edges, c[i := c[i] + [v1]])
  {
    var r := Contracted(g, v0, v1).edges;
    ContractedAdjacency(g, v0, v1);
    LiftMergedVertices(g, v0, v1, r, i, c);
    LiftMergedCliques(g, v0, v1, r, i, c);
  }

  lemma LiftMergedVertices(g: GraphValue, v0: string, v1: string, r: map<string, set<string>>, i: int, c: Cover)
    requires v0 in g.edges && v1 in g.edges && MergedAdjacency(g, v0, v1, r)
    requires CoversVertices(r, c) && PairwiseDisjoint(c)
    requires 0 <= i < |c|
    ensures CoversVertices(g.edges, c[i := c[i] + [v1]])
    ensures PairwiseDisjoint(c[i := c[i] + [v1]])
  {
    var c' := c[i := c[i] + [v1]];
    forall p, x | 0 <= p < |c'| && x in c'[p]
      ensures x in g.edges
    {
      if p == i {
        assert x in c[i] || x == v1;
      } else {
        assert x in c[p];
      }
      assert x != v1 ==> x in r;
    }
    forall v | v in g.edges
      ensures exists p :: 0 <= p < |c'| && v in c'[p]
    {
      if v != v1 {
        assert v in r;
        var p :| 0 <= p < |c| && v in c[p];
        assert v in c'[p];
      } else {
        assert v in c'[i];
      }
    }
  }

  lemma LiftMergedCliques(g: GraphValue, v0: string, v1: string, r: map<string, set<string>>, i: int, c: Cover)
    requires v0 in g.edges && v1 in g.edges[v0] && Symmetric(g) && MergedAdjacency(g, v0, v1, r)
    requires ProperCliques(r, c)
    requires forall p, x :: 0 <= p < |c| && x in c[p] ==> x in r
    requires 0 <= i < |c| && v0 in c[i]
    ensures ProperCliques(g.edges, c[i := c[i] + [v1]])
  {
    var c' := c[i := c[i] + [v1]];
    forall p | 0 <= p < |c'|
      ensures c'[p] != [] && Distinct(c'[p]) && IsClique(g.edges, c'[p])
    {
      assert IsClique(r, c[p]);
      if p == i {
        assert v1 !in c[i];
        forall u, w | u in c'[i] && w in c'[i] && u != w
          ensures u in g.edges && w in g.edges[u]
        {
          if u == v1 {
            assert w in r[v0] || w == v0;
          } else if w == v1 {
            assert u in r[v0] || u == v0;
          } else {
            assert w in r[u];
          }
        }
      } else {
        forall u, w | u in c[p] && w in c[p] && u != w
          ensures w in g.edges[u]
        {
          assert w in r[u];
        }
      }
    }
  }

  /** `s` without the name `x`. */
  ghost function Remove(s: seq<string>, x: string): (r: seq<string>)
    ensures forall y :: y in r <==> y in s && y != x
    ensures Distinct(s) ==> Distinct(r)
  {
    if s == [] then []
    else if s[0] == x then Remove(s[1..], x)
    else
      var t := Remove(s[1..], x);
      assert Distinct(s) ==> s[0] !in s[1..];
      [s[0]] + t
  }

  /** A cover of `g` with v1 taken out of its clique. */
  ghost function Project(d: Cover, x: string): Cover {
    seq(|d|, p requires 0 <= p < |d| => Remove(d[p], x))
  }

  /**
   * A cover in which v0 and v1 share a clique becomes, with v1 taken out, a cover of the same
   * size of `ntract(v0, v1)`.
   */
  lemma MergedCover(g: GraphValue, v0: string, v1: string, d: Cover, p0: int)
    requires WellFormed(g) && v0 in g.edges && v1 in g.edges[v0] && IsCliqueCover(g.edges, d)
    requires 0 <= p0 < |d| && v0 in d[p0] && v1 in d[p0]
    ensures IsCliqueCover(Contracted(g, v0, v1).edges, Project(d, v1))
  {
    var r := Contracted(g, v0, v1).edges;
    ContractedAdjacency(g, v0, v1);
    MergedVertices(g, v0, v1, r, d);
    MergedCliques(g, v0, v1, r, d, p0);
  }

  lemma MergedVertices(g: GraphValue, v0: string, v1: string, r: map<string, set<string>>, d: Cover)
    requires v0 in g.edges && v1 in g.edges && MergedAdjacency(g, v0, v1, r)
    requires CoversVertices(g.edges, d) && PairwiseDisjoint(d)
    ensures CoversVertices(r, Project(d, v1))
    ensures PairwiseDisjoint(Project(d, v1))
  {
    var e := Project(d, v1);
    ProjectMembers(d, v1);
    forall p, x | 0 <= p < |e| && x in e[p]
      ensures x in r
    {
      assert x in d[p] && x != v1;
    }
    forall v | v in r
      ensures exists p :: 0 <= p < |e| && v in e[p]
    {
      var p :| 0 <= p < |d| && v in d[p];
      assert v in e[p];
    }
    forall p, q, x | 0 <= p < |e| && 0 <= q < |e| && p != q && x in e[p]
      ensures x !in e[q]
    {
      assert x in d[p];
    }
  }

  /** The parts of `Project(d, x)` are those of `d` without x. */
  lemma ProjectMembers(d: Cover, x: string)
    ensures |Project(d, x)| == |d|
    ensures forall p, y :: 0 <= p < |d| ==> (y in Project(d, x)[p] <==> y in d[p] && y != x)
  {
  }

  lemma MergedCliques(g: GraphValue, v0: string, v1: string, r: map<string, set<string>>, d: Cover, p0: int)
    requires v0 in g.edges && v1 in g.edges && v0 != v1 && MergedAdjacency(g, v0, v1, r)
    requires ProperCliques(g.edges, d) && PairwiseDisjoint(d)
    requires 0 <= p0 < |d| && v0 in d[p0] && v1 in d[p0]
    ensures ProperCliques(r, Project(d, v1))
  {
    var e := Project(d, v1);
    forall p | 0 <= p < |e|
      ensures e[p] != [] && Distinct(e[p]) && IsClique(r, e[p])
    {
      if p == p0 {
        assert v0 in e[p];
        MergedCliqueTogether(g, v0, v1, r, d[p], e[p]);
      } else {
        assert v0 !in d[p] && v1 !in d[p];
        assert d[p][0] in e[p];
        MergedCliqueApart(g, v0, v1, r, d[p], e[p]);
      }
    }
  }

  /** A clique of `g` that holds v0 and v1, with v1 taken out, is a clique of `ntract(v0, v1)`. */
  lemma MergedCliqueTogether(g: GraphValue, v0: string, v1: string, r: map<string, set<string>>, s: seq<string>, t: seq<string>)
    requires v0 in g.edges && v1 in g.edges && MergedAdjacency(g, v0, v1, r) && IsClique(g.edges, s)
    requires v0 in s && v1 in s
    requires forall y :: y in t ==> y in s && y != v1
    ensures IsClique(r, t)
  {
    forall u, w | u in t && w in t && u != w
      ensures u in r && w in r[u]
    {
      assert u in g.edges && w in g.edges[u] && w in g.edges;
      assert u in r && w in r;
      assert u == v0 || v1 in g.edges[u];
      assert w == v0 || v1 in g.edges[w];
    }
  }

  /** A clique of `g` without v0 and v1 (or any part of it) is a clique of `ntract(v0, v1)`. */
  lemma MergedCliqueApart(g: GraphValue, v0: string, v1: string, r: map<string, set<string>>, s: seq<string>, t: seq<string>)
    requires v0 in g.edges && v1 in g.edges && MergedAdjacency(g, v0, v1, r) && IsClique(g.edges, s)
    requires v0 !in s && v1 !in s
    requires forall y :: y in t ==> y in s
    ensures IsClique(r, t)
  {
    forall u, w | u in t && w in t && u != w
      ensures u in r && w in r[u]
    {
      assert u in g.edges && w in g.edges[u] && w in g.edges;
      assert u in r && w in r;
    }
  }

  /**
   * Every clique cover of `g` either keeps v0 and v1 apart, and then covers the graph without
   * their edge, or keeps them together, and then a cover of `ntract(v0, v1)` has its size. So
   * bounds below for the two branches bound the covers of `g` below.
   */
  lemma {:induction false} BranchLowerBound(g: GraphValue, v0: string, v1: string, b0: int, b1: int)
    requires WellFormed(g) && v0 in g.edges && v1 in g.edges[v0]
    requires NoCoverBelow(Contracted(g, v0, v1).edges, b0)
    requires NoCoverBelow(WithoutEdge(g, v0, v1).edges, b1)
    ensures NoCoverBelow(g.edges, if b0 < b1 then b0 else b1)
  {
    forall d | IsCliqueCover(g.edges, d)
      ensures (if b0 < b1 then b0 else b1) <= |d|
    {
      if p0 :| 0 <= p0 < |d| && v0 in d[p0] && v1 in d[p0] {
        MergedCover(g, v0, v1, d, p0);
        assert |Project(d, v1)| == |d|;
      } else {
        SeparatedCover(g, v0, v1, d);
      }
    }
  }

  /**
   * The answer of the search at a vertex `v0 = verts[i]` with neighbour v1, from the answers
   * of its two branches: the second branch's cover when there is one, otherwise the first
   * branch's cover with v1 added to clique `i`, otherwise none.
   */
  lemma CombineBranches(g: GraphValue, i: int, v1: string, bound: int, c0: Option<Cover>, c1: Option<Cover>)
    requires WellFormed(g) && IsolatedBefore(g, i) && i < |g.verts|
    requires g.verts[i] in g.edges && v1 in g.edges[g.verts[i]]
    requires SearchResult(Contracted(g, g.verts[i], v1), bound, c0)
    requires SearchResult(WithoutEdge(g, g.verts[i], v1), Best(bound, c0), c1)
    ensures c0.Some? ==> i < |c0.value|
    ensures SearchResult(g, bound,
      if c1.Some? then c1
      else if c0.Some? then Some(c0.value[i := c0.value[i] + [v1]])
      else None)
  {
    var v0 := g.verts[i];
    var r0, r1 := Contracted(g, v0, v1), WithoutEdge(g, v0, v1);
    var b0 := Best(bound, c0);
    var b1 := Best(b0, c1);
    BranchOrder(g, i, v1);
    ContractedVertices(g, v0, v1);
    assert r0.verts != [] && r1.verts != [] by {
      assert v0 in r0.verts;
    }
    BranchLowerBound(g, v0, v1, b0, b1);
    if c1.Some? {
      LiftSeparated(g, v0, v1, c1.value);
      assert |c1.value| < b0;
    } else if c0.Some? {
      LiftMerged(g, i, v1, c0.value);
    }
  }

  /**
   * The search gives up at position `i` when the vertices before it are isolated and
   * `i >= bestSize - 1`: every clique cover then has at least `i + 1 >= bestSize` cliques.
   */
  lemma GiveUp(g: GraphValue, i: int, bound: int)
    requires WellFormed(g) && IsolatedBefore(g, i) && i < |g.verts| && i >= bound - 1
    ensures SearchResult(g, bound, None)
  {
    forall d | IsCliqueCover(g.edges, d)
      ensures bound <= |d|
    {
      LowerBound(g, d, i);
    }
  }

  /**
   * When every vertex is isolated and the scan did not give up, the singletons are the answer:
   * a clique cover smaller than the bound, and no clique cover is smaller.
   */
  lemma AllIsolated(g: GraphValue, bound: int)
    requires WellFormed(g) && IsolatedBefore(g, |g.verts|)
    requires g.verts == [] || |g.verts| - 1 < bound - 1
    ensures SearchResult(g, bound, Some(Singletons(g.verts)))
  {
    SingletonsCover(g);
    forall d | IsCliqueCover(g.edges, d)
      ensures |g.verts| <= |d|
    {
      LowerBound(g, d, |g.verts|);
    }
  }

  /**
   * `findCliqueCover(graph, bestSize, tabs)`: scan the vertices in order; give up once the
   * isolated vertices seen so far already need `bestSize - 1` cliques; at the first vertex v0
   * with a neighbour v1 (any neighbour: the Java code takes the first one its hash set yields),
   * search `ntract(v0, v1)` below `bestSize`, then the graph without the edge below the size
   * found, and put the edge back. The graph is left as it was.
   */
  method FindCliqueCoverBelow(graph: Graph, bestSize: int) returns (cover: Option<Cover>)
    requires WellFormed(graph.Value())
    modifies graph
    decreases EdgeSet(graph.Value()), 1
    ensures graph.Value() == old(graph.Value())
    ensures SearchResult(graph.Value(), bestSize, cover)
  {
    ghost var g := graph.Value();
    var n := |graph.verts|;
    var i := 0;
    while i < n
      invariant graph.Value() == g
      invariant i <= n && IsolatedBefore(g, i)
      invariant i == 0 || i - 1 < bestSize - 1
    {
      if i >= bestSize - 1 {
        GiveUp(g, i, bestSize);
        return None;
      }
      var v0 := graph.verts[i];
      if graph.edges[v0] != {} {
        var v1 :| v1 in graph.edges[v0];
        cover := Branch(graph, i, v1, bestSize);
        return;
      }
      i := i + 1;
    }
    var c := BuildSingletons(graph.verts);
    AllIsolated(g, bestSize);
    return Some(c);
  }

  /**
   * The two branches at the first vertex `i` with a neighbour v1: merge v1 into it, then try
   * again without the edge, bounded by the best size found so far, and put the edge back.
   */
  method Branch(graph: Graph, i: int, v1: string, bestSize: int) returns (cover: Option<Cover>)
    requires WellFormed(graph.Value()) && IsolatedBefore(graph.Value(), i) && i < |graph.verts|
    requires graph.verts[i] in graph.edges && v1 in graph.edges[graph.verts[i]]
    modifies graph
    decreases EdgeSet(graph.Value()), 0
    ensures graph.Value() == old(graph.Value())
    ensures SearchResult(graph.Value(), bestSize, cover)
  {
    ghost var g := graph.Value();
    var v0 := graph.verts[i];
    BranchOrder(g, i, v1);
    ContractedWellFormed(g, v0, v1);
    ContractedShrinks(g, v0, v1);
    var merged := graph.Ntract(v0, v1);
    var cover0 := FindCliqueCoverBelow(merged, bestSize);
    var bestSize0 := if cover0.None? then bestSize else |cover0.value|;
    WithoutEdgeShrinks(g, v0, v1);
    graph.RemoveEdge(v0, v1);
    var cover1 := FindCliqueCoverBelow(graph, bestSize0);
    graph.AddEdge(v0, v1);
    RestoreEdge(g, v0, v1);
    CombineBranches(g, i, v1, bestSize, cover0, cover1);
    if cover1.Some? {
      return cover1;
    } else if cover0.Some? {
      var c := cover0.value;
      return Some(c[i := c[i] + [v1]]);
    } else {
      return None;
    }
  }

  /** The last loop of `findCliqueCover`: one singleton list per vertex, in vertex order. */
  method BuildSingletons(verts: seq<string>) returns (c: Cover)
    ensures c == Singletons(verts)
  {
    c := [];
    for j := 0 to |verts|
      invariant |c| == j && forall k :: 0 <= k < j ==> c[k] == [verts[k]]
    {
      c := c + [[verts[j]]];
    }
  }

  /** `Integer.MAX_VALUE`, the bound of the outermost search. */
  const MaxInt: int := 0x7fff_ffff

  /**
   * `findCliqueCover(graph)`: the search with no bound but Java's largest `int`. It finds a
   * minimum clique cover whenever the graph has fewer vertices than that bound.
   */
  method FindCliqueCover(graph: Graph) returns (cover: Option<Cover>)
    requires WellFormed(graph.Value())
    modifies graph
    ensures graph.Value() == old(graph.Value())
    ensures cover.Some? ==> IsMinimumCliqueCover(graph.edges, cover.value)
    ensures |graph.verts| < MaxInt ==> cover.Some?
  {
    cover := FindCliqueCoverBelow(graph, MaxInt);
    if cover.None? {
      SingletonsCover(graph.Value());
      assert |Singletons(graph.verts)| == |graph.verts|;
    }
  }
}
