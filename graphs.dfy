/**
 * The private `Graph` helper of ExtraBlockDataManager: an array of vertex names and a map from
 * every vertex to the set of its neighbours. `GraphValue` is the value of such a graph at one
 * moment; the class `Graph` holds the fields that the Java code updates in place.
 */
module Graphs {

  /** Snapshot of a graph: the vertex order and the adjacency map. */
  datatype GraphValue = GraphValue(verts: seq<string>, edges: map<string, set<string>>)

  /** No name occurs twice. */
  ghost predicate Distinct(s: seq<string>) {
    forall i, j :: 0 <= i < |s| && 0 <= j < |s| && i != j ==> s[i] != s[j]
  }

  /**
   * The shape every graph of the algorithm has: distinct vertices, one neighbour set per vertex,
   * and a symmetric adjacency relation without self-loops.
   */
  ghost predicate WellFormed(g: GraphValue) {
    Distinct(g.verts) && KeyedByVertices(g) && Symmetric(g)
  }

  /** The neighbour map has one entry per vertex. */
  ghost predicate KeyedByVertices(g: GraphValue) {
    forall v :: v in g.edges <==> v in g.verts
  }

  /** Neighbours are vertices, adjacency is symmetric, and no vertex is its own neighbour. */
  ghost predicate Symmetric(g: GraphValue) {
    forall u, w :: u in g.edges && w in g.edges[u] ==> w in g.edges && u in g.edges[w] && u != w
  }

  /** Every directed pair (u, w) with w a neighbour of u; the termination measure of the search. */
  ghost function EdgeSet(g: GraphValue): set<(string, string)> {
    set u, w | u in g.edges && w in g.edges[u] :: (u, w)
  }

  /** Position of the first occurrence of `x` in `s`. */
  function IndexOf(s: seq<string>, x: string): (i: nat)
    requires x in s
    ensures i < |s| && s[i] == x && x !in s[..i]
  {
    if s[0] == x then 0 else 1 + IndexOf(s[1..], x)
  }

  lemma IndexOfDistinct(s: seq<string>, i: nat)
    requires Distinct(s) && i < |s|
    ensures IndexOf(s, s[i]) == i
  {
  }

  /** `g` after `addEdge(s0, s1)`: s1 joins the neighbours of s0 and s0 those of s1. */
  function WithEdge(g: GraphValue, s0: string, s1: string): (r: GraphValue)
    requires s0 in g.edges && s1 in g.edges
    ensures r.verts == g.verts && r.edges.Keys == g.edges.Keys
    ensures forall u, w :: u in r.edges ==>
      (w in r.edges[u] <==> w in g.edges[u] || (u == s0 && w == s1) || (u == s1 && w == s0))
  {
    var e := g.edges[s0 := g.edges[s0] + {s1}];
    GraphValue(g.verts, e[s1 := e[s1] + {s0}])
  }

  /** `g` after `removeEdge(s0, s1)`: s1 leaves the neighbours of s0 and s0 those of s1. */
  function WithoutEdge(g: GraphValue, s0: string, s1: string): (r: GraphValue)
    requires s0 in g.edges && s1 in g.edges
    ensures r.verts == g.verts && r.edges.Keys == g.edges.Keys
    ensures forall u, w :: u in r.edges ==>
      (w in r.edges[u] <==> w in g.edges[u] && !(u == s0 && w == s1) && !(u == s1 && w == s0))
  {
    var e := g.edges[s0 := g.edges[s0] - {s1}];
    GraphValue(g.verts, e[s1 := e[s1] - {s0}])
  }

  /** Adding back an edge that was just removed restores the graph exactly. */
  lemma RestoreEdge(g: GraphValue, s0: string, s1: string)
    requires WellFormed(g) && s0 in g.edges && s1 in g.edges[s0]
    ensures WithEdge(WithoutEdge(g, s0, s1), s0, s1) == g
  {
    var r := WithEdge(WithoutEdge(g, s0, s1), s0, s1);
    forall u | u in g.edges
      ensures r.edges[u] == g.edges[u]
    {
    }
  }

  lemma WithEdgeWellFormed(g: GraphValue, s0: string, s1: string)
    requires WellFormed(g) && s0 in g.edges && s1 in g.edges && s0 != s1
    ensures WellFormed(WithEdge(g, s0, s1))
  {
  }

  /** Removing an edge keeps the graph well formed and strictly shrinks its edge set. */
  lemma WithoutEdgeShrinks(g: GraphValue, s0: string, s1: string)
    requires WellFormed(g) && s0 in g.edges && s1 in g.edges[s0]
    ensures WellFormed(WithoutEdge(g, s0, s1))
    ensures EdgeSet(WithoutEdge(g, s0, s1)) < EdgeSet(g)
  {
    var r := WithoutEdge(g, s0, s1);
    assert (s0, s1) in EdgeSet(g);
    assert (s0, s1) !in EdgeSet(r);
  }

  /**
   * The graph `ntract(s0, s1)` builds: s1 is dropped from the vertex order, s0 keeps only the
   * neighbours it shared with s1, and every other vertex loses s1 and keeps s0 only when it was
   * adjacent to both. On the complement graph this is the contraction of s0 and s1.
   */
  ghost function Contracted(g: GraphValue, s0: string, s1: string): GraphValue
    requires s0 in g.edges && s1 in g.edges && s1 in g.verts
  {
    var i1 := IndexOf(g.verts, s1);
    GraphValue(g.verts[..i1] + g.verts[i1 + 1..],
      map u | u in g.edges && u != s1 ::
        if u == s0 then g.edges[s0] * g.edges[s1]
        else if u in g.edges[s0] && u in g.edges[s1] then g.edges[u] - {s1}
        else g.edges[u] - {s0, s1})
  }

  /** Removing position `i` of a duplicate-free sequence removes exactly the name there. */
  lemma RemoveAtMembers(s: seq<string>, i: nat)
    requires Distinct(s) && i < |s|
    ensures Distinct(s[..i] + s[i + 1..])
    ensures forall x :: x in s[..i] + s[i + 1..] <==> x in s && x != s[i]
  {
    var r := s[..i] + s[i + 1..];
    forall x | x in s && x != s[i]
      ensures x in r
    {
      var k :| 0 <= k < |s| && s[k] == x;
      if k < i { assert r[k] == x; } else { assert r[k - 1] == x; }
    }
  }

  /**
   * Adjacency in the contracted graph `r`, stated symmetrically: s1 is gone, a pair not involving
   * s0 keeps its edge, and s0 is adjacent to x exactly when x was adjacent to both s0 and s1.
   */
  ghost predicate MergedAdjacency(g: GraphValue, s0: string, s1: string, r: map<string, set<string>>)
    requires s0 in g.edges && s1 in g.edges
  {
    && r.Keys == g.edges.Keys - {s1}
    && s0 in r
    && (forall u, w :: u in r && w in r && u != s0 && w != s0 ==> (w in r[u] <==> w in g.edges[u]))
    && (forall w :: w in r ==> (w in r[s0] <==> w in g.edges[s0] && w in g.edges[s1]))
    && (forall u :: u in r ==> (s0 in r[u] <==> u in g.edges[s0] && u in g.edges[s1]))
  }

  lemma ContractedAdjacency(g: GraphValue, s0: string, s1: string)
    requires WellFormed(g) && s0 in g.edges && s1 in g.edges[s0]
    ensures MergedAdjacency(g, s0, s1, Contracted(g, s0, s1).edges)
  {
  }

  /** Contraction keeps the graph well formed. */
  lemma ContractedWellFormed(g: GraphValue, s0: string, s1: string)
    requires WellFormed(g) && s0 in g.edges && s1 in g.edges[s0]
    ensures WellFormed(Contracted(g, s0, s1))
  {
    ContractedVertices(g, s0, s1);
    ContractedSymmetric(g, s0, s1);
  }

  /** The vertex order loses s1 and nothing else, and the neighbour map follows it. */
  lemma ContractedVertices(g: GraphValue, s0: string, s1: string)
    requires WellFormed(g) && s0 in g.edges && s1 in g.edges[s0]
    ensures var r := Contracted(g, s0, s1);
      && r.verts == g.verts[..IndexOf(g.verts, s1)] + g.verts[IndexOf(g.verts, s1) + 1..]
      && Distinct(r.verts)
      && (forall v :: v in r.verts <==> v in g.verts && v != s1)
      && KeyedByVertices(r)
  {
    var r := Contracted(g, s0, s1);
    ContractedOrder(g, s0, s1);
    ContractedKeys(g, s0, s1);
    forall v
      ensures v in r.edges <==> v in r.verts
    {
      assert v in r.edges <==> v in g.edges && v != s1;
      assert v in g.edges <==> v in g.verts;
    }
  }

  lemma ContractedKeys(g: GraphValue, s0: string, s1: string)
    requires s0 in g.edges && s1 in g.edges && s1 in g.verts
    ensures Contracted(g, s0, s1).edges.Keys == g.edges.Keys - {s1}
  {
  }

  lemma ContractedOrder(g: GraphValue, s0: string, s1: string)
    requires Distinct(g.verts) && s0 in g.edges && s1 in g.edges && s1 in g.verts
    ensures var r := Contracted(g, s0, s1);
      && r.verts == g.verts[..IndexOf(g.verts, s1)] + g.verts[IndexOf(g.verts, s1) + 1..]
      && Distinct(r.verts)
      && (forall v :: v in r.verts <==> v in g.verts && v != s1)
  {
    RemoveAtMembers(g.verts, IndexOf(g.verts, s1));
  }

  lemma ContractedSymmetric(g: GraphValue, s0: string, s1: string)
    requires WellFormed(g) && s0 in g.edges && s1 in g.edges[s0]
    ensures Symmetric(Contracted(g, s0, s1))
  {
    var r := Contracted(g, s0, s1).edges;
    ContractedAdjacency(g, s0, s1);
    ContractedRows(g, s0, s1);
    MergedSymmetric(g, s0, s1, r);
  }

  /** Symmetry of any neighbour map with the adjacency of a contraction and rows inside the old ones. */
  lemma MergedSymmetric(g: GraphValue, s0: string, s1: string, r: map<string, set<string>>)
    requires Symmetric(g) && s0 in g.edges && s1 in g.edges && MergedAdjacency(g, s0, s1, r)
    requires forall u :: u in r ==> r[u] <= g.edges[u] && s1 !in r[u]
    ensures forall u, w :: u in r && w in r[u] ==> w in r && u in r[w] && u != w
  {
    forall u, w | u in r && w in r[u]
      ensures w in r && u in r[w] && u != w
    {
      assert w in g.edges[u];
      assert w in g.edges && u in g.edges[w] && u != w;
      assert w in r;
      if u == s0 {
        assert w in g.edges[s0] && w in g.edges[s1];
      } else if w == s0 {
        assert u in g.edges[s0] && u in g.edges[s1];
      } else {
        assert u in r[w] <==> u in g.edges[w];
      }
    }
  }

  /** Every row of the contraction lies inside the old row and no longer names s1. */
  lemma ContractedRows(g: GraphValue, s0: string, s1: string)
    requires WellFormed(g) && s0 in g.edges && s1 in g.edges[s0]
    ensures forall u :: u in Contracted(g, s0, s1).edges ==>
      Contracted(g, s0, s1).edges[u] <= g.edges[u] && s1 !in Contracted(g, s0, s1).edges[u]
  {
    var r := Contracted(g, s0, s1);
    assert s1 !in g.edges[s1];
    forall u | u in r.edges
      ensures r.edges[u] <= g.edges[u] && s1 !in r.edges[u]
    {
    }
  }

  /** Every neighbour set only loses members, and the edge between s0 and s1 disappears. */
  lemma ContractedShrinks(g: GraphValue, s0: string, s1: string)
    requires WellFormed(g) && s0 in g.edges && s1 in g.edges[s0]
    ensures forall u :: u in Contracted(g, s0, s1).edges ==> Contracted(g, s0, s1).edges[u] <= g.edges[u]
    ensures EdgeSet(Contracted(g, s0, s1)) < EdgeSet(g)
  {
    var r := Contracted(g, s0, s1);
    ContractedRows(g, s0, s1);
    assert EdgeSet(r) <= EdgeSet(g);
    assert (s0, s1) in EdgeSet(g);
    assert (s0, s1) !in EdgeSet(r);
  }

  /**
   * The mutable graph of the Java code. `addEdge` and `removeEdge` update the neighbour sets in
   * place; `ntract` builds a fresh graph and leaves this one alone.
   */
  class Graph {
    var verts: seq<string>
    var edges: map<string, set<string>>

    function Value(): GraphValue
      reads this
    {
      GraphValue(verts, edges)
    }

    /** `Graph(String[] verts, HashMap edges)`: adopts the given vertices and neighbour sets. */
    constructor (verts: seq<string>, edges: map<string, set<string>>)
      ensures Value() == GraphValue(verts, edges)
    {
      this.verts := verts;
      this.edges := edges;
    }

    /** `Graph(String[] verts)`: every vertex starts with an empty neighbour set. */
    constructor OfVertices(verts: seq<string>)
      ensures this.verts == verts
      ensures forall v :: v in edges <==> v in verts
      ensures forall v :: v in edges ==> edges[v] == {}
    {
      var e: map<string, set<string>> := map[];
      for i := 0 to |verts|
        invariant forall v :: v in e <==> v in verts[..i]
        invariant forall v :: v in e ==> e[v] == {}
      {
        assert verts[..i + 1] == verts[..i] + [verts[i]];
        e := e[verts[i] := {}];
      }
      assert verts[..|verts|] == verts;
      this.verts := verts;
      this.edges := e;
    }

    method AddEdge(s0: string, s1: string)
      requires s0 in edges && s1 in edges
      modifies this
      ensures Value() == WithEdge(old(Value()), s0, s1)
    {
      edges := edges[s0 := edges[s0] + {s1}];
      edges := edges[s1 := edges[s1] + {s0}];
    }

    method RemoveEdge(s0: string, s1: string)
      requires s0 in edges && s1 in edges
      modifies this
      ensures Value() == WithoutEdge(old(Value()), s0, s1)
    {
      edges := edges[s0 := edges[s0] - {s1}];
      edges := edges[s1 := edges[s1] - {s0}];
    }

    /**
     * `ntract(s0, s1)`: a new graph in which s1 is merged into s0 on the complement. The Java
     * loop dereferences the removed entry of s1 unless s0 comes before s1 in `verts`, hence the
     * order requirement.
     */
    method Ntract(s0: string, s1: string) returns (r: Graph)
      requires WellFormed(Value()) && s0 in edges && s1 in edges[s0]
      requires IndexOf(verts, s0) < IndexOf(verts, s1)
      ensures fresh(r)
      ensures r.Value() == Contracted(Value(), s0, s1)
      ensures unchanged(this)
    {
      // the source also records the position of s0, which it never reads
      ghost var g := Value();
      var v1 := LastPosition(verts, s1);
      IndexOfDistinct(verts, v1);
      assert v1 == IndexOf(verts, s1);
      ContractedOrder(g, s0, s1);
      var newVerts := verts[..v1] + verts[v1 + 1..];
      assert newVerts == Contracted(g, s0, s1).verts;
      var newEdges := CopyNeighbours(verts, edges);
      assert forall u :: u in newEdges <==> u in edges;
      assert newEdges.Keys == edges.Keys;
      newEdges := newEdges - {s1};
      assert newEdges.Keys == edges.Keys - {s1};
      newEdges := PruneContracted(verts, edges, s0, s1, newEdges);
      r := new Graph(newVerts, newEdges);
    }
  }

  /** The last position of `x` in `s`, or -1 when `x` does not occur (the first loop of `ntract`). */
  method LastPosition(s: seq<string>, x: string) returns (p: int)
    ensures p == -1 <==> x !in s
    ensures p != -1 ==> 0 <= p < |s| && s[p] == x && x !in s[p + 1..]
  {
    p := -1;
    for i := 0 to |s|
      invariant p == -1 ==> x !in s[..i]
      invariant p != -1 ==> 0 <= p < i && s[p] == x && x !in s[p + 1..i]
    {
      if s[i] == x {
        p := i;
      }
    }
  }

  /** A fresh copy of the neighbour set of every vertex of `verts`. */
  method CopyNeighbours(verts: seq<string>, edges: map<string, set<string>>) returns (m: map<string, set<string>>)
    requires forall v :: v in verts ==> v in edges
    ensures forall u :: u in m <==> u in verts
    ensures forall u :: u in m ==> m[u] == edges[u]
  {
    m := map[];
    for i := 0 to |verts|
      invariant forall u :: u in m <==> u in verts[..i]
      invariant forall u :: u in m ==> m[u] == edges[u]
    {
      m := m[verts[i] := edges[verts[i]]];
    }
  }

  /**
   * The second loop of `ntract`: visiting every vertex s2 in order, drop the edge s0-s2 unless s1
   * is adjacent to s2 as well, and drop every edge towards s1.
   */
  method PruneContracted(verts: seq<string>, edges: map<string, set<string>>, s0: string, s1: string,
                         m: map<string, set<string>>) returns (r: map<string, set<string>>)
    requires WellFormed(GraphValue(verts, edges)) && s0 in edges && s1 in edges[s0]
    requires IndexOf(verts, s0) < IndexOf(verts, s1)
    requires m.Keys == edges.Keys - {s1}
    requires forall u :: u in m ==> m[u] == edges[u]
    ensures r == Contracted(GraphValue(verts, edges), s0, s1).edges
  {
    ghost var g := GraphValue(verts, edges);
    var e1 := edges[s1];
    r := m;
    PrunedStart(g, s0, s1, r);
    for i := 0 to |verts|
      invariant PrunedBefore(g, s0, s1, i, r)
    {
      var s2 := verts[i];
      PruneStep(g, s0, s1, i, r);
      r := VisitVertex(r, s0, s1, e1, s2);
    }
    PrunedAll(g, s0, s1, r);
  }

  /**
   * Whether `w` is still a neighbour of `u` in the copy `ntract` is pruning, once the vertices in
   * `done` have been visited by its second loop.
   */
  ghost predicate Pruned(g: GraphValue, s0: string, s1: string, done: seq<string>, u: string, w: string)
    requires u in g.edges && s0 in g.edges && s1 in g.edges
  {
    if u == s0 then
      && w in g.edges[s0]
      && !(w in done && w !in g.edges[s1])
      && !(w == s1 && s0 in done)
    else
      && w in g.edges[u]
      && !(w == s0 && u in done && u in g.edges[s0] && u !in g.edges[s1])
      && !(w == s1 && u in done && u in g.edges[s1])
  }

  /** The vertex visited at step `i` has not been visited before, and s1 is visited after s0. */
  lemma PruneOrder(g: GraphValue, s0: string, s1: string, i: nat)
    requires WellFormed(g) && s0 in g.edges && s1 in g.edges[s0]
    requires IndexOf(g.verts, s0) < IndexOf(g.verts, s1) && i < |g.verts|
    ensures g.verts[i] !in g.verts[..i]
    ensures g.verts[i] == s1 ==> s0 in g.verts[..i]
  {
    assert forall k :: 0 <= k < i ==> g.verts[..i][k] != g.verts[i];
    if g.verts[i] == s1 {
      IndexOfDistinct(g.verts, i);
      assert g.verts[IndexOf(g.verts, s0)] == s0;
    }
  }

  /** The state of the pruned copy after the second loop of `ntract` has visited `done`. */
  ghost predicate PrunedUpTo(g: GraphValue, s0: string, s1: string, done: seq<string>, m: map<string, set<string>>)
    requires s0 in g.edges && s1 in g.edges
  {
    && m.Keys == g.edges.Keys - {s1}
    && forall u, w :: u in m ==> (w in m[u] <==> Pruned(g, s0, s1, done, u, w))
  }

  /** The copy after the second loop of `ntract` visits `s2`: the two `if` statements of its body. */
  ghost function Visit(m: map<string, set<string>>, s0: string, s1: string, e1: set<string>, s2: string): map<string, set<string>>
    requires s0 in m
    requires s2 in m[s0] && s2 !in e1 ==> s2 in m
    requires s2 in e1 ==> s2 in m
  {
    var m1 := if s2 in m[s0] && s2 !in e1 then
        var m0 := m[s0 := m[s0] - {s2}]; m0[s2 := m0[s2] - {s0}]
      else m;
    if s2 in e1 then m1[s2 := m1[s2] - {s1}] else m1
  }

  /** The body of the second loop of `ntract`, updating the copy in place. */
  method VisitVertex(m: map<string, set<string>>, s0: string, s1: string, e1: set<string>, s2: string)
    returns (r: map<string, set<string>>)
    requires s0 in m
    requires s2 in m[s0] && s2 !in e1 ==> s2 in m
    requires s2 in e1 ==> s2 in m
    ensures r == Visit(m, s0, s1, e1, s2)
  {
    r := m;
    if s2 in r[s0] && s2 !in e1 {
      r := r[s0 := r[s0] - {s2}];
      r := r[s2 := r[s2] - {s0}];
    }
    if s2 in e1 {
      r := r[s2 := r[s2] - {s1}];
    }
  }

  /** What a visit removes: s2 from s0 and s0 from s2 when s1 misses s2, and s1 from s2. */
  lemma VisitEffect(m: map<string, set<string>>, s0: string, s1: string, e1: set<string>, s2: string)
    requires s0 in m && s1 !in m && s0 in e1
    requires s2 in m[s0] && s2 !in e1 ==> s2 in m
    requires s2 in e1 ==> s2 in m
    ensures var r := Visit(m, s0, s1, e1, s2);
      && r.Keys == m.Keys
      && forall u, w :: u in r ==>
        (w in r[u] <==>
          (&& w in m[u]
           && !(s2 in m[s0] && s2 !in e1 && u == s0 && w == s2)
           && !(s2 in m[s0] && s2 !in e1 && u == s2 && w == s0)
           && !(s2 in e1 && u == s2 && w == s1)))
  {
  }

  /** The state of the pruned copy once the second loop of `ntract` has visited `verts[..i]`. */
  ghost predicate PrunedBefore(g: GraphValue, s0: string, s1: string, i: int, m: map<string, set<string>>)
    requires s0 in g.edges && s1 in g.edges
  {
    0 <= i <= |g.verts| && PrunedUpTo(g, s0, s1, g.verts[..i], m)
  }

  /** One step of the pruning loop of `ntract`, visiting `verts[i]`. */
  lemma PruneStep(g: GraphValue, s0: string, s1: string, i: int, m: map<string, set<string>>)
    requires WellFormed(g) && s0 in g.edges && s1 in g.edges[s0]
    requires IndexOf(g.verts, s0) < IndexOf(g.verts, s1) && i < |g.verts|
    requires PrunedBefore(g, s0, s1, i, m)
    ensures s0 in m
    ensures g.verts[i] in m[s0] && g.verts[i] !in g.edges[s1] ==> g.verts[i] in m
    ensures g.verts[i] in g.edges[s1] ==> g.verts[i] in m
    ensures PrunedBefore(g, s0, s1, i + 1, Visit(m, s0, s1, g.edges[s1], g.verts[i]))
  {
    var s2 := g.verts[i];
    PruneOrder(g, s0, s1, i);
    assert g.verts[..i + 1] == g.verts[..i] + [s2];
    PruneVisit(g, s0, s1, g.verts[..i], s2, m);
  }

  /** Visiting `s2` extends the visited vertices `done` by `s2`. */
  lemma PruneVisit(g: GraphValue, s0: string, s1: string, done: seq<string>, s2: string, m: map<string, set<string>>)
    requires WellFormed(g) && s0 in g.edges && s1 in g.edges[s0] && s2 in g.edges && s2 !in done
    requires s2 == s1 ==> s0 in done
    requires PrunedUpTo(g, s0, s1, done, m)
    ensures s0 in m
    ensures s2 in m[s0] && s2 !in g.edges[s1] ==> s2 in m
    ensures s2 in g.edges[s1] ==> s2 in m
    ensures PrunedUpTo(g, s0, s1, done + [s2], Visit(m, s0, s1, g.edges[s1], s2))
  {
    var r := Visit(m, s0, s1, g.edges[s1], s2);
    VisitEffect(m, s0, s1, g.edges[s1], s2);
    forall u, w | u in r
      ensures w in r[u] <==> Pruned(g, s0, s1, done + [s2], u, w)
    {
      assert w in done + [s2] <==> w in done || w == s2;
      assert u in done + [s2] <==> u in done || u == s2;
      assert s0 in done + [s2] <==> s0 in done || s0 == s2;
    }
  }

  /** Before the second loop of `ntract` the copy holds every old neighbour set except that of s1. */
  lemma PrunedStart(g: GraphValue, s0: string, s1: string, m: map<string, set<string>>)
    requires s0 in g.edges && s1 in g.edges
    requires m.Keys == g.edges.Keys - {s1}
    requires forall u :: u in m ==> m[u] == g.edges[u]
    ensures PrunedBefore(g, s0, s1, 0, m)
  {
    assert g.verts[..0] == [];
  }

  /** Once every vertex has been visited, the pruned copy is the contracted graph's neighbour map. */
  lemma PrunedAll(g: GraphValue, s0: string, s1: string, m: map<string, set<string>>)
    requires WellFormed(g) && s0 in g.edges && s1 in g.edges[s0]
    requires PrunedBefore(g, s0, s1, |g.verts|, m)
    ensures m == Contracted(g, s0, s1).edges
  {
    assert g.verts[..|g.verts|] == g.verts;
    var c := Contracted(g, s0, s1).edges;
    ContractedKeys(g, s0, s1);
    forall u | u in m
      ensures m[u] == c[u]
    {
      PrunedRow(g, s0, s1, u, m[u]);
    }
  }

  /** Row `u` of the copy once every vertex has been visited is row `u` of the contraction. */
  lemma PrunedRow(g: GraphValue, s0: string, s1: string, u: string, mu: set<string>)
    requires WellFormed(g) && s0 in g.edges && s1 in g.edges[s0] && u in g.edges && u != s1
    requires forall w :: w in mu <==> Pruned(g, s0, s1, g.verts, u, w)
    ensures mu == Contracted(g, s0, s1).edges[u]
  {
    var cu := if u == s0 then g.edges[s0] * g.edges[s1]
      else if u in g.edges[s0] && u in g.edges[s1] then g.edges[u] - {s1}
      else g.edges[u] - {s0, s1};
    assert Contracted(g, s0, s1).edges[u] == cu;
    forall w
      ensures w in mu <==> w in cu
    {
      assert w in g.edges[u] ==> w in g.edges;
      assert w in g.edges[s0] ==> w in g.edges;
      PrunedPair(g, s0, s1, u, w, w in mu, w in cu);
    }
  }

  /** Membership of w in row `u`, once every vertex has been visited. */
  lemma PrunedPair(g: GraphValue, s0: string, s1: string, u: string, w: string, inM: bool, inC: bool)
    requires s0 in g.edges && s1 in g.edges && u in g.edges && u != s1 && s0 != s1
    requires s0 in g.verts && u in g.verts && s1 in g.edges[s0] && s0 in g.edges[s1]
    requires s1 !in g.edges[s1] && u !in g.edges[u]
    requires s1 in g.edges[u] <==> u in g.edges[s1]
    requires s0 in g.edges[u] <==> u in g.edges[s0]
    requires w in g.edges[u] ==> w in g.verts
    requires w in g.edges[s0] ==> w in g.verts
    requires inM == Pruned(g, s0, s1, g.verts, u, w)
    requires inC == (w in (if u == s0 then g.edges[s0] * g.edges[s1]
        else if u in g.edges[s0] && u in g.edges[s1] then g.edges[u] - {s1}
        else g.edges[u] - {s0, s1}))
    ensures inM == inC
  {
  }
}
