/**
 * `getDisjointnessGraph` and `isDisjoint`: the graph whose vertices are the extra-data fields
 * of one bit size and whose edges join two fields registered for disjoint sets of blocks, so
 * that a clique of it is a set of fields that can share one storage slot.
 */
module Disjointness {
  import opened Graphs

  /**
   * A lexicographic order standing in for `String.compareTo(other) < 0`: the first differing
   * character decides, and a proper prefix comes first. Java compares UTF-16 code units, which
   * can order supplementary characters differently; the edges built do not depend on the order.
   */
  predicate Precedes(a: string, b: string) {
    if a == [] then b != []
    else if b == [] then false
    else if a[0] != b[0] then a[0] < b[0]
    else Precedes(a[1..], b[1..])
  }

  /** Of two different names exactly one comes first, so each pair is considered once. */
  lemma {:induction false} PrecedesTotal(a: string, b: string)
    ensures a != b <==> (Precedes(a, b) || Precedes(b, a))
    ensures !(Precedes(a, b) && Precedes(b, a))
  {
    if a != [] && b != [] && a[0] == b[0] {
      PrecedesTotal(a[1..], b[1..]);
      assert a == [a[0]] + a[1..] && b == [b[0]] + b[1..];
    }
  }

  /** `isDisjoint(s0, s1)`: look for a member of `s0` in `s1`, in whatever order `s0` yields them. */
  method IsDisjoint<T(==)>(s0: set<T>, s1: set<T>) returns (r: bool)
    ensures r <==> s0 !! s1
  {
    var rest := s0;
    while rest != {}
      invariant rest <= s0
      invariant (s0 - rest) !! s1
      decreases |rest|
    {
      var t :| t in rest;
      if t in s1 {
        return false;
      }
      rest := rest - {t};
    }
    return true;
  }

  /** `map.keySet().toArray()`: the keys, each once, in the map's unspecified iteration order. */
  method ListKeys<V>(m: map<string, V>) returns (names: seq<string>)
    ensures Distinct(names)
    ensures forall v :: v in names <==> v in m
    ensures |names| == |m|
  {
    names := [];
    var rest := m.Keys;
    while rest != {}
      invariant rest <= m.Keys
      invariant |names| + |rest| == |m|
      invariant Distinct(names)
      invariant forall v :: v in names <==> v in m && v !in rest
      decreases |rest|
    {
      var k :| k in rest;
      names := names + [k];
      rest := rest - {k};
    }
  }

  /** The disjointness relation: two different fields whose block sets do not meet. */
  ghost function DisjointnessEdges<T>(fields: map<string, set<T>>): map<string, set<string>> {
    map u | u in fields :: set w | w in fields && w != u && fields[u] !! fields[w]
  }

  /** The disjointness graph is a well-formed graph over any listing of the field names. */
  lemma DisjointnessWellFormed<T>(names: seq<string>, fields: map<string, set<T>>)
    requires Distinct(names) && forall v :: v in names <==> v in fields
    ensures WellFormed(GraphValue(names, DisjointnessEdges(fields)))
  {
    var g := GraphValue(names, DisjointnessEdges(fields));
    forall u, w | u in g.edges && w in g.edges[u]
      ensures w in g.edges && u in g.edges[w] && u != w
    {
      assert fields[w] !! fields[u];
    }
  }

  /** Whether the pair u-w has been considered once the outer loop has reached `names[i]` and the inner loop `names[j]`. */
  ghost predicate Considered(names: seq<string>, i: int, j: int, u: string, w: string)
    requires 0 <= i <= |names| && 0 <= j <= |names|
  {
    var first := if Precedes(u, w) then u else w;
    var second := if Precedes(u, w) then w else u;
    first in names[..i] || (i < |names| && first == names[i] && second in names[..j])
  }

  /** The neighbour map once the loops of `getDisjointnessGraph` have considered the pairs before (i, j). */
  ghost predicate EdgesSoFar<T>(fields: map<string, set<T>>, names: seq<string>, i: int, j: int, edges: map<string, set<string>>)
    requires 0 <= i <= |names| && 0 <= j <= |names|
  {
    && (forall u :: u in edges <==> u in fields)
    && forall u, w :: u in edges ==>
      (w in edges[u] <==> w in fields && u != w && fields[u] !! fields[w] && Considered(names, i, j, u, w))
  }

  lemma EdgesStart<T>(fields: map<string, set<T>>, names: seq<string>, edges: map<string, set<string>>)
    requires forall u :: u in edges <==> u in fields
    requires forall u :: u in edges ==> edges[u] == {}
    ensures EdgesSoFar(fields, names, 0, 0, edges)
  {
  }

  /** The pair (names[i], names[j]) is considered at step (i, j), once, when names[i] comes first. */
  lemma ConsiderStep(names: seq<string>, i: int, j: int, u: string, w: string)
    requires Distinct(names) && 0 <= i < |names| && 0 <= j < |names| && u != w
    ensures Considered(names, i, j + 1, u, w) <==>
      || Considered(names, i, j, u, w)
      || (Precedes(names[i], names[j]) && ((u == names[i] && w == names[j]) || (u == names[j] && w == names[i])))
    ensures Considered(names, i, j, u, w) ==>
      !(Precedes(names[i], names[j]) && ((u == names[i] && w == names[j]) || (u == names[j] && w == names[i])))
  {
    PrecedesTotal(u, w);
    assert names[..j + 1] == names[..j] + [names[j]];
    assert names[i] !in names[..i];
    assert names[j] !in names[..j];
  }

  /** A step of the inner loop of `getDisjointnessGraph` that adds no edge. */
  lemma InnerSkip<T>(fields: map<string, set<T>>, names: seq<string>, i: int, j: int, edges: map<string, set<string>>)
    requires Distinct(names) && forall v :: v in names <==> v in fields
    requires 0 <= i < |names| && 0 <= j < |names|
    requires !(Precedes(names[i], names[j]) && fields[names[i]] !! fields[names[j]])
    requires EdgesSoFar(fields, names, i, j, edges)
    ensures EdgesSoFar(fields, names, i, j + 1, edges)
  {
    forall u, w | u in edges
      ensures w in edges[u] <==> w in fields && u != w && fields[u] !! fields[w] && Considered(names, i, j + 1, u, w)
    {
      InnerSkipPair(fields, names, i, j, u, w, w in edges[u]);
    }
  }

  /** `InnerSkip` for one pair u-w. */
  lemma InnerSkipPair<T>(fields: map<string, set<T>>, names: seq<string>, i: int, j: int, u: string, w: string, isEdge: bool)
    requires Distinct(names) && 0 <= i < |names| && 0 <= j < |names|
    requires u in fields && names[i] in fields && names[j] in fields
    requires !(Precedes(names[i], names[j]) && fields[names[i]] !! fields[names[j]])
    requires isEdge == (w in fields && u != w && fields[u] !! fields[w] && Considered(names, i, j, u, w))
    ensures isEdge == (w in fields && u != w && fields[u] !! fields[w] && Considered(names, i, j + 1, u, w))
  {
    if u != w {
      ConsiderStep(names, i, j, u, w);
    }
  }

  /** A step of the inner loop of `getDisjointnessGraph` that adds the edge names[i]-names[j]. */
  lemma InnerAdd<T>(fields: map<string, set<T>>, names: seq<string>, i: int, j: int,
                    before: map<string, set<string>>, after: map<string, set<string>>)
    requires Distinct(names) && forall v :: v in names <==> v in fields
    requires 0 <= i < |names| && 0 <= j < |names|
    requires Precedes(names[i], names[j]) && fields[names[i]] !! fields[names[j]]
    requires EdgesSoFar(fields, names, i, j, before)
    requires after == WithEdge(GraphValue(names, before), names[i], names[j]).edges
    ensures EdgesSoFar(fields, names, i, j + 1, after)
  {
    var n0, n1 := names[i], names[j];
    PrecedesTotal(n0, n1);
    forall u, w | u in after
      ensures w in after[u] <==> w in fields && u != w && fields[u] !! fields[w] && Considered(names, i, j + 1, u, w)
    {
      InnerAddPair(fields, names, i, j, u, w,
        w in before[u], w in after[u], (u == n0 && w == n1) || (u == n1 && w == n0));
    }
  }

  /** `InnerAdd` for one pair u-w: it is an edge afterwards when it was one before or was just added. */
  lemma InnerAddPair<T>(fields: map<string, set<T>>, names: seq<string>, i: int, j: int, u: string, w: string,
                        wasEdge: bool, isEdge: bool, added: bool)
    requires Distinct(names) && 0 <= i < |names| && 0 <= j < |names| && names[i] != names[j]
    requires u in fields && names[i] in fields && names[j] in fields
    requires Precedes(names[i], names[j]) && fields[names[i]] !! fields[names[j]]
    requires added == ((u == names[i] && w == names[j]) || (u == names[j] && w == names[i]))
    requires wasEdge == (w in fields && u != w && fields[u] !! fields[w] && Considered(names, i, j, u, w))
    requires isEdge == (wasEdge || added)
    ensures isEdge == (w in fields && u != w && fields[u] !! fields[w] && Considered(names, i, j + 1, u, w))
  {
    if u != w {
      ConsiderStep(names, i, j, u, w);
    }
  }

  /** Considering every pair of row `i` is considering row `i` as done. */
  lemma ConsiderRow(names: seq<string>, i: int, u: string, w: string)
    requires 0 <= i < |names| && u in names && w in names
    ensures Considered(names, i + 1, 0, u, w) <==> Considered(names, i, |names|, u, w)
  {
    assert names[..i + 1] == names[..i] + [names[i]];
    assert names[..|names|] == names;
  }

  /** Moving to the next row of the outer loop of `getDisjointnessGraph`. */
  lemma RowStep<T>(fields: map<string, set<T>>, names: seq<string>, i: int, edges: map<string, set<string>>)
    requires forall v :: v in names <==> v in fields
    requires 0 <= i < |names| && EdgesSoFar(fields, names, i, |names|, edges)
    ensures EdgesSoFar(fields, names, i + 1, 0, edges)
  {
    forall u, w | u in edges
      ensures w in edges[u] <==> w in fields && u != w && fields[u] !! fields[w] && Considered(names, i + 1, 0, u, w)
    {
      if w in fields {
        ConsiderRow(names, i, u, w);
      }
    }
  }

  /** Once every row is done, the neighbour map is the disjointness relation. */
  lemma EdgesDone<T>(fields: map<string, set<T>>, names: seq<string>, edges: map<string, set<string>>)
    requires forall v :: v in names <==> v in fields
    requires EdgesSoFar(fields, names, |names|, 0, edges)
    ensures edges == DisjointnessEdges(fields)
  {
    assert names[..|names|] == names;
    var d := DisjointnessEdges(fields);
    forall u | u in edges
      ensures edges[u] == d[u]
    {
      assert forall w :: w in edges[u] <==> w in d[u];
    }
  }

  /**
   * The inner `forEach` of `getDisjointnessGraph` for `name0 = names[i]`: add the edge to every
   * later name (in `compareTo` order) whose block set is disjoint from that of `name0`.
   */
  method AddDisjointEdges<T(==)>(graph: Graph, fields: map<string, set<T>>, names: seq<string>, i: int)
    requires Distinct(names) && forall v :: v in names <==> v in fields
    requires 0 <= i < |names| && graph.verts == names && EdgesSoFar(fields, names, i, 0, graph.edges)
    modifies graph
    ensures graph.verts == names && EdgesSoFar(fields, names, i + 1, 0, graph.edges)
  {
    for j := 0 to |names|
      invariant graph.verts == names && EdgesSoFar(fields, names, i, j, graph.edges)
    {
      ConsiderPair(graph, fields, names, i, j);
    }
    RowStep(fields, names, i, graph.edges);
  }

  /** The body of the inner loop: the edge names[i]-names[j] is added when the pair qualifies. */
  method ConsiderPair<T(==)>(graph: Graph, fields: map<string, set<T>>, names: seq<string>, i: int, j: int)
    requires Distinct(names) && forall v :: v in names <==> v in fields
    requires 0 <= i < |names| && 0 <= j < |names|
    requires graph.verts == names && EdgesSoFar(fields, names, i, j, graph.edges)
    modifies graph
    ensures graph.verts == names && EdgesSoFar(fields, names, i, j + 1, graph.edges)
  {
    var name0, name1 := names[i], names[j];
    assert name0 in fields && name1 in fields;
    assert name0 in graph.edges && name1 in graph.edges;
    var disjoint := false;
    if Precedes(name0, name1) {
      disjoint := IsDisjoint(fields[name0], fields[name1]);
    }
    if disjoint {
      ghost var before := graph.edges;
      graph.AddEdge(name0, name1);
      InnerAdd(fields, names, i, j, before, graph.edges);
    } else {
      InnerSkip(fields, names, i, j, graph.edges);
    }
  }

  /**
   * `getDisjointnessGraph(fields)`: a graph over the field names, in the map's iteration order,
   * with an edge between every two fields whose block sets are disjoint. Each unordered pair is
   * added once, from the name that `compareTo` puts first.
   */
  method GetDisjointnessGraph<T(==)>(fields: map<string, set<T>>) returns (graph: Graph)
    ensures fresh(graph)
    ensures Distinct(graph.verts) && forall v :: v in graph.verts <==> v in fields
    ensures |graph.verts| == |fields|
    ensures graph.edges == DisjointnessEdges(fields)
  {
    var names := ListKeys(fields);
    graph := new Graph.OfVertices(names);
    EdgesStart(fields, names, graph.edges);
    for i := 0 to |names|
      invariant graph.verts == names && EdgesSoFar(fields, names, i, 0, graph.edges)
    {
      AddDisjointEdges(graph, fields, names, i);
    }
    EdgesDone(fields, names, graph.edges);
  }
}
