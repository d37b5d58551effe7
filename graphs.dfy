/** Graphs as the three tools see them through igraph: a vertex count, a
    directedness flag and a list of edges between vertex IDs. Multi-edges and
    self-loops are allowed until a simplify step removes them. Only the few
    igraph operations whose result the tools inspect are modelled here: the
    edge count of an induced subgraph, simplification, and relabelling edges
    through a vertex map. */
module Graphs {
  import opened Lists

  datatype Edge = Edge(from: int, to: int)

  datatype Graph = Graph(n: nat, directed: bool, edges: seq<Edge>)

  /** Every edge joins two vertices of the graph. */
  predicate WellFormed(g: Graph) {
    forall e :: e in g.edges ==> 0 <= e.from < g.n && 0 <= e.to < g.n
  }

  /** igraph_empty: `n` vertices and no edges. */
  function Empty(n: nat, directed: bool): Graph {
    Graph(n, directed, [])
  }

  /** Two edge records denote the same edge: equal, or reversed in an
      undirected graph. */
  predicate SameEdge(directed: bool, a: Edge, b: Edge) {
    a == b || (!directed && a.from == b.to && a.to == b.from)
  }

  /** The list holds an edge that is the same as `e`. */
  predicate HasEdge(directed: bool, es: seq<Edge>, e: Edge) {
    exists f :: f in es && SameEdge(directed, f, e)
  }

  /** No edge is listed twice. */
  predicate NoMultiEdges(directed: bool, es: seq<Edge>) {
    forall i, j :: 0 <= i < j < |es| ==> !SameEdge(directed, es[i], es[j])
  }

  /** No edge joins a vertex to itself. */
  predicate NoLoops(es: seq<Edge>) {
    forall e :: e in es ==> e.from != e.to
  }

  /** Two edge lists describe the same set of edges. */
  predicate SameEdgeSet(directed: bool, a: seq<Edge>, b: seq<Edge>) {
    (forall e :: e in a ==> HasEdge(directed, b, e)) &&
    (forall e :: e in b ==> HasEdge(directed, a, e))
  }

  /** Edge count of the subgraph induced by the vertex set `vs`: the edges
      (multi-edges and loops included) with both ends in `vs`. */
  function InducedEdgeCount(es: seq<Edge>, vs: set<int>): (c: nat)
    ensures c <= |es|
  {
    if es == [] then 0
    else
      var e := es[|es| - 1];
      InducedEdgeCount(es[..|es| - 1], vs) + (if e.from in vs && e.to in vs then 1 else 0)
  }

  /** When every edge has both ends in `vs`, the induced subgraph keeps them all. */
  lemma {:induction false} InducedEdgeCountAll(es: seq<Edge>, vs: set<int>)
    requires forall e :: e in es ==> e.from in vs && e.to in vs
    ensures InducedEdgeCount(es, vs) == |es|
  {
    if es != [] {
      InducedEdgeCountAll(es[..|es| - 1], vs);
    }
  }

  /** When no edge has both ends in `vs`, the induced subgraph has no edge. */
  lemma {:induction false} InducedEdgeCountNone(es: seq<Edge>, vs: set<int>)
    requires forall e :: e in es ==> !(e.from in vs && e.to in vs)
    ensures InducedEdgeCount(es, vs) == 0
  {
    if es != [] {
      InducedEdgeCountNone(es[..|es| - 1], vs);
    }
  }

  /** The induced count of a concatenation is the sum of the counts. */
  lemma {:induction false} InducedEdgeCountAppend(a: seq<Edge>, b: seq<Edge>, vs: set<int>)
    ensures InducedEdgeCount(a + b, vs) == InducedEdgeCount(a, vs) + InducedEdgeCount(b, vs)
  {
    if b == [] {
      assert a + b == a;
    } else {
      var b' := b[..|b| - 1];
      InducedEdgeCountAppend(a, b', vs);
      assert (a + b)[..|a + b| - 1] == a + b';
    }
  }

  /** igraph_simplify: drops every edge that repeats an earlier one and, when
      `dropLoops` is set, every self-loop. The first copy of an edge is kept
      (igraph also re-sorts the edges; the order is not part of this model). */
  function Simplify(directed: bool, dropLoops: bool, es: seq<Edge>): (r: seq<Edge>)
    ensures |r| <= |es|
  {
    if es == [] then []
    else
      var r := Simplify(directed, dropLoops, es[..|es| - 1]);
      var e := es[|es| - 1];
      if (dropLoops && e.from == e.to) || HasEdge(directed, r, e) then r else r + [e]
  }

  /** Simplification leaves no multi-edge (and no loop if asked), invents no
      edge, and keeps one copy of every edge it was not asked to drop. */
  lemma {:induction false} SimplifySpec(directed: bool, dropLoops: bool, es: seq<Edge>)
    ensures NoMultiEdges(directed, Simplify(directed, dropLoops, es))
    ensures dropLoops ==> NoLoops(Simplify(directed, dropLoops, es))
    ensures forall e :: e in Simplify(directed, dropLoops, es) ==> e in es
    ensures forall e :: e in es && !(dropLoops && e.from == e.to) ==>
              HasEdge(directed, Simplify(directed, dropLoops, es), e)
  {
    if es != [] {
      var es' := es[..|es| - 1];
      var r := Simplify(directed, dropLoops, es');
      var e := es[|es| - 1];
      SimplifySpec(directed, dropLoops, es');
      assert es == es' + [e];
      if !((dropLoops && e.from == e.to) || HasEdge(directed, r, e)) {
        var r' := r + [e];
        forall i, j | 0 <= i < j < |r'|
          ensures !SameEdge(directed, r'[i], r'[j])
        {
          if j == |r| {
            assert r'[i] in r;
          }
        }
        forall f | f in es && !(dropLoops && f.from == f.to)
          ensures HasEdge(directed, r', f)
        {
          if f == e {
            assert e in r' && SameEdge(directed, e, f);
          } else {
            assert f in es';
            var w :| w in r && SameEdge(directed, w, f);
            assert w in r';
          }
        }
      }
    }
  }

  /** The edge set after simplification is the edge set before it, less loops
      when they are dropped. */
  lemma SimplifySameEdges(directed: bool, dropLoops: bool, es: seq<Edge>)
    requires !dropLoops || NoLoops(es)
    ensures SameEdgeSet(directed, Simplify(directed, dropLoops, es), es)
  {
    SimplifySpec(directed, dropLoops, es);
    var r := Simplify(directed, dropLoops, es);
    forall e | e in r ensures HasEdge(directed, es, e) {
      assert e in es && SameEdge(directed, e, e);
    }
    forall e | e in es ensures HasEdge(directed, r, e) {
      assert !(dropLoops && e.from == e.to);
    }
  }

  /** Every edge endpoint is a valid index of the vertex map `m`. */
  predicate Mappable(m: seq<int>, es: seq<Edge>) {
    forall e :: e in es ==> 0 <= e.from < |m| && 0 <= e.to < |m|
  }

  /** The edges relabelled through the vertex map `m`, in order. */
  function Image(m: seq<int>, es: seq<Edge>): seq<Edge>
    requires Mappable(m, es)
  {
    seq(|es|, i requires 0 <= i < |es| => Edge(m[es[i].from], m[es[i].to]))
  }

  /** The edge loop the tools run over a motif: each edge relabelled through
      mNodes and appended. */
  method AddImage(newEdges: seq<Edge>, mNodes: seq<int>, es: seq<Edge>) returns (r: seq<Edge>)
    requires Mappable(mNodes, es)
    ensures r == newEdges + Image(mNodes, es)
  {
    r := newEdges;
    var x := 0;
    while x < |es|
      invariant 0 <= x <= |es|
      invariant Mappable(mNodes, es[..x])
      invariant r == newEdges + Image(mNodes, es[..x])
    {
      assert es[..x + 1] == es[..x] + [es[x]];
      assert es[x] in es;
      r := r + [Edge(mNodes[es[x].from], mNodes[es[x].to])];
      x := x + 1;
    }
    assert es[..x] == es;
  }
}
