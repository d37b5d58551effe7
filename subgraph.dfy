/** clean_subgraph (mcstats.c): the graph formed by two overlapping motif
    instances m1 and m2 of the host G, written on small vertex IDs.

    If the instances share no host vertex the answer is 1 ("no clustering").
    Otherwise the node map lists m1's host vertices, then m2's host vertices
    that are not in m1 in m2's order. The result starts as a copy of the motif
    M, so vertex k stands for m1[k]; one vertex is added per new node, and for
    every new node each host edge incident to it whose two ends both lie in m2
    is added between the positions of its ends in the node map. A final
    simplify removes multi-edges and self-loops. */
module Subgraphs {
  import opened Lists
  import opened Graphs

  /** Some vertex of m2 is also a vertex of m1. */
  predicate Overlaps(m1: seq<int>, m2: seq<int>) {
    exists i :: 0 <= i < |m2| && m2[i] in m1
  }

  /** The vertices of `s` that are not in m1, in order: the nodes that get a
      vertex of their own. */
  function NewNodes(m1: seq<int>, s: seq<int>): (r: seq<int>)
    ensures |r| <= |s|
  {
    if s == [] then []
    else NewNodes(m1, s[..|s| - 1]) + (if s[|s| - 1] in m1 then [] else [s[|s| - 1]])
  }

  /** The full mapping vector: position p of the result stands for host
      vertex NodeMap[p]. */
  function NodeMap(m1: seq<int>, m2: seq<int>): seq<int> {
    m1 + NewNodes(m1, m2)
  }

  /** The host edges incident to v, in or out, in edge-list order. */
  function Incident(es: seq<Edge>, v: int): seq<Edge> {
    if es == [] then []
    else
      var e := es[|es| - 1];
      Incident(es[..|es| - 1], v) + (if e.from == v || e.to == v then [e] else [])
  }

  /** The test an incident edge passes before it is added: both ends are
      vertices of m2 and both are found in the mapping vector. */
  predicate Keep(mp: seq<int>, m2: seq<int>, e: Edge) {
    e.from in m2 && e.to in m2 && e.from in mp && e.to in mp
  }

  /** An edge rewritten on positions of the mapping vector. */
  function Rename(mp: seq<int>, e: Edge): Edge
    requires e.from in mp && e.to in mp
  {
    Edge(IndexOf(mp, e.from), IndexOf(mp, e.to))
  }

  /** The edges a scan of `es` adds. */
  function Relabel(mp: seq<int>, m2: seq<int>, es: seq<Edge>): seq<Edge> {
    if es == [] then []
    else
      var e := es[|es| - 1];
      Relabel(mp, m2, es[..|es| - 1]) + (if Keep(mp, m2, e) then [Rename(mp, e)] else [])
  }

  /** The edges added while the new-node loop runs over positions lo .. hi-1. */
  function Added(es: seq<Edge>, mp: seq<int>, m2: seq<int>, lo: nat, hi: nat): seq<Edge>
    requires lo <= hi <= |mp|
    decreases hi - lo
  {
    if hi == lo then []
    else Added(es, mp, m2, lo, hi - 1) + Relabel(mp, m2, Incident(es, mp[hi - 1]))
  }

  /** The clean subgraph of two overlapping instances. */
  function Subgraph(g: Graph, m: Graph, m1: seq<int>, m2: seq<int>): Graph {
    var mp := NodeMap(m1, m2);
    Graph(m.n + |NewNodes(m1, m2)|, m.directed,
          Simplify(m.directed, true, m.edges + Added(g.edges, mp, m2, |m1|, |mp|)))
  }

  /** clean_subgraph: returns 1 when the instances share no vertex and 0 with
      the clean subgraph otherwise. */
  method CleanSubgraph(g: Graph, m: Graph, m1: seq<int>, m2: seq<int>) returns (r: int, res: Graph)
    requires |m1| == m.n && |m2| == m.n
    ensures r == (if Overlaps(m1, m2) then 0 else 1)
    ensures r == 0 ==> res == Subgraph(g, m, m1, m2)
  {
    var found := SharedCount(m1, m2);
    if found == 0 {
      return 1, m;
    }
    var nodes;
    nodes, res := NumberNodes(m, m1, m2);
    var es := AddEdges(g, nodes, m2, |m1|, res.edges);
    res := res.(edges := es);
    res := res.(edges := Simplify(res.directed, true, res.edges));
    r := 0;
  }

  /** The edge loop of clean_subgraph over the new nodes, positions lo and
      up of the mapping vector. */
  method AddEdges(g: Graph, nodes: seq<int>, m2: seq<int>, lo: nat, edges: seq<Edge>) returns (r: seq<Edge>)
    requires lo <= |nodes|
    ensures r == edges + Added(g.edges, nodes, m2, lo, |nodes|)
  {
    r := edges;
    var i := lo;
    while i < |nodes|
      invariant lo <= i <= |nodes|
      invariant r == edges + Added(g.edges, nodes, m2, lo, i)
    {
      r := AddIncident(g, nodes, m2, i, r);
      i := i + 1;
    }
  }

  /** The mapping vector of clean_subgraph, 2 * |m1| slots filled with -1,
      then m1, then each vertex of m2 that the scan does not find in m1; the
      copy of the motif gains one vertex per such node. */
  method NumberNodes(m: Graph, m1: seq<int>, m2: seq<int>) returns (nodes: seq<int>, res: Graph)
    requires |m1| == m.n && |m2| == m.n
    ensures nodes == NodeMap(m1, m2)
    ensures res == Graph(m.n + |NewNodes(m1, m2)|, m.directed, m.edges)
  {
    var mSize := |m1|;
    var mp := InitMap(m1);
    var mapSize := mSize;
    res := m;
    var i := 0;
    while i < mSize
      invariant 0 <= i <= mSize
      invariant mSize <= mapSize <= mSize + i
      invariant mp[..mapSize] == m1 + NewNodes(m1, m2[..i])
      invariant res == Graph(m.n + (mapSize - mSize), m.directed, m.edges)
    {
      assert m2[..i + 1][..i] == m2[..i];
      var inFirst := InList(m1, m2[i]);
      if !inFirst {
        mp[mapSize] := m2[i];
        res := res.(n := res.n + 1);
        mapSize := mapSize + 1;
      }
      i := i + 1;
    }
    assert m2[..mSize] == m2;
    nodes := mp[..mapSize];
  }

  /** A fresh mapping vector of 2 * |m1| slots: -1 everywhere, then m1 in
      the first |m1| slots. */
  method InitMap(m1: seq<int>) returns (mp: array<int>)
    ensures fresh(mp) && mp.Length == 2 * |m1|
    ensures mp[..|m1|] == m1
    ensures forall k :: |m1| <= k < mp.Length ==> mp[k] == -1
  {
    var mSize := |m1|;
    mp := new int[mSize * 2];
    var i := 0;
    while i < mSize * 2
      invariant 0 <= i <= mSize * 2
      invariant forall k :: 0 <= k < i ==> mp[k] == -1
    {
      mp[i] := -1;
      i := i + 1;
    }
    i := 0;
    while i < mSize
      invariant 0 <= i <= mSize
      invariant forall k :: 0 <= k < i ==> mp[k] == m1[k]
      invariant forall k :: mSize <= k < mp.Length ==> mp[k] == -1
    {
      mp[i] := m1[i];
      i := i + 1;
    }
  }

  /** The overlap test of clean_subgraph: for each vertex of m2 in turn, scan
      m1; the count is bumped once and both loops stop at the first hit. */
  method SharedCount(m1: seq<int>, m2: seq<int>) returns (found: int)
    requires |m1| == |m2|
    ensures found == (if Overlaps(m1, m2) then 1 else 0)
  {
    var mSize := |m1|;
    found := 0;
    var i := 0;
    while i < mSize
      invariant 0 <= i <= mSize
      invariant found == 0
      invariant forall k :: 0 <= k < i ==> m2[k] !in m1
    {
      var j := 0;
      while j < mSize
        invariant 0 <= j <= mSize
        invariant found == 0 && m2[i] !in m1[..j]
      {
        if m2[i] == m1[j] {
          found := found + 1;
          break;
        }
        assert m1[..j + 1] == m1[..j] + [m1[j]];
        j := j + 1;
      }
      if found == 1 {
        return;
      }
      assert m1[..mSize] == m1;
      i := i + 1;
    }
  }

  /** The scan of m1 for one vertex of m2 in the node-numbering loop. */
  method InList(m1: seq<int>, x: int) returns (found: bool)
    ensures found <==> x in m1
  {
    found := false;
    var j := 0;
    while j < |m1|
      invariant 0 <= j <= |m1|
      invariant x !in m1[..j]
    {
      if x == m1[j] {
        found := true;
        break;
      }
      assert m1[..j + 1] == m1[..j] + [m1[j]];
      j := j + 1;
    }
    assert m1[..|m1|] == m1;
  }

  /** One pass of the edge loop: every edge incident to the node at position
      i whose ends are both in m2 is appended, rewritten on node-map positions. */
  method AddIncident(g: Graph, nodes: seq<int>, m2: seq<int>, i: nat, edges: seq<Edge>)
    returns (r: seq<Edge>)
    requires i < |nodes|
    ensures r == edges + Relabel(nodes, m2, Incident(g.edges, nodes[i]))
  {
    var inc := Incident(g.edges, nodes[i]);
    r := edges;
    var t := 0;
    while t < |inc|
      invariant 0 <= t <= |inc|
      invariant r == edges + Relabel(nodes, m2, inc[..t])
    {
      assert inc[..t + 1][..t] == inc[..t];
      var e := inc[t];
      if e.from in m2 && e.to in m2 {
        if e.from in nodes && e.to in nodes {
          r := r + [Edge(IndexOf(nodes, e.from), IndexOf(nodes, e.to))];
        }
      }
      t := t + 1;
    }
    assert inc[..|inc|] == inc;
  }

  // ---------------------------------------------------------------------
  // Properties

  /** A new node is exactly a vertex of `s` outside m1. */
  lemma {:induction false} NewNodesMember(m1: seq<int>, s: seq<int>)
    ensures forall x :: x in NewNodes(m1, s) <==> x in s && x !in m1
  {
    if s != [] {
      var s' := s[..|s| - 1];
      NewNodesMember(m1, s');
      assert s == s' + [s[|s| - 1]];
    }
  }

  /** New nodes of an injective instance are listed once each. */
  lemma {:induction false} NewNodesNoDup(m1: seq<int>, s: seq<int>)
    requires NoDup(s)
    ensures NoDup(NewNodes(m1, s))
  {
    if s != [] {
      var s' := s[..|s| - 1];
      NewNodesNoDup(m1, s');
      NewNodesMember(m1, s');
      assert s[|s| - 1] !in s';
    }
  }

  /** For injective instances the node map lists every vertex once. */
  lemma NodeMapNoDup(m1: seq<int>, m2: seq<int>)
    requires NoDup(m1) && NoDup(m2)
    ensures NoDup(NodeMap(m1, m2))
  {
    var nn := NewNodes(m1, m2);
    var mp := NodeMap(m1, m2);
    NewNodesMember(m1, m2);
    NewNodesNoDup(m1, m2);
    forall a, b | 0 <= a < b < |mp| ensures mp[a] != mp[b] {
      if b >= |m1| && a < |m1| {
        assert mp[b] == nn[b - |m1|];
        assert mp[b] in nn && mp[a] in m1;
      } else if a >= |m1| {
        assert mp[a] == nn[a - |m1|] && mp[b] == nn[b - |m1|];
      }
    }
  }

  /** The node map holds the vertices of both instances and no other. */
  lemma NodeMapSet(m1: seq<int>, m2: seq<int>)
    ensures SetOf(NodeMap(m1, m2)) == SetOf(m1) + SetOf(m2)
  {
    var nn := NewNodes(m1, m2);
    NewNodesMember(m1, m2);
    var mp := NodeMap(m1, m2);
    forall x | x in SetOf(mp) ensures x in SetOf(m1) + SetOf(m2) {
      var k :| 0 <= k < |mp| && mp[k] == x;
      if k >= |m1| {
        assert x == nn[k - |m1|];
      }
    }
    forall x | x in SetOf(m1) + SetOf(m2) ensures x in SetOf(mp) {
      if x in m1 {
        var k :| 0 <= k < |m1| && m1[k] == x;
        assert mp[k] == x;
      } else {
        assert x in nn;
        var k :| 0 <= k < |nn| && nn[k] == x;
        assert mp[|m1| + k] == x;
      }
    }
  }

  /** For injective instances the node map has one entry per vertex of the
      union of the two instances. */
  lemma NodeMapSize(m1: seq<int>, m2: seq<int>)
    requires NoDup(m1) && NoDup(m2)
    ensures |NodeMap(m1, m2)| == |SetOf(m1) + SetOf(m2)|
  {
    NodeMapNoDup(m1, m2);
    NodeMapSet(m1, m2);
    NoDupCard(NodeMap(m1, m2));
  }

  /** The vertex count of the clean subgraph is the size of the union of the
      two instances' vertex sets. */
  lemma SubgraphSize(g: Graph, m: Graph, m1: seq<int>, m2: seq<int>)
    requires |m1| == m.n && NoDup(m1) && NoDup(m2)
    ensures Subgraph(g, m, m1, m2).n == |SetOf(m1) + SetOf(m2)|
  {
    NodeMapSize(m1, m2);
  }

  /** Positions below |m1| hold exactly the vertices of m1. */
  lemma NodeMapIndex(m1: seq<int>, m2: seq<int>, x: int)
    requires x in m1 || x in m2
    ensures x in NodeMap(m1, m2)
    ensures IndexOf(NodeMap(m1, m2), x) < |m1| <==> x in m1
  {
    NewNodesMember(m1, m2);
    var mp := NodeMap(m1, m2);
    if x in m1 {
      IndexOfAppend(m1, NewNodes(m1, m2), x);
    } else {
      assert x in NewNodes(m1, m2);
      assert x in mp;
    }
  }

  lemma {:induction false} IncidentMember(es: seq<Edge>, v: int)
    ensures forall e :: e in Incident(es, v) <==> e in es && (e.from == v || e.to == v)
  {
    if es != [] {
      IncidentMember(es[..|es| - 1], v);
      assert es == es[..|es| - 1] + [es[|es| - 1]];
    }
  }

  lemma {:induction false} RelabelMember(mp: seq<int>, m2: seq<int>, es: seq<Edge>)
    ensures forall f :: f in Relabel(mp, m2, es) ==>
              exists e :: e in es && Keep(mp, m2, e) && f == Rename(mp, e)
    ensures forall e :: e in es && Keep(mp, m2, e) ==> Rename(mp, e) in Relabel(mp, m2, es)
  {
    if es != [] {
      var es' := es[..|es| - 1];
      RelabelMember(mp, m2, es');
      assert es == es' + [es[|es| - 1]];
    }
  }

  /** The edge e, incident to the node at position i of the nodes, passes the
      test of the edge loop. */
  predicate Via(mp: seq<int>, m2: seq<int>, i: int, e: Edge) {
    0 <= i < |mp| && (e.from == mp[i] || e.to == mp[i]) && Keep(mp, m2, e)
  }

  /** What the edge loop over positions lo .. hi-1 adds: the renamed host
      edges incident to one of those positions that pass the test, and all of
      them. */
  lemma {:induction false} AddedMember(es: seq<Edge>, mp: seq<int>, m2: seq<int>, lo: nat, hi: nat)
    requires lo <= hi <= |mp|
    ensures forall f :: f in Added(es, mp, m2, lo, hi) ==>
              exists i, e :: lo <= i < hi && e in es && Via(mp, m2, i, e) && f == Rename(mp, e)
    ensures forall i, e :: lo <= i < hi && e in es && Via(mp, m2, i, e) ==>
              Rename(mp, e) in Added(es, mp, m2, lo, hi)
    decreases hi - lo
  {
    if hi > lo {
      AddedMember(es, mp, m2, lo, hi - 1);
      var inc := Incident(es, mp[hi - 1]);
      IncidentMember(es, mp[hi - 1]);
      RelabelMember(mp, m2, inc);
      forall f | f in Added(es, mp, m2, lo, hi)
        ensures exists i, e :: lo <= i < hi && e in es && Via(mp, m2, i, e) && f == Rename(mp, e)
      {
        if f !in Added(es, mp, m2, lo, hi - 1) {
          var e :| e in inc && Keep(mp, m2, e) && f == Rename(mp, e);
          assert Via(mp, m2, hi - 1, e);
        }
      }
      forall i, e | lo <= i < hi && e in es && Via(mp, m2, i, e)
        ensures Rename(mp, e) in Added(es, mp, m2, lo, hi)
      {
        if i == hi - 1 {
          assert e in inc;
        }
      }
    }
  }

  /** A host edge crosses into the second instance's new part: both ends are
      in m2 and at least one is not in m1. */
  predicate Crosses(m1: seq<int>, m2: seq<int>, e: Edge) {
    e.from in m2 && e.to in m2 && (e.from !in m1 || e.to !in m1)
  }

  /** f is the crossing host edge e written on node-map positions. */
  predicate Carries(m1: seq<int>, m2: seq<int>, e: Edge, f: Edge) {
    Crosses(m1, m2, e) && e.from in NodeMap(m1, m2) && e.to in NodeMap(m1, m2) &&
    f == Rename(NodeMap(m1, m2), e)
  }

  /** The edges of the new-node loop are exactly the crossing host edges,
      renamed on node-map positions. */
  lemma AddedCrossing(g: Graph, m1: seq<int>, m2: seq<int>)
    ensures forall e :: e in g.edges && Crosses(m1, m2, e) ==>
              e.from in NodeMap(m1, m2) && e.to in NodeMap(m1, m2) &&
              Rename(NodeMap(m1, m2), e) in Added(g.edges, NodeMap(m1, m2), m2, |m1|, |NodeMap(m1, m2)|)
    ensures forall f :: f in Added(g.edges, NodeMap(m1, m2), m2, |m1|, |NodeMap(m1, m2)|) ==>
              exists e :: e in g.edges && Carries(m1, m2, e, f)
  {
    var mp := NodeMap(m1, m2);
    var nn := NewNodes(m1, m2);
    NewNodesMember(m1, m2);
    AddedMember(g.edges, mp, m2, |m1|, |mp|);
    forall e | e in g.edges && Crosses(m1, m2, e)
      ensures e.from in mp && e.to in mp && Rename(mp, e) in Added(g.edges, mp, m2, |m1|, |mp|)
    {
      NodeMapIndex(m1, m2, e.from);
      NodeMapIndex(m1, m2, e.to);
      var v := if e.from !in m1 then e.from else e.to;
      assert v in nn;
      var k :| 0 <= k < |nn| && nn[k] == v;
      assert mp[|m1| + k] == v;
      assert Via(mp, m2, |m1| + k, e);
    }
    forall f | f in Added(g.edges, mp, m2, |m1|, |mp|)
      ensures exists e :: e in g.edges && Carries(m1, m2, e, f)
    {
      var i, e :| |m1| <= i < |mp| && e in g.edges && Via(mp, m2, i, e) && f == Rename(mp, e);
      assert mp[i] == nn[i - |m1|];
      assert mp[i] !in m1;
      assert Carries(m1, m2, e, f);
    }
  }

  /** Renaming undoes itself through the node map: the renamed edge joins
      the positions of the host edge's two ends. */
  lemma RenameBack(mp: seq<int>, e: Edge)
    requires e.from in mp && e.to in mp
    ensures mp[Rename(mp, e).from] == e.from && mp[Rename(mp, e).to] == e.to
    ensures Rename(mp, e).from == Rename(mp, e).to <==> e.from == e.to
  {
  }

  /** The clean subgraph is the motif's own edge set (first instance) plus the
      crossing host edges of the second instance, renamed on node-map positions,
      without multi-edges or self-loops. */
  lemma SubgraphEdges(g: Graph, m: Graph, m1: seq<int>, m2: seq<int>)
    ensures NoMultiEdges(m.directed, Subgraph(g, m, m1, m2).edges)
    ensures NoLoops(Subgraph(g, m, m1, m2).edges)
    ensures forall f :: f in Subgraph(g, m, m1, m2).edges ==>
              f in m.edges || exists e :: e in g.edges && Carries(m1, m2, e, f)
    ensures forall f :: f in m.edges && f.from != f.to ==>
              HasEdge(m.directed, Subgraph(g, m, m1, m2).edges, f)
    ensures forall e :: e in g.edges && Crosses(m1, m2, e) && e.from != e.to ==>
              e.from in NodeMap(m1, m2) && e.to in NodeMap(m1, m2) &&
              HasEdge(m.directed, Subgraph(g, m, m1, m2).edges, Rename(NodeMap(m1, m2), e))
  {
    var mp := NodeMap(m1, m2);
    var added := Added(g.edges, mp, m2, |m1|, |mp|);
    SimplifySpec(m.directed, true, m.edges + added);
    AddedCrossing(g, m1, m2);
    forall e | e in g.edges && Crosses(m1, m2, e) && e.from != e.to
      ensures HasEdge(m.directed, Subgraph(g, m, m1, m2).edges, Rename(mp, e))
    {
      RenameBack(mp, e);
      assert Rename(mp, e) in m.edges + added;
    }
  }

  /** Every edge of the clean subgraph joins two of its vertices. */
  lemma SubgraphWellFormed(g: Graph, m: Graph, m1: seq<int>, m2: seq<int>)
    requires WellFormed(m) && |m1| == m.n
    ensures WellFormed(Subgraph(g, m, m1, m2))
  {
    var mp := NodeMap(m1, m2);
    var sub := Subgraph(g, m, m1, m2);
    SubgraphEdges(g, m, m1, m2);
    forall f | f in sub.edges ensures 0 <= f.from < sub.n && 0 <= f.to < sub.n {
      if f !in m.edges {
        var e :| e in g.edges && Carries(m1, m2, e, f);
      }
    }
  }
}
