/** Overlap types of a motif (mcstats.c): two copies of the motif M glued
    along an overlap, and the catalogue of distinct overlap types.

    An overlap is a pair of equally long index lists (m1, m2): position i of
    the second copy's list, m2[i], is identified with the first copy's vertex
    m1[i]. The merged graph keeps the first copy on vertices 0..n-1, gives the
    second copy's remaining vertices the fresh IDs n, n+1, ... in ascending
    index order, and adds the second copy's edges through that map. */
module Merge {
  import opened Lists
  import opened Graphs
  import opened Instances

  /** An overlap of size k between two copies of an n-vertex motif: two lists
      of the same length k <= n with entries among the motif's vertices. */
  predicate Overlap(n: nat, m1: seq<int>, m2: seq<int>) {
    |m1| == |m2| <= n && Below(m1, n) && Below(m2, n)
  }

  /** The map vector after the overlap loop: filled with -1, then slot m2[i]
      set to m1[i] for i = 0, 1, ... (a later write wins). */
  function Overlay(n: nat, m1: seq<int>, m2: seq<int>): (r: seq<int>)
    requires |m1| == |m2| && Below(m2, n)
    ensures |r| == n
  {
    if m2 == [] then seq(n, _ => Sentinel)
    else Overlay(n, m1[..|m1| - 1], m2[..|m2| - 1])[m2[|m2| - 1] := m1[|m1| - 1]]
  }

  /** Number of unset (-1) slots in a map vector. */
  function Holes(s: seq<int>): (h: nat)
    ensures h <= |s|
  {
    if s == [] then 0
    else Holes(s[..|s| - 1]) + (if s[|s| - 1] == Sentinel then 1 else 0)
  }

  /** The renumbering loop: every unset slot gets the next fresh ID, counting
      up from `first`. */
  function Renumber(s: seq<int>, first: int): (r: seq<int>)
    ensures |r| == |s|
  {
    if s == [] then []
    else
      var last := s[|s| - 1];
      Renumber(s[..|s| - 1], first) + [if last == Sentinel then first + Holes(s[..|s| - 1]) else last]
  }

  /** The vertex map of merge_motifs: where each vertex of the second copy
      lands in the merged graph. */
  function MergeMap(n: nat, m1: seq<int>, m2: seq<int>): (r: seq<int>)
    requires Overlap(n, m1, m2)
    ensures |r| == n
  {
    Renumber(Overlay(n, m1, m2), n)
  }

  /** The merged graph: 2n - k vertices, the first copy's edges, the second
      copy's edges through the map, multi-edges removed and loops kept. */
  function Merged(m: Graph, m1: seq<int>, m2: seq<int>): Graph
    requires WellFormed(m) && Overlap(m.n, m1, m2)
  {
    var mp := MergeMap(m.n, m1, m2);
    Graph(m.n + (m.n - |m1|), m.directed, Simplify(m.directed, false, m.edges + Image(mp, m.edges)))
  }

  /** merge_motifs, step by step: copy M, add the missing vertices, fill the
      map, add the mapped edges, simplify. */
  method MergeMotifs(m: Graph, m1: seq<int>, m2: seq<int>) returns (res: Graph)
    requires WellFormed(m) && Overlap(m.n, m1, m2)
    ensures res == Merged(m, m1, m2)
  {
    var n := m.n;
    var remaining := n - |m1|;
    res := Graph(n + remaining, m.directed, m.edges);
    var vmap := FillMergeMap(n, m1, m2);
    var newEdges: seq<Edge> := [];
    var e := 0;
    while e < |m.edges|
      invariant 0 <= e <= |m.edges|
      invariant newEdges == Image(vmap, m.edges[..e])
    {
      newEdges := newEdges + [Edge(vmap[m.edges[e].from], vmap[m.edges[e].to])];
      e := e + 1;
    }
    assert m.edges[..|m.edges|] == m.edges;
    res := res.(edges := res.edges + newEdges);
    res := res.(edges := Simplify(res.directed, false, res.edges));
  }

  /** The map vector of merge_motifs: filled with -1, overlap slots set, then
      the unset slots numbered from n upwards. */
  method FillMergeMap(n: nat, m1: seq<int>, m2: seq<int>) returns (vmap: seq<int>)
    requires Overlap(n, m1, m2)
    ensures vmap == MergeMap(n, m1, m2)
  {
    var mp := new int[n](_ => Sentinel);
    assert mp[..] == seq(n, _ => Sentinel);
    assert m1[..0] == [] && m2[..0] == [];
    var i := 0;
    while i < |m1|
      invariant 0 <= i <= |m1|
      invariant mp[..] == Overlay(n, m1[..i], m2[..i])
    {
      ghost var before := mp[..];
      assert m1[..i + 1][..i] == m1[..i] && m2[..i + 1][..i] == m2[..i];
      mp[m2[i]] := m1[i];
      assert mp[..] == before[m2[i] := m1[i]];
      i := i + 1;
    }
    assert m1[..|m1|] == m1 && m2[..|m2|] == m2;
    NumberHoles(mp, n);
    vmap := mp[..];
  }

  /** The second pass of merge_motifs: every slot still holding -1 gets the
      next fresh vertex ID, counting from `first`. */
  method NumberHoles(mp: array<int>, first: int)
    modifies mp
    ensures mp[..] == Renumber(old(mp[..]), first)
  {
    ghost var ov := mp[..];
    var n := mp.Length;
    var j := first;
    var i := 0;
    while i < n
      invariant 0 <= i <= n
      invariant mp[..i] == Renumber(ov[..i], first)
      invariant forall k :: i <= k < n ==> mp[k] == ov[k]
      invariant j == first + Holes(ov[..i])
    {
      assert ov[..i + 1][..i] == ov[..i];
      if mp[i] == Sentinel {
        mp[i] := j;
        j := j + 1;
      }
      assert mp[..i + 1] == mp[..i] + [mp[i]];
      i := i + 1;
    }
    assert ov[..n] == ov;
  }

  /** With distinct overlap entries, slot x of the overlaid map holds the
      first-copy vertex that x is glued to, and -1 when x is not glued. */
  lemma {:induction false} OverlayAt(n: nat, m1: seq<int>, m2: seq<int>, x: int)
    requires Overlap(n, m1, m2) && NoDup(m2) && 0 <= x < n
    ensures Overlay(n, m1, m2)[x] == if x in m2 then m1[IndexOf(m2, x)] else Sentinel
  {
    if m2 != [] {
      var k := |m2| - 1;
      var m1', m2' := m1[..k], m2[..k];
      assert m2 == m2' + [m2[k]];
      OverlayAt(n, m1', m2', x);
      if x != m2[k] && x in m2' {
        IndexOfAppend(m2', [m2[k]], x);
      }
    }
  }

  /** Each overlap write fills one unset slot. */
  lemma {:induction false} HolesFill(s: seq<int>, i: nat, v: int)
    requires i < |s| && s[i] == Sentinel && v != Sentinel
    ensures Holes(s[i := v]) == Holes(s) - 1
  {
    var k := |s| - 1;
    assert s[i := v][..k] == if i == k then s[..k] else s[..k][i := v];
    if i < k {
      HolesFill(s[..k], i, v);
    }
  }

  /** A vector of n unset slots has n holes. */
  lemma {:induction false} HolesAllUnset(n: nat)
    ensures Holes(seq(n, _ => Sentinel)) == n
  {
    if n > 0 {
      HolesAllUnset(n - 1);
      assert seq(n, _ => Sentinel)[..n - 1] == seq(n - 1, _ => Sentinel);
    }
  }

  /** Holes count up along prefixes. */
  lemma {:induction false} HolesPrefix(s: seq<int>, i: nat, j: nat)
    requires i <= j <= |s|
    ensures Holes(s[..i]) + (if i < j && s[i] == Sentinel then 1 else 0) <= Holes(s[..j])
    decreases j
  {
    if i < j {
      assert s[..j][..j - 1] == s[..j - 1];
      if i < j - 1 {
        HolesPrefix(s, i, j - 1);
      }
    }
  }

  /** Every fresh number below the hole count is handed out at some unset
      slot. */
  lemma {:induction false} HolesHit(s: seq<int>, h: nat)
    requires h < Holes(s)
    ensures exists i :: 0 <= i < |s| && s[i] == Sentinel && Holes(s[..i]) == h
  {
    var k := |s| - 1;
    assert s[..k] == s[..|s| - 1];
    if h < Holes(s[..k]) {
      HolesHit(s[..k], h);
      var i :| 0 <= i < k && s[..k][i] == Sentinel && Holes(s[..k][..i]) == h;
      assert s[..k][..i] == s[..i];
    } else {
      assert s[k] == Sentinel && Holes(s[..k]) == h;
    }
  }

  /** The renumbering loop keeps every set slot and gives the unset slot at
      index i the fresh ID first + (number of unset slots before i). */
  lemma {:induction false} RenumberAt(s: seq<int>, first: int, i: nat)
    requires i < |s|
    ensures Renumber(s, first)[i] == if s[i] == Sentinel then first + Holes(s[..i]) else s[i]
  {
    var k := |s| - 1;
    if i < k {
      RenumberAt(s[..k], first, i);
      assert s[..k][..i] == s[..i];
    }
  }

  /** Where the merge map sends a vertex: a glued vertex to its first-copy
      partner, any other vertex x to the fresh ID n + (number of unglued
      vertices below x), which lies in [n, 2n-k). */
  lemma MergeMapAt(n: nat, m1: seq<int>, m2: seq<int>, x: nat)
    requires Overlap(n, m1, m2) && NoDup(m2) && x < n
    ensures x in m2 ==> MergeMap(n, m1, m2)[x] == m1[IndexOf(m2, x)]
    ensures x !in m2 ==> MergeMap(n, m1, m2)[x] == n + Holes(Overlay(n, m1, m2)[..x])
    ensures x !in m2 ==> n <= MergeMap(n, m1, m2)[x] < n + (n - |m1|)
  {
    var ov := Overlay(n, m1, m2);
    HolesOverlay(n, m1, m2);
    OverlayAt(n, m1, m2, x);
    RenumberAt(ov, n, x);
    if x !in m2 {
      HolesPrefix(ov, x, n);
      assert ov[..n] == ov;
    }
  }

  /** The glued vertex m2[i] goes to m1[i]. */
  lemma MergeMapGlued(n: nat, m1: seq<int>, m2: seq<int>, i: nat)
    requires Overlap(n, m1, m2) && NoDup(m2) && i < |m2|
    ensures MergeMap(n, m1, m2)[m2[i]] == m1[i]
  {
    IndexOfNoDup(m2, i);
    assert m2[i] in m2;
    MergeMapAt(n, m1, m2, m2[i]);
  }

  /** Unglued vertices get fresh IDs in ascending index order. */
  lemma MergeMapAscending(n: nat, m1: seq<int>, m2: seq<int>, x: nat, y: nat)
    requires Overlap(n, m1, m2) && NoDup(m2)
    requires x < y < n && x !in m2 && y !in m2
    ensures MergeMap(n, m1, m2)[x] < MergeMap(n, m1, m2)[y]
  {
    MergeMapAt(n, m1, m2, x);
    MergeMapAt(n, m1, m2, y);
    OverlayAt(n, m1, m2, x);
    HolesPrefix(Overlay(n, m1, m2), x, y);
  }

  /** With both overlap lists free of repeats the merge map is injective. */
  lemma MergeMapInjective(n: nat, m1: seq<int>, m2: seq<int>)
    requires Overlap(n, m1, m2) && NoDup(m1) && NoDup(m2)
    ensures NoDup(MergeMap(n, m1, m2))
  {
    var mp := MergeMap(n, m1, m2);
    forall x, y | 0 <= x < y < n ensures mp[x] != mp[y] {
      MergeMapAt(n, m1, m2, x);
      MergeMapAt(n, m1, m2, y);
      if x in m2 && y in m2 {
        assert m2[IndexOf(m2, x)] != m2[IndexOf(m2, y)];
      } else if x in m2 {
        assert Below(m1, n) && IndexOf(m2, x) < |m1|;
      } else if y in m2 {
        assert Below(m1, n) && IndexOf(m2, y) < |m1|;
      } else {
        MergeMapAscending(n, m1, m2, x, y);
      }
    }
  }

  /** The image of the merge map is the second copy as add_cluster_type lists
      it: the overlap vertices m1 and the fresh IDs n .. 2n-k-1. */
  lemma MergeMapImage(n: nat, m1: seq<int>, m2: seq<int>)
    requires Overlap(n, m1, m2) && NoDup(m2)
    ensures SetOf(MergeMap(n, m1, m2)) == SetOf(SecondCopy(n, m1))
  {
    var ov := Overlay(n, m1, m2);
    var mp := MergeMap(n, m1, m2);
    var sc := SecondCopy(n, m1);
    forall v | v in SetOf(mp) ensures v in SetOf(sc) {
      var x :| 0 <= x < n && mp[x] == v;
      MergeMapAt(n, m1, m2, x);
      if x in m2 {
        assert sc[IndexOf(m2, x)] == v;
      } else {
        assert sc[|m1| + (v - n)] == v;
      }
    }
    forall v | v in SetOf(sc) ensures v in SetOf(mp) {
      var p :| 0 <= p < |sc| && sc[p] == v;
      if p < |m1| {
        MergeMapGlued(n, m1, m2, p);
        assert mp[m2[p]] == v;
      } else {
        HolesOverlay(n, m1, m2);
        HolesHit(ov, p - |m1|);
        var x :| 0 <= x < n && ov[x] == Sentinel && Holes(ov[..x]) == p - |m1|;
        OverlayAt(n, m1, m2, x);
        MergeMapAt(n, m1, m2, x);
        assert mp[x] == v;
      }
    }
  }

  /** With distinct glued vertices, k writes leave exactly n - k slots unset. */
  lemma {:induction false} HolesOverlay(n: nat, m1: seq<int>, m2: seq<int>)
    requires Overlap(n, m1, m2) && NoDup(m2)
    ensures Holes(Overlay(n, m1, m2)) == n - |m1|
  {
    if m2 == [] {
      HolesAllUnset(n);
    } else {
      var k := |m2| - 1;
      var m1', m2' := m1[..k], m2[..k];
      assert m1 == m1' + [m1[k]];
      HolesOverlay(n, m1', m2');
      OverlayAt(n, m1', m2', m2[k]);
      assert m1[k] in m1;
      HolesFill(Overlay(n, m1', m2'), m2[k], m1[k]);
    }
  }

  /** The second copy's vertices in the merged graph, as add_cluster_type
      lists them: the overlap vertices m1, then the fresh IDs n, n+1, .... */
  function SecondCopy(n: nat, m1: seq<int>): (r: seq<int>)
    requires |m1| <= n
    ensures |r| == n
  {
    m1 + seq(n - |m1|, i => n + i)
  }

  /** The merged edge list is the first copy's edges plus the mapped second
      copy's edges, as a set, without a repeated edge. */
  lemma MergedEdges(m: Graph, m1: seq<int>, m2: seq<int>)
    requires WellFormed(m) && Overlap(m.n, m1, m2)
    ensures SameEdgeSet(m.directed, Merged(m, m1, m2).edges,
                        m.edges + Image(MergeMap(m.n, m1, m2), m.edges))
    ensures NoMultiEdges(m.directed, Merged(m, m1, m2).edges)
  {
    var es := m.edges + Image(MergeMap(m.n, m1, m2), m.edges);
    SimplifySameEdges(m.directed, false, es);
    SimplifySpec(m.directed, false, es);
  }

  /** With a genuine overlap (distinct glued vertices) the merged graph's
      edges join its own vertices. */
  lemma MergedWellFormed(m: Graph, m1: seq<int>, m2: seq<int>)
    requires WellFormed(m) && Overlap(m.n, m1, m2) && NoDup(m2)
    ensures WellFormed(Merged(m, m1, m2))
  {
    var mp := MergeMap(m.n, m1, m2);
    var es := m.edges + Image(mp, m.edges);
    forall x | 0 <= x < m.n ensures 0 <= mp[x] < m.n + (m.n - |m1|) {
      MergeMapAt(m.n, m1, m2, x);
      if x in m2 {
        assert IndexOf(m2, x) < |m1|;
      }
    }
    SimplifySpec(m.directed, false, es);
  }

  /** add_cluster_type's acceptance test: the induced subgraphs on the first
      copy (vertices 0..n-1) and on the second copy both keep exactly the
      motif's edge count, i.e. gluing created no extra edge inside a copy. */
  predicate Faithful(m: Graph, g: Graph, m1: seq<int>)
    requires |m1| <= m.n
  {
    InducedEdgeCount(g.edges, SetOf(Identity(m.n))) == |m.edges| &&
    InducedEdgeCount(g.edges, SetOf(SecondCopy(m.n, m1))) == |m.edges|
  }

  /** Some catalogue entry has the same vertex and edge counts as g and the
      subisomorphism oracle reports a match of it in g. */
  predicate Known(g: Graph, cTypes: seq<Graph>, subIso: (Graph, Graph) -> bool) {
    exists c :: c in cTypes && c.n == g.n && |c.edges| == |g.edges| && subIso(g, c)
  }

  /** The catalogue after one add_cluster_type call. */
  function AddType(cTypes: seq<Graph>, m: Graph, m1: seq<int>, m2: seq<int>,
                   subIso: (Graph, Graph) -> bool): (r: seq<Graph>)
    requires WellFormed(m) && Overlap(m.n, m1, m2)
    ensures r == cTypes || r == cTypes + [Merged(m, m1, m2)]
  {
    var g := Merged(m, m1, m2);
    if !Faithful(m, g, m1) || Known(g, cTypes, subIso) then cTypes else cTypes + [g]
  }

  /** add_cluster_type: merge, check both copies with a reused vertex-list
      buffer, then look for an equivalent entry and append when none is found. */
  method AddClusterType(cTypes: seq<Graph>, m: Graph, m1: seq<int>, m2: seq<int>,
                        subIso: (Graph, Graph) -> bool) returns (r: seq<Graph>)
    requires WellFormed(m) && Overlap(m.n, m1, m2)
    ensures r == AddType(cTypes, m, m1, m2, subIso)
  {
    var g := MergeMotifs(m, m1, m2);
    var n := m.n;
    var sel := new int[n];
    var i := 0;
    while i < n
      invariant 0 <= i <= n
      invariant forall k :: 0 <= k < i ==> sel[k] == k
    {
      sel[i] := i;
      i := i + 1;
    }
    assert sel[..] == Identity(n);
    var firstCount := InducedEdgeCount(g.edges, SetOf(sel[..]));
    if firstCount != |m.edges| {
      assert !Faithful(m, g, m1);
      return cTypes;
    }
    i := 0;
    while i < |m1|
      invariant 0 <= i <= |m1|
      invariant forall k :: 0 <= k < i ==> sel[k] == m1[k]
    {
      sel[i] := m1[i];
      i := i + 1;
    }
    i := 0;
    while i < n - |m1|
      invariant 0 <= i <= n - |m1|
      invariant forall k :: 0 <= k < |m1| + i ==> sel[k] == SecondCopy(n, m1)[k]
    {
      sel[|m1| + i] := n + i;
      i := i + 1;
    }
    assert sel[..] == SecondCopy(n, m1);
    var secondCount := InducedEdgeCount(g.edges, SetOf(sel[..]));
    if secondCount != |m.edges| {
      assert !Faithful(m, g, m1);
      return cTypes;
    }
    assert Faithful(m, g, m1);
    var found := FindType(g, cTypes, subIso);
    r := if found then cTypes else cTypes + [g];
  }

  /** The catalogue search of add_cluster_type: the first entry with equal
      vertex and edge counts that the subisomorphism oracle matches in g. */
  method FindType(g: Graph, cTypes: seq<Graph>, subIso: (Graph, Graph) -> bool) returns (found: bool)
    ensures found <==> Known(g, cTypes, subIso)
  {
    found := false;
    var i := 0;
    while i < |cTypes|
      invariant 0 <= i <= |cTypes|
      invariant forall k :: 0 <= k < i ==>
                  !(cTypes[k].n == g.n && |cTypes[k].edges| == |g.edges| && subIso(g, cTypes[k]))
    {
      var cur := cTypes[i];
      if g.n == cur.n && |g.edges| == |cur.edges| {
        if subIso(g, cur) {
          found := true;
          break;
        }
      }
      i := i + 1;
    }
  }

  /** An overlap pair tried by the enumeration: first-copy and second-copy
      index lists. */
  type Attempt = (seq<int>, seq<int>)

  /** Every attempt is an overlap with distinct glued second-copy vertices. */
  predicate Attempts(n: nat, tried: seq<Attempt>) {
    forall i :: 0 <= i < |tried| ==> Overlap(n, tried[i].0, tried[i].1) && NoDup(tried[i].1)
  }

  /** The catalogue after add_cluster_type has been called on each attempt in
      turn (an attempt that is not an overlap of the motif leaves it as it is;
      the enumeration never makes one). */
  function Catalogue(m: Graph, tried: seq<Attempt>, subIso: (Graph, Graph) -> bool): (c: seq<Graph>)
    requires WellFormed(m)
    ensures |c| <= |tried|
  {
    if tried == [] then []
    else
      var c := Catalogue(m, tried[..|tried| - 1], subIso);
      var p := tried[|tried| - 1];
      if Overlap(m.n, p.0, p.1) then AddType(c, m, p.0, p.1, subIso) else c
  }

  /** One more attempt: the catalogue is add_cluster_type applied to the
      previous one. */
  lemma CatalogueSnoc(m: Graph, tried: seq<Attempt>, p: Attempt, subIso: (Graph, Graph) -> bool)
    requires WellFormed(m) && Overlap(m.n, p.0, p.1)
    ensures Catalogue(m, tried + [p], subIso) == AddType(Catalogue(m, tried, subIso), m, p.0, p.1, subIso)
  {
    assert (tried + [p])[..|tried|] == tried;
  }

  /** The catalogue holds only faithful merges of attempted overlaps; no entry
      is matched by an earlier one of the same size; and every faithful
      attempted merge is in the catalogue or matched by an entry of its size. */
  lemma {:induction false} CatalogueSound(m: Graph, tried: seq<Attempt>, subIso: (Graph, Graph) -> bool)
    requires WellFormed(m) && Attempts(m.n, tried)
    ensures forall g :: g in Catalogue(m, tried, subIso) ==>
              exists p :: p in tried && g == Merged(m, p.0, p.1) && Faithful(m, g, p.0)
  {
    if tried != [] {
      var tried' := tried[..|tried| - 1];
      var p := tried[|tried| - 1];
      assert tried == tried' + [p];
      assert Attempts(m.n, tried');
      CatalogueSound(m, tried', subIso);
      var c := Catalogue(m, tried', subIso);
      forall g | g in Catalogue(m, tried, subIso)
        ensures exists q :: q in tried && g == Merged(m, q.0, q.1) && Faithful(m, g, q.0)
      {
        if g in c {
          var q :| q in tried' && g == Merged(m, q.0, q.1) && Faithful(m, g, q.0);
          assert q in tried;
        } else {
          assert g == Merged(m, p.0, p.1) && Faithful(m, g, p.0);
        }
      }
    }
  }

  lemma {:induction false} CatalogueDistinct(m: Graph, tried: seq<Attempt>, subIso: (Graph, Graph) -> bool)
    requires WellFormed(m)
    ensures forall i, j :: 0 <= i < j < |Catalogue(m, tried, subIso)| ==>
              var ci, cj := Catalogue(m, tried, subIso)[i], Catalogue(m, tried, subIso)[j];
              !(cj.n == ci.n && |cj.edges| == |ci.edges| && subIso(cj, ci))
  {
    if tried != [] {
      var tried' := tried[..|tried| - 1];
      CatalogueDistinct(m, tried', subIso);
      var c := Catalogue(m, tried', subIso);
      var c' := Catalogue(m, tried, subIso);
      if c' != c {
        var g := c'[|c'| - 1];
        assert c' == c + [g] && !Known(g, c, subIso);
        forall i, j | 0 <= i < j < |c'|
          ensures !(c'[j].n == c'[i].n && |c'[j].edges| == |c'[i].edges| && subIso(c'[j], c'[i]))
        {
          if j == |c| {
            assert c'[i] in c;
          }
        }
      }
    }
  }

  lemma {:induction false} CatalogueComplete(m: Graph, tried: seq<Attempt>, subIso: (Graph, Graph) -> bool)
    requires WellFormed(m) && Attempts(m.n, tried)
    ensures forall p :: p in tried && Faithful(m, Merged(m, p.0, p.1), p.0) ==>
              Merged(m, p.0, p.1) in Catalogue(m, tried, subIso) ||
              Known(Merged(m, p.0, p.1), Catalogue(m, tried, subIso), subIso)
  {
    if tried != [] {
      var tried' := tried[..|tried| - 1];
      var p := tried[|tried| - 1];
      assert tried == tried' + [p];
      assert Attempts(m.n, tried');
      CatalogueComplete(m, tried', subIso);
      var c := Catalogue(m, tried', subIso);
      var c' := Catalogue(m, tried, subIso);
      forall q | q in tried && Faithful(m, Merged(m, q.0, q.1), q.0)
        ensures Merged(m, q.0, q.1) in c' || Known(Merged(m, q.0, q.1), c', subIso)
      {
        var h := Merged(m, q.0, q.1);
        if q in tried' {
          if h !in c {
            var w :| w in c && w.n == h.n && |w.edges| == |h.edges| && subIso(h, w);
            assert w in c';
          }
        } else {
          assert q == p;
        }
      }
    }
  }
}
