/** motif_extract (mcextract.c): the subgraph of the host made of the motif's
    unique instances. The instances are cleaned and deduplicated as in
    mcstats; then the output graph grows one instance at a time. nMaps lists
    the host vertices taken over, in order of first appearance, and the
    output vertex k stands for host vertex nMaps[k]; each instance adds the
    vertices it brings and the motif's edges relabelled through the instance.
    A final simplify removes repeated edges and self-loops. */
module Extract {
  import opened Lists
  import opened Graphs
  import opened Instances

  /** The motif is well formed and every instance has one entry per motif
      vertex. */
  predicate Fits(m: Graph, acts: seq<seq<int>>) {
    WellFormed(m) && forall i :: 0 <= i < |acts| ==> |acts[i]| == m.n
  }

  /** The entries of the instances, instance after instance. */
  function Flatten(acts: seq<seq<int>>): seq<int> {
    if acts == [] then [] else Flatten(acts[..|acts| - 1]) + acts[|acts| - 1]
  }

  /** nMaps once the instances have been taken over: every host vertex they
      use, once, in order of first appearance. */
  function Known(acts: seq<seq<int>>): seq<int> {
    Distinct(Flatten(acts))
  }

  /** newMap for an instance once nMaps holds its vertices: the output ID of
      each of its entries. */
  function Remap(nMaps: seq<int>, cur: seq<int>): (r: seq<int>)
    requires forall j :: 0 <= j < |cur| ==> cur[j] in nMaps
    ensures |r| == |cur|
    ensures forall j :: 0 <= j < |cur| ==> 0 <= r[j] < |nMaps| && nMaps[r[j]] == cur[j]
  {
    seq(|cur|, j requires 0 <= j < |cur| => IndexOf(nMaps, cur[j]))
  }

  /** The edges added before the simplify: for each instance in turn, the
      motif's edges through that instance's newMap. */
  function Grown(m: Graph, acts: seq<seq<int>>): seq<Edge>
    requires Fits(m, acts)
  {
    if acts == [] then [] else Grown(m, acts[..|acts| - 1]) + LastImage(m, acts)
  }

  /** The edges the last instance adds: the motif's edges through its
      newMap. */
  function LastImage(m: Graph, acts: seq<seq<int>>): (r: seq<Edge>)
    requires Fits(m, acts) && acts != []
    ensures |r| == |m.edges|
  {
    KnownHasAll(acts, |acts| - 1);
    Image(Remap(Known(acts), acts[|acts| - 1]), m.edges)
  }

  /** The output graph for the unique instances `acts`. */
  function Extracted(directed: bool, m: Graph, acts: seq<seq<int>>): Graph
    requires Fits(m, acts)
  {
    Graph(|Known(acts)|, directed, Simplify(directed, true, Grown(m, acts)))
  }

  /** Motif edge t of instance i, in output IDs. */
  function Lift(m: Graph, acts: seq<seq<int>>, i: int, t: int): (e: Edge)
    requires Fits(m, acts) && 0 <= i < |acts| && 0 <= t < |m.edges|
    ensures 0 <= e.from < |Known(acts)| && 0 <= e.to < |Known(acts)|
    ensures Known(acts)[e.from] == acts[i][m.edges[t].from]
    ensures Known(acts)[e.to] == acts[i][m.edges[t].to]
  {
    var f := m.edges[t];
    assert f in m.edges;
    KnownHas(acts, i, f.from);
    KnownHas(acts, i, f.to);
    Edge(IndexOf(Known(acts), acts[i][f.from]), IndexOf(Known(acts), acts[i][f.to]))
  }

  // ---------------------------------------------------------------------
  // The tool

  /** The whole run: the oracle's mapping list in, the grown and simplified
      graph and the vertex list nMaps out. */
  method MotifExtract(g: Graph, m: Graph, found: seq<seq<int>>) returns (outG: Graph, nMaps: seq<int>)
    requires WellFormed(m) && Shaped(found, m.n)
    ensures var acts := UniqueInstances(g, m, found);
            Fits(m, acts) && nMaps == Known(acts) && outG == Extracted(g.directed, m, acts)
  {
    var acts := FindInstances(g, m, found);
    UniqueFits(g, m, found);
    outG, nMaps := Grow(g.directed, m, acts);
    outG := Graph(outG.n, outG.directed, Simplify(g.directed, true, outG.edges));
  }

  /** The unique instances have one entry per motif vertex. */
  lemma UniqueFits(g: Graph, m: Graph, found: seq<seq<int>>)
    requires WellFormed(m) && Shaped(found, m.n)
    ensures Fits(m, UniqueInstances(g, m, found))
  {
    var acts := UniqueInstances(g, m, found);
    forall i | 0 <= i < |acts| ensures |acts[i]| == m.n {
      assert acts[i] in acts;
    }
  }

  /** The growing loop: from the empty graph, one instance at a time. */
  method Grow(directed: bool, m: Graph, acts: seq<seq<int>>) returns (outG: Graph, nMaps: seq<int>)
    requires Fits(m, acts)
    ensures nMaps == Known(acts)
    ensures outG == Graph(|Known(acts)|, directed, Grown(m, acts))
  {
    outG := Empty(0, directed);
    nMaps := [];
    var newMap := seq(m.n, _ => 0);
    var i := 0;
    while i < |acts|
      invariant 0 <= i <= |acts|
      invariant nMaps == Known(acts[..i])
      invariant outG == Graph(|nMaps|, directed, Grown(m, acts[..i]))
      invariant |newMap| == m.n
    {
      outG, nMaps, newMap := AddInstance(m, acts, i, outG, nMaps, newMap);
      i := i + 1;
    }
    assert acts[..i] == acts;
  }

  /** One instance: its vertices taken over, the vertices added, the motif's
      edges added through newMap. */
  method AddInstance(m: Graph, acts: seq<seq<int>>, i: nat, outG: Graph, nMaps: seq<int>, newMap: seq<int>)
    returns (outG': Graph, nMaps': seq<int>, newMap': seq<int>)
    requires Fits(m, acts) && i < |acts| && |newMap| == m.n
    requires nMaps == Known(acts[..i]) && outG == Graph(|nMaps|, outG.directed, Grown(m, acts[..i]))
    ensures nMaps' == Known(acts[..i + 1]) && |newMap'| == m.n
    ensures outG' == Graph(|nMaps'|, outG.directed, Grown(m, acts[..i + 1]))
  {
    var toAdd;
    ghost var seen := Flatten(acts[..i]);
    nMaps', newMap', toAdd := RemapInstance(nMaps, seen, acts[i], newMap);
    ExtendOne(m, acts, i);
    outG' := Graph(outG.n + toAdd, outG.directed, outG.edges);
    var es := AddImage(outG'.edges, newMap', m.edges);
    outG' := Graph(outG'.n, outG'.directed, es);
  }

  /** The per-instance pass: look each entry up in nMaps, reuse its output ID
      or append it with the next one, and count the vertices appended. */
  method RemapInstance(nMaps: seq<int>, ghost seen: seq<int>, cur: seq<int>, newMap: seq<int>)
    returns (nMaps': seq<int>, newMap': seq<int>, toAdd: nat)
    requires nMaps == Distinct(seen) && |newMap| == |cur|
    ensures nMaps' == Distinct(seen + cur)
    ensures forall j :: 0 <= j < |cur| ==> cur[j] in nMaps'
    ensures newMap' == Remap(nMaps', cur)
    ensures |nMaps'| == |nMaps| + toAdd
  {
    var p := Pass(nMaps, newMap, 0);
    var j := 0;
    while j < |cur|
      invariant 0 <= j <= |cur|
      invariant p == Passed(Pass(nMaps, newMap, 0), cur, j)
    {
      p := TakeOver(p, cur[j], j);
      j := j + 1;
    }
    PassedDistinct(seen, Pass(nMaps, newMap, 0), cur, j);
    PassedMapped(Pass(nMaps, newMap, 0), cur, j);
    PassedCount(Pass(nMaps, newMap, 0), cur, j);
    assert cur[..j] == cur;
    MappedAll(p.nMaps, cur, p.newMap);
    nMaps', newMap', toAdd := p.nMaps, p.newMap, p.toAdd;
  }

  /** The state of the per-instance pass. */
  datatype Pass = Pass(nMaps: seq<int>, newMap: seq<int>, toAdd: nat)

  /** What the pass does with entry j, of value x. */
  function Entry(p: Pass, x: int, j: int): (r: Pass)
    requires 0 <= j < |p.newMap|
    ensures |r.newMap| == |p.newMap|
  {
    if x in p.nMaps then Pass(p.nMaps, p.newMap[j := IndexOf(p.nMaps, x)], p.toAdd)
    else Pass(p.nMaps + [x], p.newMap[j := |p.nMaps|], p.toAdd + 1)
  }

  /** The state after the first j entries of cur. */
  function Passed(p0: Pass, cur: seq<int>, j: nat): (r: Pass)
    requires j <= |cur| && |p0.newMap| == |cur|
    ensures |r.newMap| == |cur|
  {
    if j == 0 then p0 else Entry(Passed(p0, cur, j - 1), cur[j - 1], j - 1)
  }

  /** After the first j entries, nMaps is Distinct of everything seen. */
  lemma {:induction false} PassedDistinct(seen: seq<int>, p0: Pass, cur: seq<int>, j: nat)
    requires j <= |cur| && |p0.newMap| == |cur| && p0.nMaps == Distinct(seen)
    ensures Passed(p0, cur, j).nMaps == Distinct(seen + cur[..j])
  {
    if j == 0 {
      assert seen + cur[..0] == seen;
    } else {
      PassedDistinct(seen, p0, cur, j - 1);
      var q := Passed(p0, cur, j - 1);
      EntrySpec(q, cur[j - 1], j - 1);
      DistinctStep(seen, cur, j, q.nMaps);
    }
  }

  /** After the first j entries, newMap holds their output IDs. */
  lemma {:induction false} PassedMapped(p0: Pass, cur: seq<int>, j: nat)
    requires j <= |cur| && |p0.newMap| == |cur|
    ensures MappedUpTo(Passed(p0, cur, j).nMaps, cur, Passed(p0, cur, j).newMap, j)
  {
    if j > 0 {
      PassedMapped(p0, cur, j - 1);
      EntryMapped(Passed(p0, cur, j - 1), Passed(p0, cur, j), cur, j - 1);
    }
  }

  /** Entry j keeps the earlier IDs and maps entry j. */
  lemma EntryMapped(q: Pass, r: Pass, cur: seq<int>, j: nat)
    requires MappedUpTo(q.nMaps, cur, q.newMap, j) && j < |cur|
    requires r == Entry(q, cur[j], j)
    ensures MappedUpTo(r.nMaps, cur, r.newMap, j + 1)
  {
    var x := cur[j];
    var after := if x in q.nMaps then q.nMaps else q.nMaps + [x];
    EntrySpec(q, x, j);
    MappedStep(q.nMaps, after, cur, q.newMap, j);
  }

  /** toAdd counts the vertices the first j entries append. */
  lemma {:induction false} PassedCount(p0: Pass, cur: seq<int>, j: nat)
    requires j <= |cur| && |p0.newMap| == |cur|
    ensures var p := Passed(p0, cur, j); |p.nMaps| + p0.toAdd == |p0.nMaps| + p.toAdd
  {
    if j > 0 {
      PassedCount(p0, cur, j - 1);
    }
  }

  /** Entry appends the value when nMaps lacks it, and records its ID. */
  lemma EntrySpec(q: Pass, x: int, j: int)
    requires 0 <= j < |q.newMap|
    ensures var after := if x in q.nMaps then q.nMaps else q.nMaps + [x];
            x in after &&
            Entry(q, x, j) == Pass(after, q.newMap[j := IndexOf(after, x)],
                                   q.toAdd + if x in q.nMaps then 0 else 1) &&
            forall y :: y in q.nMaps ==> y in after && IndexOf(after, y) == IndexOf(q.nMaps, y)
  {
    if x !in q.nMaps {
      var after := q.nMaps + [x];
      assert after[|q.nMaps|] == x;
      forall y | y in q.nMaps ensures y in after && IndexOf(after, y) == IndexOf(q.nMaps, y) {
        IndexOfAppend(q.nMaps, [x], y);
      }
    }
  }

  /** One more entry of cur: Distinct appends it unless already there. */
  lemma DistinctStep(seen: seq<int>, cur: seq<int>, j: nat, before: seq<int>)
    requires 0 < j <= |cur| && before == Distinct(seen + cur[..j - 1])
    ensures Distinct(seen + cur[..j]) ==
              if cur[j - 1] in before then before else before + [cur[j - 1]]
  {
    assert seen + cur[..j] == (seen + cur[..j - 1]) + [cur[j - 1]];
    DistinctSnoc(seen + cur[..j - 1], cur[j - 1]);
  }

  /** newMap holds the output IDs of the first j entries of cur. */
  predicate MappedUpTo(nMaps: seq<int>, cur: seq<int>, newMap: seq<int>, j: int) {
    0 <= j <= |cur| && |newMap| == |cur| &&
    forall k :: 0 <= k < j ==> cur[k] in nMaps && newMap[k] == IndexOf(nMaps, cur[k])
  }

  /** Taking over entry j keeps the IDs of the earlier entries. */
  lemma MappedStep(before: seq<int>, after: seq<int>, cur: seq<int>, newMap: seq<int>, j: int)
    requires MappedUpTo(before, cur, newMap, j) && j < |cur|
    requires cur[j] in after
    requires forall y :: y in before ==> y in after && IndexOf(after, y) == IndexOf(before, y)
    ensures MappedUpTo(after, cur, newMap[j := IndexOf(after, cur[j])], j + 1)
  {
    forall k | 0 <= k < j ensures cur[k] in after && IndexOf(after, cur[k]) == IndexOf(before, cur[k]) {
      assert cur[k] in before;
    }
  }

  /** Once every entry is mapped, newMap is the remap of the instance. */
  lemma MappedAll(nMaps: seq<int>, cur: seq<int>, newMap: seq<int>)
    requires MappedUpTo(nMaps, cur, newMap, |cur|)
    ensures forall j :: 0 <= j < |cur| ==> cur[j] in nMaps
    ensures newMap == Remap(nMaps, cur)
  {
  }

  /** The body of the per-instance pass for entry j: search nMaps for its
      value, then record the ID found or append the value under the next
      one. */
  method TakeOver(p: Pass, x: int, j: int) returns (p': Pass)
    requires 0 <= j < |p.newMap|
    ensures p' == Entry(p, x, j)
  {
    var found, nID := Search(p.nMaps, x);
    if found {
      p' := Pass(p.nMaps, p.newMap[j := nID], p.toAdd);
    } else {
      p' := Pass(p.nMaps + [x], p.newMap[j := |p.nMaps|], p.toAdd + 1);
    }
  }

  /** One more entry: Distinct appends it unless it is already there. */
  lemma DistinctSnoc(s: seq<int>, x: int)
    ensures Distinct(s + [x]) == if x in Distinct(s) then Distinct(s) else Distinct(s) + [x]
  {
    assert (s + [x])[..|s|] == s;
  }

  /** igraph_vector_search from position 0: whether x occurs, and where
      first. */
  method Search(v: seq<int>, x: int) returns (found: bool, pos: int)
    ensures found <==> x in v
    ensures found ==> pos == IndexOf(v, x)
  {
    var k := 0;
    while k < |v|
      invariant 0 <= k <= |v|
      invariant forall p :: 0 <= p < k ==> v[p] != x
    {
      if v[k] == x {
        return true, k;
      }
      k := k + 1;
    }
    return false, -1;
  }

  // ---------------------------------------------------------------------
  // Properties

  /** Adding an instance appends its entries to the flattened list. */
  lemma FlattenSnoc(acts: seq<seq<int>>, i: nat)
    requires i < |acts|
    ensures Flatten(acts[..i + 1]) == Flatten(acts[..i]) + acts[i]
  {
    assert acts[..i + 1][..i] == acts[..i];
  }

  /** nMaps of a prefix of the instances is a prefix of nMaps of all of them:
      output IDs once given are never changed. */
  lemma {:induction false} KnownGrows(acts: seq<seq<int>>, k: nat)
    requires k <= |acts|
    ensures |Known(acts[..k])| <= |Known(acts)|
    ensures Known(acts)[..|Known(acts[..k])|] == Known(acts[..k])
  {
    if k < |acts| {
      var n := |acts| - 1;
      assert acts[..n][..k] == acts[..k];
      KnownGrows(acts[..n], k);
      assert acts == acts[..n] + [acts[n]];
      FlattenSnoc(acts, n);
      assert acts[..n + 1] == acts;
      DistinctPrefix(Flatten(acts[..n]), acts[n]);
    } else {
      assert acts[..k] == acts;
    }
  }

  /** Output IDs are stable: the ID of a host vertex already taken over stays
      the same when later instances are added. */
  lemma KnownIndexStable(acts: seq<seq<int>>, k: nat, x: int)
    requires k <= |acts| && x in Known(acts[..k])
    ensures x in Known(acts) && IndexOf(Known(acts), x) == IndexOf(Known(acts[..k]), x)
  {
    var p := Known(acts[..k]);
    KnownGrows(acts, k);
    assert Known(acts) == p + Known(acts)[|p|..];
    IndexOfAppend(p, Known(acts)[|p|..], x);
  }

  /** Every entry of an instance is in nMaps. */
  lemma {:induction false} KnownHas(acts: seq<seq<int>>, i: nat, j: nat)
    requires i < |acts| && j < |acts[i]|
    ensures acts[i][j] in Known(acts)
  {
    FlattenSnoc(acts, i);
    assert acts[i][j] in Flatten(acts[..i + 1]);
    DistinctSpec(Flatten(acts[..i + 1]));
    assert acts[i][j] in SetOf(Flatten(acts[..i + 1]));
    KnownIndexStable(acts, i + 1, acts[i][j]);
  }

  /** Every entry of an instance is in nMaps, all at once. */
  lemma KnownHasAll(acts: seq<seq<int>>, i: nat)
    requires i < |acts|
    ensures forall j :: 0 <= j < |acts[i]| ==> acts[i][j] in Known(acts)
  {
    forall j | 0 <= j < |acts[i]| ensures acts[i][j] in Known(acts) {
      KnownHas(acts, i, j);
    }
  }

  /** Every entry of nMaps comes from some instance. */
  lemma {:induction false} FlattenMember(acts: seq<seq<int>>, x: int)
    requires x in Flatten(acts)
    ensures exists i, j :: 0 <= i < |acts| && 0 <= j < |acts[i]| && x == acts[i][j]
  {
    var n := |acts| - 1;
    if x in acts[n] {
      var j :| 0 <= j < |acts[n]| && x == acts[n][j];
    } else {
      FlattenMember(acts[..n], x);
      var i, j :| 0 <= i < n && 0 <= j < |acts[..n][i]| && x == acts[..n][i][j];
      assert acts[i][j] == x;
    }
  }

  /** One loop step of the tool: nMaps and the edge list after instance i. */
  lemma ExtendOne(m: Graph, acts: seq<seq<int>>, i: nat)
    requires Fits(m, acts) && i < |acts|
    ensures Flatten(acts[..i + 1]) == Flatten(acts[..i]) + acts[i]
    ensures Fits(m, acts[..i]) && Fits(m, acts[..i + 1])
    ensures Grown(m, acts[..i + 1]) ==
              (KnownHasAll(acts[..i + 1], i);
               Grown(m, acts[..i]) + Image(Remap(Known(acts[..i + 1]), acts[i]), m.edges))
  {
    FlattenSnoc(acts, i);
    assert acts[..i + 1][..i] == acts[..i];
  }

  /** The last instance's edges are its lifted motif edges. */
  lemma LastImageLift(m: Graph, acts: seq<seq<int>>)
    requires Fits(m, acts) && acts != []
    ensures forall t :: 0 <= t < |m.edges| ==> LastImage(m, acts)[t] == Lift(m, acts, |acts| - 1, t)
  {
  }

  /** The lifted edges of a prefix keep their output IDs in the whole. */
  lemma LiftPrefix(m: Graph, acts: seq<seq<int>>, k: nat, i: int, t: int)
    requires Fits(m, acts) && k <= |acts| && 0 <= i < k && 0 <= t < |m.edges|
    ensures Fits(m, acts[..k]) && Lift(m, acts[..k], i, t) == Lift(m, acts, i, t)
  {
    var f := m.edges[t];
    var e := Lift(m, acts[..k], i, t);
    KnownIndexStable(acts, k, acts[i][f.from]);
    KnownIndexStable(acts, k, acts[i][f.to]);
  }

  /** Every edge grown before the simplify is a motif edge of an instance,
      in output IDs. */
  lemma {:induction false} GrownSound(m: Graph, acts: seq<seq<int>>)
    requires Fits(m, acts)
    ensures forall e :: e in Grown(m, acts) ==>
              exists i, t :: 0 <= i < |acts| && 0 <= t < |m.edges| && e == Lift(m, acts, i, t)
  {
    if acts != [] {
      var n := |acts| - 1;
      var p := acts[..n];
      GrownSound(m, p);
      LastImageLift(m, acts);
      forall e | e in Grown(m, acts)
        ensures exists i, t :: 0 <= i < |acts| && 0 <= t < |m.edges| && e == Lift(m, acts, i, t)
      {
        if e in Grown(m, p) {
          var i, t :| 0 <= i < |p| && 0 <= t < |m.edges| && e == Lift(m, p, i, t);
          LiftPrefix(m, acts, n, i, t);
        } else {
          var t :| 0 <= t < |m.edges| && LastImage(m, acts)[t] == e;
          assert e == Lift(m, acts, n, t);
        }
      }
    }
  }

  /** Every motif edge of every instance, in output IDs, is grown before the
      simplify. */
  lemma {:induction false} GrownComplete(m: Graph, acts: seq<seq<int>>)
    requires Fits(m, acts)
    ensures forall i, t :: 0 <= i < |acts| && 0 <= t < |m.edges| ==> Lift(m, acts, i, t) in Grown(m, acts)
  {
    if acts != [] {
      var n := |acts| - 1;
      var p := acts[..n];
      GrownComplete(m, p);
      LastImageLift(m, acts);
      forall i, t | 0 <= i < |acts| && 0 <= t < |m.edges|
        ensures Lift(m, acts, i, t) in Grown(m, acts)
      {
        if i < n {
          LiftPrefix(m, acts, n, i, t);
          assert Lift(m, p, i, t) in Grown(m, p);
        } else {
          assert LastImage(m, acts)[t] == Lift(m, acts, i, t);
        }
      }
    }
  }

  /** The output's vertices: one per host vertex used by some unique
      instance, none twice. */
  lemma ExtractVertices(directed: bool, m: Graph, acts: seq<seq<int>>)
    requires Fits(m, acts)
    ensures Extracted(directed, m, acts).n == |Known(acts)|
    ensures NoDup(Known(acts))
    ensures forall x :: x in Known(acts) <==>
              exists i, j :: 0 <= i < |acts| && 0 <= j < |acts[i]| && x == acts[i][j]
  {
    DistinctSpec(Flatten(acts));
    forall x | x in Known(acts)
      ensures exists i, j :: 0 <= i < |acts| && 0 <= j < |acts[i]| && x == acts[i][j]
    {
      assert x in SetOf(Flatten(acts));
      FlattenMember(acts, x);
    }
    forall i, j | 0 <= i < |acts| && 0 <= j < |acts[i]|
      ensures acts[i][j] in Known(acts)
    {
      KnownHas(acts, i, j);
    }
  }

  /** The output's edges: a simple graph on its vertices whose edges are
      motif edges of unique instances, in output IDs, and which holds every
      such edge that is not a self-loop. */
  lemma ExtractEdges(directed: bool, m: Graph, acts: seq<seq<int>>)
    requires Fits(m, acts)
    ensures var out := Extracted(directed, m, acts);
            WellFormed(out) && NoMultiEdges(directed, out.edges) && NoLoops(out.edges)
    ensures var out := Extracted(directed, m, acts);
            forall e :: e in out.edges ==>
              exists i, t :: 0 <= i < |acts| && 0 <= t < |m.edges| && e == Lift(m, acts, i, t)
    ensures var out := Extracted(directed, m, acts);
            forall i, t ::
              0 <= i < |acts| && 0 <= t < |m.edges| &&
              acts[i][m.edges[t].from] != acts[i][m.edges[t].to] ==>
              HasEdge(directed, out.edges, Lift(m, acts, i, t))
  {
    GrownSound(m, acts);
    GrownComplete(m, acts);
    SimplifySpec(directed, true, Grown(m, acts));
    var out := Extracted(directed, m, acts);
    forall e | e in out.edges ensures 0 <= e.from < out.n && 0 <= e.to < out.n {
      var i, t :| 0 <= i < |acts| && 0 <= t < |m.edges| && e == Lift(m, acts, i, t);
    }
    forall i, t | 0 <= i < |acts| && 0 <= t < |m.edges| &&
                  acts[i][m.edges[t].from] != acts[i][m.edges[t].to]
      ensures HasEdge(directed, out.edges, Lift(m, acts, i, t))
    {
      var e := Lift(m, acts, i, t);
      assert e.from != e.to;
      assert e in Grown(m, acts);
    }
  }
}
