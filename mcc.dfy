/** The integer half of mcc.c, the motif clustering coefficient.

    - motif_count: the mappings that survive cleanup (checked against the
      motif's EDGE count here, unlike mcstats.c and mcextract.c), divided by
      the motif's automorphism count rotSym.
    - motif_clustering: the same unique-motif count, the shared-vertex total
      over pairs of surviving mappings, its rescaling by rotSym², and the
      number of vertices pairs of unique motifs could possibly share. The
      coefficient itself is the floating-point quotient of the last two.

    The oracle's mapping list is an input and rotSym a parameter. */
module Clustering {
  import opened Lists
  import opened Graphs
  import opened Instances

  // ---------------------------------------------------------------------
  // Counting motifs

  /** How many mappings the directed cleanup keeps: all of them on an
      undirected host. */
  function Survivors(g: Graph, maps: seq<seq<int>>, expected: nat): (c: nat)
    ensures c <= |maps|
  {
    if maps == [] then 0
    else Survivors(g, maps[..|maps| - 1], expected) + (if Spurious(g, maps[|maps| - 1], expected) then 0 else 1)
  }

  /** motif_count's result: surviving mappings over automorphisms. */
  function UniqueCount(g: Graph, m: Graph, found: seq<seq<int>>, rotSym: int): (c: int)
    requires rotSym >= 1
    ensures 0 <= c <= |found|
  {
    DivBound(Survivors(g, found, |m.edges|), rotSym);
    Survivors(g, found, |m.edges|) / rotSym
  }

  lemma DivBound(a: nat, b: int)
    requires b >= 1
    ensures 0 <= a / b <= a
  {
    var q, r := a / b, a % b;
    assert a == b * q + r && 0 <= r < b;
    MulBound(b, q);
  }

  lemma MulBound(b: int, q: int)
    requires b >= 1
    ensures q >= 0 ==> b * q >= q
    ensures q < 0 ==> b * q <= -b
  {
    if q >= 0 {
      Distribute(q, b - 1, 1);
      MulNonNegative(b - 1, q);
    } else {
      Distribute(b, -q - 1, 1);
      MulNonNegative(b, -q - 1);
      Negate(b, q);
    }
  }

  lemma Distribute(k: int, x: int, y: int)
    ensures k * (x + y) == k * x + k * y
  {
  }

  lemma MulNonNegative(x: int, y: int)
    requires x >= 0 && y >= 0
    ensures x * y >= 0
  {
  }

  lemma Negate(x: int, y: int)
    ensures x * -y == -(x * y)
  {
  }

  /** Mappings whose slot 0 is not the sentinel. */
  function Unmarked(maps: seq<seq<int>>): (c: nat)
    requires forall mp :: mp in maps ==> |mp| >= 1
    ensures c <= |maps|
  {
    if maps == [] then 0
    else Unmarked(maps[..|maps| - 1]) + (if maps[|maps| - 1][0] != Sentinel then 1 else 0)
  }

  /** On an undirected host every mapping survives. */
  lemma {:induction false} SurvivorsUndirected(g: Graph, maps: seq<seq<int>>, expected: nat)
    requires !g.directed
    ensures Survivors(g, maps, expected) == |maps|
  {
    if maps != [] {
      SurvivorsUndirected(g, maps[..|maps| - 1], expected);
    }
  }

  /** On mappings of host vertices the survivors are exactly the mappings
      that carry no sentinel after cleanup, the ones the pair loop reads. */
  lemma {:induction false} SurvivorsUnmarked(g: Graph, maps: seq<seq<int>>, expected: nat, size: nat)
    requires Shaped(maps, size) && InHost(g, maps)
    ensures Shaped(Cleaned(g, maps, expected), size)
    ensures Survivors(g, maps, expected) == Unmarked(Cleaned(g, maps, expected))
  {
    CleanedShaped(g, maps, expected, size);
    if maps != [] {
      var maps' := maps[..|maps| - 1];
      assert forall x :: x in maps' ==> x in maps;
      SurvivorsUnmarked(g, maps', expected, size);
      var c, c' := Cleaned(g, maps, expected), Cleaned(g, maps', expected);
      assert c[..|c| - 1] == c';
      CleanedMarks(g, maps, expected, |maps| - 1);
      var kept := if Spurious(g, maps[|maps| - 1], expected) then 0 else 1;
      assert Unmarked(c) == Unmarked(c') + kept;
      assert Survivors(g, maps, expected) == Survivors(g, maps', expected) + kept;
    }
  }

  /** Cleanup and counting in one pass, as motif_count and motif_clustering
      do it: on a directed host each mapping is checked against `motifEdges`
      and either marked or counted; on an undirected host all are counted. */
  method CleanAndCount(g: Graph, maps: array<seq<int>>, motifEdges: nat) returns (actMaps: nat)
    requires forall i :: 0 <= i < maps.Length ==> |maps[i]| >= 1
    modifies maps
    ensures maps[..] == Cleaned(g, old(maps[..]), motifEdges)
    ensures actMaps == Survivors(g, old(maps[..]), motifEdges)
  {
    ghost var before := maps[..];
    if g.directed {
      actMaps := 0;
      var i := 0;
      while i < maps.Length
        invariant 0 <= i <= maps.Length
        invariant forall k :: 0 <= k < i ==>
                    maps[k] == if Spurious(g, before[k], motifEdges) then before[k][0 := Sentinel] else before[k]
        invariant forall k :: i <= k < maps.Length ==> maps[k] == before[k]
        invariant actMaps == Survivors(g, before[..i], motifEdges)
      {
        assert before[..i + 1][..i] == before[..i];
        if InducedCount(g, maps[i]) != motifEdges {
          maps[i] := maps[i][0 := Sentinel];
        } else {
          actMaps := actMaps + 1;
        }
        i := i + 1;
      }
      assert before[..maps.Length] == before;
    } else {
      actMaps := maps.Length;
      SurvivorsUndirected(g, before, motifEdges);
    }
  }

  /** motif_count. */
  method MotifCount(g: Graph, m: Graph, found: seq<seq<int>>, rotSym: int) returns (count: int)
    requires Shaped(found, m.n) && rotSym >= 1
    ensures count == UniqueCount(g, m, found, rotSym)
  {
    var maps := LoadMaps(found);
    var actMaps := CleanAndCount(g, maps, |m.edges|);
    count := actMaps / rotSym;
  }

  // ---------------------------------------------------------------------
  // Shared vertices

  /** What one pair adds to totSharedVerts: the positions of a whose vertex
      occurs in b, unless one of them is marked or that count reaches the
      motif size. */
  function PairShare(a: seq<int>, b: seq<int>, size: nat): (c: nat)
    requires |a| >= 1 && |b| >= 1
    ensures c < size || c == 0
  {
    if a[0] != Sentinel && b[0] != Sentinel && Matches(a, b) < size then Matches(a, b) else 0
  }

  /** The contributions of the pairs (i, j') with i < j' < j. */
  function RowShare(maps: seq<seq<int>>, size: nat, i: nat, j: nat): nat
    requires forall mp :: mp in maps ==> |mp| >= 1
    requires i < |maps| && j <= |maps|
  {
    if j <= i + 1 then 0
    else RowShare(maps, size, i, j - 1) + PairShare(maps[i], maps[j - 1], size)
  }

  /** totSharedVerts after the rows i' < i. */
  function TotalShare(maps: seq<seq<int>>, size: nat, i: nat): nat
    requires forall mp :: mp in maps ==> |mp| >= 1
    requires i <= |maps|
  {
    if i == 0 then 0
    else TotalShare(maps, size, i - 1) + RowShare(maps, size, i - 1, |maps|)
  }

  /** posSharedVerts after the first i terms: term i' is (size - 1) times the
      number of unique motifs after the i'-th. */
  function PossibleSum(size: int, u: int, i: nat): int {
    if i == 0 then 0 else PossibleSum(size, u, i - 1) + (size - 1) * (u - i)
  }

  /** A pair counts the vertices it shares, when it shares some but not all;
      a pair with a marked mapping adds nothing. */
  lemma PairShareMeaning(a: seq<int>, b: seq<int>, size: nat)
    requires |a| == size && |b| == size && size >= 1 && NoDup(a)
    ensures a[0] == Sentinel || b[0] == Sentinel ==> PairShare(a, b, size) == 0
    ensures a[0] != Sentinel && b[0] != Sentinel ==>
              PairShare(a, b, size) == if SetOf(a) <= SetOf(b) then 0 else |SetOf(a) * SetOf(b)|
  {
    MatchesCommon(a, b);
    MatchesFull(a, b);
  }

  /** A marked mapping's row adds nothing: the loop may skip it. */
  lemma {:induction false} RowZero(maps: seq<seq<int>>, size: nat, i: nat, j: nat)
    requires forall mp :: mp in maps ==> |mp| >= 1
    requires i < |maps| && j <= |maps| && maps[i][0] == Sentinel
    ensures RowShare(maps, size, i, j) == 0
  {
    if j > i + 1 {
      RowZero(maps, size, i, j - 1);
    }
  }

  /** Every pair adds at most size - 1, so the total never exceeds the
      possible shared vertices counted over all mappings. */
  lemma {:induction false} RowShareBound(maps: seq<seq<int>>, size: nat, i: nat, j: nat)
    requires forall mp :: mp in maps ==> |mp| >= 1
    requires i < |maps| && i < j <= |maps| && size >= 1
    ensures RowShare(maps, size, i, j) <= (size - 1) * (j - i - 1)
  {
    if j > i + 1 {
      RowShareBound(maps, size, i, j - 1);
      Distribute(size - 1, j - 1 - i - 1, 1);
    }
  }

  lemma {:induction false} TotalShareBound(maps: seq<seq<int>>, size: nat, i: nat)
    requires forall mp :: mp in maps ==> |mp| >= 1
    requires i <= |maps| && size >= 1
    ensures TotalShare(maps, size, i) <= PossibleSum(size, |maps|, i)
  {
    if i > 0 {
      TotalShareBound(maps, size, i - 1);
      RowShareBound(maps, size, i - 1, |maps|);
    }
  }

  /** The closed form of posSharedVerts: (size - 1) u (u - 1) / 2, zero for
      fewer than two unique motifs. */
  lemma {:induction false} PossibleClosed(size: int, u: nat, i: nat)
    requires i <= u
    ensures 2 * PossibleSum(size, u, i) == (size - 1) * (i * (2 * u - i - 1))
  {
    if i > 0 {
      PossibleClosed(size, u, i - 1);
      var k, w := size - 1, 2 * u - i;
      var before, after := (i - 1) * w, i * (w - 1);
      Distribute(w, i - 1, 1);
      Distribute(i, w - 1, 1);
      assert after == before + 2 * (u - i);
      Distribute(k, before, 2 * (u - i));
      Distribute(k, u - i, u - i);
    }
  }

  lemma PossibleTotal(size: int, u: nat)
    ensures 2 * PossibleSum(size, u, u) == (size - 1) * u * (u - 1)
    ensures u < 2 ==> PossibleSum(size, u, u) == 0
  {
    PossibleClosed(size, u, u);
    assert (size - 1) * (u * (u - 1)) == (size - 1) * u * (u - 1);
  }

  /** The shared-vertex accumulator over all pairs i < j. */
  method SharedVertices(maps: seq<seq<int>>, size: nat) returns (tot: nat)
    requires Shaped(maps, size)
    ensures tot == TotalShare(maps, size, |maps|)
  {
    tot := 0;
    var i := 0;
    while i < |maps|
      invariant 0 <= i <= |maps|
      invariant tot == TotalShare(maps, size, i)
    {
      if maps[i][0] != Sentinel {
        tot := ShareRow(maps, size, i, tot);
      } else {
        RowZero(maps, size, i, |maps|);
      }
      i := i + 1;
    }
  }

  /** Row i of the accumulator: j runs from i + 1 to the end. */
  method ShareRow(maps: seq<seq<int>>, size: nat, i: nat, tot: nat) returns (tot': nat)
    requires Shaped(maps, size) && i < |maps|
    ensures tot' == tot + RowShare(maps, size, i, |maps|)
  {
    tot' := tot;
    var j := i + 1;
    while j < |maps|
      invariant i + 1 <= j <= |maps|
      invariant tot' == tot + RowShare(maps, size, i, j)
    {
      assert maps[i] in maps && maps[j] in maps;
      if maps[j][0] != Sentinel && maps[i][0] != Sentinel {
        var found := CountMatches(maps[i], maps[j], size);
        if found < size {
          tot' := tot' + found;
        }
      }
      j := j + 1;
    }
  }

  /** The possible-shared loop. */
  method PossibleShared(size: int, u: nat) returns (pos: int)
    ensures pos == PossibleSum(size, u, u)
  {
    pos := 0;
    var i := 0;
    while i < u
      invariant 0 <= i <= u
      invariant pos == PossibleSum(size, u, i)
    {
      pos := pos + (size - 1) * (u - i - 1);
      i := i + 1;
    }
  }

  /** The integer results of motif_clustering; the coefficient is
      actShared / posShared in floating point. */
  datatype Coefficient = Coefficient(uniqueMotifs: int, totShared: nat, actShared: int, posShared: int)

  /** motif_clustering: cleanup against the motif's edge count, the unique
      count, the shared total over surviving pairs and its rescaling, and the
      possible total over pairs of unique motifs. */
  method MotifClustering(g: Graph, m: Graph, found: seq<seq<int>>, rotSym: int) returns (c: Coefficient)
    requires Shaped(found, m.n) && rotSym >= 1
    ensures c.uniqueMotifs == UniqueCount(g, m, found, rotSym)
    ensures c.totShared == TotalShare(Cleaned(g, found, |m.edges|), m.n, |found|)
    ensures c.totShared <= PossibleSum(m.n, |found|, |found|)
    ensures c.actShared == c.totShared / (rotSym * rotSym)
    ensures 2 * c.posShared == (m.n - 1) * c.uniqueMotifs * (c.uniqueMotifs - 1)
  {
    var maps := LoadMaps(found);
    var actMaps := CleanAndCount(g, maps, |m.edges|);
    var uniqueMotifs := actMaps / rotSym;
    assert uniqueMotifs == UniqueCount(g, m, found, rotSym);
    CleanedShaped(g, found, |m.edges|, m.n);
    var totShared := SharedVertices(maps[..], m.n);
    TotalShareBound(maps[..], m.n, |found|);
    var posShared := PossibleShared(m.n, uniqueMotifs);
    PossibleTotal(m.n, uniqueMotifs);
    var symmetries := rotSym * rotSym;
    MulBound(rotSym, rotSym);
    var actShared := totShared / symmetries;
    c := Coefficient(uniqueMotifs, totShared, actShared, posShared);
  }

  // ---------------------------------------------------------------------
  // Null-model samples

  /** The edges of one copy of the motif per drawn vertex list, in order. */
  function Placed(m: Graph, draws: seq<seq<int>>): seq<Edge>
    requires WellFormed(m) && forall d :: d in draws ==> |d| == m.n
  {
    if draws == [] then []
    else
      var d := draws[|draws| - 1];
      assert forall x :: x in draws[..|draws| - 1] ==> x in draws;
      Placed(m, draws[..|draws| - 1]) + Image(d, m.edges)
  }

  /** Placed copies only join vertices that were drawn. */
  lemma {:induction false} PlacedWithin(m: Graph, draws: seq<seq<int>>, nodes: nat)
    requires WellFormed(m) && forall d :: d in draws ==> |d| == m.n && Below(d, nodes)
    ensures forall e :: e in Placed(m, draws) ==> 0 <= e.from < nodes && 0 <= e.to < nodes
  {
    if draws != [] {
      var d := draws[|draws| - 1];
      assert forall x :: x in draws[..|draws| - 1] ==> x in draws;
      PlacedWithin(m, draws[..|draws| - 1], nodes);
      forall e | e in Image(d, m.edges) ensures 0 <= e.from < nodes && 0 <= e.to < nodes {
        var t :| 0 <= t < |m.edges| && Image(d, m.edges)[t] == e;
        assert m.edges[t] in m.edges;
      }
    }
  }

  /** One random vertex per motif vertex, each in [0, nodes). */
  method DrawNodes(size: nat, nodes: nat) returns (mNodes: seq<int>)
    requires nodes >= 1
    ensures |mNodes| == size && Below(mNodes, nodes)
  {
    mNodes := [];
    while |mNodes| < size
      invariant |mNodes| <= size && Below(mNodes, nodes)
    {
      var v :| 0 <= v < nodes;
      mNodes := mNodes + [v];
    }
  }

  /** The batch loop: curAdd copies of the motif on freshly drawn vertices. */
  method PlaceMotifs(m: Graph, curAdd: nat, nodes: nat) returns (newEdges: seq<Edge>, draws: seq<seq<int>>)
    requires WellFormed(m) && nodes >= 1
    ensures |draws| == curAdd
    ensures forall d :: d in draws ==> |d| == m.n && Below(d, nodes)
    ensures newEdges == Placed(m, draws)
  {
    newEdges, draws := [], [];
    var j := 0;
    while j < curAdd
      invariant 0 <= j <= curAdd && |draws| == j
      invariant forall d :: d in draws ==> |d| == m.n && Below(d, nodes)
      invariant newEdges == Placed(m, draws)
    {
      var mNodes := DrawNodes(m.n, nodes);
      newEdges := AddImage(newEdges, mNodes, m.edges);
      assert (draws + [mNodes])[..|draws|] == draws;
      draws := draws + [mNodes];
      j := j + 1;
    }
  }

  /** The first batch size: a fifth of the target count, at least one. */
  function FirstBatch(count: nat): (r: nat)
    ensures r >= 1 && (r == 1 || 5 * r <= count)
  {
    if count / 5 < 1 then 1 else count / 5
  }

  /** The batch size after an accepted trial below the target: a third of
      the shortfall, at least one, and never more than before. */
  function Retarget(curAdd: nat, curCount: int, count: int): (r: nat)
    requires curAdd >= 1 && curCount < count
    ensures 1 <= r <= curAdd
    ensures r == curAdd || r == 1 || 3 * r <= count - curCount
  {
    var newAdd := if (count - curCount) / 3 < 1 then 1 else (count - curCount) / 3;
    if newAdd < curAdd then newAdd else curAdd
  }

  /** The batch size after a rejected trial: a third, at least one; it
      shrinks strictly until it reaches one. */
  function Shrink(curAdd: nat): (r: nat)
    requires curAdd >= 1
    ensures 1 <= r <= curAdd && (curAdd > 1 ==> r < curAdd)
  {
    if curAdd / 3 <= 1 then 1 else curAdd / 3
  }

  // ---------------------------------------------------------------------
  // The hill-climb of calc_sample, one trial at a time

  /** What does not change during calc_sample: the motif, the target count,
      the trial budget (MAX_MOTIF_TRIALS), the enumeration oracle and the
      automorphism count. */
  datatype Setting = Setting(m: Graph, count: nat, maxTrials: int,
                             enumerate: Graph -> seq<seq<int>>, rotSym: int)

  predicate ValidSetting(st: Setting) {
    WellFormed(st.m) && st.rotSym >= 1
  }

  /** What calc_sample carries from one trial to the next: the sample G,
      the draws of the motif copies G holds, oldCount, curCount, curAdd,
      motifPlaceTrial, and whether a trial hit the target (the `break`). */
  datatype Climb = Climb(g: Graph, kept: seq<seq<int>>, oldCount: int, curCount: int,
                         curAdd: nat, motifPlaceTrial: int, hit: bool)

  /** Every draw lists one vertex in [0, nodes) per motif vertex. */
  predicate Drawn(draws: seq<seq<int>>, m: Graph, nodes: nat) {
    forall d :: d in draws ==> |d| == m.n && Below(d, nodes)
  }

  /** The state before the first trial: the empty graph, both counts 0 and
      the first batch size. */
  function Start(directed: bool, count: nat, nodes: nat): (s: Climb)
    ensures s.g.n == nodes && s.g.directed == directed && s.curAdd >= 1
  {
    Climb(Empty(nodes, directed), [], 0, 0, FirstBatch(count), 0, false)
  }

  /** The loop test: no trial has hit the target and the budget is left. */
  predicate Running(s: Climb, maxTrials: int) {
    !s.hit && s.motifPlaceTrial < maxTrials
  }

  /** One trial: the candidate is G plus the copies placed by `draws`. It is
      kept when its count is new and below the target, kept with the search
      ended when it hits the target, and discarded otherwise; a discard
      shrinks the batch and, at batch size one, uses up one trial. */
  function Step(st: Setting, s: Climb, draws: seq<seq<int>>): (r: Climb)
    requires ValidSetting(st) && s.curAdd >= 1 && Drawn(draws, st.m, s.g.n)
    ensures r.g.n == s.g.n && r.g.directed == s.g.directed
    ensures 1 <= r.curAdd <= s.curAdd
    ensures (r.g == s.g && r.kept == s.kept) ||
            (r.g.edges == s.g.edges + Placed(st.m, draws) && r.kept == s.kept + draws && r.curCount <= st.count)
    ensures r.hit <==> r.curCount == st.count
  {
    var altG := Graph(s.g.n, s.g.directed, s.g.edges + Placed(st.m, draws));
    var curCount := UniqueCount(altG, st.m, st.enumerate(altG), st.rotSym);
    if curCount < st.count && curCount != s.oldCount then
      Climb(altG, s.kept + draws, curCount, curCount, Retarget(s.curAdd, curCount, st.count),
            if s.motifPlaceTrial < st.maxTrials then 0 else s.motifPlaceTrial, false)
    else if curCount == st.count then
      Climb(altG, s.kept + draws, s.oldCount, curCount, s.curAdd, 0, true)
    else
      Climb(s.g, s.kept, s.oldCount, curCount, Shrink(s.curAdd),
            if s.curAdd / 3 <= 1 && s.motifPlaceTrial < st.maxTrials then s.motifPlaceTrial + 1
            else s.motifPlaceTrial, false)
  }

  /** The state after the given trials, one Step each, in order. */
  function Run(st: Setting, s0: Climb, trials: seq<seq<seq<int>>>): (s: Climb)
    requires ValidSetting(st) && s0.curAdd >= 1
    requires forall t :: t in trials ==> Drawn(t, st.m, s0.g.n)
    ensures s.g.n == s0.g.n && s.g.directed == s0.g.directed && 1 <= s.curAdd <= s0.curAdd
  {
    if trials == [] then s0
    else
      var before := trials[..|trials| - 1];
      assert forall t :: t in before ==> t in trials;
      Step(st, Run(st, s0, before), trials[|trials| - 1])
  }

  /** The trials calc_sample can make: each one while the loop is still
      running, with one draw per copy of the current batch. */
  predicate Legal(st: Setting, s0: Climb, trials: seq<seq<seq<int>>>)
    requires ValidSetting(st) && s0.curAdd >= 1
    ensures Legal(st, s0, trials) ==> forall t :: t in trials ==> Drawn(t, st.m, s0.g.n)
  {
    if trials == [] then true
    else
      var before, draws := trials[..|trials| - 1], trials[|trials| - 1];
      Legal(st, s0, before) && Drawn(draws, st.m, s0.g.n) &&
      (assert forall t :: t in trials ==> t in before || t == draws;
       var s := Run(st, s0, before);
       Running(s, st.maxTrials) && |draws| == s.curAdd)
  }

  /** A legal run extended by one more legal trial. */
  lemma Extend(st: Setting, s0: Climb, trials: seq<seq<seq<int>>>, draws: seq<seq<int>>)
    requires ValidSetting(st) && s0.curAdd >= 1 && Legal(st, s0, trials)
    requires Running(Run(st, s0, trials), st.maxTrials) && Drawn(draws, st.m, s0.g.n)
    requires |draws| == Run(st, s0, trials).curAdd
    ensures Legal(st, s0, trials + [draws])
    ensures Run(st, s0, trials + [draws]) == Step(st, Run(st, s0, trials), draws)
  {
    assert (trials + [draws])[..|trials|] == trials;
  }

  /** A complete run of calc_sample: legal trials, at most `fuel` of them,
      ending when the loop stops or the fuel runs out. */
  predicate Completed(st: Setting, directed: bool, nodes: nat, fuel: nat, trials: seq<seq<seq<int>>>)
    requires ValidSetting(st)
  {
    Legal(st, Start(directed, st.count, nodes), trials) && |trials| <= fuel &&
    (!Running(Run(st, Start(directed, st.count, nodes), trials), st.maxTrials) || |trials| == fuel)
  }

  /** The sample is made of the copies of the motif the kept trials placed,
      on drawn vertices only. */
  lemma {:induction false} RunPlaced(st: Setting, directed: bool, nodes: nat, trials: seq<seq<seq<int>>>)
    requires ValidSetting(st) && forall t :: t in trials ==> Drawn(t, st.m, nodes)
    ensures var s := Run(st, Start(directed, st.count, nodes), trials);
            Drawn(s.kept, st.m, nodes) && s.g == Graph(nodes, directed, Placed(st.m, s.kept))
  {
    if trials != [] {
      var before := trials[..|trials| - 1];
      assert forall t :: t in before ==> t in trials;
      RunPlaced(st, directed, nodes, before);
      var s := Run(st, Start(directed, st.count, nodes), before);
      var draws := trials[|trials| - 1];
      var r := Step(st, s, draws);
      if r.kept != s.kept {
        PlacedAppend(st.m, s.kept, draws);
      }
    }
  }

  /** The count of the sample: the target after a hit, otherwise the last
      accepted count (unless the sample is still empty); that accepted
      count is never above the target. */
  predicate CountsKept(st: Setting, s: Climb)
    requires ValidSetting(st)
  {
    var found := st.enumerate(s.g);
    (s.hit ==> UniqueCount(s.g, st.m, found, st.rotSym) == st.count) &&
    (s.g == Empty(s.g.n, s.g.directed) ||
     UniqueCount(s.g, st.m, found, st.rotSym) == (if s.hit then st.count else s.oldCount)) &&
    0 <= s.oldCount <= st.count
  }

  /** Each trial keeps CountsKept. */
  lemma StepCounts(st: Setting, s: Climb, draws: seq<seq<int>>)
    requires ValidSetting(st) && s.curAdd >= 1 && Drawn(draws, st.m, s.g.n)
    requires CountsKept(st, s) && !s.hit
    ensures CountsKept(st, Step(st, s, draws))
  {
  }

  /** Every legal run keeps CountsKept from the empty start. */
  lemma {:induction false} RunCounts(st: Setting, directed: bool, nodes: nat, trials: seq<seq<seq<int>>>)
    requires ValidSetting(st) && Legal(st, Start(directed, st.count, nodes), trials)
    ensures CountsKept(st, Run(st, Start(directed, st.count, nodes), trials))
  {
    if trials != [] {
      var before := trials[..|trials| - 1];
      RunCounts(st, directed, nodes, before);
      StepCounts(st, Run(st, Start(directed, st.count, nodes), before), trials[|trials| - 1]);
    }
  }

  /** What a legal run leaves: a well-formed graph on `nodes` vertices made
      of placed copies of the motif, with at most the target count (unless
      still empty), and exactly the target when the last trial hit it. */
  lemma RunOutcome(st: Setting, directed: bool, nodes: nat, trials: seq<seq<seq<int>>>)
    requires ValidSetting(st) && Legal(st, Start(directed, st.count, nodes), trials)
    ensures var s := Run(st, Start(directed, st.count, nodes), trials);
            var found := st.enumerate(s.g);
            s.g.n == nodes && s.g.directed == directed && WellFormed(s.g) &&
            Drawn(s.kept, st.m, nodes) && s.g.edges == Placed(st.m, s.kept) &&
            (s.g == Empty(nodes, directed) || UniqueCount(s.g, st.m, found, st.rotSym) <= st.count) &&
            (trials != [] && s.curCount == st.count ==> UniqueCount(s.g, st.m, found, st.rotSym) == st.count)
  {
    RunPlaced(st, directed, nodes, trials);
    RunCounts(st, directed, nodes, trials);
    var s := Run(st, Start(directed, st.count, nodes), trials);
    PlacedWithin(st.m, s.kept, nodes);
  }

  /** Placing one more draw appends one relabelled copy of the motif. */
  lemma PlacedSnoc(m: Graph, a: seq<seq<int>>, d: seq<int>)
    requires WellFormed(m) && |d| == m.n && forall i :: 0 <= i < |a| ==> |a[i]| == m.n
    ensures Placed(m, a + [d]) == Placed(m, a) + Image(d, m.edges)
  {
    assert (a + [d])[..|a|] == a;
  }

  /** Placing two lists of draws one after the other. */
  lemma {:induction false} PlacedAppend(m: Graph, a: seq<seq<int>>, b: seq<seq<int>>)
    requires WellFormed(m)
    requires (forall i :: 0 <= i < |a| ==> |a[i]| == m.n) && forall i :: 0 <= i < |b| ==> |b[i]| == m.n
    ensures Placed(m, a + b) == Placed(m, a) + Placed(m, b)
    decreases |b|
  {
    if b == [] {
      assert a + b == a;
    } else {
      var b', d := b[..|b| - 1], b[|b| - 1];
      assert b == b' + [d] && a + b == (a + b') + [d];
      PlacedAppend(m, a, b');
      PlacedSnoc(m, a + b', d);
      PlacedSnoc(m, b', d);
    }
  }

  /** calc_sample: the hill-climb above, run from the empty graph on `nodes`
      vertices with the trials as drawn. The sample fails exactly when the
      last count is above the target. At most `fuel` trials are made. */
  method CalcSample(directed: bool, m: Graph, count: nat, nodes: nat, maxTrials: int,
                    enumerate: Graph -> seq<seq<int>>, rotSym: int, fuel: nat)
    returns (suc: int, res: Graph, lastCount: int, ghost trials: seq<seq<seq<int>>>)
    requires WellFormed(m) && rotSym >= 1 && (nodes >= 1 || maxTrials <= 0)
    requires forall h :: Shaped(enumerate(h), m.n)
    ensures Completed(Setting(m, count, maxTrials, enumerate, rotSym), directed, nodes, fuel, trials)
    ensures var s := Run(Setting(m, count, maxTrials, enumerate, rotSym), Start(directed, count, nodes), trials);
            res == s.g && lastCount == s.curCount
    ensures suc == (if lastCount > count then 1 else 0)
    ensures res.n == nodes && res.directed == directed && WellFormed(res)
    ensures exists draws :: Drawn(draws, m, nodes) && res.edges == Placed(m, draws)
    ensures res == Empty(nodes, directed) || UniqueCount(res, m, enumerate(res), rotSym) <= count
    ensures trials != [] && lastCount == count ==> UniqueCount(res, m, enumerate(res), rotSym) == count
    ensures maxTrials <= 0 ==> suc == 0 && res == Empty(nodes, directed)
  {
    ghost var st := Setting(m, count, maxTrials, enumerate, rotSym);
    ghost var s0 := Start(directed, count, nodes);
    var g := Empty(nodes, directed);
    var oldCount, curCount := 0, 0;
    // edgePlaceTrial is only ever written, as in the source
    var motifPlaceTrial, edgePlaceTrial := 0, 0;
    var curAdd := FirstBatch(count);
    var steps := 0;
    trials := [];
    ghost var cl := s0;
    while motifPlaceTrial < maxTrials && steps < fuel
      invariant steps == |trials| <= fuel && motifPlaceTrial >= 0
      invariant maxTrials <= 0 ==> trials == []
      invariant Legal(st, s0, trials) && cl == Run(st, s0, trials)
      invariant cl == Climb(g, cl.kept, oldCount, curCount, curAdd, motifPlaceTrial, false)
      decreases fuel - steps
    {
      var newEdges, draws := PlaceMotifs(m, curAdd, nodes);
      var altG := Graph(g.n, g.directed, g.edges + newEdges);
      curCount := MotifCount(altG, m, enumerate(altG), rotSym);
      Extend(st, s0, trials, draws);
      trials, cl := trials + [draws], Step(st, cl, draws);
      if curCount < count && curCount != oldCount {
        curAdd := Retarget(curAdd, curCount, count);
        if motifPlaceTrial < maxTrials {
          motifPlaceTrial := 0;
        } else {
          edgePlaceTrial := edgePlaceTrial + 1;
        }
        g := altG;
        oldCount := curCount;
      } else if curCount == count {
        motifPlaceTrial, edgePlaceTrial := 0, 0;
        g := altG;
        break;
      } else {
        if curAdd / 3 <= 1 {
          if motifPlaceTrial < maxTrials {
            motifPlaceTrial := motifPlaceTrial + 1;
          } else {
            edgePlaceTrial := edgePlaceTrial + 1;
          }
        }
        curAdd := Shrink(curAdd);
      }
      steps := steps + 1;
    }
    RunOutcome(st, directed, nodes, trials);
    suc := if curCount > count then 1 else 0;
    res, lastCount := g, curCount;
  }

  /** One entry of the sample vector: -1 for a failed sample, otherwise the
      coefficient's integer parts on the sample. */
  datatype Sampled = Failed | Measured(c: Coefficient)

  /** What motif_clustering computes on a graph, as MotifClustering states it. */
  predicate Measures(c: Coefficient, g: Graph, m: Graph, found: seq<seq<int>>, rotSym: int)
    requires Shaped(found, m.n) && rotSym >= 1
  {
    c.uniqueMotifs == UniqueCount(g, m, found, rotSym) &&
    c.totShared == TotalShare(Cleaned(g, found, |m.edges|), m.n, |found|) &&
    c.actShared == c.totShared / (rotSym * rotSym) &&
    2 * c.posShared == (m.n - 1) * c.uniqueMotifs * (c.uniqueMotifs - 1)
  }

  /** Entry `entry` of the sample vector records the complete run `trials`:
      -1 exactly when that run's last count is above the target, otherwise
      motif_clustering on its sample. */
  predicate Records(st: Setting, directed: bool, nodes: nat, fuel: nat,
                    trials: seq<seq<seq<int>>>, entry: Sampled)
    requires ValidSetting(st) && forall h :: Shaped(st.enumerate(h), st.m.n)
  {
    Completed(st, directed, nodes, fuel, trials) &&
    var s := Run(st, Start(directed, st.count, nodes), trials);
    (entry == Failed <==> s.curCount > st.count) &&
    (entry.Measured? ==> Measures(entry.c, s.g, st.m, st.enumerate(s.g), st.rotSym))
  }

  /** An entry written as calc_samples writes it records its run. */
  lemma EntryRecords(st: Setting, directed: bool, nodes: nat, fuel: nat,
                     trials: seq<seq<seq<int>>>, g: Graph, lastCount: int, entry: Sampled)
    requires ValidSetting(st) && forall h :: Shaped(st.enumerate(h), st.m.n)
    requires Completed(st, directed, nodes, fuel, trials)
    requires var s := Run(st, Start(directed, st.count, nodes), trials); g == s.g && lastCount == s.curCount
    requires entry == Failed <==> lastCount > st.count
    requires entry.Measured? ==> Measures(entry.c, g, st.m, st.enumerate(g), st.rotSym)
    ensures Records(st, directed, nodes, fuel, trials, entry)
  {
  }

  /** calc_samples: one complete calc_sample run per entry, written by
      index. The result is 1 when any sample failed. */
  method CalcSamples(directed: bool, m: Graph, count: nat, nodes: nat, maxTrials: int,
                     enumerate: Graph -> seq<seq<int>>, rotSym: int, samples: nat, fuel: nat)
    returns (ret: int, res: seq<Sampled>, ghost runs: seq<seq<seq<seq<int>>>>)
    requires WellFormed(m) && rotSym >= 1 && (nodes >= 1 || maxTrials <= 0)
    requires forall h :: Shaped(enumerate(h), m.n)
    ensures |res| == samples && |runs| == samples
    ensures ret == (if Failed in res then 1 else 0)
    ensures forall s :: 0 <= s < samples ==>
              Records(Setting(m, count, maxTrials, enumerate, rotSym), directed, nodes, fuel, runs[s], res[s])
  {
    ghost var st := Setting(m, count, maxTrials, enumerate, rotSym);
    res := seq(samples, _ => Failed);
    runs := seq(samples, _ => []);
    var flag := 0;
    var s := 0;
    while s < samples
      invariant 0 <= s <= samples && |res| == samples && |runs| == samples
      invariant flag == (if Failed in res[..s] then 1 else 0)
      invariant forall t :: 0 <= t < s ==> Records(st, directed, nodes, fuel, runs[t], res[t])
    {
      var suc, gs, lastCount, trials := CalcSample(directed, m, count, nodes, maxTrials, enumerate, rotSym, fuel);
      var entry := Failed;
      if suc == 1 {
        flag := 1;
      } else {
        var c := MotifClustering(gs, m, enumerate(gs), rotSym);
        assert Measures(c, gs, m, enumerate(gs), rotSym);
        entry := Measured(c);
      }
      assert entry == Failed <==> lastCount > count;
      assert Completed(st, directed, nodes, fuel, trials);
      EntryRecords(st, directed, nodes, fuel, trials, gs, lastCount, entry);
      res, runs := res[s := entry], runs[s := trials];
      assert res[..s + 1] == res[..s] + [res[s]];
      s := s + 1;
    }
    assert res[..samples] == res;
    ret := if flag == 1 then 1 else 0;
  }
}
