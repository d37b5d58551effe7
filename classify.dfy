/** Part II of motif_clustering_stats (mcstats.c): every pair of unique motif
    instances (i, j) with i < j, visited in lexicographic order, is sorted
    into a clustering type.

    - A pair whose instances share no vertex is counted in the extra last
      slot, index |types|.
    - Otherwise the clean subgraph is compared with the catalogue in order,
      and the first type the isomorphism oracle accepts is counted. When node
      maps are kept, the vertices of both instances are appended to that
      type's node list, interleaved, skipping those already listed.
    - An overlapping pair that no type accepts is counted nowhere; its slot
      is -1 here. */
module Classify {
  import opened Lists
  import opened Graphs
  import opened Subgraphs

  /** What the pair loop reads: the host, the motif, the unique instances,
      the catalogue of clustering types, and the isomorphism oracle. */
  datatype Survey = Survey(host: Graph, motif: Graph, maps: seq<seq<int>>,
                           types: seq<Graph>, iso: (Graph, Graph) -> bool)

  /** Every instance lists one host vertex per motif vertex. */
  predicate Sized(sv: Survey) {
    forall mp :: mp in sv.maps ==> |mp| == sv.motif.n
  }

  /** A pair of instance indices. */
  type Pair = (int, int)

  /** Every pair (i, j) of the list has 0 <= i < j < u. */
  predicate Within(ps: seq<Pair>, u: int) {
    forall t :: 0 <= t < |ps| ==> 0 <= ps[t].0 < ps[t].1 < u
  }

  // ---------------------------------------------------------------------
  // The pair order

  /** Row i of the pair loops from column lo up to hi - 1. */
  function Row(i: int, lo: int, hi: int): (r: seq<Pair>)
    requires lo <= hi
    ensures |r| == hi - lo
  {
    seq(hi - lo, d => (i, lo + d))
  }

  /** The pairs of rows 0 .. i-1 over u instances. */
  function Rows(u: nat, i: nat): seq<Pair>
    requires i <= u
  {
    if i == 0 then []
    else if i == 1 then Row(0, 1, u)
    else Rows(u, i - 1) + Row(i - 1, i, u)
  }

  /** All pairs, in the order the loops visit them: rows 0 .. u-2 (the last
      row would have no column). */
  function AllPairs(u: nat): seq<Pair> {
    if u == 0 then [] else Rows(u, u - 1)
  }

  /** The pairs visited are exactly those (i, j) with i < j < u. */
  lemma {:induction false} RowsMember(u: nat, i: nat)
    requires i <= u
    ensures Within(Rows(u, i), u)
    ensures forall a, b :: 0 <= a < i && a < b < u ==> (a, b) in Rows(u, i)
  {
    if i == 1 {
      var r := Row(0, 1, u);
      forall a, b | 0 <= a < i && a < b < u ensures (a, b) in Rows(u, i) {
        assert r[b - 1] == (a, b);
      }
    } else if i > 1 {
      RowsMember(u, i - 1);
      var r := Row(i - 1, i, u);
      forall a, b | 0 <= a < i && a < b < u ensures (a, b) in Rows(u, i) {
        if a == i - 1 {
          assert r[b - i] == (a, b);
        }
      }
    }
  }

  /** The pair list of u instances holds every pair (i, j) with i < j < u
      and no other. */
  lemma AllPairsMember(u: nat)
    ensures Within(AllPairs(u), u)
    ensures forall a, b :: 0 <= a < b < u ==> (a, b) in AllPairs(u)
  {
    if u > 0 {
      RowsMember(u, u - 1);
    }
  }

  /** Rows 0 .. i-1 hold i * (2u - i - 1) / 2 pairs. */
  lemma {:induction false} RowsLength(u: nat, i: nat)
    requires i <= u
    ensures 2 * |Rows(u, i)| == i * (2 * u - i - 1)
  {
    if i > 1 {
      RowsLength(u, i - 1);
      assert |Rows(u, i)| == |Rows(u, i - 1)| + (u - i);
      var w := 2 * u - i;
      assert (i - 1) * w == i * w - w;
      assert i * (w - 1) == i * w - i;
    }
  }

  /** u instances make u (u - 1) / 2 pairs. */
  lemma AllPairsLength(u: nat)
    ensures 2 * |AllPairs(u)| == u * (u - 1)
  {
    if u > 0 {
      RowsLength(u, u - 1);
    }
  }

  // ---------------------------------------------------------------------
  // Sorting one pair

  /** The first type from position `from` on that the oracle finds
      isomorphic to h, or -1. */
  function FirstIso(h: Graph, types: seq<Graph>, iso: (Graph, Graph) -> bool, from: nat): (k: int)
    ensures k == -1 || from <= k < |types|
    ensures k >= 0 ==> iso(h, types[k]) && forall t :: from <= t < k ==> !iso(h, types[t])
    ensures k == -1 ==> forall t :: from <= t < |types| ==> !iso(h, types[t])
    decreases |types| - from
  {
    if from >= |types| then -1
    else if iso(h, types[from]) then from
    else FirstIso(h, types, iso, from + 1)
  }

  /** The slot a pair of instances is counted in: |types| when they share no
      vertex, else the first type isomorphic to their clean subgraph, -1 when
      there is none. (Index pairs outside the instance list, which the loops
      never form, go to no slot either.) */
  function Slot(sv: Survey, p: Pair): (k: int)
    ensures -1 <= k <= |sv.types|
    ensures k >= 0 ==> 0 <= p.0 < |sv.maps| && 0 <= p.1 < |sv.maps|
  {
    if !(0 <= p.0 < |sv.maps| && 0 <= p.1 < |sv.maps|) then -1
    else
      var m1, m2 := sv.maps[p.0], sv.maps[p.1];
      if !Overlaps(m1, m2) then |sv.types|
      else FirstIso(Subgraph(sv.host, sv.motif, m1, m2), sv.types, sv.iso, 0)
  }

  /** A pair of instances lands in the last slot exactly when they share no
      vertex; in slot k below it exactly when their clean subgraph is
      isomorphic to type k and to no earlier type; nowhere when it overlaps
      and matches no type. */
  lemma SlotMeaning(sv: Survey, i: nat, j: nat, k: int)
    requires i < |sv.maps| && j < |sv.maps|
    ensures Slot(sv, (i, j)) == |sv.types| <==> !Overlaps(sv.maps[i], sv.maps[j])
    ensures 0 <= k < |sv.types| ==>
              (Slot(sv, (i, j)) == k <==>
                 Overlaps(sv.maps[i], sv.maps[j]) &&
                 sv.iso(Subgraph(sv.host, sv.motif, sv.maps[i], sv.maps[j]), sv.types[k]) &&
                 forall t :: 0 <= t < k ==> !sv.iso(Subgraph(sv.host, sv.motif, sv.maps[i], sv.maps[j]), sv.types[t]))
    ensures Slot(sv, (i, j)) == -1 <==>
              Overlaps(sv.maps[i], sv.maps[j]) &&
              forall t :: 0 <= t < |sv.types| ==> !sv.iso(Subgraph(sv.host, sv.motif, sv.maps[i], sv.maps[j]), sv.types[t])
  {
  }

  /** How many pairs of the list are counted in slot k. Its relation to the
      count vector is `CountsTally` and `CountsTotal`. */
  function Tally(sv: Survey, ps: seq<Pair>, k: int): (c: nat)
    ensures c <= |ps|
  {
    if ps == [] then 0
    else
      var ps' := ps[..|ps| - 1];
      Tally(sv, ps', k) + (if Slot(sv, ps[|ps| - 1]) == k then 1 else 0)
  }

  /** A count vector of n zeros. */
  function Zeros(n: nat): seq<nat> {
    seq(n, _ => 0)
  }

  /** n empty node lists. */
  function Empties(n: nat): seq<seq<int>> {
    seq(n, _ => [])
  }

  /** The count vector with entry s raised by one (none for s = -1). */
  function Bump(c: seq<nat>, s: int): (r: seq<nat>)
    ensures |r| == |c|
  {
    if 0 <= s < |c| then c[s := c[s] + 1] else c
  }

  /** The slot function of a survey. */
  function SlotOf(sv: Survey): Pair -> int {
    p => Slot(sv, p)
  }

  /** `slot` sorts every pair as the survey does. The loops below are proved
      for any such function, so that their proofs never look inside Slot. */
  ghost predicate Follows(sv: Survey, slot: Pair -> int) {
    forall p {:trigger Slot(sv, p)} :: slot(p) == Slot(sv, p)
  }

  /** The count vector after the pairs of the list, each sorted by `slot`:
      one entry per type plus the no-overlap entry, each pair raising the
      entry of its slot. What each entry counts is stated by `CountsTally`
      and `CountsTotal`. */
  function CountsBy(sv: Survey, slot: Pair -> int, ps: seq<Pair>): (c: seq<nat>)
    ensures |c| == |sv.types| + 1
  {
    if ps == [] then Zeros(|sv.types| + 1)
    else Bump(CountsBy(sv, slot, ps[..|ps| - 1]), slot(ps[|ps| - 1]))
  }

  /** Positions of a and b alternately: a[0], b[0], a[1], b[1], ... Its
      values are those of a and b (`InterleaveSet`). */
  function Interleave(a: seq<int>, b: seq<int>): (r: seq<int>)
    requires |a| == |b|
    ensures |r| == 2 * |a|
  {
    if a == [] then []
    else Interleave(a[..|a| - 1], b[..|b| - 1]) + [a[|a| - 1], b[|b| - 1]]
  }

  /** v with each value of s appended that is not already present. */
  function AddAll(v: seq<int>, s: seq<int>): seq<int> {
    if s == [] then v
    else
      var r := AddAll(v, s[..|s| - 1]);
      if s[|s| - 1] in r then r else r + [s[|s| - 1]]
  }

  /** The node list of slot k after one more pair: the vertices of both
      instances, interleaved, that it does not hold yet. (Only a slot that
      names a type, for a pair of listed instances, has a node list.) */
  function Noted(sv: Survey, r: seq<seq<int>>, k: int, p: Pair): seq<seq<int>>
    requires Sized(sv)
  {
    if 0 <= k < |r| && 0 <= p.0 < |sv.maps| && 0 <= p.1 < |sv.maps| then
      r[k := AddAll(r[k], Interleave(sv.maps[p.0], sv.maps[p.1]))]
    else r
  }

  /** The node lists after the pairs of the list, sorted by `slot`, one per
      type. What each list holds is stated by `NodeListsSpec`. */
  function NodeListsBy(sv: Survey, slot: Pair -> int, ps: seq<Pair>): (r: seq<seq<int>>)
    requires Sized(sv)
    ensures |r| == |sv.types|
  {
    if ps == [] then Empties(|sv.types|)
    else
      Noted(sv, NodeListsBy(sv, slot, ps[..|ps| - 1]), slot(ps[|ps| - 1]), ps[|ps| - 1])
  }

  /** The count vector of the survey after the pairs of the list. */
  function Counts(sv: Survey, ps: seq<Pair>): (c: seq<nat>)
    ensures |c| == |sv.types| + 1
  {
    CountsBy(sv, SlotOf(sv), ps)
  }

  /** The node lists of the survey after the pairs of the list. */
  function NodeLists(sv: Survey, ps: seq<Pair>): (r: seq<seq<int>>)
    requires Sized(sv)
    ensures |r| == |sv.types|
  {
    NodeListsBy(sv, SlotOf(sv), ps)
  }

  /** The node lists the pair loop keeps: none unless asked for. */
  function Kept(sv: Survey, keepNodes: bool, ps: seq<Pair>): seq<seq<int>>
    requires Sized(sv)
  {
    if keepNodes then NodeLists(sv, ps) else []
  }

  lemma SnocParts(ps: seq<Pair>, p: Pair)
    ensures (ps + [p])[..|ps|] == ps && (ps + [p])[|ps|] == p
  {
    assert (ps + [p])[..|ps|] == ps;
  }

  /** One more pair raises the count of its slot by one. */
  lemma CountsSnoc(sv: Survey, slot: Pair -> int, ps: seq<Pair>, p: Pair)
    ensures CountsBy(sv, slot, ps + [p]) == Bump(CountsBy(sv, slot, ps), slot(p))
  {
    SnocParts(ps, p);
  }

  /** One more pair extends the node list of its slot. */
  lemma NodeListsSnoc(sv: Survey, slot: Pair -> int, ps: seq<Pair>, p: Pair)
    requires Sized(sv)
    ensures NodeListsBy(sv, slot, ps + [p]) == Noted(sv, NodeListsBy(sv, slot, ps), slot(p), p)
  {
    SnocParts(ps, p);
  }

  // ---------------------------------------------------------------------
  // The loops

  /** The pair loop of motif_clustering_stats: the count vector, and the node
      lists when they are kept. */
  method ClassifyPairs(sv: Survey, keepNodes: bool) returns (counts: seq<nat>, nodeMaps: seq<seq<int>>)
    requires Sized(sv)
    ensures counts == Counts(sv, AllPairs(|sv.maps|))
    ensures nodeMaps == Kept(sv, keepNodes, AllPairs(|sv.maps|))
  {
    var u := |sv.maps|;
    var rows := if u == 0 then 0 else u - 1;
    var t := ClassifyRows(sv, keepNodes, rows, SlotOf(sv));
    RowsDone(u, rows);
    counts, nodeMaps := t.counts, t.nodeMaps;
  }

  /** The loop state between rows: the count vector and the node lists. */
  datatype Tallies = Tallies(counts: seq<nat>, nodeMaps: seq<seq<int>>)

  /** The loop state after the pairs of the list, sorted by `slot`. */
  function Classified(sv: Survey, keepNodes: bool, slot: Pair -> int, ps: seq<Pair>): (t: Tallies)
    requires Sized(sv)
    ensures |t.counts| == |sv.types| + 1
    ensures keepNodes ==> |t.nodeMaps| == |sv.types|
  {
    Tallies(CountsBy(sv, slot, ps), if keepNodes then NodeListsBy(sv, slot, ps) else [])
  }

  /** Before the first pair, every count is zero and every node list empty. */
  lemma NoneClassified(sv: Survey, keepNodes: bool, slot: Pair -> int, ps: seq<Pair>)
    requires Sized(sv) && ps == []
    ensures Classified(sv, keepNodes, slot, ps) ==
            Tallies(Zeros(|sv.types| + 1), if keepNodes then Empties(|sv.types|) else [])
  {
  }

  /** The tallies before the first pair: zero counts, and empty node lists
      when they are kept. */
  method NoTallies(sv: Survey, keepNodes: bool, ghost slot: Pair -> int) returns (t: Tallies)
    requires Sized(sv)
    ensures t == Classified(sv, keepNodes, slot, Rows(|sv.maps|, 0))
  {
    var nodeMaps := if keepNodes then Empties(|sv.types|) else [];
    var counts := Zeros(|sv.types| + 1);
    t := Tallies(counts, nodeMaps);
    NoneClassified(sv, keepNodes, slot, Rows(|sv.maps|, 0));
  }

  /** Rows 0 .. n-1 of the pair loop, from empty tallies. */
  method ClassifyRows(sv: Survey, keepNodes: bool, n: nat, ghost slot: Pair -> int) returns (t: Tallies)
    requires Sized(sv) && n <= |sv.maps| && Follows(sv, slot)
    ensures t == Classified(sv, keepNodes, slot, Rows(|sv.maps|, n))
  {
    t := NoTallies(sv, keepNodes, slot);
    var i := 0;
    ghost var done := Rows(|sv.maps|, 0);
    while i < n
      invariant 0 <= i <= n && done == Rows(|sv.maps|, i)
      invariant t == Classified(sv, keepNodes, slot, done)
    {
      t := ClassifyRow(sv, keepNodes, i, t, slot);
      i, done := i + 1, Rows(|sv.maps|, i + 1);
    }
  }

  /** When the outer loop stops, the rows it has done are all the pairs. */
  lemma RowsDone(u: nat, i: nat)
    requires i <= u && (i == u - 1 || (i == 0 && u <= 1))
    ensures Rows(u, i) == AllPairs(u)
  {
  }

  /** Row i of the pair loop: j runs from i + 1 to u - 1. */
  method ClassifyRow(sv: Survey, keepNodes: bool, i: nat, t: Tallies, ghost slot: Pair -> int) returns (t': Tallies)
    requires Sized(sv) && i < |sv.maps| && Follows(sv, slot)
    requires t == Classified(sv, keepNodes, slot, Rows(|sv.maps|, i))
    ensures t' == Classified(sv, keepNodes, slot, Rows(|sv.maps|, i + 1))
  {
    var u := |sv.maps|;
    ghost var done := Rows(u, i);
    ghost var ps := done;
    var cur := t;
    var j := i + 1;
    RowEmpty(ps, i);
    while j < u
      invariant i + 1 <= j <= u
      invariant ps == done + Row(i, i + 1, j)
      invariant cur == Classified(sv, keepNodes, slot, ps)
    {
      cur := ClassifyPair(sv, keepNodes, slot, ps, (i, j), cur);
      RowNext(done, i, j);
      ps := ps + [(i, j)];
      j := j + 1;
    }
    RowsNext(u, i, done, ps);
    t' := cur;
  }

  /** The next row follows the previous ones. */
  lemma RowsNext(u: nat, i: nat, before: seq<Pair>, after: seq<Pair>)
    requires i < u && before == Rows(u, i) && after == before + Row(i, i + 1, u)
    ensures after == Rows(u, i + 1)
  {
    if i == 0 {
      assert before + Row(0, 1, u) == Row(0, 1, u);
    }
  }

  lemma RowEmpty(ps: seq<Pair>, i: int)
    ensures ps + Row(i, i + 1, i + 1) == ps
  {
  }

  /** One more column in a row appends one pair. */
  lemma RowNext(ps: seq<Pair>, i: int, j: int)
    requires i + 1 <= j
    ensures ps + Row(i, i + 1, j + 1) == (ps + Row(i, i + 1, j)) + [(i, j)]
  {
    assert Row(i, i + 1, j + 1) == Row(i, i + 1, j) + [(i, j)];
  }

  /** One pair: clean subgraph, then the catalogue search and the updates. */
  method ClassifyPair(sv: Survey, keepNodes: bool, ghost slot: Pair -> int, ghost ps: seq<Pair>,
                      p: Pair, t: Tallies) returns (t': Tallies)
    requires Sized(sv) && 0 <= p.0 < p.1 < |sv.maps| && Follows(sv, slot)
    requires t == Classified(sv, keepNodes, slot, ps)
    ensures t' == Classified(sv, keepNodes, slot, ps + [p])
  {
    CountsSnoc(sv, slot, ps, p);
    NodeListsSnoc(sv, slot, ps, p);
    var m1, m2 := sv.maps[p.0], sv.maps[p.1];
    var res, sub := CleanSubgraph(sv.host, sv.motif, m1, m2);
    var k;
    if res != 1 {
      k := FindIso(sub, sv.types, sv.iso);
    } else {
      k := |sv.types|;
    }
    assert k == Slot(sv, p) == slot(p);
    var counts, nodeMaps := Bump(t.counts, k), t.nodeMaps;
    if keepNodes && 0 <= k < |sv.types| {
      var v := PushNodes(nodeMaps[k], m1, m2);
      nodeMaps := nodeMaps[k := v];
    }
    t' := Tallies(counts, nodeMaps);
  }

  /** The catalogue search: the first type the oracle finds isomorphic. */
  method FindIso(h: Graph, types: seq<Graph>, iso: (Graph, Graph) -> bool) returns (k: int)
    ensures k == FirstIso(h, types, iso, 0)
  {
    k := 0;
    while k < |types|
      invariant 0 <= k <= |types|
      invariant FirstIso(h, types, iso, 0) == FirstIso(h, types, iso, k)
    {
      if iso(h, types[k]) {
        return;
      }
      k := k + 1;
    }
    k := -1;
  }

  /** The node-list update: for each position p, m1[p] then m2[p] is
      appended unless the list already holds it. */
  method PushNodes(v: seq<int>, m1: seq<int>, m2: seq<int>) returns (r: seq<int>)
    requires |m1| == |m2|
    ensures r == AddAll(v, Interleave(m1, m2))
  {
    r := v;
    var p := 0;
    while p < |m1|
      invariant 0 <= p <= |m1|
      invariant r == AddAll(v, Interleave(m1[..p], m2[..p]))
    {
      ghost var s := Interleave(m1[..p], m2[..p]);
      assert m1[..p + 1][..p] == m1[..p] && m2[..p + 1][..p] == m2[..p];
      assert Interleave(m1[..p + 1], m2[..p + 1]) == s + [m1[p], m2[p]];
      assert (s + [m1[p], m2[p]])[..|s| + 1] == s + [m1[p]];
      assert (s + [m1[p]])[..|s|] == s;
      if m1[p] !in r {
        r := r + [m1[p]];
      }
      if m2[p] !in r {
        r := r + [m2[p]];
      }
      p := p + 1;
    }
    assert m1[..|m1|] == m1 && m2[..|m2|] == m2;
  }

  // ---------------------------------------------------------------------
  // Properties

  /** The sum of a count vector. */
  function Sum(c: seq<nat>): nat {
    if c == [] then 0 else Sum(c[..|c| - 1]) + c[|c| - 1]
  }

  /** Raising one entry by one raises the sum by one. */
  lemma {:induction false} SumBump(c: seq<nat>, c': seq<nat>, s: int)
    requires |c| == |c'|
    requires forall k :: 0 <= k < |c| ==> c'[k] == c[k] + (if k == s then 1 else 0)
    ensures Sum(c') == Sum(c) + (if 0 <= s < |c| then 1 else 0)
  {
    if c != [] {
      var n := |c| - 1;
      SumBump(c[..n], c'[..n], s);
    }
  }

  /** Entry k of the count vector is the number of pairs counted in slot k. */
  lemma {:induction false} CountsTally(sv: Survey, ps: seq<Pair>, k: int)
    requires 0 <= k <= |sv.types|
    ensures Counts(sv, ps)[k] == Tally(sv, ps, k)
  {
    if ps != [] {
      CountsTally(sv, ps[..|ps| - 1], k);
    }
  }

  /** Every pair is counted once, except the overlapping pairs no type
      accepts: the counts add up to the number of pairs less those. */
  lemma {:induction false} CountsTotal(sv: Survey, ps: seq<Pair>)
    ensures Sum(Counts(sv, ps)) + Tally(sv, ps, -1) == |ps|
  {
    if ps == [] {
      ZeroSum(|sv.types| + 1);
    } else {
      var ps' := ps[..|ps| - 1];
      var c := Counts(sv, ps');
      var s := Slot(sv, ps[|ps| - 1]);
      CountsTotal(sv, ps');
      SumBump(c, Bump(c, s), s);
    }
  }

  /** A vector of zeros sums to zero. */
  lemma {:induction false} ZeroSum(n: nat)
    ensures Sum(Zeros(n)) == 0
  {
    if n > 1 {
      assert Zeros(n)[..n - 1] == Zeros(n - 1);
      ZeroSum(n - 1);
    }
  }


  /** The interleaving holds the vertices of both instances. */
  lemma {:induction false} InterleaveSet(a: seq<int>, b: seq<int>)
    requires |a| == |b|
    ensures SetOf(Interleave(a, b)) == SetOf(a) + SetOf(b)
  {
    if a != [] {
      var n := |a| - 1;
      InterleaveSet(a[..n], b[..n]);
      assert SetOf(Interleave(a, b)) == SetOf(Interleave(a[..n], b[..n])) + {a[n], b[n]};
      assert a == a[..n] + [a[n]] && b == b[..n] + [b[n]];
      assert SetOf(a) == SetOf(a[..n]) + {a[n]};
      assert SetOf(b) == SetOf(b[..n]) + {b[n]};
    }
  }

  /** Appending the missing values of s keeps v as a prefix, adds exactly the
      values of s, and lists nothing twice if v did not. */
  lemma {:induction false} AddAllSpec(v: seq<int>, s: seq<int>)
    ensures |v| <= |AddAll(v, s)| && AddAll(v, s)[..|v|] == v
    ensures SetOf(AddAll(v, s)) == SetOf(v) + SetOf(s)
    ensures NoDup(v) ==> NoDup(AddAll(v, s))
  {
    if s != [] {
      var s' := s[..|s| - 1];
      var x := s[|s| - 1];
      AddAllSpec(v, s');
      assert s == s' + [x];
      assert SetOf(s) == SetOf(s') + {x};
      var r := AddAll(v, s');
      if x !in r {
        assert (r + [x])[..|v|] == r[..|v|];
        assert SetOf(r + [x]) == SetOf(r) + {x};
      }
    }
  }

  /** Some pair of the list counted in slot k has x among its vertices. */
  predicate Seen(sv: Survey, ps: seq<Pair>, k: int, x: int)
    requires 0 <= k
  {
    exists t :: 0 <= t < |ps| && Slot(sv, ps[t]) == k && (x in sv.maps[ps[t].0] || x in sv.maps[ps[t].1])
  }

  /** Seen after one more pair: seen before, or a vertex of that pair when
      it is counted in slot k. */
  lemma SeenSnoc(sv: Survey, ps: seq<Pair>, p: Pair, k: int, x: int)
    requires 0 <= k
    ensures Seen(sv, ps + [p], k, x) <==>
              Seen(sv, ps, k, x) || (Slot(sv, p) == k && (x in sv.maps[p.0] || x in sv.maps[p.1]))
  {
    SnocParts(ps, p);
    var ps' := ps + [p];
    if Seen(sv, ps', k, x) {
      var t :| 0 <= t < |ps'| && Slot(sv, ps'[t]) == k && (x in sv.maps[ps'[t].0] || x in sv.maps[ps'[t].1]);
      if t < |ps| {
        assert ps'[t] == ps[t];
      }
    }
    if Seen(sv, ps, k, x) {
      var t :| 0 <= t < |ps| && Slot(sv, ps[t]) == k && (x in sv.maps[ps[t].0] || x in sv.maps[ps[t].1]);
      assert ps'[t] == ps[t];
    }
    if Slot(sv, p) == k && (x in sv.maps[p.0] || x in sv.maps[p.1]) {
      assert ps'[|ps|] == p;
    }
  }

  /** Entry k of the node lists after one more pair. */
  lemma NodeListsAt(sv: Survey, ps: seq<Pair>, p: Pair, k: int)
    requires Sized(sv) && 0 <= k < |sv.types|
    ensures NodeLists(sv, ps + [p])[k] ==
              if Slot(sv, p) == k then AddAll(NodeLists(sv, ps)[k], Interleave(sv.maps[p.0], sv.maps[p.1]))
              else NodeLists(sv, ps)[k]
  {
    NodeListsSnoc(sv, SlotOf(sv), ps, p);
  }

  /** The node list of type k lists, once each, the vertices of the instance
      pairs counted as type k. */
  lemma {:induction false} NodeListsSpec(sv: Survey, ps: seq<Pair>, k: int)
    requires Sized(sv) && 0 <= k < |sv.types|
    ensures NoDup(NodeLists(sv, ps)[k])
    ensures forall x :: x in NodeLists(sv, ps)[k] <==> Seen(sv, ps, k, x)
  {
    if ps != [] {
      var ps' := ps[..|ps| - 1];
      var p := ps[|ps| - 1];
      assert ps' + [p] == ps;
      NodeListsSpec(sv, ps', k);
      NodeListsAt(sv, ps', p, k);
      var before, after := NodeLists(sv, ps')[k], NodeLists(sv, ps)[k];
      if Slot(sv, p) == k {
        var a, b := sv.maps[p.0], sv.maps[p.1];
        AddAllSpec(before, Interleave(a, b));
        InterleaveSet(a, b);
        assert SetOf(after) == SetOf(before) + SetOf(a) + SetOf(b);
        forall x ensures x in after <==> Seen(sv, ps, k, x) {
          SeenSnoc(sv, ps', p, k, x);
          assert x in before <==> Seen(sv, ps', k, x);
          assert x in after <==> x in SetOf(after);
          assert x in before <==> x in SetOf(before);
          assert x in SetOf(a) <==> x in a;
          assert x in SetOf(b) <==> x in b;
        }
      } else {
        assert after == before;
        forall x ensures x in after <==> Seen(sv, ps, k, x) {
          SeenSnoc(sv, ps', p, k, x);
        }
      }
    }
  }
}
