/** Motif instances as the subgraph-isomorphism oracle reports them: one
    mapping per match, listing the host vertex that plays each motif vertex.
    This module holds the two passes every tool runs over that list:

    - cleanup (directed hosts only): a mapping whose vertex set induces a
      different number of host edges than expected is invalidated in place by
      writing the sentinel -1 into its slot 0;
    - deduplication: the first surviving mapping of every vertex set is kept,
      in input order.

    The expected edge count is a parameter because the tools disagree on it:
    mcstats.c and mcextract.c compare with the motif's vertex count, mcc.c with
    its edge count. */
module Instances {
  import opened Lists
  import opened Graphs

  /** The value written into slot 0 of an invalidated mapping. */
  const Sentinel := -1

  /** The oracle's contract on its output: one host vertex per motif vertex. */
  predicate Shaped(maps: seq<seq<int>>, size: nat) {
    size >= 1 && forall mp :: mp in maps ==> |mp| == size
  }

  /** Every mapping entry is a vertex of the host (so never the sentinel). */
  predicate InHost(g: Graph, maps: seq<seq<int>>) {
    forall mp, x :: mp in maps && x in mp ==> 0 <= x < g.n
  }

  /** Edge count of the host subgraph induced by the mapping's vertices. */
  function InducedCount(g: Graph, mp: seq<int>): nat {
    InducedEdgeCount(g.edges, SetOf(mp))
  }

  /** The cleanup test: only directed hosts are checked. */
  predicate Spurious(g: Graph, mp: seq<int>, expected: nat) {
    g.directed && InducedCount(g, mp) != expected
  }

  /** The mapping list after cleanup. */
  function Cleaned(g: Graph, maps: seq<seq<int>>, expected: nat): (r: seq<seq<int>>)
    requires forall mp :: mp in maps ==> |mp| >= 1
    ensures |r| == |maps|
  {
    seq(|maps|, i requires 0 <= i < |maps| =>
      if Spurious(g, maps[i], expected) then maps[i][0 := Sentinel] else maps[i])
  }

  /** The oracle's mapping list as the array of vectors the tools mutate. */
  method LoadMaps(found: seq<seq<int>>) returns (maps: array<seq<int>>)
    ensures fresh(maps) && maps[..] == found
  {
    maps := new seq<int>[|found|](i requires 0 <= i < |found| => found[i]);
    assert maps[..] == found;
  }

  /** Cleanup in place, as the tools do it on the oracle's vectors: slot 0 of a
      mapping becomes -1 exactly when the host is directed and the mapping's
      induced edge count differs from `expected`; nothing else changes. */
  method InvalidateSpurious(g: Graph, maps: array<seq<int>>, expected: nat)
    requires forall i :: 0 <= i < maps.Length ==> |maps[i]| >= 1
    modifies maps
    ensures forall i :: 0 <= i < maps.Length ==>
              |maps[i]| == |old(maps[i])| && maps[i][1..] == old(maps[i])[1..] &&
              maps[i][0] == (if Spurious(g, old(maps[i]), expected) then Sentinel else old(maps[i])[0])
    ensures !g.directed ==> maps[..] == old(maps[..])
    ensures maps[..] == Cleaned(g, old(maps[..]), expected)
  {
    if g.directed {
      var i := 0;
      while i < maps.Length
        invariant 0 <= i <= maps.Length
        invariant forall k :: 0 <= k < i ==>
                    maps[k] == if Spurious(g, old(maps[k]), expected) then old(maps[k])[0 := Sentinel] else old(maps[k])
        invariant forall k :: i <= k < maps.Length ==> maps[k] == old(maps[k])
      {
        if InducedCount(g, maps[i]) != expected {
          maps[i] := maps[i][0 := Sentinel];
        }
        i := i + 1;
      }
    }
  }

  /** Cleanup keeps every mapping's length. */
  lemma CleanedShaped(g: Graph, maps: seq<seq<int>>, expected: nat, size: nat)
    requires Shaped(maps, size)
    ensures Shaped(Cleaned(g, maps, expected), size)
  {
    var c := Cleaned(g, maps, expected);
    forall mp | mp in c ensures |mp| == size {
      var i :| 0 <= i < |c| && c[i] == mp;
      assert maps[i] in maps;
    }
  }

  /** On mappings of host vertices, the sentinel appears after cleanup exactly
      on the mappings the test rejects; on undirected hosts nothing changes. */
  lemma CleanedMarks(g: Graph, maps: seq<seq<int>>, expected: nat, i: nat)
    requires forall mp :: mp in maps ==> |mp| >= 1
    requires InHost(g, maps) && i < |maps|
    ensures Cleaned(g, maps, expected)[i][0] == Sentinel <==> Spurious(g, maps[i], expected)
    ensures !g.directed ==> Cleaned(g, maps, expected)[i] == maps[i]
  {
    assert maps[i][0] in maps[i];
  }

  /** The motif found in a copy of itself: the identity mapping. */
  function Identity(n: nat): (r: seq<int>)
    ensures |r| == n
  {
    seq(n, i => i)
  }

  /** As written in mcstats.c and mcextract.c, cleanup compares the induced edge
      count with the motif's VERTEX count. A directed motif whose edge count
      differs from its vertex count (the 3-vertex chain 0->1->2, for one) then
      loses even its exact occurrence in a copy of itself. */
  lemma VertexCountTestDropsExactInstance(m: Graph)
    requires WellFormed(m) && m.directed && m.n >= 1 && |m.edges| != m.n
    ensures Cleaned(m, [Identity(m.n)], m.n)[0][0] == Sentinel
  {
    var id := Identity(m.n);
    forall e | e in m.edges ensures e.from in SetOf(id) && e.to in SetOf(id) {
      assert id[e.from] == e.from && id[e.to] == e.to;
    }
    InducedEdgeCountAll(m.edges, SetOf(id));
  }

  /** The test mcc.c applies compares with the motif's EDGE count, and keeps the
      exact occurrence of any well-formed motif. */
  lemma EdgeCountTestKeepsExactInstance(m: Graph)
    requires WellFormed(m) && m.n >= 1
    ensures Cleaned(m, [Identity(m.n)], |m.edges|) == [Identity(m.n)]
  {
    var id := Identity(m.n);
    forall e | e in m.edges ensures e.from in SetOf(id) && e.to in SetOf(id) {
      assert id[e.from] == e.from && id[e.to] == e.to;
    }
    InducedEdgeCountAll(m.edges, SetOf(id));
  }

  /** The count of the tools' inner double loop with `break`: how many
      positions of `a` hold a vertex that occurs in `b`. */
  method CountMatches(a: seq<int>, b: seq<int>, size: nat) returns (count: nat)
    requires |a| == size && |b| == size
    ensures count == Matches(a, b)
  {
    count := 0;
    var s := 0;
    while s < size
      invariant 0 <= s <= size
      invariant count == Matches(a[..s], b)
    {
      assert a[..s + 1][..s] == a[..s];
      var t := 0;
      while t < size
        invariant 0 <= t <= size
        invariant a[s] !in b[..t]
      {
        if a[s] == b[t] {
          count := count + 1;
          break;
        }
        assert b[..t + 1] == b[..t] + [b[t]];
        t := t + 1;
      }
      assert b[..size] == b;
      s := s + 1;
    }
    assert a[..size] == a;
  }

  /** Some accepted mapping holds every vertex of `mp` (the count reaches the
      motif size). */
  predicate CoveredBy(mp: seq<int>, accepted: seq<seq<int>>) {
    exists a :: a in accepted && Matches(mp, a) == |mp|
  }

  /** The unique-instance list: each mapping not invalidated by cleanup is
      appended unless an already accepted mapping covers it. */
  function Unique(maps: seq<seq<int>>): (u: seq<seq<int>>)
    requires forall mp :: mp in maps ==> |mp| >= 1
    ensures |u| <= |maps|
  {
    if maps == [] then []
    else
      var u := Unique(maps[..|maps| - 1]);
      var mp := maps[|maps| - 1];
      if mp[0] != Sentinel && !CoveredBy(mp, u) then u + [mp] else u
  }

  /** The search of the deduplication loop: scan the accepted mappings in
      order and stop at the first one that holds every vertex of `mp`. */
  method FindCover(mp: seq<int>, accepted: seq<seq<int>>, size: nat) returns (found: bool)
    requires |mp| == size && forall a :: a in accepted ==> |a| == size
    ensures found <==> CoveredBy(mp, accepted)
  {
    found := false;
    var j := 0;
    while j < |accepted|
      invariant 0 <= j <= |accepted|
      invariant forall k :: 0 <= k < j ==> Matches(mp, accepted[k]) != size
    {
      var count := CountMatches(mp, accepted[j], size);
      if count == size {
        found := true;
        break;
      }
      j := j + 1;
    }
  }

  /** The deduplication loop: actMaps is filled by index with a running counter
      and trimmed to that counter at the end. */
  method Deduplicate(maps: seq<seq<int>>, size: nat) returns (actMaps: seq<seq<int>>)
    requires Shaped(maps, size)
    ensures actMaps == Unique(maps)
  {
    var mapsCount := |maps|;
    var act := new seq<int>[mapsCount];
    var actMapsCount := 0;
    var i := 0;
    while i < mapsCount
      invariant 0 <= i <= mapsCount
      invariant 0 <= actMapsCount <= i
      invariant act[..actMapsCount] == Unique(maps[..i])
      invariant forall k :: 0 <= k < actMapsCount ==> |act[k]| == size
    {
      assert maps[..i + 1][..i] == maps[..i];
      actMapsCount := Consider(act, actMapsCount, maps[i], size);
      i := i + 1;
    }
    assert maps[..mapsCount] == maps;
    actMaps := act[..actMapsCount];
  }

  /** One pass of the deduplication loop: the mapping goes into the next
      free slot unless cleanup invalidated it or an accepted mapping holds
      all its vertices. */
  method Consider(act: array<seq<int>>, count: nat, mp: seq<int>, size: nat) returns (count': nat)
    requires count < act.Length && |mp| == size && size >= 1
    requires forall k :: 0 <= k < count ==> |act[k]| == size
    modifies act
    ensures count' <= count + 1
    ensures act[..count'] ==
              if mp[0] != Sentinel && !CoveredBy(mp, old(act[..count])) then old(act[..count]) + [mp]
              else old(act[..count])
    ensures forall k :: 0 <= k < count' ==> |act[k]| == size
  {
    count' := count;
    if mp[0] != Sentinel {
      var found := FindCover(mp, act[..count], size);
      if !found {
        act[count] := mp;
        count' := count + 1;
      }
    }
  }

  /** Every accepted mapping survived cleanup and comes from the input. */
  lemma {:induction false} UniqueFrom(maps: seq<seq<int>>)
    requires forall mp :: mp in maps ==> |mp| >= 1
    ensures forall a :: a in Unique(maps) ==> a in maps && a[0] != Sentinel
  {
    if maps != [] {
      var maps' := maps[..|maps| - 1];
      UniqueFrom(maps');
      assert forall a :: a in maps' ==> a in maps;
    }
  }

  /** No accepted mapping's vertex set is contained in that of an earlier
      one, so no two accepted mappings share a vertex set. */
  lemma {:induction false} UniqueSound(maps: seq<seq<int>>)
    requires forall mp :: mp in maps ==> |mp| >= 1
    ensures forall i, j :: 0 <= i < j < |Unique(maps)| ==>
              !(SetOf(Unique(maps)[j]) <= SetOf(Unique(maps)[i]))
    ensures forall i, j :: 0 <= i < |Unique(maps)| && 0 <= j < |Unique(maps)| && i != j ==>
              SetOf(Unique(maps)[i]) != SetOf(Unique(maps)[j])
  {
    if maps != [] {
      var maps' := maps[..|maps| - 1];
      var mp := maps[|maps| - 1];
      var u := Unique(maps');
      UniqueSound(maps');
      assert forall a :: a in maps' ==> a in maps;
      if mp[0] != Sentinel && !CoveredBy(mp, u) {
        var u' := u + [mp];
        forall i | 0 <= i < |u| ensures !(SetOf(mp) <= SetOf(u'[i])) {
          assert u'[i] == u[i] && u[i] in u;
          MatchesFull(mp, u[i]);
        }
      }
    }
  }

  /** Every mapping that survived cleanup has all its vertices in some accepted
      mapping. */
  lemma {:induction false} UniqueComplete(maps: seq<seq<int>>)
    requires forall mp :: mp in maps ==> |mp| >= 1
    ensures forall mp :: mp in maps && mp[0] != Sentinel ==>
              exists a :: a in Unique(maps) && SetOf(mp) <= SetOf(a)
  {
    if maps != [] {
      var maps' := maps[..|maps| - 1];
      var last := maps[|maps| - 1];
      var u := Unique(maps');
      UniqueComplete(maps');
      assert maps == maps' + [last];
      forall mp | mp in maps && mp[0] != Sentinel
        ensures exists a :: a in Unique(maps) && SetOf(mp) <= SetOf(a)
      {
        if mp in maps' {
          var a :| a in u && SetOf(mp) <= SetOf(a);
          assert a in Unique(maps);
        } else {
          assert mp == last;
          if CoveredBy(mp, u) {
            var a :| a in u && Matches(mp, a) == |mp|;
            MatchesFull(mp, a);
            assert a in Unique(maps);
          } else {
            assert mp in Unique(maps);
          }
        }
      }
    }
  }

  /** For injective mappings of one motif size, the accepted mapping that covers
      a surviving mapping holds exactly its vertex set. */
  lemma UniqueCoversExactly(maps: seq<seq<int>>, size: nat, mp: seq<int>)
    requires Shaped(maps, size) && forall x :: x in maps ==> NoDup(x)
    requires mp in maps && mp[0] != Sentinel
    ensures exists a :: a in Unique(maps) && SetOf(mp) == SetOf(a)
  {
    UniqueComplete(maps);
    UniqueFrom(maps);
    var a :| a in Unique(maps) && SetOf(mp) <= SetOf(a);
    SameSizeCover(mp, a);
  }

  /** `u` is `s` with some elements left out, the rest kept in order. */
  predicate Subsequence(u: seq<seq<int>>, s: seq<seq<int>>)
    decreases |s|
  {
    if u == [] then true
    else if s == [] then false
    else if u[|u| - 1] == s[|s| - 1] then Subsequence(u[..|u| - 1], s[..|s| - 1])
    else Subsequence(u, s[..|s| - 1])
  }

  /** A subsequence of `s` is one of `s` with an element appended. */
  lemma {:induction false} SubsequenceExtend(u: seq<seq<int>>, s: seq<seq<int>>, x: seq<int>)
    requires Subsequence(u, s)
    ensures Subsequence(u, s + [x])
    decreases |s|, 1
  {
    if u != [] {
      assert (s + [x])[..|s + [x]| - 1] == s;
      if u[|u| - 1] == x {
        SubsequenceDrop(u, s);
      }
    }
  }

  /** A subsequence stays one when its last element is dropped. */
  lemma {:induction false} SubsequenceDrop(u: seq<seq<int>>, s: seq<seq<int>>)
    requires u != [] && Subsequence(u, s)
    ensures Subsequence(u[..|u| - 1], s)
    decreases |s|, 0
  {
    var s' := s[..|s| - 1];
    assert s' + [s[|s| - 1]] == s;
    if u[|u| - 1] != s[|s| - 1] {
      SubsequenceDrop(u, s');
    }
    SubsequenceExtend(u[..|u| - 1], s', s[|s| - 1]);
  }

  /** The accepted mappings appear in input order. */
  lemma {:induction false} UniqueInOrder(maps: seq<seq<int>>)
    requires forall mp :: mp in maps ==> |mp| >= 1
    ensures Subsequence(Unique(maps), maps)
  {
    if maps != [] {
      var maps' := maps[..|maps| - 1];
      var mp := maps[|maps| - 1];
      UniqueInOrder(maps');
      var u := Unique(maps');
      if mp[0] != Sentinel && !CoveredBy(mp, u) {
        assert (u + [mp])[..|u|] == u;
      } else {
        SubsequenceExtend(u, maps', mp);
        assert maps' + [mp] == maps;
      }
    }
  }

  /** The unique instances mcstats and mcextract work on: cleanup against the
      motif's vertex count, as both tools do, then first-of-each-vertex-set. */
  function UniqueInstances(g: Graph, m: Graph, found: seq<seq<int>>): (u: seq<seq<int>>)
    requires Shaped(found, m.n)
    ensures forall a :: a in u ==> |a| == m.n && a[0] != Sentinel
  {
    CleanedShaped(g, found, m.n, m.n);
    UniqueFrom(Cleaned(g, found, m.n));
    Unique(Cleaned(g, found, m.n))
  }

  /** The instance passes of both tools: cleanup in place on the oracle's
      vectors, then deduplication. */
  method FindInstances(g: Graph, m: Graph, found: seq<seq<int>>) returns (actMaps: seq<seq<int>>)
    requires Shaped(found, m.n)
    ensures actMaps == UniqueInstances(g, m, found)
  {
    var maps := LoadMaps(found);
    InvalidateSpurious(g, maps, m.n);
    CleanedShaped(g, found, m.n, m.n);
    actMaps := Deduplicate(maps[..], m.n);
  }
}
