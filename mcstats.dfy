/** motif_clustering_stats (mcstats.c), end to end: enumerate the catalogue
    of clustering types of the motif, clean and deduplicate the instances the
    subgraph-isomorphism oracle reports in the host, and sort every pair of
    unique instances into a type. The oracle's mapping list is an input; file
    output (GML types, node-map file, the printed count line) is not modelled,
    only the values that would be written. */
module Stats {
  import opened Lists
  import opened Graphs
  import opened Instances
  import opened Merge
  import opened Enumeration
  import opened Classify

  /** What Part II reads once the catalogue and the unique instances exist. */
  function SurveyOf(g: Graph, m: Graph, found: seq<seq<int>>, types: seq<Graph>,
                    iso: (Graph, Graph) -> bool): (sv: Survey)
    requires Shaped(found, m.n)
    ensures Sized(sv)
  {
    Survey(g, m, UniqueInstances(g, m, found), types, iso)
  }

  /** The whole run. Motifs of five or more vertices stop the enumeration with
      return value 1 and nothing is counted; otherwise the result is the
      catalogue, the count vector (one entry per type, then the pairs that
      share no vertex) and, when an output prefix is given, the node lists. */
  method MotifClusteringStats(g: Graph, m: Graph, found: seq<seq<int>>,
                              subIso: (Graph, Graph) -> bool, iso: (Graph, Graph) -> bool,
                              keepNodes: bool)
    returns (ret: int, types: seq<Graph>, counts: seq<nat>, nodeMaps: seq<seq<int>>)
    requires WellFormed(m) && Shaped(found, m.n)
    ensures ret == if m.n >= 5 then 1 else 0
    ensures types == Catalogue(m, Tried(m.n, Levels(m.n)), subIso)
    ensures ret == 0 ==>
              var sv := SurveyOf(g, m, found, types, iso);
              counts == Counts(sv, AllPairs(|sv.maps|)) &&
              nodeMaps == Kept(sv, keepNodes, AllPairs(|sv.maps|))
    ensures ret == 1 ==> counts == [] && nodeMaps == []
  {
    ret, types := EnumerateTypes(m, subIso);
    if ret == 1 {
      counts, nodeMaps := [], [];
      return;
    }
    var actMaps := FindInstances(g, m, found);
    counts, nodeMaps := ClassifyPairs(Survey(g, m, actMaps, types, iso), keepNodes);
  }

  /** Every pair of unique instances is accounted for exactly once: the
      entries of the count vector plus the overlapping pairs no type accepts
      add up to u (u - 1) / 2 for u unique instances. */
  lemma PairsAccounted(sv: Survey)
    ensures var u := |sv.maps|;
            2 * (Sum(Counts(sv, AllPairs(u))) + Tally(sv, AllPairs(u), -1)) == u * (u - 1)
  {
    var u := |sv.maps|;
    var ps := AllPairs(u);
    CountsTotal(sv, ps);
    AllPairsLength(u);
    var total := Sum(Counts(sv, ps)) + Tally(sv, ps, -1);
    assert 2 * total == u * (u - 1);
  }
}
