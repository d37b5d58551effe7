# mctools motif clustering, modelled in Dafny

This project models the integer, list-manipulating core of the three mctools
programs. These programs study how occurrences ("instances") of a small
connectivity pattern, the motif M, overlap inside a host network G:

- `mcstats` builds the catalogue of ways two copies of M can overlap (the
  clustering types). It then sorts every pair of unique motif instances of G
  into one of those types, or into a last bucket for pairs that share no
  vertex.
- `mcc` computes the motif clustering coefficient from the number of
  vertices that pairs of motif instances share. It also draws null-model
  samples: random graphs grown by a hill-climb until they hold as many motif
  instances as G.
- `mcextract` builds the union of all unique instances as one output graph,
  with the list of original vertex IDs.

Graphs are values: a vertex count, a directedness flag and a list of edges
(`Graphs.Graph`). Multi-edges and self-loops are allowed until a simplify
step removes them. The igraph routines whose output the tools inspect are
modelled as list functions: the edge count of an induced subgraph
(`InducedEdgeCount`), `igraph_simplify` (`Simplify`), and relabelling edges
through a vertex map (`Image`). The routines of igraph that the core only
consults are oracles:

- VF2 subgraph-isomorphism enumeration: the mapping list is an input
  `found: seq<seq<int>>` (or a function `enumerate: Graph -> seq<seq<int>>`
  inside the sampler);
- `igraph_isomorphic` and "`igraph_count_subisomorphisms_vf2` found at least
  one": the parameters `iso` and `subIso` of type `(Graph, Graph) -> bool`;
- the automorphism count of M: the parameter `rotSym >= 1`;
- `igraph_isoclass_create`: M itself is an input.

Modules follow the program's structure:

| file | module | what |
|---|---|---|
| lists.dfy | Lists | vector searches, the "positions of a found in b" count, first-appearance lists |
| graphs.dfy | Graphs | graphs, induced edge count, simplify, edge relabelling |
| instances.dfy | Instances | directed cleanup (sentinel −1 in slot 0) and first-per-vertex-set deduplication, shared by all three tools |
| merge.dfy | Merge | `merge_motifs`, `add_cluster_type`, the catalogue |
| enumerate.dfy | Enumeration | Part I of `motif_clustering_stats`: the overlap loops for overlap 1..3 |
| subgraph.dfy | Subgraphs | `clean_subgraph` |
| classify.dfy | Classify | Part II of `motif_clustering_stats`: the pair loop, count vector and node lists |
| mcstats.dfy | Stats | `motif_clustering_stats` end to end |
| mcc.dfy | Clustering | `motif_count`, `motif_clustering` (integer parts), `calc_sample`, `calc_samples` |
| mcextract.dfy | Extract | `motif_extract` |

The cleanup threshold differs between the tools, and each is modelled as
written. `mcstats.c` and `mcextract.c` compare the induced edge count of a
mapping with the motif's vertex count. `mcc.c` compares it with the motif's
edge count. `Instances.Cleaned` takes the threshold as a parameter; see
"## Findings".

Behaviour of `calc_sample` at its edges:

- A target count of 0 does not return the empty graph at once. `calc_sample`
  still enters its loop with a batch of one motif and accepts the first
  candidate whose count is 0.
- With a trial budget of 0 or less, `calc_sample` does not fail. The loop
  never runs, the last count stays 0, and the empty graph on `nodes`
  vertices is returned as a success (`CalcSample`'s last `ensures`).
- A successful sample is only guaranteed to hold at most, not exactly, the
  target number of instances. The loop can also end on its trial budget
  after an accepted step below the target.

## Model

In the table, n is the vertex count of the motif M and #s the size of a list or set s.

| member | source | states |
|---|---|---|
| Instances.InvalidateSpurious | mctools/mcstats.c:245-261 | on a directed host, slot 0 of a mapping becomes −1 exactly when its induced edge count differs from the threshold; all other slots and lengths are kept; an undirected host leaves every mapping unchanged |
| Instances.CleanedMarks | mctools/mcextract.c:146-162 | for mappings of host vertices, the sentinel appears after cleanup iff the test rejects the mapping; on an undirected host each mapping is unchanged |
| Instances.CleanedShaped | mctools/mcextract.c:146-162 | cleanup keeps every mapping one entry per motif vertex |
| Instances.VertexCountTestDropsExactInstance | mctools/mcstats.c:253 | as written (vertex-count threshold), a directed motif whose edge count differs from its vertex count loses even its exact occurrence in a copy of itself |
| Instances.EdgeCountTestKeepsExactInstance | mctools/mcc.c:225 | with the edge-count threshold the exact occurrence of any well-formed motif survives cleanup |
| Instances.CountMatches | mctools/mcstats.c:279-287 | the double loop with `break` counts the positions of one mapping whose vertex occurs in the other |
| Instances.FindCover | mctools/mcstats.c:275-293 | the search succeeds iff some accepted mapping holds all vertices of the candidate |
| Instances.Deduplicate | mctools/mcstats.c:264-309 | the index-filled `actMaps`, trimmed to its counter, equals the first-per-vertex-set list `Unique` of the cleaned mappings |
| Instances.Consider | mctools/mcextract.c:172-201 | one pass of the dedup loop appends the mapping to the accepted prefix iff it is not marked and not covered, and changes nothing else |
| Instances.Unique | mctools/mcextract.c:171-202 | the accepted list is never longer than the input |
| Instances.UniqueFrom | mctools/mcstats.c:271-301 | every accepted mapping comes from the input and carries no sentinel |
| Instances.UniqueSound | mctools/mcstats.c:276-298 | no accepted mapping's vertex set is contained in an earlier one's, so no two accepted mappings share a vertex set |
| Instances.UniqueComplete | mctools/mcextract.c:172-202 | every unmarked input mapping has all its vertices in some accepted mapping |
| Instances.UniqueCoversExactly | mctools/mcstats.c:280-292 | for injective mappings of the motif's size, that accepted mapping has exactly the same vertex set |
| Instances.UniqueInOrder | mctools/mcextract.c:171-199 | accepted mappings appear in input order (the result is a subsequence of the input) |
| Instances.UniqueInstances | mctools/mcstats.c:245-309 | the unique instances all have the motif's size and no sentinel |
| Instances.FindInstances | mctools/mcextract.c:145-210 | in-place cleanup on the oracle's vectors followed by deduplication yields `UniqueInstances` |
| Lists.MatchesFull | mctools/mcstats.c:280-292 | a full position count means the candidate's vertex set is contained in the other's, and conversely |
| Lists.MatchesZero | mctools/mcstats.c:425-436 | a zero count means the two mappings share no vertex, and conversely |
| Lists.MatchesCommon | mctools/mcc.c:267-276 | for a duplicate-free mapping the count is the size of the vertex-set intersection |
| Lists.IndexOf | mctools/mcextract.c:228 | the first position holding the value, as `igraph_vector_search` from 0 finds it |
| Lists.DistinctSpec | mctools/mcextract.c:227-239 | the first-appearance list of a sequence has no duplicates and the same values |
| Lists.DistinctPrefix | mctools/mcextract.c:236 | the first-appearance list of a longer sequence extends that of its prefix (append only) |
| Graphs.InducedEdgeCountAll | mctools/mcstats.c:528-534 | when every edge lies inside the vertex set, the induced subgraph keeps all edges |
| Graphs.InducedEdgeCountAppend | mctools/mcstats.c:533 | the induced count of a concatenated edge list is the sum of the counts |
| Graphs.SimplifySpec | mctools/mcstats.c:642 | simplify leaves no multi-edge, no loop when loops are dropped, invents no edge, and keeps every edge it is not told to drop |
| Graphs.SimplifySameEdges | mctools/mcextract.c:259 | without loops to drop, the simplified list has the same edge set as the original |
| Graphs.AddImage | mctools/mcc.c:461-469 | the edge loop appends the motif's edges relabelled through the drawn vertices, in order |
| Merge.FillMergeMap | mctools/mcstats.c:609-626 | the map vector after both loops is `MergeMap`: overlap slots set, then unset slots numbered from n |
| Merge.NumberHoles | mctools/mcstats.c:618-626 | each −1 slot receives the next fresh ID, counting up from the start value |
| Merge.MergeMotifs | mctools/mcstats.c:593-655 | the merged graph has 2n − k vertices and the simplified edges of M plus M's edges through the map |
| Merge.MergeMapAt | mctools/mcstats.c:613-626 | a glued vertex x goes to m1[first index of x in m2]; any other x goes to n + (unglued vertices below x), inside [n, 2n − k) |
| Merge.MergeMapGlued | mctools/mcstats.c:614-616 | the map sends m2[i] to m1[i] |
| Merge.MergeMapAscending | mctools/mcstats.c:619-626 | unglued vertices get fresh IDs in ascending index order |
| Merge.MergeMapInjective | mctools/mcstats.c:609-626 | with m1 and m2 each free of repeats, the map is injective |
| Merge.MergeMapImage | mctools/mcstats.c:543-549 | the map's image is exactly the vertex list `add_cluster_type` uses for the second copy: m1 then n, n+1, … |
| Merge.MergedEdges | mctools/mcstats.c:628-642 | the merged edges are, as a set, M's edges plus their images, with no repeated edge |
| Merge.MergedWellFormed | mctools/mcstats.c:604-607 | every merged edge joins vertices below 2n − k |
| Merge.AddType | mctools/mcstats.c:512-588 | the catalogue after one call is unchanged or has the merge appended at the end |
| Merge.AddClusterType | mctools/mcstats.c:524-580 | the merge is rejected if either copy's induced edge count differs from M's; otherwise it is appended iff no entry of equal vertex and edge counts is matched by the oracle |
| Merge.FindType | mctools/mcstats.c:562-575 | the search succeeds iff some entry of equal vertex and edge counts is matched by the oracle |
| Merge.Catalogue | mctools/mcstats.c:124-211 | the catalogue is never longer than the list of attempts |
| Merge.CatalogueSnoc | mctools/mcstats.c:136 | each further attempt applies `add_cluster_type` to the catalogue so far |
| Merge.CatalogueSound | mctools/mcstats.c:577-580 | every catalogue entry is the faithful merge of some attempted overlap |
| Merge.CatalogueDistinct | mctools/mcstats.c:563-575 | no entry is matched by the oracle against an earlier entry of the same vertex and edge counts |
| Merge.CatalogueComplete | mctools/mcstats.c:527-580 | every faithful attempted merge is in the catalogue or matched by an entry of its size |
| Enumeration.Levels | mctools/mcstats.c:124 | the number of overlap sizes completed is below n (at most three) |
| Enumeration.TryOverlap1 | mctools/mcstats.c:126-142 | the overlap-1 block adds the attempts of all pairs of single vertices, in loop order |
| Enumeration.TryOverlap2 | mctools/mcstats.c:143-171 | the overlap-2 block adds the attempts of all pairs of ordered distinct 2-tuples, in loop order |
| Enumeration.TryOverlap3 | mctools/mcstats.c:172-206 | the overlap-3 block adds the attempts of all pairs of ordered distinct 3-tuples, in loop order |
| Enumeration.OverlapBlock | mctools/mcstats.c:124-206 | one block extends the catalogue from overlap sizes below k to size k |
| Enumeration.EnumerateTypes | mctools/mcstats.c:123-211 | returns 1 exactly for motifs of 5 or more vertices; the catalogue is `add_cluster_type` applied to every attempt in loop order |
| Enumeration.TriedMember | mctools/mcstats.c:124-206 | an overlap pair is tried iff both lists have the same length k, 1 ≤ k ≤ the completed levels, entries below n and no repeats |
| Enumeration.TriedAttempts | mctools/mcstats.c:148-154 | every tried pair is an overlap with distinct glued vertices |
| Subgraphs.CleanSubgraph | mctools/mcstats.c:414-507 | returns 1 iff no vertex of m2 occurs in m1; otherwise returns 0 and the clean subgraph |
| Subgraphs.SharedCount | mctools/mcstats.c:424-436 | the early-exit scan finds 1 iff the instances overlap, else 0 |
| Subgraphs.InList | mctools/mcstats.c:450-457 | the scan finds the vertex iff it occurs in m1 |
| Subgraphs.InitMap | mctools/mcstats.c:439-443 | the map vector has 2n slots, m1 first and −1 after |
| Subgraphs.NumberNodes | mctools/mcstats.c:438-467 | the node map is m1 followed by the vertices of m2 not in m1, in order; the copy of M gains one vertex per such node |
| Subgraphs.AddEdges | mctools/mcstats.c:469-498 | the edge loop over the new nodes adds `Added` |
| Subgraphs.AddIncident | mctools/mcstats.c:472-495 | for one new node, each incident host edge with both ends in m2 is added on node-map positions |
| Subgraphs.NewNodesMember | mctools/mcstats.c:449-465 | a node is new iff it is a vertex of m2 outside m1 |
| Subgraphs.NodeMapNoDup | mctools/mcstats.c:438-467 | for injective instances the node map has no duplicate |
| Subgraphs.NodeMapSet | mctools/mcstats.c:438-467 | the node map holds exactly the union of both vertex sets |
| Subgraphs.SubgraphSize | mctools/mcstats.c:447-465 | the clean subgraph has #(m1 ∪ m2) vertices, i.e. n + #(m2 \ m1) |
| Subgraphs.NodeMapIndex | mctools/mcstats.c:485-486 | a vertex sits among the first n positions of the node map iff it is in m1 |
| Subgraphs.AddedCrossing | mctools/mcstats.c:470-498 | the added edges are exactly the host edges inside m2 with an end outside m1, renamed on node-map positions |
| Subgraphs.SubgraphEdges | mctools/mcstats.c:446-501 | the result has no multi-edge and no loop; each edge is a motif edge or a renamed crossing host edge; every non-loop motif edge and crossing host edge is present |
| Subgraphs.SubgraphWellFormed | mctools/mcstats.c:462-490 | every edge of the clean subgraph joins two of its vertices |
| Classify.FirstIso | mctools/mcstats.c:349-376 | the first type the oracle reports isomorphic, or −1 when none is |
| Classify.SlotMeaning | mctools/mcstats.c:344-382 | a pair goes to the last slot iff it shares no vertex, to slot k iff its clean subgraph matches type k and no earlier type, nowhere iff it overlaps and matches no type |
| Classify.AllPairsMember | mctools/mcstats.c:334-337 | the pair loops visit exactly the pairs i < j of unique instances |
| Classify.AllPairsLength | mctools/mcstats.c:334-337 | u instances make u(u − 1)/2 pairs |
| Classify.CountsTally | mctools/mcstats.c:346-382 | slot k of the count vector is the number of visited pairs sorted into slot k |
| Classify.CountsTotal | mctools/mcstats.c:346-382 | each pair raises at most one slot: the sum of the counts plus the unmatched pairs is the number of pairs |
| Classify.ClassifyPairs | mctools/mcstats.c:328-384 | the count vector (#types + 1 slots) and the node lists after all pairs, in loop order |
| Classify.ClassifyRows | mctools/mcstats.c:334-384 | the outer loop processes rows 0 .. n−1 |
| Classify.ClassifyRow | mctools/mcstats.c:336-383 | the inner loop processes row i |
| Classify.ClassifyPair | mctools/mcstats.c:339-382 | one pair raises its slot and, when kept, extends that type's node list |
| Classify.FindIso | mctools/mcstats.c:349-376 | the catalogue scan stops at the first isomorphic type |
| Classify.PushNodes | mctools/mcstats.c:358-370 | both instances' vertices are appended, interleaved, unless already present |
| Classify.AddAllSpec | mctools/mcstats.c:358-370 | appending unseen values keeps the old list as a prefix, adds exactly the new values, and keeps a duplicate-free list duplicate-free |
| Classify.NodeListsSpec | mctools/mcstats.c:355-371 | each node list has no duplicate and holds exactly the vertices of the pairs sorted into that type |
| Stats.MotifClusteringStats | mctools/mcstats.c:99-409 | returns 1 with nothing counted for motifs of 5 or more vertices; otherwise the catalogue, the count vector and the node lists of the unique instances |
| Stats.PairsAccounted | mctools/mcstats.c:329-384 | for the unique instances of any survey, the count vector plus the unmatched overlapping pairs add up to u(u − 1)/2 |
| Clustering.Survivors | mctools/mcc.c:211-239 | never more survivors than mappings |
| Clustering.SurvivorsUndirected | mctools/mcc.c:237-239 | on an undirected host every mapping survives |
| Clustering.SurvivorsUnmarked | mctools/mcc.c:225-231 | the survivor count equals the number of mappings left unmarked by cleanup |
| Clustering.CleanAndCount | mctools/mcc.c:211-239 | cleanup against the motif's edge count in place, counting the survivors |
| Clustering.UniqueCount | mctools/mcc.c:250 | the unique count lies between 0 and the number of mappings |
| Clustering.MotifCount | mctools/mcc.c:586-666 | the survivors divided by `rotSym` |
| Clustering.PairShare | mctools/mcc.c:266-279 | what one pair adds is below the motif size, or 0 |
| Clustering.PairShareMeaning | mctools/mcc.c:261-279 | a pair with a marked mapping adds 0; otherwise it adds the size of the vertex-set intersection, or 0 when one set contains the other |
| Clustering.RowZero | mctools/mcc.c:261 | a marked mapping's row adds nothing |
| Clustering.RowShareBound | mctools/mcc.c:263-281 | each pair adds at most `motifSize` − 1 |
| Clustering.TotalShareBound | mctools/mcc.c:253-283 | the total is at most the possible-shared sum taken over all mappings |
| Clustering.SharedVertices | mctools/mcc.c:253-283 | the accumulator over pairs i < j equals `TotalShare` |
| Clustering.ShareRow | mctools/mcc.c:263-281 | row i of the accumulator adds `RowShare` |
| Clustering.PossibleClosed | mctools/mcc.c:289-292 | after i terms, twice the sum is (`motifSize` − 1)·i·(2u − i − 1) |
| Clustering.PossibleTotal | mctools/mcc.c:289-292 | `posSharedVerts` = (`motifSize` − 1)·u·(u − 1)/2, and 0 when u < 2 |
| Clustering.PossibleShared | mctools/mcc.c:289-292 | the loop computes the possible-shared sum |
| Clustering.MotifClustering | mctools/mcc.c:169-304 | the unique count equals `motif_count`'s; the shared total is over surviving pairs and bounded by the possible-shared sum over all #found mappings (not by `posSharedVerts`); `actSharedVerts` = total div `rotSym`²; 2·`posSharedVerts` = (`motifSize` − 1)·u·(u − 1) |
| Clustering.PlacedWithin | mctools/mcc.c:456-470 | placed copies only join drawn vertices |
| Clustering.DrawNodes | mctools/mcc.c:458-460 | one draw per motif vertex, each in [0, nodes) |
| Clustering.PlaceMotifs | mctools/mcc.c:453-471 | `curAdd` draws, and the new edges are one relabelled copy of M per draw |
| Clustering.FirstBatch | mctools/mcc.c:435-436 | the first batch is at least 1 and is 1 or at most a fifth of the target |
| Clustering.Retarget | mctools/mcc.c:492-494 | after an accepted step the batch stays ≥ 1, never grows, and is unchanged, 1, or at most a third of the shortfall |
| Clustering.Shrink | mctools/mcc.c:537-539 | after a rejected step the batch stays ≥ 1 and shrinks strictly until it is 1 |
| Clustering.Start | mctools/mcc.c:422-436 | the hill-climb starts from a graph on `nodes` vertices with the host's directedness and a batch of at least one |
| Clustering.Step | mctools/mcc.c:440-554 | one trial keeps the vertex count and directedness, never grows the batch, either leaves G as it was or replaces it by G plus the trial's placed copies with a count at most the target, and ends the search exactly when the count hits the target |
| Clustering.Run | mctools/mcc.c:438-555 | the trials in order keep the vertex count and directedness, and the batch stays between 1 and the starting batch |
| Clustering.StepCounts | mctools/mcc.c:490-535 | a trial taken while the loop runs keeps the sample's count at the last accepted count (or the target after a hit), never above the target |
| Clustering.RunCounts | mctools/mcc.c:438-555 | after any run of trials the sample's count is the target after a hit, otherwise the last accepted count unless the sample is still empty, and that count is never above the target |
| Clustering.RunPlaced | mctools/mcc.c:441-471 | the sample's edges are exactly the copies of the motif placed by the kept trials, on drawn vertices |
| Clustering.RunOutcome | mctools/mcc.c:438-581 | a legal run leaves a well-formed graph on `nodes` vertices made of placed motif copies, with at most the target count unless empty, and exactly the target when a trial hit it |
| Clustering.CalcSample | mctools/mcc.c:409-582 | the result is the state after its trials, each made while the loop ran with one draw per copy of the current batch, and the loop has stopped (or the trial bound was reached); it fails iff the last count exceeds the target; the sample is well-formed on `nodes` vertices, made of placed motif copies, holds at most the target unless empty and exactly the target after a hit; with a trial budget ≤ 0 the empty graph is returned as success |
| Clustering.CalcSamples | mctools/mcc.c:346-405 | the result has `samples` entries and returns 1 iff some entry failed; each entry records one complete sample run: −1 exactly when that run's last count is above the target, otherwise motif_clustering's integer results (unique count, shared total, its rescaling, possible total) on that run's sample |
| Extract.Remap | mctools/mcextract.c:228-238 | `nMaps[newMap[j]] == curMap[j]` for every j, each ID below #nMaps |
| Extract.Lift | mctools/mcextract.c:249-250 | a motif edge of an instance in output IDs maps back to the instance's host vertices |
| Extract.LastImage | mctools/mcextract.c:245-254 | each instance adds one edge per motif edge |
| Extract.Search | mctools/mcextract.c:228 | the search finds the value iff present, at its first position |
| Extract.TakeOver | mctools/mcextract.c:228-238 | one entry: reuse the found ID, or append the value under the next ID |
| Extract.RemapInstance | mctools/mcextract.c:226-239 | `nMaps` becomes the first-appearance list extended by the instance; `newMap` is the remap; `toAdd` is the growth of `nMaps` |
| Extract.AddInstance | mctools/mcextract.c:221-255 | one instance grows the vertex count to #nMaps and appends its relabelled motif edges |
| Extract.Grow | mctools/mcextract.c:213-255 | starting empty, after all instances `nMaps` is the first-appearance list of their vertices and the graph has #nMaps vertices |
| Extract.MotifExtract | mctools/mcextract.c:111-265 | the output is the grown graph of the unique instances, simplified, with the host's directedness |
| Extract.UniqueFits | mctools/mcextract.c:172-210 | every unique instance has one entry per motif vertex |
| Extract.PassedDistinct | mctools/mcextract.c:227-239 | after j entries `nMaps` is the first-appearance list of everything seen |
| Extract.PassedMapped | mctools/mcextract.c:228-238 | after j entries the first j IDs point back to their host vertices |
| Extract.PassedCount | mctools/mcextract.c:237 | `toAdd` counts exactly the appended vertices |
| Extract.KnownGrows | mctools/mcextract.c:236 | `nMaps` only grows by appending; earlier entries never move |
| Extract.KnownIndexStable | mctools/mcextract.c:228-231 | an ID, once given, never changes |
| Extract.KnownHas | mctools/mcextract.c:227-239 | every vertex of every instance is in `nMaps` |
| Extract.GrownSound | mctools/mcextract.c:244-254 | every added edge is a lifted motif edge of some instance |
| Extract.GrownComplete | mctools/mcextract.c:244-254 | every lifted motif edge of every instance is added |
| Extract.ExtractVertices | mctools/mcextract.c:224-242 | the output has #nMaps vertices; `nMaps` has no duplicate and holds exactly the instances' vertices |
| Extract.ExtractEdges | mctools/mcextract.c:245-259 | after simplify the output is well formed with no multi-edge or loop; its edges are lifted motif edges, and every non-loop lifted edge is present |

## Left out

- `main` of all three tools: argument parsing, GML reading and writing, the
  printed count line, the node-map, sample and statistics files. This is
  I/O; `MotifClusteringStats` returns the values that would be written.
- The igraph routines named above (VF2 enumeration, isomorphism test,
  automorphism count, isoclass construction) are oracle parameters. Nothing
  is assumed about them beyond the shape of the mapping list.
- `z_score` and the final floating-point division of `motif_clustering`:
  floating point, `pow` and `sqrt`. The coefficient is left as the pair
  `actShared` / `posShared` (`Clustering.Coefficient`).
- `rand()` and `srand(time(NULL))`: each draw is a nondeterministic choice
  in [0, nodes).
- OpenMP pragmas under `EXPERIMENTAL`, the `DEBUG` and `BENCHMARK` printing
  and timing, and `malloc`/`free`/`*_destroy`.
- Integer widths: `igraph_integer_t` and `long int` counters are unbounded
  integers; overflow is not modelled.
- igraph's simplify also re-sorts the edges. `Simplify` keeps the first copy
  of each edge in list order, so only the edge set is modelled, not its
  order.
- The C loops over a motif's edges are `do … while` loops that read one edge
  before testing the iterator's end; on a motif with no edge they read past
  it. The model uses a `while` loop (no edge added). The same holds for
  `clean_subgraph`'s loop over the host edges incident to a new node
  (mctools/mcstats.c:478-495), which reads past the end when that host
  vertex has no edge: Subgraphs.AddIncident adds nothing there.
- In-place updates of igraph graphs (`igraph_add_vertices`,
  `igraph_add_edges`, swapping G for altG) are reassignments of graph
  values; no aliasing between graphs arises in the source.
- Clustering.CalcSample: runs at most `fuel` trials. The source's loop has
  no such bound and need not terminate, because an accepted step resets the
  trial counter and the count oracle is arbitrary.
- Clustering.CalcSample: the bound "at most the target count" (also in
  `RunOutcome`) is not stated for a sample that is still the empty graph.
  Nothing is assumed about the instance-enumeration oracle on an edgeless
  graph, so its count there is unconstrained; `calc_sample` itself does
  not treat that case specially.
- Clustering.CalcSample: requires `nodes >= 1` when the loop can run;
  `rand() % nodes` with no nodes is a division by zero in the source.
- Subgraphs.CleanSubgraph: when it returns 1 the graph it returns is not
  specified; the source leaves its output argument untouched.

## Findings

| source | as written | input that shows it | evidently intended | confidence | as-written member | corrected member |
|---|---|---|---|---|---|---|
| mctools/mcstats.c:253 (and mctools/mcextract.c:154) | a mapping is invalid when its induced edge count differs from the motif's vertex count | directed host equal to the chain 0→1→2 (3 vertices, 2 edges), motif the same chain: its exact occurrence is marked −1 and no instance is found | compare with the motif's edge count, as mctools/mcc.c:225 does | high, not executed | Instances.VertexCountTestDropsExactInstance | Instances.EdgeCountTestKeepsExactInstance |

The threshold is a parameter of `Instances.Cleaned`. The mcstats and
mcextract models (`UniqueInstances`, `MotifClusteringStats`,
`MotifExtract`) keep the vertex-count threshold, as written. The mcc model
(`MotifCount`, `MotifClustering`, `CalcSample`) uses the edge-count
threshold, for which `EdgeCountTestKeepsExactInstance` proves the exact
occurrence survives.
