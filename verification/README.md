# causaldag core in Dafny

This project models the core of causaldag, a small causal-inference library, and proves properties of that model. It covers five parts:

- **Graph.** An undirected graph whose edges can each be oriented towards one of their endpoints. `CausalDAG` is the same graph with every edge directed.
- **Graph queries.** Successors, descendants, simple paths, and the d-separation test on one path.
- **Backdoor criterion.** `CausalDAG.backdoor_criterion` returns the adjustment sets that block every backdoor path from a treatment to an outcome.
- **IC\* learner.** `IC_star` builds the complete graph over the data columns and prunes every edge that some conditioning set renders independent. It then orients colliders and applies the two recursion rules until neither adds an arrow.
- **Validator.** `Implications` lists every independence claim a graph makes and sorts a statistical test's verdicts on those claims into agreements, weak contradictions and strong contradictions.

How the model is built:

- The statistical independence test is a parameter: a total function `Indep(x, y, z, categorical)` standing for `fit` followed by `is_independent`. Each function value fixes one data set.
- A graph is a node sequence in insertion order plus a map from ordered node pairs to an optional head node.
- Each edge a–b is stored under both (a, b) and (b, a) with the same orientation.
- The errors the source raises (a missing edge, a missing node, a treatment with only descendants) become `Result` failures.

Where the code and its own design description differ, the model follows the code:

- **Recursion rule 2.** It visits the data columns (structure/inference.py:160), not the graph's nodes.
  - A learner over exactly one column has no edges and therefore no nodes.
  - Rule 2 then asks for the neighbours of a node that is absent, and the run fails.
  - `IcStar.Infer` states that failure.
- **No backdoor path.** The code returns an empty tuple, which the callers can tell apart from an empty list of sets. The model keeps the two apart as `NoBackdoorPath` and `AdjustmentSets([])`.

## Model

| member | source | states |
|---|---|---|
| Utils.CombinationsShape | causaldag/utils.py:11 | the k-element combinations of a sequence number C(n, k), and each is a subsequence of length k |
| Utils.CombinationsComplete | causaldag/utils.py:11 | every length-k subsequence of the input is among its k-combinations |
| Utils.CombinationsDistinct | causaldag/utils.py:11 | over distinct elements no combination is listed twice |
| Utils.GetAllPossibleSetsShape | causaldag/utils.py:3-16 | without k the result holds 2^n - 1 non-empty subsequences; with k it holds C(n, k) subsequences of size k; with include_empty the empty set is appended last |
| Utils.GetAllPossibleSetsComplete | causaldag/utils.py:3-16 | every subsequence of the requested size (any non-empty size when k is absent) is listed |
| Utils.GetAllPossibleSetsDistinct | causaldag/utils.py:3-16 | over distinct nodes no set is listed twice |
| Utils.GetAllPossibleSetsBySize | causaldag/utils.py:7-9 | without k, the non-empty sets come in non-decreasing order of size |
| Utils.GetAllPossibleSetsTooLarge | causaldag/utils.py:10-14 | a k larger than the number of nodes gives no combination, only the appended empty set if asked for |
| Graphs.Neighbors | causaldag/graphs.py:43-47 | the neighbours of v are exactly the nodes adjacent to v |
| Graphs.EdgeOrientation | causaldag/graphs.py:82-83 | the orientation read for a–b is the one stored for b–a, and it is undirected or one of the two endpoints; it is Some(t) exactly when the edge points at t and None exactly when it is undirected, read in either order |
| Graphs.SetEdgeOrientation | causaldag/graphs.py:85-102 | both ordered pairs get the same orientation: none when set_null, otherwise the head b; no other edge changes and the graph stays well formed |
| Graphs.AddEdge | causaldag/graphs.py:18-27 | adds both endpoints and the edge, undirected in both directions, and leaves every other edge as it was |
| Graphs.AddDirectedEdge | causaldag/graphs.py:126-128 | `CausalDAG.add_edge`: adds the edge pointing at b in both directions and leaves every other edge as it was |
| Graphs.RemoveEdge | causaldag/graphs.py:74-80 | fails with EdgeNotFound exactly when the edge is absent; otherwise both ordered pairs go and all else stays |
| Graphs.RemoveThenAddIsUndirected | causaldag/graphs.py:74-80 | removing a directed edge and adding it back restores the skeleton with the edge undirected |
| Graphs.Successors | causaldag/graphs.py:49-54 | the successors of v are exactly the nodes whose edge with v points away from v |
| Graphs.Descendants | causaldag/graphs.py:56-72 | the stack traversal returns exactly the nodes reachable from v by one or more directed steps |
| Graphs.AllPaths | causaldag/graphs.py:104-108 | every listed path is a simple path from a to b |
| Graphs.AllPathsExact | causaldag/graphs.py:104-108 | a sequence is listed exactly when it is a simple path from a to b |
| Paths.ClassifyNodes | causaldag/graphs.py:213-223 | one entry per interior node of the path, and an entry is a collider exactly when both path edges at that node point into it |
| Paths.ConditionedNonCollider | causaldag/graphs.py:243-246 | true exactly when some non-collider on the path is in z |
| Paths.UnconditionedCollider | causaldag/graphs.py:248-251 | true exactly when some collider on the path is not in z |
| Paths.IsDSeparated | causaldag/graphs.py:228-254 | a path is d-separated exactly when some interior node blocks it; a path without interior nodes never is |
| Paths.NoneIsEmptySet | causaldag/graphs.py:237-241 | conditioning on nothing and on the empty set give the same answer |
| Paths.DSeparatedIffNotOpen | causaldag/graphs.py:228-254 | the check on the classified path agrees with the graph-level definition of an open path |
| Paths.DirectEdgeIsOpen | causaldag/graphs.py:213-223 | a path of one edge is never d-separated, whatever z is |
| Paths.ChainExample | causaldag/graphs.py:228-254 | in a → m → c, conditioning on m separates a and c, and conditioning on nothing does not |
| Paths.ColliderExample | causaldag/graphs.py:228-254 | in a → m ← c, the empty set separates a and c, and conditioning on m opens the path |
| CausalDag.BackdoorCriterion | causaldag/graphs.py:130-172 | fails in the source's order (a absent, all nodes descendants, b absent); answers NoBackdoorPath exactly when no backdoor path exists; otherwise lists exactly the non-empty sets of non-descendants that block every backdoor path, in candidate order |
| CausalDag.BackdoorAmong | causaldag/graphs.py:147-172 | fails exactly when b is absent; otherwise the same answer as above, given the non-descendants |
| CausalDag.NonDescendantsFound | causaldag/graphs.py:139-145 | the filtered node list holds exactly the nodes that a does not reach, a excluded, and it is empty exactly when every node is a descendant |
| CausalDag.BackdoorPathsFound | causaldag/graphs.py:154-161 | the kept paths are exactly the simple paths whose first edge points into a |
| CausalDag.CandidateMembership | causaldag/graphs.py:148 | the candidates are exactly the non-empty subsequences of the non-descendants |
| CausalDag.BlocksAllViews | causaldag/graphs.py:169 | every classified backdoor path is d-separated by z exactly when z blocks all backdoor paths |
| CausalDag.AdjustmentSetsFound | causaldag/graphs.py:166-172 | a set is kept exactly when it is a non-empty subsequence of the non-descendants that blocks every backdoor path |
| IcSkeleton.InitializeGraph | structure/inference.py:36-43 | the complete undirected graph: two nodes are adjacent exactly when they are different columns; with at least two columns the node list is the column list, in column order |
| IcSkeleton.InitialNodeOrder | structure/inference.py:42-43 | adding the column pairs in combination order inserts the nodes in column order |
| IcSkeleton.HeadAddsColumns | structure/inference.py:42-43 | the pairs (c0, c1), (c0, c2), ... that open the listing already insert every column, in order |
| IcSkeleton.PairTested | structure/inference.py:42-52 | on the complete graph, the pair of columns x before y is tested as (x, y) and never as (y, x) |
| IcSkeleton.AddAllEdges | structure/inference.py:42-43 | after adding the pairs, an ordered pair is an edge exactly when it or its reverse was listed or it was already there |
| IcSkeleton.Others | structure/inference.py:56 | the conditioning candidates are exactly the nodes other than the two endpoints, in node order |
| IcSkeleton.FirstIndependent | structure/inference.py:68-79 | the position of the first set the test accepts, or the list's length when it accepts none |
| IcSkeleton.NoneBeforeFirst | structure/inference.py:68-79 | every set before the first accepted one is rejected by the test |
| IcSkeleton.SeparatingSetNone | structure/inference.py:64-79 | the search finds nothing exactly when the test rejects every subsequence of size q or more |
| IcSkeleton.SeparatingSetSmallest | structure/inference.py:64-79 | no subsequence smaller than the set found (and at least q long) is accepted |
| IcSkeleton.SeparatingSetIsFirst | structure/inference.py:64-79 | the tier-by-tier search returns the first accepted set in the size-ordered list of candidates |
| IcSkeleton.SeparatingSetAvoidsEndpoints | structure/inference.py:56-60 | a set found is non-empty, avoids both endpoints and draws only on graph nodes |
| IcSkeleton.SeparationIsFirstFound | structure/inference.py:55-79 | the search for a–b fails exactly when every non-empty subset of the other nodes is rejected, and otherwise returns the first accepted one in the size-ordered listing |
| IcSkeleton.Separation | structure/inference.py:55-79 | a separating set, when found, is non-empty, avoids both endpoints, uses only graph nodes and is accepted by the test |
| IcSkeleton.EdgeListed | structure/inference.py:52 | every edge is listed for pruning exactly once, in one of its two orders |
| IcSkeleton.PruneAllEdges | structure/inference.py:53-79 | an edge survives exactly when a search succeeded for neither of its orders, and surviving edges keep their orientation |
| IcSkeleton.PruneAllSepSets | structure/inference.py:72-76 | a separating set is recorded under exactly the pairs whose search succeeded, and it is the set that search found |
| IcSkeleton.FindConditioningSets | structure/inference.py:46-82 | `_find_conditioning_sets`: only edges are removed, and a pair gets a separating set exactly when it was listed and its search succeeded |
| IcSkeleton.PrunedIffSeparated | structure/inference.py:72-76 | a listed edge stays exactly when its search finds no separating set |
| IcSkeleton.PrunedEdgesHaveOneEntry | structure/inference.py:74-76 | a removed edge has a separating set under exactly one of its two orders |
| IcSkeleton.TwoVariablesKeepTheEdge | structure/inference.py:56-64 | with two columns there is nothing to condition on, so the edge always stays |
| IcSkeleton.NothingToCondition | structure/inference.py:56-64 | when no node besides the endpoints exists, no test can yield a separating set |
| IcOrientation.Unshielded | structure/inference.py:94-107 | the enumerated triples are exactly the (node, neighbour, nonadjacent) triples with node and nonadjacent both adjacent to neighbour and not to each other |
| IcOrientation.Lookup | structure/inference.py:109-111 | the separating set is looked up under (node, nonadjacent) first, then under the reverse order |
| IcOrientation.ColliderUpdate | structure/inference.py:113-115 | a triple whose middle node is outside the separating set points both its edges at the middle node; no other edge changes and the skeleton stays |
| IcOrientation.CollidersJustified | structure/inference.py:94-115 | every orientation the collider pass changes is explained by one of the triples |
| IcOrientation.CollidersDirect | structure/inference.py:94-115 | every directed edge stays directed, and the edges of every firing triple end up directed |
| IcOrientation.FindColliders | structure/inference.py:87-115 | `_find_colliders` keeps the skeleton, explains every change by an unshielded triple, and leaves every collider triple's edges directed |
| IcOrientation.Rule1Progress | structure/inference.py:118-151 | rule 1 only directs undirected edges; it reports a change exactly when it directed at least one |
| IcOrientation.Rule1Justified | structure/inference.py:118-151 | every edge rule 1 directs is some visited triple's c – b, now pointing at b, with a → c in place |
| IcOrientation.Rule1Complete | structure/inference.py:132-149 | when rule 1 reports no change, no triple it visited could fire |
| IcOrientation.Rule1 | structure/inference.py:118-151 | `_recursion_rule_1`: keeps the skeleton and every direction, reports a change exactly when the undirected edges shrink, and leaves a graph closed under the rule when it reports none |
| IcOrientation.FirstMissing | structure/inference.py:160-162 | the position of the first column that is not a graph node, with every earlier column a node |
| IcOrientation.PairsFrom | structure/inference.py:160-168 | the visited pairs are exactly (column, neighbour) with the two adjacent |
| IcOrientation.HasDirectedPathIff | structure/inference.py:174-192 | the path search finds a fully directed simple path from a to b exactly when one exists |
| IcOrientation.Rule2Progress | structure/inference.py:153-194 | rule 2 only directs undirected edges; it reports a change exactly when it directed at least one |
| IcOrientation.Rule2Justified | structure/inference.py:153-194 | every edge rule 2 directs had a directed path from its tail to its head |
| IcOrientation.Rule2Complete | structure/inference.py:168-192 | when rule 2 reports no change, no pair it visited could fire |
| IcOrientation.Rule2Settled | structure/inference.py:160-192 | no firing pair among the visited pairs means the graph is closed under rule 2 |
| IcOrientation.Rule2 | structure/inference.py:153-194 | `_recursion_rule_2`: fails at the first column that is not a node; otherwise keeps the skeleton and every direction, explains each new arrow by a directed path, and leaves a graph closed under the rule when it reports no change |
| IcStar.Skeletonize | structure/inference.py:20-25 | two columns stay adjacent exactly when no separating set was recorded for them; every recorded set is non-empty, avoids its pair and is accepted by the test; for columns x before y the pair is searched as `PairSearched` states: the set is recorded under (x, y), never (y, x), the edge stays exactly when every non-empty subset of the other columns is rejected, and the set recorded is the first accepted one by size, then by position |
| IcStar.SkeletonPair | structure/inference.py:42-79 | for columns x before y, the pair is tested as (x, y) and never as (y, x), its edge stays exactly when the test rejects every non-empty subset of the other columns, and the recorded set is the first accepted one in the listing by size, then by position |
| IcStar.PrunedAdjacency | structure/inference.py:46-82 | after pruning the complete graph, adjacency is exactly the absence of a recorded separating set in either order |
| IcStar.Round | structure/inference.py:31-33 | one round fails exactly when a column is not a node; a change shrinks the undirected edges, and no change means the graph is closed under both rules |
| IcStar.Recurse | structure/inference.py:28-33 | the loop ends; it keeps the skeleton and every direction and returns a graph closed under both rules |
| IcStar.Infer | structure/inference.py:20-33 | fails exactly when there is one column; otherwise the pruned skeleton, every collider's edges directed, and closure under both rules |
| Validation.PathViews | structure/validation.py:45 | one classified path per simple path between the pair |
| Validation.AllSeparatedIff | structure/validation.py:53-58 | d-separating every listed path is the same as z d-separating the pair in the graph |
| Validation.PairImplications | structure/validation.py:44-58 | 2^(n-2) claims per pair, one per subset of the other nodes, each flagged with whether it d-separates the pair |
| Validation.PairImplicationsComplete | structure/validation.py:51-58 | every subset of the other nodes, empty or not, has its claim for the pair |
| Validation.PairCount | structure/validation.py:48-51 | a pair of different nodes gets exactly 2^(n-2) claims |
| Validation.PairsShape | structure/validation.py:42 | the pairs are C(n, 2) ordered pairs of different nodes |
| Validation.GenerateTestableImplications | structure/validation.py:39-60 | the claims are exactly the graph's implications, C(n, 2) * 2^(n-2) of them, and none when n < 2 |
| Validation.ImplicationAvoidsPair | structure/validation.py:48 | no claim conditions on either node of its pair |
| Validation.ExactlyOneOutcome | structure/validation.py:77-82 | every verdict is an agreement, a weak or a strong contradiction, and only one of these |
| Validation.CheckImplications | structure/validation.py:62-82 | the three lists split the claims between them, and each holds only claims of its outcome |
| Validation.CheckImplicationsFilters | structure/validation.py:62-82 | each list is exactly the claims of its outcome, in their original order |
| Validation.CheckImplicationsComplete | structure/validation.py:67-82 | every claim lands in the list of its outcome |
| Validation.Validate | structure/validation.py:32-36 | the claims are the graph's implications, every claim is bucketed, and each strong contradiction is a d-separation the test rejected |

## Left out

- The independence tests, pandas data and the test's `fit` and `is_independent` calls are not modelled. structure/independence.py is not part of this model. The test is a total function parameter, so a failing test is out of scope.
- `Graph.__str__`, `Graph.edges` and `Graph.nodes` are plain accessors and print formatting. The model reads the datatype's fields directly.
- Neighbours are the node sequence filtered by adjacency. The networkx adjacency iterator is not modelled, and neither is the side effect of `v not in neighbors` consuming that iterator. `len()` on it is not modelled either. The model follows the evident intent of a finite neighbour set.
- networkx iteration orders are modelled as node insertion order, for nodes, edges and neighbours alike. `IcSkeleton.EdgeList` lists each edge once, with the endpoint listed first put first.
- Graphs.AllPaths: the enumeration order of networkx `all_simple_paths` is not reproduced. The contract states the set of paths, not their order.
- `defaultdict` lookups of missing orientations are not modelled. `Graphs.EdgeOrientation` requires the edge to exist, which every caller in the core ensures. The empty string a missing entry yields is not modelled.
- Graphs.SetEdgeOrientation: the ValueError for a `set_null` that is not a bool cannot arise, because the flag is a Dafny `bool`.
- Self-loops are excluded from the model. `AddEdge` requires two different endpoints, and `WellFormed` graphs have no edge from a node to itself. The source accepts self-loops: networkx lets a user build a `CausalDAG` with one and hand it to validation, and IC* adds one for a repeated column label. Such graphs are outside the model, in validation as in IC*.
- IcOrientation.FindColliders: requires `SepSetsCover`, meaning every non-adjacent pair has a separating set. Without one the source raises KeyError. The IC* pipeline always provides the sets.
- IcOrientation.FindColliders: states that every change is explained by some unshielded triple, and that the edges of every collider triple end up directed. It does not say which triple wrote last. Later triples may reverse an earlier arrow.
- IcStar.Infer: states that collider edges stay directed but not which way they point, for the same reason.
- IcStar.Infer and IcStar.Skeletonize: require distinct column names (`Distinct(cols)`). This is a restriction of the model. pandas allows repeated column labels, and then the pair (c, c) from inference.py:42 becomes a self-loop, which the model does not represent.
- IcStar.Infer: with zero columns it succeeds with an empty graph. The one-column failure is stated as NodeNotFound for that column.
- IcOrientation.Rule1 and IcOrientation.Rule2: state that every new arrow is justified and that no change means closure. They do not give the exact output graph, which depends on visiting order.
- Validation.Validate: the categorical list is an `Option`. `None` stands for the source's default empty list.
