# BOA with decision-graph models, in Dafny

This project models the learning core of a Bayesian Optimization Algorithm
(BOA) that uses decision graphs as its local models. The algorithm is applied
to binary strings, including a wind-farm layout encoding.

Each generation, BOA does the following:

- it evaluates the population and summarises its fitness;
- it decides whether to stop;
- it learns a Bayesian network. The network is a dependency graph over the n
  string positions. Each position has a decision graph that holds the
  frequencies of 0 and 1 at that position, conditioned on other positions;
- it samples new strings from that network.

The Dafny modules follow the source files one by one:

| module | source | form |
|---|---|---|
| `Graph` | `new_factorgraphs/graph.cc` | classes `OrientedGraph` and `AcyclicOrientedGraph`. They hold the coincidence and path matrices as `array2`, the degree and mark arrays, and the parent lists. A ghost edge set ties the path matrix to reachability. |
| `Reachability` | (theory behind `graph.cc`) | walks, reachability, acyclicity, and how they change when one edge is added or removed |
| `LabeledTreeNode` | `new_factorgraphs/labeledTreeNode.cc` | the node as a value: kind, links, label, values, ancestor vector, cached gains and split frequencies |
| `LeafList` | the leaf list of `decisionGraph.cc` | a doubly linked list held in an arena of items, with a ghost order of item indices |
| `DecisionGraphs` | `new_factorgraphs/decisionGraph.cc` | class `DecisionGraph` over an arena of nodes (`seq<Node>`, with NULL as -1). Its operations are defined on values, and the class methods call them. |
| `FrequencyDecisionGraphs` | `new_factorgraphs/frequencyDecisionGraph.cc` | class `FrequencyDecisionGraph`: the counting walks, plus split and merge with their frequencies |
| `Operators` | `new_factorgraphs/operator.cc` | operators as values; applying an operator changes the diagram and the graph |
| `Scoring` | `new_factorgraphs/bayesian.cc` (gains) | log Gamma, the node contribution (the K2 term), split gains and merge gains |
| `Bayesian` | `new_factorgraphs/bayesian.cc` (construction, ordering, sampling) | `constructTheNetwork`, `topologicalOrdering`, `generateInstance` |
| `Binary` | `new_factorgraphs/binary.h` | `indexedBinaryToInt` |
| `Fitness` | `new_factorgraphs/fitness.cc` | onemax, trap-5, the optimality tests, the count and grid part of the wind-farm fitness, and the fitness in use with its call counter |
| `Populations` | `new_factorgraphs/population.cc` | the population as a class over arrays of rows and fitness values |
| `Statistics` | `statistics.cpp` | the basic statistics of a generation, and the guidance string |
| `Boa` | `new_factorgraphs/boa.cc` | the termination rule |

Main properties proved:

- **Path matrix.** After every edge operation, `path[a][b]` holds exactly when b is reachable from a in the current edge set.
- **Acyclicity.** The acyclic graph accepts an edge or a reversal exactly when no cycle results.
- **Leaf list.** Split and merge keep the leaf list threaded. Its targets are spliced or dropped in place. Every string's walk ends at a listed leaf.
- **Frequencies.** `computeFrequencies` leaves, at each leaf, the shares of the rows that reach it, and these shares add up to 1. The split frequencies partition a leaf's share.
- **Merges.** A merge keeps the total mass of the leaf list.
- **Operator selection.** The selected operator has the largest gain, and the earliest candidate wins a tie.
- **Merge candidates.** `recomputeDecisionGraphMergeGains` records exactly the pairs with positive gain, in list order.
- **Network construction.** The result is always a network whose diagrams test only parents in G. Throughout the loop each diagram's recorded merges are exactly the positive-gain pairs of its current leaves (none when merging is off). When the greedy loop ends on a non-positive gain, no cached split gain of a leaf is positive and, when merging is allowed, no merge of two leaves of one diagram gains anything.
- **Topological order.** `topologicalOrdering` yields a permutation in which parents come first.
- **Sampling.** `generateInstance` writes each position from the leaf that the already-written parent bits reach. Given the draws, the instance is determined.
- **Fitness, statistics and termination.** Each fitness function matches its reference definition. The statistics describe the population (extremes, first maximal index, average between the extremes, number of optimal strings, univariate frequencies). The termination rule reports the first criterion met.

One behaviour is modelled both ways. When merge meets a parent whose two
slots both hold the merged leaf, the redirect loop of `decisionGraph.cc`
changes only one slot. `DecisionGraphs.RedirectAsWritten` models that loop as
written. The rest of the model uses the redirect of both slots, which is what
the merge is meant to do (see Findings).

## Model

| member | source | states |
|---|---|---|
| Bits.OnesAllOne | new_factorgraphs/fitness.cc:435-442 | the number of 1 bits equals the length exactly when every bit is 1 |
| Bits.OnesAppend | new_factorgraphs/fitness.cc:128-129 | the count of 1 bits adds up over a concatenation |
| Collections.RemoveByLastContents | new_factorgraphs/graph.cc:161-164 | removing parent i by moving the last entry into its slot shortens the list by one, keeps it duplicate-free, and keeps exactly the other parents |
| Collections.RemoveByLastAt | new_factorgraphs/graph.cc:161-164 | in the shortened list, the slot that held i now holds the former last entry, and every other slot is unchanged |
| LabeledTreeNode.NewNode | new_factorgraphs/labeledTreeNode.cc:31-58 | a new node has the given kind, no links and no parents, label NULL, depth 0, and both values 0 |
| LabeledTreeNode.AllocateInstanceIndexEntries | new_factorgraphs/labeledTreeNode.cc:102-109 | the ancestor vector becomes n zeros, and nothing else about the node changes |
| LeafList.AllDistinct | new_factorgraphs/decisionGraph.cc:736-750 | following the next pointers from the head never meets the same item twice |
| LeafList.InsertAfter | new_factorgraphs/decisionGraph.cc:343-384 | inserting a new item after the k-th keeps the list threaded and grows the count by one. The k-th target is replaced by the pair [l, r]. |
| LeafList.Unlink | new_factorgraphs/decisionGraph.cc:401-433 | unlinking the k-th item keeps the list threaded (the head moves on when the item was first) and drops exactly the k-th target |
| LeafList.InsertItemAfter | new_factorgraphs/decisionGraph.cc:343-384 | the list surgery of updateLeavesAfterSplit does what InsertAfter describes |
| LeafList.UnlinkItem | new_factorgraphs/decisionGraph.cc:401-433 | the list surgery of updateLeavesBeforeMerge does what Unlink describes |
| Reachability.ReachAdd | new_factorgraphs/graph.cc:119-127 | after adding i -> j, a reaches b exactly when it did before, or a reached i and j reached b |
| Reachability.ReachRemove | new_factorgraphs/graph.cc:168-210 | removing i -> j keeps every pair whose walks need not go through i and then j |
| Reachability.ReachTrans | new_factorgraphs/graph.cc:123-127 | reachability is transitive |
| Reachability.ReachMono | new_factorgraphs/graph.cc:119-127 | adding edges never removes a reachable pair |
| Reachability.AcyclicSubset | new_factorgraphs/graph.cc:134-222 | removing edges keeps a graph acyclic |
| Reachability.ReachEmpty | new_factorgraphs/graph.cc:246-258 | without edges a vertex reaches only itself: the identity path matrix |
| Reachability.AcyclicAdd | new_factorgraphs/graph.cc:451-454 | adding i -> j to an acyclic graph keeps it acyclic exactly when j does not reach i |
| Reachability.AcyclicNoBackPath | new_factorgraphs/graph.cc:478-492 | in an acyclic graph an edge is not a self-loop, and there is no walk back along it |
| Reachability.WalkCovered | new_factorgraphs/graph.cc:182-210 | a reflexive set of pairs that is closed under prefixing an edge contains every reachable pair. This is how the repair rounds end exact. |
| Graph.OutEdgesAdd | new_factorgraphs/graph.cc:117 | a new edge raises the out-degree of its tail only |
| Graph.OutEdgesRemove | new_factorgraphs/graph.cc:156 | removing an edge lowers the out-degree of its tail only |
| Graph.OrientedGraph.constructor | new_factorgraphs/graph.cc:26-64 | n vertices, no edges, zero degrees and marks, and the identity path matrix |
| Graph.OrientedGraph.RemoveAllEdges | new_factorgraphs/graph.cc:246-258 | the path matrix becomes the identity and every degree 0. Only off-diagonal edges are cleared, so without self-loops no edge is left. |
| Graph.OrientedGraph.AddEdge | new_factorgraphs/graph.cc:104-130 | an existing edge changes nothing. A new edge is appended to the parents of j and raises both degrees. Afterwards a reaches b when it did before, or a reached i and j reached b. |
| Graph.OrientedGraph.RecordEdge | new_factorgraphs/graph.cc:115-118 | the coincidence entry is set, i is appended to the parent list of j, and the degrees of j and i grow by one (all others are kept) |
| Graph.OrientedGraph.ClosePaths | new_factorgraphs/graph.cc:119-127 | the path matrix gains every pair (a, b) such that a reached i and j reached b, and nothing else |
| Graph.OrientedGraph.RemoveEdge | new_factorgraphs/graph.cc:134-222 | an absent edge changes nothing. A present edge leaves the parents of j by the move-last rule and lowers both degrees. The path matrix again equals reachability. |
| Graph.OrientedGraph.UnrecordEdge | new_factorgraphs/graph.cc:155-164 | the coincidence entry is cleared, i leaves the parents of j by the move-last rule, and both degrees fall by one |
| Graph.OrientedGraph.InvalidatePaths | new_factorgraphs/graph.cc:168-178 | exactly the pairs (k, l) with path[k][i], path[j][l], k != l and no direct edge are cleared, and each of them is pending |
| Graph.OrientedGraph.RepairPaths | new_factorgraphs/graph.cc:182-210 | when the rounds stop, the path matrix is exactly reachability in the new edge set |
| Graph.OrientedGraph.Rederive | new_factorgraphs/graph.cc:191-196 | path[k][l] is set exactly when some middle vertex m has path[k][m] and path[m][l] |
| Graph.OrientedGraph.ReverseEdge | new_factorgraphs/graph.cc:226-235 | a present edge is replaced by its reverse (SUCCESS). Otherwise the result is FAIL and the edges are unchanged. |
| Graph.OrientedGraph.CanReverseEdge | new_factorgraphs/graph.cc:239-242 | true exactly for present edges |
| Graph.OrientedGraph.SetMark | new_factorgraphs/graph.cc:262-266 | mark[i] becomes val, and the other marks are kept |
| Graph.OrientedGraph.RemoveMark | new_factorgraphs/graph.cc:270-274 | mark[i] becomes 0, and the other marks are kept |
| Graph.OrientedGraph.RemoveAllMarks | new_factorgraphs/graph.cc:278-286 | every mark becomes 0 |
| Graph.OrientedGraph.SetAllMarks | new_factorgraphs/graph.cc:290-298 | every mark becomes val |
| Graph.OrientedGraph.Connected | new_factorgraphs/graph.cc:302-305 | true exactly when the edge i -> j is present |
| Graph.OrientedGraph.NotConnected | new_factorgraphs/graph.cc:309-312 | despite its name, true exactly when the edge is present |
| Graph.OrientedGraph.ExistsPath | new_factorgraphs/graph.cc:316-319 | true exactly when j is reachable from i |
| Graph.OrientedGraph.GetNumIn | new_factorgraphs/graph.cc:323-326 | the number of parents, and a is a parent exactly when the edge a -> i is present |
| Graph.OrientedGraph.GetNumOut | new_factorgraphs/graph.cc:330-333 | the number of edges leaving i |
| Graph.OrientedGraph.GetParentList | new_factorgraphs/graph.cc:351-354 | the parents of i, each once, and a appears exactly when a -> i is present |
| Graph.AcyclicOrientedGraph.constructor | new_factorgraphs/graph.cc:429-431 | an empty acyclic graph on n vertices |
| Graph.AcyclicOrientedGraph.CanAddEdge | new_factorgraphs/graph.cc:451-454 | true exactly when the edge is new and adding it closes no cycle (so never for i == j) |
| Graph.AcyclicOrientedGraph.AddEdge | new_factorgraphs/graph.cc:441-447 | when CanAddEdge allows it, the edge is added with its bookkeeping. Otherwise the result is FAIL and nothing changes. |
| Graph.AcyclicOrientedGraph.ReverseEdge | new_factorgraphs/graph.cc:458-474 | succeeds exactly when the edge is present and no other walk leads from i to j. Then the edge is reversed; on FAIL the edge set is restored. |
| Graph.AcyclicOrientedGraph.CanReverseEdge | new_factorgraphs/graph.cc:478-492 | 1 exactly when the edge is present and the reversed graph is acyclic. Edges, path matrix and degrees come back unchanged; i moves to the end of the parents of j. |
| DecisionGraphs.RouteAgrees | new_factorgraphs/decisionGraph.cc:638-649 | two strings that agree on every label met on the way reach the same leaf |
| DecisionGraphs.RouteSameShape | new_factorgraphs/decisionGraph.cc:638-649 | a walk sees only the links and labels of the nodes, not their values |
| DecisionGraphs.Redirect | new_factorgraphs/decisionGraph.cc:286-292 | each slot of the parent that held y now holds x, and nothing else about the parent changes |
| DecisionGraphs.RedirectAsWritten | new_factorgraphs/decisionGraph.cc:288-292 | as written: the left slot is set when it holds y, and otherwise the right slot is set |
| DecisionGraphs.RedirectAsWrittenKeepsY | new_factorgraphs/decisionGraph.cc:288-292 | a parent with both slots at y keeps y in its right slot under the loop as written, while Redirect moves both slots |
| DecisionGraphs.MergeSiblingsThenMerge | new_factorgraphs/decisionGraph.cc:276-329 | merging two sibling leaves and then merging the survivor away leaves a dangling right slot under the loop as written, but not with Redirect |
| DecisionGraphs.UnionParentsProperties | new_factorgraphs/decisionGraph.cc:294-322 | x's new parent list keeps x's parents as a prefix, holds exactly the parents of x and of y, and has no duplicates |
| DecisionGraphs.Occurs | new_factorgraphs/decisionGraph.cc:299-302 | the search loop finds v exactly when v is in the list |
| DecisionGraphs.RedirectParents | new_factorgraphs/decisionGraph.cc:288-292 | every listed parent is redirected from y to x, and every other node is kept |
| DecisionGraphs.CountFresh | new_factorgraphs/decisionGraph.cc:296-306 | the number of parents of y that x lacks |
| DecisionGraphs.AppendFresh | new_factorgraphs/decisionGraph.cc:308-322 | x's parents followed by the parents of y it lacks, in order |
| DecisionGraphs.SplitArena | new_factorgraphs/decisionGraph.cc:226-261 | leaf x becomes an inner node on the label, with two fresh leaf children at depth + 1 whose only parent is x. The graph stays consistent, and the children take x's place in the leaf list. |
| DecisionGraphs.SplitCovers | new_factorgraphs/decisionGraph.cc:226-261 | after a split every node is reached from the root, and every parent is recorded |
| DecisionGraphs.SplitListed | new_factorgraphs/decisionGraph.cc:343-384 | after a split the list names exactly the leaves, with the two children in x's place |
| DecisionGraphs.UpdateLeavesAfterSplit | new_factorgraphs/decisionGraph.cc:343-384 | x's item now holds the left child, and a new item after it holds the right child. The list grows by one; x loses its item. |
| DecisionGraphs.MergeNodes | new_factorgraphs/decisionGraph.cc:286-322 | the node part of merge: the parents of y are redirected and x gains the parents of y |
| DecisionGraphs.MergedAt | new_factorgraphs/decisionGraph.cc:286-322 | at every node a merge keeps the kind and the item; only x's parents change; slots are redirected only in parents of y |
| DecisionGraphs.MergeCovers | new_factorgraphs/decisionGraph.cc:276-329 | after a merge every node is still reached and every parent is recorded, and no inner node points at y |
| DecisionGraphs.MergeListed | new_factorgraphs/decisionGraph.cc:401-433 | after a merge the list names exactly the leaves without y |
| DecisionGraphs.MergeArena | new_factorgraphs/decisionGraph.cc:276-329 | y's item is unlinked and the graph stays consistent. The leaf list loses exactly y, and no inner node points at y afterwards. |
| DecisionGraphs.UpdateLeavesBeforeMerge | new_factorgraphs/decisionGraph.cc:401-433 | y's item is unlinked (the head moves when y was first), the list shrinks by one, and the nodes are untouched |
| DecisionGraphs.DecisionGraph.constructor | new_factorgraphs/decisionGraph.cc:35-59 | a single leaf root, listed once, with both iterators on it |
| DecisionGraphs.DecisionGraph.LeavesDistinct | new_factorgraphs/decisionGraph.cc:466-471 | the leaf list names distinct leaves of the arena |
| DecisionGraphs.DecisionGraph.RouteListed | new_factorgraphs/decisionGraph.cc:664-677 | the walk of any string from a reached node ends at a listed leaf |
| DecisionGraphs.DecisionGraph.GetRoot | new_factorgraphs/decisionGraph.cc:164-169 | the root is a node of the arena and is reached |
| DecisionGraphs.DecisionGraph.GetNumLeaves | new_factorgraphs/decisionGraph.cc:447-452 | the length of the leaf list, at least 1 |
| DecisionGraphs.DecisionGraph.SetValue | new_factorgraphs/decisionGraph.cc:185-190 | value[which] of x becomes value, and the shape and the leaf list are unchanged |
| DecisionGraphs.DecisionGraph.Split | new_factorgraphs/decisionGraph.cc:226-261 | the split of SplitArena; the leaf count grows by one |
| DecisionGraphs.DecisionGraph.Merge | new_factorgraphs/decisionGraph.cc:276-329 | y leaves the leaf list and the leaf count falls by one. Every slot that held y holds x, and x inherits the parents of y. |
| DecisionGraphs.DecisionGraph.IteratorGoToRoot | new_factorgraphs/decisionGraph.cc:543-552 | the iterator moves to the root |
| DecisionGraphs.DecisionGraph.IteratorGoTo | new_factorgraphs/decisionGraph.cc:566-575 | the iterator moves to x |
| DecisionGraphs.DecisionGraph.IteratorGoLeft | new_factorgraphs/decisionGraph.cc:589-598 | the iterator moves to its left child |
| DecisionGraphs.DecisionGraph.IteratorGoRight | new_factorgraphs/decisionGraph.cc:613-622 | the iterator moves to its right child |
| DecisionGraphs.DecisionGraph.IteratorFollowInstance | new_factorgraphs/decisionGraph.cc:638-649 | the iterator ends at the leaf the string reaches from where it was, and that leaf is listed |
| DecisionGraphs.DecisionGraph.IteratorFollowInstanceFromRoot | new_factorgraphs/decisionGraph.cc:664-677 | the iterator ends at the listed leaf the string reaches from the root |
| DecisionGraphs.DecisionGraph.Descend | new_factorgraphs/frequencyDecisionGraph.cc:245-253 | the walk of the counting loops ends at the listed leaf the row reaches |
| DecisionGraphs.DecisionGraph.ResetLeafIterator | new_factorgraphs/decisionGraph.cc:713-722 | the leaf iterator moves to the head of the list |
| DecisionGraphs.DecisionGraph.LeafIteratorNext | new_factorgraphs/decisionGraph.cc:736-750 | -1 on NULL; otherwise 0, and the iterator moves to the next item in list order |
| DecisionGraphs.DecisionGraph.LeafIteratorPrevious | new_factorgraphs/decisionGraph.cc:764-778 | -1 on NULL; otherwise 0, and the iterator moves to the previous item |
| DecisionGraphs.DecisionGraph.GetLeafIteratorNode | new_factorgraphs/decisionGraph.cc:812-817 | the listed leaf at the iterator's position |
| FrequencyDecisionGraphs.TallyTotal | new_factorgraphs/frequencyDecisionGraph.cc:242-259 | when every row reaches one of the distinct listed leaves, the tallies over the list count every row once |
| FrequencyDecisionGraphs.TallyUnbound | new_factorgraphs/frequencyDecisionGraph.cc:255-258 | unbound, no row is counted in value[1] |
| FrequencyDecisionGraphs.SplitTallyTotal | new_factorgraphs/frequencyDecisionGraph.cc:335-357 | the four split tallies for a label partition the rows that reach x |
| FrequencyDecisionGraphs.SplitTallyOwnLabel | new_factorgraphs/frequencyDecisionGraph.cc:338-348 | bound to position k, splitting on k sends a row left exactly when its slot is 0 |
| FrequencyDecisionGraphs.MassOfTallies | new_factorgraphs/frequencyDecisionGraph.cc:263-272 | when the values are tallies over N, the mass of the list is its tally over N |
| FrequencyDecisionGraphs.MergeKeepsMass | new_factorgraphs/frequencyDecisionGraph.cc:103-118 | moving y's value into x and dropping y from the list keeps the mass of the list |
| FrequencyDecisionGraphs.MergeMass | new_factorgraphs/frequencyDecisionGraph.cc:103-118 | a frequency merge keeps the mass of value[0], and the mass of value[1] too when the graph is bound |
| FrequencyDecisionGraphs.AbsorbedValues | new_factorgraphs/frequencyDecisionGraph.cc:103-118 | after a merge x holds the sum of both value[0]s (and of both value[1]s when bound), and other values are kept |
| FrequencyDecisionGraphs.SplitFit | new_factorgraphs/frequencyDecisionGraph.cc:135-169 | both children get x's ancestor vector with the split label marked, including at depth 0 where the copy is skipped |
| FrequencyDecisionGraphs.MergedFit | new_factorgraphs/frequencyDecisionGraph.cc:103-118 | a merge keeps labels, depths and ancestor vectors |
| FrequencyDecisionGraphs.ShapeKeepsDests | new_factorgraphs/frequencyDecisionGraph.cc:242-253 | arenas of the same shape send every row to the same leaf |
| FrequencyDecisionGraphs.ValuesOnlyRoutes | new_factorgraphs/frequencyDecisionGraph.cc:237-272 | changing only values keeps the leaf every row reaches |
| FrequencyDecisionGraphs.CountStep | new_factorgraphs/frequencyDecisionGraph.cc:242-259 | while rows are being counted each row still reaches its leaf, and counting it bumps that leaf |
| FrequencyDecisionGraphs.FrequencyWalks | new_factorgraphs/frequencyDecisionGraph.cc:219-278 | the three walks (clear, count, divide) leave at each listed leaf the share of rows reaching it, by slot |
| FrequencyDecisionGraphs.FrequenciesSumToOne | new_factorgraphs/frequencyDecisionGraph.cc:219-278 | after computeFrequencies the values of the listed leaves add up to 1 |
| FrequencyDecisionGraphs.FrequenciesTotal | new_factorgraphs/frequencyDecisionGraph.cc:263-272 | when every row reaches one of the distinct listed leaves and each leaf holds its tallies over N, the two masses add up to 1 |
| FrequencyDecisionGraphs.FrequenciesUnbound | new_factorgraphs/frequencyDecisionGraph.cc:255-272 | unbound, every value[1] of a leaf is 0 after computeFrequencies |
| FrequencyDecisionGraphs.SharesOfFrequency | new_factorgraphs/frequencyDecisionGraph.cc:219-278 | x's share of the rows is the sum of its two frequencies |
| FrequencyDecisionGraphs.SplitCountsShares | new_factorgraphs/frequencyDecisionGraph.cc:362-375 | dividing the counts gives the split shares. Unbound, the undivided slot-1 counts already are the shares. |
| FrequencyDecisionGraphs.SplitSharesPartition | new_factorgraphs/frequencyDecisionGraph.cc:301-380 | for every label, the four split frequencies of x add up to x's own share of the rows |
| FrequencyDecisionGraphs.SplitSharesUnbound | new_factorgraphs/frequencyDecisionGraph.cc:350-357 | unbound, left1 and right1 are all 0 |
| FrequencyDecisionGraphs.SplitSharesOwnLabel | new_factorgraphs/frequencyDecisionGraph.cc:338-348 | bound to position k, left1[k] and right0[k] are 0 |
| FrequencyDecisionGraphs.ClearCounts | new_factorgraphs/frequencyDecisionGraph.cc:317-318 | every counter starts at 0 |
| FrequencyDecisionGraphs.BucketRow | new_factorgraphs/frequencyDecisionGraph.cc:338-357 | for every label, the counter of the row's side and slot grows by one |
| FrequencyDecisionGraphs.DivideCounts | new_factorgraphs/frequencyDecisionGraph.cc:362-375 | every counter is divided by N; the slot-1 counters only when bound |
| FrequencyDecisionGraphs.FrequencyDecisionGraph.DestsListed | new_factorgraphs/frequencyDecisionGraph.cc:242-253 | every row reaches a listed leaf |
| FrequencyDecisionGraphs.FrequencyDecisionGraph.Unbound | new_factorgraphs/frequencyDecisionGraph.cc:37-51 | a single leaf whose ancestor vector is n zeros, with value[0] = 1 and value[1] = 0 |
| FrequencyDecisionGraphs.FrequencyDecisionGraph.Bound | new_factorgraphs/frequencyDecisionGraph.cc:68-86 | a single leaf holding 1 - f and f, where f is the share of rows with a 1 at myPosition |
| FrequencyDecisionGraphs.FrequencyDecisionGraph.UnivariateFrequency | new_factorgraphs/frequencyDecisionGraph.cc:184-203 | the share of rows with a 1 at k, between 0 and 1 |
| FrequencyDecisionGraphs.FrequencyDecisionGraph.Split | new_factorgraphs/frequencyDecisionGraph.cc:135-169 | the decision-graph split, with both children marked for the split label in x's ancestor vector |
| FrequencyDecisionGraphs.FrequencyDecisionGraph.Merge | new_factorgraphs/frequencyDecisionGraph.cc:103-118 | x absorbs y's value[0] (and value[1] when bound), then the decision-graph merge removes y from the list |
| FrequencyDecisionGraphs.FrequencyDecisionGraph.ZeroLeaves | new_factorgraphs/frequencyDecisionGraph.cc:236-238 | both values of every listed leaf become 0 |
| FrequencyDecisionGraphs.FrequencyDecisionGraph.CountRows | new_factorgraphs/frequencyDecisionGraph.cc:242-259 | each row adds one to value[slot] at the leaf it reaches |
| FrequencyDecisionGraphs.FrequencyDecisionGraph.CountRow | new_factorgraphs/frequencyDecisionGraph.cc:243-258 | one row bumps its leaf |
| FrequencyDecisionGraphs.FrequencyDecisionGraph.DivideLeaves | new_factorgraphs/frequencyDecisionGraph.cc:263-272 | value[0] of every listed leaf is divided by N, and value[1] too when bound |
| FrequencyDecisionGraphs.FrequencyDecisionGraph.ComputeFrequencies | new_factorgraphs/frequencyDecisionGraph.cc:219-278 | the leaves hold the frequencies of their rows by slot; routes and the list are unchanged |
| FrequencyDecisionGraphs.FrequencyDecisionGraph.ComputeSplitFrequencies | new_factorgraphs/frequencyDecisionGraph.cc:301-380 | for every label, the four arrays hold the shares of rows reaching x by side and slot |
| FrequencyDecisionGraphs.FrequencyDecisionGraph.CountSplitRows | new_factorgraphs/frequencyDecisionGraph.cc:322-358 | after the loop the arrays hold the split counts of all rows |
| FrequencyDecisionGraphs.FrequencyDecisionGraph.CountSplitRow | new_factorgraphs/frequencyDecisionGraph.cc:323-357 | one row is counted for every label when it reaches x, and not counted otherwise |
| Operators.ResetOperator | new_factorgraphs/operator.cc:34-48 | no operator: gain -1 and every reference NULL |
| Operators.UpdateBestOperator | new_factorgraphs/operator.cc:64-74 | the result is one of the two, with the larger gain, and best is kept on ties |
| Operators.ScanMax | new_factorgraphs/operator.cc:92-140 | a scan of candidates ends with a gain at least best's and every candidate's, and the winner is best or a candidate |
| Operators.ScanNone | new_factorgraphs/operator.cc:92-140 | when no candidate beats best, best is kept |
| Operators.ScanFirst | new_factorgraphs/operator.cc:110-135 | the earliest candidate of maximal gain that beats best wins the scan |
| Operators.ScanAppend | new_factorgraphs/operator.cc:110-135 | scanning the splits and then the merges is scanning both in sequence |
| Operators.LeafSplits | new_factorgraphs/operator.cc:111-121 | one split candidate per label, carrying the leaf's cached gain for that label |
| Operators.SplitCandidateAt | new_factorgraphs/operator.cc:110-121 | the split of the p-th leaf on label j is candidate p * n + j |
| Operators.SplitCandidateShape | new_factorgraphs/operator.cc:110-121 | every split candidate splits a listed leaf on a label below n, in the diagram `node` |
| Operators.MergeCandidates | new_factorgraphs/operator.cc:125-135 | one merge candidate per recorded merge, in the recorded order |
| Operators.OfferLeafSplits | new_factorgraphs/operator.cc:111-121 | the inner loop offers every label of one leaf |
| Operators.OfferMerges | new_factorgraphs/operator.cc:125-135 | the merge loop offers every recorded merge |
| Operators.UpdateBestNodeOperator | new_factorgraphs/operator.cc:92-140 | the reset operator offered every split of every listed leaf, then every merge |
| Operators.BestNodeOperator | new_factorgraphs/operator.cc:92-140 | the chosen gain is at least -1, every cached split gain and every merge gain. The choice is the reset operator or a candidate. |
| Operators.OperatorApplicable | new_factorgraphs/operator.cc:248-261 | a merge is always applicable. A split is applicable exactly when its edge is present or adds no cycle (so it never labels its own variable); anything else never is. |
| Operators.Seeded | new_factorgraphs/operator.cc:162-175 | a new child gets zeroed buffers of length n and the given values |
| Operators.SeededSplit | new_factorgraphs/operator.cc:160-175 | the seeded split is the split whose children hold the split frequencies cached for the label |
| Operators.SeedChildren | new_factorgraphs/operator.cc:162-175 | both children are seeded from x's cached split frequencies, and the list is unchanged |
| Operators.SplitAndSeed | new_factorgraphs/operator.cc:160-175 | x is split on k and its children are seeded, with the leaf list spliced |
| Operators.ApplySplit | new_factorgraphs/operator.cc:160-180 | split and seed; G gains k -> where exactly when the acyclic graph allows it |
| Operators.ApplyMerge | new_factorgraphs/operator.cc:182-185 | y is fused into x and leaves the list |
| Operators.ApplyOperator | new_factorgraphs/operator.cc:155-194 | a split applies ApplySplit, a merge applies ApplyMerge with G untouched, and any other kind changes nothing |
| Operators.DeleteOperator | new_factorgraphs/operator.cc:276-286 | a split's cached gain becomes -1; any other operator changes nothing |
| Scoring.LogGamma | new_factorgraphs/bayesian.cc:630-636 | log Gamma(1) = 0 |
| Scoring.LogGammaRecurrence | new_factorgraphs/bayesian.cc:630-636 | over a cumulative-log table, log Gamma(x + 1) = log Gamma(x) + log x |
| Scoring.Trunc | new_factorgraphs/bayesian.cc:665-677 | the cast to long truncates toward zero |
| Scoring.NodeContribution | new_factorgraphs/bayesian.cc:671-672 | a node with both values 0 scores -10E10 |
| Scoring.ContributionOfCounts | new_factorgraphs/bayesian.cc:652-686 | on counts c0 and c1 over N, the contribution is the K2 term log(c0! c1! / (c0 + c1 + 1)!) |
| Scoring.ContributionTruncates | new_factorgraphs/bayesian.cc:665-677 | a worked example: with frequencies 0.5 and 0.25 and N = 3, the counts are the truncated products 1 and 0 (not the rounded 2 and 1), and their total is 2 |
| Scoring.TruncShare | new_factorgraphs/bayesian.cc:665-667 | truncating (c / N) * N gives back the count c |
| Scoring.ContributionAt | new_factorgraphs/bayesian.cc:665-681 | at a reached node whose truncated counts are a and b, the contribution is -logGamma(a + b + 2) + logGamma(a + 1) + logGamma(b + 1) |
| Scoring.Eligible | new_factorgraphs/bayesian.cc:472-475 | a label is considered exactly when it is another variable not yet split on above the leaf, and its edge is present or may still be added |
| Scoring.ClearGains | new_factorgraphs/bayesian.cc:434-447 | every gain becomes -1, and only the buffers change |
| Scoring.RescoreLabels | new_factorgraphs/bayesian.cc:470-508 | each label gets its split gain and caches its split frequencies when eligible, and -1 otherwise |
| Scoring.RescoreLeaf | new_factorgraphs/bayesian.cc:452-508 | the split frequencies of x are computed, and every label is rescored from them |
| Scoring.RecomputeSplitGains | new_factorgraphs/bayesian.cc:414-522 | a fixed leaf, or one at the depth bound, gets -1 for every label; any other leaf is rescored. Only x's buffers change. |
| Scoring.RescoreChildren | new_factorgraphs/operator.cc:214-217 | both children of a split are rescored, and nothing else changes |
| Scoring.UpdateGainsAfterOperator | new_factorgraphs/operator.cc:211-231 | after a split both children are rescored; after a merge the surviving leaf is; any other kind changes nothing |
| Scoring.RecomputeMergeGains | new_factorgraphs/bayesian.cc:544-615 | the merges of every pair of listed leaves, the earlier first, in list order |
| Scoring.MergeRow | new_factorgraphs/bayesian.cc:576-606 | the merges of the i-th leaf with every later one |
| Scoring.OfferMerge | new_factorgraphs/bayesian.cc:577-605 | one pair is recorded exactly when its gain is positive |
| Scoring.MergesSound | new_factorgraphs/bayesian.cc:575-606 | every recorded merge pairs an earlier and a later listed leaf, with their positive merge gain |
| Scoring.MergesComplete | new_factorgraphs/bayesian.cc:575-606 | every pair of listed leaves (earlier first) with a positive merge gain is recorded |
| Scoring.PairRecorded | new_factorgraphs/bayesian.cc:575-606 | MergesComplete stated for the gain entry of the pair |
| Scoring.MergesCount | new_factorgraphs/bayesian.cc:570 | at most numLeaves * (numLeaves - 1) / 2 merges, which fits the allocated buffer |
| Bayesian.OrderCovers | new_factorgraphs/bayesian.cc:365-384 | a topological order holds every vertex |
| Bayesian.SourceIn | new_factorgraphs/bayesian.cc:365-384 | among unplaced vertices of an acyclic graph, one has no unplaced parent |
| Bayesian.AllAdded | new_factorgraphs/bayesian.cc:369-376 | true exactly when every parent is already added |
| Bayesian.Place | new_factorgraphs/bayesian.cc:378-383 | a vertex whose parents are placed goes into the next slot |
| Bayesian.Visit | new_factorgraphs/bayesian.cc:367-383 | a vertex is placed when all its parents are, and placed vertices stay placed |
| Bayesian.OrderingPass | new_factorgraphs/bayesian.cc:366-384 | a pass places every ready vertex, and at least one while any is left |
| Bayesian.TopologicalOrdering | new_factorgraphs/bayesian.cc:341-393 | index holds every vertex once, and every parent before its children |
| Bayesian.DrawBit | new_factorgraphs/bayesian.cc:311-316 | the bit is 1 exactly when the draw is below v1 / (v0 + v1). At a leaf with both values 0 the comparison fails, so the bit is 0. |
| Bayesian.SampleIgnores | new_factorgraphs/bayesian.cc:306-319 | writing a position that the diagram never tests does not change the bit it draws |
| Bayesian.NotTested | new_factorgraphs/bayesian.cc:306-319 | a diagram never tests a position that comes at or after its own in the order |
| Bayesian.SamplesKept | new_factorgraphs/bayesian.cc:306-319 | writing the bit for index[i] keeps the earlier positions sampled and samples index[i] |
| Bayesian.DrawAt | new_factorgraphs/bayesian.cc:309-316 | the bit a diagram draws at the leaf the string reaches |
| Bayesian.SampleNext | new_factorgraphs/bayesian.cc:308-318 | one step extends the sampled prefix by one position |
| Bayesian.GenerateInstance | new_factorgraphs/bayesian.cc:289-324 | every position holds the bit its diagram draws at the leaf that the written parent bits reach, using the draw of its turn |
| Bayesian.AgreeUpTo | new_factorgraphs/bayesian.cc:289-324 | two instances sampled with the same draws agree on every prefix of the order |
| Bayesian.InstanceDetermined | new_factorgraphs/bayesian.cc:289-324 | given the draws, the generated instance is the only one consistent with its diagrams |
| Bayesian.MergesArePairs | new_factorgraphs/bayesian.cc:575-606 | every recorded merge fuses two distinct listed leaves |
| Bayesian.MergesSameValues | new_factorgraphs/bayesian.cc:181-184 | the recorded merges depend only on the leaves' values, so deleting an operator, which changes only a cached gain, keeps them current |
| Bayesian.MergeRecorded | new_factorgraphs/bayesian.cc:575-606 | every pair of listed leaves whose merge gains something is among the merges recomputeDecisionGraphMergeGains records |
| Bayesian.SplitKeeps | new_factorgraphs/bayesian.cc:162-171 | after a split whose edge is present, the diagram tests only parents and its new children are equipped |
| Bayesian.MergeKeeps | new_factorgraphs/bayesian.cc:162-171 | a merge keeps every test and buffer, and the surviving leaf stays equipped |
| Bayesian.ParentsGrow | new_factorgraphs/bayesian.cc:159-201 | labels that test parents keep doing so when G only gains edges |
| Bayesian.GreedyNetwork | new_factorgraphs/bayesian.cc:159-201 | the loop's state is always a network generateInstance can sample from |
| Bayesian.Winner | new_factorgraphs/bayesian.cc:159-201 | a positive best operator is the best of its diagram: a split of a listed leaf, or a merge of two distinct listed leaves |
| Bayesian.CandidateShape | new_factorgraphs/operator.cc:92-140 | a node's positive best operator is a split of its leaf or a merge of two distinct leaves, for that node |
| Bayesian.ApplyKept | new_factorgraphs/bayesian.cc:162-166 | applying the operator keeps the diagram testing only parents and G only gains edges; an applied split adds the edge (label, where) and puts its two new children in the leaf list in place of its leaf, an applied merge keeps the edges and drops the absorbed leaf from the list; the leaves to rescore carry their buffers |
| Bayesian.ApplySplitKept | new_factorgraphs/bayesian.cc:162-166 | the split case of ApplyKept: G's edges become the old ones plus (label, where), and the leaf is replaced in the list by its two new children |
| Bayesian.SplitCarried | new_factorgraphs/bayesian.cc:162-166 | whether applyOperator added the split's edge or found it already present, the edge set afterwards is the old one plus (label, where); every split label is still a parent of `where`, every leaf keeps its buffers, and the two new children replace the split leaf in the list |
| Bayesian.ApplyMergeKept | new_factorgraphs/bayesian.cc:162-166 | the merge case of ApplyKept: G keeps its edges, the absorbed leaf leaves the list, and the surviving leaf keeps its buffers |
| Bayesian.RescoreKept | new_factorgraphs/bayesian.cc:170 | rescoring keeps G, the list and the fitted diagram |
| Bayesian.ApplyAndUpdate | new_factorgraphs/bayesian.cc:162-193 | the applicable branch: a split adds its edge and splices its two children into the leaf list in place of its leaf, a merge keeps the edges and drops its absorbed leaf; afterwards the diagram tests only parents, its merges are exactly the positive-gain pairs of its current leaves when merging is allowed (none otherwise), and its best operator is rescanned |
| Bayesian.RescoreAndScan | new_factorgraphs/bayesian.cc:168-193 | after an applied operator, rescoring, recomputing the merges and rescanning change neither the leaf list nor G, and leave the diagram tracked |
| Bayesian.MergesKept | new_factorgraphs/bayesian.cc:174-179 | with merging allowed, the merges kept are exactly the pairs of current leaves whose merge gains something, in list order, each pair two distinct listed leaves; with merging off there are none |
| Bayesian.StepDiagram | new_factorgraphs/bayesian.cc:162-193 | the winner's operator has the effect Advance states (an applied split adds its edge and splices its two children into the leaf list, an applied merge drops the absorbed leaf, an inapplicable split changes neither and its cached gain becomes ineligible); the diagram ends tracked under the grown graph (merges exactly the current positive-gain pairs when allowed, best operator rescanned), and no other diagram's arena changes |
| Bayesian.Advance | new_factorgraphs/bayesian.cc:162-193 | operatorApplicable picks the branch: an applied split adds its edge and splices its two children into the leaf list, an applied merge drops the absorbed leaf and keeps the edges, and an inapplicable split (a merge is always applicable) leaves leaves and edges alone and its cached gain becomes ineligible (-1); then the diagram is tracked with its current merges and rescanned best operator |
| Bayesian.DeleteKept | new_factorgraphs/bayesian.cc:181-184 | deleting an inapplicable split sets its cached gain to ineligible (-1) and changes neither the leaf list nor G; the diagram stays fitted and its merges stay current |
| Bayesian.DeleteAndScan | new_factorgraphs/bayesian.cc:181-193 | the inapplicable branch followed by the rescan: the leaf list and G stay as they were, the cached gain becomes ineligible, and the diagram is tracked with the same merges |
| Bayesian.Step | new_factorgraphs/bayesian.cc:159-200 | one round keeps the greedy invariant, and G only gains edges |
| Bayesian.Redo | new_factorgraphs/bayesian.cc:162-200 | the round for the winner keeps the greedy invariant |
| Bayesian.OthersTracked | new_factorgraphs/bayesian.cc:186-200 | the diagrams a round does not touch keep their best operators and merges under the grown graph |
| Bayesian.OtherTracked | new_factorgraphs/bayesian.cc:186-200 | one diagram a round does not touch keeps its best operator and merges under the grown graph |
| Bayesian.TrackedKept | new_factorgraphs/bayesian.cc:186-200 | a tracked diagram whose arena nothing changed is still tracked |
| Bayesian.ClearNetwork | new_factorgraphs/bayesian.cc:125 | removeAllEdges on an acyclic graph leaves no edge |
| Bayesian.Prime | new_factorgraphs/bayesian.cc:141-150 | the single leaf gets zeroed buffers and its gains, and its best operator is found with an empty merge list, which is exactly the merge list of a diagram with one leaf |
| Bayesian.PrimedNext | new_factorgraphs/bayesian.cc:141-151 | priming one more diagram extends the primed prefix |
| Bayesian.PrimeAll | new_factorgraphs/bayesian.cc:137-151 | every diagram is primed, and the best operator is the scan of their bests |
| Bayesian.PrimeNext | new_factorgraphs/bayesian.cc:141-151 | one round of the priming loop |
| Bayesian.NoGainLeft | new_factorgraphs/operator.cc:92-140 | when a diagram's best operator gains nothing, no split of its leaves and none of its merges gains anything |
| Bayesian.GreedySettled | new_factorgraphs/bayesian.cc:159 | when the overall best gains nothing, every diagram is settled: no cached split gain of a leaf is positive and, with merging allowed, no merge of two of its leaves gains anything |
| Bayesian.PrimedGreedy | new_factorgraphs/bayesian.cc:137-151 | after priming the greedy loop may start |
| Bayesian.Setup | new_factorgraphs/bayesian.cc:109-151 | no edges, every diagram primed, no merges |
| Bayesian.RescanBest | new_factorgraphs/bayesian.cc:197-200 | the next best is the scan of the per-variable bests |
| Bayesian.GreedyLoop | new_factorgraphs/bayesian.cc:155-201 | the result is a network whose diagrams test only parents; `rounds` never exceeds the fuel bound, and when it stays below it the loop stopped on a non-positive gain (`converged`), in which case no leaf of any diagram has a positive cached split gain and, with merging allowed, no merge of two leaves of one diagram gains anything |
| Bayesian.ConstructTheNetwork | new_factorgraphs/bayesian.cc:72-220 | G acyclic, every diagram testing only its parents in G; `rounds` never exceeds the fuel bound, and when it stays below it the greedy loop ran to completion (`converged`), in which case no leaf has a positive cached split gain and, with merging allowed, no merge of two leaves of one diagram gains anything |
| Binary.BinaryValue | new_factorgraphs/binary.h:13-17 | the value is below 2^n |
| Binary.BinaryValueExtend | new_factorgraphs/binary.h:15-16 | one more index doubles the value and adds the new bit |
| Binary.IndexedBinaryToInt | new_factorgraphs/binary.h:4-20 | the sum of x[index[k]] * 2^(n-1-k), between 0 and 2^n; 0 when n = 0 |
| Fitness.TrapBlock | new_factorgraphs/fitness.cc:247-250 | at most 5, and 5 exactly when all five bits are 1 |
| Fitness.TrapOptimum | new_factorgraphs/fitness.cc:231-254 | trap-5 is at most the length, and reaches it exactly on the all-ones string |
| Fitness.TrapStep | new_factorgraphs/fitness.cc:239-251 | one more block adds its trap value |
| Fitness.OptimaRecognised | new_factorgraphs/fitness.cc:70-78 | for onemax and trap-5 the paired test recognises exactly the strings of maximal fitness |
| Fitness.SetPositions | new_factorgraphs/fitness.cc:380-401 | one position per 1 bit |
| Fitness.SetPositionsSpec | new_factorgraphs/fitness.cc:380-401 | entry c is the position of the c-th 1 bit, increasing |
| Fitness.TurbineAt | new_factorgraphs/fitness.cc:380-401 | the c-th set bit i puts turbine c at (300 * (i / 10), 300 * (i % 10)) |
| Fitness.Layout | new_factorgraphs/fitness.cc:378-401 | the turbine vector holds 30 x coordinates followed by 30 y coordinates |
| Fitness.Onemax | new_factorgraphs/fitness.cc:122-132 | the number of 1 bits among the first n |
| Fitness.Trap5 | new_factorgraphs/fitness.cc:231-254 | the trap-5 value of the first n bits |
| Fitness.AreAllGenesOne | new_factorgraphs/fitness.cc:435-442 | true exactly when every bit is 1 |
| Fitness.CheckBlock | new_factorgraphs/fitness.cc:468-479 | ok stays true exactly when the block repeats its first bit |
| Fitness.AreBlocks6ZeroOrOne | new_factorgraphs/fitness.cc:458-483 | true exactly when every block of six bits is uniform |
| Fitness.PlaceTurbines | new_factorgraphs/fitness.cc:378-401 | the turbine vector of the layout of the set bits |
| Fitness.WfloFitness | new_factorgraphs/fitness.cc:343-416 | -(count - 30)^2 with other than 30 set bits, otherwise the farm power of the grid layout |
| Fitness.FitnessInUse.constructor | new_factorgraphs/fitness.cc:84-90 | no fitness selected, and no calls |
| Fitness.FitnessInUse.SetFitness | new_factorgraphs/fitness.cc:502-513 | succeeds exactly for numbers in the table and selects that fitness; the call count is kept |
| Fitness.FitnessInUse.ResetFitnessCalls | new_factorgraphs/fitness.cc:640-643 | the count becomes 0, and 0 is returned |
| Fitness.FitnessInUse.FitnessCalled | new_factorgraphs/fitness.cc:647-650 | returns the old count, then raises it by one |
| Fitness.FitnessInUse.GetFitnessValue | new_factorgraphs/fitness.cc:585-589 | counts one call and returns the fitness in use |
| Fitness.FitnessInUse.IsOptimal | new_factorgraphs/fitness.cc:623-626 | the optimality test of the fitness in use |
| Populations.Swapped | new_factorgraphs/population.cc:276-286 | the two entries change places, and the others are kept |
| Populations.SwappedTwice | new_factorgraphs/population.cc:267-295 | swapping twice restores, and swapping an entry with itself changes nothing |
| Populations.SwappedPermutes | new_factorgraphs/population.cc:267-295 | a swap keeps the multiset of entries |
| Populations.Population.Allocate | new_factorgraphs/population.cc:37-60 | N rows of n zero bits, every fitness 0 |
| Populations.Population.CountRow | new_factorgraphs/population.cc:201-207 | one row adds its bits to the counts |
| Populations.Population.UnivariateCounts | new_factorgraphs/population.cc:201-207 | count1[k] is the number of rows with a 1 at k |
| Populations.Population.ComputeUnivariateFrequencies | new_factorgraphs/population.cc:189-221 | p1[k] is the share of rows with a 1 at k, for k < n; the rest of p1 is kept |
| Populations.Population.CopyIndividual | new_factorgraphs/population.cc:238-251 | row `where` and its fitness are replaced, and nothing else changes |
| Populations.Population.SwapIndividuals | new_factorgraphs/population.cc:267-295 | rows and fitness values at the two indices change places, and nothing else changes |
| Populations.Population.EvaluatePopulation | new_factorgraphs/population.cc:161-173 | every fitness is the value of the fitness in use, and the call count grows by N |
| Statistics.CountOptimal | statistics.cpp:55-78 | the optimal rows are at most all rows |
| Statistics.SumBetween | statistics.cpp:54-81 | a sum of values between lo and hi lies between n * lo and n * hi |
| Statistics.AverageBetween | statistics.cpp:54-81 | the average lies between the least and the greatest value |
| Statistics.SummaryLoop | statistics.cpp:53-79 | the least and greatest fitness (each attained), the first index of the greatest, the sum, and the number of optimal rows when there is a test |
| Statistics.BasicStatistics.Initialize | statistics.cpp:11-15 | room for n frequencies |
| Statistics.BasicStatistics.Summarise | statistics.cpp:53-81 | the extremes, the first maximal index, the average between the extremes, and the count of optimal rows |
| Statistics.BasicStatistics.ComputeBasicStatistics | statistics.cpp:45-90 | the statistics describe the generation: sizes, fitness summary, univariate frequencies, and the best string when there is a test |
| Statistics.Guidance | statistics.cpp:259-282 | '0' exactly below the threshold, '1' exactly above one minus the threshold (and not below it), '.' otherwise |
| Boa.TerminationCriteria | new_factorgraphs/boa.cc:243-289 | the first criterion met, in order: share of optimal strings, optimum found, converged frequencies, generation limit. 0 when none is met; with every criterion off the result is 0. |

## Left out

- Floating point: `float` and `double` values are modelled as exact reals. Rounding is not modelled, and neither is the NaN at an unreached leaf. The NaN's effect (the drawn bit is 0) is stated in `DrawBit`.
- Scoring.LogGamma: the cumulative-log table and log2(N) are inputs (the `Metric` datatype). The logarithm itself is not computed.
- Operators.ApplyOperator: the operator's pointer to its diagram (`Operator.t`) is replaced by passing the diagram alongside. The error message for an unknown operator kind is not modelled; such an operator changes nothing.
- Bayesian.GenerateInstance: the calls to `drand()` are replaced by a sequence of draws passed in, one per position.
- Bayesian.ConstructTheNetwork: a fuel bound limits the greedy loop. The source never decrements `operatorsLeft`, so its loop ends only on a non-positive gain. The result `rounds` counts the rounds of the greedy loop, each of which applies or deletes the best operator; whenever it is below the fuel bound the loop ended that way (`converged`), and only a run that used all its fuel can stop early.
- The `canAdd` matrix of constructTheNetwork is allocated and filled but never read, so it is not modelled.
- Scoring.Eligible: split gains are cached and are not recomputed when G gains edges, and operatorApplicable does not test the in-degree bound. So a stale gain can add an edge past `maxIncoming`. The model keeps this behaviour and does not claim that the bound holds.
- Binary.IndexedBinaryToInt: the result is an unbounded integer. The source's `int` overflows for n > 31.
- Fitness.Onemax and Fitness.Trap5 return the integer value as a real. The source's conversion to `float` is exact only for small n.
- Fitness.Trap5: requires n % 5 == 0. For other lengths the source's block loop steps past n and reads beyond the string, which is not modelled.
- Fitness.AreBlocks6ZeroOrOne: requires n % 6 == 0. For other lengths the source's block loop steps past n and reads beyond the string, which is not modelled.
- Fitness: the float-valued benchmarks (quadratic, the three deceptive functions) and the farm power of a layout are inputs (`Numerics`). The wind-farm aerodynamics are not modelled.
- Fitness.FitnessInUse.SetFitness: the source prints an error and exits the process for an unknown number. The model returns `ok == false` and keeps the previous selection.
- `isBestDefined` is the predicate `HasOptimum`. `getFitnessCalls` is a plain read of the `calls` field.
- `generatePopulation` (new_factorgraphs/population.cc:107-147: each row is cleared and then exactly 30 ones are set at positions drawn by `intRand`) and `printIndividual` are not modelled: they depend on the random number generator and on output.
- Printing is not modelled: the statistics printers, `printModel`, the printers of the graph and the diagrams, and the board print inside wflofitness when f > 100. printGuidance is modelled as the string it prints (`Statistics.Guidance`).
- Populations.Population.CopyIndividual: the source's default argument `f = 0` (new_factorgraphs/population.cc:238) has no counterpart; callers pass the fitness explicitly, 0.0 for the default.
- Statistics.BasicStatistics.ComputeBasicStatistics: `bestX` points into the population row in the source; the model copies the row.
- The divisions by N assume a non-empty population (N > 0), as every caller provides.
- Memory management is not modelled: `deleteSubtree`, `deleteNodeList`, destructors, and `Calloc`/`free` of the buffers (a fresh buffer is a zeroed sequence).
- Bayesian.TopologicalOrdering: the contract states a valid topological order. It does not state which one the passes produce (increasing vertex number within each pass).
- Graph.OrientedGraph.RemoveEdge: requires an acyclic graph. The invalidation pass reads row j and column i while clearing entries, which is sound only without a walk from j to i. On a cyclic graph the base class can leave stale path entries; that case is not modelled.
- Graph.OrientedGraph.ReverseEdge: requires an acyclic graph too, because the base reverseEdge (new_factorgraphs/graph.cc:226-235) removes the edge through removeEdge. A cyclic graph is not modelled; only an AcyclicOrientedGraph is ever built (new_factorgraphs/boa.cc:315), and its own reverseEdge is modelled in full.
- The headers (`*.h`) only declare. The BOA main loop, `generateOffspring` and the replacement of the population are outside this model.
- The accessors getLeaves, getIterator, getIteratorValue, getIteratorLabel, getLeafIterator, getLeafIteratorValue, getValue, getMark, size and getNumberOfVertices are field reads. They are modelled as plain functions without a contract.

## Findings

| source | as written | input that shows it | evidently intended | confidence | as-written member | corrected member |
|---|---|---|---|---|---|---|
| new_factorgraphs/decisionGraph.cc:288-292 | the redirect sets the left slot of a parent of y when it holds y, and otherwise sets the right slot, so at most one slot per parent changes | P split into leaves 1 and 2; merge(1, 2) points both slots of P at 1; then merge(3, 1) sets P.left to 3 and leaves P.right at 1, a leaf no longer in the leaf list | every slot that holds y is redirected to x, so no node points at a merged-away leaf | not executed | DecisionGraphs.MergeSiblingsThenMerge | DecisionGraphs.MergeArena |
