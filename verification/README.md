# Greedy randomized bipartite matching with snapshot history

This project models, in Dafny, the core of a small script that builds a
weighted complete bipartite graph K4,4 and then computes greedy matchings on
it, recording every intermediate graph.

- **Builder** (`builder.dfy`, module `Builder`): fills the edge-weight map
  right node by right node, one weight for every `(left, right)` pair, in two
  nested loops. The result is the complete bipartite edge set with
  `|left| * |right|` edges, each carrying the weight drawn for its pair.
- **Greedy sequential matcher** (`greedy.dfy`, module `Greedy`): walks a
  shuffled list of the graph's edges once. An edge `(u, v, w)` is accepted only
  if `u` is still a free left node and `v` a free right node at the moment it is
  reached. On acceptance the edge is appended to the matching, every edge at `u`
  or `v` is removed from the private working graph, a snapshot of that graph is
  appended to the history, and `u` and `v` stop being free.
  `Greedy` is the run written as a function of the walked prefix.
  `GreedySequence` is the loop itself, proved to compute that function and to
  keep the matcher's promises.
- **Graphs and matchings** (`graph.dfy`, `matching.dfy`): a graph is its edge
  set, a map from an oriented `(left, right)` pair to an opaque weight. A
  matching is the ordered list of accepted weighted edges.

What is proved:
- the matching never repeats a left or a right node;
- the free sets are always the original sides minus the matched nodes;
- there is one snapshot to start with and one per accepted edge;
- the first snapshot is the input graph;
- every snapshot is the input graph minus all edges touching a matched node;
- each snapshot is a subgraph of the one before, with weights unchanged;
- the matching is a subsequence of the shuffled list, and each accepted edge
  carries its own weight;
- after the walk, no edge of the list has both endpoints free (maximality);
- on a complete bipartite graph, one side is fully matched, the matching has
  `min(|L|, |R|)` edges and the last snapshot is empty. For the K4,4 input this
  means 4 edges covering all eight nodes.

## Model

| member | source | states |
|---|---|---|
| `Graphs.RemoveIncident` | exercise_c.py:41-43 | The result keeps only edges of the input, with their weights. No remaining edge touches `u` or `v`. Every edge touching neither of them survives. |
| `Graphs.RemoveIncidentWithout` | exercise_c.py:42-43 | Removing the edges at `u` and `v` from "g without the nodes taken so far" gives "g without the taken nodes plus `u` and `v`", so removals accumulate. |
| `Graphs.DistinctElements` | exercise_c.py:33-34 | A list of distinct labels, turned into a set, has exactly `\|nodes\|` elements. |
| `Matchings.ValidMatchingSizes` | exercise_c.py:54-55 | A valid matching uses as many distinct left nodes, right nodes and `(u, v)` pairs as it has entries. The pair projection the driver compares runs by drops nothing. |
| `Greedy.Initial` | exercise_c.py:31-34 | No contract. This is the reference definition of the starting state that the lemmas are about: the working copy, the one-snapshot history, the empty matching and both sides free. |
| `Greedy.Step` | exercise_c.py:38-46 | No contract. This is the reference definition of one loop iteration that the lemmas are about: accept the edge when both endpoints are free, otherwise leave the state unchanged. |
| `Greedy.Greedy` | exercise_c.py:30-47 | No contract. This is the reference definition of the whole run, `Step` folded over the shuffled list, which the lemmas and `GreedySequence` are about. |
| `Matchings.PairsOf` | exercise_c.py:54-55 | No contract. This is the reference definition of the projection of a matching to its set of `(u, v)` pairs, which `ValidMatchingSizes` is about. |
| `Greedy.GreedyFreeSets` | exercise_c.py:33-46 | After any prefix of the walk, the free sets equal the original sides minus the matched left and right nodes. The matching repeats no left node and no right node and uses only nodes of the two sides. |
| `Greedy.AcceptedSnapshot` | exercise_c.py:42-44 | The snapshot taken on acceptance is the input graph without every edge at any node matched so far, the new pair included. |
| `Greedy.GreedySnapshots` | exercise_c.py:31-44 | There are exactly `\|matching\| + 1` snapshots and the first is the input graph. Snapshot `i` is the input graph without the edges touching the first `i` matched pairs. The working graph is the last snapshot. |
| `Greedy.GreedyLastSnapshot` | exercise_c.py:42-47 | The snapshot list ends with the working graph, which is the input graph without every edge at a matched node. |
| `Greedy.GreedySnapshotsShrink` | exercise_c.py:42-44 | Each snapshot is a subgraph of the previous one: edges are only removed and the surviving weights are unchanged. |
| `Greedy.GreedyInWalkOrder` | exercise_c.py:35-40 | The matching is a subsequence of the shuffled edge list, kept in walk order. |
| `Greedy.AcceptedWeights` | exercise_c.py:35-40 | When the walk is the graph's edge list, each accepted triple is an edge of the graph carrying exactly that edge's weight. |
| `Greedy.GreedyMaximal` | exercise_c.py:38-39 | After the walk, no walked edge has both endpoints still free. |
| `Greedy.GreedyCompleteExhaustsSide` | exercise_c.py:38-39 | On a complete bipartite graph, after walking its whole edge list, the left side or the right side has no free node left. |
| `Greedy.CompleteWithoutSide` | exercise_c.py:42-43 | Once one side of a complete bipartite graph is fully matched, removing the edges at matched nodes leaves no edge. |
| `Greedy.GreedyCompleteSaturates` | exercise_c.py:30-47 | On a complete bipartite graph with its full edge list, one side is fully matched and the matching has `min(\|L\|, \|R\|)` edges. The last snapshot has no edges. |
| `Greedy.GreedyK44` | exercise_c.py:14-47 | With four distinct labels per side and the complete edge set, every run matches exactly 4 edges. Their left and right endpoints are all of `L` and all of `R`. There are 5 snapshots and the last one is empty. |
| `Greedy.GreedySequence` | exercise_c.py:30-47 | The loop returns exactly the matching and snapshot list of the run `Greedy` over the shuffled list. It also states that the matching is valid and that there are `\|matching\| + 1` snapshots, the first being the input graph. Each snapshot is the input minus edges at matched nodes and a subgraph of the previous one. The matching is a subsequence of the walk with the graph's weights, and no walked edge has both endpoints free at the end. |
| `Builder.FillColumn` | exercise_c.py:18-19 | Pairs every left node with right node `r` under the weight at its position. Earlier edges keep their weights. The map gains exactly `\|left\|` edges. |
| `Builder.FillStep` | exercise_c.py:18-19 | One inner-loop step adds the edge from the next left node to `r` with its weight. All earlier edges and weights are kept. |
| `Builder.ProductSize` | exercise_c.py:14-19 | Over distinct labels, the pairs from all left nodes to the first `j` right nodes are `j * \|left\|` distinct edges. This gives the 16 keys of the 4×4 map. |
| `Builder.BuildEdgeWeights` | exercise_c.py:14-26 | The edge map is the complete bipartite product `left × right`, with `\|left\| * \|right\|` edges (16 for 4×4). The edge `(left[i], right[j])` carries weight `weights[j][i]`. |

## Left out

- Weight normalisation (exercise_c.py:16-19) is not modelled: the random draws, their sum, the division `x / total` and the `ZeroDivisionError` when every draw for a right node is zero. This is floating-point arithmetic. Weights are opaque `real` values handed to the builder as `weights[j][i]` and never inspected afterwards.
- Randomness is not modelled: `random.seed`, the `random.sample` of the node labels and `random.shuffle` of the edge list (exercise_c.py:7, 10-11, 36). The node lists and the shuffled edge list are inputs. `IsEdgeList` requires the shuffled list to be a permutation of the graph's edges.
- networkx is not part of this model. A graph is its edge map from an oriented `(left, right)` pair to a weight. networkx reports every edge left endpoint first because the left nodes were added first (exercise_c.py:23-24), so the oriented pair is the edge as the matcher sees it. This identifies a networkx edge with one map key only when no label is on both sides. The two label pools are disjoint (exercise_c.py:10-11), so `(a, b)` and `(b, a)` never both occur. `IsCompleteBipartite` does not itself require disjoint sides. The node set and its `bipartite` attribute never change in the matcher and are not represented. `G.copy()` becomes value semantics: the caller's graph cannot be changed, and each snapshot is an independent value.
- `remove_edges_from` over the list `to_remove` (exercise_c.py:42-43) is modelled as map-key difference with the union of the edges at `u` and at `v`. The edge `(u, v)` appears twice in that list and is removed once.
- The driver loop that re-runs the matcher until two runs give different pair sets (exercise_c.py:52-57) is not modelled, because its termination depends on randomness. Only the projection of a matching to its set of pairs, `PairsOf`, is modelled.
- Printing and drawing (exercise_c.py:59-84) are output only and are not modelled.
- Builder.BuildEdgeWeights: requires distinct labels on each side. The labels come from `random.sample`, so they are always distinct. The overwrite behaviour of the dictionary for a repeated label is not modelled.
- The matcher does no input validation in the code. It does not reject a graph that is not bipartite or that has no edges; such a graph simply yields a short or empty matching. The model follows the code and has no invalid-graph error.
