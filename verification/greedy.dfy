/**
 The greedy sequential matcher. It walks a shuffled list of the graph's edges
 once and accepts an edge when both its endpoints are still free at the moment it
 is reached. On acceptance it records the edge, removes every edge at either
 endpoint from its private working graph, records a snapshot of that graph and
 marks both endpoints taken.

 `Greedy` states the run as a function of the prefix of the shuffled list walked
 so far; `GreedySequence` is the loop, proved to compute it.
 */
module Greedy {
  import opened Graphs
  import opened Matchings

  /** The matcher's working state between two edges of the walk. */
  datatype State = State(
    graph: Graph,                // the working copy of the input graph
    freeLeft: set<Node>,         // left nodes not yet matched
    freeRight: set<Node>,        // right nodes not yet matched
    matching: seq<WeightedEdge>, // accepted edges, in the order accepted
    sequence: seq<Graph>         // the initial graph, then one snapshot per accepted edge
  )

  function Initial(g: Graph, left: seq<Node>, right: seq<Node>): State
  {
    State(g, Elements(left), Elements(right), [], [g])
  }

  /** Considers one edge of the walk against the live free sets. */
  function Step(s: State, e: WeightedEdge): State
  {
    if e.u in s.freeLeft && e.v in s.freeRight then
      var g' := RemoveIncident(s.graph, e.u, e.v);
      State(g', s.freeLeft - {e.u}, s.freeRight - {e.v}, s.matching + [e], s.sequence + [g'])
    else
      s
  }

  /** The state after walking `edges` in order, starting from `g` with every node free. */
  function Greedy(g: Graph, left: seq<Node>, right: seq<Node>, edges: seq<WeightedEdge>): State
    decreases |edges|
  {
    if edges == [] then Initial(g, left, right)
    else Step(Greedy(g, left, right, edges[..|edges| - 1]), edges[|edges| - 1])
  }

  /**
   The free sets are the original sides minus the nodes already matched, and
   the matching never repeats a left or a right node.
   */
  lemma {:induction false} GreedyFreeSets(g: Graph, left: seq<Node>, right: seq<Node>, edges: seq<WeightedEdge>)
    ensures var s := Greedy(g, left, right, edges);
      && s.freeLeft == Elements(left) - Lefts(s.matching)
      && s.freeRight == Elements(right) - Rights(s.matching)
      && Lefts(s.matching) <= Elements(left)
      && Rights(s.matching) <= Elements(right)
      && ValidMatching(s.matching)
    decreases |edges|
  {
    if edges != [] {
      var e := edges[|edges| - 1];
      var s := Greedy(g, left, right, edges[..|edges| - 1]);
      GreedyFreeSets(g, left, right, edges[..|edges| - 1]);
      if e.u in s.freeLeft && e.v in s.freeRight {
        LeftsAppend(s.matching, e);
        var m := s.matching + [e];
        forall i, j | 0 <= i < j < |m| ensures m[i].u != m[j].u && m[i].v != m[j].v {
          if j == |m| - 1 {
            assert s.matching[i] in s.matching;
          }
        }
      }
    }
  }

  /**
   The snapshots of `s` as the matcher keeps them: one to start with and one per
   accepted edge, the i-th being `g` without every edge that touches a node of
   the first i accepted edges, and the last being the working graph.
   */
  ghost predicate SnapshotsAgree(g: Graph, s: State)
  {
    && |s.sequence| == |s.matching| + 1
    && s.graph == s.sequence[|s.sequence| - 1]
    && forall i :: 0 <= i < |s.sequence| ==> s.sequence[i] == Without(g, Endpoints(s.matching[..i]))
  }

  /** The snapshot taken on accepting `e` is `g` without every node matched so far. */
  lemma AcceptedSnapshot(g: Graph, s: State, e: WeightedEdge)
    requires SnapshotsAgree(g, s)
    ensures RemoveIncident(s.graph, e.u, e.v) == Without(g, Endpoints(s.matching + [e]))
  {
    assert s.matching[..|s.matching|] == s.matching;
    LeftsAppend(s.matching, e);
    assert Endpoints(s.matching + [e]) == Endpoints(s.matching) + {e.u, e.v};
    RemoveIncidentWithout(g, Endpoints(s.matching), e.u, e.v);
  }

  lemma StepKeepsSnapshots(g: Graph, s: State, e: WeightedEdge)
    requires SnapshotsAgree(g, s)
    ensures SnapshotsAgree(g, Step(s, e))
  {
    if e.u in s.freeLeft && e.v in s.freeRight {
      var g' := RemoveIncident(s.graph, e.u, e.v);
      var m := s.matching + [e];
      var sq := s.sequence + [g'];
      forall i | 0 <= i < |sq| ensures sq[i] == Without(g, Endpoints(m[..i])) {
        if i < |sq| - 1 {
          assert sq[i] == s.sequence[i] && m[..i] == s.matching[..i];
        } else {
          assert sq[i] == g' && m[..i] == m;
          AcceptedSnapshot(g, s, e);
        }
      }
      assert Step(s, e) == State(g', s.freeLeft - {e.u}, s.freeRight - {e.v}, m, sq);
    }
  }

  /**
   One snapshot to start with and one per accepted edge; the first is the input
   graph, and the i-th is the input graph without every edge that touches a node
   of the first i accepted edges.
   */
  lemma {:induction false} GreedySnapshots(g: Graph, left: seq<Node>, right: seq<Node>, edges: seq<WeightedEdge>)
    ensures var s := Greedy(g, left, right, edges);
      && SnapshotsAgree(g, s)
      && s.sequence[0] == g
    decreases |edges|
  {
    if edges == [] {
      assert Without(g, {}) == g;
    } else {
      var s := Greedy(g, left, right, edges[..|edges| - 1]);
      GreedySnapshots(g, left, right, edges[..|edges| - 1]);
      StepKeepsSnapshots(g, s, edges[|edges| - 1]);
    }
  }

  /** The last snapshot, which is also the working graph, lacks the edges at every matched node. */
  lemma GreedyLastSnapshot(g: Graph, left: seq<Node>, right: seq<Node>, edges: seq<WeightedEdge>)
    ensures var s := Greedy(g, left, right, edges);
      && |s.sequence| == |s.matching| + 1
      && s.sequence[|s.sequence| - 1] == s.graph == Without(g, Endpoints(s.matching))
  {
    var s := Greedy(g, left, right, edges);
    GreedySnapshots(g, left, right, edges);
    assert s.matching[..|s.sequence| - 1] == s.matching;
  }

  /** Each snapshot is a subgraph of the one before: edges only go, weights stay. */
  lemma {:induction false} GreedySnapshotsShrink(g: Graph, left: seq<Node>, right: seq<Node>, edges: seq<WeightedEdge>)
    ensures var s := Greedy(g, left, right, edges);
      forall i :: 0 < i < |s.sequence| ==> IsSubgraph(s.sequence[i], s.sequence[i - 1])
    decreases |edges|
  {
    if edges != [] {
      GreedySnapshotsShrink(g, left, right, edges[..|edges| - 1]);
      GreedySnapshots(g, left, right, edges[..|edges| - 1]);
    }
  }

  /** The accepted edges are a subsequence of the walk, kept in walk order. */
  lemma {:induction false} GreedyInWalkOrder(g: Graph, left: seq<Node>, right: seq<Node>, edges: seq<WeightedEdge>)
    ensures IsSubsequence(Greedy(g, left, right, edges).matching, edges)
    decreases |edges|
  {
    if edges != [] {
      var e := edges[|edges| - 1];
      var s := Greedy(g, left, right, edges[..|edges| - 1]);
      GreedyInWalkOrder(g, left, right, edges[..|edges| - 1]);
      if e.u in s.freeLeft && e.v in s.freeRight {
        assert (s.matching + [e])[..|s.matching|] == s.matching;
      }
    }
  }

  /** When the walk is the graph's edge list, each accepted edge carries its weight in the graph. */
  lemma AcceptedWeights(g: Graph, left: seq<Node>, right: seq<Node>, edges: seq<WeightedEdge>)
    requires IsEdgeList(edges, g)
    ensures var m := Greedy(g, left, right, edges).matching;
      forall k :: 0 <= k < |m| ==> PairOf(m[k]) in g && g[PairOf(m[k])] == m[k].w
  {
    var m := Greedy(g, left, right, edges).matching;
    GreedyInWalkOrder(g, left, right, edges);
    SubsequenceMembers(m, edges);
    forall k | 0 <= k < |m| ensures PairOf(m[k]) in g && g[PairOf(m[k])] == m[k].w {
      assert m[k] in edges;
    }
  }

  /** Maximality: after the walk, no walked edge has both endpoints still free. */
  lemma {:induction false} GreedyMaximal(g: Graph, left: seq<Node>, right: seq<Node>, edges: seq<WeightedEdge>)
    ensures var s := Greedy(g, left, right, edges);
      forall e :: e in edges ==> !(e.u in s.freeLeft && e.v in s.freeRight)
    decreases |edges|
  {
    if edges != [] {
      var last := edges[|edges| - 1];
      GreedyMaximal(g, left, right, edges[..|edges| - 1]);
      forall e | e in edges
        ensures var s := Greedy(g, left, right, edges); !(e.u in s.freeLeft && e.v in s.freeRight)
      {
        if e != last {
          var k :| 0 <= k < |edges| && edges[k] == e;
          assert edges[..|edges| - 1][k] == e;
        }
      }
    }
  }

  /**
   On a complete bipartite graph, once the whole edge list is walked no left
   node and right node are both still free: their edge was walked and refused.
   */
  lemma GreedyCompleteExhaustsSide(g: Graph, left: seq<Node>, right: seq<Node>, edges: seq<WeightedEdge>)
    requires IsCompleteBipartite(g, left, right)
    requires IsEdgeList(edges, g)
    ensures var s := Greedy(g, left, right, edges); s.freeLeft == {} || s.freeRight == {}
  {
    var s := Greedy(g, left, right, edges);
    GreedyFreeSets(g, left, right, edges);
    GreedyMaximal(g, left, right, edges);
    forall l, r | l in left && r in right ensures !(l in s.freeLeft && r in s.freeRight) {
      assert (l, r) in g;
      var i :| 0 <= i < |edges| && PairOf(edges[i]) == (l, r);
      assert edges[i] in edges;
    }
  }

  /** Once every node of one side is matched, no edge of a complete bipartite graph is left. */
  lemma CompleteWithoutSide(g: Graph, left: seq<Node>, right: seq<Node>, m: seq<WeightedEdge>)
    requires IsCompleteBipartite(g, left, right)
    requires Lefts(m) == Elements(left) || Rights(m) == Elements(right)
    ensures Without(g, Endpoints(m)) == map[]
  {
    assert Without(g, Endpoints(m)).Keys == {};
  }

  /**
   When the free nodes are the unmatched ones and one side has none left, the
   matching uses up that side, and it has as many edges as the smaller side.
   */
  lemma UsedUpSide(freeLeft: set<Node>, freeRight: set<Node>, l: set<Node>, r: set<Node>, m: seq<WeightedEdge>)
    requires ValidMatching(m) && Lefts(m) <= l && Rights(m) <= r
    requires freeLeft == l - Lefts(m) && freeRight == r - Rights(m)
    requires freeLeft == {} || freeRight == {}
    ensures Lefts(m) == l || Rights(m) == r
    ensures |m| == (if |l| <= |r| then |l| else |r|)
  {
    if freeLeft == {} {
      forall x | x in l ensures x in Lefts(m) {
        assert x !in freeLeft;
      }
    } else {
      forall x | x in r ensures x in Rights(m) {
        assert x !in freeRight;
      }
    }
    SaturatedSize(m, l, r);
  }

  /** A valid matching that uses up one side has as many edges as the smaller side. */
  lemma SaturatedSize(m: seq<WeightedEdge>, l: set<Node>, r: set<Node>)
    requires ValidMatching(m) && Lefts(m) <= l && Rights(m) <= r
    requires Lefts(m) == l || Rights(m) == r
    ensures |m| == (if |l| <= |r| then |l| else |r|)
  {
    ValidMatchingSizes(m);
    SubsetCardinality(Lefts(m), l);
    SubsetCardinality(Rights(m), r);
  }

  /**
   On a complete bipartite graph, walking the whole edge list exhausts one side:
   the matching has min(|L|, |R|) edges and the last snapshot has no edges.
   */
  lemma GreedyCompleteSaturates(g: Graph, left: seq<Node>, right: seq<Node>, edges: seq<WeightedEdge>)
    requires IsCompleteBipartite(g, left, right)
    requires IsEdgeList(edges, g)
    ensures var s := Greedy(g, left, right, edges);
      && |s.sequence| == |s.matching| + 1
      && (Lefts(s.matching) == Elements(left) || Rights(s.matching) == Elements(right))
      && |s.matching| == (if |Elements(left)| <= |Elements(right)| then |Elements(left)| else |Elements(right)|)
      && s.sequence[|s.sequence| - 1] == map[]
  {
    var s := Greedy(g, left, right, edges);
    GreedyCompleteExhaustsSide(g, left, right, edges);
    GreedyFreeSets(g, left, right, edges);
    UsedUpSide(s.freeLeft, s.freeRight, Elements(left), Elements(right), s.matching);
    GreedyLastSnapshot(g, left, right, edges);
    CompleteWithoutSide(g, left, right, s.matching);
  }

  /**
   The K4,4 scenario: with four distinct labels on each side, every run matches
   all four left and all four right nodes and ends with an empty graph.
   */
  lemma GreedyK44(g: Graph, left: seq<Node>, right: seq<Node>, edges: seq<WeightedEdge>)
    requires |left| == 4 && |right| == 4 && Distinct(left) && Distinct(right)
    requires IsCompleteBipartite(g, left, right)
    requires IsEdgeList(edges, g)
    ensures var s := Greedy(g, left, right, edges);
      && |s.matching| == 4
      && |s.sequence| == 5
      && Lefts(s.matching) == Elements(left)
      && Rights(s.matching) == Elements(right)
      && s.sequence[|s.sequence| - 1] == map[]
  {
    var s := Greedy(g, left, right, edges);
    DistinctElements(left);
    DistinctElements(right);
    GreedyCompleteSaturates(g, left, right, edges);
    GreedyFreeSets(g, left, right, edges);
    ValidMatchingSizes(s.matching);
    SubsetCardinality(Lefts(s.matching), Elements(left));
    SubsetCardinality(Rights(s.matching), Elements(right));
  }

  /**
   The matcher as the loop it is. `edges` is the shuffled edge list of `g`; the
   caller's `g` is a value, so only the local working copy changes.
   */
  method GreedySequence(g: Graph, left: seq<Node>, right: seq<Node>, edges: seq<WeightedEdge>)
    returns (matching: seq<WeightedEdge>, sequence: seq<Graph>)
    requires IsEdgeList(edges, g)
    ensures var s := Greedy(g, left, right, edges); matching == s.matching && sequence == s.sequence
    ensures ValidMatching(matching)
    ensures Lefts(matching) <= Elements(left) && Rights(matching) <= Elements(right)
    ensures |sequence| == |matching| + 1 && sequence[0] == g
    ensures forall i :: 0 <= i < |sequence| ==> sequence[i] == Without(g, Endpoints(matching[..i]))
    ensures forall i :: 0 < i < |sequence| ==> IsSubgraph(sequence[i], sequence[i - 1])
    ensures IsSubsequence(matching, edges)
    ensures forall k :: 0 <= k < |matching| ==> PairOf(matching[k]) in g && g[PairOf(matching[k])] == matching[k].w
    ensures forall e :: e in edges ==>
      !(e.u in Elements(left) - Lefts(matching) && e.v in Elements(right) - Rights(matching))
  {
    var gCurr := g;
    sequence := [gCurr];
    var freeLeft := Elements(left);
    var freeRight := Elements(right);
    matching := [];
    for i := 0 to |edges|
      invariant State(gCurr, freeLeft, freeRight, matching, sequence) == Greedy(g, left, right, edges[..i])
    {
      var e := edges[i];
      assert edges[..i + 1][..i] == edges[..i];
      if e.u in freeLeft && e.v in freeRight {
        matching := matching + [e];
        gCurr := RemoveIncident(gCurr, e.u, e.v);
        sequence := sequence + [gCurr];
        freeLeft := freeLeft - {e.u};
        freeRight := freeRight - {e.v};
      }
    }
    assert edges[..|edges|] == edges;
    GreedyFreeSets(g, left, right, edges);
    GreedySnapshots(g, left, right, edges);
    GreedySnapshotsShrink(g, left, right, edges);
    GreedyInWalkOrder(g, left, right, edges);
    AcceptedWeights(g, left, right, edges);
    GreedyMaximal(g, left, right, edges);
  }
}
