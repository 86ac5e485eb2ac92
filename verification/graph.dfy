/**
 The weighted bipartite graph that the builder produces and the greedy matcher
 consumes. A graph is its edge set: a map from an oriented (left, right) pair to
 the edge's weight. Weights are carried along and never inspected.
 */
module Graphs {

  type Node = string

  /** The weight of an edge; the matcher never computes with it. */
  type Weight = real

  /** An edge as an oriented pair: left endpoint first, right endpoint second. */
  type Pair = (Node, Node)

  type Graph = map<Pair, Weight>

  /** An edge together with its weight, as the matcher walks and records it. */
  datatype WeightedEdge = WeightedEdge(u: Node, v: Node, w: Weight)

  function PairOf(e: WeightedEdge): Pair
  {
    (e.u, e.v)
  }

  /** The set of labels occurring in a node list. */
  function Elements(nodes: seq<Node>): set<Node>
  {
    set x | x in nodes
  }

  /** No two entries of `s` are equal. */
  predicate Distinct<T(==)>(s: seq<T>)
  {
    forall i, j :: 0 <= i < j < |s| ==> s[i] != s[j]
  }

  /** Edge `p` has `x` as one of its endpoints. */
  predicate Incident(p: Pair, x: Node)
  {
    p.0 == x || p.1 == x
  }

  /** The edges of `g` at node `x`, in either position. */
  function IncidentEdges(g: Graph, x: Node): set<Pair>
  {
    set p | p in g && Incident(p, x)
  }

  /** `h` is `g` with some edges removed and the weights of the others untouched. */
  predicate IsSubgraph(h: Graph, g: Graph)
  {
    forall p :: p in h ==> p in g && h[p] == g[p]
  }

  /**
   Deletes every edge incident to `u` or to `v`: the edges at `u` and the edges
   at `v` are collected and removed together; an edge listed twice is removed once.
   */
  function RemoveIncident(g: Graph, u: Node, v: Node): (r: Graph)
    ensures IsSubgraph(r, g)
    ensures forall p :: p in r ==> !Incident(p, u) && !Incident(p, v)
    ensures forall p :: p in g && !Incident(p, u) && !Incident(p, v) ==> p in r
  {
    g - (IncidentEdges(g, u) + IncidentEdges(g, v))
  }

  /** `g` without every edge that touches a node of `taken`. */
  function Without(g: Graph, taken: set<Node>): Graph
  {
    map p | p in g && p.0 !in taken && p.1 !in taken :: g[p]
  }

  /** Removing the edges at `u` and `v` from `g` without `taken` is `g` without `taken + {u, v}`. */
  lemma RemoveIncidentWithout(g: Graph, taken: set<Node>, u: Node, v: Node)
    ensures RemoveIncident(Without(g, taken), u, v) == Without(g, taken + {u, v})
  {
    var lhs := RemoveIncident(Without(g, taken), u, v);
    var rhs := Without(g, taken + {u, v});
    assert lhs.Keys == rhs.Keys;
  }

  /** `g` holds exactly one edge for every pair in `left × right`. */
  ghost predicate IsCompleteBipartite(g: Graph, left: seq<Node>, right: seq<Node>)
  {
    forall p :: p in g <==> p.0 in left && p.1 in right
  }

  /**
   `edges` lists every edge of `g` exactly once, with its weight, in some order:
   a permutation of the graph's edge list.
   */
  ghost predicate IsEdgeList(edges: seq<WeightedEdge>, g: Graph)
  {
    && (forall i :: 0 <= i < |edges| ==> PairOf(edges[i]) in g && g[PairOf(edges[i])] == edges[i].w)
    && (forall i, j :: 0 <= i < j < |edges| ==> PairOf(edges[i]) != PairOf(edges[j]))
    && (forall p :: p in g ==> exists i :: 0 <= i < |edges| && PairOf(edges[i]) == p)
  }

  /** Dropping the last entry of a duplicate-free list leaves one, without that entry. */
  lemma DistinctInit<T>(s: seq<T>)
    requires Distinct(s) && s != []
    ensures Distinct(s[..|s| - 1]) && s[|s| - 1] !in s[..|s| - 1]
  {
    var init := s[..|s| - 1];
    assert forall k :: 0 <= k < |init| ==> init[k] == s[k];
  }

  /** A duplicate-free list has as many elements as its length. */
  lemma {:induction false} DistinctElements(nodes: seq<Node>)
    requires Distinct(nodes)
    ensures |Elements(nodes)| == |nodes|
  {
    if nodes != [] {
      var init, last := nodes[..|nodes| - 1], nodes[|nodes| - 1];
      DistinctInit(nodes);
      DistinctElements(init);
      assert nodes == init + [last];
      assert Elements(nodes) == Elements(init) + {last};
    }
  }

  /** A subset is smaller by exactly what it leaves out, and equal when no smaller. */
  lemma SubsetCardinality<T>(a: set<T>, b: set<T>)
    requires a <= b
    ensures |b - a| == |b| - |a|
    ensures |a| == |b| ==> a == b
  {
    var c := b - a;
    assert b == a + c && a !! c;
    assert |a| == |b| ==> c == {};
  }
}
