/**
 The weighted bipartite graph builder: one weighted edge for every pair of a
 left node and a right node, filled in right node by right node. The node lists
 hold distinct labels on each side.
 */
module Builder {
  import opened Graphs

  /** The edges from every node of `left` to the right node `r`. */
  function Column(left: seq<Node>, r: Node): set<Pair>
  {
    set l | l in left :: (l, r)
  }

  /** The edges from every node of `left` to every node of `right`. */
  function Product(left: seq<Node>, right: seq<Node>): set<Pair>
  {
    set l, r | l in left && r in right :: (l, r)
  }

  /** Adding the column of `right[j]` to the first j columns gives the first j + 1. */
  lemma ProductAppend(left: seq<Node>, right: seq<Node>, j: nat)
    requires Distinct(right) && j < |right|
    ensures Product(left, right[..j + 1]) == Product(left, right[..j]) + Column(left, right[j])
    ensures forall p :: p in Product(left, right[..j]) ==> p.1 != right[j]
  {
    assert right[..j + 1] == right[..j] + [right[j]];
    assert right[j] !in right[..j];
  }

  /** Adding the edge at `left[i]` to the first i edges of a column gives the first i + 1. */
  lemma ColumnAppend(left: seq<Node>, r: Node, i: nat)
    requires Distinct(left) && i < |left|
    ensures Column(left[..i + 1], r) == Column(left[..i], r) + {(left[i], r)}
    ensures (left[i], r) !in Column(left[..i], r)
  {
    assert left[..i + 1] == left[..i] + [left[i]];
    assert left[i] !in left[..i];
  }

  /** One edge per left node: a column of distinct left nodes has |left| edges. */
  lemma {:induction false} ColumnSize(left: seq<Node>, r: Node)
    requires Distinct(left)
    ensures |Column(left, r)| == |left|
  {
    if left != [] {
      var init, last := left[..|left| - 1], left[|left| - 1];
      DistinctInit(left);
      ColumnSize(init, r);
      assert left == init + [last];
      assert Column(left, r) == Column(init, r) + {(last, r)};
    }
  }

  /**
   After i steps of the inner loop, `filled` holds the earlier columns unchanged
   plus the edges from the first i left nodes to `r` with their weights.
   */
  predicate FilledUpTo(filled: Graph, edgeWeights: Graph, left: seq<Node>, r: Node, column: seq<Weight>, i: nat)
  {
    && i <= |left| <= |column|
    && filled.Keys == edgeWeights.Keys + Column(left[..i], r)
    && (forall p :: p in edgeWeights ==> p in filled && filled[p] == edgeWeights[p])
    && (forall k :: 0 <= k < i ==> (left[k], r) in filled && filled[(left[k], r)] == column[k])
  }

  /** One step of the inner loop keeps `FilledUpTo`, one left node further on. */
  lemma FillStep(filled: Graph, edgeWeights: Graph, left: seq<Node>, r: Node, column: seq<Weight>, i: nat)
    requires Distinct(left) && i < |left|
    requires forall p :: p in edgeWeights ==> p.1 != r
    requires FilledUpTo(filled, edgeWeights, left, r, column, i)
    ensures FilledUpTo(filled[(left[i], r) := column[i]], edgeWeights, left, r, column, i + 1)
  {
    ColumnAppend(left, r, i);
  }

  /** Each further column of distinct labels adds |left| new edges. */
  lemma ProductGrows(left: seq<Node>, right: seq<Node>, j: nat)
    requires Distinct(left) && Distinct(right) && j < |right|
    ensures |Product(left, right[..j + 1])| == |Product(left, right[..j])| + |left|
  {
    var before, column := Product(left, right[..j]), Column(left, right[j]);
    ProductAppend(left, right, j);
    ColumnSize(left, right[j]);
    assert before !! column;
  }

  /** The first j columns of distinct labels hold j * |left| distinct edges. */
  lemma {:induction false} ProductSize(left: seq<Node>, right: seq<Node>, j: nat)
    requires Distinct(left) && Distinct(right) && j <= |right|
    ensures |Product(left, right[..j])| == j * |left|
  {
    if j > 0 {
      ProductSize(left, right, j - 1);
      ProductGrows(left, right, j - 1);
      assert j * |left| == (j - 1) * |left| + |left|;
    }
  }

  /**
   The inner loop: pairs every left node with right node `r` and stores the
   i-th left node's weight `column[i]` under `(left[i], r)`. Edges at other
   right nodes keep their weights, and the map grows by one edge per left node.
   */
  method FillColumn(edgeWeights: Graph, left: seq<Node>, r: Node, column: seq<Weight>)
    returns (filled: Graph)
    requires Distinct(left)
    requires |column| == |left|
    requires forall p :: p in edgeWeights ==> p.1 != r
    ensures filled.Keys == edgeWeights.Keys + Column(left, r)
    ensures forall p :: p in edgeWeights ==> p in filled && filled[p] == edgeWeights[p]
    ensures forall i :: 0 <= i < |left| ==> (left[i], r) in filled && filled[(left[i], r)] == column[i]
    ensures |filled| == |edgeWeights| + |left|
  {
    filled := edgeWeights;
    for i := 0 to |left|
      invariant FilledUpTo(filled, edgeWeights, left, r, column, i)
    {
      FillStep(filled, edgeWeights, left, r, column, i);
      filled := filled[(left[i], r) := column[i]];
    }
    assert left[..|left|] == left;
    ColumnSize(left, r);
    assert edgeWeights.Keys !! Column(left, r);
  }

  /**
   The outer loop: for each right node in turn, fill in its column of weights.
   The result is the complete bipartite edge map, |left| * |right| edges, each
   carrying the weight drawn for its pair.
   */
  method BuildEdgeWeights(left: seq<Node>, right: seq<Node>, weights: seq<seq<Weight>>)
    returns (edgeWeights: Graph)
    requires Distinct(left) && Distinct(right)
    requires |weights| == |right|
    requires forall j :: 0 <= j < |right| ==> |weights[j]| == |left|
    ensures IsCompleteBipartite(edgeWeights, left, right)
    ensures |edgeWeights| == |left| * |right|
    ensures forall i, j :: 0 <= i < |left| && 0 <= j < |right| ==> edgeWeights[(left[i], right[j])] == weights[j][i]
  {
    edgeWeights := map[];
    for j := 0 to |right|
      invariant edgeWeights.Keys == Product(left, right[..j])
      invariant forall i, j' :: 0 <= i < |left| && 0 <= j' < j ==>
        (left[i], right[j']) in edgeWeights && edgeWeights[(left[i], right[j'])] == weights[j'][i]
    {
      ProductAppend(left, right, j);
      edgeWeights := FillColumn(edgeWeights, left, right[j], weights[j]);
    }
    assert right[..|right|] == right;
    ProductSize(left, right, |right|);
  }
}
