/**
 A matching as the greedy matcher returns it: an ordered list of accepted
 weighted edges, together with the views of it that its invariants speak of.
 */
module Matchings {
  import opened Graphs

  /** The left endpoints used by `m`. */
  function Lefts(m: seq<WeightedEdge>): set<Node>
  {
    set e | e in m :: e.u
  }

  /** The right endpoints used by `m`. */
  function Rights(m: seq<WeightedEdge>): set<Node>
  {
    set e | e in m :: e.v
  }

  /** Every node that `m` has matched, on either side. */
  function Endpoints(m: seq<WeightedEdge>): set<Node>
  {
    Lefts(m) + Rights(m)
  }

  /** No left node and no right node appears in more than one entry. */
  predicate ValidMatching(m: seq<WeightedEdge>)
  {
    forall i, j :: 0 <= i < j < |m| ==> m[i].u != m[j].u && m[i].v != m[j].v
  }

  /**
   The set of (left, right) pairs of a matching, weights dropped: the
   projection the driver compares two runs by.
   */
  function PairsOf(m: seq<WeightedEdge>): set<Pair>
  {
    set e | e in m :: PairOf(e)
  }

  lemma LeftsAppend(m: seq<WeightedEdge>, e: WeightedEdge)
    ensures Lefts(m + [e]) == Lefts(m) + {e.u}
    ensures Rights(m + [e]) == Rights(m) + {e.v}
    ensures PairsOf(m + [e]) == PairsOf(m) + {PairOf(e)}
  {
    assert forall x :: x in m + [e] <==> x in m || x == e;
  }

  /** The last entry of a valid matching shares no endpoint with the entries before it. */
  lemma LastIsFresh(m: seq<WeightedEdge>)
    requires ValidMatching(m) && m != []
    ensures var init, last := m[..|m| - 1], m[|m| - 1];
      last.u !in Lefts(init) && last.v !in Rights(init) && PairOf(last) !in PairsOf(init)
  {
    var init, last := m[..|m| - 1], m[|m| - 1];
    forall e | e in init ensures e.u != last.u && e.v != last.v {
      var k :| 0 <= k < |init| && init[k] == e;
      assert m[k] == e;
    }
  }

  /**
   A valid matching uses as many distinct left nodes, as many distinct right
   nodes and as many distinct pairs as it has entries.
   */
  lemma {:induction false} ValidMatchingSizes(m: seq<WeightedEdge>)
    requires ValidMatching(m)
    ensures |Lefts(m)| == |m| && |Rights(m)| == |m| && |PairsOf(m)| == |m|
  {
    if m != [] {
      var init, last := m[..|m| - 1], m[|m| - 1];
      assert ValidMatching(init);
      ValidMatchingSizes(init);
      LastIsFresh(m);
      assert m == init + [last];
      LeftsAppend(init, last);
    }
  }

  /** `xs` is obtained from `ys` by deleting entries, keeping the order of the rest. */
  ghost predicate IsSubsequence<T>(xs: seq<T>, ys: seq<T>)
    decreases |ys|
  {
    if ys == [] then xs == []
    else
      || (xs != [] && xs[|xs| - 1] == ys[|ys| - 1] && IsSubsequence(xs[..|xs| - 1], ys[..|ys| - 1]))
      || IsSubsequence(xs, ys[..|ys| - 1])
  }

  /** Every entry of a subsequence is an entry of the sequence it was taken from. */
  lemma {:induction false} SubsequenceMembers<T>(xs: seq<T>, ys: seq<T>)
    requires IsSubsequence(xs, ys)
    ensures forall x :: x in xs ==> x in ys
  {
    if ys != [] {
      var ys' := ys[..|ys| - 1];
      if xs != [] && xs[|xs| - 1] == ys[|ys| - 1] && IsSubsequence(xs[..|xs| - 1], ys') {
        SubsequenceMembers(xs[..|xs| - 1], ys');
        assert xs == xs[..|xs| - 1] + [xs[|xs| - 1]];
        assert ys == ys' + [ys[|ys| - 1]];
      } else {
        SubsequenceMembers(xs, ys');
        assert ys == ys' + [ys[|ys| - 1]];
      }
    }
  }
}
