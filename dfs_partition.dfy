/** The DFS edge partition (dfs.py): the depth-first traversal's edges are split into
    the "optimizable" edges, each of which reaches a node not seen before, and the
    residual graph edges that have neither orientation among them. The traversal
    itself (networkx's dfs_edges) is an input sequence. */
module DfsPartition {
  import opened Gates

  /** Reference rule: walking the traversal, an edge is kept exactly when its second
      endpoint is not yet an endpoint of an edge kept before it. */
  function OptEdges(dfsEdges: seq<Edge>): (opt: seq<Edge>)
  {
    if dfsEdges == [] then []
    else
      var kept := OptEdges(dfsEdges[..|dfsEdges| - 1]);
      var e := dfsEdges[|dfsEdges| - 1];
      if e.1 in NodesOf(kept) then kept else kept + [e]
  }

  /** _get_opt_edges: the `visited` list and the `to_opt` list grown by the two
      successive tests of the source. The second test can never accept an edge that the
      first one has just accepted, and the two together keep exactly the edges whose
      second endpoint is unvisited. */
  method GetOptEdges(dfsEdges: seq<Edge>) returns (toOpt: seq<Edge>)
    ensures toOpt == OptEdges(dfsEdges)
    ensures IsSubseq(toOpt, dfsEdges)
  {
    var visited: seq<Node> := [];
    toOpt := [];
    for i := 0 to |dfsEdges|
      invariant toOpt == OptEdges(dfsEdges[..i])
      invariant IsSubseq(toOpt, dfsEdges[..i])
      invariant forall x :: x in visited <==> x in NodesOf(toOpt)
      invariant NoSelfLoops(dfsEdges) ==> Distinct(visited)
    {
      var edges := dfsEdges[i];
      assert edges in dfsEdges;
      OptEdgesStep(dfsEdges, i);
      ghost var before := toOpt;
      ghost var seen := visited;
      NodesOfAppend(before, edges);
      if edges.0 !in visited && edges.1 !in visited {
        toOpt := toOpt + [edges];
        visited := visited + [edges.0];
        DistinctAppend(seen, edges.0);
        visited := visited + [edges.1];
        DistinctAppend(seen + [edges.0], edges.1);
      }
      if edges.0 in visited && edges.1 !in visited {
        assert toOpt == before;
        toOpt := toOpt + [edges];
        visited := visited + [edges.1];
        DistinctAppend(seen, edges.1);
      }
    }
    assert dfsEdges[..|dfsEdges|] == dfsEdges;
  }

  /** One step of the reference rule, with the subsequence fact that goes with it. */
  lemma OptEdgesStep(dfsEdges: seq<Edge>, i: nat)
    requires i < |dfsEdges|
    requires IsSubseq(OptEdges(dfsEdges[..i]), dfsEdges[..i])
    ensures OptEdges(dfsEdges[..i + 1]) ==
              if dfsEdges[i].1 in NodesOf(OptEdges(dfsEdges[..i])) then OptEdges(dfsEdges[..i])
              else OptEdges(dfsEdges[..i]) + [dfsEdges[i]]
    ensures IsSubseq(OptEdges(dfsEdges[..i + 1]), dfsEdges[..i + 1])
  {
    assert dfsEdges[..i + 1][..i] == dfsEdges[..i];
    assert dfsEdges[..i + 1] == dfsEdges[..i] + [dfsEdges[i]];
    if dfsEdges[i].1 in NodesOf(OptEdges(dfsEdges[..i])) {
      SubseqExtend(OptEdges(dfsEdges[..i]), dfsEdges[..i], dfsEdges[i]);
    } else {
      SubseqAppendBoth(OptEdges(dfsEdges[..i]), dfsEdges[..i], dfsEdges[i]);
    }
  }

  /** _get_no_opt_edges: the graph's edges, in their order, that have neither orientation
      among the optimizable edges. Every graph edge is either residual or (in some
      orientation) optimizable, and never both. */
  method GetNoOptEdges(graphEdges: seq<Edge>, optEdges: seq<Edge>) returns (noOptEdges: seq<Edge>)
    ensures IsSubseq(noOptEdges, graphEdges)
    ensures forall e :: e in noOptEdges <==> e in graphEdges && e !in optEdges && Flipped(e) !in optEdges
  {
    noOptEdges := [];
    for i := 0 to |graphEdges|
      invariant IsSubseq(noOptEdges, graphEdges[..i])
      invariant forall e :: e in noOptEdges <==> e in graphEdges[..i] && e !in optEdges && Flipped(e) !in optEdges
    {
      var edge := graphEdges[i];
      assert graphEdges[..i + 1] == graphEdges[..i] + [edge];
      if (edge.0, edge.1) !in optEdges && (edge.1, edge.0) !in optEdges {
        SubseqAppendBoth(noOptEdges, graphEdges[..i], edge);
        noOptEdges := noOptEdges + [edge];
      } else {
        SubseqExtend(noOptEdges, graphEdges[..i], edge);
      }
    }
    assert graphEdges[..|graphEdges|] == graphEdges;
  }

  /** Each optimizable edge reaches a node that no earlier optimizable edge touches, so
      the optimizable edges form a forest and their second endpoints are pairwise distinct. */
  lemma {:induction false} OptEdgesReachNewNodes(dfsEdges: seq<Edge>)
    ensures forall j :: 0 <= j < |OptEdges(dfsEdges)| ==>
              OptEdges(dfsEdges)[j].1 !in NodesOf(OptEdges(dfsEdges)[..j])
  {
    if dfsEdges != [] {
      var front := dfsEdges[..|dfsEdges| - 1];
      OptEdgesReachNewNodes(front);
      var kept := OptEdges(front);
      var opt := OptEdges(dfsEdges);
      forall j | 0 <= j < |opt| ensures opt[j].1 !in NodesOf(opt[..j]) {
        if j < |kept| {
          assert opt[..j] == kept[..j];
        } else {
          assert opt[..j] == kept;
        }
      }
    }
  }

  /** Consequence: no two optimizable edges share their second endpoint. */
  lemma OptTargetsDistinct(dfsEdges: seq<Edge>)
    ensures forall i, j :: 0 <= i < j < |OptEdges(dfsEdges)| ==>
              OptEdges(dfsEdges)[i].1 != OptEdges(dfsEdges)[j].1
  {
    var opt := OptEdges(dfsEdges);
    OptEdgesReachNewNodes(dfsEdges);
    forall i, j | 0 <= i < j < |opt| ensures opt[i].1 != opt[j].1 {
      assert opt[i] in opt[..j];
      assert opt[i].1 in NodesOf(opt[..j]);
    }
  }

  /** Without self-loops the optimizable edges touch at least one more node than there
      are of them: the visited list outgrows the kept list. */
  lemma {:induction false} OptEdgesNodeCount(dfsEdges: seq<Edge>)
    requires NoSelfLoops(dfsEdges)
    ensures OptEdges(dfsEdges) != [] ==> |OptEdges(dfsEdges)| + 1 <= |NodesOf(OptEdges(dfsEdges))|
  {
    if dfsEdges != [] {
      var front := dfsEdges[..|dfsEdges| - 1];
      var e := dfsEdges[|dfsEdges| - 1];
      assert dfsEdges == front + [e];
      OptEdgesNodeCount(front);
      var kept := OptEdges(front);
      if e.1 !in NodesOf(kept) {
        NewTargetGrowsNodes(kept, e);
      }
    }
  }

  /** Adding a self-loop-free edge whose target is new adds at least one node, and two
      when the list was empty. */
  lemma NewTargetGrowsNodes(kept: seq<Edge>, e: Edge)
    requires e.0 != e.1 && e.1 !in NodesOf(kept)
    ensures |NodesOf(kept + [e])| >= |NodesOf(kept)| + (if kept == [] then 2 else 1)
  {
    NodesOfAppend(kept, e);
    var grown := NodesOf(kept) + {e.1};
    assert |grown| == |NodesOf(kept)| + 1;
    if kept == [] {
      assert NodesOf(kept + [e]) == {e.0, e.1};
    } else if e.0 in grown {
      assert NodesOf(kept + [e]) == grown;
    } else {
      assert NodesOf(kept + [e]) == grown + {e.0};
    }
  }

  /** The optimizable edges are traversal edges, kept in traversal order. */
  lemma {:induction false} OptEdgesSubseq(dfsEdges: seq<Edge>)
    ensures IsSubseq(OptEdges(dfsEdges), dfsEdges)
  {
    if dfsEdges != [] {
      var front := dfsEdges[..|dfsEdges| - 1];
      var e := dfsEdges[|dfsEdges| - 1];
      OptEdgesSubseq(front);
      assert front + [e] == dfsEdges;
      if e.1 in NodesOf(OptEdges(front)) {
        SubseqExtend(OptEdges(front), front, e);
      } else {
        SubseqAppendBoth(OptEdges(front), front, e);
      }
    }
  }
}
