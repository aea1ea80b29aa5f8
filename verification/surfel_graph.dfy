/**
 * Queries on a surfel graph: a graph whose nodes hold surfels and whose
 * edges hold per-frame labels.
 */
module SurfelGraph {
  import opened Wrappers
  import opened Sequences
  import opened Graph
  import opened Surfel
  import opened SurfelGraphEdge
  import FixedWidth

  type SurfelGraph = Graph<Surfel, EdgeLabels>

  /** Does node `x` hold a surfel seen in frame `f`? */
  predicate NodeInFrame(g: SurfelGraph, x: NodeId, f: nat)
  {
    x in g.nodes && IsInFrame(g.nodes[x], f)
  }

  /** The nodes of `ns` whose surfel is in frame `f`, in their order in `ns`. */
  function KeepInFrame(g: SurfelGraph, ns: seq<NodeId>, f: nat): (r: seq<NodeId>)
    ensures |r| <= |ns|
    ensures forall x :: x in r <==> x in ns && NodeInFrame(g, x, f)
  {
    if |ns| == 0 then []
    else
      var rest := KeepInFrame(g, ns[1..], f);
      assert forall x :: x in ns <==> x == ns[0] || x in ns[1..];
      if NodeInFrame(g, ns[0], f) then [ns[0]] + rest else rest
  }

  /** Keeping commutes with concatenation: the kept nodes stay in their original order. */
  lemma {:induction false} KeepInFrameAppend(g: SurfelGraph, a: seq<NodeId>, b: seq<NodeId>, f: nat)
    ensures KeepInFrame(g, a + b, f) == KeepInFrame(g, a, f) + KeepInFrame(g, b, f)
  {
    if |a| > 0 {
      assert (a + b)[1..] == a[1..] + b;
      KeepInFrameAppend(g, a[1..], b, f);
    } else {
      assert a + b == b;
    }
  }

  /** When every node is in the frame, nothing is dropped. */
  lemma {:induction false} KeepInFrameAll(g: SurfelGraph, ns: seq<NodeId>, f: nat)
    requires forall i :: 0 <= i < |ns| ==> NodeInFrame(g, ns[i], f)
    ensures KeepInFrame(g, ns, f) == ns
  {
    if |ns| > 0 {
      KeepInFrameAll(g, ns[1..], f);
    }
  }

  /**
   * `get_node_neighbours_in_frame`: the node's neighbours, in neighbour
   * order, restricted to those whose surfel is in the frame.
   */
  function NeighboursInFrame(g: SurfelGraph, n: NodeId, f: nat): (r: Result<seq<NodeId>, GraphError>)
    ensures r.Failure? <==> n !in g.nodes
    ensures r.Failure? ==> r.error == NoNode(n)
    ensures r.Success? ==> forall x :: x in r.value <==> HasEdge(g, n, x) && NodeInFrame(g, x, f)
    ensures r.Success? ==> r.value == KeepInFrame(g, Neighbours(g, n).value, f)
  {
    var ns :- Neighbours(g, n);
    Success(KeepInFrame(g, ns, f))
  }

  /**
   * In an undirected graph, the in-frame neighbours are the in-frame
   * forward targets followed by the in-frame inbound sources.
   */
  lemma NeighboursInFrameOrder(g: SurfelGraph, n: NodeId, f: nat)
    requires n in g.nodes && !g.directed
    ensures NeighboursInFrame(g, n, f).value
            == KeepInFrame(g, Targets(g.edges, n), f) + KeepInFrame(g, Sources(g.edges, n), f)
  {
    KeepInFrameAppend(g, Targets(g.edges, n), Sources(g.edges, n), f);
  }

  /** The largest frame any record of these surfels mentions, or 0. */
  function MaxFrame(ss: seq<Surfel>): (m: nat)
    ensures forall k, i :: 0 <= k < |ss| && 0 <= i < |ss[k].frameData| ==> ss[k].frameData[i].pif.frame <= m
    ensures m == 0 || exists k, i :: 0 <= k < |ss| && 0 <= i < |ss[k].frameData| && ss[k].frameData[i].pif.frame == m
  {
    if |ss| == 0 then 0
    else
      var a := MaxFrameIn(ss[0].frameData);
      var b := MaxFrame(ss[1..]);
      assert forall k :: 1 <= k < |ss| ==> ss[k] == ss[1..][k - 1];
      if b == 0 then a
      else
        var k, i :| 0 <= k < |ss[1..]| && 0 <= i < |ss[1..][k].frameData| && ss[1..][k].frameData[i].pif.frame == b;
        assert ss[k + 1].frameData[i].pif.frame == b;
        if a < b then b else a
  }

  function MaxFrameIn(fds: seq<FrameData>): (m: nat)
    ensures forall i :: 0 <= i < |fds| ==> fds[i].pif.frame <= m
    ensures m == 0 || exists i :: 0 <= i < |fds| && fds[i].pif.frame == m
  {
    if |fds| == 0 then 0
    else
      var b := MaxFrameIn(fds[1..]);
      assert forall k :: 1 <= k < |fds| ==> fds[k] == fds[1..][k - 1];
      if b == 0 then fds[0].pif.frame
      else
        var i :| 0 <= i < |fds[1..]| && fds[1..][i].pif.frame == b;
        assert fds[i + 1].pif.frame == b;
        if fds[0].pif.frame < b then b else fds[0].pif.frame
  }

  /** The surfels of the graph, in ascending node order. */
  function Surfels(g: SurfelGraph): (ss: seq<Surfel>)
    ensures forall s :: s in ss <==> exists x :: x in g.nodes && g.nodes[x] == s
  {
    var ids := Ascending(g.nodes.Keys);
    var ss := seq(|ids|, k requires 0 <= k < |ids| => g.nodes[ids[k]]);
    SurfelsCover(g, ids, ss);
    ss
  }

  lemma SurfelsCover(g: SurfelGraph, ids: seq<NodeId>, ss: seq<Surfel>)
    requires forall x :: x in ids <==> x in g.nodes
    requires |ss| == |ids| && forall k :: 0 <= k < |ids| ==> ss[k] == g.nodes[ids[k]]
    ensures forall s :: s in ss <==> exists x :: x in g.nodes && g.nodes[x] == s
  {
    forall s | s in ss ensures exists x :: x in g.nodes && g.nodes[x] == s {
      var k :| 0 <= k < |ss| && ss[k] == s;
      assert ids[k] in g.nodes;
    }
    forall x | x in g.nodes ensures g.nodes[x] in ss {
      var k :| 0 <= k < |ids| && ids[k] == x;
      assert ss[k] == g.nodes[x];
    }
  }

  /** The frame indices of the graph that fit below `bound`. */
  predicate FramesBelow(g: SurfelGraph, bound: nat)
  {
    forall x, i :: x in g.nodes && 0 <= i < |g.nodes[x].frameData| ==> g.nodes[x].frameData[i].pif.frame < bound
  }

  /**
   * `get_num_frames`: one more than the largest frame index stored in any
   * surfel of the graph, so 1 for a graph without frames. The sum is an
   * `unsigned int`, so a largest index of 2^32 - 1 wraps the count to 0.
   */
  function NumFrames(g: SurfelGraph): (n: nat)
    ensures n < FixedWidth.U32Limit
    ensures FramesBelow(g, FixedWidth.U32Limit - 1) ==> n >= 1 && FramesBelow(g, n)
    ensures FramesBelow(g, FixedWidth.U32Limit - 1) ==>
              n == 1 || exists x, i :: x in g.nodes && 0 <= i < |g.nodes[x].frameData| && g.nodes[x].frameData[i].pif.frame == n - 1
    ensures FramesBelow(g, FixedWidth.U32Limit) ==>
              (n == 0 <==> exists x, i :: x in g.nodes && 0 <= i < |g.nodes[x].frameData| && g.nodes[x].frameData[i].pif.frame == FixedWidth.U32Limit - 1)
  {
    var ss := Surfels(g);
    var m := MaxFrame(ss);
    MaxFrameOfGraph(g, ss);
    if m + 1 < FixedWidth.U32Limit then m + 1
    else if m + 1 == FixedWidth.U32Limit then 0
    else (m + 1) % FixedWidth.U32Limit
  }

  lemma MaxFrameOfGraph(g: SurfelGraph, ss: seq<Surfel>)
    requires forall s :: s in ss <==> exists x :: x in g.nodes && g.nodes[x] == s
    ensures forall x, i :: x in g.nodes && 0 <= i < |g.nodes[x].frameData| ==> g.nodes[x].frameData[i].pif.frame <= MaxFrame(ss)
    ensures MaxFrame(ss) == 0 || exists x, i :: x in g.nodes && 0 <= i < |g.nodes[x].frameData| && g.nodes[x].frameData[i].pif.frame == MaxFrame(ss)
  {
    var m := MaxFrame(ss);
    forall x, i | x in g.nodes && 0 <= i < |g.nodes[x].frameData| ensures g.nodes[x].frameData[i].pif.frame <= m {
      assert g.nodes[x] in ss;
      var k :| 0 <= k < |ss| && ss[k] == g.nodes[x];
    }
    if m > 0 {
      var k, i :| 0 <= k < |ss| && 0 <= i < |ss[k].frameData| && ss[k].frameData[i].pif.frame == m;
      assert ss[k] in ss;
      var x :| x in g.nodes && g.nodes[x] == ss[k];
      assert g.nodes[x].frameData[i].pif.frame == m;
    }
  }

  /** A graph whose surfels all come from the builder's default frame spans a single frame. */
  lemma OnlyFrameZero(g: SurfelGraph)
    requires forall x :: x in g.nodes ==> g.nodes[x].frameData == [DefaultFrame]
    ensures NumFrames(g) == 1
  {
  }
}
