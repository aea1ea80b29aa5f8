/**
 * Parentage between two levels of a surfel hierarchy. A pixel at one
 * level has as parent the pixel at half its coordinates in the same frame
 * at the next coarser level. A child surfel's parents are the coarser
 * surfels that own the parent of one of its pixels; a child without any
 * parent is an orphan and is pruned from its level.
 *
 * Nodes are visited in ascending handle order, the order this model gives
 * to the pointer-ordered node set of the original.
 */
module Hierarchy {
  import opened Wrappers
  import opened Sequences
  import opened Graph
  import opened Surfel
  import opened SurfelGraph
  import GraphNodeSimplifier

  /** The parent pixel: halved coordinates (integer division), same frame. */
  function ParentPif(p: PixelInFrame): (q: PixelInFrame)
    ensures q.frame == p.frame
    ensures 2 * q.pixel.x <= p.pixel.x < 2 * q.pixel.x + 2
    ensures 2 * q.pixel.y <= p.pixel.y < 2 * q.pixel.y + 2
  {
    PixelInFrame(Pixel(p.pixel.x / 2, p.pixel.y / 2), p.frame)
  }

  /** Each coarse pixel is the parent of exactly the 2x2 block of fine pixels below it. */
  lemma ParentOfBlock(p: PixelInFrame, q: PixelInFrame)
    ensures ParentPif(p) == q <==>
              p.frame == q.frame
              && 2 * q.pixel.x <= p.pixel.x < 2 * q.pixel.x + 2
              && 2 * q.pixel.y <= p.pixel.y < 2 * q.pixel.y + 2
  {
  }

  /** The pixels of a list of frame-data records, in the same order. */
  function PifsOf(fds: seq<FrameData>): (r: seq<PixelInFrame>)
    ensures |r| == |fds|
    ensures forall i :: 0 <= i < |fds| ==> r[i] == fds[i].pif
  {
    if |fds| == 0 then [] else [fds[0].pif] + PifsOf(fds[1..])
  }

  /** Some surfel of the level is seen at pixel `p`. */
  ghost predicate PixelAtLevel(g: SurfelGraph, p: PixelInFrame)
  {
    exists x :: x in g.nodes && p in PifsOf(g.nodes[x].frameData)
  }

  // ------------------------------------------------------------------
  // create_pif_to_graphnode_map

  /**
   * Emplacing `p -> x` for the pixel of every record in turn: a pixel
   * already in the map keeps its node.
   */
  function EmplaceRecords(m: map<PixelInFrame, NodeId>, fds: seq<FrameData>, x: NodeId): (r: map<PixelInFrame, NodeId>)
    ensures forall p :: p in r <==> p in m || p in PifsOf(fds)
    ensures forall p :: p in r ==> r[p] == (if p in m then m[p] else x)
    decreases |fds|
  {
    if |fds| == 0 then m
    else
      var p := fds[0].pif;
      var m' := if p in m then m else m[p := x];
      assert PifsOf(fds) == [p] + PifsOf(fds[1..]);
      EmplaceRecords(m', fds[1..], x)
  }

  /** The position in `ids` of the first node seen at pixel `p`, or `|ids|` when none is. */
  function FirstHolder(g: SurfelGraph, ids: seq<NodeId>, p: PixelInFrame): (k: nat)
    requires forall i :: 0 <= i < |ids| ==> ids[i] in g.nodes
    ensures k <= |ids|
    ensures k < |ids| ==> p in PifsOf(g.nodes[ids[k]].frameData)
    ensures forall j :: 0 <= j < k ==> p !in PifsOf(g.nodes[ids[j]].frameData)
  {
    if |ids| == 0 then 0
    else if p in PifsOf(g.nodes[ids[0]].frameData) then 0
    else 1 + FirstHolder(g, ids[1..], p)
  }

  /** The conditions of `FirstHolder` pin it down. */
  lemma FirstHolderUnique(g: SurfelGraph, ids: seq<NodeId>, p: PixelInFrame, k: nat)
    requires forall i :: 0 <= i < |ids| ==> ids[i] in g.nodes
    requires k <= |ids|
    requires k < |ids| ==> p in PifsOf(g.nodes[ids[k]].frameData)
    requires forall j :: 0 <= j < k ==> p !in PifsOf(g.nodes[ids[j]].frameData)
    ensures FirstHolder(g, ids, p) == k
  {
  }

  /** Dropping the last node only changes the answer for pixels that node alone holds. */
  lemma FirstHolderPrefix(g: SurfelGraph, ids: seq<NodeId>, p: PixelInFrame)
    requires |ids| > 0 && forall i :: 0 <= i < |ids| ==> ids[i] in g.nodes
    ensures var n := |ids| - 1;
            var k := FirstHolder(g, ids, p);
            FirstHolder(g, ids[..n], p) == (if k < n then k else n)
  {
    var n := |ids| - 1;
    var k := FirstHolder(g, ids, p);
    var pre := ids[..n];
    var k' := if k < n then k else n;
    forall j | 0 <= j < k' ensures p !in PifsOf(g.nodes[pre[j]].frameData) {
      assert pre[j] == ids[j];
    }
    if k' < n {
      assert pre[k'] == ids[k'];
    }
    FirstHolderUnique(g, pre, p, k');
  }

  /**
   * The map from pixel to node over the nodes `ids`, visited in order:
   * every pixel any of them is seen at, each with the first node seen there.
   */
  function PifMapOf(g: SurfelGraph, ids: seq<NodeId>): (r: map<PixelInFrame, NodeId>)
    requires forall i :: 0 <= i < |ids| ==> ids[i] in g.nodes
    ensures forall p :: p in r <==> FirstHolder(g, ids, p) < |ids|
    ensures forall p :: p in r ==> r[p] == ids[FirstHolder(g, ids, p)]
    decreases |ids|
  {
    if |ids| == 0 then map[]
    else
      var n := |ids| - 1;
      var m := PifMapOf(g, ids[..n]);
      var r := EmplaceRecords(m, g.nodes[ids[n]].frameData, ids[n]);
      forall p ensures (p in r <==> FirstHolder(g, ids, p) < |ids|) && (p in r ==> r[p] == ids[FirstHolder(g, ids, p)]) {
        PifMapStep(g, ids, m, r, p);
      }
      r
  }

  lemma PifMapStep(g: SurfelGraph, ids: seq<NodeId>, m: map<PixelInFrame, NodeId>, r: map<PixelInFrame, NodeId>, p: PixelInFrame)
    requires |ids| > 0 && forall i :: 0 <= i < |ids| ==> ids[i] in g.nodes
    requires var n := |ids| - 1;
             && (p in m <==> FirstHolder(g, ids[..n], p) < n)
             && (p in m ==> m[p] == ids[..n][FirstHolder(g, ids[..n], p)])
    requires var n := |ids| - 1;
             && (p in r <==> p in m || p in PifsOf(g.nodes[ids[n]].frameData))
             && (p in r ==> r[p] == if p in m then m[p] else ids[n])
    ensures p in r <==> FirstHolder(g, ids, p) < |ids|
    ensures p in r ==> r[p] == ids[FirstHolder(g, ids, p)]
  {
    FirstHolderPrefix(g, ids, p);
    var n := |ids| - 1;
    var k := FirstHolder(g, ids, p);
    var last := PifsOf(g.nodes[ids[n]].frameData);
    if k < n {
      assert ids[..n][k] == ids[k];
    } else if k == n {
      assert p in last && p !in m;
    } else {
      assert p !in last;
    }
  }

  /**
   * `create_pif_to_graphnode_map`: the pixels at which the level's surfels
   * are seen, each mapped to a node seen there; when several are, the one
   * visited first, which has the least handle.
   */
  function PifToNode(g: SurfelGraph): (r: map<PixelInFrame, NodeId>)
    ensures forall p :: p in r <==> PixelAtLevel(g, p)
    ensures forall p :: p in r ==> r[p] in g.nodes && p in PifsOf(g.nodes[r[p]].frameData)
    ensures forall p, y :: p in r && y in g.nodes && p in PifsOf(g.nodes[y].frameData) ==> r[p] <= y
  {
    var ids := Ascending(g.nodes.Keys);
    var r := PifMapOf(g, ids);
    forall p ensures p in r <==> PixelAtLevel(g, p) {
      PifToNodeKey(g, ids, p);
    }
    forall p, y | p in r && y in g.nodes && p in PifsOf(g.nodes[y].frameData) ensures r[p] <= y {
      PifToNodeFirst(g, ids, p, y);
    }
    r
  }

  lemma PifToNodeKey(g: SurfelGraph, ids: seq<NodeId>, p: PixelInFrame)
    requires forall x :: x in ids <==> x in g.nodes
    ensures FirstHolder(g, ids, p) < |ids| <==> PixelAtLevel(g, p)
  {
    if PixelAtLevel(g, p) {
      var x :| x in g.nodes && p in PifsOf(g.nodes[x].frameData);
      var j :| 0 <= j < |ids| && ids[j] == x;
      assert FirstHolder(g, ids, p) <= j;
    }
  }

  lemma PifToNodeFirst(g: SurfelGraph, ids: seq<NodeId>, p: PixelInFrame, y: NodeId)
    requires forall x :: x in ids <==> x in g.nodes
    requires forall i, j :: 0 <= i < j < |ids| ==> ids[i] < ids[j]
    requires y in g.nodes && p in PifsOf(g.nodes[y].frameData)
    ensures FirstHolder(g, ids, p) < |ids| && ids[FirstHolder(g, ids, p)] <= y
  {
    var j :| 0 <= j < |ids| && ids[j] == y;
    assert FirstHolder(g, ids, p) <= j;
  }

  // ------------------------------------------------------------------
  // compute_child_to_parent_surfel_map

  /**
   * The parents found for one child surfel: for each of its records in
   * order, the node owning the record's parent pixel, when there is one.
   */
  function ParentsOf(pmap: map<PixelInFrame, NodeId>, fds: seq<FrameData>): (r: seq<NodeId>)
    ensures |r| <= |fds|
    ensures |r| == 0 <==> forall i :: 0 <= i < |fds| ==> ParentPif(fds[i].pif) !in pmap
    ensures forall y :: y in r ==> exists i :: 0 <= i < |fds| && ParentPif(fds[i].pif) in pmap && pmap[ParentPif(fds[i].pif)] == y
  {
    if |fds| == 0 then []
    else
      var q := ParentPif(fds[0].pif);
      var rest := ParentsOf(pmap, fds[1..]);
      assert forall i :: 1 <= i < |fds| ==> fds[i] == fds[1..][i - 1];
      (if q in pmap then [pmap[q]] else []) + rest
  }

  /** Parents are found record by record: the records of `a + b` find those of `a`, then those of `b`. */
  lemma {:induction false} ParentsOfAppend(pmap: map<PixelInFrame, NodeId>, a: seq<FrameData>, b: seq<FrameData>)
    ensures ParentsOf(pmap, a + b) == ParentsOf(pmap, a) + ParentsOf(pmap, b)
  {
    if |a| > 0 {
      assert (a + b)[0] == a[0];
      assert (a + b)[1..] == a[1..] + b;
      ParentsOfCons(pmap, a + b);
      ParentsOfCons(pmap, a);
      ParentsOfAppend(pmap, a[1..], b);
    } else {
      assert a + b == b;
    }
  }

  lemma ParentsOfCons(pmap: map<PixelInFrame, NodeId>, fds: seq<FrameData>)
    requires |fds| > 0
    ensures var q := ParentPif(fds[0].pif);
            ParentsOf(pmap, fds) == (if q in pmap then [pmap[q]] else []) + ParentsOf(pmap, fds[1..])
  {
  }

  /** When every record finds a parent, there is one entry per record, in record order. */
  lemma {:induction false} ParentsOfAllFound(pmap: map<PixelInFrame, NodeId>, fds: seq<FrameData>)
    requires forall i :: 0 <= i < |fds| ==> ParentPif(fds[i].pif) in pmap
    ensures |ParentsOf(pmap, fds)| == |fds|
    ensures forall i :: 0 <= i < |fds| ==> ParentsOf(pmap, fds)[i] == pmap[ParentPif(fds[i].pif)]
  {
    if |fds| > 0 {
      ParentsOfAllFound(pmap, fds[1..]);
      assert forall i :: 1 <= i < |fds| ==> fds[i] == fds[1..][i - 1];
    }
  }

  /** Some record of the surfel has its parent pixel at the coarser level. */
  ghost predicate HasParent(pmap: map<PixelInFrame, NodeId>, s: Surfel)
  {
    exists i :: 0 <= i < |s.frameData| && ParentPif(s.frameData[i].pif) in pmap
  }

  /** The (child, parent) entries of one child, one per parent found. */
  function LinksFor(x: NodeId, ps: seq<NodeId>): (r: seq<(NodeId, NodeId)>)
    ensures |r| == |ps|
    ensures forall i :: 0 <= i < |ps| ==> r[i] == (x, ps[i])
  {
    seq(|ps|, i requires 0 <= i < |ps| => (x, ps[i]))
  }

  /** The parents recorded for `x`, in insertion order: what the multimap's range for `x` holds. */
  function Recorded(links: seq<(NodeId, NodeId)>, x: NodeId): (r: seq<NodeId>)
    ensures |r| <= |links|
    ensures forall y :: y in r <==> (x, y) in links
  {
    if |links| == 0 then []
    else
      var rest := Recorded(links[1..], x);
      assert forall l :: l in links <==> l == links[0] || l in links[1..];
      (if links[0].0 == x then [links[0].1] else []) + rest
  }

  lemma {:induction false} RecordedAppend(a: seq<(NodeId, NodeId)>, b: seq<(NodeId, NodeId)>, x: NodeId)
    ensures Recorded(a + b, x) == Recorded(a, x) + Recorded(b, x)
  {
    if |a| > 0 {
      assert (a + b)[0] == a[0];
      assert (a + b)[1..] == a[1..] + b;
      RecordedAppend(a[1..], b, x);
    } else {
      assert a + b == b;
    }
  }

  lemma {:induction false} RecordedLinksFor(y: NodeId, ps: seq<NodeId>, x: NodeId)
    ensures Recorded(LinksFor(y, ps), x) == if x == y then ps else []
  {
    if |ps| > 0 {
      var l := LinksFor(y, ps);
      assert l[1..] == LinksFor(y, ps[1..]);
      RecordedLinksFor(y, ps[1..], x);
    }
  }

  /** A child none of whose records finds a parent. */
  predicate Orphaned(pmap: map<PixelInFrame, NodeId>, s: Surfel)
  {
    |ParentsOf(pmap, s.frameData)| == 0
  }

  /**
   * The child-to-parent entries of `compute_child_to_parent_surfel_map`
   * over the children `ids`, in visiting order: each child contributes
   * one entry per record whose parent pixel the coarser level holds.
   */
  function ChildLinks(child: SurfelGraph, pmap: map<PixelInFrame, NodeId>, ids: seq<NodeId>): (r: seq<(NodeId, NodeId)>)
    requires forall i :: 0 <= i < |ids| ==> ids[i] in child.nodes
    ensures Distinct(ids) ==> forall x :: Recorded(r, x) == if x in ids then ParentsOf(pmap, child.nodes[x].frameData) else []
  {
    if |ids| == 0 then []
    else
      var ps := ParentsOf(pmap, child.nodes[ids[0]].frameData);
      var rest := ChildLinks(child, pmap, ids[1..]);
      ChildLinksStep(child, pmap, ids, ps, rest);
      LinksFor(ids[0], ps) + rest
  }

  lemma ChildLinksStep(child: SurfelGraph, pmap: map<PixelInFrame, NodeId>, ids: seq<NodeId>, ps: seq<NodeId>, rest: seq<(NodeId, NodeId)>)
    requires |ids| > 0 && forall i :: 0 <= i < |ids| ==> ids[i] in child.nodes
    requires ps == ParentsOf(pmap, child.nodes[ids[0]].frameData)
    requires Distinct(ids[1..]) ==> forall x :: Recorded(rest, x) == if x in ids[1..] then ParentsOf(pmap, child.nodes[x].frameData) else []
    ensures Distinct(ids) ==> forall x :: Recorded(LinksFor(ids[0], ps) + rest, x) == if x in ids then ParentsOf(pmap, child.nodes[x].frameData) else []
  {
    if Distinct(ids) {
      DistinctCons(ids);
      assert forall x :: x in ids <==> x == ids[0] || x in ids[1..];
      forall x ensures Recorded(LinksFor(ids[0], ps) + rest, x) == if x in ids then ParentsOf(pmap, child.nodes[x].frameData) else [] {
        RecordedAppend(LinksFor(ids[0], ps), rest, x);
        RecordedLinksFor(ids[0], ps, x);
      }
    }
  }

  /** The orphans among the children `ids`, in visiting order. */
  function Orphans(child: SurfelGraph, pmap: map<PixelInFrame, NodeId>, ids: seq<NodeId>): (r: seq<NodeId>)
    requires forall i :: 0 <= i < |ids| ==> ids[i] in child.nodes
    ensures forall x :: x in r <==> x in ids && Orphaned(pmap, child.nodes[x])
    ensures Distinct(ids) ==> Distinct(r)
  {
    if |ids| == 0 then []
    else
      var rest := Orphans(child, pmap, ids[1..]);
      OrphansStep(child, pmap, ids, rest);
      if Orphaned(pmap, child.nodes[ids[0]]) then [ids[0]] + rest else rest
  }

  lemma OrphansStep(child: SurfelGraph, pmap: map<PixelInFrame, NodeId>, ids: seq<NodeId>, rest: seq<NodeId>)
    requires |ids| > 0 && forall i :: 0 <= i < |ids| ==> ids[i] in child.nodes
    requires forall x :: x in rest <==> x in ids[1..] && Orphaned(pmap, child.nodes[x])
    requires Distinct(ids[1..]) ==> Distinct(rest)
    ensures var r := if Orphaned(pmap, child.nodes[ids[0]]) then [ids[0]] + rest else rest;
            && (forall x :: x in r <==> x in ids && Orphaned(pmap, child.nodes[x]))
            && (Distinct(ids) ==> Distinct(r))
  {
    assert forall x :: x in ids <==> x == ids[0] || x in ids[1..];
    if Distinct(ids) {
      DistinctCons(ids);
      if Orphaned(pmap, child.nodes[ids[0]]) {
        DistinctCons([ids[0]] + rest);
        assert ([ids[0]] + rest)[1..] == rest;
      }
    }
  }

  /** Two distinct sequences with no element in common concatenate to a distinct one. */
  lemma AppendDistinct<T>(a: seq<T>, b: seq<T>)
    requires Distinct(a) && Distinct(b) && forall y :: y in b ==> y !in a
    ensures Distinct(a + b)
  {
    forall i, j | 0 <= i < j < |a + b| ensures (a + b)[i] != (a + b)[j] {
      if j >= |a| && i < |a| {
        assert (a + b)[j] == b[j - |a|];
        assert (a + b)[j] in b;
      }
    }
  }

  // ------------------------------------------------------------------
  // Pruning orphans

  /** A level after pruning, and the parents recorded for its surfels. */
  datatype Seeded = Seeded(graph: SurfelGraph, links: seq<(NodeId, NodeId)>)

  /**
   * The bookkeeping of `initialise_tangents_from_previous_level`: compute
   * the parentage of the current level against the previous one and
   * remove the orphans. A surfel survives exactly when one of its pixels
   * has its parent pixel at the previous level; nothing else changes.
   */
  function PruneOrphans(current: SurfelGraph, previous: SurfelGraph): (r: Seeded)
    requires Valid(current)
    ensures Valid(r.graph)
    ensures forall x :: x in r.graph.nodes <==> x in current.nodes && HasParent(PifToNode(previous), current.nodes[x])
    ensures forall x :: x in r.graph.nodes ==> r.graph.nodes[x] == current.nodes[x]
    ensures forall i :: 0 <= i < |r.graph.edges| ==> r.graph.edges[i] in current.edges
    ensures forall i :: 0 <= i < |current.edges| && current.edges[i].from in r.graph.nodes && current.edges[i].to in r.graph.nodes ==>
              current.edges[i] in r.graph.edges
    ensures forall x :: Recorded(r.links, x) == if x in current.nodes then ParentsOf(PifToNode(previous), current.nodes[x].frameData) else []
  {
    var pmap := PifToNode(previous);
    var ids := Ascending(current.nodes.Keys);
    var orphans := Orphans(current, pmap, ids);
    OrphansPresent(current, pmap, ids, orphans);
    var res := GraphNodeSimplifier.RemoveAll(current, orphans);
    GraphNodeSimplifier.RemoveAllKeepsValid(current, orphans);
    PrunedNodes(current, pmap, ids, orphans, res.value);
    Seeded(res.value, ChildLinks(current, pmap, ids))
  }

  /** The orphans are nodes of the level, each once. */
  lemma OrphansPresent(current: SurfelGraph, pmap: map<PixelInFrame, NodeId>, ids: seq<NodeId>, orphans: seq<NodeId>)
    requires forall x :: x in ids <==> x in current.nodes
    requires forall x :: x in orphans <==> x in ids && Orphaned(pmap, current.nodes[x])
    ensures forall i :: 0 <= i < |orphans| ==> orphans[i] in current.nodes
  {
    forall i | 0 <= i < |orphans| ensures orphans[i] in current.nodes {
      assert orphans[i] in orphans;
    }
  }

  /** Removing the orphans leaves exactly the nodes with a parent. */
  lemma PrunedNodes(current: SurfelGraph, pmap: map<PixelInFrame, NodeId>, ids: seq<NodeId>, orphans: seq<NodeId>, g: SurfelGraph)
    requires forall x :: x in ids <==> x in current.nodes
    requires forall x :: x in orphans <==> x in ids && Orphaned(pmap, current.nodes[x])
    requires forall n :: n in g.nodes <==> n in current.nodes && n !in orphans
    ensures forall x :: x in g.nodes <==> x in current.nodes && HasParent(pmap, current.nodes[x])
  {
  }
}
