/**
 * The multi-resolution surfel graph: a stack of ever coarser surfel
 * graphs. A new level merges neighbouring surfels in pairs, greedily and
 * never reusing a surfel, copies every surfel left unmerged, and links
 * two new nodes whenever any of their parts were linked.
 *
 * The order in which candidate edges are visited comes from floating
 * point scores (area ratio times agreement of mean normals, sorted
 * descending) and is a parameter here, as is the floating point part of
 * merging two surfels (blended tangent, offset, normals and positions).
 */
module MultiResolution {
  import opened Wrappers
  import opened Sequences
  import opened Graph
  import opened Surfel
  import opened SurfelGraphEdge
  import opened SurfelGraph

  // ------------------------------------------------------------------
  // The edge comparator

  /** The key a scored edge is filed under: the ids of its two surfels. */
  datatype EdgeKey = EdgeKey(fromId: string, toId: string)

  /** `SurfelGraphEdgeComparator`: by `from` id; on equal `from` ids, by `to` id. */
  predicate KeyLess(a: EdgeKey, b: EdgeKey)
  {
    if LexLess(a.fromId, b.fromId) then true
    else if LexLess(b.fromId, a.fromId) then false
    else LexLess(a.toId, b.toId)
  }

  /** The comparator is the lexicographic order on (from id, to id). */
  lemma KeyLessLexicographic(a: EdgeKey, b: EdgeKey)
    ensures KeyLess(a, b) <==> LexLess(a.fromId, b.fromId) || (a.fromId == b.fromId && LexLess(a.toId, b.toId))
  {
    if a.fromId == b.fromId {
      LexLessIrreflexive(a.fromId);
    } else {
      LexLessTotal(a.fromId, b.fromId);
    }
  }

  /**
   * It is a strict total order, so the score map files two edges under one
   * entry exactly when both their ids agree.
   */
  lemma KeyLessStrictTotal(a: EdgeKey, b: EdgeKey, c: EdgeKey)
    ensures !KeyLess(a, a)
    ensures KeyLess(a, b) && KeyLess(b, c) ==> KeyLess(a, c)
    ensures a != b ==> KeyLess(a, b) || KeyLess(b, a)
    ensures KeyLess(a, b) ==> !KeyLess(b, a)
  {
    KeyLessLexicographic(a, a);
    KeyLessLexicographic(a, b);
    KeyLessLexicographic(b, a);
    KeyLessLexicographic(b, c);
    KeyLessLexicographic(a, c);
    LexLessIrreflexive(a.fromId);
    LexLessIrreflexive(a.toId);
    if LexLess(a.fromId, b.fromId) && LexLess(b.fromId, c.fromId) {
      LexLessTransitive(a.fromId, b.fromId, c.fromId);
    }
    if LexLess(a.toId, b.toId) && LexLess(b.toId, c.toId) {
      LexLessTransitive(a.toId, b.toId, c.toId);
    }
    if LexLess(a.fromId, b.fromId) && LexLess(b.fromId, a.fromId) {
      LexLessTransitive(a.fromId, b.fromId, a.fromId);
    }
    if LexLess(a.toId, b.toId) && LexLess(b.toId, a.toId) {
      LexLessTransitive(a.toId, b.toId, a.toId);
    }
    if a != b {
      if a.fromId != b.fromId {
        LexLessTotal(a.fromId, b.fromId);
      } else {
        LexLessTotal(a.toId, b.toId);
      }
    }
  }

  // ------------------------------------------------------------------
  // Merging two surfels

  /**
   * The floating point part of a merge, left abstract: the blended
   * tangent and lattice offset, and for each shared frame the transform,
   * normal and position of the merged surfel.
   */
  datatype MergeGeometry = MergeGeometry(
    blend: (Surfel, Surfel) -> (Vector3, Vector2),
    frame: (Surfel, Surfel, nat) -> (Matrix3, Vector3, Vector3))

  function FrameSet(s: Surfel): set<nat>
  {
    set f | f in s.frames
  }

  /** The frames both surfels list, ascending and without repeats. */
  function CommonFrames(s1: Surfel, s2: Surfel): (r: seq<nat>)
    ensures forall f :: f in r <==> f in s1.frames && f in s2.frames
    ensures forall i, j :: 0 <= i < j < |r| ==> r[i] < r[j]
  {
    Ascending(FrameSet(s1) * FrameSet(s2))
  }

  /** Adds the frame records one by one, in order. */
  function AddFrames(b: Builder, fds: seq<FrameData>): (r: Builder)
    ensures r.frames == b.frames + fds
    ensures r.id == b.id && r.tangent == b.tangent && r.offset == b.offset
    decreases |fds|
  {
    if |fds| == 0 then b
    else
      var r := AddFrames(WithFrame(b, fds[0]), fds[1..]);
      assert b.frames + [fds[0]] + fds[1..] == b.frames + fds;
      r
  }

  /** The records of a merged surfel, one per frame of `fs`: pixel (0, 0), depth 0. */
  function MergedFrames(s1: Surfel, s2: Surfel, geo: MergeGeometry, fs: seq<nat>): (r: seq<FrameData>)
    ensures FramesOf(r) == fs
    ensures forall i :: 0 <= i < |r| ==> r[i].pif.pixel == Pixel(0, 0) && r[i].depth == 0.0
  {
    var r := seq(|fs|, i requires 0 <= i < |fs| =>
                   var g := geo.frame(s1, s2, fs[i]);
                   FrameData(PixelInFrame(Pixel(0, 0), fs[i]), 0.0, g.0, g.1, g.2));
    assert FramesOf(r) == fs;
    r
  }

  /** With every value set on the builder, `build` draws nothing. */
  function NoDraws(): (d: Draws)
    ensures WellFormedDraws(d)
  {
    Draws(seq(16, _ => 0), Vector3(0.0, 0.0, 0.0), Vector2(0.0, 0.0))
  }

  /**
   * `surfel_merge_function`: a surfel named "(id1 + id2)" with one record
   * per frame both parts share, in ascending frame order. Should the
   * parts share no frame, the builder falls back to its default frame.
   */
  function MergeSurfels(s1: Surfel, s2: Surfel, geo: MergeGeometry): (s: Surfel)
    ensures s.id == "(" + s1.id + " + " + s2.id + ")"
    ensures |CommonFrames(s1, s2)| > 0 ==> s.frames == CommonFrames(s1, s2)
    ensures |CommonFrames(s1, s2)| > 0 ==>
              forall i :: 0 <= i < |s.frameData| ==> s.frameData[i].pif.pixel == Pixel(0, 0) && s.frameData[i].depth == 0.0
    ensures |CommonFrames(s1, s2)| == 0 ==> s.frameData == [DefaultFrame]
    ensures s.frames == FramesOf(s.frameData)
    ensures (s.tangent, s.offset) == geo.blend(s1, s2)
    ensures s.rosySmoothness == 2025.0 && s.rosyCorrection == 0.0
  {
    var common := CommonFrames(s1, s2);
    var blended := geo.blend(s1, s2);
    var b := WithOffset(WithTangent(WithId(NewBuilder(), "(" + s1.id + " + " + s2.id + ")"), blended.0), blended.1);
    var fds := MergedFrames(s1, s2, geo, common);
    var full := AddFrames(b, fds);
    assert full == Builder(Some("(" + s1.id + " + " + s2.id + ")"), Some(blended.0), Some(blended.1), fds);
    Build(full, NoDraws())
  }

  /**
   * A merged surfel is in exactly the frames both of its parts list, and
   * lists them in ascending order.
   */
  lemma MergedSurfelFrames(s1: Surfel, s2: Surfel, geo: MergeGeometry, f: nat)
    requires exists g :: g in s1.frames && g in s2.frames
    ensures IsInFrame(MergeSurfels(s1, s2, geo), f) <==> f in s1.frames && f in s2.frames
    ensures var fs := MergeSurfels(s1, s2, geo).frames; forall i, j :: 0 <= i < j < |fs| ==> fs[i] < fs[j]
  {
    var common := CommonFrames(s1, s2);
    var g :| g in s1.frames && g in s2.frames;
    assert g in common;
    var s := MergeSurfels(s1, s2, geo);
    assert s.frames == common;
    InFrameListed(s.frameData, f);
  }

  /** A surfel whose frame list matches its records is in exactly the listed frames. */
  lemma InFrameListed(fds: seq<FrameData>, f: nat)
    ensures (exists i :: 0 <= i < |fds| && fds[i].pif.frame == f) <==> f in FramesOf(fds)
  {
    var fs := FramesOf(fds);
    if f in fs {
      var i :| 0 <= i < |fs| && fs[i] == f;
      assert fds[i].pif.frame == f;
    }
  }

  /** Parts without a shared frame give a surfel in frame 0 only. */
  lemma MergedSurfelNoCommonFrame(s1: Surfel, s2: Surfel, geo: MergeGeometry, f: nat)
    requires forall g :: g in s1.frames ==> g !in s2.frames
    ensures IsInFrame(MergeSurfels(s1, s2, geo), f) <==> f == 0
  {
    if |CommonFrames(s1, s2)| > 0 {
      assert CommonFrames(s1, s2)[0] in CommonFrames(s1, s2);
    }
  }

  // ------------------------------------------------------------------
  // One coarsening step

  /** Which lower-level nodes a new node stands for. */
  datatype Cover = Merged(first: NodeId, second: NodeId) | Copied(node: NodeId)

  function Parts(c: Cover): set<NodeId>
  {
    match c
    case Merged(a, b) => {a, b}
    case Copied(a) => {a}
  }

  /** The pair `upper_to_lower_mapping` records: both parts, or the copied node twice. */
  function LowerPair(c: Cover): (p: (NodeId, NodeId))
    ensures Parts(c) == {p.0, p.1}
  {
    match c
    case Merged(a, b) => (a, b)
    case Copied(a) => (a, a)
  }

  /**
   * A level under construction: the new graph, `lower_to_upper_mapping`
   * (`down`), `upper_to_lower_mapping` (`up`) and the dual area of each
   * new node.
   */
  datatype Level = Level(graph: SurfelGraph, down: map<NodeId, NodeId>, up: map<NodeId, Cover>, area: map<NodeId, nat>)

  ghost predicate NoSelfEdges(g: SurfelGraph)
  {
    forall i :: 0 <= i < |g.edges| ==> g.edges[i].from != g.edges[i].to
  }

  /** The surfel a new node holds: the merge of its parts, or the copied surfel itself. */
  ghost predicate HoldsCover(lower: SurfelGraph, merge: (Surfel, Surfel) -> Surfel, s: Surfel, c: Cover)
  {
    match c
    case Merged(a, b) => a in lower.nodes && b in lower.nodes && s == merge(lower.nodes[a], lower.nodes[b])
    case Copied(a) => a in lower.nodes && s == lower.nodes[a]
  }

  /** The new graph is a valid undirected graph without self edges, and every new node has a cover and an area. */
  ghost predicate Shaped(lv: Level)
  {
    && Valid(lv.graph) && !lv.graph.directed && NoSelfEdges(lv.graph)
    && lv.up.Keys == lv.graph.nodes.Keys
    && lv.area.Keys == lv.up.Keys
  }

  /** Each mapped lower node lies in the cover of the new node it maps to. */
  ghost predicate DownInCover(lower: SurfelGraph, lv: Level)
  {
    forall x :: x in lv.down ==> x in lower.nodes && lv.down[x] in lv.up && x in Parts(lv.up[lv.down[x]])
  }

  /** Each node of a cover maps to that cover's new node. */
  ghost predicate CoverMapsUp(lv: Level)
  {
    forall n, x :: n in lv.up && x in Parts(lv.up[n]) ==> x in lv.down && lv.down[x] == n
  }

  ghost predicate HoldsCovers(lower: SurfelGraph, merge: (Surfel, Surfel) -> Surfel, lv: Level)
  {
    forall n :: n in lv.up && n in lv.graph.nodes ==> HoldsCover(lower, merge, lv.graph.nodes[n], lv.up[n])
  }

  /** A merged node's dual area is its two parts' areas, each of which starts at 1. */
  ghost predicate AreasAdd(lv: Level)
  {
    forall n :: n in lv.up && n in lv.area ==> lv.area[n] == if lv.up[n].Merged? then 1 + 1 else 1
  }

  /** What the two mappings keep consistent while a level is built. */
  ghost predicate Coherent(lower: SurfelGraph, merge: (Surfel, Surfel) -> Surfel, lv: Level)
  {
    Shaped(lv) && DownInCover(lower, lv) && CoverMapsUp(lv) && HoldsCovers(lower, merge, lv) && AreasAdd(lv)
  }

  const Start := Level(Empty(false), map[], map[], map[])

  /**
   * Adding one node for cover `c`, mapping the cover's (so far unmapped)
   * lower nodes to it, keeps the mappings coherent.
   */
  lemma AddCoverKeepsCoherent(lower: SurfelGraph, merge: (Surfel, Surfel) -> Surfel, lv: Level, c: Cover, d: Surfel, r: Level)
    requires Coherent(lower, merge, lv)
    requires forall x :: x in Parts(c) ==> x in lower.nodes && x !in lv.down
    requires r.graph == AddNode(lv.graph, d).0 && HoldsCover(lower, merge, d, c)
    requires r.up == lv.up[lv.graph.nextId := c]
    requires r.area == lv.area[lv.graph.nextId := if c.Merged? then 1 + 1 else 1]
    requires forall x :: x in r.down <==> x in lv.down || x in Parts(c)
    requires forall x :: x in lv.down ==> r.down[x] == lv.down[x]
    requires forall x :: x in Parts(c) ==> r.down[x] == lv.graph.nextId
    ensures Coherent(lower, merge, r)
  {
    AddCoverShape(lv, c, d, r);
    AddCoverDown(lower, merge, lv, c, d, r);
    AddCoverUp(lower, merge, lv, c, d, r);
    AddCoverHolds(lower, merge, lv, c, d, r);
  }

  /** Adding the node for a cover keeps the level's maps keyed by its nodes, and the new node's area is its cover's size. */
  lemma AddCoverShape(lv: Level, c: Cover, d: Surfel, r: Level)
    requires Shaped(lv) && AreasAdd(lv)
    requires r.graph == AddNode(lv.graph, d).0
    requires r.up == lv.up[lv.graph.nextId := c]
    requires r.area == lv.area[lv.graph.nextId := if c.Merged? then 1 + 1 else 1]
    ensures Shaped(r) && AreasAdd(r)
  {
    var n := lv.graph.nextId;
    assert r.graph.nodes == lv.graph.nodes[n := d];
    assert r.up.Keys == lv.up.Keys + {n};
    assert r.graph.nodes.Keys == lv.graph.nodes.Keys + {n};
    assert r.area.Keys == lv.area.Keys + {n};
  }

  lemma AddCoverDown(lower: SurfelGraph, merge: (Surfel, Surfel) -> Surfel, lv: Level, c: Cover, d: Surfel, r: Level)
    requires Coherent(lower, merge, lv)
    requires forall x :: x in Parts(c) ==> x in lower.nodes && x !in lv.down
    requires r.graph == AddNode(lv.graph, d).0 && HoldsCover(lower, merge, d, c)
    requires r.up == lv.up[lv.graph.nextId := c]
    requires r.area == lv.area[lv.graph.nextId := if c.Merged? then 1 + 1 else 1]
    requires forall x :: x in r.down <==> x in lv.down || x in Parts(c)
    requires forall x :: x in lv.down ==> r.down[x] == lv.down[x]
    requires forall x :: x in Parts(c) ==> r.down[x] == lv.graph.nextId
    ensures DownInCover(lower, r)
  {
    forall x | x in r.down ensures x in lower.nodes && r.down[x] in r.up && x in Parts(r.up[r.down[x]]) {
      if x in lv.down {
        assert r.up[lv.down[x]] == lv.up[lv.down[x]];
      }
    }
  }

  lemma AddCoverUp(lower: SurfelGraph, merge: (Surfel, Surfel) -> Surfel, lv: Level, c: Cover, d: Surfel, r: Level)
    requires Coherent(lower, merge, lv)
    requires forall x :: x in Parts(c) ==> x in lower.nodes && x !in lv.down
    requires r.graph == AddNode(lv.graph, d).0 && HoldsCover(lower, merge, d, c)
    requires r.up == lv.up[lv.graph.nextId := c]
    requires r.area == lv.area[lv.graph.nextId := if c.Merged? then 1 + 1 else 1]
    requires forall x :: x in r.down <==> x in lv.down || x in Parts(c)
    requires forall x :: x in lv.down ==> r.down[x] == lv.down[x]
    requires forall x :: x in Parts(c) ==> r.down[x] == lv.graph.nextId
    ensures CoverMapsUp(r)
  {
    forall m, x | m in r.up && x in Parts(r.up[m]) ensures x in r.down && r.down[x] == m {
      if m != lv.graph.nextId {
        assert r.up[m] == lv.up[m];
      }
    }
  }

  lemma AddCoverHolds(lower: SurfelGraph, merge: (Surfel, Surfel) -> Surfel, lv: Level, c: Cover, d: Surfel, r: Level)
    requires Coherent(lower, merge, lv)
    requires forall x :: x in Parts(c) ==> x in lower.nodes && x !in lv.down
    requires r.graph == AddNode(lv.graph, d).0 && HoldsCover(lower, merge, d, c)
    requires r.up == lv.up[lv.graph.nextId := c]
    requires r.area == lv.area[lv.graph.nextId := if c.Merged? then 1 + 1 else 1]
    requires forall x :: x in r.down <==> x in lv.down || x in Parts(c)
    requires forall x :: x in lv.down ==> r.down[x] == lv.down[x]
    requires forall x :: x in Parts(c) ==> r.down[x] == lv.graph.nextId
    ensures HoldsCovers(lower, merge, r)
  {
    forall m | m in r.up && m in r.graph.nodes ensures HoldsCover(lower, merge, r.graph.nodes[m], r.up[m]) {
      if m != lv.graph.nextId {
        assert r.graph.nodes[m] == lv.graph.nodes[m];
      }
    }
  }

  /** Merges `a` and `b`, neither yet involved in a merge, into one new node. */
  function MergeStep(lower: SurfelGraph, merge: (Surfel, Surfel) -> Surfel, lv: Level, a: NodeId, b: NodeId): (r: Level)
    requires Coherent(lower, merge, lv)
    requires a in lower.nodes && b in lower.nodes && a !in lv.down && b !in lv.down
    ensures Coherent(lower, merge, r)
    ensures forall x :: x in r.down <==> x in lv.down || x == a || x == b
    ensures forall x :: x in lv.down ==> r.down[x] == lv.down[x]
    ensures forall n :: n in lv.up ==> n in r.up && r.up[n] == lv.up[n]
    ensures r.up[r.down[a]] == Merged(a, b)
    ensures r.graph.edges == lv.graph.edges
  {
    var s := merge(lower.nodes[a], lower.nodes[b]);
    var (g, n) := AddNode(lv.graph, s);
    var r := Level(g, lv.down[a := n][b := n], lv.up[n := Merged(a, b)], lv.area[n := 1 + 1]);
    AddCoverKeepsCoherent(lower, merge, lv, Merged(a, b), s, r);
    r
  }

  /** Copies `x`, left out of every merge, to a new node of its own. */
  function CopyStep(lower: SurfelGraph, merge: (Surfel, Surfel) -> Surfel, lv: Level, x: NodeId): (r: Level)
    requires Coherent(lower, merge, lv)
    requires x in lower.nodes && x !in lv.down
    ensures Coherent(lower, merge, r)
    ensures forall y :: y in r.down <==> y in lv.down || y == x
    ensures forall y :: y in lv.down ==> r.down[y] == lv.down[y]
    ensures forall n :: n in lv.up ==> n in r.up && r.up[n] == lv.up[n]
    ensures r.up[r.down[x]] == Copied(x)
    ensures r.graph.edges == lv.graph.edges
  {
    var (g, n) := AddNode(lv.graph, lower.nodes[x]);
    var r := Level(g, lv.down[x := n], lv.up[n := Copied(x)], lv.area[n := 1]);
    AddCoverKeepsCoherent(lower, merge, lv, Copied(x), lower.nodes[x], r);
    r
  }

  ghost predicate AllMerged(lv: Level)
  {
    forall n :: n in lv.up ==> lv.up[n].Merged?
  }

  /**
   * The collapse loop: visit the candidate pairs in order and merge each
   * pair neither of whose nodes has been merged yet. Afterwards every
   * candidate has at least one merged end: the matching cannot be grown.
   */
  function MergePass(lower: SurfelGraph, merge: (Surfel, Surfel) -> Surfel, pairs: seq<(NodeId, NodeId)>, lv: Level): (r: Level)
    requires Coherent(lower, merge, lv) && AllMerged(lv)
    requires forall p :: p in pairs ==> p.0 in lower.nodes && p.1 in lower.nodes
    ensures Coherent(lower, merge, r) && AllMerged(r)
    ensures forall p :: p in pairs ==> p.0 in r.down || p.1 in r.down
    ensures forall x :: x in lv.down ==> x in r.down && r.down[x] == lv.down[x]
    ensures r.graph.edges == lv.graph.edges
    decreases |pairs|
  {
    if |pairs| == 0 then lv
    else
      var (a, b) := pairs[0];
      assert forall p :: p in pairs <==> p == pairs[0] || p in pairs[1..];
      if a in lv.down || b in lv.down then MergePass(lower, merge, pairs[1..], lv)
      else MergePass(lower, merge, pairs[1..], MergeStep(lower, merge, lv, a, b))
  }

  /** The loop over all lower nodes that copies each one not merged. */
  function CopyPass(lower: SurfelGraph, merge: (Surfel, Surfel) -> Surfel, ids: seq<NodeId>, lv: Level): (r: Level)
    requires Coherent(lower, merge, lv)
    requires forall k :: 0 <= k < |ids| ==> ids[k] in lower.nodes
    ensures Coherent(lower, merge, r)
    ensures forall x :: x in r.down <==> x in lv.down || x in ids
    ensures forall x :: x in lv.down ==> r.down[x] == lv.down[x]
    ensures forall n :: n in lv.up ==> n in r.up && r.up[n] == lv.up[n]
    ensures r.graph.edges == lv.graph.edges
    decreases |ids|
  {
    if |ids| == 0 then lv
    else
      var x := ids[0];
      var next := if x in lv.down then lv else CopyStep(lower, merge, lv, x);
      var r := CopyPass(lower, merge, ids[1..], next);
      assert forall y :: y in ids <==> y == x || y in ids[1..];
      r
  }

  /**
   * Lower link `p` joins new nodes `x` and `y`: its ends map to them, in
   * either order, and they are different nodes.
   */
  predicate Joins(down: map<NodeId, NodeId>, p: (NodeId, NodeId), x: NodeId, y: NodeId)
  {
    && p.0 in down && p.1 in down && down[p.0] != down[p.1]
    && ((down[p.0] == x && down[p.1] == y) || (down[p.0] == y && down[p.1] == x))
  }

  /** `has_edge` in an undirected graph after one more edge is stored. */
  lemma HasEdgeAfterAppend(g: SurfelGraph, r: SurfelGraph, e: Edge<EdgeLabels>)
    requires !g.directed && r.directed == g.directed && r.edges == g.edges + [e]
    ensures forall x, y :: HasEdge(r, x, y) <==> HasEdge(g, x, y) || (e.from == x && e.to == y) || (e.from == y && e.to == x)
  {
    forall x: NodeId, y: NodeId
      ensures HasEdge(r, x, y) <==> HasEdge(g, x, y) || (e.from == x && e.to == y) || (e.from == y && e.to == x)
    {
      StoredAppend(g.edges, e, x, y);
      StoredAppend(g.edges, e, y, x);
    }
  }

  /**
   * One neighbour of the edge loop: link the new nodes of the two ends
   * with weight 1, unless they are the same node or already linked.
   */
  function LinkOne(g: SurfelGraph, down: map<NodeId, NodeId>, p: (NodeId, NodeId)): (r: SurfelGraph)
    requires Valid(g) && !g.directed && NoSelfEdges(g)
    requires forall x :: x in down ==> down[x] in g.nodes
    requires p.0 in down && p.1 in down
    ensures Valid(r) && !r.directed && NoSelfEdges(r) && r.nodes == g.nodes
    ensures forall x, y :: HasEdge(r, x, y) <==> HasEdge(g, x, y) || Joins(down, p, x, y)
  {
    var n := down[p.0];
    var nn := down[p.1];
    if n == nn || HasEdge(g, n, nn) then g
    else
      var r := AddEdge(g, n, nn, NewEdge(1.0)).value;
      AddEdgeKeepsValid(g, n, nn, NewEdge(1.0));
      assert r.edges == g.edges + [Edge(n, nn, NewEdge(1.0))];
      HasEdgeAfterAppend(g, r, Edge(n, nn, NewEdge(1.0)));
      r
  }

  /** The edge loop over a list of lower links. */
  function LinkPass(g: SurfelGraph, down: map<NodeId, NodeId>, links: seq<(NodeId, NodeId)>): (r: SurfelGraph)
    requires Valid(g) && !g.directed && NoSelfEdges(g)
    requires forall x :: x in down ==> down[x] in g.nodes
    requires forall p :: p in links ==> p.0 in down && p.1 in down
    ensures Valid(r) && !r.directed && NoSelfEdges(r) && r.nodes == g.nodes
    ensures forall x, y :: HasEdge(r, x, y) <==> HasEdge(g, x, y) || exists p :: p in links && Joins(down, p, x, y)
    decreases |links|
  {
    if |links| == 0 then g
    else
      assert forall p :: p in links <==> p == links[0] || p in links[1..];
      LinkPass(LinkOne(g, down, links[0]), down, links[1..])
  }

  /** Node `x` paired with each of `ns`, in order. */
  function PairsFrom(x: NodeId, ns: seq<NodeId>): (r: seq<(NodeId, NodeId)>)
    ensures forall p :: p in r <==> p.0 == x && p.1 in ns
  {
    if |ns| == 0 then []
    else
      assert forall y :: y in ns <==> y == ns[0] || y in ns[1..];
      [(x, ns[0])] + PairsFrom(x, ns[1..])
  }

  /** Every node of `ids` paired with each of its neighbours in the lower graph. */
  function Links(lower: SurfelGraph, ids: seq<NodeId>): (r: seq<(NodeId, NodeId)>)
    requires forall k :: 0 <= k < |ids| ==> ids[k] in lower.nodes
    ensures forall p :: p in r <==> p.0 in ids && HasEdge(lower, p.0, p.1)
  {
    if |ids| == 0 then []
    else
      assert forall y :: y in ids <==> y == ids[0] || y in ids[1..];
      PairsFrom(ids[0], Neighbours(lower, ids[0]).value) + Links(lower, ids[1..])
  }

  /**
   * The candidate pairs in visiting order: the ends of the edge at each
   * position of `order` (a position past the last edge names no edge).
   */
  function Candidates(lower: SurfelGraph, order: seq<nat>): (r: seq<(NodeId, NodeId)>)
    ensures forall p :: p in r ==> Stored(lower.edges, p.0, p.1)
    ensures forall k :: 0 <= k < |order| && order[k] < |lower.edges| ==> (lower.edges[order[k]].from, lower.edges[order[k]].to) in r
  {
    if |order| == 0 then []
    else
      var rest := Candidates(lower, order[1..]);
      assert forall k :: 1 <= k < |order| ==> order[k] == order[1..][k - 1];
      if order[0] < |lower.edges| then [(lower.edges[order[0]].from, lower.edges[order[0]].to)] + rest else rest
  }

  /** Lower node `x` went into a merge. */
  predicate WasMerged(lv: Level, x: NodeId)
  {
    x in lv.down && lv.down[x] in lv.up && lv.up[lv.down[x]].Merged?
  }

  /** The merge `surfel_merge_function` performs, with the given floating point part. */
  function MergeWith(geo: MergeGeometry): (merge: (Surfel, Surfel) -> Surfel)
    ensures forall s1, s2 :: merge(s1, s2) == MergeSurfels(s1, s2, geo)
  {
    (s1: Surfel, s2: Surfel) => MergeSurfels(s1, s2, geo)
  }

  /**
   * The collapse phase from an empty new graph: afterwards every visited
   * edge has a merged end, and every new node is a merge.
   */
  function Collapse(lower: SurfelGraph, order: seq<nat>, merge: (Surfel, Surfel) -> Surfel): (lv: Level)
    requires Valid(lower)
    ensures Coherent(lower, merge, lv) && AllMerged(lv) && |lv.graph.edges| == 0
    ensures forall k :: 0 <= k < |order| && order[k] < |lower.edges| ==>
              lower.edges[order[k]].from in lv.down || lower.edges[order[k]].to in lv.down
  {
    var candidates := Candidates(lower, order);
    forall p | p in candidates ensures p.0 in lower.nodes && p.1 in lower.nodes {
      EdgeEndsPresent(lower, p.0, p.1);
    }
    MergePass(lower, merge, candidates, Start)
  }

  /**
   * The copy phase: every lower node is now mapped, and the merges made
   * before are untouched.
   */
  function CopyRest(lower: SurfelGraph, merge: (Surfel, Surfel) -> Surfel, lv: Level): (r: Level)
    requires Coherent(lower, merge, lv)
    ensures Coherent(lower, merge, r) && r.graph.edges == lv.graph.edges
    ensures r.down.Keys == lower.nodes.Keys
    ensures forall x :: x in lv.down ==> r.down[x] == lv.down[x]
    ensures forall n :: n in lv.up ==> n in r.up && r.up[n] == lv.up[n]
  {
    var ids := Ascending(lower.nodes.Keys);
    var r := CopyPass(lower, merge, ids, lv);
    KeysCovered(lower.nodes.Keys, lv.down, r.down, ids);
    r
  }

  /** Mapping every listed node, when the list is all of `keys` and nothing outside them was mapped, maps exactly `keys`. */
  lemma KeysCovered(keys: set<NodeId>, before: map<NodeId, NodeId>, after: map<NodeId, NodeId>, ids: seq<NodeId>)
    requires forall x :: x in ids <==> x in keys
    requires forall x :: x in before ==> x in keys
    requires forall x :: x in after <==> x in before || x in ids
    ensures after.Keys == keys
  {
  }

  /**
   * The edge phase on a level without edges yet: link the new nodes of
   * every lower node and each of its neighbours.
   */
  function Link(lower: SurfelGraph, merge: (Surfel, Surfel) -> Surfel, lv: Level): (r: Level)
    requires Valid(lower) && Coherent(lower, merge, lv) && |lv.graph.edges| == 0
    requires lv.down.Keys == lower.nodes.Keys
    ensures Coherent(lower, merge, r)
    ensures r.down == lv.down && r.up == lv.up && r.area == lv.area && r.graph.nodes == lv.graph.nodes
    ensures forall x, y :: HasEdge(r.graph, x, y) <==> exists a, b :: HasEdge(lower, a, b) && Joins(r.down, (a, b), x, y)
  {
    var ids := Ascending(lower.nodes.Keys);
    var links := Links(lower, ids);
    LinksReady(lower, lv, links);
    var g := LinkPass(lv.graph, lv.down, links);
    CoarsenLinks(lower, lv.down, ids, links, g, lv.graph);
    WithGraphKeepsCoherent(lower, merge, lv, g);
    lv.(graph := g)
  }

  /** Every lower link has both ends mapped, to nodes of the new graph. */
  lemma LinksReady(lower: SurfelGraph, lv: Level, links: seq<(NodeId, NodeId)>)
    requires Valid(lower) && DownInCover(lower, lv) && lv.up.Keys == lv.graph.nodes.Keys
    requires lv.down.Keys == lower.nodes.Keys
    requires forall p :: p in links ==> HasEdge(lower, p.0, p.1)
    ensures forall x :: x in lv.down ==> lv.down[x] in lv.graph.nodes
    ensures forall p :: p in links ==> p.0 in lv.down && p.1 in lv.down
  {
    forall p | p in links ensures p.0 in lv.down && p.1 in lv.down {
      EdgeEndsPresent(lower, p.0, p.1);
    }
  }

  /** Replacing the graph by one with the same nodes, still valid, undirected and free of self edges, keeps a level coherent. */
  lemma WithGraphKeepsCoherent(lower: SurfelGraph, merge: (Surfel, Surfel) -> Surfel, lv: Level, g: SurfelGraph)
    requires Coherent(lower, merge, lv)
    requires Valid(g) && !g.directed && NoSelfEdges(g) && g.nodes == lv.graph.nodes
    ensures Coherent(lower, merge, lv.(graph := g))
  {
    var r := lv.(graph := g);
    assert Shaped(r);
    SameMapsKeepCoherent(lower, merge, lv, r);
  }

  /** The conditions on the mappings only read the mappings and the nodes. */
  lemma SameMapsKeepCoherent(lower: SurfelGraph, merge: (Surfel, Surfel) -> Surfel, lv: Level, r: Level)
    requires DownInCover(lower, lv) && CoverMapsUp(lv) && HoldsCovers(lower, merge, lv) && AreasAdd(lv)
    requires r.down == lv.down && r.up == lv.up && r.area == lv.area && r.graph.nodes == lv.graph.nodes
    ensures DownInCover(lower, r) && CoverMapsUp(r) && HoldsCovers(lower, merge, r) && AreasAdd(r)
  {
  }

  // ------------------------------------------------------------------
  // The dual areas, keyed by surfel id

  /** `dual_area_by_node.at` found no entry for a surfel id: `std::out_of_range`. */
  datatype LevelError = MissingArea

  /** The surfel ids of a graph's nodes: the keys `dual_area_by_node` starts with. */
  function IdsOf(g: SurfelGraph): (ids: set<string>)
    ensures forall x :: x in g.nodes ==> g.nodes[x].id in ids
  {
    set x | x in g.nodes :: g.nodes[x].id
  }

  /**
   * The keys of `dual_area_by_node` through the collapse loop. A pair
   * neither of whose nodes is in `done` looks both ids up, fails when one
   * is missing, and otherwise erases both and inserts the merged surfel's
   * id. The map is keyed by surfel id, not by node, so two nodes sharing
   * an id share one entry, and erasing it for one leaves the other
   * without an area.
   */
  function AreaKeysPass(lower: SurfelGraph, pairs: seq<(NodeId, NodeId)>, done: set<NodeId>, keys: set<string>): (r: Result<set<string>, LevelError>)
    requires forall p :: p in pairs ==> p.0 in lower.nodes && p.1 in lower.nodes
    ensures (forall x :: x in lower.nodes && x !in done ==> lower.nodes[x].id in keys)
            && (forall x, y :: x in lower.nodes && y in lower.nodes && x != y ==> lower.nodes[x].id != lower.nodes[y].id)
            ==> r.Success?
    decreases |pairs|
  {
    if |pairs| == 0 then Success(keys)
    else
      var (a, b) := pairs[0];
      assert pairs[0] in pairs;
      assert forall p :: p in pairs[1..] ==> p in pairs;
      if a in done || b in done then AreaKeysPass(lower, pairs[1..], done, keys)
      else
        var ia := lower.nodes[a].id;
        var ib := lower.nodes[b].id;
        if ia !in keys || ib !in keys then Failure(MissingArea)
        else AreaKeysPass(lower, pairs[1..], done + {a, b}, keys - {ia, ib} + {"(" + ia + " + " + ib + ")"})
  }

  /** Whether every area lookup of the collapse loop finds its entry. */
  function AreasFound(lower: SurfelGraph, order: seq<nat>): (r: bool)
    requires Valid(lower)
    ensures (forall x, y :: x in lower.nodes && y in lower.nodes && x != y ==> lower.nodes[x].id != lower.nodes[y].id) ==> r
  {
    var candidates := Candidates(lower, order);
    forall p | p in candidates ensures p.0 in lower.nodes && p.1 in lower.nodes {
      EdgeEndsPresent(lower, p.0, p.1);
    }
    AreaKeysPass(lower, candidates, {}, IdsOf(lower)).Success?
  }

  /** A merged surfel's id is longer than either part's, so it never coincides with one. */
  lemma MergedIdIsNew(ia: string, ib: string)
    ensures "(" + ia + " + " + ib + ")" != ia
  {
    assert |"(" + ia + " + " + ib + ")"| > |ia|;
  }

  /**
   * Two nodes that share a surfel id, each the first end of one of the
   * first two visited edges, with the four ends distinct: merging the
   * first pair erases the shared id, so the second pair's lookup misses.
   */
  lemma SharedIdMissesArea(lower: SurfelGraph, order: seq<nat>)
    requires Valid(lower) && |order| >= 2 && order[0] < |lower.edges| && order[1] < |lower.edges|
    requires var e0 := lower.edges[order[0]]; var e1 := lower.edges[order[1]];
             |{e0.from, e0.to, e1.from, e1.to}| == 4
    requires lower.edges[order[0]].from in lower.nodes && lower.edges[order[1]].from in lower.nodes
    requires lower.nodes[lower.edges[order[0]].from].id == lower.nodes[lower.edges[order[1]].from].id
    ensures !AreasFound(lower, order)
  {
    var e0 := lower.edges[order[0]];
    var e1 := lower.edges[order[1]];
    var candidates := Candidates(lower, order);
    var rest := Candidates(lower, order[1..]);
    assert candidates == [(e0.from, e0.to)] + rest;
    assert order[1..][0] == order[1];
    assert rest == [(e1.from, e1.to)] + Candidates(lower, order[1..][1..]);
    forall p | p in candidates ensures p.0 in lower.nodes && p.1 in lower.nodes {
      EdgeEndsPresent(lower, p.0, p.1);
    }
    EdgeEndsPresent(lower, e0.from, e0.to);
    EdgeEndsPresent(lower, e1.from, e1.to);
    var ia := lower.nodes[e0.from].id;
    var ib := lower.nodes[e0.to].id;
    MergedIdIsNew(ia, ib);
    var keys := IdsOf(lower) - {ia, ib} + {"(" + ia + " + " + ib + ")"};
    assert lower.nodes[e1.from].id !in keys;
    assert candidates[1..] == rest;
    assert AreaKeysPass(lower, candidates, {}, IdsOf(lower)) == AreaKeysPass(lower, rest, {e0.from, e0.to}, keys);
    assert AreaKeysPass(lower, rest, {e0.from, e0.to}, keys) == Failure(MissingArea);
  }

  /**
   * `generate_new_level_additive`: merge along the edges in the given
   * order, copy the rest, then link. It fails when an area lookup misses,
   * which nodes sharing a surfel id can cause and distinct ids rule out.
   * Otherwise every lower node maps to one new node; two new nodes are
   * linked exactly when some lower edge joins their parts; and no visited
   * edge is left with both ends unmerged.
   */
  function Coarsen(lower: SurfelGraph, order: seq<nat>, geo: MergeGeometry): (r: Result<Level, LevelError>)
    requires Valid(lower)
    ensures r.Failure? <==> !AreasFound(lower, order)
    ensures r.Success? ==> Coherent(lower, MergeWith(geo), r.value)
    ensures r.Success? ==> r.value.down.Keys == lower.nodes.Keys
    ensures r.Success? ==> forall x, y :: HasEdge(r.value.graph, x, y) <==> exists a, b :: HasEdge(lower, a, b) && Joins(r.value.down, (a, b), x, y)
    ensures r.Success? ==> forall k :: 0 <= k < |order| && order[k] < |lower.edges| ==>
              WasMerged(r.value, lower.edges[order[k]].from) || WasMerged(r.value, lower.edges[order[k]].to)
  {
    if !AreasFound(lower, order) then Failure(MissingArea)
    else
      var merge := MergeWith(geo);
      var merged := Collapse(lower, order, merge);
      var copied := CopyRest(lower, merge, merged);
      var lv := Link(lower, merge, copied);
      StayMerged(merged, copied, lv);
      Success(lv)
  }

  /** Nodes merged in the collapse phase are still merged once the later phases leave their mappings alone. */
  lemma StayMerged(merged: Level, copied: Level, lv: Level)
    requires forall x :: x in merged.down ==> merged.down[x] in merged.up
    requires AllMerged(merged)
    requires forall x :: x in merged.down ==> x in copied.down && copied.down[x] == merged.down[x]
    requires forall n :: n in merged.up ==> n in copied.up && copied.up[n] == merged.up[n]
    requires lv.down == copied.down && lv.up == copied.up
    ensures forall x :: x in merged.down ==> WasMerged(lv, x)
  {
  }

  lemma CoarsenLinks(lower: SurfelGraph, down: map<NodeId, NodeId>, ids: seq<NodeId>, links: seq<(NodeId, NodeId)>,
                     g: SurfelGraph, g0: SurfelGraph)
    requires Valid(lower) && |g0.edges| == 0
    requires forall x :: x in ids <==> x in lower.nodes
    requires forall p :: p in links <==> p.0 in ids && HasEdge(lower, p.0, p.1)
    requires forall x, y :: HasEdge(g, x, y) <==> HasEdge(g0, x, y) || exists p :: p in links && Joins(down, p, x, y)
    ensures forall x, y :: HasEdge(g, x, y) <==> exists a, b :: HasEdge(lower, a, b) && Joins(down, (a, b), x, y)
  {
    forall x, y | HasEdge(g, x, y) ensures exists a, b :: HasEdge(lower, a, b) && Joins(down, (a, b), x, y) {
      assert !Stored(g0.edges, x, y) && !Stored(g0.edges, y, x);
      var p :| p in links && Joins(down, p, x, y);
      assert HasEdge(lower, p.0, p.1) && Joins(down, (p.0, p.1), x, y);
    }
    forall x, y | exists a, b :: HasEdge(lower, a, b) && Joins(down, (a, b), x, y) ensures HasEdge(g, x, y) {
      var a: NodeId, b: NodeId :| HasEdge(lower, a, b) && Joins(down, (a, b), x, y);
      EdgeEndsPresent(lower, a, b);
      assert (a, b) in links;
    }
  }

  /** The lower nodes mapped to new node `n`. */
  function Preimage(down: map<NodeId, NodeId>, n: NodeId): set<NodeId>
  {
    set x | x in down && down[x] == n
  }

  /** No lower node lies in the covers of two different new nodes. */
  lemma CoverUnique(lv: Level, n1: NodeId, n2: NodeId, x: NodeId)
    requires CoverMapsUp(lv)
    requires n1 in lv.up && n2 in lv.up && x in Parts(lv.up[n1]) && x in Parts(lv.up[n2])
    ensures n1 == n2
  {
    assert lv.down[x] == n1 && lv.down[x] == n2;
  }

  /**
   * The lower nodes mapping to a new node are exactly its cover: one
   * copied node or the two merged ones (one, for a node merged with
   * itself across a self loop).
   */
  lemma PreimageIsCover(lower: SurfelGraph, lv: Level, n: NodeId)
    requires DownInCover(lower, lv) && CoverMapsUp(lv) && n in lv.up
    ensures Preimage(lv.down, n) == Parts(lv.up[n])
    ensures 1 <= |Preimage(lv.down, n)| <= 2
  {
    var c := lv.up[n];
    forall x | x in Parts(c) ensures x in Preimage(lv.down, n) {
    }
    forall x | x in Preimage(lv.down, n) ensures x in Parts(c) {
    }
    match c
    case Merged(a, b) =>
      if a == b {
        assert {a, b} == {a};
      } else {
        assert |{a, b}| == 2;
      }
    case Copied(a) =>
  }

  /**
   * A new node's dual area is the number of lower nodes it stands for,
   * each of which started with area 1 (a merge of a node with itself,
   * across a self loop, still counts both parts).
   */
  lemma AreaIsSumOfParts(lower: SurfelGraph, lv: Level, n: NodeId)
    requires DownInCover(lower, lv) && CoverMapsUp(lv) && AreasAdd(lv)
    requires n in lv.up && n in lv.area
    requires lv.up[n].Merged? ==> lv.up[n].first != lv.up[n].second
    ensures lv.area[n] == |Preimage(lv.down, n)|
  {
    PreimageIsCover(lower, lv, n);
    match lv.up[n]
    case Merged(a, b) =>
      assert |{a, b}| == 2;
    case Copied(a) =>
  }

  // ------------------------------------------------------------------
  // The stack of levels

  /**
   * The levels, finest first, and for each coarser level the cover of
   * each of its nodes in the level below.
   */
  datatype MultiResolutionGraph = MultiResolutionGraph(levels: seq<SurfelGraph>, upMaps: seq<map<NodeId, Cover>>)

  ghost predicate WellFormed(m: MultiResolutionGraph)
  {
    && |m.levels| == |m.upMaps| + 1
    && (forall k :: 0 <= k < |m.levels| ==> Valid(m.levels[k]))
  }

  /** The constructor: the given graph is the only level. */
  function FromGraph(g: SurfelGraph): (m: MultiResolutionGraph)
    requires Valid(g)
    ensures WellFormed(m) && m.levels == [g]
  {
    MultiResolutionGraph([g], [])
  }

  /** Appends one coarser level, built from the coarsest one; fails when building it does. */
  function AddLevel(m: MultiResolutionGraph, orderOf: SurfelGraph -> seq<nat>, geo: MergeGeometry): (r: Result<MultiResolutionGraph, LevelError>)
    requires WellFormed(m)
    ensures var last := m.levels[|m.levels| - 1];
            r.Failure? <==> !AreasFound(last, orderOf(last))
    ensures r.Success? ==> WellFormed(r.value)
    ensures r.Success? ==> |r.value.levels| == |m.levels| + 1 && r.value.levels[..|m.levels|] == m.levels && r.value.upMaps[..|m.upMaps|] == m.upMaps
  {
    var last := m.levels[|m.levels| - 1];
    var lv :- Coarsen(last, orderOf(last), geo);
    Success(MultiResolutionGraph(m.levels + [lv.graph], m.upMaps + [lv.up]))
  }

  /** `count` more levels, one after another; the first failure ends the loop. */
  function AddLevels(m: MultiResolutionGraph, count: nat, orderOf: SurfelGraph -> seq<nat>, geo: MergeGeometry): (r: Result<MultiResolutionGraph, LevelError>)
    requires WellFormed(m)
    ensures count == 0 ==> r == Success(m)
    ensures count > 0 && AddLevel(m, orderOf, geo).Failure? ==> r.Failure?
    ensures r.Success? ==> WellFormed(r.value)
    ensures r.Success? ==> |r.value.levels| == |m.levels| + count && r.value.levels[..|m.levels|] == m.levels
    decreases count
  {
    if count == 0 then Success(m)
    else
      var m1 :- AddLevel(m, orderOf, geo);
      var r :- AddLevels(m1, count - 1, orderOf, geo);
      PrefixOfPrefix(m.levels, m1.levels, r.levels);
      Success(r)
  }

  /**
   * `generate_levels` as written: nothing for 0 levels or when there are
   * already enough, and otherwise `num - 1` new levels, however many
   * levels already exist.
   */
  function GenerateLevelsAsWritten(m: MultiResolutionGraph, num: nat, orderOf: SurfelGraph -> seq<nat>, geo: MergeGeometry): (r: Result<MultiResolutionGraph, LevelError>)
    requires WellFormed(m)
    ensures num == 0 || |m.levels| >= num ==> r == Success(m)
    ensures 0 < num && |m.levels| < num && r.Success? ==> |r.value.levels| == |m.levels| + num - 1
    ensures r.Success? ==> WellFormed(r.value) && r.value.levels[..|m.levels|] == m.levels
  {
    if num == 0 || |m.levels| >= num then Success(m)
    else AddLevels(m, num - 1, orderOf, geo)
  }

  /**
   * With levels already generated, asking for one more than exist adds
   * more than one: from two levels, a request for three ends with four
   * whenever the levels can be built at all.
   */
  lemma GenerateLevelsOvershoots(g: SurfelGraph, orderOf: SurfelGraph -> seq<nat>, geo: MergeGeometry)
    requires Valid(g)
    ensures var m := GenerateLevelsAsWritten(FromGraph(g), 2, orderOf, geo);
            m.Success? ==>
              |m.value.levels| == 2 &&
              (GenerateLevelsAsWritten(m.value, 3, orderOf, geo).Success? ==> |GenerateLevelsAsWritten(m.value, 3, orderOf, geo).value.levels| == 4)
  {
  }

  /**
   * `generate_levels` as its guard intends: top the stack up to `num`
   * levels, leaving the existing ones untouched.
   */
  function GenerateLevels(m: MultiResolutionGraph, num: nat, orderOf: SurfelGraph -> seq<nat>, geo: MergeGeometry): (r: Result<MultiResolutionGraph, LevelError>)
    requires WellFormed(m)
    ensures |m.levels| >= num ==> r == Success(m)
    ensures r.Success? ==> |r.value.levels| == if |m.levels| < num then num else |m.levels|
    ensures r.Success? ==> WellFormed(r.value) && r.value.levels[..|m.levels|] == m.levels
  {
    if num == 0 || |m.levels| >= num then Success(m)
    else AddLevels(m, num - |m.levels|, orderOf, geo)
  }

  /** Generating the same number of levels twice changes nothing the second time. */
  lemma GenerateLevelsIdempotent(m: MultiResolutionGraph, num: nat, orderOf: SurfelGraph -> seq<nat>, geo: MergeGeometry)
    requires WellFormed(m)
    ensures GenerateLevels(m, num, orderOf, geo).Success? ==>
              GenerateLevels(GenerateLevels(m, num, orderOf, geo).value, num, orderOf, geo) == GenerateLevels(m, num, orderOf, geo)
  {
  }

  /** On a fresh stack, as written and as intended agree. */
  lemma GenerateLevelsFromOneLevel(g: SurfelGraph, num: nat, orderOf: SurfelGraph -> seq<nat>, geo: MergeGeometry)
    requires Valid(g)
    ensures GenerateLevelsAsWritten(FromGraph(g), num, orderOf, geo) == GenerateLevels(FromGraph(g), num, orderOf, geo)
  {
  }
}
