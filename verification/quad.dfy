/**
 * The quad-mesh edge graph of one frame. Every link of the surfel graph
 * between two surfels seen in the frame is kept once per unordered pair of
 * surfel ids, and each id gets one output vertex. Each kept link is then
 * classified by the lattice shifts its two ends agree on: links that jump
 * more than one lattice step, or one step diagonally, are dropped; a
 * single step is a red edge and no step at all a blue one. Collapsing
 * merges the ends of the blue edges.
 *
 * The geometry is floating point and is not modelled: the lattice point of
 * a surfel and the best pair of lattice shifts of a link are parameters.
 */
module Quad {
  import opened Wrappers
  import opened Graph
  import opened Surfel

  /** `EdgeType`: red (numbered 1) joins distinct lattice points, blue (2) the same point. */
  datatype EdgeType = Red | Blue

  function EdgeTypeValue(t: EdgeType): (v: nat)
    ensures v == 1 <==> t == Red
    ensures v == 2 <==> t == Blue
  {
    match t
    case Red => 1
    case Blue => 2
  }

  /** A vertex of the output graph: the surfel ids it stands for and its location. */
  datatype QuadVertex = QuadVertex(surfelId: string, location: Vector3)

  type QuadGraph = Graph<QuadVertex, EdgeType>

  /** A lattice shift, `Vector2i`. */
  type Shift = (int, int)

  function Abs(x: int): nat
  {
    if x < 0 then -x else x
  }

  // ------------------------------------------------------------------
  // Classification

  /**
   * The type of a link whose ends have shifts `tij` and `tji`, or none when
   * the link is dropped: a coordinate differing by more than one, or both
   * coordinates differing by one. So a link is blue exactly when the shifts
   * agree, and red exactly when they differ by one step along one axis.
   */
  function Classify(tij: Shift, tji: Shift): (r: Option<EdgeType>)
    ensures r == Some(Blue) <==> tij == tji
    ensures r == Some(Red) <==>
              (tij.0 == tji.0 && Abs(tij.1 - tji.1) == 1) || (tij.1 == tji.1 && Abs(tij.0 - tji.0) == 1)
    ensures r == None <==>
              Abs(tij.0 - tji.0) > 1 || Abs(tij.1 - tji.1) > 1 || (Abs(tij.0 - tji.0) == 1 && Abs(tij.1 - tji.1) == 1)
  {
    var d := (Abs(tij.0 - tji.0), Abs(tij.1 - tji.1));
    if d.0 > 1 || d.1 > 1 || d == (1, 1) then None
    else if d.0 + d.1 != 0 then Some(Red)
    else Some(Blue)
  }

  /** The classification does not depend on which end the link is seen from. */
  lemma ClassifySymmetric(tij: Shift, tji: Shift)
    ensures Classify(tij, tji) == Classify(tji, tij)
  {
    assert Abs(tij.0 - tji.0) == Abs(tji.0 - tij.0);
    assert Abs(tij.1 - tji.1) == Abs(tji.1 - tij.1);
  }

  // ------------------------------------------------------------------
  // Collecting the links of the frame

  /** Every edge of the surfel graph joins two of its nodes. */
  ghost predicate EndsPresent<E>(g: Graph<Surfel, E>)
  {
    forall i :: 0 <= i < |g.edges| ==> g.edges[i].from in g.nodes && g.edges[i].to in g.nodes
  }

  /** Every kept link joins two nodes of the graph. */
  predicate KeptPresent<E>(g: Graph<Surfel, E>, kept: seq<Edge<E>>)
  {
    forall k :: 0 <= k < |kept| ==> kept[k].from in g.nodes && kept[k].to in g.nodes
  }

  /** The surfel ids at the two ends of an edge. */
  function Ends<E>(g: Graph<Surfel, E>, e: Edge<E>): (string, string)
    requires e.from in g.nodes && e.to in g.nodes
  {
    (g.nodes[e.from].id, g.nodes[e.to].id)
  }

  /** Both ends of the edge are seen in the frame. */
  predicate InFrameEdge<E>(g: Graph<Surfel, E>, frame: nat, e: Edge<E>)
    requires e.from in g.nodes && e.to in g.nodes
  {
    IsInFrame(g.nodes[e.from], frame) && IsInFrame(g.nodes[e.to], frame)
  }

  /** Two id pairs name the same unordered pair. */
  predicate SamePair(p: (string, string), q: (string, string))
  {
    p == q || (p.0 == q.1 && p.1 == q.0)
  }

  /** The state of the first loop: the pairs counted, the links kept, the output graph and the vertex of each id. */
  datatype Collected<E> = Collected(counted: set<(string, string)>, kept: seq<Edge<E>>, out: QuadGraph, nodeOf: map<string, NodeId>)

  /** The vertex for surfel `s`, made only when its id has none yet. */
  function AddVertex<E>(c: Collected<E>, s: Surfel, place: Surfel -> Vector3): (r: Collected<E>)
    requires Valid(c.out)
    ensures Valid(r.out) && r.out.edges == c.out.edges && r.out.directed == c.out.directed
    ensures r.counted == c.counted && r.kept == c.kept
    ensures s.id in c.nodeOf ==> r == c
    ensures s.id !in c.nodeOf ==> && s.id in r.nodeOf && r.nodeOf[s.id] !in c.out.nodes
                                  && r.out.nodes == c.out.nodes[r.nodeOf[s.id] := QuadVertex(s.id, place(s))]
    ensures forall id :: id in r.nodeOf <==> id in c.nodeOf || id == s.id
    ensures forall id :: id in c.nodeOf ==> r.nodeOf[id] == c.nodeOf[id]
  {
    if s.id in c.nodeOf then c
    else
      var (out, n) := AddNode(c.out, QuadVertex(s.id, place(s)));
      c.(out := out, nodeOf := c.nodeOf[s.id := n])
  }

  /** One link of the surfel graph: kept when both ends are in the frame and its pair, in either order, is new. */
  function CollectOne<E>(c: Collected<E>, g: Graph<Surfel, E>, frame: nat, place: Surfel -> Vector3, e: Edge<E>): (r: Collected<E>)
    requires Valid(c.out) && e.from in g.nodes && e.to in g.nodes
    ensures Valid(r.out) && r.out.edges == c.out.edges && r.out.directed == c.out.directed
  {
    var a := g.nodes[e.from];
    var b := g.nodes[e.to];
    if !IsInFrame(a, frame) || !IsInFrame(b, frame) then c
    else if (a.id, b.id) in c.counted || (b.id, a.id) in c.counted then c
    else AddVertex(AddVertex(c.(counted := c.counted + {(a.id, b.id)}, kept := c.kept + [e]), a, place), b, place)
  }

  /** Nothing counted or kept, and an empty undirected output graph. */
  function Start<E>(): (c: Collected<E>)
    ensures Valid(c.out) && !c.out.directed
  {
    Collected({}, [], Empty(false), map[])
  }

  /** The first loop, over the surfel graph's edges from the `i`-th on. */
  function Collect<E>(c: Collected<E>, g: Graph<Surfel, E>, frame: nat, place: Surfel -> Vector3, i: nat): (r: Collected<E>)
    requires Valid(c.out) && EndsPresent(g) && i <= |g.edges|
    ensures Valid(r.out) && r.out.edges == c.out.edges && r.out.directed == c.out.directed
    decreases |g.edges| - i
  {
    if i == |g.edges| then c
    else Collect(CollectOne(c, g, frame, place, g.edges[i]), g, frame, place, i + 1)
  }

  // ------------------------------------------------------------------
  // Adding the classified links

  datatype QuadError = NoVertex(id: string) | EdgeRejected(error: GraphError)

  /** `map::at`: the vertex of an id, failing when it has none. */
  function VertexOf(nodeOf: map<string, NodeId>, id: string): Result<NodeId, QuadError>
  {
    if id in nodeOf then Success(nodeOf[id]) else Failure(NoVertex(id))
  }

  /**
   * The second loop: each kept link that is not dropped becomes an edge of
   * its type. It adds no vertex and keeps the edges already there, first.
   */
  function AddLinks<E>(out: QuadGraph, nodeOf: map<string, NodeId>, g: Graph<Surfel, E>, shift: (Surfel, Surfel) -> (Shift, Shift), kept: seq<Edge<E>>): (r: Result<QuadGraph, QuadError>)
    requires KeptPresent(g, kept)
    ensures r.Success? ==> r.value.nodes == out.nodes && r.value.directed == out.directed
    ensures r.Success? ==> |out.edges| <= |r.value.edges| && r.value.edges[..|out.edges|] == out.edges
    ensures r.Success? ==> |r.value.edges| <= |out.edges| + |kept|
    decreases |kept|
  {
    if kept == [] then Success(out)
    else
      var e := kept[0];
      var (tij, tji) := shift(g.nodes[e.from], g.nodes[e.to]);
      match Classify(tij, tji)
      case None => AddLinks(out, nodeOf, g, shift, kept[1..])
      case Some(t) =>
        var a :- VertexOf(nodeOf, g.nodes[e.from].id);
        var b :- VertexOf(nodeOf, g.nodes[e.to].id);
        var out1 := AddEdge(out, a, b, t);
        if out1.Failure? then Failure(EdgeRejected(out1.error))
        else
          var r := AddLinks(out1.value, nodeOf, g, shift, kept[1..]);
          assert r.Success? ==> r.value.edges[..|out.edges|] == r.value.edges[..|out1.value.edges|][..|out.edges|];
          r
  }

  /**
   * `build_edge_graph`: the undirected quad graph of one frame, whose
   * vertices are those the first loop made, and at most one edge per kept
   * link.
   */
  function BuildEdgeGraph<E>(g: Graph<Surfel, E>, frame: nat, place: Surfel -> Vector3, shift: (Surfel, Surfel) -> (Shift, Shift)): (r: Result<QuadGraph, QuadError>)
    requires EndsPresent(g)
    ensures r.Success? ==> !r.value.directed && r.value.nodes == Collect(Start(), g, frame, place, 0).out.nodes
    ensures r.Success? ==> |r.value.edges| <= |Collect(Start(), g, frame, place, 0).kept|
  {
    var c := Collect(Start(), g, frame, place, 0);
    CollectedEnds(g, frame, place);
    AddLinks(c.out, c.nodeOf, g, shift, c.kept)
  }

  // ------------------------------------------------------------------
  // What the first loop keeps

  /** Every kept link joins two surfels of the graph seen in the frame. */
  ghost predicate KeptFrom<E>(g: Graph<Surfel, E>, frame: nat, kept: seq<Edge<E>>)
  {
    forall k :: 0 <= k < |kept| ==> kept[k] in g.edges && kept[k].from in g.nodes && kept[k].to in g.nodes && InFrameEdge(g, frame, kept[k])
  }

  /** The kept links name different unordered pairs of ids. */
  ghost predicate PairsDistinct<E>(g: Graph<Surfel, E>, kept: seq<Edge<E>>)
    requires KeptPresent(g, kept)
  {
    forall k1, k2 :: 0 <= k1 < k2 < |kept| ==> !SamePair(Ends(g, kept[k1]), Ends(g, kept[k2]))
  }

  /** An id is at one end of some kept link. */
  ghost predicate EndOfKept<E>(g: Graph<Surfel, E>, kept: seq<Edge<E>>, id: string)
    requires KeptPresent(g, kept)
  {
    exists k :: 0 <= k < |kept| && (Ends(g, kept[k]).0 == id || Ends(g, kept[k]).1 == id)
  }

  /** The vertices are one per id at an end of a kept link, and nothing else. */
  ghost predicate OneVertexPerId<E>(g: Graph<Surfel, E>, c: Collected<E>)
    requires KeptPresent(g, c.kept)
  {
    && (forall id :: id in c.nodeOf <==> EndOfKept(g, c.kept, id))
    && (forall id :: id in c.nodeOf ==> c.nodeOf[id] in c.out.nodes && c.out.nodes[c.nodeOf[id]].surfelId == id)
    && (forall n :: n in c.out.nodes ==> c.out.nodes[n].surfelId in c.nodeOf && c.nodeOf[c.out.nodes[n].surfelId] == n)
  }

  /** The counted pairs are the kept links' pairs as first met. */
  ghost predicate CountedKept<E>(g: Graph<Surfel, E>, c: Collected<E>)
    requires KeptPresent(g, c.kept)
  {
    forall p :: p in c.counted <==> exists k :: 0 <= k < |c.kept| && Ends(g, c.kept[k]) == p
  }

  /** The invariant of the first loop. */
  ghost predicate CollectInv<E>(g: Graph<Surfel, E>, frame: nat, c: Collected<E>)
  {
    && Valid(c.out) && !c.out.directed && c.out.edges == []
    && KeptFrom(g, frame, c.kept)
    && PairsDistinct(g, c.kept)
    && CountedKept(g, c)
    && OneVertexPerId(g, c)
  }

  /** Every in-frame link among the first `i` has its pair, in some order, among the kept ones. */
  ghost predicate Covered<E>(g: Graph<Surfel, E>, frame: nat, c: Collected<E>, i: nat)
    requires EndsPresent(g) && i <= |g.edges|
    requires KeptPresent(g, c.kept)
  {
    forall j :: 0 <= j < i && InFrameEdge(g, frame, g.edges[j]) ==>
      exists k :: 0 <= k < |c.kept| && SamePair(Ends(g, g.edges[j]), Ends(g, c.kept[k]))
  }

  /** Ids of a kept link stay ends of kept links when the list grows. */
  lemma EndOfKeptGrows<E>(g: Graph<Surfel, E>, kept: seq<Edge<E>>, e: Edge<E>, id: string)
    requires KeptPresent(g, kept)
    requires e.from in g.nodes && e.to in g.nodes
    ensures EndOfKept(g, kept + [e], id) <==> EndOfKept(g, kept, id) || Ends(g, e).0 == id || Ends(g, e).1 == id
  {
    var kept1 := kept + [e];
    if EndOfKept(g, kept1, id) {
      var k :| 0 <= k < |kept1| && (Ends(g, kept1[k]).0 == id || Ends(g, kept1[k]).1 == id);
      if k < |kept| {
        assert kept1[k] == kept[k];
      }
    }
    if EndOfKept(g, kept, id) {
      var k :| 0 <= k < |kept| && (Ends(g, kept[k]).0 == id || Ends(g, kept[k]).1 == id);
      assert kept1[k] == kept[k];
    }
    if Ends(g, e).0 == id || Ends(g, e).1 == id {
      assert kept1[|kept|] == e;
    }
  }

  /** Adding the vertices of a newly kept link keeps one vertex per id. */
  lemma AddVerticesKeepIds<E>(g: Graph<Surfel, E>, c: Collected<E>, e: Edge<E>, place: Surfel -> Vector3)
    requires Valid(c.out)
    requires KeptPresent(g, c.kept)
    requires e.from in g.nodes && e.to in g.nodes
    requires OneVertexPerId(g, c)
    ensures var c1 := c.(kept := c.kept + [e]);
            var r := AddVertex(AddVertex(c1, g.nodes[e.from], place), g.nodes[e.to], place);
            OneVertexPerId(g, r)
  {
    var c1 := c.(kept := c.kept + [e]);
    var a := g.nodes[e.from];
    var b := g.nodes[e.to];
    var r1 := AddVertex(c1, a, place);
    var r := AddVertex(r1, b, place);
    forall id
      ensures id in r.nodeOf <==> EndOfKept(g, r.kept, id)
    {
      EndOfKeptGrows(g, c.kept, e, id);
    }
    forall n | n in r.out.nodes
      ensures r.out.nodes[n].surfelId in r.nodeOf && r.nodeOf[r.out.nodes[n].surfelId] == n
    {
      if n in r1.out.nodes {
        assert r.out.nodes[n] == r1.out.nodes[n];
        if n in c1.out.nodes {
          assert r1.out.nodes[n] == c1.out.nodes[n];
        }
      }
    }
    forall id | id in r.nodeOf
      ensures r.nodeOf[id] in r.out.nodes && r.out.nodes[r.nodeOf[id]].surfelId == id
    {
      if id in r1.nodeOf && id != b.id {
        assert r.nodeOf[id] == r1.nodeOf[id];
        if id in c1.nodeOf && id != a.id {
          assert r1.nodeOf[id] == c1.nodeOf[id];
        }
      }
    }
  }

  /** Keeping a link whose pair, in either order, was not counted keeps the kept pairs distinct. */
  lemma KeepDistinct<E>(g: Graph<Surfel, E>, c: Collected<E>, e: Edge<E>)
    requires KeptPresent(g, c.kept) && e.from in g.nodes && e.to in g.nodes
    requires PairsDistinct(g, c.kept) && CountedKept(g, c)
    requires Ends(g, e) !in c.counted && (Ends(g, e).1, Ends(g, e).0) !in c.counted
    ensures PairsDistinct(g, c.kept + [e])
  {
    var kept := c.kept + [e];
    forall k1, k2 | 0 <= k1 < k2 < |kept|
      ensures !SamePair(Ends(g, kept[k1]), Ends(g, kept[k2]))
    {
      assert kept[k1] == c.kept[k1];
      if k2 < |c.kept| {
        assert kept[k2] == c.kept[k2];
      } else {
        assert Ends(g, c.kept[k1]) in c.counted;
      }
    }
  }

  /** Counting a link's pair as it is kept keeps the counted set in step with the kept links. */
  lemma KeepCounted<E>(g: Graph<Surfel, E>, c: Collected<E>, e: Edge<E>)
    requires KeptPresent(g, c.kept) && e.from in g.nodes && e.to in g.nodes
    requires CountedKept(g, c)
    ensures CountedKept(g, c.(counted := c.counted + {Ends(g, e)}, kept := c.kept + [e]))
  {
    var c1 := c.(counted := c.counted + {Ends(g, e)}, kept := c.kept + [e]);
    forall p
      ensures p in c1.counted <==> exists k :: 0 <= k < |c1.kept| && Ends(g, c1.kept[k]) == p
    {
      if p in c.counted {
        var k :| 0 <= k < |c.kept| && Ends(g, c.kept[k]) == p;
        assert c1.kept[k] == c.kept[k];
      }
      if p == Ends(g, e) {
        assert c1.kept[|c.kept|] == e;
      }
      if exists k :: 0 <= k < |c1.kept| && Ends(g, c1.kept[k]) == p {
        var k :| 0 <= k < |c1.kept| && Ends(g, c1.kept[k]) == p;
        if k < |c.kept| {
          assert c1.kept[k] == c.kept[k];
        }
      }
    }
  }

  /** Keeping an in-frame link of the graph keeps every kept link one. */
  lemma KeepFrom<E>(g: Graph<Surfel, E>, frame: nat, kept: seq<Edge<E>>, e: Edge<E>)
    requires e in g.edges && e.from in g.nodes && e.to in g.nodes && InFrameEdge(g, frame, e)
    requires KeptFrom(g, frame, kept)
    ensures KeptFrom(g, frame, kept + [e])
  {
    var kept1 := kept + [e];
    forall k | 0 <= k < |kept1|
      ensures kept1[k] in g.edges && kept1[k].from in g.nodes && kept1[k].to in g.nodes && InFrameEdge(g, frame, kept1[k])
    {
      if k < |kept| {
        assert kept1[k] == kept[k];
      }
    }
  }

  /** One link keeps the first loop's invariant, and its pair is covered afterwards when it is in the frame. */
  lemma CollectOneKeeps<E>(g: Graph<Surfel, E>, frame: nat, place: Surfel -> Vector3, c: Collected<E>, e: Edge<E>)
    requires CollectInv(g, frame, c) && e in g.edges && e.from in g.nodes && e.to in g.nodes
    ensures var r := CollectOne(c, g, frame, place, e);
            && CollectInv(g, frame, r)
            && c.kept <= r.kept
            && (InFrameEdge(g, frame, e) ==> exists k :: 0 <= k < |r.kept| && SamePair(Ends(g, e), Ends(g, r.kept[k])))
  {
    var r := CollectOne(c, g, frame, place, e);
    if InFrameEdge(g, frame, e) {
      var p := Ends(g, e);
      if p in c.counted {
        var k :| 0 <= k < |c.kept| && Ends(g, c.kept[k]) == p;
        assert SamePair(p, Ends(g, r.kept[k]));
      } else if (p.1, p.0) in c.counted {
        var k :| 0 <= k < |c.kept| && Ends(g, c.kept[k]) == (p.1, p.0);
        assert SamePair(p, Ends(g, r.kept[k]));
      } else {
        KeepDistinct(g, c, e);
        KeepCounted(g, c, e);
        KeepFrom(g, frame, c.kept, e);
        var c1 := c.(counted := c.counted + {p}, kept := c.kept + [e]);
        AddVerticesKeepIds(g, c.(counted := c1.counted), e, place);
        assert r.kept == c1.kept && r.counted == c1.counted;
        assert r.kept[|c.kept|] == e;
      }
    }
  }

  /** The first loop keeps its invariant, and covers every in-frame link it visits. */
  lemma {:induction false} CollectKeeps<E>(g: Graph<Surfel, E>, frame: nat, place: Surfel -> Vector3, i: nat, c: Collected<E>)
    requires EndsPresent(g) && i <= |g.edges| && CollectInv(g, frame, c) && Covered(g, frame, c, i)
    ensures var r := Collect(c, g, frame, place, i);
            CollectInv(g, frame, r) && Covered(g, frame, r, |g.edges|)
    decreases |g.edges| - i
  {
    if i < |g.edges| {
      var e := g.edges[i];
      var c1 := CollectOne(c, g, frame, place, e);
      CollectOneKeeps(g, frame, place, c, e);
      forall j | 0 <= j < i + 1 && InFrameEdge(g, frame, g.edges[j])
        ensures exists k :: 0 <= k < |c1.kept| && SamePair(Ends(g, g.edges[j]), Ends(g, c1.kept[k]))
      {
        if j < i {
          var k :| 0 <= k < |c.kept| && SamePair(Ends(g, g.edges[j]), Ends(g, c.kept[k]));
          assert c1.kept[k] == c.kept[k];
        }
      }
      CollectKeeps(g, frame, place, i + 1, c1);
    }
  }

  lemma StartInv<E>(g: Graph<Surfel, E>, frame: nat)
    requires EndsPresent(g)
    ensures CollectInv(g, frame, Start()) && Covered(g, frame, Start(), 0)
  {
  }

  /** The whole first loop keeps its invariant and covers every in-frame link. */
  lemma CollectAll<E>(g: Graph<Surfel, E>, frame: nat, place: Surfel -> Vector3)
    requires EndsPresent(g)
    ensures var r := Collect(Start(), g, frame, place, 0);
            CollectInv(g, frame, r) && Covered(g, frame, r, |g.edges|)
  {
    StartInv<E>(g, frame);
    CollectKeeps(g, frame, place, 0, Start());
  }

  /** The kept links of the first loop join nodes of the graph. */
  lemma CollectedEnds<E>(g: Graph<Surfel, E>, frame: nat, place: Surfel -> Vector3)
    requires EndsPresent(g)
    ensures var r := Collect(Start(), g, frame, place, 0);
            KeptPresent(g, r.kept)
  {
    CollectAll(g, frame, place);
  }

  // ------------------------------------------------------------------
  // What the second loop adds

  /** The edge a kept link becomes, if it is not dropped. */
  function LinkEdge<E>(nodeOf: map<string, NodeId>, g: Graph<Surfel, E>, shift: (Surfel, Surfel) -> (Shift, Shift), e: Edge<E>): Option<Edge<EdgeType>>
    requires e.from in g.nodes && e.to in g.nodes
    requires Ends(g, e).0 in nodeOf && Ends(g, e).1 in nodeOf
  {
    var (tij, tji) := shift(g.nodes[e.from], g.nodes[e.to]);
    match Classify(tij, tji)
    case None => None
    case Some(t) => Some(Edge(nodeOf[Ends(g, e).0], nodeOf[Ends(g, e).1], t))
  }

  /** Every id at an end of a kept link has a vertex. */
  predicate Mapped<E>(nodeOf: map<string, NodeId>, g: Graph<Surfel, E>, kept: seq<Edge<E>>)
  {
    KeptPresent(g, kept) && forall k :: 0 <= k < |kept| ==> Ends(g, kept[k]).0 in nodeOf && Ends(g, kept[k]).1 in nodeOf
  }

  /** The edges the kept links become, in order: the reference for the second loop. */
  function LinkEdges<E>(nodeOf: map<string, NodeId>, g: Graph<Surfel, E>, shift: (Surfel, Surfel) -> (Shift, Shift), kept: seq<Edge<E>>): seq<Edge<EdgeType>>
    requires Mapped(nodeOf, g, kept)
    decreases |kept|
  {
    if kept == [] then []
    else
      var rest := LinkEdges(nodeOf, g, shift, kept[1..]);
      match LinkEdge(nodeOf, g, shift, kept[0])
      case None => rest
      case Some(edge) => [edge] + rest
  }

  /** The ids of the vertices an output edge joins. */
  function EdgeIds(out: QuadGraph, e: Edge<EdgeType>): (string, string)
    requires e.from in out.nodes && e.to in out.nodes
  {
    (out.nodes[e.from].surfelId, out.nodes[e.to].surfelId)
  }

  /** The vertices of the output graph are those `nodeOf` gives, each carrying its own id. */
  ghost predicate VerticesNamed(out: QuadGraph, nodeOf: map<string, NodeId>)
  {
    forall id :: id in nodeOf ==> nodeOf[id] in out.nodes && out.nodes[nodeOf[id]].surfelId == id
  }

  /** No edge already added joins the ids of a link still to come. */
  ghost predicate Fresh<E>(out: QuadGraph, g: Graph<Surfel, E>, kept: seq<Edge<E>>)
    requires Valid(out) && KeptPresent(g, kept)
  {
    forall i, k :: 0 <= i < |out.edges| && 0 <= k < |kept| ==> !SamePair(EdgeIds(out, out.edges[i]), Ends(g, kept[k]))
  }

  /** A link of new ids is never rejected by `add_edge`, and the added edge is fresh for the links after it. */
  lemma AddLinkStep<E>(out: QuadGraph, nodeOf: map<string, NodeId>, g: Graph<Surfel, E>, kept: seq<Edge<E>>, t: EdgeType)
    requires Valid(out) && !out.directed && VerticesNamed(out, nodeOf)
    requires kept != [] && Mapped(nodeOf, g, kept) && PairsDistinct(g, kept) && Fresh(out, g, kept)
    ensures var (a, b) := (nodeOf[Ends(g, kept[0]).0], nodeOf[Ends(g, kept[0]).1]);
            && AddEdge(out, a, b, t).Success?
            && Valid(AddEdge(out, a, b, t).value)
            && Fresh(AddEdge(out, a, b, t).value, g, kept[1..])
  {
    var (x, y) := Ends(g, kept[0]);
    var (a, b) := (nodeOf[x], nodeOf[y]);
    assert Ends(g, kept[0]) == (x, y);
    forall i | 0 <= i < |out.edges|
      ensures !(out.edges[i].from == a && out.edges[i].to == b) && !(out.edges[i].from == b && out.edges[i].to == a)
    {
      assert !SamePair(EdgeIds(out, out.edges[i]), (x, y));
    }
    AddEdgeKeepsValid(out, a, b, t);
    var out1 := AddEdge(out, a, b, t).value;
    var rest := kept[1..];
    forall i, k | 0 <= i < |out1.edges| && 0 <= k < |rest|
      ensures !SamePair(EdgeIds(out1, out1.edges[i]), Ends(g, rest[k]))
    {
      assert rest[k] == kept[k + 1];
      if i < |out.edges| {
        assert out1.edges[i] == out.edges[i];
      } else {
        assert EdgeIds(out1, out1.edges[i]) == (x, y);
      }
    }
  }

  /** Dropping the first kept link keeps what the second loop needs of the rest. */
  lemma LinksTail<E>(out: QuadGraph, nodeOf: map<string, NodeId>, g: Graph<Surfel, E>, kept: seq<Edge<E>>)
    requires Valid(out) && kept != []
    requires Mapped(nodeOf, g, kept) && PairsDistinct(g, kept) && Fresh(out, g, kept)
    ensures Mapped(nodeOf, g, kept[1..]) && PairsDistinct(g, kept[1..]) && Fresh(out, g, kept[1..])
  {
    var rest := kept[1..];
    assert forall k :: 0 <= k < |rest| ==> rest[k] == kept[k + 1];
  }

  /** A first link the classification drops adds no edge. */
  lemma SkipLink<E>(out: QuadGraph, nodeOf: map<string, NodeId>, g: Graph<Surfel, E>, shift: (Surfel, Surfel) -> (Shift, Shift), kept: seq<Edge<E>>)
    requires kept != [] && Mapped(nodeOf, g, kept) && Mapped(nodeOf, g, kept[1..])
    requires LinkEdge(nodeOf, g, shift, kept[0]).None?
    ensures AddLinks(out, nodeOf, g, shift, kept) == AddLinks(out, nodeOf, g, shift, kept[1..])
    ensures LinkEdges(nodeOf, g, shift, kept) == LinkEdges(nodeOf, g, shift, kept[1..])
  {
  }

  /** A first link that becomes `edge` adds it, and the second loop carries on from there. */
  lemma TakeLink<E>(out: QuadGraph, nodeOf: map<string, NodeId>, g: Graph<Surfel, E>, shift: (Surfel, Surfel) -> (Shift, Shift), kept: seq<Edge<E>>, edge: Edge<EdgeType>)
    requires kept != [] && Mapped(nodeOf, g, kept) && Mapped(nodeOf, g, kept[1..])
    requires LinkEdge(nodeOf, g, shift, kept[0]) == Some(edge)
    requires AddEdge(out, edge.from, edge.to, edge.data).Success?
    ensures AddLinks(out, nodeOf, g, shift, kept) == AddLinks(AddEdge(out, edge.from, edge.to, edge.data).value, nodeOf, g, shift, kept[1..])
    ensures LinkEdges(nodeOf, g, shift, kept) == [edge] + LinkEdges(nodeOf, g, shift, kept[1..])
  {
  }

  /** The second loop never fails on the first loop's links and adds exactly the edges they become, in order. */
  lemma {:induction false} AddLinksBuilds<E>(out: QuadGraph, nodeOf: map<string, NodeId>, g: Graph<Surfel, E>, shift: (Surfel, Surfel) -> (Shift, Shift), kept: seq<Edge<E>>)
    requires Valid(out) && !out.directed && VerticesNamed(out, nodeOf)
    requires Mapped(nodeOf, g, kept) && PairsDistinct(g, kept) && Fresh(out, g, kept)
    ensures AddLinks(out, nodeOf, g, shift, kept).Success?
    ensures var r := AddLinks(out, nodeOf, g, shift, kept).value;
            Valid(r) && r.directed == out.directed && r.nodes == out.nodes && r.edges == out.edges + LinkEdges(nodeOf, g, shift, kept)
    decreases |kept|
  {
    if kept != [] {
      var rest := kept[1..];
      LinksTail(out, nodeOf, g, kept);
      match LinkEdge(nodeOf, g, shift, kept[0])
      case None =>
        SkipLink(out, nodeOf, g, shift, kept);
        AddLinksBuilds(out, nodeOf, g, shift, rest);
      case Some(edge) =>
        assert edge == Edge(nodeOf[Ends(g, kept[0]).0], nodeOf[Ends(g, kept[0]).1], edge.data);
        AddLinkStep(out, nodeOf, g, kept, edge.data);
        var out1 := AddEdge(out, edge.from, edge.to, edge.data).value;
        TakeLink(out, nodeOf, g, shift, kept, edge);
        assert VerticesNamed(out1, nodeOf);
        AddLinksBuilds(out1, nodeOf, g, shift, rest);
        AppendAfterOne(out.edges, out1.edges, edge, LinkEdges(nodeOf, g, shift, rest));
    }
  }

  /** Edges appended after one more edge are that edge and them, after the old edges. */
  lemma AppendAfterOne<T>(before: seq<T>, after: seq<T>, x: T, more: seq<T>)
    requires |after| == |before| + 1 && after[..|before|] == before && after[|before|] == x
    ensures after + more == before + ([x] + more)
  {
    assert after == before + [x];
  }

  // ------------------------------------------------------------------
  // The whole of build_edge_graph

  /** The first loop leaves a vertex for every id at an end of a kept link, and no edges yet. */
  lemma CollectedReady<E>(g: Graph<Surfel, E>, frame: nat, place: Surfel -> Vector3)
    requires EndsPresent(g)
    ensures var c := Collect(Start(), g, frame, place, 0);
            && Valid(c.out) && !c.out.directed && VerticesNamed(c.out, c.nodeOf)
            && Mapped(c.nodeOf, g, c.kept) && PairsDistinct(g, c.kept) && Fresh(c.out, g, c.kept)
  {
    CollectAll(g, frame, place);
    var c := Collect(Start(), g, frame, place, 0);
    forall k | 0 <= k < |c.kept|
      ensures Ends(g, c.kept[k]).0 in c.nodeOf && Ends(g, c.kept[k]).1 in c.nodeOf
    {
      assert EndOfKept(g, c.kept, Ends(g, c.kept[k]).0);
      assert EndOfKept(g, c.kept, Ends(g, c.kept[k]).1);
    }
  }

  /** `build_edge_graph` never fails: the output edges are exactly what the kept links become. */
  lemma BuildEdges<E>(g: Graph<Surfel, E>, frame: nat, place: Surfel -> Vector3, shift: (Surfel, Surfel) -> (Shift, Shift))
    requires EndsPresent(g)
    ensures BuildEdgeGraph(g, frame, place, shift).Success?
    ensures var c := Collect(Start(), g, frame, place, 0);
            var q := BuildEdgeGraph(g, frame, place, shift).value;
            && Mapped(c.nodeOf, g, c.kept)
            && Valid(q) && !q.directed && q.nodes == c.out.nodes
            && q.edges == LinkEdges(c.nodeOf, g, shift, c.kept)
  {
    CollectedReady(g, frame, place);
    var c := Collect(Start(), g, frame, place, 0);
    AddLinksBuilds(c.out, c.nodeOf, g, shift, c.kept);
  }

  /** Each unordered pair of in-frame surfel ids linked in the graph is kept exactly once. */
  lemma PairsKeptOnce<E>(g: Graph<Surfel, E>, frame: nat, place: Surfel -> Vector3, j: nat)
    requires EndsPresent(g) && j < |g.edges|
    ensures var kept := Collect(Start(), g, frame, place, 0).kept;
            && KeptPresent(g, kept)
            && (InFrameEdge(g, frame, g.edges[j]) ==> exists k :: 0 <= k < |kept| && SamePair(Ends(g, g.edges[j]), Ends(g, kept[k])))
            && (forall k :: 0 <= k < |kept| ==> kept[k] in g.edges && InFrameEdge(g, frame, kept[k]))
            && (forall k1, k2 :: 0 <= k1 < k2 < |kept| ==> !SamePair(Ends(g, kept[k1]), Ends(g, kept[k2])))
  {
    CollectAll(g, frame, place);
  }

  /** The output has one vertex per surfel id at an end of a kept link, carrying that id. */
  lemma OneVertexPerSurfel<E>(g: Graph<Surfel, E>, frame: nat, place: Surfel -> Vector3, shift: (Surfel, Surfel) -> (Shift, Shift), n1: NodeId, n2: NodeId)
    requires EndsPresent(g)
    ensures BuildEdgeGraph(g, frame, place, shift).Success?
    ensures var q := BuildEdgeGraph(g, frame, place, shift).value;
            var kept := Collect(Start(), g, frame, place, 0).kept;
            && KeptPresent(g, kept)
            && (n1 in q.nodes && n2 in q.nodes && q.nodes[n1].surfelId == q.nodes[n2].surfelId ==> n1 == n2)
            && (n1 in q.nodes ==> EndOfKept(g, kept, q.nodes[n1].surfelId))
  {
    BuildEdges(g, frame, place, shift);
    CollectAll(g, frame, place);
  }

  /** Every end id of a kept link has a vertex in the output. */
  lemma EveryKeptIdHasVertex<E>(g: Graph<Surfel, E>, frame: nat, place: Surfel -> Vector3, shift: (Surfel, Surfel) -> (Shift, Shift), id: string)
    requires EndsPresent(g)
    ensures BuildEdgeGraph(g, frame, place, shift).Success?
    ensures var q := BuildEdgeGraph(g, frame, place, shift).value;
            var kept := Collect(Start(), g, frame, place, 0).kept;
            KeptPresent(g, kept) && (EndOfKept(g, kept, id) ==> exists n :: n in q.nodes && q.nodes[n].surfelId == id)
  {
    BuildEdges(g, frame, place, shift);
    CollectAll(g, frame, place);
    var c := Collect(Start(), g, frame, place, 0);
    if EndOfKept(g, c.kept, id) {
      assert c.nodeOf[id] in c.out.nodes;
    }
  }

  // ------------------------------------------------------------------
  // Collapse

  /**
   * The edges `collapse` merges along: every edge that is not red, in
   * order. An edge is merged along exactly when it is one of the graph's
   * blue edges.
   */
  function CollapseEdges(es: seq<Edge<EdgeType>>): (r: seq<Edge<EdgeType>>)
    ensures forall e :: e in r <==> e in es && e.data == Blue
    ensures |r| <= |es|
  {
    if es == [] then []
    else
      assert forall e :: e in es <==> e == es[0] || e in es[1..];
      (if es[0].data == Red then [] else [es[0]]) + CollapseEdges(es[1..])
  }

  /** An edge is among those the links become exactly when some kept link becomes it. */
  lemma {:induction false} LinkEdgesMember<E>(nodeOf: map<string, NodeId>, g: Graph<Surfel, E>, shift: (Surfel, Surfel) -> (Shift, Shift), kept: seq<Edge<E>>, e: Edge<EdgeType>)
    requires Mapped(nodeOf, g, kept)
    ensures e in LinkEdges(nodeOf, g, shift, kept) <==> exists k :: 0 <= k < |kept| && LinkEdge(nodeOf, g, shift, kept[k]) == Some(e)
    decreases |kept|
  {
    if kept != [] {
      var rest := kept[1..];
      assert forall k :: 0 <= k < |rest| ==> rest[k] == kept[k + 1];
      assert Mapped(nodeOf, g, rest);
      LinkEdgesMember(nodeOf, g, shift, rest, e);
      if exists k :: 0 <= k < |kept| && LinkEdge(nodeOf, g, shift, kept[k]) == Some(e) {
        var k :| 0 <= k < |kept| && LinkEdge(nodeOf, g, shift, kept[k]) == Some(e);
        if k > 0 {
          assert LinkEdge(nodeOf, g, shift, rest[k - 1]) == Some(e);
        }
      }
      if e in LinkEdges(nodeOf, g, shift, rest) {
        var k :| 0 <= k < |rest| && LinkEdge(nodeOf, g, shift, rest[k]) == Some(e);
        assert LinkEdge(nodeOf, g, shift, kept[k + 1]) == Some(e);
      }
    }
  }

  /**
   * `collapse` merges along an edge of the built graph exactly when some
   * kept link joins the edge's two surfels with shifts that agree.
   */
  lemma CollapseAlongAgreeing<E>(g: Graph<Surfel, E>, frame: nat, place: Surfel -> Vector3, shift: (Surfel, Surfel) -> (Shift, Shift), e: Edge<EdgeType>)
    requires EndsPresent(g)
    ensures BuildEdgeGraph(g, frame, place, shift).Success?
    ensures var c := Collect(Start(), g, frame, place, 0);
            var q := BuildEdgeGraph(g, frame, place, shift).value;
            && Mapped(c.nodeOf, g, c.kept)
            && (e in CollapseEdges(q.edges) <==>
                  exists k :: 0 <= k < |c.kept| && e.data == Blue
                    && shift(g.nodes[c.kept[k].from], g.nodes[c.kept[k].to]).0 == shift(g.nodes[c.kept[k].from], g.nodes[c.kept[k].to]).1
                    && e.from == c.nodeOf[Ends(g, c.kept[k]).0] && e.to == c.nodeOf[Ends(g, c.kept[k]).1])
  {
    BuildEdges(g, frame, place, shift);
    CollectedReady(g, frame, place);
    var c := Collect(Start(), g, frame, place, 0);
    var q := BuildEdgeGraph(g, frame, place, shift).value;
    LinkEdgesMember(c.nodeOf, g, shift, c.kept, e);
    forall k | 0 <= k < |c.kept|
      ensures LinkEdge(c.nodeOf, g, shift, c.kept[k]) == Some(e) && e.data == Blue <==>
                e.data == Blue
                && shift(g.nodes[c.kept[k].from], g.nodes[c.kept[k].to]).0 == shift(g.nodes[c.kept[k].from], g.nodes[c.kept[k].to]).1
                && e.from == c.nodeOf[Ends(g, c.kept[k]).0] && e.to == c.nodeOf[Ends(g, c.kept[k]).1]
    {
    }
  }

  /** The vertex two merged vertices become: the ids joined and the midpoint. */
  function MergeVertices(n1: QuadVertex, n2: QuadVertex): (r: QuadVertex)
    ensures |r.surfelId| == |n1.surfelId| + |n2.surfelId|
    ensures r.surfelId[..|n1.surfelId|] == n1.surfelId && r.surfelId[|n1.surfelId|..] == n2.surfelId
    ensures r.location.x - n1.location.x == n2.location.x - r.location.x
    ensures r.location.y - n1.location.y == n2.location.y - r.location.y
    ensures r.location.z - n1.location.z == n2.location.z - r.location.z
  {
    var a := n1.location;
    var b := n2.location;
    QuadVertex(n1.surfelId + n2.surfelId, Vector3((a.x + b.x) * 0.5, (a.y + b.y) * 0.5, (a.z + b.z) * 0.5))
  }
}
