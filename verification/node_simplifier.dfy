/**
 * Neighbourhood simplification of a graph: the nodes one step away from a
 * group of nodes, the nodes two steps away from one node, and the collapse
 * of a node and its neighbours into a single merged node.
 *
 * The original returns `std::set`s of node pointers and walks them in
 * pointer order; here those sets are sets of handles, walked in ascending
 * handle order.
 */
module GraphNodeSimplifier {
  import opened Wrappers
  import opened Sequences
  import opened Graph

  /** `neighbours_of`, restricted to the sources from index `i` on. */
  function NeighboursFrom<N, E>(g: Graph<N, E>, sources: seq<NodeId>, i: nat): (r: Result<set<NodeId>, GraphError>)
    requires i <= |sources|
    ensures r.Failure? <==> exists j :: i <= j < |sources| && sources[j] !in g.nodes
    ensures r.Failure? ==> exists j :: i <= j < |sources| && sources[j] !in g.nodes && r.error == NoNode(sources[j])
                                       && forall k :: i <= k < j ==> sources[k] in g.nodes
    ensures r.Success? ==> forall x :: x in r.value <==> x !in sources && exists j :: i <= j < |sources| && HasEdge(g, sources[j], x)
    decreases |sources| - i
  {
    if i == |sources| then Success({})
    else
      var direct :- Neighbours(g, sources[i]);
      var rest :- NeighboursFrom(g, sources, i + 1);
      Success((set x | x in direct && x !in sources) + rest)
  }

  /**
   * `neighbours_of` a list of nodes: every node one edge away from some
   * source that is not itself a source. A node reached from several
   * sources is counted once. Asking about a node not in the graph fails,
   * as `neighbours` does, at the first such source.
   */
  function NeighboursOf<N, E>(g: Graph<N, E>, sources: seq<NodeId>): (r: Result<set<NodeId>, GraphError>)
    ensures r.Failure? <==> exists s :: s in sources && s !in g.nodes
    ensures r.Failure? ==> exists j :: 0 <= j < |sources| && sources[j] !in g.nodes && r.error == NoNode(sources[j])
                                       && forall k :: 0 <= k < j ==> sources[k] in g.nodes
    ensures r.Success? ==> forall x :: x in r.value <==> x !in sources && exists s :: s in sources && HasEdge(g, s, x)
  {
    var r := NeighboursFrom(g, sources, 0);
    assert r.Success? ==> forall x :: x in r.value <==> x !in sources && exists s :: s in sources && HasEdge(g, s, x) by {
      if r.Success? {
        forall x | x !in sources && (exists s :: s in sources && HasEdge(g, s, x)) ensures x in r.value {
          var s :| s in sources && HasEdge(g, s, x);
          var j :| 0 <= j < |sources| && sources[j] == s;
        }
      }
    }
    r
  }

  /** The set overload of `neighbours_of`, walking the set in handle order. */
  function NeighboursOfSet<N, E>(g: Graph<N, E>, sources: set<NodeId>): (r: Result<set<NodeId>, GraphError>)
    ensures r.Failure? <==> exists s :: s in sources && s !in g.nodes
    ensures r.Success? ==> forall x :: x in r.value <==> x !in sources && exists s :: s in sources && HasEdge(g, s, x)
  {
    NeighboursOf(g, Ascending(sources))
  }

  /** The nodes that some node reachable from `n` in at most one step has an edge to. */
  ghost predicate WithinTwo<N, E>(g: Graph<N, E>, n: NodeId, x: NodeId)
  {
    exists s :: (s == n || HasEdge(g, n, s)) && HasEdge(g, s, x)
  }

  /**
   * `second_neighbours_of`: the neighbours of the node together with its
   * direct neighbours, so neither the node nor a direct neighbour is ever
   * part of the result.
   */
  function SecondNeighboursOf<N, E>(g: Graph<N, E>, n: NodeId): (r: Result<set<NodeId>, GraphError>)
    requires Valid(g)
    ensures r.Failure? <==> n !in g.nodes
    ensures r.Failure? ==> r.error == NoNode(n)
    ensures r.Success? ==> forall x :: x in r.value <==> x != n && !HasEdge(g, n, x) && WithinTwo(g, n, x)
  {
    var direct :- Neighbours(g, n);
    var group := direct + [n];
    assert forall s :: s in group ==> s in g.nodes by {
      forall s | s in direct {
        EdgeEndsPresent(g, n, s);
      }
    }
    var r := NeighboursOf(g, group);
    assert r.Success? ==> forall x :: WithinTwo(g, n, x) <==> exists s :: s in group && HasEdge(g, s, x);
    r
  }

  /** The data of the given nodes, in the same order. */
  function DataOf<N, E>(g: Graph<N, E>, ids: seq<NodeId>): (r: seq<N>)
    requires forall x :: x in ids ==> x in g.nodes
    ensures |r| == |ids|
    ensures forall i :: 0 <= i < |ids| ==> r[i] == g.nodes[ids[i]]
  {
    seq(|ids|, i requires 0 <= i < |ids| => g.nodes[ids[i]])
  }

  /** The edges from `a` to each of `targets`, in order, all carrying `data`. */
  function Fan<E>(a: NodeId, targets: seq<NodeId>, data: E): (r: seq<Edge<E>>)
    ensures |r| == |targets|
    ensures forall i :: 0 <= i < |targets| ==> r[i] == Edge(a, targets[i], data)
  {
    seq(|targets|, i requires 0 <= i < |targets| => Edge(a, targets[i], data))
  }

  /** Every edge from `a` to `targets` can be added: fresh, distinct targets that are nodes of the graph. */
  ghost predicate FanFits<N, E>(g: Graph<N, E>, a: NodeId, targets: seq<NodeId>)
  {
    && a in g.nodes && a !in targets && Distinct(targets)
    && (forall x :: x in targets ==> x in g.nodes && !HasEdge(g, a, x))
  }

  /** `add_edge(a, t, data)` for each `t` of `targets` in turn. */
  function AddEdgesFrom<N, E>(g: Graph<N, E>, a: NodeId, targets: seq<NodeId>, data: E): (r: Result<Graph<N, E>, GraphError>)
    ensures r.Success? ==> && r.value.nodes == g.nodes && r.value.nextId == g.nextId
                           && r.value.directed == g.directed
                           && r.value.edges == g.edges + Fan(a, targets, data)
    ensures FanFits(g, a, targets) ==> r.Success?
    decreases |targets|
  {
    if |targets| == 0 then Success(g)
    else
      var g' :- AddEdge(g, a, targets[0], data);
      var r := AddEdgesFrom(g', a, targets[1..], data);
      assert g'.edges == g.edges + [Edge(a, targets[0], data)];
      FanFitsTail(g, g', a, targets, data);
      FanCons(g.edges, a, targets, data);
      r
  }

  /** A fan after some edges is its first edge after them, then the rest of the fan. */
  lemma FanCons<E>(edges: seq<Edge<E>>, a: NodeId, targets: seq<NodeId>, data: E)
    requires |targets| > 0
    ensures edges + Fan(a, targets, data) == (edges + [Edge(a, targets[0], data)]) + Fan(a, targets[1..], data)
  {
    assert Fan(a, targets, data) == [Edge(a, targets[0], data)] + Fan(a, targets[1..], data);
  }

  /** After the first edge of a fitting fan is added, the rest of the fan still fits. */
  lemma FanFitsTail<N, E>(g: Graph<N, E>, g': Graph<N, E>, a: NodeId, targets: seq<NodeId>, data: E)
    requires |targets| > 0
    requires g'.nodes == g.nodes && g'.directed == g.directed && g'.edges == g.edges + [Edge(a, targets[0], data)]
    ensures FanFits(g, a, targets) ==> FanFits(g', a, targets[1..])
  {
    if FanFits(g, a, targets) {
      forall x | x in targets[1..] ensures !HasEdge(g', a, x) {
        var e := Edge(a, targets[0], data);
        StoredAppend(g.edges, e, a, x);
        StoredAppend(g.edges, e, x, a);
        var j :| 0 <= j < |targets[1..]| && targets[1..][j] == x;
        assert targets[j + 1] == x;
        assert targets[0] != x && a != x;
        assert x in targets;
      }
      assert Distinct(targets[1..]) by {
        forall i, j | 0 <= i < j < |targets[1..]| ensures targets[1..][i] != targets[1..][j] {
          assert targets[1..][i] == targets[i + 1] && targets[1..][j] == targets[j + 1];
        }
      }
    }
  }

  lemma {:induction false} AddEdgesFromKeepsValid<N, E>(g: Graph<N, E>, a: NodeId, targets: seq<NodeId>, data: E)
    requires Valid(g) && AddEdgesFrom(g, a, targets, data).Success?
    ensures Valid(AddEdgesFrom(g, a, targets, data).value)
    decreases |targets|
  {
    if |targets| > 0 {
      AddEdgeKeepsValid(g, a, targets[0], data);
      AddEdgesFromKeepsValid(AddEdge(g, a, targets[0], data).value, a, targets[1..], data);
    }
  }

  /** `remove_node(n)` for each `n` of `ids` in turn. */
  function RemoveAll<N, E>(g: Graph<N, E>, ids: seq<NodeId>): (r: Result<Graph<N, E>, GraphError>)
    ensures r.Success? <==> Distinct(ids) && forall x :: x in ids ==> x in g.nodes
    ensures r.Failure? ==> exists j :: 0 <= j < |ids| && r.error == NoNode(ids[j]) && (ids[j] !in g.nodes || ids[j] in ids[..j])
    ensures r.Success? ==> && (forall x :: x in r.value.nodes <==> x in g.nodes && x !in ids)
                           && (forall x :: x in r.value.nodes ==> r.value.nodes[x] == g.nodes[x])
                           && NumNodes(r.value) == NumNodes(g) - |ids|
                           && r.value.directed == g.directed && r.value.nextId == g.nextId
                           && (forall i :: 0 <= i < |r.value.edges| ==>
                                 r.value.edges[i] in g.edges && r.value.edges[i].from !in ids && r.value.edges[i].to !in ids)
                           && (forall i :: 0 <= i < |g.edges| && g.edges[i].from !in ids && g.edges[i].to !in ids ==>
                                 g.edges[i] in r.value.edges)
    decreases |ids|
  {
    if |ids| == 0 then Success(g)
    else
      var g' :- RemoveNode(g, ids[0]);
      var r := RemoveAll(g', ids[1..]);
      assert forall x :: x in ids <==> x == ids[0] || x in ids[1..];
      DistinctCons(ids);
      if r.Failure? then
        ShiftFailure(ids, g.nodes.Keys, g'.nodes.Keys, r.error);
        r
      else
        assert forall i :: 0 <= i < |r.value.edges| ==> r.value.edges[i] in g.edges by {
          forall i | 0 <= i < |r.value.edges| ensures r.value.edges[i] in g.edges {
            assert r.value.edges[i] in g'.edges;
            var k :| 0 <= k < |g'.edges| && g'.edges[k] == r.value.edges[i];
            assert g'.edges[k] in g.edges;
          }
        }
        r
  }

  /** A removal failing in the tail is a failure of the whole sequence. */
  lemma ShiftFailure(ids: seq<NodeId>, before: set<NodeId>, after: set<NodeId>, err: GraphError)
    requires |ids| > 0 && after == before - {ids[0]}
    requires exists j :: 0 <= j < |ids[1..]| && err == NoNode(ids[1..][j]) && (ids[1..][j] !in after || ids[1..][j] in ids[1..][..j])
    ensures exists j :: 0 <= j < |ids| && err == NoNode(ids[j]) && (ids[j] !in before || ids[j] in ids[..j])
  {
    var j :| 0 <= j < |ids[1..]| && err == NoNode(ids[1..][j]) && (ids[1..][j] !in after || ids[1..][j] in ids[1..][..j]);
    var x := ids[j + 1];
    assert ids[1..][j] == x;
    if x in before && x !in after {
      assert ids[..j + 1][0] == x;
    } else if x in ids[1..][..j] {
      var k :| 0 <= k < j && ids[1..][..j][k] == x;
      assert ids[..j + 1][k + 1] == x;
    }
  }

  lemma {:induction false} RemoveAllKeepsValid<N, E>(g: Graph<N, E>, ids: seq<NodeId>)
    requires Valid(g) && RemoveAll(g, ids).Success?
    ensures Valid(RemoveAll(g, ids).value)
    decreases |ids|
  {
    if |ids| > 0 {
      RemoveNodeKeepsValid(g, ids[0]);
      RemoveAllKeepsValid(RemoveNode(g, ids[0]).value, ids[1..]);
    }
  }

  /**
   * Removing a node and its neighbours succeeds exactly when the node has
   * no self loop; with one, the node comes up a second time and its
   * removal fails.
   */
  lemma GroupRemoval<N, E>(g: Graph<N, E>, node: NodeId, g2: Graph<N, E>)
    requires Valid(g) && node in g.nodes
    requires forall x :: x in g.nodes ==> x in g2.nodes
    ensures forall x :: x in Neighbours(g, node).value + [node] ==> x in g.nodes
    ensures RemoveAll(g2, Neighbours(g, node).value + [node]).Success? <==> !HasEdge(g, node, node)
    ensures RemoveAll(g2, Neighbours(g, node).value + [node]).Failure? ==>
              RemoveAll(g2, Neighbours(g, node).value + [node]).error == NoNode(node)
  {
    var direct := Neighbours(g, node).value;
    forall x | x in direct ensures x in g.nodes {
      EdgeEndsPresent(g, node, x);
    }
    NeighboursRepeatOnlySelf(g, node);
    if !HasEdge(g, node, node) {
      GroupDistinct(direct, node);
    } else {
      SelfLoopRemoval(g2, direct, node);
    }
  }

  lemma GroupDistinct(direct: seq<NodeId>, node: NodeId)
    requires Distinct(direct) && node !in direct
    ensures Distinct(direct + [node])
  {
    var group := direct + [node];
    forall i, j | 0 <= i < j < |group| ensures group[i] != group[j] {
      if j == |direct| {
        assert group[i] == direct[i];
      } else {
        assert group[i] == direct[i] && group[j] == direct[j];
      }
    }
  }

  /** When only `node` repeats and it is among `direct`, removing the group fails at `node`. */
  lemma SelfLoopRemoval<N, E>(g2: Graph<N, E>, direct: seq<NodeId>, node: NodeId)
    requires node in direct
    requires forall x :: x in direct ==> x in g2.nodes
    requires node in g2.nodes
    requires forall i, j :: 0 <= i < j < |direct| && direct[i] == direct[j] ==> direct[i] == node
    ensures RemoveAll(g2, direct + [node]).Failure?
    ensures RemoveAll(g2, direct + [node]).error == NoNode(node)
  {
    var group := direct + [node];
    var k :| 0 <= k < |direct| && direct[k] == node;
    assert group[k] == group[|direct|];
    var r := RemoveAll(g2, group);
    var j :| 0 <= j < |group| && r.error == NoNode(group[j]) && (group[j] !in g2.nodes || group[j] in group[..j]);
    assert group[j] in group[..j];
    var i :| 0 <= i < j && group[..j][i] == group[j];
    if j < |direct| {
      assert direct[i] == direct[j];
    }
  }

  /** The edges from the merged node to the second neighbours can all be added. */
  lemma FanSucceeds<N, E>(g: Graph<N, E>, data: N, far: set<NodeId>, d: E)
    requires Valid(g)
    requires forall x :: x in far ==> x in g.nodes
    ensures AddEdgesFrom(AddNode(g, data).0, g.nextId, Ascending(far), d).Success?
  {
    var g1 := AddNode(g, data).0;
    var id := g.nextId;
    forall x | x in Ascending(far) ensures x in g1.nodes && !HasEdge(g1, id, x) {
      if HasEdge(g1, id, x) {
        EdgeEndsPresent(g, id, x);
      }
    }
  }

  /**
   * How the edges of a collapsed graph relate to the original ones: the
   * untouched edges survive, and the only other edges are those from the
   * merged node `id` to the second neighbours `far`.
   */
  lemma CollapsedEdges<N, E>(g: Graph<N, E>, g2: Graph<N, E>, h: Graph<N, E>, group: seq<NodeId>,
                             id: NodeId, targets: seq<NodeId>, far: set<NodeId>, d: E)
    requires Valid(g) && id !in g.nodes
    requires forall x :: x in group ==> x in g.nodes
    requires forall x :: x in targets <==> x in far
    requires forall x :: x in far ==> x !in group && x in g.nodes
    requires g2.edges == g.edges + Fan(id, targets, d)
    requires forall i :: 0 <= i < |h.edges| ==> h.edges[i] in g2.edges && h.edges[i].from !in group && h.edges[i].to !in group
    requires forall i :: 0 <= i < |g2.edges| && g2.edges[i].from !in group && g2.edges[i].to !in group ==> g2.edges[i] in h.edges
    ensures forall x :: Stored(h.edges, id, x) <==> x in far
    ensures forall x :: !Stored(h.edges, x, id)
    ensures forall i :: 0 <= i < |h.edges| ==>
              || (h.edges[i] in g.edges && h.edges[i].from !in group && h.edges[i].to !in group)
              || (h.edges[i].from == id && h.edges[i].data == d)
    ensures forall i :: 0 <= i < |g.edges| && g.edges[i].from !in group && g.edges[i].to !in group ==> g.edges[i] in h.edges
  {
    var n := |g.edges|;
    assert forall k :: 0 <= k < n ==> g2.edges[k] == g.edges[k];
    assert forall k :: 0 <= k < |targets| ==> g2.edges[n + k] == Edge(id, targets[k], d);
    forall i | 0 <= i < |h.edges|
      ensures || (h.edges[i] in g.edges && h.edges[i].from !in group && h.edges[i].to !in group)
              || (h.edges[i].from == id && h.edges[i].data == d)
      ensures h.edges[i].to != id
      ensures h.edges[i].from == id ==> h.edges[i].to in far
    {
      var k :| 0 <= k < |g2.edges| && g2.edges[k] == h.edges[i];
      if k >= n {
        assert g2.edges[n + (k - n)] == Edge(id, targets[k - n], d);
      } else {
        assert g.edges[k].from in g.nodes && g.edges[k].to in g.nodes;
      }
    }
    forall x | x in far ensures Stored(h.edges, id, x) {
      var t :| 0 <= t < |targets| && targets[t] == x;
      assert g2.edges[n + t] == Edge(id, x, d);
      assert g2.edges[n + t] in h.edges;
    }
    forall i | 0 <= i < n && g.edges[i].from !in group && g.edges[i].to !in group ensures g.edges[i] in h.edges {
      assert g2.edges[i] == g.edges[i];
    }
  }

  /**
   * What a successful collapse of `node` in `g` leaves behind: `h` is a
   * valid graph of the same kind; `removed` lists the node and each of its
   * neighbours once, the node last; every other node keeps its data, and
   * the fresh node `g.nextId` carries the merge of the removed nodes' data.
   * The fresh node has an edge, carrying `d`, to exactly the second
   * neighbours of `node` and no edge into it; every other edge of `h` is an
   * edge of `g` that touches no removed node, and all of those survive.
   */
  ghost predicate Collapsed<N, E>(g: Graph<N, E>, node: NodeId, merge: seq<N> -> N, d: E, h: Graph<N, E>, removed: seq<NodeId>)
  {
    CollapsedNodes(g, node, merge, h, removed) && CollapsedLinks(g, node, d, h, removed)
  }

  /** The node half of `Collapsed`. */
  ghost predicate CollapsedNodes<N, E>(g: Graph<N, E>, node: NodeId, merge: seq<N> -> N, h: Graph<N, E>, removed: seq<NodeId>)
  {
    && Valid(h) && h.directed == g.directed
    && |removed| > 0 && removed[|removed| - 1] == node && Distinct(removed)
    && (forall x :: x in removed <==> x == node || HasEdge(g, node, x))
    && (forall x :: x in removed ==> x in g.nodes)
    && g.nextId !in g.nodes
    && (forall x :: x in h.nodes <==> x == g.nextId || (x in g.nodes && x !in removed))
    && (forall x :: x in h.nodes && x != g.nextId ==> h.nodes[x] == g.nodes[x])
    && h.nodes[g.nextId] == merge(DataOf(g, removed))
    && NumNodes(h) == NumNodes(g) + 1 - |removed|
  }

  /** The edge half of `Collapsed`. */
  ghost predicate CollapsedLinks<N, E>(g: Graph<N, E>, node: NodeId, d: E, h: Graph<N, E>, removed: seq<NodeId>)
  {
    && (forall x :: Stored(h.edges, g.nextId, x) <==> x != node && !HasEdge(g, node, x) && WithinTwo(g, node, x))
    && (forall x :: !Stored(h.edges, x, g.nextId))
    && (forall i :: 0 <= i < |h.edges| ==>
          || (h.edges[i] in g.edges && h.edges[i].from !in removed && h.edges[i].to !in removed)
          || (h.edges[i].from == g.nextId && h.edges[i].data == d))
    && (forall i :: 0 <= i < |g.edges| && g.edges[i].from !in removed && g.edges[i].to !in removed ==>
          g.edges[i] in h.edges)
  }

  /** The second neighbours are nodes of the graph outside the collapsed group. */
  lemma FarOutsideGroup<N, E>(g: Graph<N, E>, node: NodeId)
    requires Valid(g) && node in g.nodes
    ensures forall x :: x in SecondNeighboursOf(g, node).value ==>
              x in g.nodes && x !in Neighbours(g, node).value + [node]
  {
    forall x | x in SecondNeighboursOf(g, node).value
      ensures x in g.nodes && x !in Neighbours(g, node).value + [node]
    {
      var s :| (s == node || HasEdge(g, node, s)) && HasEdge(g, s, x);
      EdgeEndsPresent(g, s, x);
    }
  }

  /** The group a collapse removes: the node's neighbours, then the node itself. */
  ghost predicate GroupShape<N, E>(g: Graph<N, E>, node: NodeId, group: seq<NodeId>)
  {
    && |group| > 0 && group[|group| - 1] == node
    && (forall x :: x in group <==> x == node || HasEdge(g, node, x))
    && (forall x :: x in group ==> x in g.nodes)
  }

  /** The second neighbours: nodes of the graph two steps from `node`, none of them in the group. */
  ghost predicate FarShape<N, E>(g: Graph<N, E>, node: NodeId, group: seq<NodeId>, far: set<NodeId>)
  {
    && (forall x :: x in far <==> x != node && !HasEdge(g, node, x) && WithinTwo(g, node, x))
    && (forall x :: x in far ==> x !in group && x in g.nodes)
  }

  /** `g2` is `g` with the fresh node `g.nextId` carrying `data` and the fan from it to `targets`. */
  ghost predicate AddedShape<N, E>(g: Graph<N, E>, data: N, targets: seq<NodeId>, d: E, g2: Graph<N, E>)
  {
    && Valid(g2) && g.nextId !in g.nodes
    && g2.nodes == g.nodes[g.nextId := data] && NumNodes(g2) == NumNodes(g) + 1
    && g2.directed == g.directed && g2.edges == g.edges + Fan(g.nextId, targets, d)
  }

  /** `h` is `g2` without the distinct nodes of `group` and the edges touching them. */
  ghost predicate RemovedShape<N, E>(g2: Graph<N, E>, group: seq<NodeId>, h: Graph<N, E>)
  {
    && Valid(h) && Distinct(group)
    && (forall x :: x in h.nodes <==> x in g2.nodes && x !in group)
    && (forall x :: x in h.nodes ==> h.nodes[x] == g2.nodes[x])
    && NumNodes(h) == NumNodes(g2) - |group| && h.directed == g2.directed
    && (forall i :: 0 <= i < |h.edges| ==> h.edges[i] in g2.edges && h.edges[i].from !in group && h.edges[i].to !in group)
    && (forall i :: 0 <= i < |g2.edges| && g2.edges[i].from !in group && g2.edges[i].to !in group ==> g2.edges[i] in h.edges)
  }

  /** The neighbours of a node of a valid graph, followed by the node, form its collapse group. */
  lemma NeighbourGroup<N, E>(g: Graph<N, E>, node: NodeId)
    requires Valid(g) && node in g.nodes
    ensures GroupShape(g, node, Neighbours(g, node).value + [node])
  {
    var group := Neighbours(g, node).value + [node];
    forall x | x in group ensures x in g.nodes {
      if x != node {
        EdgeEndsPresent(g, node, x);
      }
    }
  }

  /** The second neighbours of a node lie outside its collapse group. */
  lemma SecondNeighbourSet<N, E>(g: Graph<N, E>, node: NodeId)
    requires Valid(g) && node in g.nodes
    ensures FarShape(g, node, Neighbours(g, node).value + [node], SecondNeighboursOf(g, node).value)
  {
    FarOutsideGroup(g, node);
  }

  /** Adding the merged node and then its fan gives a valid graph of the expected shape. */
  lemma AddedFacts<N, E>(g: Graph<N, E>, data: N, targets: seq<NodeId>, d: E)
    requires Valid(g) && AddEdgesFrom(AddNode(g, data).0, g.nextId, targets, d).Success?
    ensures AddedShape(g, data, targets, d, AddEdgesFrom(AddNode(g, data).0, g.nextId, targets, d).value)
  {
    AddEdgesFromKeepsValid(AddNode(g, data).0, g.nextId, targets, d);
  }

  /** A successful removal of the group gives a valid graph of the expected shape. */
  lemma RemovedFacts<N, E>(g2: Graph<N, E>, group: seq<NodeId>)
    requires Valid(g2) && RemoveAll(g2, group).Success?
    ensures RemovedShape(g2, group, RemoveAll(g2, group).value)
  {
    RemoveAllKeepsValid(g2, group);
  }

  /** The steps of a successful collapse establish `Collapsed`. */
  lemma CollapseFacts<N, E>(g: Graph<N, E>, node: NodeId, merge: seq<N> -> N, d: E,
                            group: seq<NodeId>, far: set<NodeId>, g2: Graph<N, E>, h: Graph<N, E>)
    requires Valid(g) && node in g.nodes
    requires GroupShape(g, node, group) && FarShape(g, node, group, far)
    requires AddedShape(g, merge(DataOf(g, group)), Ascending(far), d, g2)
    requires RemovedShape(g2, group, h)
    ensures Collapsed(g, node, merge, d, h, group)
  {
    CollapsedNodesFrom(g, node, merge, g2, h, group);
    CollapsedLinksFrom(g, node, d, g2, h, group, far, Ascending(far));
  }

  /** The node half of `Collapsed`, from what adding the merged node and removing the group leave. */
  lemma CollapsedNodesFrom<N, E>(g: Graph<N, E>, node: NodeId, merge: seq<N> -> N,
                                 g2: Graph<N, E>, h: Graph<N, E>, group: seq<NodeId>)
    requires Valid(g) && node in g.nodes && g.nextId !in g.nodes
    requires GroupShape(g, node, group)
    requires g2.nodes == g.nodes[g.nextId := merge(DataOf(g, group))] && g2.directed == g.directed
    requires NumNodes(g2) == NumNodes(g) + 1
    requires RemovedShape(g2, group, h)
    ensures CollapsedNodes(g, node, merge, h, group)
  {
  }

  /** The edge half of `Collapsed`, from the fan added and the edges the removal keeps. */
  lemma CollapsedLinksFrom<N, E>(g: Graph<N, E>, node: NodeId, d: E, g2: Graph<N, E>, h: Graph<N, E>,
                                 group: seq<NodeId>, far: set<NodeId>, targets: seq<NodeId>)
    requires Valid(g) && g.nextId !in g.nodes
    requires GroupShape(g, node, group) && FarShape(g, node, group, far)
    requires forall x :: x in targets <==> x in far
    requires g2.edges == g.edges + Fan(g.nextId, targets, d)
    requires RemovedShape(g2, group, h)
    ensures CollapsedLinks(g, node, d, h, group)
  {
    CollapsedEdges(g, g2, h, group, g.nextId, targets, far, d);
  }

  /**
   * `collapse_node`: the node and its neighbours are replaced by one new
   * node whose data merges theirs (neighbours first, the node last) and
   * which has an edge to every second neighbour, all carrying the edge
   * data merged from no edges. The replaced nodes are reported in removal
   * order. A node with a self loop shows up twice among the nodes to
   * remove, and the second removal fails.
   */
  function CollapseNode<N, E>(g: Graph<N, E>, node: NodeId, merge: seq<N> -> N, edgeMerge: seq<E> -> E)
    : (r: Result<(Graph<N, E>, seq<NodeId>), GraphError>)
    requires Valid(g)
    ensures r.Failure? <==> node !in g.nodes || HasEdge(g, node, node)
    ensures r.Failure? ==> r.error == NoNode(node)
    ensures r.Success? ==> r.value.1 == Neighbours(g, node).value + [node]
    ensures r.Success? ==> Collapsed(g, node, merge, edgeMerge([]), r.value.0, r.value.1)
  {
    var direct :- Neighbours(g, node);
    var far := SecondNeighboursOf(g, node).value;
    var d := edgeMerge([]);
    var group := direct + [node];
    NeighbourGroup(g, node);
    SecondNeighbourSet(g, node);
    var data := merge(DataOf(g, group));
    FanSucceeds(g, data, far, d);
    var g2 := AddEdgesFrom(AddNode(g, data).0, g.nextId, Ascending(far), d).value;
    AddedFacts(g, data, Ascending(far), d);
    GroupRemoval(g, node, g2);
    var h :- RemoveAll(g2, group);
    RemovedFacts(g2, group);
    CollapseFacts(g, node, merge, d, group, far, g2, h);
    Success((h, group))
  }
}

module GraphNodeSimplifierExample {
  import opened Wrappers
  import opened Graph
  import opened GraphNodeSimplifier

  /**
   * The undirected chain a-b-c-d-e plus an unconnected node x, with
   * handles 0 to 5, every edge carrying weight `w`.
   */
  function Chain(w: real): (g: Graph<string, real>)
    ensures Valid(g)
  {
    Graph(false, map[0 := "a", 1 := "b", 2 := "c", 3 := "d", 4 := "e", 5 := "x"], 6,
          [Edge(0, 1, w), Edge(1, 2, w), Edge(2, 3, w), Edge(3, 4, w)])
  }

  function Concat(ds: seq<string>): string
  {
    if |ds| == 0 then "" else ds[0] + Concat(ds[1..])
  }

  function One(es: seq<real>): real
  {
    1.0
  }

  lemma ChainNeighbours(w: real)
    ensures Neighbours(Chain(w), 1).value == [2, 0]
    ensures Neighbours(Chain(w), 2).value == [3, 1]
    ensures Neighbours(Chain(w), 3).value == [4, 2]
  {
    var e0, e1, e2, e3 := Edge(0, 1, w), Edge(1, 2, w), Edge(2, 3, w), Edge(3, 4, w);
    assert Chain(w).edges == [e0] + ([e1] + ([e2] + ([e3] + [])));
    forall n | 1 <= n <= 3
      ensures Targets(Chain(w).edges, n) == [n + 1] && Sources(Chain(w).edges, n) == [n - 1]
    {
      TargetsCons(e3, [], n);
      TargetsCons(e2, [e3] + [], n);
      TargetsCons(e1, [e2] + ([e3] + []), n);
      TargetsCons(e0, [e1] + ([e2] + ([e3] + [])), n);
      SourcesCons(e3, [], n);
      SourcesCons(e2, [e3] + [], n);
      SourcesCons(e1, [e2] + ([e3] + []), n);
      SourcesCons(e0, [e1] + ([e2] + ([e3] + [])), n);
    }
  }

  lemma ChainLinks(x: NodeId, w: real)
    ensures HasEdge(Chain(w), 1, x) <==> x == 0 || x == 2
    ensures HasEdge(Chain(w), 2, x) <==> x == 1 || x == 3
    ensures HasEdge(Chain(w), 3, x) <==> x == 2 || x == 4
  {
    ChainNeighbours(w);
  }

  lemma ChainSecondNeighbours(w: real)
    ensures SecondNeighboursOf(Chain(w), 2).value == {0, 4}
  {
    var g := Chain(w);
    var far := SecondNeighboursOf(g, 2).value;
    ChainLinks(0, w);
    ChainLinks(1, w);
    ChainLinks(3, w);
    ChainLinks(4, w);
    assert HasEdge(g, 2, 1) && HasEdge(g, 1, 0) && HasEdge(g, 2, 3) && HasEdge(g, 3, 4);
    assert 0 in far && 4 in far;
    forall x | x in far ensures x == 0 || x == 4 {
      var s :| (s == 2 || HasEdge(g, 2, s)) && HasEdge(g, s, x);
      ChainLinks(x, w);
      ChainLinks(s, w);
    }
    PairSet(far, 0, 4);
  }

  lemma PairSet(s: set<NodeId>, a: NodeId, b: NodeId)
    requires a in s && b in s && forall x :: x in s ==> x == a || x == b
    ensures s == {a, b}
  {
  }

  /** Edges all leaving `a`, without duplicate links, number as many as their ends. */
  lemma {:induction false} FanSize<E>(directed: bool, es: seq<Edge<E>>, a: NodeId, ends: set<NodeId>)
    requires forall i :: 0 <= i < |es| ==> es[i].from == a
    requires NoDuplicateLinks(directed, es)
    requires forall x :: Stored(es, a, x) <==> x in ends
    ensures |es| == |ends|
    decreases |es|
  {
    if |es| == 0 {
      assert forall x :: !Stored(es, a, x);
    } else {
      var n := |es| - 1;
      var front := es[..n];
      var last := es[n];
      assert es == front + [last];
      forall x ensures Stored(front, a, x) <==> x in ends - {last.to} {
        StoredAppend(front, last, a, x);
        if Stored(front, a, x) {
          var i :| 0 <= i < n && front[i].from == a && front[i].to == x;
          assert es[i] == front[i];
          assert !SameLink(directed, es[i], es[n]);
        }
      }
      assert NoDuplicateLinks(directed, front) by {
        forall i, j | 0 <= i < j < |front| ensures !SameLink(directed, front[i], front[j]) {
          assert front[i] == es[i] && front[j] == es[j];
        }
      }
      FanSize(directed, front, a, ends - {last.to});
      StoredAppend(front, last, a, last.to);
    }
  }

  lemma ChainCollapseRemoves(w: real)
    ensures CollapseNode(Chain(w), 2, Concat, One).Success?
    ensures CollapseNode(Chain(w), 2, Concat, One).value.1 == [3, 1, 2]
  {
    ChainLinks(2, w);
    ChainNeighbours(w);
    assert !HasEdge(Chain(w), 2, 2);
    assert Neighbours(Chain(w), 2).value + [2] == [3, 1, 2];
  }

  lemma ChainMergedData(w: real)
    ensures DataOf(Chain(w), [3, 1, 2]) == ["d", "b", "c"]
    ensures Concat(["d", "b", "c"]) == "dbc"
  {
    assert Concat(["c"]) == "c";
    assert Concat(["b", "c"]) == "bc";
  }

  /** The facts of `Collapsed` this example relies on, for any graph. */
  lemma CollapseOutcome<N, E>(g: Graph<N, E>, node: NodeId, merge: seq<N> -> N, edgeMerge: seq<E> -> E)
    requires Valid(g) && CollapseNode(g, node, merge, edgeMerge).Success?
    ensures var (h, removed) := CollapseNode(g, node, merge, edgeMerge).value;
            && NumNodes(h) == NumNodes(g) + 1 - |removed|
            && NoDuplicateLinks(h.directed, h.edges)
            && (forall i :: 0 <= i < |h.edges| ==>
                  || (h.edges[i] in g.edges && h.edges[i].from !in removed && h.edges[i].to !in removed)
                  || h.edges[i].from == g.nextId)
            && (forall x :: Stored(h.edges, g.nextId, x) <==> x in SecondNeighboursOf(g, node).value)
  {
  }

  lemma ChainSize(w: real)
    ensures NumNodes(Chain(w)) == 6
  {
    assert Chain(w).nodes.Keys == {0, 1, 2, 3, 4, 5};
  }

  /**
   * Collapsing the middle node c of the chain a-b-c-d-e (plus the
   * unconnected x) removes d, b and c, in that order, and leaves four
   * nodes, among them the merged node "dbc", and two edges.
   */
  lemma CollapseMiddleOfChain(w: real)
    ensures CollapseNode(Chain(w), 2, Concat, One).Success?
    ensures CollapseNode(Chain(w), 2, Concat, One).value.1 == [3, 1, 2]
    ensures NumNodes(CollapseNode(Chain(w), 2, Concat, One).value.0) == 4
    ensures CollapseNode(Chain(w), 2, Concat, One).value.0.nodes[6] == "dbc"
    ensures NumEdges(CollapseNode(Chain(w), 2, Concat, One).value.0) == 2
  {
    ChainCollapseRemoves(w);
    ChainMergedData(w);
    ChainSize(w);
    CollapseOutcome(Chain(w), 2, Concat, One);
    ChainEdges(w);
  }

  /**
   * When every edge touches the collapsed group, the edges left are exactly
   * the new node's edges, one per second neighbour.
   */
  lemma CollapseEdgeCount<N, E>(g: Graph<N, E>, node: NodeId, merge: seq<N> -> N, edgeMerge: seq<E> -> E)
    requires Valid(g) && CollapseNode(g, node, merge, edgeMerge).Success?
    requires forall k :: 0 <= k < |g.edges| ==>
               g.edges[k].from in CollapseNode(g, node, merge, edgeMerge).value.1
               || g.edges[k].to in CollapseNode(g, node, merge, edgeMerge).value.1
    ensures NumEdges(CollapseNode(g, node, merge, edgeMerge).value.0) == |SecondNeighboursOf(g, node).value|
  {
    CollapseOutcome(g, node, merge, edgeMerge);
    var (h, removed) := CollapseNode(g, node, merge, edgeMerge).value;
    forall i | 0 <= i < |h.edges| ensures h.edges[i].from == g.nextId {
    }
    FanSize(h.directed, h.edges, g.nextId, SecondNeighboursOf(g, node).value);
  }

  lemma ChainEdgesTouch(w: real)
    ensures forall k :: 0 <= k < |Chain(w).edges| ==> Chain(w).edges[k].from in [3, 1, 2] || Chain(w).edges[k].to in [3, 1, 2]
  {
  }

  lemma ChainEdges(w: real)
    ensures CollapseNode(Chain(w), 2, Concat, One).Success?
    ensures NumEdges(CollapseNode(Chain(w), 2, Concat, One).value.0) == 2
  {
    ChainCollapseRemoves(w);
    ChainSecondNeighbours(w);
    ChainEdgesTouch(w);
    CollapseEdgeCount(Chain(w), 2, Concat, One);
    PairSize(0, 4);
  }

  lemma PairSize(a: NodeId, b: NodeId)
    requires a != b
    ensures |{a, b}| == 2
  {
  }
}
