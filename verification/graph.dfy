/**
 * The generic graph container: a set of nodes that carry data and a set of
 * edges that carry data, in a directed or an undirected flavour.
 *
 * Nodes are identified by handles (`NodeId`), the counterpart of the shared
 * node pointers of the original: two nodes with equal data are still
 * different nodes. Edges are kept in insertion order. That is the order in
 * which the adjacency multimaps of the original hand out the neighbours of
 * a node; its list of all edges is instead ordered by node addresses, which
 * the model does not track. `RemoveNode` is the intended removal: module
 * `GraphAdjacency` models the multimaps and the stale entries the original
 * leaves behind. Every check that throws in the original yields a
 * `GraphError` here.
 */
module Graph {
  import opened Wrappers
  import opened Sequences

  type NodeId = nat

  datatype Edge<E> = Edge(from: NodeId, to: NodeId, data: E)

  datatype GraphError =
    | NoNode(node: NodeId)
    | NodeExists(node: NodeId)
    | EdgeExists(from: NodeId, to: NodeId)
    | NoEdge(from: NodeId, to: NodeId)

  /**
   * `nextId` is the handle the next freshly made node receives; every
   * handle in use is below it.
   */
  datatype Graph<N, E> = Graph(directed: bool, nodes: map<NodeId, N>, nextId: NodeId, edges: seq<Edge<E>>)

  /** Two stored edges that `has_edge` cannot tell apart. */
  predicate SameLink<E>(directed: bool, e1: Edge<E>, e2: Edge<E>)
  {
    (e1.from == e2.from && e1.to == e2.to) || (!directed && e1.from == e2.to && e1.to == e2.from)
  }

  ghost predicate NoDuplicateLinks<E>(directed: bool, es: seq<Edge<E>>)
  {
    forall i, j :: 0 <= i < j < |es| ==> !SameLink(directed, es[i], es[j])
  }

  /** The invariant every operation of the container keeps. */
  ghost predicate Valid<N, E>(g: Graph<N, E>)
  {
    && (forall n :: n in g.nodes ==> n < g.nextId)
    && (forall i :: 0 <= i < |g.edges| ==> g.edges[i].from in g.nodes && g.edges[i].to in g.nodes)
    && NoDuplicateLinks(g.directed, g.edges)
  }

  function Empty<N, E>(directed: bool): (g: Graph<N, E>)
    ensures Valid(g) && g.directed == directed
    ensures |g.nodes| == 0 && |g.edges| == 0
  {
    Graph(directed, map[], 0, [])
  }

  /** An edge is stored from `a` to `b`, in exactly that orientation. */
  predicate Stored<E>(es: seq<Edge<E>>, a: NodeId, b: NodeId)
  {
    exists i :: 0 <= i < |es| && es[i].from == a && es[i].to == b
  }

  /** `has_edge`: the stored orientation, or in an undirected graph either one. */
  predicate HasEdge<N, E>(g: Graph<N, E>, a: NodeId, b: NodeId)
  {
    Stored(g.edges, a, b) || (!g.directed && Stored(g.edges, b, a))
  }

  /**
   * `has_edge(a, b)` holds exactly when some stored edge is the same link
   * as an edge from `a` to `b`, that is, when `add_edge(a, b)` would
   * duplicate a link.
   */
  lemma HasEdgeSameLink<N, E>(g: Graph<N, E>, a: NodeId, b: NodeId)
    ensures HasEdge(g, a, b) <==> exists i :: 0 <= i < |g.edges| && SameLink(g.directed, g.edges[i], Edge(a, b, g.edges[i].data))
  {
    if HasEdge(g, a, b) {
      var i :| 0 <= i < |g.edges| && ((g.edges[i].from == a && g.edges[i].to == b) ||
                                     (!g.directed && g.edges[i].from == b && g.edges[i].to == a));
      assert SameLink(g.directed, g.edges[i], Edge(a, b, g.edges[i].data));
    }
  }

  function NumNodes<N, E>(g: Graph<N, E>): nat
  {
    |g.nodes|
  }

  function NumEdges<N, E>(g: Graph<N, E>): nat
  {
    |g.edges|
  }

  /** `add_node(data)`: a new node, never one already in the graph. */
  function AddNode<N, E>(g: Graph<N, E>, data: N): (r: (Graph<N, E>, NodeId))
    requires Valid(g)
    ensures Valid(r.0)
    ensures r.1 !in g.nodes
    ensures r.0.nodes == g.nodes[r.1 := data]
    ensures NumNodes(r.0) == NumNodes(g) + 1
    ensures r.0.edges == g.edges && r.0.directed == g.directed
  {
    var id := g.nextId;
    (g.(nodes := g.nodes[id := data], nextId := id + 1), id)
  }

  /** `add_node(node)`: adding a node object that is already present fails. */
  function AddExistingNode<N, E>(g: Graph<N, E>, id: NodeId, data: N): (r: Result<Graph<N, E>, GraphError>)
    requires Valid(g)
    ensures r.Failure? <==> id in g.nodes
    ensures r.Failure? ==> r.error == NodeExists(id)
    ensures r.Success? ==> Valid(r.value) && r.value.nodes == g.nodes[id := data]
                           && NumNodes(r.value) == NumNodes(g) + 1 && r.value.edges == g.edges
  {
    if id in g.nodes then Failure(NodeExists(id))
    else
      var next := if id < g.nextId then g.nextId else id + 1;
      Success(g.(nodes := g.nodes[id := data], nextId := next))
  }

  /**
   * `add_edge`: both ends must be present and no edge may already link
   * them (in an undirected graph, in either orientation).
   */
  function AddEdge<N, E>(g: Graph<N, E>, a: NodeId, b: NodeId, data: E): (r: Result<Graph<N, E>, GraphError>)
    ensures r.Success? <==> a in g.nodes && b in g.nodes && !HasEdge(g, a, b)
    ensures a !in g.nodes ==> r == Failure(NoNode(a))
    ensures a in g.nodes && b !in g.nodes ==> r == Failure(NoNode(b))
    ensures a in g.nodes && b in g.nodes && HasEdge(g, a, b) ==> r == Failure(EdgeExists(a, b))
    ensures r.Success? ==> && NumEdges(r.value) == NumEdges(g) + 1
                           && HasEdge(r.value, a, b)
                           && r.value.nodes == g.nodes && r.value.nextId == g.nextId
                           && r.value.directed == g.directed
                           && r.value.edges[..NumEdges(g)] == g.edges
                           && r.value.edges[NumEdges(g)] == Edge(a, b, data)
  {
    if a !in g.nodes then Failure(NoNode(a))
    else if b !in g.nodes then Failure(NoNode(b))
    else if HasEdge(g, a, b) then Failure(EdgeExists(a, b))
    else
      var r := g.(edges := g.edges + [Edge(a, b, data)]);
      assert r.edges[|g.edges|] == Edge(a, b, data);
      Success(r)
  }

  lemma AddEdgeKeepsValid<N, E>(g: Graph<N, E>, a: NodeId, b: NodeId, data: E)
    requires Valid(g)
    requires AddEdge(g, a, b, data).Success?
    ensures Valid(AddEdge(g, a, b, data).value)
  {
    var es := AddEdge(g, a, b, data).value.edges;
    forall i, j | 0 <= i < j < |es|
      ensures !SameLink(g.directed, es[i], es[j])
    {
      if j == |g.edges| {
        assert es[i] == g.edges[i] && es[j].from == a && es[j].to == b;
        assert es[i].from == a && es[i].to == b ==> Stored(g.edges, a, b);
        assert es[i].from == b && es[i].to == a ==> Stored(g.edges, b, a);
      } else {
        assert es[i] == g.edges[i] && es[j] == g.edges[j];
      }
    }
  }

  /** The edges of `es` that do not touch `n`, in their original order. */
  function DropIncident<E>(es: seq<Edge<E>>, n: NodeId): (r: seq<Edge<E>>)
    ensures forall i :: 0 <= i < |r| ==> r[i] in es && r[i].from != n && r[i].to != n
    ensures forall i :: 0 <= i < |es| && es[i].from != n && es[i].to != n ==> es[i] in r
    ensures |r| <= |es|
  {
    if |es| == 0 then []
    else
      var rest := DropIncident(es[1..], n);
      assert forall i :: 1 <= i < |es| ==> es[i] == es[1..][i - 1];
      if es[0].from != n && es[0].to != n then [es[0]] + rest else rest
  }

  lemma {:induction false} DropIncidentKeepsNoDuplicates<E>(directed: bool, es: seq<Edge<E>>, n: NodeId)
    requires NoDuplicateLinks(directed, es)
    ensures NoDuplicateLinks(directed, DropIncident(es, n))
    decreases |es|
  {
    if |es| > 0 {
      var tail := es[1..];
      assert NoDuplicateLinks(directed, tail) by {
        forall i, j | 0 <= i < j < |tail| ensures !SameLink(directed, tail[i], tail[j]) {
          assert tail[i] == es[i + 1] && tail[j] == es[j + 1];
        }
      }
      DropIncidentKeepsNoDuplicates(directed, tail, n);
      var rest := DropIncident(tail, n);
      if es[0].from != n && es[0].to != n {
        var r := [es[0]] + rest;
        forall i, j | 0 <= i < j < |r| ensures !SameLink(directed, r[i], r[j]) {
          if i == 0 {
            assert r[j] in tail;
            var k :| 0 <= k < |tail| && tail[k] == r[j];
            assert es[k + 1] == r[j];
          } else {
            assert r[i] == rest[i - 1] && r[j] == rest[j - 1];
          }
        }
      }
    }
  }

  /**
   * `remove_node`: the node goes, and with it every edge that starts or
   * ends at it; all other edges stay.
   */
  function RemoveNode<N, E>(g: Graph<N, E>, n: NodeId): (r: Result<Graph<N, E>, GraphError>)
    ensures r.Failure? <==> n !in g.nodes
    ensures r.Failure? ==> r.error == NoNode(n)
    ensures r.Success? ==> && r.value.nodes == g.nodes - {n}
                           && r.value.directed == g.directed && r.value.nextId == g.nextId
                           && (forall i :: 0 <= i < |r.value.edges| ==>
                                 r.value.edges[i] in g.edges && r.value.edges[i].from != n && r.value.edges[i].to != n)
                           && (forall i :: 0 <= i < |g.edges| && g.edges[i].from != n && g.edges[i].to != n ==>
                                 g.edges[i] in r.value.edges)
    ensures r.Success? ==> NumNodes(r.value) == NumNodes(g) - 1 && NumEdges(r.value) <= NumEdges(g)
  {
    if n !in g.nodes then Failure(NoNode(n))
    else Success(g.(nodes := g.nodes - {n}, edges := DropIncident(g.edges, n)))
  }

  lemma RemoveNodeKeepsValid<N, E>(g: Graph<N, E>, n: NodeId)
    requires Valid(g)
    requires RemoveNode(g, n).Success?
    ensures Valid(RemoveNode(g, n).value)
  {
    var r := RemoveNode(g, n).value;
    DropIncidentKeepsNoDuplicates(g.directed, g.edges, n);
    forall i | 0 <= i < |r.edges| ensures r.edges[i].from in r.nodes && r.edges[i].to in r.nodes {
      assert r.edges[i] in g.edges;
    }
  }

  /** The ends of the edges stored from `n`, in insertion order. */
  function Targets<E>(es: seq<Edge<E>>, n: NodeId): (r: seq<NodeId>)
    ensures forall x :: x in r <==> Stored(es, n, x)
    ensures |r| <= |es|
  {
    if |es| == 0 then []
    else
      var rest := Targets(es[1..], n);
      assert forall x :: Stored(es, n, x) <==> (es[0].from == n && es[0].to == x) || Stored(es[1..], n, x) by {
        forall x | Stored(es, n, x) && !(es[0].from == n && es[0].to == x) ensures Stored(es[1..], n, x) {
          var i :| 0 <= i < |es| && es[i].from == n && es[i].to == x;
          assert es[1..][i - 1] == es[i];
        }
        forall x | Stored(es[1..], n, x) ensures Stored(es, n, x) {
          var i :| 0 <= i < |es[1..]| && es[1..][i].from == n && es[1..][i].to == x;
          assert es[i + 1] == es[1..][i];
        }
      }
      if es[0].from == n then [es[0].to] + rest else rest
  }

  /** The starts of the edges stored into `n`, in insertion order. */
  function Sources<E>(es: seq<Edge<E>>, n: NodeId): (r: seq<NodeId>)
    ensures forall x :: x in r <==> Stored(es, x, n)
    ensures |r| <= |es|
  {
    if |es| == 0 then []
    else
      var rest := Sources(es[1..], n);
      assert forall x :: Stored(es, x, n) <==> (es[0].from == x && es[0].to == n) || Stored(es[1..], x, n) by {
        forall x | Stored(es, x, n) && !(es[0].from == x && es[0].to == n) ensures Stored(es[1..], x, n) {
          var i :| 0 <= i < |es| && es[i].from == x && es[i].to == n;
          assert es[1..][i - 1] == es[i];
        }
        forall x | Stored(es[1..], x, n) ensures Stored(es, x, n) {
          var i :| 0 <= i < |es[1..]| && es[1..][i].from == x && es[1..][i].to == n;
          assert es[i + 1] == es[1..][i];
        }
      }
      if es[0].to == n then [es[0].from] + rest else rest
  }

  /** The targets of an edge list are those of its first edge, then those of the rest. */
  lemma TargetsCons<E>(e: Edge<E>, es: seq<Edge<E>>, n: NodeId)
    ensures Targets([e] + es, n) == (if e.from == n then [e.to] else []) + Targets(es, n)
  {
    assert ([e] + es)[1..] == es;
  }

  /** The sources of an edge list are those of its first edge, then those of the rest. */
  lemma SourcesCons<E>(e: Edge<E>, es: seq<Edge<E>>, n: NodeId)
    ensures Sources([e] + es, n) == (if e.to == n then [e.from] else []) + Sources(es, n)
  {
    assert ([e] + es)[1..] == es;
  }

  /**
   * `neighbours`: the nodes reachable over one edge. A directed graph
   * only follows edges forwards; an undirected one follows them both ways,
   * listing forward targets before inbound sources.
   */
  function Neighbours<N, E>(g: Graph<N, E>, n: NodeId): (r: Result<seq<NodeId>, GraphError>)
    ensures r.Failure? <==> n !in g.nodes
    ensures r.Failure? ==> r.error == NoNode(n)
    ensures r.Success? ==> forall x :: x in r.value <==> HasEdge(g, n, x)
    ensures r.Success? && g.directed ==> forall x :: x in r.value <==> Stored(g.edges, n, x)
    ensures r.Success? && !g.directed ==> forall x :: x in r.value <==> Stored(g.edges, n, x) || Stored(g.edges, x, n)
  {
    if n !in g.nodes then Failure(NoNode(n))
    else if g.directed then Success(Targets(g.edges, n))
    else Success(Targets(g.edges, n) + Sources(g.edges, n))
  }

  /** The data of the first edge stored from `a` to `b`, if any. */
  function FindStored<E>(es: seq<Edge<E>>, a: NodeId, b: NodeId): (r: Option<E>)
    ensures r.None? <==> !Stored(es, a, b)
    ensures r.Some? ==> exists i :: 0 <= i < |es| && es[i] == Edge(a, b, r.value)
  {
    if |es| == 0 then None
    else if es[0].from == a && es[0].to == b then
      assert es[0] == Edge(a, b, es[0].data);
      Some(es[0].data)
    else
      var r := FindStored(es[1..], a, b);
      assert Stored(es, a, b) ==> Stored(es[1..], a, b) by {
        if Stored(es, a, b) {
          var i :| 0 <= i < |es| && es[i].from == a && es[i].to == b;
          assert es[1..][i - 1] == es[i];
        }
      }
      assert r.Some? ==> Stored(es, a, b) by {
        if r.Some? {
          var i :| 0 <= i < |es[1..]| && es[1..][i] == Edge(a, b, r.value);
          assert es[i + 1] == es[1..][i];
        }
      }
      assert r.Some? ==> exists i :: 0 <= i < |es| && es[i] == Edge(a, b, r.value) by {
        if r.Some? {
          var i :| 0 <= i < |es[1..]| && es[1..][i] == Edge(a, b, r.value);
          assert es[i + 1] == Edge(a, b, r.value);
        }
      }
      r
  }

  /**
   * `edge(a, b)`: fails when `has_edge(a, b)` does not hold; otherwise the
   * data of the edge stored as (a, b), or, in an undirected graph without
   * that orientation, of the edge stored as (b, a).
   */
  function EdgeData<N, E>(g: Graph<N, E>, a: NodeId, b: NodeId): (r: Result<E, GraphError>)
    ensures r.Failure? <==> !HasEdge(g, a, b)
    ensures r.Failure? ==> r.error == NoEdge(a, b)
    ensures r.Success? && Stored(g.edges, a, b) ==>
              exists i :: 0 <= i < |g.edges| && g.edges[i] == Edge(a, b, r.value)
    ensures r.Success? && !Stored(g.edges, a, b) ==>
              !g.directed && exists i :: 0 <= i < |g.edges| && g.edges[i] == Edge(b, a, r.value)
  {
    if !HasEdge(g, a, b) then Failure(NoEdge(a, b))
    else match FindStored(g.edges, a, b)
      case Some(d) => Success(d)
      case None => Success(FindStored(g.edges, b, a).value)
  }

  /** After `add_edge(a, b)`, `b` is a neighbour of `a`, and in an undirected graph `a` of `b`. */
  lemma {:induction false} AddEdgeMakesNeighbours<N, E>(g: Graph<N, E>, a: NodeId, b: NodeId, data: E)
    requires AddEdge(g, a, b, data).Success?
    ensures Neighbours(AddEdge(g, a, b, data).value, a).Success?
    ensures b in Neighbours(AddEdge(g, a, b, data).value, a).value
    ensures !g.directed ==> a in Neighbours(AddEdge(g, a, b, data).value, b).value
  {
    var g' := AddEdge(g, a, b, data).value;
    assert g'.edges[|g.edges|] == Edge(a, b, data);
    assert Stored(g'.edges, a, b);
  }

  /** In a valid graph both ends of an edge are nodes of the graph. */
  lemma EdgeEndsPresent<N, E>(g: Graph<N, E>, a: NodeId, b: NodeId)
    requires Valid(g) && HasEdge(g, a, b)
    ensures a in g.nodes && b in g.nodes
  {
    if Stored(g.edges, a, b) {
      var i :| 0 <= i < |g.edges| && g.edges[i].from == a && g.edges[i].to == b;
    } else {
      var i :| 0 <= i < |g.edges| && g.edges[i].from == b && g.edges[i].to == a;
    }
  }

  /** The links stored after appending one edge. */
  lemma StoredAppend<E>(es: seq<Edge<E>>, e: Edge<E>, a: NodeId, b: NodeId)
    ensures Stored(es + [e], a, b) <==> Stored(es, a, b) || (e.from == a && e.to == b)
  {
    var s := es + [e];
    if Stored(s, a, b) && !(e.from == a && e.to == b) {
      var i :| 0 <= i < |s| && s[i].from == a && s[i].to == b;
      assert i < |es| && es[i] == s[i];
    }
    if Stored(es, a, b) {
      var i :| 0 <= i < |es| && es[i].from == a && es[i].to == b;
      assert s[i] == es[i];
    }
    if e.from == a && e.to == b {
      assert s[|es|] == e;
    }
  }

  lemma NoDuplicateLinksTail<E>(directed: bool, es: seq<Edge<E>>)
    requires |es| > 0 && NoDuplicateLinks(directed, es)
    ensures NoDuplicateLinks(directed, es[1..])
  {
    forall i, j | 0 <= i < j < |es[1..]| ensures !SameLink(directed, es[1..][i], es[1..][j]) {
      assert es[1..][i] == es[i + 1] && es[1..][j] == es[j + 1];
    }
  }

  /** Without duplicate links no target is listed twice. */
  lemma {:induction false} TargetsDistinct<E>(directed: bool, es: seq<Edge<E>>, n: NodeId)
    requires NoDuplicateLinks(directed, es)
    ensures Distinct(Targets(es, n))
    decreases |es|
  {
    if |es| > 0 {
      NoDuplicateLinksTail(directed, es);
      TargetsDistinct(directed, es[1..], n);
      assert forall i :: 0 <= i < |es[1..]| ==> es[1..][i] == es[i + 1] && !SameLink(directed, es[0], es[i + 1]);
      if es[0].from == n {
        DistinctCons(Targets(es, n));
      }
    }
  }

  /** Without duplicate links no source is listed twice. */
  lemma {:induction false} SourcesDistinct<E>(directed: bool, es: seq<Edge<E>>, n: NodeId)
    requires NoDuplicateLinks(directed, es)
    ensures Distinct(Sources(es, n))
    decreases |es|
  {
    if |es| > 0 {
      NoDuplicateLinksTail(directed, es);
      SourcesDistinct(directed, es[1..], n);
      assert forall i :: 0 <= i < |es[1..]| ==> es[1..][i] == es[i + 1] && !SameLink(directed, es[0], es[i + 1]);
      if es[0].to == n {
        DistinctCons(Sources(es, n));
      }
    }
  }

  /**
   * In a valid graph the only node `neighbours(n)` can list twice is `n`
   * itself, through a self loop of an undirected graph; without a self
   * loop the list is free of repeats and does not mention `n`.
   */
  lemma NeighboursRepeatOnlySelf<N, E>(g: Graph<N, E>, n: NodeId)
    requires Valid(g) && n in g.nodes
    ensures forall i, j :: 0 <= i < j < |Neighbours(g, n).value| && Neighbours(g, n).value[i] == Neighbours(g, n).value[j]
              ==> Neighbours(g, n).value[i] == n
    ensures !HasEdge(g, n, n) ==> Distinct(Neighbours(g, n).value) && n !in Neighbours(g, n).value
  {
    var ts := Targets(g.edges, n);
    TargetsDistinct(g.directed, g.edges, n);
    if !g.directed {
      var ss := Sources(g.edges, n);
      SourcesDistinct(g.directed, g.edges, n);
      var nb := ts + ss;
      assert forall k :: 0 <= k < |ts| ==> nb[k] == ts[k];
      assert forall k :: |ts| <= k < |nb| ==> nb[k] == ss[k - |ts|];
      forall i, j | 0 <= i < j < |nb| && nb[i] == nb[j] ensures nb[i] == n {
        if i < |ts| && j >= |ts| {
          var x := nb[i];
          assert x in ts && x in ss;
          var k :| 0 <= k < |g.edges| && g.edges[k].from == n && g.edges[k].to == x;
          var l :| 0 <= l < |g.edges| && g.edges[l].from == x && g.edges[l].to == n;
          if k < l {
            assert SameLink(g.directed, g.edges[k], g.edges[l]);
          } else if l < k {
            assert SameLink(g.directed, g.edges[l], g.edges[k]);
          }
        }
      }
    }
  }
}
