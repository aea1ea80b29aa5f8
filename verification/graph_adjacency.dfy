/**
 * The two adjacency multimaps behind the graph container.
 * `m_nodes_accessible_from` maps a node to the ends of the edges stored
 * from it. `m_nodes_linking_to` maps a node to the starts of the edges
 * stored into it. A multimap is a list of entries here; the entries of one
 * key keep the order in which they were inserted, as `std::multimap` does.
 *
 * `remove_node` binds its loop iterators by reference to the start of each
 * key range. Each loop therefore advances that start to the end of the
 * range, and the `erase(first, second)` after it erases nothing: the
 * removed node's own entries survive. `RemoveNodeAsWritten` models this.
 * `RemoveNode` also erases them, which is what `Graph.RemoveNode` assumes.
 */
module GraphAdjacency {
  import Graph
  import Wrappers
  import Sequences

  type NodeId = Graph.NodeId

  datatype Entry = Entry(key: NodeId, value: NodeId)

  datatype Adjacency = Adjacency(directed: bool, accessibleFrom: seq<Entry>, linkingTo: seq<Entry>)

  /** The values a multimap holds under `k`, in insertion order (`equal_range`). */
  function ValuesOf(es: seq<Entry>, k: NodeId): (r: seq<NodeId>)
    ensures forall v :: v in r <==> Entry(k, v) in es
    ensures (forall x :: x in es ==> x.key != k) ==> r == []
    ensures |r| <= |es|
  {
    if |es| == 0 then []
    else
      assert forall x :: x in es <==> x == es[0] || x in es[1..];
      (if es[0].key == k then [es[0].value] else []) + ValuesOf(es[1..], k)
  }

  /** The forward entries of an edge list: one per edge, keyed by its start. */
  function Forward<E>(es: seq<Graph.Edge<E>>): (r: seq<Entry>)
    ensures |r| == |es|
    ensures forall i :: 0 <= i < |es| ==> r[i] == Entry(es[i].from, es[i].to)
  {
    if |es| == 0 then [] else [Entry(es[0].from, es[0].to)] + Forward(es[1..])
  }

  /** The reverse entries of an edge list: one per edge, keyed by its end. */
  function Reverse<E>(es: seq<Graph.Edge<E>>): (r: seq<Entry>)
    ensures |r| == |es|
    ensures forall i :: 0 <= i < |es| ==> r[i] == Entry(es[i].to, es[i].from)
  {
    if |es| == 0 then [] else [Entry(es[0].to, es[0].from)] + Reverse(es[1..])
  }

  /** The multimaps `add_edge` leaves after adding the graph's edges in order. */
  function AdjacencyOf<N, E>(g: Graph.Graph<N, E>): (r: Adjacency)
    ensures r.directed == g.directed
    ensures |r.accessibleFrom| == |r.linkingTo| == |g.edges|
  {
    Adjacency(g.directed, Forward(g.edges), Reverse(g.edges))
  }

  /** `neighbours`: the forward values, then in an undirected graph the inbound ones. */
  function NeighboursOf(adj: Adjacency, n: NodeId): (r: seq<NodeId>)
    ensures forall v :: v in r <==> Entry(n, v) in adj.accessibleFrom || (!adj.directed && Entry(n, v) in adj.linkingTo)
  {
    ValuesOf(adj.accessibleFrom, n) + if adj.directed then [] else ValuesOf(adj.linkingTo, n)
  }

  /** `erase` of the first entry with key `k` and value `v`, if any (the loops' `break`). */
  function EraseFirst(es: seq<Entry>, k: NodeId, v: NodeId): (r: seq<Entry>)
    ensures Entry(k, v) in es ==> |r| == |es| - 1
    ensures Entry(k, v) !in es ==> r == es
    ensures forall x :: x in r ==> x in es
  {
    if |es| == 0 then []
    else if es[0] == Entry(k, v) then es[1..]
    else [es[0]] + EraseFirst(es[1..], k, v)
  }

  /** For each key in `keys`, in order, erase its first entry whose value is `n`. */
  function Unlink(es: seq<Entry>, keys: seq<NodeId>, n: NodeId): (r: seq<Entry>)
    ensures forall x :: x in r ==> x in es
    ensures forall x :: x in es && x.value != n ==> x in r
    decreases |keys|
  {
    if |keys| == 0 then es
    else
      var first := EraseFirst(es, keys[0], n);
      assert forall x :: x in es && x != Entry(keys[0], n) ==> x in first by {
        EraseFirstKeepsOthers(es, keys[0], n);
      }
      Unlink(first, keys[1..], n)
  }

  lemma {:induction false} EraseFirstKeepsOthers(es: seq<Entry>, k: NodeId, v: NodeId)
    ensures forall x :: x in es && x != Entry(k, v) ==> x in EraseFirst(es, k, v)
  {
    if |es| > 0 && es[0] != Entry(k, v) {
      EraseFirstKeepsOthers(es[1..], k, v);
      assert forall x :: x in es ==> x == es[0] || x in es[1..];
    }
  }

  /** The entries whose key is not `n`, in their order. */
  function DropKey(es: seq<Entry>, n: NodeId): (r: seq<Entry>)
    ensures forall x :: x in r <==> x in es && x.key != n
  {
    if |es| == 0 then []
    else
      assert forall x :: x in es <==> x == es[0] || x in es[1..];
      (if es[0].key != n then [es[0]] else []) + DropKey(es[1..], n)
  }

  /**
   * `remove_node` as written: every forward end loses its reverse entry to
   * `n`, then every inbound start loses its forward entry to `n`; the
   * entries keyed by `n` itself stay, apart from a self loop's.
   */
  function RemoveNodeAsWritten(adj: Adjacency, n: NodeId): (r: Adjacency)
    ensures r.directed == adj.directed
    ensures forall x :: x in adj.accessibleFrom && x.key == n && x.value != n ==> x in r.accessibleFrom
  {
    var linkingTo := Unlink(adj.linkingTo, ValuesOf(adj.accessibleFrom, n), n);
    var accessibleFrom := Unlink(adj.accessibleFrom, ValuesOf(linkingTo, n), n);
    Adjacency(adj.directed, accessibleFrom, linkingTo)
  }

  /** `remove_node` as intended: the same tidying, and the node's own ranges erased. */
  function RemoveNode(adj: Adjacency, n: NodeId): (r: Adjacency)
    ensures r.directed == adj.directed
    ensures forall x :: x in r.accessibleFrom ==> x.key != n
    ensures forall x :: x in r.linkingTo ==> x.key != n
  {
    var w := RemoveNodeAsWritten(adj, n);
    Adjacency(adj.directed, DropKey(w.accessibleFrom, n), DropKey(w.linkingTo, n))
  }

  /** Erasing a key's range leaves every other key's values as they were. */
  lemma {:induction false} DropKeyKeepsOtherValues(es: seq<Entry>, n: NodeId, m: NodeId)
    requires m != n
    ensures ValuesOf(DropKey(es, n), m) == ValuesOf(es, m)
  {
    if |es| > 0 {
      DropKeyKeepsOtherValues(es[1..], n, m);
      var rest := DropKey(es[1..], n);
      if es[0].key != n {
        assert ([es[0]] + rest)[1..] == rest;
      } else {
        assert DropKey(es, n) == rest;
      }
    }
  }

  /**
   * The corrected removal lists no neighbours for the removed node, and
   * differs from the written one only there.
   */
  lemma RemoveNodeForgetsOnlyNode(adj: Adjacency, n: NodeId, m: NodeId)
    ensures NeighboursOf(RemoveNode(adj, n), n) == []
    ensures m != n ==> NeighboursOf(RemoveNode(adj, n), m) == NeighboursOf(RemoveNodeAsWritten(adj, n), m)
  {
    var w := RemoveNodeAsWritten(adj, n);
    if m != n {
      DropKeyKeepsOtherValues(w.accessibleFrom, n, m);
      DropKeyKeepsOtherValues(w.linkingTo, n, m);
    }
  }

  /** The forward values of a node are the targets of its stored edges, in order. */
  lemma {:induction false} ForwardValues<E>(es: seq<Graph.Edge<E>>, n: NodeId)
    ensures ValuesOf(Forward(es), n) == Graph.Targets(es, n)
  {
    if |es| > 0 {
      ForwardValues(es[1..], n);
      assert Forward(es)[1..] == Forward(es[1..]);
    }
  }

  /** The reverse values of a node are the sources of its stored edges, in order. */
  lemma {:induction false} ReverseValues<E>(es: seq<Graph.Edge<E>>, n: NodeId)
    ensures ValuesOf(Reverse(es), n) == Graph.Sources(es, n)
  {
    if |es| > 0 {
      ReverseValues(es[1..], n);
      assert Reverse(es)[1..] == Reverse(es[1..]);
    }
  }

  /** The multimaps give the same neighbours, in the same order, as `Graph.Neighbours`. */
  lemma AdjacencyNeighbours<N, E>(g: Graph.Graph<N, E>, n: NodeId)
    requires n in g.nodes
    ensures NeighboursOf(AdjacencyOf(g), n) == Graph.Neighbours(g, n).value
  {
    ForwardValues(g.edges, n);
    ReverseValues(g.edges, n);
  }

  /** A list without members is empty. */
  lemma NothingListed(s: seq<NodeId>)
    ensures s == [] <==> forall x :: x !in s
  {
    if |s| > 0 {
      assert s[0] in s;
    }
  }

  /**
   * In the graph model a node removed and added back has no neighbours,
   * as the corrected multimaps list none for it.
   */
  lemma ReaddedNodeHasNoNeighbours<N, E>(g: Graph.Graph<N, E>, n: NodeId, d: N)
    requires Graph.Valid(g) && n in g.nodes
    ensures Graph.RemoveNode(g, n).Success?
    ensures Graph.Valid(Graph.RemoveNode(g, n).value)
    ensures Graph.Neighbours(Graph.AddExistingNode(Graph.RemoveNode(g, n).value, n, d).value, n) == Wrappers.Success([])
    ensures NeighboursOf(RemoveNode(AdjacencyOf(g), n), n) == []
  {
    Graph.RemoveNodeKeepsValid(g, n);
    var back := Graph.AddExistingNode(Graph.RemoveNode(g, n).value, n, d).value;
    assert forall i :: 0 <= i < |back.edges| ==> back.edges[i].from != n && back.edges[i].to != n;
    assert Graph.Targets(back.edges, n) == [] && Graph.Sources(back.edges, n) == [] by {
      NothingListed(Graph.Targets(back.edges, n));
      NothingListed(Graph.Sources(back.edges, n));
    }
    RemoveNodeForgetsOnlyNode(AdjacencyOf(g), n, n);
  }

  /**
   * The stale entries: in an undirected graph with the one edge 0-1,
   * removing node 0 as written and adding it back leaves 1 listed as its
   * neighbour, while the graph model, which drops the edge, lists none.
   */
  lemma StaleNeighbours()
    ensures var g := Graph.Graph(false, map[0 := (), 1 := ()], 2, [Graph.Edge(0, 1, ())]);
            && NeighboursOf(RemoveNodeAsWritten(AdjacencyOf(g), 0), 0) == [1]
            && NeighboursOf(RemoveNode(AdjacencyOf(g), 0), 0) == []
            && Graph.Neighbours(Graph.AddExistingNode(Graph.RemoveNode(g, 0).value, 0, ()).value, 0) == Wrappers.Success([])
  {
    var g := Graph.Graph(false, map[0 := (), 1 := ()], 2, [Graph.Edge(0, 1, ())]);
    var adj := AdjacencyOf(g);
    assert adj.accessibleFrom == [Entry(0, 1)] && adj.linkingTo == [Entry(1, 0)];
    assert ValuesOf(adj.accessibleFrom, 0) == [1];
    var linkingTo := Unlink(adj.linkingTo, [1], 0);
    assert EraseFirst(adj.linkingTo, 1, 0) == [];
    assert linkingTo == [];
    assert ValuesOf(linkingTo, 0) == [];
    var w := RemoveNodeAsWritten(adj, 0);
    assert w.accessibleFrom == [Entry(0, 1)] && w.linkingTo == [];
    assert ValuesOf(w.accessibleFrom, 0) == [1];
    RemoveNodeForgetsOnlyNode(adj, 0, 0);
    var r := Graph.RemoveNode(g, 0).value;
    assert r.edges == [];
    var back := Graph.AddExistingNode(r, 0, ()).value;
    assert back.edges == [] && 0 in back.nodes;
  }
  // ------------------------------------------------------------------
  // The tidying loops and the other nodes

  /** The values under `k` count the entries `(k, v)`. */
  lemma {:induction false} ValuesCount(es: seq<Entry>, k: NodeId, v: NodeId)
    ensures multiset(ValuesOf(es, k))[v] == multiset(es)[Entry(k, v)]
  {
    if |es| > 0 {
      ValuesCount(es[1..], k, v);
      assert es == [es[0]] + es[1..];
    }
  }

  /** A list without repeats holds each value at most once. */
  lemma {:induction false} DistinctOnce(s: seq<NodeId>, v: NodeId)
    requires Sequences.Distinct(s)
    ensures multiset(s)[v] <= 1
  {
    if |s| > 0 {
      Sequences.DistinctCons(s);
      DistinctOnce(s[1..], v);
      assert s == [s[0]] + s[1..];
    }
  }

  /** Erasing only removes entries, and erases the only entry `(k, v)` there is. */
  lemma {:induction false} EraseFirstCount(es: seq<Entry>, k: NodeId, v: NodeId)
    ensures multiset(EraseFirst(es, k, v)) <= multiset(es)
    ensures multiset(es)[Entry(k, v)] <= 1 ==> Entry(k, v) !in EraseFirst(es, k, v)
  {
    if |es| > 0 {
      assert es == [es[0]] + es[1..];
      if es[0] != Entry(k, v) {
        EraseFirstCount(es[1..], k, v);
      }
    }
  }

  /** A tidying loop that visits `k` leaves no entry `(k, n)` when there was at most one. */
  lemma {:induction false} UnlinkCount(es: seq<Entry>, keys: seq<NodeId>, n: NodeId, k: NodeId)
    requires k in keys && multiset(es)[Entry(k, n)] <= 1
    ensures Entry(k, n) !in Unlink(es, keys, n)
    decreases |keys|
  {
    var first := EraseFirst(es, keys[0], n);
    EraseFirstCount(es, keys[0], n);
    if keys[0] != k {
      assert k in keys[1..];
      UnlinkCount(first, keys[1..], n, k);
    }
  }

  /** A forward entry is a stored edge, and so is a reverse entry read backwards. */
  lemma EntriesStored<E>(es: seq<Graph.Edge<E>>, a: NodeId, b: NodeId)
    ensures Entry(a, b) in Forward(es) <==> Graph.Stored(es, a, b)
    ensures Entry(b, a) in Reverse(es) <==> Graph.Stored(es, a, b)
  {
    if Graph.Stored(es, a, b) {
      var i :| 0 <= i < |es| && es[i].from == a && es[i].to == b;
      assert Forward(es)[i] == Entry(a, b) && Reverse(es)[i] == Entry(b, a);
    }
  }

  /** Without duplicate links each entry occurs at most once in either multimap. */
  lemma EntriesOnce<E>(directed: bool, es: seq<Graph.Edge<E>>, a: NodeId, b: NodeId)
    requires Graph.NoDuplicateLinks(directed, es)
    ensures multiset(Forward(es))[Entry(a, b)] <= 1
    ensures multiset(Reverse(es))[Entry(a, b)] <= 1
  {
    ForwardValues(es, a);
    ReverseValues(es, a);
    ValuesCount(Forward(es), a, b);
    ValuesCount(Reverse(es), a, b);
    Graph.TargetsDistinct(directed, es, a);
    Graph.SourcesDistinct(directed, es, a);
    DistinctOnce(Graph.Targets(es, a), b);
    DistinctOnce(Graph.Sources(es, a), b);
  }

  /** Removing a node keeps exactly the stored orientations between other nodes. */
  lemma RemovedStored<N, E>(g: Graph.Graph<N, E>, n: NodeId, a: NodeId, b: NodeId)
    requires Graph.RemoveNode(g, n).Success?
    ensures Graph.Stored(Graph.RemoveNode(g, n).value.edges, a, b) <==> Graph.Stored(g.edges, a, b) && a != n && b != n
  {
    var h := Graph.RemoveNode(g, n).value;
    if Graph.Stored(h.edges, a, b) {
      var i :| 0 <= i < |h.edges| && h.edges[i].from == a && h.edges[i].to == b;
      assert h.edges[i] in g.edges;
    }
    if Graph.Stored(g.edges, a, b) && a != n && b != n {
      var i :| 0 <= i < |g.edges| && g.edges[i].from == a && g.edges[i].to == b;
      var j :| 0 <= j < |h.edges| && h.edges[j] == g.edges[i];
    }
  }

  /**
   * The tidying loops keep every entry of another node `m` that does not
   * name `n`, and erase every one that does.
   */
  lemma TidiedEntries<N, E>(g: Graph.Graph<N, E>, n: NodeId, m: NodeId, v: NodeId)
    requires Graph.Valid(g) && m != n
    ensures Entry(m, v) in RemoveNode(AdjacencyOf(g), n).accessibleFrom <==> Graph.Stored(g.edges, m, v) && v != n
    ensures Entry(m, v) in RemoveNode(AdjacencyOf(g), n).linkingTo <==> Graph.Stored(g.edges, v, m) && v != n
  {
    var af := Forward(g.edges);
    var lt := Reverse(g.edges);
    var lt1 := Unlink(lt, ValuesOf(af, n), n);
    var af1 := Unlink(af, ValuesOf(lt1, n), n);
    assert RemoveNode(AdjacencyOf(g), n) == Adjacency(g.directed, DropKey(af1, n), DropKey(lt1, n));
    EntriesStored(g.edges, m, v);
    EntriesStored(g.edges, v, m);
    if Entry(m, n) in af {
      EntriesStored(g.edges, m, n);
      assert Entry(n, m) in lt1;
      EntriesOnce(g.directed, g.edges, m, n);
      UnlinkCount(af, ValuesOf(lt1, n), n, m);
    }
    if Entry(m, n) in lt {
      EntriesStored(g.edges, n, m);
      EntriesOnce(g.directed, g.edges, m, n);
      UnlinkCount(lt, ValuesOf(af, n), n, m);
    }
  }

  /**
   * For every node other than the one removed, the corrected multimaps
   * list the same neighbours as the graph model after `Graph.RemoveNode`:
   * the tidying loops erase exactly the entries that name the removed node.
   */
  lemma RemoveNodeTidiesOthers<N, E>(g: Graph.Graph<N, E>, n: NodeId, m: NodeId)
    requires Graph.Valid(g) && n in g.nodes && m in g.nodes && m != n
    ensures Graph.RemoveNode(g, n).Success? && Graph.Neighbours(Graph.RemoveNode(g, n).value, m).Success?
    ensures forall v :: v in NeighboursOf(RemoveNode(AdjacencyOf(g), n), m) <==> v in Graph.Neighbours(Graph.RemoveNode(g, n).value, m).value
  {
    var h := Graph.RemoveNode(g, n).value;
    forall v ensures v in NeighboursOf(RemoveNode(AdjacencyOf(g), n), m) <==> v in Graph.Neighbours(h, m).value {
      TidiedEntries(g, n, m, v);
      RemovedStored(g, n, m, v);
      RemovedStored(g, n, v, m);
    }
  }
}
