/**
 * Saving a surfel graph to the binary file and loading it back.
 *
 * A save writes the header, the surfel records and, when asked, the edge
 * records. A load builds an undirected graph with one node per surfel
 * record, in file order, so the node made for the i-th record has handle
 * `i`. Two lookup tables keyed by surfel id keep the first node and the
 * first neighbour list stored under each id. The edges then come either
 * from the edge section or, when that is absent, from the neighbour lists,
 * and in both cases a link that is already present is skipped.
 *
 * The graph the save walks over is given here by its surfel records, each
 * carrying the ids of the surfel's neighbours, and by its edge records.
 */
module SurfelLoad {
  import opened Wrappers
  import opened FixedWidth
  import opened BinaryIo
  import opened Graph
  import opened SurfelIo
  import opened Sequences

  type SurfelFile = Graph<SurfelRecord, EdgeInfo>

  /** What a load produces: the flags word read and the graph. */
  datatype LoadedFile = LoadedFile(flags: U16, graph: SurfelFile)

  // ------------------------------------------------------------------
  // Lookup tables

  /**
   * `emplace` of each key in turn, where a key offered again keeps the
   * value it was first given: each key maps to the value at its first
   * occurrence. Built from the back, so that earlier entries overwrite
   * later ones.
   */
  function Index<V>(keys: seq<Id>, vals: seq<V>): (m: map<Id, V>)
    requires |keys| == |vals|
    ensures forall k :: k in m <==> k in keys
    ensures forall k :: k in m ==> m[k] == vals[Find(keys, k)]
    decreases |keys|
  {
    if |keys| == 0 then map[]
    else Index(keys[1..], vals[1..])[keys[0] := vals[0]]
  }

  function IdsOf(ss: seq<SurfelRecord>): (r: seq<Id>)
    ensures |r| == |ss| && forall i :: 0 <= i < |ss| ==> r[i] == ss[i].id
  {
    seq(|ss|, i requires 0 <= i < |ss| => ss[i].id)
  }

  /** The handles `0, 1, ..., n - 1`. */
  function Handles(n: nat): (r: seq<NodeId>)
    ensures |r| == n && forall i :: 0 <= i < n ==> r[i] == i
  {
    seq(n, i => i)
  }

  /** The node first made for each id: the first record with that id. */
  function NodeTable(ss: seq<SurfelRecord>): (m: map<Id, NodeId>)
    ensures forall i :: 0 <= i < |ss| ==> ss[i].id in m
    ensures forall k :: k in m ==> m[k] == Find(IdsOf(ss), k) && m[k] < |ss| && ss[m[k]].id == k
  {
    var ids := IdsOf(ss);
    assert forall i :: 0 <= i < |ss| ==> ids[i] in ids;
    Index(ids, Handles(|ss|))
  }

  /** The neighbour list first stored for each id: the first record with that id's. */
  function NeighbourTable(ss: seq<SurfelRecord>): (m: map<Id, seq<Id>>)
    ensures forall i :: 0 <= i < |ss| ==> ss[i].id in m
    ensures forall k :: k in m ==> var i := Find(IdsOf(ss), k); i < |ss| && ss[i].id == k && m[k] == ss[i].neighbours
  {
    var ids := IdsOf(ss);
    assert forall i :: 0 <= i < |ss| ==> ids[i] in ids;
    Index(ids, seq(|ss|, i requires 0 <= i < |ss| => ss[i].neighbours))
  }

  /** With no id repeated, each id's entry is the one record that has it. */
  lemma NodeTableDistinct(ss: seq<SurfelRecord>, i: nat)
    requires DistinctIds(ss)
    requires i < |ss|
    ensures NodeTable(ss)[ss[i].id] == i
    ensures NeighbourTable(ss)[ss[i].id] == ss[i].neighbours
  {
    assert IdsOf(ss)[i] == ss[i].id;
  }

  /** No two records share an id. */
  ghost predicate DistinctIds(ss: seq<SurfelRecord>)
  {
    forall a, b :: 0 <= a < b < |ss| ==> ss[a].id != ss[b].id
  }

  // ------------------------------------------------------------------
  // Nodes

  /** `add_node` for each record in turn: the i-th receives handle `nextId + i`. */
  function AddSurfels(g: SurfelFile, ss: seq<SurfelRecord>): (r: SurfelFile)
    requires Valid(g)
    ensures Valid(r) && r.edges == g.edges && r.directed == g.directed
    ensures r.nextId == g.nextId + |ss|
    ensures NumNodes(r) == NumNodes(g) + |ss|
    decreases |ss|
  {
    if |ss| == 0 then g
    else AddNode(AddSurfels(g, ss[..|ss| - 1]), ss[|ss| - 1]).0
  }

  /** `m` with the i-th record stored under `k + i`. */
  function Extend(m: map<NodeId, SurfelRecord>, k: NodeId, ss: seq<SurfelRecord>): (r: map<NodeId, SurfelRecord>)
    ensures forall n :: n in r <==> n in m || k <= n < k + |ss|
    ensures forall n :: k <= n < k + |ss| ==> r[n] == ss[n - k]
    decreases |ss|
  {
    if |ss| == 0 then m
    else
      var front := ss[..|ss| - 1];
      assert forall i :: 0 <= i < |front| ==> front[i] == ss[i];
      Extend(m, k, front)[k + |ss| - 1 := ss[|ss| - 1]]
  }

  /** Adding the records node by node stores the i-th under handle `nextId + i`. */
  lemma {:induction false} AddSurfelsNodes(g: SurfelFile, ss: seq<SurfelRecord>)
    requires Valid(g)
    ensures AddSurfels(g, ss).nodes == Extend(g.nodes, g.nextId, ss)
    decreases |ss|
  {
    if |ss| > 0 {
      AddSurfelsNodes(g, ss[..|ss| - 1]);
    }
  }

  // ------------------------------------------------------------------
  // Links

  /**
   * Each link not yet present is added, in order; a link already present,
   * in either orientation, is skipped.
   */
  function InsertEdges(g: SurfelFile, es: seq<Edge<EdgeInfo>>): (r: SurfelFile)
    requires Valid(g) && !g.directed
    requires forall i :: 0 <= i < |es| ==> es[i].from in g.nodes && es[i].to in g.nodes
    ensures Valid(r) && !r.directed && r.nodes == g.nodes && r.nextId == g.nextId
    ensures |r.edges| >= |g.edges| && r.edges[..|g.edges|] == g.edges
    ensures forall i :: 0 <= i < |es| ==> HasEdge(r, es[i].from, es[i].to)
    ensures forall j :: |g.edges| <= j < |r.edges| ==> r.edges[j] in es
    decreases |es|
  {
    if |es| == 0 then g
    else
      var e := es[0];
      assert forall i :: 1 <= i < |es| ==> es[1..][i - 1] == es[i];
      if HasEdge(g, e.from, e.to) then
        var r := InsertEdges(g, es[1..]);
        StoredPrefix(g.edges, r.edges, e.from, e.to);
        StoredPrefix(g.edges, r.edges, e.to, e.from);
        r
      else
        var g1 := AddEdge(g, e.from, e.to, e.data).value;
        AddEdgeKeepsValid(g, e.from, e.to, e.data);
        var r := InsertEdges(g1, es[1..]);
        StoredPrefix(g1.edges, r.edges, e.from, e.to);
        StoredPrefix(g1.edges, r.edges, e.to, e.from);
        assert r.edges[..|g.edges|] == r.edges[..|g1.edges|][..|g.edges|];
        assert r.edges[|g.edges|] == r.edges[..|g1.edges|][|g.edges|] == e;
        r
  }

  /** A link stored in a prefix stays stored. */
  lemma StoredPrefix<E>(es: seq<Edge<E>>, longer: seq<Edge<E>>, a: NodeId, b: NodeId)
    requires |longer| >= |es| && longer[..|es|] == es
    ensures Stored(es, a, b) ==> Stored(longer, a, b)
  {
    if Stored(es, a, b) {
      var i :| 0 <= i < |es| && es[i].from == a && es[i].to == b;
      assert longer[..|es|][i] == longer[i];
    }
  }

  /**
   * Links that are all new, no two of them the same, are all added: the
   * edges after are the edges before followed by the new ones.
   */
  lemma InsertNewEdges(g: SurfelFile, es: seq<Edge<EdgeInfo>>)
    requires Valid(g) && !g.directed
    requires forall i :: 0 <= i < |es| ==> es[i].from in g.nodes && es[i].to in g.nodes
    requires NoDuplicateLinks(false, g.edges + es)
    ensures InsertEdges(g, es).edges == g.edges + es
  {
    DistinctLinksFresh(g.edges, es);
    InsertFreshEdges(g, es);
  }

  lemma {:induction false} InsertFreshEdges(g: SurfelFile, es: seq<Edge<EdgeInfo>>)
    requires Valid(g) && !g.directed
    requires forall i :: 0 <= i < |es| ==> es[i].from in g.nodes && es[i].to in g.nodes
    requires FreshLinks(g.edges, es)
    ensures InsertEdges(g, es).edges == g.edges + es
    decreases |es|
  {
    if |es| > 0 {
      var e := es[0];
      var g1 := AddEdge(g, e.from, e.to, e.data).value;
      AddEdgeKeepsValid(g, e.from, e.to, e.data);
      AddEdgeAppends(g, e);
      assert g1.edges + es[1..] == g.edges + es;
      InsertFreshEdges(g1, es[1..]);
    } else {
      assert g.edges + es == g.edges;
    }
  }

  // ------------------------------------------------------------------
  // The edge section

  /**
   * One edge record, its ends looked up as they are read: an id no surfel
   * has fails the load.
   */
  function ReadEdgeRecord(bs: seq<Byte>, nodeOf: map<Id, NodeId>): (r: Loading<Edge<EdgeInfo>>)
    ensures r.Success? ==> r.value.0.from in nodeOf.Values && r.value.0.to in nodeOf.Values
  {
    var (from, bs1) :- ReadId(bs);
    if from !in nodeOf then Failure(UnknownId(from))
    else
      var (to, bs2) :- ReadId(bs1);
      if to !in nodeOf then Failure(UnknownId(to))
      else
        var (data, bs3) :- ReadEdgeData(bs2);
        Success((Edge(nodeOf[from], nodeOf[to], data), bs3))
  }

  /** Ends the table knows, and displacements a `size_t` can count. */
  predicate EdgeKnown(e: SavedEdge, nodeOf: map<Id, NodeId>)
  {
    EdgeWritable(e) && e.from in nodeOf && e.to in nodeOf
  }

  /** The edge a saved edge with known ends loads as. */
  function Resolved(e: SavedEdge, nodeOf: map<Id, NodeId>): (r: Edge<EdgeInfo>)
    ensures EdgeKnown(e, nodeOf) ==> r.from == nodeOf[e.from] && r.to == nodeOf[e.to]
    ensures r.data == Loaded(e)
  {
    if e.from in nodeOf && e.to in nodeOf then Edge(nodeOf[e.from], nodeOf[e.to], Loaded(e))
    else Edge(0, 0, Loaded(e))
  }

  lemma EdgeRecordRoundTrip(e: SavedEdge, nodeOf: map<Id, NodeId>, rest: seq<Byte>)
    requires EdgeKnown(e, nodeOf)
    ensures ReadEdgeRecord(PutEdge(e, rest), nodeOf) == Success((Resolved(e, nodeOf), rest))
  {
    IdRoundTrip(e.from, WriteString(e.to) + PutEdgeData(e, rest));
    assert PutId(e.from, WriteString(e.to) + PutEdgeData(e, rest)) == PutEdge(e, rest);
    IdRoundTrip(e.to, PutEdgeData(e, rest));
    EdgeDataRoundTrip(e, rest);
  }

  /**
   * The edge section, corrected: every record is read in full, and only
   * then is a link already present skipped.
   */
  function ReadEdges(bs: seq<Byte>, count: nat, g: SurfelFile, nodeOf: map<Id, NodeId>): (r: Result<SurfelFile, LoadError>)
    requires Valid(g) && !g.directed
    requires forall k :: k in nodeOf ==> nodeOf[k] in g.nodes
    ensures r.Success? ==> Valid(r.value) && !r.value.directed && r.value.nodes == g.nodes
  {
    var read := b => ReadEdgeRecord(b, nodeOf);
    var (es, _) :- ReadAll(bs, count, read);
    ReadAllEach(bs, count, read, (e: Edge<EdgeInfo>) => e.from in g.nodes && e.to in g.nodes);
    Success(InsertEdges(g, es))
  }

  /**
   * The edge section as written: when the link is already present the
   * weight, rotation indices and displacements are left unread, and the
   * next record is read from where they start.
   */
  function ReadEdgesAsWritten(bs: seq<Byte>, count: nat, g: SurfelFile, nodeOf: map<Id, NodeId>): (r: Result<SurfelFile, LoadError>)
    requires Valid(g) && !g.directed
    requires forall k :: k in nodeOf ==> nodeOf[k] in g.nodes
    ensures r.Success? ==> Valid(r.value) && !r.value.directed && r.value.nodes == g.nodes
    decreases count
  {
    if count == 0 then Success(g)
    else
      var (from, bs1) :- ReadId(bs);
      if from !in nodeOf then Failure(UnknownId(from))
      else
        var (to, bs2) :- ReadId(bs1);
        if to !in nodeOf then Failure(UnknownId(to))
        else if HasEdge(g, nodeOf[from], nodeOf[to]) then ReadEdgesAsWritten(bs2, count - 1, g, nodeOf)
        else
          var (data, bs3) :- ReadEdgeData(bs2);
          var g1 := AddEdge(g, nodeOf[from], nodeOf[to], data).value;
          AddEdgeKeepsValid(g, nodeOf[from], nodeOf[to], data);
          ReadEdgesAsWritten(bs3, count - 1, g1, nodeOf)
  }

  /**
   * As written, a record whose link is already present leaves its data to
   * be read as the start of the next record; the corrected reader reads
   * past it.
   */
  lemma DuplicateEdgeDesync(e: SavedEdge, k: nat, g: SurfelFile, nodeOf: map<Id, NodeId>, rest: seq<Byte>)
    requires Valid(g) && !g.directed
    requires forall k :: k in nodeOf ==> nodeOf[k] in g.nodes
    requires EdgeKnown(e, nodeOf) && HasEdge(g, nodeOf[e.from], nodeOf[e.to])
    ensures ReadEdgesAsWritten(PutEdge(e, rest), k + 1, g, nodeOf) == ReadEdgesAsWritten(PutEdgeData(e, rest), k, g, nodeOf)
  {
    IdRoundTrip(e.from, WriteString(e.to) + PutEdgeData(e, rest));
    assert PutId(e.from, WriteString(e.to) + PutEdgeData(e, rest)) == PutEdge(e, rest);
    IdRoundTrip(e.to, PutEdgeData(e, rest));
  }

  /** Neither reader adds a link already present: the saved edges add nothing past the ones first loaded. */
  lemma DuplicateEdgeSkipped(e: SavedEdge, k: nat, g: SurfelFile, nodeOf: map<Id, NodeId>, rest: seq<Byte>)
    requires Valid(g) && !g.directed
    requires forall k :: k in nodeOf ==> nodeOf[k] in g.nodes
    requires EdgeKnown(e, nodeOf) && HasEdge(g, nodeOf[e.from], nodeOf[e.to])
    ensures ReadEdges(PutEdge(e, rest), k + 1, g, nodeOf) == ReadEdges(rest, k, g, nodeOf)
  {
    var read := b => ReadEdgeRecord(b, nodeOf);
    EdgeRecordRoundTrip(e, nodeOf, rest);
    var d := Resolved(e, nodeOf);
    ReadAllFirst(PutEdge(e, rest), k, read, d, rest);
    match ReadAll(rest, k, read)
    case Failure(_) =>
    case Success((es, _)) =>
      var p := (e: Edge<EdgeInfo>) => e.from in g.nodes && e.to in g.nodes;
      ReadAllEach(rest, k, read, p);
      assert ([d] + es)[1..] == es;
  }

  /** The edges a list of saved edges loads as. */
  function ResolvedAll(es: seq<SavedEdge>, nodeOf: map<Id, NodeId>): (r: seq<Edge<EdgeInfo>>)
    ensures |r| == |es| && forall i :: 0 <= i < |es| ==> r[i] == Resolved(es[i], nodeOf)
  {
    MapAll(es, e => Resolved(e, nodeOf))
  }

  /** Saved edges whose links are new and distinct are all added, in order, by the corrected reader. */
  lemma EdgesRoundTrip(es: seq<SavedEdge>, g: SurfelFile, nodeOf: map<Id, NodeId>, rest: seq<Byte>)
    requires Valid(g) && !g.directed
    requires forall k :: k in nodeOf ==> nodeOf[k] in g.nodes
    requires forall e :: e in es ==> EdgeKnown(e, nodeOf)
    requires NoDuplicateLinks(false, g.edges + ResolvedAll(es, nodeOf))
    ensures ReadEdges(PutAll(es, PutEdge, rest), |es|, g, nodeOf) == Success(g.(edges := g.edges + ResolvedAll(es, nodeOf)))
  {
    EdgeRecordsRead(es, nodeOf, rest);
    var rs := ResolvedAll(es, nodeOf);
    forall i | 0 <= i < |rs| ensures rs[i].from in g.nodes && rs[i].to in g.nodes {
      assert EdgeKnown(es[i], nodeOf);
    }
    ReadNewEdges(PutAll(es, PutEdge, rest), |es|, g, nodeOf, rs, rest);
  }

  /** When the records read are new, distinct links between nodes of the graph, the reader adds them all, in order. */
  lemma ReadNewEdges(bs: seq<Byte>, count: nat, g: SurfelFile, nodeOf: map<Id, NodeId>, rs: seq<Edge<EdgeInfo>>, rest: seq<Byte>)
    requires Valid(g) && !g.directed
    requires forall k :: k in nodeOf ==> nodeOf[k] in g.nodes
    requires ReadAll(bs, count, b => ReadEdgeRecord(b, nodeOf)) == Success((rs, rest))
    requires forall i :: 0 <= i < |rs| ==> rs[i].from in g.nodes && rs[i].to in g.nodes
    requires NoDuplicateLinks(false, g.edges + rs)
    ensures ReadEdges(bs, count, g, nodeOf) == Success(g.(edges := g.edges + rs))
  {
    InsertNewEdges(g, rs);
  }

  /** Saved edges with known ends read back, in order, as the edges they resolve to. */
  lemma EdgeRecordsRead(es: seq<SavedEdge>, nodeOf: map<Id, NodeId>, rest: seq<Byte>)
    requires forall e :: e in es ==> EdgeKnown(e, nodeOf)
    ensures ReadAll(PutAll(es, PutEdge, rest), |es|, b => ReadEdgeRecord(b, nodeOf)) == Success((ResolvedAll(es, nodeOf), rest))
  {
    var read := b => ReadEdgeRecord(b, nodeOf);
    var f := e => Resolved(e, nodeOf);
    forall x, r | EdgeKnown(x, nodeOf) ensures read(PutEdge(x, r)) == Success((f(x), r)) {
      EdgeRecordRoundTrip(x, nodeOf, r);
    }
    AllRoundTrip(es, PutEdge, read, e => EdgeKnown(e, nodeOf), f, rest);
  }

  /** The link of `d` is stored among `es`, in either orientation. */
  predicate Linked(es: seq<Edge<EdgeInfo>>, d: Edge<EdgeInfo>)
  {
    Stored(es, d.from, d.to) || Stored(es, d.to, d.from)
  }

  /** Each edge of `rs` is a link not present when its turn comes. */
  ghost predicate FreshLinks(present: seq<Edge<EdgeInfo>>, rs: seq<Edge<EdgeInfo>>)
    decreases |rs|
  {
    |rs| == 0 || (!Linked(present, rs[0]) && FreshLinks(present + [rs[0]], rs[1..]))
  }

  /** Links that repeat neither each other nor the ones present are fresh, each in its turn. */
  lemma {:induction false} DistinctLinksFresh(present: seq<Edge<EdgeInfo>>, rs: seq<Edge<EdgeInfo>>)
    requires NoDuplicateLinks(false, present + rs)
    ensures FreshLinks(present, rs)
    decreases |rs|
  {
    if |rs| > 0 {
      var all := present + rs;
      var d := rs[0];
      forall i | 0 <= i < |present|
        ensures !(present[i].from == d.from && present[i].to == d.to)
        ensures !(present[i].from == d.to && present[i].to == d.from)
      {
        assert all[i] == present[i] && all[|present|] == d;
        assert !SameLink(false, all[i], all[|present|]);
      }
      assert (present + [d]) + rs[1..] == all;
      DistinctLinksFresh(present + [d], rs[1..]);
    }
  }

  /** Without links already present, the as-written reader reads the same graph as the corrected one. */
  lemma AsWrittenAgrees(es: seq<SavedEdge>, g: SurfelFile, nodeOf: map<Id, NodeId>, rest: seq<Byte>)
    requires Valid(g) && !g.directed
    requires forall k :: k in nodeOf ==> nodeOf[k] in g.nodes
    requires forall e :: e in es ==> EdgeKnown(e, nodeOf)
    requires NoDuplicateLinks(false, g.edges + ResolvedAll(es, nodeOf))
    ensures ReadEdgesAsWritten(PutAll(es, PutEdge, rest), |es|, g, nodeOf) == Success(g.(edges := g.edges + ResolvedAll(es, nodeOf)))
    ensures ReadEdgesAsWritten(PutAll(es, PutEdge, rest), |es|, g, nodeOf) == ReadEdges(PutAll(es, PutEdge, rest), |es|, g, nodeOf)
  {
    DistinctLinksFresh(g.edges, ResolvedAll(es, nodeOf));
    AsWrittenReadsFresh(es, g, nodeOf, rest);
    EdgesRoundTrip(es, g, nodeOf, rest);
  }

  /** Records whose links are fresh, each in its turn, are read in full and all added. */
  lemma {:induction false} AsWrittenReadsFresh(es: seq<SavedEdge>, g: SurfelFile, nodeOf: map<Id, NodeId>, rest: seq<Byte>)
    requires Valid(g) && !g.directed
    requires forall k :: k in nodeOf ==> nodeOf[k] in g.nodes
    requires forall e :: e in es ==> EdgeKnown(e, nodeOf)
    requires FreshLinks(g.edges, ResolvedAll(es, nodeOf))
    ensures ReadEdgesAsWritten(PutAll(es, PutEdge, rest), |es|, g, nodeOf) == Success(g.(edges := g.edges + ResolvedAll(es, nodeOf)))
    decreases |es|
  {
    if |es| > 0 {
      var e := es[0];
      var d := Resolved(e, nodeOf);
      var tail := PutAll(es[1..], PutEdge, rest);
      assert PutAll(es, PutEdge, rest) == PutEdge(e, tail);
      ResolvedAllCons(es, nodeOf);
      AsWrittenStep(e, |es| - 1, g, nodeOf, tail);
      var g1 := AddEdge(g, d.from, d.to, d.data).value;
      AddEdgeAppends(g, d);
      AppendAssociative(g.edges, [d], ResolvedAll(es[1..], nodeOf));
      AsWrittenReadsFresh(es[1..], g1, nodeOf, rest);
    } else {
      assert g.edges + ResolvedAll(es, nodeOf) == g.edges;
    }
  }

  lemma AppendAssociative<T>(a: seq<T>, b: seq<T>, c: seq<T>)
    ensures (a + b) + c == a + (b + c)
  {
  }

  /** A new link is stored after the edges already there. */
  lemma AddEdgeAppends(g: SurfelFile, d: Edge<EdgeInfo>)
    requires AddEdge(g, d.from, d.to, d.data).Success?
    ensures AddEdge(g, d.from, d.to, d.data).value.edges == g.edges + [d]
  {
  }

  lemma ResolvedAllCons(es: seq<SavedEdge>, nodeOf: map<Id, NodeId>)
    requires |es| > 0
    ensures ResolvedAll(es, nodeOf) == [Resolved(es[0], nodeOf)] + ResolvedAll(es[1..], nodeOf)
  {
    assert forall i :: 0 <= i < |es| - 1 ==> es[1..][i] == es[i + 1];
  }

  /** A record whose link is new is read in full and its edge added. */
  lemma AsWrittenStep(e: SavedEdge, k: nat, g: SurfelFile, nodeOf: map<Id, NodeId>, rest: seq<Byte>)
    requires Valid(g) && !g.directed
    requires forall k :: k in nodeOf ==> nodeOf[k] in g.nodes
    requires EdgeKnown(e, nodeOf) && !HasEdge(g, nodeOf[e.from], nodeOf[e.to])
    ensures AddEdge(g, nodeOf[e.from], nodeOf[e.to], Loaded(e)).Success?
    ensures Valid(AddEdge(g, nodeOf[e.from], nodeOf[e.to], Loaded(e)).value)
    ensures ReadEdgesAsWritten(PutEdge(e, rest), k + 1, g, nodeOf)
            == ReadEdgesAsWritten(rest, k, AddEdge(g, nodeOf[e.from], nodeOf[e.to], Loaded(e)).value, nodeOf)
  {
    AddEdgeKeepsValid(g, nodeOf[e.from], nodeOf[e.to], Loaded(e));
    IdRoundTrip(e.from, WriteString(e.to) + PutEdgeData(e, rest));
    assert PutId(e.from, WriteString(e.to) + PutEdgeData(e, rest)) == PutEdge(e, rest);
    IdRoundTrip(e.to, PutEdgeData(e, rest));
    EdgeDataRoundTrip(e, rest);
  }

  // ------------------------------------------------------------------
  // Edges generated from the neighbour lists

  /** The data of a generated edge: weight 1 and no labels. */
  const Generated: EdgeInfo := EdgeInfo(OneF, None, [])

  /** The edges proposed from node `n` to each listed neighbour, in order; an unknown neighbour id fails the load. */
  function Proposals(n: NodeId, ks: seq<Id>, nodeOf: map<Id, NodeId>): (r: Result<seq<Edge<EdgeInfo>>, LoadError>)
    ensures r.Success? <==> forall k :: k in ks ==> k in nodeOf
    ensures r.Success? ==> |r.value| == |ks| && forall i :: 0 <= i < |ks| ==> r.value[i] == Edge(n, nodeOf[ks[i]], Generated)
    decreases |ks|
  {
    if |ks| == 0 then Success([])
    else if ks[0] !in nodeOf then Failure(UnknownId(ks[0]))
    else
      var later :- Proposals(n, ks[1..], nodeOf);
      assert forall k :: k in ks[1..] ==> k in ks;
      Success([Edge(n, nodeOf[ks[0]], Generated)] + later)
  }

  /** Every node of `order` has a neighbour list, and every id on it is known. */
  ghost predicate Resolvable(g: SurfelFile, order: seq<NodeId>, nodeOf: map<Id, NodeId>, neighboursOf: map<Id, seq<Id>>)
    requires forall n :: n in order ==> n in g.nodes
  {
    forall n :: n in order ==> g.nodes[n].id in neighboursOf && forall k :: k in neighboursOf[g.nodes[n].id] ==> k in nodeOf
  }

  /** The edge generation proposes from `n` to the node of neighbour id `k`. */
  ghost predicate Proposed(g: SurfelFile, order: seq<NodeId>, nodeOf: map<Id, NodeId>, neighboursOf: map<Id, seq<Id>>, e: Edge<EdgeInfo>)
    requires forall n :: n in order ==> n in g.nodes
  {
    && e.from in order && e.data == Generated
    && g.nodes[e.from].id in neighboursOf
    && exists k :: k in neighboursOf[g.nodes[e.from].id] && k in nodeOf && e.to == nodeOf[k]
  }

  /** For each node in turn, the edges to the neighbours listed under its id. */
  function Candidates(g: SurfelFile, order: seq<NodeId>, nodeOf: map<Id, NodeId>, neighboursOf: map<Id, seq<Id>>)
    : (r: Result<seq<Edge<EdgeInfo>>, LoadError>)
    requires forall n :: n in order ==> n in g.nodes
    ensures r.Success? <==> Resolvable(g, order, nodeOf, neighboursOf)
    ensures r.Success? ==> forall e :: e in r.value ==> Proposed(g, order, nodeOf, neighboursOf, e)
    ensures r.Success? ==> forall n, k :: n in order && k in neighboursOf[g.nodes[n].id] ==> Edge(n, nodeOf[k], Generated) in r.value
    decreases |order|
  {
    if |order| == 0 then Success([])
    else
      var n := order[0];
      var id := g.nodes[n].id;
      assert forall m :: m in order[1..] ==> m in order;
      if id !in neighboursOf then Failure(UnknownId(id))
      else
        var here :- Proposals(n, neighboursOf[id], nodeOf);
        var later :- Candidates(g, order[1..], nodeOf, neighboursOf);
        assert forall k :: k in neighboursOf[id] ==> Edge(n, nodeOf[k], Generated) in here;
        Success(here + later)
  }

  /**
   * The edges generated when the file holds none: for every node in turn,
   * one to each neighbour listed under its id, with weight 1, skipping
   * links already present.
   */
  function GenerateEdges(g: SurfelFile, order: seq<NodeId>, nodeOf: map<Id, NodeId>, neighboursOf: map<Id, seq<Id>>)
    : (r: Result<SurfelFile, LoadError>)
    requires Valid(g) && !g.directed
    requires forall n :: n in order ==> n in g.nodes
    requires forall k :: k in nodeOf ==> nodeOf[k] in g.nodes
    ensures r.Success? <==> Resolvable(g, order, nodeOf, neighboursOf)
    ensures r.Success? ==> Valid(r.value) && !r.value.directed && r.value.nodes == g.nodes
    ensures r.Success? ==> forall n, k :: n in order && k in neighboursOf[g.nodes[n].id] ==> HasEdge(r.value, n, nodeOf[k])
    ensures r.Success? ==> forall j :: |g.edges| <= j < |r.value.edges| ==> Proposed(g, order, nodeOf, neighboursOf, r.value.edges[j])
  {
    var es :- Candidates(g, order, nodeOf, neighboursOf);
    assert forall i :: 0 <= i < |es| ==> es[i] in es;
    var r := InsertEdges(g, es);
    assert forall n, k :: n in order && k in neighboursOf[g.nodes[n].id] ==> Edge(n, nodeOf[k], Generated) in es;
    Success(r)
  }

  // ------------------------------------------------------------------
  // Whole files

  /** The graph a load builds over the surfel records `ss`, before any edge: one node per record. */
  function Nodes(ss: seq<SurfelRecord>): (g: SurfelFile)
    ensures Valid(g) && !g.directed && g.edges == [] && g.nextId == |ss| && NumNodes(g) == |ss|
    ensures forall n :: n in g.nodes <==> 0 <= n < |ss|
  {
    var e: SurfelFile := Empty(false);
    AddSurfelsNodes(e, ss);
    assert e.nodes == map[] && e.nextId == 0;
    AddSurfels(e, ss)
  }

  /** The node with handle `i` holds the i-th record. */
  lemma NodesHold(ss: seq<SurfelRecord>, i: nat)
    requires i < |ss|
    ensures Nodes(ss).nodes[i] == ss[i]
  {
    var e: SurfelFile := Empty(false);
    AddSurfelsNodes(e, ss);
    assert e.nodes == map[] && e.nextId == 0;
  }

  /** The edge section: the edge count, then the edges, read by the chosen reader. */
  function ReadEdgeSection(bs: seq<Byte>, g: SurfelFile, nodeOf: map<Id, NodeId>, asWritten: bool): (r: Result<SurfelFile, LoadError>)
    requires Valid(g) && !g.directed
    requires forall k :: k in nodeOf ==> nodeOf[k] in g.nodes
    ensures r.Success? ==> Valid(r.value) && !r.value.directed && r.value.nodes == g.nodes
  {
    var (count, bs1) :- Lift(ReadUnsignedInt(bs));
    if asWritten then ReadEdgesAsWritten(bs1, count, g, nodeOf) else ReadEdges(bs1, count, g, nodeOf)
  }

  /**
   * The edges of a load: from the edge section when the file has one,
   * otherwise generated from the neighbour lists, over the nodes in handle
   * order.
   */
  function LinkSurfels(ss: seq<SurfelRecord>, bs: seq<Byte>, readEdges: bool, asWritten: bool): (r: Result<SurfelFile, LoadError>)
    ensures r.Success? ==> Valid(r.value) && !r.value.directed && r.value.nodes == Nodes(ss).nodes
  {
    var g := Nodes(ss);
    var nodeOf := NodeTable(ss);
    KnownNodes(ss);
    if readEdges then ReadEdgeSection(bs, g, nodeOf, asWritten)
    else GenerateEdges(g, Handles(|ss|), nodeOf, NeighbourTable(ss))
  }

  /** The lookup table and the handle order name nodes of the graph. */
  lemma KnownNodes(ss: seq<SurfelRecord>)
    ensures forall k :: k in NodeTable(ss) ==> NodeTable(ss)[k] in Nodes(ss).nodes
    ensures forall n :: n in Handles(|ss|) ==> n in Nodes(ss).nodes
  {
  }

  /**
   * `load`: the header, the surfel count and records, then the edges. A
   * file too short for what it announces fails, and so does an edge or a
   * neighbour naming an id no surfel has. `asWritten` selects the edge
   * reader that leaves a duplicate edge's data unread.
   */
  function Load(bs: seq<Byte>, asWritten: bool): (r: Result<LoadedFile, LoadError>)
    ensures r.Success? ==> Valid(r.value.graph) && !r.value.graph.directed
  {
    var (flags, body) :- ReadHeader(bs);
    var (count, bs1) :- Lift(ReadUnsignedInt(body));
    var (ss, bs2) :- ReadSurfels(bs1, count, HasFlag(flags, FlagSmoothness));
    var graph :- LinkSurfels(ss, bs2, HasFlag(flags, FlagEdges), asWritten);
    Success(LoadedFile(flags, graph))
  }

  /** The edge section of a save: the edge count and every edge, when edges are saved. */
  function EdgeSection(es: seq<SavedEdge>, saveEdges: bool): (r: seq<Byte>)
    ensures !saveEdges ==> r == []
  {
    if saveEdges then WriteUnsignedInt(|es| % MaxCount) + PutAll(es, PutEdge, []) else []
  }

  /** Everything a save writes after the header: the surfel count, the surfels and the edge section. */
  function SaveBody(ss: seq<SurfelRecord>, es: seq<SavedEdge>, saveSmoothness: bool, saveEdges: bool): (r: seq<Byte>)
  {
    WriteUnsignedInt(|ss| % MaxCount) + PutSurfels(ss, saveSmoothness, EdgeSection(es, saveEdges))
  }

  /** `save`, corrected: the header always leads the file. */
  function Save(ss: seq<SurfelRecord>, es: seq<SavedEdge>, saveSmoothness: bool, saveEdges: bool): (r: seq<Byte>)
    ensures |r| >= 4 && r[..4] == Header(saveSmoothness, saveEdges)
  {
    Header(saveSmoothness, saveEdges) + SaveBody(ss, es, saveSmoothness, saveEdges)
  }

  /** `save` as written: no header at all when neither smoothness nor edges are saved. */
  function SaveAsWritten(ss: seq<SurfelRecord>, es: seq<SavedEdge>, saveSmoothness: bool, saveEdges: bool): (r: seq<Byte>)
    ensures saveSmoothness || saveEdges ==> r == Save(ss, es, saveSmoothness, saveEdges)
    ensures !saveSmoothness && !saveEdges ==> Header(false, false) + r == Save(ss, es, false, false)
  {
    HeaderAsWritten(saveSmoothness, saveEdges) + SaveBody(ss, es, saveSmoothness, saveEdges)
  }

  // ------------------------------------------------------------------
  // Saving and loading back

  /** What a save writes faithfully: every count fits its field, and every record is writable. */
  predicate Saveable(ss: seq<SurfelRecord>, es: seq<SavedEdge>, saveEdges: bool)
  {
    && |ss| < MaxCount && (forall i :: 0 <= i < |ss| ==> SurfelWritable(ss[i]))
    && (saveEdges ==> |es| < MaxCount && forall e :: e in es ==> EdgeWritable(e))
  }

  /** The surfel records as a load reads them back. */
  function LoadedSurfels(ss: seq<SurfelRecord>, smoothness: bool): (r: seq<SurfelRecord>)
    ensures |r| == |ss| && forall i :: 0 <= i < |ss| ==> r[i] == AsLoaded(ss[i], smoothness)
  {
    MapAll(ss, s => AsLoaded(s, smoothness))
  }

  /**
   * Loading a save reads back the flags and the surfels; what remains is
   * linking the loaded surfels from the edge section written.
   */
  lemma LoadStages(ss: seq<SurfelRecord>, es: seq<SavedEdge>, sm: bool, ed: bool, asWritten: bool)
    requires Saveable(ss, es, ed)
    ensures var link := LinkSurfels(LoadedSurfels(ss, sm), EdgeSection(es, ed), ed, asWritten);
            Load(Save(ss, es, sm, ed), asWritten) == if link.Success? then Success(LoadedFile(Flags(sm, ed), link.value)) else Failure(link.error)
  {
    var section := EdgeSection(es, ed);
    var body := SaveBody(ss, es, sm, ed);
    HeaderRoundTrip(sm, ed, body);
    assert |ss| % MaxCount == |ss|;
    UnsignedIntRoundTrip(|ss|, PutSurfels(ss, sm, section));
    SurfelsRoundTrip(ss, sm, section);
  }

  /** Two saved edges join the same pair of ids, in either orientation. */
  predicate SameEnds(a: SavedEdge, b: SavedEdge)
  {
    (a.from == b.from && a.to == b.to) || (a.from == b.to && a.to == b.from)
  }

  /** Loading keeps every id, so the loaded records have the ids saved. */
  lemma LoadedIds(ss: seq<SurfelRecord>, sm: bool, k: Id)
    requires k in IdsOf(ss)
    ensures k in NodeTable(LoadedSurfels(ss, sm))
  {
    var i :| 0 <= i < |ss| && IdsOf(ss)[i] == k;
    assert LoadedSurfels(ss, sm)[i].id == k;
  }

  /** The table sends distinct ids to distinct nodes, so edges between distinct pairs of ids resolve to distinct links. */
  lemma ResolvedDistinct(es: seq<SavedEdge>, ls: seq<SurfelRecord>)
    requires forall e :: e in es ==> e.from in NodeTable(ls) && e.to in NodeTable(ls)
    requires forall i, j :: 0 <= i < j < |es| ==> !SameEnds(es[i], es[j])
    ensures NoDuplicateLinks(false, ResolvedAll(es, NodeTable(ls)))
  {
    var nodeOf := NodeTable(ls);
    var rs := ResolvedAll(es, nodeOf);
    forall i, j | 0 <= i < j < |rs| ensures !SameLink(false, rs[i], rs[j]) {
      assert es[i] in es && es[j] in es;
      assert ls[nodeOf[es[i].from]].id == es[i].from && ls[nodeOf[es[i].to]].id == es[i].to;
      assert ls[nodeOf[es[j].from]].id == es[j].from && ls[nodeOf[es[j].to]].id == es[j].to;
    }
  }

  /** The edge section of a save, read back into a graph without edges, adds every saved edge in order. */
  lemma SectionRoundTrip(es: seq<SavedEdge>, g: SurfelFile, nodeOf: map<Id, NodeId>, asWritten: bool)
    requires Valid(g) && !g.directed && g.edges == []
    requires forall k :: k in nodeOf ==> nodeOf[k] in g.nodes
    requires |es| < MaxCount
    requires forall e :: e in es ==> EdgeKnown(e, nodeOf)
    requires NoDuplicateLinks(false, ResolvedAll(es, nodeOf))
    ensures ReadEdgeSection(EdgeSection(es, true), g, nodeOf, asWritten) == Success(g.(edges := ResolvedAll(es, nodeOf)))
  {
    assert |es| % MaxCount == |es|;
    UnsignedIntRoundTrip(|es|, PutAll(es, PutEdge, []));
    assert g.edges + ResolvedAll(es, nodeOf) == ResolvedAll(es, nodeOf);
    if asWritten {
      AsWrittenAgrees(es, g, nodeOf, []);
    } else {
      EdgesRoundTrip(es, g, nodeOf, []);
    }
  }

  /** The edge section of a save, read back over the loaded nodes, adds every saved edge in order. */
  lemma EdgeSectionRoundTrip(es: seq<SavedEdge>, ls: seq<SurfelRecord>, asWritten: bool)
    requires |es| < MaxCount
    requires forall e :: e in es ==> EdgeKnown(e, NodeTable(ls))
    requires NoDuplicateLinks(false, ResolvedAll(es, NodeTable(ls)))
    ensures LinkSurfels(ls, EdgeSection(es, true), true, asWritten) == Success(Nodes(ls).(edges := ResolvedAll(es, NodeTable(ls))))
  {
    KnownNodes(ls);
    SectionRoundTrip(es, Nodes(ls), NodeTable(ls), asWritten);
  }

  /** Edge `d` of `g` joins the nodes with the ids of saved edge `e`, and holds its data as loaded. */
  ghost predicate LoadedAs(g: SurfelFile, d: Edge<EdgeInfo>, e: SavedEdge)
  {
    d.from in g.nodes && d.to in g.nodes && g.nodes[d.from].id == e.from && g.nodes[d.to].id == e.to && d.data == Loaded(e)
  }

  /**
   * A save with edges loads back with the flags saved and one edge per
   * saved edge, in order, between the surfels with the saved ids, when
   * every end names a saved surfel and no two edges join the same pair.
   * Either edge reader does so.
   */
  lemma SaveLoadEdges(ss: seq<SurfelRecord>, es: seq<SavedEdge>, sm: bool, asWritten: bool)
    requires Saveable(ss, es, true)
    requires forall e :: e in es ==> e.from in IdsOf(ss) && e.to in IdsOf(ss)
    requires forall i, j :: 0 <= i < j < |es| ==> !SameEnds(es[i], es[j])
    ensures var r := Load(Save(ss, es, sm, true), asWritten);
            && r.Success? && r.value.flags == Flags(sm, true)
            && NumEdges(r.value.graph) == |es|
            && forall i :: 0 <= i < |es| ==> LoadedAs(r.value.graph, r.value.graph.edges[i], es[i])
  {
    var ls := LoadedSurfels(ss, sm);
    var nodeOf := NodeTable(ls);
    forall e | e in es ensures EdgeKnown(e, nodeOf) {
      LoadedIds(ss, sm, e.from);
      LoadedIds(ss, sm, e.to);
    }
    ResolvedDistinct(es, ls);
    LoadStages(ss, es, sm, true, asWritten);
    EdgeSectionRoundTrip(es, ls, asWritten);
    var g := Nodes(ls).(edges := ResolvedAll(es, nodeOf));
    forall i | 0 <= i < |es| ensures LoadedAs(g, g.edges[i], es[i]) {
      assert es[i] in es;
      var a, b := nodeOf[es[i].from], nodeOf[es[i].to];
      NodesHold(ls, a);
      NodesHold(ls, b);
    }
  }

  /** Every neighbour id of a saved surfel is the id of a saved surfel. */
  predicate NeighboursSaved(ss: seq<SurfelRecord>)
  {
    forall i :: 0 <= i < |ss| ==> forall k :: k in ss[i].neighbours ==> k in IdsOf(ss)
  }

  /** With every neighbour saved, each loaded node's neighbour list resolves. */
  lemma NeighboursResolvable(ss: seq<SurfelRecord>, sm: bool)
    requires NeighboursSaved(ss)
    ensures forall n :: n in Handles(|ss|) ==> n in Nodes(LoadedSurfels(ss, sm)).nodes
    ensures var ls := LoadedSurfels(ss, sm);
            Resolvable(Nodes(ls), Handles(|ss|), NodeTable(ls), NeighbourTable(ls))
  {
    var ls := LoadedSurfels(ss, sm);
    var g, nodeOf, nb := Nodes(ls), NodeTable(ls), NeighbourTable(ls);
    forall n | n in Handles(|ss|)
      ensures n in g.nodes && g.nodes[n].id in nb && forall k :: k in nb[g.nodes[n].id] ==> k in nodeOf
    {
      NodesHold(ls, n);
      var i := Find(IdsOf(ls), ls[n].id);
      assert nb[ls[n].id] == ss[i].neighbours;
      forall k | k in ss[i].neighbours ensures k in nodeOf {
        LoadedIds(ss, sm, k);
      }
    }
  }

  /** Generating edges into a graph without edges gives edges of weight 1 only. */
  lemma GeneratedData(g: SurfelFile, order: seq<NodeId>, nodeOf: map<Id, NodeId>, neighboursOf: map<Id, seq<Id>>)
    requires Valid(g) && !g.directed && g.edges == []
    requires forall n :: n in order ==> n in g.nodes
    requires forall k :: k in nodeOf ==> nodeOf[k] in g.nodes
    requires Resolvable(g, order, nodeOf, neighboursOf)
    ensures var r := GenerateEdges(g, order, nodeOf, neighboursOf);
            r.Success? && forall d :: d in r.value.edges ==> d.data == Generated
  {
    var r := GenerateEdges(g, order, nodeOf, neighboursOf);
    assert forall j :: 0 <= j < |r.value.edges| ==> r.value.edges[j].data == Generated;
  }

  /**
   * Generating edges over loaded surfels whose neighbours were all saved
   * succeeds, and with distinct ids links every surfel to each of its
   * neighbours.
   */
  lemma GeneratedLinks(ss: seq<SurfelRecord>, sm: bool, asWritten: bool)
    requires NeighboursSaved(ss)
    ensures var r := LinkSurfels(LoadedSurfels(ss, sm), [], false, asWritten);
            && r.Success?
            && (forall d :: d in r.value.edges ==> d.data == Generated)
            && (DistinctIds(ss) ==>
                 forall i, j :: 0 <= i < |ss| && 0 <= j < |ss| && ss[j].id in ss[i].neighbours ==> HasEdge(r.value, i, j))
  {
    var ls := LoadedSurfels(ss, sm);
    var g, nodeOf, nb, order := Nodes(ls), NodeTable(ls), NeighbourTable(ls), Handles(|ls|);
    NeighboursResolvable(ss, sm);
    KnownNodes(ls);
    assert LinkSurfels(ls, [], false, asWritten) == GenerateEdges(g, order, nodeOf, nb);
    GeneratedData(g, order, nodeOf, nb);
    if DistinctIds(ss) {
      assert forall i :: 0 <= i < |ss| ==> ls[i].id == ss[i].id && ls[i].neighbours == ss[i].neighbours;
      var r := GenerateEdges(g, order, nodeOf, nb).value;
      forall i, j | 0 <= i < |ss| && 0 <= j < |ss| && ss[j].id in ss[i].neighbours ensures HasEdge(r, i, j) {
        NodesHold(ls, i);
        NodeTableDistinct(ls, i);
        NodeTableDistinct(ls, j);
        assert i in order;
      }
    }
  }

  /**
   * A save without edges loads back with the flags saved and edges of
   * weight 1 generated from the neighbour lists, when every neighbour is a
   * saved surfel; with distinct ids, every surfel is linked to each of its
   * neighbours.
   */
  lemma SaveLoadNeighbours(ss: seq<SurfelRecord>, es: seq<SavedEdge>, sm: bool, asWritten: bool)
    requires Saveable(ss, es, false) && NeighboursSaved(ss)
    ensures var r := Load(Save(ss, es, sm, false), asWritten);
            && r.Success? && r.value.flags == Flags(sm, false)
            && (forall d :: d in r.value.graph.edges ==> d.data == Generated)
            && (DistinctIds(ss) ==>
                 forall i, j :: 0 <= i < |ss| && 0 <= j < |ss| && ss[j].id in ss[i].neighbours ==> HasEdge(r.value.graph, i, j))
  {
    LoadStages(ss, es, sm, false, asWritten);
    GeneratedLinks(ss, sm, asWritten);
  }

  /** The node with each handle holds the record of that index. */
  lemma NodesContent(ls: seq<SurfelRecord>)
    ensures forall i :: 0 <= i < |ls| ==> i in Nodes(ls).nodes && Nodes(ls).nodes[i] == ls[i]
  {
    forall i | 0 <= i < |ls| ensures Nodes(ls).nodes[i] == ls[i] {
      NodesHold(ls, i);
    }
  }

  /** A successful load of a save has the flags saved and the nodes built over the surfels as loaded. */
  lemma LoadedNodes(ss: seq<SurfelRecord>, es: seq<SavedEdge>, sm: bool, ed: bool, asWritten: bool)
    requires Saveable(ss, es, ed)
    ensures var r := Load(Save(ss, es, sm, ed), asWritten);
            r.Success? ==> r.value.flags == Flags(sm, ed) && r.value.graph.nodes == Nodes(LoadedSurfels(ss, sm)).nodes
  {
    LoadStages(ss, es, sm, ed, asWritten);
  }

  /**
   * Whatever the flags, a successful load of a save has the flags saved
   * and one node per saved surfel, in order, holding it as loaded.
   */
  lemma SaveLoadNodes(ss: seq<SurfelRecord>, es: seq<SavedEdge>, sm: bool, ed: bool, asWritten: bool)
    requires Saveable(ss, es, ed)
    ensures var r := Load(Save(ss, es, sm, ed), asWritten);
            r.Success? ==>
              && r.value.flags == Flags(sm, ed) && NumNodes(r.value.graph) == |ss|
              && forall i :: 0 <= i < |ss| ==> i in r.value.graph.nodes && r.value.graph.nodes[i] == AsLoaded(ss[i], sm)
  {
    LoadedNodes(ss, es, sm, ed, asWritten);
    NodesContent(LoadedSurfels(ss, sm));
  }

  /** The low 16 bits of `v` have the low two bytes of `v`. */
  lemma LowBytes(v: nat)
    ensures (v % 0x1_0000) % 256 == v % 256 && ((v % 0x1_0000) / 256) % 256 == (v / 256) % 256
  {
    var q, low := v / 0x1_0000, v % 0x1_0000;
    assert v == 0x1_0000 * q + low;
    assert v / 256 == 256 * q + low / 256;
  }

  /** The first two bytes of an `unsigned int` are the `unsigned short` of its low 16 bits. */
  lemma LowShort(v: U32, rest: seq<Byte>)
    ensures ReadUnsignedShort(WriteUnsignedInt(v) + rest).Success?
    ensures ReadUnsignedShort(WriteUnsignedInt(v) + rest).value.0 == v % 0x1_0000
  {
    Widths();
    var low := v % 0x1_0000;
    LowBytes(v);
    assert Pow256(3) == 0x100_0000 && Pow256(1) == 256;
    var tail := LittleEndian(v / 256, 3);
    assert WriteUnsignedInt(v) == [v % 256] + tail;
    assert tail == [(v / 256) % 256] + LittleEndian(v / 256 / 256, 2);
    assert WriteUnsignedShort(low) == [low % 256] + LittleEndian(low / 256, 1);
    assert LittleEndian(low / 256, 1) == [(low / 256) % 256] + LittleEndian(low / 256 / 256, 0);
    assert WriteUnsignedInt(v)[..2] == WriteUnsignedShort(low);
    assert WriteUnsignedInt(v) + rest == WriteUnsignedShort(low) + (WriteUnsignedInt(v)[2..] + rest);
    UnsignedShortRoundTrip(low, WriteUnsignedInt(v)[2..] + rest);
  }

  /**
   * Without flags, the as-written save has no header, and it loads like the
   * corrected save unless the low 16 bits of the surfel count equal the
   * marker.
   */
  lemma AsWrittenUnflaggedLoads(ss: seq<SurfelRecord>, es: seq<SavedEdge>, asWritten: bool)
    requires Saveable(ss, es, false)
    requires |ss| % 0x1_0000 != FlagsMarker as nat
    ensures Load(SaveAsWritten(ss, es, false, false), asWritten) == Load(Save(ss, es, false, false), asWritten)
  {
    HeaderlessHeader(ss, es);
    SameHeaderSameLoad(SaveAsWritten(ss, es, false, false), Save(ss, es, false, false), asWritten);
  }

  /** A load depends on the bytes only through what the header read leaves. */
  lemma SameHeaderSameLoad(bs1: seq<Byte>, bs2: seq<Byte>, asWritten: bool)
    requires ReadHeader(bs1) == ReadHeader(bs2)
    ensures Load(bs1, asWritten) == Load(bs2, asWritten)
  {
  }

  /** Both saves without flags read as flags 0 followed by the same body. */
  lemma HeaderlessHeader(ss: seq<SurfelRecord>, es: seq<SavedEdge>)
    requires |ss| < MaxCount
    requires |ss| % 0x1_0000 != FlagsMarker as nat
    ensures var body := SaveBody(ss, es, false, false);
            && ReadHeader(SaveAsWritten(ss, es, false, false)) == Success((0, body))
            && ReadHeader(Save(ss, es, false, false)) == Success((0, body))
  {
    var body := SaveBody(ss, es, false, false);
    assert SaveAsWritten(ss, es, false, false) == body;
    assert |ss| % MaxCount == |ss|;
    LowShort(|ss|, PutSurfels(ss, false, EdgeSection(es, false)));
    HeaderRoundTrip(false, false, body);
  }
}
