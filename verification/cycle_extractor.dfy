/**
 * The helpers of the cycle extractor: recognising a cycle that is already
 * known up to rotation and reversal, choosing the nodes a candidate path
 * may grow by, deciding whether a path can be closed into a cycle,
 * recording the edges a found cycle uses, and the canonical form of a
 * cycle. Paths here are sequences of node handles; traversed edges are
 * ordered pairs of handles.
 */
module CycleExtractor {
  import opened Wrappers
  import opened Sequences
  import opened Graph

  type NodePair = (NodeId, NodeId)

  /** The rotations tried by `cycle_exists`: all left rotations of the cycle and of its reversal. */
  ghost predicate KnownUpToRotation(cycle: seq<NodeId>, cycles: set<seq<NodeId>>)
  {
    exists k :: 0 <= k < |cycle| && (Rotate(cycle, k) in cycles || Rotate(Reverse(cycle), k) in cycles)
  }

  /**
   * `cycle_exists`: rotates a copy of the cycle one place at a time,
   * looking each rotation up, then does the same for the reversal.
   */
  method CycleExists(cycle: seq<NodeId>, cycles: set<seq<NodeId>>) returns (r: bool)
    ensures r <==> KnownUpToRotation(cycle, cycles)
  {
    var n := |cycle|;
    var perm := cycle;
    var i := 0;
    while i < n
      invariant 0 <= i <= n
      invariant perm == Rotate(cycle, i)
      invariant forall j :: 1 <= j <= i ==> Rotate(cycle, j) !in cycles
    {
      RotateStep(cycle, i);
      perm := Rotate(perm, 1);
      i := i + 1;
      if perm in cycles {
        RotationKnown(cycle, cycles, i, false);
        return true;
      }
    }
    var rev := Reverse(cycle);
    perm := rev;
    i := 0;
    while i < n
      invariant 0 <= i <= n
      invariant perm == Rotate(rev, i)
      invariant forall j :: 1 <= j <= i ==> Rotate(rev, j) !in cycles
    {
      RotateStep(rev, i);
      perm := Rotate(perm, 1);
      i := i + 1;
      if perm in cycles {
        RotationKnown(cycle, cycles, i, true);
        return true;
      }
    }
    NoRotationKnown(cycle, cycles);
    return false;
  }

  lemma RotationKnown(cycle: seq<NodeId>, cycles: set<seq<NodeId>>, i: nat, reversed: bool)
    requires 1 <= i <= |cycle|
    requires Rotate(if reversed then Reverse(cycle) else cycle, i) in cycles
    ensures KnownUpToRotation(cycle, cycles)
  {
    if i < |cycle| {
      KnownAt(cycle, cycles, i, reversed);
    } else if reversed {
      var rev := Reverse(cycle);
      RotateWhole(rev);
      assert Rotate(rev, 0) in cycles;
      KnownAt(cycle, cycles, 0, true);
    } else {
      RotateWhole(cycle);
      assert Rotate(cycle, 0) in cycles;
      KnownAt(cycle, cycles, 0, false);
    }
  }

  lemma KnownAt(cycle: seq<NodeId>, cycles: set<seq<NodeId>>, k: nat, reversed: bool)
    requires k < |cycle|
    requires Rotate(if reversed then Reverse(cycle) else cycle, k) in cycles
    ensures KnownUpToRotation(cycle, cycles)
  {
    if reversed {
      assert Rotate(Reverse(cycle), k) in cycles;
    } else {
      assert Rotate(cycle, k) in cycles;
    }
  }

  lemma NoRotationKnown(cycle: seq<NodeId>, cycles: set<seq<NodeId>>)
    requires forall j :: 1 <= j <= |cycle| ==> Rotate(cycle, j) !in cycles
    requires forall j :: 1 <= j <= |cycle| ==> Rotate(Reverse(cycle), j) !in cycles
    ensures !KnownUpToRotation(cycle, cycles)
  {
    var n := |cycle|;
    var rev := Reverse(cycle);
    forall k | 0 <= k < n ensures Rotate(cycle, k) !in cycles && Rotate(rev, k) !in cycles {
      if k == 0 {
        RotateWhole(cycle);
        RotateWhole(rev);
        assert Rotate(cycle, 0) == Rotate(cycle, n) && Rotate(rev, 0) == Rotate(rev, n);
      }
    }
  }

  /**
   * A neighbour may extend the path when the edge to it has not been
   * traversed and it is not already on the path, except as the front of a
   * path longer than two nodes.
   */
  ghost predicate Eligible(path: seq<NodeId>, traversed: set<NodePair>, x: NodeId)
    requires |path| > 0
  {
    (path[|path| - 1], x) !in traversed && (x !in path || (x == path[0] && |path| != 2))
  }

  function FilterEligible(nbrs: seq<NodeId>, path: seq<NodeId>, traversed: set<NodePair>): (r: seq<NodeId>)
    requires |path| > 0
    ensures forall x :: x in r <==> x in nbrs && Eligible(path, traversed, x)
    ensures |r| <= |nbrs|
  {
    if |nbrs| == 0 then []
    else
      var x := nbrs[0];
      var rest := FilterEligible(nbrs[1..], path, traversed);
      assert forall y :: y in nbrs <==> y == x || y in nbrs[1..];
      var at := Find(path, x);
      if (path[|path| - 1], x) in traversed then rest
      else if at < |path| && (at != 0 || |path| == 2) then rest
      else [x] + rest
  }

  /** `get_eligible_next_nodes`: the eligible neighbours of the path's last node, in neighbour order. */
  function EligibleNextNodes<N, E>(g: Graph<N, E>, path: seq<NodeId>, traversed: set<NodePair>)
    : (r: Result<seq<NodeId>, GraphError>)
    requires |path| > 0
    ensures r.Failure? <==> path[|path| - 1] !in g.nodes
    ensures r.Success? ==> forall x :: x in r.value <==>
                             HasEdge(g, path[|path| - 1], x) && Eligible(path, traversed, x)
  {
    var nbrs :- Neighbours(g, path[|path| - 1]);
    Success(FilterEligible(nbrs, path, traversed))
  }

  /**
   * `can_close_cycle`: the path has at least two nodes, an edge links the
   * node and the front (either way round), and the edge from the node to
   * the front has not been traversed. Since both orientations are tried,
   * the graph's direction does not matter: some stored edge must join the
   * two nodes, in either orientation.
   */
  predicate CanCloseCycle<N, E>(g: Graph<N, E>, path: seq<NodeId>, node: NodeId, traversed: set<NodePair>): (r: bool)
    ensures r <==> |path| >= 2 && (node, path[0]) !in traversed &&
                   exists i :: 0 <= i < |g.edges| && ((g.edges[i].from == node && g.edges[i].to == path[0]) ||
                                                       (g.edges[i].from == path[0] && g.edges[i].to == node))
  {
    if |path| < 2 then false
    else if !HasEdge(g, node, path[0]) && !HasEdge(g, path[0], node) then false
    else if (node, path[0]) in traversed then false
    else true
  }

  /** The pairs a path uses: each consecutive pair, plus the closing (back, front) pair. */
  ghost predicate UsedBy(path: seq<NodeId>, e: NodePair)
    requires |path| > 0
  {
    e == (path[|path| - 1], path[0]) || exists i :: 0 <= i < |path| - 1 && e == (path[i], path[i + 1])
  }

  function ConsecutivePairs(path: seq<NodeId>): (r: set<NodePair>)
    ensures forall e :: e in r <==> exists i :: 0 <= i < |path| - 1 && e == (path[i], path[i + 1])
  {
    if |path| < 2 then {}
    else
      var rest := ConsecutivePairs(path[1..]);
      assert forall i :: 1 <= i < |path| - 1 ==> (path[i], path[i + 1]) == (path[1..][i - 1], path[1..][i]);
      {(path[0], path[1])} + rest
  }

  /** `mark_edges_used`: the traversed set grows by exactly the pairs the path uses. */
  function MarkEdgesUsed(path: seq<NodeId>, traversed: set<NodePair>): (r: set<NodePair>)
    requires |path| > 0
    ensures forall e :: e in r <==> e in traversed || UsedBy(path, e)
  {
    traversed + {(path[|path| - 1], path[0])} + ConsecutivePairs(path)
  }

  /** `edges_are_used`: some pair the path uses is already traversed. */
  function EdgesAreUsed(path: seq<NodeId>, traversed: set<NodePair>): (r: bool)
    requires |path| > 0
    ensures r <==> exists e :: e in traversed && UsedBy(path, e)
  {
    var closing := (path[|path| - 1], path[0]);
    closing in traversed || AnyConsecutiveIn(path, traversed)
  }

  function AnyConsecutiveIn(path: seq<NodeId>, traversed: set<NodePair>): (r: bool)
    ensures r <==> exists i :: 0 <= i < |path| - 1 && (path[i], path[i + 1]) in traversed
  {
    if |path| < 2 then false
    else if (path[0], path[1]) in traversed then true
    else
      var r := AnyConsecutiveIn(path[1..], traversed);
      assert forall i :: 1 <= i < |path| - 1 ==> (path[i], path[i + 1]) == (path[1..][i - 1], path[1..][i]);
      assert r ==> exists i :: 0 <= i < |path| - 1 && (path[i], path[i + 1]) in traversed by {
        if r {
          var i :| 0 <= i < |path[1..]| - 1 && (path[1..][i], path[1..][i + 1]) in traversed;
          assert (path[i + 1], path[i + 2]) in traversed;
        }
      }
      r
  }

  /** Once a cycle's edges are marked, the cycle counts as using traversed edges. */
  lemma MarkedPathIsUsed(path: seq<NodeId>, traversed: set<NodePair>)
    requires |path| > 0
    ensures EdgesAreUsed(path, MarkEdgesUsed(path, traversed))
  {
    assert UsedBy(path, (path[|path| - 1], path[0]));
  }

  /**
   * After a cycle closed by `node` is recorded, the same path cannot be
   * closed by `node` again: its closing edge is now traversed.
   */
  lemma ClosedCycleCannotCloseAgain<N, E>(g: Graph<N, E>, path: seq<NodeId>, node: NodeId, traversed: set<NodePair>)
    requires |path| >= 2
    ensures !CanCloseCycle(g, path, node, MarkEdgesUsed(path + [node], traversed))
  {
    var cycle := path + [node];
    assert (cycle[|cycle| - 1], cycle[0]) == (node, path[0]);
    assert UsedBy(cycle, (node, path[0]));
  }

  /** The index reached after `i` wrapping steps of `inc` from `first`. */
  function WalkIndex(first: nat, inc: int, i: nat, n: nat): int
  {
    if inc == 1 then (if first + i < n then first + i else first + i - n)
    else (if first >= i then first - i else first - i + n)
  }

  /** The sequence the canonical walk spells out: a rotation of the path or of its reversal. */
  ghost function Walk<T>(path: seq<T>, first: nat, inc: int): seq<T>
    requires first < |path|
  {
    if inc == 1 then Rotate(path, first) else Rotate(Reverse(path), |path| - 1 - first)
  }

  /** A sequence that follows the walk element by element is the walk. */
  lemma WalkFollowed<T>(path: seq<T>, first: nat, inc: int, r: seq<T>)
    requires first < |path| && |r| == |path|
    requires forall t :: 0 <= t < |r| ==>
               0 <= WalkIndex(first, inc, t, |path|) < |path| && r[t] == path[WalkIndex(first, inc, t, |path|)]
    ensures r == Walk(path, first, inc)
  {
    var n := |path|;
    var w := Walk(path, first, inc);
    forall t | 0 <= t < n ensures r[t] == w[t] {
      if inc != 1 {
        var rev := Reverse(path);
        var k := n - 1 - first;
        if t < n - k {
          assert Rotate(rev, k)[t] == rev[k + t];
        } else {
          assert Rotate(rev, k)[t] == rev[k + t - n];
        }
      }
    }
  }

  /** The first loop of `canonicalise_path`: the first index of least data. */
  method FirstLeast<T>(path: seq<T>, data: T -> int) returns (first: nat)
    requires |path| > 0
    ensures first < |path|
    ensures forall j :: 0 <= j < |path| ==> data(path[first]) <= data(path[j])
    ensures forall j :: 0 <= j < first ==> data(path[first]) < data(path[j])
  {
    first := 0;
    var idx := 1;
    while idx < |path|
      invariant 1 <= idx <= |path|
      invariant 0 <= first < idx
      invariant forall j :: 0 <= j < idx ==> data(path[first]) <= data(path[j])
      invariant forall j :: 0 <= j < first ==> data(path[first]) < data(path[j])
    {
      if data(path[idx]) < data(path[first]) {
        first := idx;
      }
      idx := idx + 1;
    }
  }

  /** The second loop of `canonicalise_path`: step from `first` by `inc`, wrapping at both ends. */
  method WalkAround<T>(path: seq<T>, first: nat, inc: int) returns (r: seq<T>)
    requires first < |path| && (inc == 1 || inc == -1)
    ensures |r| == |path|
    ensures forall t :: 0 <= t < |r| ==>
              0 <= WalkIndex(first, inc, t, |path|) < |path| && r[t] == path[WalkIndex(first, inc, t, |path|)]
  {
    var n := |path|;
    r := [path[first]];
    var i := 1;
    var j := first;
    while i < n
      invariant 1 <= i <= n
      invariant j == WalkIndex(first, inc, i - 1, n)
      invariant |r| == i
      invariant forall t :: 0 <= t < i ==> 0 <= WalkIndex(first, inc, t, n) < n && r[t] == path[WalkIndex(first, inc, t, n)]
    {
      j := j + inc;
      if j < 0 {
        j := n - 1;
      } else if j == n {
        j := 0;
      }
      r := r + [path[j]];
      i := i + 1;
    }
  }

  /**
   * `canonicalise_path`: start at the first node of least data, then walk
   * towards whichever of its two cyclic neighbours has the smaller data
   * (backwards on a tie), wrapping around the ends.
   */
  method CanonicalisePath<T>(path: seq<T>, data: T -> int) returns (r: seq<T>)
    requires |path| > 0
    ensures |r| == |path|
    ensures forall i :: 0 <= i < |path| ==> data(r[0]) <= data(path[i])
    ensures |path| >= 2 ==> data(r[1]) <= data(r[|r| - 1])
    ensures exists k :: 0 <= k < |path| && (r == Rotate(path, k) || r == Rotate(Reverse(path), k))
  {
    var n := |path|;
    var first := FirstLeast(path, data);
    var prev := path[if first > 0 then first - 1 else n - 1];
    var next := path[if first < n - 1 then first + 1 else 0];
    var inc := if data(next) < data(prev) then 1 else -1;
    r := WalkAround(path, first, inc);
    assert r[0] == path[first];
    if n >= 2 {
      assert r[1] == path[WalkIndex(first, inc, 1, n)];
      assert r[n - 1] == path[WalkIndex(first, inc, n - 1, n)];
    }
    assert exists k :: 0 <= k < n && (r == Rotate(path, k) || r == Rotate(Reverse(path), k)) by {
      WalkFollowed(path, first, inc, r);
      assert r == Rotate(path, first) || r == Rotate(Reverse(path), n - 1 - first);
    }
  }
}
