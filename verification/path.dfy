/**
 * Paths through a graph as sequences of node indices: extension, cycle
 * test, membership, equivalence of cycles up to rotation (and, for
 * undirected paths, reversal) and the canonical rotation.
 */
module Path {
  import opened Sequences

  /**
   * A path of node indices. `directed` is the flag that decides whether a
   * reversed traversal counts as equivalent; the original leaves it
   * uninitialised when a path is built from a vector of indices, so here it
   * is an explicit part of the value.
   */
  datatype Path = Path(nodes: seq<nat>, directed: bool)

  function Length(p: Path): nat
  {
    |p.nodes|
  }

  /** The path extended by one node, as the two-argument constructor does. */
  function Extend(p: Path, n: nat): (r: Path)
    ensures Length(r) == Length(p) + 1
    ensures r.nodes[..Length(p)] == p.nodes
    ensures r.nodes[Length(p)] == n
    ensures r.directed == p.directed
    ensures Length(p) > 0 ==> (IsCycle(r) <==> n == p.nodes[0])
  {
    Path(p.nodes + [n], p.directed)
  }

  /** `is_cycle`: the path ends where it starts; a one-node path does. */
  predicate IsCycle(p: Path): (r: bool)
    requires Length(p) > 0
    ensures Length(p) == 1 ==> r
    ensures r ==> p.nodes[0] in p.nodes[1..] || Length(p) == 1
  {
    p.nodes[0] == p.nodes[|p.nodes| - 1]
  }

  function Contains(p: Path, x: nat): (r: bool)
    ensures r <==> x in p.nodes
  {
    Find(p.nodes, x) < |p.nodes|
  }

  /** The index `t` brought back into `[0, n)` for offsets within one lap either side. */
  function Wrapped(t: int, n: int): int
  {
    if t < 0 then t + n else if t < n then t else t - n
  }

  /** `(t + n) % n`, as the equivalence walk computes it, is the wrapped index. */
  lemma Wrap(t: int, n: int)
    requires n > 0 && -n <= t < 2 * n
    ensures (t + n) % n == Wrapped(t, n)
  {
    var q := if t < 0 then 0 else if t < n then 1 else 2;
    assert t + n == q * n + Wrapped(t, n);
  }

  /** The successor and predecessor indices the direction test looks at. */
  lemma NextPrev(k: int, n: int)
    requires 0 <= k < n
    ensures (k + 1) % n == Wrapped(k + 1, n)
    ensures (k + n - 1) % n == Wrapped(k - 1, n)
  {
    Wrap(k + 1 - n, n);
    Wrap(k - 1, n);
  }

  /** The offset reached after `i` steps of `inc` (either 1 or -1) from `k`. */
  function Step(k: int, inc: int, i: int): int
  {
    if inc >= 0 then k + i else k - i
  }

  /**
   * Walking `q` from index `k` in steps of `inc` (wrapping around) meets
   * the elements of `p` in order.
   */
  ghost predicate MatchesFrom(p: seq<nat>, q: seq<nat>, k: int, inc: int)
    requires |p| == |q| > 0
    requires 0 <= k < |q|
  {
    forall i :: 0 <= i < |p| ==> 0 <= Wrapped(Step(k, inc, i), |q|) < |q| && p[i] == q[Wrapped(Step(k, inc, i), |q|)]
  }

  lemma MatchAt(p: seq<nat>, q: seq<nat>, k: int, inc: int, i: int)
    requires |p| == |q| > 0 && 0 <= k < |q|
    requires MatchesFrom(p, q, k, inc) && 0 <= i < |p|
    ensures 0 <= Wrapped(Step(k, inc, i), |q|) < |q| && p[i] == q[Wrapped(Step(k, inc, i), |q|)]
  {
  }

  /** `q` is a rotation of `p`, or for an undirected path possibly of its reversal. */
  ghost predicate RotationOf(p: seq<nat>, q: seq<nat>, directed: bool)
    requires |p| == |q| > 0
  {
    exists k :: 0 <= k < |q| && (MatchesFrom(p, q, k, 1) || (!directed && MatchesFrom(p, q, k, -1)))
  }

  /**
   * `is_equivalent_to`: lengths must agree, the other path must contain my
   * first node, and walking it from there (forwards, or backwards when
   * undirected) must reproduce my nodes. The direction is chosen by my
   * second node alone.
   */
  method IsEquivalentTo(p: Path, q: Path) returns (r: bool)
    requires Length(p) == Length(q) ==> Length(p) > 0
    ensures Length(p) != Length(q) ==> !r
    ensures Length(p) == Length(q) && p.nodes[0] !in q.nodes ==> !r
    ensures r ==> Length(p) == Length(q) && RotationOf(p.nodes, q.nodes, p.directed)
    ensures Length(p) == Length(q) && Distinct(p.nodes) && RotationOf(p.nodes, q.nodes, p.directed) ==> r
  {
    if |p.nodes| != |q.nodes| {
      return false;
    }
    var n := |p.nodes|;
    var myFirst := p.nodes[0];
    var k := 0;
    while k < n && q.nodes[k] != myFirst
      invariant 0 <= k <= n
      invariant forall j :: 0 <= j < k ==> q.nodes[j] != myFirst
    {
      k := k + 1;
    }
    if k == n {
      return false;
    }
    if n == 1 {
      assert MatchesFrom(p.nodes, q.nodes, k, 1);
      return true;
    }
    ghost var complete := Distinct(p.nodes) && RotationOf(p.nodes, q.nodes, p.directed);
    if complete {
      CompleteStart(p.nodes, q.nodes, p.directed, k);
    }
    var inc: int;
    NextPrev(k, n);
    if p.nodes[1] == q.nodes[(k + 1) % n] {
      inc := 1;
    } else if !p.directed && p.nodes[1] == q.nodes[(k + n - 1) % n] {
      inc := -1;
    } else {
      return false;
    }
    assert complete ==> MatchesFrom(p.nodes, q.nodes, k, inc);
    r := WalkMatches(p.nodes, q.nodes, k, inc);
    if r {
      assert 0 <= k < |q.nodes| && (MatchesFrom(p.nodes, q.nodes, k, 1) || (!p.directed && MatchesFrom(p.nodes, q.nodes, k, -1)));
    }
  }

  /**
   * The comparison loop of `is_equivalent_to`: walk `q` from index `k` in
   * steps of `inc`, wrapping with `(t + n) % n`, and compare with `p`
   * element by element; the first difference stops it.
   */
  method WalkMatches(p: seq<nat>, q: seq<nat>, k: nat, inc: int) returns (r: bool)
    requires |p| == |q| > 0 && k < |q| && (inc == 1 || inc == -1)
    ensures r <==> MatchesFrom(p, q, k, inc)
  {
    var n := |p|;
    var i := 0;
    var t := k;
    while i < n
      invariant 0 <= i <= n
      invariant t == Step(k, inc, i)
      invariant forall j :: 0 <= j < i ==> 0 <= Wrapped(Step(k, inc, j), n) < n && p[j] == q[Wrapped(Step(k, inc, j), n)]
    {
      Wrap(t, n);
      if p[i] != q[(t + n) % n] {
        assert !MatchesFrom(p, q, k, inc) by {
          if MatchesFrom(p, q, k, inc) {
            MatchAt(p, q, k, inc, i);
          }
        }
        return false;
      }
      i := i + 1;
      t := t + inc;
    }
    return true;
  }

  /**
   * For a path of distinct nodes that matches `q` from some offset, the
   * first occurrence of its first node in `q` is that offset, and the
   * direction test on the second node picks a matching direction.
   */
  lemma CompleteStart(p: seq<nat>, q: seq<nat>, directed: bool, k: nat)
    requires |p| == |q| >= 2 && k < |q|
    requires q[k] == p[0] && forall j :: 0 <= j < k ==> q[j] != p[0]
    requires Distinct(p) && RotationOf(p, q, directed)
    ensures p[1] == q[Wrapped(k + 1, |q|)] ==> MatchesFrom(p, q, k, 1)
    ensures p[1] != q[Wrapped(k + 1, |q|)] ==> !directed && p[1] == q[Wrapped(k - 1, |q|)] && MatchesFrom(p, q, k, -1)
  {
    var n := |q|;
    var k0, inc0 :| 0 <= k0 < n && (inc0 == 1 || (inc0 == -1 && !directed)) && MatchesFrom(p, q, k0, inc0);
    assert q[k0] == p[0];
    // every index of q is reached by the walk, so p[0] occurs in q only at k0
    assert k == k0 by {
      if k < k0 {
        var i := if inc0 == 1 then k - k0 + n else k0 - k;
        assert 0 <= i < n;
        assert Wrapped(Step(k0, inc0, i), n) == k;
        MatchAt(p, q, k0, inc0, i);
      }
    }
    if inc0 == -1 {
      assert q[Wrapped(k + 1, n)] == p[n - 1] by {
        MatchAt(p, q, k, -1, n - 1);
        assert Wrapped(Step(k, -1, n - 1), n) == Wrapped(k + 1, n);
      }
      assert p[1] == q[Wrapped(k - 1, n)] by {
        MatchAt(p, q, k, -1, 1);
        assert Wrapped(Step(k, -1, 1), n) == Wrapped(k - 1, n);
      }
      if n == 2 {
        forall i | 0 <= i < n ensures 0 <= Wrapped(Step(k, 1, i), n) < n && p[i] == q[Wrapped(Step(k, 1, i), n)] {
          assert Wrapped(Step(k, 1, i), n) == Wrapped(Step(k, -1, i), n);
        }
      } else {
        assert p[1] != p[n - 1];
      }
    } else {
      assert p[1] == q[Wrapped(k + 1, n)] by {
        MatchAt(p, q, k, 1, 1);
        assert Wrapped(Step(k, 1, 1), n) == Wrapped(k + 1, n);
      }
    }
  }

  /**
   * `canonicalise`: the rotation that starts at the first occurrence of
   * the smallest index.
   */
  function Canonicalise(p: Path): (r: Path)
    requires Length(p) > 0
    ensures Length(r) == Length(p)
    ensures forall i :: 0 <= i < Length(p) ==> r.nodes[0] <= p.nodes[i]
    ensures exists m :: 0 <= m < Length(p) && r.nodes == Rotate(p.nodes, m)
                        && forall k :: 0 <= k < m ==> p.nodes[k] > p.nodes[m]
  {
    var m := FirstMinIndex(p.nodes);
    Path(Rotate(p.nodes, m), p.directed)
  }

  /** Canonicalising a canonical path changes nothing. */
  lemma CanonicaliseIdempotent(p: Path)
    requires Length(p) > 0
    ensures Canonicalise(Canonicalise(p)) == Canonicalise(p)
  {
    var c := Canonicalise(p);
    assert FirstMinIndex(c.nodes) == 0;
  }
}
