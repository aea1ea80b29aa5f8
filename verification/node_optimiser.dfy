/**
 * How a node optimiser picks the surfels to visit in one pass: all of
 * them in a random order, or the worst ones first (stably sorted by a
 * smoothness score, largest first) cut to a fixed count or to a
 * percentage of the graph. Also the lookup of a selection algorithm by
 * its configured name.
 *
 * The smoothness of a node is a parameter `score`; the random engine's
 * draws are a parameter `draws`.
 */
module NodeOptimiser {
  import opened Wrappers
  import opened Sequences
  import opened Graph
  import opened Shuffling

  // ------------------------------------------------------------------
  // with_name

  datatype SelectionAlgorithm = AllInRandomOrder | Worst100

  /** The configuration name of each algorithm. */
  function NameOf(a: SelectionAlgorithm): string
  {
    match a
    case AllInRandomOrder => "select-all-in-random-order"
    case Worst100 => "select-worst-100"
  }

  /** `with_name`: the algorithm configured under exactly this name; any other name is an error naming it. */
  function WithName(name: string): (r: Result<SelectionAlgorithm, string>)
    ensures r.Success? <==> name == "select-all-in-random-order" || name == "select-worst-100"
    ensures r.Success? ==> NameOf(r.value) == name
    ensures r.Failure? ==> r.error == "Unknown surfel selection algorithm " + name
  {
    if name == "select-all-in-random-order" then Success(AllInRandomOrder)
    else if name == "select-worst-100" then Success(Worst100)
    else Failure("Unknown surfel selection algorithm " + name)
  }

  /** Every algorithm is found under its own name, and under no other. */
  lemma WithNameOfName(a: SelectionAlgorithm, name: string)
    ensures WithName(NameOf(a)) == Success(a)
    ensures WithName(name) == Success(a) ==> name == NameOf(a)
  {
  }

  // ------------------------------------------------------------------
  // The percentage setting

  /** The configured whole percentage as a fraction, clamped to `[0, 1]`. */
  function SsaFraction(percentage: int): (r: real)
    ensures 0.0 <= r <= 1.0
    ensures 0 <= percentage <= 100 ==> r == percentage as real / 100.0
    ensures percentage < 0 ==> r == 0.0
    ensures percentage > 100 ==> r == 1.0
  {
    var f := percentage as real / 100.0;
    var lo := if 0.0 < f then f else 0.0;
    if lo < 1.0 then lo else 1.0
  }

  /** A larger percentage never selects a smaller fraction. */
  lemma SsaFractionMonotone(p: int, q: int)
    requires p <= q
    ensures SsaFraction(p) <= SsaFraction(q)
  {
  }

  // ------------------------------------------------------------------
  // ssa_select_all_in_random_order

  /**
   * The node positions `0..n-1`, shuffled, then the nodes at those
   * positions: a shuffle of the nodes themselves.
   */
  function SelectAll(nodes: seq<NodeId>, draws: seq<nat>): (r: seq<NodeId>)
    ensures r == Shuffle(nodes, draws)
    ensures multiset(r) == multiset(nodes)
  {
    var indices := Shuffle(Iota(|nodes|), draws);
    PickShuffleFrom(nodes, Iota(|nodes|), draws, 1);
    PickAll(nodes);
    Pick(nodes, indices)
  }

  /** Over a graph: every node of the graph, each exactly once. */
  function SelectAllOfGraph<N, E>(g: Graph<N, E>, draws: seq<nat>): (r: seq<NodeId>)
    ensures |r| == |g.nodes|
    ensures forall x :: x in r <==> x in g.nodes
    ensures forall i, j :: 0 <= i < j < |r| ==> r[i] != r[j]
  {
    var nodes := Ascending(g.nodes.Keys);
    var r := SelectAll(nodes, draws);
    PermutationKeepsElements(nodes, r);
    r
  }

  // ------------------------------------------------------------------
  // Stable sort, worst first

  /** Worst first: no node is followed by a node of larger score. */
  ghost predicate WorstFirst(s: seq<NodeId>, score: NodeId -> real)
  {
    forall i, j :: 0 <= i < j < |s| ==> score(s[i]) >= score(s[j])
  }

  /**
   * Inserting `x` into a worst-first sequence after every node at least
   * as bad: the step of a stable sort that takes nodes in input order.
   */
  function Insert(x: NodeId, s: seq<NodeId>, score: NodeId -> real): (r: seq<NodeId>)
    ensures |r| == |s| + 1
    ensures multiset(r) == multiset(s) + multiset{x}
    ensures forall y :: y in r <==> y in s || y == x
    ensures WorstFirst(s, score) ==> WorstFirst(r, score)
  {
    if |s| == 0 then [x]
    else if score(x) > score(s[0]) then
      InsertFront(x, s, score);
      [x] + s
    else
      var rest := Insert(x, s[1..], score);
      assert s == [s[0]] + s[1..];
      InsertBehind(s[0], x, s[1..], rest, score);
      [s[0]] + rest
  }

  lemma InsertFront(x: NodeId, s: seq<NodeId>, score: NodeId -> real)
    requires |s| > 0 && score(x) > score(s[0])
    ensures WorstFirst(s, score) ==> WorstFirst([x] + s, score)
  {
    if WorstFirst(s, score) {
      forall i, j | 0 <= i < j < |[x] + s| ensures score(([x] + s)[i]) >= score(([x] + s)[j]) {
        assert ([x] + s)[j] == s[j - 1];
        if i > 0 {
          assert ([x] + s)[i] == s[i - 1];
        }
      }
    }
  }

  lemma InsertBehind(h: NodeId, x: NodeId, t: seq<NodeId>, rest: seq<NodeId>, score: NodeId -> real)
    requires score(x) <= score(h)
    requires forall y :: y in rest <==> y in t || y == x
    requires WorstFirst(t, score) ==> WorstFirst(rest, score)
    ensures WorstFirst([h] + t, score) ==> WorstFirst([h] + rest, score)
  {
    if WorstFirst([h] + t, score) {
      assert WorstFirst(t, score) by {
        forall i, j | 0 <= i < j < |t| ensures score(t[i]) >= score(t[j]) {
          assert t[i] == ([h] + t)[i + 1] && t[j] == ([h] + t)[j + 1];
        }
      }
      forall i, j | 0 <= i < j < |[h] + rest| ensures score(([h] + rest)[i]) >= score(([h] + rest)[j]) {
        var y := ([h] + rest)[j];
        assert y == rest[j - 1] && y in rest;
        if i == 0 {
          assert ([h] + rest)[0] == h;
          if y != x {
            var k :| 0 <= k < |t| && t[k] == y;
            assert ([h] + t)[k + 1] == y && ([h] + t)[0] == h;
            assert score(h) >= score(y);
          }
        } else {
          assert ([h] + rest)[i] == rest[i - 1];
          assert score(rest[i - 1]) >= score(rest[j - 1]);
        }
      }
    }
  }

  /** `stable_sort` with `compare_worst_first`: nodes taken in input order and inserted. */
  function SortWorstFirst(s: seq<NodeId>, score: NodeId -> real): (r: seq<NodeId>)
    ensures |r| == |s|
    ensures multiset(r) == multiset(s)
    ensures WorstFirst(r, score)
  {
    if |s| == 0 then []
    else
      var n := |s| - 1;
      assert s == s[..n] + [s[n]];
      Insert(s[n], SortWorstFirst(s[..n], score), score)
  }

  /** The nodes of score `v`, in their order. */
  function WithScore(s: seq<NodeId>, score: NodeId -> real, v: real): (r: seq<NodeId>)
  {
    if |s| == 0 then [] else (if score(s[0]) == v then [s[0]] else []) + WithScore(s[1..], score, v)
  }

  lemma {:induction false} WithScoreAppend(a: seq<NodeId>, b: seq<NodeId>, score: NodeId -> real, v: real)
    ensures WithScore(a + b, score, v) == WithScore(a, score, v) + WithScore(b, score, v)
  {
    if |a| > 0 {
      assert (a + b)[0] == a[0] && (a + b)[1..] == a[1..] + b;
      WithScoreAppend(a[1..], b, score, v);
    } else {
      assert a + b == b;
    }
  }

  lemma {:induction false} WithScoreNone(s: seq<NodeId>, score: NodeId -> real, v: real)
    requires forall i :: 0 <= i < |s| ==> score(s[i]) < v
    ensures WithScore(s, score, v) == []
  {
    if |s| > 0 {
      WithScoreNone(s[1..], score, v);
    }
  }

  /** Inserting a node puts it after every node of its own score. */
  lemma {:induction false} InsertWithScore(x: NodeId, s: seq<NodeId>, score: NodeId -> real, v: real)
    requires WorstFirst(s, score)
    ensures WithScore(Insert(x, s, score), score, v) == WithScore(s, score, v) + (if score(x) == v then [x] else [])
  {
    if |s| > 0 {
      if score(x) > score(s[0]) {
        assert Insert(x, s, score) == [x] + s;
        assert ([x] + s)[1..] == s;
        if score(x) == v {
          forall i | 0 <= i < |s| ensures score(s[i]) < v {
            assert i == 0 || score(s[0]) >= score(s[i]);
          }
          WithScoreNone(s, score, v);
        }
      } else {
        var rest := Insert(x, s[1..], score);
        assert Insert(x, s, score) == [s[0]] + rest;
        assert ([s[0]] + rest)[1..] == rest;
        assert WorstFirst(s[1..], score) by {
          forall i, j | 0 <= i < j < |s[1..]| ensures score(s[1..][i]) >= score(s[1..][j]) {
            assert s[1..][i] == s[i + 1] && s[1..][j] == s[j + 1];
          }
        }
        InsertWithScore(x, s[1..], score, v);
      }
    }
  }

  /** The sort is stable: the nodes of any one score keep their input order. */
  lemma {:induction false} SortWorstFirstStable(s: seq<NodeId>, score: NodeId -> real, v: real)
    ensures WithScore(SortWorstFirst(s, score), score, v) == WithScore(s, score, v)
  {
    if |s| > 0 {
      var n := |s| - 1;
      var pre, x := s[..n], s[n];
      assert s == pre + [x];
      var sorted := SortWorstFirst(pre, score);
      SortWorstFirstStable(pre, score, v);
      InsertWithScore(x, sorted, score, v);
      SortUnfold(s, score);
      StableStep(pre, x, sorted, Insert(x, sorted, score), score, v);
    }
  }

  lemma SortUnfold(s: seq<NodeId>, score: NodeId -> real)
    requires |s| > 0
    ensures SortWorstFirst(s, score) == Insert(s[|s| - 1], SortWorstFirst(s[..|s| - 1], score), score)
  {
  }

  lemma StableStep(pre: seq<NodeId>, x: NodeId, sorted: seq<NodeId>, r: seq<NodeId>, score: NodeId -> real, v: real)
    requires WithScore(sorted, score, v) == WithScore(pre, score, v)
    requires WithScore(r, score, v) == WithScore(sorted, score, v) + (if score(x) == v then [x] else [])
    ensures WithScore(r, score, v) == WithScore(pre + [x], score, v)
  {
    WithScoreAppend(pre, [x], score, v);
    WithScoreOne(x, score, v);
  }

  lemma WithScoreOne(x: NodeId, score: NodeId -> real, v: real)
    ensures WithScore([x], score, v) == if score(x) == v then [x] else []
  {
    assert [x][1..] == [];
  }

  /** The first `k` nodes of the sorted order: none left out is worse than one kept. */
  function WorstPrefix(nodes: seq<NodeId>, score: NodeId -> real, k: nat): (r: seq<NodeId>)
    ensures |r| == if |nodes| < k then |nodes| else k
    ensures r == SortWorstFirst(nodes, score)[..|r|]
    ensures WorstFirst(r, score)
    ensures forall y :: y in r ==> y in nodes
    ensures forall x, y :: x in nodes && x !in r && y in r ==> score(y) >= score(x)
  {
    var sorted := SortWorstFirst(nodes, score);
    var m := if |sorted| < k then |sorted| else k;
    var r := sorted[..m];
    WorstPrefixFacts(nodes, sorted, m, score);
    r
  }

  lemma WorstPrefixFacts(nodes: seq<NodeId>, sorted: seq<NodeId>, m: nat, score: NodeId -> real)
    requires multiset(sorted) == multiset(nodes) && WorstFirst(sorted, score) && m <= |sorted|
    ensures WorstFirst(sorted[..m], score)
    ensures forall y :: y in sorted[..m] ==> y in nodes
    ensures forall x, y :: x in nodes && x !in sorted[..m] && y in sorted[..m] ==> score(y) >= score(x)
  {
    var r := sorted[..m];
    assert forall i :: 0 <= i < m ==> r[i] == sorted[i];
    forall y | y in r ensures y in nodes {
      assert y in multiset(sorted);
    }
    forall x, y | x in nodes && x !in r && y in r ensures score(y) >= score(x) {
      assert x in multiset(sorted);
      var j :| 0 <= j < |sorted| && sorted[j] == x;
      var i :| 0 <= i < m && r[i] == y;
      assert j >= m;
    }
  }

  /** `ssa_select_worst_100`: the hundred worst nodes, or all when there are fewer. */
  function SelectWorst100(nodes: seq<NodeId>, score: NodeId -> real): (r: seq<NodeId>)
    ensures |r| == if |nodes| < 100 then |nodes| else 100
    ensures r == SortWorstFirst(nodes, score)[..|r|]
    ensures forall x, y :: x in nodes && x !in r && y in r ==> score(y) >= score(x)
  {
    WorstPrefix(nodes, score, 100)
  }

  /** `roundf` of a non-negative value: halves round up. */
  function Round(x: real): (n: int)
    requires x >= 0.0
    ensures n >= 0
    ensures n as real - 0.5 <= x < n as real + 0.5
  {
    (x + 0.5).Floor
  }

  /**
   * `ssa_select_worst_percentage`: the worst nodes, as many as the
   * clamped percentage of the node count rounds to.
   */
  function SelectWorstPercentage(nodes: seq<NodeId>, score: NodeId -> real, percentage: int): (r: seq<NodeId>)
    ensures |r| <= |nodes|
    ensures |r| == Required(|nodes|, SsaFraction(percentage))
    ensures r == SortWorstFirst(nodes, score)[..|r|]
    ensures forall x, y :: x in nodes && x !in r && y in r ==> score(y) >= score(x)
  {
    WorstPrefix(nodes, score, Required(|nodes|, SsaFraction(percentage)))
  }

  /** The required node count: the share `f` of `n` nodes, rounded; never more than `n`. */
  function Required(n: nat, f: real): (k: nat)
    requires 0.0 <= f <= 1.0
    ensures k <= n
    ensures k as real - 0.5 <= n as real * f < k as real + 0.5
    ensures f == 0.0 ==> k == 0
    ensures f == 1.0 ==> k == n
  {
    var a := n as real;
    MulNonNegative(a, f);
    MulNonNegative(a, 1.0 - f);
    assert a * (1.0 - f) == a - a * f;
    Round(a * f)
  }

  lemma MulNonNegative(a: real, b: real)
    requires a >= 0.0 && b >= 0.0
    ensures a * b >= 0.0
  {
  }

  /** A hundred percent selects every node; nothing or less selects none. */
  lemma SelectWorstPercentageExtremes(nodes: seq<NodeId>, score: NodeId -> real, percentage: int)
    ensures percentage >= 100 ==> multiset(SelectWorstPercentage(nodes, score, percentage)) == multiset(nodes)
    ensures percentage <= 0 ==> SelectWorstPercentage(nodes, score, percentage) == []
  {
    var sorted := SortWorstFirst(nodes, score);
    var r := SelectWorstPercentage(nodes, score, percentage);
    if percentage >= 100 {
      assert |r| == |sorted|;
      assert sorted[..|sorted|] == sorted;
    }
  }
}
