/**
 * `std::shuffle` with the random engine's draws made a parameter: a
 * forward Fisher-Yates pass that swaps position `i` with a position drawn
 * from `0..i`. Whatever the draws, the result is a rearrangement of the
 * input.
 */
module Shuffling {

  /** The elements at positions `i` and `j` trade places. */
  function Swap<T>(s: seq<T>, i: nat, j: nat): (r: seq<T>)
    requires i < |s| && j < |s|
    ensures |r| == |s|
    ensures r[i] == s[j] && r[j] == s[i]
    ensures forall k :: 0 <= k < |s| && k != i && k != j ==> r[k] == s[k]
    ensures multiset(r) == multiset(s)
  {
    s[i := s[j]][j := s[i]]
  }

  /** The position drawn for step `i`: the `i`-th draw reduced to `0..i`, or 0 when the draws ran out. */
  function Draw(draws: seq<nat>, i: nat): (j: nat)
    ensures j <= i
  {
    if i < |draws| then draws[i] % (i + 1) else 0
  }

  /** The Fisher-Yates steps from position `i` on. */
  function ShuffleFrom<T>(s: seq<T>, draws: seq<nat>, i: nat): (r: seq<T>)
    ensures |r| == |s|
    ensures multiset(r) == multiset(s)
    ensures forall k :: 0 <= k < |r| ==> r[k] in s
    decreases |s| - i
  {
    if i >= |s| then s else ShuffleFrom(Swap(s, i, Draw(draws, i)), draws, i + 1)
  }

  function Shuffle<T>(s: seq<T>, draws: seq<nat>): (r: seq<T>)
    ensures |r| == |s|
    ensures multiset(r) == multiset(s)
    ensures forall k :: 0 <= k < |r| ==> r[k] in s
  {
    ShuffleFrom(s, draws, 1)
  }

  /** A rearrangement of a sequence without repeats has no repeats and the same elements. */
  lemma PermutationKeepsElements<T>(s: seq<T>, r: seq<T>)
    requires multiset(r) == multiset(s)
    ensures |r| == |s|
    ensures forall x :: x in r <==> x in s
    ensures (forall i, j :: 0 <= i < j < |s| ==> s[i] != s[j]) ==> forall i, j :: 0 <= i < j < |r| ==> r[i] != r[j]
  {
    assert |r| == |multiset(r)| == |multiset(s)| == |s|;
    forall x ensures x in r <==> x in s {
      assert x in r <==> x in multiset(r);
      assert x in s <==> x in multiset(s);
    }
    if forall i, j :: 0 <= i < j < |s| ==> s[i] != s[j] {
      forall i, j | 0 <= i < j < |r| ensures r[i] != r[j] {
        if r[i] == r[j] {
          TwiceInMultiset(r, i, j);
          UniqueOnce(s, r[i]);
        }
      }
    }
  }

  lemma TwiceInMultiset<T>(r: seq<T>, i: nat, j: nat)
    requires i < j < |r| && r[i] == r[j]
    ensures multiset(r)[r[i]] >= 2
  {
    var x := r[i];
    assert r == r[..i] + [x] + r[i + 1..j] + [x] + r[j + 1..];
  }

  lemma {:induction false} UniqueOnce<T>(s: seq<T>, x: T)
    requires forall i, j :: 0 <= i < j < |s| ==> s[i] != s[j]
    ensures multiset(s)[x] <= 1
  {
    if |s| > 0 {
      var t := s[1..];
      assert s == [s[0]] + t;
      forall i, j | 0 <= i < j < |t| ensures t[i] != t[j] {
        assert t[i] == s[i + 1] && t[j] == s[j + 1];
      }
      UniqueOnce(t, x);
      if x == s[0] {
        assert x !in t by {
          forall k | 0 <= k < |t| ensures t[k] != x {
            assert t[k] == s[k + 1];
          }
        }
      }
    }
  }

  /** The positions `0..n-1` in order, as `std::iota` fills them. */
  function Iota(n: nat): (r: seq<nat>)
    ensures |r| == n
    ensures forall i :: 0 <= i < n ==> r[i] == i
  {
    seq(n, i => i)
  }

  /** The elements of `s` at the positions `idx`, in that order. */
  function Pick<T>(s: seq<T>, idx: seq<nat>): (r: seq<T>)
    requires forall k :: 0 <= k < |idx| ==> idx[k] < |s|
    ensures |r| == |idx|
    ensures forall k :: 0 <= k < |idx| ==> r[k] == s[idx[k]]
  {
    seq(|idx|, k requires 0 <= k < |idx| => s[idx[k]])
  }

  /** Picking through shuffled positions is shuffling what was picked. */
  lemma {:induction false} PickShuffleFrom<T>(s: seq<T>, idx: seq<nat>, draws: seq<nat>, i: nat)
    requires forall k :: 0 <= k < |idx| ==> idx[k] < |s|
    ensures Pick(s, ShuffleFrom(idx, draws, i)) == ShuffleFrom(Pick(s, idx), draws, i)
    decreases |idx| - i
  {
    if i < |idx| {
      var j := Draw(draws, i);
      var idx' := Swap(idx, i, j);
      assert Pick(s, idx') == Swap(Pick(s, idx), i, j);
      PickShuffleFrom(s, idx', draws, i + 1);
    }
  }

  /** The whole sequence picked in position order is the sequence. */
  lemma PickAll<T>(s: seq<T>)
    ensures Pick(s, Iota(|s|)) == s
  {
  }
}
