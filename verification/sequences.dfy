/**
 * Sequence helpers shared by the components: the linear search of
 * `std::find`, the left rotation of `std::rotate`, reversal, and the
 * first-minimum search used by the path canonicalisers.
 */
module Sequences {

  /** `std::find`: the index of the first occurrence of `x`, or `|s|` when absent. */
  function Find<T(==)>(s: seq<T>, x: T): (i: nat)
    ensures i <= |s|
    ensures i < |s| ==> s[i] == x
    ensures forall k :: 0 <= k < i ==> s[k] != x
    ensures i == |s| <==> x !in s
  {
    if |s| == 0 then 0
    else if s[0] == x then 0
    else 1 + Find(s[1..], x)
  }

  /** Appending the element looked for does not move its first occurrence. */
  lemma FindAfterAppend<T>(s: seq<T>, x: T)
    ensures Find(s + [x], x) == Find(s, x)
  {
    var i := Find(s + [x], x);
    var j := Find(s, x);
    assert (s + [x])[j] == x;
    assert i <= j;
    assert forall k :: 0 <= k < |s| ==> (s + [x])[k] == s[k];
  }

  /** A non-empty prefix comes apart into its head and the rest. */
  lemma AppendHead<T>(s: seq<T>, t: seq<T>)
    requires |s| > 0
    ensures s + t == [s[0]] + (s[1..] + t)
  {
  }

  /** Moving the head of `s` onto the end of `a` leaves the concatenation alone. */
  lemma AppendShift<T>(a: seq<T>, s: seq<T>)
    requires |s| > 0
    ensures a + [s[0]] + s[1..] == a + s
  {
  }

  /** A prefix of a prefix is a prefix. */
  lemma PrefixOfPrefix<T>(a: seq<T>, b: seq<T>, c: seq<T>)
    requires |a| <= |b| <= |c| && b[..|a|] == a && c[..|b|] == b
    ensures c[..|a|] == a
  {
    assert c[..|a|] == c[..|b|][..|a|];
  }

  /** The rotation that brings `s[k]` to the front: `s[k..]` followed by `s[..k]`. */
  function Rotate<T>(s: seq<T>, k: nat): (r: seq<T>)
    requires k <= |s|
    ensures |r| == |s|
    ensures forall i :: 0 <= i < |s| - k ==> r[i] == s[k + i]
    ensures forall i :: |s| - k <= i < |s| ==> r[i] == s[k + i - |s|]
  {
    s[k..] + s[..k]
  }

  /** Rotating by nothing or by the whole length gives the sequence back. */
  lemma RotateWhole<T>(s: seq<T>)
    ensures Rotate(s, 0) == s && Rotate(s, |s|) == s
  {
    assert s[..0] == [] && s[0..] == s;
    assert s[|s|..] == [] && s[..|s|] == s;
  }

  /** Element `i` of a rotation, with the wrap-around written as a remainder. */
  lemma RotateIndex<T>(s: seq<T>, k: nat, i: nat)
    requires k < |s| && i < |s|
    ensures Rotate(s, k)[i] == s[(k + i) % |s|]
  {
    if k + i < |s| {
      assert (k + i) % |s| == k + i;
    } else {
      assert (k + i) % |s| == k + i - |s|;
    }
  }

  /** Rotating a rotation by one more place. */
  lemma RotateStep<T>(s: seq<T>, k: nat)
    requires k < |s|
    ensures Rotate(Rotate(s, k), 1) == Rotate(s, k + 1)
  {
    var a := Rotate(Rotate(s, k), 1);
    var b := Rotate(s, k + 1);
    assert |a| == |b|;
    forall i | 0 <= i < |a| ensures a[i] == b[i] {
      if i < |s| - 1 {
        assert a[i] == Rotate(s, k)[i + 1];
      } else {
        assert a[i] == Rotate(s, k)[0];
      }
    }
  }

  function Reverse<T>(s: seq<T>): (r: seq<T>)
    ensures |r| == |s|
    ensures forall i :: 0 <= i < |s| ==> r[i] == s[|s| - 1 - i]
  {
    if |s| == 0 then [] else Reverse(s[1..]) + [s[0]]
  }

  /** The index of the first element no later element undercuts (strict `<` comparison). */
  function FirstMinIndex(s: seq<int>): (m: nat)
    requires |s| > 0
    ensures m < |s|
    ensures forall k :: 0 <= k < |s| ==> s[m] <= s[k]
    ensures forall k :: 0 <= k < m ==> s[m] < s[k]
  {
    if |s| == 1 then 0
    else
      var m' := FirstMinIndex(s[..|s| - 1]);
      if s[|s| - 1] < s[m'] then |s| - 1 else m'
  }

  /** No element occurs twice. */
  ghost predicate Distinct<T>(s: seq<T>)
  {
    forall i, j :: 0 <= i < j < |s| ==> s[i] != s[j]
  }

  /** A sequence is distinct iff its head is not in its tail and its tail is distinct. */
  lemma DistinctCons<T>(s: seq<T>)
    requires |s| > 0
    ensures Distinct(s) <==> s[0] !in s[1..] && Distinct(s[1..])
  {
    if s[0] !in s[1..] && Distinct(s[1..]) {
      forall i, j | 0 <= i < j < |s| ensures s[i] != s[j] {
        assert s[j] == s[1..][j - 1];
        if i > 0 {
          assert s[i] == s[1..][i - 1];
        }
      }
    }
    if Distinct(s) {
      forall i, j | 0 <= i < j < |s[1..]| ensures s[1..][i] != s[1..][j] {
        assert s[1..][i] == s[i + 1] && s[1..][j] == s[j + 1];
      }
    }
  }

  lemma {:induction false} LeastWitness(s: set<nat>) returns (m: nat)
    requires s != {}
    ensures m in s && forall y :: y in s ==> m <= y
    decreases |s|
  {
    var x :| x in s;
    if s == {x} {
      m := x;
    } else {
      var t := s - {x};
      assert |t| == |s| - 1;
      var k := LeastWitness(t);
      m := if x < k then x else k;
      forall y | y in s ensures m <= y {
        if y != x {
          assert y in t;
        }
      }
    }
  }

  lemma LeastExists(s: set<nat>)
    requires s != {}
    ensures exists m :: m in s && forall y :: y in s ==> m <= y
  {
    var m := LeastWitness(s);
  }

  function Least(s: set<nat>): (m: nat)
    requires s != {}
    ensures m in s && forall y :: y in s ==> m <= y
  {
    LeastExists(s);
    var m :| m in s && forall y :: y in s ==> m <= y;
    m
  }

  /**
   * The elements of a set of handles in ascending order: the fixed
   * iteration order this model gives to sets the original orders by
   * pointer value.
   */
  function Ascending(s: set<nat>): (r: seq<nat>)
    ensures forall x :: x in r <==> x in s
    ensures |r| == |s|
    ensures Distinct(r)
    ensures forall i, j :: 0 <= i < j < |r| ==> r[i] < r[j]
    decreases |s|
  {
    if s == {} then []
    else
      var m := Least(s);
      var rest := Ascending(s - {m});
      assert m !in rest;
      assert forall j :: 0 <= j < |rest| ==> m < rest[j] by {
        forall j | 0 <= j < |rest| ensures m < rest[j] {
          assert rest[j] in s - {m};
        }
      }
      [m] + rest
  }

  /** A strictly increasing sequence is fixed by its elements: it is the ascending listing of their set. */
  lemma {:induction false} IncreasingUnique(a: seq<nat>, b: seq<nat>)
    requires forall i, j :: 0 <= i < j < |a| ==> a[i] < a[j]
    requires forall i, j :: 0 <= i < j < |b| ==> b[i] < b[j]
    requires forall x :: x in a <==> x in b
    ensures a == b
    decreases |a|
  {
    assert |b| > 0 ==> b[0] in a;
    if |a| > 0 {
      assert a[0] in b;
      assert a[0] == b[0] by {
        assert a[0] in b && b[0] in a;
      }
      forall y ensures y in a[1..] <==> y in b[1..] {
        if y in a[1..] {
          var i :| 1 <= i < |a| && a[i] == y;
          assert y in b && y != b[0];
        }
        if y in b[1..] {
          var i :| 1 <= i < |b| && b[i] == y;
          assert y in a && y != a[0];
        }
      }
      IncreasingUnique(a[1..], b[1..]);
    }
  }

  /**
   * `std::string`'s `operator<`: character by character, a proper prefix
   * before any longer string.
   */
  predicate LexLess(a: string, b: string)
  {
    |b| > 0 && (|a| == 0 || a[0] < b[0] || (a[0] == b[0] && LexLess(a[1..], b[1..])))
  }

  lemma {:induction false} LexLessIrreflexive(a: string)
    ensures !LexLess(a, a)
  {
    if |a| > 0 {
      LexLessIrreflexive(a[1..]);
    }
  }

  lemma {:induction false} LexLessTransitive(a: string, b: string, c: string)
    requires LexLess(a, b) && LexLess(b, c)
    ensures LexLess(a, c)
  {
    if |a| > 0 && a[0] == b[0] && b[0] == c[0] {
      LexLessTransitive(a[1..], b[1..], c[1..]);
    }
  }

  /** Any two different strings are ordered one way or the other. */
  lemma {:induction false} LexLessTotal(a: string, b: string)
    requires a != b
    ensures LexLess(a, b) || LexLess(b, a)
  {
    if |a| > 0 && |b| > 0 && a[0] == b[0] {
      assert a == [a[0]] + a[1..] && b == [b[0]] + b[1..];
      LexLessTotal(a[1..], b[1..]);
    }
  }
}
