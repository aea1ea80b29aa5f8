/**
 * Correspondence paths through a sequence of point clouds, as built by the
 * `compute_corr_pcl` tool. Every point of the first frame starts a path.
 * For each pair of consecutive frames, the correspondences from the earlier
 * frame to the later one are visited in ascending order of source point: a
 * target point not yet taken is appended to the path whose tail is the
 * source point, and every target point left untaken starts a new path.
 * Paths of more than one point are written out, one line each.
 *
 * The correspondences themselves come from a normal-shooting search over
 * floating-point clouds; here they are a parameter, one list per pair of
 * frames, and a cloud is reduced to its number of points.
 */
module CorrPaths {
  import opened Wrappers
  import opened Text

  /** A point of one frame: the `frame_index` key. */
  datatype FrameIndex = FrameIndex(frame: nat, idx: nat)

  /** `frame_index::operator<`: by frame, then by index within the frame. */
  predicate Less(a: FrameIndex, b: FrameIndex)
  {
    if a.frame < b.frame then true
    else if a.frame > b.frame then false
    else a.idx < b.idx
  }

  /** The ordering is a strict total order, as a `std::map` key needs; keys it cannot tell apart are equal. */
  lemma LessStrictTotal(a: FrameIndex, b: FrameIndex, c: FrameIndex)
    ensures !Less(a, a)
    ensures Less(a, b) && Less(b, c) ==> Less(a, c)
    ensures !Less(a, b) && !Less(b, a) ==> a == b
  {
  }

  lemma MulStep(x: nat, y: nat, w: nat)
    requires x < y
    ensures x * w + w <= y * w
  {
    var d := y - x;
    assert y * w == x * w + d * w;
    assert d * w >= w by {
      assert d * w == (d - 1) * w + w;
    }
  }

  /** With fewer than `width` points per frame, the ordering is that of the frame-major rank of a point. */
  lemma LessAsRank(a: FrameIndex, b: FrameIndex, width: nat)
    requires a.idx < width && b.idx < width
    ensures Less(a, b) <==> a.frame * width + a.idx < b.frame * width + b.idx
  {
    if a.frame < b.frame {
      MulStep(a.frame, b.frame, width);
    } else if b.frame < a.frame {
      MulStep(b.frame, a.frame, width);
    }
  }

  /** The paths, and `path_tail_item_to_path`: the path each item was put on. */
  datatype PathState = PathState(paths: seq<seq<FrameIndex>>, pathOf: map<FrameIndex, nat>)

  /** `map::at` on an absent key, and `vector::at` past the end. */
  datatype CorrError = NoFrames | NoTail(key: FrameIndex) | NoPath(index: nat)

  /** `map::emplace`: a key already present keeps its value. */
  function Emplace(m: map<FrameIndex, nat>, k: FrameIndex, v: nat): (r: map<FrameIndex, nat>)
    ensures k in r && r[k] == (if k in m then m[k] else v)
    ensures forall x :: x in m ==> x in r && r[x] == m[x]
    ensures forall x :: x in r ==> x in m || x == k
  {
    if k in m then m else m[k := v]
  }

  /** One path per point of the first frame: point `i` alone on path `i`. */
  function Initial(count: nat): (st: PathState)
    ensures |st.paths| == count
    ensures forall i :: 0 <= i < count ==> st.paths[i] == [FrameIndex(0, i)]
    ensures forall x :: x in st.pathOf <==> x.frame == 0 && x.idx < count
    ensures forall x :: x in st.pathOf ==> st.pathOf[x] == x.idx
  {
    PathState(seq(count, i requires 0 <= i < count => [FrameIndex(0, i)]),
              map x | x in (set i | 0 <= i < count :: FrameIndex(0, i)) :: x.idx)
  }

  /** Item `to` appended to path `index`, and recorded as put there. */
  function Extend(st: PathState, index: nat, to: FrameIndex): PathState
    requires index < |st.paths|
  {
    PathState(st.paths[index := st.paths[index] + [to]], Emplace(st.pathOf, to, index))
  }

  /**
   * One correspondence, from point `p` of frame `from` to point `q` of the
   * next frame: skipped when `q` is taken, else `q` joins the path `p` was
   * put on and is marked taken.
   */
  function LinkOne(st: PathState, consumed: seq<bool>, from: nat, p: nat, q: nat): (r: Result<(PathState, seq<bool>), CorrError>)
    requires q < |consumed|
    ensures consumed[q] ==> r == Success((st, consumed))
    ensures r.Failure? <==> !consumed[q] && (FrameIndex(from, p) !in st.pathOf || st.pathOf[FrameIndex(from, p)] >= |st.paths|)
    ensures r.Success? ==> |r.value.1| == |consumed| && r.value.1[q]
    ensures r.Success? ==> forall i :: 0 <= i < |consumed| && i != q ==> r.value.1[i] == consumed[i]
    ensures r.Success? ==> Grows(st.paths, r.value.0.paths)
    ensures r.Failure? ==> r.error.NoTail? || r.error.NoPath?
  {
    if consumed[q] then Success((st, consumed))
    else
      var key := FrameIndex(from, p);
      if key !in st.pathOf then Failure(NoTail(key))
      else
        var index := st.pathOf[key];
        if index >= |st.paths| then Failure(NoPath(index))
        else
          var st1 := Extend(st, index, FrameIndex(from + 1, q));
          assert st.paths[index] <= st1.paths[index];
          Success((st1, consumed[q := true]))
  }

  /** Every target point is one of the later frame's `count` points. */
  predicate Targets(entries: seq<(nat, nat)>, count: nat)
  {
    forall k :: 0 <= k < |entries| ==> entries[k].1 < count
  }

  /** One list of correspondences per pair of consecutive frames, every target in range. */
  predicate AllTargets(rows: seq<nat>, corrs: seq<seq<(nat, nat)>>)
  {
    |corrs| + 1 == |rows| && forall t :: 0 <= t < |corrs| ==> Targets(corrs[t], rows[t + 1])
  }

  /** The correspondences of one pair of frames, in the order the map visits them. */
  function Link(st: PathState, consumed: seq<bool>, from: nat, entries: seq<(nat, nat)>): (r: Result<(PathState, seq<bool>), CorrError>)
    requires Targets(entries, |consumed|)
    ensures r.Success? ==> |r.value.1| == |consumed|
    ensures r.Success? ==> Grows(st.paths, r.value.0.paths)
    ensures r.Failure? ==> r.error.NoTail? || r.error.NoPath?
    decreases |entries|
  {
    if entries == [] then Success((st, consumed))
    else
      var (st1, c1) :- LinkOne(st, consumed, from, entries[0].0, entries[0].1);
      var r := Link(st1, c1, from, entries[1..]);
      if r.Success? then
        GrowsTrans(st.paths, st1.paths, r.value.0.paths);
        r
      else r
  }

  /** A new path holding only `key`, recorded as put there. */
  function AddPath(st: PathState, key: FrameIndex): PathState
  {
    PathState(st.paths + [[key]], Emplace(st.pathOf, key, |st.paths|))
  }

  /** Every target point from `q` on that no path took starts a path of its own, in point order. */
  function NewPaths(st: PathState, consumed: seq<bool>, to: nat, q: nat): (r: PathState)
    requires q <= |consumed|
    ensures |st.paths| <= |r.paths| && r.paths[..|st.paths|] == st.paths
    ensures Grows(st.paths, r.paths)
    decreases |consumed| - q
  {
    if q == |consumed| then st
    else if consumed[q] then NewPaths(st, consumed, to, q + 1)
    else
      var key := FrameIndex(to, q);
      var r := NewPaths(AddPath(st, key), consumed, to, q + 1);
      assert r.paths[..|st.paths|] == (st.paths + [[key]])[..|st.paths|];
      r
  }

  /**
   * The step from frame `to - 1` to frame `to`, which has `rows[to]`
   * points. Paths only grow at their ends, and a failure is a missing
   * tail or path.
   */
  function StepFrame(st: PathState, rows: seq<nat>, entries: seq<(nat, nat)>, to: nat): (r: Result<PathState, CorrError>)
    requires 1 <= to < |rows|
    requires Targets(entries, rows[to])
    ensures r.Success? ==> Grows(st.paths, r.value.paths)
    ensures r.Failure? ==> r.error.NoTail? || r.error.NoPath?
  {
    var consumed := seq(rows[to], i => false);
    var (st1, c1) :- Link(st, consumed, to - 1, entries);
    var st2 := NewPaths(st1, c1, to, 0);
    GrowsTrans(st.paths, st1.paths, st2.paths);
    Success(st2)
  }

  /** The steps into frames `to` onwards; `corrs[t]` holds the correspondences from frame `t` to frame `t + 1`. */
  function Frames(st: PathState, rows: seq<nat>, corrs: seq<seq<(nat, nat)>>, to: nat): (r: Result<PathState, CorrError>)
    requires 1 <= to <= |rows| && AllTargets(rows, corrs)
    ensures r.Success? ==> Grows(st.paths, r.value.paths)
    ensures r.Failure? ==> r.error.NoTail? || r.error.NoPath?
    decreases |rows| - to
  {
    if to == |rows| then Success(st)
    else
      var st1 :- StepFrame(st, rows, corrs[to - 1], to);
      var r := Frames(st1, rows, corrs, to + 1);
      if r.Success? then
        GrowsTrans(st.paths, st1.paths, r.value.paths);
        r
      else r
  }

  /**
   * The path building of the tool; there is no first frame to start from
   * when there are no clouds. Point `i` of the first frame starts path `i`,
   * and the paths only grow from there.
   */
  function Build(rows: seq<nat>, corrs: seq<seq<(nat, nat)>>): (r: Result<PathState, CorrError>)
    requires rows == [] || AllTargets(rows, corrs)
    ensures rows == [] ==> r == Failure(NoFrames)
    ensures rows != [] && r.Success? ==>
              |r.value.paths| >= rows[0] && forall i :: 0 <= i < rows[0] ==> [FrameIndex(0, i)] <= r.value.paths[i]
    ensures rows != [] && r.Failure? ==> r.error.NoTail? || r.error.NoPath?
  {
    if rows == [] then Failure(NoFrames) else Frames(Initial(rows[0]), rows, corrs, 1)
  }

  // ------------------------------------------------------------------
  // What the correspondence search guarantees

  /** Source points of the earlier frame's `fromCount`, in strictly ascending order (map keys), targets in range. */
  predicate Correspondence(entries: seq<(nat, nat)>, fromCount: nat, toCount: nat)
  {
    && Targets(entries, toCount)
    && (forall k :: 0 <= k < |entries| ==> entries[k].0 < fromCount)
    && (forall k1, k2 :: 0 <= k1 < k2 < |entries| ==> entries[k1].0 < entries[k2].0)
  }

  predicate WellFormed(rows: seq<nat>, corrs: seq<seq<(nat, nat)>>)
  {
    && |corrs| + 1 == |rows|
    && forall t :: 0 <= t < |corrs| ==> Correspondence(corrs[t], rows[t], rows[t + 1])
  }

  lemma WellFormedTargets(rows: seq<nat>, corrs: seq<seq<(nat, nat)>>)
    requires WellFormed(rows, corrs)
    ensures AllTargets(rows, corrs)
  {
    forall t | 0 <= t < |corrs|
      ensures Targets(corrs[t], rows[t + 1])
    {
      assert Correspondence(corrs[t], rows[t], rows[t + 1]);
    }
  }

  // ------------------------------------------------------------------
  // Invariants

  function Last(p: seq<FrameIndex>): FrameIndex
    requires p != []
  {
    p[|p| - 1]
  }

  /** A path steps one frame at a time. */
  predicate Consecutive(p: seq<FrameIndex>)
  {
    p != [] && forall j :: 0 <= j < |p| ==> p[j].frame == p[0].frame + j
  }

  /** A point of the clouds up to frame `last`. */
  predicate InRange(x: FrameIndex, rows: seq<nat>, last: nat)
  {
    x.frame <= last && x.frame < |rows| && x.idx < rows[x.frame]
  }

  /** Item `x` is the last item of the path it was put on. */
  ghost predicate TailAt(st: PathState, x: FrameIndex)
  {
    x in st.pathOf && st.pathOf[x] < |st.paths| && st.paths[st.pathOf[x]] != [] && Last(st.paths[st.pathOf[x]]) == x
  }

  /** Every path steps one frame at a time through points up to frame `last`. */
  ghost predicate Shaped(st: PathState, rows: seq<nat>, last: nat)
  {
    forall P :: 0 <= P < |st.paths| ==>
      Consecutive(st.paths[P]) && forall j :: 0 <= j < |st.paths[P]| ==> InRange(st.paths[P][j], rows, last)
  }

  /** Every item is recorded as put on the path it is on. */
  ghost predicate Indexed(st: PathState)
  {
    forall P, j :: 0 <= P < |st.paths| && 0 <= j < |st.paths[P]| ==> st.paths[P][j] in st.pathOf && st.pathOf[st.paths[P][j]] == P
  }

  /** Every recorded item is on the path it is recorded against. */
  ghost predicate Located(st: PathState)
  {
    forall x :: x in st.pathOf ==> st.pathOf[x] < |st.paths| && x in st.paths[st.pathOf[x]]
  }

  /** The items recorded in the middle of the step into frame `last + 1`: every earlier point, and the later points taken or below `below`. */
  ghost predicate Keyed(st: PathState, rows: seq<nat>, last: nat, consumed: seq<bool>, below: nat)
  {
    forall x :: x in st.pathOf <==>
      InRange(x, rows, last) || (x.frame == last + 1 && x.idx < |consumed| && (x.idx < below || consumed[x.idx]))
  }

  /** The points of frame `last` from `lo` on are the tails of their paths. */
  ghost predicate PendingTails(st: PathState, rows: seq<nat>, last: nat, lo: nat)
    requires last < |rows|
  {
    forall p :: lo <= p < rows[last] ==> TailAt(st, FrameIndex(last, p))
  }

  /** The points of frame `last + 1` already placed are the tails of their paths. */
  ghost predicate NewTails(st: PathState, last: nat, consumed: seq<bool>, below: nat)
  {
    forall i :: 0 <= i < |consumed| && (i < below || consumed[i]) ==> TailAt(st, FrameIndex(last + 1, i))
  }

  /** After the step into frame `last`: the recorded items are exactly the points so far, and frame `last` holds the tails. */
  ghost predicate Inv(st: PathState, rows: seq<nat>, last: nat)
  {
    && last < |rows|
    && Shaped(st, rows, last)
    && Indexed(st)
    && Located(st)
    && (forall x :: x in st.pathOf <==> InRange(x, rows, last))
    && PendingTails(st, rows, last, 0)
  }

  /** In the middle of the step into frame `last + 1`. */
  ghost predicate StepInv(st: PathState, rows: seq<nat>, last: nat, consumed: seq<bool>, below: nat)
  {
    && last + 1 < |rows|
    && |consumed| == rows[last + 1]
    && Shaped(st, rows, last + 1)
    && Indexed(st)
    && Located(st)
    && Keyed(st, rows, last, consumed, below)
    && NewTails(st, last, consumed, below)
  }

  /** Earlier paths stay as prefixes: paths only ever grow at their ends. */
  predicate Grows(a: seq<seq<FrameIndex>>, b: seq<seq<FrameIndex>>)
  {
    |a| <= |b| && forall P :: 0 <= P < |a| ==> a[P] <= b[P]
  }

  lemma GrowsTrans(a: seq<seq<FrameIndex>>, b: seq<seq<FrameIndex>>, c: seq<seq<FrameIndex>>)
    requires Grows(a, b) && Grows(b, c)
    ensures Grows(a, c)
  {
    forall P | 0 <= P < |a|
      ensures a[P] <= c[P]
    {
      assert a[P] <= b[P] && b[P] <= c[P];
    }
  }

  // ------------------------------------------------------------------
  // The first frame

  /** The first frame's paths satisfy the invariant. */
  lemma InitialInv(rows: seq<nat>)
    requires rows != []
    ensures Inv(Initial(rows[0]), rows, 0)
  {
    var st := Initial(rows[0]);
    forall x | x in st.pathOf
      ensures st.pathOf[x] < |st.paths| && x in st.paths[st.pathOf[x]]
    {
      assert st.paths[x.idx][0] == x;
    }
    forall p | 0 <= p < rows[0]
      ensures TailAt(st, FrameIndex(0, p))
    {
      assert st.paths[p] == [FrameIndex(0, p)];
    }
  }

  // ------------------------------------------------------------------
  // Linking

  /** Appending a new item leaves every other path's tail in place. */
  lemma TailKept(st: PathState, index: nat, to: FrameIndex, x: FrameIndex)
    requires index < |st.paths| && st.paths[index] != [] && Last(st.paths[index]) != x
    requires to !in st.pathOf
    requires TailAt(st, x)
    ensures TailAt(Extend(st, index, to), x)
  {
    var st1 := Extend(st, index, to);
    assert st1.pathOf[x] == st.pathOf[x];
    assert st.pathOf[x] != index;
    assert st1.paths[st.pathOf[x]] == st.paths[st.pathOf[x]];
  }

  /** Appending the next frame's point to a path ending in this frame keeps every path stepping one frame at a time. */
  lemma ExtendShaped(st: PathState, rows: seq<nat>, last: nat, index: nat, to: FrameIndex)
    requires Shaped(st, rows, last + 1)
    requires index < |st.paths| && st.paths[index] != [] && Last(st.paths[index]).frame == last
    requires to.frame == last + 1 && InRange(to, rows, last + 1)
    ensures Shaped(Extend(st, index, to), rows, last + 1)
  {
    var st1 := Extend(st, index, to);
    var p := st.paths[index];
    assert p[|p| - 1].frame == p[0].frame + |p| - 1;
    forall j | 0 <= j < |p| + 1
      ensures st1.paths[index][j].frame == st1.paths[index][0].frame + j
      ensures InRange(st1.paths[index][j], rows, last + 1)
    {
      if j < |p| {
        assert st1.paths[index][j] == p[j];
      }
    }
  }

  /** Appending a new item keeps every item recorded against its path. */
  lemma ExtendIndexed(st: PathState, index: nat, to: FrameIndex)
    requires Indexed(st) && index < |st.paths| && to !in st.pathOf
    ensures Indexed(Extend(st, index, to))
  {
  }

  /** Appending a new item keeps every recorded item on its path. */
  lemma ExtendLocated(st: PathState, index: nat, to: FrameIndex)
    requires Located(st) && index < |st.paths| && to !in st.pathOf
    ensures Located(Extend(st, index, to))
  {
    var st1 := Extend(st, index, to);
    forall x | x in st1.pathOf
      ensures st1.pathOf[x] < |st1.paths| && x in st1.paths[st1.pathOf[x]]
    {
      if x != to {
        var P := st.pathOf[x];
        assert x in st.paths[P];
        var j :| 0 <= j < |st.paths[P]| && st.paths[P][j] == x;
        assert st1.paths[P][j] == x;
      } else {
        assert st1.paths[index][|st.paths[index]|] == to;
      }
    }
  }

  /** Taking target `q` records it and nothing else. */
  lemma ExtendKeyed(st: PathState, rows: seq<nat>, last: nat, consumed: seq<bool>, index: nat, q: nat)
    requires Keyed(st, rows, last, consumed, 0) && index < |st.paths| && q < |consumed| && !consumed[q]
    ensures Keyed(Extend(st, index, FrameIndex(last + 1, q)), rows, last, consumed[q := true], 0)
  {
    var st1 := Extend(st, index, FrameIndex(last + 1, q));
    var c1 := consumed[q := true];
    forall x
      ensures x in st1.pathOf <==> InRange(x, rows, last) || (x.frame == last + 1 && x.idx < |c1| && c1[x.idx])
    {
    }
  }

  /** One correspondence from a pending point succeeds and keeps the step invariant. */
  lemma LinkOneKeeps(st: PathState, rows: seq<nat>, last: nat, consumed: seq<bool>, lo: nat, p: nat, q: nat)
    requires StepInv(st, rows, last, consumed, 0) && PendingTails(st, rows, last, lo)
    requires lo <= p < rows[last] && q < |consumed|
    ensures LinkOne(st, consumed, last, p, q).Success?
    ensures var (st1, c1) := LinkOne(st, consumed, last, p, q).value;
            StepInv(st1, rows, last, c1, 0) && PendingTails(st1, rows, last, p + 1) && Grows(st.paths, st1.paths)
  {
    if !consumed[q] {
      var key := FrameIndex(last, p);
      assert TailAt(st, key);
      var index := st.pathOf[key];
      var to := FrameIndex(last + 1, q);
      assert to !in st.pathOf;
      var st1 := Extend(st, index, to);
      var c1 := consumed[q := true];
      assert LinkOne(st, consumed, last, p, q).value == (st1, c1);
      ExtendShaped(st, rows, last, index, to);
      ExtendIndexed(st, index, to);
      ExtendLocated(st, index, to);
      ExtendKeyed(st, rows, last, consumed, index, q);
      forall p1 | p + 1 <= p1 < rows[last]
        ensures TailAt(st1, FrameIndex(last, p1))
      {
        TailKept(st, index, to, FrameIndex(last, p1));
      }
      forall i | 0 <= i < |c1| && c1[i]
        ensures TailAt(st1, FrameIndex(last + 1, i))
      {
        if i != q {
          TailKept(st, index, to, FrameIndex(last + 1, i));
        }
      }
      assert Grows(st.paths, st1.paths);
    }
  }

  /** The correspondences of one pair of frames link without error and keep the step invariant. */
  lemma {:induction false} LinkKeeps(st: PathState, rows: seq<nat>, last: nat, consumed: seq<bool>, lo: nat, entries: seq<(nat, nat)>)
    requires StepInv(st, rows, last, consumed, 0) && PendingTails(st, rows, last, lo)
    requires Targets(entries, |consumed|)
    requires forall k :: 0 <= k < |entries| ==> lo <= entries[k].0 < rows[last]
    requires forall k1, k2 :: 0 <= k1 < k2 < |entries| ==> entries[k1].0 < entries[k2].0
    ensures Link(st, consumed, last, entries).Success?
    ensures var (st1, c1) := Link(st, consumed, last, entries).value;
            StepInv(st1, rows, last, c1, 0) && Grows(st.paths, st1.paths)
    decreases |entries|
  {
    if entries != [] {
      var (p, q) := entries[0];
      LinkOneKeeps(st, rows, last, consumed, lo, p, q);
      var (st1, c1) := LinkOne(st, consumed, last, p, q).value;
      var rest := entries[1..];
      assert forall k :: 0 <= k < |rest| ==> rest[k] == entries[k + 1];
      LinkKeeps(st1, rows, last, c1, p + 1, rest);
      GrowsTrans(st.paths, st1.paths, Link(st1, c1, last, rest).value.0.paths);
    }
  }

  /** The path a correspondence extends is the one whose tail is the source point. */
  lemma ExtendsSourceTail(st: PathState, rows: seq<nat>, last: nat, consumed: seq<bool>, lo: nat, p: nat, q: nat)
    requires StepInv(st, rows, last, consumed, 0) && PendingTails(st, rows, last, lo)
    requires lo <= p < rows[last] && q < |consumed| && !consumed[q]
    ensures var index := st.pathOf[FrameIndex(last, p)];
            && index < |st.paths| && st.paths[index] != [] && Last(st.paths[index]) == FrameIndex(last, p)
            && LinkOne(st, consumed, last, p, q).value.0.paths == st.paths[index := st.paths[index] + [FrameIndex(last + 1, q)]]
  {
    assert TailAt(st, FrameIndex(last, p));
  }

  // ------------------------------------------------------------------
  // New paths

  /** Starting a path of one new item keeps the paths shaped, indexed and located. */
  lemma AddPathShape(st: PathState, rows: seq<nat>, last: nat, key: FrameIndex)
    requires Shaped(st, rows, last) && Indexed(st) && Located(st)
    requires key !in st.pathOf && InRange(key, rows, last)
    ensures Shaped(AddPath(st, key), rows, last) && Indexed(AddPath(st, key)) && Located(AddPath(st, key))
  {
    var st1 := AddPath(st, key);
    assert forall P :: 0 <= P < |st.paths| ==> st1.paths[P] == st.paths[P];
    forall x | x in st1.pathOf
      ensures st1.pathOf[x] < |st1.paths| && x in st1.paths[st1.pathOf[x]]
    {
      if x != key {
        assert st1.paths[st.pathOf[x]] == st.paths[st.pathOf[x]];
      }
    }
  }

  /** Starting a path leaves every tail in place. */
  lemma AddPathTail(st: PathState, key: FrameIndex, x: FrameIndex)
    requires key !in st.pathOf && TailAt(st, x)
    ensures TailAt(AddPath(st, key), x)
  {
    assert AddPath(st, key).paths[st.pathOf[x]] == st.paths[st.pathOf[x]];
  }

  /** Starting a path at an untaken point keeps the step invariant, with that point now placed. */
  lemma NewPathKeeps(st: PathState, rows: seq<nat>, last: nat, consumed: seq<bool>, q: nat)
    requires StepInv(st, rows, last, consumed, q) && q < |consumed| && !consumed[q]
    ensures StepInv(AddPath(st, FrameIndex(last + 1, q)), rows, last, consumed, q + 1)
  {
    var key := FrameIndex(last + 1, q);
    assert key !in st.pathOf;
    AddPathShape(st, rows, last + 1, key);
    NewPathKeyed(st, rows, last, consumed, q);
    NewPathTails(st, last, consumed, q);
  }

  /** The new path's point joins the recorded items, and nothing else does. */
  lemma NewPathKeyed(st: PathState, rows: seq<nat>, last: nat, consumed: seq<bool>, q: nat)
    requires Keyed(st, rows, last, consumed, q) && q < |consumed| && FrameIndex(last + 1, q) !in st.pathOf
    ensures Keyed(AddPath(st, FrameIndex(last + 1, q)), rows, last, consumed, q + 1)
  {
  }

  /** The new path's point is its tail, and the earlier tails stay tails. */
  lemma NewPathTails(st: PathState, last: nat, consumed: seq<bool>, q: nat)
    requires NewTails(st, last, consumed, q) && q < |consumed| && FrameIndex(last + 1, q) !in st.pathOf
    ensures NewTails(AddPath(st, FrameIndex(last + 1, q)), last, consumed, q + 1)
  {
    var key := FrameIndex(last + 1, q);
    forall i: nat | i < |consumed| && (i < q + 1 || consumed[i])
      ensures TailAt(AddPath(st, key), FrameIndex(last + 1, i))
    {
      if i != q {
        EarlierTailStays(st, key, last, consumed, q, i);
      }
    }
  }

  /** A tail recorded before a new path is added is still a tail after. */
  lemma EarlierTailStays(st: PathState, key: FrameIndex, last: nat, consumed: seq<bool>, below: nat, i: nat)
    requires NewTails(st, last, consumed, below) && key !in st.pathOf
    requires i < |consumed| && (i < below || consumed[i])
    ensures TailAt(AddPath(st, key), FrameIndex(last + 1, i))
  {
    AddPathTail(st, key, FrameIndex(last + 1, i));
  }

  /** With every later point placed, the step is complete: the invariant holds for the later frame. */
  lemma StepDone(st: PathState, rows: seq<nat>, last: nat, consumed: seq<bool>)
    requires StepInv(st, rows, last, consumed, |consumed|)
    ensures Inv(st, rows, last + 1)
  {
    forall x
      ensures x in st.pathOf <==> InRange(x, rows, last + 1)
    {
    }
  }

  /** Placing the untaken points completes the step: the invariant holds for the later frame. */
  lemma {:induction false} NewPathsKeeps(st: PathState, rows: seq<nat>, last: nat, consumed: seq<bool>, q: nat)
    requires StepInv(st, rows, last, consumed, q) && q <= |consumed|
    ensures Inv(NewPaths(st, consumed, last + 1, q), rows, last + 1)
    decreases |consumed| - q
  {
    if q == |consumed| {
      StepDone(st, rows, last, consumed);
    } else if consumed[q] {
      NewPathsKeeps(st, rows, last, consumed, q + 1);
    } else {
      NewPathKeeps(st, rows, last, consumed, q);
      NewPathsKeeps(AddPath(st, FrameIndex(last + 1, q)), rows, last, consumed, q + 1);
    }
  }

  /** The paths a step adds are single untaken points of the later frame, one for each, in point order. */
  lemma {:induction false} NewPathsStart(st: PathState, consumed: seq<bool>, to: nat, q: nat, i: nat)
    requires q <= |consumed|
    ensures var added := NewPaths(st, consumed, to, q).paths[|st.paths|..];
            && (forall P :: 0 <= P < |added| ==> exists i1 :: q <= i1 < |consumed| && !consumed[i1] && added[P] == [FrameIndex(to, i1)])
            && ([FrameIndex(to, i)] in added <==> q <= i < |consumed| && !consumed[i])
    decreases |consumed| - q
  {
    if q < |consumed| {
      NewPathsStart(st, consumed, to, q + 1, i);
      if !consumed[q] {
        var key := FrameIndex(to, q);
        var st1 := AddPath(st, key);
        NewPathsStart(st1, consumed, to, q + 1, i);
        var added1 := NewPaths(st1, consumed, to, q + 1).paths[|st1.paths|..];
        var added := NewPaths(st, consumed, to, q).paths[|st.paths|..];
        assert added == [[key]] + added1;
        forall P | 0 <= P < |added|
          ensures exists i1 :: q <= i1 < |consumed| && !consumed[i1] && added[P] == [FrameIndex(to, i1)]
        {
          if P == 0 {
            assert added[0] == [FrameIndex(to, q)];
          } else {
            assert added[P] == added1[P - 1];
          }
        }
        assert [FrameIndex(to, i)] in added <==> i == q || [FrameIndex(to, i)] in added1;
      } else {
        var added := NewPaths(st, consumed, to, q).paths[|st.paths|..];
        assert added == NewPaths(st, consumed, to, q + 1).paths[|st.paths|..];
        forall P | 0 <= P < |added|
          ensures exists i1 :: q <= i1 < |consumed| && !consumed[i1] && added[P] == [FrameIndex(to, i1)]
        {
          var i1 :| q + 1 <= i1 < |consumed| && !consumed[i1] && added[P] == [FrameIndex(to, i1)];
        }
      }
    }
  }

  // ------------------------------------------------------------------
  // Frames

  /** One step keeps the invariant and never fails on well-formed correspondences. */
  lemma StepKeeps(st: PathState, rows: seq<nat>, entries: seq<(nat, nat)>, to: nat)
    requires 1 <= to < |rows| && Inv(st, rows, to - 1)
    requires Correspondence(entries, rows[to - 1], rows[to])
    ensures StepFrame(st, rows, entries, to).Success?
    ensures Inv(StepFrame(st, rows, entries, to).value, rows, to) && Grows(st.paths, StepFrame(st, rows, entries, to).value.paths)
  {
    var last := to - 1;
    var consumed := seq(rows[to], i => false);
    forall x
      ensures x in st.pathOf <==> InRange(x, rows, last) || (x.frame == last + 1 && x.idx < |consumed| && (x.idx < 0 || consumed[x.idx]))
    {
    }
    assert StepInv(st, rows, last, consumed, 0);
    LinkKeeps(st, rows, last, consumed, 0, entries);
    var (st1, c1) := Link(st, consumed, last, entries).value;
    NewPathsKeeps(st1, rows, last, c1, 0);
  }

  /** The steps into frames `to` onwards are the step into frame `to` followed by the rest. */
  lemma FramesUnfold(st: PathState, rows: seq<nat>, corrs: seq<seq<(nat, nat)>>, to: nat)
    requires 1 <= to < |rows| && AllTargets(rows, corrs)
    requires StepFrame(st, rows, corrs[to - 1], to).Success?
    ensures Frames(st, rows, corrs, to) == Frames(StepFrame(st, rows, corrs[to - 1], to).value, rows, corrs, to + 1)
  {
  }

  /** All steps keep the invariant and never fail on well-formed correspondences. */
  lemma {:induction false} FramesKeep(st: PathState, rows: seq<nat>, corrs: seq<seq<(nat, nat)>>, to: nat)
    requires 1 <= to <= |rows| && WellFormed(rows, corrs) && AllTargets(rows, corrs) && Inv(st, rows, to - 1)
    ensures Frames(st, rows, corrs, to).Success?
    ensures Inv(Frames(st, rows, corrs, to).value, rows, |rows| - 1) && Grows(st.paths, Frames(st, rows, corrs, to).value.paths)
    decreases |rows| - to
  {
    if to < |rows| {
      assert Correspondence(corrs[to - 1], rows[to - 1], rows[to]);
      StepKeeps(st, rows, corrs[to - 1], to);
      var st1 := StepFrame(st, rows, corrs[to - 1], to).value;
      FramesUnfold(st, rows, corrs, to);
      FramesKeep(st1, rows, corrs, to + 1);
      GrowsTrans(st.paths, st1.paths, Frames(st1, rows, corrs, to + 1).value.paths);
    }
  }

  /** On well-formed correspondences the build never throws, and ends with the invariant for the last frame. */
  lemma BuildSucceeds(rows: seq<nat>, corrs: seq<seq<(nat, nat)>>)
    requires rows != [] && WellFormed(rows, corrs)
    ensures Build(rows, corrs).Success?
    ensures Inv(Build(rows, corrs).value, rows, |rows| - 1)
    ensures Grows(Initial(rows[0]).paths, Build(rows, corrs).value.paths)
  {
    WellFormedTargets(rows, corrs);
    InitialInv(rows);
    FramesKeep(Initial(rows[0]), rows, corrs, 1);
  }

  /** The paths built from well-formed correspondences. */
  function BuiltPaths(rows: seq<nat>, corrs: seq<seq<(nat, nat)>>): seq<seq<FrameIndex>>
    requires rows != [] && WellFormed(rows, corrs)
  {
    WellFormedTargets(rows, corrs);
    BuildSucceeds(rows, corrs);
    Build(rows, corrs).value.paths
  }

  /** Each point of the first frame starts the path of the same number. */
  lemma FirstFrameStarts(rows: seq<nat>, corrs: seq<seq<(nat, nat)>>, i: nat)
    requires rows != [] && WellFormed(rows, corrs) && i < rows[0]
    ensures var paths := BuiltPaths(rows, corrs);
            i < |paths| && paths[i] != [] && paths[i][0] == FrameIndex(0, i)
  {
    WellFormedTargets(rows, corrs);
    BuildSucceeds(rows, corrs);
    var paths := Build(rows, corrs).value.paths;
    assert Initial(rows[0]).paths[i] <= paths[i];
  }

  /** Every path steps one frame at a time through points of the clouds. */
  lemma PathsConsecutive(rows: seq<nat>, corrs: seq<seq<(nat, nat)>>, P: nat, j: nat)
    requires rows != [] && WellFormed(rows, corrs)
    requires P < |BuiltPaths(rows, corrs)|
    ensures var path := BuiltPaths(rows, corrs)[P];
            path != [] && (j < |path| ==> path[j].frame == path[0].frame + j && InRange(path[j], rows, |rows| - 1))
  {
    WellFormedTargets(rows, corrs);
    BuildSucceeds(rows, corrs);
  }

  /** Every point of every cloud lies on some path. */
  lemma EveryPointPlaced(rows: seq<nat>, corrs: seq<seq<(nat, nat)>>, x: FrameIndex)
    requires rows != [] && WellFormed(rows, corrs) && InRange(x, rows, |rows| - 1)
    ensures exists P :: 0 <= P < |BuiltPaths(rows, corrs)| && x in BuiltPaths(rows, corrs)[P]
  {
    WellFormedTargets(rows, corrs);
    BuildSucceeds(rows, corrs);
    PlacedOnPath(Build(rows, corrs).value, rows, |rows| - 1, x, BuiltPaths(rows, corrs));
  }

  /** Once the invariant holds, each point so far lies on the path it is recorded against. */
  lemma PlacedOnPath(st: PathState, rows: seq<nat>, last: nat, x: FrameIndex, paths: seq<seq<FrameIndex>>)
    requires Inv(st, rows, last) && InRange(x, rows, last) && paths == st.paths
    ensures exists P :: 0 <= P < |paths| && x in paths[P]
  {
    assert x in st.pathOf;
    var P := st.pathOf[x];
    assert P < |st.paths| && x in st.paths[P];
  }

  /** No point lies on two paths, nor twice on one: a target point joins at most one path. */
  lemma PointsUnique(rows: seq<nat>, corrs: seq<seq<(nat, nat)>>, P1: nat, j1: nat, P2: nat, j2: nat)
    requires rows != [] && WellFormed(rows, corrs)
    requires var paths := BuiltPaths(rows, corrs);
             P1 < |paths| && P2 < |paths| && j1 < |paths[P1]| && j2 < |paths[P2]|
    ensures var paths := BuiltPaths(rows, corrs);
            paths[P1][j1] == paths[P2][j2] ==> P1 == P2 && j1 == j2
  {
    WellFormedTargets(rows, corrs);
    BuildSucceeds(rows, corrs);
    var st := Build(rows, corrs).value;
    if st.paths[P1][j1] == st.paths[P2][j2] {
      assert st.pathOf[st.paths[P1][j1]] == P1;
      assert Consecutive(st.paths[P1]);
    }
  }

  // ------------------------------------------------------------------
  // Output

  /**
   * The paths written out: all but those of a single point, in order. A
   * path is written exactly when it has other than one point.
   */
  function Written(paths: seq<seq<FrameIndex>>): (r: seq<seq<FrameIndex>>)
    ensures forall p :: p in r <==> p in paths && |p| != 1
    ensures |r| <= |paths|
  {
    if paths == [] then []
    else
      assert forall p :: p in paths <==> p == paths[0] || p in paths[1..];
      (if |paths[0]| == 1 then [] else [paths[0]]) + Written(paths[1..])
  }

  /** A point as written: "(frame index)". */
  function ItemText(x: FrameIndex): (s: string)
    ensures |s| > 0 && ',' !in s
  {
    var f := NatToString(x.frame);
    var i := NatToString(x.idx);
    assert forall k :: 0 <= k < |f| ==> IsDigit(f[k]);
    assert forall k :: 0 <= k < |i| ==> IsDigit(i[k]);
    "(" + f + " " + i + ")"
  }

  /**
   * A path as written: its points separated by commas. A line splits at
   * its commas back into the points of the path, in order.
   */
  function PathLine(p: seq<FrameIndex>): (line: string)
    ensures p != [] ==> Split(line, ',') == seq(|p|, j requires 0 <= j < |p| => ItemText(p[j]))
  {
    var items := seq(|p|, j requires 0 <= j < |p| => ItemText(p[j]));
    if p != [] then SplitJoin(items, ','); Join(items, ',') else Join(items, ',')
  }

  /** The lines of the output file, one per written path. */
  function Output(paths: seq<seq<FrameIndex>>): (lines: seq<string>)
    ensures |lines| == |Written(paths)|
  {
    var w := Written(paths);
    seq(|w|, i requires 0 <= i < |w| => PathLine(w[i]))
  }
}
