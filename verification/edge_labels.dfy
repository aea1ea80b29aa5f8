/**
 * The per-edge label store of a surfel graph edge: for every frame, the
 * best RoSy rotation indices `k_ij`/`k_ji` (stored as unsigned shorts)
 * and the PoSy lattice displacements `t_ij`/`t_ji`. Each store grows on
 * demand: reading or writing a frame beyond its end first extends it.
 * A rotation store grows with zeros, because `std::vector::resize`
 * value-initialises an `unsigned short`. A displacement store grows with
 * `Eigen::Vector2i` entries whose default constructor leaves them
 * uninitialised; the model takes their contents as a parameter `junk`
 * (the value slot `j` happens to hold) about which nothing is assumed.
 */
module SurfelGraphEdge {
  import opened FixedWidth

  /** An integer lattice displacement (`Eigen::Vector2i`). */
  datatype Offset = Offset(x: int, y: int)

  /** Which of the two orientations of the edge a label belongs to. */
  datatype Side = IJ | JI

  datatype EdgeLabels = EdgeLabels(weight: real, kIj: seq<U16>, kJi: seq<U16>, tIj: seq<Offset>, tJi: seq<Offset>)

  /** A new edge with the given weight and no labels yet. */
  function NewEdge(weight: real): (e: EdgeLabels)
    ensures e.weight == weight
    ensures |e.kIj| == |e.kJi| == |e.tIj| == |e.tJi| == 0
  {
    EdgeLabels(weight, [], [], [], [])
  }

  /** `s` extended so that index `i` exists, new slot `j` holding `fill(j)`. */
  function Grow<T>(s: seq<T>, i: nat, fill: nat -> T): (r: seq<T>)
    ensures |r| == if i < |s| then |s| else i + 1
    ensures forall j :: 0 <= j < |s| ==> r[j] == s[j]
    ensures forall j :: |s| <= j < |r| ==> r[j] == fill(j)
  {
    if i < |s| then s else s + seq(i + 1 - |s|, k requires 0 <= k => fill(|s| + k))
  }

  function KStore(e: EdgeLabels, side: Side): seq<U16>
  {
    match side
    case IJ => e.kIj
    case JI => e.kJi
  }

  function TStore(e: EdgeLabels, side: Side): seq<Offset>
  {
    match side
    case IJ => e.tIj
    case JI => e.tJi
  }

  function WithKStore(e: EdgeLabels, side: Side, s: seq<U16>): EdgeLabels
  {
    match side
    case IJ => e.(kIj := s)
    case JI => e.(kJi := s)
  }

  function WithTStore(e: EdgeLabels, side: Side, s: seq<Offset>): EdgeLabels
  {
    match side
    case IJ => e.(tIj := s)
    case JI => e.(tJi := s)
  }

  /** The label an index reads as: the stored one, or 0 beyond the end. */
  function KAt(e: EdgeLabels, side: Side, i: nat): U16
  {
    if i < |KStore(e, side)| then KStore(e, side)[i] else 0
  }

  function TAt(e: EdgeLabels, side: Side, i: nat): Offset
  {
    if i < |TStore(e, side)| then TStore(e, side)[i] else Offset(0, 0)
  }

  /**
   * `k_ij` / `k_ji`: the rotation index for a frame. A frame beyond the
   * store grows it with zeros and reads 0; nothing else changes.
   */
  function K(e: EdgeLabels, side: Side, i: U32): (r: (U16, EdgeLabels))
    ensures r.0 == (if i < |KStore(e, side)| then KStore(e, side)[i] else 0)
    ensures |KStore(r.1, side)| > i
    ensures forall j: nat :: KAt(r.1, side, j) == KAt(e, side, j)
    ensures KStore(r.1, Other(side)) == KStore(e, Other(side))
    ensures forall s :: TStore(r.1, s) == TStore(e, s)
    ensures r.1.weight == e.weight
  {
    var s := Grow(KStore(e, side), i, _ => 0);
    (s[i], WithKStore(e, side, s))
  }

  /**
   * `t_ij` / `t_ji`: the displacement for a frame. A frame beyond the
   * store grows it; only the slot read is set to (0, 0), and the slots
   * grown below it keep whatever the resize left there (`junk`).
   */
  function T(e: EdgeLabels, side: Side, i: U32, junk: nat -> Offset): (r: (Offset, EdgeLabels))
    ensures r.0 == (if i < |TStore(e, side)| then TStore(e, side)[i] else Offset(0, 0))
    ensures |TStore(r.1, side)| == if i < |TStore(e, side)| then |TStore(e, side)| else i + 1
    ensures TStore(r.1, side)[i] == r.0
    ensures forall j :: 0 <= j < |TStore(e, side)| ==> TStore(r.1, side)[j] == TStore(e, side)[j]
    ensures forall j :: |TStore(e, side)| <= j < i ==> TStore(r.1, side)[j] == junk(j)
    ensures TStore(r.1, Other(side)) == TStore(e, Other(side))
    ensures forall s :: KStore(r.1, s) == KStore(e, s)
    ensures r.1.weight == e.weight
  {
    if i < |TStore(e, side)| then (TStore(e, side)[i], e)
    else
      var s := Grow(TStore(e, side), i, junk)[i := Offset(0, 0)];
      (s[i], WithTStore(e, side, s))
  }

  function Other(side: Side): Side
  {
    match side
    case IJ => JI
    case JI => IJ
  }

  /**
   * `set_k_ij` / `set_k_ji`: stores the value, narrowed from
   * `unsigned int` to `unsigned short`, at the frame, growing the store
   * if needed.
   */
  function SetK(e: EdgeLabels, side: Side, i: U32, v: U32): (r: EdgeLabels)
    ensures KAt(r, side, i) == v % 0x1_0000
    ensures forall j: nat :: j != i ==> KAt(r, side, j) == KAt(e, side, j)
    ensures |KStore(r, side)| == if i < |KStore(e, side)| then |KStore(e, side)| else i + 1
    ensures KStore(r, Other(side)) == KStore(e, Other(side))
    ensures forall s :: TStore(r, s) == TStore(e, s)
    ensures r.weight == e.weight
  {
    var s := Grow(KStore(e, side), i, _ => 0);
    WithKStore(e, side, s[i := v % 0x1_0000])
  }

  /**
   * `set_t_ij` / `set_t_ji`: stores the displacement at the frame; slots
   * grown below it keep whatever the resize left there (`junk`).
   */
  function SetT(e: EdgeLabels, side: Side, i: U32, x: int, y: int, junk: nat -> Offset): (r: EdgeLabels)
    ensures |TStore(r, side)| == if i < |TStore(e, side)| then |TStore(e, side)| else i + 1
    ensures TStore(r, side)[i] == Offset(x, y)
    ensures forall j :: 0 <= j < |TStore(e, side)| && j != i ==> TStore(r, side)[j] == TStore(e, side)[j]
    ensures forall j :: |TStore(e, side)| <= j < i ==> TStore(r, side)[j] == junk(j)
    ensures TStore(r, Other(side)) == TStore(e, Other(side))
    ensures forall s :: KStore(r, s) == KStore(e, s)
    ensures r.weight == e.weight
  {
    var s := Grow(TStore(e, side), i, junk);
    WithTStore(e, side, s[i := Offset(x, y)])
  }

  /**
   * `k_values`: the number of frames with rotation labels, read off the
   * ij store. The source asserts that both stores have the same length;
   * without the assertion (a release build) the ij length is returned
   * whatever the ji store holds.
   */
  function KValues(e: EdgeLabels): (n: nat)
    ensures forall i: nat :: i >= n ==> KAt(e, IJ, i) == 0
    ensures forall i: U32 :: i < n ==> K(e, IJ, i).1 == e
    ensures |e.kIj| == |e.kJi| ==> forall i: nat :: i >= n ==> KAt(e, JI, i) == 0
  {
    |e.kIj|
  }

  /** `t_values`: the number of frames with displacements, read off the ij store as `k_values` does. */
  function TValues(e: EdgeLabels): (n: nat)
    ensures forall i: nat :: i >= n ==> TAt(e, IJ, i) == Offset(0, 0)
    ensures forall i: U32, junk :: i < n ==> T(e, IJ, i, junk).1 == e
    ensures |e.tIj| == |e.tJi| ==> forall i: nat :: i >= n ==> TAt(e, JI, i) == Offset(0, 0)
  {
    |e.tIj|
  }

  /** A lone `k_ij(5)` on a new edge makes `k_values` 6 although the ji store is still empty. */
  lemma LoneReadCounts(w: real, junk: nat -> Offset)
    ensures KValues(K(NewEdge(w), IJ, 5).1) == 6 && |K(NewEdge(w), IJ, 5).1.kJi| == 0
    ensures TValues(T(NewEdge(w), IJ, 5, junk).1) == 6 && |T(NewEdge(w), IJ, 5, junk).1.tJi| == 0
  {
  }

  /** Writing a rotation index and reading it back gives the stored short, whatever was there before. */
  lemma SetThenGetK(e: EdgeLabels, side: Side, i: U32, j: U32, v: U32)
    ensures K(SetK(e, side, i, v), side, j).0 == if j == i then v % 0x1_0000 else K(e, side, j).0
  {
    var r := SetK(e, side, i, v);
    assert K(r, side, j).0 == KAt(r, side, j);
    assert K(e, side, j).0 == KAt(e, side, j);
  }

  /**
   * Writing a displacement and reading it back: the written frame gives
   * the value, a frame already stored or beyond the written one gives
   * what it gave before, and a frame the write grew the store over gives
   * whatever the resize left there.
   */
  lemma SetThenGetT(e: EdgeLabels, side: Side, i: U32, j: U32, x: int, y: int, junk: nat -> Offset, junk2: nat -> Offset)
    ensures T(SetT(e, side, i, x, y, junk), side, j, junk2).0 ==
              if j == i then Offset(x, y)
              else if j < |TStore(e, side)| || j > i then T(e, side, j, junk2).0
              else junk(j)
  {
  }

  /**
   * A rotation read never changes what a later read returns: its growth
   * fills zeros. A displacement read does, for the frames its growth
   * passed over: they read as whatever the resize left there, not as
   * (0, 0) as they would have before.
   */
  lemma ReadsCommute(e: EdgeLabels, side: Side, i: U32, j: U32, junk: nat -> Offset, junk2: nat -> Offset)
    ensures K(K(e, side, i).1, side, j).0 == K(e, side, j).0
    ensures T(T(e, side, i, junk).1, side, j, junk2).0 ==
              if |TStore(e, side)| <= j < i then junk(j) else T(e, side, j, junk2).0
  {
    var a := K(e, side, i).1;
    assert K(a, side, j).0 == KAt(a, side, j);
    assert K(e, side, j).0 == KAt(e, side, j);
  }

  /** A short-sized value survives the narrowing unchanged; 65536 wraps to 0. */
  lemma NarrowingKeepsShorts(e: EdgeLabels, side: Side, i: U32, v: U16)
    ensures K(SetK(e, side, i, v), side, i).0 == v
    ensures K(SetK(e, side, i, 0x1_0000), side, i).0 == 0
  {
    SetThenGetK(e, side, i, i, v);
    SetThenGetK(e, side, i, i, 0x1_0000);
  }
}
