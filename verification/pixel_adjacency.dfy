/**
 * Neighbourhood between pixels in frames, and between surfels: two
 * surfels are neighbours when, in some frame they share, their pixels
 * are adjacent. The surfel test walks both frame-data lists together,
 * relying on each being ordered by frame.
 */
module PixelAdjacency {
  import opened Surfel

  function Abs(x: int): nat
  {
    if x < 0 then -x else x
  }

  /**
   * `are_neighbours` on pixels: same frame, not the same pixel, and
   * adjacent in the 8-connected sense (no coordinate differs by more than
   * one) or the 4-connected sense (exactly one coordinate differs, by one).
   */
  function PixelsAreNeighbours(p1: PixelInFrame, p2: PixelInFrame, eightConnected: bool): (r: bool)
    ensures p1.frame != p2.frame ==> !r
    ensures p1.pixel == p2.pixel ==> !r
  {
    if p1.frame != p2.frame then false
    else
      var dx := p1.pixel.x as int - p2.pixel.x as int;
      var dy := p1.pixel.y as int - p2.pixel.y as int;
      if dx == 0 && dy == 0 then false
      else if eightConnected then Abs(dx) <= 1 && Abs(dy) <= 1
      else Abs(dx) + Abs(dy) == 1
  }

  /** The chessboard distance between two pixels. */
  function Chessboard(a: Pixel, b: Pixel): nat
  {
    var dx := Abs(a.x - b.x);
    var dy := Abs(a.y - b.y);
    if dx < dy then dy else dx
  }

  /** The city-block distance between two pixels. */
  function CityBlock(a: Pixel, b: Pixel): nat
  {
    Abs(a.x - b.x) + Abs(a.y - b.y)
  }

  /** Adjacency is distance one: chessboard distance when 8-connected, city-block when 4-connected. */
  lemma NeighboursAtDistanceOne(p1: PixelInFrame, p2: PixelInFrame, eightConnected: bool)
    ensures PixelsAreNeighbours(p1, p2, eightConnected) <==>
              p1.frame == p2.frame &&
              (if eightConnected then Chessboard(p1.pixel, p2.pixel) == 1 else CityBlock(p1.pixel, p2.pixel) == 1)
  {
    if p1.frame == p2.frame && p1.pixel != p2.pixel {
      assert p1.pixel.x != p2.pixel.x || p1.pixel.y != p2.pixel.y;
    }
  }

  /** Adjacency does not depend on the order of the pixels. */
  lemma PixelNeighboursSymmetric(p1: PixelInFrame, p2: PixelInFrame, eightConnected: bool)
    ensures PixelsAreNeighbours(p1, p2, eightConnected) == PixelsAreNeighbours(p2, p1, eightConnected)
  {
  }

  /** Every 4-connected neighbour is an 8-connected one. */
  lemma FourConnectedIsEightConnected(p1: PixelInFrame, p2: PixelInFrame)
    ensures PixelsAreNeighbours(p1, p2, false) ==> PixelsAreNeighbours(p1, p2, true)
  {
  }

  /**
   * The surfel overload of `are_neighbours`: walk both frame-data lists
   * in step. On a shared frame, adjacent pixels answer yes, otherwise
   * both lists advance; on different frames the list at the earlier
   * frame advances.
   */
  function SurfelWalk(a: seq<FrameData>, b: seq<FrameData>, eightConnected: bool): (r: bool)
    ensures r ==> exists i, j :: 0 <= i < |a| && 0 <= j < |b| && PixelsAreNeighbours(a[i].pif, b[j].pif, eightConnected)
    decreases |a| + |b|
  {
    if |a| == 0 || |b| == 0 then false
    else
      var p1 := a[0].pif;
      var p2 := b[0].pif;
      if p1.frame == p2.frame then
        if PixelsAreNeighbours(p1, p2, eightConnected) then true
        else
          var r := SurfelWalk(a[1..], b[1..], eightConnected);
          if r then
            var i, j :| 0 <= i < |a[1..]| && 0 <= j < |b[1..]| && PixelsAreNeighbours(a[1..][i].pif, b[1..][j].pif, eightConnected);
            assert a[i + 1] == a[1..][i] && b[j + 1] == b[1..][j];
            r
          else r
      else if p1.frame < p2.frame then
        var r := SurfelWalk(a[1..], b, eightConnected);
        if r then
          var i, j :| 0 <= i < |a[1..]| && 0 <= j < |b| && PixelsAreNeighbours(a[1..][i].pif, b[j].pif, eightConnected);
          assert a[i + 1] == a[1..][i];
          r
        else r
      else
        var r := SurfelWalk(a, b[1..], eightConnected);
        if r then
          var i, j :| 0 <= i < |a| && 0 <= j < |b[1..]| && PixelsAreNeighbours(a[i].pif, b[1..][j].pif, eightConnected);
          assert b[j + 1] == b[1..][j];
          r
        else r
  }

  function SurfelsAreNeighbours(s1: Surfel, s2: Surfel, eightConnected: bool): (r: bool)
    ensures r ==> exists i, j :: 0 <= i < |s1.frameData| && 0 <= j < |s2.frameData|
                                 && PixelsAreNeighbours(s1.frameData[i].pif, s2.frameData[j].pif, eightConnected)
  {
    SurfelWalk(s1.frameData, s2.frameData, eightConnected)
  }

  /** Frame data with frames strictly ascending: one record per frame, in frame order. */
  ghost predicate StrictlyByFrame(fds: seq<FrameData>)
  {
    forall i, j :: 0 <= i < j < |fds| ==> fds[i].pif.frame < fds[j].pif.frame
  }

  lemma StrictlyByFrameTail(fds: seq<FrameData>)
    requires |fds| > 0 && StrictlyByFrame(fds)
    ensures StrictlyByFrame(fds[1..])
  {
    assert forall i :: 0 <= i < |fds[1..]| ==> fds[1..][i] == fds[i + 1];
  }

  /**
   * With one record per frame in frame order, the walk misses nothing:
   * any adjacent pair of pixels in a shared frame is found.
   */
  lemma {:induction false} SurfelWalkComplete(a: seq<FrameData>, b: seq<FrameData>, eightConnected: bool, i: nat, j: nat)
    requires StrictlyByFrame(a) && StrictlyByFrame(b)
    requires i < |a| && j < |b| && PixelsAreNeighbours(a[i].pif, b[j].pif, eightConnected)
    ensures SurfelWalk(a, b, eightConnected)
    decreases |a| + |b|
  {
    var p1 := a[0].pif;
    var p2 := b[0].pif;
    var f := a[i].pif.frame;
    assert b[j].pif.frame == f;
    if p1.frame == p2.frame {
      if !PixelsAreNeighbours(p1, p2, eightConnected) {
        assert i != 0 || j != 0;
        assert 0 < i;
        assert 0 < j;
        StrictlyByFrameTail(a);
        StrictlyByFrameTail(b);
        assert a[1..][i - 1] == a[i] && b[1..][j - 1] == b[j];
        SurfelWalkComplete(a[1..], b[1..], eightConnected, i - 1, j - 1);
      }
    } else if p1.frame < p2.frame {
      assert 0 < i;
      StrictlyByFrameTail(a);
      assert a[1..][i - 1] == a[i];
      SurfelWalkComplete(a[1..], b, eightConnected, i - 1, j);
    } else {
      assert 0 < j;
      StrictlyByFrameTail(b);
      assert b[1..][j - 1] == b[j];
      SurfelWalkComplete(a, b[1..], eightConnected, i, j - 1);
    }
  }

  /** For surfels with one record per frame, in frame order, neighbourhood is exactly a shared adjacent pair. */
  lemma SurfelNeighboursExactly(s1: Surfel, s2: Surfel, eightConnected: bool)
    requires StrictlyByFrame(s1.frameData) && StrictlyByFrame(s2.frameData)
    ensures SurfelsAreNeighbours(s1, s2, eightConnected) <==>
              exists i, j :: 0 <= i < |s1.frameData| && 0 <= j < |s2.frameData|
                             && PixelsAreNeighbours(s1.frameData[i].pif, s2.frameData[j].pif, eightConnected)
  {
    if exists i, j :: 0 <= i < |s1.frameData| && 0 <= j < |s2.frameData|
                      && PixelsAreNeighbours(s1.frameData[i].pif, s2.frameData[j].pif, eightConnected) {
      var i, j :| 0 <= i < |s1.frameData| && 0 <= j < |s2.frameData|
                  && PixelsAreNeighbours(s1.frameData[i].pif, s2.frameData[j].pif, eightConnected);
      SurfelWalkComplete(s1.frameData, s2.frameData, eightConnected, i, j);
    }
  }

  /** For such surfels the test is symmetric. */
  lemma SurfelNeighboursSymmetric(s1: Surfel, s2: Surfel, eightConnected: bool)
    requires StrictlyByFrame(s1.frameData) && StrictlyByFrame(s2.frameData)
    ensures SurfelsAreNeighbours(s1, s2, eightConnected) == SurfelsAreNeighbours(s2, s1, eightConnected)
  {
    SurfelNeighboursExactly(s1, s2, eightConnected);
    SurfelNeighboursExactly(s2, s1, eightConnected);
    if SurfelsAreNeighbours(s1, s2, eightConnected) {
      var i, j :| 0 <= i < |s1.frameData| && 0 <= j < |s2.frameData|
                  && PixelsAreNeighbours(s1.frameData[i].pif, s2.frameData[j].pif, eightConnected);
      PixelNeighboursSymmetric(s1.frameData[i].pif, s2.frameData[j].pif, eightConnected);
    }
    if SurfelsAreNeighbours(s2, s1, eightConnected) {
      var j, i :| 0 <= j < |s2.frameData| && 0 <= i < |s1.frameData|
                  && PixelsAreNeighbours(s2.frameData[j].pif, s1.frameData[i].pif, eightConnected);
      PixelNeighboursSymmetric(s2.frameData[j].pif, s1.frameData[i].pif, eightConnected);
    }
  }
}
