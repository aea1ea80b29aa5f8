/**
 * Surfels: a surface element seen in several frames, with one frame-data
 * record per frame (the pixel it projects to plus geometry), and the
 * builder that assembles them, filling in a random id, tangent and
 * lattice offset and a default frame when the caller gave none.
 *
 * Geometry is carried as opaque real values: nothing here computes with
 * it. The random draws of the builder are parameters.
 */
module Surfel {
  import opened Wrappers
  import opened Text

  datatype Pixel = Pixel(x: nat, y: nat)

  datatype PixelInFrame = PixelInFrame(pixel: Pixel, frame: nat)

  datatype Vector2 = Vector2(u: real, v: real)

  datatype Vector3 = Vector3(x: real, y: real, z: real)

  datatype Matrix3 = Matrix3(r0: Vector3, r1: Vector3, r2: Vector3)

  const Identity := Matrix3(Vector3(1.0, 0.0, 0.0), Vector3(0.0, 1.0, 0.0), Vector3(0.0, 0.0, 1.0))

  /** Where a surfel sits in one frame: its pixel, depth, rotation from the Y axis, normal and position. */
  datatype FrameData = FrameData(pif: PixelInFrame, depth: real, transform: Matrix3, normal: Vector3, position: Vector3)

  datatype Surfel = Surfel(
    id: string,
    frameData: seq<FrameData>,
    frames: seq<nat>,
    tangent: Vector3,
    offset: Vector2,
    rosySmoothness: real,
    rosyCorrection: real,
    posySmoothness: real)

  /** The frames of a list of frame-data records, in the same order. */
  function FramesOf(fds: seq<FrameData>): (r: seq<nat>)
    ensures |r| == |fds|
    ensures forall i :: 0 <= i < |fds| ==> r[i] == fds[i].pif.frame
  {
    if |fds| == 0 then [] else [fds[0].pif.frame] + FramesOf(fds[1..])
  }

  /**
   * The constructor: copies the frame data, lists each record's frame in
   * the same order, and starts with RoSy smoothness 45*45 and no
   * corrections.
   */
  function NewSurfel(id: string, fds: seq<FrameData>, tangent: Vector3, offset: Vector2): (s: Surfel)
    ensures s.id == id && s.frameData == fds && s.tangent == tangent && s.offset == offset
    ensures |s.frames| == |fds|
    ensures forall i :: 0 <= i < |fds| ==> s.frames[i] == fds[i].pif.frame
    ensures s.rosySmoothness == 2025.0 && s.rosyCorrection == 0.0 && s.posySmoothness == 0.0
  {
    Surfel(id, fds, FramesOf(fds), tangent, offset, 45.0 * 45.0, 0.0, 0.0)
  }

  /** `is_in_frame`: some frame-data record is for frame `f`. */
  predicate InFrame(fds: seq<FrameData>, f: nat)
  {
    |fds| > 0 && (fds[0].pif.frame == f || InFrame(fds[1..], f))
  }

  function IsInFrame(s: Surfel, f: nat): (r: bool)
    ensures r <==> exists i :: 0 <= i < |s.frameData| && s.frameData[i].pif.frame == f
  {
    InFrameAt(s.frameData, f);
    InFrame(s.frameData, f)
  }

  lemma {:induction false} InFrameAt(fds: seq<FrameData>, f: nat)
    ensures InFrame(fds, f) <==> exists i :: 0 <= i < |fds| && fds[i].pif.frame == f
  {
    if |fds| > 0 {
      InFrameAt(fds[1..], f);
      assert forall i :: 1 <= i < |fds| ==> fds[i] == fds[1..][i - 1];
      if InFrame(fds[1..], f) {
        var i :| 0 <= i < |fds[1..]| && fds[1..][i].pif.frame == f;
        assert fds[i + 1].pif.frame == f;
      }
    }
  }

  /** A constructed surfel is in exactly the frames it lists. */
  lemma InFrameIffListed(id: string, fds: seq<FrameData>, tangent: Vector3, offset: Vector2, f: nat)
    ensures IsInFrame(NewSurfel(id, fds, tangent, offset), f) <==> f in NewSurfel(id, fds, tangent, offset).frames
  {
    var s := NewSurfel(id, fds, tangent, offset);
    if f in s.frames {
      var i :| 0 <= i < |s.frames| && s.frames[i] == f;
      assert s.frameData[i].pif.frame == f;
    }
  }

  /** The index of the first record for frame `f`, or `|fds|` when there is none. */
  function FirstForFrame(fds: seq<FrameData>, f: nat): (k: nat)
    ensures k <= |fds|
    ensures k < |fds| ==> fds[k].pif.frame == f
    ensures forall i :: 0 <= i < k ==> fds[i].pif.frame != f
  {
    if |fds| == 0 || fds[0].pif.frame == f then 0 else 1 + FirstForFrame(fds[1..], f)
  }

  function NotInFrameMessage(id: string, f: nat): string
  {
    "Surfel " + id + " not in frame " + NatToString(f)
  }

  /**
   * `frame_data_for_frame`: the first record for the frame; a surfel not
   * in the frame is an error naming both.
   */
  function FrameDataForFrame(s: Surfel, f: nat): (r: Result<FrameData, string>)
    ensures r.Failure? <==> !IsInFrame(s, f)
    ensures r.Failure? ==> r.error == NotInFrameMessage(s.id, f)
    ensures r.Success? ==> r.value.pif.frame == f
    ensures r.Success? ==> exists k :: 0 <= k < |s.frameData| && s.frameData[k] == r.value
                                       && forall i :: 0 <= i < k ==> s.frameData[i].pif.frame != f
  {
    var k := FirstForFrame(s.frameData, f);
    if k == |s.frameData| then Failure(NotInFrameMessage(s.id, f)) else Success(s.frameData[k])
  }

  // ------------------------------------------------------------------
  // The builder

  /**
   * A surfel builder: the values set so far (an unset value is `None`)
   * and the frames added, in call order.
   */
  datatype Builder = Builder(id: Option<string>, tangent: Option<Vector3>, offset: Option<Vector2>, frames: seq<FrameData>)

  function NewBuilder(): Builder
  {
    Builder(None, None, None, [])
  }

  /** `reset`: forgets every value set and every frame added. */
  function Reset(b: Builder): (r: Builder)
    ensures r.id.None? && r.tangent.None? && r.offset.None? && |r.frames| == 0
  {
    NewBuilder()
  }

  function WithId(b: Builder, id: string): (r: Builder)
    ensures r.id == Some(id) && r.tangent == b.tangent && r.offset == b.offset && r.frames == b.frames
  {
    b.(id := Some(id))
  }

  function WithTangent(b: Builder, t: Vector3): (r: Builder)
    ensures r.tangent == Some(t) && r.id == b.id && r.offset == b.offset && r.frames == b.frames
  {
    b.(tangent := Some(t))
  }

  function WithOffset(b: Builder, o: Vector2): (r: Builder)
    ensures r.offset == Some(o) && r.id == b.id && r.tangent == b.tangent && r.frames == b.frames
  {
    b.(offset := Some(o))
  }

  /** `with_frame`: appends one frame record after those already added. */
  function WithFrame(b: Builder, fd: FrameData): (r: Builder)
    ensures |r.frames| == |b.frames| + 1 && r.frames[..|b.frames|] == b.frames && r.frames[|b.frames|] == fd
    ensures r.id == b.id && r.tangent == b.tangent && r.offset == b.offset
  {
    b.(frames := b.frames + [fd])
  }

  const HexDigits := "0123456789abcdef"

  /** The value a lower-case hex digit stands for. */
  function HexValue(c: char): nat
  {
    if '0' <= c <= '9' then (c as int) - ('0' as int)
    else if 'a' <= c <= 'f' then (c as int) - ('a' as int) + 10
    else 16
  }

  /**
   * `generate_random_id`: sixteen draws from 0..15, each written as a
   * lower-case hex digit, in draw order.
   */
  function RandomId(draws: seq<nat>): (id: string)
    requires forall i :: 0 <= i < |draws| ==> draws[i] < 16
    ensures |id| == |draws|
    ensures forall i :: 0 <= i < |id| ==> id[i] in HexDigits && HexValue(id[i]) == draws[i]
  {
    if |draws| == 0 then [] else [HexDigits[draws[0]]] + RandomId(draws[1..])
  }

  /** `generate_default_frame`: pixel (0, 0) of frame 0, identity transform, normal along Y. */
  const DefaultFrame := FrameData(PixelInFrame(Pixel(0, 0), 0), 0.0, Identity, Vector3(0.0, 1.0, 0.0), Vector3(0.0, 0.0, 0.0))

  /**
   * What the random engine supplies when `build` needs it: sixteen hex
   * draws for the id, then a tangent and a lattice offset (the cosine,
   * sine and uniform draws behind them are not modelled).
   */
  datatype Draws = Draws(hex: seq<nat>, tangent: Vector3, offset: Vector2)

  predicate WellFormedDraws(d: Draws)
  {
    |d.hex| == 16 && forall i :: 0 <= i < 16 ==> d.hex[i] < 16
  }

  /**
   * `build`: the values set on the builder, random ones for those unset,
   * and the frames added (the default frame when none was).
   */
  function Build(b: Builder, d: Draws): (s: Surfel)
    requires WellFormedDraws(d)
    ensures b.id.Some? ==> s.id == b.id.value
    ensures b.id.None? ==> |s.id| == 16 && forall i :: 0 <= i < 16 ==> s.id[i] in HexDigits
    ensures s.tangent == (if b.tangent.Some? then b.tangent.value else d.tangent)
    ensures s.offset == (if b.offset.Some? then b.offset.value else d.offset)
    ensures |b.frames| > 0 ==> s.frameData == b.frames
    ensures |b.frames| == 0 ==> s.frameData == [DefaultFrame]
    ensures s.frames == FramesOf(s.frameData)
    ensures s.rosySmoothness == 2025.0 && s.rosyCorrection == 0.0 && s.posySmoothness == 0.0
  {
    var id := if b.id.Some? then b.id.value else RandomId(d.hex);
    var tangent := if b.tangent.Some? then b.tangent.value else d.tangent;
    var offset := if b.offset.Some? then b.offset.value else d.offset;
    var frames := if |b.frames| == 0 then [DefaultFrame] else b.frames;
    NewSurfel(id, frames, tangent, offset)
  }

  /** A surfel built without frames is in frame 0 and no other. */
  lemma BuildWithoutFrames(b: Builder, d: Draws, f: nat)
    requires WellFormedDraws(d) && |b.frames| == 0
    ensures IsInFrame(Build(b, d), f) <==> f == 0
    ensures Build(b, d).frames == [0]
  {
  }

  /** Frames added after a reset come out in call order, and nothing from before the reset survives. */
  lemma BuildAfterReset(b: Builder, d: Draws, fd1: FrameData, fd2: FrameData)
    requires WellFormedDraws(d)
    ensures Build(WithFrame(WithFrame(Reset(b), fd1), fd2), d).frames == [fd1.pif.frame, fd2.pif.frame]
    ensures Build(WithFrame(WithFrame(Reset(b), fd1), fd2), d).id == RandomId(d.hex)
  {
    var r := WithFrame(WithFrame(Reset(b), fd1), fd2);
    assert r.frames == [fd1, fd2];
  }

  /** The id a builder generates is the draws written in hex: reading it back gives the draws. */
  lemma RandomIdReadsBack(b: Builder, d: Draws)
    requires WellFormedDraws(d) && b.id.None?
    ensures forall i :: 0 <= i < 16 ==> HexValue(Build(b, d).id[i]) == d.hex[i]
  {
  }
}
