/**
 * The binary surfel-graph file. A save writes an optional flag header,
 * the surfel count and each surfel's record in order, and, when the edges
 * flag is set, the edge count and each edge's record. A load reads the
 * header back (taking a file that does not start with the marker to have
 * no flags), builds an undirected graph with one node per surfel record,
 * and takes its edges from the edge section when that is flagged and from
 * the surfels' neighbour lists otherwise, skipping links already present.
 *
 * Float fields are carried as their 32-bit patterns. The values of
 * `FLAG_SMOOTHNESS` and `FLAG_EDGES` are not defined in any file of this
 * model; they are taken to be the distinct bits 1 and 2.
 */
module SurfelIo {
  import opened Wrappers
  import opened FixedWidth
  import opened BinaryIo
  import opened Graph

  const FlagsMarker: U16 := 0xa9f1
  const FlagSmoothness: U16 := 1
  const FlagEdges: U16 := 2

  /** The bit pattern of the float 1.0, the weight of a generated edge. */
  const OneF: F32 := 0x3f80_0000

  const MaxSize: nat := 0x1_0000_0000_0000_0000
  const MaxCount: nat := 0x1_0000_0000

  /** A surfel id as the file holds it: its bytes, fewer than a `size_t` can count. */
  type Id = s: seq<Byte> | |s| < 0x1_0000_0000_0000_0000

  /** One frame's data: the pixel and frame, the depth, a 3x3 transform row by row, the normal and the position. */
  datatype FrameRecord = FrameRecord(x: U64, y: U64, frame: U64, depth: F32, transform: seq<F32>, normal: Vector3f, position: Vector3f)

  /** One surfel as the file lists it, with the ids of its neighbours. */
  datatype SurfelRecord = SurfelRecord(
    id: Id,
    frames: seq<FrameRecord>,
    neighbours: seq<Id>,
    tangent: Vector3f,
    offset: Vector2f,
    rosy: F32,
    posy: F32)

  /** An edge as saved: its ends, its weight, its one pair of rotation indices and its displacements. */
  datatype SavedEdge = SavedEdge(from: Id, to: Id, weight: F32, kIj: U16, kJi: U16, t: seq<(Vector2i, Vector2i)>)

  /** The data of a loaded edge: the last pair of rotation indices read, if any, and the displacements. */
  datatype EdgeInfo = EdgeInfo(weight: F32, k: Option<(U16, U16)>, t: seq<(Vector2i, Vector2i)>)

  datatype LoadError = ShortFile | UnknownId(id: Id) | GraphFailure(error: GraphError)

  type Loading<T> = Result<(T, seq<Byte>), LoadError>

  /** A stream read lifted into a load. */
  function Lift<T>(r: Read<T>): (l: Loading<T>)
    ensures l.Success? <==> r.Success?
    ensures l.Success? ==> l.value == r.value
  {
    match r
    case Success(v) => Success(v)
    case Failure(_) => Failure(ShortFile)
  }

  // ------------------------------------------------------------------
  // Flags

  /** The flags word of a save: the smoothness bit and the edges bit as asked. */
  function Flags(saveSmoothness: bool, saveEdges: bool): (f: U16)
    ensures HasFlag(f, FlagSmoothness) == saveSmoothness && HasFlag(f, FlagEdges) == saveEdges
  {
    FlagsBits(saveSmoothness, saveEdges);
    (if saveSmoothness then FlagSmoothness else 0) + (if saveEdges then FlagEdges else 0)
  }

  /** `(flags & FLAG) == FLAG`. */
  predicate HasFlag(flags: U16, flag: U16)
  {
    (flags as bv16) & (flag as bv16) == flag as bv16
  }

  lemma FlagsBits(s: bool, e: bool)
    ensures var f := (if s then FlagSmoothness else 0) + (if e then FlagEdges else 0);
            HasFlag(f, FlagSmoothness) == s && HasFlag(f, FlagEdges) == e
  {
    if s && e {
      assert (3 as bv16) & 1 == 1 && (3 as bv16) & 2 == 2;
    } else if s {
      assert (1 as bv16) & 1 == 1 && (1 as bv16) & 2 == 0;
    } else if e {
      assert (2 as bv16) & 1 == 0 && (2 as bv16) & 2 == 2;
    } else {
      assert (0 as bv16) & 1 == 0 && (0 as bv16) & 2 == 0;
    }
  }

  /**
   * The header as written: the marker and the flags, but only when
   * smoothness or edges are saved.
   */
  function HeaderAsWritten(saveSmoothness: bool, saveEdges: bool): (h: seq<Byte>)
    ensures |h| == if saveSmoothness || saveEdges then 4 else 0
  {
    if saveSmoothness || saveEdges then Header(saveSmoothness, saveEdges) else []
  }

  /** The header of a corrected save: the marker and the flags, always. */
  function Header(saveSmoothness: bool, saveEdges: bool): (h: seq<Byte>)
    ensures |h| == 4
  {
    WriteUnsignedShort(FlagsMarker) + WriteUnsignedShort(Flags(saveSmoothness, saveEdges))
  }

  /**
   * The loader's header read: after the marker come the flags; any other
   * first two bytes are put back and the flags are 0.
   */
  function ReadHeader(bs: seq<Byte>): (r: Loading<U16>)
    ensures r.Failure? <==> |bs| < 2 || (ReadUnsignedShort(bs).value.0 == FlagsMarker && |bs| < 4)
    ensures r.Success? && ReadUnsignedShort(bs).value.0 != FlagsMarker ==> r.value == (0, bs)
  {
    var (marker, rest) :- Lift(ReadUnsignedShort(bs));
    if marker == FlagsMarker then Lift(ReadUnsignedShort(rest))
    else Success((0, bs))
  }

  /** A corrected header reads back as the flags saved, with the smoothness and edge bits as asked. */
  lemma HeaderRoundTrip(saveSmoothness: bool, saveEdges: bool, rest: seq<Byte>)
    ensures ReadHeader(Header(saveSmoothness, saveEdges) + rest) == Success((Flags(saveSmoothness, saveEdges), rest))
  {
    var f := Flags(saveSmoothness, saveEdges);
    assert Header(saveSmoothness, saveEdges) + rest == WriteUnsignedShort(FlagsMarker) + (WriteUnsignedShort(f) + rest);
    UnsignedShortRoundTrip(FlagsMarker, WriteUnsignedShort(f) + rest);
    UnsignedShortRoundTrip(f, rest);
  }

  /**
   * As written, a file saved without flags starts with the surfel count,
   * and a count whose low 16 bits equal the marker (43505 surfels, say) is
   * taken for a header: the flags are read from the count's high bytes and
   * the count from the first surfel's bytes.
   */
  lemma MarkerAmbiguity(rest: seq<Byte>)
    requires |rest| >= 4
    ensures var file := HeaderAsWritten(false, false) + (WriteUnsignedInt(0xa9f1) + rest);
            ReadHeader(file) == Success((0, rest))
  {
    var file := HeaderAsWritten(false, false) + (WriteUnsignedInt(0xa9f1) + rest);
    Widths();
    assert WriteUnsignedInt(0xa9f1) == [0xf1, 0xa9, 0, 0];
    assert WriteUnsignedShort(0xa9f1) == [0xf1, 0xa9];
    assert WriteUnsignedShort(0) == [0, 0];
    assert file == WriteUnsignedShort(0xa9f1) + (WriteUnsignedShort(0) + rest);
    UnsignedShortRoundTrip(0xa9f1, WriteUnsignedShort(0) + rest);
    UnsignedShortRoundTrip(0, rest);
  }

  /** Where the as-written header is present, it is the corrected one. */
  lemma HeaderAsWrittenWhenFlagged(saveSmoothness: bool, saveEdges: bool)
    requires saveSmoothness || saveEdges
    ensures HeaderAsWritten(saveSmoothness, saveEdges) == Header(saveSmoothness, saveEdges)
  {
  }

  // ------------------------------------------------------------------
  // Lists of records

  /** Records written one after another in front of `rest`. */
  function PutAll<T>(xs: seq<T>, put: (T, seq<Byte>) -> seq<Byte>, rest: seq<Byte>): (r: seq<Byte>)
  {
    if |xs| == 0 then rest else put(xs[0], PutAll(xs[1..], put, rest))
  }

  /** `count` records read one after another. */
  function ReadAll<T>(bs: seq<Byte>, count: nat, read: seq<Byte> -> Loading<T>): (r: Loading<seq<T>>)
    ensures r.Success? ==> |r.value.0| == count
    decreases count
  {
    if count == 0 then Success(([], bs))
    else
      var (x, bs1) :- read(bs);
      var (xs, bs2) :- ReadAll(bs1, count - 1, read);
      Success(([x] + xs, bs2))
  }

  /** `f` applied to every record. */
  function MapAll<T, U>(xs: seq<T>, f: T -> U): (r: seq<U>)
    ensures |r| == |xs| && forall i :: 0 <= i < |xs| ==> r[i] == f(xs[i])
  {
    seq(|xs|, i requires 0 <= i < |xs| => f(xs[i]))
  }

  /**
   * When `read` reads back what `put` writes of every acceptable record
   * (as `f` of it), reading as many records as were written reads them all
   * back and leaves what followed.
   */
  lemma {:induction false} AllRoundTrip<T, U>(xs: seq<T>, put: (T, seq<Byte>) -> seq<Byte>, read: seq<Byte> -> Loading<U>,
                                              ok: T -> bool, f: T -> U, rest: seq<Byte>)
    requires forall x, r :: ok(x) ==> read(put(x, r)) == Success((f(x), r))
    requires forall i :: 0 <= i < |xs| ==> ok(xs[i])
    ensures ReadAll(PutAll(xs, put, rest), |xs|, read) == Success((MapAll(xs, f), rest))
  {
    if |xs| > 0 {
      var tail := PutAll(xs[1..], put, rest);
      AllRoundTrip(xs[1..], put, read, ok, f, rest);
      assert read(put(xs[0], tail)) == Success((f(xs[0]), tail));
      assert [f(xs[0])] + MapAll(xs[1..], f) == MapAll(xs, f);
    }
  }

  /** A list whose first record reads as `x`: `x` followed by the rest of the list. */
  lemma ReadAllFirst<T>(bs: seq<Byte>, count: nat, read: seq<Byte> -> Loading<T>, x: T, rest: seq<Byte>)
    requires read(bs) == Success((x, rest))
    ensures ReadAll(bs, count + 1, read).Success? <==> ReadAll(rest, count, read).Success?
    ensures ReadAll(rest, count, read).Success? ==>
              ReadAll(bs, count + 1, read).value == ([x] + ReadAll(rest, count, read).value.0, ReadAll(rest, count, read).value.1)
  {
  }

  /** Whatever `read` reads satisfies `p`, so every record of a list it reads does. */
  lemma {:induction false} ReadAllEach<T>(bs: seq<Byte>, count: nat, read: seq<Byte> -> Loading<T>, p: T -> bool)
    requires forall b :: read(b).Success? ==> p(read(b).value.0)
    ensures var r := ReadAll(bs, count, read);
            r.Success? ==> forall i :: 0 <= i < |r.value.0| ==> p(r.value.0[i])
    decreases count
  {
    if count > 0 && read(bs).Success? {
      ReadAllEach(read(bs).value.1, count - 1, read, p);
    }
  }

  /** The identity, for records that read back unchanged. */
  function Same<T>(x: T): T
  {
    x
  }

  lemma MapSame<T>(xs: seq<T>)
    ensures MapAll(xs, Same) == xs
  {
  }

  // ------------------------------------------------------------------
  // Records

  function PutFloat(v: F32, rest: seq<Byte>): (r: seq<Byte>)
    ensures |r| == 4 + |rest|
  {
    WriteFloat(v) + rest
  }

  function ReadOneFloat(bs: seq<Byte>): (r: Loading<F32>)
  {
    Lift(ReadFloat(bs))
  }

  lemma FloatsRoundTrip(fs: seq<F32>, rest: seq<Byte>)
    ensures ReadAll(PutAll(fs, PutFloat, rest), |fs|, ReadOneFloat) == Success((fs, rest))
  {
    forall x: F32, r: seq<Byte> | true ensures ReadOneFloat(PutFloat(x, r)) == Success((Same(x), r)) {
      FloatRoundTrip(x, r);
    }
    AllRoundTrip(fs, PutFloat, ReadOneFloat, _ => true, Same, rest);
    MapSame(fs);
  }

  /** A frame as saved: a transform of nine entries. */
  predicate FrameWritable(f: FrameRecord)
  {
    |f.transform| == 9
  }

  /** A frame's data: pixel x, pixel y, frame, depth, the transform, the normal, the position. */
  function PutFrame(f: FrameRecord, rest: seq<Byte>): (r: seq<Byte>)
  {
    WriteSizeT(f.x) + (WriteSizeT(f.y) + (WriteSizeT(f.frame) + (WriteFloat(f.depth) +
      PutAll(f.transform, PutFloat, WriteVector3f(f.normal) + (WriteVector3f(f.position) + rest)))))
  }

  function ReadFrame(bs: seq<Byte>): (r: Loading<FrameRecord>)
    ensures r.Success? ==> FrameWritable(r.value.0)
  {
    var (x, bs1) :- Lift(ReadSizeT(bs));
    var (y, bs2) :- Lift(ReadSizeT(bs1));
    var (frame, bs3) :- Lift(ReadSizeT(bs2));
    var (depth, bs4) :- Lift(ReadFloat(bs3));
    var (m, bs5) :- ReadAll(bs4, 9, ReadOneFloat);
    var (normal, bs6) :- Lift(ReadVector3f(bs5));
    var (position, bs7) :- Lift(ReadVector3f(bs6));
    Success((FrameRecord(x, y, frame, depth, m, normal, position), bs7))
  }

  lemma FrameRoundTrip(f: FrameRecord, rest: seq<Byte>)
    requires FrameWritable(f)
    ensures ReadFrame(PutFrame(f, rest)) == Success((f, rest))
  {
    var tail := WriteVector3f(f.normal) + (WriteVector3f(f.position) + rest);
    var afterDepth := PutAll(f.transform, PutFloat, tail);
    SizeTRoundTrip(f.x, WriteSizeT(f.y) + (WriteSizeT(f.frame) + (WriteFloat(f.depth) + afterDepth)));
    SizeTRoundTrip(f.y, WriteSizeT(f.frame) + (WriteFloat(f.depth) + afterDepth));
    SizeTRoundTrip(f.frame, WriteFloat(f.depth) + afterDepth);
    FloatRoundTrip(f.depth, afterDepth);
    FloatsRoundTrip(f.transform, tail);
    Vector3fRoundTrip(f.normal, WriteVector3f(f.position) + rest);
    Vector3fRoundTrip(f.position, rest);
  }

  function PutId(id: Id, rest: seq<Byte>): (r: seq<Byte>)
  {
    WriteString(id) + rest
  }

  function ReadId(bs: seq<Byte>): (r: Loading<Id>)
  {
    match ReadString(bs)
    case Success(p) =>
      var id: Id := p.0;
      Success((id, p.1))
    case Failure(_) => Failure(ShortFile)
  }

  lemma IdRoundTrip(id: Id, rest: seq<Byte>)
    ensures ReadId(PutId(id, rest)) == Success((id, rest))
  {
    StringRoundTrip(id, rest);
  }

  /** What a save writes faithfully: every count fits its `unsigned int` field, and every transform has nine entries. */
  predicate SurfelWritable(s: SurfelRecord)
  {
    && |s.frames| < MaxCount && (forall i :: 0 <= i < |s.frames| ==> FrameWritable(s.frames[i]))
    && |s.neighbours| < MaxCount
  }

  /**
   * One surfel: its id, its frames, its neighbours' ids, its tangent and
   * lattice offset, and its two smoothness values when those are saved.
   * The counts are converted to `unsigned int`, which keeps their low 32 bits.
   */
  function PutSurfel(s: SurfelRecord, smoothness: bool, rest: seq<Byte>): (r: seq<Byte>)
  {
    WriteString(s.id) + (WriteUnsignedInt(|s.frames| % MaxCount) + PutAll(s.frames, PutFrame,
      WriteUnsignedInt(|s.neighbours| % MaxCount) + PutAll(s.neighbours, PutId,
        WriteVector3f(s.tangent) + (WriteVector2f(s.offset) + PutSmoothness(s, smoothness, rest)))))
  }

  function PutSmoothness(s: SurfelRecord, smoothness: bool, rest: seq<Byte>): (r: seq<Byte>)
    ensures |r| == if smoothness then 8 + |rest| else |rest|
  {
    if smoothness then WriteFloat(s.rosy) + (WriteFloat(s.posy) + rest) else rest
  }

  /** Smoothness values are read when flagged; otherwise they are 0. */
  function ReadSmoothness(bs: seq<Byte>, smoothness: bool): (r: Loading<(F32, F32)>)
    ensures !smoothness ==> r == Success(((0, 0), bs))
  {
    if smoothness then
      var (rosy, bs1) :- Lift(ReadFloat(bs));
      var (posy, bs2) :- Lift(ReadFloat(bs1));
      Success(((rosy, posy), bs2))
    else Success(((0, 0), bs))
  }

  /**
   * One surfel as `load_surfel_graph_from_file` reads it and the builder
   * builds it: a surfel always has a frame, and its smoothness values are 0
   * unless the file carries them.
   */
  function ReadSurfel(bs: seq<Byte>, smoothness: bool): (r: Loading<SurfelRecord>)
    ensures r.Success? ==> |r.value.0.frames| > 0
    ensures r.Success? && !smoothness ==> r.value.0.rosy == 0 && r.value.0.posy == 0
  {
    var (id, bs1) :- ReadId(bs);
    var (numFrames, bs2) :- Lift(ReadUnsignedInt(bs1));
    var (frames, bs3) :- ReadAll(bs2, numFrames, ReadFrame);
    var (numNeighbours, bs4) :- Lift(ReadUnsignedInt(bs3));
    var (neighbours, bs5) :- ReadAll(bs4, numNeighbours, ReadId);
    var (tangent, bs6) :- Lift(ReadVector3f(bs5));
    var (offset, bs7) :- Lift(ReadVector2f(bs6));
    var (smooth, bs8) :- ReadSmoothness(bs7, smoothness);
    Success((SurfelRecord(id, BuiltFrames(frames), neighbours, tangent, offset, smooth.0, smooth.1), bs8))
  }

  /**
   * The frame the surfel builder gives a surfel built without frames:
   * pixel (0, 0) of frame 0, depth 0, the identity transform, normal
   * (0, 1, 0) and position (0, 0, 0).
   */
  const DefaultFrameRecord := FrameRecord(0, 0, 0, 0, [OneF, 0, 0, 0, OneF, 0, 0, 0, OneF], Vector3f(0, OneF, 0), Vector3f(0, 0, 0))

  /** The frames `build()` gives a loaded surfel: those read, or the default frame when none were. */
  function BuiltFrames(fs: seq<FrameRecord>): (r: seq<FrameRecord>)
    ensures |fs| > 0 ==> r == fs
    ensures |fs| == 0 ==> r == [DefaultFrameRecord]
  {
    if |fs| == 0 then [DefaultFrameRecord] else fs
  }

  /**
   * A surfel as loaded: what was saved, with the default frame when it
   * had no frames, and smoothness 0 when that was not saved.
   */
  function AsLoaded(s: SurfelRecord, smoothness: bool): (l: SurfelRecord)
    ensures l.(frames := s.frames, rosy := s.rosy, posy := s.posy) == s
    ensures |l.frames| > 0
    ensures |s.frames| > 0 ==> l.frames == s.frames
    ensures |s.frames| == 0 ==> l.frames == [DefaultFrameRecord]
    ensures smoothness ==> l.rosy == s.rosy && l.posy == s.posy
    ensures !smoothness ==> l.rosy == 0 && l.posy == 0
  {
    var framed := s.(frames := BuiltFrames(s.frames));
    if smoothness then framed else framed.(rosy := 0, posy := 0)
  }

  lemma SmoothnessRoundTrip(s: SurfelRecord, smoothness: bool, rest: seq<Byte>)
    ensures ReadSmoothness(PutSmoothness(s, smoothness, rest), smoothness) == Success(((AsLoaded(s, smoothness).rosy, AsLoaded(s, smoothness).posy), rest))
  {
    if smoothness {
      FloatRoundTrip(s.rosy, WriteFloat(s.posy) + rest);
      FloatRoundTrip(s.posy, rest);
    }
  }

  lemma FramesRoundTrip(fs: seq<FrameRecord>, rest: seq<Byte>)
    requires forall i :: 0 <= i < |fs| ==> FrameWritable(fs[i])
    ensures ReadAll(PutAll(fs, PutFrame, rest), |fs|, ReadFrame) == Success((fs, rest))
  {
    forall x, r | FrameWritable(x) ensures ReadFrame(PutFrame(x, r)) == Success((Same(x), r)) {
      FrameRoundTrip(x, r);
    }
    AllRoundTrip(fs, PutFrame, ReadFrame, FrameWritable, Same, rest);
    MapSame(fs);
  }

  lemma IdsRoundTrip(ids: seq<Id>, rest: seq<Byte>)
    ensures ReadAll(PutAll(ids, PutId, rest), |ids|, ReadId) == Success((ids, rest))
  {
    forall x: Id, r: seq<Byte> | true ensures ReadId(PutId(x, r)) == Success((Same(x), r)) {
      IdRoundTrip(x, r);
    }
    AllRoundTrip(ids, PutId, ReadId, _ => true, Same, rest);
    MapSame(ids);
  }

  lemma SurfelRoundTrip(s: SurfelRecord, smoothness: bool, rest: seq<Byte>)
    requires SurfelWritable(s)
    ensures ReadSurfel(PutSurfel(s, smoothness, rest), smoothness) == Success((AsLoaded(s, smoothness), rest))
  {
    var t5 := PutSmoothness(s, smoothness, rest);
    var t4 := WriteVector3f(s.tangent) + (WriteVector2f(s.offset) + t5);
    assert |s.neighbours| % MaxCount == |s.neighbours| && |s.frames| % MaxCount == |s.frames|;
    var t3 := WriteUnsignedInt(|s.neighbours|) + PutAll(s.neighbours, PutId, t4);
    var t2 := PutAll(s.frames, PutFrame, t3);
    StringRoundTrip(s.id, WriteUnsignedInt(|s.frames|) + t2);
    UnsignedIntRoundTrip(|s.frames|, t2);
    FramesRoundTrip(s.frames, t3);
    UnsignedIntRoundTrip(|s.neighbours|, PutAll(s.neighbours, PutId, t4));
    IdsRoundTrip(s.neighbours, t4);
    Vector3fRoundTrip(s.tangent, WriteVector2f(s.offset) + t5);
    Vector2fRoundTrip(s.offset, t5);
    SmoothnessRoundTrip(s, smoothness, rest);
  }

  /** The surfel section: every surfel, in order. */
  function PutSurfels(ss: seq<SurfelRecord>, smoothness: bool, rest: seq<Byte>): (r: seq<Byte>)
  {
    PutAll(ss, (s, r) => PutSurfel(s, smoothness, r), rest)
  }

  function ReadSurfels(bs: seq<Byte>, count: nat, smoothness: bool): (r: Loading<seq<SurfelRecord>>)
    ensures r.Success? ==> |r.value.0| == count
  {
    ReadAll(bs, count, b => ReadSurfel(b, smoothness))
  }

  /** Reading the surfel section back gives every surfel as loaded. */
  lemma SurfelsRoundTrip(ss: seq<SurfelRecord>, smoothness: bool, rest: seq<Byte>)
    requires forall i :: 0 <= i < |ss| ==> SurfelWritable(ss[i])
    ensures ReadSurfels(PutSurfels(ss, smoothness, rest), |ss|, smoothness) == Success((MapAll(ss, s => AsLoaded(s, smoothness)), rest))
  {
    var put := (s, r) => PutSurfel(s, smoothness, r);
    var read := b => ReadSurfel(b, smoothness);
    var f := s => AsLoaded(s, smoothness);
    forall x, r | SurfelWritable(x) ensures read(put(x, r)) == Success((f(x), r)) {
      SurfelRoundTrip(x, smoothness, r);
    }
    AllRoundTrip(ss, put, read, SurfelWritable, f, rest);
  }

  // ------------------------------------------------------------------
  // Edge records

  function PutT(t: (Vector2i, Vector2i), rest: seq<Byte>): (r: seq<Byte>)
  {
    WriteVector2i(t.0) + (WriteVector2i(t.1) + rest)
  }

  /** One displacement pair: `t_ij` then `t_ji`. */
  function ReadT(bs: seq<Byte>): (r: Loading<(Vector2i, Vector2i)>)
  {
    var (tij, bs1) :- Lift(ReadVector2i(bs));
    var (tji, bs2) :- Lift(ReadVector2i(bs1));
    Success(((tij, tji), bs2))
  }

  lemma TsRoundTrip(ts: seq<(Vector2i, Vector2i)>, rest: seq<Byte>)
    ensures ReadAll(PutAll(ts, PutT, rest), |ts|, ReadT) == Success((ts, rest))
  {
    forall x, r | true ensures ReadT(PutT(x, r)) == Success((Same(x), r)) {
      Vector2iRoundTrip(x.0, WriteVector2i(x.1) + r);
      Vector2iRoundTrip(x.1, r);
    }
    AllRoundTrip(ts, PutT, ReadT, _ => true, Same, rest);
    MapSame(ts);
  }

  /**
   * `kv` rotation index pairs, of which the edge keeps the last: legacy
   * files hold several, the current writer one.
   */
  function ReadKs(bs: seq<Byte>, count: nat): (r: Loading<Option<(U16, U16)>>)
    ensures r.Failure? <==> |bs| < 4 * count
    ensures r.Success? ==> r.value.1 == bs[4 * count..]
    ensures r.Success? ==> (r.value.0.Some? <==> count > 0)
    ensures r.Success? && count > 0 ==> r.value.0 == Some(KPairAt(bs, count - 1))
    decreases count
  {
    if count == 0 then Success((None, bs))
    else
      var (kij, bs1) :- Lift(ReadUnsignedShort(bs));
      var (kji, bs2) :- Lift(ReadUnsignedShort(bs1));
      assert bs1 == bs[2..] && bs2 == bs[4..];
      var (later, bs3) :- ReadKs(bs2, count - 1);
      assert count > 1 ==> bs2[4 * (count - 2)..] == bs[4 * (count - 1)..];
      Success((if later.Some? then later else Some((kij, kji)), bs3))
  }

  /** The `i`-th pair of rotation indices of a block of pairs: the unsigned shorts at bytes `4 i` and `4 i + 2`. */
  function KPairAt(bs: seq<Byte>, i: nat): (k: (U16, U16))
    requires |bs| >= 4 * i + 4
  {
    (ReadUnsignedShort(bs[4 * i..]).value.0, ReadUnsignedShort(bs[4 * i + 2..]).value.0)
  }

  /** One pair of rotation indices as the legacy writer put it: `k_ij` then `k_ji`. */
  function PutK(k: (U16, U16), rest: seq<Byte>): (r: seq<Byte>)
  {
    WriteUnsignedShort(k.0) + (WriteUnsignedShort(k.1) + rest)
  }

  /** Reading a block of pairs written one after another keeps the last of them, and none of an empty block. */
  lemma {:induction false} KsRoundTrip(ks: seq<(U16, U16)>, rest: seq<Byte>)
    ensures ReadKs(PutAll(ks, PutK, rest), |ks|) == Success((if |ks| == 0 then None else Some(ks[|ks| - 1]), rest))
  {
    if |ks| > 0 {
      var tail := PutAll(ks[1..], PutK, rest);
      UnsignedShortRoundTrip(ks[0].0, WriteUnsignedShort(ks[0].1) + tail);
      UnsignedShortRoundTrip(ks[0].1, tail);
      KsRoundTrip(ks[1..], rest);
    }
  }

  /** An edge's data as written: the weight, a count of 1 and one pair of rotation indices, then the displacements. */
  function PutEdgeData(e: SavedEdge, rest: seq<Byte>): (r: seq<Byte>)
  {
    WriteFloat(e.weight) + (WriteSizeT(1) + (WriteUnsignedShort(e.kIj) + (WriteUnsignedShort(e.kJi) +
      (WriteSizeT(|e.t| % MaxSize) + PutAll(e.t, PutT, rest)))))
  }

  function ReadEdgeData(bs: seq<Byte>): (r: Loading<EdgeInfo>)
  {
    var (weight, bs1) :- Lift(ReadFloat(bs));
    var (kv, bs2) :- Lift(ReadSizeT(bs1));
    var (k, bs3) :- ReadKs(bs2, kv);
    var (tv, bs4) :- Lift(ReadSizeT(bs3));
    var (t, bs5) :- ReadAll(bs4, tv, ReadT);
    Success((EdgeInfo(weight, k, t), bs5))
  }

  /** What a saved edge loads as. */
  function Loaded(e: SavedEdge): (d: EdgeInfo)
    ensures d.weight == e.weight && d.k == Some((e.kIj, e.kJi)) && d.t == e.t
  {
    EdgeInfo(e.weight, Some((e.kIj, e.kJi)), e.t)
  }

  predicate EdgeWritable(e: SavedEdge)
  {
    |e.t| < MaxSize
  }

  lemma EdgeDataRoundTrip(e: SavedEdge, rest: seq<Byte>)
    requires EdgeWritable(e)
    ensures ReadEdgeData(PutEdgeData(e, rest)) == Success((Loaded(e), rest))
  {
    assert |e.t| % MaxSize == |e.t|;
    var t := WriteSizeT(|e.t|) + PutAll(e.t, PutT, rest);
    FloatRoundTrip(e.weight, WriteSizeT(1) + (WriteUnsignedShort(e.kIj) + (WriteUnsignedShort(e.kJi) + t)));
    SizeTRoundTrip(1, WriteUnsignedShort(e.kIj) + (WriteUnsignedShort(e.kJi) + t));
    UnsignedShortRoundTrip(e.kIj, WriteUnsignedShort(e.kJi) + t);
    UnsignedShortRoundTrip(e.kJi, t);
    assert ReadKs(t, 0) == Success((None, t));
    SizeTRoundTrip(|e.t|, PutAll(e.t, PutT, rest));
    TsRoundTrip(e.t, rest);
  }

  /** An edge: the ids of its ends, then its data. */
  function PutEdge(e: SavedEdge, rest: seq<Byte>): (r: seq<Byte>)
  {
    WriteString(e.from) + (WriteString(e.to) + PutEdgeData(e, rest))
  }
}
