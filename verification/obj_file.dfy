/**
 * The OBJ reader: every line is dispatched on its first characters to the
 * vertex, normal or face handler, or ignored. A face line lists corners
 * "v", "v//vn" or "v/vt/vn" with 1-based indices, which are kept 0-based.
 * Adjacency is then derived either between vertices (consecutive corners of
 * a face) or between faces (faces that share an edge).
 *
 * Coordinates are floating point and are not parsed: a vertex or normal
 * line is kept as its text.
 */
module ObjFile {
  import opened Wrappers
  import opened Sequences
  import opened Text

  /** `size_t` is 64 bits wide; a negative `int` index converts modulo 2^64. */
  const SizeModulus: int := 0x1_0000_0000_0000_0000

  function ToSize(i: int): (r: nat)
    ensures r < SizeModulus
    ensures 0 <= i < SizeModulus ==> r == i
    ensures -SizeModulus <= i < 0 ==> r == i + SizeModulus
  {
    i % SizeModulus
  }

  /** One corner of a face: a vertex index and a normal index, both 0-based. */
  datatype Corner = Corner(vertex: nat, normal: nat)

  type Face = seq<Corner>

  datatype ObjError =
    | BadIndex(error: ParseError)
    | TermOutOfRange

  // ------------------------------------------------------------------
  // Corners and faces

  /** `stoi` of an index term, made 0-based. */
  function ParseIndex(term: string): (r: Result<int, ObjError>)
    ensures r.Success? <==> Stoi(term).Success?
    ensures r.Failure? ==> r.error == BadIndex(Stoi(term).error)
    ensures r.Success? ==> r.value + 1 == Stoi(term).value
  {
    match Stoi(term)
    case Success(n) => Success(n - 1)
    case Failure(e) => Failure(BadIndex(e))
  }

  /**
   * One corner token as written: with more than one term the normal index
   * is always read from the third term, which a "v/vt" token does not
   * have; that read is reported as `TermOutOfRange`. An empty token (two
   * spaces in a row) has no first term either.
   */
  function CornerAsWritten(token: string): (r: Result<Corner, ObjError>)
    ensures r == Failure(TermOutOfRange) <==>
              var t := Split(token, '/');
              |t| == 0 || (|t| == 2 && ParseIndex(t[0]).Success?)
  {
    var terms := Split(token, '/');
    if |terms| == 0 then Failure(TermOutOfRange)
    else
      var v :- ParseIndex(terms[0]);
      if |terms| > 1 then
        if |terms| <= 2 then Failure(TermOutOfRange)
        else
          var n :- ParseIndex(terms[2]);
          Success(Corner(ToSize(v), ToSize(n)))
      else Success(Corner(ToSize(v), ToSize(v)))
  }

  /**
   * One corner token, corrected: the normal index comes from the third
   * term when there is one; otherwise ("v" or "v/vt") the vertex index is
   * used for the normal too.
   */
  function CornerOf(token: string): (r: Result<Corner, ObjError>)
    ensures var t := Split(token, '/');
            r.Success? <==> |t| > 0 && ParseIndex(t[0]).Success? && (|t| > 2 ==> ParseIndex(t[2]).Success?)
    ensures r.Success? ==> var t := Split(token, '/');
            && r.value.vertex == ToSize(Stoi(t[0]).value - 1)
            && r.value.normal == (if |t| > 2 then ToSize(Stoi(t[2]).value - 1) else r.value.vertex)
  {
    var terms := Split(token, '/');
    if |terms| == 0 then Failure(TermOutOfRange)
    else
      var v :- ParseIndex(terms[0]);
      if |terms| > 2 then
        var n :- ParseIndex(terms[2]);
        Success(Corner(ToSize(v), ToSize(n)))
      else Success(Corner(ToSize(v), ToSize(v)))
  }

  /** Unless a token has exactly two terms, the as-written reading agrees with the corrected one. */
  lemma CornerAsWrittenAgrees(token: string)
    requires |Split(token, '/')| != 2
    ensures CornerAsWritten(token) == CornerOf(token)
  {
  }

  function CornerWith(token: string, asWritten: bool): Result<Corner, ObjError>
  {
    if asWritten then CornerAsWritten(token) else CornerOf(token)
  }

  /** The corners of the tokens, in order; the first token that fails decides the error. */
  function Corners(tokens: seq<string>, asWritten: bool): (r: Result<seq<Corner>, ObjError>)
    ensures r.Success? ==> |r.value| == |tokens|
  {
    if tokens == [] then Success([])
    else
      var c :- CornerWith(tokens[0], asWritten);
      var cs :- Corners(tokens[1..], asWritten);
      Success([c] + cs)
  }

  /** The tokens read as corners exactly when each does, and then each gives its own corner. */
  lemma {:induction false} CornersPointwise(tokens: seq<string>, asWritten: bool)
    ensures Corners(tokens, asWritten).Success? <==> forall i :: 0 <= i < |tokens| ==> CornerWith(tokens[i], asWritten).Success?
    ensures Corners(tokens, asWritten).Success? ==>
              forall i :: 0 <= i < |tokens| ==> Corners(tokens, asWritten).value[i] == CornerWith(tokens[i], asWritten).value
  {
    if tokens != [] {
      CornersPointwise(tokens[1..], asWritten);
      assert forall i :: 1 <= i < |tokens| ==> tokens[i] == tokens[1..][i - 1];
    }
  }

  /** A failed read reports the error of the first token that is not a corner. */
  lemma {:induction false} CornersFirstError(tokens: seq<string>, asWritten: bool)
    requires Corners(tokens, asWritten).Failure?
    ensures exists i :: 0 <= i < |tokens| && CornerWith(tokens[i], asWritten) == Failure(Corners(tokens, asWritten).error)
              && forall j :: 0 <= j < i ==> CornerWith(tokens[j], asWritten).Success?
  {
    var e := Corners(tokens, asWritten).error;
    if CornerWith(tokens[0], asWritten).Success? {
      var rest := tokens[1..];
      assert Corners(rest, asWritten) == Failure(e);
      CornersFirstError(rest, asWritten);
      var i :| 0 <= i < |rest| && CornerWith(rest[i], asWritten) == Failure(e)
                && forall j :: 0 <= j < i ==> CornerWith(rest[j], asWritten).Success?;
      forall j | 0 <= j < i + 1 ensures CornerWith(tokens[j], asWritten).Success? {
        if j > 0 {
          assert tokens[j] == rest[j - 1];
        }
      }
      assert tokens[i + 1] == rest[i];
    } else {
      assert CornerWith(tokens[0], asWritten) == Failure(Corners(tokens, asWritten).error);
    }
  }

  /**
   * `handle_face_line`: the corners of every token after the first. The line
   * reads exactly when each of those tokens reads as a corner, and then
   * corner i is the reading of token i + 1.
   */
  function ParseFace(line: string, asWritten: bool): (r: Result<Face, ObjError>)
    ensures r.Success? <==> forall i :: 1 <= i < |Split(line, ' ')| ==> CornerWith(Split(line, ' ')[i], asWritten).Success?
    ensures r.Success? && line != [] ==> |r.value| == |Split(line, ' ')| - 1
    ensures r.Success? ==> forall i :: 1 <= i < |Split(line, ' ')| ==> r.value[i - 1] == CornerWith(Split(line, ' ')[i], asWritten).value
  {
    var tokens := Split(line, ' ');
    if |tokens| == 0 then Success([])
    else
      var r := Corners(tokens[1..], asWritten);
      CornersAfterFirst(tokens, asWritten);
      assert tokens == Split(line, ' ');
      r
  }

  /** The corners of all tokens but the first, indexed from the second token. */
  lemma CornersAfterFirst(tokens: seq<string>, asWritten: bool)
    requires |tokens| > 0
    ensures Corners(tokens[1..], asWritten).Success? <==> forall i :: 1 <= i < |tokens| ==> CornerWith(tokens[i], asWritten).Success?
    ensures Corners(tokens[1..], asWritten).Success? ==>
              forall i :: 1 <= i < |tokens| ==> Corners(tokens[1..], asWritten).value[i - 1] == CornerWith(tokens[i], asWritten).value
  {
    CornersPointwise(tokens[1..], asWritten);
    assert forall i :: 1 <= i < |tokens| ==> tokens[i] == tokens[1..][i - 1];
  }

  // ------------------------------------------------------------------
  // Writing faces, the reference for reading them

  /** A corner written as "v//vn", 1-based. */
  function CornerToken(c: Corner): string
  {
    Join([NatToString(c.vertex + 1), "", NatToString(c.normal + 1)], '/')
  }

  function FaceLine(f: Face): string
  {
    Join(["f"] + seq(|f|, i requires 0 <= i < |f| => CornerToken(f[i])), ' ')
  }

  /** Indices a 32-bit `int` holds once made 1-based. */
  predicate WritableCorner(c: Corner)
  {
    c.vertex < IntMax && c.normal < IntMax
  }

  /** The digits of a number are a non-empty token free of both delimiters. */
  lemma DigitsToken(n: nat)
    ensures |NatToString(n)| > 0 && '/' !in NatToString(n) && ' ' !in NatToString(n)
  {
    var s := NatToString(n);
    assert forall i :: 0 <= i < |s| ==> IsDigit(s[i]);
  }

  /** A written corner splits into its vertex term, an empty texture term and its normal term. */
  lemma CornerTerms(c: Corner)
    ensures Split(CornerToken(c), '/') == [NatToString(c.vertex + 1), "", NatToString(c.normal + 1)]
    ensures |CornerToken(c)| > 0 && ' ' !in CornerToken(c)
  {
    var v := NatToString(c.vertex + 1);
    var n := NatToString(c.normal + 1);
    DigitsToken(c.vertex + 1);
    DigitsToken(c.normal + 1);
    var inner := Join(["", n], '/');
    assert [v, "", n] == [v] + ["", n];
    JoinCons(v, ["", n], '/');
    assert CornerToken(c) == v + ['/'] + inner;
    assert ["", n] == [""] + [n];
    JoinCons("", [n], '/');
    assert inner == [] + ['/'] + n;
    SplitCons(v, inner, '/');
    SplitCons([], n, '/');
    SplitWhole(n, '/');
    assert Split(inner, '/') == [""] + [n];
  }

  /** A written corner reads back as the corner, in either reading. */
  lemma CornerRoundTrip(c: Corner, asWritten: bool)
    requires WritableCorner(c)
    ensures CornerWith(CornerToken(c), asWritten) == Success(c)
  {
    var v := NatToString(c.vertex + 1);
    var n := NatToString(c.normal + 1);
    CornerTerms(c);
    StoiOfNatToString(c.vertex + 1);
    StoiOfNatToString(c.normal + 1);
    IndicesRead(CornerToken(c), c, v, n, asWritten);
  }

  /** A token whose terms are a corner's indices, 1-based, and an empty texture term reads as that corner. */
  lemma IndicesRead(token: string, c: Corner, v: string, n: string, asWritten: bool)
    requires WritableCorner(c)
    requires Split(token, '/') == [v, "", n]
    requires Stoi(v) == Success(c.vertex + 1) && Stoi(n) == Success(c.normal + 1)
    ensures CornerWith(token, asWritten) == Success(c)
  {
    assert ParseIndex(v) == Success(c.vertex);
    assert ParseIndex(n) == Success(c.normal);
    assert ToSize(c.vertex) == c.vertex && ToSize(c.normal) == c.normal;
    if asWritten {
      assert CornerAsWritten(token) == Success(c);
    } else {
      assert CornerOf(token) == Success(c);
    }
  }

  /** A written face reads back as the face, in either reading. */
  lemma FaceRoundTrip(f: Face, asWritten: bool)
    requires forall i :: 0 <= i < |f| ==> WritableCorner(f[i])
    ensures ParseFace(FaceLine(f), asWritten) == Success(f)
  {
    var tokens := seq(|f|, i requires 0 <= i < |f| => CornerToken(f[i]));
    forall i | 0 <= i < |tokens|
      ensures |tokens[i]| > 0 && ' ' !in tokens[i]
      ensures CornerWith(tokens[i], asWritten) == Success(f[i])
    {
      CornerTerms(f[i]);
      CornerRoundTrip(f[i], asWritten);
    }
    var fields := ["f"] + tokens;
    assert forall i :: 1 <= i < |fields| ==> fields[i] == tokens[i - 1];
    SplitJoin(fields, ' ');
    assert fields[1..] == tokens;
    CornersPointwise(tokens, asWritten);
    var r := Corners(tokens, asWritten);
    assert r.Success?;
    assert r.value == f;
  }

  /** The token "v/vt", with no normal term, is read past its end as written and read as "v" once corrected. */
  lemma VertexTextureReadsPastEnd(v: nat, t: nat)
    requires v < IntMax && t < IntMax
    ensures var token := Join([NatToString(v + 1), NatToString(t + 1)], '/');
            CornerAsWritten(token) == Failure(TermOutOfRange) && CornerOf(token) == Success(Corner(v, v))
  {
    DigitsToken(v + 1);
    DigitsToken(t + 1);
    SplitJoin([NatToString(v + 1), NatToString(t + 1)], '/');
    StoiOfNatToString(v + 1);
  }

  // ------------------------------------------------------------------
  // Dispatching lines

  datatype LineKind = VertexLine | NormalLine | FaceKind | OtherLine

  /**
   * The dispatch of `read_data` as written: a line starting with 'v' is a
   * normal when its second character is 'n' and a vertex otherwise, so
   * texture ("vt") and parameter ("vp") lines count as vertices. Reading
   * one past the end of a `std::string` yields '\0'.
   */
  function KindAsWritten(line: string): (r: LineKind)
    ensures r == NormalLine <==> |line| > 1 && line[0] == 'v' && line[1] == 'n'
    ensures r == VertexLine <==> |line| > 0 && line[0] == 'v' && !(|line| > 1 && line[1] == 'n')
    ensures r == FaceKind <==> |line| > 0 && line[0] == 'f'
  {
    if |line| > 0 && line[0] == 'v' then
      if |line| > 1 && line[1] == 'n' then NormalLine else VertexLine
    else if |line| > 0 && line[0] == 'f' then FaceKind
    else OtherLine
  }

  /** The dispatch, corrected: "vt" and "vp" lines are neither vertices nor normals. */
  function KindOf(line: string): (k: LineKind)
    ensures k == VertexLine <==> KindAsWritten(line) == VertexLine && !(|line| > 1 && line[1] in "tp")
    ensures k != VertexLine ==> k == KindAsWritten(line) || k == OtherLine
  {
    if |line| > 1 && line[0] == 'v' && line[1] in "tp" then OtherLine else KindAsWritten(line)
  }

  function KindWith(line: string, asWritten: bool): LineKind
  {
    if asWritten then KindAsWritten(line) else KindOf(line)
  }

  /** A texture-coordinate line is counted as a vertex as written, and ignored once corrected. */
  lemma TextureLineCountedAsVertex(rest: string)
    ensures KindAsWritten("vt" + rest) == VertexLine && KindOf("vt" + rest) == OtherLine
  {
    assert ("vt" + rest)[1] == 't';
  }

  // ------------------------------------------------------------------
  // Reading a file

  /** What `read_data` collects: the vertex and normal lines, the face index lists and the faces. */
  datatype ObjData = ObjData(
    vertices: seq<string>, normals: seq<string>,
    faceVertexIndices: seq<nat>, faceNormalIndices: seq<nat>,
    faces: seq<Face>)

  function VerticesOf(f: Face): seq<nat>
  {
    seq(|f|, i requires 0 <= i < |f| => f[i].vertex)
  }

  function NormalsOf(f: Face): seq<nat>
  {
    seq(|f|, i requires 0 <= i < |f| => f[i].normal)
  }

  /** The vertex indices of the corners of all faces, face after face. */
  function VertexIndices(faces: seq<Face>): seq<nat>
  {
    if faces == [] then [] else VertexIndices(faces[..|faces| - 1]) + VerticesOf(faces[|faces| - 1])
  }

  function NormalIndices(faces: seq<Face>): seq<nat>
  {
    if faces == [] then [] else NormalIndices(faces[..|faces| - 1]) + NormalsOf(faces[|faces| - 1])
  }

  /** Adding a face adds its corners' indices at the end. */
  lemma IndicesSnoc(faces: seq<Face>, f: Face)
    ensures VertexIndices(faces + [f]) == VertexIndices(faces) + VerticesOf(f)
    ensures NormalIndices(faces + [f]) == NormalIndices(faces) + NormalsOf(f)
  {
    assert (faces + [f])[..|faces|] == faces;
  }

  /** The lines of one kind, in file order. */
  function Select(lines: seq<string>, kind: LineKind, asWritten: bool): (r: seq<string>)
    ensures |r| <= |lines|
  {
    if lines == [] then []
    else Select(lines[..|lines| - 1], kind, asWritten)
         + (if KindWith(lines[|lines| - 1], asWritten) == kind then [lines[|lines| - 1]] else [])
  }

  /** One line handled: appended to the list its kind selects. */
  function HandleLine(d: ObjData, line: string, asWritten: bool): (r: Result<ObjData, ObjError>)
    ensures r.Success? <==> KindWith(line, asWritten) != FaceKind || ParseFace(line, asWritten).Success?
  {
    match KindWith(line, asWritten)
    case VertexLine => Success(d.(vertices := d.vertices + [line]))
    case NormalLine => Success(d.(normals := d.normals + [line]))
    case FaceKind =>
      var f :- ParseFace(line, asWritten);
      Success(d.(faceVertexIndices := d.faceVertexIndices + VerticesOf(f),
                 faceNormalIndices := d.faceNormalIndices + NormalsOf(f),
                 faces := d.faces + [f]))
    case OtherLine => Success(d)
  }

  /** `read_data` up to the generated normals: every line handled in order; a bad face line stops the read. */
  function ReadData(lines: seq<string>, asWritten: bool): (r: Result<ObjData, ObjError>)
    ensures r.Success? ==> r.value.faceVertexIndices == VertexIndices(r.value.faces)
    ensures r.Success? ==> r.value.faceNormalIndices == NormalIndices(r.value.faces)
  {
    if lines == [] then Success(ObjData([], [], [], [], []))
    else
      var d :- ReadData(lines[..|lines| - 1], asWritten);
      var r := HandleLine(d, lines[|lines| - 1], asWritten);
      if r.Success? && KindWith(lines[|lines| - 1], asWritten) == FaceKind then
        IndicesSnoc(d.faces, ParseFace(lines[|lines| - 1], asWritten).value);
        r
      else r
  }

  /** Every face line of the file is well formed. */
  predicate FacesParse(lines: seq<string>, asWritten: bool)
  {
    forall i :: 0 <= i < |lines| && KindWith(lines[i], asWritten) == FaceKind ==> ParseFace(lines[i], asWritten).Success?
  }

  /** Face lines are well formed in the whole file when they are in all but the last line and in the last. */
  lemma FacesParseSnoc(lines: seq<string>, asWritten: bool)
    requires lines != []
    ensures FacesParse(lines, asWritten) <==>
              FacesParse(lines[..|lines| - 1], asWritten)
              && (KindWith(lines[|lines| - 1], asWritten) == FaceKind ==> ParseFace(lines[|lines| - 1], asWritten).Success?)
  {
    var init := lines[..|lines| - 1];
    assert forall i :: 0 <= i < |init| ==> init[i] == lines[i];
  }

  /** The read succeeds exactly when every face line is well formed. */
  lemma {:induction false} ReadDataSucceeds(lines: seq<string>, asWritten: bool)
    ensures ReadData(lines, asWritten).Success? <==> FacesParse(lines, asWritten)
  {
    if lines != [] {
      ReadDataSucceeds(lines[..|lines| - 1], asWritten);
      FacesParseSnoc(lines, asWritten);
    }
  }

  /** A successful read holds the vertex and normal lines, in file order. */
  lemma {:induction false} ReadDataLines(lines: seq<string>, asWritten: bool)
    requires ReadData(lines, asWritten).Success?
    ensures ReadData(lines, asWritten).value.vertices == Select(lines, VertexLine, asWritten)
    ensures ReadData(lines, asWritten).value.normals == Select(lines, NormalLine, asWritten)
  {
    if lines != [] {
      ReadDataLines(lines[..|lines| - 1], asWritten);
    }
  }

  /** Appending a parsed face line and its face keeps each face the parse of its line. */
  lemma FacesParsedSnoc(fs: seq<string>, faces: seq<Face>, line: string, f: Face, asWritten: bool)
    requires |faces| == |fs| && forall k :: 0 <= k < |fs| ==> ParseFace(fs[k], asWritten) == Success(faces[k])
    requires ParseFace(line, asWritten) == Success(f)
    ensures forall k :: 0 <= k < |fs| + 1 ==> ParseFace((fs + [line])[k], asWritten) == Success((faces + [f])[k])
  {
  }

  /** A successful read holds one face per face line, each the parse of its line. */
  lemma {:induction false} ReadDataFaces(lines: seq<string>, asWritten: bool)
    requires ReadData(lines, asWritten).Success?
    ensures var d := ReadData(lines, asWritten).value;
            var fs := Select(lines, FaceKind, asWritten);
            |d.faces| == |fs| && forall k :: 0 <= k < |fs| ==> ParseFace(fs[k], asWritten) == Success(d.faces[k])
  {
    if lines != [] {
      var init := lines[..|lines| - 1];
      var last := lines[|lines| - 1];
      ReadDataFaces(init, asWritten);
      if KindWith(last, asWritten) == FaceKind {
        var f := ParseFace(last, asWritten).value;
        assert Select(lines, FaceKind, asWritten) == Select(init, FaceKind, asWritten) + [last];
        assert ReadData(lines, asWritten).value.faces == ReadData(init, asWritten).value.faces + [f];
        FacesParsedSnoc(Select(init, FaceKind, asWritten), ReadData(init, asWritten).value.faces, last, f, asWritten);
      }
    }
  }

  // ------------------------------------------------------------------
  // Which points and which adjacency

  /**
   * The number of normals after `read_data`: a file without normals gets
   * one generated per vertex.
   */
  function NormalCount(d: ObjData): nat
  {
    if |d.normals| == 0 then |d.vertices| else |d.normals|
  }

  datatype Adjacency = NoAdjacency | FromVertices | FromFaces

  /**
   * `parse_file`: with one normal per vertex (given or generated) the
   * vertices are the points and adjacency is between vertices; otherwise
   * `face_wise` chooses face centres and face adjacency.
   */
  function AdjacencyChoice(d: ObjData, withAdjacency: bool, faceWise: bool): (r: Adjacency)
    ensures !withAdjacency <==> r == NoAdjacency
  {
    if !withAdjacency then NoAdjacency
    else if NormalCount(d) == |d.vertices| then FromVertices
    else if faceWise then FromFaces
    else FromVertices
  }

  function PointCount(d: ObjData, faceWise: bool): nat
  {
    if NormalCount(d) != |d.vertices| && faceWise then |d.faces| else |d.vertices|
  }

  /**
   * Face-wise points and face adjacency are used only when the file gives
   * normals and their number differs from the number of vertices: for a
   * file without normals `face_wise` has no effect.
   */
  lemma FaceWiseNeedsNormals(d: ObjData, withAdjacency: bool)
    ensures AdjacencyChoice(d, withAdjacency, true) == FromFaces <==>
              withAdjacency && |d.normals| != 0 && |d.normals| != |d.vertices|
    ensures PointCount(d, true) == |d.faces| || PointCount(d, true) == |d.vertices|
    ensures |d.normals| == 0 ==>
              AdjacencyChoice(d, withAdjacency, true) == AdjacencyChoice(d, withAdjacency, false) && PointCount(d, true) == |d.vertices|
  {
  }

  // ------------------------------------------------------------------
  // Vertex adjacency

  /** The corner after corner `i`, going round the face. */
  function NextCorner(f: Face, i: nat): Corner
    requires i < |f|
  {
    f[(i + 1) % |f|]
  }

  /** The pairs of consecutive corners of a face, the last paired with the first. */
  function CyclePairs(f: Face): seq<(nat, nat)>
  {
    seq(|f|, i requires 0 <= i < |f| => (f[i].vertex, NextCorner(f, i).vertex))
  }

  /** `compute_adjacency_from_vertices`: the pairs of every face in turn, as inserted into the multimap. */
  function VertexAdjacency(faces: seq<Face>): seq<(nat, nat)>
  {
    if faces == [] then [] else VertexAdjacency(faces[..|faces| - 1]) + CyclePairs(faces[|faces| - 1])
  }

  /** There is one pair per corner. */
  lemma {:induction false} VertexAdjacencyCount(faces: seq<Face>)
    ensures |VertexAdjacency(faces)| == |VertexIndices(faces)|
  {
    if faces != [] {
      VertexAdjacencyCount(faces[..|faces| - 1]);
    }
  }

  /** Vertex `b` follows vertex `a` somewhere around face `f`. */
  predicate Follows(f: Face, a: nat, b: nat)
  {
    exists i :: 0 <= i < |f| && f[i].vertex == a && NextCorner(f, i).vertex == b
  }

  /** The pairs of one face are those of its consecutive corners. */
  lemma CyclePairsFollow(f: Face, a: nat, b: nat)
    ensures (a, b) in CyclePairs(f) <==> Follows(f, a, b)
  {
    if (a, b) in CyclePairs(f) {
      var i :| 0 <= i < |f| && CyclePairs(f)[i] == (a, b);
      assert f[i].vertex == a && NextCorner(f, i).vertex == b;
    }
    if Follows(f, a, b) {
      var i :| 0 <= i < |f| && f[i].vertex == a && NextCorner(f, i).vertex == b;
      assert CyclePairs(f)[i] == (a, b);
    }
  }

  /** A pair is present exactly when its second vertex follows its first around some face. */
  lemma {:induction false} VertexAdjacencyPairs(faces: seq<Face>, a: nat, b: nat)
    ensures (a, b) in VertexAdjacency(faces) <==> exists j :: 0 <= j < |faces| && Follows(faces[j], a, b)
  {
    if faces != [] {
      var init := faces[..|faces| - 1];
      var last := faces[|faces| - 1];
      assert VertexAdjacency(faces) == VertexAdjacency(init) + CyclePairs(last);
      VertexAdjacencyPairs(init, a, b);
      CyclePairsFollow(last, a, b);
      FollowsInitOrLast(faces, init, a, b);
    }
  }

  /** Some face has `b` after `a` exactly when some face before the last has, or the last one has. */
  lemma FollowsInitOrLast(faces: seq<Face>, init: seq<Face>, a: nat, b: nat)
    requires faces != [] && init == faces[..|faces| - 1]
    ensures (exists j :: 0 <= j < |faces| && Follows(faces[j], a, b))
        <==> (exists j :: 0 <= j < |init| && Follows(init[j], a, b)) || Follows(faces[|faces| - 1], a, b)
  {
    if exists j :: 0 <= j < |faces| && Follows(faces[j], a, b) {
      var j :| 0 <= j < |faces| && Follows(faces[j], a, b);
      if j < |init| {
        assert init[j] == faces[j];
      }
    }
    if exists j :: 0 <= j < |init| && Follows(init[j], a, b) {
      var j :| 0 <= j < |init| && Follows(init[j], a, b);
      assert init[j] == faces[j];
    }
  }

  /** Around one face the pairs link up into a closed walk: each pair ends where the next begins. */
  lemma FacePairsClose(f: Face, i: nat)
    requires i < |f|
    ensures CyclePairs(f)[i].1 == CyclePairs(f)[(i + 1) % |f|].0
  {
  }

  // ------------------------------------------------------------------
  // Face adjacency

  type EdgeKey = (nat, nat)

  /** The undirected edge between two vertices, smaller index first. */
  function KeyOf(a: nat, b: nat): (k: EdgeKey)
    ensures k.0 <= k.1
    ensures {k.0, k.1} == {a, b}
  {
    if a < b then (a, b) else (b, a)
  }

  /** The edges of a face, one per corner. */
  function FaceKeys(f: Face): seq<EdgeKey>
  {
    seq(|f|, i requires 0 <= i < |f| => KeyOf(f[i].vertex, NextCorner(f, i).vertex))
  }

  /** Every (edge, face index) pair met by the loops of `compute_adjacency_from_faces`, in order. */
  function Occurrences(faces: seq<Face>): (r: seq<(EdgeKey, nat)>)
    ensures forall i :: 0 <= i < |r| ==> r[i].1 < |faces|
  {
    if faces == [] then []
    else
      var keys := FaceKeys(faces[|faces| - 1]);
      Occurrences(faces[..|faces| - 1]) + FaceRun(keys, |faces| - 1)
  }

  /** `edge_to_faces[edge].push_back(face_idx)` for every occurrence in turn. */
  function EdgeToFaces(occ: seq<(EdgeKey, nat)>): map<EdgeKey, seq<nat>>
  {
    if occ == [] then map[]
    else
      var m := EdgeToFaces(occ[..|occ| - 1]);
      var (k, j) := occ[|occ| - 1];
      m[k := (if k in m then m[k] else []) + [j]]
  }

  /** The faces recorded against one edge, in order: the reference for the map. */
  function FacesOn(occ: seq<(EdgeKey, nat)>, k: EdgeKey): seq<nat>
  {
    if occ == [] then []
    else FacesOn(occ[..|occ| - 1], k) + (if occ[|occ| - 1].0 == k then [occ[|occ| - 1].1] else [])
  }

  /** The map holds, for each edge met, exactly the faces recorded against it. */
  lemma {:induction false} EdgeToFacesLists(occ: seq<(EdgeKey, nat)>, k: EdgeKey)
    ensures k in EdgeToFaces(occ) <==> FacesOn(occ, k) != []
    ensures k in EdgeToFaces(occ) ==> EdgeToFaces(occ)[k] == FacesOn(occ, k)
  {
    if occ != [] {
      EdgeToFacesLists(occ[..|occ| - 1], k);
    }
  }

  /**
   * `compute_adjacency_from_faces`: for each edge recorded against exactly
   * two faces, the pair of those faces. The multimap is modelled as the set
   * of its entries. Every pair lists the smaller face first, and the two
   * faces share an edge.
   */
  function FaceAdjacency(faces: seq<Face>): (r: set<(nat, nat)>)
    ensures forall p :: p in r ==> p.0 <= p.1 && exists k :: ShareEdge(faces, p.0, p.1, k)
  {
    var occ := Occurrences(faces);
    var m := EdgeToFaces(occ);
    var r := set k | k in m && |m[k]| == 2 :: (m[k][0], m[k][1]);
    assert forall p :: p in r ==> p.0 <= p.1 && exists k :: ShareEdge(faces, p.0, p.1, k) by {
      forall p | p in r
        ensures p.0 <= p.1 && exists k :: ShareEdge(faces, p.0, p.1, k)
      {
        var k :| k in m && |m[k]| == 2 && (m[k][0], m[k][1]) == p;
        EdgeToFacesLists(occ, k);
        FacesOnMember(faces, k, p.0);
        FacesOnMember(faces, k, p.1);
        FacesOnAscending(faces, k);
        assert m[k][0] in FacesOn(occ, k) && m[k][1] in FacesOn(occ, k);
        assert ShareEdge(faces, p.0, p.1, k);
      }
    }
    r
  }

  /** Faces `a` and `b` both have edge `k`. */
  predicate ShareEdge(faces: seq<Face>, a: nat, b: nat, k: EdgeKey)
  {
    a < |faces| && b < |faces| && k in FaceKeys(faces[a]) && k in FaceKeys(faces[b])
  }

  /** The assertion of `compute_adjacency_from_faces`: no edge is recorded more than twice. */
  ghost predicate AtMostTwoFacesPerEdge(faces: seq<Face>)
  {
    forall k :: |FacesOn(Occurrences(faces), k)| <= 2
  }

  /** The face indices of one face's occurrences, all equal to the face's own. */
  function FaceRun(keys: seq<EdgeKey>, n: nat): seq<(EdgeKey, nat)>
  {
    seq(|keys|, i requires 0 <= i < |keys| => (keys[i], n))
  }

  lemma OccurrencesSnoc(faces: seq<Face>)
    requires faces != []
    ensures Occurrences(faces) == Occurrences(faces[..|faces| - 1]) + FaceRun(FaceKeys(faces[|faces| - 1]), |faces| - 1)
  {
  }

  /** Face `j` is recorded against edge `k` exactly when it has that edge. */
  lemma {:induction false} FacesOnMember(faces: seq<Face>, k: EdgeKey, j: nat)
    ensures j in FacesOn(Occurrences(faces), k) <==> j < |faces| && k in FaceKeys(faces[j])
  {
    if faces != [] {
      var init := faces[..|faces| - 1];
      var n := |faces| - 1;
      var before := FacesOn(Occurrences(init), k);
      var run := FacesOn(FaceRun(FaceKeys(faces[n]), n), k);
      FacesOnMember(init, k, j);
      OccurrencesSnoc(faces);
      FacesOnAppend(Occurrences(init), FaceRun(FaceKeys(faces[n]), n), k);
      FacesOnOneFace(FaceKeys(faces[n]), n, k);
      assert FacesOn(Occurrences(faces), k) == before + run;
      if j < n {
        assert init[j] == faces[j];
        assert j !in run;
      } else if j == n {
        assert j !in before;
      } else {
        assert j !in before && j !in run;
      }
    }
  }

  predicate Ascending(s: seq<nat>)
  {
    forall x, y :: 0 <= x < y < |s| ==> s[x] <= s[y]
  }

  /** An ascending run followed by entries no smaller than any in it is ascending. */
  lemma AscendingAppend(s: seq<nat>, t: seq<nat>, n: nat)
    requires Ascending(s)
    requires forall x :: 0 <= x < |s| ==> s[x] <= n
    requires forall y :: 0 <= y < |t| ==> t[y] == n
    ensures Ascending(s + t)
  {
  }

  /** The faces recorded against an edge come in face order. */
  lemma {:induction false} FacesOnAscending(faces: seq<Face>, k: EdgeKey)
    ensures Ascending(FacesOn(Occurrences(faces), k))
  {
    if faces != [] {
      var init := faces[..|faces| - 1];
      var n := |faces| - 1;
      FacesOnAscending(init, k);
      OccurrencesSnoc(faces);
      var before := FacesOn(Occurrences(init), k);
      var run := FacesOn(FaceRun(FaceKeys(faces[n]), n), k);
      FacesOnAppend(Occurrences(init), FaceRun(FaceKeys(faces[n]), n), k);
      FacesOnOneFace(FaceKeys(faces[n]), n, k);
      forall x | 0 <= x < |before|
        ensures before[x] <= n
      {
        FacesOnMember(init, k, before[x]);
      }
      AscendingAppend(before, run, n);
    }
  }

  /** The records against an edge of two runs of occurrences, one after the other. */
  lemma {:induction false} FacesOnAppend(a: seq<(EdgeKey, nat)>, b: seq<(EdgeKey, nat)>, k: EdgeKey)
    ensures FacesOn(a + b, k) == FacesOn(a, k) + FacesOn(b, k)
    decreases |b|
  {
    if b == [] {
      assert a + b == a;
    } else {
      var b0 := b[..|b| - 1];
      FacesOnAppend(a, b0, k);
      assert (a + b)[..|a + b| - 1] == a + b0;
      assert (a + b)[|a + b| - 1] == b[|b| - 1];
    }
  }

  /** One face's occurrences record the face against an edge once per corner with that edge, or not at all. */
  lemma {:induction false} FacesOnOneFace(keys: seq<EdgeKey>, n: nat, k: EdgeKey)
    ensures forall y :: 0 <= y < |FacesOn(FaceRun(keys, n), k)| ==> FacesOn(FaceRun(keys, n), k)[y] == n
    ensures n in FacesOn(FaceRun(keys, n), k) <==> k in keys
  {
    if keys != [] {
      var init := keys[..|keys| - 1];
      FacesOnOneFace(init, n, k);
      assert FaceRun(keys, n)[..|keys| - 1] == FaceRun(init, n);
    }
  }

  /** Two faces on an edge recorded at most twice are the two faces recorded against it, in order. */
  lemma SharedRecorded(faces: seq<Face>, a: nat, b: nat, k: EdgeKey)
    requires |FacesOn(Occurrences(faces), k)| <= 2
    requires a < b && ShareEdge(faces, a, b, k)
    ensures FacesOn(Occurrences(faces), k) == [a, b]
  {
    FacesOnMember(faces, k, a);
    FacesOnMember(faces, k, b);
    FacesOnAscending(faces, k);
    AscendingPair(FacesOn(Occurrences(faces), k), a, b);
  }

  /** An ascending list of at most two entries holding two different values is those two, smaller first. */
  lemma AscendingPair(fs: seq<nat>, a: nat, b: nat)
    requires |fs| <= 2 && Ascending(fs) && a < b && a in fs && b in fs
    ensures fs == [a, b]
  {
    var x :| 0 <= x < |fs| && fs[x] == a;
    var y :| 0 <= y < |fs| && fs[y] == b;
  }

  /** Two faces sharing an edge recorded at most twice are adjacent, smaller face first. */
  lemma ShareAdjacent(faces: seq<Face>, a: nat, b: nat, k: EdgeKey)
    requires |FacesOn(Occurrences(faces), k)| <= 2
    requires a < b && ShareEdge(faces, a, b, k)
    ensures (a, b) in FaceAdjacency(faces)
  {
    var occ := Occurrences(faces);
    var m := EdgeToFaces(occ);
    SharedRecorded(faces, a, b, k);
    EdgeToFacesLists(occ, k);
    assert m[k] == [a, b];
  }

  /**
   * Where no edge is recorded more than twice, two different faces are
   * adjacent exactly when they share an edge, and the pair lists the
   * smaller face first.
   */
  lemma FaceAdjacencyShared(faces: seq<Face>, a: nat, b: nat)
    requires AtMostTwoFacesPerEdge(faces)
    requires a != b
    ensures (a, b) in FaceAdjacency(faces) <==> a < b && exists k :: ShareEdge(faces, a, b, k)
  {
    if (a, b) in FaceAdjacency(faces) {
    }
    if a < b && exists k :: ShareEdge(faces, a, b, k) {
      var k :| ShareEdge(faces, a, b, k);
      ShareAdjacent(faces, a, b, k);
    }
  }
}
