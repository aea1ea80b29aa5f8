/**
 * The header of a PLY file: a "ply" line, a format line, then element
 * lines each followed by its property lines, up to "end_header". Empty
 * lines and lines starting with "comment" are skipped wherever a line is
 * read. Only "vertex" and "face" elements are accepted.
 *
 * The input is the sequence of lines the stream yields. Putting a line
 * back (`tellg`/`seekg`) is modelled by returning the lines from before
 * the read. At the end of the input a read yields an empty line, which no
 * step accepts, so every header without "end_header" fails.
 */
module PlyFile {
  import opened Wrappers
  import opened Sequences
  import opened Text

  const ValidPropertyTypes: seq<string> := ["char", "uchar", "short", "ushort", "int", "uint", "float", "double"]
  const ValidListPropertyTypes: seq<string> := ["char", "uchar", "short", "ushort", "int", "uint"]

  datatype PlyProperty = PlyProperty(name: string, propertyType: string, isList: bool, listType: string)

  datatype PlyHeader = PlyHeader(
    isAscii: bool, isBigEndian: bool, version: int,
    numVertices: int, numFaces: int,
    vertexProperties: seq<PlyProperty>, faceProperties: seq<PlyProperty>)

  datatype PlyError =
    | ExpectedPly
    | ExpectedFormat
    | InvalidFormatLine
    | InvalidVersion
    | InvalidFormat
    | InvalidPropertyLine
    | InvalidListType
    | InvalidPropertyType
    | InvalidElementLine
    | UnknownElementType
    | BadCount(error: ParseError)
    | UnexpectedLine
    | UnknownListPropertyType
    | TokenOutOfRange

  /** The value-initialised header: no format, no elements. */
  const Blank: PlyHeader := PlyHeader(false, false, 0, 0, 0, [], [])

  // ------------------------------------------------------------------
  // Lines

  predicate Skippable(line: string)
  {
    line == [] || StartsWith(line, "comment")
  }

  /** The index of the first line that is neither empty nor a comment. */
  function FirstContent(lines: seq<string>): (k: nat)
    ensures k <= |lines|
    ensures forall j :: 0 <= j < k ==> Skippable(lines[j])
    ensures k < |lines| ==> !Skippable(lines[k])
  {
    if |lines| == 0 || !Skippable(lines[0]) then 0 else 1 + FirstContent(lines[1..])
  }

  /**
   * `read_line_skipping_comments`: the first line that is neither empty
   * nor a comment, and the lines after it; at the end of the input, an
   * empty line.
   */
  function NextLine(lines: seq<string>): (r: (string, seq<string>))
    ensures r.0 != [] ==> |r.1| < |lines| && !Skippable(r.0)
  {
    var k := FirstContent(lines);
    if k == |lines| then ([], []) else (lines[k], lines[k + 1..])
  }

  /** Skipped lines are passed over, and the next is returned with what follows it. */
  lemma NextLineSkips(skipped: seq<string>, line: string, rest: seq<string>)
    requires forall j :: 0 <= j < |skipped| ==> Skippable(skipped[j])
    requires !Skippable(line)
    ensures NextLine(skipped + [line] + rest) == (line, rest)
  {
    var lines := skipped + [line] + rest;
    assert forall j :: 0 <= j < |skipped| ==> lines[j] == skipped[j];
    assert lines[|skipped|] == line;
    assert lines[|skipped| + 1..] == rest;
  }

  /** A line whose first character is not `c` is no comment, and is returned at once. */
  lemma NextLineFirst(line: string, rest: seq<string>)
    requires |line| > 0 && line[0] != 'c'
    ensures NextLine([line] + rest) == (line, rest)
  {
    NextLineSkips([], line, rest);
  }

  // ------------------------------------------------------------------
  // Format

  /**
   * `parse_format`: exactly three tokens, the last "1.0", the middle one
   * of the three encodings. The first token is not looked at: the caller
   * has checked that the line starts with "format".
   */
  function ParseFormat(line: string, h: PlyHeader): (r: Result<PlyHeader, PlyError>)
    ensures var t := Split(line, ' ');
            r.Success? <==> |t| == 3 && t[2] == "1.0" && t[1] in ["ascii", "binary_little_endian", "binary_big_endian"]
    ensures r.Success? ==> var t := Split(line, ' ');
            && r.value.version == 1
            && r.value.isAscii == (t[1] == "ascii")
            && r.value.isBigEndian == (if t[1] == "ascii" then h.isBigEndian else t[1] == "binary_big_endian")
            && r.value.(isAscii := h.isAscii, isBigEndian := h.isBigEndian, version := h.version) == h
  {
    var tokens := Split(line, ' ');
    if |tokens| != 3 then Failure(InvalidFormatLine)
    else if tokens[2] != "1.0" then Failure(InvalidVersion)
    else if tokens[1] == "ascii" then Success(h.(version := 1, isAscii := true))
    else if tokens[1] == "binary_little_endian" then Success(h.(version := 1, isAscii := false, isBigEndian := false))
    else if tokens[1] == "binary_big_endian" then Success(h.(version := 1, isAscii := false, isBigEndian := true))
    else Failure(InvalidFormat)
  }

  // ------------------------------------------------------------------
  // Properties

  /**
   * One property line, corrected: "property <type> <name>" with a scalar
   * type, or "property list <count type> <item type> <name>" with an
   * integer count type. The item type of a list is not checked here, and
   * a scalar line with five tokens is accepted, its last two ignored.
   */
  function ParseProperty(line: string): (r: Result<PlyProperty, PlyError>)
    ensures var t := Split(line, ' ');
            r.Success? <==>
              || ((|t| == 3 || |t| == 5) && t[1] != "list" && t[1] in ValidPropertyTypes)
              || (|t| == 5 && t[1] == "list" && t[2] in ValidListPropertyTypes)
    ensures r.Success? ==> var t := Split(line, ' ');
            if t[1] == "list" then r.value == PlyProperty(t[4], t[3], true, t[2])
            else r.value == PlyProperty(t[2], t[1], false, [])
  {
    var tokens := Split(line, ' ');
    if |tokens| != 3 && |tokens| != 5 then Failure(InvalidPropertyLine)
    else if tokens[1] == "list" then
      if tokens[2] !in ValidListPropertyTypes then Failure(InvalidListType)
      else if |tokens| != 5 then Failure(InvalidPropertyLine)
      else Success(PlyProperty(tokens[4], tokens[3], true, tokens[2]))
    else if tokens[1] !in ValidPropertyTypes then Failure(InvalidPropertyType)
    else Success(PlyProperty(tokens[2], tokens[1], false, []))
  }

  /**
   * One property line as written: a list line is accepted with three
   * tokens, and then the item type and name are read from tokens 3 and 4,
   * which do not exist; that read is reported as `TokenOutOfRange`.
   */
  function ParsePropertyAsWritten(line: string): (r: Result<PlyProperty, PlyError>)
    ensures r.Failure? && r.error == TokenOutOfRange <==>
              var t := Split(line, ' ');
              |t| == 3 && t[1] == "list" && t[2] in ValidListPropertyTypes
  {
    var tokens := Split(line, ' ');
    if |tokens| != 3 && |tokens| != 5 then Failure(InvalidPropertyLine)
    else if tokens[1] == "list" then
      if tokens[2] !in ValidListPropertyTypes then Failure(InvalidListType)
      else if |tokens| <= 4 then Failure(TokenOutOfRange)
      else Success(PlyProperty(tokens[4], tokens[3], true, tokens[2]))
    else if tokens[1] !in ValidPropertyTypes then Failure(InvalidPropertyType)
    else Success(PlyProperty(tokens[2], tokens[1], false, []))
  }

  /** Wherever the as-written parse stays within the tokens, it agrees with the corrected one. */
  lemma PropertyAsWrittenAgrees(line: string)
    requires ParsePropertyAsWritten(line) != Failure(TokenOutOfRange)
    ensures ParsePropertyAsWritten(line) == ParseProperty(line)
  {
  }

  /**
   * A list line with three tokens, "property list uchar" say, passes the
   * token-count check and is then read past its end; the corrected parse
   * rejects it.
   */
  lemma ShortListLineReadsPastEnd(countType: string)
    requires countType in ValidListPropertyTypes
    ensures var line := Join(["property", "list", countType], ' ');
            ParsePropertyAsWritten(line) == Failure(TokenOutOfRange) && ParseProperty(line) == Failure(InvalidPropertyLine)
  {
    SplitJoin(["property", "list", countType], ' ');
  }

  /**
   * `parse_properties`: property lines are read and appended to `props`
   * until a line that does not start with "property"; that line, and any
   * comments before it, are put back.
   */
  function ParseProperties(lines: seq<string>, props: seq<PlyProperty>): (r: Result<(seq<PlyProperty>, seq<string>), PlyError>)
    ensures r.Success? ==> |r.value.1| <= |lines| && |props| <= |r.value.0| && r.value.0[..|props|] == props
    ensures r.Success? ==> !StartsWith(NextLine(r.value.1).0, "property")
    decreases |lines|
  {
    var (line, rest) := NextLine(lines);
    if !StartsWith(line, "property") then Success((props, lines))
    else
      var p :- ParseProperty(line);
      var r := ParseProperties(rest, props + [p]);
      assert r.Success? ==> r.value.0[..|props|] == (r.value.0[..|props| + 1])[..|props|];
      r
  }

  // ------------------------------------------------------------------
  // Elements

  /** `stoi` of an element count; its exceptions become `BadCount`. */
  function ParseCount(token: string): (r: Result<int, PlyError>)
    ensures r.Success? <==> Stoi(token).Success?
    ensures r.Success? ==> r.value == Stoi(token).value
  {
    match Stoi(token)
    case Success(n) => Success(n)
    case Failure(e) => Failure(BadCount(e))
  }

  /**
   * `parse_element`: "element <name> <count>" for vertex or face. The
   * element's properties are read first and appended to those already
   * recorded, then its count replaces the one recorded.
   */
  function ParseElement(lines: seq<string>, line: string, h: PlyHeader): (r: Result<(PlyHeader, seq<string>), PlyError>)
    ensures r.Success? ==> |r.value.1| <= |lines|
    ensures r.Success? ==> var t := Split(line, ' ');
            && |t| == 3 && t[1] in ["vertex", "face"] && Stoi(t[2]).Success?
            && (t[1] == "vertex" ==> r.value.0 == h.(numVertices := Stoi(t[2]).value, vertexProperties := r.value.0.vertexProperties))
            && (t[1] == "face" ==> r.value.0 == h.(numFaces := Stoi(t[2]).value, faceProperties := r.value.0.faceProperties))
  {
    var tokens := Split(line, ' ');
    if |tokens| != 3 then Failure(InvalidElementLine)
    else if tokens[1] == "vertex" then
      var (props, rest) :- ParseProperties(lines, h.vertexProperties);
      var n :- ParseCount(tokens[2]);
      Success((h.(vertexProperties := props, numVertices := n), rest))
    else if tokens[1] == "face" then
      var (props, rest) :- ParseProperties(lines, h.faceProperties);
      var n :- ParseCount(tokens[2]);
      Success((h.(faceProperties := props, numFaces := n), rest))
    else Failure(UnknownElementType)
  }

  /** The element loop of `parse_header`, up to and including "end_header". */
  function ParseElements(lines: seq<string>, h: PlyHeader): (r: Result<(PlyHeader, seq<string>), PlyError>)
    ensures r.Success? ==> |r.value.1| < |lines|
    ensures r.Success? ==> r.value.0.(numVertices := h.numVertices, numFaces := h.numFaces,
                                      vertexProperties := h.vertexProperties, faceProperties := h.faceProperties) == h
    decreases |lines|
  {
    var (line, rest) := NextLine(lines);
    if line == "end_header" then Success((h, rest))
    else if StartsWith(line, "element") then
      var (h1, rest1) :- ParseElement(rest, line, h);
      ParseElements(rest1, h1)
    else Failure(UnexpectedLine)
  }

  /**
   * `parse_header`: "ply", a line starting with "format", then elements up
   * to "end_header"; the header and the lines after it.
   */
  function ParseHeader(lines: seq<string>): (r: Result<(PlyHeader, seq<string>), PlyError>)
    ensures r.Success? ==> NextLine(lines).0 == "ply"
    ensures r.Success? ==> r.value.0.version == 1 && !(r.value.0.isAscii && r.value.0.isBigEndian)
  {
    var (first, rest1) := NextLine(lines);
    if first != "ply" then Failure(ExpectedPly)
    else
      var (format, rest2) := NextLine(rest1);
      if !StartsWith(format, "format") then Failure(ExpectedFormat)
      else
        var h :- ParseFormat(format, Blank);
        ParseElements(rest2, h)
  }

  // ------------------------------------------------------------------
  // Writing a header
  //
  // The library reads PLY headers only; the lines below are the header a
  // writer of the same dialect emits, the reference the reader is checked
  // against.

  /** A non-empty word without spaces: survives splitting on ' '. */
  predicate Token(s: string)
  {
    |s| > 0 && ' ' !in s
  }

  /** The type names are tokens, and none of them is "list". */
  lemma TypeNamesAreTokens()
    ensures forall t :: t in ValidPropertyTypes ==> Token(t) && t != "list"
    ensures forall t :: t in ValidListPropertyTypes ==> t in ValidPropertyTypes
  {
  }

  /** A property a header line can express and the reader gives back unchanged. */
  predicate WritableProperty(p: PlyProperty)
  {
    && Token(p.name)
    && if p.isList then p.listType in ValidListPropertyTypes && Token(p.propertyType)
       else p.propertyType in ValidPropertyTypes && p.listType == []
  }

  function PropertyLine(p: PlyProperty): string
  {
    if p.isList then Join(["property", "list", p.listType, p.propertyType, p.name], ' ')
    else Join(["property", p.propertyType, p.name], ' ')
  }

  /** The property lines of `ps`, followed by `tail`. */
  function PropertyLines(ps: seq<PlyProperty>, tail: seq<string>): seq<string>
  {
    seq(|ps|, i requires 0 <= i < |ps| => PropertyLine(ps[i])) + tail
  }

  function ElementLine(name: string, count: nat): string
  {
    Join(["element", name, NatToString(count)], ' ')
  }

  function EncodingName(h: PlyHeader): string
  {
    if h.isAscii then "ascii" else if h.isBigEndian then "binary_big_endian" else "binary_little_endian"
  }

  function FormatLine(h: PlyHeader): string
  {
    Join(["format", EncodingName(h), "1.0"], ' ')
  }

  /** A header the reader can give back: version 1, one encoding, counts an `int` holds. */
  predicate WritableHeader(h: PlyHeader)
  {
    && h.version == 1 && !(h.isAscii && h.isBigEndian)
    && 0 <= h.numVertices <= IntMax && 0 <= h.numFaces <= IntMax
    && (forall i :: 0 <= i < |h.vertexProperties| ==> WritableProperty(h.vertexProperties[i]))
    && (forall i :: 0 <= i < |h.faceProperties| ==> WritableProperty(h.faceProperties[i]))
  }

  /** The header lines of `h`, followed by the body lines `rest`. */
  function WriteHeader(h: PlyHeader, rest: seq<string>): seq<string>
    requires WritableHeader(h)
  {
    ["ply"] + ([FormatLine(h)] + ([ElementLine("vertex", h.numVertices)]
      + PropertyLines(h.vertexProperties, [ElementLine("face", h.numFaces)]
      + PropertyLines(h.faceProperties, ["end_header"] + rest))))
  }

  /**
   * A line of tokens joined by spaces, whose first token does not start
   * with 'c', is read at once and splits back into its tokens.
   */
  lemma TokenLine(fields: seq<string>, rest: seq<string>)
    requires |fields| > 0 && forall i :: 0 <= i < |fields| ==> Token(fields[i])
    requires Token(fields[0]) && fields[0][0] != 'c'
    ensures NextLine([Join(fields, ' ')] + rest) == (Join(fields, ' '), rest)
    ensures StartsWith(Join(fields, ' '), fields[0])
    ensures Split(Join(fields, ' '), ' ') == fields
  {
    SplitJoin(fields, ' ');
    JoinStartsWith(fields, ' ');
    var line := Join(fields, ' ');
    assert line[0] == line[..|fields[0]|][0] == fields[0][0];
    NextLineFirst(line, rest);
  }

  /** A line with prefix `p` agrees with `p` on its first characters. */
  lemma PrefixChar(line: string, p: string, i: nat)
    requires StartsWith(line, p) && i < |p|
    ensures i < |line| && line[i] == p[i]
  {
    assert line[..|p|][i] == line[i];
  }

  /** A line does not start with a word whose first character it lacks. */
  lemma FirstCharExcludes(line: string, q: string)
    requires |line| > 0 && |q| > 0 && line[0] != q[0]
    ensures !StartsWith(line, q)
  {
    assert |q| > |line| || line[..|q|][0] != q[0];
  }

  /** `line` is read at once, is a property line, and parses as `p`. */
  predicate ReadsAs(line: string, p: PlyProperty)
  {
    |line| > 0 && line[0] != 'c' && StartsWith(line, "property") && ParseProperty(line) == Success(p)
  }

  /** A property line reads back as the property. */
  lemma PropertyRoundTrip(p: PlyProperty)
    requires WritableProperty(p)
    ensures ReadsAs(PropertyLine(p), p)
  {
    TypeNamesAreTokens();
    var fields := if p.isList then ["property", "list", p.listType, p.propertyType, p.name]
                  else ["property", p.propertyType, p.name];
    assert forall i :: 0 <= i < |fields| ==> Token(fields[i]);
    TokenLine(fields, []);
    PrefixChar(PropertyLine(p), "property", 0);
  }

  /** One step of `parse_properties`: a property line is parsed and the lines after it follow. */
  lemma PropertiesStep(line: string, p: PlyProperty, rest: seq<string>, props: seq<PlyProperty>)
    requires ReadsAs(line, p)
    ensures ParseProperties([line] + rest, props) == ParseProperties(rest, props + [p])
  {
    NextLineFirst(line, rest);
  }

  /**
   * Lines each of which reads as the matching property are read back as
   * those properties, appended to the ones already recorded, up to the
   * first line after them that is no property line.
   */
  lemma {:induction false} PropertiesRead(lines: seq<string>, ps: seq<PlyProperty>, props: seq<PlyProperty>, tail: seq<string>)
    requires |lines| == |ps| && forall i {:trigger ReadsAs(lines[i], ps[i])} :: 0 <= i < |lines| ==> ReadsAs(lines[i], ps[i])
    requires !StartsWith(NextLine(tail).0, "property")
    ensures ParseProperties(lines + tail, props) == Success((props + ps, tail))
    decreases |lines|
  {
    if lines == [] {
      assert lines + tail == tail && props + ps == props;
    } else {
      AppendHead(lines, tail);
      PropertiesStep(lines[0], ps[0], lines[1..] + tail, props);
      PropertiesRead(lines[1..], ps[1..], props + [ps[0]], tail);
      AppendShift(props, ps);
    }
  }

  /**
   * The property lines of `ps` are read back as `ps`, appended to those
   * already recorded, up to the first line that is no property line.
   */
  lemma PropertiesRoundTrip(ps: seq<PlyProperty>, props: seq<PlyProperty>, tail: seq<string>)
    requires forall i :: 0 <= i < |ps| ==> WritableProperty(ps[i])
    requires !StartsWith(NextLine(tail).0, "property")
    ensures ParseProperties(PropertyLines(ps, tail), props) == Success((props + ps, tail))
  {
    var lines := seq(|ps|, i requires 0 <= i < |ps| => PropertyLine(ps[i]));
    forall i | 0 <= i < |lines|
      ensures ReadsAs(lines[i], ps[i])
    {
      PropertyRoundTrip(ps[i]);
    }
    PropertiesRead(lines, ps, props, tail);
  }

  /** An element line starts with "element", is read at once and is not "end_header". */
  lemma ElementLineShape(name: string, count: nat, rest: seq<string>)
    requires Token(name) && count <= IntMax
    ensures NextLine([ElementLine(name, count)] + rest) == (ElementLine(name, count), rest)
    ensures StartsWith(ElementLine(name, count), "element") && ElementLine(name, count) != "end_header"
    ensures !StartsWith(ElementLine(name, count), "property")
    ensures Split(ElementLine(name, count), ' ') == ["element", name, NatToString(count)]
    ensures ParseCount(NatToString(count)) == Success(count)
  {
    CountToken(count);
    TokenLine(["element", name, NatToString(count)], rest);
    ElementPrefix(ElementLine(name, count));
  }

  /** An element line is neither "end_header" nor a property line. */
  lemma ElementPrefix(line: string)
    requires StartsWith(line, "element")
    ensures line != "end_header" && !StartsWith(line, "property")
  {
    PrefixChar(line, "element", 0);
    PrefixChar(line, "element", 1);
    assert "end_header"[1] == 'n';
    FirstCharExcludes(line, "property");
  }

  /** A count is written as a token that reads back as the count. */
  lemma CountToken(count: nat)
    requires count <= IntMax
    ensures Token(NatToString(count))
    ensures ParseCount(NatToString(count)) == Success(count)
  {
    var digits := NatToString(count);
    assert forall i :: 0 <= i < |digits| ==> IsDigit(digits[i]);
    StoiOfNatToString(count);
  }

  /** The format line of a writable header reads back as its encoding and version. */
  lemma FormatRoundTrip(h: PlyHeader, rest: seq<string>)
    requires WritableHeader(h)
    ensures NextLine([FormatLine(h)] + rest) == (FormatLine(h), rest)
    ensures StartsWith(FormatLine(h), "format")
    ensures ParseFormat(FormatLine(h), Blank) == Success(Blank.(version := 1, isAscii := h.isAscii, isBigEndian := h.isBigEndian))
  {
    var fields := ["format", EncodingName(h), "1.0"];
    assert forall i :: 0 <= i < |fields| ==> Token(fields[i]);
    TokenLine(fields, rest);
  }

  /**
   * An element line followed by its property lines reads back as the
   * element: its properties appended, its count recorded.
   */
  lemma ElementRoundTrip(name: string, count: nat, ps: seq<PlyProperty>, tail: seq<string>, h: PlyHeader)
    requires name == "vertex" || name == "face"
    requires count <= IntMax && forall i :: 0 <= i < |ps| ==> WritableProperty(ps[i])
    requires !StartsWith(NextLine(tail).0, "property")
    ensures ParseElement(PropertyLines(ps, tail), ElementLine(name, count), h)
            == Success((if name == "vertex" then h.(vertexProperties := h.vertexProperties + ps, numVertices := count)
                        else h.(faceProperties := h.faceProperties + ps, numFaces := count), tail))
  {
    ElementLineShape(name, count, []);
    PropertiesRoundTrip(ps, if name == "vertex" then h.vertexProperties else h.faceProperties, tail);
  }

  /** One step of the element loop: an element is parsed and the loop goes on after it. */
  lemma ElementsStep(lines: seq<string>, line: string, rest: seq<string>, h: PlyHeader, h1: PlyHeader, rest1: seq<string>)
    requires NextLine(lines) == (line, rest) && StartsWith(line, "element") && line != "end_header"
    requires ParseElement(rest, line, h) == Success((h1, rest1))
    ensures ParseElements(lines, h) == ParseElements(rest1, h1)
  {
  }

  /** The element loop stops at "end_header" and leaves what follows it. */
  lemma ElementsEnd(rest: seq<string>, h: PlyHeader)
    ensures ParseElements(["end_header"] + rest, h) == Success((h, rest))
  {
    NextLineFirst("end_header", rest);
  }

  /**
   * The element loop passes over an element line and its property lines,
   * recording the element, and goes on with the lines after them.
   */
  lemma ElementLinesStep(name: string, count: nat, ps: seq<PlyProperty>, tail: seq<string>, h: PlyHeader)
    requires name == "vertex" || name == "face"
    requires count <= IntMax && forall i :: 0 <= i < |ps| ==> WritableProperty(ps[i])
    requires !StartsWith(NextLine(tail).0, "property")
    ensures ParseElements([ElementLine(name, count)] + PropertyLines(ps, tail), h)
            == ParseElements(tail, if name == "vertex" then h.(vertexProperties := h.vertexProperties + ps, numVertices := count)
                                   else h.(faceProperties := h.faceProperties + ps, numFaces := count))
  {
    var props := PropertyLines(ps, tail);
    var h1 := if name == "vertex" then h.(vertexProperties := h.vertexProperties + ps, numVertices := count)
              else h.(faceProperties := h.faceProperties + ps, numFaces := count);
    ElementLineShape(name, count, props);
    ElementRoundTrip(name, count, ps, tail, h);
    ElementsStep([ElementLine(name, count)] + props, ElementLine(name, count), props, h, h1, tail);
  }

  /** The vertex element, then the face element, read back, leaving the body lines. */
  lemma ElementsRoundTrip(h: PlyHeader, numVertices: nat, vertexProperties: seq<PlyProperty>,
                          numFaces: nat, faceProperties: seq<PlyProperty>, rest: seq<string>)
    requires numVertices <= IntMax && forall i :: 0 <= i < |vertexProperties| ==> WritableProperty(vertexProperties[i])
    requires numFaces <= IntMax && forall i :: 0 <= i < |faceProperties| ==> WritableProperty(faceProperties[i])
    ensures ParseElements([ElementLine("vertex", numVertices)] + PropertyLines(vertexProperties,
              [ElementLine("face", numFaces)] + PropertyLines(faceProperties, ["end_header"] + rest)), h)
            == Success((h.(vertexProperties := h.vertexProperties + vertexProperties, numVertices := numVertices,
                           faceProperties := h.faceProperties + faceProperties, numFaces := numFaces), rest))
  {
    var endLines := ["end_header"] + rest;
    var faceLines := [ElementLine("face", numFaces)] + PropertyLines(faceProperties, endLines);
    var h1 := h.(vertexProperties := h.vertexProperties + vertexProperties, numVertices := numVertices);
    var h2 := h1.(faceProperties := h.faceProperties + faceProperties, numFaces := numFaces);
    NextLineFirst("end_header", rest);
    FirstCharExcludes("end_header", "property");
    ElementLineShape("face", numFaces, PropertyLines(faceProperties, endLines));
    ElementLinesStep("vertex", numVertices, vertexProperties, faceLines, h);
    ElementLinesStep("face", numFaces, faceProperties, endLines, h1);
    ElementsEnd(rest, h2);
  }

  /** A written header is read back exactly, and the body lines after it are left. */
  lemma HeaderRoundTrip(h: PlyHeader, rest: seq<string>)
    requires WritableHeader(h)
    ensures ParseHeader(WriteHeader(h, rest)) == Success((h, rest))
  {
    var vertexLines := [ElementLine("vertex", h.numVertices)] + PropertyLines(h.vertexProperties,
                         [ElementLine("face", h.numFaces)] + PropertyLines(h.faceProperties, ["end_header"] + rest));
    var formatLine := FormatLine(h);
    assert WriteHeader(h, rest) == ["ply"] + ([formatLine] + vertexLines);
    NextLineFirst("ply", [formatLine] + vertexLines);
    FormatRoundTrip(h, vertexLines);
    var h0 := Blank.(version := 1, isAscii := h.isAscii, isBigEndian := h.isBigEndian);
    ElementsRoundTrip(h0, h.numVertices, h.vertexProperties, h.numFaces, h.faceProperties, rest);
    assert [] + h.vertexProperties == h.vertexProperties;
    assert [] + h.faceProperties == h.faceProperties;
  }

  // ------------------------------------------------------------------
  // Sizes

  /** `bytes_for_type`: the width of an integer type; any other type fails. */
  function BytesForType(t: string): (r: Result<nat, PlyError>)
    ensures r.Success? <==> t in ValidListPropertyTypes
    ensures r.Success? ==> r.value in {1, 2, 4}
  {
    if t == "uchar" || t == "char" then Success(1)
    else if t == "ushort" || t == "short" then Success(2)
    else if t == "uint" || t == "int" then Success(4)
    else Failure(UnknownListPropertyType)
  }

  /** Signed and unsigned variants of a type have the same width, which doubles from char to short to int. */
  lemma BytesForTypeWidths()
    ensures BytesForType("char") == BytesForType("uchar") == Success(1)
    ensures BytesForType("short") == BytesForType("ushort") == Success(2)
    ensures BytesForType("int") == BytesForType("uint") == Success(4)
    ensures BytesForType("float").Failure? && BytesForType("double").Failure?
  {
  }
}
