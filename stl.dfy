/** internal/stl/parser.go: binary/ASCII detection, the binary header and
    length check with the triangle-record walk, ASCII line counting, and the
    classification of two meshes' differences. Coordinates are not decoded:
    a mesh's bounds are represented by the raw material they are computed
    from (the little-endian coordinate words of a binary file, the trimmed
    vertex lines of an ASCII file), and boundsEqual is a parameter. */
module Stl {

  import opened Wrappers
  import opened Text

  type bytes = seq<byte>

  predicate StartsWith(s: bytes, p: bytes)
  {
    |p| <= |s| && s[..|p|] == p
  }

  const Solid: bytes := [115, 111, 108, 105, 100]   // "solid"
  const Facet: bytes := [102, 97, 99, 101, 116]     // "facet"
  const Vertex: bytes := [118, 101, 114, 116, 101, 120]   // "vertex"
  const Newline: byte := 10

  /** IsSTLFile: the lowercased name ends in ".stl". */
  predicate IsSTLFile(filename: string)
  {
    HasSuffix(Lower(filename), ".stl")
  }

  /** An STL file name's extension is ".stl" in some spelling, and the test
      ignores case. */
  lemma STLFileExt(filename: string)
    ensures IsSTLFile(filename) ==> Ext(Lower(filename)) == ".stl"
    ensures IsSTLFile(Lower(filename)) == IsSTLFile(filename)
  {
    LowerIdempotent(filename);
    if IsSTLFile(filename) {
      ExtOfSuffix(Lower(filename), ".stl");
    }
  }

  // ---------------------------------------------------------------------
  // Mesh information
  // ---------------------------------------------------------------------

  /** What a mesh's bounding box is computed from. */
  datatype Bounds =
    | BinaryBounds(words: seq<nat>)
    | TextBounds(vertexLines: seq<bytes>)

  datatype STLInfo = STLInfo(triangleCount: int, vertexCount: int, bounds: Bounds, isBinary: bool)

  /** isBinarySTL: at least the 84-byte header, and not starting with "solid". */
  predicate IsBinarySTL(data: bytes)
    ensures |data| < 84 ==> !IsBinarySTL(data)
    ensures StartsWith(data, Solid) ==> !IsBinarySTL(data)
    ensures |data| >= 84 && data[0] != Solid[0] ==> IsBinarySTL(data)
  {
    |data| >= 84 && !StartsWith(data, Solid)
  }

  /** binary.LittleEndian.Uint32 of data[o..o + 4]. */
  function LE32(data: bytes, o: nat): (r: nat)
    requires o + 4 <= |data|
    ensures r < 0x1_0000_0000
  {
    data[o] as int + 0x100 * data[o + 1] as int + 0x1_0000 * data[o + 2] as int + 0x100_0000 * data[o + 3] as int
  }

  /** The nine coordinate words of triangle t: three vertices after the
      12-byte normal, each three 4-byte words. */
  function TriangleWords(data: bytes, t: nat): (r: seq<nat>)
    requires 84 + 50 * (t + 1) <= |data|
    ensures |r| == 9
  {
    var o := 84 + 50 * t + 12;
    [LE32(data, o), LE32(data, o + 4), LE32(data, o + 8),
     LE32(data, o + 12), LE32(data, o + 16), LE32(data, o + 20),
     LE32(data, o + 24), LE32(data, o + 28), LE32(data, o + 32)]
  }

  /** The coordinate words of the first n triangle records. */
  function Coords(data: bytes, n: nat): (r: seq<nat>)
    requires 84 + 50 * n <= |data|
    ensures |r| == 9 * n
  {
    if n == 0 then [] else Coords(data, n - 1) + TriangleWords(data, n - 1)
  }

  /** parseBinarySTL as a value. It succeeds exactly when the header and
      all T records of 50 bytes are present, T being the count at bytes
      80..83, and then reports T triangles, 3T vertices and the binary flag. */
  function ParseBinary(data: bytes): (r: Result<STLInfo, string>)
    ensures r.Ok? <==> |data| >= 84 && |data| >= 84 + 50 * LE32(data, 80)
    ensures r.Ok? ==>
      r.value.triangleCount == LE32(data, 80) && r.value.vertexCount == 3 * r.value.triangleCount && r.value.isBinary
    ensures |data| < 84 ==> r == Err("file too small for binary STL")
  {
    if |data| < 84 then Err("file too small for binary STL")
    else
      var t := LE32(data, 80);
      var expectedSize := 84 + t * 50;
      if |data| < expectedSize then
        Err("invalid binary STL: expected " + NatString(expectedSize) + " bytes, got " + NatString(|data|))
      else Ok(STLInfo(t, t * 3, BinaryBounds(Coords(data, t)), true))
  }

  lemma {:induction false} CoordsPrefix(data: bytes, extra: bytes, n: nat)
    requires 84 + 50 * n <= |data|
    ensures Coords(data + extra, n) == Coords(data, n)
  {
    if n > 0 {
      CoordsPrefix(data, extra, n - 1);
      TriangleWordsPrefix(data, extra, n - 1);
    }
  }

  lemma TriangleWordsPrefix(data: bytes, extra: bytes, t: nat)
    requires 84 + 50 * (t + 1) <= |data|
    ensures TriangleWords(data + extra, t) == TriangleWords(data, t)
  {
    var o := 84 + 50 * t + 12;
    forall q | 0 <= q < 9
      ensures LE32(data + extra, o + 4 * q) == LE32(data, o + 4 * q)
    {
      LE32Prefix(data, extra, o + 4 * q);
    }
  }

  lemma LE32Prefix(data: bytes, extra: bytes, o: nat)
    requires o + 4 <= |data|
    ensures LE32(data + extra, o) == LE32(data, o)
  {
    assert (data + extra)[o..o + 4] == data[o..o + 4];
  }

  /** Bytes after the last record are ignored. */
  lemma TrailingBytesIgnored(data: bytes, extra: bytes)
    requires ParseBinary(data).Ok?
    ensures ParseBinary(data + extra).Ok?
    ensures ParseBinary(data + extra).value.triangleCount == ParseBinary(data).value.triangleCount
    ensures ParseBinary(data + extra).value.bounds == ParseBinary(data).value.bounds
  {
    var t := LE32(data, 80);
    assert LE32(data + extra, 80) == t;
    CoordsPrefix(data, extra, t);
  }

  /** The vertex loop of one triangle record: three vertices of three
      words, starting after the record's normal. */
  method ReadVertices(data: bytes, t: nat, start: nat) returns (words: seq<nat>, offset: nat)
    requires 84 + 50 * (t + 1) <= |data| && start == 84 + 50 * t + 12
    ensures words == TriangleWords(data, t) && offset == start + 36
  {
    words := [];
    offset := start;
    var v := 0;
    while v < 3
      invariant 0 <= v <= 3
      invariant offset == start + 12 * v
      invariant words == TriangleWords(data, t)[..3 * v]
    {
      var x := LE32(data, offset);
      var y := LE32(data, offset + 4);
      var z := LE32(data, offset + 8);
      assert TriangleWords(data, t)[..3 * (v + 1)] == TriangleWords(data, t)[..3 * v] + [x, y, z];
      words := words + [x, y, z];
      offset := offset + 12;
      v := v + 1;
    }
  }

  /** Record i of t lies inside data long enough for all t records. */
  lemma RecordInside(t: nat, i: nat, len: nat)
    requires i < t && 84 + 50 * t <= len
    ensures 84 + 50 * (i + 1) <= len
  {
  }

  /** The record walk of parseBinarySTL: each record's 12-byte normal is
      skipped, its three vertices read, and its 2-byte attribute skipped. */
  method ReadCoords(data: bytes, triangleCount: nat) returns (words: seq<nat>)
    requires 84 + 50 * triangleCount <= |data|
    ensures words == Coords(data, triangleCount)
  {
    words := [];
    var offset := 84;
    var i := 0;
    while i < triangleCount
      invariant 0 <= i <= triangleCount
      invariant offset == 84 + 50 * i
      invariant words == Coords(data, i)
    {
      RecordInside(triangleCount, i, |data|);
      offset := offset + 12;
      var vertexWords;
      vertexWords, offset := ReadVertices(data, i, offset);
      assert Coords(data, i + 1) == words + vertexWords;
      words := words + vertexWords;
      offset := offset + 2;
      i := i + 1;
    }
  }

  /** parseBinarySTL: the header check, the length check, then the walk over
      the triangle records reading three coordinate words per vertex. Every
      read lies inside the records, hence inside the data. */
  method ParseBinarySTL(data: bytes) returns (r: Result<STLInfo, string>)
    ensures r == ParseBinary(data)
  {
    if |data| < 84 {
      return Err("file too small for binary STL");
    }
    var triangleCount := LE32(data, 80);
    var expectedSize := 84 + triangleCount * 50;
    if |data| < expectedSize {
      return Err("invalid binary STL: expected " + NatString(expectedSize) + " bytes, got " + NatString(|data|));
    }
    var words := ReadCoords(data, triangleCount);
    return Ok(STLInfo(triangleCount, triangleCount * 3, BinaryBounds(words), true));
  }

  // ---------------------------------------------------------------------
  // ASCII
  // ---------------------------------------------------------------------

  /** The first newline at or after k, or |data|. */
  function NextNewline(data: bytes, k: nat): (r: nat)
    requires k <= |data|
    ensures k <= r <= |data|
    ensures r < |data| ==> data[r] == Newline
    ensures forall q :: k <= q < r ==> data[q] != Newline
    decreases |data| - k
  {
    if k == |data| || data[k] == Newline then k else NextNewline(data, k + 1)
  }

  /** bytes.Split(data, "\n"): the pieces between newlines; n newlines give
      n + 1 pieces. */
  function SplitLines(data: bytes): (r: seq<bytes>)
    ensures |r| >= 1
    decreases |data|
  {
    var e := NextNewline(data, 0);
    if e == |data| then [data] else [data[..e]] + SplitLines(data[e + 1..])
  }

  /** A piece never contains the separator, and joining the pieces with it
      gives back the data. */
  function Join(lines: seq<bytes>): bytes
    requires |lines| >= 1
  {
    if |lines| == 1 then lines[0] else lines[0] + [Newline] + Join(lines[1..])
  }

  lemma {:induction false} SplitJoin(data: bytes)
    ensures Join(SplitLines(data)) == data
    ensures forall i :: 0 <= i < |SplitLines(data)| ==> Newline !in SplitLines(data)[i]
    decreases |data|
  {
    var e := NextNewline(data, 0);
    if e < |data| {
      SplitJoin(data[e + 1..]);
      assert data == data[..e] + [Newline] + data[e + 1..];
      var rest := SplitLines(data[e + 1..]);
      assert SplitLines(data)[1..] == rest;
      forall i | 0 <= i < |SplitLines(data)| ensures Newline !in SplitLines(data)[i] {
        if i > 0 {
          assert SplitLines(data)[i] == rest[i - 1];
        }
      }
    }
  }

  /** bytes.TrimSpace on ASCII white space. */
  predicate IsAsciiSpace(b: byte)
  {
    b == 32 || (9 <= b <= 13)
  }

  function TrimBytesLeft(s: bytes): (r: bytes)
    ensures |r| <= |s| && r == s[|s| - |r|..]
    ensures r != [] ==> !IsAsciiSpace(r[0])
  {
    if s != [] && IsAsciiSpace(s[0]) then TrimBytesLeft(s[1..]) else s
  }

  function TrimBytesRight(s: bytes): (r: bytes)
    ensures |r| <= |s| && r == s[..|r|]
    ensures r != [] ==> !IsAsciiSpace(r[|r| - 1])
  {
    if s != [] && IsAsciiSpace(s[|s| - 1]) then TrimBytesRight(s[..|s| - 1]) else s
  }

  function TrimBytes(s: bytes): bytes
  {
    TrimBytesRight(TrimBytesLeft(s))
  }

  predicate IsFacetLine(line: bytes) { StartsWith(TrimBytes(line), Facet) }

  predicate IsVertexLine(line: bytes) { !IsFacetLine(line) && StartsWith(TrimBytes(line), Vertex) }

  /** The trimmed vertex lines among lines, in order: what the coordinate
      scan reads. */
  function VertexLines(lines: seq<bytes>): seq<bytes>
  {
    if lines == [] then []
    else
      VertexLines(lines[..|lines| - 1])
      + (if IsVertexLine(lines[|lines| - 1]) then [TrimBytes(lines[|lines| - 1])] else [])
  }

  /** The number of lines satisfying p. */
  function CountLines(lines: seq<bytes>, p: bytes -> bool): (r: nat)
    ensures r <= |lines|
  {
    if lines == [] then 0
    else CountLines(lines[..|lines| - 1], p) + (if p(lines[|lines| - 1]) then 1 else 0)
  }

  /** parseASCIISTL as a value. */
  function ParseAscii(data: bytes): (r: STLInfo)
    ensures !r.isBinary && r.bounds.TextBounds?
    ensures r.triangleCount + r.vertexCount <= |SplitLines(data)|
    ensures r.vertexCount == |r.bounds.vertexLines|
  {
    var lines := SplitLines(data);
    AsciiCounts(lines);
    STLInfo(CountLines(lines, IsFacetLine), CountLines(lines, IsVertexLine), TextBounds(VertexLines(lines)), false)
  }

  /** Facet and vertex lines are counted apart: together at most the number
      of lines, and the vertex count is the number of lines the coordinate
      scan reads. */
  lemma {:induction false} AsciiCounts(lines: seq<bytes>)
    ensures CountLines(lines, IsFacetLine) + CountLines(lines, IsVertexLine) <= |lines|
    ensures CountLines(lines, IsVertexLine) == |VertexLines(lines)|
  {
    if lines != [] {
      AsciiCounts(lines[..|lines| - 1]);
    }
  }

  lemma AsciiStep(lines: seq<bytes>, i: nat)
    requires i < |lines|
    ensures CountLines(lines[..i + 1], IsFacetLine)
      == CountLines(lines[..i], IsFacetLine) + (if IsFacetLine(lines[i]) then 1 else 0)
    ensures CountLines(lines[..i + 1], IsVertexLine)
      == CountLines(lines[..i], IsVertexLine) + (if IsVertexLine(lines[i]) then 1 else 0)
    ensures VertexLines(lines[..i + 1])
      == VertexLines(lines[..i]) + (if IsVertexLine(lines[i]) then [TrimBytes(lines[i])] else [])
  {
    assert lines[..i + 1][..i] == lines[..i];
  }

  /** parseASCIISTL: one pass over the lines, counting. It never fails. */
  method ParseASCIISTL(data: bytes) returns (r: Result<STLInfo, string>)
    ensures r == Ok(ParseAscii(data))
  {
    var lines := SplitLines(data);
    var triangleCount, vertexCount := 0, 0;
    var vertexLines: seq<bytes> := [];
    var i := 0;
    while i < |lines|
      invariant 0 <= i <= |lines|
      invariant triangleCount == CountLines(lines[..i], IsFacetLine)
      invariant vertexCount == CountLines(lines[..i], IsVertexLine)
      invariant vertexLines == VertexLines(lines[..i])
    {
      AsciiStep(lines, i);
      var trimmed := TrimBytes(lines[i]);
      assert IsFacetLine(lines[i]) == StartsWith(trimmed, Facet);
      assert IsVertexLine(lines[i]) == (!StartsWith(trimmed, Facet) && StartsWith(trimmed, Vertex));
      if StartsWith(trimmed, Facet) {
        triangleCount := triangleCount + 1;
      } else if StartsWith(trimmed, Vertex) {
        vertexCount := vertexCount + 1;
        vertexLines := vertexLines + [trimmed];
      }
      i := i + 1;
    }
    assert lines[..|lines|] == lines;
    return Ok(STLInfo(triangleCount, vertexCount, TextBounds(vertexLines), false));
  }

  /** parseSTL. */
  function ParseSTL(data: bytes): Result<STLInfo, string>
  {
    if IsBinarySTL(data) then ParseBinary(data) else Ok(ParseAscii(data))
  }

  /** Only the binary path can fail, and a failed parse had a header but
      too few records. */
  lemma OnlyBinaryFails(data: bytes)
    ensures ParseSTL(data).Err? ==> IsBinarySTL(data) && |data| < 84 + 50 * LE32(data, 80)
    ensures !IsBinarySTL(data) ==> ParseSTL(data).Ok? && !ParseSTL(data).value.isBinary
  {
  }

  // ---------------------------------------------------------------------
  // CompareSTL
  // ---------------------------------------------------------------------

  datatype STLDiff = STLDiff(vertices1: int, vertices2: int, triangles1: int, triangles2: int, description: string)

  const Unparsable := "Unable to parse STL format"
  const Transformed := "Geometry transformed (same triangle count, different dimensions)"
  const Minor := "Minor modifications (same structure, different vertex data)"

  /** The first part of the description when the triangle counts differ. */
  function Head(triangleDiff: int): string
  {
    if triangleDiff > 0 then "Geometry expanded (+" + IntString(triangleDiff) + " triangles)"
    else "Geometry simplified (" + IntString(triangleDiff) + " triangles)"
  }

  lemma HeadShape(triangleDiff: int)
    requires triangleDiff != 0
    ensures triangleDiff > 0 ==> HasPrefix(Head(triangleDiff), "Geometry expanded (+")
    ensures triangleDiff < 0 ==> HasPrefix(Head(triangleDiff), "Geometry simplified (-")
    ensures Head(triangleDiff) != [] && Head(triangleDiff)[|Head(triangleDiff)| - 1] == ')'
  {
    var n := IntString(triangleDiff);
    if triangleDiff < 0 {
      var h := "Geometry simplified (" + n + " triangles)";
      assert h[21] == n[0];
      assert h[..22] == "Geometry simplified (-";
    }
  }

  /** The description of two parsed meshes: more triangles is an expansion,
      fewer a simplification, each marked when the bounds differ; equal
      counts are a transformation when the bounds differ and a minor
      modification otherwise. */
  function Describe(info1: STLInfo, info2: STLInfo, boundsEqual: (Bounds, Bounds) -> bool): (d: string)
    ensures var same := boundsEqual(info1.bounds, info2.bounds);
      && (info2.triangleCount > info1.triangleCount ==> HasPrefix(d, "Geometry expanded (+"))
      && (info2.triangleCount < info1.triangleCount ==> HasPrefix(d, "Geometry simplified (-"))
      && (info2.triangleCount != info1.triangleCount ==> (HasSuffix(d, ", dimensions changed") <==> !same))
      && (info2.triangleCount == info1.triangleCount && !same ==> d == Transformed)
      && (info2.triangleCount == info1.triangleCount && same ==> d == Minor)
  {
    var same := boundsEqual(info1.bounds, info2.bounds);
    if info1.triangleCount != info2.triangleCount then
      var delta := info2.triangleCount - info1.triangleCount;
      HeadShape(delta);
      var head := Head(delta);
      if !same then head + ", dimensions changed"
      else
        assert head[|head| - 1] == ')';
        head
    else if !same then Transformed
    else Minor
  }

  /** CompareSTL: (identical, diff), with None for Go's nil diff. Byte-equal
      inputs are identical without parsing; otherwise never identical, with
      zero counts and the parse message when either side fails, and the
      parsed counts otherwise. */
  function CompareSTL(data1: bytes, data2: bytes, boundsEqual: (Bounds, Bounds) -> bool)
    : (r: (bool, Option<STLDiff>))
    ensures data1 == data2 <==> r.0
    ensures data1 == data2 ==> r.1 == None
    ensures data1 != data2 ==> r.1.Some?
    ensures data1 != data2 && (ParseSTL(data1).Err? || ParseSTL(data2).Err?) ==>
      r.1 == Some(STLDiff(0, 0, 0, 0, Unparsable))
    ensures data1 != data2 && ParseSTL(data1).Ok? && ParseSTL(data2).Ok? ==>
      var d := r.1.value;
      d.triangles1 == ParseSTL(data1).value.triangleCount && d.triangles2 == ParseSTL(data2).value.triangleCount
      && d.vertices1 == ParseSTL(data1).value.vertexCount && d.vertices2 == ParseSTL(data2).value.vertexCount
      && d.description == Describe(ParseSTL(data1).value, ParseSTL(data2).value, boundsEqual)
  {
    if data1 == data2 then (true, None)
    else
      var r1, r2 := ParseSTL(data1), ParseSTL(data2);
      if r1.Err? || r2.Err? then (false, Some(STLDiff(0, 0, 0, 0, Unparsable)))
      else
        var info1, info2 := r1.value, r2.value;
        (false, Some(STLDiff(info1.vertexCount, info2.vertexCount, info1.triangleCount, info2.triangleCount,
                             Describe(info1, info2, boundsEqual))))
  }
}
