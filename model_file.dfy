/**
 * The in-memory model and its loaders (`modelFile.cs`): a volume is an append-only
 * list of faces, a model a list of volumes; both answer bounding-box queries.  The
 * loaders build one model with one volume from a text or a binary STL file.
 */
module ModelFile {
  import opened Wrappers
  import opened Geometry
  import opened StlText
  import opened StlBinary

  /** What a loader returns: a fresh model, `null`, or the exception that escapes it. */
  datatype LoadResult = Loaded(model: SimpleModel) | Null | Threw(error: Exception)

  class SimpleVolume {
    var faceTriangles: seq<SimpleFace>

    constructor ()
      ensures faceTriangles == []
    {
      faceTriangles := [];
    }

    /** Appends one face with the arguments in order; earlier faces are unchanged. */
    method AddFaceTriangle(v0: Point3, v1: Point3, v2: Point3)
      modifies this
      ensures faceTriangles == old(faceTriangles) + [SimpleFace(v0, v1, v2)]
    {
      faceTriangles := faceTriangles + [SimpleFace(v0, v1, v2)];
    }

    /** The minimum corner of all vertices of all faces; the origin when there are none. */
    method MinXYZ() returns (r: Point3)
      ensures r == Corner(Lowest, Vertices(faceTriangles))
    {
      if |faceTriangles| < 1 {
        return Origin;
      }
      var ret := faceTriangles[0].v0;
      ghost var first := [ret];
      for faceIndex := 0 to |faceTriangles|
        invariant ret == Corner(Lowest, first + Vertices(faceTriangles[..faceIndex]))
      {
        var f := faceTriangles[faceIndex];
        VerticesSnoc(faceTriangles, faceIndex);
        CornerStep(Lowest, first + Vertices(faceTriangles[..faceIndex]), f);
        assert first + Vertices(faceTriangles[..faceIndex + 1]) ==
          first + Vertices(faceTriangles[..faceIndex]) + [f.v0, f.v1, f.v2];
        ret := ret.(x := Pick(Lowest, ret.x, f.v0.x));
        ret := ret.(y := Pick(Lowest, ret.y, f.v0.y));
        ret := ret.(z := Pick(Lowest, ret.z, f.v0.z));
        ret := ret.(x := Pick(Lowest, ret.x, f.v1.x));
        ret := ret.(y := Pick(Lowest, ret.y, f.v1.y));
        ret := ret.(z := Pick(Lowest, ret.z, f.v1.z));
        ret := ret.(x := Pick(Lowest, ret.x, f.v2.x));
        ret := ret.(y := Pick(Lowest, ret.y, f.v2.y));
        ret := ret.(z := Pick(Lowest, ret.z, f.v2.z));
      }
      assert faceTriangles[..|faceTriangles|] == faceTriangles;
      VerticesAt(faceTriangles, 0, 0);
      CornerOfSameElements(Lowest, first + Vertices(faceTriangles), Vertices(faceTriangles));
      return ret;
    }

    /** The maximum corner of all vertices of all faces; the origin when there are none. */
    method MaxXYZ() returns (r: Point3)
      ensures r == Corner(Highest, Vertices(faceTriangles))
    {
      if |faceTriangles| < 1 {
        return Origin;
      }
      var ret := faceTriangles[0].v0;
      ghost var first := [ret];
      for i := 0 to |faceTriangles|
        invariant ret == Corner(Highest, first + Vertices(faceTriangles[..i]))
      {
        var f := faceTriangles[i];
        VerticesSnoc(faceTriangles, i);
        CornerStep(Highest, first + Vertices(faceTriangles[..i]), f);
        assert first + Vertices(faceTriangles[..i + 1]) ==
          first + Vertices(faceTriangles[..i]) + [f.v0, f.v1, f.v2];
        ret := ret.(x := Pick(Highest, ret.x, f.v0.x));
        ret := ret.(y := Pick(Highest, ret.y, f.v0.y));
        ret := ret.(z := Pick(Highest, ret.z, f.v0.z));
        ret := ret.(x := Pick(Highest, ret.x, f.v1.x));
        ret := ret.(y := Pick(Highest, ret.y, f.v1.y));
        ret := ret.(z := Pick(Highest, ret.z, f.v1.z));
        ret := ret.(x := Pick(Highest, ret.x, f.v2.x));
        ret := ret.(y := Pick(Highest, ret.y, f.v2.y));
        ret := ret.(z := Pick(Highest, ret.z, f.v2.z));
      }
      assert faceTriangles[..|faceTriangles|] == faceTriangles;
      VerticesAt(faceTriangles, 0, 0);
      CornerOfSameElements(Highest, first + Vertices(faceTriangles), Vertices(faceTriangles));
      return ret;
    }
  }

  /** The corner of each volume, in volume order (an empty volume contributes the origin). */
  ghost function VolumeCorners(e: Extreme, vols: seq<SimpleVolume>): (cs: seq<Point3>)
    reads vols
    ensures |cs| == |vols|
  {
    if vols == [] then []
    else VolumeCorners(e, vols[..|vols| - 1]) + [Corner(e, Vertices(vols[|vols| - 1].faceTriangles))]
  }

  lemma {:induction false} VolumeCornersAt(e: Extreme, vols: seq<SimpleVolume>, i: nat)
    requires i < |vols|
    ensures VolumeCorners(e, vols)[i] == Corner(e, Vertices(vols[i].faceTriangles))
  {
    if i < |vols| - 1 {
      VolumeCornersAt(e, vols[..|vols| - 1], i);
    }
  }

  /**
   * The model's box on every axis bounds every volume's box and equals one of them; an empty
   * volume takes part with the origin, and a model without volumes has the origin as its box.
   */
  lemma ModelCornerOfVolumes(e: Extreme, vols: seq<SimpleVolume>)
    ensures vols == [] ==> Corner(e, VolumeCorners(e, vols)) == Origin
    ensures forall i, a: Axis | 0 <= i < |vols| ::
      Beats(e, Coord(Corner(e, VolumeCorners(e, vols)), a), Coord(Corner(e, Vertices(vols[i].faceTriangles)), a))
    ensures vols != [] ==> forall a: Axis :: exists i | 0 <= i < |vols| ::
      Coord(Corner(e, VolumeCorners(e, vols)), a) == Coord(Corner(e, Vertices(vols[i].faceTriangles)), a)
    ensures (exists i | 0 <= i < |vols| :: vols[i].faceTriangles == []) ==>
      forall a: Axis :: Beats(e, Coord(Corner(e, VolumeCorners(e, vols)), a), 0)
  {
    var cs := VolumeCorners(e, vols);
    if vols != [] {
      CornerCharacterised(e, cs, Corner(e, cs));
      forall i | 0 <= i < |vols| ensures cs[i] == Corner(e, Vertices(vols[i].faceTriangles)) && cs[i] in cs {
        VolumeCornersAt(e, vols, i);
      }
      forall a: Axis ensures exists i | 0 <= i < |vols| ::
        Coord(Corner(e, cs), a) == Coord(Corner(e, Vertices(vols[i].faceTriangles)), a)
      {
        var w :| w in cs && Coord(Corner(e, cs), a) == Coord(w, a);
        var i :| 0 <= i < |cs| && cs[i] == w;
      }
      if exists i | 0 <= i < |vols| :: vols[i].faceTriangles == [] {
        var i :| 0 <= i < |vols| && vols[i].faceTriangles == [];
        assert cs[i] == Origin;
        CornerBoundsOrigin(e, cs);
      }
    }
  }

  /** The points read since the last complete face: `n` of them, held in `v0` and `v1`. */
  function Waiting(n: nat, v0: Point3, v1: Point3): (w: seq<Point3>)
    requires n < 3
    ensures |w| == n
  {
    if n == 0 then [] else if n == 1 then [v0] else [v0, v1]
  }

  /**
   * The inner loop of the binary decoder: the three vertices of record `i`, read from
   * `start` on into `vector`, 12 bytes each.  Answers the exception of the first read that
   * fails, if any, and the position after the three vertices.
   */
  method ReadVertices<S>(bytes: seq<bv8>, start: nat, vector: array<Point3>, nums: BinaryNumerics<S>, ghost i: nat)
    returns (fault: Option<Exception>, currentPosition: nat)
    requires vector.Length == 3 && start == VertexOffset(i, 0)
    modifies vector
    ensures fault.Some? <==> RecordFace(bytes, i, nums).Err?
    ensures fault.Some? ==> RecordFace(bytes, i, nums).error == fault.value
    ensures fault.None? ==>
      currentPosition == VertexOffset(i, 2) + VertexSize &&
      RecordFace(bytes, i, nums) == Ok(SimpleFace(vector[2], vector[1], vector[0]))
  {
    currentPosition := start;
    ghost var ws: seq<Point3> := [];
    for j := 0 to 3
      invariant currentPosition == VertexOffset(i, j)
      invariant RecordVertices(bytes, start, j, nums) == Ok(ws)
      invariant j > 0 ==> vector[0] == ws[0]
      invariant j > 1 ==> vector[1] == ws[1]
      invariant j > 2 ==> vector[2] == ws[2]
    {
      var x := SingleAt(bytes, currentPosition + 0 * 4, nums);
      if x.Err? {
        RecordVerticesErrPersists(bytes, start, j + 1, 3, nums);
        return Some(x.error), currentPosition;
      }
      var y := SingleAt(bytes, currentPosition + 1 * 4, nums);
      if y.Err? {
        RecordVerticesErrPersists(bytes, start, j + 1, 3, nums);
        return Some(y.error), currentPosition;
      }
      var z := SingleAt(bytes, currentPosition + 2 * 4, nums);
      if z.Err? {
        RecordVerticesErrPersists(bytes, start, j + 1, 3, nums);
        return Some(z.error), currentPosition;
      }
      vector[j] := ScaledPoint(x.value, y.value, z.value, nums);
      ws := ws + [vector[j]];
      currentPosition := currentPosition + VertexSize;
    }
    return None, currentPosition;
  }

  /**
   * The record loop of the binary decoder: appends the faces of records 0 .. t-1 to an
   * empty volume, passing over each record's normal and attribute.  Answers the exception
   * of the first read that fails, if any.
   */
  method ReadRecords<S>(bytes: seq<bv8>, vol: SimpleVolume, numTriangles: nat, nums: BinaryNumerics<S>)
    returns (fault: Option<Exception>)
    requires vol.faceTriangles == []
    modifies vol
    ensures fault.Some? <==> Records(bytes, numTriangles, nums).Err?
    ensures fault.Some? ==> Records(bytes, numTriangles, nums).error == fault.value
    ensures fault.None? ==> Records(bytes, numTriangles, nums) == Ok(vol.faceTriangles)
  {
    var currentPosition := RecordsOffset;
    var vector := new Point3[3](_ => Origin);
    var i := 0;
    while i < numTriangles
      invariant 0 <= i <= numTriangles
      invariant currentPosition == RecordsOffset + RecordSize * i
      invariant Records(bytes, i, nums) == Ok(vol.faceTriangles)
    {
      // pass over the 12-byte normal vector
      currentPosition := currentPosition + NormalSize;
      var failed, next := ReadVertices(bytes, currentPosition, vector, nums, i);
      if failed.Some? {
        RecordsErrPersists(bytes, i + 1, numTriangles, nums);
        return failed;
      }
      // pass over the 2-byte attribute count
      currentPosition := next + 2;
      vol.AddFaceTriangle(vector[2], vector[1], vector[0]);
      i := i + 1;
    }
    return None;
  }

  /**
   * The `switch (n)` of the text decoder after `n++`: the transformed point `p` becomes `v0`,
   * `v1` or `v2`, and the third one completes a face on `vol` and resets the count.  The
   * points read so far, grouped faces first, gain exactly `p`.
   */
  method CountVertex(vol: SimpleVolume, n: nat, v0: Point3, v1: Point3, v2: Point3, p: Point3)
    returns (count: nat, w0: Point3, w1: Point3, w2: Point3)
    requires n < 3
    modifies vol
    ensures count < 3
    ensures vol.faceTriangles == old(vol.faceTriangles) + (if n == 2 then [SimpleFace(v0, v1, p)] else [])
    ensures Vertices(vol.faceTriangles) + Waiting(count, w0, w1) ==
            Vertices(old(vol.faceTriangles)) + Waiting(n, v0, v1) + [p]
  {
    count, w0, w1, w2 := n + 1, v0, v1, v2;
    if count == 1 {
      w0 := p;
    } else if count == 2 {
      w1 := p;
    } else {
      w2 := p;
      VerticesAppendFace(vol.faceTriangles, SimpleFace(w0, w1, w2));
      vol.AddFaceTriangle(w0, w1, w2);
      count := 0;
    }
  }

  /**
   * The line loop of the text decoder over the tokenised lines: appends a face to the empty
   * volume for every three vertex lines, and answers the exception of the first vertex line
   * that does not parse, if any.
   */
  method ReadTextFaces<D>(tls: seq<seq<string>>, vol: SimpleVolume, nums: TextNumerics<D>, matrix: FPoint3<D> -> Point3)
    returns (fault: Option<Exception>)
    requires vol.faceTriangles == []
    modifies vol
    ensures fault.Some? <==> TextVertices(tls, nums, matrix).Err?
    ensures fault.Some? ==> TextVertices(tls, nums, matrix).error == fault.value
    ensures fault.None? ==> vol.faceTriangles == Group(TextVertices(tls, nums, matrix).value)
  {
    var n := 0;
    var v0, v1, v2 := Origin, Origin, Origin;
    assert tls[..0] == [] && Vertices(vol.faceTriangles) + Waiting(n, v0, v1) == [];
    var index := 0;
    while index < |tls|
      invariant 0 <= index <= |tls|
      invariant 0 <= n < 3
      invariant TextVertices(tls[..index], nums, matrix) == Ok(Vertices(vol.faceTriangles) + Waiting(n, v0, v1))
    {
      var parts := tls[index];
      assert tls[..index + 1][..index] == tls[..index];
      // parts[0].Trim() == "vertex", the trim being a no-op on a token (VertexTestIgnoresTrim)
      if IsVertexLine(parts) {
        // x, then y, then z
        var parsed := ParseVertex(parts, nums);
        if parsed.Err? {
          TextVerticesErrPersists(tls, index + 1, nums, matrix);
          return Some(parsed.error);
        }
        // millimetres to micrometres
        var vertex := Scale(parsed.value, nums.times1000);
        ghost var read := Vertices(vol.faceTriangles) + Waiting(n, v0, v1);
        TextVerticesAppend(tls, index, read, Transform(matrix, vertex), nums, matrix);
        n, v0, v1, v2 := CountVertex(vol, n, v0, v1, v2, Transform(matrix, vertex));
      } else {
        TextVerticesSkip(tls, index, nums, matrix);
      }
      index := index + 1;
    }
    assert tls[..|tls|] == tls;
    GroupOfVertices(vol.faceTriangles, Waiting(n, v0, v1));
    return None;
  }

  /** One load of a file: the text decoder first, the binary decoder when it found no face. */
  function FileDecode<D, S>(lines: seq<string>, bytes: seq<bv8>, tn: TextNumerics<D>, bn: BinaryNumerics<S>,
                            matrix: FPoint3<D> -> Point3): Decoded
  {
    match TextDecode(lines, tn, matrix)
    case Mesh(fs) => if |fs| == 0 then BinaryDecodeAsWritten(bytes, bn) else Mesh(fs)
    case other => other
  }

  /**
   * With three or more `vertex` lines that all parse the text result is returned; with fewer
   * (a binary file read as text, an empty text mesh) the binary decoder decides, and its
   * "no model" is returned as it is.  A text exception escapes without any binary attempt.
   */
  lemma FileDecodeDispatch<D, S>(lines: seq<string>, bytes: seq<bv8>, tn: TextNumerics<D>, bn: BinaryNumerics<S>,
                                 matrix: FPoint3<D> -> Point3)
    ensures var vls := VertexLines(LineParts(lines));
      (forall i | 0 <= i < |vls| :: VertexPoint(vls[i], tn, matrix).Ok?) ==>
        FileDecode(lines, bytes, tn, bn, matrix) ==
          if |vls| < 3 then BinaryDecodeAsWritten(bytes, bn) else TextDecode(lines, tn, matrix)
    ensures TextDecode(lines, tn, matrix).Thrown? ==> FileDecode(lines, bytes, tn, bn, matrix) == TextDecode(lines, tn, matrix)
    ensures VertexLines(LineParts(lines)) == [] ==> FileDecode(lines, bytes, tn, bn, matrix) == BinaryDecodeAsWritten(bytes, bn)
  {
    TextDecodeShape(lines, tn, matrix);
  }

  class SimpleModel {
    var volumes: seq<SimpleVolume>

    constructor ()
      ensures volumes == []
    {
      volumes := [];
    }

    /** The minimum over the volumes' minimum corners; the origin when there are no volumes. */
    method MinXYZ() returns (r: Point3)
      ensures r == Corner(Lowest, VolumeCorners(Lowest, volumes))
    {
      if |volumes| < 1 {
        return Origin;
      }
      ghost var cs := VolumeCorners(Lowest, volumes);
      var ret := volumes[0].MinXYZ();
      VolumeCornersAt(Lowest, volumes, 0);
      ghost var first := [ret];
      for volumeIndex := 0 to |volumes|
        invariant ret == Corner(Lowest, first + cs[..volumeIndex])
      {
        var v := volumes[volumeIndex].MinXYZ();
        VolumeCornersAt(Lowest, volumes, volumeIndex);
        assert first + cs[..volumeIndex + 1] == first + cs[..volumeIndex] + [v];
        CornerSnoc(Lowest, first + cs[..volumeIndex], v);
        ret := ret.(x := Pick(Lowest, ret.x, v.x));
        ret := ret.(y := Pick(Lowest, ret.y, v.y));
        ret := ret.(z := Pick(Lowest, ret.z, v.z));
      }
      assert cs[..|volumes|] == cs;
      CornerOfSameElements(Lowest, first + cs, cs);
      return ret;
    }

    /** The maximum over the volumes' maximum corners; the origin when there are no volumes. */
    method MaxXYZ() returns (r: Point3)
      ensures r == Corner(Highest, VolumeCorners(Highest, volumes))
    {
      if |volumes| < 1 {
        return Origin;
      }
      ghost var cs := VolumeCorners(Highest, volumes);
      var ret := volumes[0].MaxXYZ();
      VolumeCornersAt(Highest, volumes, 0);
      ghost var first := [ret];
      for i := 0 to |volumes|
        invariant ret == Corner(Highest, first + cs[..i])
      {
        var v := volumes[i].MaxXYZ();
        VolumeCornersAt(Highest, volumes, i);
        assert first + cs[..i + 1] == first + cs[..i] + [v];
        CornerSnoc(Highest, first + cs[..i], v);
        ret := ret.(x := Pick(Highest, ret.x, v.x));
        ret := ret.(y := Pick(Highest, ret.y, v.y));
        ret := ret.(z := Pick(Highest, ret.z, v.z));
      }
      assert cs[..|volumes|] == cs;
      CornerOfSameElements(Highest, first + cs, cs);
      return ret;
    }

    /**
     * The text decoder over the lines of a file: one fresh model holding one fresh volume
     * whose faces are TextDecode's, or the exception TextDecode names.
     */
    static method LoadModelSTL_ascii<D>(lines: seq<string>, nums: TextNumerics<D>, matrix: FPoint3<D> -> Point3)
      returns (r: LoadResult)
      ensures r.Loaded? <==> TextDecode(lines, nums, matrix).Mesh?
      ensures !r.Null?
      ensures r.Threw? ==> TextDecode(lines, nums, matrix) == Thrown(r.error)
      ensures r.Loaded? ==>
        fresh(r.model) && |r.model.volumes| == 1 && fresh(r.model.volumes[0]) &&
        r.model.volumes[0].faceTriangles == TextDecode(lines, nums, matrix).faces
    {
      var m := new SimpleModel();
      var vol := new SimpleVolume();
      m.volumes := m.volumes + [vol];
      // the whitespace collapse, Trim and Split(' ') of every line
      var tls := LineParts(lines);
      var fault := ReadTextFaces(tls, vol, nums, matrix);
      if fault.Some? {
        return Threw(fault.value);
      }
      return Loaded(m);
    }

    /**
     * The binary decoder over the bytes of a file, with the length check as written
     * (`uint` products, the vertex data counted as 12·T bytes): `null`, one fresh model
     * holding one fresh volume whose faces are BinaryDecodeAsWritten's, or the exception
     * of the first read that fails.  `matrix` is accepted and, as in the source, never applied.
     */
    static method LoadModelSTL_binary<D, S>(bytes: seq<bv8>, nums: BinaryNumerics<S>, matrix: FPoint3<D> -> Point3)
      returns (r: LoadResult)
      ensures r.Loaded? <==> BinaryDecodeAsWritten(bytes, nums).Mesh?
      ensures r.Null? <==> BinaryDecodeAsWritten(bytes, nums).NoModel?
      ensures r.Threw? ==> BinaryDecodeAsWritten(bytes, nums) == Thrown(r.error)
      ensures r.Loaded? ==>
        fresh(r.model) && |r.model.volumes| == 1 && fresh(r.model.volumes[0]) &&
        r.model.volumes[0].faceTriangles == BinaryDecodeAsWritten(bytes, nums).faces
    {
      var m := new SimpleModel();
      var currentPosition := CountOffset;
      var count := UInt32At(bytes, currentPosition);
      if count.Err? {
        return Threw(count.error);
      }
      var numTriangles := count.value;
      // `uint` arithmetic, widened to `long` only afterwards
      var bytesForNormals := Wrap32(Wrap32(numTriangles * 3) * 4);
      var bytesForVertices := Wrap32(Wrap32(numTriangles * 3) * 4);
      var bytesForAttributes := Wrap32(numTriangles * 2);
      currentPosition := currentPosition + 4;
      var numBytesRequiredForVertexData := currentPosition + bytesForNormals + bytesForVertices + bytesForAttributes;
      assert numBytesRequiredForVertexData == RequiredLengthAsWritten(numTriangles);
      if |bytes| < numBytesRequiredForVertexData || numTriangles < 4 {
        return Null;
      }

      var vol := new SimpleVolume();
      m.volumes := m.volumes + [vol];
      var fault := ReadRecords(bytes, vol, numTriangles, nums);
      if fault.Some? {
        return Threw(fault.value);
      }
      return Loaded(m);
    }

    /**
     * `loadModelFromFile`: the text decoder's model unless its volume has no face, in which
     * case whatever the binary decoder returns, `null` included.  The file is given both as
     * its lines and as its bytes.
     */
    static method LoadModelFromFile<D, S>(lines: seq<string>, bytes: seq<bv8>, tn: TextNumerics<D>,
                                          bn: BinaryNumerics<S>, matrix: FPoint3<D> -> Point3)
      returns (r: LoadResult)
      ensures r.Loaded? <==> FileDecode(lines, bytes, tn, bn, matrix).Mesh?
      ensures r.Null? <==> FileDecode(lines, bytes, tn, bn, matrix).NoModel?
      ensures r.Threw? ==> FileDecode(lines, bytes, tn, bn, matrix) == Thrown(r.error)
      ensures r.Loaded? ==>
        fresh(r.model) && |r.model.volumes| == 1 && fresh(r.model.volumes[0]) &&
        r.model.volumes[0].faceTriangles == FileDecode(lines, bytes, tn, bn, matrix).faces
    {
      var fromAsciiModel := LoadModelSTL_ascii(lines, tn, matrix);
      if fromAsciiModel.Threw? {
        return fromAsciiModel;
      }
      if |fromAsciiModel.model.volumes[0].faceTriangles| == 0 {
        r := LoadModelSTL_binary(bytes, bn, matrix);
        return;
      }
      return fromAsciiModel;
    }
  }
}
