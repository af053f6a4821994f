/** Integer points, mesh triangles, and the bounding-box corner of a set of points. */
module Geometry {
  import opened Wrappers

  /** A point in the internal unit (micrometres); any integer, negative included. */
  datatype Point3 = Point3(x: int, y: int, z: int)

  const Origin := Point3(0, 0, 0)

  /** A vertex as read from a file, before scaling and conversion; `D` is the floating type. */
  datatype FPoint3<D> = FPoint3(x: D, y: D, z: D)

  /** A triangle: three points in winding order (`v[0]`, `v[1]`, `v[2]` of the source). */
  datatype SimpleFace = SimpleFace(v0: Point3, v1: Point3, v2: Point3) {
    function V(k: nat): Point3
      requires k < 3
    {
      if k == 0 then v0 else if k == 1 then v1 else v2
    }
  }

  /** What a decoder hands back: a list of faces, no model at all, or an escaping exception. */
  datatype Decoded = Mesh(faces: seq<SimpleFace>) | NoModel | Thrown(error: Exception)

  datatype Axis = X | Y | Z

  function Coord(p: Point3, a: Axis): int {
    match a
    case X => p.x
    case Y => p.y
    case Z => p.z
  }

  /** The minimum corner (`Lowest`) or the maximum corner (`Highest`) of a bounding box. */
  datatype Extreme = Lowest | Highest

  /** `a` is at least as extreme as `b` in direction `e`. */
  predicate Beats(e: Extreme, a: int, b: int) {
    match e
    case Lowest => a <= b
    case Highest => a >= b
  }

  /** The running value `n` after one `SET_MIN(ref n, m)` (or `SET_MAX`) step. */
  function Pick(e: Extreme, n: int, m: int): (r: int)
    ensures Beats(e, r, n) && Beats(e, r, m)
    ensures r == n || r == m
  {
    match e
    case Lowest => if m < n then m else n
    case Highest => if m > n then m else n
  }

  /** One `SET_MIN`/`SET_MAX` step on each axis of `p` with the coordinates of `w`. */
  function PickPoint(e: Extreme, p: Point3, w: Point3): Point3 {
    Point3(Pick(e, p.x, w.x), Pick(e, p.y, w.y), Pick(e, p.z, w.z))
  }

  /** Every vertex of every face, three per face, in face order. */
  function Vertices(faces: seq<SimpleFace>): (vs: seq<Point3>)
    ensures |vs| == 3 * |faces|
  {
    if faces == [] then []
    else
      var f := faces[|faces| - 1];
      Vertices(faces[..|faces| - 1]) + [f.v0, f.v1, f.v2]
  }

  /** The running extreme of axis `a` over `vs`, folded from the first point on. */
  function ExtremeCoord(e: Extreme, vs: seq<Point3>, a: Axis): int
    requires vs != []
  {
    if |vs| == 1 then Coord(vs[0], a)
    else Pick(e, ExtremeCoord(e, vs[..|vs| - 1], a), Coord(vs[|vs| - 1], a))
  }

  /** The bounding-box corner of `vs`: the origin when there are no points. */
  function Corner(e: Extreme, vs: seq<Point3>): Point3 {
    if vs == [] then Origin
    else Point3(ExtremeCoord(e, vs, X), ExtremeCoord(e, vs, Y), ExtremeCoord(e, vs, Z))
  }

  /** On every axis `p` bounds every point of `vs` and equals the coordinate of one of them. */
  ghost predicate IsCorner(e: Extreme, p: Point3, vs: seq<Point3>) {
    forall a: Axis ::
      (forall w | w in vs :: Beats(e, Coord(p, a), Coord(w, a))) &&
      (exists w | w in vs :: Coord(p, a) == Coord(w, a))
  }

  lemma {:induction false} VerticesAt(faces: seq<SimpleFace>, i: nat, k: nat)
    requires i < |faces| && k < 3
    ensures Vertices(faces)[3 * i + k] == faces[i].V(k)
  {
    var n := |faces| - 1;
    if i < n {
      VerticesAt(faces[..n], i, k);
      assert Vertices(faces) == Vertices(faces[..n]) + [faces[n].v0, faces[n].v1, faces[n].v2];
    }
  }

  /** A point is a vertex of the faces exactly when it is some vertex of some face. */
  lemma VerticesMembers(faces: seq<SimpleFace>, w: Point3)
    ensures w in Vertices(faces) <==> exists i, k | 0 <= i < |faces| && 0 <= k < 3 :: faces[i].V(k) == w
  {
    var vs := Vertices(faces);
    if w in vs {
      var j :| 0 <= j < |vs| && vs[j] == w;
      VerticesAt(faces, j / 3, j % 3);
    }
    if exists i, k | 0 <= i < |faces| && 0 <= k < 3 :: faces[i].V(k) == w {
      var i, k :| 0 <= i < |faces| && 0 <= k < 3 && faces[i].V(k) == w;
      VerticesAt(faces, i, k);
      assert vs[3 * i + k] == w;
    }
  }

  /** The fold bounds every point on its axis and is attained by one of them. */
  lemma {:induction false} ExtremeCoordIsExtreme(e: Extreme, vs: seq<Point3>, a: Axis)
    requires vs != []
    ensures forall w | w in vs :: Beats(e, ExtremeCoord(e, vs, a), Coord(w, a))
    ensures exists w | w in vs :: ExtremeCoord(e, vs, a) == Coord(w, a)
  {
    if |vs| > 1 {
      var init := vs[..|vs| - 1];
      ExtremeCoordIsExtreme(e, init, a);
      assert vs == init + [vs[|vs| - 1]];
      var w :| w in init && ExtremeCoord(e, init, a) == Coord(w, a);
      assert w in vs;
    } else {
      assert vs[0] in vs;
    }
  }

  /** The corner of a non-empty point list is exactly the point that bounds and is attained on every axis. */
  lemma CornerCharacterised(e: Extreme, vs: seq<Point3>, p: Point3)
    requires vs != []
    ensures p == Corner(e, vs) <==> IsCorner(e, p, vs)
  {
    var c := Corner(e, vs);
    forall a: Axis
      ensures Coord(c, a) == ExtremeCoord(e, vs, a)
      ensures (forall w | w in vs :: Beats(e, Coord(c, a), Coord(w, a))) &&
              (exists w | w in vs :: Coord(c, a) == Coord(w, a))
    {
      ExtremeCoordIsExtreme(e, vs, a);
    }
    if IsCorner(e, p, vs) {
      forall a: Axis ensures Coord(p, a) == Coord(c, a) {
        var wp :| wp in vs && Coord(p, a) == Coord(wp, a);
        var wc :| wc in vs && Coord(c, a) == Coord(wc, a);
        assert Beats(e, Coord(p, a), Coord(wc, a));
        assert Beats(e, Coord(c, a), Coord(wp, a));
      }
      assert Coord(p, X) == Coord(c, X) && Coord(p, Y) == Coord(c, Y) && Coord(p, Z) == Coord(c, Z);
    }
  }

  /** The corner depends only on which points occur, not on their order or repetition. */
  lemma CornerOfSameElements(e: Extreme, vs: seq<Point3>, ws: seq<Point3>)
    requires forall w :: w in vs <==> w in ws
    ensures Corner(e, vs) == Corner(e, ws)
  {
    if vs != [] || ws != [] {
      var w := if vs != [] then vs[0] else ws[0];
      assert w in vs && w in ws;
      CornerCharacterised(e, vs, Corner(e, vs));
      CornerCharacterised(e, ws, Corner(e, vs));
    }
  }

  /** Folding one more point into a non-empty list is one `SET_MIN`/`SET_MAX` step per axis. */
  lemma CornerSnoc(e: Extreme, vs: seq<Point3>, w: Point3)
    requires vs != []
    ensures Corner(e, vs + [w]) == PickPoint(e, Corner(e, vs), w)
  {
    assert (vs + [w])[..|vs|] == vs;
  }

  /** The bounding box of faces bounds every vertex, and each of its coordinates is attained. */
  lemma FacesCorner(e: Extreme, faces: seq<SimpleFace>)
    requires faces != []
    ensures forall i, k, a: Axis | 0 <= i < |faces| && 0 <= k < 3 ::
      Beats(e, Coord(Corner(e, Vertices(faces)), a), Coord(faces[i].V(k), a))
    ensures forall a: Axis :: exists i, k | 0 <= i < |faces| && 0 <= k < 3 ::
      Coord(Corner(e, Vertices(faces)), a) == Coord(faces[i].V(k), a)
  {
    var vs := Vertices(faces);
    var c := Corner(e, vs);
    CornerCharacterised(e, vs, c);
    forall i, k, a: Axis | 0 <= i < |faces| && 0 <= k < 3
      ensures Beats(e, Coord(c, a), Coord(faces[i].V(k), a))
    {
      VerticesAt(faces, i, k);
      assert faces[i].V(k) in vs;
    }
    forall a: Axis ensures exists i, k | 0 <= i < |faces| && 0 <= k < 3 :: Coord(c, a) == Coord(faces[i].V(k), a) {
      var w :| w in vs && Coord(c, a) == Coord(w, a);
      VerticesMembers(faces, w);
    }
  }

  /** When the origin is among the points (an empty volume's corner), the corner is bounded by it. */
  lemma CornerBoundsOrigin(e: Extreme, cs: seq<Point3>)
    requires Origin in cs
    ensures forall a: Axis :: Beats(e, Coord(Corner(e, cs), a), 0)
  {
    CornerCharacterised(e, cs, Corner(e, cs));
    forall a: Axis ensures Beats(e, Coord(Corner(e, cs), a), 0) {
      assert Coord(Origin, a) == 0;
    }
  }

  /** Adding a face's vertices to the fold is three `SET_MIN`/`SET_MAX` steps per axis. */
  lemma CornerStep(e: Extreme, vs: seq<Point3>, f: SimpleFace)
    requires vs != []
    ensures Corner(e, vs + [f.v0, f.v1, f.v2]) == PickPoint(e, PickPoint(e, PickPoint(e, Corner(e, vs), f.v0), f.v1), f.v2)
  {
    CornerSnoc(e, vs, f.v0);
    CornerSnoc(e, vs + [f.v0], f.v1);
    CornerSnoc(e, vs + [f.v0] + [f.v1], f.v2);
    assert vs + [f.v0, f.v1, f.v2] == vs + [f.v0] + [f.v1] + [f.v2];
  }

  /** The vertices of one more face come after those of the faces before it. */
  lemma VerticesSnoc(faces: seq<SimpleFace>, i: nat)
    requires i < |faces|
    ensures Vertices(faces[..i + 1]) == Vertices(faces[..i]) + [faces[i].v0, faces[i].v1, faces[i].v2]
  {
    assert faces[..i + 1][..i] == faces[..i];
  }

  /** Appending a face appends its three vertices. */
  lemma VerticesAppendFace(faces: seq<SimpleFace>, f: SimpleFace)
    ensures Vertices(faces + [f]) == Vertices(faces) + [f.v0, f.v1, f.v2]
  {
    assert (faces + [f])[..|faces|] == faces;
  }

  /** One triangle (0,0,0), (1000,0,0), (0,1000,0): its box runs from (0,0,0) to (1000,1000,0). */
  lemma BoundingBoxExample()
    ensures Corner(Lowest, Vertices([SimpleFace(Origin, Point3(1000, 0, 0), Point3(0, 1000, 0))])) == Origin
    ensures Corner(Highest, Vertices([SimpleFace(Origin, Point3(1000, 0, 0), Point3(0, 1000, 0))])) == Point3(1000, 1000, 0)
  {
    var f := SimpleFace(Origin, Point3(1000, 0, 0), Point3(0, 1000, 0));
    assert Vertices([f]) == [f.v0, f.v1, f.v2] by {
      assert [f][..0] == [];
    }
    assert [f.v0, f.v1, f.v2] == [f.v0] + [f.v1] + [f.v2];
    CornerSnoc(Lowest, [f.v0], f.v1);
    CornerSnoc(Lowest, [f.v0] + [f.v1], f.v2);
    CornerSnoc(Highest, [f.v0], f.v1);
    CornerSnoc(Highest, [f.v0] + [f.v1], f.v2);
  }
}
