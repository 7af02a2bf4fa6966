/** Walls and attraction points of a floor plan. A wall starts as an axis-aligned rectangle;
    an SVG matrix(a,b,c,d,e,f) and then a scale(sx,sy) transform may move its four corners,
    and its outline polygon is rebuilt from the corners after every change. */
module ShopObjects {

  datatype Point = Point(x: real, y: real)

  /** The four named corners of a wall. */
  datatype Corners = Corners(topLeft: Point, topRight: Point, bottomLeft: Point, bottomRight: Point)

  /** Corners of the rectangle with top-left (x, y), extending right by width and down by height. */
  function Rectangle(x: real, y: real, width: real, height: real): Corners
  {
    Corners(Point(x, y), Point(x + width, y), Point(x, y + height), Point(x + width, y + height))
  }

  /** The outline as a polygon: top-left, top-right, bottom-right, bottom-left. */
  function Outline(c: Corners): seq<Point>
  {
    [c.topLeft, c.topRight, c.bottomRight, c.bottomLeft]
  }

  /** Section 7.4 of SVG 1.1: matrix(a,b,c,d,e,f) maps (x, y) to (a x + c y + e, b x + d y + f).
      Entries past the sixth are ignored. */
  function Affine(m: seq<real>, p: Point): Point
    requires |m| >= 6
  {
    Point(m[0] * p.x + m[2] * p.y + m[4], m[1] * p.x + m[3] * p.y + m[5])
  }

  /** scale(sx, sy) maps (x, y) to (x sx, y sy). */
  function Scale(sx: real, sy: real, p: Point): Point
  {
    Point(p.x * sx, p.y * sy)
  }

  function AffineCorners(m: seq<real>, c: Corners): Corners
    requires |m| >= 6
  {
    Corners(Affine(m, c.topLeft), Affine(m, c.topRight), Affine(m, c.bottomLeft), Affine(m, c.bottomRight))
  }

  function ScaleCorners(sx: real, sy: real, c: Corners): Corners
  {
    Corners(Scale(sx, sy, c.topLeft), Scale(sx, sy, c.topRight),
            Scale(sx, sy, c.bottomLeft), Scale(sx, sy, c.bottomRight))
  }

  /** A list given to the constructor is applied when it is non-empty (Python truthiness);
      a matrix list needs six entries and a scale list two, or indexing it fails. */
  predicate WellFormedTransforms(matrix: seq<real>, scale: seq<real>)
  {
    (|matrix| == 0 || |matrix| >= 6) && (|scale| == 0 || |scale| >= 2)
  }

  /** The corners a new wall ends with: rectangle, then the matrix, then the scale. */
  function WallCorners(x: real, y: real, width: real, height: real, matrix: seq<real>, scale: seq<real>): Corners
    requires WellFormedTransforms(matrix, scale)
  {
    var r := Rectangle(x, y, width, height);
    var m := if |matrix| > 0 then AffineCorners(matrix, r) else r;
    if |scale| > 0 then ScaleCorners(scale[0], scale[1], m) else m
  }

  /** Opposite sides are equal vectors: TR - TL == BR - BL. */
  predicate IsParallelogram(c: Corners)
  {
    && c.topRight.x - c.topLeft.x == c.bottomRight.x - c.bottomLeft.x
    && c.topRight.y - c.topLeft.y == c.bottomRight.y - c.bottomLeft.y
  }

  lemma RectangleIsParallelogram(x: real, y: real, width: real, height: real)
    ensures IsParallelogram(Rectangle(x, y, width, height))
    ensures Rectangle(x, y, width, height).topRight.x - Rectangle(x, y, width, height).topLeft.x == width
    ensures Rectangle(x, y, width, height).bottomLeft.y - Rectangle(x, y, width, height).topLeft.y == height
  {
  }

  /** The matrix maps the difference of two points linearly; the translation cancels. */
  lemma AffineDifference(m: seq<real>, p: Point, q: Point)
    requires |m| >= 6
    ensures Affine(m, p).x - Affine(m, q).x == m[0] * (p.x - q.x) + m[2] * (p.y - q.y)
    ensures Affine(m, p).y - Affine(m, q).y == m[1] * (p.x - q.x) + m[3] * (p.y - q.y)
  {
    assert m[0] * (p.x - q.x) == m[0] * p.x - m[0] * q.x;
    assert m[2] * (p.y - q.y) == m[2] * p.y - m[2] * q.y;
    assert m[1] * (p.x - q.x) == m[1] * p.x - m[1] * q.x;
    assert m[3] * (p.y - q.y) == m[3] * p.y - m[3] * q.y;
  }

  lemma AffinePreservesParallelogram(m: seq<real>, c: Corners)
    requires |m| >= 6 && IsParallelogram(c)
    ensures IsParallelogram(AffineCorners(m, c))
  {
    AffineDifference(m, c.topRight, c.topLeft);
    AffineDifference(m, c.bottomRight, c.bottomLeft);
  }

  lemma ScalePreservesParallelogram(sx: real, sy: real, c: Corners)
    requires IsParallelogram(c)
    ensures IsParallelogram(ScaleCorners(sx, sy, c))
  {
    var dx := c.topRight.x - c.topLeft.x;
    var dy := c.topRight.y - c.topLeft.y;
    assert c.bottomRight.x == c.bottomLeft.x + dx;
    assert c.bottomRight.y == c.bottomLeft.y + dy;
    assert Scale(sx, sy, c.topRight).x - Scale(sx, sy, c.topLeft).x == dx * sx;
    assert Scale(sx, sy, c.bottomRight).x - Scale(sx, sy, c.bottomLeft).x == dx * sx;
    assert Scale(sx, sy, c.topRight).y - Scale(sx, sy, c.topLeft).y == dy * sy;
    assert Scale(sx, sy, c.bottomRight).y - Scale(sx, sy, c.bottomLeft).y == dy * sy;
  }

  /** Every wall the constructor can build is a parallelogram. */
  lemma WallCornersAreParallelogram(x: real, y: real, width: real, height: real, matrix: seq<real>, scale: seq<real>)
    requires WellFormedTransforms(matrix, scale)
    ensures IsParallelogram(WallCorners(x, y, width, height, matrix, scale))
  {
    var r := Rectangle(x, y, width, height);
    RectangleIsParallelogram(x, y, width, height);
    var m := if |matrix| > 0 then AffineCorners(matrix, r) else r;
    if |matrix| > 0 {
      AffinePreservesParallelogram(matrix, r);
    }
    if |scale| > 0 {
      ScalePreservesParallelogram(scale[0], scale[1], m);
    }
  }

  /** matrix(1,0,0,1,0,0) and scale(1,1) are identities. */
  lemma IdentityTransforms(c: Corners)
    ensures AffineCorners([1.0, 0.0, 0.0, 1.0, 0.0, 0.0], c) == c
    ensures ScaleCorners(1.0, 1.0, c) == c
  {
  }

  /** Matrix then scale is itself the single SVG matrix with rows scaled by sx and sy. */
  lemma ScaleAfterMatrixIsMatrix(m: seq<real>, sx: real, sy: real, p: Point)
    requires |m| >= 6
    ensures Scale(sx, sy, Affine(m, p))
         == Affine([m[0] * sx, m[1] * sy, m[2] * sx, m[3] * sy, m[4] * sx, m[5] * sy], p)
  {
    var q := Affine([m[0] * sx, m[1] * sy, m[2] * sx, m[3] * sy, m[4] * sx, m[5] * sy], p);
    assert (m[0] * p.x + m[2] * p.y + m[4]) * sx == m[0] * sx * p.x + m[2] * sx * p.y + m[4] * sx;
    assert (m[1] * p.x + m[3] * p.y + m[5]) * sy == m[1] * sy * p.x + m[3] * sy * p.y + m[5] * sy;
  }

  class Wall {
    var id: string
    var topLeft: Point
    var topRight: Point
    var bottomLeft: Point
    var bottomRight: Point
    /** The outline polygon (a shapely Polygon in the Python program). */
    var poly: seq<Point>

    function Shape(): Corners
      reads this
    {
      Corners(topLeft, topRight, bottomLeft, bottomRight)
    }

    /** The outline matches the corners and the corners form a parallelogram. */
    ghost predicate Valid()
      reads this
    {
      poly == Outline(Shape()) && IsParallelogram(Shape())
    }

    constructor (x: real, y: real, width: real, height: real, matrix: seq<real>, scale: seq<real>)
      requires WellFormedTransforms(matrix, scale)
      ensures Valid()
      ensures id == "no_id"
      ensures Shape() == WallCorners(x, y, width, height, matrix, scale)
    {
      id := "no_id";
      topLeft := Point(x, y);
      topRight := Point(x + width, y);
      bottomLeft := Point(x, y + height);
      bottomRight := Point(x + width, y + height);
      poly := [];
      new;
      InitPolygonObject();
      RectangleIsParallelogram(x, y, width, height);
      if |matrix| > 0 {
        var ok := MatrixTransform(matrix);
      }
      if |scale| > 0 {
        var ok := ScaleTransform(scale);
      }
    }

    /** Rebuilds the outline from the current corners. */
    method InitPolygonObject()
      modifies this`poly
      ensures poly == Outline(Shape())
    {
      poly := [topLeft, topRight, bottomRight, bottomLeft];
    }

    method SetID(idWall: string)
      modifies this`id
      ensures id == idWall
    {
      id := idWall;
    }

    /** Scales every corner by (scale[0], scale[1]); a list shorter than two fails
        (IndexError) before anything changes. */
    method ScaleTransform(scale: seq<real>) returns (ok: bool)
      requires Valid()
      modifies this`topLeft, this`topRight, this`bottomLeft, this`bottomRight, this`poly
      ensures Valid()
      ensures ok <==> |scale| >= 2
      ensures ok ==> Shape() == ScaleCorners(scale[0], scale[1], old(Shape()))
      ensures !ok ==> Shape() == old(Shape()) && poly == old(poly)
    {
      if |scale| < 2 {
        return false;
      }
      var a := scale[0];
      var b := scale[1];
      ScalePreservesParallelogram(a, b, Shape());
      topLeft := Scale(a, b, topLeft);
      topRight := Scale(a, b, topRight);
      bottomLeft := Scale(a, b, bottomLeft);
      bottomRight := Scale(a, b, bottomRight);
      InitPolygonObject();
      ok := true;
    }

    /** Maps every corner through the SVG matrix; a list shorter than six fails
        (IndexError) before anything changes. */
    method MatrixTransform(matrix: seq<real>) returns (ok: bool)
      requires Valid()
      modifies this`topLeft, this`topRight, this`bottomLeft, this`bottomRight, this`poly
      ensures Valid()
      ensures ok <==> |matrix| >= 6
      ensures ok ==> Shape() == AffineCorners(matrix, old(Shape()))
      ensures !ok ==> Shape() == old(Shape()) && poly == old(poly)
    {
      if |matrix| < 6 {
        return false;
      }
      AffinePreservesParallelogram(matrix, Shape());
      topLeft := Affine(matrix, topLeft);
      topRight := Affine(matrix, topRight);
      bottomLeft := Affine(matrix, bottomLeft);
      bottomRight := Affine(matrix, bottomRight);
      InitPolygonObject();
      ok := true;
    }
  }

  /** A named circle the walkers are drawn to. */
  class AttractionPoint {
    var cx: real
    var cy: real
    var r: real
    var id: string
    /** The centre as a point (a shapely Point in the Python program). */
    var p: Point

    constructor (x: real, y: real, r: real := 0.0)
      ensures cx == x && cy == y && this.r == r && id == "no_id" && p == Point(x, y)
    {
      cx, cy, this.r := x, y, r;
      id := "no_id";
      p := Point(x, y);
    }

    method SetID(pID: string)
      modifies this`id
      ensures id == pID
    {
      id := pID;
    }
  }
}
