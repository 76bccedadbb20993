/**
 * Points, rectangles and the six-coefficient affine transform of fontTools
 * (fontTools.misc.transform.Transform), over exact reals.
 */
module Affine {

  datatype Point = Point(x: real, y: real)

  /** picosvg's Rect(x, y, w, h). */
  datatype Rect = Rect(x: real, y: real, w: real, h: real)

  /** Transform(xx, xy, yx, yy, dx, dy). */
  datatype Transform = Transform(xx: real, xy: real, yx: real, yy: real, dx: real, dy: real)

  /** transformPoint: (x, y) is sent to (xx*x + yx*y + dx, xy*x + yy*y + dy). */
  function Apply(t: Transform, p: Point): Point {
    Point(t.xx * p.x + t.yx * p.y + t.dx, t.xy * p.x + t.yy * p.y + t.dy)
  }

  /** Every point of an outline pushed through the transform (what a TransformPen does to a drawing). */
  function ApplyAll(t: Transform, points: seq<Point>): (r: seq<Point>)
    ensures |r| == |points|
    ensures forall i :: 0 <= i < |points| ==> r[i] == Apply(t, points[i])
  {
    seq(|points|, i requires 0 <= i < |points| => Apply(t, points[i]))
  }

  /**
   * t.transform(other): the transform that applies `other` first and `t` after it.
   */
  function Compose(t: Transform, other: Transform): (r: Transform)
    ensures forall p :: Apply(r, p) == Apply(t, Apply(other, p))
  {
    Transform(
      other.xx * t.xx + other.xy * t.yx,
      other.xx * t.xy + other.xy * t.yy,
      other.yx * t.xx + other.yy * t.yx,
      other.yx * t.xy + other.yy * t.yy,
      t.xx * other.dx + t.yx * other.dy + t.dx,
      t.xy * other.dx + t.yy * other.dy + t.dy)
  }

  /**
   * t.translate(tx, ty) == t.transform((1, 0, 0, 1, tx, ty)): the translation
   * happens in source space, before t; the linear part is unchanged.
   */
  function Translate(t: Transform, tx: real, ty: real): (r: Transform)
    ensures r.xx == t.xx && r.xy == t.xy && r.yx == t.yx && r.yy == t.yy
  {
    Transform(t.xx, t.xy, t.yx, t.yy, t.xx * tx + t.yx * ty + t.dx, t.xy * tx + t.yy * ty + t.dy)
  }

  lemma Distribute(a: real, b: real, c: real)
    ensures a * (b + c) == a * b + a * c
  {
  }

  /** The point is moved by (tx, ty) first and then sent through t. */
  lemma TranslatePoint(t: Transform, tx: real, ty: real, p: Point)
    ensures Apply(Translate(t, tx, ty), p) == Apply(t, Point(p.x + tx, p.y + ty))
  {
    var r := Translate(t, tx, ty);
    var q := Point(p.x + tx, p.y + ty);
    assert r.dx == t.xx * tx + t.yx * ty + t.dx;
    assert Apply(r, p).x == t.xx * p.x + t.yx * p.y + r.dx;
    Distribute(t.xx, p.x, tx);
    Distribute(t.yx, p.y, ty);
    assert Apply(r, p).x == Apply(t, q).x;
    assert r.dy == t.xy * tx + t.yy * ty + t.dy;
    Distribute(t.xy, p.x, tx);
    Distribute(t.yy, p.y, ty);
    assert Apply(r, p).y == Apply(t, q).y;
  }

  /** The translation is fontTools' transform((1, 0, 0, 1, tx, ty)) composed after t. */
  lemma TranslateIsCompose(t: Transform, tx: real, ty: real)
    ensures Translate(t, tx, ty) == Compose(t, Transform(1.0, 0.0, 0.0, 1.0, tx, ty))
  {
    var c := Compose(t, Transform(1.0, 0.0, 0.0, 1.0, tx, ty));
    assert c.xx == 1.0 * t.xx + 0.0 * t.yx == t.xx;
    assert c.xy == 1.0 * t.xy + 0.0 * t.yy == t.xy;
    assert c.yx == 0.0 * t.xx + 1.0 * t.yx == t.yx;
    assert c.yy == 0.0 * t.xy + 1.0 * t.yy == t.yy;
    assert c.dx == Translate(t, tx, ty).dx && c.dy == Translate(t, tx, ty).dy;
  }
}
