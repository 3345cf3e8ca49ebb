/**
  A circular obstacle: centre (x, y) and radius r, fixed at construction.
*/
module Obstacles {
  import opened Geometry

  function Abs(a: real): real {
    if a < 0.0 then -a else a
  }

  datatype Obstacle = Obstacle(x: real, y: real, r: real) {

    function Pos(): Point {
      Point(x, y)
    }

    /** `sqrt((x - p.x)**2 + (y - p.y)**2) < r`: strictly inside the circle. */
    predicate InCollisionPoint(p: Point)
      ensures InCollisionPoint(p) ==> 0.0 < r
    {
      Closer(Pos(), p, r)
    }

    /** Numerator of the written line test. */
    function LineNumerator(a: Point, b: Point): real {
      (b.x - a.x) * x + (a.y - b.y) * y + (a.x - b.x) * b.y + (b.y - a.y) * a.x
    }

    /** Radicand of the written denominator, `(b.x-b.y)**2 + (a.y-b.y)**2 + 0.0000001`. */
    function LineDenominator(a: Point, b: Point): (den: real)
      ensures 0.0 < den
    {
      SquarePositive(b.x - b.y);
      SquarePositive(a.y - b.y);
      Square(b.x - b.y) + Square(a.y - b.y) + 0.0000001
    }

    /** `abs(num) / sqrt(den) < r`, decided on squares. */
    predicate InCollisionLine(a: Point, b: Point) {
      0.0 < r && Square(LineNumerator(a, b)) < Mul(Square(r), LineDenominator(a, b))
    }
  }

  /** Point collision is the source's strict comparison of the true distance with r. */
  lemma PointCollisionIff(o: Obstacle, p: Point, d: real)
    requires 0.0 <= d && Square(d) == SqDist(o.Pos(), p)
    ensures o.InCollisionPoint(p) <==> d < o.r
  {
    CloserIff(o.Pos(), p, o.r, d);
  }

  /** A point exactly on the boundary circle is free; the centre is blocked when r > 0. */
  lemma BoundaryAndCentre(o: Obstacle, p: Point)
    ensures SqDist(o.Pos(), p) == Square(o.r) ==> !o.InCollisionPoint(p)
    ensures 0.0 < o.r ==> o.InCollisionPoint(o.Pos())
  {
    SqDistZero(o.Pos(), o.Pos());
    SquarePositive(o.r);
  }

  /**
    The denominator's square root is positive, so the written division is
    defined for every a and b, and the line test is exactly its comparison.
  */
  lemma LineCollisionIff(o: Obstacle, a: Point, b: Point, s: real)
    requires 0.0 <= s && Square(s) == o.LineDenominator(a, b)
    ensures 0.0 < s
    ensures o.InCollisionLine(a, b) <==> Abs(o.LineNumerator(a, b)) / s < o.r
  {
    var num, den := o.LineNumerator(a, b), o.LineDenominator(a, b);
    SquarePositive(s);
    assert 0.0 < s;
    var q := Abs(num) / s;
    assert Mul(s, q) == Abs(num);
    MulSign(s, q);
    assert 0.0 <= q;
    assert Square(q * s) == Square(num);
    assert Mul(Square(q), den) == Square(q * s);
    if 0.0 < o.r {
      SquareLess(q, o.r);
      if Square(q) < Square(o.r) {
        MulStrict(den, Square(q), Square(o.r));
        assert Mul(den, Square(q)) == Mul(Square(q), den) && Mul(den, Square(o.r)) == Mul(Square(o.r), den);
      } else {
        MulMonotone(den, Square(o.r), Square(q));
        assert Mul(den, Square(q)) == Mul(Square(q), den) && Mul(den, Square(o.r)) == Mul(Square(o.r), den);
      }
    }
  }
}
