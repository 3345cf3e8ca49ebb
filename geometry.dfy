/**
  Points of the plane and the Euclidean distance between them.

  The planner calls `sqrt` in two roles. Where it only compares a distance with a
  bound (`sqrt(s) < r`), the model decides the comparison exactly on the squared
  quantity (`Closer`). Where it keeps the distance as a value (the heuristic `h`,
  edge costs, the divisor of the step), the model takes it from a square-root
  function `sqrt` handed in by the caller; `ExactSqrt` states what an exact one
  satisfies, and only the lemmas that need exactness assume it.

  Squares and products are written through `Square` and `Mul`, so that the
  solver compares them as values and the few facts of non-linear arithmetic the
  model needs are proved once, below.
*/
module Geometry {

  datatype Point = Point(x: real, y: real)

  function Square(a: real): real {
    a * a
  }

  function Mul(a: real, b: real): real {
    a * b
  }

  lemma MulStrict(a: real, b: real, c: real)
    requires 0.0 < a && b < c
    ensures Mul(a, b) < Mul(a, c)
  {
    assert a * c - a * b == a * (c - b);
  }

  lemma MulMonotone(a: real, b: real, c: real)
    requires 0.0 <= a && b <= c
    ensures Mul(a, b) <= Mul(a, c)
  {
    assert a * c - a * b == a * (c - b);
  }

  /** A positive factor keeps the sign of the other. */
  lemma MulSign(a: real, b: real)
    requires 0.0 < a
    ensures b < 0.0 ==> Mul(a, b) < 0.0
  {
    if b < 0.0 {
      MulStrict(a, b, 0.0);
    }
  }

  /** A square is non-negative, and positive unless its root is zero. */
  lemma SquarePositive(a: real)
    ensures 0.0 <= Square(a)
    ensures a != 0.0 ==> 0.0 < Square(a)
  {
    if a > 0.0 {
      MulStrict(a, 0.0, a);
      assert Mul(a, 0.0) == 0.0 && Square(a) == Mul(a, a);
    } else if a < 0.0 {
      MulStrict(-a, 0.0, -a);
      assert Mul(-a, 0.0) == 0.0 && Square(a) == Mul(-a, -a);
    }
  }

  /** For non-negative u and v, comparing them is comparing their squares. */
  lemma SquareLess(u: real, v: real)
    requires 0.0 <= u && 0.0 <= v
    ensures u < v <==> Square(u) < Square(v)
  {
    assert Mul(u, v) == Mul(v, u);
    if u < v {
      MulMonotone(u, u, v);
      MulStrict(v, u, v);
      assert Square(u) == Mul(u, u) && Square(v) == Mul(v, v);
    } else {
      MulMonotone(v, v, u);
      MulMonotone(u, v, u);
      assert Square(u) == Mul(u, u) && Square(v) == Mul(v, v);
    }
  }

  /** The radicand of every distance in the source: (p.x-q.x)**2 + (p.y-q.y)**2. */
  function SqDist(p: Point, q: Point): real {
    Square(p.x - q.x) + Square(p.y - q.y)
  }

  /** The squared distance is non-negative, zero for equal points and positive otherwise. */
  lemma SqDistZero(p: Point, q: Point)
    ensures 0.0 <= SqDist(p, q)
    ensures p == q ==> SqDist(p, q) == 0.0
    ensures p != q ==> 0.0 < SqDist(p, q)
  {
    SquarePositive(p.x - q.x);
    SquarePositive(p.y - q.y);
  }

  lemma SqDistSymmetric(p: Point, q: Point)
    ensures SqDist(p, q) == SqDist(q, p)
  {
    assert Square(p.x - q.x) == Square(q.x - p.x);
    assert Square(p.y - q.y) == Square(q.y - p.y);
  }

  /** `sqrt` returns the non-negative square root of every non-negative argument. */
  ghost predicate ExactSqrt(sqrt: real -> real) {
    forall s :: 0.0 <= s ==> 0.0 <= sqrt(s) && Square(sqrt(s)) == s
  }

  /** Euclidean distance `sqrt((p.x-q.x)**2 + (p.y-q.y)**2)`, with the caller's `sqrt`. */
  function Dist(p: Point, q: Point, sqrt: real -> real): real {
    sqrt(SqDist(p, q))
  }

  lemma DistSymmetric(p: Point, q: Point, sqrt: real -> real)
    ensures Dist(p, q, sqrt) == Dist(q, p, sqrt)
  {
    SqDistSymmetric(p, q);
  }

  /** With an exact square root the distance is non-negative and zero exactly for equal points. */
  lemma DistZero(p: Point, q: Point, sqrt: real -> real)
    requires ExactSqrt(sqrt)
    ensures 0.0 <= Dist(p, q, sqrt)
    ensures p == q ==> Dist(p, q, sqrt) == 0.0
    ensures p != q ==> 0.0 < Dist(p, q, sqrt)
  {
    var s := SqDist(p, q);
    SqDistZero(p, q);
    assert 0.0 <= sqrt(s) && Square(sqrt(s)) == s;
    SquarePositive(sqrt(s));
  }

  /** An exact square root of a square is the non-negative root itself. */
  lemma SqrtOfSquare(a: real, sqrt: real -> real)
    requires ExactSqrt(sqrt) && 0.0 <= a
    ensures sqrt(Square(a)) == a
  {
    SquarePositive(a);
    var s := sqrt(Square(a));
    assert 0.0 <= s && Square(s) == Square(a);
    SquareLess(s, a);
    SquareLess(a, s);
  }

  /** "The distance from p to q is strictly less than r", decided on squares. */
  predicate Closer(p: Point, q: Point, r: real) {
    0.0 < r && SqDist(p, q) < Square(r)
  }

  /** `Closer` is the source's comparison `d < r` for the true distance d. */
  lemma CloserIff(p: Point, q: Point, r: real, d: real)
    requires 0.0 <= d && Square(d) == SqDist(p, q)
    ensures Closer(p, q, r) <==> d < r
  {
    if 0.0 < r {
      SquareLess(d, r);
    }
  }
}
