/**
 * The straight-line helpers of the aiming ray (Game.cpp): where a ray meets
 * a cushion line, and how many points a segment shares with a ball's circle.
 * They are pure: the C++ out-parameters become fields of the result.
 */
module RayCast {

  import opened Vectors

  /** A direction component smaller than this in magnitude counts as parallel to the cushion. */
  const ParallelBias := 0.01

  /** Below this squared segment length the segment counts as a point. */
  const DegenerateSegment := 0.0000001

  /** The boolean result and the out-parameter of the cushion intersectors. */
  datatype WallHit = WallHit(found: bool, point: Vec)

  /** The count returned by FindLineCircleIntersections and its two out-parameters. */
  datatype LineCircle = LineCircle(count: int, first: Vec, second: Vec)

  /** The point `start + direction * t` of the ray. */
  function PointAt(start: Vec, direction: Vec, t: real): Vec
  {
    Add(start, Scale(direction, t))
  }

  /**
   * A point of the ray lies on its line, and ahead of the start exactly when
   * its parameter is positive.
   */
  lemma PointAtFacts(start: Vec, direction: Vec, t: real)
    ensures Cross(Sub(PointAt(start, direction, t), start), direction) == 0.0
    ensures Dot(Sub(PointAt(start, direction, t), start), direction) == Mul(t, LengthSq(direction))
  {
    SubAdd(start, Scale(direction, t));
    ScaleLengthSq(direction, t);
    DotScale(direction, direction, t);
    CrossSelf(direction);
  }

  /** Ahead of the start exactly when the parameter is positive, for a non-zero direction. */
  lemma AheadIffPositive(start: Vec, direction: Vec, t: real)
    requires direction != Zero
    ensures Dot(Sub(PointAt(start, direction, t), start), direction) > 0.0 <==> t > 0.0
  {
    PointAtFacts(start, direction, t);
    MulSign(t, LengthSq(direction));
  }

  /**
   * Game::VerticalIntersect: where the ray from `start` along `direction`
   * meets the vertical line x = x1, if it does so ahead of the start. A
   * direction too close to vertical reports no hit.
   */
  function VerticalIntersect(start: Vec, direction: Vec, x1: real): (r: WallHit)
    ensures !r.found ==> r.point == Zero
    ensures r.found <==> Abs(direction.x) >= ParallelBias && (x1 - start.x) / direction.x > 0.0
    ensures r.found ==>
      && r.point.x == x1
      && Cross(Sub(r.point, start), direction) == 0.0
      && Dot(Sub(r.point, start), direction) > 0.0
  {
    if Abs(direction.x) < ParallelBias then WallHit(false, Zero)
    else
      var t := (x1 - start.x) / direction.x;
      var y := start.y + t * direction.y;
      var intersectPoint := Vec(x1, y);
      VerticalPoint(start, direction, x1, t);
      if Dot(Sub(intersectPoint, start), direction) > 0.0 then WallHit(true, intersectPoint)
      else WallHit(false, Zero)
  }

  lemma VerticalPoint(start: Vec, direction: Vec, x1: real, t: real)
    requires direction.x != 0.0 && t == (x1 - start.x) / direction.x
    ensures Vec(x1, start.y + t * direction.y) == PointAt(start, direction, t)
    ensures Dot(Sub(Vec(x1, start.y + t * direction.y), start), direction) > 0.0 <==> t > 0.0
    ensures Cross(Sub(Vec(x1, start.y + t * direction.y), start), direction) == 0.0
  {
    assert start.x + direction.x * t == x1;
    DotZero(direction);
    PointAtFacts(start, direction, t);
    AheadIffPositive(start, direction, t);
  }

  /** Game::Horizontalntersect: the same for the horizontal line y = y1. */
  function HorizontalIntersect(start: Vec, direction: Vec, y1: real): (r: WallHit)
    ensures !r.found ==> r.point == Zero
    ensures r.found <==> Abs(direction.y) >= ParallelBias && (y1 - start.y) / direction.y > 0.0
    ensures r.found ==>
      && r.point.y == y1
      && Cross(Sub(r.point, start), direction) == 0.0
      && Dot(Sub(r.point, start), direction) > 0.0
  {
    if Abs(direction.y) < ParallelBias then WallHit(false, Zero)
    else
      var t := (y1 - start.y) / direction.y;
      var x := start.x + t * direction.x;
      var intersectPoint := Vec(x, y1);
      HorizontalPoint(start, direction, y1, t);
      if Dot(Sub(intersectPoint, start), direction) > 0.0 then WallHit(true, intersectPoint)
      else WallHit(false, Zero)
  }

  lemma HorizontalPoint(start: Vec, direction: Vec, y1: real, t: real)
    requires direction.y != 0.0 && t == (y1 - start.y) / direction.y
    ensures Vec(start.x + t * direction.x, y1) == PointAt(start, direction, t)
    ensures Dot(Sub(Vec(start.x + t * direction.x, y1), start), direction) > 0.0 <==> t > 0.0
    ensures Cross(Sub(Vec(start.x + t * direction.x, y1), start), direction) == 0.0
  {
    assert start.y + direction.y * t == y1;
    DotZero(direction);
    PointAtFacts(start, direction, t);
    AheadIffPositive(start, direction, t);
  }

  /** The coefficients A, B, C of the quadratic in the segment parameter, and its discriminant. */
  function QuadA(p1: Vec, p2: Vec): real
  {
    var d := Sub(p2, p1);
    d.x * d.x + d.y * d.y
  }

  function QuadB(center: Vec, p1: Vec, p2: Vec): real
  {
    var d := Sub(p2, p1);
    2.0 * (d.x * (p1.x - center.x) + d.y * (p1.y - center.y))
  }

  function QuadC(center: Vec, radius: real, p1: Vec): real
  {
    (p1.x - center.x) * (p1.x - center.x) + (p1.y - center.y) * (p1.y - center.y) - radius * radius
  }

  function Discriminant(center: Vec, radius: real, p1: Vec, p2: Vec): real
  {
    var b := QuadB(center, p1, p2);
    b * b - 4.0 * QuadA(p1, p2) * QuadC(center, radius, p1)
  }

  /**
   * Game::FindLineCircleIntersections for the circle of `radius` around
   * `center` and the line through `p1` and `p2`: no point when the segment
   * is degenerate or the discriminant is negative, one when it is zero, two
   * otherwise. Unused out-parameters are (0, 0).
   */
  function FindLineCircleIntersections(center: Vec, radius: real, p1: Vec, p2: Vec, sqrt: real -> real): (r: LineCircle)
    requires IsSqrt(sqrt)
  {
    var d := Sub(p2, p1);
    var a := QuadA(p1, p2);
    var b := QuadB(center, p1, p2);
    var det := Discriminant(center, radius, p1, p2);
    if a <= DegenerateSegment || det < 0.0 then LineCircle(0, Zero, Zero)
    else if det == 0.0 then
      var t := -b / (2.0 * a);
      LineCircle(1, Along(p1, d, t), Zero)
    else
      var t := Roots(a, b, det, sqrt);
      LineCircle(2, Along(p1, d, t.0), Along(p1, d, t.1))
  }

  /** The two parameters (-B + sqrt(det)) / 2A and (-B - sqrt(det)) / 2A; the first is the larger. */
  function Roots(a: real, b: real, det: real, sqrt: real -> real): (t: (real, real))
    requires IsSqrt(sqrt) && a > 0.0 && det > 0.0
    ensures t.0 > t.1
  {
    RootsOrdered(a, b, det, sqrt);
    ((-b + sqrt(det)) / (2.0 * a), (-b - sqrt(det)) / (2.0 * a))
  }

  /**
   * The root count is decided by the segment length and the discriminant
   * alone, and the unused out-parameters are zero.
   */
  lemma RootCount(center: Vec, radius: real, p1: Vec, p2: Vec, sqrt: real -> real)
    requires IsSqrt(sqrt)
    ensures var r := FindLineCircleIntersections(center, radius, p1, p2, sqrt);
      var a := QuadA(p1, p2);
      var det := Discriminant(center, radius, p1, p2);
      && (r.count == 0 <==> a <= DegenerateSegment || det < 0.0)
      && (r.count == 1 <==> a > DegenerateSegment && det == 0.0)
      && (r.count == 2 <==> a > DegenerateSegment && det > 0.0)
      && 0 <= r.count <= 2
      && (r.count < 2 ==> r.second == Zero)
      && (r.count == 0 ==> r.first == Zero)
  {
  }

  /**
   * Every reported point lies on the line through `p1` and `p2`; with two
   * points, they differ and the first lies further along the direction
   * from `p1` to `p2`.
   */
  lemma IntersectionsOnLine(center: Vec, radius: real, p1: Vec, p2: Vec, sqrt: real -> real)
    requires IsSqrt(sqrt)
    ensures var r := FindLineCircleIntersections(center, radius, p1, p2, sqrt);
      var d := Sub(p2, p1);
      && (r.count >= 1 ==> Cross(Sub(r.first, p1), d) == 0.0)
      && (r.count == 2 ==>
            && Cross(Sub(r.second, p1), d) == 0.0
            && Dot(Sub(r.first, p1), d) > Dot(Sub(r.second, p1), d))
  {
    var d := Sub(p2, p1);
    var a := QuadA(p1, p2);
    var b := QuadB(center, p1, p2);
    var det := Discriminant(center, radius, p1, p2);
    if a > DegenerateSegment && det >= 0.0 {
      assert a == LengthSq(d);
      if det == 0.0 {
        OnLine(p1, d, -b / (2.0 * a));
      } else {
        var t := Roots(a, b, det, sqrt);
        OnLine(p1, d, t.0);
        OnLine(p1, d, t.1);
        MulSign(t.0 - t.1, a);
        assert Mul(t.0, a) - Mul(t.1, a) == Mul(t.0 - t.1, a);

      }
    }
  }

  /** The point `p1 + d * t`, written out per coordinate as the source does. */
  function Along(p1: Vec, d: Vec, t: real): Vec
  {
    Vec(p1.x + t * d.x, p1.y + t * d.y)
  }

  lemma OnLine(p1: Vec, d: Vec, t: real)
    ensures Along(p1, d, t) == PointAt(p1, d, t)
    ensures Cross(Sub(Along(p1, d, t), p1), d) == 0.0
    ensures Dot(Sub(Along(p1, d, t), p1), d) == Mul(t, LengthSq(d))
    ensures Mul(t, LengthSq(d)) == Mul(LengthSq(d), t)
  {
    PointAtFacts(p1, d, t);
  }

  /** With a positive discriminant the root taking +sqrt is the larger one. */
  lemma RootsOrdered(a: real, b: real, det: real, sqrt: real -> real)
    requires IsSqrt(sqrt) && a > 0.0 && det > 0.0
    ensures (-b + sqrt(det)) / (2.0 * a) > (-b - sqrt(det)) / (2.0 * a)
  {
    assert sqrt(det) >= 0.0 && Mul(sqrt(det), sqrt(det)) == det;
    SquareZero(sqrt(det));
    var k := 1.0 / (2.0 * a);
    InversePos(2.0 * a);
    MulPos(2.0 * sqrt(det), k);
    assert (-b + sqrt(det)) / (2.0 * a) - (-b - sqrt(det)) / (2.0 * a) == Mul(2.0 * sqrt(det), k);
  }
}
