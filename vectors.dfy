/**
 * Two-dimensional vectors over the reals, standing for the glm::vec2 values
 * of the game. Floating point is not modelled: every operation is exact.
 *
 * glm::length, glm::normalize and sqrtf belong to a maths library outside this
 * model. They enter as a parameter `sqrt`, of which the model assumes only that
 * it is the square root on the non-negative reals (IsSqrt).
 *
 * Products whose sign matters are written through Mul, and the sign facts the
 * proofs need are stated once, as lemmas about Mul, below.
 */
module Vectors {

  datatype Vec = Vec(x: real, y: real)

  const Zero := Vec(0.0, 0.0)

  function Add(a: Vec, b: Vec): Vec { Vec(a.x + b.x, a.y + b.y) }

  function Sub(a: Vec, b: Vec): Vec { Vec(a.x - b.x, a.y - b.y) }

  function Scale(a: Vec, k: real): Vec { Vec(a.x * k, a.y * k) }

  function Mul(a: real, b: real): real { a * b }

  function Dot(a: Vec, b: Vec): real { Mul(a.x, b.x) + Mul(a.y, b.y) }

  /** The z-component of the 3D cross product: zero exactly when a and b are parallel. */
  function Cross(a: Vec, b: Vec): real { Mul(a.x, b.y) - Mul(a.y, b.x) }

  function Abs(r: real): (a: real)
    ensures a >= 0.0 && (a == r || a == -r)
  {
    if r < 0.0 then -r else r
  }

  // ---------------------------------------------------------------- signs

  lemma MulPos(a: real, b: real)
    requires a > 0.0 && b > 0.0
    ensures Mul(a, b) > 0.0
  {
  }

  /** Multiplying by a positive factor keeps the sign. */
  lemma MulSign(a: real, b: real)
    requires b > 0.0
    ensures Mul(a, b) > 0.0 <==> a > 0.0
    ensures Mul(a, b) == 0.0 <==> a == 0.0
    ensures Mul(b, a) == Mul(a, b)
  {
    if a > 0.0 {
      MulPos(a, b);
    } else if a < 0.0 {
      MulPos(-a, b);
      assert Mul(-a, b) == -Mul(a, b);
    }
  }

  lemma MulNonNeg(a: real, b: real)
    requires a >= 0.0 && b >= 0.0
    ensures Mul(a, b) >= 0.0
  {
    if a > 0.0 && b > 0.0 {
      MulPos(a, b);
    }
  }

  /** A common factor other than zero cancels. */
  lemma MulCancel(c: real, a: real, b: real)
    requires c != 0.0 && Mul(c, a) == Mul(c, b)
    ensures a == b
  {
    assert Mul(a - b, c) == Mul(c, a) - Mul(c, b);
    assert Mul(a - b, -c) == -Mul(a - b, c);
    if c > 0.0 {
      MulSign(a - b, c);
    } else {
      MulSign(a - b, -c);
    }
  }

  lemma SquarePos(r: real)
    requires r != 0.0
    ensures Mul(r, r) > 0.0
  {
    if r > 0.0 {
      MulPos(r, r);
    } else {
      MulPos(-r, -r);
      assert Mul(-r, -r) == Mul(r, r);
    }
  }

  lemma SquareNonNeg(r: real)
    ensures Mul(r, r) >= 0.0
  {
    if r != 0.0 {
      SquarePos(r);
    }
  }

  lemma SquareZero(r: real)
    ensures Mul(r, r) == 0.0 <==> r == 0.0
  {
    if r != 0.0 {
      SquarePos(r);
    }
  }

  // --------------------------------------------------------------- length

  lemma DotZero(a: Vec)
    ensures Dot(a, Zero) == 0.0 && Dot(Zero, a) == 0.0
    ensures Scale(Zero, 0.0) == Zero
    ensures forall k :: Scale(Zero, k) == Zero
    ensures Cross(Zero, a) == 0.0 && Cross(a, Zero) == 0.0
  {
    assert Cross(Zero, a) == Mul(0.0, a.y) - Mul(0.0, a.x);
    assert Cross(a, Zero) == Mul(a.x, 0.0) - Mul(a.y, 0.0);
    assert Dot(a, Zero) == Mul(a.x, 0.0) + Mul(a.y, 0.0);
    assert Dot(Zero, a) == Mul(0.0, a.x) + Mul(0.0, a.y);
  }

  /** The squared Euclidean length. */
  function LengthSq(a: Vec): (r: real)
    ensures r >= 0.0
    ensures r == 0.0 <==> a == Zero
  {
    DotSelf(a);
    Dot(a, a)
  }

  lemma DotSelf(a: Vec)
    ensures Dot(a, a) >= 0.0
    ensures Dot(a, a) == 0.0 <==> a == Zero
  {
    SquareNonNeg(a.x);
    SquareNonNeg(a.y);
    if a.x != 0.0 {
      SquarePos(a.x);
    } else if a.y != 0.0 {
      SquarePos(a.y);
    }
  }

  /** `sqrt` is the square root on the non-negative reals. */
  ghost predicate IsSqrt(sqrt: real -> real) {
    forall x :: x >= 0.0 ==> sqrt(x) >= 0.0 && Mul(sqrt(x), sqrt(x)) == x
  }

  /** glm::length. */
  function Length(a: Vec, sqrt: real -> real): (r: real)
    requires IsSqrt(sqrt)
    ensures r >= 0.0 && Mul(r, r) == LengthSq(a)
    ensures r == 0.0 <==> a == Zero
  {
    var s := LengthSq(a);
    assert sqrt(s) >= 0.0 && Mul(sqrt(s), sqrt(s)) == s;
    SquareZero(sqrt(s));
    sqrt(s)
  }

  /** glm::distance, used wherever the game compares length(a - b) with something. */
  function Distance(a: Vec, b: Vec, sqrt: real -> real): (r: real)
    requires IsSqrt(sqrt)
    ensures r >= 0.0 && (r == 0.0 <==> a == b)
  {
    SubZero(a, b);
    Length(Sub(a, b), sqrt)
  }

  /**
   * glm::normalize: the unit vector pointing the same way as `a`.
   * For the zero vector glm yields NaN components; the model yields Zero.
   */
  function Normalize(a: Vec, sqrt: real -> real): (r: Vec)
    requires IsSqrt(sqrt)
    ensures a == Zero ==> r == Zero
    ensures a != Zero ==> LengthSq(r) == 1.0 && Dot(r, a) > 0.0 && Cross(r, a) == 0.0
  {
    if a == Zero then Zero
    else
      var len := Length(a, sqrt);
      ScaledUnit(a, len);
      Scale(a, 1.0 / len)
  }

  /** Dividing a non-zero vector by its length gives a unit vector along it. */
  lemma ScaledUnit(a: Vec, len: real)
    requires len > 0.0 && Mul(len, len) == LengthSq(a)
    ensures LengthSq(Scale(a, 1.0 / len)) == 1.0
    ensures Dot(Scale(a, 1.0 / len), a) > 0.0
    ensures Cross(Scale(a, 1.0 / len), a) == 0.0
  {
    var k := 1.0 / len;
    ScaleLengthSq(a, k);
    InverseSquare(len);
    assert Mul(Mul(k, k), LengthSq(a)) == Mul(Mul(k, k), Mul(len, len));
    InversePos(len);
    SquarePos(len);
    MulPos(k, LengthSq(a));
  }

  lemma ScaleLengthSq(a: Vec, k: real)
    ensures LengthSq(Scale(a, k)) == Mul(Mul(k, k), LengthSq(a))
    ensures Dot(Scale(a, k), a) == Mul(k, LengthSq(a))
    ensures Dot(a, Scale(a, k)) == Mul(k, LengthSq(a))
    ensures Cross(Scale(a, k), a) == 0.0
  {
  }

  lemma InversePos(len: real)
    requires len > 0.0
    ensures 1.0 / len > 0.0
  {
  }

  lemma QuotientPos(a: real, b: real)
    requires a > 0.0 && b > 0.0
    ensures a / b > 0.0
  {
    InversePos(b);
    MulPos(a, 1.0 / b);
  }

  lemma InverseSquare(len: real)
    requires len > 0.0
    ensures Mul(Mul(1.0 / len, 1.0 / len), Mul(len, len)) == 1.0
  {
  }

  /** A non-zero vector normalised is the vector scaled by a positive factor. */
  lemma NormalizeScale(a: Vec, sqrt: real -> real) returns (c: real)
    requires IsSqrt(sqrt) && a != Zero
    ensures c > 0.0 && Normalize(a, sqrt) == Scale(a, c)
  {
    c := 1.0 / Length(a, sqrt);
    InversePos(Length(a, sqrt));
  }

  lemma ScaleScale(a: Vec, c: real, d: real)
    ensures Scale(Scale(a, c), d) == Scale(a, Mul(c, d))
  {
    assert Scale(Scale(a, c), d).x == a.x * Mul(c, d);
    assert Scale(Scale(a, c), d).y == a.y * Mul(c, d);
  }

  lemma DotScale(a: Vec, b: Vec, c: real)
    ensures Dot(a, Scale(b, c)) == Mul(c, Dot(a, b))
    ensures Dot(Scale(a, c), b) == Mul(c, Dot(a, b))
    ensures Cross(Scale(a, c), b) == Mul(c, Cross(a, b))
  {
  }

  lemma DotAdd(a: Vec, b: Vec, n: Vec)
    ensures Dot(Add(a, b), n) == Dot(a, n) + Dot(b, n)
    ensures Dot(Sub(a, b), n) == Dot(a, n) - Dot(b, n)
    ensures Cross(Add(a, b), n) == Cross(a, n) + Cross(b, n)
    ensures Cross(Sub(a, b), n) == Cross(a, n) - Cross(b, n)
  {
  }

  lemma CrossSelf(a: Vec)
    ensures Cross(a, a) == 0.0
  {
  }

  lemma SubZero(a: Vec, b: Vec)
    ensures Sub(a, b) == Zero <==> a == b
  {
    if Sub(a, b) == Zero {
      assert a.x == b.x && a.y == b.y;
    }
  }

  lemma SubAdd(a: Vec, b: Vec)
    ensures Sub(Add(a, b), a) == b
    ensures Sub(a, a) == Zero
  {
  }

  /** A non-zero vector scaled by a positive factor is not zero. */
  lemma ScaleNonZero(a: Vec, c: real)
    requires a != Zero && c > 0.0
    ensures Scale(a, c) != Zero
  {
    if a.x != 0.0 {
      SquarePos(a.x);
      MulPos(Mul(a.x, a.x), c);
      assert Mul(Mul(a.x, a.x), c) == Mul(a.x, a.x * c);
    } else {
      SquarePos(a.y);
      MulPos(Mul(a.y, a.y), c);
      assert Mul(Mul(a.y, a.y), c) == Mul(a.y, a.y * c);
    }
  }

  lemma ScaleZero(k: real)
    ensures Scale(Zero, k) == Zero
  {
  }

  lemma AddZero(a: Vec)
    ensures Add(a, Zero) == a
  {
  }

  /** glm::distance does not depend on the order of its arguments. */
  lemma DistanceSym(a: Vec, b: Vec, sqrt: real -> real)
    requires IsSqrt(sqrt)
    ensures Distance(a, b, sqrt) == Distance(b, a, sqrt)
  {
    assert LengthSq(Sub(a, b)) == LengthSq(Sub(b, a)) by {
      assert Mul(a.x - b.x, a.x - b.x) == Mul(b.x - a.x, b.x - a.x);
      assert Mul(a.y - b.y, a.y - b.y) == Mul(b.y - a.y, b.y - a.y);
    }
  }

  /** The sum of a sequence of vectors. */
  function Total(vs: seq<Vec>): Vec
  {
    if vs == [] then Zero else Add(Total(vs[..|vs| - 1]), vs[|vs| - 1])
  }

  /** Replacing one term of a sum replaces its contribution and nothing else. */
  lemma {:induction false} TotalUpdate(vs: seq<Vec>, i: nat, a: Vec)
    requires i < |vs|
    ensures Total(vs[i := a]) == Add(Sub(Total(vs), vs[i]), a)
    decreases |vs|
  {
    var n := |vs| - 1;
    if i < n {
      assert vs[i := a][..n] == vs[..n][i := a];
      TotalUpdate(vs[..n], i, a);
    } else {
      assert vs[i := a][..n] == vs[..n];
    }
  }
}
