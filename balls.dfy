/**
 * One billiard ball (Ball.h, Ball.cpp): its constants, the physics of one
 * tick as pure functions over its state, and the Ball class whose methods
 * update that state in place as the game does.
 */
module Balls {

  import opened Vectors
  import Table

  const BallRadius := 20.0
  const WhiteBallOffset := 200.0
  const BallMass := 10.0
  const WallMass := 100.0
  const Restitution := 0.98
  const VelocityBias := 0.01
  const FrictionMultiplier := 30.0
  const VelocityMultiplier := 5.0
  const DistanceToEnterHole := 25.0

  datatype BallType = Normal | White | Black

  /** An RGB colour, glm::vec3 in the source. */
  datatype Color = Color(r: real, g: real, b: real)

  const WhiteColor := Color(1.0, 1.0, 1.0)
  const BlackColor := Color(0.0, 0.0, 0.0)

  /** Where the cue ball is put at the start and after it falls into a pocket. */
  const WhiteSpot := Vec(Table.GameWidth / 2.0 - WhiteBallOffset, Table.GameHeight / 2.0)

  /** Position and velocity, the part of a ball that collisions change. */
  datatype Kinematics = Kinematics(position: Vec, velocity: Vec)

  /** Everything about a ball that changes during play. */
  datatype BallState = BallState(position: Vec, velocity: Vec, color: Color, stopped: bool, onBoard: bool)

  /** The two balls after a ball-to-ball contact. */
  datatype Contact = Contact(mine: Kinematics, theirs: Kinematics)

  /** What the ball-to-ball phase and the cushions leave alone. */
  datatype Flags = Flags(color: Color, stopped: bool, onBoard: bool)

  // ------------------------------------------------------------- friction

  /**
   * Ball::UpdateFriction: a slow ball stops dead; otherwise friction of
   * fixed magnitude acts against the motion for `dt`, and a ball it would
   * turn round stops instead.
   */
  function FrictionVelocity(v: Vec, dt: real, sqrt: real -> real): (r: Vec)
    requires IsSqrt(sqrt)
    ensures Length(v, sqrt) < VelocityBias ==> r == Zero
    ensures r == Zero || Dot(v, r) > 0.0
  {
    if Length(v, sqrt) < VelocityBias then Zero
    else
      var friction := Scale(Normalize(v, sqrt), -FrictionMultiplier);
      var slowed := Add(v, Scale(friction, dt));
      if Dot(v, slowed) <= 0.0 then Zero else slowed
  }

  /**
   * Friction only ever shortens the velocity along its own line: the result
   * is v scaled by a factor in [0, 1], so it is never faster than v and
   * never points another way.
   */
  lemma FrictionSlowsDown(v: Vec, dt: real, sqrt: real -> real)
    requires IsSqrt(sqrt)
    requires dt >= 0.0
    ensures exists k :: 0.0 <= k <= 1.0 && FrictionVelocity(v, dt, sqrt) == Scale(v, k)
    ensures LengthSq(FrictionVelocity(v, dt, sqrt)) <= LengthSq(v)
  {
    var r := FrictionVelocity(v, dt, sqrt);
    if r == Zero {
      assert r == Scale(v, 0.0);
    } else {
      var k := FrictionFactor(v, dt, sqrt);
      ShrinkAlong(v, k);
    }
  }

  /** When friction does not stop the ball it scales its velocity by a factor of at most one. */
  lemma FrictionFactor(v: Vec, dt: real, sqrt: real -> real) returns (k: real)
    requires IsSqrt(sqrt)
    requires dt >= 0.0 && FrictionVelocity(v, dt, sqrt) != Zero
    ensures k <= 1.0 && FrictionVelocity(v, dt, sqrt) == Scale(v, k)
    ensures Dot(v, Scale(v, k)) > 0.0
  {
    var len := Length(v, sqrt);
    var q := 1.0 / len;
    InversePos(len);
    assert Normalize(v, sqrt) == Scale(v, q);
    FrictionIsScaling(v, q, dt);
    k := 1.0 - FrictionMultiplier * Mul(q, dt);
    MulNonNeg(q, dt);
  }

  /** A velocity scaled by k <= 1 that still points forwards is no longer than before. */
  lemma ShrinkAlong(v: Vec, k: real)
    requires k <= 1.0 && Dot(v, Scale(v, k)) > 0.0
    ensures 0.0 <= k && LengthSq(Scale(v, k)) <= LengthSq(v)
  {
    DotZero(v);
    ScaleLengthSq(v, k);
    MulSign(k, LengthSq(v));
    ShrinkFactor(k, LengthSq(v));
  }

  lemma FrictionIsScaling(v: Vec, q: real, dt: real)
    ensures Add(v, Scale(Scale(Scale(v, q), -FrictionMultiplier), dt))
         == Scale(v, 1.0 - FrictionMultiplier * Mul(q, dt))
  {
    var l := Add(v, Scale(Scale(Scale(v, q), -FrictionMultiplier), dt));
    var r := Scale(v, 1.0 - FrictionMultiplier * Mul(q, dt));
    assert l.x == v.x + ((v.x * q) * -FrictionMultiplier) * dt;
    assert r.x == v.x * (1.0 - FrictionMultiplier * Mul(q, dt));
    assert l.y == v.y + ((v.y * q) * -FrictionMultiplier) * dt;
    assert r.y == v.y * (1.0 - FrictionMultiplier * Mul(q, dt));
  }

  /** Scaling by a factor in [0, 1] does not increase a non-negative quantity. */
  lemma ShrinkFactor(k: real, l: real)
    requires 0.0 <= k <= 1.0 && l >= 0.0
    ensures Mul(Mul(k, k), l) <= l
  {
    MulNonNeg(k, 1.0 - k);
    assert Mul(k, 1.0 - k) == k - Mul(k, k);
    MulNonNeg(1.0 - Mul(k, k), l);
    assert Mul(1.0 - Mul(k, k), l) == l - Mul(Mul(k, k), l);
  }

  // -------------------------------------------------------------- pockets

  /** Ball::ResetWhite: back on the spot, at rest, coloured white. */
  function Respotted(s: BallState): BallState
  {
    s.(position := WhiteSpot, velocity := Zero, color := WhiteColor)
  }

  predicate InPocket(position: Vec, hole: Vec, sqrt: real -> real)
    requires IsSqrt(sqrt)
  {
    Distance(hole, position, sqrt) < DistanceToEnterHole
  }

  ghost predicate InAnyPocket(position: Vec, holes: seq<Vec>, sqrt: real -> real)
    requires IsSqrt(sqrt)
  {
    exists i :: 0 <= i < |holes| && InPocket(position, holes[i], sqrt)
  }

  /** One turn of the hole loop of Ball::Update. */
  function CaptureOne(kind: BallType, s: BallState, hole: Vec, sqrt: real -> real): BallState
    requires IsSqrt(sqrt)
  {
    if !InPocket(s.position, hole, sqrt) then s
    else match kind
      case White => Respotted(s)
      case Black => s.(onBoard := false)
      case Normal => s.(onBoard := false)
  }

  /**
   * The hole loop of Ball::Update, hole by hole in order. Each hole tests the
   * position left by the holes before it, so a respotted cue ball is tested
   * again at its spot. The result is the same as testing the original
   * position against all holes at once: the cue ball is respotted if it lies
   * in some pocket, any other ball leaves the board if it does.
   */
  function Captured(kind: BallType, s: BallState, holes: seq<Vec>, sqrt: real -> real): (r: BallState)
    requires IsSqrt(sqrt)
    ensures kind == White ==> r == if InAnyPocket(s.position, holes, sqrt) then Respotted(s) else s
    ensures kind != White ==> r == s.(onBoard := s.onBoard && !InAnyPocket(s.position, holes, sqrt))
    decreases |holes|
  {
    if holes == [] then s
    else
      var before := holes[..|holes| - 1];
      var last := holes[|holes| - 1];
      var r := CaptureOne(kind, Captured(kind, s, before, sqrt), last, sqrt);
      assert InAnyPocket(s.position, holes, sqrt)
        <==> InAnyPocket(s.position, before, sqrt) || InPocket(s.position, last, sqrt)
      by {
        if InAnyPocket(s.position, holes, sqrt) {
          var i :| 0 <= i < |holes| && InPocket(s.position, holes[i], sqrt);
          if i < |holes| - 1 {
            assert before[i] == holes[i];
          }
        }
        if InAnyPocket(s.position, before, sqrt) {
          var i :| 0 <= i < |before| && InPocket(s.position, before[i], sqrt);
          assert holes[i] == before[i];
        }
      }
      r
  }

  // ----------------------------------------------------------- collisions

  /**
   * The minimum translation of both ResolveColission overloads: the offset
   * `from` rescaled so that its length becomes `reach`, minus `from` itself.
   */
  function Correction(from: Vec, reach: real, sqrt: real -> real): Vec
    requires IsSqrt(sqrt) && from != Zero
  {
    var dist := Length(from, sqrt);
    Scale(from, (reach - dist) / dist)
  }

  /** The unit vector along the line of centres, pointing from the other ball to this one. */
  function ContactNormal(me: Kinematics, other: Kinematics, sqrt: real -> real): Vec
    requires IsSqrt(sqrt) && me.position != other.position
  {
    SubZero(me.position, other.position);
    Normalize(Correction(Sub(me.position, other.position), 2.0 * BallRadius, sqrt), sqrt)
  }

  /** `vn` of Ball::ResolveColission(Ball*): the relative velocity along the contact normal. */
  function NormalSpeed(me: Kinematics, other: Kinematics, sqrt: real -> real): real
    requires IsSqrt(sqrt) && me.position != other.position
  {
    Dot(Sub(me.velocity, other.velocity), ContactNormal(me, other, sqrt))
  }

  /** The impulse `i` of a ball-to-ball contact with normal speed `vn`. */
  function BallImpulse(vn: real): real
  {
    (-(1.0 + Restitution) * vn) / (2.0 * (1.0 / BallMass))
  }

  /** The impulse `i` of a wall contact with normal speed `vn`. */
  function WallImpulse(vn: real): real
  {
    (-(1.0 + Restitution) * vn) / (1.0 / BallMass + 1.0 / WallMass)
  }

  /**
   * Ball::ResolveColission(Ball*): push the two balls apart along the line of
   * centres by equal and opposite amounts, then, unless they already move
   * apart, exchange an equal and opposite impulse along that line.
   */
  function BallContact(me: Kinematics, other: Kinematics, sqrt: real -> real): Contact
    requires IsSqrt(sqrt) && me.position != other.position
  {
    SubZero(me.position, other.position);
    var minTranslation := Correction(Sub(me.position, other.position), 2.0 * BallRadius, sqrt);
    var mine := Add(me.position, Scale(minTranslation, 0.5));
    var theirs := Add(other.position, Scale(minTranslation, -0.5));
    var vn := NormalSpeed(me, other, sqrt);
    if vn > 0.0 then
      Contact(Kinematics(mine, me.velocity), Kinematics(theirs, other.velocity))
    else
      var i := BallImpulse(vn);
      var impulse := Scale(ContactNormal(me, other, sqrt), i);
      Contact(Kinematics(mine, Add(me.velocity, Scale(impulse, 1.0 / BallMass))),
              Kinematics(theirs, Sub(other.velocity, Scale(impulse, 1.0 / BallMass))))
  }

  /** Equal and opposite corrections and impulses: the sums of positions and velocities are kept. */
  lemma BallContactConserves(me: Kinematics, other: Kinematics, sqrt: real -> real)
    requires IsSqrt(sqrt) && me.position != other.position
    ensures var r := BallContact(me, other, sqrt);
      Add(r.mine.position, r.theirs.position) == Add(me.position, other.position)
      && Add(r.mine.velocity, r.theirs.velocity) == Add(me.velocity, other.velocity)
  {
  }

  /** Both the correction and the impulse act along the line of centres. */
  lemma BallContactAlongLine(me: Kinematics, other: Kinematics, sqrt: real -> real)
    requires IsSqrt(sqrt) && me.position != other.position
    ensures var r := BallContact(me, other, sqrt);
      var from := Sub(me.position, other.position);
      Cross(Sub(r.mine.position, me.position), from) == 0.0
      && Cross(Sub(r.mine.velocity, me.velocity), from) == 0.0
  {
    var from := Sub(me.position, other.position);
    SubZero(me.position, other.position);
    var minTranslation := Correction(from, 2.0 * BallRadius, sqrt);
    var normal := ContactNormal(me, other, sqrt);
    AlongLine(from, minTranslation, normal, sqrt);
    SubAdd(me.position, Scale(minTranslation, 0.5));
    var vn := NormalSpeed(me, other, sqrt);
    if vn > 0.0 {
      SubAdd(me.velocity, Zero);
      DotZero(from);
    } else {
      var i := BallImpulse(vn);
      assert BallContact(me, other, sqrt).mine.velocity == Add(me.velocity, Scale(Scale(normal, i), 1.0 / BallMass));
      ImpulseAlong(me.velocity, normal, from, i, 1.0 / BallMass);
    }
  }

  /**
   * For overlapping balls the contact normal is the direction from the other
   * centre to this one, so `vn > 0` means exactly that the balls already move
   * apart along the line of centres.
   */
  lemma NormalSpeedSign(me: Kinematics, other: Kinematics, sqrt: real -> real) returns (e: real)
    requires IsSqrt(sqrt) && me.position != other.position
    requires Distance(me.position, other.position, sqrt) < 2.0 * BallRadius
    ensures e > 0.0 && ContactNormal(me, other, sqrt) == Scale(Sub(me.position, other.position), e)
    ensures NormalSpeed(me, other, sqrt) == Mul(e, Dot(Sub(me.velocity, other.velocity), Sub(me.position, other.position)))
    ensures NormalSpeed(me, other, sqrt) > 0.0 <==> Dot(Sub(me.velocity, other.velocity), Sub(me.position, other.position)) > 0.0
  {
    var from := Sub(me.position, other.position);
    SubZero(me.position, other.position);
    e := CorrectionDirection(from, 2.0 * BallRadius, sqrt);
    var rel := Sub(me.velocity, other.velocity);
    DotScale(rel, from, e);
    MulSign(Dot(rel, from), e);
  }

  /**
   * When `from` is shorter than `reach`, the correction pushes outwards along
   * `from`, so its normalised direction is `from` scaled by a positive factor.
   */
  lemma CorrectionDirection(from: Vec, reach: real, sqrt: real -> real) returns (e: real)
    requires IsSqrt(sqrt) && from != Zero && Length(from, sqrt) < reach
    ensures e > 0.0 && Normalize(Correction(from, reach, sqrt), sqrt) == Scale(from, e)
  {
    var dist := Length(from, sqrt);
    var c := (reach - dist) / dist;
    QuotientPos(reach - dist, dist);
    ScaleNonZero(from, c);
    var d := NormalizeScale(Scale(from, c), sqrt);
    ScaleScale(from, c, d);
    MulPos(c, d);
    e := Mul(c, d);
  }

  /**
   * Overlapping balls that do not already move apart leave the contact with
   * their relative speed along the line of centres reversed and scaled by
   * the restitution coefficient; balls that move apart keep their velocities.
   */
  lemma BallContactResponse(me: Kinematics, other: Kinematics, sqrt: real -> real)
    requires IsSqrt(sqrt) && me.position != other.position
    requires Distance(me.position, other.position, sqrt) < 2.0 * BallRadius
    ensures var r := BallContact(me, other, sqrt);
      var from := Sub(me.position, other.position);
      var approach := Dot(Sub(me.velocity, other.velocity), from);
      (approach > 0.0 ==> r.mine.velocity == me.velocity && r.theirs.velocity == other.velocity)
      && (approach <= 0.0 ==> Dot(Sub(r.mine.velocity, r.theirs.velocity), from) == -Restitution * approach)
  {
    var from := Sub(me.position, other.position);
    var rel := Sub(me.velocity, other.velocity);
    var e := NormalSpeedSign(me, other, sqrt);
    var vn := NormalSpeed(me, other, sqrt);
    if vn <= 0.0 {
      var normal := ContactNormal(me, other, sqrt);
      var i := BallImpulse(vn);
      var r := BallContact(me, other, sqrt);
      assert r.mine.velocity == Add(me.velocity, Scale(Scale(normal, i), 1.0 / BallMass));
      assert r.theirs.velocity == Sub(other.velocity, Scale(Scale(normal, i), 1.0 / BallMass));
      SubZero(me.position, other.position);
      ScaleNonZero(from, e);
      assert LengthSq(normal) == 1.0;
      ExchangeAlong(me.velocity, other.velocity, normal, i, 1.0 / BallMass);
      var after := Sub(r.mine.velocity, r.theirs.velocity);
      assert Dot(after, normal) == vn + 2.0 * (i * (1.0 / BallMass));
      assert Dot(after, normal) == Mul(e, -Restitution * Dot(rel, from)) by {
        assert Mul(e, -Restitution * Dot(rel, from)) == -Restitution * Mul(e, Dot(rel, from));
      }
      DotScale(after, from, e);
      MulCancel(e, Dot(after, from), -Restitution * Dot(rel, from));
    }
  }

  /** The relative velocity after an equal and opposite exchange of `i * inverseMass` along a unit `normal`. */
  lemma ExchangeAlong(v1: Vec, v2: Vec, normal: Vec, i: real, inverseMass: real)
    requires LengthSq(normal) == 1.0
    ensures var j := Scale(Scale(normal, i), inverseMass);
      Dot(Sub(Add(v1, j), Sub(v2, j)), normal) == Dot(Sub(v1, v2), normal) + 2.0 * (i * inverseMass)
  {
    var j := Scale(Scale(normal, i), inverseMass);
    ScaleScale(normal, i, inverseMass);
    assert Sub(Add(v1, j), Sub(v2, j)) == Add(Sub(v1, v2), Scale(normal, 2.0 * Mul(i, inverseMass)));
    DotAdd(Sub(v1, v2), Scale(normal, 2.0 * Mul(i, inverseMass)), normal);
    ScaleLengthSq(normal, 2.0 * Mul(i, inverseMass));
  }

  /**
   * The share of the approach speed a ball keeps, reversed, after hitting a
   * wall: 1 + RESTITUTION split between the ball and the much heavier wall in
   * the ratio of their inverse masses, (1.98 * 0.1) / (0.1 + 0.01) - 1.
   */
  const WallRebound := 0.8

  /** The unit vector from the wall point towards the ball's centre. */
  function WallNormal(me: Kinematics, point: Vec, sqrt: real -> real): Vec
    requires IsSqrt(sqrt) && me.position != point
  {
    SubZero(me.position, point);
    Normalize(Correction(Sub(me.position, point), BallRadius, sqrt), sqrt)
  }

  /**
   * Ball::ResolveColission(vec2): the ball alone is pushed out along the line
   * from the wall point so that its edge touches it, and unless it already
   * moves away it receives an impulse against a wall of mass WALL_MASS.
   */
  function WallContact(me: Kinematics, point: Vec, sqrt: real -> real): Kinematics
    requires IsSqrt(sqrt) && me.position != point
  {
    SubZero(me.position, point);
    var minTranslation := Correction(Sub(me.position, point), BallRadius, sqrt);
    var position := Add(me.position, minTranslation);
    var normal := WallNormal(me, point, sqrt);
    var vn := Dot(me.velocity, normal);
    if vn > 0.0 then Kinematics(position, me.velocity)
    else
      var i := WallImpulse(vn);
      Kinematics(position, Add(me.velocity, Scale(Scale(normal, i), 1.0 / BallMass)))
  }

  /** The correction and the impulse of a wall contact act along the line from the wall point. */
  lemma WallContactAlongLine(me: Kinematics, point: Vec, sqrt: real -> real)
    requires IsSqrt(sqrt) && me.position != point
    ensures var r := WallContact(me, point, sqrt);
      var from := Sub(me.position, point);
      Cross(Sub(r.position, me.position), from) == 0.0
      && Cross(Sub(r.velocity, me.velocity), from) == 0.0
  {
    var from := Sub(me.position, point);
    SubZero(me.position, point);
    var minTranslation := Correction(from, BallRadius, sqrt);
    var normal := WallNormal(me, point, sqrt);
    AlongLine(from, minTranslation, normal, sqrt);
    SubAdd(me.position, minTranslation);
    var vn := Dot(me.velocity, normal);
    if vn > 0.0 {
      SubAdd(me.velocity, Zero);
      DotZero(from);
    } else {
      var i := WallImpulse(vn);
      ImpulseAlong(me.velocity, normal, from, i, 1.0 / BallMass);
    }
  }

  /**
   * A ball overlapping the wall point keeps its velocity if it already moves
   * away from the point; otherwise its speed along the line from the point is
   * reversed and scaled by WallRebound.
   */
  lemma WallContactResponse(me: Kinematics, point: Vec, sqrt: real -> real)
    requires IsSqrt(sqrt) && me.position != point
    requires Distance(me.position, point, sqrt) < BallRadius
    ensures var r := WallContact(me, point, sqrt);
      var from := Sub(me.position, point);
      var approach := Dot(me.velocity, from);
      (approach > 0.0 ==> r.velocity == me.velocity)
      && (approach <= 0.0 ==> Dot(r.velocity, from) == -WallRebound * approach)
  {
    var from := Sub(me.position, point);
    SubZero(me.position, point);
    var e := CorrectionDirection(from, BallRadius, sqrt);
    var normal := WallNormal(me, point, sqrt);
    var vn := Dot(me.velocity, normal);
    DotScale(me.velocity, from, e);
    MulSign(Dot(me.velocity, from), e);
    if vn <= 0.0 {
      var i := WallImpulse(vn);
      var after := WallContact(me, point, sqrt).velocity;
      assert after == Add(me.velocity, Scale(Scale(normal, i), 1.0 / BallMass));
      ScaleNonZero(from, e);
      assert LengthSq(normal) == 1.0;
      ScaleScale(normal, i, 1.0 / BallMass);
      DotAdd(me.velocity, Scale(normal, Mul(i, 1.0 / BallMass)), normal);
      ScaleLengthSq(normal, Mul(i, 1.0 / BallMass));
      assert Dot(after, normal) == -WallRebound * vn;
      assert Dot(after, normal) == Mul(e, -WallRebound * Dot(me.velocity, from)) by {
        assert Mul(e, -WallRebound * Dot(me.velocity, from)) == -WallRebound * Mul(e, Dot(me.velocity, from));
      }
      DotScale(after, from, e);
      MulCancel(e, Dot(after, from), -WallRebound * Dot(me.velocity, from));
    }
  }

  /** A velocity change made of a multiple of `normal` stays on the line of `normal`. */
  lemma ImpulseAlong(v: Vec, normal: Vec, from: Vec, i: real, inverseMass: real)
    requires Cross(normal, from) == 0.0
    ensures Cross(Sub(Add(v, Scale(Scale(normal, i), inverseMass)), v), from) == 0.0
  {
    SubAdd(v, Scale(Scale(normal, i), inverseMass));
    DotScale(normal, from, i);
    DotScale(Scale(normal, i), from, inverseMass);
  }

  /** The correction and its normalised direction both lie on the line of `from`. */
  lemma AlongLine(from: Vec, minTranslation: Vec, normal: Vec, sqrt: real -> real)
    requires IsSqrt(sqrt) && from != Zero
    requires minTranslation == Correction(from, 2.0 * BallRadius, sqrt) || minTranslation == Correction(from, BallRadius, sqrt)
    requires normal == Normalize(minTranslation, sqrt)
    ensures Cross(minTranslation, from) == 0.0 && Cross(normal, from) == 0.0
    ensures forall k :: Cross(Scale(minTranslation, k), from) == 0.0
  {
    var c := if minTranslation == Correction(from, 2.0 * BallRadius, sqrt)
      then (2.0 * BallRadius - Length(from, sqrt)) / Length(from, sqrt)
      else (BallRadius - Length(from, sqrt)) / Length(from, sqrt);
    assert minTranslation == Scale(from, c);
    CrossSelf(from);
    DotScale(from, from, c);
    forall k ensures Cross(Scale(minTranslation, k), from) == 0.0 {
      DotScale(minTranslation, from, k);
    }
    if minTranslation == Zero {
      assert normal == Zero;
      DotZero(from);
      assert Cross(normal, from) == Mul(0.0, from.y) - Mul(0.0, from.x);
    } else {
      var d := NormalizeScale(minTranslation, sqrt);
      DotScale(minTranslation, from, d);
    }
  }

  // ------------------------------------------------------- one whole tick

  /** The state a ball is built in by the Ball constructor. */
  function Initial(kind: BallType, position: Vec, color: Color): (s: BallState)
    ensures s.velocity == Zero && s.stopped && s.onBoard
    ensures kind == White ==> s.position == WhiteSpot && s.color == WhiteColor
    ensures kind == Black ==> s.position == position && s.color == BlackColor
    ensures kind == Normal ==> s.position == position && s.color == color
  {
    var s := BallState(position, Zero, color, true, true);
    match kind
    case White => Respotted(s)
    case Black => s.(color := BlackColor)
    case Normal => s
  }

  /**
   * The ball-to-ball phase of Ball::Update for the ball at index `self`, after
   * the first `n` entries of the list: every other ball whose centre is within
   * two radii is resolved against it, in list order. A ball whose centre
   * coincides with this one's is passed over.
   */
  function CollisionPass(ms: seq<Kinematics>, self: nat, n: nat, sqrt: real -> real): (r: seq<Kinematics>)
    requires IsSqrt(sqrt) && self < |ms| && n <= |ms|
    ensures |r| == |ms|
    decreases n, 0
  {
    if n == 0 then ms else Turn(ms, self, n - 1, sqrt)
  }

  /**
   * The list after turn `j` of the pass: the turns before it, then this ball
   * against entry `j` when that is another ball within two radii.
   */
  function Turn(ms: seq<Kinematics>, self: nat, j: nat, sqrt: real -> real): (r: seq<Kinematics>)
    requires IsSqrt(sqrt) && self < |ms| && j < |ms|
    ensures |r| == |ms|
    decreases j, 1
  {
    var prev := CollisionPass(ms, self, j, sqrt);
    if j != self && Touching(prev[j].position, prev[self].position, sqrt) then
      var c := BallContact(prev[self], prev[j], sqrt);
      prev[self := c.mine][j := c.theirs]
    else prev
  }

  /**
   * Momentum is conserved by the ball-to-ball phase: all balls weigh the same,
   * so the sum of the velocities of the list, and likewise the sum of the
   * positions, is what it was before.
   */
  lemma {:induction false} PassConserves(ms: seq<Kinematics>, self: nat, n: nat, sqrt: real -> real)
    requires IsSqrt(sqrt) && self < |ms| && n <= |ms|
    ensures Total(Velocities(CollisionPass(ms, self, n, sqrt))) == Total(Velocities(ms))
    ensures Total(Positions(CollisionPass(ms, self, n, sqrt))) == Total(Positions(ms))
  {
    if n > 0 {
      var j := n - 1;
      PassConserves(ms, self, j, sqrt);
      TurnConserves(ms, self, j, sqrt);
      assert j + 1 == n;
    }
  }

  /** One turn keeps both sums of the list it starts from. */
  lemma TurnConserves(ms: seq<Kinematics>, self: nat, j: nat, sqrt: real -> real)
    requires IsSqrt(sqrt) && self < |ms| && j < |ms|
    ensures var prev := CollisionPass(ms, self, j, sqrt);
      && Total(Velocities(CollisionPass(ms, self, j + 1, sqrt))) == Total(Velocities(prev))
      && Total(Positions(CollisionPass(ms, self, j + 1, sqrt))) == Total(Positions(prev))
  {
    assert CollisionPass(ms, self, j + 1, sqrt) == Turn(ms, self, j, sqrt);
    var prev := CollisionPass(ms, self, j, sqrt);
    if j != self && Touching(prev[j].position, prev[self].position, sqrt) {
      var c := BallContact(prev[self], prev[j], sqrt);
      BallContactConserves(prev[self], prev[j], sqrt);
      ExchangeConserves(prev, self, j, c.mine, c.theirs);
    }
  }

  /** The guard of the ball-to-ball phase: distinct centres at most two radii apart. */
  predicate Touching(other: Vec, me: Vec, sqrt: real -> real)
    requires IsSqrt(sqrt)
  {
    other != me && Distance(other, me, sqrt) <= 2.0 * BallRadius
  }

  function Velocities(ms: seq<Kinematics>): (vs: seq<Vec>)
    ensures |vs| == |ms| && forall k :: 0 <= k < |ms| ==> vs[k] == ms[k].velocity
  {
    seq(|ms|, k requires 0 <= k < |ms| => ms[k].velocity)
  }

  function Positions(ms: seq<Kinematics>): (ps: seq<Vec>)
    ensures |ps| == |ms| && forall k :: 0 <= k < |ms| ==> ps[k] == ms[k].position
  {
    seq(|ms|, k requires 0 <= k < |ms| => ms[k].position)
  }

  /** Replacing two entries by two others of the same sums keeps the totals. */
  lemma ExchangeConserves(ms: seq<Kinematics>, self: nat, j: nat, a: Kinematics, b: Kinematics)
    requires self < |ms| && j < |ms| && self != j
    requires Add(a.velocity, b.velocity) == Add(ms[self].velocity, ms[j].velocity)
    requires Add(a.position, b.position) == Add(ms[self].position, ms[j].position)
    ensures Total(Velocities(ms[self := a][j := b])) == Total(Velocities(ms))
    ensures Total(Positions(ms[self := a][j := b])) == Total(Positions(ms))
  {
    var mid := ms[self := a];
    assert Velocities(mid) == Velocities(ms)[self := a.velocity];
    assert Velocities(mid[j := b]) == Velocities(mid)[j := b.velocity];
    TotalUpdate(Velocities(ms), self, a.velocity);
    TotalUpdate(Velocities(mid), j, b.velocity);
    assert Positions(mid) == Positions(ms)[self := a.position];
    assert Positions(mid[j := b]) == Positions(mid)[j := b.position];
    TotalUpdate(Positions(ms), self, a.position);
    TotalUpdate(Positions(mid), j, b.position);
  }

  /** A sequence that differs from `before` at most at two indices is `before` with those two entries replaced. */
  lemma ExchangeShape(after: seq<Kinematics>, before: seq<Kinematics>, self: nat, j: nat)
    requires |after| == |before| && self < |before| && j < |before|
    requires forall k :: 0 <= k < |before| && k != self && k != j ==> after[k] == before[k]
    ensures after == before[self := after[self]][j := after[j]]
  {
  }

  /** A turn against a touching ball replaces the two entries by the contact's results. */
  lemma TurnContact(ms: seq<Kinematics>, self: nat, j: nat, sqrt: real -> real, mine: Kinematics, theirs: Kinematics)
    requires IsSqrt(sqrt) && self < |ms| && j < |ms| && j != self
    requires var prev := CollisionPass(ms, self, j, sqrt);
      && Touching(prev[j].position, prev[self].position, sqrt)
      && Contact(mine, theirs) == BallContact(prev[self], prev[j], sqrt)
    ensures CollisionPass(ms, self, j + 1, sqrt) == CollisionPass(ms, self, j, sqrt)[self := mine][j := theirs]
  {
    assert CollisionPass(ms, self, j + 1, sqrt) == Turn(ms, self, j, sqrt);
  }

  /** A turn against itself or against a ball out of reach changes nothing. */
  lemma TurnSkip(ms: seq<Kinematics>, self: nat, j: nat, sqrt: real -> real)
    requires IsSqrt(sqrt) && self < |ms| && j < |ms|
    requires var prev := CollisionPass(ms, self, j, sqrt);
      j == self || !Touching(prev[j].position, prev[self].position, sqrt)
    ensures CollisionPass(ms, self, j + 1, sqrt) == CollisionPass(ms, self, j, sqrt)
  {
    assert CollisionPass(ms, self, j + 1, sqrt) == Turn(ms, self, j, sqrt);
  }

  /** A wall contact, passed over when the centre lies exactly on the wall point. */
  function Bounce(me: Kinematics, point: Vec, sqrt: real -> real): Kinematics
    requires IsSqrt(sqrt)
  {
    if me.position == point then me else WallContact(me, point, sqrt)
  }

  /**
   * The four wall guards of Ball::Update, in order: a ball whose edge reaches
   * or crosses a cushion bounces off the point of that cushion nearest its
   * centre, each guard seeing the position the guards before it left.
   */
  function Walls(me: Kinematics, sqrt: real -> real): Kinematics
    requires IsSqrt(sqrt)
  {
    var a := if me.position.x - BallRadius <= 0.0 then Bounce(me, Vec(0.0, me.position.y), sqrt) else me;
    var b := if a.position.x + BallRadius >= Table.GameWidth then Bounce(a, Vec(Table.GameWidth, a.position.y), sqrt) else a;
    var c := if b.position.y - BallRadius <= 0.0 then Bounce(b, Vec(b.position.x, 0.0), sqrt) else b;
    if c.position.y + BallRadius >= Table.GameHeight then Bounce(c, Vec(c.position.x, Table.GameHeight), sqrt) else c
  }

  /** A ball clear of all four cushions is not touched by the wall phase. */
  lemma WallsClear(me: Kinematics, sqrt: real -> real)
    requires IsSqrt(sqrt)
    requires BallRadius < me.position.x < Table.GameWidth - BallRadius
    requires BallRadius < me.position.y < Table.GameHeight - BallRadius
    ensures Walls(me, sqrt) == me
  {
  }

  /**
   * The tail of Ball::Update: friction, the stopped flag from the new speed,
   * the move by velocity * dt * VELOCITY_MULTIPLIER, then the hole loop.
   */
  function Advanced(kind: BallType, s: BallState, dt: real, holes: seq<Vec>, sqrt: real -> real): BallState
    requires IsSqrt(sqrt)
  {
    Captured(kind, Moved(s, FrictionVelocity(s.velocity, dt, sqrt), dt, sqrt), holes, sqrt)
  }

  /** Lines 56-58 of the tick: the new velocity `v` sets the stopped flag and moves the ball. */
  function Moved(s: BallState, v: Vec, dt: real, sqrt: real -> real): BallState
    requires IsSqrt(sqrt)
  {
    s.(velocity := v, stopped := Length(v, sqrt) < VelocityBias,
       position := Add(s.position, Scale(Scale(v, dt), VelocityMultiplier)))
  }

  /**
   * What the tail of a tick promises about the flags: a ball never comes back
   * onto the board and the cue ball never leaves it; a ball other than the
   * cue ball keeps its colour, is stopped exactly when its speed after
   * friction is below VELOCITY_BIAS, and leaves the board exactly when its
   * new position lies in a pocket.
   */
  lemma AdvancedFlags(kind: BallType, s: BallState, dt: real, holes: seq<Vec>, sqrt: real -> real)
    requires IsSqrt(sqrt)
    ensures var r := Advanced(kind, s, dt, holes, sqrt);
      && (r.onBoard ==> s.onBoard)
      && (kind == White ==> r.onBoard == s.onBoard)
      && (kind != White ==>
            && r.color == s.color
            && r.velocity == FrictionVelocity(s.velocity, dt, sqrt)
            && r.stopped == (Length(r.velocity, sqrt) < VelocityBias)
            && r.onBoard == (s.onBoard && !InAnyPocket(r.position, holes, sqrt)))
  {
  }

  /** A ball slower than VELOCITY_BIAS stops dead where it is (or, the cue ball, on its spot). */
  lemma AdvancedSlow(kind: BallType, s: BallState, dt: real, holes: seq<Vec>, sqrt: real -> real)
    requires IsSqrt(sqrt) && Length(s.velocity, sqrt) < VelocityBias
    ensures var r := Advanced(kind, s, dt, holes, sqrt);
      r.velocity == Zero && r.stopped && (r.position == s.position || (kind == White && r.position == WhiteSpot))
  {
    AdvancedAtRest(kind, s, dt, holes, sqrt);
  }

  lemma AdvancedAtRest(kind: BallType, s: BallState, dt: real, holes: seq<Vec>, sqrt: real -> real)
    requires IsSqrt(sqrt) && FrictionVelocity(s.velocity, dt, sqrt) == Zero
    ensures var r := Advanced(kind, s, dt, holes, sqrt);
      r.velocity == Zero && r.stopped && (r.position == s.position || (kind == White && r.position == WhiteSpot))
  {
    var m := Moved(s, FrictionVelocity(s.velocity, dt, sqrt), dt, sqrt);
    MovedAtRest(s, dt, sqrt);
    assert m == s.(velocity := Zero, stopped := true);
    CapturedAtRest(kind, m, holes, sqrt);
  }

  lemma CapturedAtRest(kind: BallType, s: BallState, holes: seq<Vec>, sqrt: real -> real)
    requires IsSqrt(sqrt) && s.velocity == Zero && s.stopped
    ensures var r := Captured(kind, s, holes, sqrt);
      r.velocity == Zero && r.stopped && (r.position == s.position || (kind == White && r.position == WhiteSpot))
  {
    CapturedOnly(kind, s, holes, sqrt);
  }

  lemma MovedAtRest(s: BallState, dt: real, sqrt: real -> real)
    requires IsSqrt(sqrt)
    ensures Moved(s, Zero, dt, sqrt) == s.(velocity := Zero, stopped := true)
  {
    MovedAtRestStays(s, dt, sqrt);
    MovedAtRestStopped(s, dt, sqrt);
  }

  lemma MovedAtRestStays(s: BallState, dt: real, sqrt: real -> real)
    requires IsSqrt(sqrt)
    ensures Moved(s, Zero, dt, sqrt).position == s.position
  {
    ScaleZero(dt);
    ScaleZero(VelocityMultiplier);
    AddZero(s.position);
  }

  lemma MovedAtRestStopped(s: BallState, dt: real, sqrt: real -> real)
    requires IsSqrt(sqrt)
    ensures Moved(s, Zero, dt, sqrt).stopped
  {
    assert Length(Zero, sqrt) == 0.0;
  }

  /**
   * The hole loop changes nothing but what pocketing changes: the cue ball
   * is respotted or left alone, any other ball is taken off the board or
   * left alone.
   */
  lemma CapturedOnly(kind: BallType, s: BallState, holes: seq<Vec>, sqrt: real -> real)
    requires IsSqrt(sqrt)
    ensures var r := Captured(kind, s, holes, sqrt);
      r == s || (kind == White && r == Respotted(s)) || (kind != White && r == s.(onBoard := false))
  {
  }

  // ------------------------------------------------------------ the class

  /** No ball appears twice in the list. */
  predicate Distinct(bs: seq<Ball>)
  {
    forall i, j :: 0 <= i < j < |bs| ==> bs[i] != bs[j]
  }

  /** The position and velocity of every ball of the list, in order. */
  function Motions(bs: seq<Ball>): (ms: seq<Kinematics>)
    reads bs
    ensures |ms| == |bs| && forall k :: 0 <= k < |bs| ==> ms[k] == Kinematics(bs[k].position, bs[k].velocity)
  {
    seq(|bs|, k requires 0 <= k < |bs| reads bs => bs[k].Motion())
  }

  /** The colour, stopped and on-board flags of every ball of the list, in order. */
  function FlagsOf(bs: seq<Ball>): (fs: seq<Flags>)
    reads bs
    ensures |fs| == |bs| && forall k :: 0 <= k < |bs| ==> fs[k] == bs[k].Marks()
  {
    seq(|bs|, k requires 0 <= k < |bs| reads bs => bs[k].Marks())
  }

  /** The state of every ball of the list, in order. */
  function States(bs: seq<Ball>): (ss: seq<BallState>)
    reads bs
    ensures |ss| == |bs| && forall k :: 0 <= k < |bs| ==> ss[k] == bs[k].State()
  {
    seq(|bs|, k requires 0 <= k < |bs| reads bs => bs[k].State())
  }

  /** The kind of every ball of the list, in order. */
  function Types(bs: seq<Ball>): (ts: seq<BallType>)
    ensures |ts| == |bs| && forall k :: 0 <= k < |bs| ==> ts[k] == bs[k].ballType
  {
    seq(|bs|, k requires 0 <= k < |bs| => bs[k].ballType)
  }

  /** The positions and velocities held by a list of states. */
  function MotionsOf(ss: seq<BallState>): (ms: seq<Kinematics>)
    ensures |ms| == |ss| && forall k :: 0 <= k < |ss| ==> ms[k] == Kinematics(ss[k].position, ss[k].velocity)
  {
    seq(|ss|, k requires 0 <= k < |ss| => Kinematics(ss[k].position, ss[k].velocity))
  }

  /**
   * Ball::Update of entry `self` as a function of the states of the whole
   * list: the other entries take their motions from the collision pass and
   * keep their colours and flags; entry `self` goes through the pass, the
   * cushions and the tail of the tick.
   */
  function Tick(ss: seq<BallState>, types: seq<BallType>, self: nat, dt: real, holes: seq<Vec>, sqrt: real -> real): (r: seq<BallState>)
    requires IsSqrt(sqrt) && |types| == |ss| && self < |ss|
    ensures |r| == |ss|
  {
    var passed := CollisionPass(MotionsOf(ss), self, |ss|, sqrt);
    seq(|ss|, k requires 0 <= k < |ss| =>
      if k == self then
        var walled := Walls(passed[self], sqrt);
        Advanced(types[self], ss[self].(position := walled.position, velocity := walled.velocity), dt, holes, sqrt)
      else ss[k].(position := passed[k].position, velocity := passed[k].velocity))
  }

  /** Where `b` stands in a list holding it. */
  function IndexOf(bs: seq<Ball>, b: Ball): (i: nat)
    requires b in bs
    ensures i < |bs| && bs[i] == b
  {
    if bs[0] == b then 0 else 1 + IndexOf(bs[1..], b)
  }

  /** Ball (Ball.h, Ball.cpp). Its colour, solidity and kind are fixed at construction. */
  class Ball {
    var position: Vec
    var velocity: Vec
    var color: Color
    const solid: bool
    const ballType: BallType
    var stopped: bool
    var onBoard: bool

    function State(): BallState
      reads this
    {
      BallState(position, velocity, color, stopped, onBoard)
    }

    function Motion(): Kinematics
      reads this
    {
      Kinematics(position, velocity)
    }

    function Marks(): Flags
      reads this
    {
      Flags(color, stopped, onBoard)
    }

    /** At rest and on the board; the cue ball is respotted, the black ball painted black. */
    constructor(position: Vec, color: Color, solid: bool, ballType: BallType)
      ensures this.solid == solid && this.ballType == ballType
      ensures State() == Initial(ballType, position, color)
    {
      this.position := position;
      this.velocity := Zero;
      this.color := color;
      this.solid := solid;
      this.ballType := ballType;
      this.stopped := true;
      this.onBoard := true;
      new;
      match ballType {
        case White => ResetWhite();
        case Black => ResetBlack();
        case Normal =>
      }
    }

    method ResetWhite()
      modifies this
      ensures State() == Respotted(old(State()))
    {
      color := WhiteColor;
      position := WhiteSpot;
      velocity := Zero;
    }

    method ResetBlack()
      modifies this
      ensures State() == old(State()).(color := BlackColor)
    {
      color := BlackColor;
    }

    method SetPosition(p: Vec)
      modifies this
      ensures State() == old(State()).(position := p)
    {
      position := p;
    }

    method SetVelocity(v: Vec)
      modifies this
      ensures State() == old(State()).(velocity := v)
    {
      velocity := v;
    }

    /** Ball::ResolveColission(Ball*), for two balls whose centres differ. */
    method ResolveCollisionWithBall(other: Ball, sqrt: real -> real)
      requires IsSqrt(sqrt) && other != this && position != other.position
      modifies this, other
      ensures Contact(Motion(), other.Motion()) == BallContact(old(Motion()), old(other.Motion()), sqrt)
      ensures color == old(color) && stopped == old(stopped) && onBoard == old(onBoard)
      ensures other.color == old(other.color) && other.stopped == old(other.stopped) && other.onBoard == old(other.onBoard)
    {
      var fromOther := Sub(position, other.position);
      SubZero(position, other.position);
      var minTranslation := Correction(fromOther, 2.0 * BallRadius, sqrt);
      ghost var me, them := Motion(), other.Motion();
      position := Add(position, Scale(minTranslation, 0.5));
      other.position := Add(other.position, Scale(minTranslation, -0.5));
      var v := Sub(velocity, other.velocity);
      var normal := Normalize(minTranslation, sqrt);
      var vn := Dot(v, normal);
      if vn > 0.0 {
        return;
      }
      var i := BallImpulse(vn);
      var impulse := Scale(normal, i);
      velocity := Add(velocity, Scale(impulse, 1.0 / BallMass));
      other.velocity := Sub(other.velocity, Scale(impulse, 1.0 / BallMass));
    }

    /** Ball::ResolveColission(vec2), for a wall point other than the centre. */
    method ResolveCollisionWithWall(point: Vec, sqrt: real -> real)
      requires IsSqrt(sqrt) && position != point
      modifies this
      ensures Motion() == WallContact(old(Motion()), point, sqrt)
      ensures color == old(color) && stopped == old(stopped) && onBoard == old(onBoard)
    {
      var fromOther := Sub(position, point);
      SubZero(position, point);
      var minTranslation := Correction(fromOther, BallRadius, sqrt);
      var im1 := 1.0 / BallMass;
      var im2 := 1.0 / WallMass;
      ghost var me := Motion();
      position := Add(position, minTranslation);
      var v := velocity;
      var normal := Normalize(minTranslation, sqrt);
      var vn := Dot(v, normal);
      assert normal == WallNormal(me, point, sqrt);
      if vn > 0.0 {
        return;
      }
      var i := (-(1.0 + Restitution) * vn) / (im1 + im2);
      var impulse := Scale(normal, i);
      velocity := Add(velocity, Scale(impulse, im1));
    }

    /** Ball::UpdateFriction. */
    method UpdateFriction(dt: real, sqrt: real -> real)
      requires IsSqrt(sqrt)
      modifies this
      ensures State() == old(State()).(velocity := FrictionVelocity(old(velocity), dt, sqrt))
    {
      var direction := velocity;
      if Length(direction, sqrt) < VelocityBias {
        velocity := Zero;
        return;
      }
      var friction := Scale(Normalize(direction, sqrt), -FrictionMultiplier);
      var prevVelocity := velocity;
      velocity := Add(velocity, Scale(friction, dt));
      if Dot(prevVelocity, velocity) <= 0.0 {
        velocity := Zero;
      }
    }

    /** Lines 54-78 of Ball::Update: friction, the stopped flag, the move and the hole loop. */
    method Advance(dt: real, holes: seq<Vec>, sqrt: real -> real)
      requires IsSqrt(sqrt)
      modifies this
      ensures State() == Advanced(ballType, old(State()), dt, holes, sqrt)
    {
      UpdateFriction(dt, sqrt);
      stopped := Length(velocity, sqrt) < VelocityBias;
      position := Add(position, Scale(Scale(velocity, dt), VelocityMultiplier));
      Capture(holes, sqrt);
    }

    /** Lines 60-78 of Ball::Update: the pocket loop over the new position. */
    method Capture(holes: seq<Vec>, sqrt: real -> real)
      requires IsSqrt(sqrt)
      modifies this
      ensures State() == Captured(ballType, old(State()), holes, sqrt)
    {
      var i := 0;
      while i < |holes|
        invariant 0 <= i <= |holes|
        invariant State() == Captured(ballType, old(State()), holes[..i], sqrt)
      {
        assert holes[..i + 1][..i] == holes[..i];
        if Distance(holes[i], position, sqrt) < DistanceToEnterHole {
          match ballType {
            case White => ResetWhite();
            case Black => onBoard := false;
            case Normal => onBoard := false;
          }
        }
        i := i + 1;
      }
      assert holes[..i] == holes;
    }

    /** Lines 42-52 of Ball::Update: the four cushion guards. */
    method ResolveWalls(sqrt: real -> real)
      requires IsSqrt(sqrt)
      modifies this
      ensures Motion() == Walls(old(Motion()), sqrt)
      ensures color == old(color) && stopped == old(stopped) && onBoard == old(onBoard)
    {
      if position.x - BallRadius <= 0.0 {
        BounceOff(Vec(0.0, position.y), sqrt);
      }
      if position.x + BallRadius >= Table.GameWidth {
        BounceOff(Vec(Table.GameWidth, position.y), sqrt);
      }
      if position.y - BallRadius <= 0.0 {
        BounceOff(Vec(position.x, 0.0), sqrt);
      }
      if position.y + BallRadius >= Table.GameHeight {
        BounceOff(Vec(position.x, Table.GameHeight), sqrt);
      }
    }

    /** One cushion guard, passed over when the centre lies exactly on the wall point. */
    method BounceOff(point: Vec, sqrt: real -> real)
      requires IsSqrt(sqrt)
      modifies this
      ensures Motion() == Bounce(old(Motion()), point, sqrt)
      ensures color == old(color) && stopped == old(stopped) && onBoard == old(onBoard)
    {
      if position != point {
        ResolveCollisionWithWall(point, sqrt);
      }
    }

    /**
     * Lines 32-40 of Ball::Update: this ball, at index `IndexOf(otherBalls,
     * this)` of the list, against every other ball of the list in order.
     */
    method CollideWithBalls(otherBalls: seq<Ball>, sqrt: real -> real)
      requires IsSqrt(sqrt) && this in otherBalls && Distinct(otherBalls)
      modifies otherBalls
      ensures Motions(otherBalls) == CollisionPass(old(Motions(otherBalls)), IndexOf(otherBalls, this), |otherBalls|, sqrt)
      ensures FlagsOf(otherBalls) == old(FlagsOf(otherBalls))
    {
      ghost var self := IndexOf(otherBalls, this);
      ghost var start := Motions(otherBalls);
      var j := 0;
      while j < |otherBalls|
        invariant 0 <= j <= |otherBalls|
        invariant Motions(otherBalls) == CollisionPass(start, self, j, sqrt)
        invariant FlagsOf(otherBalls) == old(FlagsOf(otherBalls))
      {
        CollideWith(otherBalls, start, self, j, sqrt);
        j := j + 1;
      }
    }

    /** One turn of the loop of lines 32-40, from the list as the turns before it left it. */
    method CollideWith(otherBalls: seq<Ball>, ghost start: seq<Kinematics>, ghost self: nat, j: nat, sqrt: real -> real)
      requires IsSqrt(sqrt) && Distinct(otherBalls) && self < |otherBalls| && otherBalls[self] == this && j < |otherBalls|
      requires |start| == |otherBalls| && Motions(otherBalls) == CollisionPass(start, self, j, sqrt)
      modifies this, otherBalls[j]
      ensures Motions(otherBalls) == CollisionPass(start, self, j + 1, sqrt)
      ensures FlagsOf(otherBalls) == old(FlagsOf(otherBalls))
    {
      var other := otherBalls[j];
      if other != this && other.position != position && Distance(other.position, position, sqrt) <= 2.0 * BallRadius {
        Collide(otherBalls, start, self, j, sqrt);
      } else {
        TurnSkip(start, self, j, sqrt);
      }
    }

    /** The body of the guard of lines 36-38: this ball resolved against the touching ball `otherBalls[j]`. */
    method Collide(otherBalls: seq<Ball>, ghost start: seq<Kinematics>, ghost self: nat, j: nat, sqrt: real -> real)
      requires IsSqrt(sqrt) && Distinct(otherBalls) && self < |otherBalls| && otherBalls[self] == this && j < |otherBalls|
      requires |start| == |otherBalls| && Motions(otherBalls) == CollisionPass(start, self, j, sqrt)
      requires j != self && Touching(otherBalls[j].position, position, sqrt)
      modifies this, otherBalls[j]
      ensures Motions(otherBalls) == CollisionPass(start, self, j + 1, sqrt)
      ensures FlagsOf(otherBalls) == old(FlagsOf(otherBalls))
    {
      ghost var before := Motions(otherBalls);
      ghost var flags := FlagsOf(otherBalls);
      var other := otherBalls[j];
      ResolveCollisionWithBall(other, sqrt);
      forall k | 0 <= k < |otherBalls| && k != self && k != j
        ensures Motions(otherBalls)[k] == before[k] && FlagsOf(otherBalls)[k] == flags[k]
      {
        assert otherBalls[k] != this && otherBalls[k] != other;
      }
      assert FlagsOf(otherBalls) == flags;
      ExchangeShape(Motions(otherBalls), before, self, j);
      TurnContact(start, self, j, sqrt, Motion(), other.Motion());
    }

    /**
     * Ball::Update for a ball of the list `otherBalls` (the game passes its
     * whole list, this ball included): the ball-to-ball phase, the cushions,
     * then the tail of the tick.
     */
    method Update(dt: real, otherBalls: seq<Ball>, holes: seq<Vec>, sqrt: real -> real)
      requires IsSqrt(sqrt) && this in otherBalls && Distinct(otherBalls)
      modifies otherBalls
      ensures var self := IndexOf(otherBalls, this);
        var passed := CollisionPass(old(Motions(otherBalls)), self, |otherBalls|, sqrt);
        var walled := Walls(passed[self], sqrt);
        && (forall k :: 0 <= k < |otherBalls| && k != self ==> otherBalls[k].Motion() == passed[k])
        && State() == Advanced(ballType, old(State()).(position := walled.position, velocity := walled.velocity), dt, holes, sqrt)
      ensures forall b :: b in otherBalls && b != this ==> b.color == old(b.color) && b.stopped == old(b.stopped) && b.onBoard == old(b.onBoard)
      ensures onBoard ==> old(onBoard)
      ensures ballType == White ==> onBoard == old(onBoard)
      ensures States(otherBalls) == Tick(old(States(otherBalls)), Types(otherBalls), IndexOf(otherBalls, this), dt, holes, sqrt)
    {
      ghost var before := States(otherBalls);
      assert old(Motions(otherBalls)) == MotionsOf(before);
      CollideWithBalls(otherBalls, sqrt);
      forall b | b in otherBalls
        ensures b.color == old(b.color) && b.stopped == old(b.stopped) && b.onBoard == old(b.onBoard)
      {
        var k := IndexOf(otherBalls, b);
        assert FlagsOf(otherBalls)[k] == old(FlagsOf(otherBalls))[k];
      }
      ResolveWalls(sqrt);
      ghost var beforeTail := State();
      Advance(dt, holes, sqrt);
      AdvancedFlags(ballType, beforeTail, dt, holes, sqrt);
      ghost var self := IndexOf(otherBalls, this);
      ghost var ticked := Tick(before, Types(otherBalls), self, dt, holes, sqrt);
      forall k | 0 <= k < |otherBalls|
        ensures States(otherBalls)[k] == ticked[k]
      {
        if k != self {
          assert otherBalls[k].Marks() == old(otherBalls[k].Marks());
        }
      }
    }
  }
}
