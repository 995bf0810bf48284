/**
 * Game (Game.h, Game.cpp) without its drawing and input plumbing: the list
 * of balls, the pockets, the match bookkeeping, one tick of the game, the
 * shot, the set-up of a match and the aiming ray.
 */
module Billiards {

  import opened Vectors
  import Table
  import opened Balls
  import opened Rules
  import opened RayCast
  import opened Rack

  /** Game::RayIntersection: where the aiming ray stops, the surface normal there, and the ball it stops at (null for a cushion or nothing). */
  datatype RayIntersection = RayIntersection(point: Vec, normal: Vec, ball: Ball?)

  /** The ray's length when nothing stops it: endPosition is start + direction * 1000. */
  const RayLength := 1000.0

  // ------------------------------------------------------------ scans of the ball list

  /** No ball of `group` is in the list. */
  predicate Cleared(group: seq<Ball>, bs: seq<Ball>)
  {
    forall a :: a in group ==> a !in bs
  }

  /** The black ball is in the list. */
  predicate BlackOnTable(bs: seq<Ball>)
  {
    exists b :: b in bs && b.ballType == Black
  }

  /** Every ball of the list is at rest. */
  predicate AllStopped(bs: seq<Ball>)
    reads set b | b in bs
  {
    forall b :: b in bs ==> b.stopped
  }

  /** Lines 203-212 of Game::Update: the nested search for a ball of the group still in the list. */
  method NoneRemaining(group: seq<Ball>, bs: seq<Ball>) returns (finishedBalls: bool)
    ensures finishedBalls <==> Cleared(group, bs)
  {
    finishedBalls := true;
    for i := 0 to |group|
      invariant finishedBalls <==> forall k :: 0 <= k < i ==> group[k] !in bs
    {
      for j := 0 to |bs|
        invariant finishedBalls <==> (forall k :: 0 <= k < i ==> group[k] !in bs) && group[i] !in bs[..j]
      {
        assert bs[..j + 1] == bs[..j] + [bs[j]];
        if group[i] == bs[j] {
          finishedBalls := false;
        }
      }
      assert bs[..|bs|] == bs;
    }
  }

  /** Lines 219-227 of Game::Update: look for the black ball, stopping at the first. */
  method FindBlack(bs: seq<Ball>) returns (foundBlack: bool)
    ensures foundBlack <==> BlackOnTable(bs)
  {
    foundBlack := false;
    var i := 0;
    while i < |bs|
      invariant 0 <= i <= |bs|
      invariant forall k :: 0 <= k < i ==> bs[k].ballType != Black
    {
      if bs[i].ballType == Black {
        foundBlack := true;
        return;
      }
      i := i + 1;
    }
  }

  /** Lines 246-254 of Game::Update: whether every ball is at rest, stopping at the first moving one. */
  method CheckStopped(bs: seq<Ball>) returns (allStopped: bool)
    ensures allStopped <==> AllStopped(bs)
  {
    allStopped := true;
    var i := 0;
    while i < |bs|
      invariant 0 <= i <= |bs|
      invariant forall k :: 0 <= k < i ==> bs[k].stopped
    {
      if !bs[i].stopped {
        allStopped := false;
        return;
      }
      i := i + 1;
    }
  }

  /** A list of balls none of which has changed has the same states and the same removal. */
  twostate lemma BallsUnchanged(bs: seq<Ball>)
    requires forall b :: b in bs ==> unchanged(b)
    ensures States(bs) == old(States(bs)) && Removed(bs) == old(Removed(bs))
  {
    forall k | 0 <= k < |bs|
      ensures bs[k].State() == old(bs[k].State())
    {
      assert bs[k] in bs;
    }
  }

  /** The index of the last ball of the list that is off the board, or -1. */
  function LastOff(bs: seq<Ball>): (i: int)
    reads set b | b in bs
    ensures -1 <= i < |bs|
    ensures i == -1 ==> forall b :: b in bs ==> b.onBoard
    ensures i != -1 ==> !bs[i].onBoard && forall k :: i < k < |bs| ==> bs[k].onBoard
    decreases |bs|
  {
    if bs == [] then -1
    else if !bs[|bs| - 1].onBoard then |bs| - 1
    else LastOff(bs[..|bs| - 1])
  }

  /**
   * The list lines 162-199 of Game::Update leave: swap-and-pop at the last
   * ball off the board, again and again until every ball is on it.
   */
  function Removed(bs: seq<Ball>): (r: seq<Ball>)
    reads set b | b in bs
    decreases |bs|
  {
    var i := LastOff(bs);
    if i == -1 then bs else Removed(SwapPop(bs, i))
  }

  /**
   * Swap-and-pop fixes the order of what is left: of three balls with the
   * middle one pocketed the other two keep their order, while with the first
   * one pocketed the last ball takes its place.
   */
  lemma RemovedOrder(a: Ball, b: Ball, c: Ball)
    requires a.onBoard && !b.onBoard && c.onBoard
    ensures Removed([a, b, c]) == [a, c]
    ensures Removed([b, a, c]) == [c, a]
  {
    assert [a, b, c][..2] == [a, b];
    assert LastOff([a, b, c]) == 1;
    assert SwapPop([a, b, c], 1) == [a, c];
    assert [a, c][..1] == [a];
    assert LastOff([a, c]) == -1;
    assert [b, a, c][..2] == [b, a];
    assert [b, a, c][..1] == [b];
    assert LastOff([b, a, c]) == 0;
    assert SwapPop([b, a, c], 0) == [c, a];
    assert [c, a][..1] == [c];
    assert LastOff([c, a]) == -1;
  }

  /** One pass of lines 167-187 of Game::Update: the last index of a ball off the board, or -1. */
  method LastOffBoard(bs: seq<Ball>) returns (badIndex: int)
    ensures badIndex == LastOff(bs)
    ensures -1 <= badIndex < |bs|
    ensures badIndex == -1 ==> forall b :: b in bs ==> b.onBoard
    ensures badIndex != -1 ==> !bs[badIndex].onBoard && forall k :: badIndex < k < |bs| ==> bs[k].onBoard
  {
    badIndex := -1;
    for i := 0 to |bs|
      invariant badIndex == LastOff(bs[..i])
    {
      assert bs[..i + 1][..i] == bs[..i];
      if !bs[i].onBoard {
        badIndex := i;
      }
    }
    assert bs[..|bs|] == bs;
  }

  /**
   * Lines 162-199 of Game::Update: while some ball is off the board, the
   * last such ball is overwritten by the final entry and the final entry
   * dropped. The balls left are exactly the on-board ones, each as often as
   * before.
   */
  method RemoveOffBoard(bs: seq<Ball>) returns (r: seq<Ball>)
    ensures r == Removed(bs)
    ensures forall b :: b in r ==> b.onBoard
    ensures forall b: Ball :: multiset(r)[b] == if b.onBoard then multiset(bs)[b] else 0
  {
    r := bs;
    var badIndex := LastOffBoard(r);
    while badIndex != -1
      invariant badIndex == LastOff(r) && Removed(r) == Removed(bs)
      decreases |r|
    {
      r := SwapPop(r, badIndex);
      badIndex := LastOffBoard(r);
    }
    RemovedOnBoard(bs);
  }

  /**
   * What the removal leaves: every ball is on the board, each ball on the
   * board occurs as often as before, and the others are gone.
   */
  lemma {:induction false} RemovedOnBoard(bs: seq<Ball>)
    ensures forall b :: b in Removed(bs) ==> b.onBoard
    ensures forall b: Ball :: multiset(Removed(bs))[b] == if b.onBoard then multiset(bs)[b] else 0
    decreases |bs|
  {
    var i := LastOff(bs);
    if i == -1 {
      forall b: Ball | !b.onBoard
        ensures multiset(bs)[b] == 0
      {
        assert b !in bs;
      }
    } else {
      RemovedOnBoard(SwapPop(bs, i));
      SwapPopMultiset(bs, i);
    }
  }

  /** Removal keeps a list free of repeats, and a ball stays exactly when it is on the board. */
  lemma RemovalKeeps(bs: seq<Ball>, r: seq<Ball>)
    requires Distinct(bs)
    requires forall b: Ball :: multiset(r)[b] == if b.onBoard then multiset(bs)[b] else 0
    ensures Distinct(r)
    ensures forall b :: b in r <==> b in bs && b.onBoard
  {
    DistinctMultiset(bs);
    DistinctMultiset(r);
  }

  /** Ball::Update for entries 0 .. n - 1 of the list, in that order. */
  function Ticks(ss: seq<BallState>, types: seq<BallType>, n: nat, dt: real, holes: seq<Vec>, sqrt: real -> real): (r: seq<BallState>)
    requires IsSqrt(sqrt) && |types| == |ss| && n <= |ss|
    ensures |r| == |ss|
  {
    if n == 0 then ss else Tick(Ticks(ss, types, n - 1, dt, holes, sqrt), types, n - 1, dt, holes, sqrt)
  }

  /** Ticking entry n after the first n entries is ticking the first n + 1. */
  lemma TicksNext(ss: seq<BallState>, types: seq<BallType>, n: nat, dt: real, holes: seq<Vec>, sqrt: real -> real,
                  before: seq<BallState>, after: seq<BallState>)
    requires IsSqrt(sqrt) && |types| == |ss| && n < |ss|
    requires before == Ticks(ss, types, n, dt, holes, sqrt)
    requires after == Tick(before, types, n, dt, holes, sqrt)
    ensures after == Ticks(ss, types, n + 1, dt, holes, sqrt)
  {
  }

  // ------------------------------------------------------------ the aiming ray

  /** How far `p` lies from `start`. */
  function Reach(p: Vec, start: Vec, sqrt: real -> real): real
    requires IsSqrt(sqrt)
  {
    Length(Sub(p, start), sqrt)
  }

  /**
   * The four cushion hits GetRayIntersection tries, in its order: left, right,
   * bottom, top. Each hit found lies on its cushion line and on the ray, ahead
   * of the start.
   */
  function WallHits(start: Vec, direction: Vec): (hits: seq<WallHit>)
    ensures |hits| == 4
    ensures hits[0].found ==> hits[0].point.x == 0.0
    ensures hits[1].found ==> hits[1].point.x == Table.GameWidth
    ensures hits[2].found ==> hits[2].point.y == 0.0
    ensures hits[3].found ==> hits[3].point.y == Table.GameHeight
    ensures forall j :: 0 <= j < 4 && hits[j].found ==>
      Cross(Sub(hits[j].point, start), direction) == 0.0 && Dot(Sub(hits[j].point, start), direction) > 0.0
  {
    [VerticalIntersect(start, direction, 0.0), VerticalIntersect(start, direction, Table.GameWidth),
     HorizontalIntersect(start, direction, 0.0), HorizontalIntersect(start, direction, Table.GameHeight)]
  }

  /** The inward normals of those four cushions. */
  const WallNormals := [Vec(1.0, 0.0), Vec(-1.0, 0.0), Vec(0.0, 1.0), Vec(0.0, -1.0)]

  /**
   * `p` is an intersection of the ray's segment with the circle of the ball
   * centred at `center` that lies ahead of `start`: a point the ray may stop at.
   */
  predicate BallCandidate(center: Vec, start: Vec, direction: Vec, p: Vec, sqrt: real -> real)
    requires IsSqrt(sqrt)
  {
    var r := FindLineCircleIntersections(center, BallRadius, start, RayEnd(start, direction), sqrt);
    && ((r.count >= 1 && p == r.first) || (r.count >= 2 && p == r.second))
    && Dot(direction, Sub(p, start)) > 0.0
  }

  /** The far end of the ray, where it stops when nothing is nearer. */
  function RayEnd(start: Vec, direction: Vec): Vec
  {
    Add(start, Scale(direction, RayLength))
  }

  /** The point the cushion phase stops at for choice `wall`: hit `wall`, or the far end when `wall` is -1. */
  function Stop(hits: seq<WallHit>, end: Vec, wall: int): Vec
    requires -1 <= wall < |hits|
  {
    if wall == -1 then end else hits[wall].point
  }

  /** The normal reported for choice `wall`: that cushion's, or (0, 1) for the far end. */
  function StopNormal(wall: int): Vec
    requires -1 <= wall < 4
  {
    if wall == -1 then Vec(0.0, 1.0) else WallNormals[wall]
  }

  /**
   * Taking the first `n` cushion hits in order, each only when strictly nearer
   * than the best so far, ends at choice `wall`: the far end is kept when no
   * hit found is strictly nearer than it; a hit taken is strictly nearer than
   * the far end and than every earlier hit found, and no hit found after it
   * is strictly nearer.
   */
  predicate Takes(hits: seq<WallHit>, start: Vec, end: Vec, n: nat, wall: int, sqrt: real -> real)
    requires IsSqrt(sqrt) && n <= |hits|
  {
    if wall == -1 then
      forall j :: 0 <= j < n && hits[j].found ==> Reach(end, start, sqrt) <= Reach(hits[j].point, start, sqrt)
    else
      && 0 <= wall < n && hits[wall].found
      && Reach(hits[wall].point, start, sqrt) < Reach(end, start, sqrt)
      && (forall j :: 0 <= j < wall && hits[j].found ==> Reach(hits[wall].point, start, sqrt) < Reach(hits[j].point, start, sqrt))
      && (forall j :: wall < j < n && hits[j].found ==> Reach(hits[wall].point, start, sqrt) <= Reach(hits[j].point, start, sqrt))
  }

  /** One more hit: it is taken exactly when found and strictly nearer than the current stop. */
  lemma TakesStep(hits: seq<WallHit>, start: Vec, end: Vec, i: nat, wall: int, sqrt: real -> real)
    requires IsSqrt(sqrt) && i < |hits| && -1 <= wall < i && Takes(hits, start, end, i, wall, sqrt)
    ensures hits[i].found && Reach(hits[i].point, start, sqrt) < Reach(Stop(hits, end, wall), start, sqrt)
      ==> Takes(hits, start, end, i + 1, i, sqrt)
    ensures !(hits[i].found && Reach(hits[i].point, start, sqrt) < Reach(Stop(hits, end, wall), start, sqrt))
      ==> Takes(hits, start, end, i + 1, wall, sqrt)
  {
  }

  /** The stop of a choice is no further than the far end or any hit found. */
  lemma TakesNearest(hits: seq<WallHit>, start: Vec, end: Vec, wall: int, sqrt: real -> real)
    requires IsSqrt(sqrt) && -1 <= wall < |hits| && Takes(hits, start, end, |hits|, wall, sqrt)
    ensures Reach(Stop(hits, end, wall), start, sqrt) <= Reach(end, start, sqrt)
    ensures forall j :: 0 <= j < |hits| && hits[j].found ==> Reach(Stop(hits, end, wall), start, sqrt) <= Reach(hits[j].point, start, sqrt)
  {
  }

  /** The ray, with the four cushions tried in order, stops at `point` with `normal`. */
  predicate StopsAtWall(start: Vec, direction: Vec, point: Vec, normal: Vec, sqrt: real -> real)
    requires IsSqrt(sqrt)
  {
    exists wall :: -1 <= wall < 4 && Takes(WallHits(start, direction), start, RayEnd(start, direction), 4, wall, sqrt)
      && point == Stop(WallHits(start, direction), RayEnd(start, direction), wall) && normal == StopNormal(wall)
  }

  /**
   * The strict comparison makes the outcome unique: at a tie the earlier
   * cushion, or the far end, is kept.
   */
  lemma TakesUnique(hits: seq<WallHit>, start: Vec, end: Vec, w1: int, w2: int, sqrt: real -> real)
    requires IsSqrt(sqrt) && -1 <= w1 < |hits| && -1 <= w2 < |hits|
    requires Takes(hits, start, end, |hits|, w1, sqrt) && Takes(hits, start, end, |hits|, w2, sqrt)
    ensures w1 == w2
  {
  }

  /** Hence the cushion phase has exactly one outcome, point and normal. */
  lemma StopsAtWallUnique(start: Vec, direction: Vec, p1: Vec, n1: Vec, p2: Vec, n2: Vec, sqrt: real -> real)
    requires IsSqrt(sqrt)
    requires StopsAtWall(start, direction, p1, n1, sqrt) && StopsAtWall(start, direction, p2, n2, sqrt)
    ensures p1 == p2 && n1 == n2
  {
    var hits, end := WallHits(start, direction), RayEnd(start, direction);
    var w1 :| -1 <= w1 < 4 && Takes(hits, start, end, 4, w1, sqrt) && p1 == Stop(hits, end, w1) && n1 == StopNormal(w1);
    var w2 :| -1 <= w2 < 4 && Takes(hits, start, end, 4, w2, sqrt) && p2 == Stop(hits, end, w2) && n2 == StopNormal(w2);
    TakesUnique(hits, start, end, w1, w2, sqrt);
  }

  /**
   * Lines 605-649 of Game::GetRayIntersection: start at the far end of the
   * ray, then take each cushion hit in turn when strictly nearer.
   */
  method NearestWall(start: Vec, direction: Vec, sqrt: real -> real) returns (closest: Vec, normal: Vec)
    requires IsSqrt(sqrt)
    ensures Reach(closest, start, sqrt) <= Reach(RayEnd(start, direction), start, sqrt)
    ensures forall w :: w in WallHits(start, direction) && w.found ==> Reach(closest, start, sqrt) <= Reach(w.point, start, sqrt)
    ensures StopsAtWall(start, direction, closest, normal, sqrt)
  {
    var endPosition := RayEnd(start, direction);
    closest := endPosition;
    normal := Vec(0.0, 1.0);
    var walls := WallHits(start, direction);
    ghost var wall := -1;
    for i := 0 to 4
      invariant -1 <= wall < i && Takes(walls, start, endPosition, i, wall, sqrt)
      invariant closest == Stop(walls, endPosition, wall) && normal == StopNormal(wall)
    {
      TakesStep(walls, start, endPosition, i, wall, sqrt);
      var wallIntersection := walls[i];
      if wallIntersection.found && Reach(wallIntersection.point, start, sqrt) < Reach(closest, start, sqrt) {
        closest := wallIntersection.point;
        normal := WallNormals[i];
        wall := i;
      }
    }
    TakesNearest(walls, start, endPosition, wall, sqrt);
  }

  /**
   * Lines 651-682 of Game::GetRayIntersection for one ball centred at
   * `center`: each of its circle's intersections that lies ahead and is
   * strictly nearer than the best so far becomes the best, with the normal
   * pointing away from the centre.
   */
  method ConsiderBall(center: Vec, start: Vec, direction: Vec, closest: Vec, normal: Vec, sqrt: real -> real)
    returns (nearest: Vec, nearestNormal: Vec, taken: bool)
    requires IsSqrt(sqrt)
    ensures Reach(nearest, start, sqrt) <= Reach(closest, start, sqrt)
    ensures forall p :: BallCandidate(center, start, direction, p, sqrt) ==> Reach(nearest, start, sqrt) <= Reach(p, start, sqrt)
    ensures !taken ==> nearest == closest && nearestNormal == normal
    ensures taken ==> BallCandidate(center, start, direction, nearest, sqrt)
    ensures taken ==> Reach(nearest, start, sqrt) < Reach(closest, start, sqrt)
    ensures taken ==> nearestNormal == Normalize(Sub(nearest, center), sqrt)
    ensures var r := FindLineCircleIntersections(center, BallRadius, start, RayEnd(start, direction), sqrt);
      taken && r.count >= 1 && Dot(direction, Sub(r.first, start)) > 0.0 && Reach(r.first, start, sqrt) <= Reach(nearest, start, sqrt)
      ==> nearest == r.first
  {
    var endPosition := RayEnd(start, direction);
    var r := FindLineCircleIntersections(center, BallRadius, start, endPosition, sqrt);
    nearest, nearestNormal, taken := closest, normal, false;
    if r.count >= 1 {
      if Reach(r.first, start, sqrt) < Reach(nearest, start, sqrt) && Dot(direction, Sub(r.first, start)) > 0.0 {
        nearest := r.first;
        nearestNormal := Normalize(Sub(r.first, center), sqrt);
        taken := true;
      }
    }
    if r.count >= 2 {
      if Reach(r.second, start, sqrt) < Reach(nearest, start, sqrt) && Dot(direction, Sub(r.second, start)) > 0.0 {
        nearest := r.second;
        nearestNormal := Normalize(Sub(r.second, center), sqrt);
        taken := true;
      }
    }
  }

  /**
   * Lines 474-493 of Game::CreateBalls: the cue ball, the black ball, then
   * the solid and the striped balls, all new, at rest and on the board.
   */
  method NewBalls() returns (bs: seq<Ball>)
    ensures |bs| == 16 && Distinct(bs)
    ensures bs[0].ballType == White && bs[0].position == WhiteSpot && bs[1].ballType == Black
    ensures forall k :: 2 <= k < 9 ==> SolidGroup(bs[k])
    ensures forall k :: 9 <= k < 16 ==> StripeGroup(bs[k])
    ensures forall b :: b in bs ==> fresh(b) && b.velocity == Zero && b.stopped && b.onBoard
  {
    var white := new Ball(Zero, Color(0.0, 0.0, 0.0), true, White);
    var black := new Ball(Zero, Color(0.0, 0.0, 0.0), true, Black);
    bs := [white, black];
    for i := 0 to |SolidColors|
      invariant |bs| == 2 + i && bs[0] == white && Distinct(bs) && white.position == WhiteSpot
      invariant bs[0].ballType == White && bs[1].ballType == Black && forall k :: 2 <= k < |bs| ==> SolidGroup(bs[k])
      invariant forall b :: b in bs ==> fresh(b) && b.velocity == Zero && b.stopped && b.onBoard
    {
      var ball := new Ball(Zero, SolidColors[i], true, Normal);
      bs := bs + [ball];
    }
    for i := 0 to |StripeColors|
      invariant |bs| == 9 + i && bs[0] == white && Distinct(bs) && white.position == WhiteSpot
      invariant bs[0].ballType == White && bs[1].ballType == Black && forall k :: 2 <= k < 9 ==> SolidGroup(bs[k])
      invariant forall k :: 9 <= k < |bs| ==> StripeGroup(bs[k])
      invariant forall b :: b in bs ==> fresh(b) && b.velocity == Zero && b.stopped && b.onBoard
    {
      var ball := new Ball(Zero, StripeColors[i], false, Normal);
      bs := bs + [ball];
    }
  }

  /**
   * The balls Game::CreateBalls makes, in the order it makes them: the cue
   * ball, the black ball, seven solid and seven striped balls.
   */
  predicate Assortment(bs: seq<Ball>)
  {
    && |bs| == 16 && bs[0].ballType == White && bs[1].ballType == Black
    && (forall k :: 2 <= k < 9 ==> SolidGroup(bs[k]))
    && (forall k :: 9 <= k < 16 ==> StripeGroup(bs[k]))
  }

  /**
   * A list holding the balls of an assortment, in any order, holds the black
   * ball, and every ball of it is the cue ball, the black ball or a member of
   * one of the two groups.
   */
  lemma AssortedList(order: seq<Ball>, bs: seq<Ball>)
    requires Assortment(order) && multiset(order) == multiset(bs)
    ensures BlackOnTable(bs)
    ensures forall b :: b in bs ==> b == order[0] || b.ballType == Black || SolidGroup(b) || StripeGroup(b)
  {
    assert order[1] in multiset(order);
    assert order[1] in bs;
    forall b | b in bs
      ensures b == order[0] || b.ballType == Black || SolidGroup(b) || StripeGroup(b)
    {
      assert b in multiset(bs);
      assert b in order;
      var k :| 0 <= k < |order| && order[k] == b;
    }
  }

  /** A reordering keeps the same balls and keeps them free of repeats. */
  lemma ReorderKeeps(s: seq<Ball>, t: seq<Ball>)
    requires multiset(s) == multiset(t) && Distinct(s)
    ensures Distinct(t) && forall b :: b in s <==> b in t
  {
    DistinctMultiset(s);
    DistinctMultiset(t);
    forall b
      ensures b in s <==> b in t
    {
      assert b in s <==> b in multiset(s);
      assert b in t <==> b in multiset(t);
    }
  }

  /**
   * The placing half of lines 512-535 of Game::CreateBalls: every ball after
   * the first goes to the next rack slot; nothing else about the balls changes.
   */
  method LayOut(bs: seq<Ball>)
    requires Distinct(bs)
    modifies set b | b in bs
    ensures forall k :: 1 <= k < |bs| ==> bs[k].State() == old(bs[k].State()).(position := Slot(k - 1))
    ensures |bs| >= 1 ==> bs[0].State() == old(bs[0].State())
  {
    if |bs| == 0 {
      return;
    }
    var positions := RackPositions(|bs| - 1);
    for i := 1 to |bs|
      invariant forall k :: 1 <= k < i ==> bs[k].State() == old(bs[k].State()).(position := Slot(k - 1))
      invariant forall k :: i <= k < |bs| || k == 0 ==> bs[k].State() == old(bs[k].State())
    {
      bs[i].SetPosition(positions[i - 1]);
    }
  }

  // ------------------------------------------------------------ the class

  /** Game: the list of balls, the cue ball, the pockets and the match. */
  class Game {
    var balls: seq<Ball>
    var whiteBall: Ball?
    var holes: seq<Vec>
    var mousePosition: Vec
    var gameState: GameState
    var currentPlayer: Player
    const details: array<PlayerDetails>

    /** The match bookkeeping as one value. */
    function State(): Match
      reads this, details
    {
      Match(gameState, currentPlayer, details[..])
    }

    /**
     * Two detail records; no ball twice in the list; the cue ball is in the
     * list; every listed ball is on the board (the removal after each tick
     * sees to it); and the match is over exactly when one player lost.
     */
    predicate Valid()
      reads this, details, set b | b in balls
    {
      && details.Length == 2
      && Distinct(balls)
      && whiteBall != null && whiteBall in balls && whiteBall.ballType == White
      && (forall b :: b in balls ==> b.onBoard)
      && Consistent(State())
    }

    /**
     * Game::Game without the window, the shaders and the buffers: the match
     * starts with player one to shoot, then the balls and the pockets are
     * created.
     */
    constructor()
      ensures Valid() && fresh(details)
      ensures gameState == Playing && currentPlayer == Player1 && mousePosition == Zero
      ensures |balls| == 16 && balls[0] == whiteBall && whiteBall != null && whiteBall.position == WhiteSpot
      ensures forall b :: b in balls ==> fresh(b) && b.velocity == Zero && b.stopped
      ensures forall k :: 1 <= k < |balls| ==> balls[k].position == Slot(k - 1)
      ensures exists order :: Assortment(order) && multiset(order) == multiset(balls)
      ensures BlackOnTable(balls)
      ensures forall b :: b in balls ==> b == whiteBall || b.ballType == Black || SolidGroup(b) || StripeGroup(b)
      ensures forall b :: b in details[0].allowedBalls <==> b in balls && SolidGroup(b)
      ensures forall b :: b in details[1].allowedBalls <==> b in balls && StripeGroup(b)
      ensures forall p :: 0 <= p < 2 ==> details[p].score == 0 && !details[p].dead && !details[p].finishedBalls
      ensures holes == Holes()
    {
      mousePosition := Zero;
      gameState := Playing;
      currentPlayer := Player1;
      details := new PlayerDetails[2](_ => Fresh);
      balls := [];
      holes := [];
      whiteBall := null;
      new;
      CreateBalls();
      CreateHoles();
    }

    /**
     * Game::CreateBalls: the cue ball, the black ball, seven solid and seven
     * striped balls; the shuffle behind the cue ball; the groups; the rack.
     */
    method CreateBalls()
      requires details.Length == 2 && forall p :: 0 <= p < 2 ==> details[p] == Fresh
      modifies this, details
      ensures gameState == old(gameState) && currentPlayer == old(currentPlayer)
      ensures mousePosition == old(mousePosition) && holes == old(holes)
      ensures |balls| == 16 && balls[0] == whiteBall && whiteBall != null && whiteBall.ballType == White && whiteBall.position == WhiteSpot
      ensures Distinct(balls)
      ensures forall b :: b in balls ==> fresh(b) && b.velocity == Zero && b.stopped && b.onBoard
      ensures forall k :: 1 <= k < |balls| ==> balls[k].position == Slot(k - 1)
      ensures exists order :: Assortment(order) && multiset(order) == multiset(balls)
      ensures BlackOnTable(balls)
      ensures forall b :: b in balls ==> b == whiteBall || b.ballType == Black || SolidGroup(b) || StripeGroup(b)
      ensures forall b :: b in details[0].allowedBalls <==> b in balls && SolidGroup(b)
      ensures forall b :: b in details[1].allowedBalls <==> b in balls && StripeGroup(b)
      ensures forall p :: 0 <= p < 2 ==> details[p] == Fresh.(allowedBalls := details[p].allowedBalls)
    {
      ghost var order := FillList();
      AssignGroups();
      LayOut(balls);
      AssortedList(order, balls);
    }

    /** Lines 501-510 of Game::CreateBalls: each player gets a group. */
    method AssignGroups()
      requires details.Length == 2 && forall p :: 0 <= p < 2 ==> details[p] == Fresh
      modifies details
      ensures forall b :: b in details[0].allowedBalls <==> b in balls && SolidGroup(b)
      ensures forall b :: b in details[1].allowedBalls <==> b in balls && StripeGroup(b)
      ensures forall p :: 0 <= p < 2 ==> details[p] == Fresh.(allowedBalls := details[p].allowedBalls)
    {
      var solids, stripes := Split(balls);
      details[0] := details[0].(allowedBalls := details[0].allowedBalls + solids);
      details[1] := details[1].(allowedBalls := details[1].allowedBalls + stripes);
    }

    /** Lines 474-499 of Game::CreateBalls: the new balls, shuffled behind the cue ball. */
    method FillList() returns (ghost order: seq<Ball>)
      modifies this
      ensures gameState == old(gameState) && currentPlayer == old(currentPlayer)
      ensures mousePosition == old(mousePosition) && holes == old(holes)
      ensures |balls| == 16 && balls[0] == whiteBall && whiteBall != null && whiteBall.ballType == White && whiteBall.position == WhiteSpot
      ensures Distinct(balls) && Assortment(order) && multiset(order) == multiset(balls)
      ensures forall b :: b in balls ==> fresh(b) && b.velocity == Zero && b.stopped && b.onBoard
    {
      var created := NewBalls();
      order := created;
      whiteBall := created[0];
      var shuffled := Shuffle(created);
      ReorderKeeps(created, shuffled);
      balls := shuffled;
    }

    /** Game::CreateHoles. */
    method CreateHoles()
      modifies this
      ensures holes == Holes()
      ensures balls == old(balls) && whiteBall == old(whiteBall) && mousePosition == old(mousePosition)
      ensures gameState == old(gameState) && currentPlayer == old(currentPlayer)
    {
      holes := Holes();
    }

    /**
     * Game::OnMouseReleased: while a shot may be played, the cue ball gets
     * the velocity from the mouse to the ball and the game waits for the
     * balls to stop; otherwise nothing happens.
     */
    method OnMouseReleased()
      requires Valid()
      modifies this, whiteBall
      ensures Valid()
      ensures balls == old(balls) && whiteBall == old(whiteBall) && holes == old(holes)
      ensures currentPlayer == old(currentPlayer) && mousePosition == old(mousePosition)
      ensures old(gameState) == Playing ==>
        && gameState == Waiting
        && whiteBall.State() == old(whiteBall.State()).(velocity := Sub(old(whiteBall.position), mousePosition))
      ensures old(gameState) != Playing ==> gameState == old(gameState) && whiteBall.State() == old(whiteBall.State())
    {
      if gameState == Playing {
        whiteBall.SetVelocity(Sub(whiteBall.position, mousePosition));
        gameState := Waiting;
      }
    }

    /**
     * Game::Update: nothing once the match is over; otherwise every ball
     * ticks against the whole list, the pocketed balls leave the list, and
     * the referee rules on the new list.
     */
    method Update(dt: real, sqrt: real -> real)
      requires IsSqrt(sqrt) && Valid()
      modifies this, details, set b | b in balls
      ensures Valid()
      ensures whiteBall == old(whiteBall) && holes == old(holes) && mousePosition == old(mousePosition)
      ensures old(gameState) == Finished ==>
        && balls == old(balls) && State() == old(State())
        && forall b :: b in balls ==> b.State() == old(b.State())
      ensures old(gameState) != Finished ==>
        var m := old(State());
        && (forall b :: b in balls <==> b in old(balls) && b.onBoard)
        && State() == Referee(m, Cleared(m.details[m.current.Index()].allowedBalls, balls), BlackOnTable(balls), AllStopped(balls))
      ensures old(gameState) != Finished ==> balls == Removed(old(balls))
      ensures old(gameState) != Finished ==>
        States(old(balls)) == Ticks(old(States(balls)), Types(old(balls)), |old(balls)|, dt, holes, sqrt)
    {
      if gameState == Finished {
        return;
      }
      Play(dt, sqrt);
    }

    /** The part of Game::Update that runs while the match is on. */
    method Play(dt: real, sqrt: real -> real)
      requires IsSqrt(sqrt) && Valid() && gameState != Finished
      modifies this, details, set b | b in balls
      ensures Valid()
      ensures whiteBall == old(whiteBall) && holes == old(holes) && mousePosition == old(mousePosition)
      ensures var m := old(State());
        && (forall b :: b in balls <==> b in old(balls) && b.onBoard)
        && State() == Referee(m, Cleared(m.details[m.current.Index()].allowedBalls, balls), BlackOnTable(balls), AllStopped(balls))
      ensures balls == Removed(old(balls))
      ensures States(old(balls)) == Ticks(old(States(balls)), Types(old(balls)), |old(balls)|, dt, holes, sqrt)
    {
      ghost var m := State();
      Roll(dt, sqrt);
      ghost var listed := old(balls);
      label rolled:
      Judge(listed);
      BallsUnchanged@rolled(listed);
      RefereeConsistent(m, Cleared(m.details[m.current.Index()].allowedBalls, balls), BlackOnTable(balls), AllStopped(balls));
    }

    /**
     * Lines 159-199 of Game::Update: every ball ticks, then the balls off the
     * board leave the list. The cue ball stays.
     */
    method Roll(dt: real, sqrt: real -> real)
      requires IsSqrt(sqrt) && Distinct(balls) && whiteBall in balls && whiteBall.ballType == White
      requires forall b :: b in balls ==> b.onBoard
      modifies this, set b | b in balls
      ensures Distinct(balls) && forall b :: b in balls <==> b in old(balls) && b.onBoard
      ensures whiteBall in balls && balls == Removed(old(balls))
      ensures States(old(balls)) == Ticks(old(States(balls)), Types(old(balls)), |old(balls)|, dt, holes, sqrt)
      ensures whiteBall == old(whiteBall) && holes == old(holes) && mousePosition == old(mousePosition)
      ensures gameState == old(gameState) && currentPlayer == old(currentPlayer)
    {
      TickBalls(dt, sqrt);
      label ticked:
      DropPocketed();
      BallsUnchanged@ticked(old(balls));
    }

    /**
     * Lines 159-160 of Game::Update: Ball::Update for every ball of the list,
     * in order. No ball comes back onto the board and the cue ball never
     * leaves it.
     */
    method TickBalls(dt: real, sqrt: real -> real)
      requires IsSqrt(sqrt) && Distinct(balls)
      modifies set b | b in balls
      ensures States(balls) == Ticks(old(States(balls)), Types(balls), |balls|, dt, holes, sqrt)
      ensures forall b :: b in balls ==> b.onBoard ==> old(b.onBoard)
      ensures forall b :: b in balls && b.ballType == White ==> b.onBoard == old(b.onBoard)
    {
      ghost var start, types := States(balls), Types(balls);
      for i := 0 to |balls|
        invariant States(balls) == Ticks(start, types, i, dt, holes, sqrt)
        invariant forall b :: b in balls ==> b.onBoard ==> old(b.onBoard)
        invariant forall b :: b in balls && b.ballType == White ==> b.onBoard == old(b.onBoard)
      {
        ghost var prev := States(balls);
        TickOne(i, dt, sqrt);
        TicksNext(start, types, i, dt, holes, sqrt, prev, States(balls));
      }
    }

    /** One turn of that loop: Ball::Update of entry `i`. */
    method TickOne(i: nat, dt: real, sqrt: real -> real)
      requires IsSqrt(sqrt) && Distinct(balls) && i < |balls|
      modifies set b | b in balls
      ensures States(balls) == Tick(old(States(balls)), Types(balls), i, dt, holes, sqrt)
      ensures forall b :: b in balls ==> b.onBoard ==> old(b.onBoard)
      ensures forall b :: b in balls && b.ballType == White ==> b.onBoard == old(b.onBoard)
    {
      assert IndexOf(balls, balls[i]) == i;
      balls[i].Update(dt, balls, holes, sqrt);
    }

    /** Lines 162-199 of Game::Update: the balls off the board leave the list. */
    method DropPocketed()
      requires Distinct(balls)
      modifies this
      ensures balls == Removed(old(balls))
      ensures Distinct(balls) && forall b :: b in balls <==> b in old(balls) && b.onBoard
      ensures forall b :: b in old(balls) ==> unchanged(b)
      ensures whiteBall == old(whiteBall) && holes == old(holes) && mousePosition == old(mousePosition)
      ensures gameState == old(gameState) && currentPlayer == old(currentPlayer)
    {
      var remaining := RemoveOffBoard(balls);
      RemovalKeeps(balls, remaining);
      balls := remaining;
    }

    /**
     * Lines 201-266 of Game::Update, on the list after the removal. The
     * referee touches no ball, in particular none of the balls `listed`.
     */
    method Judge(ghost listed: seq<Ball>)
      requires WellFormed(State()) && gameState != Finished
      modifies this, details
      ensures forall b :: b in listed ==> unchanged(b)
      ensures balls == old(balls) && whiteBall == old(whiteBall) && holes == old(holes) && mousePosition == old(mousePosition)
      ensures var m := old(State());
        State() == Referee(m, Cleared(m.details[m.current.Index()].allowedBalls, balls), BlackOnTable(balls), AllStopped(balls))
    {
      ghost var m := State();
      var c := currentPlayer.Index();
      if !details[c].finishedBalls {
        var finishedBalls := NoneRemaining(details[c].allowedBalls, balls);
        details[c] := details[c].(finishedBalls := finishedBalls);
      }
      var foundBlack := FindBlack(balls);
      if !foundBlack {
        if details[c].finishedBalls {
          var o := (c + 1) % 2;
          details[o] := details[o].(dead := true);
        } else {
          details[c] := details[c].(dead := true);
        }
        gameState := Finished;
        return;
      }
      match gameState {
        case Waiting =>
          var allStopped := CheckStopped(balls);
          if allStopped {
            gameState := Playing;
            currentPlayer := currentPlayer.Next();
          }
        case Playing =>
      }
    }

    /**
     * The reported ball is entry `at` of the list, and every candidate point of
     * a ball listed before it is strictly further: at a tie the earlier ball is kept.
     */
    ghost predicate BallFirstAt(start: Vec, direction: Vec, exceptionBall: Ball?, at: int, result: RayIntersection, sqrt: real -> real)
      requires IsSqrt(sqrt)
      reads this, balls
    {
      && 0 <= at < |balls| && balls[at] == result.ball
      && forall k, p :: 0 <= k < at && balls[k] != exceptionBall && BallCandidate(balls[k].position, start, direction, p, sqrt)
           ==> Reach(result.point, start, sqrt) < Reach(p, start, sqrt)
    }

    /**
     * Lines 651-682 of Game::GetRayIntersection: starting from the cushion
     * phase's stop, each listed ball other than `exceptionBall` may move the
     * stop nearer; the ball that last did so is reported.
     */
    method NearestBall(start: Vec, direction: Vec, exceptionBall: Ball?, wallPoint: Vec, wallNormal: Vec, sqrt: real -> real)
      returns (closest: Vec, normal: Vec, ball: Ball?)
      requires IsSqrt(sqrt)
      ensures Reach(closest, start, sqrt) <= Reach(wallPoint, start, sqrt)
      ensures forall k, p :: 0 <= k < |balls| && balls[k] != exceptionBall && BallCandidate(balls[k].position, start, direction, p, sqrt)
                ==> Reach(closest, start, sqrt) <= Reach(p, start, sqrt)
      ensures ball == null ==> closest == wallPoint && normal == wallNormal
      ensures ball != null ==>
        && ball in balls && ball != exceptionBall
        && BallCandidate(ball.position, start, direction, closest, sqrt)
        && normal == Normalize(Sub(closest, ball.position), sqrt)
        && Reach(closest, start, sqrt) < Reach(wallPoint, start, sqrt)
      ensures ball != null ==> exists at :: BallFirstAt(start, direction, exceptionBall, at, RayIntersection(closest, normal, ball), sqrt)
    {
      closest, normal, ball := wallPoint, wallNormal, null;
      ghost var at := -1;
      for i := 0 to |balls|
        invariant Reach(closest, start, sqrt) <= Reach(wallPoint, start, sqrt)
        invariant forall k, p :: 0 <= k < i && balls[k] != exceptionBall && BallCandidate(balls[k].position, start, direction, p, sqrt)
                    ==> Reach(closest, start, sqrt) <= Reach(p, start, sqrt)
        invariant ball == null ==> closest == wallPoint && normal == wallNormal
        invariant ball != null ==>
          && ball in balls && ball != exceptionBall
          && BallCandidate(ball.position, start, direction, closest, sqrt)
          && normal == Normalize(Sub(closest, ball.position), sqrt)
          && Reach(closest, start, sqrt) < Reach(wallPoint, start, sqrt)
        invariant ball != null ==> 0 <= at < i && BallFirstAt(start, direction, exceptionBall, at, RayIntersection(closest, normal, ball), sqrt)
      {
        var b := balls[i];
        if b != exceptionBall {
          var c, n, taken := ConsiderBall(b.position, start, direction, closest, normal, sqrt);
          closest, normal := c, n;
          if taken {
            ball := b;
            at := i;
          }
        }
      }
    }

    /**
     * Game::GetRayIntersection: follow the ray from `start` along `direction`
     * for RayLength directions, and stop at the nearest cushion, or at the
     * nearest circle of a ball other than `exceptionBall` met ahead of the
     * start. A candidate replaces the best so far only when strictly nearer.
     */
    method GetRayIntersection(start: Vec, direction: Vec, exceptionBall: Ball?, sqrt: real -> real) returns (result: RayIntersection)
      requires IsSqrt(sqrt)
      ensures Reach(result.point, start, sqrt) <= Reach(RayEnd(start, direction), start, sqrt)
      ensures forall w :: w in WallHits(start, direction) && w.found ==> Reach(result.point, start, sqrt) <= Reach(w.point, start, sqrt)
      ensures forall k, p :: 0 <= k < |balls| && balls[k] != exceptionBall && BallCandidate(balls[k].position, start, direction, p, sqrt)
                ==> Reach(result.point, start, sqrt) <= Reach(p, start, sqrt)
      ensures result.ball == null ==> StopsAtWall(start, direction, result.point, result.normal, sqrt)
      ensures result.ball != null ==>
        && result.ball in balls && result.ball != exceptionBall
        && BallCandidate(result.ball.position, start, direction, result.point, sqrt)
        && result.normal == Normalize(Sub(result.point, result.ball.position), sqrt)
      ensures result.ball != null ==>
        && Reach(result.point, start, sqrt) < Reach(RayEnd(start, direction), start, sqrt)
        && forall w :: w in WallHits(start, direction) && w.found ==> Reach(result.point, start, sqrt) < Reach(w.point, start, sqrt)
      ensures result.ball != null ==> exists at :: BallFirstAt(start, direction, exceptionBall, at, result, sqrt)
    {
      var wallPoint, wallNormal := NearestWall(start, direction, sqrt);
      var closest, normal, ball := NearestBall(start, direction, exceptionBall, wallPoint, wallNormal, sqrt);
      result := RayIntersection(closest, normal, ball);
    }
  }
}
