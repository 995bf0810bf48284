/**
 * Setting up a match (Game::CreateBalls and Game::CreateHoles): the
 * shuffle that keeps the cue ball in front, the split of the coloured balls
 * into the two players' groups, the triangle rack and the six pockets.
 */
module Rack {

  import opened Vectors
  import Table
  import opened Balls

  /** Game::NORMAL_BALLS_OFFSET: the apex of the rack lies this far right of the centre. */
  const NormalBallsOffset := 100.0

  /** Game::NORMAL_BALLS_DIST_BETWEEN: the spacing of the rack, across and along. */
  const NormalBallsDistBetween := 50.0

  /** Game::HOLE_BIAS: how far each pocket sits in from the cushions. */
  const HoleBias := 15.0

  /** The colours of the seven solid balls, in the order they are created. */
  const SolidColors := [
    Color(1.0, 0.956, 0.156), Color(0.215, 0.333, 0.921), Color(0.776, 0.145, 0.756),
    Color(1.0, 0.439, 0.062), Color(0.976, 0.050, 0.058), Color(0.050, 0.811, 0.603),
    Color(0.713, 0.121, 0.156)]

  /** The colours of the seven striped balls, in the order they are created. */
  const StripeColors := [
    Color(0.0, 0.654, 0.384), Color(0.843, 0.274, 0.050), Color(0.807, 0.117, 0.780),
    Color(0.156, 0.239, 0.729), Color(0.992, 0.823, 0.168), Color(0.560, 0.090, 0.125),
    Color(0.933, 0.070, 0.078)]

  // ------------------------------------------------------------ the shuffle

  /** `s` with the entries at `i` and `j` exchanged (std::swap on two slots). */
  function Swap<T>(s: seq<T>, i: nat, j: nat): (r: seq<T>)
    requires i < |s| && j < |s|
    ensures |r| == |s| && r[i] == s[j] && r[j] == s[i]
    ensures forall k :: 0 <= k < |s| && k != i && k != j ==> r[k] == s[k]
  {
    s[i := s[j]][j := s[i]]
  }

  /** A swap only reorders. */
  lemma SwapMultiset<T>(s: seq<T>, i: nat, j: nat)
    requires i < |s| && j < |s|
    ensures multiset(Swap(s, i, j)) == multiset(s)
  {
    var t := s[i := s[j]];
    assert multiset(t) == multiset(s) - multiset{s[i]} + multiset{s[j]};
    assert multiset(t[j := s[i]]) == multiset(t) - multiset{t[j]} + multiset{s[i]};
  }

  /**
   * Lines 495-499 of Game::CreateBalls: every index from 1 on is swapped
   * with an index drawn from [1, size - 1]. The draw (rand() in the source)
   * is any such index. The result is a reordering that keeps the first ball
   * where it was.
   */
  method Shuffle<T>(s: seq<T>) returns (r: seq<T>)
    requires |s| >= 1
    ensures |r| == |s| && r[0] == s[0] && multiset(r) == multiset(s)
  {
    r := s;
    for i := 1 to |r|
      invariant |r| == |s| && r[0] == s[0] && multiset(r) == multiset(s)
    {
      var otherIndex :| 1 <= otherIndex < |r|;
      SwapMultiset(r, i, otherIndex);
      r := Swap(r, i, otherIndex);
    }
  }

  // ------------------------------------------------------------ the groups

  /** The player-one group: coloured, solid balls. */
  predicate SolidGroup(b: Ball)
  {
    b.ballType == Normal && b.solid
  }

  /** The player-two group: coloured, striped balls. */
  predicate StripeGroup(b: Ball)
  {
    b.ballType == Normal && !b.solid
  }

  /**
   * Lines 501-510 of Game::CreateBalls: the coloured balls of the list go to
   * player one when solid and to player two when striped; the cue ball and the black ball go to neither.
   */
  method Split(bs: seq<Ball>) returns (solids: seq<Ball>, stripes: seq<Ball>)
    ensures forall b :: b in solids <==> b in bs && SolidGroup(b)
    ensures forall b :: b in stripes <==> b in bs && StripeGroup(b)
  {
    solids, stripes := [], [];
    for i := 0 to |bs|
      invariant forall b :: b in solids <==> b in bs[..i] && SolidGroup(b)
      invariant forall b :: b in stripes <==> b in bs[..i] && StripeGroup(b)
    {
      assert bs[..i + 1] == bs[..i] + [bs[i]];
      var ball := bs[i];
      if ball.ballType == Normal {
        if ball.solid {
          solids := solids + [ball];
        } else {
          stripes := stripes + [ball];
        }
      }
    }
    assert bs[..|bs|] == bs;
  }

  /** The two groups share no ball, and neither holds the cue ball or the black ball. */
  lemma GroupsApart(b: Ball)
    ensures !(SolidGroup(b) && StripeGroup(b))
    ensures b.ballType != Normal ==> !SolidGroup(b) && !StripeGroup(b)
  {
  }

  // ------------------------------------------------------------ the rack

  /** The loop counters of lines 512-535: columnCount and totalPerColumn. */
  datatype Counter = Counter(column: nat, perColumn: nat)

  /** The counters when the rack ball with index `k` (the list entry k + 1) is placed. */
  function Counters(k: nat): (c: Counter)
    ensures c.column < c.perColumn
  {
    if k == 0 then Counter(0, 1)
    else
      var p := Counters(k - 1);
      if p.column + 1 >= p.perColumn then Counter(0, p.perColumn + 1)
      else Counter(p.column + 1, p.perColumn)
  }

  /** The number of rack slots in the columns before column `t` (columns hold 1, 2, 3, ... balls). */
  function Before(t: nat): nat
  {
    if t <= 1 then 0 else Before(t - 1) + (t - 1)
  }

  /** Slot `k` is the `column`-th entry of the column holding `perColumn` balls. */
  lemma {:induction false} CountersIndex(k: nat)
    ensures Counters(k).perColumn >= 1 && k == Before(Counters(k).perColumn) + Counters(k).column
  {
    if k > 0 {
      CountersIndex(k - 1);
    }
  }

  /** Two different slots never share their counters. */
  lemma CountersInjective(k1: nat, k2: nat)
    requires k1 != k2
    ensures Counters(k1) != Counters(k2)
  {
    CountersIndex(k1);
    CountersIndex(k2);
  }

  /**
   * Where the loop of lines 512-535 puts rack slot `k`: column t holds t
   * balls centred on the middle line, one spacing apart, and each column
   * lies one spacing right of the previous one.
   */
  function Slot(k: nat): Vec
  {
    var c := Counters(k);
    Vec(Table.GameWidth / 2.0 + NormalBallsOffset + NormalBallsDistBetween * (c.perColumn - 1) as real,
        Table.GameHeight / 2.0 - NormalBallsDistBetween * (c.perColumn - 1) as real / 2.0
          + NormalBallsDistBetween * c.column as real)
  }

  /** Two different slots are at least one spacing apart across or along the table. */
  lemma SlotsApart(k1: nat, k2: nat)
    requires k1 != k2
    ensures Abs(Slot(k1).x - Slot(k2).x) >= NormalBallsDistBetween
         || Abs(Slot(k1).y - Slot(k2).y) >= NormalBallsDistBetween
  {
    CountersInjective(k1, k2);
  }

  /**
   * The y coordinate as lines 519-525 compute it: half the column's span
   * above the middle, then `columnCount / (totalPerColumn - 1)` of the span
   * down when the column has two or more balls.
   */
  function RackY(c: Counter): real
  {
    var totalDist := NormalBallsDistBetween * (c.perColumn - 1) as real;
    var y := Table.GameHeight / 2.0 - totalDist / 2.0;
    if c.perColumn >= 2 then y + totalDist * (c.column as real / (c.perColumn - 1) as real) else y
  }

  /** The fraction in lines 519-525 cancels: the slot lies `column` spacings below the top. */
  lemma RackYIsSlot(k: nat)
    ensures RackY(Counters(k)) == Slot(k).y
  {
    var c := Counters(k);
    if c.perColumn >= 2 {
      Cancel(NormalBallsDistBetween, (c.perColumn - 1) as real, c.column as real);
    }
  }

  /** A spacing times a count of gaps, times a fraction of that count, is the spacing times the numerator. */
  lemma Cancel(d: real, n: real, x: real)
    requires n != 0.0
    ensures d * n * (x / n) == d * x
  {
    var q := x / n;
    assert q * n == x;
  }

  /**
   * Lines 512-535 of Game::CreateBalls, over `n` rack balls: the
   * counter loop with xPosition and its resets. The k-th position is rack
   * slot k.
   */
  method RackPositions(n: nat) returns (ps: seq<Vec>)
    ensures |ps| == n && forall k :: 0 <= k < n ==> ps[k] == Slot(k)
  {
    var columnCount: nat := 0;
    var totalPerColumn: nat := 1;
    var xPosition := Table.GameWidth / 2.0 + NormalBallsOffset;
    ps := [];
    for i := 0 to n
      invariant |ps| == i && forall k :: 0 <= k < i ==> ps[k] == Slot(k)
      invariant Counter(columnCount, totalPerColumn) == Counters(i)
      invariant xPosition == Table.GameWidth / 2.0 + NormalBallsOffset + NormalBallsDistBetween * (totalPerColumn - 1) as real
    {
      var y := RackY(Counter(columnCount, totalPerColumn));
      RackYIsSlot(i);
      ps := ps + [Vec(xPosition, y)];
      columnCount := columnCount + 1;
      if columnCount >= totalPerColumn {
        columnCount := 0;
        totalPerColumn := totalPerColumn + 1;
        xPosition := xPosition + NormalBallsDistBetween;
      }
    }
  }

  // ------------------------------------------------------------ the pockets

  /** Game::CreateHoles: three pockets along the bottom cushion, then three along the top. */
  function Holes(): seq<Vec>
  {
    [Vec(HoleBias, HoleBias), Vec(Table.GameWidth / 2.0, HoleBias), Vec(Table.GameWidth - HoleBias, HoleBias),
     Vec(HoleBias, Table.GameHeight - HoleBias), Vec(Table.GameWidth / 2.0, Table.GameHeight - HoleBias),
     Vec(Table.GameWidth - HoleBias, Table.GameHeight - HoleBias)]
  }

  /**
   * The pockets are symmetric: mirrored left to right or bottom to top, every
   * pocket lands on a pocket; each lies HoleBias in from the bottom or the
   * top cushion.
   */
  lemma HolesSymmetric()
    ensures |Holes()| == 6
    ensures forall h :: h in Holes() ==> Vec(Table.GameWidth - h.x, h.y) in Holes()
    ensures forall h :: h in Holes() ==> Vec(h.x, Table.GameHeight - h.y) in Holes()
    ensures forall h :: h in Holes() ==> h.y == HoleBias || h.y == Table.GameHeight - HoleBias
  {
    var hs := Holes();
    forall h | h in hs
      ensures Vec(Table.GameWidth - h.x, h.y) in hs && Vec(h.x, Table.GameHeight - h.y) in hs
    {
      var i :| 0 <= i < 6 && hs[i] == h;
      var mx := [2, 1, 0, 5, 4, 3][i];
      var my := [3, 4, 5, 0, 1, 2][i];
      assert hs[mx] == Vec(Table.GameWidth - h.x, h.y);
      assert hs[my] == Vec(h.x, Table.GameHeight - h.y);
    }
  }
}
