/**
 * The bookkeeping half of Game::Update (Game.cpp): whose turn it is, who has
 * cleared their group of balls, who lost, and when the match is over. The
 * facts it needs about the balls on the table arrive as three booleans,
 * which the game computes by scanning its list.
 */
module Rules {

  import opened Balls

  /** Game::GameState. */
  datatype GameState = Playing | Waiting | Finished

  /** Game::Players; the C++ code indexes the two-entry details array by it. */
  datatype Player = Player1 | Player2
  {
    function Index(): (i: nat)
      ensures i < 2
    {
      match this
      case Player1 => 0
      case Player2 => 1
    }

    /** The player at `(index + 1) % 2`. */
    function Next(): (p: Player)
      ensures p != this && p.Index() == (Index() + 1) % 2
    {
      if (Index() + 1) % 2 == 0 then Player1 else Player2
    }
  }

  /** Game::PlayerDetails; the allowed balls are the player's group, by object identity. */
  datatype PlayerDetails = PlayerDetails(score: int, dead: bool, finishedBalls: bool, allowedBalls: seq<Ball>)

  /** The PlayerDetails constructor: no score, alive, with an empty group still to clear. */
  const Fresh := PlayerDetails(0, false, false, [])

  /** The state the referee works on: m_gameState, m_currentPlayer and m_playerDetails. */
  datatype Match = Match(state: GameState, current: Player, details: seq<PlayerDetails>)

  /** A match has exactly two detail records. */
  predicate WellFormed(m: Match)
  {
    |m.details| == 2
  }

  /** The match is over exactly when somebody lost, and at most one player loses. */
  predicate Consistent(m: Match)
  {
    && WellFormed(m)
    && (m.state == Finished <==> m.details[0].dead || m.details[1].dead)
    && !(m.details[0].dead && m.details[1].dead)
  }

  /**
   * Lines 201-266 of Game::Update, run after the pocketed balls left the
   * list and only while the match is not over. `cleared`: no ball of the
   * current player's group is still in the list; `blackOnTable`: the black
   * ball is; `allStopped`: every ball in the list is at rest.
   */
  function Referee(m: Match, cleared: bool, blackOnTable: bool, allStopped: bool): (r: Match)
    requires WellFormed(m) && m.state != Finished
    ensures WellFormed(r)
  {
    var c := m.current.Index();
    var d := if m.details[c].finishedBalls then m.details
             else m.details[c := m.details[c].(finishedBalls := cleared)];
    if !blackOnTable then
      var loser := if d[c].finishedBalls then m.current.Next().Index() else c;
      Match(Finished, m.current, d[loser := d[loser].(dead := true)])
    else if m.state == Waiting && allStopped then
      Match(Playing, m.current.Next(), d)
    else
      m.(details := d)
  }

  /**
   * The current player's finishedBalls becomes true exactly when it was
   * already true or their group is cleared, so it never goes back to false;
   * nothing else of the detail records changes except the dead flags.
   */
  lemma RefereeFinishedBalls(m: Match, cleared: bool, blackOnTable: bool, allStopped: bool)
    requires WellFormed(m) && m.state != Finished
    ensures var r := Referee(m, cleared, blackOnTable, allStopped);
      var c := m.current.Index();
      var o := m.current.Next().Index();
      && r.details[c].finishedBalls == (m.details[c].finishedBalls || cleared)
      && r.details[o].finishedBalls == m.details[o].finishedBalls
      && (forall p :: 0 <= p < 2 ==>
            r.details[p].score == m.details[p].score && r.details[p].allowedBalls == m.details[p].allowedBalls)
  {
  }

  /**
   * Without the black ball the match ends: the opponent loses if the current
   * player had cleared their group, the current player otherwise. With the
   * black ball on the table nobody's dead flag changes.
   */
  lemma RefereeBlackBall(m: Match, cleared: bool, blackOnTable: bool, allStopped: bool)
    requires WellFormed(m) && m.state != Finished
    ensures var r := Referee(m, cleared, blackOnTable, allStopped);
      var c := m.current.Index();
      var o := m.current.Next().Index();
      var done := m.details[c].finishedBalls || cleared;
      && (r.state == Finished <==> !blackOnTable)
      && (!blackOnTable ==>
            && r.current == m.current
            && r.details[o].dead == (done || m.details[o].dead)
            && r.details[c].dead == (!done || m.details[c].dead))
      && (blackOnTable ==> forall p :: 0 <= p < 2 ==> r.details[p].dead == m.details[p].dead)
  {
  }

  /**
   * With the black ball on the table, a Waiting match whose balls all stopped
   * hands the cue to the other player; any other match keeps its state and
   * its player.
   */
  lemma RefereeTurn(m: Match, cleared: bool, allStopped: bool)
    requires WellFormed(m) && m.state != Finished
    ensures var r := Referee(m, cleared, true, allStopped);
      && (m.state == Waiting && allStopped ==> r.state == Playing && r.current == m.current.Next())
      && (!(m.state == Waiting && allStopped) ==> r.state == m.state && r.current == m.current)
  {
  }

  /** The referee keeps a consistent match consistent: over exactly when one player lost. */
  lemma RefereeConsistent(m: Match, cleared: bool, blackOnTable: bool, allStopped: bool)
    requires Consistent(m) && m.state != Finished
    ensures Consistent(Referee(m, cleared, blackOnTable, allStopped))
  {
    RefereeBlackBall(m, cleared, blackOnTable, allStopped);
    var o := m.current.Next().Index();
    var c := m.current.Index();
    assert {o, c} == {0, 1};
  }

  /** Removing index `i` by overwriting it with the last element and dropping the last. */
  function SwapPop<T>(s: seq<T>, i: nat): (r: seq<T>)
    requires i < |s|
    ensures |r| == |s| - 1
    ensures forall x :: x in r ==> x in s
  {
    s[i := s[|s| - 1]][..|s| - 1]
  }

  /** Swap-and-pop removes exactly one occurrence of the element at `i`. */
  lemma SwapPopMultiset<T>(s: seq<T>, i: nat)
    requires i < |s|
    ensures multiset(SwapPop(s, i)) == multiset(s) - multiset{s[i]}
  {
    var n := |s| - 1;
    if i == n {
      assert s == s[..n] + [s[n]];
    } else {
      assert s == s[..i] + [s[i]] + s[i + 1..n] + [s[n]];
      assert SwapPop(s, i) == s[..i] + [s[n]] + s[i + 1..n];
    }
  }

  /** No repetition means every multiplicity is at most one, and conversely. */
  lemma DistinctMultiset(s: seq<Ball>)
    ensures Distinct(s) <==> forall x :: multiset(s)[x] <= 1
  {
    if Distinct(s) {
      forall x
        ensures multiset(s)[x] <= 1
      {
        DistinctCount(s, x);
      }
    }
    if !Distinct(s) {
      var i, j :| 0 <= i < j < |s| && s[i] == s[j];
      RepeatCount(s, i, j);
    }
  }

  /** An entry that occurs at two indices is counted at least twice. */
  lemma RepeatCount(s: seq<Ball>, i: nat, j: nat)
    requires i < j < |s| && s[i] == s[j]
    ensures multiset(s)[s[i]] >= 2
  {
    assert s == s[..i] + [s[i]] + s[i + 1..j] + [s[j]] + s[j + 1..];
  }

  lemma {:induction false} DistinctCount(s: seq<Ball>, x: Ball)
    requires Distinct(s)
    ensures multiset(s)[x] <= 1
    decreases |s|
  {
    if s != [] {
      var t := s[1..];
      assert s == [s[0]] + t;
      assert Distinct(t);
      DistinctCount(t, x);
      if s[0] == x {
        assert x !in t;
      }
    }
  }
}
