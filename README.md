# Biliard in Dafny

A Dafny model of the game logic of Biliard, a two-player eight-ball pool
game written in C++ with OpenGL. Two parts of the game are modelled.

**Ball** (`Biliard/Ball.cpp`) is a class whose fields are updated in place.
It covers:
- construction by ball type;
- the friction rule, which stops a ball instead of turning it round;
- the `stopped` flag;
- the move by `velocity * dt * VELOCITY_MULTIPLIER`;
- the pockets: the cue ball is respotted, and any other ball leaves the board;
- the two collision responses, ball against ball and ball against a cushion point;
- one whole tick, `Ball::Update`, which runs against the game's list of balls.

**Game** (`Biliard/Game.cpp`) is also a class whose fields are updated in place.
It covers:
- one tick of the game, `Game::Update`: it is a no-op once the match is over;
  otherwise every ball ticks, pocketed balls are removed by swap-and-pop, and the
  referee rules on the new list;
- the shot, `OnMouseReleased`;
- the set-up of a match: the shuffle that keeps the cue ball in front, the split
  of the coloured balls into the two players' groups, the triangle rack and the
  six pockets;
- the aiming ray, with its cushion and circle intersectors.

The files are:
- `vectors.dfy` (`Vectors`): 2-D vectors over `real`, plus the facts about them
  that the proofs need.
- `table.dfy` (`Table`): the size of the playing field.
- `balls.dfy` (`Balls`):
  - the `Ball` class;
  - the pure functions that specify it: `FrictionVelocity`, `Captured`,
    `BallContact`, `WallContact`, `CollisionPass` with its `Turn`, `Walls` and
    `Advanced`;
  - the lemmas about those functions.
- `raycast.dfy` (`RayCast`): `VerticalIntersect`, `HorizontalIntersect` (the source spells it
  `Horizontalntersect`) and
  `FindLineCircleIntersections`. They are pure: each C++ out-parameter becomes a
  field of the result.
- `rules.dfy` (`Rules`):
  - the game state, the players and the player details;
  - the pure referee, `Referee`, which states lines 201-266 of `Game::Update`;
  - the lemmas about `Referee`.
- `rack.dfy` (`Rack`):
  - the shuffle, the group split and the rack counters with their closed form;
  - the pockets.
- `game.dfy` (`Billiards`):
  - the `Game` class;
  - the scans of the ball list;
  - the removal loop;
  - the ray-cast loop.

All arithmetic is on `real`. `glm::length`, `glm::normalize` and `sqrtf` are
written in terms of a square-root function that every member needing it takes
as a parameter `sqrt`. The predicate `IsSqrt` constrains that function:
`sqrt(x) >= 0` and `sqrt(x) * sqrt(x) == x` for `x >= 0`.

A `Ball*` is a Dafny reference to a `Ball`, and two balls are the same ball
exactly when they are the same object. The source matches a player's allowed
balls against the list by address; the model matches them as references.

## Model

| member | source | states |
|---|---|---|
| Balls.Initial | Biliard/Ball.cpp:10-28 | a new ball is at rest (zero velocity, stopped) and on the board; a White ball sits on the white spot and is white; a Black ball keeps its position and is black; a Normal ball keeps both |
| Balls.Ball.constructor | Biliard/Ball.cpp:10-28 | the constructed ball's state is `Initial` of its type, position and colour; solid flag and type are as given |
| Balls.Ball.ResetWhite | Biliard/Ball.cpp:121-126 | position becomes the white spot (GAME_WIDTH/2 - 200, GAME_HEIGHT/2), velocity zero, colour white; flags unchanged |
| Balls.Ball.ResetBlack | Biliard/Ball.cpp:128-131 | only the colour changes, to black |
| Balls.Ball.SetPosition | Biliard/Ball.cpp:81-84 | only the position changes |
| Balls.Ball.SetVelocity | Biliard/Ball.cpp:86-89 | only the velocity changes |
| Balls.FrictionVelocity | Biliard/Ball.cpp:182-198 | a ball slower than VELOCITY_BIAS gets exactly zero velocity; the result is zero or has positive dot product with the old velocity, so friction never reverses a ball |
| Balls.FrictionSlowsDown | Biliard/Ball.cpp:192-197 | for dt >= 0 the new velocity is the old one scaled by a factor in [0, 1], so it is never longer |
| Balls.Ball.UpdateFriction | Biliard/Ball.cpp:182-198 | only the velocity changes, to `FrictionVelocity` of the old velocity |
| Balls.Captured | Biliard/Ball.cpp:60-78 | running the hole loop hole by hole equals testing the position against all holes at once: the cue ball is respotted if it lies in some pocket; any other ball has onBoard cleared exactly when it lies in some pocket |
| Balls.CapturedOnly | Biliard/Ball.cpp:60-78 | the hole loop changes nothing except by respotting the cue ball or by taking another ball off the board |
| Balls.BallContact | Biliard/Ball.cpp:134-155 | the ball-to-ball response as a function of the two motions; it has no contract of its own, and its properties are the rows `BallContactConserves`, `BallContactAlongLine`, `NormalSpeedSign` and `BallContactResponse` |
| Balls.BallContactConserves | Biliard/Ball.cpp:134-155 | the correction and the impulse are equal and opposite, so the sum of the two positions and the sum of the two velocities are unchanged |
| Balls.BallContactAlongLine | Biliard/Ball.cpp:136-154 | this ball's position change and velocity change are both parallel to the line of centres |
| Balls.NormalSpeedSign | Biliard/Ball.cpp:136-147 | for overlapping balls the contact normal is a positive multiple of the offset between the centres, so `vn > 0` holds exactly when the balls already separate |
| Balls.BallContactResponse | Biliard/Ball.cpp:144-154 | for overlapping balls (centres closer than 2·BALL_RADIUS): separating balls keep their velocities (early return); otherwise the relative velocity along the line of centres is reversed and scaled by RESTITUTION |
| Balls.Ball.ResolveCollisionWithBall | Biliard/Ball.cpp:134-155 | the two balls' new positions and velocities are `BallContact` of their old ones; colours and flags of both are unchanged |
| Balls.WallContact | Biliard/Ball.cpp:158-180 | the cushion response as a function of the motion and the wall point; it has no contract of its own, and its properties are the rows `WallContactAlongLine` and `WallContactResponse` |
| Balls.WallContactAlongLine | Biliard/Ball.cpp:158-180 | the correction and the impulse of a cushion contact are parallel to the line from the wall point to the centre |
| Balls.WallContactResponse | Biliard/Ball.cpp:170-180 | for a centre closer than BALL_RADIUS to the wall point: a ball moving away from the wall point keeps its velocity; otherwise its speed along the line is reversed and scaled by 0.8, which is what masses 10 and 100 with RESTITUTION 0.98 give |
| Balls.Ball.ResolveCollisionWithWall | Biliard/Ball.cpp:158-180 | only this ball's position and velocity change, to `WallContact` of the old ones |
| Balls.CollisionPass | Biliard/Ball.cpp:32-40 | the ball-to-ball loop over the first n entries as a function of the list's motions; the list keeps its length; what each turn does is the rows `TurnContact` and `TurnSkip`, and what the whole pass keeps is `PassConserves` |
| Balls.Turn | Biliard/Ball.cpp:34-39 | turn j of that loop, applied to what the first j turns left; the list keeps its length |
| Balls.PassConserves | Biliard/Ball.cpp:32-40 | the ball-to-ball phase of a tick keeps the sum of all velocities (momentum, equal masses) and the sum of all positions of the list |
| Balls.TurnConserves | Biliard/Ball.cpp:34-40 | one turn of that loop keeps both sums |
| Balls.TurnContact | Biliard/Ball.cpp:37-39 | a turn against another ball within two radii replaces exactly the two entries, by the two results of `BallContact` |
| Balls.TurnSkip | Biliard/Ball.cpp:34-39 | a turn against the ball itself, or against a ball further than two radii away, leaves the list as it was |
| Balls.Ball.CollideWith | Biliard/Ball.cpp:34-39 | one turn from the list the earlier turns left: the list's motions become the pass over one more entry; no colour or flag changes |
| Balls.Ball.Collide | Biliard/Ball.cpp:37-39 | against a touching ball: the two balls move to the results of `BallContact`, every other ball keeps its motion, and the list's motions become the pass over one more entry; no colour or flag changes |
| Balls.Ball.CollideWithBalls | Biliard/Ball.cpp:32-40 | the list's motions become `CollisionPass` of the old ones; no colour or flag changes |
| Balls.Bounce | Biliard/Ball.cpp:42-52 | one cushion guard's response: `WallContact` against the wall point, or nothing when the centre lies on the point; no contract of its own |
| Balls.Walls | Biliard/Ball.cpp:42-52 | the four guards in the source's order, each testing the position the previous one left; its property is the row `WallsClear` |
| Balls.WallsClear | Biliard/Ball.cpp:42-52 | the four cushion guards leave a ball strictly inside the table untouched, so only the guards trigger a wall response |
| Balls.Ball.BounceOff | Biliard/Ball.cpp:42-52 | one guard: the motion becomes `Bounce` of the old one; no flag changes |
| Balls.Ball.ResolveWalls | Biliard/Ball.cpp:42-52 | the motion becomes `Walls` of the old one (the four guards in order); no flag changes |
| Balls.Moved | Biliard/Ball.cpp:54-58 | the new velocity sets `stopped` and moves the ball by v·dt·VELOCITY_MULTIPLIER; no contract of its own |
| Balls.Advanced | Biliard/Ball.cpp:54-78 | friction, `Moved`, then `Captured`; its properties are the rows `AdvancedFlags` and `AdvancedSlow` |
| Balls.AdvancedFlags | Biliard/Ball.cpp:54-78 | after the tail of a tick: onBoard never goes back to true; the cue ball never leaves the board; for any other ball the velocity is `FrictionVelocity` of the old one, `stopped` is exactly "speed below VELOCITY_BIAS", and onBoard is cleared exactly when the moved position lies in a pocket |
| Balls.AdvancedSlow | Biliard/Ball.cpp:54-78 | a ball slower than VELOCITY_BIAS ends the tick at rest, stopped, where it was (or the cue ball on its spot) |
| Balls.Ball.Capture | Biliard/Ball.cpp:60-78 | the state becomes `Captured` of the old one for the given holes |
| Balls.Ball.Advance | Biliard/Ball.cpp:54-78 | the state becomes `Advanced` of the old one: friction, then `stopped`, then the move by v·dt·VELOCITY_MULTIPLIER, then the hole loop |
| Balls.Tick | Biliard/Ball.cpp:30-79 | one ball's Ball::Update as a function of the states of the whole list: the other entries take their `CollisionPass` motions and keep colour and flags; entry `self` goes through the pass, `Walls` and `Advanced`; the list keeps its length |
| Balls.Ball.Update | Biliard/Ball.cpp:30-79 | the states of the whole list become `Tick` of the old states at this ball's index; spelled out, every other ball of the list ends at its `CollisionPass` motion; this ball's state is `Advanced` applied after `Walls` of its pass result; other balls keep their flags; onBoard never returns to true; the cue ball's onBoard is unchanged |
| RayCast.VerticalIntersect | Biliard/Game.cpp:734-753 | reports a hit exactly when abs(direction.x) >= 0.01 and the parameter to x = x1 is positive; without a hit the point is (0, 0); a hit lies on x = x1 and on the ray's line, with dot(point - start, direction) > 0 |
| RayCast.HorizontalIntersect | Biliard/Game.cpp:755-775 | the same for y = y1 and direction.y |
| RayCast.FindLineCircleIntersections | Biliard/Game.cpp:691-732 | the quadratic of the segment and the circle; no contract of its own, its properties are the rows `RootCount`, `IntersectionsOnLine` and `Roots` |
| RayCast.RootCount | Biliard/Game.cpp:707-731 | the count is 0 exactly when A <= 1e-7 or the discriminant is negative, 1 exactly when it is zero, 2 exactly when it is positive; unused points are (0, 0) |
| RayCast.IntersectionsOnLine | Biliard/Game.cpp:715-731 | every reported point lies on the line through the two points; with two points, the first lies further along the direction |
| RayCast.Roots | Biliard/Game.cpp:726-728 | the root taken with +sqrt(det) is strictly larger than the one taken with -sqrt(det) |
| Rules.Player.Next | Biliard/Game.cpp:259 | the next player is the other one, at index (index + 1) % 2 |
| Rules.Referee | Biliard/Game.cpp:201-266 | the referee keeps a match well formed (two detail records); what it decides is the rows `RefereeFinishedBalls`, `RefereeBlackBall`, `RefereeTurn` and `RefereeConsistent` |
| Rules.RefereeFinishedBalls | Biliard/Game.cpp:201-217 | the current player's finishedBalls becomes (old value or group cleared), so it is never reset to false; the other player's is unchanged; scores and groups are unchanged |
| Rules.RefereeBlackBall | Biliard/Game.cpp:219-241 | the state becomes Finished exactly when the black ball is gone; then the opponent is marked dead if the current player had finished their group, and the current player otherwise; with the black ball present no dead flag changes |
| Rules.RefereeTurn | Biliard/Game.cpp:243-266 | with the black ball present: Waiting with all balls stopped becomes Playing and the turn passes; every other case keeps the state and the player |
| Rules.RefereeConsistent | Biliard/Game.cpp:201-266 | the referee preserves "the match is Finished exactly when one player, and only one, is dead" |
| Rules.SwapPop | Biliard/Game.cpp:195-196 | overwriting index i by the last element and popping leaves a list one shorter; with `SwapPopMultiset`, exactly one occurrence of the element at i is gone |
| Rules.SwapPopMultiset | Biliard/Game.cpp:195-196 | overwriting index i by the last element and popping removes exactly one occurrence of the element at i |
| Billiards.LastOff | Biliard/Game.cpp:165-187 | the last index of a ball off the board, or -1 when there is none; every ball after it is on the board |
| Billiards.LastOffBoard | Biliard/Game.cpp:165-187 | the scan returns `LastOff` of the list: -1 exactly when every listed ball is on the board, otherwise the last index of a ball off the board |
| Billiards.Removed | Biliard/Game.cpp:162-199 | the list the removal leaves, order included: swap-and-pop at `LastOff` until it is -1; no contract of its own, its properties are the rows `RemovedOnBoard` and `RemovedOrder` |
| Billiards.RemovedOnBoard | Biliard/Game.cpp:162-199 | every ball `Removed` leaves is on the board, and each ball occurs as often as before if it is on the board and not at all otherwise |
| Billiards.RemovedOrder | Biliard/Game.cpp:165-199 | with a, c on the board and b pocketed, [a, b, c] becomes [a, c] and [b, a, c] becomes [c, a]: the last ball fills the pocketed ball's slot |
| Billiards.RemoveOffBoard | Biliard/Game.cpp:162-199 | the loop terminates with exactly `Removed` of the input, order included; hence every listed ball is on the board and each ball occurs as often as before if it is on the board and not at all otherwise |
| Billiards.RemovalKeeps | Biliard/Game.cpp:162-199 | removal keeps a repeat-free list repeat-free, and a ball remains exactly when it was listed and is on the board |
| Billiards.NoneRemaining | Biliard/Game.cpp:203-212 | true exactly when no ball of the group is still in the list |
| Billiards.FindBlack | Biliard/Game.cpp:219-227 | true exactly when the black ball is in the list |
| Billiards.CheckStopped | Biliard/Game.cpp:247-255 | true exactly when every listed ball is stopped |
| Billiards.Game.DropPocketed | Biliard/Game.cpp:162-199 | the list becomes `Removed` of the old one, so it keeps no repeats and holds exactly the balls it held that are on the board; no ball and no other field changes |
| Billiards.Ticks | Biliard/Game.cpp:159-160 | `Tick` of entry 0, then of entry 1, and so on up to entry n - 1, each on the states the earlier ones left; the list keeps its length |
| Billiards.Game.TickOne | Biliard/Game.cpp:160 | Ball::Update of entry i: the states of the list become `Tick` of the old ones at i; no ball comes back onto the board and the cue ball stays on it |
| Billiards.Game.TickBalls | Biliard/Game.cpp:159-160 | the states of the list become `Ticks` of the old ones over the whole list, ball after ball in list order; no ball is back on the board and the cue ball is still on it |
| Billiards.Game.Roll | Biliard/Game.cpp:159-199 | the balls of the old list end in the states `Ticks` gives; the new list is `Removed` of the old one after the ticks, keeps no repeats, holds exactly the old balls that are on the board, and still holds the cue ball |
| Billiards.Game.Play | Biliard/Game.cpp:159-266 | the part of a tick that runs while the match is on: the balls end in the states `Ticks` gives, the list becomes `Removed` of the old one (so it keeps exactly the balls on the board), the match becomes `Referee` of the old one, and the game invariant is kept |
| Billiards.Game.Judge | Biliard/Game.cpp:201-266 | the state, the player and the detail records become `Referee` of the old ones, given the scans of the new list; the list and every ball are unchanged |
| Billiards.Game.Update | Biliard/Game.cpp:154-267 | once Finished, nothing changes (list, match, every ball); otherwise the list becomes `Removed` of the old one after the ticks (order included), a ball stays in it exactly when it is on the board, the balls of the old list end in the states `Ticks` gives, the match becomes `Referee` of the old one, and the game invariant (no repeats, cue ball listed, all listed balls on the board, Finished exactly when one player is dead) is kept |
| Billiards.Game.OnMouseReleased | Biliard/Game.cpp:328-335 | in Playing, the cue ball's velocity becomes cue position minus mouse position and the state becomes Waiting; in any other state nothing changes |
| Billiards.NewBalls | Biliard/Game.cpp:474-493 | sixteen new, distinct balls at rest on the board: the cue ball first (on its spot), the black ball, seven solid and seven striped coloured balls |
| Rack.SwapMultiset | Biliard/Game.cpp:498 | a swap is a reordering |
| Rack.Shuffle | Biliard/Game.cpp:495-499 | for any choice of indices in [1, size - 1], the result is a permutation of the input with the first entry (the cue ball) in place |
| Billiards.ReorderKeeps | Biliard/Game.cpp:495-499 | a permutation has the same balls and no repeats |
| Rack.Split | Biliard/Game.cpp:501-510 | player one's group is exactly the listed solid Normal balls, player two's exactly the listed striped Normal balls |
| Rack.GroupsApart | Biliard/Game.cpp:501-510 | the two groups are disjoint, and neither holds the cue ball or the black ball |
| Rack.Counters | Biliard/Game.cpp:512-535 | columnCount stays below totalPerColumn |
| Rack.CountersIndex | Biliard/Game.cpp:512-535 | rack ball k is entry columnCount of column totalPerColumn, where columns hold 1, 2, 3, ... balls |
| Rack.CountersInjective | Biliard/Game.cpp:512-535 | two rack balls never share their counters |
| Rack.Slot | Biliard/Game.cpp:512-535 | the closed form of rack slot k; its properties are the rows `RackYIsSlot`, `RackPositions` and `SlotsApart` |
| Rack.RackY | Biliard/Game.cpp:519-525 | the y coordinate as the source computes it; it equals `Slot`'s by `RackYIsSlot` |
| Rack.RackYIsSlot | Biliard/Game.cpp:519-525 | the y coordinate of the source (half span up, then the fraction columnCount/(totalPerColumn-1) of the span) is GAME_HEIGHT/2 - 25(t-1) + 50c |
| Rack.RackPositions | Biliard/Game.cpp:512-535 | the counter loop with its resets places rack ball k at slot k |
| Rack.SlotsApart | Biliard/Game.cpp:512-535 | any two rack slots are at least 50 apart across or along the table, so no two racked balls overlap |
| Billiards.LayOut | Biliard/Game.cpp:512-535 | every ball after the cue ball goes to the next rack slot; nothing else about the balls changes |
| Billiards.AssortedList | Biliard/Game.cpp:474-499 | a list holding, in any order, the balls of an assortment (cue ball, black ball, seven solid and seven striped balls) holds the black ball, and each of its balls is the cue ball, the black ball or a member of one of the two groups |
| Billiards.Game.FillList | Biliard/Game.cpp:474-499 | the list becomes the sixteen new balls, shuffled behind the cue ball: a reordering of an assortment, with the cue ball first and on its spot, no repeats, all at rest and on the board |
| Billiards.Game.AssignGroups | Biliard/Game.cpp:501-510 | player one's group becomes exactly the listed solid balls and player two's exactly the listed striped balls; the records are otherwise fresh |
| Billiards.Game.CreateBalls | Biliard/Game.cpp:472-536 | the list is a reordering of an assortment (the cue ball, the black ball, seven solid and seven striped balls), so the black ball is on the table and every ball is the cue ball, the black ball or in a group; sixteen distinct balls, the cue ball first and on its spot, all at rest and on the board; each later ball at its rack slot; the groups are exactly the solid and the striped Normal balls |
| Billiards.Game.CreateHoles | Biliard/Game.cpp:538-549 | the holes are the six pockets |
| Rack.Holes | Biliard/Game.cpp:538-549 | the six pocket positions in the source's order; their layout is the row `HolesSymmetric` |
| Rack.HolesSymmetric | Biliard/Game.cpp:538-549 | six pockets; the set is mirror-symmetric left-right and bottom-top; each lies HOLE_BIAS in from the bottom or the top cushion |
| Billiards.Game.constructor | Biliard/Game.cpp:22-46 | Playing, player one to shoot, both detail records fresh apart from their groups, pockets placed; the list is a reordering of an assortment, so it holds the black ball, the cue ball first and the rest racked; the groups are exactly the solid and the striped balls; and the game invariant holds |
| Billiards.WallHits | Biliard/Game.cpp:605-649 | the four cushion hits in the source's order (left, right, bottom, top); each hit found lies on its cushion line and on the ray, ahead of the start |
| Billiards.TakesStep | Biliard/Game.cpp:613-647 | one more cushion: a hit is taken exactly when it is found and strictly nearer than the current stop, and the choice rule `Takes` then holds for one more cushion |
| Billiards.TakesNearest | Biliard/Game.cpp:605-649 | the stop a choice gives is no further than the far end or any hit found |
| Billiards.TakesUnique | Biliard/Game.cpp:605-649 | the choice rule with strict comparisons admits one choice only: at a tie the earlier cushion, or the far end, wins |
| Billiards.StopsAtWallUnique | Biliard/Game.cpp:605-649 | hence the cushion phase has exactly one outcome, point and normal; a ray aimed exactly into a corner keeps the cushion tried first |
| Billiards.NearestWall | Biliard/Game.cpp:605-649 | the result is no further than the far end or any cushion hit, and it is the outcome of the strict rule: the far end with normal (0, 1) unless a hit is strictly nearer; a hit taken is strictly nearer than the far end and every earlier hit, and no later hit is strictly nearer |
| Billiards.ConsiderBall | Biliard/Game.cpp:651-682 | the best point is never further than before or than any intersection of this ball's circle ahead of the start; it changes only to such an intersection that is strictly nearer, with the normal pointing from the centre to it; at a tie between the two intersections the first is kept |
| Billiards.Game.NearestBall | Biliard/Game.cpp:651-682 | starting from the cushion phase's stop, the result is no further than it or any intersection ahead with the circle of a listed ball other than the excluded one; with no ball it is that stop unchanged; a reported ball is listed, not excluded, its intersection is strictly nearer than the cushion stop, the normal points from its centre, and every candidate of a ball listed before it is strictly further |
| Billiards.Game.GetRayIntersection | Biliard/Game.cpp:603-688 | the reported point is no further than the far end, any cushion hit, or any intersection ahead with the circle of a ball other than the excluded one; with no ball it is the cushion phase's unique outcome; a reported ball is listed, not excluded, one of its intersections ahead, strictly nearer than the far end and every cushion hit, with the normal from its centre, and every candidate of an earlier listed ball is strictly further |

## Left out

- Rendering, shaders and GPU buffers are not modelled: `Render`, `Create*Buffers`, `Free*Buffers`, `RenderHelperLines`, `LineModelFromTo`. The window, projection and input code is not modelled either: `OnResize`, `OnMouseMoved`, `ProcessInput` and `Biliard/main.cpp`. `mousePosition` is a plain field.
- Console output (`cout`) is left out. This includes the inner loop of lines 167-186 of `Game::Update`, which only decides which message to print. The destructor's `delete` calls are also left out, and so are the allowed-ball entries that still name a ball after the removal has freed it.
- `Biliard/Hole.cpp` is folded into the model: a pocket is just its position (`Vec`).
- `Constants.h` is not part of this model. `GAME_WIDTH` and `GAME_HEIGHT` are constants of unknown value, and no proof depends on them.
- Floating-point rounding, NaN and `float` overflow are left out; the arithmetic is on reals. `sqrtf` is a parameter function `sqrt` constrained by `IsSqrt`, and `length` and `normalize` are defined from it. `normalize` of the zero vector is taken to be zero, where glm gives NaN. This case is reachable: the guards of `Ball::Update` use `<=`, so a ball exactly 2·BALL_RADIUS from another, or with its centre exactly BALL_RADIUS from a cushion point, is resolved with a zero correction. The source then normalises a zero vector and its velocities become NaN; in the model the normal and the impulse are zero and the velocities stay as they were. `BallContactResponse` and `WallContactResponse` are stated only for overlap.
- `rand()` in the shuffle is a nondeterministic choice of an index in [1, size - 1].
- Balls.Ball.ResolveCollisionWithBall: requires distinct centres. The source divides by a zero distance when two centres coincide, so `Ball.CollideWith` passes over such a pair.
- Balls.Ball.ResolveCollisionWithWall: requires the centre to differ from the wall point. `Ball.BounceOff` passes over a ball whose centre lies exactly on the cushion line.
- Balls.Ball.Update: requires the list to contain this ball and no ball twice, as the game's own list always does.
- Billiards.Game.constructor: the window size arguments, the shaders and the buffers are left out.
- RayCast.IntersectionsOnLine: does not prove that the reported points lie on the circle. Exact separation distances after a collision are not proved either.
- `PlayerDetails.Score` is carried but never changes, as in the source.
