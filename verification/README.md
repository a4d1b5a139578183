# snake-xna game logic in Dafny

This project models the game logic of the XNA snake game. There are two
versions of the game, and the model covers both:

- `SnakeGame` is the 3D-capable version. It has a self-collision scan, a
  reset, and a goal made of four sides.
- `Game1` is the earlier 2D version. It has no collision scan and no reset,
  and its goal test is a box overlap.

Only `SnakeGame` uses the segment-intersection kernel `LineSegment2`. Both
versions share the steering rule, joint laying, head movement and the
tail-trim walk.

The modules follow the program's structure:

- `Geometry` (`geometry.dfy`) is `LineSegment2`: segment classes, the
  ten-way relationship, the line evaluations and `SegmentsIntersect`. Beside
  it is a reference definition of "two closed segments share a point"
  (`Touch`), used to state where the kernel is right and where it is not.
- `Polyline` (`polyline.dfy`) is the joint list behind the head. It covers
  path length, axis alignment, the slide of the oldest joint, and the tail
  trim. The trim is given twice: as a function, and as the game's loop
  (`TrimTail`), which is proved equal to it.
- `Steering` (`steering.dfy`) covers the arrow-key rule, the joint laid on
  a turn, and the head's move.
- `Goal` (`goal.dfy`) covers the goal's placement from the two random draws,
  its four sides, SnakeGame's side test and Game1's box test.
- `SnakeGame` (`snake_game.dfy`) is one tick of `SnakeGame.Update` as a pure
  state transition (`Tick`). Beside it are `ResetGame`, the start state,
  and the tick as a method with the trim and scan loops (`Update`).
- `FirstGame` (`first_game.dfy`) is the same for `Game1.Update`. It adds
  runs of several ticks.

Coordinates are `real`. An edge's length is |dx| + |dy|. Every edge of the
snake is axis-aligned, and each module's `Invariant` keeps that true. On an
axis-aligned edge this length is the Euclidean one
(`Polyline.AlignedNormIsEuclidean`), so no square root is modelled.

The model takes the following as parameters:

- the keys held this tick, as a set;
- the keys held last tick (for G's release);
- the elapsed seconds;
- the two integers `Random.Next` returns, constrained to what
  `Random.Next` can return;
- the screen size.

Some behaviour of the code that a reader may not expect:

- There is no boundary wrap, no segment-break flag and no pause or dead
  state.
- Arrow keys are read as four held keys in a fixed order, not as one
  direction command.
- The random goal range excludes its upper bound.
- The reset seeds its joint from the length the snake had before the
  reset, not from the initial length.
- The tilted/tilted test computes y = 0 regardless of the two lines.
- The goal test checks the left side twice and never the top side.
- The snake's length can also change by key, and `]` can shorten it.

## Model

| member | source | states |
|---|---|---|
| Geometry.PointWithGreatestX | snake/snake/LineSegment2.cs:49-55 | returns an endpoint whose x is at least both endpoints' x; on a tie, point2 |
| Geometry.PointWithLowestX | snake/snake/LineSegment2.cs:57-63 | returns an endpoint whose x is at most both endpoints' x; on a tie, point1 |
| Geometry.PointWithGreatestY | snake/snake/LineSegment2.cs:65-71 | returns an endpoint whose y is at least both endpoints' y; on a tie, point1 |
| Geometry.PointWithLowestY | snake/snake/LineSegment2.cs:73-80 | returns an endpoint whose y is at most both endpoints' y; on a tie, point2 |
| Geometry.RangesSpanEndpoints | snake/snake/LineSegment2.cs:33-47 | LowestX <= GreatestX and LowestY <= GreatestY; each is one endpoint's coordinate; a value is in the closed range iff it lies between the two endpoint coordinates |
| Geometry.TypeOf | snake/snake/LineSegment2.cs:82-97 | exactly one class: Point iff the endpoints are equal, Vertical iff equal x and different y, Horizontal iff equal y and different x, Tilted iff both coordinates differ |
| Geometry.RelationshipOf | snake/snake/LineSegment2.cs:122-163 | the relationship picked from the per-class index lists names exactly the multiset of the two classes |
| Geometry.RelationshipSymmetric | snake/snake/LineSegment2.cs:137-163 | the relationship does not depend on which segment comes first |
| Geometry.YAtXEqualsNInLine | snake/snake/LineSegment2.cs:269-272 | the returned y is on the line through the segment at x = n |
| Geometry.XAtYEqualsNInLine | snake/snake/LineSegment2.cs:281-284 | the returned x is on the line through the segment at y = n |
| Geometry.Line1YWhereXTheSameInBothLines | snake/snake/LineSegment2.cs:293-300 | the result is 0 for every pair of lines, because the slope term j subtracts line1.point2.Y from itself |
| Geometry.SegmentsIntersect | snake/snake/LineSegment2.cs:166-256 | two vertical or two horizontal segments never intersect, and two points intersect iff they are equal; partners: IntersectIffTouch for every class pair against the independent `Touch`, and the quirk lemmas below for the rest |
| Geometry.IntersectIffTouch | snake/snake/LineSegment2.cs:166-245 | for every pair of classes other than two equal non-point classes and point/tilted, SegmentsIntersect holds iff the two closed segments share a point (both directions); touching ends count |
| Geometry.ParallelAxisSegmentsNeverIntersect | snake/snake/LineSegment2.cs:173-175 | two vertical or two horizontal segments are never reported as intersecting |
| Geometry.OverlappingVerticalsAreMissed | snake/snake/LineSegment2.cs:173-175 | collinear overlapping verticals share a point yet are reported as not intersecting |
| Geometry.PointVsTiltedIsOnLine | snake/snake/LineSegment2.cs:235-245 | a point and a tilted segment intersect iff the point is on the infinite line through the segment; there is no range check |
| Geometry.PointBeyondTiltedEndHits | snake/snake/LineSegment2.cs:235-245 | a point on the line beyond the tilted segment's end is reported as a hit although the two share no point |
| Geometry.TiltedPairOnlyAsksFirstAboutZero | snake/snake/LineSegment2.cs:246-256 | two tilted segments intersect iff the first one's closed y-range contains 0, whatever the second is |
| Geometry.TiltedCrossingMissed | snake/snake/LineSegment2.cs:246-256 | two tilted segments that cross at (2, 2) are reported as not intersecting |
| Geometry.TiltedDisjointHitAndAsymmetric | snake/snake/LineSegment2.cs:246-256 | disjoint tilted segments are reported as intersecting, and swapping the arguments changes the answer |
| Geometry.IntersectSymmetricUnlessBothTilted | snake/snake/LineSegment2.cs:109-163 | unless both are tilted, swapping the arguments never changes the answer, since roles come from the class lists |
| Geometry.MixedClassesSymmetric | snake/snake/LineSegment2.cs:177-245 | for segments of different classes each one is picked for its own class in either order, so the answer is symmetric |
| Polyline.AlignedNormIsEuclidean | snake/snake/SnakeGame.cs:462-463 | on an axis-aligned vector the model's length squared equals dx^2 + dy^2, i.e. it is Vector2.Length |
| Polyline.Normalize | snake/snake/SnakeGame.cs:470 | a non-zero vector normalises to length 1, and scaling back by its length gives the vector again |
| Polyline.Slide | snake/snake/SnakeGame.cs:469-473 | moving p towards q by amount leaves it on the segment p-q, amount closer to q, and on q's row or column when p was |
| Polyline.Trim | snake/snake/SnakeGame.cs:453-477 | the kept joints are no more than before, non-empty when the input was, and a suffix of the input except for the first kept one; nothing changes when the path is within the limit |
| Polyline.TrimExactLength | snake/snake/SnakeGame.cs:453-477 | a path longer than the limit is trimmed to exactly the limit |
| Polyline.TrimWithinLimit | snake/snake/SnakeGame.cs:453-477 | after the trim the path is never longer than the limit |
| Polyline.TrimMovesAlongEdge | snake/snake/SnakeGame.cs:467-474 | the oldest kept joint lies on the edge from the joint it replaces to that joint's newer neighbour |
| Polyline.TrimKeepsAxisPath | snake/snake/SnakeGame.cs:467-474 | the trim keeps every edge axis-aligned and keeps the newest joint on the head's row or column |
| Polyline.WalkStep | snake/snake/SnakeGame.cs:460-466 | each step of the walk adds the edge into the next older joint, and the suffix it leaves behind was within the limit |
| Polyline.WalkStop | snake/snake/SnakeGame.cs:460-477 | when the walk stops: either the path was within the limit and the result is the input, or the vector normalised at line 470 is non-zero and the result is the slid joint followed by the newer ones |
| Polyline.CutTail | snake/snake/SnakeGame.cs:467-477 | sliding joint i + 1 and dropping every older joint gives the trim |
| Polyline.TrimTail | snake/snake/SnakeGame.cs:456-477 | the trim loop as written computes exactly the trim |
| Steering.Steer | snake/snake/SnakeGame.cs:352-371 | the new direction is the old one or one whose arrow is held |
| Steering.SteerWithoutArrows | snake/snake/SnakeGame.cs:352-371 | with no arrow held the direction is kept |
| Steering.SteerSingleArrow | snake/snake/SnakeGame.cs:352-371 | with one arrow held the snake turns that way unless that is straight back, and never reverses |
| Steering.ReversalNeedsTwoArrows | snake/snake/SnakeGame.cs:352-371 | a reversal needs at least two arrows held |
| Steering.LeftDownReversesUp | snake/snake/SnakeGame.cs:352-371 | heading Up with Left and Down held the snake ends up heading Down |
| Steering.Move | snake/snake/SnakeGame.cs:437-451 | the head stays on its row (left/right) or column (up/down) and moves exactly abs(displacement) |
| Steering.MoveFollowsHeading | snake/snake/SnakeGame.cs:438-451 | the move is displacement times the unit step of the direction, with Up decreasing y |
| Steering.MoveChangesOneCoordinate | snake/snake/SnakeGame.cs:438-451 | a move of non-zero length changes exactly one coordinate |
| Steering.Lay | snake/snake/SnakeGame.cs:430-434 | one joint is added iff the direction changed; the old joints are kept in order, and the added joint is the pre-move head |
| Steering.LayKeepsAxisPath | snake/snake/SnakeGame.cs:430-451 | laying the joint and moving the head keep every edge axis-aligned, with the newest joint on the head's new line |
| Goal.Place | snake/snake/SnakeGame.cs:266-267 | the goal is at whole-pixel coordinates in [0, width - 6) x [0, height - 6), or at 0 when the screen is exactly 6 |
| Goal.EveryCellCanBeDrawn | snake/snake/SnakeGame.cs:266-267 | every whole-pixel position in that range can be drawn |
| Goal.TooSmallArenaHasNoDraw | snake/snake/SnakeGame.cs:266-267 | on a screen narrower or shorter than 6 there is no draw, because Random.Next throws |
| Goal.Sides | snake/snake/SnakeGame.cs:270-277 | the left and right sides are vertical and the top and bottom sides horizontal |
| Goal.SidesCoverOutline | snake/snake/SnakeGame.cs:270-277 | a point is on one of the four sides iff it is on the outline of the 6 x 6 square centred on the goal |
| Goal.GoalHit | snake/snake/SnakeGame.cs:498-501 | for the goal's own sides, a vertical movement hits iff it meets the bottom side and a horizontal one iff it meets the left or right side, so the top side plays no part; partner: GoalHitIffCrossesTestedSide |
| Goal.GoalHitIffCrossesTestedSide | snake/snake/SnakeGame.cs:498-501 | an axis-aligned movement hits the goal iff it reaches the left or right side when not vertical, or the bottom side when not horizontal |
| Goal.EnteringThroughTopIsMissed | snake/snake/SnakeGame.cs:498-501 | a head coming down through the top side into the goal is not detected |
| Goal.BoxHit | snake/snake/Game1.cs:236-237 | the head's block overlaps the goal's iff they are at most 6 apart in x and in y, edges included |
| SnakeGame.Reset | snake/snake/SnakeGame.cs:311-324 | the reset state satisfies the invariant: head (200, 200), moving right, length 50, speed 100, goal at the drawn position, one joint at (200 − old length, 200), so the path length equals the length before the reset and the joint is behind a snake heading right when that length is positive; the previous keys are kept |
| SnakeGame.Start | snake/snake/SnakeGame.cs:256 | the first reset runs with length 0, so the only joint is the head itself and the path has length 0 |
| SnakeGame.ResetKeepsOldPathLength | snake/snake/SnakeGame.cs:313-316 | after a reset of a grown snake the path is as long as the old length, longer than the restored one |
| SnakeGame.Controls | snake/snake/SnakeGame.cs:352-392 | steering as Steer; the speed never goes below 0; ] never takes the length below 50; without ], the length never shrinks |
| SnakeGame.GrowOnRelease | snake/snake/SnakeGame.cs:372-374 | G grows the snake by growLength on the tick it is let go, and not while it is held |
| SnakeGame.OppositeKeysCancel | snake/snake/SnakeGame.cs:375-392 | + and - together keep a non-negative speed; [ and ] together keep a length of at least 50 |
| SnakeGame.ShortBodyCannotCollide | snake/snake/SnakeGame.cs:482-485 | with at most two joints no collision can be found |
| SnakeGame.ScanBody | snake/snake/SnakeGame.cs:480-493 | the scan finds a hit iff some edge (J[k], J[k+1]) with k <= Count - 3 meets the movement; the hit edge is the newest such edge |
| SnakeGame.Advance | snake/snake/SnakeGame.cs:347-477 | steering as Steer; the head moves abs(displacement) along one axis; the goal and the stored keys are those of this tick |
| SnakeGame.Eat | snake/snake/SnakeGame.cs:503-504 | eating adds growLength to the length and moves the goal to the drawn position, leaving the rest alone |
| SnakeGame.Tick | snake/snake/SnakeGame.cs:341-511 | after a tick the head is back at the start or has moved along the steered direction by the displacement; the direction is Right or the steered one; the goal is kept or redrawn; this tick's keys are stored; partners: TickCases and TickKeepsInvariant |
| SnakeGame.TickCases | snake/snake/SnakeGame.cs:494-508 | a collision resets the game and skips the goal test; otherwise a goal hit eats, and otherwise the tick is the advance |
| SnakeGame.AdvanceKeepsInvariant | snake/snake/SnakeGame.cs:430-477 | steering, laying, moving and trimming keep the invariant, in particular every edge axis-aligned |
| SnakeGame.TickKeepsInvariant | snake/snake/SnakeGame.cs:341-511 | every tick keeps the invariant |
| SnakeGame.AdvanceKeepsPathWithinLength | snake/snake/SnakeGame.cs:453-477 | after the trim the path is at most the length, exactly the length if it had been longer, and untouched if not |
| SnakeGame.AdvanceKeepsSuffix | snake/snake/SnakeGame.cs:453-477 | the trimmed joints are a suffix of the laid joints except for the first |
| SnakeGame.TurnLaysOldHead | snake/snake/SnakeGame.cs:430-434 | after a turn that keeps more than one joint, the newest joint is the pre-move head; going straight with more than one joint kept leaves the newest joint where it was. When the trim keeps a single joint, that joint has been slid along its edge instead |
| SnakeGame.CollisionResets | snake/snake/SnakeGame.cs:494-495 | a collision puts the head at (200, 200) moving right with length 50, and the path is as long as the length before the reset |
| SnakeGame.TickEatsGoal | snake/snake/SnakeGame.cs:497-505 | without a collision the goal is eaten iff the movement crosses the left or right side (horizontal moves) or the bottom side (vertical moves); eating adds 30 and moves the goal, otherwise nothing beyond the advance changes |
| SnakeGame.AdvanceStep | snake/snake/SnakeGame.cs:347-477 | the key handling, joint append, move and trim loop as written compute the advance |
| SnakeGame.Update | snake/snake/SnakeGame.cs:341-511 | the Update method with its loops computes exactly the tick |
| FirstGame.Start | snake/snake/Game1.cs:45-75 | the start state satisfies the invariant: head (200, 200), moving right at speed 100, the one joint at (150, 200), path length exactly 50, goal at the drawn position |
| FirstGame.Controls | snake/snake/Game1.cs:113-157 | steering as Steer; the speed never goes below 0; the length never shrinks |
| FirstGame.GrowWhileHeld | snake/snake/Game1.cs:142-145 | each tick G is held adds growAmount once; otherwise the length is kept |
| FirstGame.SpeedKeys | snake/snake/Game1.cs:146-157 | + and - together keep the speed; - alone takes 5 off, or stops a snake slower than 5 |
| FirstGame.Advance | snake/snake/Game1.cs:110-219 | steering as Steer; the head moves abs(displacement) along one axis; goal and growAmount are kept |
| FirstGame.AdvanceKeepsInvariant | snake/snake/Game1.cs:163-219 | steering, laying, moving and trimming keep the invariant, including a path no longer than the length |
| FirstGame.Tick | snake/snake/Game1.cs:104-247 | after a tick the direction is the steered one, the head has moved along it by the displacement, the speed is the key-adjusted one, and the goal is kept or redrawn; partners: TickKeepsInvariant, TickEatsGoal and TickGrows |
| FirstGame.TickKeepsInvariant | snake/snake/Game1.cs:104-247 | every tick keeps the invariant |
| FirstGame.AdvanceTrimsToLength | snake/snake/Game1.cs:193-219 | a path that had outgrown the length is trimmed to exactly the length, otherwise the joints are untouched |
| FirstGame.AdvanceKeepsSuffix | snake/snake/Game1.cs:193-219 | the trimmed joints are a suffix of the laid joints except for the first |
| FirstGame.TickEatsGoal | snake/snake/Game1.cs:236-241 | the goal is eaten iff the moved head is at most 6 from it in x and y; eating moves the goal to the drawn position and adds 30 |
| FirstGame.TickGrows | snake/snake/Game1.cs:104-247 | a tick never shrinks the snake, and with G held it grows by at least 30 |
| FirstGame.Run | snake/snake/Game1.cs:104-247 | any run of ticks from an invariant state ends in an invariant state |
| FirstGame.HeldTicks | snake/snake/Game1.cs:142-145 | counts the ticks of a run on which G is held: zero iff G is held on none of them, the whole run iff G is held on all of them |
| FirstGame.RunGrowsWhileHeld | snake/snake/Game1.cs:142-145 | over a run the snake grows by at least 30 for every tick G was held |
| FirstGame.AdvanceStep | snake/snake/Game1.cs:110-219 | the key handling, joint append, move and trim loop as written compute the advance |
| FirstGame.Update | snake/snake/Game1.cs:104-247 | the Update method with its trim loop computes exactly the tick |

## Left out

- Rendering is left out because it is presentation over XNA, which is not
  part of this model. This covers the camera, the view and projection
  matrices, the 3D vertex and index buffers, `Update3DSnakeData`,
  `DrawLine`, `Draw` and the texture setup.
- Input polling is left out. The camera and display keys (W, S, A, D, V, T),
  the exit keys (Q, Escape) and the gamepad's Back button touch no game
  state in the model.
- `Exit` is left out. The model only describes the state.
- `System.Random` and its clock seed are replaced by the two drawn integers,
  which are parameters constrained by `Goal.RandomNext`.
- Float rounding is left out. Coordinates, lengths and speeds are exact
  reals.
- The intersection point that `SegmentsIntersect` computes and never
  returns is left out.
- Polyline.Norm: edge length is |dx| + |dy| instead of the square root. The
  two agree on the axis-aligned edges that every invariant state has
  (`Polyline.AlignedNormIsEuclidean`). A tilted edge never occurs in the
  game, so its length is not modelled.
- Polyline.Normalize: divides by that same |dx| + |dy|. On an axis-aligned
  vector, which is the only kind the trim normalises, this equals
  `Vector2.Normalize`. On a tilted vector it does not: (3, 4) gives
  (3/7, 4/7), not (0.6, 0.8).
- Polyline.Trim: requires a non-negative limit. With a negative length the
  source indexes one past the end of the list and throws. No reachable
  state has one.
- SnakeGame.Tick: requires a valid draw on every tick, although the source
  draws only on a reset or a goal hit. The screen size is fixed, and the
  first draw at start-up already needs it, so every reachable tick can
  draw.
- FirstGame.Tick: requires a valid draw on every tick, although the source
  draws only on a goal hit. The reason is the same as for `SnakeGame.Tick`.
- SnakeGame.AdvanceKeepsSuffix: states the suffix property only. That the
  first kept joint moved along its own edge is stated once, for any joint
  list, by `Polyline.TrimMovesAlongEdge`.
- FirstGame.AdvanceKeepsSuffix: has the same omission as
  `SnakeGame.AdvanceKeepsSuffix`, for the same reason.
- FirstGame.RunGrowsWhileHeld: gives a lower bound and does not count the
  goals eaten during the run.
