/** One tick of the snake game (class SnakeGame), as a pure state transition.

    A tick reads the keys, turns the snake, lays a joint where it turned,
    moves the head, trims the tail to the snake's length, scans the body for
    a collision with this tick's movement, and either resets the game or
    checks the goal.  The elapsed time and the goal's random draws are
    parameters.
 */
module SnakeGame {
  import opened Geometry
  import opened Polyline
  import opened Steering
  import opened Goal

  const InitialLength: real := 50.0
  const GrowLength: real := 30.0
  const InitialSpeed: real := 100.0

  /** Where the head is put by a reset. */
  const Origin: Vec2 := Vec2(200.0, 200.0)

  /** The game state the logic reads and writes.  joints are stored oldest
      first; the path runs from joints[0] to the newest joint and on to the
      head.  previousKeys are the keys held during the previous tick. */
  datatype Snake = Snake(
    head: Vec2,
    direction: Direction,
    joints: seq<Vec2>,
    length: real,
    growLength: real,
    speed: real,
    goal: GoalBox,
    previousKeys: set<Key>)

  /** The newest joint lies on the head's row when the snake moves
      sideways, and on its column when it moves up or down. */
  predicate NewestInLine(s: Snake)
    requires |s.joints| > 0
  {
    InLine(Last(s.joints), s.head, s.direction)
  }

  /** What every reachable state satisfies. */
  predicate Invariant(s: Snake) {
    && |s.joints| > 0
    && s.length >= InitialLength
    && s.growLength == GrowLength
    && s.speed >= 0.0
    && s.goal == Sides(s.goal.position)
    && AxisPath(s.joints + [s.head])
    && NewestInLine(s)
  }

  /** ResetGame.  The seed joint is laid before the length is restored, so
      it sits the old length, not the initial one, behind the head. */
  function Reset(s: Snake, arena: Arena, x: int, y: int): (r: Snake)
    requires ValidDraw(arena, x, y)
    ensures Invariant(r)
    ensures r.head == Origin && r.direction == Right
    ensures r.joints == [Vec2(Origin.x - s.length, Origin.y)]
    ensures r.length == InitialLength && r.speed == InitialSpeed
    ensures r.goal.position == Place(arena, x, y)
    ensures PathLength(r.joints, r.head) == Abs(s.length)
    ensures r.previousKeys == s.previousKeys
  {
    var r := Snake(Origin, Right, [Vec2(Origin.x - s.length, Origin.y)], InitialLength, GrowLength,
                   InitialSpeed, Sides(Place(arena, x, y)), s.previousKeys);
    assert r.joints + [r.head] == [Vec2(Origin.x - s.length, Origin.y), Origin];
    PathLengthOfOneJoint(r.joints[0], r.head);
    r
  }

  /** The state after LoadContent: the first reset runs while the length
      still has its default value 0, so the seed joint is the head itself. */
  function Start(arena: Arena, x: int, y: int): (r: Snake)
    requires ValidDraw(arena, x, y)
    ensures Invariant(r)
    ensures r.joints == [r.head]
    ensures PathLength(r.joints, r.head) == 0.0
    ensures r.previousKeys == {}
  {
    Reset(Snake(Vec2(0.0, 0.0), Up, [], 0.0, 0.0, 0.0, Sides(Vec2(0.0, 0.0)), {}), arena, x, y)
  }

  /** After a collision the path is the length the snake had, which exceeds
      the restored length whenever the snake had grown. */
  lemma ResetKeepsOldPathLength(s: Snake, arena: Arena, x: int, y: int)
    requires ValidDraw(arena, x, y)
    requires s.length > InitialLength
    ensures PathLength(Reset(s, arena, x, y).joints, Origin) == s.length
    ensures PathLength(Reset(s, arena, x, y).joints, Origin) > Reset(s, arena, x, y).length
  {
  }

  /** The key handling of a tick: steering, G released grows the snake,
      + and - change the speed (never below 0), [ and ] change the length
      (never below the initial length). */
  function Controls(s: Snake, keys: set<Key>): (r: Snake)
    ensures r.head == s.head && r.joints == s.joints && r.goal == s.goal
    ensures r.growLength == s.growLength && r.previousKeys == keys
    ensures r.direction == Steer(s.direction, keys)
    ensures OemMinus in keys || s.speed >= 0.0 ==> r.speed >= 0.0
    ensures OemCloseBrackets in keys ==> r.length >= InitialLength
    ensures s.growLength >= 0.0 && s.length >= InitialLength ==> r.length >= InitialLength
    ensures s.growLength >= 0.0 && OemCloseBrackets !in keys ==> r.length >= s.length
  {
    var grown := if G in s.previousKeys && G !in keys then s.length + s.growLength else s.length;
    var faster := if OemPlus in keys then s.speed + 5.0 else s.speed;
    var speed := if OemMinus in keys then (if faster - 5.0 < 0.0 then 0.0 else faster - 5.0) else faster;
    var longer := if OemOpenBrackets in keys then grown + 1.0 else grown;
    var length := if OemCloseBrackets in keys then
                    (if longer - 1.0 < InitialLength then InitialLength else longer - 1.0)
                  else longer;
    s.(direction := Steer(s.direction, keys), length := length, speed := speed, previousKeys := keys)
  }

  /** G grows the snake once, on the tick it is let go; holding it does
      nothing. */
  lemma GrowOnRelease(s: Snake, keys: set<Key>)
    requires OemOpenBrackets !in keys && OemCloseBrackets !in keys
    ensures G in s.previousKeys && G !in keys ==> Controls(s, keys).length == s.length + s.growLength
    ensures G in keys ==> Controls(s, keys).length == s.length
  {
  }

  /** + and - together leave a non-negative speed unchanged; [ and ]
      together leave a length of at least the initial one unchanged. */
  lemma OppositeKeysCancel(s: Snake, keys: set<Key>)
    requires s.speed >= 0.0 && s.length >= InitialLength
    requires !(G in s.previousKeys && G !in keys)
    ensures OemPlus in keys && OemMinus in keys ==> Controls(s, keys).speed == s.speed
    ensures OemOpenBrackets in keys && OemCloseBrackets in keys ==> Controls(s, keys).length == s.length
  {
  }

  /** Some body edge (joints[k], joints[k + 1]) with k <= |joints| - 3
      passes the test.  The two newest edges, into the newest joint and from
      it to the head, are never tested. */
  predicate AnyOlderEdge(test: Segment -> bool, joints: seq<Vec2>) {
    exists k :: 0 <= k <= |joints| - 3 && test(Segment(joints[k], joints[k + 1]))
  }

  /** The edge test of the collision scan: does an edge meet the movement? */
  function Against(recentMovement: Segment): Segment -> bool {
    edge => SegmentsIntersect(recentMovement, edge)
  }

  /** The movement hits an older edge of the body. */
  predicate SelfHit(recentMovement: Segment, joints: seq<Vec2>) {
    AnyOlderEdge(Against(recentMovement), joints)
  }

  /** A body of at most two joints can never be hit. */
  lemma ShortBodyCannotCollide(recentMovement: Segment, joints: seq<Vec2>)
    requires |joints| <= 2
    ensures !SelfHit(recentMovement, joints)
  {
  }

  /** The collision scan as the game runs it: from the newest tested edge
      back to the oldest, stopping at the first edge that passes test.  at is
      that edge. */
  method ScanBody(test: Segment -> bool, joints: seq<Vec2>) returns (hit: bool, ghost at: int)
    ensures hit <==> AnyOlderEdge(test, joints)
    ensures hit ==> 0 <= at <= |joints| - 3
                    && test(Segment(joints[at], joints[at + 1]))
                    && forall k :: at < k <= |joints| - 3 ==> !test(Segment(joints[k], joints[k + 1]))
  {
    hit := false;
    at := -1;
    if |joints| > 1 {
      var lastPosition := joints[|joints| - 2];
      var i := |joints| - 3;
      while i >= 0 && !hit
        invariant -1 <= i <= |joints| - 3
        invariant !hit ==> lastPosition == joints[i + 1]
        invariant hit ==> at == i + 1 && 0 <= at <= |joints| - 3 && test(Segment(joints[at], joints[at + 1]))
        invariant forall k :: i + 1 < k <= |joints| - 3 ==> !test(Segment(joints[k], joints[k + 1]))
        invariant !hit && 0 <= i + 1 <= |joints| - 3 ==> !test(Segment(joints[i + 1], joints[i + 2]))
      {
        var position := joints[i];
        var snakeSegment := Segment(position, lastPosition);
        hit := test(snakeSegment);
        if hit {
          at := i;
        }
        lastPosition := position;
        i := i - 1;
      }
    }
  }

  /** How far the head moves this tick: elapsed seconds times the speed
      after this tick's keys. */
  function Displacement(s: Snake, keys: set<Key>, elapsed: real): real {
    elapsed * Controls(s, keys).speed
  }

  /** The part of a tick every outcome shares: keys, turn, move by
      displacement, and trim. */
  function Advance(s: Snake, keys: set<Key>, displacement: real): (a: Snake)
    requires s.length >= 0.0 && s.growLength >= 0.0
    ensures a.direction == Steer(s.direction, keys)
    ensures Dist(s.head, a.head) == Abs(displacement) && Aligned(s.head, a.head)
    ensures a.goal == s.goal && a.previousKeys == keys
  {
    var c := Controls(s, keys);
    var laid := Lay(s.joints, s.head, s.direction, c.direction);
    var head := Move(s.head, c.direction, displacement);
    c.(head := head, joints := Trim(laid, head, c.length))
  }

  /** Advance in terms of its stages. */
  lemma AdvanceParts(s: Snake, keys: set<Key>, displacement: real)
    requires s.length >= 0.0 && s.growLength >= 0.0
    ensures var a := Advance(s, keys, displacement);
            && a.head == Move(s.head, a.direction, displacement)
            && a.joints == Trim(Laid(s, keys), a.head, Controls(s, keys).length)
  {
  }

  /** The joints before the trim: the old ones, plus the old head on a turn. */
  function Laid(s: Snake, keys: set<Key>): seq<Vec2> {
    Lay(s.joints, s.head, s.direction, Steer(s.direction, keys))
  }

  /** The head's movement this tick. */
  function Movement(s: Snake, a: Snake): Segment {
    Segment(s.head, a.head)
  }

  /** GrowSnake and RepositionGoal after the goal is reached. */
  function Eat(a: Snake, arena: Arena, x: int, y: int): (r: Snake)
    requires ValidDraw(arena, x, y)
    ensures r.length == a.length + a.growLength
    ensures r.goal == Sides(Place(arena, x, y))
    ensures r.head == a.head && r.joints == a.joints && r.direction == a.direction
    ensures r.speed == a.speed && r.growLength == a.growLength && r.previousKeys == a.previousKeys
  {
    a.(length := a.length + a.growLength, goal := Sides(Place(arena, x, y)))
  }

  /** One call of Update.  keys are the keys held now, elapsed the seconds
      since the last tick, and (x, y) the draws RepositionGoal would use. */
  function Tick(s: Snake, keys: set<Key>, elapsed: real, arena: Arena, x: int, y: int): (r: Snake)
    requires s.length >= 0.0 && s.growLength >= 0.0
    requires ValidDraw(arena, x, y)
    ensures r.head == Origin || r.head == Move(s.head, Steer(s.direction, keys), Displacement(s, keys, elapsed))
    ensures r.direction == Right || r.direction == Steer(s.direction, keys)
    ensures r.goal == s.goal || r.goal == Sides(Place(arena, x, y))
    ensures r.previousKeys == keys
  {
    var a := Advance(s, keys, Displacement(s, keys, elapsed));
    AdvanceParts(s, keys, Displacement(s, keys, elapsed));
    if SelfHit(Movement(s, a), a.joints) then Reset(Controls(s, keys), arena, x, y)
    else if GoalHit(Movement(s, a), s.goal) then Eat(a, arena, x, y)
    else a
  }

  /** The tick ends in a reset. */
  predicate Collides(s: Snake, keys: set<Key>, elapsed: real)
    requires s.length >= 0.0 && s.growLength >= 0.0
  {
    var a := Advance(s, keys, Displacement(s, keys, elapsed));
    SelfHit(Movement(s, a), a.joints)
  }

  /** The outcome of a tick: a reset on a collision, the advanced state
      with the goal eaten, or just the advanced state. */
  lemma TickCases(s: Snake, keys: set<Key>, elapsed: real, arena: Arena, x: int, y: int)
    requires s.length >= 0.0 && s.growLength >= 0.0
    requires ValidDraw(arena, x, y)
    ensures var a := Advance(s, keys, Displacement(s, keys, elapsed));
            var r := Tick(s, keys, elapsed, arena, x, y);
            && (Collides(s, keys, elapsed) ==> r == Reset(Controls(s, keys), arena, x, y))
            && (!Collides(s, keys, elapsed) && GoalHit(Movement(s, a), s.goal) ==> r == Eat(a, arena, x, y))
            && (!Collides(s, keys, elapsed) && !GoalHit(Movement(s, a), s.goal) ==> r == a)
  {
  }

  /** Keys, turn, move and trim keep the invariant; in particular every edge
      of the body stays axis-aligned, so the model's edge length is the real
      one. */
  lemma AdvanceKeepsInvariant(s: Snake, keys: set<Key>, displacement: real)
    requires Invariant(s)
    ensures Invariant(Advance(s, keys, displacement))
  {
    var c := Controls(s, keys);
    var laid := Lay(s.joints, s.head, s.direction, c.direction);
    var head := Move(s.head, c.direction, displacement);
    LayKeepsAxisPath(s.joints, s.head, s.direction, c.direction, head);
    TrimKeepsAxisPath(laid, head, c.length);
    var a := Advance(s, keys, displacement);
    assert a == c.(head := head, joints := Trim(laid, head, c.length));
  }

  /** Every tick keeps the invariant. */
  lemma TickKeepsInvariant(s: Snake, keys: set<Key>, elapsed: real, arena: Arena, x: int, y: int)
    requires Invariant(s)
    requires ValidDraw(arena, x, y)
    ensures Invariant(Tick(s, keys, elapsed, arena, x, y))
  {
    AdvanceKeepsInvariant(s, keys, Displacement(s, keys, elapsed));
    TickCases(s, keys, elapsed, arena, x, y);
  }

  /** After the trim the path from the head to the tail is no longer than
      the snake: exactly as long when it had outgrown it, and untouched when
      it had not. */
  lemma AdvanceKeepsPathWithinLength(s: Snake, keys: set<Key>, displacement: real)
    requires Invariant(s)
    ensures var a := Advance(s, keys, displacement);
            && PathLength(a.joints, a.head) <= a.length
            && (PathLength(Laid(s, keys), a.head) > a.length ==> PathLength(a.joints, a.head) == a.length)
            && (PathLength(Laid(s, keys), a.head) <= a.length ==> a.joints == Laid(s, keys))
  {
    var c := Controls(s, keys);
    var laid := Lay(s.joints, s.head, s.direction, c.direction);
    var head := Move(s.head, c.direction, displacement);
    if PathLength(laid, head) > c.length {
      TrimExactLength(laid, head, c.length);
    }
  }

  /** The trim keeps a suffix of the laid joints, except that the oldest kept
      joint may have moved (along its own edge, as Polyline.TrimMovesAlongEdge
      states). */
  lemma AdvanceKeepsSuffix(s: Snake, keys: set<Key>, displacement: real)
    requires |s.joints| > 0 && s.length >= 0.0 && s.growLength >= 0.0
    ensures var a := Advance(s, keys, displacement);
            var laid := Laid(s, keys);
            0 <= |laid| - |a.joints| < |laid| && a.joints[1..] == laid[|laid| - |a.joints| + 1..]
  {
    AdvanceParts(s, keys, displacement);
  }

  /** A turn leaves the pre-move head as the newest joint (unless the trim
      shortened the body to that one joint and moved it); going straight
      leaves the newest joint where it was. */
  lemma TurnLaysOldHead(s: Snake, keys: set<Key>, displacement: real)
    requires Invariant(s)
    ensures var a := Advance(s, keys, displacement);
            |a.joints| > 1 ==>
              Last(a.joints) == (if a.direction != s.direction then s.head else Last(s.joints))
  {
    var a := Advance(s, keys, displacement);
    var laid := Laid(s, keys);
    AdvanceKeepsSuffix(s, keys, displacement);
    if |a.joints| > 1 {
      assert Last(a.joints) == a.joints[1..][|a.joints| - 2];
      assert Last(a.joints) == Last(laid);
    }
  }

  /** A collision resets the game and the new path is as long as the snake
      had become, not the restored initial length. */
  lemma CollisionResets(s: Snake, keys: set<Key>, elapsed: real, arena: Arena, x: int, y: int)
    requires Invariant(s)
    requires ValidDraw(arena, x, y)
    requires Collides(s, keys, elapsed)
    ensures var r := Tick(s, keys, elapsed, arena, x, y);
            && r.head == Origin && r.direction == Right && r.length == InitialLength
            && PathLength(r.joints, r.head) == Controls(s, keys).length
  {
    TickCases(s, keys, elapsed, arena, x, y);
  }

  /** Without a collision, the goal test fires exactly when the head's
      movement crosses the goal's left, right or bottom side across it; a hit
      grows the snake by growLength and moves the goal to the drawn
      position. */
  lemma TickEatsGoal(s: Snake, keys: set<Key>, elapsed: real, arena: Arena, x: int, y: int)
    requires Invariant(s)
    requires ValidDraw(arena, x, y)
    requires !Collides(s, keys, elapsed)
    ensures var a := Advance(s, keys, Displacement(s, keys, elapsed));
            var m := Movement(s, a);
            var b := s.goal;
            var r := Tick(s, keys, elapsed, arena, x, y);
            var eaten := (TypeOf(m) != Vertical && (Touch(m, b.left) || Touch(m, b.right)))
                         || (TypeOf(m) != Horizontal && Touch(m, b.bottom));
            && (eaten ==> r.length == a.length + GrowLength && r.goal.position == Place(arena, x, y))
            && (!eaten ==> r == a)
  {
    var a := Advance(s, keys, Displacement(s, keys, elapsed));
    var m := Movement(s, a);
    assert m.point1.x == m.point2.x || m.point1.y == m.point2.y;
    assert TypeOf(m) != Tilted;
    GoalHitIffCrossesTestedSide(m, s.goal.position);
    TickCases(s, keys, elapsed, arena, x, y);
  }

  /** The movement half of Update: steering and key handling, the joint laid
      on a turn, the move, and the trim walk. */
  method AdvanceStep(s: Snake, keys: set<Key>, displacement: real) returns (a: Snake)
    requires s.length >= 0.0 && s.growLength >= 0.0
    ensures a == Advance(s, keys, displacement)
  {
    a := Controls(s, keys);
    var snakePositions := a.joints;
    if a.direction != s.direction {
      snakePositions := snakePositions + [s.head];
    }
    var snakePosition := Move(a.head, a.direction, displacement);
    snakePositions := TrimTail(snakePositions, snakePosition, a.length);
    a := a.(head := snakePosition, joints := snakePositions);
  }

  /** The tick as the game's Update runs it, with the trim walk and the
      collision scan as loops. */
  method Update(s: Snake, keys: set<Key>, elapsed: real, arena: Arena, x: int, y: int) returns (r: Snake)
    requires s.length >= 0.0 && s.growLength >= 0.0
    requires ValidDraw(arena, x, y)
    ensures r == Tick(s, keys, elapsed, arena, x, y)
  {
    var c := Controls(s, keys);
    var displacement := elapsed * c.speed;
    assert displacement == Displacement(s, keys, elapsed);
    var a := AdvanceStep(s, keys, displacement);
    var recentMovement := Segment(s.head, a.head);
    var hit, _ := ScanBody(Against(recentMovement), a.joints);
    if hit {
      r := Reset(c, arena, x, y);
    } else {
      r := a;
      if GoalHit(recentMovement, r.goal) {
        r := r.(length := r.length + r.growLength, goal := Sides(Place(arena, x, y)));
      }
    }
  }
}
