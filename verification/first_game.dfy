/** One tick of the earlier version of the game, class Game1 in Game1.cs,
    as a pure state transition.  The module is called FirstGame so that
    its name does not read as a version number.

    Game1 has the same steering, joint laying, movement and tail trim as
    SnakeGame, but no collision scan and no reset: the snake can cross
    itself.  G grows the snake on every tick it is held, the goal is a
    plain position, and it is eaten when the head's block overlaps the
    goal's block.  The elapsed time and the goal's random draws are
    parameters.
 */
module FirstGame {
  import opened Geometry
  import opened Polyline
  import opened Steering
  import opened Goal

  const InitialLength: real := 50.0
  const GrowAmount: real := 30.0
  const InitialSpeed: real := 100.0

  /** Where LoadContent puts the head. */
  const StartHead: Vec2 := Vec2(200.0, 200.0)

  /** The game state the logic reads and writes.  joints are stored oldest
      first; the path runs from joints[0] to the newest joint and on to the
      head. */
  datatype Game = Game(
    head: Vec2,
    direction: Direction,
    joints: seq<Vec2>,
    length: real,
    growAmount: real,
    speed: real,
    goal: Vec2)

  /** What every reachable state satisfies.  Without resets the path is
      never longer than the snake. */
  predicate Invariant(g: Game) {
    && |g.joints| > 0
    && g.length >= InitialLength
    && g.growAmount == GrowAmount
    && g.speed >= 0.0
    && AxisPath(g.joints + [g.head])
    && InLine(Last(g.joints), g.head, g.direction)
    && PathLength(g.joints, g.head) <= g.length
  }

  /** The state after Initialize and LoadContent: the head, one joint the
      initial length behind it, and the goal at the drawn position. */
  function Start(arena: Arena, x: int, y: int): (g: Game)
    requires ValidDraw(arena, x, y)
    ensures Invariant(g)
    ensures g.head == StartHead && g.direction == Right
    ensures g.joints == [Vec2(150.0, 200.0)]
    ensures g.speed == InitialSpeed
    ensures PathLength(g.joints, g.head) == g.length == InitialLength
    ensures g.goal == Place(arena, x, y)
  {
    var joint := Vec2(StartHead.x - InitialLength, StartHead.y);
    PathLengthOfOneJoint(joint, StartHead);
    assert Aligned(([joint] + [StartHead])[0], ([joint] + [StartHead])[1]);
    Game(StartHead, Right, [joint], InitialLength, GrowAmount, InitialSpeed, Place(arena, x, y))
  }

  /** The key handling of a tick: steering, G held grows the snake, + and -
      change the speed (never below 0). */
  function Controls(g: Game, keys: set<Key>): (r: Game)
    ensures r.head == g.head && r.joints == g.joints && r.goal == g.goal
    ensures r.growAmount == g.growAmount
    ensures r.direction == Steer(g.direction, keys)
    ensures OemMinus in keys || g.speed >= 0.0 ==> r.speed >= 0.0
    ensures g.growAmount >= 0.0 ==> r.length >= g.length
  {
    var length := if G in keys then g.length + g.growAmount else g.length;
    var faster := if OemPlus in keys then g.speed + 5.0 else g.speed;
    var speed := if OemMinus in keys then (if faster - 5.0 < 0.0 then 0.0 else faster - 5.0) else faster;
    g.(direction := Steer(g.direction, keys), length := length, speed := speed)
  }

  /** G grows the snake on every tick it is held, and only then. */
  lemma GrowWhileHeld(g: Game, keys: set<Key>)
    ensures G in keys ==> Controls(g, keys).length - g.length == g.growAmount
    ensures G !in keys ==> Controls(g, keys).length == g.length
  {
  }

  /** + and - together leave a non-negative speed unchanged; - alone slows
      a snake faster than 5 by exactly 5 and stops a slower one. */
  lemma SpeedKeys(g: Game, keys: set<Key>)
    requires g.speed >= 0.0
    ensures OemPlus in keys && OemMinus in keys ==> Controls(g, keys).speed == g.speed
    ensures OemPlus !in keys && OemMinus in keys
            ==> Controls(g, keys).speed == (if g.speed < 5.0 then 0.0 else g.speed - 5.0)
  {
  }

  /** How far the head moves this tick: elapsed seconds times the speed
      after this tick's keys. */
  function Displacement(g: Game, keys: set<Key>, elapsed: real): real {
    elapsed * Controls(g, keys).speed
  }

  /** Keys, turn, move by displacement, and trim. */
  function Advance(g: Game, keys: set<Key>, displacement: real): (a: Game)
    requires g.length >= 0.0 && g.growAmount >= 0.0
    ensures a.direction == Steer(g.direction, keys)
    ensures Dist(g.head, a.head) == Abs(displacement) && Aligned(g.head, a.head)
    ensures a.goal == g.goal && a.growAmount == g.growAmount
  {
    var c := Controls(g, keys);
    var laid := Lay(g.joints, g.head, g.direction, c.direction);
    var head := Move(g.head, c.direction, displacement);
    c.(head := head, joints := Trim(laid, head, c.length))
  }

  /** Advance in terms of its stages. */
  lemma AdvanceParts(g: Game, keys: set<Key>, displacement: real)
    requires g.length >= 0.0 && g.growAmount >= 0.0
    ensures var a := Advance(g, keys, displacement);
            var c := Controls(g, keys);
            && a.length == c.length && a.speed == c.speed
            && a.head == Move(g.head, a.direction, displacement)
            && a.joints == Trim(Lay(g.joints, g.head, g.direction, a.direction), a.head, c.length)
  {
  }

  /** One tick: advance, then RepositionGoal and GrowSnake when the head's
      block overlaps the goal's. */
  function Tick(g: Game, keys: set<Key>, elapsed: real, arena: Arena, x: int, y: int): (r: Game)
    requires g.length >= 0.0 && g.growAmount >= 0.0
    requires ValidDraw(arena, x, y)
    ensures r.direction == Steer(g.direction, keys)
    ensures r.head == Move(g.head, r.direction, Displacement(g, keys, elapsed))
    ensures r.speed == Controls(g, keys).speed
    ensures r.goal == g.goal || r.goal == Place(arena, x, y)
  {
    var a := Advance(g, keys, Displacement(g, keys, elapsed));
    AdvanceParts(g, keys, Displacement(g, keys, elapsed));
    if BoxHit(a.head, g.goal) then a.(goal := Place(arena, x, y), length := a.length + a.growAmount)
    else a
  }

  /** Keys, turn, move and trim keep the invariant. */
  lemma AdvanceKeepsInvariant(g: Game, keys: set<Key>, displacement: real)
    requires Invariant(g)
    ensures Invariant(Advance(g, keys, displacement))
  {
    var c := Controls(g, keys);
    var laid := Lay(g.joints, g.head, g.direction, c.direction);
    var head := Move(g.head, c.direction, displacement);
    LayKeepsAxisPath(g.joints, g.head, g.direction, c.direction, head);
    TrimKeepsAxisPath(laid, head, c.length);
    TrimWithinLimit(laid, head, c.length);
    var a := Advance(g, keys, displacement);
    assert a == c.(head := head, joints := Trim(laid, head, c.length));
  }

  /** Every tick keeps the invariant. */
  lemma TickKeepsInvariant(g: Game, keys: set<Key>, elapsed: real, arena: Arena, x: int, y: int)
    requires Invariant(g)
    requires ValidDraw(arena, x, y)
    ensures Invariant(Tick(g, keys, elapsed, arena, x, y))
  {
    AdvanceKeepsInvariant(g, keys, Displacement(g, keys, elapsed));
  }

  /** A snake that had outgrown its length is trimmed to exactly that
      length; one that had not keeps every joint. */
  lemma AdvanceTrimsToLength(g: Game, keys: set<Key>, displacement: real)
    requires Invariant(g)
    ensures var a := Advance(g, keys, displacement);
            var laid := Lay(g.joints, g.head, g.direction, a.direction);
            && (PathLength(laid, a.head) > a.length ==> PathLength(a.joints, a.head) == a.length)
            && (PathLength(laid, a.head) <= a.length ==> a.joints == laid)
  {
    var c := Controls(g, keys);
    var laid := Lay(g.joints, g.head, g.direction, c.direction);
    var head := Move(g.head, c.direction, displacement);
    if PathLength(laid, head) > c.length {
      TrimExactLength(laid, head, c.length);
    }
  }

  /** The trim keeps a suffix of the laid joints, except that the oldest kept
      joint may have moved (along its own edge, as Polyline.TrimMovesAlongEdge
      states). */
  lemma AdvanceKeepsSuffix(g: Game, keys: set<Key>, displacement: real)
    requires |g.joints| > 0 && g.length >= 0.0 && g.growAmount >= 0.0
    ensures var a := Advance(g, keys, displacement);
            var laid := Lay(g.joints, g.head, g.direction, a.direction);
            0 <= |laid| - |a.joints| < |laid| && a.joints[1..] == laid[|laid| - |a.joints| + 1..]
  {
    AdvanceParts(g, keys, displacement);
  }

  /** The goal is eaten exactly when the moved head's block overlaps the
      goal's block; eating moves the goal to the drawn position and grows
      the snake by growAmount.  Otherwise the tick is just the advance. */
  lemma TickEatsGoal(g: Game, keys: set<Key>, elapsed: real, arena: Arena, x: int, y: int)
    requires Invariant(g)
    requires ValidDraw(arena, x, y)
    ensures var a := Advance(g, keys, Displacement(g, keys, elapsed));
            var r := Tick(g, keys, elapsed, arena, x, y);
            var near := Abs(a.head.x - g.goal.x) <= BlockSize && Abs(a.head.y - g.goal.y) <= BlockSize;
            && (near ==> r.length == a.length + GrowAmount && r.goal == Place(arena, x, y)
                         && r.head == a.head && r.joints == a.joints)
            && (!near ==> r == a)
  {
  }

  /** The snake never shrinks; with G held it grows by at least growAmount. */
  lemma TickGrows(g: Game, keys: set<Key>, elapsed: real, arena: Arena, x: int, y: int)
    requires Invariant(g)
    requires ValidDraw(arena, x, y)
    ensures Tick(g, keys, elapsed, arena, x, y).length >= g.length
    ensures G in keys ==> Tick(g, keys, elapsed, arena, x, y).length >= g.length + GrowAmount
  {
    AdvanceParts(g, keys, Displacement(g, keys, elapsed));
  }

  /** The keys, elapsed seconds and goal draws of one tick. */
  datatype Input = Input(keys: set<Key>, elapsed: real, x: int, y: int)

  /** Every goal draw of the run is one Random.Next can make. */
  predicate ValidDraws(arena: Arena, inputs: seq<Input>) {
    forall i :: 0 <= i < |inputs| ==> ValidDraw(arena, inputs[i].x, inputs[i].y)
  }

  /** The game after a run of ticks. */
  function Run(g: Game, arena: Arena, inputs: seq<Input>): (r: Game)
    requires Invariant(g)
    requires ValidDraws(arena, inputs)
    ensures Invariant(r)
    decreases |inputs|
  {
    if |inputs| == 0 then g
    else
      var i := inputs[0];
      TickKeepsInvariant(g, i.keys, i.elapsed, arena, i.x, i.y);
      Run(Tick(g, i.keys, i.elapsed, arena, i.x, i.y), arena, inputs[1..])
  }

  /** The number of ticks of the run with G held. */
  function HeldTicks(inputs: seq<Input>): (n: nat)
    ensures n <= |inputs|
    ensures n == 0 <==> forall i :: 0 <= i < |inputs| ==> G !in inputs[i].keys
    ensures n == |inputs| <==> forall i :: 0 <= i < |inputs| ==> G in inputs[i].keys
  {
    if |inputs| == 0 then 0 else (if G in inputs[0].keys then 1 else 0) + HeldTicks(inputs[1..])
  }

  /** Over a run the snake grows by at least growAmount for every tick G
      was held. */
  lemma {:induction false} RunGrowsWhileHeld(g: Game, arena: Arena, inputs: seq<Input>)
    requires Invariant(g)
    requires ValidDraws(arena, inputs)
    ensures Run(g, arena, inputs).length >= g.length + GrowAmount * HeldTicks(inputs) as real
    decreases |inputs|
  {
    if |inputs| > 0 {
      var i := inputs[0];
      var next := Tick(g, i.keys, i.elapsed, arena, i.x, i.y);
      TickKeepsInvariant(g, i.keys, i.elapsed, arena, i.x, i.y);
      TickGrows(g, i.keys, i.elapsed, arena, i.x, i.y);
      assert ValidDraws(arena, inputs[1..]) by {
        forall k | 0 <= k < |inputs[1..]|
          ensures ValidDraw(arena, inputs[1..][k].x, inputs[1..][k].y)
        {
          assert inputs[1..][k] == inputs[k + 1];
        }
      }
      RunGrowsWhileHeld(next, arena, inputs[1..]);
      assert Run(g, arena, inputs) == Run(next, arena, inputs[1..]);
    }
  }

  /** The movement half of Update: steering and key handling, the joint laid
      on a turn, the move, and the trim walk. */
  method AdvanceStep(g: Game, keys: set<Key>, displacement: real) returns (a: Game)
    requires g.length >= 0.0 && g.growAmount >= 0.0
    ensures a == Advance(g, keys, displacement)
  {
    a := Controls(g, keys);
    var snakePositions := a.joints;
    if a.direction != g.direction {
      snakePositions := snakePositions + [g.head];
    }
    var snakePosition := Move(a.head, a.direction, displacement);
    snakePositions := TrimTail(snakePositions, snakePosition, a.length);
    a := a.(head := snakePosition, joints := snakePositions);
  }

  /** The tick as Game1's Update runs it, with the trim walk as a loop. */
  method Update(g: Game, keys: set<Key>, elapsed: real, arena: Arena, x: int, y: int) returns (r: Game)
    requires g.length >= 0.0 && g.growAmount >= 0.0
    requires ValidDraw(arena, x, y)
    ensures r == Tick(g, keys, elapsed, arena, x, y)
  {
    var c := Controls(g, keys);
    var displacement := elapsed * c.speed;
    assert displacement == Displacement(g, keys, elapsed);
    r := AdvanceStep(g, keys, displacement);
    if BoxHit(r.head, r.goal) {
      r := r.(goal := Place(arena, x, y));
      r := r.(length := r.length + r.growAmount);
    }
  }
}
