/** Keyboard steering and head movement, shared by both versions of the game
    (SnakeGame and the earlier Game1).

    The arrow keys are examined in the fixed order Left, Right, Up, Down, each
    one against the direction left behind by the previous ones; a key is
    ignored only when the running direction is its opposite.  Screen y grows
    downwards, so Up decreases y.
 */
module Steering {
  import opened Geometry
  import opened Polyline

  datatype Direction = Up | Down | Left | Right

  /** The keys the game logic reacts to.  Camera, display and exit keys are
      not part of this model. */
  datatype Key =
    | ArrowLeft | ArrowRight | ArrowUp | ArrowDown
    | G | OemPlus | OemMinus | OemOpenBrackets | OemCloseBrackets

  function Opposite(d: Direction): Direction {
    match d
    case Up => Down
    case Down => Up
    case Left => Right
    case Right => Left
  }

  /** The arrow key that asks for direction d. */
  function Arrow(d: Direction): Key {
    match d
    case Up => ArrowUp
    case Down => ArrowDown
    case Left => ArrowLeft
    case Right => ArrowRight
  }

  /** The directions whose arrow keys are held. */
  function Requested(held: set<Key>): set<Direction> {
    set d: Direction | Arrow(d) in held
  }

  /** One guarded step of the input rule: take d if its arrow is held and the
      running direction is not its opposite. */
  function Consider(running: Direction, held: set<Key>, d: Direction): Direction {
    if Arrow(d) in held && running != Opposite(d) then d else running
  }

  /** The direction after this tick's arrow keys. */
  function Steer(dir: Direction, held: set<Key>): (r: Direction)
    ensures r == dir || Arrow(r) in held
  {
    Consider(Consider(Consider(Consider(dir, held, Left), held, Right), held, Up), held, Down)
  }

  lemma RequestedMembers(held: set<Key>, d: Direction)
    ensures d in Requested(held) <==> Arrow(d) in held
  {
  }

  /** With no arrow held the direction is kept. */
  lemma SteerWithoutArrows(dir: Direction, held: set<Key>)
    requires Requested(held) == {}
    ensures Steer(dir, held) == dir
  {
    RequestedMembers(held, Left);
    RequestedMembers(held, Right);
    RequestedMembers(held, Up);
    RequestedMembers(held, Down);
  }

  /** With a single arrow held the snake turns that way, unless that is
      straight back, in which case it keeps going. */
  lemma SteerSingleArrow(dir: Direction, held: set<Key>, d: Direction)
    requires Requested(held) == {d}
    ensures Steer(dir, held) == (if d == Opposite(dir) then dir else d)
    ensures Steer(dir, held) != Opposite(dir)
  {
    RequestedMembers(held, Left);
    RequestedMembers(held, Right);
    RequestedMembers(held, Up);
    RequestedMembers(held, Down);
  }

  /** Reversing needs at least two arrows at once: the first turns the snake
      sideways and the second then passes the guard. */
  lemma ReversalNeedsTwoArrows(dir: Direction, held: set<Key>)
    requires Steer(dir, held) == Opposite(dir)
    ensures |Requested(held)| >= 2
  {
    var r := Steer(dir, held);
    assert r in Requested(held);
    if Requested(held) == {r} {
      SteerSingleArrow(dir, held, r);
    }
    assert Requested(held) != {r};
    assert Requested(held) - {r} != {};
    var other :| other in Requested(held) - {r};
    var rest := Requested(held) - {r, other};
    assert Requested(held) == {r, other} + rest;
    assert |{r, other}| == 2;
  }

  /** Heading Up, Left and Down held together turn the snake straight back
      down: Left passes the guard first, and Down is then no longer the
      opposite of the running direction. */
  lemma LeftDownReversesUp()
    ensures Steer(Up, {ArrowLeft, ArrowDown}) == Down
  {
  }

  /** Unit step of each direction in screen coordinates. */
  function Heading(d: Direction): Vec2 {
    match d
    case Up => Vec2(0.0, -1.0)
    case Down => Vec2(0.0, 1.0)
    case Left => Vec2(-1.0, 0.0)
    case Right => Vec2(1.0, 0.0)
  }

  predicate IsHorizontal(d: Direction) { d == Left || d == Right }

  /** The head moved by displacement along direction d. */
  function Move(head: Vec2, d: Direction, displacement: real): (r: Vec2)
    ensures InLine(head, r, d)
    ensures Dist(head, r) == Abs(displacement)
  {
    match d
    case Up => Vec2(head.x, head.y - displacement)
    case Down => Vec2(head.x, head.y + displacement)
    case Left => Vec2(head.x - displacement, head.y)
    case Right => Vec2(head.x + displacement, head.y)
  }

  /** The head moves by displacement times the unit step of its direction. */
  lemma MoveFollowsHeading(head: Vec2, d: Direction, displacement: real)
    ensures Move(head, d, displacement) == Add(head, Scale(Heading(d), displacement))
  {
    match d
    case Up => assert Scale(Vec2(0.0, -1.0), displacement) == Vec2(0.0, -displacement);
    case Down => assert Scale(Vec2(0.0, 1.0), displacement) == Vec2(0.0, displacement);
    case Left => assert Scale(Vec2(-1.0, 0.0), displacement) == Vec2(-displacement, 0.0);
    case Right => assert Scale(Vec2(1.0, 0.0), displacement) == Vec2(displacement, 0.0);
  }

  /** A move changes exactly one coordinate, unless it has zero length. */
  lemma MoveChangesOneCoordinate(head: Vec2, d: Direction, displacement: real)
    requires displacement != 0.0
    ensures (Move(head, d, displacement).x != head.x) != (Move(head, d, displacement).y != head.y)
  {
  }

  /** The joint list after the turn check: the pre-move head is appended
      exactly when the direction changed. */
  function Lay(joints: seq<Vec2>, head: Vec2, before: Direction, after: Direction): (r: seq<Vec2>)
    ensures |r| == |joints| + (if before != after then 1 else 0)
    ensures r[..|joints|] == joints
    ensures before != after ==> r[|joints|] == head
  {
    if before != after then joints + [head] else joints
  }

  /** p lies on the line the head runs along when it moves in direction d. */
  predicate InLine(p: Vec2, head: Vec2, d: Direction) {
    if IsHorizontal(d) then p.y == head.y else p.x == head.x
  }

  /** Laying the joint and moving the head keep the path axis-aligned, and
      leave the newest joint on the line the head now runs along. */
  lemma LayKeepsAxisPath(joints: seq<Vec2>, head: Vec2, before: Direction, after: Direction, next: Vec2)
    requires |joints| > 0 && AxisPath(joints + [head])
    requires InLine(Last(joints), head, before)
    requires InLine(head, next, after)
    ensures var laid := Lay(joints, head, before, after);
            |laid| > 0 && AxisPath(laid + [next]) && InLine(Last(laid), next, after)
  {
    if before != after {
      assert Lay(joints, head, before, after) == joints + [head];
      AxisPathAppend(joints + [head], next);
    } else {
      assert Lay(joints, head, before, after) == joints;
      AxisPathMoveHead(joints, head, next);
    }
  }
}
