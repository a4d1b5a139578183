/** The goal block: where it is placed, the four sides SnakeGame tests the
    head's movement against, and the box-overlap test of the earlier Game1.

    The goal position comes from two draws of System.Random.Next; the model
    takes the drawn numbers as parameters and states what Random.Next
    promises about them.
 */
module Goal {
  import opened Geometry
  import opened Polyline

  /** Edge length of a block (the snake's head and the goal are 6 x 6). */
  const BlockSize: real := 6.0

  /** Half a block: the goal's sides lie this far from its centre. */
  const HalfBlock: real := BlockSize / 2.0

  /** Size of the screen the goal is placed on. */
  datatype Arena = Arena(width: int, height: int)

  /** r is a value Random.Next(lo, hi) can return: lo <= r < hi, or lo itself
      when lo == hi.  When lo > hi Random.Next throws, so no r qualifies. */
  predicate RandomNext(lo: int, hi: int, r: int) {
    if lo < hi then lo <= r < hi else lo == hi && r == lo
  }

  /** The two draws RepositionGoal makes, for x and then for y. */
  predicate ValidDraw(arena: Arena, x: int, y: int) {
    RandomNext(0, arena.width - 6, x) && RandomNext(0, arena.height - 6, y)
  }

  /** The new goal position from the two draws. */
  function Place(arena: Arena, x: int, y: int): (p: Vec2)
    requires ValidDraw(arena, x, y)
    ensures p.x == p.x.Floor as real && p.y == p.y.Floor as real
    ensures 0.0 <= p.x && 0.0 <= p.y
    ensures arena.width > 6 ==> p.x < (arena.width - 6) as real
    ensures arena.height > 6 ==> p.y < (arena.height - 6) as real
    ensures arena.width == 6 ==> p.x == 0.0
    ensures arena.height == 6 ==> p.y == 0.0
  {
    Vec2(x as real, y as real)
  }

  /** Every whole-pixel position in [0, width - 6) x [0, height - 6) can be
      drawn. */
  lemma EveryCellCanBeDrawn(arena: Arena, x: int, y: int)
    requires 0 <= x < arena.width - 6 && 0 <= y < arena.height - 6
    ensures ValidDraw(arena, x, y)
    ensures Place(arena, x, y) == Vec2(x as real, y as real)
  {
  }

  /** No draw exists on a screen narrower or shorter than a block. */
  lemma TooSmallArenaHasNoDraw(arena: Arena, x: int, y: int)
    requires arena.width < 6 || arena.height < 6
    ensures !ValidDraw(arena, x, y)
  {
  }

  /** The goal square and its four sides as SnakeGame stores them. */
  datatype GoalBox = GoalBox(position: Vec2, left: Segment, top: Segment, right: Segment, bottom: Segment)

  /** The sides of the 6 x 6 square centred on position. */
  function Sides(position: Vec2): (b: GoalBox)
    ensures b.position == position
    ensures TypeOf(b.left) == Vertical && TypeOf(b.right) == Vertical
    ensures TypeOf(b.top) == Horizontal && TypeOf(b.bottom) == Horizontal
  {
    var upperLeft := Vec2(position.x - HalfBlock, position.y - HalfBlock);
    var upperRight := Vec2(position.x + HalfBlock, position.y - HalfBlock);
    var lowerLeft := Vec2(position.x - HalfBlock, position.y + HalfBlock);
    var lowerRight := Vec2(position.x + HalfBlock, position.y + HalfBlock);
    GoalBox(position,
            Segment(upperLeft, lowerLeft),
            Segment(upperLeft, upperRight),
            Segment(upperRight, lowerRight),
            Segment(lowerLeft, lowerRight))
  }

  /** q lies on the outline of the square of half-size HalfBlock centred on c. */
  predicate OnOutline(q: Vec2, c: Vec2) {
    Abs(q.x - c.x) <= HalfBlock && Abs(q.y - c.y) <= HalfBlock
    && (Abs(q.x - c.x) == HalfBlock || Abs(q.y - c.y) == HalfBlock)
  }

  /** The four sides cover exactly the outline of the square. */
  lemma SidesCoverOutline(position: Vec2, q: Vec2)
    ensures var b := Sides(position);
            OnSegment(q, b.left) || OnSegment(q, b.top) || OnSegment(q, b.right) || OnSegment(q, b.bottom)
            <==> OnOutline(q, position)
  {
    var b := Sides(position);
    OnVerticalSegment(q, b.left);
    OnVerticalSegment(q, b.right);
    OnHorizontalSegment(q, b.top);
    OnHorizontalSegment(q, b.bottom);
  }

  /** SnakeGame's goal test: the head's movement this tick against the left,
      right, bottom and (again) left side.  The top side is never tested. */
  predicate GoalHit(recentMovement: Segment, b: GoalBox): (hit: bool)
    ensures b == Sides(b.position) && TypeOf(recentMovement) == Vertical
            ==> (hit <==> SegmentsIntersect(recentMovement, b.bottom))
    ensures b == Sides(b.position) && TypeOf(recentMovement) == Horizontal
            ==> (hit <==> SegmentsIntersect(recentMovement, b.left) || SegmentsIntersect(recentMovement, b.right))
  {
    SegmentsIntersect(recentMovement, b.left)
    || SegmentsIntersect(recentMovement, b.right)
    || SegmentsIntersect(recentMovement, b.bottom)
    || SegmentsIntersect(recentMovement, b.left)
  }

  /** For an axis-aligned (or zero) movement the goal test fires exactly when
      the movement crosses a side across it: a vertical move only counts on
      the bottom side, a horizontal one only on the left and right sides. */
  lemma GoalHitIffCrossesTestedSide(m: Segment, position: Vec2)
    requires TypeOf(m) != Tilted
    ensures var b := Sides(position);
            GoalHit(m, b)
            <==> (TypeOf(m) != Vertical && (Touch(m, b.left) || Touch(m, b.right)))
                 || (TypeOf(m) != Horizontal && Touch(m, b.bottom))
  {
    var b := Sides(position);
    if TypeOf(m) != Vertical {
      IntersectIffTouch(m, b.left);
      IntersectIffTouch(m, b.right);
    } else {
      ParallelAxisSegmentsNeverIntersect(m, b.left);
      ParallelAxisSegmentsNeverIntersect(m, b.right);
    }
    if TypeOf(m) != Horizontal {
      IntersectIffTouch(m, b.bottom);
    } else {
      ParallelAxisSegmentsNeverIntersect(m, b.bottom);
    }
  }

  /** A head coming down through the top side and stopping inside the goal
      is not detected. */
  lemma EnteringThroughTopIsMissed(position: Vec2)
    ensures var b := Sides(position);
            var m := Segment(Vec2(position.x, position.y - 4.0), Vec2(position.x, position.y - 2.0));
            Touch(m, b.top) && !GoalHit(m, b)
  {
    var b := Sides(position);
    var m := Segment(Vec2(position.x, position.y - 4.0), Vec2(position.x, position.y - 2.0));
    var q := Vec2(position.x, position.y - HalfBlock);
    assert OnSegment(q, m) && OnSegment(q, b.top);
    GoalHitIffCrossesTestedSide(m, position);
    forall p | OnSegment(p, m)
      ensures !OnSegment(p, b.bottom)
    {
      OnVerticalSegment(p, m);
    }
  }

  /** Game1's goal test: the head's block overlaps the goal's block, edges
      included; that is, the two are at most a block apart in each
      coordinate. */
  function BoxHit(head: Vec2, goal: Vec2): (hit: bool)
    ensures hit <==> Abs(head.x - goal.x) <= BlockSize && Abs(head.y - goal.y) <= BlockSize
  {
    head.x <= goal.x + BlockSize && head.x + BlockSize >= goal.x
    && head.y <= goal.y + BlockSize && head.y + BlockSize >= goal.y
  }
}
