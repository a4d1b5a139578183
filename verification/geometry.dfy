/** The segment intersection kernel of the snake game (class LineSegment2).

    A segment is classified as Point, Vertical, Horizontal or Tilted by exact
    comparison of its endpoint deltas, and two segments are tested for
    intersection by a case split over the (unordered) pair of classes.  All
    range checks are inclusive.  Coordinates are exact reals.
 */
module Geometry {

  /** A 2D vector or position (XNA's Vector2). */
  datatype Vec2 = Vec2(x: real, y: real)

  /** A segment from point1 to point2; it may degenerate to a single point. */
  datatype Segment = Segment(point1: Vec2, point2: Vec2)

  datatype SegmentType = Vertical | Horizontal | Point | Tilted

  /** The ten unordered pairs of segment classes.  The source names the
      tilted/tilted pair Tilted; here it is Tilteds, because Tilted is
      already the segment class above. */
  datatype Relationship =
    | Verticals | Horizontals | Points | VerticalHorizontal
    | VerticalTilted | HorizontalTilted | VerticalPoint | HorizontalPoint
    | TiltedPoint | Tilteds

  function Sub(a: Vec2, b: Vec2): Vec2 { Vec2(a.x - b.x, a.y - b.y) }

  function Add(a: Vec2, b: Vec2): Vec2 { Vec2(a.x + b.x, a.y + b.y) }

  function Scale(v: Vec2, t: real): Vec2 { Vec2(v.x * t, v.y * t) }

  // ---------------------------------------------------------------------
  // Reference geometry, independent of the kernel's own helpers
  // ---------------------------------------------------------------------

  /** v lies in the closed interval spanned by a and b, in either order. */
  predicate Between(v: real, a: real, b: real) {
    (a <= v <= b) || (b <= v <= a)
  }

  /** Cross product of (point2 - point1) and (p - point1): zero iff p is on
      the line through s (when s is not a point). */
  function Cross(s: Segment, p: Vec2): real {
    (s.point2.x - s.point1.x) * (p.y - s.point1.y) - (s.point2.y - s.point1.y) * (p.x - s.point1.x)
  }

  /** p lies on the closed segment s. */
  predicate OnSegment(p: Vec2, s: Segment) {
    Cross(s, p) == 0.0 && Between(p.x, s.point1.x, s.point2.x) && Between(p.y, s.point1.y, s.point2.y)
  }

  /** The two closed segments share at least one point. */
  ghost predicate Touch(a: Segment, b: Segment) {
    exists p :: OnSegment(p, a) && OnSegment(p, b)
  }

  // ---------------------------------------------------------------------
  // Extremal endpoints (ties resolved as in the source)
  // ---------------------------------------------------------------------

  function PointWithGreatestX(s: Segment): (r: Vec2)
    ensures r == s.point1 || r == s.point2
    ensures r.x >= s.point1.x && r.x >= s.point2.x
    ensures s.point1.x == s.point2.x ==> r == s.point2
  {
    if s.point1.x > s.point2.x then s.point1 else s.point2
  }

  function PointWithLowestX(s: Segment): (r: Vec2)
    ensures r == s.point1 || r == s.point2
    ensures r.x <= s.point1.x && r.x <= s.point2.x
    ensures s.point1.x == s.point2.x ==> r == s.point1
  {
    if s.point2.x < s.point1.x then s.point2 else s.point1
  }

  function PointWithGreatestY(s: Segment): (r: Vec2)
    ensures r == s.point1 || r == s.point2
    ensures r.y >= s.point1.y && r.y >= s.point2.y
    ensures s.point1.y == s.point2.y ==> r == s.point1
  {
    if s.point2.y > s.point1.y then s.point2 else s.point1
  }

  function PointWithLowestY(s: Segment): (r: Vec2)
    ensures r == s.point1 || r == s.point2
    ensures r.y <= s.point1.y && r.y <= s.point2.y
    ensures s.point1.y == s.point2.y ==> r == s.point2
  {
    if s.point1.y < s.point2.y then s.point1 else s.point2
  }

  function LowestX(s: Segment): real { PointWithLowestX(s).x }

  function GreatestX(s: Segment): real { PointWithGreatestX(s).x }

  function LowestY(s: Segment): real { PointWithLowestY(s).y }

  function GreatestY(s: Segment): real { PointWithGreatestY(s).y }

  /** The closed coordinate ranges are well formed, are spanned by the two
      endpoints, and contain exactly the values between them. */
  lemma RangesSpanEndpoints(s: Segment, v: real)
    ensures LowestX(s) <= GreatestX(s) && LowestY(s) <= GreatestY(s)
    ensures (LowestX(s) == s.point1.x || LowestX(s) == s.point2.x)
         && (GreatestX(s) == s.point1.x || GreatestX(s) == s.point2.x)
    ensures (LowestY(s) == s.point1.y || LowestY(s) == s.point2.y)
         && (GreatestY(s) == s.point1.y || GreatestY(s) == s.point2.y)
    ensures (LowestX(s) <= v <= GreatestX(s)) <==> Between(v, s.point1.x, s.point2.x)
    ensures (LowestY(s) <= v <= GreatestY(s)) <==> Between(v, s.point1.y, s.point2.y)
  {
  }

  // ---------------------------------------------------------------------
  // Classification
  // ---------------------------------------------------------------------

  /** Exactly one class, by exact comparison of the deltas. */
  function TypeOf(s: Segment): (t: SegmentType)
    ensures t == Point <==> s.point1 == s.point2
    ensures t == Vertical <==> s.point1.x == s.point2.x && s.point1.y != s.point2.y
    ensures t == Horizontal <==> s.point1.y == s.point2.y && s.point1.x != s.point2.x
    ensures t == Tilted <==> s.point1.x != s.point2.x && s.point1.y != s.point2.y
  {
    var changeInX := s.point2.x - s.point1.x;
    var changeInY := s.point2.y - s.point1.y;
    if changeInX == 0.0 && changeInY == 0.0 then Point
    else if changeInX == 0.0 then Vertical
    else if changeInY == 0.0 then Horizontal
    else Tilted
  }

  /** How many of the two classes equal t. */
  function CountOf(ta: SegmentType, tb: SegmentType, t: SegmentType): nat {
    (if ta == t then 1 else 0) + (if tb == t then 1 else 0)
  }

  /** The classes a relationship stands for. */
  function Members(r: Relationship): multiset<SegmentType> {
    match r
    case Verticals => multiset{Vertical, Vertical}
    case Horizontals => multiset{Horizontal, Horizontal}
    case Points => multiset{Point, Point}
    case VerticalHorizontal => multiset{Vertical, Horizontal}
    case VerticalTilted => multiset{Vertical, Tilted}
    case HorizontalTilted => multiset{Horizontal, Tilted}
    case VerticalPoint => multiset{Vertical, Point}
    case HorizontalPoint => multiset{Horizontal, Point}
    case TiltedPoint => multiset{Tilted, Point}
    case Tilteds => multiset{Tilted, Tilted}
  }

  /** The relationship chosen from the per-class index lists: it names
      exactly the two classes, in whichever order they were given. */
  function RelationshipOf(ta: SegmentType, tb: SegmentType): (r: Relationship)
    ensures Members(r) == multiset{ta, tb}
  {
    var points := CountOf(ta, tb, Point);
    var verticals := CountOf(ta, tb, Vertical);
    var horizontals := CountOf(ta, tb, Horizontal);
    if points >= 1 then
      if points == 2 then Points
      else if verticals == 1 then VerticalPoint
      else if horizontals == 1 then HorizontalPoint
      else TiltedPoint
    else if verticals >= 1 then
      if verticals == 2 then Verticals
      else if horizontals == 1 then VerticalHorizontal
      else VerticalTilted
    else if horizontals >= 1 then
      if horizontals == 2 then Horizontals
      else HorizontalTilted
    else Tilteds
  }

  /** The first of the two segments whose class is t (index list element 0). */
  function Pick(a: Segment, b: Segment, t: SegmentType): Segment {
    if TypeOf(a) == t then a else b
  }

  // ---------------------------------------------------------------------
  // Line evaluation
  // ---------------------------------------------------------------------

  /** y on the line through a non-vertical segment at x = n. */
  function YAtXEqualsNInLine(line: Segment, n: real): (y: real)
    requires line.point2.x != line.point1.x
    ensures (line.point2.x - line.point1.x) * (y - line.point1.y)
         == (line.point2.y - line.point1.y) * (n - line.point1.x)
  {
    ((line.point2.y - line.point1.y) / (line.point2.x - line.point1.x)) * (n - line.point1.x) + line.point1.y
  }

  /** x on the line through a non-horizontal segment at y = n. */
  function XAtYEqualsNInLine(line: Segment, n: real): (x: real)
    requires line.point2.y != line.point1.y
    ensures (line.point2.y - line.point1.y) * (x - line.point1.x)
         == (line.point2.x - line.point1.x) * (n - line.point1.y)
  {
    ((line.point2.x - line.point1.x) / (line.point2.y - line.point1.y)) * (n - line.point1.y) + line.point1.x
  }

  /** The y of line1 where both lines have the same x.  The slope term j
      subtracts line1.point2.Y from itself, so it is always zero, and so is
      the result, whatever the two lines are. */
  function Line1YWhereXTheSameInBothLines(line1: Segment, line2: Segment): (y: real)
    requires line1.point2.x != line1.point1.x
    requires line2.point2.y != line2.point1.y
    ensures y == 0.0
  {
    var j := (line1.point2.y - line1.point2.y) / (line1.point2.x - line1.point1.x);
    var k := (line2.point2.x - line2.point1.x) / (line2.point2.y - line2.point1.y);
    var l := line2.point1.x;
    var q := line2.point1.y;
    (j * (q - (k * l))) / (1.0 - (j * k))
  }

  // ---------------------------------------------------------------------
  // The intersection test
  // ---------------------------------------------------------------------

  function SegmentsIntersect(segment1: Segment, segment2: Segment): (hit: bool)
    ensures TypeOf(segment1) == TypeOf(segment2) && (TypeOf(segment1) == Vertical || TypeOf(segment1) == Horizontal)
            ==> !hit
    ensures TypeOf(segment1) == Point && TypeOf(segment2) == Point ==> (hit <==> segment1.point1 == segment2.point1)
  {
    match RelationshipOf(TypeOf(segment1), TypeOf(segment2))
    case Points =>
      segment1.point1.x == segment2.point1.x && segment1.point1.y == segment2.point1.y
    case Verticals => false
    case Horizontals => false
    case VerticalHorizontal =>
      var vertical := Pick(segment1, segment2, Vertical);
      var horizontal := Pick(segment1, segment2, Horizontal);
      vertical.point1.x >= LowestX(horizontal) && vertical.point1.x <= GreatestX(horizontal)
      && horizontal.point1.y >= LowestY(vertical) && horizontal.point1.y <= GreatestY(vertical)
    case VerticalPoint =>
      var vertical := Pick(segment1, segment2, Vertical);
      var point := Pick(segment1, segment2, Point);
      point.point1.x == vertical.point1.x
      && point.point1.y >= LowestY(vertical) && point.point1.y <= GreatestY(vertical)
    case HorizontalPoint =>
      var horizontal := Pick(segment1, segment2, Horizontal);
      var point := Pick(segment1, segment2, Point);
      point.point1.y == horizontal.point1.y
      && point.point1.x >= LowestX(horizontal) && point.point1.x <= GreatestX(horizontal)
    case VerticalTilted =>
      var vertical := Pick(segment1, segment2, Vertical);
      var tilted := Pick(segment1, segment2, Tilted);
      if vertical.point1.x >= LowestX(tilted) && vertical.point1.x <= GreatestX(tilted) then
        var y := YAtXEqualsNInLine(tilted, vertical.point1.x);
        y >= LowestY(vertical) && y <= GreatestY(vertical)
      else false
    case HorizontalTilted =>
      var horizontal := Pick(segment1, segment2, Horizontal);
      var tilted := Pick(segment1, segment2, Tilted);
      if horizontal.point1.y >= LowestY(tilted) && horizontal.point1.y <= GreatestY(tilted) then
        var x := XAtYEqualsNInLine(tilted, horizontal.point1.y);
        x >= LowestX(horizontal) && x <= GreatestX(horizontal)
      else false
    case TiltedPoint =>
      var point := Pick(segment1, segment2, Point);
      var tilted := Pick(segment1, segment2, Tilted);
      YAtXEqualsNInLine(tilted, point.point1.x) == point.point1.y
    case Tilteds =>
      var y := Line1YWhereXTheSameInBothLines(segment1, segment2);
      y >= LowestY(segment1) && y <= GreatestY(segment1)
  }

  // ---------------------------------------------------------------------
  // What the test decides, against the reference geometry
  // ---------------------------------------------------------------------

  /** A product with a non-zero factor vanishes only if the other factor does. */
  lemma ZeroProduct(a: real, b: real)
    requires a != 0.0
    ensures a * b == 0.0 <==> b == 0.0
    ensures -(a * b) == 0.0 <==> b == 0.0
  {
  }

  /** Points on a degenerate segment are its one point. */
  lemma OnPointSegment(p: Vec2, s: Segment)
    requires TypeOf(s) == Point
    ensures OnSegment(p, s) <==> p == s.point1
  {
  }

  /** Points on a vertical segment: its x, within its closed y-range. */
  lemma OnVerticalSegment(p: Vec2, s: Segment)
    requires TypeOf(s) == Vertical
    ensures OnSegment(p, s) <==> p.x == s.point1.x && LowestY(s) <= p.y <= GreatestY(s)
  {
    var dy := s.point2.y - s.point1.y;
    assert Cross(s, p) == -(dy * (p.x - s.point1.x));
    if Cross(s, p) == 0.0 {
      ZeroProduct(dy, p.x - s.point1.x);
    }
  }

  /** Points on a horizontal segment: its y, within its closed x-range. */
  lemma OnHorizontalSegment(p: Vec2, s: Segment)
    requires TypeOf(s) == Horizontal
    ensures OnSegment(p, s) <==> p.y == s.point1.y && LowestX(s) <= p.x <= GreatestX(s)
  {
    var dx := s.point2.x - s.point1.x;
    assert Cross(s, p) == dx * (p.y - s.point1.y);
    if Cross(s, p) == 0.0 {
      ZeroProduct(dx, p.y - s.point1.y);
    }
  }

  /** On the line a + t * d (d != 0), u lies between u1 and u1 + du whenever
      the parameter coordinate lies between its ends. */
  lemma LerpStaysBetween(s1: real, s2: real, u1: real, u2: real, sv: real, uv: real)
    requires s1 != s2
    requires (s2 - s1) * (uv - u1) == (u2 - u1) * (sv - s1)
    requires Between(sv, s1, s2)
    ensures Between(uv, u1, u2)
  {
    var ds := s2 - s1;
    var du := u2 - u1;
    var w := sv - s1;
    var t := w / ds;
    assert 0.0 <= t <= 1.0 by {
      if ds > 0.0 {
        assert 0.0 <= w <= ds;
      } else {
        assert ds <= w <= 0.0;
      }
    }
    assert uv - u1 == du * t by {
      assert ds * (uv - u1) == ds * (du * t);
    }
    if du >= 0.0 {
      assert 0.0 <= du * t <= du;
    } else {
      assert du <= du * t <= 0.0;
    }
  }

  /** Points on a tilted segment, read off by x: within its x-range and on
      the line's y at that x. */
  lemma OnTiltedSegmentByX(p: Vec2, s: Segment)
    requires TypeOf(s) == Tilted
    ensures OnSegment(p, s) <==>
      LowestX(s) <= p.x <= GreatestX(s) && p.y == YAtXEqualsNInLine(s, p.x)
  {
    var dx := s.point2.x - s.point1.x;
    var y := YAtXEqualsNInLine(s, p.x);
    assert Cross(s, p) == dx * (p.y - y) by {
      assert dx * (y - s.point1.y) == (s.point2.y - s.point1.y) * (p.x - s.point1.x);
    }
    if Cross(s, p) == 0.0 {
      ZeroProduct(dx, p.y - y);
    }
    if Between(p.x, s.point1.x, s.point2.x) && p.y == y {
      LerpStaysBetween(s.point1.x, s.point2.x, s.point1.y, s.point2.y, p.x, p.y);
    }
  }

  /** Points on a tilted segment, read off by y: within its y-range and on
      the line's x at that y. */
  lemma OnTiltedSegmentByY(p: Vec2, s: Segment)
    requires TypeOf(s) == Tilted
    ensures OnSegment(p, s) <==>
      LowestY(s) <= p.y <= GreatestY(s) && p.x == XAtYEqualsNInLine(s, p.y)
  {
    var dy := s.point2.y - s.point1.y;
    var x := XAtYEqualsNInLine(s, p.y);
    assert Cross(s, p) == -(dy * (p.x - x)) by {
      assert dy * (x - s.point1.x) == (s.point2.x - s.point1.x) * (p.y - s.point1.y);
    }
    if Cross(s, p) == 0.0 {
      ZeroProduct(dy, p.x - x);
    }
    if Between(p.y, s.point1.y, s.point2.y) && p.x == x {
      LerpStaysBetween(s.point1.y, s.point2.y, s.point1.x, s.point2.x, p.y, p.x);
    }
  }

  lemma TouchSymmetric(a: Segment, b: Segment)
    ensures Touch(a, b) <==> Touch(b, a)
  {
  }

  lemma TouchPointPoint(a: Segment, b: Segment)
    requires TypeOf(a) == Point && TypeOf(b) == Point
    ensures Touch(a, b) <==> a.point1 == b.point1
  {
    if a.point1 == b.point1 {
      assert OnSegment(a.point1, a) && OnSegment(a.point1, b);
    }
    if Touch(a, b) {
      var p :| OnSegment(p, a) && OnSegment(p, b);
      OnPointSegment(p, a);
      OnPointSegment(p, b);
    }
  }

  lemma TouchVerticalPoint(v: Segment, q: Segment)
    requires TypeOf(v) == Vertical && TypeOf(q) == Point
    ensures Touch(v, q) <==>
      q.point1.x == v.point1.x && LowestY(v) <= q.point1.y <= GreatestY(v)
  {
    OnVerticalSegment(q.point1, v);
    OnPointSegment(q.point1, q);
    if Touch(v, q) {
      var p :| OnSegment(p, v) && OnSegment(p, q);
      OnPointSegment(p, q);
    }
  }

  lemma TouchHorizontalPoint(h: Segment, q: Segment)
    requires TypeOf(h) == Horizontal && TypeOf(q) == Point
    ensures Touch(h, q) <==>
      q.point1.y == h.point1.y && LowestX(h) <= q.point1.x <= GreatestX(h)
  {
    OnHorizontalSegment(q.point1, h);
    OnPointSegment(q.point1, q);
    if Touch(h, q) {
      var p :| OnSegment(p, h) && OnSegment(p, q);
      OnPointSegment(p, q);
    }
  }

  lemma TouchVerticalHorizontal(v: Segment, h: Segment)
    requires TypeOf(v) == Vertical && TypeOf(h) == Horizontal
    ensures Touch(v, h) <==>
      LowestX(h) <= v.point1.x <= GreatestX(h) && LowestY(v) <= h.point1.y <= GreatestY(v)
  {
    var c := Vec2(v.point1.x, h.point1.y);
    OnVerticalSegment(c, v);
    OnHorizontalSegment(c, h);
    if Touch(v, h) {
      var p :| OnSegment(p, v) && OnSegment(p, h);
      OnVerticalSegment(p, v);
      OnHorizontalSegment(p, h);
    }
  }

  lemma TouchVerticalTilted(v: Segment, t: Segment)
    requires TypeOf(v) == Vertical && TypeOf(t) == Tilted
    ensures Touch(v, t) <==>
      LowestX(t) <= v.point1.x <= GreatestX(t)
      && LowestY(v) <= YAtXEqualsNInLine(t, v.point1.x) <= GreatestY(v)
  {
    var c := Vec2(v.point1.x, YAtXEqualsNInLine(t, v.point1.x));
    OnVerticalSegment(c, v);
    OnTiltedSegmentByX(c, t);
    if Touch(v, t) {
      var p :| OnSegment(p, v) && OnSegment(p, t);
      OnVerticalSegment(p, v);
      OnTiltedSegmentByX(p, t);
    }
  }

  lemma TouchHorizontalTilted(h: Segment, t: Segment)
    requires TypeOf(h) == Horizontal && TypeOf(t) == Tilted
    ensures Touch(h, t) <==>
      LowestY(t) <= h.point1.y <= GreatestY(t)
      && LowestX(h) <= XAtYEqualsNInLine(t, h.point1.y) <= GreatestX(h)
  {
    var c := Vec2(XAtYEqualsNInLine(t, h.point1.y), h.point1.y);
    OnHorizontalSegment(c, h);
    OnTiltedSegmentByY(c, t);
    if Touch(h, t) {
      var p :| OnSegment(p, h) && OnSegment(p, t);
      OnHorizontalSegment(p, h);
      OnTiltedSegmentByY(p, t);
    }
  }

  /** For every pair other than two verticals, two horizontals, two tilted
      segments, or a point and a tilted segment, the test is exact: it
      answers true iff the closed segments share a point, touching ends
      included. */
  lemma IntersectIffTouch(a: Segment, b: Segment)
    requires !(TypeOf(a) == TypeOf(b) && TypeOf(a) != Point)
    requires !(TypeOf(a) == Point && TypeOf(b) == Tilted)
    requires !(TypeOf(a) == Tilted && TypeOf(b) == Point)
    ensures SegmentsIntersect(a, b) <==> Touch(a, b)
  {
    TouchSymmetric(a, b);
    match (TypeOf(a), TypeOf(b))
    case (Point, Point) => TouchPointPoint(a, b);
    case (Vertical, Point) => TouchVerticalPoint(a, b);
    case (Point, Vertical) => TouchVerticalPoint(b, a);
    case (Horizontal, Point) => TouchHorizontalPoint(a, b);
    case (Point, Horizontal) => TouchHorizontalPoint(b, a);
    case (Vertical, Horizontal) => TouchVerticalHorizontal(a, b);
    case (Horizontal, Vertical) => TouchVerticalHorizontal(b, a);
    case (Vertical, Tilted) => TouchVerticalTilted(a, b);
    case (Tilted, Vertical) => TouchVerticalTilted(b, a);
    case (Horizontal, Tilted) => TouchHorizontalTilted(a, b);
    case (Tilted, Horizontal) => TouchHorizontalTilted(b, a);
  }

  /** Two verticals, or two horizontals, never intersect. */
  lemma ParallelAxisSegmentsNeverIntersect(a: Segment, b: Segment)
    requires TypeOf(a) == TypeOf(b)
    requires TypeOf(a) == Vertical || TypeOf(a) == Horizontal
    ensures !SegmentsIntersect(a, b)
  {
  }

  /** ... even when they are collinear and overlap. */
  lemma OverlappingVerticalsAreMissed(a: Segment, b: Segment)
    requires TypeOf(a) == Vertical && TypeOf(b) == Vertical
    requires a.point1.x == b.point1.x && LowestY(b) <= a.point1.y <= GreatestY(b)
    ensures Touch(a, b) && !SegmentsIntersect(a, b)
  {
    OnVerticalSegment(a.point1, a);
    OnVerticalSegment(a.point1, b);
  }

  /** A point against a tilted segment is tested against the infinite line
      through the segment: no range check. */
  lemma PointVsTiltedIsOnLine(a: Segment, b: Segment)
    requires (TypeOf(a) == Point && TypeOf(b) == Tilted) || (TypeOf(a) == Tilted && TypeOf(b) == Point)
    ensures var q := Pick(a, b, Point);
            var t := Pick(a, b, Tilted);
            SegmentsIntersect(a, b) <==> Cross(t, q.point1) == 0.0
  {
    var q := Pick(a, b, Point);
    var t := Pick(a, b, Tilted);
    var y := YAtXEqualsNInLine(t, q.point1.x);
    var dx := t.point2.x - t.point1.x;
    assert Cross(t, q.point1) == dx * (q.point1.y - y) by {
      assert dx * (y - t.point1.y) == (t.point2.y - t.point1.y) * (q.point1.x - t.point1.x);
    }
    ZeroProduct(dx, q.point1.y - y);
  }

  /** So a point beyond the end of a tilted segment is reported as hitting it. */
  lemma PointBeyondTiltedEndHits()
    ensures var t := Segment(Vec2(0.0, 0.0), Vec2(1.0, 1.0));
            var q := Segment(Vec2(2.0, 2.0), Vec2(2.0, 2.0));
            SegmentsIntersect(q, t) && !Touch(q, t)
  {
    var t := Segment(Vec2(0.0, 0.0), Vec2(1.0, 1.0));
    var q := Segment(Vec2(2.0, 2.0), Vec2(2.0, 2.0));
    PointVsTiltedIsOnLine(q, t);
    forall p | OnSegment(p, q) ensures !OnSegment(p, t) {
      OnPointSegment(p, q);
    }
  }

  /** Two tilted segments: the computed y is always 0, so the answer is
      whether the first segment's closed y-range contains 0, whatever the
      second segment is. */
  lemma TiltedPairOnlyAsksFirstAboutZero(a: Segment, b: Segment)
    requires TypeOf(a) == Tilted && TypeOf(b) == Tilted
    ensures SegmentsIntersect(a, b) <==> LowestY(a) <= 0.0 <= GreatestY(a)
  {
  }

  /** Crossing tilted segments away from y = 0 are missed. */
  lemma TiltedCrossingMissed()
    ensures var a := Segment(Vec2(1.0, 1.0), Vec2(3.0, 3.0));
            var b := Segment(Vec2(1.0, 3.0), Vec2(3.0, 1.0));
            Touch(a, b) && !SegmentsIntersect(a, b)
  {
    var a := Segment(Vec2(1.0, 1.0), Vec2(3.0, 3.0));
    var b := Segment(Vec2(1.0, 3.0), Vec2(3.0, 1.0));
    var c := Vec2(2.0, 2.0);
    assert OnSegment(c, a) && OnSegment(c, b);
    TiltedPairOnlyAsksFirstAboutZero(a, b);
  }

  /** Disjoint tilted segments are reported when the first straddles y = 0,
      and swapping the arguments changes the answer. */
  lemma TiltedDisjointHitAndAsymmetric()
    ensures var a := Segment(Vec2(0.0, -1.0), Vec2(1.0, 1.0));
            var b := Segment(Vec2(10.0, 10.0), Vec2(11.0, 12.0));
            !Touch(a, b) && SegmentsIntersect(a, b) && !SegmentsIntersect(b, a)
  {
    var a := Segment(Vec2(0.0, -1.0), Vec2(1.0, 1.0));
    var b := Segment(Vec2(10.0, 10.0), Vec2(11.0, 12.0));
    TiltedPairOnlyAsksFirstAboutZero(a, b);
    TiltedPairOnlyAsksFirstAboutZero(b, a);
  }

  /** Apart from two tilted segments, roles come from the classes and not
      from the argument order, so the test is symmetric. */
  lemma IntersectSymmetricUnlessBothTilted(a: Segment, b: Segment)
    requires !(TypeOf(a) == Tilted && TypeOf(b) == Tilted)
    ensures SegmentsIntersect(a, b) == SegmentsIntersect(b, a)
  {
    if TypeOf(a) == TypeOf(b) {
      assert RelationshipOf(TypeOf(a), TypeOf(b)) in {Points, Verticals, Horizontals};
    } else {
      MixedClassesSymmetric(a, b);
    }
  }

  /** Two segments of different classes: each is picked for its own class
      whichever argument it is. */
  lemma MixedClassesSymmetric(a: Segment, b: Segment)
    requires TypeOf(a) != TypeOf(b)
    ensures SegmentsIntersect(a, b) == SegmentsIntersect(b, a)
  {
    RelationshipSymmetric(TypeOf(a), TypeOf(b));
    assert Pick(a, b, TypeOf(a)) == a == Pick(b, a, TypeOf(a));
    assert Pick(a, b, TypeOf(b)) == b == Pick(b, a, TypeOf(b));
  }

  /** The relationship does not depend on the order of the two classes. */
  lemma RelationshipSymmetric(ta: SegmentType, tb: SegmentType)
    ensures RelationshipOf(ta, tb) == RelationshipOf(tb, ta)
  {
  }
}
