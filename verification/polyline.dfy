/** The snake's body: the joint list behind the head, and the tail-trim walk
    that keeps the head-to-tail path at the snake's length.

    Joints are stored oldest first; the path runs joints[0], ..., joints[n-1],
    head.  Every edge of a snake path is axis-aligned, so the Euclidean length
    of an edge, which the game computes with Vector2.Length, equals its
    Manhattan length |dx| + |dy| (see AlignedNormIsEuclidean); the model uses
    the latter and needs no square root.
 */
module Polyline {
  import opened Geometry

  function Abs(r: real): real { if r < 0.0 then -r else r }

  /** Length of a vector, |dx| + |dy|. */
  function Norm(v: Vec2): (n: real)
    ensures n >= 0.0
  {
    Abs(v.x) + Abs(v.y)
  }

  /** Length of the edge between p and q (Length of q - p). */
  function Dist(p: Vec2, q: Vec2): real { Norm(Sub(q, p)) }

  /** p and q share a coordinate, so the edge between them is vertical,
      horizontal or empty. */
  predicate Aligned(p: Vec2, q: Vec2) { p.x == q.x || p.y == q.y }

  /** On an axis-aligned vector the model's length is the Euclidean one:
      its square is dx^2 + dy^2. */
  lemma AlignedNormIsEuclidean(v: Vec2)
    requires v.x == 0.0 || v.y == 0.0
    ensures Norm(v) * Norm(v) == v.x * v.x + v.y * v.y
  {
  }

  lemma AbsScale(a: real, t: real)
    requires t >= 0.0
    ensures Abs(a * t) == Abs(a) * t
  {
    if a >= 0.0 {
      assert a * t >= 0.0;
    } else {
      assert a * t <= 0.0;
    }
  }

  lemma AbsSumScale(a: real, b: real, t: real)
    requires t >= 0.0
    ensures Abs(a * t) + Abs(b * t) == (Abs(a) + Abs(b)) * t
  {
    AbsScale(a, t);
    AbsScale(b, t);
  }

  lemma NormScale(v: Vec2, t: real)
    requires t >= 0.0
    ensures Norm(Scale(v, t)) == Norm(v) * t
  {
    var s := Scale(v, t);
    assert s.x == v.x * t;
    assert s.y == v.y * t;
    assert Norm(s) == Abs(v.x * t) + Abs(v.y * t);
    AbsSumScale(v.x, v.y, t);
  }

  lemma AbsDiv(a: real, n: real)
    requires n > 0.0
    ensures Abs(a / n) == Abs(a) / n
  {
    if a >= 0.0 {
      assert a / n >= 0.0;
    } else {
      assert a / n <= 0.0;
    }
  }

  lemma SumDiv(a: real, b: real, n: real)
    requires n > 0.0
    requires a + b == n
    ensures a / n + b / n == 1.0
  {
  }

  lemma DivMul(a: real, n: real)
    requires n != 0.0
    ensures (a / n) * n == a
  {
  }

  /** Vector2.Normalize: the unit vector in the direction of v. */
  function Normalize(v: Vec2): (u: Vec2)
    requires Norm(v) != 0.0
    ensures Norm(u) == 1.0
    ensures Scale(u, Norm(v)) == v
  {
    var n := Norm(v);
    var u := Vec2(v.x / n, v.y / n);
    AbsDiv(v.x, n);
    AbsDiv(v.y, n);
    SumDiv(Abs(v.x), Abs(v.y), n);
    assert Norm(u) == Abs(v.x) / n + Abs(v.y) / n;
    DivMul(v.x, n);
    DivMul(v.y, n);
    assert Scale(u, n).x == v.x;
    assert Scale(u, n).y == v.y;
    u
  }

  /** The oldest joint p, moved towards its newer neighbour q by amount
      (the normalised edge vector scaled by the overflow). */
  function Slide(p: Vec2, q: Vec2, amount: real): (r: Vec2)
    requires Dist(p, q) != 0.0
    requires 0.0 <= amount <= Dist(p, q)
    ensures Dist(r, q) == Dist(p, q) - amount
    ensures OnSegment(r, Segment(p, q))
    ensures p.x == q.x ==> r.x == q.x
    ensures p.y == q.y ==> r.y == q.y
  {
    SlideDistance(p, q, amount);
    SlideOnSegment(p, q, amount);
    SlideKeepsAxis(p, q, amount);
    Add(p, Scale(Normalize(Sub(q, p)), amount))
  }

  lemma AddBack(p: Vec2, q: Vec2)
    ensures Add(p, Sub(q, p)) == q
  {
    assert Add(p, Sub(q, p)).x == q.x;
    assert Add(p, Sub(q, p)).y == q.y;
  }

  lemma SlideDistance(p: Vec2, q: Vec2, amount: real)
    requires Dist(p, q) != 0.0
    requires 0.0 <= amount <= Dist(p, q)
    ensures Dist(Add(p, Scale(Normalize(Sub(q, p)), amount)), q) == Dist(p, q) - amount
  {
    ScaleNormalized(Sub(q, p), amount);
    LerpDistanceTo(p, q, amount, amount / Norm(Sub(q, p)));
  }

  lemma LerpDistanceTo(p: Vec2, q: Vec2, amount: real, t: real)
    requires Dist(p, q) != 0.0
    requires 0.0 <= amount <= Dist(p, q)
    requires t == amount / Dist(p, q)
    ensures Dist(Add(p, Scale(Sub(q, p), t)), q) == Dist(p, q) - amount
  {
    AddBack(p, q);
    DivideWithin(amount, Norm(Sub(q, p)), t);
    LerpDistance(p, Sub(q, p), t);
  }

  lemma SlideOnSegment(p: Vec2, q: Vec2, amount: real)
    requires Dist(p, q) != 0.0
    requires 0.0 <= amount <= Dist(p, q)
    ensures OnSegment(Add(p, Scale(Normalize(Sub(q, p)), amount)), Segment(p, q))
  {
    ScaleNormalized(Sub(q, p), amount);
    AddBack(p, q);
    DivideWithin(amount, Norm(Sub(q, p)), amount / Norm(Sub(q, p)));
    LerpOnSegment(p, Sub(q, p), amount / Norm(Sub(q, p)));
  }

  lemma SlideKeepsAxis(p: Vec2, q: Vec2, amount: real)
    requires Dist(p, q) != 0.0
    ensures p.x == q.x ==> Add(p, Scale(Normalize(Sub(q, p)), amount)).x == q.x
    ensures p.y == q.y ==> Add(p, Scale(Normalize(Sub(q, p)), amount)).y == q.y
  {
    ScaleNormalized(Sub(q, p), amount);
    AddBack(p, q);
    LerpKeepsAxis(p, Sub(q, p), amount / Norm(Sub(q, p)));
  }

  lemma ScaleNormalized(v: Vec2, m: real)
    requires Norm(v) != 0.0
    ensures Scale(Normalize(v), m) == Scale(v, m / Norm(v))
  {
    var n := Norm(v);
    var u := Normalize(v);
    assert u.x == v.x / n;
    assert u.y == v.y / n;
    DivSwap(v.x, n, m);
    DivSwap(v.y, n, m);
    assert Scale(u, m).x == Scale(v, m / n).x;
    assert Scale(u, m).y == Scale(v, m / n).y;
  }

  lemma DivSwap(a: real, n: real, m: real)
    requires n != 0.0
    ensures (a / n) * m == a * (m / n)
  {
  }

  lemma DivideWithin(m: real, n: real, t: real)
    requires 0.0 <= m <= n && n != 0.0
    requires t == m / n
    ensures 0.0 <= t <= 1.0
    ensures n * (1.0 - t) == n - m
  {
  }

  lemma AbsShrink(a: real, t: real)
    requires 0.0 <= t <= 1.0
    ensures Abs(a - a * t) == Abs(a) * (1.0 - t)
  {
    if a >= 0.0 {
      assert a * t <= a;
    } else {
      assert a * t >= a;
    }
  }

  lemma AbsSumShrink(a: real, b: real, t: real)
    requires 0.0 <= t <= 1.0
    ensures Abs(a - a * t) + Abs(b - b * t) == (Abs(a) + Abs(b)) * (1.0 - t)
  {
    AbsShrink(a, t);
    AbsShrink(b, t);
  }

  lemma LerpDifference(p: Vec2, v: Vec2, t: real)
    ensures Sub(Add(p, v), Add(p, Scale(v, t))) == Vec2(v.x - v.x * t, v.y - v.y * t)
  {
    var d := Sub(Add(p, v), Add(p, Scale(v, t)));
    assert d.x == v.x - v.x * t;
    assert d.y == v.y - v.y * t;
  }

  /** The point p + t * v, for t in [0, 1], is at distance (1 - t) * |v|
      from p + v. */
  lemma LerpDistance(p: Vec2, v: Vec2, t: real)
    requires 0.0 <= t <= 1.0
    ensures Dist(Add(p, Scale(v, t)), Add(p, v)) == Norm(v) * (1.0 - t)
  {
    LerpDifference(p, v, t);
    AbsSumShrink(v.x, v.y, t);
  }

  lemma CrossOfScaled(a: real, b: real, t: real)
    ensures a * (b * t) - b * (a * t) == 0.0
  {
  }

  /** x = a + d * t with t in [0, 1] lies between a and b = a + d. */
  lemma Lerp(a: real, d: real, t: real, x: real, b: real)
    requires 0.0 <= t <= 1.0
    requires x == a + d * t && b == a + d
    ensures Between(x, a, b)
  {
    if d >= 0.0 {
      assert 0.0 <= d * t <= d;
    } else {
      assert d <= d * t <= 0.0;
    }
  }

  /** The cross product of v and t * v is zero. */
  lemma CrossOfLerp(p: Vec2, v: Vec2, t: real, r: Vec2, q: Vec2)
    requires r == Add(p, Scale(v, t)) && q == Add(p, v)
    ensures Cross(Segment(p, q), r) == 0.0
  {
    assert q.x - p.x == v.x && q.y - p.y == v.y;
    assert r.x - p.x == v.x * t && r.y - p.y == v.y * t;
    CrossOfScaled(v.x, v.y, t);
  }

  /** The point p + t * v, for t in [0, 1], lies on the segment from p to
      p + v. */
  lemma LerpOnSegment(p: Vec2, v: Vec2, t: real)
    requires 0.0 <= t <= 1.0
    ensures OnSegment(Add(p, Scale(v, t)), Segment(p, Add(p, v)))
  {
    var r := Add(p, Scale(v, t));
    var q := Add(p, v);
    CrossOfLerp(p, v, t, r, q);
    Lerp(p.x, v.x, t, r.x, q.x);
    Lerp(p.y, v.y, t, r.y, q.y);
  }

  lemma LerpKeepsAxis(p: Vec2, v: Vec2, t: real)
    ensures v.x == 0.0 ==> Add(p, Scale(v, t)).x == Add(p, v).x
    ensures v.y == 0.0 ==> Add(p, Scale(v, t)).y == Add(p, v).y
  {
  }

  /** Length of a path: the sum of its edge lengths. */
  function Len(path: seq<Vec2>): (r: real)
    ensures r >= 0.0
    decreases |path|
  {
    if |path| <= 1 then 0.0 else Dist(path[0], path[1]) + Len(path[1..])
  }

  /** Length from the head back to the oldest joint. */
  function PathLength(joints: seq<Vec2>, head: Vec2): real {
    Len(joints + [head])
  }

  /** The newest point of a non-empty path. */
  function Last(path: seq<Vec2>): Vec2
    requires |path| > 0
  {
    path[|path| - 1]
  }

  /** Every edge of the path is axis-aligned. */
  predicate AxisPath(path: seq<Vec2>) {
    forall k :: 0 <= k < |path| - 1 ==> Aligned(path[k], path[k + 1])
  }

  /** A path stays axis-aligned when a point aligned with its last point is
      appended. */
  lemma AxisPathAppend(path: seq<Vec2>, p: Vec2)
    requires AxisPath(path)
    requires |path| > 0 && Aligned(path[|path| - 1], p)
    ensures AxisPath(path + [p])
  {
    forall k | 0 <= k < |path + [p]| - 1
      ensures Aligned((path + [p])[k], (path + [p])[k + 1])
    {
      if k < |path| - 1 {
        assert (path + [p])[k + 1] == path[k + 1];
      }
    }
  }

  /** The head can move to any point aligned with the newest joint without
      breaking the axis alignment of the path. */
  lemma AxisPathMoveHead(joints: seq<Vec2>, head: Vec2, next: Vec2)
    requires AxisPath(joints + [head])
    requires |joints| > 0 && Aligned(joints[|joints| - 1], next)
    ensures AxisPath(joints + [next])
  {
    forall k | 0 <= k < |joints + [next]| - 1
      ensures Aligned((joints + [next])[k], (joints + [next])[k + 1])
    {
      if k < |joints| - 1 {
        assert (joints + [next])[k] == (joints + [head])[k];
        assert (joints + [next])[k + 1] == (joints + [head])[k + 1];
      }
    }
  }

  /** A single joint behind the head: the path is the one edge between them. */
  lemma PathLengthOfOneJoint(joint: Vec2, head: Vec2)
    ensures PathLength([joint], head) == Dist(joint, head)
  {
    var path := [joint] + [head];
    assert path[0] == joint && path[1] == head && path[1..] == [head];
    assert Len(path[1..]) == 0.0;
  }

  lemma LenStep(path: seq<Vec2>, i: int)
    requires 0 <= i < |path| - 1
    ensures Len(path[i..]) == Dist(path[i], path[i + 1]) + Len(path[i + 1..])
  {
    assert path[i..][1..] == path[i + 1..];
  }

  /** Dropping older points never makes the remaining path longer. */
  lemma {:induction false} LenSuffixMonotone(path: seq<Vec2>, i: int, j: int)
    requires 0 <= i <= j <= |path|
    ensures Len(path[j..]) <= Len(path[i..])
    decreases j - i
  {
    if i < j {
      LenSuffixMonotone(path, i + 1, j);
      if i < |path| - 1 {
        LenStep(path, i);
      } else {
        assert |path[i..]| <= 1 && |path[i + 1..]| <= 1;
      }
    }
  }

  /** The largest index c <= k whose suffix path is longer than limit, or -1:
      the joint at which the trim walk stops. */
  function LastOver(path: seq<Vec2>, limit: real, k: int): (c: int)
    requires -1 <= k < |path|
    ensures -1 <= c <= k
    ensures c >= 0 ==> Len(path[c..]) > limit
    ensures forall j :: c < j <= k ==> Len(path[j..]) <= limit
    decreases k + 1
  {
    if k < 0 then -1
    else if Len(path[k..]) > limit then k
    else LastOver(path, limit, k - 1)
  }

  /** The tail trim: walk back from the head through the joints, and at the
      first joint where the accumulated length exceeds limit, move that joint
      forward by the overflow and drop every older joint. */
  function Trim(joints: seq<Vec2>, head: Vec2, limit: real): (r: seq<Vec2>)
    requires limit >= 0.0
    ensures |r| <= |joints|
    ensures |joints| > 0 ==> |r| > 0
    ensures |r| > 0 ==> r[1..] == joints[|joints| - |r| + 1..]
    ensures PathLength(joints, head) <= limit ==> r == joints
  {
    TrimFrom(joints, head, limit, LastOver(joints + [head], limit, |joints| - 1))
  }

  /** The trim once the walk has stopped at joint c (-1: it ran out of
      joints without exceeding limit). */
  function TrimFrom(joints: seq<Vec2>, head: Vec2, limit: real, c: int): (r: seq<Vec2>)
    requires limit >= 0.0
    requires -1 <= c < |joints|
    requires c >= 0 ==> Len((joints + [head])[c..]) > limit
    requires forall j :: c < j <= |joints| - 1 ==> Len((joints + [head])[j..]) <= limit
    ensures |r| <= |joints|
    ensures |joints| > 0 ==> |r| > 0
    ensures |r| > 0 ==> r[1..] == joints[|joints| - |r| + 1..]
    ensures PathLength(joints, head) <= limit ==> r == joints
  {
    var path := joints + [head];
    if c < 0 then joints
    else
      LenStep(path, c);
      LenSuffixMonotone(path, 0, c);
      assert path[0..] == path;
      assert c + 1 == |joints| ==> path[c + 1..] == [head];
      [Slide(joints[c], path[c + 1], Len(path[c..]) - limit)] + joints[c + 1..]
  }

  /** After the trim a path longer than limit measures exactly limit. */
  lemma TrimExactLength(joints: seq<Vec2>, head: Vec2, limit: real)
    requires limit >= 0.0
    requires PathLength(joints, head) > limit
    ensures PathLength(Trim(joints, head, limit), head) == limit
  {
    var path := joints + [head];
    var c := LastOver(path, limit, |joints| - 1);
    assert path[0..] == path;
    assert c >= 0;
    LenStep(path, c);
    assert c + 1 == |joints| ==> path[c + 1..] == [head];
    var s := Slide(joints[c], path[c + 1], Len(path[c..]) - limit);
    var r := Trim(joints, head, limit);
    assert r == [s] + joints[c + 1..];
    assert r + [head] == [s] + path[c + 1..];
    LenOfFront(s, path[c + 1..]);
  }

  /** The length of a path with a new oldest joint s in front of tail. */
  lemma LenOfFront(s: Vec2, tail: seq<Vec2>)
    requires |tail| > 0
    ensures Len([s] + tail) == Dist(s, tail[0]) + Len(tail)
  {
    LenStep([s] + tail, 0);
    assert ([s] + tail)[0..] == [s] + tail;
    assert ([s] + tail)[1..] == tail;
  }

  /** The trim never leaves a path longer than the limit. */
  lemma TrimWithinLimit(joints: seq<Vec2>, head: Vec2, limit: real)
    requires limit >= 0.0
    ensures PathLength(Trim(joints, head, limit), head) <= limit
  {
    if PathLength(joints, head) > limit {
      TrimExactLength(joints, head, limit);
    }
  }

  /** The trim moves only the oldest kept joint, and only along the edge
      towards its newer neighbour; every other kept joint is untouched. */
  lemma TrimMovesAlongEdge(joints: seq<Vec2>, head: Vec2, limit: real)
    requires limit >= 0.0
    requires |joints| > 0
    ensures var r := Trim(joints, head, limit);
            var c := |joints| - |r|;
            var path := joints + [head];
            0 <= c < |joints| && OnSegment(r[0], Segment(joints[c], path[c + 1]))
  {
    var path := joints + [head];
    var r := Trim(joints, head, limit);
    var c := LastOver(path, limit, |joints| - 1);
    if c < 0 {
      assert r == joints;
      assert OnSegment(joints[0], Segment(joints[0], path[1]));
    }
  }

  /** The trim keeps every edge axis-aligned, and keeps the newest joint on
      the head's row or column. */
  lemma TrimKeepsAxisPath(joints: seq<Vec2>, head: Vec2, limit: real)
    requires limit >= 0.0
    requires |joints| > 0
    requires AxisPath(joints + [head])
    ensures var r := Trim(joints, head, limit);
            AxisPath(r + [head])
            && (joints[|joints| - 1].x == head.x ==> r[|r| - 1].x == head.x)
            && (joints[|joints| - 1].y == head.y ==> r[|r| - 1].y == head.y)
  {
    var path := joints + [head];
    var r := Trim(joints, head, limit);
    var c := LastOver(path, limit, |joints| - 1);
    if c >= 0 {
      assert c + 1 == |joints| ==> path[c + 1..] == [head];
      var s := r[0];
      assert r + [head] == [s] + path[c + 1..];
      assert Aligned(joints[c], path[c + 1]);
      forall k | 0 <= k < |r + [head]| - 1
        ensures Aligned((r + [head])[k], (r + [head])[k + 1])
      {
        if k > 0 {
          assert (r + [head])[k] == path[c + k];
          assert (r + [head])[k + 1] == path[c + k + 1];
        }
      }
    }
  }

  /** The tail-trim loop as the game runs it, on a copy of the joint list. */
  method TrimTail(joints: seq<Vec2>, head: Vec2, limit: real) returns (r: seq<Vec2>)
    requires limit >= 0.0
    ensures r == Trim(joints, head, limit)
  {
    ghost var path := joints + [head];
    var length: real := 0.0;
    var lastPosition := head;
    var i := |joints| - 1;
    var vector := Vec2(0.0, 0.0);
    assert path[|joints|..] == [head];
    while i >= 0 && length <= limit
      invariant -1 <= i < |joints|
      invariant lastPosition == path[i + 1]
      invariant length == Len(path[i + 1..])
      invariant i + 1 < |joints| ==> vector == Sub(path[i + 2], path[i + 1])
      invariant i + 1 < |joints| ==> Len(path[i + 2..]) <= limit
      invariant forall j :: i + 1 < j <= |joints| - 1 ==> Len(path[j..]) <= limit
    {
      var position := joints[i];
      vector := Sub(lastPosition, position);
      WalkStep(path, limit, i, length);
      length := length + Norm(vector);
      lastPosition := position;
      i := i - 1;
    }
    r := CutTail(joints, head, limit, i, length, vector);
  }

  /** One step of the trim walk: the edge into point i is added to the
      length, and the suffix just left behind was within limit. */
  lemma WalkStep(path: seq<Vec2>, limit: real, i: int, length: real)
    requires 0 <= i < |path| - 1
    requires length == Len(path[i + 1..]) && length <= limit
    requires forall j :: i + 1 < j <= |path| - 2 ==> Len(path[j..]) <= limit
    ensures length + Norm(Sub(path[i + 1], path[i])) == Len(path[i..])
    ensures forall j :: i < j <= |path| - 2 ==> Len(path[j..]) <= limit
  {
    LenStep(path, i);
  }

  /** The step after the trim walk: move the joint before which the walk
      stopped, then drop every older joint. */
  method CutTail(joints: seq<Vec2>, head: Vec2, limit: real, i: int, length: real, vector: Vec2)
    returns (r: seq<Vec2>)
    requires limit >= 0.0
    requires -1 <= i < |joints|
    requires i < 0 || length > limit
    requires length == Len((joints + [head])[i + 1..])
    requires i + 1 < |joints| ==> vector == Sub((joints + [head])[i + 2], joints[i + 1])
    requires i + 1 < |joints| ==> Len((joints + [head])[i + 2..]) <= limit
    requires forall j :: i + 1 < j <= |joints| - 1 ==> Len((joints + [head])[j..]) <= limit
    ensures r == Trim(joints, head, limit)
  {
    WalkStop(joints, head, limit, i, length, vector);
    r := joints;
    if length > limit {
      var changeAmount := length - limit;
      var unit := Normalize(vector);
      var scaled := Scale(unit, changeAmount);
      var newPosition := Add(joints[i + 1], scaled);
      UpdateThenDrop(r, i + 1, newPosition);
      r := r[i + 1 := newPosition];
    }
    if i >= 0 {
      r := r[i + 1..];
    }
  }

  lemma UpdateThenDrop(s: seq<Vec2>, k: int, x: Vec2)
    requires 0 <= k < |s|
    ensures s[k := x][k..] == [x] + s[k + 1..]
    ensures k == 0 ==> s[k := x] == [x] + s[k + 1..]
  {
    assert s[k := x][k..] == [x] + s[k + 1..];
    assert s[k := x][0..] == s[k := x];
  }

  /** What the trim walk knows when it stops before joint i: the trim
      result it has to produce. */
  lemma WalkStop(joints: seq<Vec2>, head: Vec2, limit: real, i: int, length: real, vector: Vec2)
    requires limit >= 0.0
    requires -1 <= i < |joints|
    requires i < 0 || length > limit
    requires length == Len((joints + [head])[i + 1..])
    requires i + 1 < |joints| ==> vector == Sub((joints + [head])[i + 2], joints[i + 1])
    requires i + 1 < |joints| ==> Len((joints + [head])[i + 2..]) <= limit
    requires forall j :: i + 1 < j <= |joints| - 1 ==> Len((joints + [head])[j..]) <= limit
    ensures length <= limit ==> Trim(joints, head, limit) == joints
    ensures length > limit ==>
      i + 1 < |joints| && Norm(vector) != 0.0 &&
      Trim(joints, head, limit) ==
      [Add(joints[i + 1], Scale(Normalize(vector), length - limit))] + joints[i + 2..]
  {
    if length > limit {
      WalkStopOver(joints, head, limit, i, length, vector);
    } else {
      var path := joints + [head];
      assert path[0..] == path;
      LastOverUnique(path, limit, |joints| - 1, -1);
    }
  }

  /** The walk stopped because the path from joint i + 1 exceeds limit:
      that joint is slid along its edge and every older one is dropped. */
  lemma WalkStopOver(joints: seq<Vec2>, head: Vec2, limit: real, i: int, length: real, vector: Vec2)
    requires limit >= 0.0
    requires -1 <= i < |joints|
    requires length > limit
    requires length == Len((joints + [head])[i + 1..])
    requires i + 1 < |joints| ==> vector == Sub((joints + [head])[i + 2], joints[i + 1])
    requires i + 1 < |joints| ==> Len((joints + [head])[i + 2..]) <= limit
    requires forall j :: i + 1 < j <= |joints| - 1 ==> Len((joints + [head])[j..]) <= limit
    ensures i + 1 < |joints| && Norm(vector) != 0.0
    ensures Trim(joints, head, limit) ==
      [Add(joints[i + 1], Scale(Normalize(vector), length - limit))] + joints[i + 2..]
  {
    var path := joints + [head];
    assert path[|joints|..] == [head];
    LastOverUnique(path, limit, |joints| - 1, i + 1);
    LenStep(path, i + 1);
    assert Trim(joints, head, limit) == TrimFrom(joints, head, limit, i + 1);
  }

  /** LastOver is the only index with its characterisation. */
  lemma {:induction false} LastOverUnique(path: seq<Vec2>, limit: real, k: int, c: int)
    requires -1 <= c <= k < |path|
    requires c >= 0 ==> Len(path[c..]) > limit
    requires forall j :: c < j <= k ==> Len(path[j..]) <= limit
    ensures LastOver(path, limit, k) == c
    decreases k + 1
  {
    if k > c {
      LastOverUnique(path, limit, k - 1, c);
    }
  }
}
