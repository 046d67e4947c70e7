/** Steering, head advance, chain re-spacing and the self-collision probe of `moveSnake`. */
module Motion {
  import opened Settings
  import opened Geometry

  /** The steering vector from `head` toward `finger`, normalised by a length clamped below at 0.001. */
  function Heading(sqrt: real -> real, head: Point, finger: Point): Vector
  {
    var root := sqrt(DistSq(finger, head));
    var len := if root > MinSteerLength then root else MinSteerLength;
    Vector((finger.x - head.x) / len, (finger.y - head.y) / len)
  }

  /** The heading points at the finger; it has unit length unless the finger is within 0.001 of the head. */
  lemma HeadingSpec(sqrt: real -> real, head: Point, finger: Point)
    requires IsSqrt(sqrt)
    ensures var v, dx, dy := Heading(sqrt, head, finger), finger.x - head.x, finger.y - head.y;
      && v.dx * dy == v.dy * dx
      && v.dx * dx + v.dy * dy >= 0.0
      && (v == Vector(0.0, 0.0) <==> finger == head)
      && (DistSq(finger, head) >= MinSteerLength * MinSteerLength ==> NormSq(v) == 1.0)
      && (DistSq(finger, head) < MinSteerLength * MinSteerLength ==> NormSq(v) < 1.0)
  {
    var root := sqrt(DistSq(finger, head));
    assert root >= 0.0 && root * root == DistSq(finger, head);
    SteerGeometry(head, finger, root, Heading(sqrt, head, finger));
  }

  /** HeadingSpec for an exact root of the squared distance. */
  lemma SteerGeometry(head: Point, finger: Point, root: real, v: Vector)
    requires 0.0 <= root && root * root == DistSq(finger, head)
    requires var len := if root > MinSteerLength then root else MinSteerLength;
      v == Vector((finger.x - head.x) / len, (finger.y - head.y) / len)
    ensures var dx, dy := finger.x - head.x, finger.y - head.y;
      && v.dx * dy == v.dy * dx
      && v.dx * dx + v.dy * dy >= 0.0
      && (v == Vector(0.0, 0.0) <==> finger == head)
      && (DistSq(finger, head) >= MinSteerLength * MinSteerLength ==> NormSq(v) == 1.0)
      && (DistSq(finger, head) < MinSteerLength * MinSteerLength ==> NormSq(v) < 1.0)
  {
    var dx, dy := finger.x - head.x, finger.y - head.y;
    assert DistSq(finger, head) == dx * dx + dy * dy;
    SteerAlgebra(dx, dy, root, v.dx, v.dy);
  }

  /** The arithmetic behind HeadingSpec, for an exact root of dx*dx + dy*dy. */
  lemma SteerAlgebra(dx: real, dy: real, root: real, vx: real, vy: real)
    requires 0.0 <= root && root * root == dx * dx + dy * dy
    requires var len := if root > MinSteerLength then root else MinSteerLength; vx == dx / len && vy == dy / len
    ensures vx * dy == vy * dx
    ensures vx * dx + vy * dy >= 0.0
    ensures vx == 0.0 && vy == 0.0 <==> dx == 0.0 && dy == 0.0
    ensures dx * dx + dy * dy >= MinSteerLength * MinSteerLength ==> vx * vx + vy * vy == 1.0
    ensures dx * dx + dy * dy < MinSteerLength * MinSteerLength ==> vx * vx + vy * vy < 1.0
  {
    var len := if root > MinSteerLength then root else MinSteerLength;
    var k := 1.0 / len;
    InverseScale(dx, len);
    InverseScale(dy, len);
    assert vx == k * dx && vy == k * dy;
    var p := Point(vx, vy);
    var o := Point(0.0, 0.0);
    var d := Point(dx, dy);
    ScaledDistSq(p, o, d, o, k);
    assert vx * vx + vy * vy == k * k * (dx * dx + dy * dy);
    assert vx * dx + vy * dy == k * (dx * dx + dy * dy);
    if root >= MinSteerLength {
      assert dx * dx + dy * dy >= MinSteerLength * MinSteerLength;
      assert len == root;
      ScaledSquare(k, len, dx * dx + dy * dy, 1.0);
    } else {
      SquareLess(root, MinSteerLength);
      assert k == 1000.0;
    }
  }

  /** Dividing by a positive length is scaling by its inverse. */
  lemma InverseScale(x: real, len: real)
    requires len > 0.0
    ensures x / len == (1.0 / len) * x
  {
  }

  /** The head moved by one fixed frame: `direction * moveSpeed * (1/60)`. */
  function Advance(head: Point, dir: Vector): Point
  {
    Point(head.x + dir.dx * MoveSpeed * FrameTime, head.y + dir.dy * MoveSpeed * FrameTime)
  }

  /** One fixed frame moves the head by twice the direction vector, so exactly 2 points along a unit heading. */
  lemma AdvanceDistance(head: Point, dir: Vector)
    ensures DistSq(head, Advance(head, dir)) == 4.0 * NormSq(dir)
    ensures NormSq(dir) == 1.0 ==> DistSq(head, Advance(head, dir)) == 4.0
  {
    var h := Advance(head, dir);
    assert h.x - head.x == 2.0 * dir.dx && h.y - head.y == 2.0 * dir.dy;
  }

  /** Steering toward a finger at least 0.001 away and then advancing one frame moves the head exactly 2 points. */
  lemma StepLength(sqrt: real -> real, head: Point, finger: Point)
    requires IsSqrt(sqrt)
    requires DistSq(finger, head) >= MinSteerLength * MinSteerLength
    ensures DistSq(head, Advance(head, Heading(sqrt, head, finger))) == 4.0
  {
    HeadingSpec(sqrt, head, finger);
    AdvanceDistance(head, Heading(sqrt, head, finger));
  }

  /** Whether a point has left the playfield [0, width] x [0, height]. */
  predicate OutOfBounds(p: Point, size: Size)
  {
    p.x < 0.0 || p.x > size.width || p.y < 0.0 || p.y > size.height
  }

  /** Where segment `seg` ends up once its predecessor sits at `prev`: pulled toward it when farther than the spacing. */
  function Follow(sqrt: real -> real, prev: Point, seg: Point): Point
  {
    var dist := sqrt(DistSq(prev, seg));
    if dist > SegmentSpacing then
      Point(seg.x + (prev.x - seg.x) / dist * (dist - SegmentSpacing),
            seg.y + (prev.y - seg.y) / dist * (dist - SegmentSpacing))
    else
      seg
  }

  /** A segment within the spacing stays put; a farther one moves straight toward its predecessor
      until it is exactly the spacing away. */
  lemma FollowSpec(sqrt: real -> real, prev: Point, seg: Point)
    requires IsSqrt(sqrt)
    ensures var q := Follow(sqrt, prev, seg);
      && (DistSq(prev, seg) <= SegmentSpacing * SegmentSpacing ==> q == seg)
      && (DistSq(prev, seg) > SegmentSpacing * SegmentSpacing ==>
            && DistSq(prev, q) == SegmentSpacing * SegmentSpacing
            && DistSq(seg, q) == (sqrt(DistSq(prev, seg)) - SegmentSpacing) * (sqrt(DistSq(prev, seg)) - SegmentSpacing)
            && sqrt(DistSq(prev, seg)) > SegmentSpacing)
  {
    var dist := sqrt(DistSq(prev, seg));
    assert dist >= 0.0 && dist * dist == DistSq(prev, seg);
    if dist > SegmentSpacing {
      PullAlgebra(prev, seg, dist, Follow(sqrt, prev, seg));
    } else {
      SquareAtMost(dist, SegmentSpacing);
    }
  }

  /** 0 <= s <= b implies s*s <= b*b. */
  lemma SquareAtMost(s: real, b: real)
    requires 0.0 <= s <= b
    ensures s * s <= b * b
  {
    if s < b {
      SquareLess(s, b);
    }
  }

  /** The arithmetic behind FollowSpec, for the exact distance `dist` between `prev` and `seg`. */
  lemma PullAlgebra(prev: Point, seg: Point, dist: real, q: Point)
    requires dist > SegmentSpacing && dist * dist == DistSq(prev, seg)
    requires q == Point(seg.x + (prev.x - seg.x) / dist * (dist - SegmentSpacing),
                        seg.y + (prev.y - seg.y) / dist * (dist - SegmentSpacing))
    ensures DistSq(prev, q) == SegmentSpacing * SegmentSpacing
    ensures DistSq(seg, q) == (dist - SegmentSpacing) * (dist - SegmentSpacing)
    ensures DistSq(prev, seg) > SegmentSpacing * SegmentSpacing
  {
    var gap := SegmentSpacing;
    var k, j := gap / dist, (dist - gap) / dist;
    var d2 := DistSq(prev, seg);
    PullFactor(prev.x - seg.x, dist, gap);
    PullFactor(prev.y - seg.y, dist, gap);
    assert k * dist == gap && j * dist == dist - gap;
    ScaledDistSq(prev, q, prev, seg, k);
    ScaledSquare(k, dist, d2, gap);
    ScaledDistSq(seg, q, seg, prev, j);
    assert DistSq(seg, prev) == d2;
    ScaledSquare(j, dist, d2, dist - gap);
    SquareLess(gap, dist);
  }

  /** Moving `dx/dist*(dist-gap)` along a displacement leaves `gap/dist` of it. */
  lemma PullFactor(dx: real, dist: real, gap: real)
    requires dist > 0.0
    ensures dx - dx / dist * (dist - gap) == (gap / dist) * dx
    ensures dx / dist * (dist - gap) == ((dist - gap) / dist) * dx
  {
  }

  /** The chain after `moveSnake` re-spaces it: element 0 stays, and each later element follows
      its already re-spaced predecessor (lines 181-198 of the source). */
  function Respaced(sqrt: real -> real, s: seq<Point>): (r: seq<Point>)
    requires |s| >= 1
    ensures |r| == |s|
    ensures r[0] == s[0]
  {
    if |s| == 1 then s
    else
      var front := Respaced(sqrt, s[..|s| - 1]);
      front + [Follow(sqrt, front[|front| - 1], s[|s| - 1])]
  }

  /** Every element after the first is its input segment, followed toward the re-spaced element before it. */
  lemma {:induction false} RespacedAt(sqrt: real -> real, s: seq<Point>, i: nat)
    requires 0 < i < |s|
    ensures Respaced(sqrt, s)[i] == Follow(sqrt, Respaced(sqrt, s)[i - 1], s[i])
  {
    if i < |s| - 1 {
      var pre := s[..|s| - 1];
      RespacedAt(sqrt, pre, i);
      assert pre[i] == s[i];
    }
  }

  /** Position by position, what the re-spacing pass does to a chain. */
  lemma RespacedShape(sqrt: real -> real, s: seq<Point>, i: nat)
    requires IsSqrt(sqrt)
    requires 0 < i < |s|
    ensures var r := Respaced(sqrt, s);
      && DistSq(r[i - 1], r[i]) <= SegmentSpacing * SegmentSpacing
      && (r[i] == s[i] <==> DistSq(r[i - 1], s[i]) <= SegmentSpacing * SegmentSpacing)
      && (r[i] != s[i] ==> DistSq(r[i - 1], r[i]) == SegmentSpacing * SegmentSpacing)
  {
    var r := Respaced(sqrt, s);
    RespacedAt(sqrt, s, i);
    FollowSpec(sqrt, r[i - 1], s[i]);
    if DistSq(r[i - 1], s[i]) > SegmentSpacing * SegmentSpacing {
      assert DistSq(r[i - 1], r[i]) == SegmentSpacing * SegmentSpacing;
      assert r[i] != s[i];
    }
  }

  /** Neighbouring segments are at most the spacing apart. */
  ghost predicate Spaced(s: seq<Point>)
  {
    forall i :: 0 < i < |s| ==> DistSq(s[i - 1], s[i]) <= SegmentSpacing * SegmentSpacing
  }

  /** The re-spaced chain satisfies the spacing invariant, whatever chain it started from. */
  lemma RespacedSpaced(sqrt: real -> real, s: seq<Point>)
    requires IsSqrt(sqrt)
    requires |s| >= 1
    ensures Spaced(Respaced(sqrt, s))
  {
    forall i | 0 < i < |s|
      ensures DistSq(Respaced(sqrt, s)[i - 1], Respaced(sqrt, s)[i]) <= SegmentSpacing * SegmentSpacing
    {
      RespacedShape(sqrt, s, i);
    }
  }

  /** The re-spacing loop of `moveSnake`, building `newSnake` from the chain whose new head is `s[0]`. */
  method Respace(sqrt: real -> real, s: seq<Point>) returns (newSnake: seq<Point>)
    requires |s| >= 1
    ensures newSnake == Respaced(sqrt, s)
  {
    newSnake := [s[0]];
    for i := 1 to |s|
      invariant newSnake == Respaced(sqrt, s[..i])
    {
      var prev := newSnake[i - 1];
      var seg := s[i];
      assert s[..i + 1][..i] == s[..i];
      newSnake := newSnake + [Follow(sqrt, prev, seg)];
    }
    assert s[..|s|] == s;
  }

  /** The collision probe: the head pushed forward along `direction` to where the cat sprite is. */
  function Probe(head: Point, dir: Vector): Point
  {
    Point(head.x + dir.dx * ProbeReach, head.y + dir.dy * ProbeReach)
  }

  /** Some odd-indexed segment (1, 3, 5, ...) lies within the collision radius of the probe. */
  ghost predicate OddHit(probe: Point, s: seq<Point>)
  {
    exists i :: 0 <= i < |s| && i % 2 == 1 && DistSq(probe, s[i]) < CollisionRadius * CollisionRadius
  }

  /** The strided scan of lines 209-216: stops at the first odd-indexed segment the probe touches. */
  method ProbeHitsOddSegment(sqrt: real -> real, probe: Point, s: seq<Point>) returns (hit: bool)
    requires IsSqrt(sqrt)
    ensures hit <==> OddHit(probe, s)
  {
    var i := 1;
    while i < |s|
      invariant i >= 1 && i % 2 == 1
      invariant forall j :: 0 <= j < i && j < |s| && j % 2 == 1 ==> DistSq(probe, s[j]) >= CollisionRadius * CollisionRadius
      decreases |s| - i
    {
      var dx := probe.x - s[i].x;
      var dy := probe.y - s[i].y;
      assert dx * dx + dy * dy == DistSq(probe, s[i]);
      SqrtOrder(sqrt, dx * dx + dy * dy, CollisionRadius);
      if sqrt(dx * dx + dy * dy) < CollisionRadius {
        return true;
      }
      i := i + 2;
    }
    return false;
  }
}
