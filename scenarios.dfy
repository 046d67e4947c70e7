/** Two concrete situations: a head moving onto the right edge of a 400 x 800 field, and a head with one
    particle 3 points away. */
module Scenarios {
  import opened Geometry
  import opened Motion
  import opened Feeding

  /** A head at (398, 400) moving right on a 400 x 800 field lands exactly on the right edge, which is still
      inside: the bounds test is strict. One point further and the same move leaves the field. */
  lemma BoundaryScenario()
    ensures Advance(Point(398.0, 400.0), Vector(1.0, 0.0)) == Point(400.0, 400.0)
    ensures !OutOfBounds(Advance(Point(398.0, 400.0), Vector(1.0, 0.0)), Size(400.0, 800.0))
    ensures OutOfBounds(Advance(Point(399.0, 400.0), Vector(1.0, 0.0)), Size(400.0, 800.0))
  {
  }

  /** A head at (100, 100) with one particle at (103, 100), 3 points away, and every other particle out of
      reach: exactly that particle is eaten, and it is replaced by the first spawned point at the end. */
  lemma {:induction false} FoodScenario(food: seq<Point>, spawn: seq<Point>)
    requires |food| >= 1 && food[0] == Point(103.0, 100.0)
    requires forall p :: p in food[1..] ==> !Eats(Point(100.0, 100.0), p)
    requires |spawn| >= 1
    ensures HitCount(Point(100.0, 100.0), food) == 1
    ensures FoodAfter(Point(100.0, 100.0), food, spawn) == food[1..] + [spawn[0]]
    ensures |FoodAfter(Point(100.0, 100.0), food, spawn)| == |food|
  {
    var head := Point(100.0, 100.0);
    assert DistSq(head, food[0]) == 9.0;
    NothingEaten(head, food[1..]);
  }
}
