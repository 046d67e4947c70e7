/** Which food particles the head eats in `checkFood`, and what the food list becomes. */
module Feeding {
  import opened Settings
  import opened Geometry
  import opened Motion

  /** The head is close enough to eat `f` (distance below snakeRadius + 6). */
  predicate Eats(head: Point, f: Point)
  {
    DistSq(head, f) < EatRadius * EatRadius
  }

  /** The square-root comparison `checkFood` performs decides `Eats`. */
  function InReach(sqrt: real -> real, head: Point, f: Point): (b: bool)
    requires IsSqrt(sqrt)
    ensures b <==> Eats(head, f)
  {
    SqrtOrder(sqrt, DistSq(head, f), EatRadius);
    sqrt(DistSq(head, f)) < EatRadius
  }

  /** The particles the head eats, in their original order. */
  function Eaten(head: Point, food: seq<Point>): (r: seq<Point>)
    ensures |r| <= |food|
  {
    if food == [] then []
    else (if Eats(head, food[0]) then [food[0]] else []) + Eaten(head, food[1..])
  }

  /** The particles that survive, in their original order. */
  function Uneaten(head: Point, food: seq<Point>): (r: seq<Point>)
    ensures |r| <= |food|
  {
    if food == [] then []
    else (if Eats(head, food[0]) then [] else [food[0]]) + Uneaten(head, food[1..])
  }

  /** The eaten particles come from the list and are in reach; the others come from the list and are not. */
  lemma {:induction false} Members(head: Point, food: seq<Point>)
    ensures forall p :: p in Eaten(head, food) ==> p in food && Eats(head, p)
    ensures forall p :: p in Uneaten(head, food) ==> p in food && !Eats(head, p)
  {
    if food != [] {
      Members(head, food[1..]);
    }
  }

  /** Every particle is either eaten or left over, exactly once. */
  lemma {:induction false} Partition(head: Point, food: seq<Point>)
    ensures multiset(Uneaten(head, food)) + multiset(Eaten(head, food)) == multiset(food)
  {
    if food != [] {
      var f, rest := food[0], food[1..];
      Partition(head, rest);
      assert food == [f] + rest;
      assert multiset(food) == multiset{f} + multiset(rest);
      if Eats(head, f) {
        assert Eaten(head, food) == [f] + Eaten(head, rest);
        assert Uneaten(head, food) == Uneaten(head, rest);
      } else {
        assert Eaten(head, food) == Eaten(head, rest);
        assert Uneaten(head, food) == [f] + Uneaten(head, rest);
      }
    }
  }

  /** How many particles one call to `checkFood` eats. */
  function HitCount(head: Point, food: seq<Point>): nat
  {
    |Eaten(head, food)|
  }

  /** The food list after `checkFood`: survivors first, in order, then one replacement per eaten particle. */
  function FoodAfter(head: Point, food: seq<Point>, spawn: seq<Point>): seq<Point>
    requires HitCount(head, food) <= |spawn|
  {
    Uneaten(head, food) + spawn[..HitCount(head, food)]
  }

  /** Eating never changes the number of particles, and the particles left over are exactly the uneaten ones
      plus the first replacements. */
  lemma FoodAfterSpec(head: Point, food: seq<Point>, spawn: seq<Point>)
    requires HitCount(head, food) <= |spawn|
    ensures |FoodAfter(head, food, spawn)| == |food|
    ensures forall p :: p in FoodAfter(head, food, spawn) <==>
              (p in food && !Eats(head, p)) || p in spawn[..HitCount(head, food)]
  {
    var u, e := Uneaten(head, food), Eaten(head, food);
    Partition(head, food);
    Members(head, food);
    assert |multiset(u)| + |multiset(e)| == |multiset(food)|;
    forall p | p in food && !Eats(head, p)
      ensures p in u
    {
      assert p in multiset(food);
      assert p !in multiset(e);
    }
  }

  /** When nothing is in reach, the food list is left exactly as it was. */
  lemma {:induction false} NothingEaten(head: Point, food: seq<Point>)
    requires forall p :: p in food ==> !Eats(head, p)
    ensures Eaten(head, food) == []
    ensures Uneaten(head, food) == food
  {
    if food != [] {
      NothingEaten(head, food[1..]);
      assert [food[0]] + food[1..] == food;
    }
  }

  /** One step of the reversed scan over the original food list, when the particle at index i is eaten:
      it is removed from its place and the next spawned point is appended. */
  lemma EatStep(head: Point, food0: seq<Point>, i: nat, spawn: seq<Point>, eaten: nat, food: seq<Point>)
    requires i < |food0| && eaten < |spawn|
    requires food == food0[..i + 1] + Uneaten(head, food0[i + 1..]) + spawn[..eaten]
    requires Eats(head, food0[i])
    ensures food[..i] + food[i + 1..] + [spawn[eaten]] == food0[..i] + Uneaten(head, food0[i..]) + spawn[..eaten + 1]
  {
    var pre, f, rest := food0[..i], food0[i], Uneaten(head, food0[i + 1..]);
    UneatenCons(head, food0, i);
    assert food0[..i + 1] == pre + [f];
    assert spawn[..eaten + 1] == spawn[..eaten] + [spawn[eaten]];
    RemoveAt(pre, f, rest, spawn[..eaten], spawn[eaten]);
  }

  /** Removing the element after `pre` and appending `x`. */
  lemma RemoveAt(pre: seq<Point>, f: Point, rest: seq<Point>, tail: seq<Point>, x: Point)
    ensures var s := pre + [f] + rest + tail; s[..|pre|] + s[|pre| + 1..] + [x] == pre + rest + (tail + [x])
  {
    var s := pre + [f] + rest + tail;
    assert s[..|pre|] == pre;
    assert s[|pre| + 1..] == rest + tail;
  }

  /** Unfolding `Uneaten` on the suffix that starts at index i. */
  lemma UneatenCons(head: Point, food: seq<Point>, i: nat)
    requires i < |food|
    ensures Uneaten(head, food[i..]) == (if Eats(head, food[i]) then [] else [food[i]]) + Uneaten(head, food[i + 1..])
  {
    var t := food[i..];
    assert t[0] == food[i] && t[1..] == food[i + 1..];
  }

  /** One step of the reversed scan when the particle at index i is out of reach: nothing changes. */
  lemma SkipStep(head: Point, food0: seq<Point>, i: nat, spawn: seq<Point>, eaten: nat)
    requires i < |food0| && eaten <= |spawn|
    requires !Eats(head, food0[i])
    ensures food0[..i + 1] + Uneaten(head, food0[i + 1..]) + spawn[..eaten]
         == food0[..i] + Uneaten(head, food0[i..]) + spawn[..eaten]
  {
    UneatenCons(head, food0, i);
    assert food0[..i + 1] == food0[..i] + [food0[i]];
  }

  /** `n` copies of `p`. */
  function Repeat(p: Point, n: nat): (r: seq<Point>)
    ensures |r| == n
  {
    if n == 0 then [] else Repeat(p, n - 1) + [p]
  }

  /** Every element of `Repeat(p, n)` is `p`. */
  lemma {:induction false} RepeatAll(p: Point, n: nat)
    ensures forall q :: q in Repeat(p, n) ==> q == p
  {
    if n > 0 {
      RepeatAll(p, n - 1);
    }
  }

  /** Appending one more copy to a repeated tail. */
  lemma RepeatStep(s: seq<Point>, p: Point, n: nat)
    ensures s + Repeat(p, n) + [p] == s + Repeat(p, n + 1)
  {
  }

  /** Appending a copy of the tail (growth after eating) keeps the spacing invariant. */
  lemma SpacedGrow(s: seq<Point>)
    requires |s| >= 1 && Spaced(s)
    ensures Spaced(s + [s[|s| - 1]])
  {
    var t := s + [s[|s| - 1]];
    assert DistSq(t[|s| - 1], t[|s|]) == 0.0;
  }

  /** Appending any number of copies of the tail keeps the spacing invariant. */
  lemma {:induction false} SpacedGrowMany(s: seq<Point>, n: nat)
    requires |s| >= 1 && Spaced(s)
    ensures Spaced(s + Repeat(s[|s| - 1], n))
  {
    if n > 0 {
      SpacedGrowMany(s, n - 1);
      var t := s + Repeat(s[|s| - 1], n - 1);
      assert t[|t| - 1] == s[|s| - 1];
      SpacedGrow(t);
      assert t + [t[|t| - 1]] == s + Repeat(s[|s| - 1], n);
    }
  }

  function Max(a: int, b: int): int
  {
    if a >= b then a else b
  }
}
