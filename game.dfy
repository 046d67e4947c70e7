/** The game state of `SnakeGameView` and its event handlers: drag, double tap, timer tick and restart. */
module Game {
  import opened Settings
  import opened Optional
  import opened Geometry
  import opened Motion
  import opened Feeding

  /** The self-collision grace period has run out at time `now` (seconds). */
  predicate GraceOver(startTime: Option<real>, now: real)
  {
    startTime.Some? && now - startTime.value > CollisionDelay
  }

  class SnakeGameView {
    var snake: seq<Point>
    var food: seq<Point>
    var direction: Vector
    var gameOver: bool
    var isPaused: bool
    var gameStarted: bool
    var score: int
    var highScore: int
    var fingerPos: Option<Point>
    var startTime: Option<real>
    /** The platform square root that the geometry calls. */
    const sqrt: real -> real

    /** Invariants every handler keeps: a non-empty, spaced snake, a full food list, score within the high score. */
    ghost predicate Valid()
      reads this
    {
      && IsSqrt(sqrt)
      && |snake| >= 1
      && |food| == FoodCount
      && 0 <= score <= highScore
      && Spaced(snake)
    }

    /** The flags follow the lifecycle: nothing is over or paused before the first touch, which stamps the start time. */
    ghost predicate Lifecycle()
      reads this
    {
      && (gameOver ==> gameStarted)
      && (isPaused ==> gameStarted)
      && (gameStarted <==> startTime.Some?)
    }

    /** The timer tick only simulates while this holds. */
    predicate Running()
      reads this
    {
      gameStarted && !gameOver && !isPaused
    }

    /** The initial state: one segment at (200, 400) and 30 particles in [40, 360) x [80, 760), the centre and
        the inner area of a 400 x 800 view; the high score is whatever the app stored last time. */
    constructor (sqrt: real -> real, initialFood: seq<Point>, storedHighScore: nat)
      requires IsSqrt(sqrt)
      requires |initialFood| == FoodCount
      requires forall p :: p in initialFood ==> InRange(p, 40.0, 360.0, 80.0, 760.0)
      ensures Valid() && Lifecycle()
      ensures this.sqrt == sqrt
      ensures snake == [Point(200.0, 400.0)] && food == initialFood && direction == Vector(1.0, 0.0)
      ensures !gameOver && !isPaused && !gameStarted
      ensures score == 0 && highScore == storedHighScore
      ensures fingerPos == None && startTime == None
    {
      this.sqrt := sqrt;
      snake := [Point(200.0, 400.0)];
      food := initialFood;
      direction := Vector(1.0, 0.0);
      gameOver, isPaused, gameStarted := false, false, false;
      score, highScore := 0, storedHighScore;
      fingerPos, startTime := None, None;
    }

    /** Drag moved: the first touch starts the game and stamps the start time; every touch records the finger. */
    method DragChanged(location: Point, now: real)
      requires Valid() && Lifecycle()
      modifies this`gameStarted, this`startTime, this`fingerPos
      ensures Valid() && Lifecycle()
      ensures fingerPos == Some(location)
      ensures gameStarted
      ensures startTime == if old(gameStarted) then old(startTime) else Some(now)
      ensures !old(gameStarted) ==> !gameOver
    {
      if !gameStarted {
        gameStarted := true;
        startTime := Some(now);
      }
      fingerPos := Some(location);
    }

    /** Drag ended: the finger is forgotten; the direction is kept. */
    method DragEnded()
      requires Valid() && Lifecycle()
      modifies this`fingerPos
      ensures Valid() && Lifecycle()
      ensures fingerPos == None
      ensures direction == old(direction)
    {
      fingerPos := None;
    }

    /** Double tap: toggles the pause, but only in a started game that is not over. */
    method DoubleTap()
      requires Valid() && Lifecycle()
      modifies this`isPaused
      ensures Valid() && Lifecycle()
      ensures isPaused == if old(gameStarted && !gameOver) then !old(isPaused) else old(isPaused)
    {
      if gameStarted && !gameOver {
        isPaused := !isPaused;
      }
    }

    /** Timer tick: steer, move and eat, in that order, while the game runs; otherwise nothing. */
    method TimerFired(size: Size, now: real, spawn: seq<Point>)
      requires Valid() && Lifecycle()
      requires |spawn| >= FoodCount
      requires forall p :: p in spawn ==> InRange(p, 40.0, 360.0, 80.0, 760.0)
      modifies this
      ensures Valid() && Lifecycle()
      ensures !old(Running()) ==> unchanged(this)
      ensures old(Running()) ==>
        var h := Advance(old(snake)[0], direction);
        var moved := if OutOfBounds(h, size) then old(snake) else Respaced(sqrt, [h] + old(snake));
        && direction == (if old(fingerPos).None? then old(direction) else Heading(sqrt, old(snake)[0], old(fingerPos).value))
        && fingerPos == old(fingerPos) && startTime == old(startTime)
        && gameStarted && isPaused == old(isPaused)
        && score == old(score) + HitCount(moved[0], old(food))
        && highScore == Max(old(highScore), score)
        && food == FoodAfter(moved[0], old(food), spawn)
        && snake == moved + Repeat(moved[|moved| - 1], score - old(score))
        && |snake| == old(|snake|) + (score - old(score)) + (if OutOfBounds(h, size) then 0 else 1)
        && (!OutOfBounds(h, size) ==> snake[0] == h)
        && (gameOver <==> OutOfBounds(h, size) || (GraceOver(startTime, now) && |moved| > 5 && OddHit(Probe(h, direction), moved)))
    {
      if Running() {
        UpdateDirection();
        MoveSnake(size, now);
        CheckFood(spawn);
      }
    }

    /** `updateDirection`: aim at the finger, when there is one. */
    method UpdateDirection()
      requires Valid()
      modifies this`direction
      ensures Valid()
      ensures direction == if fingerPos.None? || |snake| == 0 then old(direction) else Heading(sqrt, snake[0], fingerPos.value)
    {
      if fingerPos.None? || |snake| == 0 {
        return;
      }
      var finger := fingerPos.value;
      var head := snake[0];
      direction := Heading(sqrt, head, finger);
    }

    /** `moveSnake`: advance the head one fixed frame; leaving the field ends the game and keeps the snake;
        otherwise the new head is prepended, the chain re-spaced and, after the grace period, the probe
        is compared with the odd-indexed segments. */
    method MoveSnake(size: Size, now: real)
      requires Valid()
      modifies this`snake, this`gameOver
      ensures Valid()
      ensures var h := Advance(old(snake)[0], direction);
        if OutOfBounds(h, size) then
          snake == old(snake) && gameOver
        else
          && snake == Respaced(sqrt, [h] + old(snake))
          && |snake| == old(|snake|) + 1 && snake[0] == h
          && (gameOver <==> old(gameOver) || (GraceOver(startTime, now) && |snake| > 5 && OddHit(Probe(h, direction), snake)))
    {
      if |snake| == 0 {
        return;
      }
      var head := Advance(snake[0], direction);
      if OutOfBounds(head, size) {
        gameOver := true;
      } else {
        var grown := [head] + snake;
        RespacedSpaced(sqrt, grown);
        snake := Respace(sqrt, grown);
        if GraceOver(startTime, now) && |snake| > 5 {
          var catHead := Probe(head, direction);
          var hit := ProbeHitsOddSegment(sqrt, catHead, snake);
          if hit {
            gameOver := true;
          }
        }
      }
    }

    /** `checkFood`: every particle within reach of the head is replaced by the next spawned point, and each
        one eaten adds a point, raises the high score if beaten and appends a copy of the tail. */
    method CheckFood(spawn: seq<Point>)
      requires Valid()
      requires |spawn| >= |food|
      modifies this`food, this`score, this`highScore, this`snake
      ensures Valid()
      ensures var head, k := old(snake)[0], HitCount(old(snake)[0], old(food));
        && food == FoodAfter(head, old(food), spawn)
        && score == old(score) + k
        && highScore == Max(old(highScore), score)
        && snake == old(snake) + Repeat(old(snake)[|old(snake)| - 1], k)
    {
      if |snake| == 0 {
        return;
      }
      var head := snake[0];
      ghost var tail := snake[|snake| - 1];
      var food0 := food;
      var i := |food0|;
      var eaten: nat := 0;
      while i > 0
        invariant 0 <= i <= |food0|
        invariant eaten == HitCount(head, food0[i..]) <= |food0| - i
        invariant food == food0[..i] + Uneaten(head, food0[i..]) + spawn[..eaten]
        invariant score == old(score) + eaten
        invariant highScore == Max(old(highScore), score)
        invariant snake == old(snake) + Repeat(tail, eaten)
        invariant snake[|snake| - 1] == tail
        decreases i
      {
        i := i - 1;
        var f := food0[i];
        if InReach(sqrt, head, f) {
          EatStep(head, food0, i, spawn, eaten, food);
          RepeatStep(old(snake), tail, eaten);
          EatAt(i, spawn[eaten]);
          eaten := eaten + 1;
        } else {
          SkipStep(head, food0, i, spawn, eaten);
        }
      }
      assert food0[0..] == food0;
      FoodAfterSpec(head, food0, spawn);
      SpacedGrowMany(old(snake), eaten);
    }

    /** The body of `checkFood`'s loop for an eaten particle at index i: it is removed, `replacement` is appended,
        the score rises by one (and the high score with it if beaten) and the tail is doubled. */
    method EatAt(i: nat, replacement: Point)
      requires i < |food|
      modifies this`food, this`score, this`highScore, this`snake
      ensures food == old(food[..i] + food[i + 1..] + [replacement])
      ensures score == old(score) + 1 && highScore == Max(old(highScore), score)
      ensures snake == if old(|snake|) > 0 then old(snake + [snake[|snake| - 1]]) else old(snake)
    {
      food := food[..i] + food[i + 1..];
      food := food + [replacement];
      score := score + 1;
      if score > highScore {
        highScore := score;
      }
      if |snake| > 0 {
        snake := snake + [snake[|snake| - 1]];
      }
    }

    /** `restartGame`: a fresh round on a field of the given size; the high score survives. */
    method RestartGame(size: Size, points: seq<Point>)
      requires Valid()
      requires |points| == FoodCount
      requires forall p :: p in points ==> InRange(p, 40.0, size.width - 40.0, 80.0, size.height - 40.0)
      modifies this
      ensures Valid() && Lifecycle()
      ensures snake == [Point(size.width / 2.0, size.height / 2.0)]
      ensures food == points && direction == Vector(1.0, 0.0)
      ensures !gameOver && !isPaused && !gameStarted
      ensures score == 0 && startTime == None
      ensures highScore == old(highScore) && fingerPos == old(fingerPos)
    {
      snake := [Point(size.width / 2.0, size.height / 2.0)];
      food := points;
      direction := Vector(1.0, 0.0);
      gameOver := false;
      isPaused := false;
      gameStarted := false;
      score := 0;
      startTime := None;
    }
  }
}
