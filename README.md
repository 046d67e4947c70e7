# Snake game simulation (test06 `SnakeGameView`)

This project models the game logic of the SwiftUI snake game in `test06/ContentView.swift`.

A chain of points, the snake, follows the player's finger across the field and eats red food
particles. The field is the view's current size, a parameter of the timer tick and of restart; the
start point (200, 400) and the range of the initial and replacement particles assume a 400 x 800
view. It must not run into the field's edge or into itself. The SwiftUI view keeps the
game state in `@State` fields, which its event handlers update in place.

The model is the class `Game.SnakeGameView`. It has the same fields:

- `snake`, `food`, `direction`;
- the flags `gameStarted`, `isPaused` and `gameOver`;
- `score` and `highScore`;
- the optional `fingerPos` and `startTime`.

Each handler body is a method with a `modifies` frame:

- drag moved and drag ended;
- double tap;
- timer tick, which calls `updateDirection`, `moveSnake` and `checkFood` in that order;
- `restartGame`.

The loops keep their imperative form:

- the re-spacing loop of `moveSnake` is `Motion.Respace`;
- the strided self-collision scan is `Motion.ProbeHitsOddSegment`;
- the reversed food scan, which removes and appends in place, is the loop of `CheckFood`.

Each method is proved against pure specification functions: `Heading`, `Advance`, `Follow`,
`Respaced`, `OddHit`, `Eaten`/`Uneaten` and `FoodAfter`. Lemmas prove what the game promises about
those functions.

Modules:

- `Settings`: the constants, with segment spacing 15, snake radius 8, speed 120 and a 1/60 s step.
  The derived radii are 20 for the probe reach, 5.6 for collision and 14 for eating.
- `Optional`: Swift optionals.
- `Geometry`: points, squared distances, and the square-root contract.
- `Motion`: steering, the advance, re-spacing and the collision probe.
- `Feeding`: which particles are eaten and what the food list becomes.
- `Game`: the class.
- `Scenarios`: two concrete situations, the right edge and a particle 3 points away.

Coordinates are exact reals. The square root the code calls is the class constant `sqrt`. It is
constrained by `Geometry.IsSqrt`: for every non-negative x, `sqrt(x)` is non-negative and squares
to x. Every comparison `sqrt(d) < r` in the code is proved equivalent to `d < r * r`.

Points where the model follows the code:

- `moveSnake` moves the head by the fixed step `direction * 120 * (1/60)`. It does not use the
  time actually elapsed.
- `moveSnake` prepends the new head and keeps every old segment. The snake therefore grows by one
  segment on every move that stays inside the field, and by one more per particle eaten.
- The bounds test is strict: a head exactly on an edge is inside (`Scenarios.BoundaryScenario`).
- `checkFood` runs after `moveSnake` even when that move just ended the game. `TimerFired`
  therefore still counts the particles eaten at the final position.
- `checkFood` scans a snapshot of the food list from the last index down. Removing index `i`
  leaves the smaller indices in place, and the replacements go to the end. The final list is the
  uneaten particles in their original order, followed by one replacement per particle eaten.
- Replacement particles always come from `[40, 360) x [80, 760)`, whatever the field size.
  `restartGame` draws its 30 particles from `[40, width - 40) x [80, height - 40)`.
- The drag handler starts the game whenever `gameStarted` is false. It does not look at
  `gameOver`. Under the invariant `Lifecycle` (over or paused implies started) that is the same
  thing.
- `restartGame` does not clear `fingerPos`.

## Model

| member | source | states |
|---|---|---|
| `Game.SnakeGameView.constructor` | test06/ContentView.swift:12-33 | the initial state: one segment at (200, 400), 30 particles in [40,360)x[80,760), direction (1,0), all flags false, score 0, the stored high score, no finger, no start time |
| `Game.SnakeGameView.DragChanged` | test06/ContentView.swift:126-132 | the finger is recorded; the first touch sets `gameStarted` and stamps `startTime` with `now`; a later touch keeps the old start time; the invariants survive |
| `Game.SnakeGameView.DragEnded` | test06/ContentView.swift:133-135 | only `fingerPos` changes, to none; `direction` is kept |
| `Game.SnakeGameView.DoubleTap` | test06/ContentView.swift:139-142 | `isPaused` flips exactly when the game is started and not over; otherwise it is unchanged, and nothing else ever changes |
| `Game.SnakeGameView.TimerFired` | test06/ContentView.swift:145-151 | no state changes unless started, not over and not paused; otherwise the direction is the finger heading; the snake is the moved chain (unchanged when the advanced head leaves the field, else re-spaced behind it) plus one tail copy per particle the moved head eats; the score rises by that number of particles, the food list becomes the survivors plus that many spawned points, and the high score is the maximum of the old high score and the new score; the game is over exactly when the head left the field or, after the grace period, the probe touches an odd-indexed segment of a moved chain longer than 5 |
| `Game.SnakeGameView.UpdateDirection` | test06/ContentView.swift:156-162 | `direction` is unchanged when there is no finger or no snake; otherwise it is `Heading` toward the finger |
| `Game.SnakeGameView.MoveSnake` | test06/ContentView.swift:164-219 | a head advanced outside [0,w]x[0,h] sets `gameOver` and leaves the snake as it was; otherwise the snake is the re-spaced chain behind the new head, one longer, starting at the new head, and `gameOver` becomes true exactly when the grace period is over, the snake has more than 5 segments and the probe touches an odd-indexed segment |
| `Game.SnakeGameView.CheckFood` | test06/ContentView.swift:222-245 | with k particles in reach of the head, the food list becomes the survivors in order plus the first k spawned points (still 30), the score rises by k, the high score becomes the maximum of the old one and the new score, and the snake gains exactly k copies of its tail with nothing else changed |
| `Game.SnakeGameView.EatAt` | test06/ContentView.swift:229-242 | one eaten particle: it is removed from index i, the replacement is appended, the score rises by 1, the high score follows it when beaten, and the tail is doubled |
| `Game.SnakeGameView.RestartGame` | test06/ContentView.swift:248-260 | one segment at the centre of the field, the 30 given particles, direction (1,0), all flags false, score 0, no start time; the high score and the finger are untouched |
| `Geometry.DistSq` | test06/ContentView.swift:185-187 | a squared distance is never negative |
| `Geometry.SqrtOrder` | test06/ContentView.swift:188 | comparing a square root with a non-negative bound is the same as comparing the square with the bound squared, for both `<` and `==` |
| `Motion.HeadingSpec` | test06/ContentView.swift:157-161 | the heading points from the head toward the finger (collinear and not against it), is zero exactly when the finger is on the head, has unit length when the finger is at least 0.001 away and is shorter than 1 otherwise |
| `Motion.AdvanceDistance` | test06/ContentView.swift:167-169 | one fixed frame moves the head by twice the direction vector, so by 2 points along a unit heading |
| `Motion.StepLength` | test06/ContentView.swift:156-169 | steering toward a finger at least 0.001 away and then advancing moves the head exactly 2 points |
| `Motion.FollowSpec` | test06/ContentView.swift:183-196 | a segment within 15 of its predecessor stays where it is; a farther one moves straight toward it, ends exactly 15 away and covers the distance minus 15 |
| `Motion.Respaced` | test06/ContentView.swift:181-198 | the re-spaced chain has as many segments as the input and starts at the new head |
| `Motion.RespacedAt` | test06/ContentView.swift:182-196 | each later segment is its input segment followed toward the already re-spaced predecessor |
| `Motion.RespacedShape` | test06/ContentView.swift:182-196 | each later segment is at most 15 from its re-spaced predecessor; it keeps its old position exactly when it was already within 15, and otherwise ends exactly 15 away |
| `Motion.RespacedSpaced` | test06/ContentView.swift:181-198 | after re-spacing, every adjacent pair is at most 15 apart, whatever the chain was before |
| `Motion.Respace` | test06/ContentView.swift:181-198 | the loop builds exactly `Respaced` of the chain |
| `Motion.ProbeHitsOddSegment` | test06/ContentView.swift:204-216 | the strided scan returns true exactly when some odd-indexed segment (1, 3, 5, ...) is closer to the probe than 5.6 |
| `Feeding.InReach` | test06/ContentView.swift:226-228 | the square-root test of the food loop decides whether the squared distance is below 14 squared |
| `Feeding.Members` | test06/ContentView.swift:225-243 | the eaten particles come from the list and are in reach; the survivors come from the list and are not |
| `Feeding.Partition` | test06/ContentView.swift:225-243 | every particle is eaten or survives, exactly once (as multisets) |
| `Feeding.FoodAfterSpec` | test06/ContentView.swift:225-243 | eating keeps the number of particles, and a particle is in the new list exactly when it is an old particle out of reach or one of the replacements used |
| `Feeding.NothingEaten` | test06/ContentView.swift:225-228 | when no particle is in reach nothing is eaten and the food list is unchanged |
| `Feeding.EatStep` | test06/ContentView.swift:229-234 | removing an eaten particle at index i and appending a replacement keeps the food list equal to the snapshot prefix, then the survivors of the scanned suffix, then the replacements used |
| `Feeding.SkipStep` | test06/ContentView.swift:225-228 | a particle out of reach leaves that same food-list description true with one more index scanned |
| `Feeding.RepeatAll` | test06/ContentView.swift:240-242 | every copy appended to the tail is the tail point |
| `Feeding.SpacedGrowMany` | test06/ContentView.swift:240-242 | appending copies of the tail keeps every adjacent pair within 15 |
| `Scenarios.BoundaryScenario` | test06/ContentView.swift:168-175 | on a 400 x 800 field a head at (398, 400) moving right lands on (400, 400) and stays inside; from (399, 400) it leaves |
| `Scenarios.FoodScenario` | test06/ContentView.swift:225-234 | with the head at (100, 100), a particle at (103, 100) and every other particle out of reach, exactly that one is eaten and it is replaced at the end by the first spawned point |

## Left out

- The SwiftUI `body` is not modelled: layout, overlays, `ForEach` rendering and the head sprite's draw offset are user interface (test06/ContentView.swift:38-122).
- The Combine timer and the gesture recognisers are not modelled. Only the handler bodies are, as methods a caller invokes.
- `@AppStorage` persistence is not modelled. `highScore` is an ordinary field whose starting value is a constructor argument, taken as non-negative because only scores are ever stored.
- `CGFloat.random` is replaced by caller-supplied points. `TimerFired` and `CheckFood` take a `spawn` sequence and use its first k points. The constructor and `RestartGame` take the 30 points, and the range each sample must lie in is a precondition.
- `Date()` is replaced by a `now` parameter in seconds. The finger position is the gesture's location argument.
- Floating-point rounding is not modelled. Coordinates are exact reals and the square root is exact, so 0.001 acts only as the lower clamp of the steering length.
- The square root is a class constant with a contract, not a defined function, because Dafny has no real square root. The geometry facts hold for any function meeting that contract.
- Swift's trap on an empty random range is not modelled. `RestartGame` requires its points to lie in the size-derived range, and no points can when the field is at most 80 wide or at most 120 tall.
- `ContentView` and the `#Preview` wrapper (test06/ContentView.swift:263-271) are not modelled. They only embed the view.
