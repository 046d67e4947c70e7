/** The fixed tuning constants of the snake game view. */
module Settings {
  /** Largest distance kept between two neighbouring segments. */
  const SegmentSpacing: real := 15.0
  /** Radius of one drawn segment; the collision and eating radii derive from it. */
  const SnakeRadius: real := 8.0
  /** Head speed in points per second. */
  const MoveSpeed: real := 120.0
  /** Fixed time step of one movement, in seconds (the timer period). */
  const FrameTime: real := 1.0 / 60.0
  /** Seconds after the first touch before self-collision is checked. */
  const CollisionDelay: real := 2.0
  /** Number of food particles on the field. */
  const FoodCount: nat := 30
  /** Lower clamp of the distance used to normalise the steering vector. */
  const MinSteerLength: real := 0.001

  /** How far ahead of the head the collision probe sits (the cat sprite). */
  const ProbeReach: real := SnakeRadius * 2.5
  /** A probe closer than this to a sampled segment is a self-collision. */
  const CollisionRadius: real := SnakeRadius * 0.7
  /** Food closer than this to the head is eaten. */
  const EatRadius: real := SnakeRadius + 6.0
}
