/** The two-phase move of `moveAndCheckForObstacles`, stated on bodies: a
    horizontal stop against the wall the horizontal probe found, a vertical
    landing or ceiling bounce against the wall the vertical probe found, then
    the translation by speed times `deltaTime`. The probes themselves are
    collision queries and live with each engine. */
module Motion {
  import opened Optional
  import opened Bodies
  import opened Geometry

  /** The factor a ceiling hit multiplies the vertical speed by. */
  const Bounce: real := -0.5

  /** Horizontal phase: on a hit, snap flush against the wall on the side the
      entity was moving towards, and stop horizontally. */
  function AfterHorizontal(b: Body, wall: Option<Body>): (r: Body)
    ensures wall.None? ==> r == b
    ensures r.y == b.y && r.bbox == b.bbox && r.speedY == b.speedY
    ensures wall.Some? ==> r.speedX == 0.0
    ensures wall.Some? && b.speedX > 0.0 ==> Box(r).right == Box(wall.value).left
    ensures wall.Some? && b.speedX <= 0.0 ==> Box(r).left == Box(wall.value).right
  {
    match wall
    case None => b
    case Some(w) =>
      if b.speedX > 0.0 then
        b.(x := w.x + w.bbox.left - b.bbox.left - b.bbox.width, speedX := 0.0)
      else
        b.(x := w.x + w.bbox.left + w.bbox.width - b.bbox.left, speedX := 0.0)
  }

  /** Vertical phase: on a hit while falling, rest on the wall's top and stop;
      otherwise hang under the wall's bottom and bounce back at half speed. */
  function AfterVertical(b: Body, wall: Option<Body>): (r: Body)
    ensures wall.None? ==> r == b
    ensures r.x == b.x && r.bbox == b.bbox && r.speedX == b.speedX
    ensures wall.Some? && b.speedY > 0.0 ==> Box(r).bottom == Box(wall.value).top && r.speedY == 0.0
    ensures wall.Some? && b.speedY <= 0.0 ==> Box(r).top == Box(wall.value).bottom && r.speedY == Bounce * b.speedY
  {
    match wall
    case None => b
    case Some(w) =>
      if b.speedY > 0.0 then
        b.(y := w.y + w.bbox.top - b.bbox.top - b.bbox.height, speedY := 0.0)
      else
        b.(y := w.y + w.bbox.top + w.bbox.height - b.bbox.top, speedY := b.speedY * Bounce)
  }

  /** The distance covered at `speed` during `dt`. */
  function Travel(speed: real, dt: real): real {
    speed * dt
  }

  /** The final, unconditional translation by the speeds left after both phases. */
  function Advance(b: Body, dt: real): Body {
    b.(x := b.x + Travel(b.speedX, dt), y := b.y + Travel(b.speedY, dt))
  }

  /** Every outcome of one move of `b` during `dt`, given the walls the two
      probes found (`h` horizontally, `v` vertically), ending at `r`. */
  predicate Resolved(b: Body, h: Option<Body>, v: Option<Body>, dt: real, r: Body) {
    && r.bbox == b.bbox
    && (h.Some? && b.speedX > 0.0 ==> Box(r).right == Box(h.value).left && r.speedX == 0.0)
    && (h.Some? && b.speedX <= 0.0 ==> Box(r).left == Box(h.value).right && r.speedX == 0.0)
    && (h.None? ==> r.x == b.x + Travel(b.speedX, dt) && r.speedX == b.speedX)
    && (v.Some? && b.speedY > 0.0 ==> Box(r).bottom == Box(v.value).top && r.speedY == 0.0)
    && (v.Some? && b.speedY <= 0.0 ==>
          r.speedY == Bounce * b.speedY && Box(r).top == Box(v.value).bottom + Travel(r.speedY, dt))
    && (v.None? ==> r.y == b.y + Travel(b.speedY, dt) && r.speedY == b.speedY)
  }

  /** The three steps in order: horizontal stop, vertical stop, translation. */
  function Resolve(b: Body, h: Option<Body>, v: Option<Body>, dt: real): (r: Body)
    ensures Resolved(b, h, v, dt, r)
  {
    Advance(AfterVertical(AfterHorizontal(b, h), v), dt)
  }

  /** After the move the entity does not overlap the walls that stopped it:
      a horizontal wall is left touching, a floor is landed on, and a ceiling
      is moved away from (for a non-negative `deltaTime`). */
  lemma {:induction false} StopsClearTheirWalls(b: Body, h: Option<Body>, v: Option<Body>, dt: real, r: Body, eps: real)
    requires Resolved(b, h, v, dt, r)
    requires eps >= 0.0 && dt >= 0.0
    ensures h.Some? ==> !Overlaps(Box(r), Box(h.value), eps)
    ensures v.Some? ==> !Overlaps(Box(r), Box(v.value), eps)
  {
  }
}
