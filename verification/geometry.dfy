/** Axis-aligned boxes and the epsilon-guarded overlap test of `checkCollision`. */
module Geometry {
  import opened Bodies

  datatype Rect = Rect(left: real, top: real, right: real, bottom: real)

  /** The box of `b` when its position is shifted by `(offX, offY)`. */
  function BoxAt(b: Body, offX: real, offY: real): Rect {
    var l := b.x + offX + b.bbox.left;
    var t := b.y + offY + b.bbox.top;
    Rect(l, t, l + b.bbox.width, t + b.bbox.height)
  }

  /** The box of `b` where it stands. */
  function Box(b: Body): Rect {
    BoxAt(b, 0.0, 0.0)
  }

  /** The collision test: `a` and `o` are NOT separated on any of the four
      sides, where a side counts as separated unless `a` reaches more than
      `eps` past it. */
  predicate Overlaps(a: Rect, o: Rect, eps: real) {
    !(a.left >= o.right - eps
      || a.right <= o.left + eps
      || a.top >= o.bottom - eps
      || a.bottom <= o.top + eps)
  }

  /** Overlap means a penetration deeper than `eps` from every side. */
  lemma OverlapIsDeepOnEverySide(a: Rect, o: Rect, eps: real)
    ensures Overlaps(a, o, eps) <==>
      && o.right - a.left > eps
      && a.right - o.left > eps
      && o.bottom - a.top > eps
      && a.bottom - o.top > eps
  {
  }

  /** Boxes that touch along an edge, or that overlap by no more than `eps`
      on some side, do not collide. */
  lemma ShallowContactDoesNotCollide(a: Rect, o: Rect, eps: real)
    requires || o.right - a.left <= eps
             || a.right - o.left <= eps
             || o.bottom - a.top <= eps
             || a.bottom - o.top <= eps
    ensures !Overlaps(a, o, eps)
  {
  }

  /** The test does not depend on which box asks. */
  lemma OverlapSymmetric(a: Rect, o: Rect, eps: real)
    ensures Overlaps(a, o, eps) <==> Overlaps(o, a, eps)
  {
  }

  /** Querying from `a` with offset `(dx, dy)` against `b` is the same as
      querying from `b` with the opposite offset against `a`. */
  lemma QueryFromEitherSide(a: Body, b: Body, dx: real, dy: real, eps: real)
    ensures Overlaps(BoxAt(a, dx, dy), Box(b), eps) <==> Overlaps(BoxAt(b, -dx, -dy), Box(a), eps)
  {
  }
}
