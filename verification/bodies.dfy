/** The physical part of an entity record: position, bounding box and speed,
    all in world units (coordinates are `real`; the source's floating-point
    rounding is not modelled). */
module Bodies {
  import opened Optional

  /** Box offsets relative to the entity's position, plus its size. */
  datatype BBox = BBox(left: real, top: real, width: real, height: real)

  datatype Body = Body(x: real, y: real, bbox: BBox, speedX: real, speedY: real)

  /** A type-specific field value. The engine only copies these around. */
  datatype Opaque = Opaque(tag: nat)

  type Fields = map<string, Opaque>

  /** A type's default state: it may override any core field (the `bbox` as a
      whole, as a shallow merge does) and adds type-specific fields. */
  datatype Defaults = Defaults(
    x: Option<real>,
    y: Option<real>,
    bbox: Option<BBox>,
    speedX: Option<real>,
    speedY: Option<real>,
    extra: Fields)

  const ZeroBox := BBox(0.0, 0.0, 0.0, 0.0)

  /** A fresh record: every core field zero, then the type's overrides merged in. */
  function InitialBody(d: Defaults): (b: Body)
    ensures d.x.Some? ==> b.x == d.x.value
    ensures d.x.None? ==> b.x == 0.0
    ensures d.y.Some? ==> b.y == d.y.value
    ensures d.y.None? ==> b.y == 0.0
    ensures d.bbox.Some? ==> b.bbox == d.bbox.value
    ensures d.bbox.None? ==> b.bbox == ZeroBox
    ensures d.speedX.Some? ==> b.speedX == d.speedX.value
    ensures d.speedX.None? ==> b.speedX == 0.0
    ensures d.speedY.Some? ==> b.speedY == d.speedY.value
    ensures d.speedY.None? ==> b.speedY == 0.0
  {
    Body(d.x.GetOr(0.0), d.y.GetOr(0.0), d.bbox.GetOr(ZeroBox), d.speedX.GetOr(0.0), d.speedY.GetOr(0.0))
  }
}
