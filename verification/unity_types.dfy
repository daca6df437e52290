/**
 The engine value types the rectangle helpers work on: a 2D vector and an
 axis-aligned rectangle, with the derived edges and the point-containment test
 the engine's rectangle provides. Coordinates are mathematical reals; the
 engine's single-precision floats and their rounding are not modelled.

 RectEx marks "no rectangle yet" by storing not-a-number in every field of
 the engine's rectangle; the engine itself has no such sentinel. Here that
 sentinel is its own constructor, `Empty`, so that every `Box` carries
 ordinary numbers.
 */
module UnityTypes {

  /** A point or direction in the plane. */
  datatype Vector2 = Vector2(x: real, y: real)

  /** A rectangle given by its minimum corner and its extent. The extent may be
      zero or negative: nothing here normalises its sign. */
  datatype Rect =
    | Empty
    | Box(xMin: real, yMin: real, width: real, height: real)

  /** Right edge of a box, `xMin + width`. */
  function XMax(r: Rect): real
    requires r.Box?
  {
    r.xMin + r.width
  }

  /** Top edge of a box, `yMin + height`. */
  function YMax(r: Rect): real
    requires r.Box?
  {
    r.yMin + r.height
  }

  /** The engine's `Rect.Contains(Vector2)`: half-open on both axes, so a point
      on the right or top edge is outside, and a box with a zero or negative
      extent contains nothing. RectEx's sentinel contains nothing either, since
      every comparison with not-a-number is false. */
  predicate Contains(r: Rect, p: Vector2)
  {
    && r.Box?
    && r.xMin <= p.x < XMax(r)
    && r.yMin <= p.y < YMax(r)
  }

  /** `Mathf.Min` on two values. */
  function Min(a: real, b: real): real
  {
    if a < b then a else b
  }

  /** `Mathf.Max` on two values. */
  function Max(a: real, b: real): real
  {
    if a > b then a else b
  }
}
