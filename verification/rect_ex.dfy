/**
 The rectangle helpers: an empty-rectangle sentinel, two predicates on it, the
 point-by-point growth operation `Extend` and the mapping of a point into the
 rectangle's normalised coordinate space.

 Contracts about RectEx's own promises are stated in closed bounds (`Covers`,
 `Encloses`), so they do not depend on whether the engine's containment test
 is half-open; the clauses that name `Contains` are about that engine test
 itself.
 */
module RectEx {
  import opened UnityTypes

  /** `p` lies within the closed bounds of `r`: `xMin <= p.x <= xMax` and
      likewise for y. Nothing lies within the sentinel, and nothing within a
      box whose extent is negative on some axis. */
  predicate Covers(r: Rect, p: Vector2)
  {
    && r.Box?
    && r.xMin <= p.x <= XMax(r)
    && r.yMin <= p.y <= YMax(r)
  }

  /** Both corners of `inner` lie within the closed bounds of `outer`. The
      sentinel is enclosed by every rectangle. */
  predicate Encloses(outer: Rect, inner: Rect)
  {
    match inner
    case Empty => true
    case Box(_, _, _, _) =>
      && Covers(outer, Vector2(inner.xMin, inner.yMin))
      && Covers(outer, Vector2(XMax(inner), YMax(inner)))
  }

  /** The extent is non-negative on both axes. */
  predicate NonNegative(r: Rect)
  {
    r.Box? && r.width >= 0.0 && r.height >= 0.0
  }

  /** The rectangle that holds no point yet. */
  function CreateEmptyRect(): (r: Rect)
    ensures IsEmpty(r)
    ensures forall p :: !Covers(r, p) && !Contains(r, p)
  {
    Empty
  }

  /** True exactly for the sentinel; `RectEx.IsEmpty` tests for a
      not-a-number minimum coordinate. */
  predicate IsEmpty(r: Rect)
    ensures IsEmpty(r) ==> forall v :: !Covers(r, v) && !Contains(r, v)
    ensures !IsEmpty(r) <==> r.Box?
  {
    r.Empty?
  }

  /** A degenerate box: zero width or zero height, so that two opposite edges
      coincide and the engine's half-open test accepts no point. The sentinel
      is not degenerate, since a not-a-number extent compares unequal to
      zero. */
  predicate IsZero(r: Rect)
    ensures IsZero(r) <==> r.Box? && (XMax(r) == r.xMin || YMax(r) == r.yMin)
    ensures IsZero(r) ==> forall v :: !Contains(r, v)
  {
    r.Box? && (r.width == 0.0 || r.height == 0.0)
  }

  /** Grows `r` so that `p` lies inside it. The sentinel becomes the zero-size
      box at `p`; a box that already contains `p` comes back unchanged;
      otherwise each edge moves out just far enough to reach `p`. */
  function Extend(r: Rect, p: Vector2): (e: Rect)
    ensures !IsEmpty(e)
    ensures Covers(e, p)
    ensures NonNegative(e)
    ensures IsEmpty(r) ==> IsZero(e) && Encloses(Box(p.x, p.y, 0.0, 0.0), e)
    ensures Contains(r, p) ==> e == r
    ensures NonNegative(r) ==> Encloses(e, r)
  {
    if IsEmpty(r) then
      Box(p.x, p.y, 0.0, 0.0)
    else if Contains(r, p) then
      r
    else
      var xMin := Min(r.xMin, p.x);
      var yMin := Min(r.yMin, p.y);
      var xMax := Max(XMax(r), p.x);
      var yMax := Max(YMax(r), p.y);
      Box(xMin, yMin, xMax - xMin, yMax - yMin)
  }

  /** The coordinates of `v` relative to `r`, where the minimum corner maps to
      (0, 0) and the maximum corner to (1, 1). RectEx divides by the
      extent, so a caller checks `IsZero` first; the model makes that a
      precondition, together with not being the sentinel. */
  function Normalize(r: Rect, v: Vector2): (n: Vector2)
    requires !IsEmpty(r) && !IsZero(r)
    ensures r.xMin + n.x * r.width == v.x
    ensures r.yMin + n.y * r.height == v.y
  {
    Vector2((v.x - r.xMin) / r.width, (v.y - r.yMin) / r.height)
  }

  /** The inverse of `Normalize`: the point whose normalised coordinates in
      `r` are `n`. It needs no division and is defined for every box. */
  function Denormalize(r: Rect, n: Vector2): (v: Vector2)
    requires !IsEmpty(r)
  {
    Vector2(r.xMin + n.x * r.width, r.yMin + n.y * r.height)
  }
}
