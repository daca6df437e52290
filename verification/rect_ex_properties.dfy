/**
 Properties of the rectangle helpers that relate several calls: the point rect
 made from the sentinel, idempotence and order independence of `Extend`, and
 the corner mapping and inverse of `Normalize`.
 */
module RectExProperties {
  import opened UnityTypes
  import opened RectEx

  /** The smallest box around a non-empty `r` and a point `p`, written as the
      per-axis minimum and maximum without asking whether `r` already holds
      `p`. It is the reference `ExtendIsHull` compares `Extend` with. */
  function Hull(r: Rect, p: Vector2): (h: Rect)
    requires !IsEmpty(r)
  {
    var xMin := Min(r.xMin, p.x);
    var yMin := Min(r.yMin, p.y);
    Box(xMin, yMin, Max(XMax(r), p.x) - xMin, Max(YMax(r), p.y) - yMin)
  }

  /** The sentinel is empty, and one `Extend` turns it into the zero-size box
      at the point, which is no longer empty but is degenerate. */
  lemma ExtendEmptyIsPointRect(p: Vector2)
    ensures Extend(CreateEmptyRect(), p) == Box(p.x, p.y, 0.0, 0.0)
    ensures !IsEmpty(Extend(CreateEmptyRect(), p))
    ensures IsZero(Extend(CreateEmptyRect(), p))
  {
  }

  /** Whichever branch it takes, `Extend` on a box computes the per-axis
      minimum and maximum of the box and the point. So the shortcut that
      returns a box already containing the point changes no result over the
      reals: on such a box the minimum and maximum give the box back. */
  lemma ExtendIsHull(r: Rect, p: Vector2)
    requires !IsEmpty(r)
    ensures Extend(r, p) == Hull(r, p)
  {
  }

  /** `Extend` gives the least box that grows: any box that encloses `r` and
      holds `p` within its closed bounds also encloses the result. */
  lemma ExtendIsLeast(r: Rect, p: Vector2, b: Rect)
    requires Encloses(b, r) && Covers(b, p)
    ensures Encloses(b, Extend(r, p))
  {
  }

  /** Every edge of the grown box is an edge of the old box or a coordinate of
      the point: `Extend` moves no edge further than it has to. Together with
      `ExtendIsLeast`, this pins the result down. */
  lemma ExtendEdgesAreTight(r: Rect, p: Vector2)
    requires !IsEmpty(r)
    ensures Extend(r, p).xMin == r.xMin || Extend(r, p).xMin == p.x
    ensures Extend(r, p).yMin == r.yMin || Extend(r, p).yMin == p.y
    ensures XMax(Extend(r, p)) == XMax(r) || XMax(Extend(r, p)) == p.x
    ensures YMax(Extend(r, p)) == YMax(r) || YMax(Extend(r, p)) == p.y
  {
  }

  /** Extending twice by the same point is extending once. */
  lemma ExtendIdempotent(r: Rect, p: Vector2)
    ensures Extend(Extend(r, p), p) == Extend(r, p)
  {
  }

  /** The order in which two points are added does not matter. Over the reals
      this holds for every starting rectangle, including the sentinel and
      boxes with a negative extent, because both orders yield the box from the
      smallest to the largest coordinate among the start's edges and the two
      points. */
  lemma ExtendCommutes(r: Rect, p: Vector2, q: Vector2)
    ensures Extend(Extend(r, p), q) == Extend(Extend(r, q), p)
  {
  }

  /** The growth guarantee needs a non-negative extent: a box whose width is
      negative can lose its minimum corner. With xMin = 0 and width = -5 the
      right edge sits at -5, and adding x = -10 gives the range [-10, -5],
      which leaves the old xMin = 0 outside. */
  lemma ExtendInvertedMayLoseCorner()
    ensures Extend(Box(0.0, 0.0, -5.0, 1.0), Vector2(-10.0, 0.0)) == Box(-10.0, 0.0, 5.0, 1.0)
    ensures !Encloses(Extend(Box(0.0, 0.0, -5.0, 1.0), Vector2(-10.0, 0.0)), Box(0.0, 0.0, -5.0, 1.0))
  {
    var r, p := Box(0.0, 0.0, -5.0, 1.0), Vector2(-10.0, 0.0);
    var e := Extend(r, p);
    assert e == Box(-10.0, 0.0, 5.0, 1.0) by {
      assert XMax(r) == -5.0;
      assert !Contains(r, p);
      assert Min(r.xMin, p.x) == -10.0;
    }
    assert XMax(e) == -5.0;
    assert !Covers(e, Vector2(r.xMin, r.yMin));
  }

  /** A worked case: the sentinel grown by (2, 3) and then by (5, 1) is the box
      at (2, 1) of width 3 and height 2. */
  lemma ExtendTwoPointsExample()
    ensures Extend(CreateEmptyRect(), Vector2(2.0, 3.0)) == Box(2.0, 3.0, 0.0, 0.0)
    ensures Extend(Extend(CreateEmptyRect(), Vector2(2.0, 3.0)), Vector2(5.0, 1.0))
            == Box(2.0, 1.0, 3.0, 2.0)
  {
    var r := Extend(CreateEmptyRect(), Vector2(2.0, 3.0));
    assert r == Box(2.0, 3.0, 0.0, 0.0);
    assert Extend(r, Vector2(5.0, 1.0)) == Box(2.0, 1.0, 3.0, 2.0) by {
      assert !Contains(r, Vector2(5.0, 1.0));
      assert Min(r.xMin, 5.0) == 2.0 && Max(XMax(r), 5.0) == 5.0;
      assert Min(r.yMin, 1.0) == 1.0 && Max(YMax(r), 1.0) == 3.0;
    }
  }

  /** A box holds some point by the engine's containment test exactly when
      its extent is non-negative and it is not degenerate. So a degenerate
      box, such as the point rect made from the sentinel, never takes the
      unchanged branch of `Extend`. */
  lemma ContainsSomeIffPositive(r: Rect)
    requires r.Box?
    ensures (exists v :: Contains(r, v)) <==> NonNegative(r) && !IsZero(r)
  {
    if NonNegative(r) && !IsZero(r) {
      assert Contains(r, Vector2(r.xMin, r.yMin));
    }
  }

  /** `Extend` does not make the point contained in the engine's half-open
      sense: a point beyond the right (or top) edge becomes the new right (or
      top) edge, which the half-open test excludes. The point is only within
      the closed bounds (the `Covers` postcondition of `Extend`). */
  lemma ExtendLeavesPointOnOpenEdge(r: Rect, p: Vector2)
    requires r.Box? && (p.x > XMax(r) || p.y > YMax(r))
    ensures !Contains(Extend(r, p), p)
  {
  }

  /** The point rect made from the sentinel does not contain its own point by
      the engine's test, since its extent is zero. */
  lemma ExtendEmptyDoesNotContainPoint(p: Vector2)
    ensures !Contains(Extend(CreateEmptyRect(), p), p)
  {
  }

  /** The minimum corner maps to (0, 0) and the maximum corner to (1, 1). */
  lemma NormalizeCorners(r: Rect)
    requires !IsEmpty(r) && !IsZero(r)
    ensures Normalize(r, Vector2(r.xMin, r.yMin)) == Vector2(0.0, 0.0)
    ensures Normalize(r, Vector2(XMax(r), YMax(r))) == Vector2(1.0, 1.0)
  {
    assert XMax(r) - r.xMin == r.width && YMax(r) - r.yMin == r.height;
    assert r.width / r.width == 1.0 && r.height / r.height == 1.0;
  }

  /** `Normalize` and `Denormalize` undo each other. */
  lemma NormalizeRoundTrip(r: Rect, v: Vector2, n: Vector2)
    requires !IsEmpty(r) && !IsZero(r)
    ensures Denormalize(r, Normalize(r, v)) == v
    ensures Normalize(r, Denormalize(r, n)) == n
  {
    var d := Denormalize(r, n);
    assert (d.x - r.xMin) / r.width == n.x;
    assert (d.y - r.yMin) / r.height == n.y;
  }

  /** For a box with positive extent, a point is within the closed bounds
      exactly when both its normalised coordinates are in [0, 1]. */
  lemma NormalizeCoversIff(r: Rect, v: Vector2)
    requires NonNegative(r) && !IsZero(r)
    ensures var n := Normalize(r, v);
            Covers(r, v) <==> 0.0 <= n.x <= 1.0 && 0.0 <= n.y <= 1.0
  {
    var n := Normalize(r, v);
    UnitScaled(n.x, r.width, v.x - r.xMin);
    UnitScaled(n.y, r.height, v.y - r.yMin);
  }

  /** Normalised coordinates in [0, 1] do not mean the point is inside when the
      extent is negative: for the box at (0, 0) with width and height -5, the
      point (-2, -2) normalises to (0.4, 0.4), yet lies neither within the
      closed bounds nor inside by the engine's test. */
  lemma NormalizeInvertedInUnitButOutside()
    ensures Normalize(Box(0.0, 0.0, -5.0, -5.0), Vector2(-2.0, -2.0)) == Vector2(0.4, 0.4)
    ensures !Covers(Box(0.0, 0.0, -5.0, -5.0), Vector2(-2.0, -2.0))
    ensures !Contains(Box(0.0, 0.0, -5.0, -5.0), Vector2(-2.0, -2.0))
  {
  }

  /** On an inverted axis the normalised coordinate is in [0, 1] exactly when
      the point lies between the two edges taken the other way round, from
      `XMax` up to `xMin`: inside in the inverted sense, though outside by the
      engine's `Contains(Vector2)`. */
  lemma NormalizeInvertedUnitIffBetweenEdges(r: Rect, v: Vector2)
    requires !IsEmpty(r) && !IsZero(r) && r.width < 0.0
    ensures 0.0 <= Normalize(r, v).x <= 1.0 <==> XMax(r) <= v.x <= r.xMin
  {
  }

  /** For a box with positive extent, the engine's half-open containment holds
      exactly when both normalised coordinates are in [0, 1). */
  lemma NormalizeContainsIff(r: Rect, v: Vector2)
    requires NonNegative(r) && !IsZero(r)
    ensures var n := Normalize(r, v);
            Contains(r, v) <==> 0.0 <= n.x < 1.0 && 0.0 <= n.y < 1.0
  {
    var n := Normalize(r, v);
    UnitScaled(n.x, r.width, v.x - r.xMin);
    UnitScaled(n.y, r.height, v.y - r.yMin);
  }

  /** Scaling by a positive factor keeps a value's position relative to 0 and
      to 1. */
  lemma UnitScaled(t: real, w: real, d: real)
    requires w > 0.0 && t * w == d
    ensures 0.0 <= t <==> 0.0 <= d
    ensures t <= 1.0 <==> d <= w
    ensures t < 1.0 <==> d < w
  {
    if t < 0.0 { assert t * w < 0.0; }
    if t > 1.0 { assert t * w > 1.0 * w; }
    if t >= 1.0 { assert t * w >= 1.0 * w; }
  }
}
