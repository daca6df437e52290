# Rectangle bounds accumulation, modelled in Dafny

A model of the `RectEx` helpers of the UnityEngineEx extension library. The
helpers keep a 2D axis-aligned bounding rectangle that starts out "empty",
grows point by point through `Extend`, and maps points into the rectangle's
normalised coordinate space through `Normalize`.

Modules:

- `UnityTypes` (`unity_types.dfy`): the engine's `Vector2` and `Rect` value
  types. A rect is `Empty` (RectEx's all-not-a-number sentinel) or
  `Box(xMin, yMin, width, height)`. The module also holds the derived edges
  `XMax` and `YMax`, the engine's `Rect.Contains(Vector2)`, and `Mathf.Min`/`Mathf.Max`.
- `RectEx` (`rect_ex.dfy`): `CreateEmptyRect`, `IsEmpty`, `IsZero`, `Extend`
  and `Normalize`. It also defines the closed-bounds predicates `Covers` and
  `Encloses`, which state the contracts without depending on the engine's
  half-open containment rule, and `Denormalize`, the inverse of `Normalize`.
- `RectExProperties` (`rect_ex_properties.dfy`): lemmas that relate several
  calls. These cover the point rect made from the sentinel, idempotence, order
  independence, least-box and tightness, and the corner mapping and round trip
  of `Normalize`. Concrete lemmas mark where the doc comments' promises stop
  holding: the engine's half-open test and negative extents.
- `Bounds` (`bounds.dfy`): `Extend` folded over a sequence of points from the
  sentinel. The result is the bounding box of the points, as defined
  independently by `IsBoundingBox`. It does not depend on the order of the
  points or on repeated points.

Coordinates are Dafny `real`s. `Rect.Contains(Vector2)` is engine code that
RectEx.cs only calls (in `Extend`). It is modelled as the engine's half-open
test `xMin <= x < xMax && yMin <= y < yMax`.

Over the reals, `Extend` on any non-empty rect equals the per-axis min/max hull
of the rect and the point (`ExtendIsHull`). The "already contains" branch fires
only when the hull would give the rect back. So extension order never matters
(`ExtendCommutes`), even for rects with a negative extent. The guarantee that
the old box stays enclosed does need a non-negative extent, and
`ExtendInvertedMayLoseCorner` shows an inverted rect losing its minimum corner.

## Model

| member | source | states |
|---|---|---|
| RectEx.CreateEmptyRect | Assets/scripts/UnityEngineEx/RectEx.cs:8-16 | the created rect is empty by `IsEmpty` and holds no point, neither in closed bounds nor by the engine's `Contains` |
| RectEx.IsEmpty | Assets/scripts/UnityEngineEx/RectEx.cs:13-16 | true exactly for the sentinel: an empty rect holds no point, in closed bounds or by the engine's `Contains`, and every non-empty rect is a box with defined bounds; `CreateEmptyRect` satisfies it and `Extend` never returns it |
| RectEx.IsZero | Assets/scripts/UnityEngineEx/RectEx.cs:18-21 | true exactly for a box two of whose opposite edges coincide (zero width or height), never for the sentinel; such a box contains no point by the engine's test, so `Extend` never takes its `return rect` branch (RectEx.cs:34) on it |
| RectEx.Extend | Assets/scripts/UnityEngineEx/RectEx.cs:29-41 | the result is never empty, holds `p` within its closed bounds and has non-negative width and height; from the sentinel it is a degenerate rect sitting at `p`; a rect that already contains `p` comes back unchanged; a rect of non-negative extent stays enclosed by the result |
| RectEx.Normalize | Assets/scripts/UnityEngineEx/RectEx.cs:44-53 | for a non-empty, non-degenerate rect, scaling the normalised coordinates by the extent and offsetting by the minimum corner gives back the input point on each axis |
| RectExProperties.ExtendEmptyIsPointRect | Assets/scripts/UnityEngineEx/RectEx.cs:31-32 | extending the empty rect by `p` yields `(p.x, p.y, 0, 0)`, which is not empty but is degenerate by `IsZero` |
| RectExProperties.ExtendIsHull | Assets/scripts/UnityEngineEx/RectEx.cs:33-41 | on every non-empty rect, both the unchanged branch and the min/max branch equal the per-axis min/max hull of the rect and `p`, so over the reals the `Contains` shortcut changes no result |
| RectExProperties.ExtendIsLeast | Assets/scripts/UnityEngineEx/RectEx.cs:36-41 | any box that encloses the rect and holds `p` also encloses the extended rect, so `Extend` grows no further than needed |
| RectExProperties.ExtendEdgesAreTight | Assets/scripts/UnityEngineEx/RectEx.cs:36-41 | each edge of the extended rect is the old rect's edge or a coordinate of `p` |
| RectExProperties.ExtendIdempotent | Assets/scripts/UnityEngineEx/RectEx.cs:29-41 | extending twice by the same point equals extending once, from any starting rect |
| RectExProperties.ExtendCommutes | Assets/scripts/UnityEngineEx/RectEx.cs:36-41 | extending by `p` then `q` equals extending by `q` then `p`, from any starting rect |
| RectExProperties.ExtendInvertedMayLoseCorner | Assets/scripts/UnityEngineEx/RectEx.cs:38-41 | a rect of width -5 at x = 0, extended by x = -10, becomes the range [-10, -5], which no longer encloses the old minimum corner; so the growth guarantee needs non-negative extent |
| RectExProperties.ExtendTwoPointsExample | Assets/scripts/UnityEngineEx/RectEx.cs:29-41 | empty, then (2, 3), then (5, 1) gives the rect at (2, 1) with width 3 and height 2 |
| RectExProperties.ContainsSomeIffPositive | Assets/scripts/UnityEngineEx/RectEx.cs:18-21 | a box contains some point by the engine's test exactly when its extent is non-negative and it is not degenerate by `IsZero`; so a degenerate box never takes `Extend`'s unchanged branch |
| RectExProperties.ExtendLeavesPointOnOpenEdge | Assets/scripts/UnityEngineEx/RectEx.cs:23-41 | a point beyond a box's right or top edge is not contained, by the engine's half-open test, in the extended box: the "p is inside rect" promise holds only in closed bounds |
| RectExProperties.ExtendEmptyDoesNotContainPoint | Assets/scripts/UnityEngineEx/RectEx.cs:23-32 | the point rect made from the sentinel does not contain its own point by the engine's test |
| RectExProperties.NormalizeInvertedInUnitButOutside | Assets/scripts/UnityEngineEx/RectEx.cs:44-53 | for the box at (0, 0) with extent -5 on both axes, (-2, -2) normalises to (0.4, 0.4) yet is neither within the closed bounds nor contained: "in [0..1] exactly when inside" needs non-negative extent |
| RectExProperties.NormalizeInvertedUnitIffBetweenEdges | Assets/scripts/UnityEngineEx/RectEx.cs:44-53 | on an axis with negative width, the normalised coordinate is in [0, 1] exactly when the point lies from `xMax` up to `xMin`, i.e. inside in the inverted sense |
| RectExProperties.NormalizeCorners | Assets/scripts/UnityEngineEx/RectEx.cs:50-53 | the minimum corner maps to (0, 0) and the maximum corner to (1, 1) |
| RectExProperties.NormalizeRoundTrip | Assets/scripts/UnityEngineEx/RectEx.cs:50-53 | `Normalize` and `Denormalize` are inverse to each other in both directions |
| RectExProperties.NormalizeCoversIff | Assets/scripts/UnityEngineEx/RectEx.cs:44-53 | for positive width and height, a point lies within the closed bounds exactly when both normalised coordinates are in [0, 1] |
| RectExProperties.NormalizeContainsIff | Assets/scripts/UnityEngineEx/RectEx.cs:44-53 | for positive width and height, the engine's containment holds exactly when both normalised coordinates are in [0, 1) |
| Bounds.BoundsOf | Assets/scripts/UnityEngineEx/RectEx.cs:29-41 | folding `Extend` over points from the empty rect gives an empty result exactly for no points, and otherwise a rect that holds every point within its closed bounds |
| Bounds.BoundsIsBoundingBox | Assets/scripts/UnityEngineEx/RectEx.cs:29-41 | for a non-empty point sequence the fold is the bounding box: every point lies inside and each of the four edges is touched by some point |
| Bounds.BoundsIsLeast | Assets/scripts/UnityEngineEx/RectEx.cs:36-41 | every box that holds all the points encloses the folded rect |
| Bounds.BoundsOrderIndependent | Assets/scripts/UnityEngineEx/RectEx.cs:36-41 | two point sequences with the same points give the same rect, whatever the order and however often a point repeats |
| Bounds.BoundsPermutation | Assets/scripts/UnityEngineEx/RectEx.cs:36-41 | a permutation of the points gives the same rect |

## Left out

- RectEx.Normalize: requires a non-empty, non-degenerate rect. With zero width or height the float division in RectEx.cs:52 yields an infinity or not-a-number, and with the sentinel every coordinate is not-a-number. Reals have neither, so those inputs are excluded rather than modelled.
- RectEx.Extend: the doc comment's "p is inside rect" (RectEx.cs:24) is proved only in closed bounds (`Covers`). By the engine's half-open `Contains` it fails whenever `p` becomes the right or top edge, and always for the point rect made from the sentinel (`ExtendLeavesPointOnOpenEdge`, `ExtendEmptyDoesNotContainPoint`).
- RectEx.Extend: not-a-number and infinite point coordinates are not modelled. In the float code `Mathf.Min(a, NaN)` is NaN, so extending by a point with a NaN coordinate yields a rect that `IsEmpty` reports as empty, against "never empty" here. An infinite coordinate yields an infinite width or height, and a later `xMin + width` can then be NaN.
- RectEx.Normalize: the doc comment's "in range [0..1] if the point is inside, otherwise outside" (RectEx.cs:45) is proved, in both directions, only for a non-negative, non-degenerate extent (`NormalizeCoversIff`, `NormalizeContainsIff`). For a negative extent, [0, 1] means lying between the edges taken the other way round (`NormalizeInvertedUnitIffBetweenEdges`), and such a point is outside by `Contains(Vector2)` (`NormalizeInvertedInUnitButOutside`).
- RectEx.IsEmpty: true exactly for the `Empty` constructor. `RectEx.IsEmpty` tests for a not-a-number `xMin` or `yMin`, so a rect with not-a-number only in its width or height is not empty there. Boxes here carry no not-a-number values, so that case cannot arise.
- Floating point in general: rounding in `xMax - xMin` (RectEx.cs:41) and in the division of `Normalize` is not modelled. Over floats, `ExtendIdempotent`, `ExtendCommutes` and `NormalizeRoundTrip` can fail by a rounding step.
- `Rect.Contains(Vector2)` is engine code that RectEx.cs only calls. It is modelled as the engine's documented half-open test. Contracts about RectEx's own promises are stated in closed bounds (`Covers`, `Encloses`); the contracts and lemmas that name `Contains` are about the engine test itself.
- TransformEx.cs is not part of this model: `Add`, both `Clear` overloads, `ClearImmidiate`, `Unlink`, `SetActive` and both `Find` overloads. Each wraps engine objects whose code is not available: re-parenting and local transforms, deferred `GameObject.Destroy`, path lookup, components and logging. The code iterates the live transform (TransformEx.cs:35, 63-64), and what that does depends on the engine's enumerator.
- ColorEx.cs (`Alpha`) is not part of this model. It only calls the engine's `Color` constructor.
- MeshRendererEditor.cs is not part of this model. It is editor UI layout plus a reflective read of a non-public sorting-layer list.
