/**
 Growing a rectangle point by point over a whole sequence, the way the helpers
 are meant to be used: start from the sentinel and `Extend` by each point in
 turn. The result is the bounding box of the points, whatever their order and
 however often a point repeats.
 */
module Bounds {
  import opened UnityTypes
  import opened RectEx
  import opened RectExProperties

  /** The sentinel extended by each point of `points`, left to right. */
  function BoundsOf(points: seq<Vector2>): (r: Rect)
    ensures IsEmpty(r) <==> |points| == 0
    ensures forall i :: 0 <= i < |points| ==> Covers(r, points[i])
    decreases |points|
  {
    if |points| == 0 then
      CreateEmptyRect()
    else
      var prefix := points[..|points| - 1];
      var prev := BoundsOf(prefix);
      var next := Extend(prev, points[|points| - 1]);
      assert forall i :: 0 <= i < |prefix| ==> Covers(next, prefix[i]) by {
        forall i | 0 <= i < |prefix| {
          CoversGrows(prev, next, prefix[i]);
        }
      }
      next
  }

  /** `r` is the bounding box of `points`: a box whose closed bounds hold every
      point, each of whose four edges is touched by some point. */
  ghost predicate IsBoundingBox(r: Rect, points: seq<Vector2>)
  {
    && r.Box?
    && (forall p :: p in points ==> Covers(r, p))
    && (exists p :: p in points && p.x == r.xMin)
    && (exists p :: p in points && p.y == r.yMin)
    && (exists p :: p in points && p.x == XMax(r))
    && (exists p :: p in points && p.y == YMax(r))
  }

  /** A point within a box stays within every box that encloses it. */
  lemma CoversGrows(inner: Rect, outer: Rect, p: Vector2)
    requires Covers(inner, p) && Encloses(outer, inner)
    ensures Covers(outer, p)
  {
  }

  /** Folding `Extend` over a non-empty sequence gives its bounding box. */
  lemma {:induction false} BoundsIsBoundingBox(points: seq<Vector2>)
    requires |points| > 0
    ensures IsBoundingBox(BoundsOf(points), points)
  {
    var n := |points|;
    var last := points[n - 1];
    var r := BoundsOf(points);
    assert forall p :: p in points ==> Covers(r, p) by {
      forall p | p in points
        ensures Covers(r, p)
      {
        var i :| 0 <= i < n && points[i] == p;
      }
    }
    if n == 1 {
      assert last in points;
      assert r == Box(last.x, last.y, 0.0, 0.0);
    } else {
      var prefix := points[..n - 1];
      var prev := BoundsOf(prefix);
      BoundsIsBoundingBox(prefix);
      ExtendEdgesAreTight(prev, last);
      assert last in points;
      assert forall p :: p in prefix ==> p in points by {
        forall p | p in prefix
          ensures p in points
        {
          var i :| 0 <= i < |prefix| && prefix[i] == p;
          assert points[i] == p;
        }
      }
    }
  }

  /** Two bounding boxes of the same points are the same box. */
  lemma BoundingBoxUnique(r1: Rect, r2: Rect, points: seq<Vector2>)
    requires IsBoundingBox(r1, points) && IsBoundingBox(r2, points)
    ensures r1 == r2
  {
    var a :| a in points && a.x == r1.xMin;
    var b :| b in points && b.y == r1.yMin;
    var c :| c in points && c.x == XMax(r1);
    var d :| d in points && d.y == YMax(r1);
    var a' :| a' in points && a'.x == r2.xMin;
    var b' :| b' in points && b'.y == r2.yMin;
    var c' :| c' in points && c'.x == XMax(r2);
    var d' :| d' in points && d'.y == YMax(r2);
    assert Covers(r1, a') && Covers(r1, b') && Covers(r1, c') && Covers(r1, d');
    assert Covers(r2, a) && Covers(r2, b) && Covers(r2, c) && Covers(r2, d);
  }

  /** The accumulated box depends only on which points were seen: not on their
      order, nor on how often each one occurs. */
  lemma BoundsOrderIndependent(s: seq<Vector2>, t: seq<Vector2>)
    requires forall p :: p in s <==> p in t
    ensures BoundsOf(s) == BoundsOf(t)
  {
    if |s| > 0 || |t| > 0 {
      var p := if |s| > 0 then s[0] else t[0];
      assert p in s && p in t;
      BoundsIsBoundingBox(s);
      BoundsIsBoundingBox(t);
      BoundingBoxUnique(BoundsOf(s), BoundsOf(t), s);
    }
  }

  /** A reordering of the points gives the same box. */
  lemma BoundsPermutation(s: seq<Vector2>, t: seq<Vector2>)
    requires multiset(s) == multiset(t)
    ensures BoundsOf(s) == BoundsOf(t)
  {
    assert forall p :: p in s <==> p in multiset(s);
    assert forall p :: p in t <==> p in multiset(t);
    BoundsOrderIndependent(s, t);
  }

  /** Every box that holds all the points encloses the accumulated box. */
  lemma {:induction false} BoundsIsLeast(points: seq<Vector2>, b: Rect)
    requires forall p :: p in points ==> Covers(b, p)
    ensures Encloses(b, BoundsOf(points))
  {
    var n := |points|;
    if n > 0 {
      var prefix := points[..n - 1];
      assert forall p :: p in prefix ==> Covers(b, p) by {
        forall p | p in prefix
          ensures Covers(b, p)
        {
          var i :| 0 <= i < |prefix| && prefix[i] == p;
          assert points[i] == p;
        }
      }
      BoundsIsLeast(prefix, b);
      assert points[n - 1] in points;
      ExtendIsLeast(BoundsOf(prefix), points[n - 1], b);
    }
  }
}
