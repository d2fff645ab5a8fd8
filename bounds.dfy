/** Axis-aligned bounding boxes and the scene objects the hierarchy indexes.
    The object capabilities (bounding box and centroid) are the fields of an
    Object value; `extend` is the componentwise union of two boxes. */
module Bounds {
  import opened Vectors

  /** An axis-aligned box, or the empty box that starts every union. */
  datatype AABB = Empty | Box(min: Vector, max: Vector)

  /** A scene object as seen by the builder: an identity, the box reported by
      its bounding-box query and the point reported by its centroid query. */
  datatype Object = Object(id: nat, bbox: AABB, centroid: Vector)

  function GetBoundingBox(o: Object): AABB { o.bbox }

  function GetCentroid(o: Object): Vector { o.centroid }

  function Min(a: real, b: real): real { if a <= b then a else b }

  function Max(a: real, b: real): real { if a <= b then b else a }

  /** Componentwise minimum and maximum of two corners. */
  function MinCorner(a: Vector, b: Vector): (r: Vector)
    ensures forall i :: AxisValue(r, i) == Min(AxisValue(a, i), AxisValue(b, i))
  {
    Vector(Min(a.x, b.x), Min(a.y, b.y), Min(a.z, b.z))
  }

  function MaxCorner(a: Vector, b: Vector): (r: Vector)
    ensures forall i :: AxisValue(r, i) == Max(AxisValue(a, i), AxisValue(b, i))
  {
    Vector(Max(a.x, b.x), Max(a.y, b.y), Max(a.z, b.z))
  }

  /** `inner` lies within `outer` on every axis (the empty box lies in every box). */
  predicate Contains(outer: AABB, inner: AABB)
  {
    inner.Empty? ||
    (outer.Box? &&
     forall i :: 0 <= i <= 2 ==>
       AxisValue(outer.min, i) <= AxisValue(inner.min, i) &&
       AxisValue(inner.max, i) <= AxisValue(outer.max, i))
  }

  /** The smallest box holding both arguments. */
  function Extend(a: AABB, b: AABB): AABB
  {
    if a.Empty? then b
    else if b.Empty? then a
    else Box(MinCorner(a.min, b.min), MaxCorner(a.max, b.max))
  }

  /** The union holds both arguments, and is empty only when both are. */
  lemma ExtendBounds(a: AABB, b: AABB)
    ensures Contains(Extend(a, b), a) && Contains(Extend(a, b), b)
    ensures Extend(a, b).Empty? <==> a.Empty? && b.Empty?
  {
  }

  /** Any box that holds both arguments holds their union: Extend is the least bound. */
  lemma ExtendLeast(a: AABB, b: AABB, c: AABB)
    requires Contains(c, a) && Contains(c, b)
    ensures Contains(c, Extend(a, b))
  {
  }

  lemma ExtendCommutative(a: AABB, b: AABB)
    ensures Extend(a, b) == Extend(b, a)
  {
  }

  lemma ExtendAssociative(a: AABB, b: AABB, c: AABB)
    ensures Extend(Extend(a, b), c) == Extend(a, Extend(b, c))
  {
  }

  /** The union of the boxes of a sequence of objects, accumulated from the
      empty box left to right, one `extend` per object. */
  function Union(objs: seq<Object>): AABB
  {
    if objs == [] then Empty
    else Extend(Union(objs[..|objs| - 1]), GetBoundingBox(objs[|objs| - 1]))
  }

  lemma UnionSnoc(s: seq<Object>, x: Object)
    ensures Union(s + [x]) == Extend(Union(s), x.bbox)
  {
  }

  /** The union holds every object's box. */
  lemma {:induction false} UnionContainsEach(objs: seq<Object>)
    ensures forall i :: 0 <= i < |objs| ==> Contains(Union(objs), objs[i].bbox)
  {
    if objs != [] {
      var init := objs[..|objs| - 1];
      UnionContainsEach(init);
      forall i | 0 <= i < |objs|
        ensures Contains(Union(objs), objs[i].bbox)
      {
        if i < |objs| - 1 {
          assert objs[i] == init[i];
          ContainsTransitive(Union(objs), Union(init), objs[i].bbox);
        }
      }
    }
  }

  /** The union is the least such box: any box holding every object's box holds the union. */
  lemma {:induction false} UnionLeast(objs: seq<Object>, c: AABB)
    requires forall i :: 0 <= i < |objs| ==> Contains(c, objs[i].bbox)
    ensures Contains(c, Union(objs))
  {
    if objs != [] {
      var init := objs[..|objs| - 1];
      assert forall i :: 0 <= i < |init| ==> init[i] == objs[i];
      UnionLeast(init, c);
      ExtendLeast(Union(init), objs[|objs| - 1].bbox, c);
    }
  }

  lemma ContainsTransitive(a: AABB, b: AABB, c: AABB)
    requires Contains(a, b) && Contains(b, c)
    ensures Contains(a, c)
  {
  }

  /** The union of a concatenation is the union of the two unions. */
  lemma {:induction false} UnionAppend(a: seq<Object>, b: seq<Object>)
    ensures Union(a + b) == Extend(Union(a), Union(b))
  {
    if b == [] {
      assert a + b == a;
      assert Extend(Union(a), Empty) == Union(a);
    } else {
      var binit := b[..|b| - 1];
      var last := b[|b| - 1];
      assert (a + b)[..|a + b| - 1] == a + binit;
      assert (a + b)[|a + b| - 1] == last;
      UnionAppend(a, binit);
      ExtendAssociative(Union(a), Union(binit), last.bbox);
    }
  }

  /** The union does not depend on the order of the objects. */
  lemma {:induction false} UnionPermutation(a: seq<Object>, b: seq<Object>)
    requires multiset(a) == multiset(b)
    ensures Union(a) == Union(b)
    decreases |a|
  {
    if a == [] {
      assert b == [] by { assert |multiset(b)| == 0; }
    } else {
      var x := a[0];
      assert x in multiset(b);
      var i :| 0 <= i < |b| && b[i] == x;
      var rest := b[..i] + b[i + 1..];
      assert b == b[..i] + [x] + b[i + 1..];
      assert a == [x] + a[1..];
      assert multiset(a[1..]) == multiset(a) - multiset{x} by {
        assert multiset(a) == multiset{x} + multiset(a[1..]);
      }
      assert multiset(rest) == multiset(b) - multiset{x} by {
        assert multiset(b) == multiset(b[..i]) + multiset{x} + multiset(b[i + 1..]);
        assert multiset(rest) == multiset(b[..i]) + multiset(b[i + 1..]);
      }
      UnionPermutation(a[1..], rest);
      UnionAppend([x], a[1..]);
      UnionAppend(b[..i] + [x], b[i + 1..]);
      UnionAppend(b[..i], [x]);
      UnionAppend(b[..i], b[i + 1..]);
      assert Union([x]) == x.bbox by { assert [x][..0] == []; }
      ExtendCommutative(Union(b[..i]), x.bbox);
      ExtendAssociative(x.bbox, Union(b[..i]), Union(b[i + 1..]));
    }
  }

  /** The box grown by `e` on each of its six faces; the empty box stays empty. */
  function Pad(b: AABB, e: real): (r: AABB)
    ensures r.Empty? <==> b.Empty?
    ensures b.Box? ==> forall i ::
      AxisValue(r.min, i) == AxisValue(b.min, i) - e && AxisValue(r.max, i) == AxisValue(b.max, i) + e
  {
    match b
    case Empty => Empty
    case Box(lo, hi) => Box(Shift(lo, -e), Shift(hi, e))
  }

  lemma PadContains(b: AABB, e: real)
    requires e >= 0.0
    ensures Contains(Pad(b, e), b)
  {
  }
}
