/** The centroid comparator used to order a range of objects along one axis,
    and the range sort that applies it. */
module CentroidOrder {
  import opened Vectors
  import opened Bounds

  /** The sort key: the object's centroid coordinate on axis `dim`. */
  function Key(o: Object, dim: int): real
  {
    AxisValue(GetCentroid(o), dim)
  }

  /** The comparator with its `dimension` set: strictly smaller centroid coordinate. */
  predicate Less(dim: int, a: Object, b: Object)
  {
    Key(a, dim) < Key(b, dim)
  }

  /** Non-decreasing in centroid coordinate along `dim`. */
  predicate SortedBy(s: seq<Object>, dim: int)
  {
    forall i, j :: 0 <= i < j < |s| ==> Key(s[i], dim) <= Key(s[j], dim)
  }

  /** `x` placed into an already sorted sequence before the first element
      whose key is not smaller. */
  function Insert(x: Object, s: seq<Object>, dim: int): (r: seq<Object>)
    requires SortedBy(s, dim)
    ensures SortedBy(r, dim)
    ensures multiset(r) == multiset(s) + multiset{x}
  {
    if s == [] then [x]
    else if !Less(dim, s[0], x) then [x] + s
    else
      var tail := Insert(x, s[1..], dim);
      assert LowerBound(s[0], tail, dim) by {
        forall e | e in tail ensures Key(s[0], dim) <= Key(e, dim) {
          assert e in multiset(tail);
          if e != x {
            var k :| 0 <= k < |s[1..]| && s[1..][k] == e;
            assert s[k + 1] == e;
          }
        }
      }
      PrependSorted(s[0], tail, dim);
      assert s == [s[0]] + s[1..];
      [s[0]] + tail
  }

  /** No element of `s` has a key below that of `x`. */
  predicate LowerBound(x: Object, s: seq<Object>, dim: int)
  {
    forall e :: e in s ==> Key(x, dim) <= Key(e, dim)
  }

  lemma PrependSorted(x: Object, s: seq<Object>, dim: int)
    requires SortedBy(s, dim) && LowerBound(x, s, dim)
    ensures SortedBy([x] + s, dim)
  {
  }

  /** The range sort: a sorted permutation of its argument. Equal keys keep
      their relative order here; a library sort may order them differently. */
  function SortByCentroid(s: seq<Object>, dim: int): (r: seq<Object>)
    ensures SortedBy(r, dim)
    ensures multiset(r) == multiset(s)
  {
    if s == [] then []
    else
      assert s == [s[0]] + s[1..];
      Insert(s[0], SortByCentroid(s[1..], dim), dim)
  }

  /** The sort applied to the range [l, r) of `objs` only. */
  function SortRange(objs: seq<Object>, l: nat, r: nat, dim: int): (res: seq<Object>)
    requires l <= r <= |objs|
    ensures |res| == |objs|
    ensures res[..l] == objs[..l] && res[r..] == objs[r..]
    ensures SortedBy(res[l..r], dim)
    ensures multiset(res[l..r]) == multiset(objs[l..r])
    ensures multiset(res) == multiset(objs)
  {
    var sorted := SortByCentroid(objs[l..r], dim);
    SpliceSorted(objs, l, r, sorted);
    objs[..l] + sorted + objs[r..]
  }

  lemma SpliceSorted(objs: seq<Object>, l: nat, r: nat, mid: seq<Object>)
    requires l <= r <= |objs| && multiset(mid) == multiset(objs[l..r])
    ensures var res := objs[..l] + mid + objs[r..];
      |res| == |objs| && res[l..r] == mid &&
      res[..l] == objs[..l] && res[r..] == objs[r..] &&
      multiset(res) == multiset(objs)
  {
    var res := objs[..l] + mid + objs[r..];
    assert |mid| == r - l by { assert |multiset(mid)| == |multiset(objs[l..r])|; }
    assert res[l..r] == mid;
    assert res[..l] == objs[..l];
    assert res[r..] == objs[r..];
    assert objs == objs[..l] + objs[l..r] + objs[r..];
  }
}
