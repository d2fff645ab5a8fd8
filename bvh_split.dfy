/** How build_recursive chooses the split axis and the split position of a
    range of more than Threshold objects, and the tight box of each side. */
module BvhSplit {
  import opened Vectors
  import opened Bounds
  import opened CentroidOrder
  import opened BvhNode

  /** The box's size along each axis, `max - min`. The empty box has no
      extent on any axis. */
  function Extent(b: AABB): Vector
  {
    match b
    case Empty => Zero
    case Box(lo, hi) => Sub(hi, lo)
  }

  /** The axis of largest extent; among equal extents x comes before y and y before z. */
  function SplitAxis(b: AABB): (dim: int)
    ensures 0 <= dim <= 2
    ensures forall i :: 0 <= i <= 2 ==> AxisValue(Extent(b), i) <= AxisValue(Extent(b), dim)
    ensures forall i :: 0 <= i < dim ==> AxisValue(Extent(b), i) < AxisValue(Extent(b), dim)
  {
    var d := Extent(b);
    var longest := Max(Max(d.x, d.y), d.z);
    if longest == d.x then 0
    else if longest == d.y then 1
    else 2
  }

  /** The middle of the box along `dim`; the empty box gives 0. */
  function Midpoint(b: AABB, dim: int): (m: real)
    ensures b.Box? ==> m - AxisValue(b.min, dim) == AxisValue(b.max, dim) - m
    ensures b.Box? && AxisValue(b.min, dim) <= AxisValue(b.max, dim) ==>
      AxisValue(b.min, dim) <= m <= AxisValue(b.max, dim)
  {
    match b
    case Empty => 0.0
    case Box(lo, hi) => (AxisValue(hi, dim) + AxisValue(lo, dim)) * 0.5
  }

  /** Splitting the sorted range at `mid` would leave one side empty: the
      first centroid already lies past `mid`, or the last does not. */
  predicate Degenerate(s: seq<Object>, dim: int, mid: real)
    requires |s| > 0
  {
    Key(s[0], dim) > mid || Key(s[|s| - 1], dim) <= mid
  }

  /** Sum of the centroid coordinates along `dim`, added left to right. */
  function SumKeys(s: seq<Object>, dim: int): real
  {
    if s == [] then 0.0 else SumKeys(s[..|s| - 1], dim) + Key(s[|s| - 1], dim)
  }

  /** The mean centroid coordinate along `dim`. */
  function Mean(s: seq<Object>, dim: int): real
    requires |s| > 0
  {
    SumKeys(s, dim) / (|s| as real)
  }

  /** If no key exceeds `m` the sum is at most |s| * m, and it reaches that
      bound only when every key equals `m`. */
  lemma {:induction false} SumAtMost(s: seq<Object>, dim: int, m: real)
    requires forall i :: 0 <= i < |s| ==> Key(s[i], dim) <= m
    ensures SumKeys(s, dim) <= (|s| as real) * m
    ensures SumKeys(s, dim) == (|s| as real) * m ==> forall i :: 0 <= i < |s| ==> Key(s[i], dim) == m
  {
    if s != [] {
      var init := s[..|s| - 1];
      var n := |init| as real;
      assert forall i :: 0 <= i < |init| ==> init[i] == s[i];
      SumAtMost(init, dim, m);
      assert (|s| as real) * m == n * m + m;
      if SumKeys(s, dim) == (|s| as real) * m {
        assert SumKeys(init, dim) == n * m;
        forall i | 0 <= i < |s| ensures Key(s[i], dim) == m {
          if i < |init| {
            assert init[i] == s[i];
          }
        }
      }
    }
  }

  /** If no key is below `m` the sum is at least |s| * m. */
  lemma {:induction false} SumAtLeast(s: seq<Object>, dim: int, m: real)
    requires forall i :: 0 <= i < |s| ==> m <= Key(s[i], dim)
    ensures (|s| as real) * m <= SumKeys(s, dim)
  {
    if s != [] {
      var init := s[..|s| - 1];
      assert forall i :: 0 <= i < |init| ==> init[i] == s[i];
      SumAtLeast(init, dim, m);
      assert (|s| as real) * m == (|init| as real) * m + m;
    }
  }

  /** Dividing a sum bounded by n * lo and n * hi by n > 0 gives a value
      between lo and hi, equal to hi only when the sum is n * hi. */
  lemma QuotientBounds(sum: real, n: real, lo: real, hi: real)
    requires n > 0.0 && n * lo <= sum <= n * hi
    ensures lo <= sum / n <= hi
    ensures sum / n == hi ==> sum == n * hi
  {
  }

  /** On a sorted range the mean lies between the first and the last key, so
      the mean split can be degenerate only when every centroid has the same
      coordinate along `dim`. */
  lemma MeanSplitDegenerateOnlyIfFlat(s: seq<Object>, dim: int)
    requires |s| > 0 && SortedBy(s, dim)
    ensures Key(s[0], dim) <= Mean(s, dim) <= Key(s[|s| - 1], dim)
    ensures Degenerate(s, dim, Mean(s, dim)) ==>
      forall i :: 0 <= i < |s| ==> Key(s[i], dim) == Key(s[0], dim)
  {
    var first, last := Key(s[0], dim), Key(s[|s| - 1], dim);
    SumAtMost(s, dim, last);
    SumAtLeast(s, dim, first);
    QuotientBounds(SumKeys(s, dim), |s| as real, first, last);
  }

  /** The loop that recomputes the split value as the mean centroid coordinate. */
  method MeanCentroid(objs: seq<Object>, l: nat, r: nat, dim: int) returns (mid: real)
    requires l < r <= |objs|
    ensures mid == Mean(objs[l..r], dim)
  {
    mid := 0.0;
    var i := l;
    while i < r
      invariant l <= i <= r
      invariant mid == SumKeys(objs[l..i], dim)
    {
      assert objs[l..i + 1][..i - l] == objs[l..i];
      mid := mid + Key(objs[i], dim);
      i := i + 1;
    }
    mid := mid / ((r - l) as real);
  }

  /** `s` is the first position of [l, r) whose centroid lies past `mid`. */
  predicate FirstAbove(objs: seq<Object>, l: nat, r: nat, dim: int, mid: real, s: nat)
    requires r <= |objs|
  {
    l <= s < r && Key(objs[s], dim) > mid &&
    forall i :: l <= i < s ==> Key(objs[i], dim) <= mid
  }

  /** The scan for the first position whose centroid lies past `mid`; it
      stops at `r` when there is none. */
  method FindSplit(objs: seq<Object>, l: nat, r: nat, dim: int, mid: real) returns (s: nat)
    requires l <= r <= |objs|
    ensures l <= s <= r
    ensures forall i :: l <= i < s ==> Key(objs[i], dim) <= mid
    ensures s < r ==> Key(objs[s], dim) > mid
  {
    s := l;
    while s < r
      invariant l <= s <= r
      invariant forall i :: l <= i < s ==> Key(objs[i], dim) <= mid
    {
      if Key(objs[s], dim) > mid {
        break;
      }
      s := s + 1;
    }
  }

  /** The split value actually used: the box midpoint, or the mean centroid
      when the midpoint would leave one side empty. */
  function SplitValue(objs: seq<Object>, l: nat, r: nat, dim: int, box: AABB): real
    requires l < r <= |objs|
  {
    var m := Midpoint(box, dim);
    if Degenerate(objs[l..r], dim, m) then Mean(objs[l..r], dim) else m
  }

  /** The split position of a range of more than Threshold objects: the first
      position past the split value, or `l + Threshold` when even the mean
      leaves one side empty. Both sides are non-empty. */
  method ChooseSplit(objs: seq<Object>, l: nat, r: nat, dim: int, box: AABB) returns (s: nat)
    requires l + Threshold < r <= |objs|
    ensures l < s < r
    ensures var v := SplitValue(objs, l, r, dim, box);
      if Degenerate(objs[l..r], dim, v) then s == l + Threshold
      else FirstAbove(objs, l, r, dim, v, s)
  {
    ConstantsInRange();
    var range := objs[l..r];
    assert range[0] == objs[l] && range[|range| - 1] == objs[r - 1];
    var mid := Midpoint(box, dim);
    if Degenerate(range, dim, mid) {
      mid := MeanCentroid(objs, l, r, dim);
    }
    if Degenerate(range, dim, mid) {
      s := l + Threshold;
    } else {
      s := FindSplit(objs, l, r, dim, mid);
    }
  }

  // ---------------------------------------------------------------------
  // The split rule, stated on what the range holds rather than its order

  /** The largest centroid coordinate of `s` along `dim`. */
  function MaxKey(s: seq<Object>, dim: int): real
    requires |s| > 0
  {
    if |s| == 1 then Key(s[0], dim) else Max(MaxKey(s[..|s| - 1], dim), Key(s[|s| - 1], dim))
  }

  /** The smallest centroid coordinate of `s` along `dim`. */
  function MinKey(s: seq<Object>, dim: int): real
    requires |s| > 0
  {
    if |s| == 1 then Key(s[0], dim) else Min(MinKey(s[..|s| - 1], dim), Key(s[|s| - 1], dim))
  }

  /** Cutting `s` at `v` would leave one side empty: no centroid lies past
      `v`, or every centroid does. */
  predicate OneSided(s: seq<Object>, dim: int, v: real)
    requires |s| > 0
  {
    MaxKey(s, dim) <= v || v < MinKey(s, dim)
  }

  /** The split value of a range along `dim`: the box midpoint, or the mean
      centroid when the midpoint leaves one side empty. */
  function RuleValue(s: seq<Object>, dim: int, box: AABB): real
    requires |s| > 0
  {
    var m := Midpoint(box, dim);
    if OneSided(s, dim, m) then Mean(s, dim) else m
  }

  /** Where build_recursive cuts the range `objs` of a node with box `box`:
      the first `sz` objects go left, as CutAt says for the node's split axis
      and the range's split value. Nothing here depends on the order of the
      range. */
  predicate SplitRule(box: AABB, objs: seq<Object>, sz: nat)
  {
    0 < |objs| && sz <= |objs| &&
    CutAt(objs, SplitAxis(box), RuleValue(objs, SplitAxis(box), box), sz)
  }

  /** A cut of `objs` after `sz` objects at value `v` along `dim`: when `v`
      leaves one side empty the cut falls Threshold objects in; otherwise
      both sides are non-empty, no centroid on the left lies past `v` and
      every centroid on the right does. */
  predicate CutAt(objs: seq<Object>, dim: int, v: real, sz: nat)
    requires |objs| > 0
  {
    if OneSided(objs, dim, v) then sz == Threshold
    else 0 < sz < |objs| && MaxKey(objs[..sz], dim) <= v < MinKey(objs[sz..], dim)
  }

  /** Every key lies between the smallest and the largest, and both are keys
      of some object. */
  lemma {:induction false} KeyExtremes(s: seq<Object>, dim: int)
    requires |s| > 0
    ensures forall i :: 0 <= i < |s| ==> MinKey(s, dim) <= Key(s[i], dim) <= MaxKey(s, dim)
    ensures exists i :: 0 <= i < |s| && Key(s[i], dim) == MaxKey(s, dim)
    ensures exists i :: 0 <= i < |s| && Key(s[i], dim) == MinKey(s, dim)
  {
    if |s| > 1 {
      var init := s[..|s| - 1];
      KeyExtremes(init, dim);
      assert forall i :: 0 <= i < |init| ==> init[i] == s[i];
      var i :| 0 <= i < |init| && Key(init[i], dim) == MaxKey(init, dim);
      var j :| 0 <= j < |init| && Key(init[j], dim) == MinKey(init, dim);
      assert Key(s[i], dim) == MaxKey(init, dim) && Key(s[j], dim) == MinKey(init, dim);
    } else {
      assert Key(s[0], dim) == MaxKey(s, dim);
    }
  }

  /** On a sorted run the smallest key is the first and the largest the last. */
  lemma SortedExtremes(s: seq<Object>, dim: int)
    requires |s| > 0 && SortedBy(s, dim)
    ensures MinKey(s, dim) == Key(s[0], dim) && MaxKey(s, dim) == Key(s[|s| - 1], dim)
  {
    KeyExtremes(s, dim);
    var i :| 0 <= i < |s| && Key(s[i], dim) == MaxKey(s, dim);
    var j :| 0 <= j < |s| && Key(s[j], dim) == MinKey(s, dim);
    assert i == |s| - 1 || Key(s[i], dim) <= Key(s[|s| - 1], dim);
    assert j == 0 || Key(s[0], dim) <= Key(s[j], dim);
  }

  /** The extremes do not depend on the order. */
  lemma ExtremesPermutation(a: seq<Object>, b: seq<Object>, dim: int)
    requires |a| > 0 && multiset(a) == multiset(b)
    ensures |b| > 0
    ensures MaxKey(a, dim) == MaxKey(b, dim) && MinKey(a, dim) == MinKey(b, dim)
  {
    assert |b| > 0 by { assert |multiset(b)| == |multiset(a)|; }
    KeyExtremes(a, dim);
    KeyExtremes(b, dim);
    var i :| 0 <= i < |a| && Key(a[i], dim) == MaxKey(a, dim);
    var j :| 0 <= j < |b| && Key(b[j], dim) == MaxKey(b, dim);
    var i' :| 0 <= i' < |a| && Key(a[i'], dim) == MinKey(a, dim);
    var j' :| 0 <= j' < |b| && Key(b[j'], dim) == MinKey(b, dim);
    assert a[i] in multiset(b) && a[i'] in multiset(b);
    assert b[j] in multiset(a) && b[j'] in multiset(a);
  }

  /** On a sorted range the first-and-last test of the source is the test
      for a one-sided cut. */
  lemma DegenerateIsOneSided(s: seq<Object>, dim: int, v: real)
    requires |s| > 0 && SortedBy(s, dim)
    ensures Degenerate(s, dim, v) <==> OneSided(s, dim, v)
  {
    SortedExtremes(s, dim);
  }

  lemma {:induction false} SumKeysAppend(a: seq<Object>, b: seq<Object>, dim: int)
    ensures SumKeys(a + b, dim) == SumKeys(a, dim) + SumKeys(b, dim)
    decreases |b|
  {
    if b == [] {
      assert a + b == a;
    } else {
      var init := b[..|b| - 1];
      assert (a + b)[..|a + b| - 1] == a + init;
      assert (a + b)[|a + b| - 1] == b[|b| - 1];
      SumKeysAppend(a, init, dim);
    }
  }

  /** The sum of the keys, and so the mean, does not depend on the order. */
  lemma {:induction false} SumKeysPermutation(a: seq<Object>, b: seq<Object>, dim: int)
    requires multiset(a) == multiset(b)
    ensures SumKeys(a, dim) == SumKeys(b, dim)
    decreases |a|
  {
    if a == [] {
      assert b == [] by { assert |multiset(b)| == 0; }
    } else {
      var init, x := a[..|a| - 1], a[|a| - 1];
      assert a == init + [x];
      assert x in multiset(b);
      var i :| 0 <= i < |b| && b[i] == x;
      var rest := b[..i] + b[i + 1..];
      assert b == b[..i] + [x] + b[i + 1..];
      assert multiset(init) == multiset(a) - multiset{x};
      assert multiset(rest) == multiset(b) - multiset{x} by {
        assert multiset(b) == multiset(b[..i]) + multiset{x} + multiset(b[i + 1..]);
      }
      SumKeysPermutation(init, rest, dim);
      SumKeysAppend(b[..i] + [x], b[i + 1..], dim);
      SumKeysAppend(b[..i], [x], dim);
      SumKeysAppend(b[..i], b[i + 1..], dim);
      assert SumKeys([x], dim) == Key(x, dim) by { assert [x][..0] == []; }
    }
  }

  /** The split value, and whether it leaves one side empty, do not depend
      on the order of the range. */
  lemma RuleValuePermutation(s: seq<Object>, s': seq<Object>, box: AABB)
    requires |s| > 0 && multiset(s') == multiset(s)
    ensures |s'| == |s|
    ensures var dim := SplitAxis(box);
      RuleValue(s', dim, box) == RuleValue(s, dim, box) &&
      (OneSided(s', dim, RuleValue(s', dim, box)) <==> OneSided(s, dim, RuleValue(s, dim, box)))
  {
    var dim := SplitAxis(box);
    assert |s'| == |s| by { assert |multiset(s')| == |multiset(s)|; }
    SumKeysPermutation(s', s, dim);
    ExtremesPermutation(s, s', dim);
  }

  /** Reordering inside each side of a cut keeps the cut following the rule:
      the sub-builds of the two sides cannot undo it. */
  lemma SplitRuleSurvivesReordering(box: AABB, a: seq<Object>, b: seq<Object>, a': seq<Object>, b': seq<Object>)
    requires multiset(a') == multiset(a) && multiset(b') == multiset(b)
    requires SplitRule(box, a + b, |a|)
    ensures SplitRule(box, a' + b', |a'|)
  {
    var dim := SplitAxis(box);
    var s, s' := a + b, a' + b';
    assert |a'| == |a| by { assert |multiset(a')| == |multiset(a)|; }
    RuleValuePermutation(s, s', box);
    var v := RuleValue(s, dim, box);
    if !OneSided(s, dim, v) {
      assert s[..|a|] == a && s[|a|..] == b;
      assert s'[..|a'|] == a' && s'[|a'|..] == b';
      ExtremesPermutation(a, a', dim);
      ExtremesPermutation(b, b', dim);
    }
  }

  /** The split ChooseSplit picks on a range sorted along the box's split
      axis follows the rule. */
  lemma ChosenSplitFollowsRule(objs: seq<Object>, l: nat, r: nat, box: AABB, s: nat)
    requires l < s < r <= |objs|
    requires SortedBy(objs[l..r], SplitAxis(box))
    requires var dim := SplitAxis(box);
      var v := SplitValue(objs, l, r, dim, box);
      if Degenerate(objs[l..r], dim, v) then s == l + Threshold
      else FirstAbove(objs, l, r, dim, v, s)
    ensures SplitRule(box, objs[l..r], s - l)
  {
    var dim := SplitAxis(box);
    var range := objs[l..r];
    DegenerateIsOneSided(range, dim, Midpoint(box, dim));
    var v := SplitValue(objs, l, r, dim, box);
    assert v == RuleValue(range, dim, box);
    DegenerateIsOneSided(range, dim, v);
    if !Degenerate(range, dim, v) {
      var left, right := range[..s - l], range[s - l..];
      assert left == objs[l..s] && right == objs[s..r];
      SortedExtremes(left, dim);
      SortedExtremes(right, dim);
    }
  }

  /** The rule leaves no choice: a range has at most one cut that follows
      it, so the cut ChooseSplit picks is the only one a built tree can have. */
  lemma SplitRuleUnique(box: AABB, objs: seq<Object>, sz: nat, sz': nat)
    requires SplitRule(box, objs, sz) && SplitRule(box, objs, sz')
    ensures sz == sz'
  {
    var dim := SplitAxis(box);
    if sz < sz' || sz' < sz {
      var lo, hi := if sz < sz' then sz else sz', if sz < sz' then sz' else sz;
      KeyExtremes(objs[..hi], dim);
      KeyExtremes(objs[lo..], dim);
    }
  }

  /** The loop that accumulates the tight box of the range [l, r). */
  method UnionRange(objs: seq<Object>, l: nat, r: nat) returns (box: AABB)
    requires l <= r <= |objs|
    ensures box == Union(objs[l..r])
    ensures forall i :: l <= i < r ==> Contains(box, objs[i].bbox)
  {
    box := Empty;
    var i := l;
    while i < r
      invariant l <= i <= r
      invariant box == Union(objs[l..i])
    {
      UnionSnoc(objs[l..i], objs[i]);
      assert objs[l..i + 1] == objs[l..i] + [objs[i]];
      box := Extend(box, GetBoundingBox(objs[i]));
      i := i + 1;
    }
    UnionContainsEach(objs[l..r]);
    forall i | l <= i < r ensures Contains(box, objs[i].bbox) {
      assert objs[i] == objs[l..r][i - l];
    }
  }
}
