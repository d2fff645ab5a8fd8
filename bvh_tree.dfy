/** What a finished hierarchy looks like. The flattened node array is read
    back as a binary tree value; the shape of that tree, the object range
    each subtree covers and the boxes of its nodes are stated on the value,
    and the node-array lemmas say when reading back is unaffected by changes
    to other nodes. */
module BvhTree {
  import opened Bounds
  import opened CentroidOrder
  import opened BvhNode
  import opened BvhSplit

  /** A subtree as a value: a leaf over `count` objects from position
      `first`, or an internal node with its box and two children. */
  datatype Hierarchy =
    | Leaf(box: AABB, first: nat, count: nat)
    | Split(box: AABB, left: Hierarchy, right: Hierarchy)

  /** The number of objects under a subtree. */
  function Count(t: Hierarchy): nat
  {
    match t
    case Leaf(_, _, count) => count
    case Split(_, left, right) => Count(left) + Count(right)
  }

  /** The number of internal nodes of a subtree. */
  function Splits(t: Hierarchy): nat
  {
    match t
    case Leaf(_, _, _) => 0
    case Split(_, left, right) => 1 + Splits(left) + Splits(right)
  }

  /** No centroid of `a` lies past a centroid of `b` along `dim`. */
  predicate Separated(a: seq<Object>, b: seq<Object>, dim: int)
  {
    forall x, y :: x in a && y in b ==> Key(x, dim) <= Key(y, dim)
  }

  /** The subtree covers exactly the objects `objs`, the first of which sits
      at position `l` of the object array, as the builder leaves it: at most
      Threshold objects make one leaf over exactly that range; more are cut
      into two non-empty runs, the left child's box is the tight union of
      the left run and the right child's that of the rest, no centroid of the
      left run lies past one of the right run along the axis the node's own
      box selects, and both children are valid in turn. Where the cut falls
      is stated separately, by RuleCuts. */
  predicate Valid(t: Hierarchy, objs: seq<Object>, l: nat)
  {
    Count(t) == |objs| &&
    match t
    case Leaf(_, first, count) => first == l && count <= Threshold
    case Split(box, left, right) =>
      var sz := Count(left);
      Threshold < |objs| &&
      0 < sz < |objs| &&
      left.box == Union(objs[..sz]) &&
      right.box == Union(objs[sz..]) &&
      Separated(objs[..sz], objs[sz..], SplitAxis(box)) &&
      Valid(left, objs[..sz], l) &&
      Valid(right, objs[sz..], l + sz)
  }

  /** An internal node over two runs placed one after the other is valid
      when its parts are. */
  lemma ValidSplit(box: AABB, left: Hierarchy, right: Hierarchy, a: seq<Object>, b: seq<Object>, l: nat, m: nat)
    requires Threshold < |a| + |b| && 0 < |a| && 0 < |b| && m == l + |a|
    requires left.box == Union(a) && right.box == Union(b)
    requires Separated(a, b, SplitAxis(box))
    requires Valid(left, a, l) && Valid(right, b, m)
    ensures Valid(Split(box, left, right), a + b, l)
  {
  }

  /** Every internal node of the subtree cuts its objects where SplitRule
      puts the cut: its left child takes the first Count(left) of them. */
  predicate RuleCuts(t: Hierarchy, objs: seq<Object>)
  {
    match t
    case Leaf(_, _, _) => true
    case Split(box, left, right) =>
      var sz := Count(left);
      SplitRule(box, objs, sz) &&
      RuleCuts(left, objs[..sz]) &&
      RuleCuts(right, objs[sz..])
  }

  /** An internal node over two runs placed one after the other cuts where
      the rule says when its own cut does and its children's cuts do. */
  lemma RuleCutsSplit(box: AABB, left: Hierarchy, right: Hierarchy, a: seq<Object>, b: seq<Object>)
    requires Count(left) == |a| && SplitRule(box, a + b, |a|)
    requires RuleCuts(left, a) && RuleCuts(right, b)
    ensures RuleCuts(Split(box, left, right), a + b)
  {
    assert (a + b)[..|a|] == a && (a + b)[|a|..] == b;
  }

  /** Reordering the objects inside each child's run keeps the children's
      union boxes and the separation along the split axis. */
  lemma SplitSurvivesReordering(a: seq<Object>, b: seq<Object>, a': seq<Object>, b': seq<Object>, dim: int)
    requires multiset(a') == multiset(a) && multiset(b') == multiset(b)
    requires Separated(a, b, dim)
    ensures Union(a') == Union(a) && Union(b') == Union(b)
    ensures Separated(a', b', dim)
  {
    UnionPermutation(a', a);
    UnionPermutation(b', b);
    forall x, y | x in a' && y in b' ensures Key(x, dim) <= Key(y, dim) {
      assert x in multiset(a');
      assert y in multiset(b');
    }
  }

  /** A sorted run cut anywhere is separated along the sort axis. */
  lemma SortedCutSeparated(objs: seq<Object>, s: nat, dim: int)
    requires SortedBy(objs, dim) && s <= |objs|
    ensures Separated(objs[..s], objs[s..], dim)
  {
  }

  // ---------------------------------------------------------------------
  // The flattened node array

  /** Node `k` exists, and every internal node reachable from it has both
      children after it in the array (so following children terminates). */
  predicate Shaped(nodes: seq<Node>, k: nat)
    decreases |nodes| - k
  {
    k < |nodes| &&
    (nodes[k].leaf ||
     (k < nodes[k].index && nodes[k].index + 1 < |nodes| &&
      Shaped(nodes, nodes[k].index) && Shaped(nodes, nodes[k].index + 1)))
  }

  /** Every proper descendant of node `k` sits at position `lo` or later. */
  predicate Above(nodes: seq<Node>, k: nat, lo: nat)
    requires Shaped(nodes, k)
    decreases |nodes| - k
  {
    nodes[k].leaf ||
    (lo <= nodes[k].index && Above(nodes, nodes[k].index, lo) && Above(nodes, nodes[k].index + 1, lo))
  }

  /** The subtree rooted at node `k`, read back from the array: a leaf node
      gives its object range, an internal node its box and both children. */
  function Decode(nodes: seq<Node>, k: nat): (t: Hierarchy)
    requires Shaped(nodes, k)
    ensures t.box == nodes[k].bbox
    ensures t.Leaf? <==> nodes[k].leaf
    ensures t.Leaf? ==> t.first == nodes[k].index && t.count == nodes[k].nObjs
    decreases |nodes| - k
  {
    var n := nodes[k];
    if n.leaf then Leaf(n.bbox, n.index, n.nObjs)
    else Split(n.bbox, Decode(nodes, n.index), Decode(nodes, n.index + 1))
  }

  /** The subtree at node `k` covers `objs`, starting at position `l`. */
  predicate WellFormed(nodes: seq<Node>, objs: seq<Object>, k: nat, l: nat)
  {
    Shaped(nodes, k) && Valid(Decode(nodes, k), objs, l)
  }

  /** A whole hierarchy over `objects`: the root is node 0 and covers every object. */
  predicate Tree(nodes: seq<Node>, objects: seq<Object>)
  {
    WellFormed(nodes, objects, 0, 0)
  }

  /** A node of a well-formed subtree is a leaf exactly when its range holds
      at most Threshold objects; a leaf starts at the range's first position
      and counts all of the range's objects. */
  lemma LeafExactlyWhenSmall(nodes: seq<Node>, objs: seq<Object>, k: nat, l: nat)
    requires WellFormed(nodes, objs, k, l)
    ensures nodes[k].leaf <==> |objs| <= Threshold
    ensures nodes[k].leaf ==> nodes[k].index == l && nodes[k].nObjs == |objs|
    ensures !nodes[k].leaf ==> k < nodes[k].index && nodes[k].index + 1 < |nodes|
  {
  }

  lemma {:induction false} AboveWeaken(nodes: seq<Node>, k: nat, lo: nat, lo': nat)
    requires Shaped(nodes, k) && Above(nodes, k, lo) && lo' <= lo
    ensures Above(nodes, k, lo')
    decreases |nodes| - k
  {
    if !nodes[k].leaf {
      AboveWeaken(nodes, nodes[k].index, lo, lo');
      AboveWeaken(nodes, nodes[k].index + 1, lo, lo');
    }
  }

  /** Node `i`, at or after `lo`, is the same in both arrays. */
  lemma SameAt(nodes: seq<Node>, nodes': seq<Node>, lo: nat, i: nat)
    requires lo <= i < |nodes| <= |nodes'| && nodes'[lo..|nodes|] == nodes[lo..|nodes|]
    ensures nodes'[i] == nodes[i]
  {
  }

  /** A subtree depends only on its root and on the nodes from `lo` on,
      where all its descendants live: changing other nodes or appending
      nodes leaves the subtree read back from the array as it was. */
  lemma {:induction false} FrameNodes(nodes: seq<Node>, nodes': seq<Node>, k: nat, lo: nat)
    requires Shaped(nodes, k) && Above(nodes, k, lo)
    requires |nodes| <= |nodes'| && nodes'[k] == nodes[k]
    requires lo <= |nodes| && nodes'[lo..|nodes|] == nodes[lo..|nodes|]
    ensures Shaped(nodes', k) && Above(nodes', k, lo)
    ensures Decode(nodes', k) == Decode(nodes, k)
    decreases |nodes| - k
  {
    if !nodes[k].leaf {
      var c := nodes[k].index;
      SameAt(nodes, nodes', lo, c);
      SameAt(nodes, nodes', lo, c + 1);
      FrameNodes(nodes, nodes', c, lo);
      FrameNodes(nodes, nodes', c + 1, lo);
    }
  }

  // ---------------------------------------------------------------------
  // The partition property

  /** The (first position, count) pairs of the leaves of a subtree, left to right. */
  function LeafRanges(t: Hierarchy): seq<(nat, nat)>
  {
    match t
    case Leaf(_, first, count) => [(first, count)]
    case Split(_, left, right) => LeafRanges(left) + LeafRanges(right)
  }

  /** The ranges lie end to end and cover exactly [from, to). */
  predicate Tiles(rs: seq<(nat, nat)>, from: nat, to: nat)
    decreases |rs|
  {
    if rs == [] then from == to
    else rs[0].0 == from && Tiles(rs[1..], from + rs[0].1, to)
  }

  lemma {:induction false} TilesAppend(a: seq<(nat, nat)>, b: seq<(nat, nat)>, from: nat, mid: nat, to: nat)
    requires Tiles(a, from, mid) && Tiles(b, mid, to)
    ensures Tiles(a + b, from, to)
    decreases |a|
  {
    if a == [] {
      assert a + b == b;
    } else {
      assert (a + b)[1..] == a[1..] + b;
      TilesAppend(a[1..], b, from + a[0].1, mid, to);
    }
  }

  /** The leaves of a valid subtree over positions [l, l + |objs|) tile that
      range and none holds more than Threshold objects. */
  lemma {:induction false} LeavesTile(t: Hierarchy, objs: seq<Object>, l: nat)
    requires Valid(t, objs, l)
    ensures Tiles(LeafRanges(t), l, l + |objs|)
    ensures forall j :: 0 <= j < |LeafRanges(t)| ==> LeafRanges(t)[j].1 <= Threshold
  {
    match t
    case Leaf(_, first, count) =>
      assert Tiles([], l + count, l + count);
    case Split(_, left, right) =>
      var sz := Count(left);
      LeavesTile(left, objs[..sz], l);
      LeavesTile(right, objs[sz..], l + sz);
      var lr, rr := LeafRanges(left), LeafRanges(right);
      TilesAppend(lr, rr, l, l + sz, l + |objs|);
      forall j | 0 <= j < |lr + rr| ensures (lr + rr)[j].1 <= Threshold {
        if j >= |lr| { assert (lr + rr)[j] == rr[j - |lr|]; }
      }
  }

  /** Whether position `p` falls in range `r`. */
  predicate InRange(r: (nat, nat), p: int)
  {
    r.0 <= p < r.0 + r.1
  }

  /** Some range of `rs` holds position `p`. */
  predicate Covered(rs: seq<(nat, nat)>, p: int)
  {
    exists j :: 0 <= j < |rs| && InRange(rs[j], p)
  }

  /** Tiling ranges put every position of [from, to) in exactly one range,
      and no range reaches outside it. */
  lemma {:induction false} TilesPartition(rs: seq<(nat, nat)>, from: nat, to: nat)
    requires Tiles(rs, from, to)
    ensures from <= to
    ensures forall j :: 0 <= j < |rs| ==> from <= rs[j].0 && rs[j].0 + rs[j].1 <= to
    ensures forall p :: from <= p < to ==> Covered(rs, p)
    ensures forall p, i, j :: 0 <= i < |rs| && 0 <= j < |rs| && InRange(rs[i], p) && InRange(rs[j], p) ==> i == j
    decreases |rs|
  {
    if rs != [] {
      var tail := rs[1..];
      var next := from + rs[0].1;
      TilesPartition(tail, next, to);
      forall j | 0 <= j < |rs| ensures from <= rs[j].0 && rs[j].0 + rs[j].1 <= to {
        if j > 0 { assert rs[j] == tail[j - 1]; }
      }
      forall p | from <= p < to ensures Covered(rs, p) {
        if p >= next {
          assert Covered(tail, p);
          var j :| 0 <= j < |tail| && InRange(tail[j], p);
          assert rs[j + 1] == tail[j];
        } else {
          assert InRange(rs[0], p);
        }
      }
      forall p, i, j | 0 <= i < |rs| && 0 <= j < |rs| && InRange(rs[i], p) && InRange(rs[j], p)
        ensures i == j
      {
        if i > 0 { assert rs[i] == tail[i - 1]; }
        if j > 0 { assert rs[j] == tail[j - 1]; }
        if i > 0 && j > 0 {
          assert InRange(tail[i - 1], p) && InRange(tail[j - 1], p);
        }
      }
    }
  }

  /** The objects of the ranges `rs`, concatenated in order. */
  function Gather(objects: seq<Object>, rs: seq<(nat, nat)>): seq<Object>
    requires forall j :: 0 <= j < |rs| ==> rs[j].0 + rs[j].1 <= |objects|
    decreases |rs|
  {
    if rs == [] then []
    else objects[rs[0].0 .. rs[0].0 + rs[0].1] + Gather(objects, rs[1..])
  }

  /** Gathering the objects of tiling ranges gives back exactly the tiled slice. */
  lemma {:induction false} GatherTiles(objects: seq<Object>, rs: seq<(nat, nat)>, from: nat, to: nat)
    requires Tiles(rs, from, to) && to <= |objects|
    ensures forall j :: 0 <= j < |rs| ==> rs[j].0 + rs[j].1 <= |objects|
    ensures from <= to
    ensures Gather(objects, rs) == objects[from..to]
    decreases |rs|
  {
    TilesPartition(rs, from, to);
    if rs != [] {
      var next := from + rs[0].1;
      GatherTiles(objects, rs[1..], next, to);
      assert objects[from..to] == objects[from..next] + objects[next..to];
    }
  }

  /** The partition property of a finished hierarchy: its leaves, read left to
      right, hold every object position exactly once and at most Threshold
      objects each, and gathering their objects gives back the object array. */
  lemma LeavesPartitionObjects(nodes: seq<Node>, objects: seq<Object>)
    requires Tree(nodes, objects)
    ensures var rs := LeafRanges(Decode(nodes, 0));
      Tiles(rs, 0, |objects|) &&
      (forall j :: 0 <= j < |rs| ==> rs[j].1 <= Threshold && rs[j].0 + rs[j].1 <= |objects|) &&
      (forall p :: 0 <= p < |objects| ==> Covered(rs, p)) &&
      (forall p, i, j :: 0 <= i < |rs| && 0 <= j < |rs| && InRange(rs[i], p) && InRange(rs[j], p) ==> i == j) &&
      Gather(objects, rs) == objects
  {
    var rs := LeafRanges(Decode(nodes, 0));
    LeavesTile(Decode(nodes, 0), objects, 0);
    TilesPartition(rs, 0, |objects|);
    GatherTiles(objects, rs, 0, |objects|);
  }

  // ---------------------------------------------------------------------
  // Nested boxes

  /** Every internal node's box holds both of its children's boxes. */
  predicate Nested(t: Hierarchy)
  {
    match t
    case Leaf(_, _, _) => true
    case Split(box, left, right) =>
      Contains(box, left.box) && Contains(box, right.box) && Nested(left) && Nested(right)
  }

  /** A box holding the union of a run holds the union of each of its two halves. */
  lemma UnionHalvesInside(box: AABB, objs: seq<Object>, s: nat)
    requires s <= |objs| && Contains(box, Union(objs))
    ensures Contains(box, Union(objs[..s])) && Contains(box, Union(objs[s..]))
  {
    assert objs == objs[..s] + objs[s..];
    UnionAppend(objs[..s], objs[s..]);
    ContainsTransitive(box, Union(objs), Union(objs[..s]));
    ContainsTransitive(box, Union(objs), Union(objs[s..]));
  }

  /** In a valid subtree whose root box holds the union of its objects' boxes
      (the root's padded box does, an inner node's tight box is that union),
      every node's box holds its children's boxes. */
  lemma {:induction false} BoxesNested(t: Hierarchy, objs: seq<Object>, l: nat)
    requires Valid(t, objs, l) && Contains(t.box, Union(objs))
    ensures Nested(t)
  {
    match t
    case Leaf(_, _, _) =>
    case Split(box, left, right) =>
      var sz := Count(left);
      UnionHalvesInside(box, objs, sz);
      BoxesNested(left, objs[..sz], l);
      BoxesNested(right, objs[sz..], l + sz);
  }
}
