/** The hierarchy object: its object list and flattened node array, filled
    by Build and build_recursive. Nodes are values in the array and a node
    is named by its position; a child pointer is the left child's position. */
module Bvh {
  import opened Bounds
  import opened CentroidOrder
  import opened BvhNode
  import opened BvhSplit
  import opened BvhTree

  /** What building node `k` over `objs`, the first of which sits at
      position `l`, leaves in the node array: the subtree at `k` reads back
      as a valid tree that cuts where the rule says, every descendant of `k`
      lies at `lo` or later, and the array ends after exactly two nodes per
      internal node of the subtree from `lo` on. */
  predicate Built(nodes: seq<Node>, objs: seq<Object>, k: nat, l: nat, lo: nat)
  {
    Shaped(nodes, k) && Above(nodes, k, lo) &&
    Valid(Decode(nodes, k), objs, l) && RuleCuts(Decode(nodes, k), objs) &&
    |nodes| == lo + 2 * Splits(Decode(nodes, k))
  }

  /** What Subdivide leaves behind, from objects `o0` and nodes `n0` to
      objects `o1` and nodes `np`: only the range [l, r) of more than
      Threshold objects has changed, into a permutation sorted along the
      split axis of node k's box; the cut `s` lies inside the range where
      SplitRule puts it; node k has become internal with its left child at
      c, the old end of the array; and the two children appended there hold
      the tight boxes of the two sides. */
  predicate Subdivided(o0: seq<Object>, n0: seq<Node>, o1: seq<Object>, np: seq<Node>,
                       l: nat, s: nat, r: nat, k: nat, c: nat)
  {
    l < s < r <= |o0| && Threshold < r - l && k < c == |n0| &&
    |o1| == |o0| && o1[..l] == o0[..l] && o1[r..] == o0[r..] &&
    SortedBy(o1[l..r], SplitAxis(n0[k].bbox)) && multiset(o1[l..r]) == multiset(o0[l..r]) &&
    SplitRule(n0[k].bbox, o1[l..r], s - l) &&
    np == n0[k := n0[k].MakeNode(c)] + [Unset.SetAABB(Union(o1[l..s]))] + [Unset.SetAABB(Union(o1[s..r]))]
  }

  class BVH {
    /** The objects, reordered range by range as the tree is built. */
    var objects: seq<Object>
    /** The nodes; the root of the last build is the node it appended first. */
    var nodes: seq<Node>

    constructor ()
      ensures objects == [] && nodes == []
    {
      objects := [];
      nodes := [];
    }

    function GetNumObjects(): int
      reads this
    {
      |objects|
    }

    /** Appends `objs` to the object list while accumulating the union of
        their boxes, pads that union by EPSILON on every face, appends a root
        node with the padded box and builds the tree over all objects below it. */
    method Build(objs: seq<Object>)
      modifies this
      ensures GetNumObjects() == old(GetNumObjects()) + |objs|
      ensures multiset(objects) == multiset(old(objects) + objs)
      ensures |nodes| > old(|nodes|) && nodes[..old(|nodes|)] == old(nodes)
      ensures nodes[old(|nodes|)].bbox == Pad(Union(objs), EPSILON)
      ensures WellFormed(nodes, objects, old(|nodes|), 0)
      ensures RuleCuts(Decode(nodes, old(|nodes|)), objects)
      ensures |nodes| == old(|nodes|) + 1 + 2 * Splits(Decode(nodes, old(|nodes|)))
      ensures old(objects) == [] && old(nodes) == [] ==> Tree(nodes, objects) && Nested(Decode(nodes, 0))
    {
      var world := Empty;
      ghost var start := objects;
      var i := 0;
      while i < |objs|
        invariant 0 <= i <= |objs|
        invariant objects == start + objs[..i] && nodes == old(nodes)
        invariant world == Union(objs[..i])
      {
        var bbox := GetBoundingBox(objs[i]);
        UnionSnoc(objs[..i], objs[i]);
        assert objs[..i + 1] == objs[..i] + [objs[i]];
        world := Extend(world, bbox);
        objects := objects + [objs[i]];
        i := i + 1;
      }
      assert objs[..i] == objs;
      world := Pad(world, EPSILON);
      var root := |nodes|;
      ghost var before := nodes;
      nodes := nodes + [Unset.SetAABB(world)];
      ghost var full, pushed := objects, nodes;
      BuildRecursive(0, |objects|, root);
      RootBuilt(start, objs, full, objects, before, pushed, nodes);
    }

    /** Builds the subtree at node `k` over the objects [l, r): a range of at
        most Threshold objects makes `k` a leaf; a larger one is sorted along
        the longest axis of `k`'s box, split where SplitRule says, given two
        child nodes appended after every existing node with the tight boxes
        of the two sides, and each side is built in turn. Objects outside [l, r) and nodes other
        than `k` that existed before are left as they were. */
    method BuildRecursive(l: nat, r: nat, k: nat)
      requires l <= r <= |objects| && k < |nodes|
      modifies this
      decreases r - l, 1
      ensures |objects| == old(|objects|)
      ensures objects[..l] == old(objects[..l]) && objects[r..] == old(objects[r..])
      ensures multiset(objects[l..r]) == multiset(old(objects[l..r]))
      ensures old(|nodes|) <= |nodes|
      ensures nodes[..k] == old(nodes[..k]) && nodes[k + 1..old(|nodes|)] == old(nodes[k + 1..])
      ensures nodes[k].bbox == old(nodes[k].bbox)
      ensures Built(nodes, objects[l..r], k, l, old(|nodes|))
    {
      var num := r - l;
      if num <= Threshold {
        nodes := nodes[k := nodes[k].MakeLeaf(l, num)];
      } else {
        ghost var o0, n0 := objects, nodes;
        var s, c := Subdivide(l, r, k);
        BuildChildren(l, s, r, k, c, o0, n0);
      }
    }

    /** The two recursive calls of build_recursive after Subdivide: the left
        side [l, s) is built at node c and the right side [s, r) at node
        c + 1. `o0` and `n0` are the objects and nodes as they were before
        Subdivide; afterwards node k roots the whole range. */
    method BuildChildren(l: nat, s: nat, r: nat, k: nat, c: nat, ghost o0: seq<Object>, ghost n0: seq<Node>)
      requires Subdivided(o0, n0, objects, nodes, l, s, r, k, c)
      modifies this
      decreases r - l, 0
      ensures |objects| == |o0| && objects[..l] == o0[..l] && objects[r..] == o0[r..]
      ensures multiset(objects[l..r]) == multiset(o0[l..r])
      ensures |n0| <= |nodes| && nodes[..k] == n0[..k] && nodes[k + 1..|n0|] == n0[k + 1..]
      ensures nodes[k].bbox == n0[k].bbox
      ensures Built(nodes, objects[l..r], k, l, |n0|)
    {
      ghost var o1, np := objects, nodes;
      BuildRecursive(l, s, c);
      ghost var o2, n1 := objects, nodes;
      BuildRecursive(s, r, c + 1);
      SplitStep(o0, o1, o2, objects, n0, np, n1, nodes, l, s, r, k, c);
    }

    /** The work build_recursive does on a range of more than Threshold
        objects before it recurses: the range is sorted along the longest
        axis of node `k`'s box, split where SplitRule says, node `k`
        becomes internal with its left child at the current end of the node
        array, and the two children are appended with the tight boxes of the
        two sides. */
    method Subdivide(l: nat, r: nat, k: nat) returns (s: nat, c: nat)
      requires l + Threshold < r <= |objects| && k < |nodes|
      modifies this
      ensures Subdivided(old(objects), old(nodes), objects, nodes, l, s, r, k, c)
    {
      var aabb := nodes[k].bbox;
      var dim := SplitAxis(aabb);
      objects := SortRange(objects, l, r, dim);
      s := ChooseSplit(objects, l, r, dim, aabb);
      ChosenSplitFollowsRule(objects, l, r, aabb, s);
      var leftBox := UnionRange(objects, l, s);
      var rightBox := UnionRange(objects, s, r);
      var leftNode, rightNode := Unset.SetAABB(leftBox), Unset.SetAABB(rightBox);
      c := |nodes|;
      nodes := nodes[k := nodes[k].MakeNode(c)];
      nodes := nodes + [leftNode];
      nodes := nodes + [rightNode];
    }
  }

  /** After Build: the object list is the old one followed by `objs`, up to
      order; the old nodes are untouched; the new root holds the padded union
      of the boxes of `objs` and roots a valid subtree over all objects. On
      a fresh hierarchy that subtree is the whole tree, and every node's box
      holds its children's boxes. */
  lemma {:induction false} RootBuilt(start: seq<Object>, objs: seq<Object>, full: seq<Object>, o: seq<Object>,
                                     before: seq<Node>, pushed: seq<Node>, n: seq<Node>)
    requires full == start + objs && pushed == before + [Unset.SetAABB(Pad(Union(objs), EPSILON))]
    requires |o| == |full| && multiset(o[0..|full|]) == multiset(full[0..|full|])
    requires |pushed| <= |n| && n[..|before|] == pushed[..|before|] && n[|before|].bbox == pushed[|before|].bbox
    requires Built(n, o[0..|full|], |before|, 0, |pushed|)
    ensures |o| == |start| + |objs| && multiset(o) == multiset(start + objs)
    ensures |n| > |before| && n[..|before|] == before
    ensures n[|before|].bbox == Pad(Union(objs), EPSILON)
    ensures WellFormed(n, o, |before|, 0) && RuleCuts(Decode(n, |before|), o)
    ensures |n| == |before| + 1 + 2 * Splits(Decode(n, |before|))
    ensures start == [] && before == [] ==> Tree(n, o) && Nested(Decode(n, 0))
  {
    assert o[0..|full|] == o && full[0..|full|] == full;
    assert pushed[..|before|] == before;
    if start == [] && before == [] {
      assert full == objs;
      ConstantsInRange();
      UnionPermutation(o, objs);
      PadContains(Union(objs), EPSILON);
      BoxesNested(Decode(n, 0), o, 0);
    }
  }

  /** Agreeing on a prefix means agreeing on every shorter prefix and on
      every slice inside it. */
  lemma PrefixAgree(a: seq<Object>, b: seq<Object>, i: nat, j: nat, n: nat)
    requires i <= j <= n <= |a| && n <= |b| && a[..n] == b[..n]
    ensures a[..i] == b[..i] && a[i..j] == b[i..j]
  {
    assert a[..i] == a[..n][..i] && b[..i] == b[..n][..i];
    assert a[i..j] == a[..n][i..j] && b[i..j] == b[..n][i..j];
  }

  /** Agreeing from position n on means agreeing from every later position
      and on every slice from n on. */
  lemma SuffixAgree(a: seq<Object>, b: seq<Object>, n: nat, i: nat, j: nat)
    requires n <= i <= j <= |a| == |b| && a[n..] == b[n..]
    ensures a[j..] == b[j..] && a[i..j] == b[i..j]
  {
    assert a[j..] == a[n..][j - n..] && b[j..] == b[n..][j - n..];
    forall t | 0 <= t < j - i ensures a[i..j][t] == b[i..j][t] {
      assert a[i..j][t] == a[n..][i - n + t] && b[i..j][t] == b[n..][i - n + t];
    }
  }

  /** A range cut at `s` is the concatenation of its two sides. */
  lemma CutRange(o: seq<Object>, l: nat, s: nat, r: nat)
    requires l <= s <= r <= |o|
    ensures o[l..r] == o[l..s] + o[s..r]
    ensures o[l..r][..s - l] == o[l..s] && o[l..r][s - l..] == o[s..r]
  {
  }

  /** How the object array evolves across one split: sorted on [l, r) (o0 to
      o1), left side rebuilt (o1 to o2), right side rebuilt (o2 to o3). Only
      the range changes, and it is a permutation of what it was. */
  lemma ObjectsAfterSplit(o0: seq<Object>, o1: seq<Object>, o2: seq<Object>, o3: seq<Object>, l: nat, s: nat, r: nat)
    requires l < s < r <= |o0| == |o1| == |o2| == |o3|
    requires o1[..l] == o0[..l] && o1[r..] == o0[r..] && multiset(o1[l..r]) == multiset(o0[l..r])
    requires o2[..l] == o1[..l] && o2[s..] == o1[s..] && multiset(o2[l..s]) == multiset(o1[l..s])
    requires o3[..s] == o2[..s] && o3[r..] == o2[r..] && multiset(o3[s..r]) == multiset(o2[s..r])
    ensures o3[..l] == o0[..l] && o3[r..] == o0[r..]
    ensures multiset(o3[l..r]) == multiset(o0[l..r])
  {
    PrefixAgree(o3, o2, l, s, s);
    SuffixAgree(o2, o1, s, s, r);
    SuffixAgree(o2, o1, s, r, r);
    CutRange(o1, l, s, r);
    CutRange(o3, l, s, r);
  }

  /** After both sides of a sorted range are rebuilt, the internal node over
      the range is valid: its children's boxes are still the unions of their
      sides and the sides are still separated along the node's split axis. */
  lemma InternalValid(box: AABB, left: Hierarchy, right: Hierarchy,
                      o1: seq<Object>, o2: seq<Object>, o3: seq<Object>, l: nat, s: nat, r: nat)
    requires l < s < r <= |o1| == |o2| == |o3| && Threshold < r - l
    requires SortedBy(o1[l..r], SplitAxis(box))
    requires o2[s..] == o1[s..] && multiset(o2[l..s]) == multiset(o1[l..s])
    requires o3[..s] == o2[..s] && multiset(o3[s..r]) == multiset(o2[s..r])
    requires left.box == Union(o1[l..s]) && right.box == Union(o1[s..r])
    requires Valid(left, o2[l..s], l) && Valid(right, o3[s..r], s)
    ensures Valid(Split(box, left, right), o3[l..r], l)
  {
    var dim := SplitAxis(box);
    assert o3[l..s] == o2[l..s] by {
      PrefixAgree(o3, o2, l, s, s);
    }
    assert o2[s..r] == o1[s..r] by {
      SuffixAgree(o2, o1, s, s, r);
    }
    assert Separated(o1[l..s], o1[s..r], dim) by {
      SortedCutSeparated(o1[l..r], s - l, dim);
      CutRange(o1, l, s, r);
    }
    SplitSurvivesReordering(o1[l..s], o1[s..r], o3[l..s], o3[s..r], dim);
    CutRange(o3, l, s, r);
    ValidSplit(box, left, right, o3[l..s], o3[s..r], l, s);
  }

  /** After both sides of a range are rebuilt, the internal node over the
      range still cuts where the rule says: the sub-builds only reorder each
      side, and the rule does not depend on the order. */
  lemma InternalCuts(box: AABB, left: Hierarchy, right: Hierarchy,
                     o1: seq<Object>, o2: seq<Object>, o3: seq<Object>, l: nat, s: nat, r: nat)
    requires l < s < r <= |o1| == |o2| == |o3|
    requires o2[s..] == o1[s..] && multiset(o2[l..s]) == multiset(o1[l..s])
    requires o3[..s] == o2[..s] && multiset(o3[s..r]) == multiset(o2[s..r])
    requires SplitRule(box, o1[l..r], s - l) && Count(left) == s - l
    requires RuleCuts(left, o2[l..s]) && RuleCuts(right, o3[s..r])
    ensures RuleCuts(Split(box, left, right), o3[l..r])
  {
    PrefixAgree(o3, o2, l, s, s);
    SuffixAgree(o2, o1, s, s, r);
    CutRange(o1, l, s, r);
    SplitRuleSurvivesReordering(box, o1[l..s], o1[s..r], o3[l..s], o3[s..r]);
    CutRange(o3, l, s, r);
    RuleCutsSplit(box, left, right, o3[l..s], o3[s..r]);
  }

  /** After both children of node k are built, node k is the root of a
      shaped subtree whose descendants all lie at c or later, and reading it
      back gives the left subtree as it was after its own build. */
  lemma InternalShape(n1: seq<Node>, n2: seq<Node>, k: nat, c: nat, lo: nat, inner: Node)
    requires k < c && lo == c + 2 <= |n1| <= |n2|
    requires n2[k] == inner && !inner.leaf && inner.index == c
    requires Shaped(n1, c) && Above(n1, c, lo)
    requires n2[c] == n1[c] && n2[c + 2..|n1|] == n1[c + 2..]
    requires Shaped(n2, c + 1) && Above(n2, c + 1, |n1|)
    ensures Shaped(n2, k) && Above(n2, k, c)
    ensures Decode(n2, k) == Split(inner.bbox, Decode(n1, c), Decode(n2, c + 1))
  {
    assert n1[c + 2..] == n1[c + 2..|n1|];
    FrameNodes(n1, n2, c, c + 2);
    AboveWeaken(n2, c, c + 2, c);
    AboveWeaken(n2, c + 1, |n1|, c);
  }

  /** One internal step of the build as a whole: the range [l, r) sorted
      along the axis of node k's box and node k made internal with children c
      and c + 1 holding the tight boxes of the two sides (o0, n0 to o1, np),
      the left side built at c (to o2, n1) and the right side at c + 1 (to
      o3, n2). Afterwards only the range and
      node k have changed among what existed, and node k is the root of a
      valid subtree over the rebuilt range. */
  lemma {:induction false} SplitStep(o0: seq<Object>, o1: seq<Object>, o2: seq<Object>, o3: seq<Object>,
                  n0: seq<Node>, np: seq<Node>, n1: seq<Node>, n2: seq<Node>,
                  l: nat, s: nat, r: nat, k: nat, c: nat)
    requires Subdivided(o0, n0, o1, np, l, s, r, k, c)
    requires |o2| == |o1| && o2[..l] == o1[..l] && o2[s..] == o1[s..]
    requires multiset(o2[l..s]) == multiset(o1[l..s])
    requires |np| <= |n1| && n1[..c] == np[..c] && n1[c + 1..|np|] == np[c + 1..] && n1[c].bbox == np[c].bbox
    requires Built(n1, o2[l..s], c, l, |np|)
    requires |o3| == |o2| && o3[..s] == o2[..s] && o3[r..] == o2[r..]
    requires multiset(o3[s..r]) == multiset(o2[s..r])
    requires |n1| <= |n2| && n2[..c + 1] == n1[..c + 1] && n2[c + 2..|n1|] == n1[c + 2..] && n2[c + 1].bbox == n1[c + 1].bbox
    requires Built(n2, o3[s..r], c + 1, s, |n1|)
    ensures |o3| == |o0| && o3[..l] == o0[..l] && o3[r..] == o0[r..]
    ensures multiset(o3[l..r]) == multiset(o0[l..r])
    ensures |n0| <= |n2| && n2[..k] == n0[..k] && n2[k + 1..|n0|] == n0[k + 1..]
    ensures n2[k].bbox == n0[k].bbox
    ensures Built(n2, o3[l..r], k, l, |n0|)
  {
    var inner := n0[k].MakeNode(c);
    ObjectsAfterSplit(o0, o1, o2, o3, l, s, r);
    NodesAfterSplit(n0, np, n1, n2, k, c, inner, Unset.SetAABB(Union(o1[l..s])), Unset.SetAABB(Union(o1[s..r])));
    InternalShape(n1, n2, k, c, |np|, inner);
    InternalValid(n0[k].bbox, Decode(n1, c), Decode(n2, c + 1), o1, o2, o3, l, s, r);
    InternalCuts(n0[k].bbox, Decode(n1, c), Decode(n2, c + 1), o1, o2, o3, l, s, r);
  }

  /** How the node array evolves across one split: node k made internal and
      two children appended (n0 to np), left subtree built at c (np to n1),
      right subtree built at c + 1 (n1 to n2). */
  lemma NodesAfterSplit(n0: seq<Node>, np: seq<Node>, n1: seq<Node>, n2: seq<Node>, k: nat, c: nat,
                        inner: Node, leftNode: Node, rightNode: Node)
    requires k < c == |n0| && np == n0[k := inner] + [leftNode] + [rightNode]
    requires |np| <= |n1| && n1[..c] == np[..c] && n1[c + 1..|np|] == np[c + 1..]
    requires |n1| <= |n2| && n2[..c + 1] == n1[..c + 1] && n2[c + 2..|n1|] == n1[c + 2..]
    ensures n2[..k] == n0[..k] && n2[k + 1..c] == n0[k + 1..]
    ensures n2[k] == inner && n2[c] == n1[c] && np[c] == leftNode && n1[c + 1] == rightNode
  {
    assert n2[..c] == n1[..c + 1][..c] == np[..c];
    assert np[..c] == n0[k := inner];
    assert n2[k] == n2[..c][k];
    assert n2[c] == n2[..c + 1][c];
    assert n1[c + 1] == n1[c + 1..c + 2][0];
  }
}
