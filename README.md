# Bounding-volume hierarchy builder of MyRayTracer

This project models the bounding-volume hierarchy (BVH) builder of the
MyRayTracer renderer and proves what the builder guarantees about the tree it
produces. It also models the part of the renderer's `Vector` class that the
builder uses.

`BVH::Build` works in four steps:
- it appends the scene's objects to the hierarchy's object list;
- it accumulates the union of their bounding boxes;
- it widens that box by `EPSILON` on all six faces and stores it in a new root node;
- it calls `build_recursive` over the whole object list.

`build_recursive` then works on one range of objects at a time:
- A range of at most `Threshold` objects becomes a leaf over exactly that range.
- A larger range is sorted by centroid along the longest axis of the node's box.
- It is split at the first centroid past the box midpoint. When that would leave one side empty, the mean centroid is used instead. When even the mean is degenerate, the split falls `Threshold` objects in.
- Two child nodes with the tight (unwidened) boxes of the two sides are appended to the node array. The parent records the left child's position; the right child is the next node.
- Each side is built in turn.

Layout, one module per file:
- `vector.dfy` (`Vectors`): the value operators of `Vector` over the reals, and `MutableVector`, a class whose `-=`, `+=` and `*=` methods overwrite its three fields.
- `bounds.dfy` (`Bounds`):
  - axis-aligned boxes, with an explicit empty box;
  - `Object`, standing for the builder's view of a scene object (a box and a centroid);
  - `Extend`, the union of two boxes; `Union`, the box of a run of objects; `Pad`, the root's widening.
- `centroid_order.dfy` (`CentroidOrder`): the centroid comparator and the range sort.
- `bvh_node.dfy` (`BvhNode`): the node record with `setAABB`, `makeLeaf` and `makeNode`, and the two constants.
- `bvh_split.dfy` (`BvhSplit`):
  - the choice of split axis, split value and split position, and the loops that compute the mean and the two child boxes;
  - `SplitRule`, the same choice stated on the smallest key, the largest key and the mean of a range, none of which depends on the range's order, so it still holds after the sub-builds reorder each side.
- `bvh_tree.dfy` (`BvhTree`):
  - what a finished hierarchy is. The node array is read back (`Decode`) as a binary tree value, `Hierarchy`.
  - `Valid` states on that value how the tree covers the objects, and `RuleCuts` that every internal node cuts where `SplitRule` says.
  - It also holds the proofs of the partition property, of nested boxes and of the frame property.
- `bvh.dfy` (`Bvh`):
  - class `BVH`, whose `objects` and `nodes` fields are sequences that `Build`, `BuildRecursive`, `Subdivide` and `BuildChildren` reassign as the source's vectors are pushed to and sorted. `Subdivide` is the part of `build_recursive` before its two recursive calls, and `BuildChildren` the two calls;
  - the lemmas that carry one recursive step.

Node pointers become positions in the node array. A child reference is the
left child's position; the right child is at that position plus one.

`Build` appends to the object list without clearing it (bvh.cpp:39). It then
rebuilds over every object, the earlier ones included (bvh.cpp:45). `Build`
is modelled for any starting state:
- The new root is the node it appends.
- The new root's subtree covers all objects.
- Earlier nodes are left untouched.
- The root's box is the padded union of the new objects only.
The full-tree and nested-box guarantees are stated for a fresh instance.

## Model

| member | source | states |
|---|---|---|
| Vectors.AxisValue | MyRayTracer/vector.cpp:15-17 | axis 0 selects x, axis 1 selects y, any other axis selects z |
| Vectors.Add | MyRayTracer/vector.cpp:39-42 | every axis of the sum is the sum of the operands on that axis |
| Vectors.Sub | MyRayTracer/vector.cpp:45-48 | every axis of the difference is the difference of the operands on that axis |
| Vectors.Scale | MyRayTracer/vector.cpp:51-54 | every axis is multiplied by the scalar |
| Vectors.Div | MyRayTracer/vector.cpp:61-64 | for a non-zero divisor, every axis of the result times the divisor gives the operand back |
| Vectors.Shift | MyRayTracer/vector.cpp:76-80 | the scalar is added to every axis (what `+= f` does, and `-= f` with the negated scalar) |
| Vectors.Dot | MyRayTracer/vector.cpp:56-59 | the inner product of a vector with itself, its squared length, is never negative |
| Vectors.DotProduct | MyRayTracer/vector.cpp:109-115 | `dotProduct` agrees with the inner product `operator*(Vector)` |
| Vectors.Cross | MyRayTracer/vector.cpp:85-100 | the cross product has zero inner product with both operands |
| Vectors.CrossProduct | MyRayTracer/vector.cpp:102-107 | `crossProduct` has the same components as `operator%` |
| Vectors.AddSubCancel | MyRayTracer/vector.cpp:39-48 | `(a + b) - b == a` |
| Vectors.ScaleDivCancel | MyRayTracer/vector.cpp:51-64 | `(v * f) / f == v` for `f != 0` |
| Vectors.ShiftCancel | MyRayTracer/vector.cpp:76-80 | `+= d` followed by `-= d` restores the vector |
| Vectors.DotSymmetric | MyRayTracer/vector.cpp:56-59 | the inner product is symmetric |
| Vectors.CrossSelfIsZero | MyRayTracer/vector.cpp:85-100 | `a % a` is the zero vector |
| Vectors.CrossAntiCommutative | MyRayTracer/vector.cpp:85-100 | `a % b == -(b % a)` |
| Vectors.MutableVector.constructor | MyRayTracer/vector.cpp:24-27 | the new vector holds the given components |
| Vectors.MutableVector.SubAssign | MyRayTracer/vector.cpp:73-74 | `-= w` leaves the receiver equal to its old value minus `w`, componentwise |
| Vectors.MutableVector.SubAssignScalar | MyRayTracer/vector.cpp:76-77 | `-= f` subtracts `f` from all three fields |
| Vectors.MutableVector.AddAssignScalar | MyRayTracer/vector.cpp:79-80 | `+= f` adds `f` to all three fields |
| Vectors.MutableVector.MulAssignScalar | MyRayTracer/vector.cpp:82-83 | `*= f` multiplies all three fields by `f` |
| Bounds.MinCorner | MyRayTracer/bvh.cpp:38 | the lower corner of an extended box is the axis-wise minimum of the two lower corners |
| Bounds.MaxCorner | MyRayTracer/bvh.cpp:38 | the upper corner of an extended box is the axis-wise maximum of the two upper corners |
| Bounds.ExtendBounds | MyRayTracer/bvh.cpp:36-40 | `extend` yields a box holding both arguments, empty only when both are |
| Bounds.ExtendLeast | MyRayTracer/bvh.cpp:36-40 | any box holding both arguments holds their extension: it is the least bound |
| Bounds.ExtendCommutative | MyRayTracer/bvh.cpp:119-125 | the order of the two boxes does not matter |
| Bounds.ExtendAssociative | MyRayTracer/bvh.cpp:119-125 | extending step by step does not depend on grouping |
| Bounds.UnionSnoc | MyRayTracer/bvh.cpp:36-40 | one more `extend` adds exactly the next object's box to the accumulated union |
| Bounds.UnionContainsEach | MyRayTracer/bvh.cpp:36-40 | the accumulated union holds every object's box |
| Bounds.UnionLeast | MyRayTracer/bvh.cpp:36-40 | every box holding all objects' boxes holds the union |
| Bounds.UnionAppend | MyRayTracer/bvh.cpp:119-125 | the union of two runs placed end to end is the extension of their unions |
| Bounds.UnionPermutation | MyRayTracer/bvh.cpp:78 | reordering objects, as the range sort does, leaves their union unchanged |
| Bounds.ContainsTransitive | MyRayTracer/bvh.cpp:119-125 | box containment is transitive |
| Bounds.Pad | MyRayTracer/bvh.cpp:41-42 | the widened box lies `EPSILON` beyond the original on each of the six faces; the empty box stays empty |
| Bounds.PadContains | MyRayTracer/bvh.cpp:41-43 | for a non-negative margin the widened box holds the original |
| CentroidOrder.Insert | MyRayTracer/bvh.cpp:75-78 | inserting into a sorted run under the comparator keeps it sorted and adds exactly that object |
| CentroidOrder.PrependSorted | MyRayTracer/bvh.cpp:75-78 | an object with no larger key than any in a sorted run can go first |
| CentroidOrder.SortByCentroid | MyRayTracer/bvh.cpp:75-78 | the sort gives a permutation of its input, non-decreasing in centroid along the axis |
| CentroidOrder.SortRange | MyRayTracer/bvh.cpp:75-78 | sorting `[left, right)` changes nothing outside it, permutes the range, and leaves it non-decreasing in centroid along the axis |
| CentroidOrder.SpliceSorted | MyRayTracer/bvh.cpp:78 | replacing a range by a permutation of itself keeps the sequence's length, its outside, and its multiset |
| BvhNode.ConstantsInRange | MyRayTracer/bvh.cpp:41-52 | `Threshold` is at least 1 and `EPSILON` is positive |
| BvhNode.Node.SetAABB | MyRayTracer/bvh.cpp:8 | `setAABB` replaces the box and keeps the kind and index fields |
| BvhNode.Node.MakeLeaf | MyRayTracer/bvh.cpp:10-14 | `makeLeaf` sets leaf, first index and object count, and keeps the box |
| BvhNode.Node.MakeNode | MyRayTracer/bvh.cpp:16-20 | `makeNode` clears the leaf flag and sets the left child index; the box and `n_objs` are kept |
| BvhSplit.SplitAxis | MyRayTracer/bvh.cpp:59-73 | the axis is one of 0..2, its extent is maximal, and it is strictly longer than every earlier axis, so ties go x before y before z |
| BvhSplit.Midpoint | MyRayTracer/bvh.cpp:80 | the midpoint is equidistant from the box's two faces along the axis and lies between them |
| BvhSplit.SumAtMost | MyRayTracer/bvh.cpp:88-90 | a sum of keys none above `m` is at most `n * m`, with equality only when every key is `m` |
| BvhSplit.SumAtLeast | MyRayTracer/bvh.cpp:88-90 | a sum of keys none below `m` is at least `n * m` |
| BvhSplit.QuotientBounds | MyRayTracer/bvh.cpp:91 | dividing the bounded sum by the positive count keeps it between the bounds |
| BvhSplit.MeanSplitDegenerateOnlyIfFlat | MyRayTracer/bvh.cpp:84-99 | on a sorted range the mean centroid lies between the first and last; if the mean split is still one-sided, every centroid on the axis is equal |
| BvhSplit.MeanCentroid | MyRayTracer/bvh.cpp:87-91 | the accumulation loop yields the mean centroid coordinate of the range |
| BvhSplit.FindSplit | MyRayTracer/bvh.cpp:100-106 | the scan stops at the first position past the split value, or at `right` when there is none |
| BvhSplit.ChooseSplit | MyRayTracer/bvh.cpp:80-106 | the split lies strictly inside the range; it is `left + Threshold` when the final split value is degenerate and otherwise the first position past that value |
| BvhSplit.KeyExtremes | MyRayTracer/bvh.cpp:84-86 | every centroid of a range lies between the smallest and the largest, and both are centroids of some object |
| BvhSplit.SortedExtremes | MyRayTracer/bvh.cpp:78-86 | on a sorted range the smallest centroid is the first one and the largest the last one |
| BvhSplit.ExtremesPermutation | MyRayTracer/bvh.cpp:78 | reordering a range keeps its smallest and largest centroid |
| BvhSplit.DegenerateIsOneSided | MyRayTracer/bvh.cpp:84-86 | on a sorted range, the test on the first and last centroid holds exactly when cutting at the value would leave one side empty |
| BvhSplit.SumKeysAppend | MyRayTracer/bvh.cpp:88-90 | the sum of the keys of two runs placed end to end is the sum of their sums |
| BvhSplit.SumKeysPermutation | MyRayTracer/bvh.cpp:87-91 | reordering a range keeps the sum of its keys, and so its mean |
| BvhSplit.RuleValuePermutation | MyRayTracer/bvh.cpp:80-92 | reordering a range keeps its split value, and whether that value leaves one side empty |
| BvhSplit.SplitRuleSurvivesReordering | MyRayTracer/bvh.cpp:144-145 | reordering inside each side of a cut that follows the split rule gives a cut that still follows it |
| BvhSplit.ChosenSplitFollowsRule | MyRayTracer/bvh.cpp:78-106 | on the sorted range, the split `ChooseSplit` picks is where `SplitRule` puts it. When even the final split value leaves one side empty, the cut falls `Threshold` objects in. Otherwise both sides are non-empty, no left centroid lies past the value, and every right centroid does |
| BvhSplit.SplitRuleUnique | MyRayTracer/bvh.cpp:80-106 | a range has at most one cut that follows the split rule, so the cut `ChooseSplit` picks is the only one a built subtree can have |
| BvhSplit.UnionRange | MyRayTracer/bvh.cpp:109-125 | the loop's box is the union of the boxes of the range and holds each of them |
| BvhTree.ValidSplit | MyRayTracer/bvh.cpp:138-145 | an internal node over two runs placed end to end is valid when both children are, their boxes are the runs' unions and the runs are separated along the node's axis |
| BvhTree.RuleCutsSplit | MyRayTracer/bvh.cpp:138-145 | an internal node over two runs placed end to end cuts where the rule says when its own cut and its children's cuts do |
| BvhTree.SplitSurvivesReordering | MyRayTracer/bvh.cpp:144-145 | reordering inside each side keeps the sides' unions and their separation along the axis |
| BvhTree.SortedCutSeparated | MyRayTracer/bvh.cpp:78-106 | cutting a sorted range anywhere leaves no left centroid past a right one along the axis |
| BvhTree.Decode | MyRayTracer/bvh.cpp:138-142 | the subtree read back at a node carries that node's box; it is a leaf exactly when the node is one, with the node's first index and count |
| BvhTree.LeafExactlyWhenSmall | MyRayTracer/bvh.cpp:50-53 | in a well-formed subtree a node is a leaf exactly when its range holds at most `Threshold` objects, with index `left` and count `right - left`; otherwise both children come after it in the array |
| BvhTree.AboveWeaken | MyRayTracer/bvh.cpp:141-142 | descendants lying at or after a position also lie at or after any earlier one |
| BvhTree.SameAt | MyRayTracer/bvh.cpp:141-142 | nodes in an unchanged slice of the array are unchanged |
| BvhTree.FrameNodes | MyRayTracer/bvh.cpp:141-145 | a subtree reads back the same after other nodes change or nodes are appended, as long as its root and the nodes from where its descendants start are kept |
| BvhTree.TilesAppend | MyRayTracer/bvh.cpp:144-145 | ranges tiling `[a, b)` followed by ranges tiling `[b, c)` tile `[a, c)` |
| BvhTree.LeavesTile | MyRayTracer/bvh.cpp:50-53 | the leaves of a valid subtree tile its object range left to right, none holding more than `Threshold` objects |
| BvhTree.TilesPartition | MyRayTracer/bvh.cpp:144-145 | tiling ranges stay inside their span and put every position of it in exactly one range |
| BvhTree.GatherTiles | MyRayTracer/bvh.cpp:144-145 | concatenating the objects of tiling ranges gives back exactly the tiled slice |
| BvhTree.LeavesPartitionObjects | MyRayTracer/bvh.cpp:48-149 | in a finished tree the leaf ranges partition `[0, n)` with no gap or overlap, each has at most `Threshold` objects, and together they hold the object array in order |
| BvhTree.UnionHalvesInside | MyRayTracer/bvh.cpp:119-125 | a box holding a run's union holds the union of each of its two sides |
| BvhTree.BoxesNested | MyRayTracer/bvh.cpp:41-43 | when the root's box holds its objects' union, every internal box in a valid tree holds its children's boxes |
| Bvh.BVH.constructor | MyRayTracer/bvh.cpp:23 | a new hierarchy has no objects and no nodes |
| Bvh.BVH.Build | MyRayTracer/bvh.cpp:25-46 | `getNumObjects` (the object count) after a build is the count before it plus the number of objects given, and the object list is a permutation of the old list plus the given objects. Earlier nodes are unchanged. The appended root holds the union of the given objects' boxes widened by `EPSILON`. It roots a valid subtree over every object, every internal node of which cuts where the split rule says. The array grows by that root plus two nodes per internal node of its subtree. On a fresh instance the tree read back from node 0 is valid over all objects, and every box holds its children's boxes |
| Bvh.BVH.BuildRecursive | MyRayTracer/bvh.cpp:48-149 | only `[left, right)` of the object list changes, as a permutation. Node `k` keeps its box, and earlier nodes other than `k` are unchanged. All descendants of `k` are appended after the old end, two per internal node of its subtree. `k` roots a valid subtree over the rebuilt range, and every internal node of it cuts where the split rule (midpoint, mean retry, `Threshold` fallback) says. Termination is by the strictly shrinking range |
| Bvh.BVH.Subdivide | MyRayTracer/bvh.cpp:57-142 | the range is sorted along the axis of the node's box. The split lies strictly inside it, where the split rule puts it. Node `k` becomes internal with its left child at the old end of the array, and the two children appended there hold the unions of the two sides |
| Bvh.BVH.BuildChildren | MyRayTracer/bvh.cpp:144-145 | after the two recursive calls, only the range has changed among the objects, as a permutation. Node `k` keeps its box, and the other old nodes are unchanged. `k` roots a valid subtree over the range that follows the split rule, with two appended nodes per internal node |
| Bvh.RootBuilt | MyRayTracer/bvh.cpp:41-45 | after the root is pushed and built, `Build`'s guarantees hold: the split rule, the node count, and on a fresh instance the whole-tree and nested-box ones |
| Bvh.PrefixAgree | MyRayTracer/bvh.cpp:144-145 | a generic sequence fact, a proof helper for the frames of the two recursive calls: sequences agreeing on a prefix agree on every shorter prefix and slice inside it |
| Bvh.SuffixAgree | MyRayTracer/bvh.cpp:144-145 | a generic sequence fact, a proof helper for the frames of the two recursive calls: sequences agreeing from a position on agree on every later suffix and slice |
| Bvh.CutRange | MyRayTracer/bvh.cpp:144-145 | a generic sequence fact, a proof helper for the two recursive calls: a range cut at the split is its left side followed by its right side |
| Bvh.ObjectsAfterSplit | MyRayTracer/bvh.cpp:78-145 | after the sort and both recursive builds, only `[left, right)` has changed, and as a permutation |
| Bvh.InternalCuts | MyRayTracer/bvh.cpp:78-145 | once both sides are rebuilt, the internal node over the range still cuts where the split rule says, because the sub-builds only reorder each side |
| Bvh.InternalValid | MyRayTracer/bvh.cpp:119-145 | once both sides of a sorted range are rebuilt, the internal node over the range is valid |
| Bvh.InternalShape | MyRayTracer/bvh.cpp:138-145 | after both children are built, the parent reads back as an internal node over the two built subtrees, with all descendants after the parent's old end |
| Bvh.NodesAfterSplit | MyRayTracer/bvh.cpp:138-145 | across one split only node `k` and the appended nodes change among the nodes that existed, and `k` holds the internal record |
| Bvh.SplitStep | MyRayTracer/bvh.cpp:55-147 | one internal step as a whole meets `BuildRecursive`'s guarantees: only the range changed, as a permutation; the old nodes are kept except `k`; and `k` roots a valid subtree that follows the split rule, with two appended nodes per internal node |

## Left out

- `BVH::Traverse`, both overloads (bvh.cpp:151-172): they are unimplemented stubs that return false and hold no algorithm to model.
- main.cpp and camera.h: windowing, input, rendering and camera math are not part of this model.
- `Vector::length`, `normalize` and `distance`: they rely on `sqrt`, which the reals used here do not model.
- Assignment and copy of `Vector` (vector.cpp:24-37): a value datatype is copied by assignment, so there is no aliasing to model. The copy constructor is modelled as `MutableVector`'s constructor.
- Floating point: coordinates are mathematical reals. Rounding, overflow, NaN and the `FLT_MAX` sentinel boxes are not modelled. The empty box stands for the sentinel that starts every union. For an empty object list the root box is therefore empty, not a sentinel box widened by `EPSILON`. The tree is still a single leaf over zero objects.
- Bvh.BVH.Build: integer widths are unbounded. `getNumObjects`' conversion of the object count to `int` and the `unsigned` node fields cannot overflow here.
- `AABB::extend`, the `Comparator`, `Object::GetBoundingBox` and `getCentroid` live in headers that are not part of this model. They are modelled as the componentwise min/max union, the strict centroid comparison along one axis, and the box and centroid fields of an `Object` value.
- `Threshold` and `EPSILON` are defined in a header that is not part of this model. They are given the values 2 and 0.0001, and the proofs use only `Threshold >= 1` and `EPSILON > 0`.
- `std::sort` may put objects with equal keys in any order. The model's sort is one particular sorted permutation (insertion sort). No guarantee depends on the order of equal keys; they all rest on sortedness and permutation.
- `crossProduct` returns a reference to a temporary (vector.cpp:102-107). The model returns the value.
- Vectors.Div: requires a non-zero divisor. IEEE division by zero yields infinities, which reals do not have.
- A freshly allocated `BVHNode` leaves its fields uninitialised. The model gives them fixed placeholder values (`BvhNode.Unset`), and `makeNode` keeps the placeholder count.
- Bvh.BVH.Build: the nested-box guarantee is stated for a fresh instance only. On a repeated build the root box covers only the new objects, while the tree spans every object.
