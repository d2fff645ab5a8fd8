/** The hierarchy's node record and the builder's two configuration constants. */
module BvhNode {
  import opened Bounds

  /** Largest number of objects a leaf may hold; a range of at most this many
      objects is not split. Its value lives in a header that is not part of
      this model: the proofs rely only on it being at least 1. */
  const Threshold: nat := 2

  /** Margin added to every face of the root box. Its value lives in a header
      that is not part of this model: the proofs rely only on it being positive. */
  const EPSILON: real := 0.0001

  lemma ConstantsInRange()
    ensures Threshold >= 1 && EPSILON > 0.0
  {
  }

  /** A node of the flattened tree. A leaf covers `nObjs` objects of the
      object array starting at `index`; an internal node has its left child at
      `index` and its right child at `index + 1` in the node array. */
  datatype Node = Node(bbox: AABB, leaf: bool, index: nat, nObjs: nat)
  {
    /** The box is replaced; the kind and the index fields are kept. */
    function SetAABB(b: AABB): (n: Node)
      ensures n.bbox == b
      ensures n.leaf == leaf && n.index == index && n.nObjs == nObjs
    {
      this.(bbox := b)
    }

    /** The node becomes a leaf over `count` objects starting at `first`; the box is kept. */
    function MakeLeaf(first: nat, count: nat): (n: Node)
      ensures n.leaf && n.index == first && n.nObjs == count
      ensures n.bbox == bbox
    {
      this.(leaf := true, index := first, nObjs := count)
    }

    /** The node becomes internal with its left child at `left`; the box and the
        object count field are kept as they were. */
    function MakeNode(left: nat): (n: Node)
      ensures !n.leaf && n.index == left
      ensures n.bbox == bbox && n.nObjs == nObjs
    {
      this.(leaf := false, index := left)
    }
  }

  /** A node as the default constructor leaves it, before its box is set. The
      fields it does not initialise are given fixed placeholder values here. */
  const Unset: Node := Node(Empty, false, 0, 0)
}
