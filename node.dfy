/** Tree nodes (source/kdtree_node.h).

    `Node` is the shape `KDTree::build` produces: a leaf for a single point or
    a split node with a hyperplane and two subtrees, held by value.
    `KDNode` is the header's class as written: a split node with a hyperplane
    index, a value and two child references, compared by reference. */
module Nodes {
  import opened Types
  import opened Constants
  import opened Hyperplanes

  datatype Node = Leaf(point: Point) | Split(plane: Hyperplane, left: Node, right: Node)

  /** The points stored at the leaves of `n`. */
  function LeafSet(n: Node): set<Point> {
    match n
    case Leaf(p) => {p}
    case Split(_, l, r) => LeafSet(l) + LeafSet(r)
  }

  /** The leaves of `n` from left to right, with repetitions. */
  function Leaves(n: Node): seq<Point> {
    match n
    case Leaf(p) => [p]
    case Split(_, l, r) => Leaves(l) + Leaves(r)
  }

  /** The split invariant: every leaf has `d` coordinates, every split axis is
      below `d`, every leaf under a left child lies strictly below its
      parent's hyperplane and every leaf under a right child at or above it. */
  predicate IsKdTree(n: Node, d: nat) {
    match n
    case Leaf(p) => |p| == d
    case Split(h, l, r) =>
      && h.index < d
      && IsKdTree(l, d)
      && IsKdTree(r, d)
      && (forall p :: p in LeafSet(l) ==> h.index < |p| && p[h.index] < h.value)
      && (forall p :: p in LeafSet(r) ==> h.index < |p| && p[h.index] >= h.value)
  }

  /** `KDNode<int>`. Children are shared references, as the `shared_ptr`
      fields are; `null` is an absent child. */
  class KDNode {
    var index: nat
    var value: int
    var left: KDNode?
    var right: KDNode?

    /** The default constructor: the largest index and value, no children. */
    constructor Default()
      ensures HyperplaneIndex() == SizeMax && Value() == IntMax
      ensures Left() == null && Right() == null
    {
      index := SizeMax;
      value := IntMax;
      left := null;
      right := null;
    }

    constructor (hyperplaneIndex: nat, v: int, l: KDNode?, r: KDNode?)
      ensures HyperplaneIndex() == hyperplaneIndex && Value() == v
      ensures Left() == l && Right() == r
    {
      index := hyperplaneIndex;
      value := v;
      left := l;
      right := r;
    }

    /** The copy constructor, which calls `copy`: the copy shares the
        original's children. */
    constructor CopyOf(other: KDNode)
      ensures HyperplaneIndex() == other.HyperplaneIndex() && Value() == other.Value()
      ensures Left() == other.Left() && Right() == other.Right()
      ensures Equals(other)
    {
      index := other.HyperplaneIndex();
      value := other.Value();
      left := other.Left();
      right := other.Right();
    }

    function HyperplaneIndex(): (i: nat)
      reads this
      ensures i == index
    {
      index
    }

    function Value(): (v: int)
      reads this
      ensures v == value
    {
      value
    }

    function Left(): (l: KDNode?)
      reads this
      ensures l == left
    {
      left
    }

    function Right(): (r: KDNode?)
      reads this
      ensures r == right
    {
      right
    }

    /** `copy`: overwrite all four fields with those of `other`; the children
        become shared, not duplicated. */
    method Copy(other: KDNode)
      modifies this
      ensures index == old(other.index) && value == old(other.value)
      ensures left == old(other.left) && right == old(other.right)
      ensures Equals(other)
    {
      index := other.HyperplaneIndex();
      value := other.Value();
      left := other.Left();
      right := other.Right();
    }

    /** `operator=`, which calls `copy`. */
    method Assign(other: KDNode)
      modifies this
      ensures index == old(other.index) && value == old(other.value)
      ensures left == old(other.left) && right == old(other.right)
      ensures Equals(other)
    {
      Copy(other);
    }

    /** `equals` and `operator==`: same index and value and the very same
        child objects; children with equal contents at different addresses
        make the nodes unequal. */
    predicate Equals(other: KDNode)
      reads this, other
      ensures Equals(other) ==> Left() == other.Left() && Right() == other.Right()
      ensures (&& HyperplaneIndex() == other.HyperplaneIndex()
               && Value() == other.Value()
               && Left() == other.Left()
               && Right() == other.Right()) ==> Equals(other)
    {
      && other.HyperplaneIndex() == index
      && other.Value() == value
      && other.Left() == left
      && other.Right() == right
    }

    /** `operator!=`. */
    predicate NotEquals(other: KDNode)
      reads this, other
      ensures NotEquals(other) <==> !Equals(other)
    {
      !Equals(other)
    }
  }

  /** Node equality is an equivalence. */
  lemma NodeEqualsIsEquivalence(a: KDNode, b: KDNode, c: KDNode)
    ensures a.Equals(a)
    ensures a.Equals(b) ==> b.Equals(a)
    ensures a.Equals(b) && b.Equals(c) ==> a.Equals(c)
  {
  }
}
