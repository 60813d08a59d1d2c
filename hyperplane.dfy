/** The splitting hyperplane (source/kdtree_hyperplane.h): an axis index and a
    position on that axis. Points whose coordinate on the axis is below the
    position belong to the left half-space, all others to the right one. */
module Hyperplanes {
  import opened Constants

  /** A hyperplane as a value, as `chooseBestSplit` returns it and a split node
      holds it. */
  datatype Hyperplane = Hyperplane(index: nat, value: int)

  /** The hyperplane a default-constructed `KDHyperplane` holds. */
  const DefaultHyperplane: Hyperplane :=
    Hyperplane(UninitializedHyperplaneIndex, UninitializedHyperplaneValue)

  /** `KDHyperplane<int>`: the object form, whose copy and assignment
      overwrite both fields in place. */
  class KDHyperplane {
    var index: nat
    var value: int

    /** The value this object currently holds. */
    function View(): Hyperplane
      reads this
    {
      Hyperplane(index, value)
    }

    /** The default constructor: the uninitialized sentinels. */
    constructor Default()
      ensures View() == DefaultHyperplane
    {
      index := UninitializedHyperplaneIndex;
      value := UninitializedHyperplaneValue;
    }

    constructor (hyperplaneIndex: nat, v: int)
      ensures HyperplaneIndex() == hyperplaneIndex && Value() == v
    {
      index := hyperplaneIndex;
      value := v;
    }

    /** The copy constructor, which calls `copy`. */
    constructor CopyOf(other: KDHyperplane)
      ensures View() == other.View()
      ensures Equals(other)
    {
      index := other.HyperplaneIndex();
      value := other.Value();
    }

    function HyperplaneIndex(): (i: nat)
      reads this
      ensures i == index
    {
      index
    }

    function Value(): (v: int)
      reads this
      ensures v == value
    {
      value
    }

    /** `copy`: overwrite both fields with those of `other`. */
    method Copy(other: KDHyperplane)
      modifies this
      ensures View() == old(other.View())
      ensures Equals(other)
    {
      index := other.HyperplaneIndex();
      value := other.Value();
    }

    /** `operator=`, which calls `copy`. */
    method Assign(other: KDHyperplane)
      modifies this
      ensures View() == old(other.View())
      ensures Equals(other)
    {
      Copy(other);
    }

    /** `equals` and `operator==`: the two fields agree. */
    predicate Equals(other: KDHyperplane)
      reads this, other
      ensures Equals(other) <==> View() == other.View()
    {
      other.HyperplaneIndex() == index && other.Value() == value
    }

    /** `operator!=`. */
    predicate NotEquals(other: KDHyperplane)
      reads this, other
      ensures NotEquals(other) <==> !Equals(other)
    {
      !Equals(other)
    }
  }

  /** Equality of hyperplane objects is an equivalence, so any two default
      hyperplanes are equal and a copy of a copy equals the original. */
  lemma EqualsIsEquivalence(a: KDHyperplane, b: KDHyperplane, c: KDHyperplane)
    ensures a.Equals(a)
    ensures a.Equals(b) ==> b.Equals(a)
    ensures a.Equals(b) && b.Equals(c) ==> a.Equals(c)
  {
  }
}
