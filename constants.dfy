/** Named constants (source/kdtree_constants.cpp) and the numeric limits the
    headers use, for a 64-bit `size_t` and a 32-bit `int`. */
module Constants {

  /** `std::numeric_limits<size_t>::max()`. */
  const SizeMax: nat := 0xFFFF_FFFF_FFFF_FFFF

  /** `std::numeric_limits<int>::max()`, the largest value of `T = int`. */
  const IntMax: int := 0x7FFF_FFFF

  /** `KDTREE_UNINITIALIZED_HYPERPLANE_INDEX`. */
  const UninitializedHyperplaneIndex: nat := SizeMax - 1

  /** `KDTREE_UNINITIALIZED_HYPERPLANE_VALUE`. */
  const UninitializedHyperplaneValue: nat := 0

  /** `KDTREE_EMPTY_SET_VARIANCE`: the axis reported for an empty set. */
  const EmptySetVariance: nat := 0

  /** `KDTREE_EMPTY_SET_MEDIAN`: the median reported for an empty set or an
      axis the points do not have. */
  const EmptySetMedian: nat := 0
}
