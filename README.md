# KD-tree model

A model of the core of a small C++ KD-tree library. The modelled parts are:

- the splitting hyperplane (`KDHyperplane`) and the tree node (`KDNode`);
- the tree itself (`KDTree`): its constructors, copy, assignment and equality, `points()`, `chooseBestSplit` and the recursive median split `build`;
- the split-selection utilities: the two stubbed header functions, plus `minMaxPerAxis`, `axisOfHighestVariance` and `medianValueInAxis` as the unit tests specify them;
- the brute-force nearest-neighbour oracle of the sanity harness, with the harness's two comparison loops.

Points are sequences of integers (the tests use `T = int`). A point set is a Dafny `set`. `Types.Elements` gives its iteration order: ascending in the lexicographic order of `std::vector`.

Files and modules:

| file | module | what |
|---|---|---|
| types.dfy | `Types` | points, point sets, lexicographic order, iteration order |
| constants.dfy | `Constants` | named sentinels and numeric limits |
| hyperplane.dfy | `Hyperplanes` | `Hyperplane` value and the `KDHyperplane` class |
| node.dfy | `Nodes` | the `Node` tree shape, the split invariant, the `KDNode` class |
| utils.dfy | `Utils` | per-axis extremes, widest axis, median, squared distance, nearest point |
| kdtree.dfy | `KdTree` | partition, split choice, bisection, nearest-point search, the `KDTree` class |
| sanity.dfy | `ExtendedSanity` | brute-force oracle and the harness loops |
| fixtures.dfy | `UtilsFixtures` | the fixtures of the utility tests, as lemmas |
| findings.dfy | `DegenerateExample`, `BuildFindings` | the defects below, as written and corrected |

How `build` is made to terminate: as written, `build` recurses forever when one half comes out empty. This happens on an empty set, and whenever the median on the chosen axis equals that axis's smallest coordinate. The model does not add a precondition. It uses a fallback instead:

- The constructors build no root for an empty set.
- `KdTree.SplitFor` uses `chooseBestSplit` whenever its left half is non-empty.
- Otherwise `SplitFor` cuts the same axis at its largest coordinate.
- Either way both halves are non-empty, so `|P|` decreases.

`KdTree.Bisection` is the resulting tree as a function. `KdTree.KDTree.Build` is the method with the partition loop, proved equal to it.

`nearestPoint` is a stub in the source. The model gives both forms:

- the stub as written;
- a branch-and-bound search over the bisection, proved to return exactly the point the brute-force oracle returns.

Ties between equally close points go to the first point in the set's order, as the oracle's strict `<` does.

## Model

| member | source | states |
|---|---|---|
| Types.LexLessAsymmetric | source/kdtree_types.h:14-15 | the order a point set iterates in never puts two points each before the other |
| Types.LexLessTransitive | source/kdtree_types.h:14-15 | that order is transitive |
| Types.LexLessTotal | source/kdtree_types.h:14-15 | any two distinct points are ordered one way or the other |
| Types.Elements | source/kdtree_types.h:14-15 | the iteration order lists exactly the points of the set, as many as the set holds |
| Types.ElementsSorted | source/kdtree_types.h:14-15 | the iteration order starts at the least point and is strictly ascending |
| Types.SortedEnumerationIsElements | source/kdtree_types.h:14-15 | any strictly ascending listing of a set is its iteration order (so the order is unique) |
| Types.ElementsDistinct | source/kdtree_types.h:14-15 | the iteration order lists no point twice |
| Types.Dim | source/kdtree_types.h:12-15 | every point of a uniform set has the set's dimension |
| Hyperplanes.KDHyperplane.Default | source/kdtree_hyperplane.h:86-93 | a default hyperplane holds index SIZE_MAX - 1 and value 0 |
| Hyperplanes.KDHyperplane.constructor | source/kdtree_hyperplane.h:95-102 | the accessors return the index and value given |
| Hyperplanes.KDHyperplane.CopyOf | source/kdtree_hyperplane.h:104-108 | a copy holds the same two fields and equals the original |
| Hyperplanes.KDHyperplane.HyperplaneIndex | source/kdtree_hyperplane.h:144-149 | returns the stored axis index |
| Hyperplanes.KDHyperplane.Value | source/kdtree_hyperplane.h:151-156 | returns the stored value |
| Hyperplanes.KDHyperplane.Copy | source/kdtree_hyperplane.h:162-168 | both fields become those of the other hyperplane, and the two are then equal |
| Hyperplanes.KDHyperplane.Assign | source/kdtree_hyperplane.h:120-126 | assignment has the effect of `copy` |
| Hyperplanes.KDHyperplane.Equals | source/kdtree_hyperplane.h:174-181 | equal exactly when index and value both agree |
| Hyperplanes.KDHyperplane.NotEquals | source/kdtree_hyperplane.h:135-139 | `!=` is exactly the negation of `==` |
| Hyperplanes.EqualsIsEquivalence | tests/kdtree_hyperplane.t.cpp:23-51 | hyperplane equality is reflexive, symmetric and transitive |
| Nodes.KDNode.Default | source/kdtree_node.h:103-111 | a default node holds index SIZE_MAX, value INT_MAX and no children |
| Nodes.KDNode.constructor | source/kdtree_node.h:113-124 | the accessors return the four values given |
| Nodes.KDNode.CopyOf | source/kdtree_node.h:126-130 | a copy shares the original's children and equals it |
| Nodes.KDNode.HyperplaneIndex | source/kdtree_node.h:167-172 | returns the stored axis index |
| Nodes.KDNode.Value | source/kdtree_node.h:174-179 | returns the stored value |
| Nodes.KDNode.Left | source/kdtree_node.h:181-186 | returns the stored left child reference |
| Nodes.KDNode.Right | source/kdtree_node.h:188-193 | returns the stored right child reference |
| Nodes.KDNode.Copy | source/kdtree_node.h:199-207 | all four fields become those of the other node (children shared), and the nodes are then equal |
| Nodes.KDNode.Assign | source/kdtree_node.h:142-148 | assignment has the effect of `copy` |
| Nodes.KDNode.Equals | source/kdtree_node.h:213-222 | equal nodes have the very same child objects; nodes that agree on index and value and hold the very same child objects are equal |
| Nodes.KDNode.NotEquals | source/kdtree_node.h:157-162 | `!=` is exactly the negation of `==` |
| Nodes.NodeEqualsIsEquivalence | source/kdtree_node.h:150-155 | node equality is reflexive, symmetric and transitive |
| Utils.HighestVariance | source/kdtree_utils.h:32-43 | the empty set gives the empty-set variance sentinel, any other set the placeholder 123 |
| Utils.MedianInAxis | source/kdtree_utils.h:45-56 | the empty set gives the sentinel 0, any other set the placeholder 456 |
| Utils.AxisValues | tests/kdtree_utils.t.cpp:25-68 | the coordinates on an axis, one per point in iteration order; a value occurs exactly when some point has it |
| Utils.AxisExtremes | tests/kdtree_utils.t.cpp:70-117 | a non-empty set attains a least and a greatest coordinate on each axis |
| Utils.MinMaxPerAxis | tests/kdtree_utils.t.cpp:70-117 | empty for the empty set; otherwise one pair per axis, each the attained minimum and maximum on that axis |
| Utils.MinMaxIs | tests/kdtree_utils.t.cpp:70-117 | a value attained on an axis and bounding every coordinate there from below (above) is the reported minimum (maximum) |
| Utils.WidestIn | tests/kdtree_utils.t.cpp:119-157 | picks a position of largest width, the first such |
| Utils.AxisOfHighestVariance | tests/kdtree_utils.t.cpp:119-157 | the empty-set sentinel when there are no axes; otherwise an axis of largest spread with no earlier axis as wide |
| Utils.WidestAxisIs | tests/kdtree_utils.t.cpp:119-157 | an axis strictly wider than every other is the one reported |
| Utils.SortInts | tests/kdtree_utils.t.cpp:25-68 | the result is sorted and a permutation of the input |
| Utils.SortKeepsSorted | tests/kdtree_utils.t.cpp:25-68 | sorting an already sorted sequence leaves it unchanged |
| Utils.MedianValueInAxis | tests/kdtree_utils.t.cpp:25-68 | the empty-set median sentinel for an empty set or a missing axis; otherwise a coordinate some point has on that axis |
| Utils.SortedUnique | tests/kdtree_utils.t.cpp:25-68 | two sorted sequences with the same elements are equal, so the sorted coordinates are unique |
| Utils.MedianOfSortedAxis | tests/kdtree_utils.t.cpp:25-68 | for any sorted arrangement of the coordinates on an axis, the median is the one at position half the set's size (rounded down) |
| Utils.SortedAxisRank | tests/kdtree_utils.t.cpp:25-68 | the coordinate at position `k` of the sorted coordinates has at most `k` points below it and more than `k` at or below it |
| Utils.MedianValueIsMedian | tests/kdtree_utils.t.cpp:25-68 | with h half the number of points (rounded down), at most h points lie below the median and more than h lie at or below it |
| Utils.MedianOfConstantAxis | tests/kdtree_utils.t.cpp:62-63 | on an axis where every point has the same coordinate, the median is that coordinate |
| Utils.SquaredDistance | extended_sanity.main.cpp:16-21 | the distance is zero exactly between equal points |
| Utils.CoordinateBound | extended_sanity.main.cpp:16-21 | the distance is at least the squared difference on any one axis |
| Utils.NoFartherTransitive | source/kdtree.h:63-66 | "at least as close, ties by set order" is transitive |
| Utils.NoFartherTotal | source/kdtree.h:63-66 | of two points, one is at least as close as the other |
| Utils.NearestIsUnique | source/kdtree.h:63-66 | a set has at most one closest point under that order |
| UtilsFixtures.MedianFixtureConstantAxes | tests/kdtree_utils.t.cpp:62-63 | the median of the test points is 0 on the first axis and 1 on the second |
| UtilsFixtures.MedianFixtureThirdAxis | tests/kdtree_utils.t.cpp:64 | the median of the test points on the third axis is 19 |
| UtilsFixtures.MedianFixtureMissingAxis | tests/kdtree_utils.t.cpp:66-67 | axis 42 gives the empty-set median sentinel |
| UtilsFixtures.MinMaxFixture | tests/kdtree_utils.t.cpp:106-116 | the test points give (-1, 1), (0, 4) and (-500, 42) |
| UtilsFixtures.AxisOfHighestVarianceFixture | tests/kdtree_utils.t.cpp:156 | the test points give axis 2 |
| KdTree.LeftOf | source/kdtree.h:232-238 | the left half holds exactly the points of the set strictly below the hyperplane |
| KdTree.RightOf | source/kdtree.h:232-243 | the right half holds exactly the points of the set at or above the hyperplane |
| KdTree.ChooseBestSplit | source/kdtree.h:203-211 | for points with coordinates, an axis of largest spread (the first such) and a median coordinate on it; the sentinels otherwise |
| KdTree.PartitionIsExact | source/kdtree.h:232-243 | the two halves together are the set, share no point, and their sizes add up |
| KdTree.NonEmptyHalvesAreSmaller | source/kdtree.h:245-246 | when neither half is empty, each is smaller than the set |
| KdTree.LeftEmptyIffAtMostMin | source/kdtree.h:235-238 | the left half is empty exactly when the cut is at or below the axis minimum |
| KdTree.RightEmptyIffAboveMax | source/kdtree.h:239-242 | the right half is empty exactly when the cut is above the axis maximum |
| KdTree.DistinctPointsSpread | source/kdtree.h:207 | two or more points have a widest axis of positive spread |
| KdTree.BestSplitSeparatesUnlessDegenerate | source/kdtree.h:203-211 | on two or more points the best split cuts an existing axis and leaves the median point on the right; its left half is empty exactly when the median is the axis minimum |
| KdTree.SplitFor | source/kdtree.h:226-227 | the corrected split: same axis as `chooseBestSplit`, both halves non-empty and smaller, and equal to `chooseBestSplit` whenever that one separates the points |
| KdTree.Bisection | source/kdtree.h:213-251 | the tree `build` makes of a non-empty set: a leaf exactly for one point, and leaves holding exactly the set's points |
| KdTree.BisectionOfSingleton | source/kdtree.h:217-224 | a one-point set becomes a leaf holding that point |
| KdTree.BisectionIsKdTree | source/kdtree.h:213-251 | every node satisfies the split invariant (left strictly below, right at or above), the leaves hold exactly the input points, each point at exactly one leaf |
| KdTree.SplitInvariantOfBisection | source/kdtree.h:226-246 | at every node of the tree, the leaves on the left lie strictly below the hyperplane and those on the right at or above it |
| KdTree.LeavesOfBisection | source/kdtree.h:213-251 | the leaves of the tree list each input point exactly once |
| KdTree.LeavesHaveDim | source/kdtree.h:213-251 | the leaves of a tree over `d`-dimensional points all have `d` coordinates |
| KdTree.Search | source/kdtree.h:63-66 | the search returns a stored point or the point it started from |
| KdTree.SearchFindsNearest | source/kdtree.h:63-66 | the search returns the closest point among the leaves and its starting point |
| KdTree.LeafSearchFindsNearest | source/kdtree.h:63-66 | at a leaf the search keeps the closer of the leaf's point and the best so far |
| KdTree.FarSideBound | source/kdtree.h:63-66 | a point across the hyperplane is no closer than the hyperplane, which justifies pruning |
| KdTree.KDTree.constructor | source/kdtree.h:117-121 | a default tree holds no points and no root |
| KdTree.KDTree.FromPoints | source/kdtree.h:123-128 | the tree stores the given set unchanged, `points()` returns it, and the root is its bisection |
| KdTree.KDTree.CopyOf | source/kdtree.h:130-135 | the copy holds the same points, a freshly built root, and equals the original |
| KdTree.KDTree.Assign | source/kdtree.h:147-154 | after assignment the tree holds the other's points, a rebuilt root, and equals the other |
| KdTree.KDTree.Copy | source/kdtree.h:257-262 | takes the other tree's points and leaves the root as it was |
| KdTree.KDTree.Points | source/kdtree.h:197-202 | the stored points, which are empty exactly when there is no root and otherwise are exactly the points at the root's leaves |
| KdTree.KDTree.Equals | source/kdtree.h:268-273 | two trees are equal exactly when they hold the same points, whatever their shapes |
| KdTree.KDTree.NotEquals | source/kdtree.h:163-168 | `!=` is exactly the negation of `==` |
| KdTree.KDTree.BuildRoot | source/kdtree.h:123-128 | the root is empty for an empty set and the bisection otherwise |
| KdTree.KDTree.Build | source/kdtree.h:213-251 | the tree built is the bisection of the set |
| KdTree.KDTree.Partition | source/kdtree.h:232-243 | the loop puts exactly the points below the hyperplane on the left and the rest on the right |
| KdTree.KDTree.NearestPoint | source/kdtree.h:63-66 | the query itself for an empty tree; otherwise the stored point closest to the query |
| KdTree.KDTree.NearestPointAsWritten | source/kdtree.h:189-195 | the stub returns the query |
| KdTree.EqualTreesHaveEqualRoots | source/kdtree.h:268-273 | equal trees (same points) built with the same split heuristic have the same root |
| KdTree.TreeEqualsIsEquivalence | source/kdtree.h:156-161 | tree equality is reflexive, symmetric and transitive |
| ExtendedSanity.BruteForceClosestIndex | extended_sanity.main.cpp:32-51 | the index is in range, its point is at least as close as every point, and every earlier point is strictly farther |
| ExtendedSanity.BruteForceClosest | extended_sanity.main.cpp:9-30 | the result is the stored point closest to the query, the first in set order among equally close ones |
| ExtendedSanity.ScanClosest | extended_sanity.main.cpp:12-27 | the loop ends on a closest point, with every earlier point strictly farther |
| ExtendedSanity.IndexIn | extended_sanity.main.cpp:131 | the first position at which a point occurs |
| ExtendedSanity.EarliestClosestIsNearest | extended_sanity.main.cpp:9-30 | the earliest of the closest points in set order is the closest point |
| ExtendedSanity.BruteIndexIsNearestIndex | extended_sanity.main.cpp:128-141 | the brute-force index is the position of the closest point |
| ExtendedSanity.CountIndexMismatches | extended_sanity.main.cpp:128-141 | the brute-force index and the index of the tree's answer never differ |
| ExtendedSanity.CountPointMismatches | extended_sanity.main.cpp:154-167 | the brute-force point and the tree's answer never differ |
| BuildFindings.AsWrittenHalves | source/kdtree.h:227-243 | the halves `build` recurses on, as written, partition the set |
| BuildFindings.AsWrittenDegenerateSplitEmptiesLeft | source/kdtree.h:226-250 | whenever the best split leaves the left half empty, the halves are the empty set and the whole input: the first recursive call (line 245) gets the empty set and never returns, and the second (line 246) would recurse on the whole input |
| BuildFindings.AsWrittenEmptyInputRecursesOnItself | source/kdtree.h:213-250 | `build` on the empty set recurses on the empty set |
| BuildFindings.DegenerateBestSplit | source/kdtree.h:203-211 | on {[0,0],[0,1],[5,0]} the best split is axis 0 at value 0 |
| BuildFindings.AsWrittenDegenerateMedianEmptiesLeft | source/kdtree.h:226-250 | on {[0,0],[0,1],[5,0]} the left half is empty and the right half is the whole set, so `build`'s first recursive call is on the empty set |
| BuildFindings.CorrectedSplitOfDegenerateSet | source/kdtree.h:226-250 | the corrected split of that set cuts axis 0 at 5 and separates two points from one |
| BuildFindings.AsWrittenNearestPointMissesStoredPoint | source/kdtree.h:189-195 | for the tree {[0]} and the query [5], the stub's answer [5] is not the closest stored point, which is [0] |

## Left out

- `serialize`, `deserialize`, `print` and every `operator<<`: output and file formats only. The two former are stubs that return false.
- CSV parsing and file I/O of the sanity harness, and the messages it prints: the points and queries are parameters.
- build_kdtree.main.cpp and query_kdtree.main.cpp are not part of this model. The first only prints; the second repeats the harness's brute-force loop.
- tests/kdtree_node.t.cpp: every test in it is commented out.
- `Utils::distance` is not shown in the source. It is modelled by the squared Euclidean distance, which orders points the same way. Coordinates are integers, not `float`, and no floating-point rounding is modelled.
- No overflow is modelled: coordinates, spreads and distances are unbounded integers. The sentinels keep their 64-bit `size_t` and 32-bit `int` values.
- `shared_ptr` ownership and lifetime are not modelled. `KDNode` keeps reference identity for its children. The tree `build` produces is the `Node` datatype, held by value.
- KdTree.KDTree.FromPoints: requires all points to have the same length. The documentation says points of different lengths are refused, but the code has no such check, so that error path is not modelled.
- KdTree.KDTree.NearestPoint: requires the query to have the points' length. The distance for other queries is not shown in the source.
- `nearestPointIndex` is called by the harness but not declared by `KDTree`. The model uses the position of `nearestPoint`'s answer in the set's iteration order.
- Only the base `chooseBestSplit` is modelled. It is `virtual` (source/kdtree.h:73-77), and a subclass that overrides it builds its own bisection when copying or assigning (source/kdtree.h:40-42); no overriding is modelled. KdTree.EqualTreesHaveEqualRoots therefore holds for trees that use the same heuristic; two equal trees with different heuristics may hold different roots.
- The field comments of `KDNode` and `KDHyperplane` say the left side is "less or equal". The code sends equal coordinates to the right (`<` in the partition); the model follows the code.
- The source does not compile as shown. The model takes the evident intent:
  - The leaf `KDNode` constructor `build` calls is not declared; the model uses a `Leaf` node.
  - `points[0]` is used on a `std::set`; the model takes the set's first point.
  - The sentinels are read from `Defaults` but defined in `Constants`; the model uses the defined values.
  - Line 250 passes `rightPoints` where the right subtree is meant; the model builds `Split(h, build(left), build(right))`.
- `axisOfHighestVariance`, `minMaxPerAxis` and `medianValueInAxis` are called but not shown; their behaviour comes from tests/kdtree_utils.t.cpp. "Variance" is read as spread (maximum minus minimum), which the test's answer agrees with. The median is the element at position `|P| / 2` of the sorted coordinates, which gives 19 on the test's five values; for an even number of points this is the upper of the two middle values.

## Findings

| source | as written | input that shows it | evidently intended | confidence | as-written member | corrected member |
|---|---|---|---|---|---|---|
| source/kdtree.h:189-195 | `nearestPoint` returns the query | tree {[0]}, query [5]: returns [5], not a stored point | the closest stored point, as the documentation at lines 63-66 says | not executed | KdTree.KDTree.NearestPointAsWritten, BuildFindings.AsWrittenNearestPointMissesStoredPoint | KdTree.KDTree.NearestPoint |
| source/kdtree.h:226-250 | splits at the median even when the median is the axis minimum, which leaves the left half empty; the first recursive call (line 245) then gets the empty set and never returns, and the second (line 246) would recurse on the whole input | {[0,0],[0,1],[5,0]}: axis 0 (spread 5), median 0, every point goes right | a split that separates the points, so that the recursion ends | not executed | BuildFindings.AsWrittenDegenerateMedianEmptiesLeft | KdTree.SplitFor, BuildFindings.CorrectedSplitOfDegenerateSet |
| source/kdtree.h:213-250 | `build` has no case for the empty set and recurses on two empty halves | {}: copying or assigning a default-constructed tree calls `build` on it | an empty tree | not executed | BuildFindings.AsWrittenEmptyInputRecursesOnItself | KdTree.KDTree.BuildRoot |
