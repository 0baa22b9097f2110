# RVX liver segmentation: ROI extent fitting and test doubles, in Dafny

This project models the two pieces of the RVX liver-segmentation plugin's
logic that do not depend on the host imaging platform. It proves properties
of both.

1. **ROI extent fitting** (`RoiExtent.dfy`). `calculateRoiExtent(points,
   minExtent, growthFactor)` fits an axis-aligned region-of-interest box
   around 3-D node positions. It works on each axis on its own. The centre is
   the midpoint of the lowest and highest coordinate. The radius is the
   half-spread times the growth factor, or half the minimum extent if that is
   larger. The model proves that the floor always holds and that the box
   contains every node once the growth factor is at least one. With no floor
   and no growth, both faces touch a node. The centre ignores both
   parameters. The growth factor scales the tight radius and never the floor.
   The radius is linear in the growth factor when there is no floor, and it
   is monotone in both parameters. Node order and repeated nodes do not
   matter. Each of the five logic tests is a lemma.
2. **Test utilities** (`TestUtils.dfy`, with Python's `<` on strings and
   lists in `Lexicographic.dfy`):
   - `FakeLogic` is a class whose `returnedVessel` property and
     `setReturnedVessel` write the same field.
   - `FakeMarkupNode` is a class holding an insertion-ordered label → position
     dictionary. It has count and n-th lookups by insertion index, and a
     method that copies a position into a caller's `array<real>` with a loop.
     A ghost history of every label added ties the key order to "labels in
     order of first insertion".
   - `treeSort` is a pure function: an insertion sort keyed by `removeNone`.
     It is proved sorted, a permutation of its input, and stable. Any output
     that is sorted and stable equals it.

`Wrappers.dfy` holds the `Option` and `Result` datatypes.

## Model

| member | source | states |
|---|---|---|
| RoiExtent.LowestIsMinimum | RVXLiverSegmentation/RVXLiverSegmentationTest/ModuleLogicTestCase.py:109-114 | the per-axis lower bound is at most every node's coordinate and equals some node's coordinate |
| RoiExtent.HighestIsMaximum | RVXLiverSegmentation/RVXLiverSegmentationTest/ModuleLogicTestCase.py:109-114 | the per-axis upper bound is at least every node's coordinate and equals some node's coordinate |
| RoiExtent.BoxKeepsFloorAndContainsPoints | RVXLiverSegmentation/RVXLiverSegmentationTest/ModuleLogicTestCase.py:124-134 | every radius is at least minExtent/2; with growthFactor ≥ 1 every node lies within centre ± radius on every axis |
| RoiExtent.FitExtent | RVXLiverSegmentation/RVXLiverSegmentationTest/ModuleLogicTestCase.py:109-141 | the fitted box, per axis centre (min + max)/2 and radius max((max − min)/2 · growthFactor, minExtent/2), a formula that agrees with all five exact-value tests; every radius is at least minExtent/2 |
| RoiExtent.CalculateRoiExtent | RVXLiverSegmentation/RVXLiverSegmentationTest/ModuleLogicTestCase.py:109-141 | on a non-empty list with minExtent ≥ 0 and growthFactor > 0 (all the tests use) the result is the fitted extent; an empty list, minExtent < 0 or growthFactor ≤ 0 is InvalidArgument, an error path no test in ModuleLogicTestCase.py exercises |
| RoiExtent.TightBoxReachesExtremes | RVXLiverSegmentation/RVXLiverSegmentationTest/ModuleLogicTestCase.py:109-114 | with minExtent 0 and growthFactor 1 the box contains every node and both faces of every axis touch a node |
| RoiExtent.CenterIndependentOfParameters | RVXLiverSegmentation/RVXLiverSegmentationTest/ModuleLogicTestCase.py:124-134 | the centre is the same for any minExtent and growthFactor |
| RoiExtent.RadiusIsGrownTightRadiusOrFloor | RVXLiverSegmentation/RVXLiverSegmentationTest/ModuleLogicTestCase.py:130-134 | each radius is the larger of growthFactor × the tight (0, 1) radius and minExtent/2: the growth factor never scales the floor |
| RoiExtent.RadiusLinearInGrowth | RVXLiverSegmentation/RVXLiverSegmentationTest/ModuleLogicTestCase.py:116-122 | with minExtent 0, multiplying the growth factor by k ≥ 0 multiplies every radius by k |
| RoiExtent.RadiusMonotone | RVXLiverSegmentation/RVXLiverSegmentationTest/ModuleLogicTestCase.py:124-134 | a larger minExtent or growthFactor never gives a smaller radius |
| RoiExtent.RadiusNonNegative | RVXLiverSegmentation/RVXLiverSegmentationTest/ModuleLogicTestCase.py:136-141 | with non-negative parameters no radius is negative, and an axis on which all nodes agree gets exactly minExtent/2 |
| RoiExtent.OrderIndependent | RVXLiverSegmentation/RVXLiverSegmentationTest/ModuleLogicTestCase.py:109-114 | two node lists with the same positions, whatever their order or repetitions, give the same extent |
| RoiExtent.ExtremeNodePositionsCase | RVXLiverSegmentation/RVXLiverSegmentationTest/ModuleLogicTestCase.py:109-114 | the duplicated-node list gives centre (19.5, 0, 0) and radius (20.5, 0, 0) |
| RoiExtent.GrowthFactorDoublesRadiusCase | RVXLiverSegmentation/RVXLiverSegmentationTest/ModuleLogicTestCase.py:116-122 | on the node list of line 117 (three nodes (1, 0, 0), then (40, 0, 0) and (-1, 0, 0)), growth factor 2 gives twice the radius of growth factor 1, component by component |
| RoiExtent.MinExtentAdjustsRadiusCase | RVXLiverSegmentation/RVXLiverSegmentationTest/ModuleLogicTestCase.py:124-128 | minExtent 10 gives centre (19.5, 0.5, 0) and radius (20.5, 5, 5) |
| RoiExtent.MinExtentWithGrowthFactorCase | RVXLiverSegmentation/RVXLiverSegmentationTest/ModuleLogicTestCase.py:130-134 | minExtent 10 and growth 2 give centre (19.5, 0.5, 0) and radius (41, 5, 5) |
| RoiExtent.NegativeNodePositionsCase | RVXLiverSegmentation/RVXLiverSegmentationTest/ModuleLogicTestCase.py:136-141 | negative nodes give centre (-45.5, -23, -41) and radius (0.5, 1, 13) |
| Lexicographic.StrLess | RVXLiverSegmentation/RVXLiverSegmentationTest/TestUtils.py:80 | Python's `<` on strings as `sorted` uses it: a proper prefix is smaller, and no string is below itself |
| Lexicographic.StrListLess | RVXLiverSegmentation/RVXLiverSegmentationTest/TestUtils.py:80 | Python's `<` on the lists of strings `removeNone` produces: a proper prefix is smaller, and no list is below itself |
| Lexicographic.StrLessIsStrictTotalOrder | RVXLiverSegmentation/RVXLiverSegmentationTest/TestUtils.py:80 | string `<` as `sorted` uses it is irreflexive, transitive and total on distinct strings |
| Lexicographic.StrListLessIsStrictTotalOrder | RVXLiverSegmentation/RVXLiverSegmentationTest/TestUtils.py:80 | `<` on lists of strings, the sort key's order, is a strict total order |
| TestUtils.FakeLogic.constructor | RVXLiverSegmentation/RVXLiverSegmentationTest/TestUtils.py:31-34 | a new fake logic returns the vessel it was built with |
| TestUtils.FakeLogic.SetReturnedVessel | RVXLiverSegmentation/RVXLiverSegmentationTest/TestUtils.py:36-41 | afterwards the property getter returns the given vessel |
| TestUtils.FakeLogic.AssignReturnedVessel | RVXLiverSegmentation/RVXLiverSegmentationTest/TestUtils.py:39-45 | the property setter: afterwards the property returns the given vessel |
| TestUtils.LastSetVesselWins | RVXLiverSegmentation/RVXLiverSegmentationTest/TestUtils.py:31-45 | whichever of the two setters runs last decides the returned vessel |
| TestUtils.FirstOccurrences | RVXLiverSegmentation/RVXLiverSegmentationTest/TestUtils.py:86-90 | the key order of the ordered dictionary after a series of `add_node` calls: never longer than the history, and every key was assigned |
| TestUtils.FirstOccurrencesAreDistinctLabels | RVXLiverSegmentation/RVXLiverSegmentationTest/TestUtils.py:86-90 | the key order of an ordered dictionary after a series of assignments has no duplicates and holds exactly the labels assigned |
| TestUtils.PyIndex | RVXLiverSegmentation/RVXLiverSegmentationTest/TestUtils.py:99 | a Python list index in -n..n-1 names position i, or n+i when negative |
| TestUtils.FakeMarkupNode.constructor | RVXLiverSegmentation/RVXLiverSegmentationTest/TestUtils.py:86-87 | a new node has no labels and no positions |
| TestUtils.FakeMarkupNode.AddNode | RVXLiverSegmentation/RVXLiverSegmentationTest/TestUtils.py:89-90 | the label maps to the new position; a new label is appended to the key order, an existing one keeps its place and the order is unchanged |
| TestUtils.FakeMarkupNode.GetNumberOfControlPoints | RVXLiverSegmentation/RVXLiverSegmentationTest/TestUtils.py:92-93 | the count is the number of stored labels, which is the number of distinct labels ever added |
| TestUtils.FakeMarkupNode.GetNthControlPointLabel | RVXLiverSegmentation/RVXLiverSegmentationTest/TestUtils.py:95-96 | returns the i-th distinct label in order of first insertion, which is a stored label |
| TestUtils.FakeMarkupNode.GetNthControlPointPosition | RVXLiverSegmentation/RVXLiverSegmentationTest/TestUtils.py:98-101 | out[k] becomes component k of the i-th position for every k < out.Length; the node itself is unchanged |
| TestUtils.RemoveNone | RVXLiverSegmentation/RVXLiverSegmentationTest/TestUtils.py:77-78 | same length; each None becomes "" and each string is kept |
| TestUtils.Insert | RVXLiverSegmentation/RVXLiverSegmentationTest/TestUtils.py:80 | inserting a row adds exactly that row to the multiset of rows |
| TestUtils.TreeSortIsSorted | RVXLiverSegmentation/RVXLiverSegmentationTest/TestUtils.py:76-80 | no row of treeSort's result has a key below that of an earlier row |
| TestUtils.TreeSort | RVXLiverSegmentation/RVXLiverSegmentationTest/TestUtils.py:76-80 | `treeSort`: its result is a permutation of its input; sortedness and stability are the lemmas below |
| TestUtils.TreeSortIsStable | RVXLiverSegmentation/RVXLiverSegmentationTest/TestUtils.py:76-80 | for every key, the rows with that key appear in the result in their input order |
| TestUtils.SortedAndStableIsTreeSort | RVXLiverSegmentation/RVXLiverSegmentationTest/TestUtils.py:76-80 | any sorted and stable arrangement of the input equals treeSort's result, so the model agrees with any stable sort |
| TestUtils.NoneTiesWithEmptyStringCase | RVXLiverSegmentation/RVXLiverSegmentationTest/TestUtils.py:77-80 | rows [None] and [""] tie and keep their input order, whichever comes first |
| TestUtils.NoneSortsFirstCase | RVXLiverSegmentation/RVXLiverSegmentationTest/TestUtils.py:77-80 | rows ["b"], [None], ["a"] sort to [None], ["a"], ["b"] |

## Left out

- The body of `calculateRoiExtent` belongs to the logic module, which is not part of this model. `FitExtent` is a formula that agrees with the five exact-value tests (ModuleLogicTestCase.py:109-141).
- RoiExtent.FitExtent: the model grows the half-spread first and applies the minExtent/2 floor after. No test covers an axis whose half-spread is below minExtent/2 while its grown half-spread is above it. A rule that compares the floor with the half-spread before growth agrees with every test but differs there: half-spread 3, minExtent 10 and growth 2 give 6 in the model and 5 under that rule.
- RoiExtent.CalculateRoiExtent: its error cases are assumed, not observed. No test in ModuleLogicTestCase.py calls `calculateRoiExtent` with an empty list, a negative minExtent or a growthFactor ≤ 0; the model assumes InvalidArgument for those inputs.
- Floating point: coordinates are exact reals, and the tests' approximate comparisons (`assert_array_almost_equal`) are modelled as equality. All the test values are exact.
- The end-to-end vessel-extraction tests, the None-input filter checks and the geometry-export test are left out. They run image filters, sample-data downloads and file export that belong to the host platform.
- `TemporaryDir`, `createEmptyVolume`, `createNonEmptyVolume` and `createNonEmptyModel` are left out. They are filesystem I/O and scene-node construction in the host platform.
- `VesselSegmentEditWidget.py` is left out: it is GUI glue over the host's segment editor. `RVesselXLib/__init__.py` only re-exports names.
- TestUtils.FakeLogic.constructor: it does not model the `_input` field, which is set to None and never read, or the base-class constructor, whose body is not part of this model.
- TestUtils.FakeLogic.constructor: Python's `returnedVessel` parameter defaults to None. The constructor here has no default, so `FakeLogic()` corresponds to `new FakeLogic<Option<T>>(None)`.
- TestUtils.FakeMarkupNode.GetNthControlPointLabel: it gives the intended i-th key. Under Python 3, `keys()[i]` raises TypeError because a keys view cannot be indexed; that error is not modelled.
- TestUtils.FakeMarkupNode.GetNthControlPointLabel: it requires the index to be in range. In Python an index outside -n..n-1 raises IndexError; that error path is not modelled.
- TestUtils.FakeMarkupNode.GetNthControlPointPosition: it requires the index to be in range and `out` to be no longer than the position. In Python a bad index raises IndexError, and a longer `out` is written in part before IndexError is raised; neither error path is modelled.
- TestUtils.FakeMarkupNode.AddNode: it stores the position as a value. Python stores a reference to the caller's list, so later changes to that list show through; that aliasing is not modelled.
- TestUtils.RemoveNone: cells are None or strings. Rows that mix strings with other types, which Python may refuse to compare, are not modelled.
- TestUtils.TreeSortIsSorted: Python's `sorted` uses Timsort; the model uses insertion sort. `SortedAndStableIsTreeSort` shows that both give the same result, because a sorted, stable result is unique.
