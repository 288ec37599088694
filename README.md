# RGB-D SLAM plane detection and tracking state, in Dafny

This project models the discrete bookkeeping of the RGB-D SLAM system's
plane segmentation, and three small pieces of state around it.

The plane detector cuts each depth image into square cells and fits a plane
to every cell. The fit itself is out of scope. The detector then:

- marks the planar cells unassigned;
- grows planes from seed cells with a recursive 4-neighbour flood fill;
- stamps 1-based plane numbers into a cell label grid;
- associates planes that touch on that grid;
- merges associated planes that pass a geometric test;
- erodes and dilates each merged region;
- offers the depth points of the ring around each region to the plane;
- paints the label image.

The three other pieces are:

- the comparison of detected shape primitives: mask intersection over union, then a type-directed normal test;
- the match slot and id counter of map primitives;
- the tracker's state machine with its window of match counts and its triangulation policies.

Floating-point geometry is received as function parameters:

- cell compatibility in the fill;
- the histogram's seed candidates;
- the merge test;
- point-to-plane distances;
- plane fit errors.

The collaborators of the tracker (feature extraction, local map, motion
model, pose solver) become a `FrameResults` value of what they deliver.

Modules, one file each:

- `CellGrid`: the cell index ↔ (column, row) arithmetic and the stacked layout of a cell's depth points.
- `Counting`: counts over masks and label grids.
- `Morphology`: erosion with the cross kernel, dilation with the square kernel.
- `RegionGrowing`: the flood fill as a function `Grow`, including its step past the last column.
- `ConnectedComponents`: the adjacency scan over the label grid, which skips the last row and column as origins.
- `PlaneMerging`: the merge pass and what its labels mean.
- `SeedSelection`: the first-minimum seed scan.
- `PlaneRefinement`: which representatives become detected planes, and their eroded codes.
- `PrimitiveDetection`: the detector class. It holds its buffers as arrays and proves each stage against the functions above.
- `ShapePrimitives`, `MapPrimitive`, `RgbSlam`.

## Model

| member | source | states |
|---|---|---|
| CellGrid.IndexFromCoordinates | src/features/primitives/primitive_detection.cpp:341-342 | splitting a cell id into `x = id % hcount` and `y = id / hcount` gives a column inside the grid, and `x + hcount * y` is the id again |
| CellGrid.CoordinatesFromIndex | src/features/primitives/primitive_detection.cpp:735 | for a column inside the grid, the index `x + hcount * y` gives back that column and row |
| CellGrid.CellInGrid | src/features/primitives/primitive_detection.cpp:735-736 | a cell inside the grid's columns and rows has an index below the total cell count |
| CellGrid.CellsFitPixels | src/features/primitives/primitive_detection.cpp:22-34 | `(width / cell) * (height / cell)` cells of `cell * cell` points each fit in the `width * height` pixel buffers |
| Morphology.Erode | src/features/primitives/primitive_detection.cpp:519 | the cross erosion keeps a cell only if it and its neighbours inside the grid are set, so it never adds a cell |
| Morphology.Dilate | src/features/primitives/primitive_detection.cpp:526 | the square dilation sets a cell if it or one of its 8 neighbours inside the grid is set, so it never removes a cell |
| RegionGrowing.Grow | src/features/primitives/primitive_detection.cpp:731-769 | the fill only adds activations, and only on unassigned cells; it activates the start cell when that cell is inside the grid, unassigned, not active and compatible; otherwise nothing changes |
| RegionGrowing.Visit | src/features/primitives/primitive_detection.cpp:761-768 | a neighbour step outside the pixel bounds changes nothing |
| RegionGrowing.GrowReachesByCompatibleSteps | src/features/primitives/primitive_detection.cpp:751-768 | every cell the fill activates is the start cell, compatible with the plane it came from, or one step from another cell this fill activated and compatible with that cell's plane |
| RegionGrowing.ActivationReaches | src/features/primitives/primitive_detection.cpp:758-768 | after the start cell is set and its four neighbours are visited in order, every newly activated cell other than the start is one compatible step from another newly activated cell (no order between the two is stated) |
| RegionGrowing.GrowStaysInComponent | src/features/primitives/primitive_detection.cpp:751-768 | the fill stays in the compatible component of its start: every activated cell lies in each set that holds the admitted start and is closed under compatible steps, so a chain of compatible steps joins it to the start |
| RegionGrowing.ActivationStaysInComponent | src/features/primitives/primitive_detection.cpp:758-768 | once the start cell, a member of such a closed set, is set, its four neighbour visits activate only cells of the set |
| RegionGrowing.VisitStaysInComponent | src/features/primitives/primitive_detection.cpp:761-768 | a guarded neighbour visit from a cell of a closed set activates only cells of the set |
| RegionGrowing.FillWrapsPastLastColumn | src/features/primitives/primitive_detection.cpp:763-764 | the right step from the last column lands on the first cell of the next row, because its bound is the pixel width; that cell is activated when it is unassigned and compatible; with at least two columns it is none of the start's 4-neighbours in the grid, with one column it is the start's lower neighbour |
| RegionGrowing.WrapTargetIsNoNeighbour | src/features/primitives/primitive_detection.cpp:763-764 | cell `(hcount, y)` has the index of `(0, y + 1)`; with at least two columns that index is none of the grid 4-neighbours of `(hcount - 1, y)`, with one column it is the lower neighbour |
| ConnectedComponents.LinkedPair | src/features/primitives/primitive_detection.cpp:715-723 | two labels give the pair `(v - 1, w - 1)` in both orders exactly when both are positive and different |
| ConnectedComponents.OriginPairsMeaning | src/features/primitives/primitive_detection.cpp:712-724 | the pairs recorded at one origin are exactly the planes touching there, right or below, either way round |
| ConnectedComponents.RowPairsMeaning | src/features/primitives/primitive_detection.cpp:710-726 | a pair is recorded in the first `c` origins of a row exactly when the planes touch at one of them |
| ConnectedComponents.GridPairsMeaning | src/features/primitives/primitive_detection.cpp:706-727 | a pair is recorded in the first `r` rows exactly when the planes touch at an origin of one of them |
| ConnectedComponents.ConnectedPairsMeaning | src/features/primitives/primitive_detection.cpp:701-728 | the scan associates two planes exactly when they touch at an origin cell that is not in the last row or the last column |
| ConnectedComponents.ConnectedPairsSymmetric | src/features/primitives/primitive_detection.cpp:717-723 | the association is symmetric |
| ConnectedComponents.ConnectedPairsInRange | src/features/primitives/primitive_detection.cpp:713-723 | no plane is associated with itself, and associated planes are numbered below the plane count |
| ConnectedComponents.LastRowNeverScanned | src/features/primitives/primitive_detection.cpp:703-706 | two planes side by side only in the last row of a 2 x 2 grid are not associated |
| ConnectedComponents.GetConnectedComponents | src/features/primitives/primitive_detection.cpp:701-728 | the matrix ends up with its old entries plus exactly the associated pairs; nothing is cleared |
| ConnectedComponents.ScanRow | src/features/primitives/primitive_detection.cpp:710-726 | one scanned row adds exactly the pairs of its origins |
| ConnectedComponents.ScanOrigin | src/features/primitives/primitive_detection.cpp:712-724 | one origin adds exactly its pairs |
| PlaneMerging.MergePlanes | src/features/primitives/primitive_detection.cpp:454-500 | one label per plane: a plane keeps its own index unless an earlier associated row whose test plane passed the merge test absorbed it, and then it holds the label of the last such row |
| PlaneMerging.MergedFromEarlierRow | src/features/primitives/primitive_detection.cpp:484-488 | a plane that does not keep its own label took it from an earlier associated row whose test plane passed the merge test |
| PlaneMerging.MergeLabelAtMostIndex | src/features/primitives/primitive_detection.cpp:461-488 | `label[i] <= i` for every plane |
| PlaneMerging.MergeLabelIdempotent | src/features/primitives/primitive_detection.cpp:467-488 | the plane a label names keeps that label itself, so every label names a representative |
| PlaneMerging.MergeOutcomeUnique | src/features/primitives/primitive_detection.cpp:464-496 | the association and the merge test determine the labels: two label sequences of the same length that both satisfy the outcome are equal |
| SeedSelection.SelectSeed | src/features/primitives/primitive_detection.cpp:322-335 | the seed is the first candidate with the strictly smallest fit error below the float `INT_MAX`, and cell 0 when none is below |
| SeedSelection.FirstMinimumUnique | src/features/primitives/primitive_detection.cpp:325-335 | there is only one first minimum |
| SeedSelection.FirstMinimumIsMinimal | src/features/primitives/primitive_detection.cpp:325-335 | the seed's error is at most every candidate's error |
| SeedSelection.FirstMinimumExists | src/features/primitives/primitive_detection.cpp:323-335 | when a candidate is below the starting value, a first minimum exists |
| PlaneRefinement.RegionMask | src/features/primitives/primitive_detection.cpp:512-517 | a region's mask holds exactly the cells labelled with a plane `j >= i` that has the same merge label as `i` |
| PlaneRefinement.BuildRegionMask | src/features/primitives/primitive_detection.cpp:512-517 | the loop over `j` that sets the cells labelled `j + 1` builds exactly that mask |
| PlaneRefinement.RegionMasksDisjoint | src/features/primitives/primitive_detection.cpp:509-517 | the regions of two different representatives share no cell |
| PlaneRefinement.ErodedRegionsDisjoint | src/features/primitives/primitive_detection.cpp:519-544 | neither do their eroded regions |
| PlaneRefinement.ExpectedPlanesShape | src/features/primitives/primitive_detection.cpp:507-534 | detected planes have ids 0, 1, 2, ... in order; each comes from a representative whose eroded region is not empty, with increasing segments, and carries its dilated mask |
| PlaneRefinement.ExpectedPlanesComplete | src/features/primitives/primitive_detection.cpp:509-534 | every representative whose eroded region is not empty is detected |
| PlaneRefinement.ExpectedPlanesPrefix | src/features/primitives/primitive_detection.cpp:507-534 | scanning more planes only appends detected planes |
| PlaneRefinement.ExpectedPlanesBeyond | src/features/primitives/primitive_detection.cpp:529-531 | when the planes scanned so far already yield `cap` and the current one survives, the full result has more than `cap`, starting with those |
| PlaneRefinement.ErodedCodesExtend | src/features/primitives/primitive_detection.cpp:544 | stamping the newest plane's code on its eroded region keeps every earlier plane's code on its own eroded region |
| PrimitiveDetection.PrimitiveDetector.constructor | src/features/primitives/primitive_detection.cpp:18-40 | the grid has `width / bloc` x `height / bloc` cells; cell buffers have one entry per cell, cleared; point buffers have one entry per pixel, at the largest float distance and code 0 |
| PrimitiveDetection.PrimitiveDetector.ResetData | src/features/primitives/primitive_detection.cpp:237-261 | histogram and planes emptied; all four label grids 0; unassigned mask false; distances at the largest float; codes 0 |
| PrimitiveDetection.PrimitiveDetector.InitHistogram | src/features/primitives/primitive_detection.cpp:285-306 | every planar cell becomes unassigned and no other cell changes its flag; the histogram holds exactly the unassigned cells; the result is the number of planar cells |
| PrimitiveDetection.PrimitiveDetector.RegionGrowing | src/features/primitives/primitive_detection.cpp:731-769 | the recursive method leaves exactly the activation map `Grow` gives |
| PrimitiveDetection.PrimitiveDetector.VisitNeighbour | src/features/primitives/primitive_detection.cpp:761-768 | one guarded recursive call leaves exactly what `Visit` gives |
| PrimitiveDetection.PrimitiveDetector.GrowFromSeed | src/features/primitives/primitive_detection.cpp:341-347 | the cleared activation map is filled from the seed's coordinates; the seed is activated, and only unassigned cells are |
| PrimitiveDetection.PrimitiveDetector.ConsumeActivated | src/features/primitives/primitive_detection.cpp:353-365 | each activated cell leaves the unassigned mask and the histogram once; the count is the number of activated cells; the remaining count drops by that number |
| PrimitiveDetection.PrimitiveDetector.MarkPlaneCells | src/features/primitives/primitive_detection.cpp:381-395 | exactly the activated cells take the label; the others keep theirs |
| PrimitiveDetection.PrimitiveDetector.AddPlane | src/features/primitives/primitive_detection.cpp:379-395 | the plane count grows by one and exactly the activated cells take it; labels stay in `0..count`, no unassigned cell has a plane, and every plane keeps at least the minimum number of cells |
| PrimitiveDetection.PrimitiveDetector.GrowFromCandidate | src/features/primitives/primitive_detection.cpp:337-397 | one round: the seed is activated and the activated cells leave the unassigned mask; below the minimum count no plane is added and the grid is unchanged; otherwise the new plane labels exactly the activated cells; fewer planar cells remain |
| PrimitiveDetection.PrimitiveDetector.GrowPlanes | src/features/primitives/primitive_detection.cpp:308-397 | the loop ends with no unassigned planar cell or with too few seed candidates; labels stay consistent; only cells that were unassigned receive a new plane label |
| PrimitiveDetection.PrimitiveDetector.MergeGrownPlanes | src/features/primitives/primitive_detection.cpp:454-463 | the merge labels, one per grown plane, satisfy the merge outcome over the association of the label grid |
| PrimitiveDetection.PrimitiveDetector.ClaimPixels | src/features/primitives/primitive_detection.cpp:566-574 | a depth point takes the plane's distance and code exactly when its new distance is below `maxDist` and strictly below its stored one; other points are untouched |
| PrimitiveDetection.PrimitiveDetector.RefineCells | src/features/primitives/primitive_detection.cpp:547-577 | a depth point stacked in a cell of the ring takes this plane's distance and code exactly when that distance is below `maxDist` and strictly below its stored distance; every other point keeps its distance and code |
| PrimitiveDetection.PrimitiveDetector.StampEroded | src/features/primitives/primitive_detection.cpp:544 | exactly the eroded cells take the plane code |
| PrimitiveDetection.PrimitiveDetector.ApplyDetectedPlane | src/features/primitives/primitive_detection.cpp:536-577 | exactly the newest plane's eroded cells take its code, all other cells keep theirs, so earlier planes keep their eroded cells' codes; a depth point in its ring takes its distance and code exactly when that distance is below nine times the plane's fit error and strictly below the stored one, and no other point changes |
| PrimitiveDetection.PrimitiveDetector.AddDetectedPlane | src/features/primitives/primitive_detection.cpp:529-577 | appending the plane found from a surviving representative keeps the three refinement facts: eroded cells carry their plane's code, cells outside every eroded region are untouched, every depth point holds what `Refined` gives |
| PrimitiveDetection.PrimitiveDetector.VisitRepresentative | src/features/primitives/primitive_detection.cpp:509-577 | one representative: the planes found so far become the expected planes up to and including it, or, when it survives as the 50th plane, nothing changes and the pass ends |
| PrimitiveDetection.PrimitiveDetector.RefineOverGrid | src/features/primitives/primitive_detection.cpp:505-579 | the loop over the representatives yields the expected planes, or their first 49 when a 50th survives, with the three refinement facts for those planes |
| PrimitiveDetection.PrimitiveDetector.RefinePlaneBoundaries | src/features/primitives/primitive_detection.cpp:502-579 | when it completes, the detected planes are exactly the expected ones, fewer than 50; otherwise at least 50 were expected and it kept the first 49; the eroded cells of each detected plane carry its code and cells in no detected plane's eroded region keep theirs; every depth point ends as `Refined` gives for the detected planes in order; distances never increase; a point's code changes only to a detected plane's code, with a strictly smaller distance |
| PrimitiveDetection.PrimitiveDetector.RefinedBounds | src/features/primitives/primitive_detection.cpp:547-577 | after offering a point to the detected planes in order, its distance is no larger than before, and it either holds what it held or is strictly closer and holds a code between 1 and the number of planes |
| PrimitiveDetection.PrimitiveDetector.RefinedClosest | src/features/primitives/primitive_detection.cpp:547-577 | a point ends no farther than any detected plane whose ring holds it and whose distance is below that plane's threshold |
| PrimitiveDetection.PrimitiveDetector.PointInCellsNext | src/features/primitives/primitive_detection.cpp:551-554 | taking one more stacked cell in adds exactly its `pointsPerCell` consecutive depth points |
| PlaneRefinement.InErodedRegionOfAppend | src/features/primitives/primitive_detection.cpp:544 | a cell lies in an eroded region of the planes with one appended exactly when it lies in one of the earlier planes' or in the new plane's |
| PrimitiveDetection.PrimitiveDetector.FillCell | src/features/primitives/primitive_detection.cpp:673-678 | exactly the cell's rectangle takes the code |
| PrimitiveDetection.PrimitiveDetector.CopyCellPixels | src/features/primitives/primitive_detection.cpp:682-694 | each pixel of the cell's rectangle takes its depth point's code when that code is positive; every other pixel is untouched |
| PrimitiveDetection.PrimitiveDetector.PaintCell | src/features/primitives/primitive_detection.cpp:663-695 | the cell's pixels show the eroded plane code, else the eroded cylinder code, else their own positive point code; all other pixels keep their values |
| PrimitiveDetection.PrimitiveDetector.PaintCellRow | src/features/primitives/primitive_detection.cpp:666-696 | one cell row painted; pixels outside that row of cells are untouched |
| PrimitiveDetection.PrimitiveDetector.SetMaskedDisplay | src/features/primitives/primitive_detection.cpp:655-698 | every pixel shows what its cell and depth point give, by the same precedence; pixels past the last full cell keep their values |
| PrimitiveDetection.PrimitiveDetector.FindPrimitives | src/features/primitives/primitive_detection.cpp:187-235 | one pass: the fits are installed; grown planes are consistent and made of planar cells; growing stopped for want of unassigned cells or seed candidates; merge labels and detected planes are as above; the eroded plane grid holds each detected plane's code on its eroded region and 0 elsewhere, the eroded cylinder grid is all 0; every depth point holds what `Refined` gives from the maximal distance and code 0; when the refinement completed, the label image is painted |
| ShapePrimitives.Iou | src/features/primitives/shape_primitives.cpp:22-37 | 0 when the union of the masks is empty; otherwise intersection over union, in [0, 1], equal to 1 exactly when the two counts agree |
| ShapePrimitives.IouSymmetric | src/features/primitives/shape_primitives.cpp:28-36 | the IOU does not depend on the order of the masks |
| ShapePrimitives.IouOne | src/features/primitives/shape_primitives.cpp:28-36 | the IOU is 1 exactly for two equal masks with a set pixel |
| ShapePrimitives.NewPrimitive | src/features/primitives/shape_primitives.cpp:14-20 | the base constructor sets type `Invalid` |
| ShapePrimitives.NewPlane | src/features/primitives/shape_primitives.cpp:100-108 | the plane constructor sets type `Plane`, the segment's normal, offset and mean |
| ShapePrimitives.NewCylinder | src/features/primitives/shape_primitives.cpp:44-54 | the cylinder constructor sets type `Cylinder`, the segment's normal, and the mean of the sub-segment radii |
| ShapePrimitives.MeanBounds | src/features/primitives/shape_primitives.cpp:49-52 | that mean radius lies between any common bounds of the radii |
| ShapePrimitives.IsSimilar | src/features/primitives/shape_primitives.cpp:56-87 | an IOU below the minimum rules similarity out whatever the types; a plane is never similar to a cylinder, nor a cylinder to a plane; otherwise the class's normal test decides |
| ShapePrimitives.IsSimilarSymmetric | src/features/primitives/shape_primitives.cpp:56-142 | between well-typed planes and cylinders, similarity is symmetric |
| ShapePrimitives.IsSimilarReflexive | src/features/primitives/shape_primitives.cpp:56-142 | a plane or cylinder with a unit normal and a non-empty mask is similar to itself when the minimum IOU is at most 1 and the minimum normal agreement is below 1 |
| MapPrimitive.MatchedPrimitive.constructor | src/map_management/map_primitive.hpp:13-15 | a new match slot is unmatched |
| MapPrimitive.MatchedPrimitive.MarkUnmatched | src/map_management/map_primitive.hpp:22-25 | after clearing, the slot is unmatched, whatever it held, so clearing is idempotent |
| MapPrimitive.PrimitiveIdCounter.constructor | src/map_management/map_primitive.hpp:53 | ids start at 1, since 0 is invalid |
| MapPrimitive.MapPrimitive.constructor | src/map_management/map_primitive.hpp:32-35 | a new map primitive takes the counter's value, and the counter advances by one; the id is never 0 and differs from every id handed out before; its match slot is unmatched |
| RgbSlam.RgbSlam.constructor | src/RGB_Slam.cpp:6-20 | a new tracker is in the reset state, with the configured triangulation policy |
| RgbSlam.RgbSlam.Reset | src/RGB_Slam.cpp:22-31 | frame 0, not initialised, default pose, and a window of `N` copies of the largest `unsigned long` |
| RgbSlam.RgbSlam.Track | src/RGB_Slam.cpp:42-74 | the frame counter always advances; lost is absorbing and keeps the pose; the first frame returns the identity and records the map size; too few matches lose the tracking with the pose unchanged; otherwise the refined pose is kept and enters the window |
| RgbSlam.RgbSlam.PerformTracking | src/RGB_Slam.cpp:84-120 | too few matches leave the window alone; otherwise the count is pushed, the oldest drops out, the window keeps its length, and the policy decides the triangulation |
| RgbSlam.RgbSlam.NeedNewTriangulation | src/RGB_Slam.cpp:122-148 | the configured policy decides: decreasing matches, always, or a map of fewer than 1000 points |
| RgbSlam.RgbSlam.TriangulationPolicyDecreasingMatches | src/RGB_Slam.cpp:127-138 | true exactly when every count is at most 0.99 times the previous one |
| RgbSlam.FillerWindowNotDecreasing | src/RGB_Slam.cpp:28 | a window whose second count is still the filler never triangulates under the decreasing policy; this holds after a reset and after the first frame |
| RgbSlam.DecreasingWindowShrinks | src/RGB_Slam.cpp:130-137 | a window that triggers the decreasing policy has every later count at most 0.99 times the first one, so its newest count is strictly smaller when the first is positive |

## Left out

- Floating point: the model reasons over exact reals and integers. The float rounding of the normal tests, the mean radius, the decreasing-matches ratio and the `INT_MAX` seed start is not modelled. The seed start is taken as its float value, 2^31.
- The plane and cylinder fitting numerics are not modelled. This covers `init_planar_cell_fitting`, `_cellDistanceTols`, the histogram's bin angles, `fit_plane`, `expand_segment` and the distance blocks. The model receives their outcomes as parameters: the per-cell fits, `compatible`, `pick`, `ok`, `pixelDistance` and `planeError`.
- The normal histogram's internals are not modelled. It is the set of unassigned cells; `pick` draws candidates from it; removing a cell removes it from the set.
- The cylinder branch of the growing loop, `refine_cylinder_boundaries`, and the cylinder and staged map updates are not modelled. Cylinder detection counts as disabled; the cylinder label grids are only reset and read by the display.
- The merge pass does not clear association entries that fail the merge test. Each such entry `(r, c)` is never read again, so the labels are unaffected.
- The environment facts the detector relies on are requirements of `GrowPlanes` and `FindPrimitives`:
  - a cell is compatible with its own plane;
  - `pick` offers only cells of the histogram;
  - planar cells have a fit error below 2^31. Otherwise no candidate beats the start value of the seed search, and `seedId` keeps its initial 0 (primitive_detection.cpp:322). Cell 0 may already belong to a plane or not be planar. Growing from it then activates no unassigned cell, so nothing leaves the histogram and `remainingPlanarCells` stays the same. The source then picks the same bin again and never ends;
  - the minimum seed count is at least 1.

  With a minimum of 0 and an empty bin, the loop of the source never ends.
- `PrimitiveDetection.PrimitiveDetector.RefinePlaneBoundaries`: reaching a 50th detected plane is modelled as the end of the pass (`completed` false), since the source asserts it never happens. In a build without assertions, the source would go on numbering planes into the cylinder codes.
- `PrimitiveDetection.PrimitiveDetector.FindPrimitives`: paints the label image only when the refinement completed, for the reason just given.
- The detector requires a grid of at least one cell in each direction. The source's `rows - 1` would wrap around on an empty grid.
- Integer widths are not modelled: `unsigned short` fill coordinates, `uchar` codes in the eroded grids and the label image, `uint` and `size_t` counters. All are unbounded here; the id counter never wraps.
- Display-only code (`apply_masks`, `putText`, `rectangle`), the random colour of a map primitive, console output and performance timers are not modelled.
- Several loops of the source are split into helper methods to keep each proof small: `GrowFromCandidate`, `ApplyDetectedPlane`, `AddDetectedPlane`, `VisitRepresentative`, `RefineOverGrid`, `PaintCell`, `PaintCellRow`, `ScanRow` and `ScanOrigin`.
- The tracker's collaborators are not modelled: feature extraction, the local map, the motion model and the PnP solver. Their results are inputs; calls made only for their side effects on the map are not modelled.
- `N_MATCHES_WINDOWS` is a constructor parameter of at least 1. `RGB_Slam.hpp` is not part of this model.
- `ShapePrimitives.NewCylinder` requires at least one sub-segment. With none, the source divides by zero.
- `ShapePrimitives.IsSimilar` requires a receiver of the plane or cylinder class, because the base class has no similarity test.
- The `Pose` class and its default constructor are not part of this model. The default pose is taken as the identity.
