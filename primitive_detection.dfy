/** The plane detector: the state it keeps between frames and the stages of
    one detection pass (reset, histogram initialisation, region growing,
    merging, boundary refinement and the label image).

    The detector owns cell-sized buffers (activation map, unassigned mask,
    plane label grid, eroded label grids) and pixel-sized buffers (the best
    distance of each depth point to a plane and the plane it belongs to),
    all stored flat, row by row. The floating-point geometry the stages
    consult is received as function parameters:
    - `compatible(from, to)`: cell `to` passes the angle and distance test
      against the plane of cell `from`;
    - `pick(cells)`: the seed candidates the normal histogram offers, drawn
      from the given unassigned cells;
    - `ok(row, planeId, c)`: the merge test (see `PlaneMerging`);
    - `pixelDistance(plane, p)`: squared distance of depth point `p` to plane;
    - `planeError(plane)`: mean squared error of the plane fit. */
module PrimitiveDetection {
  import opened Counting
  import opened CellGrid
  import opened Morphology
  import opened RegionGrowing
  import opened ConnectedComponents
  import opened PlaneMerging
  import opened SeedSelection
  import opened PlaneRefinement

  /** The largest finite `float`, the starting distance of every depth point. */
  const MaxFloat: real := 340282346638528859811704183484516925440.0

  type Compatibility = (nat, nat) -> bool
  type SeedPicker = set<nat> -> seq<nat>
  type PixelDistance = (nat, nat) -> real
  type PlaneError = nat -> real

  /** The value the label image shows for one pixel: the eroded plane code of
      its cell, else the eroded cylinder code, else the plane the pixel was
      assigned to, else what it showed before. */
  function DisplayedValue(planeEroded: int, cylinderEroded: int, stacked: int, current: int): int
  {
    if planeEroded > 0 then planeEroded
    else if cylinderEroded > 0 then cylinderEroded
    else if stacked > 0 then stacked
    else current
  }

  /** What a depth point holding `held` (distance, code) holds after a plane
      at squared distance `dist` is offered it: when `offered`, below
      `maxDist` and strictly closer than before, the plane's distance and code
      `planeId`; otherwise what it held. */
  function Claim(offered: bool, dist: real, maxDist: real, planeId: int, held: (real, int)): (real, int)
  {
    if offered && dist < maxDist && dist < held.0 then (dist, planeId) else held
  }

  /** The candidates offered are drawn from the cells given. */
  ghost predicate PicksFrom(pick: SeedPicker)
  {
    forall s: set<nat>, i :: 0 <= i < |pick(s)| ==> pick(s)[i] in s
  }

  /** A cell is compatible with its own plane. */
  ghost predicate SelfCompatible(compatible: Compatibility)
  {
    forall c: nat :: compatible(c, c)
  }

  /** Every planar cell has a fit error below the seed scan's starting value. */
  predicate PlanarErrorsBelow(grid: seq<CellFit>)
  {
    forall i :: 0 <= i < |grid| && grid[i].planar ==> grid[i].mse < MaxSeedMse
  }

  /** Which cells are planar. */
  function PlanarCells(grid: seq<CellFit>): (m: seq<bool>)
    ensures |m| == |grid| && forall i :: 0 <= i < |grid| ==> m[i] == grid[i].planar
  {
    seq(|grid|, i requires 0 <= i < |grid| => grid[i].planar)
  }

  class PrimitiveDetector {
    const width: nat
    const height: nat
    const cellSize: nat
    const pointsPerCell: nat
    const hcount: nat
    const vcount: nat
    const totalCells: nat
    /** Number of pixels of a depth image. */
    const pixelCount: nat

    /** Cells reached by the current region growing. */
    const activationMap: array<bool>
    /** Planar cells not yet part of a plane. */
    const unassignedMask: array<bool>
    /** Per depth point: squared distance to the plane it is assigned to. */
    const distancesStacked: array<real>
    /** Per depth point: code of the plane it is assigned to, 0 for none. */
    const segMapStacked: array<int>
    /** Per cell: 1-based index of the grown plane owning it, 0 for none. */
    const gridPlaneSegmentMap: array<int>
    /** Per cell: code of the detected plane whose eroded region holds it. */
    const gridPlaneSegMapEroded: array<int>
    const gridCylinderSegMap: array<int>
    const gridCylinderSegMapEroded: array<int>

    /** Per cell: outcome of its local plane fit. */
    var planeGrid: seq<CellFit>
    /** Number of planes grown in this pass. */
    var planeCount: nat
    /** The cells the normal histogram still holds. */
    var histogram: set<nat>

    /** The buffers have their sizes: one entry per cell, or per depth point. */
    ghost predicate Valid()
      reads this
    {
      cellSize > 0 && hcount >= 1 && vcount >= 1
      && activationMap.Length == totalCells && unassignedMask.Length == totalCells
      && gridPlaneSegmentMap.Length == totalCells && gridPlaneSegMapEroded.Length == totalCells
      && gridCylinderSegMap.Length == totalCells && gridCylinderSegMapEroded.Length == totalCells
      && distancesStacked.Length == pixelCount && segMapStacked.Length == pixelCount
      && |planeGrid| == totalCells
      && activationMap != unassignedMask
      && segMapStacked != gridPlaneSegmentMap && segMapStacked != gridPlaneSegMapEroded
      && segMapStacked != gridCylinderSegMap && segMapStacked != gridCylinderSegMapEroded
      && gridPlaneSegmentMap != gridPlaneSegMapEroded && gridPlaneSegmentMap != gridCylinderSegMap
      && gridPlaneSegmentMap != gridCylinderSegMapEroded
      && gridPlaneSegMapEroded != gridCylinderSegMap && gridPlaneSegMapEroded != gridCylinderSegMapEroded
      && gridCylinderSegMap != gridCylinderSegMapEroded
    }

    /** The grid's geometry: a cell holds `cellSize` squared depth points, the
        grid `hcount * vcount` cells, the cells fit in the image, and so do all
        cells' depth points. It reads only constants, so it holds for good once
        the detector is built. */
    ghost predicate Sized()
    {
      pointsPerCell == cellSize * cellSize && totalCells == hcount * vcount
      && hcount * cellSize <= width && vcount * cellSize <= height
      && pixelCount == width * height && totalCells * pointsPerCell <= pixelCount
    }

    /** A detector for `width` x `height` depth images cut into square cells of
        `blocSize` pixels: every buffer cleared, every depth point at the
        largest distance, no cell planar yet. */
    constructor(width: nat, height: nat, blocSize: nat)
      requires blocSize > 0
      requires HorizontalCells(width, blocSize) >= 1 && VerticalCells(height, blocSize) >= 1
      ensures Valid() && Layout()
      ensures this.width == width && this.height == height && cellSize == blocSize
      ensures hcount == HorizontalCells(width, blocSize) && vcount == VerticalCells(height, blocSize)
      ensures planeCount == 0 && histogram == {}
      ensures forall i :: 0 <= i < totalCells ==>
        (!activationMap[i] && !unassignedMask[i] && !planeGrid[i].planar
         && gridPlaneSegmentMap[i] == 0 && gridPlaneSegMapEroded[i] == 0
         && gridCylinderSegMap[i] == 0 && gridCylinderSegMapEroded[i] == 0)
      ensures forall p :: 0 <= p < pixelCount ==> distancesStacked[p] == MaxFloat && segMapStacked[p] == 0
    {
      var h := HorizontalCells(width, blocSize);
      var v := VerticalCells(height, blocSize);
      this.width := width;
      this.height := height;
      cellSize := blocSize;
      pointsPerCell := blocSize * blocSize;
      hcount := h;
      vcount := v;
      totalCells := h * v;
      pixelCount := width * height;
      activationMap := new bool[h * v](_ => false);
      unassignedMask := new bool[h * v](_ => false);
      distancesStacked := new real[width * height](_ => MaxFloat);
      segMapStacked := new int[width * height](_ => 0);
      gridPlaneSegmentMap := new int[h * v](_ => 0);
      gridPlaneSegMapEroded := new int[h * v](_ => 0);
      gridCylinderSegMap := new int[h * v](_ => 0);
      gridCylinderSegMapEroded := new int[h * v](_ => 0);
      planeGrid := seq(h * v, _ => CellFit(false, 0.0));
      planeCount := 0;
      histogram := {};
      CellsFitPixels(width, height, blocSize);
    }

    /** Clears the per-pass state: the histogram, the planes, every label grid,
        the unassigned mask, and every depth point's distance and plane. The
        cell fits and the activation map are kept. */
    method ResetData()
      requires Valid()
      modifies this`planeCount, this`histogram, unassignedMask, distancesStacked, segMapStacked
      modifies gridPlaneSegmentMap, gridPlaneSegMapEroded, gridCylinderSegMap, gridCylinderSegMapEroded
      ensures Valid() && planeCount == 0 && histogram == {}
      ensures forall i :: 0 <= i < totalCells ==>
        (!unassignedMask[i] && gridPlaneSegmentMap[i] == 0 && gridPlaneSegMapEroded[i] == 0
         && gridCylinderSegMap[i] == 0 && gridCylinderSegMapEroded[i] == 0)
      ensures forall p :: 0 <= p < pixelCount ==> distancesStacked[p] == MaxFloat && segMapStacked[p] == 0
    {
      histogram := {};
      planeCount := 0;
      forall i | 0 <= i < gridPlaneSegmentMap.Length { gridPlaneSegmentMap[i] := 0; }
      forall i | 0 <= i < gridPlaneSegMapEroded.Length { gridPlaneSegMapEroded[i] := 0; }
      forall i | 0 <= i < gridCylinderSegMap.Length { gridCylinderSegMap[i] := 0; }
      forall i | 0 <= i < gridCylinderSegMapEroded.Length { gridCylinderSegMapEroded[i] := 0; }
      forall i | 0 <= i < unassignedMask.Length { unassignedMask[i] := false; }
      forall p | 0 <= p < distancesStacked.Length { distancesStacked[p] := MaxFloat; }
      forall p | 0 <= p < segMapStacked.Length { segMapStacked[p] := 0; }
    }

    /** Marks every planar cell unassigned, fills the histogram with the
        unassigned cells, and returns the number of planar cells. */
    method InitHistogram() returns (remaining: nat)
      requires Valid()
      modifies this`histogram, unassignedMask
      ensures Valid()
      ensures remaining == CountTrue(PlanarCells(planeGrid))
      ensures forall i :: 0 <= i < totalCells ==> unassignedMask[i] == (old(unassignedMask[i]) || planeGrid[i].planar)
      ensures histogram == TrueIndices(unassignedMask[..])
    {
      remaining := 0;
      ghost var planar := PlanarCells(planeGrid);
      for cellId := 0 to totalCells
        invariant remaining == CountTrue(planar[..cellId])
        invariant forall i :: 0 <= i < totalCells ==>
          unassignedMask[i] == (old(unassignedMask[i]) || (i < cellId && planeGrid[i].planar))
      {
        CountTruePrefix(planar, cellId);
        if planeGrid[cellId].planar {
          remaining := remaining + 1;
          unassignedMask[cellId] := true;
        }
      }
      assert planar[..totalCells] == planar;
      histogram := TrueIndices(unassignedMask[..]);
    }

    /** What the fill needs of the detector: both cell masks, one cell each. */
    ghost predicate FillReady()
      reads this
    {
      activationMap.Length == totalCells && unassignedMask.Length == totalCells
      && activationMap != unassignedMask
    }

    /** The fill bounds the region growing works with. */
    function Bounds(): FillBounds
      reads this
    {
      FillBounds(hcount, totalCells, width, height)
    }

    /** The recursive 4-neighbour flood fill from cell `(x, y)`, reached from
        the plane of cell `from`: activates exactly the cells `Grow` does. */
    method RegionGrowing(x: nat, y: nat, from: nat, compatible: Compatibility)
      requires FillReady()
      modifies activationMap
      ensures activationMap[..] == Grow(Bounds(), unassignedMask[..], compatible, old(activationMap[..]), x, y, from)
      decreases activationMap.Length - CountTrue(activationMap[..]), 0
    {
      ghost var b, u, act := Bounds(), unassignedMask[..], activationMap[..];
      var index := CellIndex(hcount, x, y);
      if index >= totalCells {
        return;
      }
      if !unassignedMask[index] || activationMap[index] {
        return;
      }
      if !compatible(from, index) {
        return;
      }
      activationMap[index] := true;
      ghost var a0 := activationMap[..];
      assert a0 == act[index := true];
      CountTrueUpdate(act, index, true);
      VisitNeighbour(x > 0, x - 1, y, index, compatible);
      ghost var a1 := activationMap[..];
      CountTrueMonotone(a0, a1);
      VisitNeighbour(x < width - 1, x + 1, y, index, compatible);
      ghost var a2 := activationMap[..];
      CountTrueMonotone(a1, a2);
      VisitNeighbour(y > 0, x, y - 1, index, compatible);
      ghost var a3 := activationMap[..];
      CountTrueMonotone(a2, a3);
      GrowActivates(b, u, compatible, act, x, y, from, a0, a1, a2, a3);
      VisitNeighbour(y < height - 1, x, y + 1, index, compatible);
    }

    /** One guarded recursive call of the fill: grow from `(x, y)` when the
        neighbour lies inside the pixel bounds (`go`). */
    method VisitNeighbour(go: bool, x: int, y: int, from: nat, compatible: Compatibility)
      requires FillReady() && (go ==> x >= 0 && y >= 0)
      modifies activationMap
      ensures activationMap[..] == Visit(Bounds(), unassignedMask[..], compatible, old(activationMap[..]), go, x, y, from)
      decreases activationMap.Length - CountTrue(activationMap[..]), 1
    {
      if go {
        RegionGrowing(x, y, from, compatible);
      }
    }

    /** Takes the activated cells out of the histogram and the unassigned
        mask, counting them. */
    method ConsumeActivated(remaining: nat) returns (count: nat, left: nat)
      requires Valid()
      requires remaining == CountTrue(unassignedMask[..])
      requires forall i :: 0 <= i < totalCells && activationMap[i] ==> unassignedMask[i]
      requires histogram == TrueIndices(unassignedMask[..])
      modifies this`histogram, unassignedMask
      ensures Valid()
      ensures count == CountTrue(activationMap[..])
      ensures left == CountTrue(unassignedMask[..]) && left + count == remaining
      ensures forall i :: 0 <= i < totalCells ==> unassignedMask[i] == (old(unassignedMask[i]) && !activationMap[i])
      ensures histogram == TrueIndices(unassignedMask[..])
    {
      count, left := 0, remaining;
      ghost var act := activationMap[..];
      for i := 0 to totalCells
        invariant count == CountTrue(act[..i])
        invariant left == CountTrue(unassignedMask[..]) && left + count == remaining
        invariant forall j :: 0 <= j < totalCells ==>
          unassignedMask[j] == (old(unassignedMask[j]) && !(j < i && act[j]))
        invariant histogram == TrueIndices(unassignedMask[..])
      {
        CountTruePrefix(act, i);
        if activationMap[i] {
          count := count + 1;
          histogram := histogram - {i};
          ghost var u := unassignedMask[..];
          unassignedMask[i] := false;
          assert unassignedMask[..] == u[i := false];
          CountTrueUpdate(u, i, false);
          left := left - 1;
        }
      }
      assert act[..totalCells] == act;
    }

    /** Labels every activated cell with `lbl`, row by row. */
    method MarkPlaneCells(lbl: int)
      requires Valid() && Sized()
      modifies gridPlaneSegmentMap
      ensures forall i :: 0 <= i < totalCells ==>
        gridPlaneSegmentMap[i] == if activationMap[i] then lbl else old(gridPlaneSegmentMap[i])
    {
      var i := 0;
      for r := 0 to vcount
        invariant i == hcount * r
        invariant forall j :: 0 <= j < totalCells ==>
          gridPlaneSegmentMap[j] == if j < i && activationMap[j] then lbl else old(gridPlaneSegmentMap[j])
      {
        for c := 0 to hcount
          invariant i == hcount * r + c
          invariant forall j :: 0 <= j < totalCells ==>
            gridPlaneSegmentMap[j] == if j < i && activationMap[j] then lbl else old(gridPlaneSegmentMap[j])
        {
          CellInGrid(hcount, vcount, c, r);
          if activationMap[i] {
            gridPlaneSegmentMap[i] := lbl;
          }
          i := i + 1;
        }
        assert i == hcount * (r + 1);
      }
    }

    /** The plane label grid is consistent: labels are `0..planeCount`, an
        unassigned cell has no plane, and every plane owns at least
        `minCells` cells. */
    ghost predicate LabelsConsistent(minCells: nat)
      reads this, gridPlaneSegmentMap, unassignedMask
      requires Valid()
    {
      (forall i :: 0 <= i < totalCells ==> 0 <= gridPlaneSegmentMap[i] <= planeCount)
      && (forall i :: 0 <= i < totalCells && unassignedMask[i] ==> gridPlaneSegmentMap[i] == 0)
      && (forall p :: 1 <= p <= planeCount ==> CountLabel(gridPlaneSegmentMap[..], p) >= minCells)
    }

    /** Grows a region from seed cell `seedId`: the activation map is cleared
        and filled from the seed's coordinates with the seed's own plane. The
        seed itself is activated, and only unassigned cells are. */
    method GrowFromSeed(seedId: nat, compatible: Compatibility)
      requires Valid() && seedId < totalCells && unassignedMask[seedId] && SelfCompatible(compatible)
      modifies activationMap
      ensures activationMap[..] == Grow(Bounds(), unassignedMask[..], compatible, seq(totalCells, _ => false),
                                        CellColumn(hcount, seedId), CellRow(hcount, seedId), seedId)
      ensures activationMap[seedId]
      ensures forall i :: 0 <= i < totalCells && activationMap[i] ==> unassignedMask[i]
    {
      var y := seedId / hcount;
      var x := seedId % hcount;
      IndexFromCoordinates(hcount, seedId);
      forall i | 0 <= i < activationMap.Length {
        activationMap[i] := false;
      }
      ghost var cleared := activationMap[..];
      assert cleared == seq(totalCells, _ => false);
      RegionGrowing(x, y, seedId, compatible);
      assert Admits(Bounds(), unassignedMask[..], compatible, cleared, x, y, seedId);
    }

    /** Records the activated cells as a new plane: the plane count grows by
        one and every activated cell is labelled with it. */
    method AddPlane(minCells: nat)
      requires Valid() && Sized() && LabelsConsistent(minCells)
      requires CountTrue(activationMap[..]) >= minCells
      requires forall i :: 0 <= i < totalCells && activationMap[i] ==> gridPlaneSegmentMap[i] == 0
      requires forall i :: 0 <= i < totalCells && activationMap[i] ==> !unassignedMask[i]
      modifies this`planeCount, gridPlaneSegmentMap
      ensures Valid() && LabelsConsistent(minCells)
      ensures planeCount == old(planeCount) + 1
      ensures forall i :: 0 <= i < totalCells ==>
        gridPlaneSegmentMap[i] == if activationMap[i] then planeCount else old(gridPlaneSegmentMap[i])
    {
      ghost var grid := gridPlaneSegmentMap[..];
      planeCount := planeCount + 1;
      MarkPlaneCells(planeCount);
      forall p | 1 <= p <= planeCount
        ensures CountLabel(gridPlaneSegmentMap[..], p) >= minCells
      {
        CountLabelAfterStamp(grid, gridPlaneSegmentMap[..], activationMap[..], planeCount,
                             if p == planeCount then p + 1 else p);
      }
    }

    /** One round of the growing loop from seed `seedId`: grow a region, take
        its cells out of the unassigned mask and the histogram, and keep it as
        a new plane when it activates at least `minCellActivated` cells;
        otherwise only the seed's histogram entry is dropped. Returns the
        number of planar cells still unassigned, fewer than before. */
    method GrowFromCandidate(seedId: nat, remaining: nat, compatible: Compatibility, minCellActivated: nat)
      returns (left: nat)
      requires Valid() && Sized() && LabelsConsistent(minCellActivated)
      requires remaining == CountTrue(unassignedMask[..])
      requires histogram == TrueIndices(unassignedMask[..])
      requires seedId < totalCells && unassignedMask[seedId] && SelfCompatible(compatible)
      modifies this`planeCount, this`histogram, activationMap, unassignedMask, gridPlaneSegmentMap
      ensures Valid() && LabelsConsistent(minCellActivated)
      ensures left == CountTrue(unassignedMask[..]) && left < remaining
      ensures histogram == TrueIndices(unassignedMask[..])
      ensures activationMap[seedId]
      ensures forall i :: 0 <= i < totalCells ==> unassignedMask[i] == (old(unassignedMask[i]) && !activationMap[i])
      ensures CountTrue(activationMap[..]) < minCellActivated ==>
        planeCount == old(planeCount) && gridPlaneSegmentMap[..] == old(gridPlaneSegmentMap[..])
      ensures CountTrue(activationMap[..]) >= minCellActivated ==>
        planeCount == old(planeCount) + 1
        && forall i :: 0 <= i < totalCells ==>
             gridPlaneSegmentMap[i] == if activationMap[i] then planeCount else old(gridPlaneSegmentMap[i])
      ensures planeCount >= old(planeCount)
      ensures forall i :: 0 <= i < totalCells && unassignedMask[i] ==> old(unassignedMask[i])
      ensures forall i :: 0 <= i < totalCells && gridPlaneSegmentMap[i] != old(gridPlaneSegmentMap[i]) ==>
        old(unassignedMask[i]) && !unassignedMask[i] && gridPlaneSegmentMap[i] > old(planeCount)
    {
      GrowFromSeed(seedId, compatible);
      CountTrueUpdate(activationMap[..], seedId, false);
      var count;
      count, left := ConsumeActivated(remaining);
      if count < minCellActivated {
        assert seedId !in histogram;
        histogram := histogram - {seedId};
        assert histogram == TrueIndices(unassignedMask[..]);
      } else {
        AddPlane(minCellActivated);
      }
    }

    /** The growing loop (plane branch): while planar cells remain and the
        histogram offers at least `minSeedCount` candidates, grow a region from
        the candidate with the smallest fit error; keep it as a new plane when
        it activates at least `minCellActivated` cells. Activated cells leave
        the unassigned mask and the histogram either way. */
    method GrowPlanes(remaining: nat, compatible: Compatibility, pick: SeedPicker,
                      minSeedCount: nat, minCellActivated: nat)
      requires Valid() && Sized() && LabelsConsistent(minCellActivated)
      requires remaining == CountTrue(unassignedMask[..])
      requires histogram == TrueIndices(unassignedMask[..])
      requires forall i :: 0 <= i < totalCells && unassignedMask[i] ==> planeGrid[i].planar
      requires PlanarErrorsBelow(planeGrid) && SelfCompatible(compatible) && PicksFrom(pick)
      requires minSeedCount >= 1
      modifies this`planeCount, this`histogram, activationMap, unassignedMask, gridPlaneSegmentMap
      ensures Valid() && LabelsConsistent(minCellActivated)
      ensures histogram == TrueIndices(unassignedMask[..])
      ensures CountTrue(unassignedMask[..]) == 0 || |pick(histogram)| < minSeedCount
      ensures planeCount >= old(planeCount)
      ensures forall i :: 0 <= i < totalCells && unassignedMask[i] ==> old(unassignedMask[i])
      ensures forall i :: 0 <= i < totalCells && gridPlaneSegmentMap[i] != old(gridPlaneSegmentMap[i]) ==>
        old(unassignedMask[i]) && !unassignedMask[i] && gridPlaneSegmentMap[i] > old(planeCount)
    {
      var left := remaining;
      while left > 0
        invariant Valid() && LabelsConsistent(minCellActivated)
        invariant left == CountTrue(unassignedMask[..])
        invariant histogram == TrueIndices(unassignedMask[..])
        invariant planeCount >= old(planeCount)
        invariant forall i :: 0 <= i < totalCells && unassignedMask[i] ==> old(unassignedMask[i])
        invariant forall i :: 0 <= i < totalCells && gridPlaneSegmentMap[i] != old(gridPlaneSegmentMap[i]) ==>
          old(unassignedMask[i]) && !unassignedMask[i] && gridPlaneSegmentMap[i] > old(planeCount)
        decreases left
      {
        var candidates := pick(histogram);
        if |candidates| < minSeedCount {
          break;
        }
        var seedId := SelectSeed(planeGrid, candidates);
        assert !NoSeedBelow(planeGrid, candidates) by {
          assert candidates[0] in histogram;
        }
        left := GrowFromCandidate(seedId, left, compatible, minCellActivated);
      }
    }

    /** The merge stage: merge labels for the grown planes, from the
        association of the plane label grid and the merge test. */
    method MergeGrownPlanes(ok: MergeTest) returns (labels: seq<nat>)
      requires Valid() && Sized()
      requires forall i :: 0 <= i < totalCells ==> 0 <= gridPlaneSegmentMap[i] <= planeCount
      ensures |labels| == planeCount
      ensures MergeOutcome(ConnectedPairs(gridPlaneSegmentMap[..], vcount, hcount), ok, labels)
    {
      labels := MergePlanes(gridPlaneSegmentMap[..], vcount, hcount, planeCount, ok);
    }

    /** Offers depth point `pt` of the cells from `offset` on to a plane: the
        point takes the plane's code `planeId` when its squared distance is
        below `maxDist` and below its current distance. */
    method ClaimPixels(offset: nat, plane: nat, planeId: int, maxDist: real, pixelDistance: PixelDistance)
      requires Valid() && offset + pointsPerCell <= pixelCount
      modifies distancesStacked, segMapStacked
      ensures forall p :: 0 <= p < pixelCount ==>
        if offset <= p < offset + pointsPerCell
           && pixelDistance(plane, p) < maxDist && pixelDistance(plane, p) < old(distancesStacked[p])
        then distancesStacked[p] == pixelDistance(plane, p) && segMapStacked[p] == planeId
        else distancesStacked[p] == old(distancesStacked[p]) && segMapStacked[p] == old(segMapStacked[p])
    {
      for pt := offset to offset + pointsPerCell
        invariant forall p :: 0 <= p < pixelCount ==>
          if offset <= p < pt
             && pixelDistance(plane, p) < maxDist && pixelDistance(plane, p) < old(distancesStacked[p])
          then distancesStacked[p] == pixelDistance(plane, p) && segMapStacked[p] == planeId
          else distancesStacked[p] == old(distancesStacked[p]) && segMapStacked[p] == old(segMapStacked[p])
      {
        var dist := pixelDistance(plane, pt);
        if dist < maxDist && dist < distancesStacked[pt] {
          distancesStacked[pt] := dist;
          segMapStacked[pt] := planeId;
        }
      }
    }

    /** `Sized` with cells of at least one depth point and rows of at least
        one cell: what the stacked-point arithmetic needs. */
    ghost predicate Layout()
    {
      Sized() && cellSize > 0 && hcount >= 1 && pointsPerCell > 0
    }

    lemma LayoutOfValid()
      requires Valid() && Sized()
      ensures Layout()
    {
      assert cellSize * cellSize > 0;
    }

    /** The cell of the grid whose stacked depth points hold point `p`. */
    function PointCell(p: nat): (c: nat)
      requires Layout() && p < totalCells * pointsPerCell
      ensures c < totalCells
    {
      RowInGrid(pointsPerCell, totalCells, p);
      p / pointsPerCell
    }

    /** Depth point `p` is stacked in one of the first `n` cells, and that
        cell is set in `cells`. */
    predicate PointInCells(cells: seq<bool>, n: nat, p: nat)
      requires Layout() && |cells| == totalCells && n <= totalCells
    {
      p < n * pointsPerCell
      && (MultiplyMonotone(n, totalCells, pointsPerCell); cells[PointCell(p)])
    }

    /** Taking cell `n` in adds exactly its `pointsPerCell` stacked points. */
    lemma PointInCellsNext(cells: seq<bool>, n: nat, p: nat)
      requires Layout() && |cells| == totalCells && n < totalCells
      ensures PointInCells(cells, n + 1, p) ==
        (PointInCells(cells, n, p) || (n * pointsPerCell <= p < n * pointsPerCell + pointsPerCell && cells[n]))
    {
      assert (n + 1) * pointsPerCell == n * pointsPerCell + pointsPerCell;
      if n * pointsPerCell <= p < n * pointsPerCell + pointsPerCell {
        PixelSpan(pointsPerCell, n, p);
      }
    }

    /** The cell loop of the refinement: every depth point of a cell of
        `ring` is offered to the plane, and it takes the plane's distance and
        code `planeId` when it is below `maxDist` and strictly closer than
        before; no other point changes. */
    method RefineCells(ring: seq<bool>, plane: nat, planeId: int, maxDist: real, pixelDistance: PixelDistance)
      requires Valid() && Layout() && |ring| == totalCells
      modifies distancesStacked, segMapStacked
      ensures forall p :: 0 <= p < pixelCount ==>
        (distancesStacked[p], segMapStacked[p])
        == Claim(PointInCells(ring, totalCells, p), pixelDistance(plane, p), maxDist, planeId,
                 (old(distancesStacked[p]), old(segMapStacked[p])))
    {
      var stackedCellId := 0;
      for cellR := 0 to vcount
        invariant stackedCellId == hcount * cellR && stackedCellId <= totalCells
        invariant forall p :: 0 <= p < pixelCount ==>
          (distancesStacked[p], segMapStacked[p])
          == Claim(PointInCells(ring, stackedCellId, p), pixelDistance(plane, p), maxDist, planeId,
                   (old(distancesStacked[p]), old(segMapStacked[p])))
      {
        for cellC := 0 to hcount
          invariant stackedCellId == hcount * cellR + cellC && stackedCellId <= totalCells
          invariant forall p :: 0 <= p < pixelCount ==>
            (distancesStacked[p], segMapStacked[p])
            == Claim(PointInCells(ring, stackedCellId, p), pixelDistance(plane, p), maxDist, planeId,
                     (old(distancesStacked[p]), old(segMapStacked[p])))
        {
          CellInGrid(hcount, vcount, cellC, cellR);
          StackedIndexInRange(stackedCellId, pointsPerCell - 1, totalCells, pointsPerCell);
          var offset: nat := stackedCellId * pointsPerCell;
          if ring[stackedCellId] {
            ClaimPixels(offset, plane, planeId, maxDist, pixelDistance);
          }
          forall p | 0 <= p < pixelCount
            ensures (distancesStacked[p], segMapStacked[p])
              == Claim(PointInCells(ring, stackedCellId + 1, p), pixelDistance(plane, p), maxDist, planeId,
                       (old(distancesStacked[p]), old(segMapStacked[p])))
          {
            PointInCellsNext(ring, stackedCellId, p);
          }
          stackedCellId := stackedCellId + 1;
        }
        assert stackedCellId == hcount * (cellR + 1);
      }
    }

    /** Writes `planeId` into the eroded plane grid on the cells of `eroded`. */
    method StampEroded(eroded: seq<bool>, planeId: int)
      requires Valid() && |eroded| == totalCells
      modifies gridPlaneSegMapEroded
      ensures forall k :: 0 <= k < totalCells ==>
        gridPlaneSegMapEroded[k] == if eroded[k] then planeId else old(gridPlaneSegMapEroded[k])
    {
      forall k | 0 <= k < totalCells && eroded[k] {
        gridPlaneSegMapEroded[k] := planeId;
      }
    }

    /** Depth point `p` lies in the ring of detected plane `plane`: in a cell
        of its dilated region that its eroded region does not hold. */
    predicate InPlaneRing(grid: seq<int>, labels: seq<nat>, plane: DetectedPlane, p: nat)
      requires Layout()
    {
      |grid| == totalCells && |plane.mask| == totalCells && plane.segment < |labels|
      && PointInCells(Ring(plane.mask, ErodedRegion(grid, labels, hcount, plane.segment)), totalCells, p)
    }

    /** What depth point `p`, holding `initial` before the refinement, holds
        once each plane of `planes` in turn was offered its ring's points:
        plane `q` with code `q + 1` and nine times its fit error as the
        threshold. */
    function Refined(grid: seq<int>, labels: seq<nat>, pixelDistance: PixelDistance, planeError: PlaneError,
                     planes: seq<DetectedPlane>, p: nat, initial: (real, int)): (real, int)
      requires Layout()
      decreases |planes|
    {
      if planes == [] then initial
      else
        var last := planes[|planes| - 1];
        Claim(InPlaneRing(grid, labels, last, p), pixelDistance(last.segment, p), 9.0 * planeError(last.segment),
              |planes|, Refined(grid, labels, pixelDistance, planeError, planes[..|planes| - 1], p, initial))
    }

    /** The refinement never moves a point away: its distance never grows,
        and it either holds what it held or is strictly closer and holds the
        code of a detected plane. */
    lemma {:induction false} RefinedBounds(grid: seq<int>, labels: seq<nat>, pixelDistance: PixelDistance,
                                           planeError: PlaneError, planes: seq<DetectedPlane>, p: nat,
                                           initial: (real, int))
      requires Layout()
      ensures var r := Refined(grid, labels, pixelDistance, planeError, planes, p, initial);
        r.0 <= initial.0 && (r == initial || (r.0 < initial.0 && 1 <= r.1 <= |planes|))
      decreases |planes|
    {
      if planes != [] {
        RefinedBounds(grid, labels, pixelDistance, planeError, planes[..|planes| - 1], p, initial);
      }
    }

    /** A point ends no farther than any detected plane whose ring holds it
        within that plane's threshold: every such offer is taken unless the
        point is already closer. */
    lemma {:induction false} RefinedClosest(grid: seq<int>, labels: seq<nat>, pixelDistance: PixelDistance,
                                            planeError: PlaneError, planes: seq<DetectedPlane>, p: nat,
                                            initial: (real, int), q: nat)
      requires Layout() && q < |planes|
      requires InPlaneRing(grid, labels, planes[q], p)
      requires pixelDistance(planes[q].segment, p) < 9.0 * planeError(planes[q].segment)
      ensures Refined(grid, labels, pixelDistance, planeError, planes, p, initial).0
              <= pixelDistance(planes[q].segment, p)
      decreases |planes|
    {
      if q < |planes| - 1 {
        var front := planes[..|planes| - 1];
        assert front[q] == planes[q];
        RefinedClosest(grid, labels, pixelDistance, planeError, front, p, initial, q);
      }
    }

    /** The work on a newly detected plane, the last of `planes`, found from
        representative `i`: exactly its eroded cells take its code, which
        keeps the codes of the earlier planes' eroded cells since eroded
        regions are disjoint, and the depth points of its ring are offered
        to it. */
    method ApplyDetectedPlane(grid: seq<int>, labels: seq<nat>, i: nat, planes: seq<DetectedPlane>,
                              eroded: seq<bool>, ring: seq<bool>, maxDist: real, pixelDistance: PixelDistance)
      requires Valid() && Layout() && |grid| == totalCells && i < |labels| && labels[i] == i
      requires |planes| > 0 && planes[..|planes| - 1] == ExpectedPlanes(grid, labels, hcount, i)
      requires planes[|planes| - 1].segment == i && |planes[|planes| - 1].mask| == totalCells
      requires eroded == ErodedRegion(grid, labels, hcount, i)
      requires ring == Ring(planes[|planes| - 1].mask, eroded)
      requires ErodedCodes(gridPlaneSegMapEroded[..], grid, labels, hcount, planes[..|planes| - 1])
      modifies gridPlaneSegMapEroded, distancesStacked, segMapStacked
      ensures ErodedCodes(gridPlaneSegMapEroded[..], grid, labels, hcount, planes)
      ensures forall k :: 0 <= k < totalCells ==>
        gridPlaneSegMapEroded[k] == if eroded[k] then |planes| else old(gridPlaneSegMapEroded[k])
      ensures forall p :: 0 <= p < pixelCount ==>
        (distancesStacked[p], segMapStacked[p])
        == Claim(InPlaneRing(grid, labels, planes[|planes| - 1], p), pixelDistance(i, p), maxDist, |planes|,
                 (old(distancesStacked[p]), old(segMapStacked[p])))
    {
      ghost var before := gridPlaneSegMapEroded[..];
      StampEroded(eroded, |planes|);
      ErodedCodesExtend(before, gridPlaneSegMapEroded[..], grid, labels, hcount, i, planes);
      RefineCells(ring, i, |planes|, maxDist, pixelDistance);
    }

    /** Every depth point `p` holds what `Refined` says for `planes`,
        starting from `(d0[p], s0[p])`. */
    ghost predicate PointsRefined(grid: seq<int>, labels: seq<nat>, pixelDistance: PixelDistance,
                                  planeError: PlaneError, planes: seq<DetectedPlane>, d0: seq<real>, s0: seq<int>)
      reads this, distancesStacked, segMapStacked
      requires Valid() && Layout() && |d0| == pixelCount && |s0| == pixelCount
    {
      forall p :: 0 <= p < pixelCount ==>
        (distancesStacked[p], segMapStacked[p])
        == Refined(grid, labels, pixelDistance, planeError, planes, p, (d0[p], s0[p]))
    }

    /** Every cell in no eroded region of `planes` holds its code from `e0`. */
    ghost predicate ErodedElsewhereKept(grid: seq<int>, labels: seq<nat>, planes: seq<DetectedPlane>, e0: seq<int>)
      reads this, gridPlaneSegMapEroded
      requires Valid() && |e0| == totalCells
    {
      forall k :: 0 <= k < totalCells && !InErodedRegionOf(grid, labels, hcount, planes, k) ==>
        gridPlaneSegMapEroded[k] == e0[k]
    }

    /** One step of the boundary refinement: the plane found from
        representative `i` joins `planes` as the next detected plane, and the
        refinement state then describes `planes` with it appended. */
    method AddDetectedPlane(grid: seq<int>, labels: seq<nat>, i: nat, planes: seq<DetectedPlane>,
                            dilated: seq<bool>, eroded: seq<bool>, ring: seq<bool>,
                            pixelDistance: PixelDistance, planeError: PlaneError,
                            ghost d0: seq<real>, ghost s0: seq<int>, ghost e0: seq<int>)
      requires Valid() && Layout() && |grid| == totalCells && i < |labels| && labels[i] == i
      requires planes == ExpectedPlanes(grid, labels, hcount, i) && |dilated| == totalCells
      requires eroded == ErodedRegion(grid, labels, hcount, i) && ring == Ring(dilated, eroded)
      requires |d0| == pixelCount && |s0| == pixelCount && |e0| == totalCells
      requires ErodedCodes(gridPlaneSegMapEroded[..], grid, labels, hcount, planes)
      requires ErodedElsewhereKept(grid, labels, planes, e0)
      requires PointsRefined(grid, labels, pixelDistance, planeError, planes, d0, s0)
      modifies gridPlaneSegMapEroded, distancesStacked, segMapStacked
      ensures var next := planes + [DetectedPlane(i, |planes|, dilated)];
        ErodedCodes(gridPlaneSegMapEroded[..], grid, labels, hcount, next)
        && ErodedElsewhereKept(grid, labels, next, e0)
        && PointsRefined(grid, labels, pixelDistance, planeError, next, d0, s0)
    {
      var plane := DetectedPlane(i, |planes|, dilated);
      var next := planes + [plane];
      assert next[..|next| - 1] == planes;
      ApplyDetectedPlane(grid, labels, i, next, eroded, ring, 9.0 * planeError(i), pixelDistance);
      forall k | 0 <= k < totalCells && !InErodedRegionOf(grid, labels, hcount, next, k)
        ensures gridPlaneSegMapEroded[k] == e0[k]
      {
        InErodedRegionOfAppend(grid, labels, hcount, planes, plane, k);
      }
      forall p | 0 <= p < pixelCount
        ensures (distancesStacked[p], segMapStacked[p])
          == Refined(grid, labels, pixelDistance, planeError, next, p, (d0[p], s0[p]))
      {
        assert (old(distancesStacked[p]), old(segMapStacked[p]))
          == Refined(grid, labels, pixelDistance, planeError, planes, p, (d0[p], s0[p]));
      }
    }

    /** One merge representative `i` of the boundary refinement: when its
        region survives erosion it becomes the next detected plane, with code
        `|planes| + 1` (the plane id allocator counts the planes so far),
        unless that code would reach the cylinder codes; then nothing changes
        and `completed` is false. */
    method VisitRepresentative(grid: seq<int>, labels: seq<nat>, i: nat, planes: seq<DetectedPlane>,
                               pixelDistance: PixelDistance, planeError: PlaneError,
                               ghost d0: seq<real>, ghost s0: seq<int>, ghost e0: seq<int>)
      returns (next: seq<DetectedPlane>, completed: bool)
      requires Valid() && Layout() && |labels| == planeCount && |grid| == totalCells && i < planeCount
      requires planes == ExpectedPlanes(grid, labels, hcount, i) && |planes| < CylinderCodeOffset
      requires |d0| == pixelCount && |s0| == pixelCount && |e0| == totalCells
      requires ErodedCodes(gridPlaneSegMapEroded[..], grid, labels, hcount, planes)
      requires ErodedElsewhereKept(grid, labels, planes, e0)
      requires PointsRefined(grid, labels, pixelDistance, planeError, planes, d0, s0)
      modifies gridPlaneSegMapEroded, distancesStacked, segMapStacked
      ensures completed ==> next == ExpectedPlanes(grid, labels, hcount, i + 1) && |next| < CylinderCodeOffset
      ensures !completed ==> next == planes && |planes| == CylinderCodeOffset - 1 && Survives(grid, labels, hcount, i)
      ensures ErodedCodes(gridPlaneSegMapEroded[..], grid, labels, hcount, next)
      ensures ErodedElsewhereKept(grid, labels, next, e0)
      ensures PointsRefined(grid, labels, pixelDistance, planeError, next, d0, s0)
    {
      next, completed := planes, true;
      if i == labels[i] {
        var mask := BuildRegionMask(grid, labels, i);
        var eroded := Erode(mask, hcount);
        if !IsEmpty(eroded) {
          var dilated := Dilate(mask, hcount);
          var ring := Ring(dilated, eroded);
          if |planes| + 1 >= CylinderCodeOffset {
            completed := false;
            return;
          }
          AddDetectedPlane(grid, labels, i, planes, dilated, eroded, ring, pixelDistance, planeError, d0, s0, e0);
          next := planes + [DetectedPlane(i, |planes|, dilated)];
        }
      }
    }

    /** The loop of the boundary refinement over `grid`, the final label
        grid: the merge representatives are visited in order until a 50th
        plane would be numbered into the cylinder codes (`completed` false). */
    method RefineOverGrid(grid: seq<int>, labels: seq<nat>, pixelDistance: PixelDistance, planeError: PlaneError)
      returns (planes: seq<DetectedPlane>, completed: bool)
      requires Valid() && Layout() && |labels| == planeCount && |grid| == totalCells
      modifies distancesStacked, segMapStacked, gridPlaneSegMapEroded
      ensures var expected := ExpectedPlanes(grid, labels, hcount, planeCount);
        (completed ==> planes == expected && |planes| < CylinderCodeOffset)
        && (!completed ==> |planes| == CylinderCodeOffset - 1 && |expected| >= CylinderCodeOffset
                           && planes == expected[..CylinderCodeOffset - 1])
      ensures ErodedCodes(gridPlaneSegMapEroded[..], grid, labels, hcount, planes)
      ensures ErodedElsewhereKept(grid, labels, planes, old(gridPlaneSegMapEroded[..]))
      ensures PointsRefined(grid, labels, pixelDistance, planeError, planes,
                            old(distancesStacked[..]), old(segMapStacked[..]))
    {
      ghost var d0, s0, e0 := distancesStacked[..], segMapStacked[..], gridPlaneSegMapEroded[..];
      planes, completed := [], true;
      for i := 0 to planeCount
        invariant completed
        invariant planes == ExpectedPlanes(grid, labels, hcount, i) && |planes| < CylinderCodeOffset
        invariant ErodedCodes(gridPlaneSegMapEroded[..], grid, labels, hcount, planes)
        invariant ErodedElsewhereKept(grid, labels, planes, e0)
        invariant PointsRefined(grid, labels, pixelDistance, planeError, planes, d0, s0)
      {
        var next, going := VisitRepresentative(grid, labels, i, planes, pixelDistance, planeError, d0, s0, e0);
        if !going {
          completed := false;
          ExpectedPlanesBeyond(grid, labels, hcount, i, planeCount, |planes|);
          break;
        }
        planes := next;
      }
    }

    /** The boundary refinement: every merge representative whose region
        survives erosion becomes the next detected plane, with code `id + 1`.
        Its eroded cells take that code in the eroded plane grid, and the
        depth points of the cells in the ring between its dilated and eroded
        region are offered to it; every depth point ends as `Refined` says,
        never farther than before. The pass stops (`completed` false) when a
        50th plane would be numbered into the cylinder codes. */
    method RefinePlaneBoundaries(labels: seq<nat>, pixelDistance: PixelDistance, planeError: PlaneError)
      returns (planes: seq<DetectedPlane>, completed: bool)
      requires Valid() && Layout() && |labels| == planeCount
      modifies distancesStacked, segMapStacked, gridPlaneSegMapEroded
      ensures var expected := ExpectedPlanes(gridPlaneSegmentMap[..], labels, hcount, planeCount);
        (completed ==> planes == expected && |planes| < CylinderCodeOffset)
        && (!completed ==> |planes| == CylinderCodeOffset - 1 && |expected| >= CylinderCodeOffset
                           && planes == expected[..CylinderCodeOffset - 1])
      ensures ErodedCodes(gridPlaneSegMapEroded[..], gridPlaneSegmentMap[..], labels, hcount, planes)
      ensures forall k :: 0 <= k < totalCells && !InErodedRegionOf(gridPlaneSegmentMap[..], labels, hcount, planes, k) ==>
        gridPlaneSegMapEroded[k] == old(gridPlaneSegMapEroded[k])
      ensures forall p :: 0 <= p < pixelCount ==>
        (distancesStacked[p], segMapStacked[p])
        == Refined(gridPlaneSegmentMap[..], labels, pixelDistance, planeError, planes, p,
                   (old(distancesStacked[p]), old(segMapStacked[p])))
      ensures forall p :: 0 <= p < pixelCount ==> distancesStacked[p] <= old(distancesStacked[p])
      ensures forall p :: 0 <= p < pixelCount ==>
        segMapStacked[p] == old(segMapStacked[p])
        || (distancesStacked[p] < old(distancesStacked[p]) && 1 <= segMapStacked[p] <= |planes|)
    {
      var grid := gridPlaneSegmentMap[..];
      ghost var d0, s0, e0 := distancesStacked[..], segMapStacked[..], gridPlaneSegMapEroded[..];
      planes, completed := RefineOverGrid(grid, labels, pixelDistance, planeError);
      assert gridPlaneSegmentMap[..] == grid;
      forall k | 0 <= k < totalCells && !InErodedRegionOf(grid, labels, hcount, planes, k)
        ensures gridPlaneSegMapEroded[k] == old(gridPlaneSegMapEroded[k])
      {
        assert e0[k] == old(gridPlaneSegMapEroded[k]);
      }
      forall p | 0 <= p < pixelCount
        ensures (distancesStacked[p], segMapStacked[p])
          == Refined(grid, labels, pixelDistance, planeError, planes, p,
                     (old(distancesStacked[p]), old(segMapStacked[p])))
        ensures distancesStacked[p] <= old(distancesStacked[p])
        ensures segMapStacked[p] == old(segMapStacked[p])
          || (distancesStacked[p] < old(distancesStacked[p]) && 1 <= segMapStacked[p] <= |planes|)
      {
        assert (d0[p], s0[p]) == (old(distancesStacked[p]), old(segMapStacked[p]));
        RefinedBounds(grid, labels, pixelDistance, planeError, planes, p, (d0[p], s0[p]));
      }
    }

    /** The plane code of depth point `(dr, dc)` of cell `cell`: entry
        `dr * cellSize + dc` of the cell's stacked points. */
    function StackedCode(cell: nat, dr: nat, dc: nat): int
      reads this, segMapStacked
      requires Valid() && Sized() && cell < totalCells && dr < cellSize && dc < cellSize
    {
      var j: nat := dr * cellSize + dc;
      OffsetInCell(cellSize, dr, dc);
      StackedIndexInRange(cell, j, totalCells, pointsPerCell);
      segMapStacked[cell * pointsPerCell + j]
    }

    /** What the label image shows at pixel `(r, c)` when it showed `current`
        before: the pixel belongs to cell `(r / cellSize, c / cellSize)`, at
        offset `(r % cellSize, c % cellSize)` inside it. Pixels past the last
        full cell keep `current`. */
    function ExpectedPixel(r: nat, c: nat, current: int): int
      reads this, gridPlaneSegMapEroded, gridCylinderSegMapEroded, segMapStacked
      requires Valid() && Sized()
    {
      var cellR, cellC := r / cellSize, c / cellSize;
      if cellR < vcount && cellC < hcount then
        var cell := CellIndex(hcount, cellC, cellR);
        CellInGrid(hcount, vcount, cellC, cellR);
        DisplayedValue(gridPlaneSegMapEroded[cell], gridCylinderSegMapEroded[cell],
                       StackedCode(cell, r % cellSize, c % cellSize), current)
      else current
    }

    /** Sets the `cellSize` x `cellSize` rectangle from `(rOffset, cOffset)` to `code`. */
    method FillCell(segOut: array2<int>, rOffset: nat, cOffset: nat, code: int)
      requires Valid() && rOffset + cellSize <= segOut.Length0 && cOffset + cellSize <= segOut.Length1
      modifies segOut
      ensures forall r, c :: 0 <= r < segOut.Length0 && 0 <= c < segOut.Length1 ==>
        segOut[r, c] == if rOffset <= r < rOffset + cellSize && cOffset <= c < cOffset + cellSize
                        then code else old(segOut[r, c])
    {
      forall r, c | rOffset <= r < rOffset + cellSize && cOffset <= c < cOffset + cellSize {
        segOut[r, c] := code;
      }
    }

    /** Copies the stacked plane codes of cell `cell` into its rectangle from
        `(rOffset, cOffset)`, row by row, skipping unassigned points. */
    method CopyCellPixels(segOut: array2<int>, cell: nat, rOffset: nat, cOffset: nat)
      requires Valid() && Sized() && cell < totalCells
      requires rOffset + cellSize <= segOut.Length0 && cOffset + cellSize <= segOut.Length1
      modifies segOut
      ensures forall r, c :: 0 <= r < segOut.Length0 && 0 <= c < segOut.Length1 ==>
        segOut[r, c] == if rOffset <= r < rOffset + cellSize && cOffset <= c < cOffset + cellSize
                           && StackedCode(cell, r - rOffset, c - cOffset) > 0
                        then StackedCode(cell, r - rOffset, c - cOffset) else old(segOut[r, c])
    {
      var stack: nat := cell * pointsPerCell;
      var i := 0;
      for r := rOffset to rOffset + cellSize
        invariant i == (r - rOffset) * cellSize
        invariant forall r', c' :: 0 <= r' < segOut.Length0 && 0 <= c' < segOut.Length1 ==>
          segOut[r', c'] == if rOffset <= r' < r && cOffset <= c' < cOffset + cellSize
                               && StackedCode(cell, r' - rOffset, c' - cOffset) > 0
                            then StackedCode(cell, r' - rOffset, c' - cOffset) else old(segOut[r', c'])
      {
        for c := cOffset to cOffset + cellSize
          invariant i == (r - rOffset) * cellSize + (c - cOffset)
          invariant forall r', c' :: 0 <= r' < segOut.Length0 && 0 <= c' < segOut.Length1 ==>
            segOut[r', c'] == if ((rOffset <= r' < r && cOffset <= c' < cOffset + cellSize) || (r' == r && cOffset <= c' < c))
                                 && StackedCode(cell, r' - rOffset, c' - cOffset) > 0
                              then StackedCode(cell, r' - rOffset, c' - cOffset) else old(segOut[r', c'])
        {
          OffsetInCell(cellSize, r - rOffset, c - cOffset);
          StackedIndexInRange(cell, i, totalCells, pointsPerCell);
          var id := segMapStacked[stack + i];
          assert id == StackedCode(cell, r - rOffset, c - cOffset);
          if id > 0 {
            segOut[r, c] := id;
          }
          i := i + 1;
        }
        assert i == (r + 1 - rOffset) * cellSize;
      }
    }

    /** Paints the pixels of cell `(cellR, cellC)` into the label image: the
        whole cell with its eroded plane code, else with its eroded cylinder
        code, else pixel by pixel with the plane each depth point was assigned
        to, skipping unassigned points. */
    method PaintCell(segOut: array2<int>, cellR: nat, cellC: nat)
      requires Valid() && Sized() && segOut.Length0 == height && segOut.Length1 == width
      requires cellR < vcount && cellC < hcount
      modifies segOut
      ensures forall r, c :: 0 <= r < height && 0 <= c < width ==>
        segOut[r, c] == if r / cellSize == cellR && c / cellSize == cellC
                        then ExpectedPixel(r, c, old(segOut[r, c])) else old(segOut[r, c])
    {
      var cell := CellIndex(hcount, cellC, cellR);
      CellInGrid(hcount, vcount, cellC, cellR);
      var rOffset: nat := cellR * cellSize;
      var cOffset: nat := cellC * cellSize;
      assert rOffset + cellSize <= height by {
        MultiplyMonotone(cellR + 1, vcount, cellSize);
        assert (cellR + 1) * cellSize == rOffset + cellSize;
      }
      assert cOffset + cellSize <= width by {
        MultiplyMonotone(cellC + 1, hcount, cellSize);
        assert (cellC + 1) * cellSize == cOffset + cellSize;
      }
      if gridPlaneSegMapEroded[cell] > 0 {
        FillCell(segOut, rOffset, cOffset, gridPlaneSegMapEroded[cell]);
      } else if gridCylinderSegMapEroded[cell] > 0 {
        FillCell(segOut, rOffset, cOffset, gridCylinderSegMapEroded[cell]);
      } else {
        CopyCellPixels(segOut, cell, rOffset, cOffset);
      }
      forall r, c | 0 <= r < height && 0 <= c < width
        ensures segOut[r, c] == if r / cellSize == cellR && c / cellSize == cellC
                                then ExpectedPixel(r, c, old(segOut[r, c])) else old(segOut[r, c])
      {
        PixelSpan(cellSize, cellR, r);
        PixelSpan(cellSize, cellC, c);
      }
    }

    /** Paints the cells of cell row `cellR`, left to right. */
    method PaintCellRow(segOut: array2<int>, cellR: nat)
      requires Valid() && Sized() && segOut.Length0 == height && segOut.Length1 == width
      requires cellR < vcount
      modifies segOut
      ensures forall r, c :: 0 <= r < height && 0 <= c < width ==>
        segOut[r, c] == if r / cellSize == cellR && c / cellSize < hcount
                        then ExpectedPixel(r, c, old(segOut[r, c])) else old(segOut[r, c])
    {
      for cellC := 0 to hcount
        invariant forall r, c :: 0 <= r < height && 0 <= c < width && r / cellSize == cellR && c / cellSize < cellC ==>
          segOut[r, c] == ExpectedPixel(r, c, old(segOut[r, c]))
        invariant forall r, c :: 0 <= r < height && 0 <= c < width && !(r / cellSize == cellR && c / cellSize < cellC) ==>
          segOut[r, c] == old(segOut[r, c])
      {
        label before:
        PaintCell(segOut, cellR, cellC);
        forall r, c | 0 <= r < height && 0 <= c < width && r / cellSize == cellR && c / cellSize == cellC
          ensures segOut[r, c] == ExpectedPixel(r, c, old(segOut[r, c]))
        {
          assert old@before(segOut[r, c]) == old(segOut[r, c]);
        }
      }
    }

    /** Writes the label image cell by cell: afterwards every pixel shows
        `ExpectedPixel` of what it showed before. */
    method SetMaskedDisplay(segOut: array2<int>)
      requires Valid() && Sized() && segOut.Length0 == height && segOut.Length1 == width
      modifies segOut
      ensures forall r, c :: 0 <= r < height && 0 <= c < width ==>
        segOut[r, c] == ExpectedPixel(r, c, old(segOut[r, c]))
    {
      for cellR := 0 to vcount
        invariant forall r, c :: 0 <= r < height && 0 <= c < width ==>
          segOut[r, c] == if r / cellSize < cellR && c / cellSize < hcount
                          then ExpectedPixel(r, c, old(segOut[r, c])) else old(segOut[r, c])
      {
        PaintCellRow(segOut, cellR);
      }
    }

    /** One detection pass over a depth image whose cells fit as `fits`:
        reset, histogram, growing, merging, boundary refinement and, when the
        refinement completes, the label image. Returns the detected planes,
        whether the refinement completed, and the merge labels. Every grown
        plane owns at least `minCellActivated` planar cells, the growing
        stopped for want of cells or seed candidates, and the detected planes
        are those the refinement yields from the final label grid and the
        merge labels. */
    method FindPrimitives(fits: seq<CellFit>, segOut: array2<int>, compatible: Compatibility, pick: SeedPicker,
                          ok: MergeTest, pixelDistance: PixelDistance, planeError: PlaneError,
                          minSeedCount: nat, minCellActivated: nat)
      returns (planes: seq<DetectedPlane>, completed: bool, labels: seq<nat>)
      requires Valid() && Layout() && |fits| == totalCells
      requires segOut.Length0 == height && segOut.Length1 == width
      requires PlanarErrorsBelow(fits) && SelfCompatible(compatible) && PicksFrom(pick)
      requires minSeedCount >= 1
      modifies this, activationMap, unassignedMask, distancesStacked, segMapStacked, segOut
      modifies gridPlaneSegmentMap, gridPlaneSegMapEroded, gridCylinderSegMap, gridCylinderSegMapEroded
      ensures Valid() && planeGrid == fits && LabelsConsistent(minCellActivated)
      ensures forall i :: 0 <= i < totalCells && gridPlaneSegmentMap[i] > 0 ==> fits[i].planar
      ensures CountTrue(unassignedMask[..]) == 0 || |pick(histogram)| < minSeedCount
      ensures |labels| == planeCount
      ensures MergeOutcome(ConnectedPairs(gridPlaneSegmentMap[..], vcount, hcount), ok, labels)
      ensures var expected := ExpectedPlanes(gridPlaneSegmentMap[..], labels, hcount, planeCount);
        (completed ==> planes == expected && |planes| < CylinderCodeOffset)
        && (!completed ==> |planes| == CylinderCodeOffset - 1 && |expected| >= CylinderCodeOffset
                           && planes == expected[..CylinderCodeOffset - 1])
      ensures ErodedCodes(gridPlaneSegMapEroded[..], gridPlaneSegmentMap[..], labels, hcount, planes)
      ensures forall k :: 0 <= k < totalCells && !InErodedRegionOf(gridPlaneSegmentMap[..], labels, hcount, planes, k) ==>
        gridPlaneSegMapEroded[k] == 0
      ensures forall k :: 0 <= k < totalCells ==> gridCylinderSegMapEroded[k] == 0
      ensures forall p :: 0 <= p < pixelCount ==>
        (distancesStacked[p], segMapStacked[p])
        == Refined(gridPlaneSegmentMap[..], labels, pixelDistance, planeError, planes, p, (MaxFloat, 0))
      ensures completed ==> forall r, c :: 0 <= r < height && 0 <= c < width ==>
        segOut[r, c] == ExpectedPixel(r, c, old(segOut[r, c]))
    {
      ResetData();
      planeGrid := fits;
      var remaining := InitHistogram();
      assert unassignedMask[..] == PlanarCells(planeGrid);
      GrowPlanes(remaining, compatible, pick, minSeedCount, minCellActivated);
      labels := MergeGrownPlanes(ok);
      planes, completed := RefinePlaneBoundaries(labels, pixelDistance, planeError);
      if completed {
        SetMaskedDisplay(segOut);
      }
    }
  }
}
