/** What the boundary refinement computes from the plane label grid and the
    merge labels, independently of the pixel distances.

    Each merge representative (a plane whose merge label is itself) owns the
    cells of all planes merged into it. Its cell mask is eroded with the cross
    kernel; a representative whose mask erodes away completely is dropped.
    The others become detected planes, numbered consecutively in the order of
    the representatives, and carry their dilated mask. */
module PlaneRefinement {
  import opened Morphology

  /** Codes from 50 on are reserved for cylinders in the label images. */
  const CylinderCodeOffset: nat := 50

  /** A detected plane: the index of its merged segment, its 0-based id, and
      its dilated cell mask. */
  datatype DetectedPlane = DetectedPlane(segment: nat, id: nat, mask: seq<bool>)

  /** The cell mask of the region of plane `i`: the cells labelled with any
      plane `j >= i` that has the same merge label as `i`. */
  function RegionMask(grid: seq<int>, labels: seq<nat>, i: nat): (m: seq<bool>)
    requires i < |labels|
    ensures |m| == |grid|
    ensures forall k :: 0 <= k < |grid| ==>
      (m[k] <==> exists j :: i <= j < |labels| && labels[j] == labels[i] && grid[k] == j + 1)
  {
    seq(|grid|, k requires 0 <= k < |grid| =>
      i + 1 <= grid[k] <= |labels| && labels[grid[k] - 1] == labels[i])
  }

  /** Building the region mask plane by plane: for every plane `j` from `i` on
      with the same merge label, set the cells labelled `j + 1`. */
  method BuildRegionMask(grid: seq<int>, labels: seq<nat>, i: nat) returns (mask: seq<bool>)
    requires i < |labels|
    ensures mask == RegionMask(grid, labels, i)
  {
    mask := seq(|grid|, k => false);
    for j := i to |labels|
      invariant |mask| == |grid|
      invariant forall k :: 0 <= k < |grid| ==>
        (mask[k] <==> exists j' :: i <= j' < j && labels[j'] == labels[i] && grid[k] == j' + 1)
    {
      if labels[j] == labels[i] {
        mask := seq(|grid|, k requires 0 <= k < |grid| => mask[k] || grid[k] == j + 1);
      }
    }
  }

  /** The regions of two different representatives share no cell. */
  lemma RegionMasksDisjoint(grid: seq<int>, labels: seq<nat>, i: nat, i': nat, k: nat)
    requires i < |labels| && i' < |labels| && i != i'
    requires labels[i] == i && labels[i'] == i'
    requires k < |grid|
    ensures !(RegionMask(grid, labels, i)[k] && RegionMask(grid, labels, i')[k])
  {
  }

  /** The eroded region of plane `i`: its cells whose cross neighbourhood lies
      inside the region. */
  function ErodedRegion(grid: seq<int>, labels: seq<nat>, cols: nat, i: nat): (e: seq<bool>)
    requires i < |labels| && cols > 0
    ensures |e| == |grid|
  {
    Erode(RegionMask(grid, labels, i), cols)
  }

  /** The eroded regions of two different representatives share no cell. */
  lemma ErodedRegionsDisjoint(grid: seq<int>, labels: seq<nat>, cols: nat, i: nat, i': nat, k: nat)
    requires i < |labels| && i' < |labels| && i != i' && cols > 0
    requires labels[i] == i && labels[i'] == i'
    requires k < |grid|
    ensures !(ErodedRegion(grid, labels, cols, i)[k] && ErodedRegion(grid, labels, cols, i')[k])
  {
    RegionMasksDisjoint(grid, labels, i, i', k);
  }

  /** Representative `i` yields a detected plane. */
  predicate Survives(grid: seq<int>, labels: seq<nat>, cols: nat, i: nat)
    requires i < |labels| && cols > 0
  {
    labels[i] == i && !IsEmpty(Erode(RegionMask(grid, labels, i), cols))
  }

  /** The detected planes among the first `n` planes, in order. */
  function ExpectedPlanes(grid: seq<int>, labels: seq<nat>, cols: nat, n: nat): (ps: seq<DetectedPlane>)
    requires n <= |labels| && cols > 0
    ensures |ps| <= n
  {
    if n == 0 then []
    else
      var prev := ExpectedPlanes(grid, labels, cols, n - 1);
      if Survives(grid, labels, cols, n - 1) then
        prev + [DetectedPlane(n - 1, |prev|, Dilate(RegionMask(grid, labels, n - 1), cols))]
      else prev
  }

  /** Entry `k` of the detected planes: id `k`, a surviving representative
      below `n`, carrying the dilation of its region. */
  predicate PlaneEntry(grid: seq<int>, labels: seq<nat>, cols: nat, n: nat, p: DetectedPlane, k: nat)
    requires n <= |labels| && cols > 0
  {
    p.id == k && p.segment < n && Survives(grid, labels, cols, p.segment)
    && p.mask == Dilate(RegionMask(grid, labels, p.segment), cols)
  }

  /** Entries are numbered by position and their segments increase. */
  predicate WellNumbered(grid: seq<int>, labels: seq<nat>, cols: nat, n: nat, ps: seq<DetectedPlane>)
    requires n <= |labels| && cols > 0
  {
    forall k :: 0 <= k < |ps| ==>
      PlaneEntry(grid, labels, cols, n, ps[k], k) && (k > 0 ==> ps[k - 1].segment < ps[k].segment)
  }

  /** The detected planes are numbered 0, 1, 2, ... in order; each comes from a
      surviving representative, representatives appear in increasing order,
      and each carries the dilation of its region. */
  lemma {:induction false} ExpectedPlanesShape(grid: seq<int>, labels: seq<nat>, cols: nat, n: nat)
    requires n <= |labels| && cols > 0
    ensures WellNumbered(grid, labels, cols, n, ExpectedPlanes(grid, labels, cols, n))
  {
    if n > 0 {
      var prev := ExpectedPlanes(grid, labels, cols, n - 1);
      var ps := ExpectedPlanes(grid, labels, cols, n);
      ExpectedPlanesShape(grid, labels, cols, n - 1);
      assert WellNumbered(grid, labels, cols, n - 1, prev);
      forall k | 0 <= k < |ps|
        ensures PlaneEntry(grid, labels, cols, n, ps[k], k) && (k > 0 ==> ps[k - 1].segment < ps[k].segment)
      {
        if k < |prev| {
          assert ps[k] == prev[k];
          assert PlaneEntry(grid, labels, cols, n - 1, prev[k], k);
          if k > 0 {
            assert ps[k - 1] == prev[k - 1];
          }
        } else {
          assert ps[k] == DetectedPlane(n - 1, |prev|, Dilate(RegionMask(grid, labels, n - 1), cols));
          if k > 0 {
            assert ps[k - 1] == prev[k - 1];
            assert PlaneEntry(grid, labels, cols, n - 1, prev[k - 1], k - 1);
          }
        }
      }
    }
  }

  /** Every surviving representative among the first `n` planes is detected. */
  lemma {:induction false} ExpectedPlanesComplete(grid: seq<int>, labels: seq<nat>, cols: nat, n: nat, i: nat)
    requires n <= |labels| && cols > 0
    requires i < n && Survives(grid, labels, cols, i)
    ensures exists k :: (0 <= k < |ExpectedPlanes(grid, labels, cols, n)|
                         && ExpectedPlanes(grid, labels, cols, n)[k].segment == i)
  {
    var prev := ExpectedPlanes(grid, labels, cols, n - 1);
    if i == n - 1 {
      assert ExpectedPlanes(grid, labels, cols, n)[|prev|].segment == i;
    } else {
      ExpectedPlanesComplete(grid, labels, cols, n - 1, i);
      var k :| 0 <= k < |prev| && prev[k].segment == i;
      assert ExpectedPlanes(grid, labels, cols, n)[k] == prev[k];
    }
  }

  /** Scanning further planes only appends detected planes. */
  lemma {:induction false} ExpectedPlanesPrefix(grid: seq<int>, labels: seq<nat>, cols: nat, n: nat, m: nat)
    requires n <= m <= |labels| && cols > 0
    ensures ExpectedPlanes(grid, labels, cols, n) <= ExpectedPlanes(grid, labels, cols, m)
    decreases m
  {
    if n < m {
      ExpectedPlanesPrefix(grid, labels, cols, n, m - 1);
    }
  }

  /** When the first `i` planes already yield `cap` detected planes and plane
      `i` survives too, the detected planes among the first `n > i` number more
      than `cap`, and the first `cap` of them are those of the first `i`. */
  lemma ExpectedPlanesBeyond(grid: seq<int>, labels: seq<nat>, cols: nat, i: nat, n: nat, cap: nat)
    requires i < n <= |labels| && cols > 0
    requires |ExpectedPlanes(grid, labels, cols, i)| == cap && Survives(grid, labels, cols, i)
    ensures |ExpectedPlanes(grid, labels, cols, n)| > cap
    ensures ExpectedPlanes(grid, labels, cols, n)[..cap] == ExpectedPlanes(grid, labels, cols, i)
  {
    ExpectedPlanesPrefix(grid, labels, cols, i + 1, n);
    assert ExpectedPlanes(grid, labels, cols, i + 1)[..cap] == ExpectedPlanes(grid, labels, cols, i);
  }
  /** Every cell of the eroded region of detected plane `q` holds code `q + 1`
      in `codes`, the eroded plane grid. */
  ghost predicate ErodedCodes(codes: seq<int>, grid: seq<int>, labels: seq<nat>, cols: nat,
                              planes: seq<DetectedPlane>)
    requires cols > 0 && |codes| == |grid|
  {
    forall q, k :: (0 <= q < |planes| && 0 <= k < |codes| && planes[q].segment < |labels|
                    && ErodedRegion(grid, labels, cols, planes[q].segment)[k])
      ==> codes[k] == q + 1
  }

  /** Stamping the code `|planes|` of the newest detected plane, found from
      representative `i`, on its eroded region keeps the codes of the earlier
      planes, since eroded regions of representatives are disjoint. */
  lemma ErodedCodesExtend(codes: seq<int>, stamped: seq<int>, grid: seq<int>, labels: seq<nat>, cols: nat,
                          i: nat, planes: seq<DetectedPlane>)
    requires cols > 0 && |codes| == |grid| == |stamped| && i < |labels| && labels[i] == i
    requires |planes| > 0 && planes[..|planes| - 1] == ExpectedPlanes(grid, labels, cols, i)
    requires planes[|planes| - 1].segment == i
    requires ErodedCodes(codes, grid, labels, cols, planes[..|planes| - 1])
    requires forall k :: 0 <= k < |codes| ==>
      stamped[k] == if ErodedRegion(grid, labels, cols, i)[k] then |planes| else codes[k]
    ensures ErodedCodes(stamped, grid, labels, cols, planes)
  {
    var prev := planes[..|planes| - 1];
    ExpectedPlanesShape(grid, labels, cols, i);
    forall q, k | (0 <= q < |planes| && 0 <= k < |stamped| && planes[q].segment < |labels|
                   && ErodedRegion(grid, labels, cols, planes[q].segment)[k])
      ensures stamped[k] == q + 1
    {
      if q < |prev| {
        assert planes[q] == prev[q] && PlaneEntry(grid, labels, cols, i, prev[q], q);
        ErodedRegionsDisjoint(grid, labels, cols, planes[q].segment, i, k);
      }
    }
  }

  /** Cell `k` lies in the eroded region of one of `planes`. */
  ghost predicate InErodedRegionOf(grid: seq<int>, labels: seq<nat>, cols: nat, planes: seq<DetectedPlane>, k: nat)
    requires cols > 0
  {
    exists q :: 0 <= q < |planes| && planes[q].segment < |labels| && k < |grid|
                && ErodedRegion(grid, labels, cols, planes[q].segment)[k]
  }

  /** Appending a plane adds exactly its eroded region. */
  lemma InErodedRegionOfAppend(grid: seq<int>, labels: seq<nat>, cols: nat, planes: seq<DetectedPlane>,
                               p: DetectedPlane, k: nat)
    requires cols > 0
    ensures InErodedRegionOf(grid, labels, cols, planes + [p], k) <==>
      InErodedRegionOf(grid, labels, cols, planes, k)
      || (p.segment < |labels| && k < |grid| && ErodedRegion(grid, labels, cols, p.segment)[k])
  {
    var ps := planes + [p];
    if InErodedRegionOf(grid, labels, cols, ps, k) {
      var q :| 0 <= q < |ps| && ps[q].segment < |labels| && k < |grid|
               && ErodedRegion(grid, labels, cols, ps[q].segment)[k];
      if q < |planes| {
        assert planes[q] == ps[q];
      }
    }
    if InErodedRegionOf(grid, labels, cols, planes, k) {
      var q :| 0 <= q < |planes| && planes[q].segment < |labels| && k < |grid|
               && ErodedRegion(grid, labels, cols, planes[q].segment)[k];
      assert ps[q] == planes[q];
    }
    assert ps[|planes|] == p;
  }
}
