/** The recursive 4-neighbour flood fill that grows a plane from a seed cell,
    as a function from the activation map before the call to the activation
    map after it. The detector's recursive method is proved equal to it.

    The fill addresses cells by coordinates `(x, y)` and index
    `x + hcount * y`, but bounds its right and lower steps by the image's
    pixel width and height, not by the cell counts. A right step from the
    last column therefore lands on the first cell of the next row, and only
    `index >= total` stops a step past the grid. */
module RegionGrowing {
  import opened Counting
  import opened CellGrid

  /** What the fill knows about the grid: cells per row, number of cells,
      and the pixel width and height it uses as step bounds. */
  datatype FillBounds = FillBounds(hcount: nat, total: nat, width: nat, height: nat)

  /** The test a cell must pass to be activated when the fill reaches it at
      `(x, y)` coming from cell `from`: inside the grid, still unassigned,
      not yet activated, and geometrically compatible with `from`. */
  predicate Admits(b: FillBounds, unassigned: seq<bool>, compatible: (nat, nat) -> bool,
                   act: seq<bool>, x: nat, y: nat, from: nat)
    requires |act| == |unassigned| == b.total
  {
    var index := CellIndex(b.hcount, x, y);
    index < b.total && unassigned[index] && !act[index] && compatible(from, index)
  }

  /** Two cell indices one fill step apart: left, right, up or down in index
      space (a right step from the last column is `+1` as well). */
  predicate Step(hcount: nat, from: nat, to: nat)
  {
    to + 1 == from || to == from + 1 || to + hcount == from || to == from + hcount
  }

  /** Activation map after growing from `(x, y)` with the plane of cell `from`. */
  function Grow(b: FillBounds, unassigned: seq<bool>, compatible: (nat, nat) -> bool,
                act: seq<bool>, x: nat, y: nat, from: nat): (r: seq<bool>)
    requires |act| == |unassigned| == b.total
    // activation is monotone and only reaches unassigned cells
    ensures Below(act, r) && OnlyUnassigned(unassigned, act, r)
    // a cell that passes the test is activated; otherwise nothing changes
    ensures Admits(b, unassigned, compatible, act, x, y, from) ==> r[CellIndex(b.hcount, x, y)]
    ensures !Admits(b, unassigned, compatible, act, x, y, from) ==> r == act
    decreases |act| - CountTrue(act), 0
  {
    var index := CellIndex(b.hcount, x, y);
    if !Admits(b, unassigned, compatible, act, x, y, from) then act
    else
      var a0 := act[index := true];
      CountTrueUpdate(act, index, true);
      var a1 := Visit(b, unassigned, compatible, a0, x > 0, x - 1, y, index);
      CountTrueMonotone(a0, a1);
      var a2 := Visit(b, unassigned, compatible, a1, x < b.width - 1, x + 1, y, index);
      CountTrueMonotone(a1, a2);
      var a3 := Visit(b, unassigned, compatible, a2, y > 0, x, y - 1, index);
      CountTrueMonotone(a2, a3);
      var r := Visit(b, unassigned, compatible, a3, y < b.height - 1, x, y + 1, index);
      assert r[index] by { BelowTransitive(a0, a1, a2); BelowTransitive(a0, a2, a3); }
      r
  }

  /** One neighbour visit of the fill: grow from `(x, y)` when `go` holds (the
      neighbour's coordinate is inside the pixel bounds), else leave `act`. */
  function Visit(b: FillBounds, unassigned: seq<bool>, compatible: (nat, nat) -> bool,
                 act: seq<bool>, go: bool, x: int, y: int, from: nat): (r: seq<bool>)
    requires |act| == |unassigned| == b.total
    requires go ==> x >= 0 && y >= 0
    ensures Below(act, r) && OnlyUnassigned(unassigned, act, r)
    ensures !go ==> r == act
    decreases |act| - CountTrue(act), 1
  {
    if go then Grow(b, unassigned, compatible, act, x, y, from) else act
  }

  /** Every cell activated in `r` but not in `act` is unassigned. */
  ghost predicate OnlyUnassigned(unassigned: seq<bool>, act: seq<bool>, r: seq<bool>)
  {
    |r| == |act| == |unassigned| && forall i :: 0 <= i < |act| && r[i] && !act[i] ==> unassigned[i]
  }

  /** Cell `k` is activated in `r` and was not in `act`. */
  ghost predicate Fresh(r: seq<bool>, act: seq<bool>, k: int)
  {
    |r| == |act| && 0 <= k < |act| && r[k] && !act[k]
  }

  /** Cell `j` is one step away from a cell freshly activated in `r` and
      compatible with that cell's plane. */
  ghost predicate Reached(hcount: nat, compatible: (nat, nat) -> bool, r: seq<bool>, act: seq<bool>, j: nat)
  {
    exists k: nat :: Fresh(r, act, k) && Step(hcount, k, j) && compatible(k, j)
  }

  /** Every cell the fill activates is either the cell it started on, reached
      from `from`, or one step away from another cell this same fill activated
      and compatible with that cell's plane. */
  lemma {:induction false} GrowReachesByCompatibleSteps(
      b: FillBounds, unassigned: seq<bool>, compatible: (nat, nat) -> bool,
      act: seq<bool>, x: nat, y: nat, from: nat)
    requires |act| == |unassigned| == b.total
    ensures var r := Grow(b, unassigned, compatible, act, x, y, from);
      forall j: nat :: Fresh(r, act, j) ==>
        (j == CellIndex(b.hcount, x, y) && compatible(from, j)) || Reached(b.hcount, compatible, r, act, j)
    decreases |act| - CountTrue(act), 2
  {
    var r := Grow(b, unassigned, compatible, act, x, y, from);
    var index := CellIndex(b.hcount, x, y);
    if Admits(b, unassigned, compatible, act, x, y, from) {
      var a0 := act[index := true];
      var a1 := Visit(b, unassigned, compatible, a0, x > 0, x - 1, y, index);
      var a2 := Visit(b, unassigned, compatible, a1, x < b.width - 1, x + 1, y, index);
      var a3 := Visit(b, unassigned, compatible, a2, y > 0, x, y - 1, index);
      assert r == Visit(b, unassigned, compatible, a3, y < b.height - 1, x, y + 1, index);
      ActivationReaches(b, unassigned, compatible, act, x, y, a0, a1, a2, a3, r);
    }
  }

  /** The activation step of the fill: the cell at `(x, y)` is set, then its
      four neighbours are visited in turn; every other cell the visits
      activate is one compatible step from some cell this fill activated.
      This says nothing of the order; `GrowStaysInComponent` does. */
  lemma {:induction false} ActivationReaches(
      b: FillBounds, unassigned: seq<bool>, compatible: (nat, nat) -> bool,
      act: seq<bool>, x: nat, y: nat,
      a0: seq<bool>, a1: seq<bool>, a2: seq<bool>, a3: seq<bool>, r: seq<bool>)
    requires |act| == |unassigned| == b.total
    requires CellIndex(b.hcount, x, y) < b.total && !act[CellIndex(b.hcount, x, y)]
    requires a0 == act[CellIndex(b.hcount, x, y) := true]
    requires a1 == Visit(b, unassigned, compatible, a0, x > 0, x - 1, y, CellIndex(b.hcount, x, y))
    requires a2 == Visit(b, unassigned, compatible, a1, x < b.width - 1, x + 1, y, CellIndex(b.hcount, x, y))
    requires a3 == Visit(b, unassigned, compatible, a2, y > 0, x, y - 1, CellIndex(b.hcount, x, y))
    requires r == Visit(b, unassigned, compatible, a3, y < b.height - 1, x, y + 1, CellIndex(b.hcount, x, y))
    ensures forall j: nat :: Fresh(r, act, j) ==>
      j == CellIndex(b.hcount, x, y) || Reached(b.hcount, compatible, r, act, j)
    decreases |act| - CountTrue(act), 1
  {
    var index := CellIndex(b.hcount, x, y);
    CountTrueUpdate(act, index, true);
    CountTrueMonotone(a0, a1);
    CountTrueMonotone(a1, a2);
    CountTrueMonotone(a2, a3);
    BelowTransitive(a0, a1, a2);
    BelowTransitive(a0, a2, a3);
    BelowTransitive(a0, a3, r);
    assert Fresh(r, act, index);
    NeighbourSteps(b.hcount, x, y);
    assert AllReached(b.hcount, compatible, a1, a0, r, act) by {
      BelowTransitive(a1, a2, a3);
      BelowTransitive(a1, a3, r);
      SubFillReached(b, unassigned, compatible, act, a0, a1, x > 0, x - 1, y, index, r);
    }
    assert AllReached(b.hcount, compatible, a2, a1, r, act) by {
      BelowTransitive(a2, a3, r);
      BelowTransitive(act, a0, a1);
      SubFillReached(b, unassigned, compatible, act, a1, a2, x < b.width - 1, x + 1, y, index, r);
    }
    assert AllReached(b.hcount, compatible, a3, a2, r, act) by {
      BelowTransitive(act, a0, a2);
      SubFillReached(b, unassigned, compatible, act, a2, a3, y > 0, x, y - 1, index, r);
    }
    assert AllReached(b.hcount, compatible, r, a3, r, act) by {
      BelowTransitive(act, a0, a3);
      SubFillReached(b, unassigned, compatible, act, a3, r, y < b.height - 1, x, y + 1, index, r);
    }
    LayersReached(b.hcount, compatible, act, a0, a1, a2, a3, r, index);
  }

  /** The fill from an admitted cell, unfolded: set the cell, then visit its
      four neighbours in turn. */
  lemma GrowActivates(b: FillBounds, unassigned: seq<bool>, compatible: (nat, nat) -> bool,
                      act: seq<bool>, x: nat, y: nat, from: nat,
                      a0: seq<bool>, a1: seq<bool>, a2: seq<bool>, a3: seq<bool>)
    requires |act| == |unassigned| == b.total
    requires Admits(b, unassigned, compatible, act, x, y, from)
    requires a0 == act[CellIndex(b.hcount, x, y) := true]
    requires a1 == Visit(b, unassigned, compatible, a0, x > 0, x - 1, y, CellIndex(b.hcount, x, y))
    requires a2 == Visit(b, unassigned, compatible, a1, x < b.width - 1, x + 1, y, CellIndex(b.hcount, x, y))
    requires a3 == Visit(b, unassigned, compatible, a2, y > 0, x, y - 1, CellIndex(b.hcount, x, y))
    ensures Grow(b, unassigned, compatible, act, x, y, from)
         == Visit(b, unassigned, compatible, a3, y < b.height - 1, x, y + 1, CellIndex(b.hcount, x, y))
  {
  }

  /** The four neighbours of `(x, y)` are one step away in index space. */
  lemma NeighbourSteps(hcount: nat, x: nat, y: nat)
    ensures x > 0 ==> Step(hcount, CellIndex(hcount, x, y), CellIndex(hcount, x - 1, y))
    ensures Step(hcount, CellIndex(hcount, x, y), CellIndex(hcount, x + 1, y))
    ensures y > 0 ==> Step(hcount, CellIndex(hcount, x, y), CellIndex(hcount, x, y - 1))
    ensures Step(hcount, CellIndex(hcount, x, y), CellIndex(hcount, x, y + 1))
  {
    assert hcount * (y + 1) == hcount * y + hcount;
    assert y > 0 ==> hcount * (y - 1) + hcount == hcount * y;
  }

  /** Pointwise order on masks of equal length. */
  ghost predicate Below(a: seq<bool>, b: seq<bool>)
  {
    |a| == |b| && forall i :: 0 <= i < |a| && a[i] ==> b[i]
  }

  lemma BelowTransitive(a: seq<bool>, b: seq<bool>, c: seq<bool>)
    requires Below(a, b) && Below(b, c)
    ensures Below(a, c)
  {
  }

  /** Every cell freshly activated in `g` relative to `a` is reached in `r` relative to `act`. */
  ghost predicate AllReached(hcount: nat, compatible: (nat, nat) -> bool,
                             g: seq<bool>, a: seq<bool>, r: seq<bool>, act: seq<bool>)
  {
    forall j: nat :: Fresh(g, a, j) ==> Reached(hcount, compatible, r, act, j)
  }

  /** The four sub-fills of one activation, layered on top of each other. */
  lemma LayersReached(hcount: nat, compatible: (nat, nat) -> bool,
                      act: seq<bool>, a0: seq<bool>, a1: seq<bool>, a2: seq<bool>, a3: seq<bool>,
                      r: seq<bool>, index: nat)
    requires |act| == |a0| == |a1| == |a2| == |a3| == |r|
    requires index < |act| && a0 == act[index := true]
    requires AllReached(hcount, compatible, a1, a0, r, act)
    requires AllReached(hcount, compatible, a2, a1, r, act)
    requires AllReached(hcount, compatible, a3, a2, r, act)
    requires AllReached(hcount, compatible, r, a3, r, act)
    ensures forall j: nat :: Fresh(r, act, j) ==> j == index || Reached(hcount, compatible, r, act, j)
  {
    forall j: nat | Fresh(r, act, j) && j != index
      ensures Reached(hcount, compatible, r, act, j)
    {
      if a1[j] {
        assert Fresh(a1, a0, j);
      } else if a2[j] {
        assert Fresh(a2, a1, j);
      } else if a3[j] {
        assert Fresh(a3, a2, j);
      } else {
        assert Fresh(r, a3, j);
      }
    }
  }

  /** A fill started one step from a freshly activated cell `index`, when
      `taken`, only activates cells that are reached in the enclosing fill. */
  lemma {:induction false} SubFillReached(
      b: FillBounds, unassigned: seq<bool>, compatible: (nat, nat) -> bool,
      act: seq<bool>, a: seq<bool>, next: seq<bool>, taken: bool, x: int, y: int, index: nat, r: seq<bool>)
    requires |act| == |unassigned| == b.total == |a|
    requires taken ==> x >= 0 && y >= 0 && Step(b.hcount, index, CellIndex(b.hcount, x, y))
    requires next == Visit(b, unassigned, compatible, a, taken, x, y, index)
    requires Below(act, a) && Below(next, r)
    requires Fresh(r, act, index)
    ensures AllReached(b.hcount, compatible, next, a, r, act)
    decreases |a| - CountTrue(a), 3
  {
    if taken {
      assert next == Grow(b, unassigned, compatible, a, x, y, index);
      GrowReachesByCompatibleSteps(b, unassigned, compatible, a, x, y, index);
      forall j: nat | Fresh(next, a, j) ensures Reached(b.hcount, compatible, r, act, j) {
        if j != CellIndex(b.hcount, x, y) || !compatible(index, j) {
          var k: nat :| Fresh(next, a, k) && Step(b.hcount, k, j) && compatible(k, j);
          assert Fresh(r, act, k);
        }
      }
    }
  }

  /** `(nx, ny)` is one of the four neighbours of `(x, y)` in a grid of
      `hcount` columns. */
  predicate GridNeighbour(hcount: nat, x: nat, y: nat, nx: nat, ny: nat)
  {
    nx < hcount && ((ny == y && (nx + 1 == x || nx == x + 1)) || (nx == x && (ny + 1 == y || ny == y + 1)))
  }

  /** The fill crosses the right edge of the grid. Its right step from the
      last column `hcount - 1` of row `y` is bounded by the pixel width, not by
      the cell count, so it lands on cell `(hcount, y)`, whose index is that
      of the first cell `(0, y + 1)` of the next row: when that cell is in
      the grid, unassigned and compatible with the start, the fill activates
      it. With at least two columns it is none of the start's 4-neighbours in
      the grid; with a single column it is the start's lower neighbour. */
  lemma FillWrapsPastLastColumn(b: FillBounds, unassigned: seq<bool>, compatible: (nat, nat) -> bool,
                                act: seq<bool>, y: nat, from: nat)
    requires |act| == |unassigned| == b.total
    requires 0 < b.hcount < b.width
    requires Admits(b, unassigned, compatible, act, b.hcount - 1, y, from)
    requires CellIndex(b.hcount, 0, y + 1) < b.total && unassigned[CellIndex(b.hcount, 0, y + 1)]
    requires compatible(CellIndex(b.hcount, b.hcount - 1, y), CellIndex(b.hcount, 0, y + 1))
    ensures Grow(b, unassigned, compatible, act, b.hcount - 1, y, from)[CellIndex(b.hcount, 0, y + 1)]
    ensures b.hcount >= 2 ==>
      forall nx: nat, ny: nat :: GridNeighbour(b.hcount, b.hcount - 1, y, nx, ny) ==>
        CellIndex(b.hcount, nx, ny) != CellIndex(b.hcount, 0, y + 1)
    ensures b.hcount == 1 ==> CellIndex(b.hcount, 0, y + 1) == CellIndex(b.hcount, b.hcount - 1, y + 1)
  {
    var x := b.hcount - 1;
    var index := CellIndex(b.hcount, x, y);
    var next := CellIndex(b.hcount, 0, y + 1);
    assert b.hcount * (y + 1) == b.hcount * y + b.hcount;
    assert CellIndex(b.hcount, x + 1, y) == next;
    var a0 := act[index := true];
    var a1 := Visit(b, unassigned, compatible, a0, x > 0, x - 1, y, index);
    var a2 := Visit(b, unassigned, compatible, a1, x < b.width - 1, x + 1, y, index);
    var a3 := Visit(b, unassigned, compatible, a2, y > 0, x, y - 1, index);
    var r := Visit(b, unassigned, compatible, a3, y < b.height - 1, x, y + 1, index);
    GrowActivates(b, unassigned, compatible, act, x, y, from, a0, a1, a2, a3);
    assert a2[next] by {
      if !a1[next] {
        assert Admits(b, unassigned, compatible, a1, x + 1, y, index);
      }
    }
    assert r[next] by { BelowTransitive(a2, a3, r); }
    WrapTargetIsNoNeighbour(b.hcount, y);
  }

  /** Cell `(hcount, y)` past the last column has the index of `(0, y + 1)`,
      which with at least two columns is none of the 4-neighbours of
      `(hcount - 1, y)` in the grid, and with one column is its lower
      neighbour. */
  lemma WrapTargetIsNoNeighbour(hcount: nat, y: nat)
    requires hcount > 0
    ensures CellIndex(hcount, hcount, y) == CellIndex(hcount, 0, y + 1)
    ensures hcount >= 2 ==>
      forall nx: nat, ny: nat :: GridNeighbour(hcount, hcount - 1, y, nx, ny) ==>
        CellIndex(hcount, nx, ny) != CellIndex(hcount, 0, y + 1)
    ensures hcount == 1 ==> CellIndex(hcount, 0, y + 1) == CellIndex(hcount, hcount - 1, y + 1)
  {
    var next := CellIndex(hcount, 0, y + 1);
    assert hcount * (y + 1) == hcount * y + hcount;
    forall nx: nat, ny: nat | hcount >= 2 && GridNeighbour(hcount, hcount - 1, y, nx, ny)
      ensures CellIndex(hcount, nx, ny) != next
    {
      if ny + 1 == y {
        assert hcount * ny + hcount == hcount * y;
      } else if ny == y + 1 {
        assert CellIndex(hcount, nx, ny) == hcount - 1 + next;
      }
    }
  }

  /** A set of cells closed under the fill's compatible steps: with `k`, it
      holds every cell one step from `k` that is compatible with `k`'s plane. */
  ghost predicate ClosedUnderSteps(hcount: nat, compatible: (nat, nat) -> bool, c: set<nat>)
  {
    forall k: nat, j: nat :: k in c && Step(hcount, k, j) && compatible(k, j) ==> j in c
  }

  /** The fill stays in the compatible component of its start: every cell it
      activates lies in each set that is closed under compatible steps and
      holds the start cell whenever the start is admitted. So each activated
      cell is joined to the start by a chain of compatible steps. */
  lemma {:induction false} GrowStaysInComponent(
      b: FillBounds, unassigned: seq<bool>, compatible: (nat, nat) -> bool,
      act: seq<bool>, x: nat, y: nat, from: nat, c: set<nat>)
    requires |act| == |unassigned| == b.total
    requires ClosedUnderSteps(b.hcount, compatible, c)
    requires Admits(b, unassigned, compatible, act, x, y, from) ==> CellIndex(b.hcount, x, y) in c
    ensures forall j: nat :: Fresh(Grow(b, unassigned, compatible, act, x, y, from), act, j) ==> j in c
    decreases |act| - CountTrue(act), 2
  {
    if Admits(b, unassigned, compatible, act, x, y, from) {
      var index := CellIndex(b.hcount, x, y);
      var a0 := act[index := true];
      var a1 := Visit(b, unassigned, compatible, a0, x > 0, x - 1, y, index);
      var a2 := Visit(b, unassigned, compatible, a1, x < b.width - 1, x + 1, y, index);
      var a3 := Visit(b, unassigned, compatible, a2, y > 0, x, y - 1, index);
      assert Grow(b, unassigned, compatible, act, x, y, from)
          == Visit(b, unassigned, compatible, a3, y < b.height - 1, x, y + 1, index);
      ActivationStaysInComponent(b, unassigned, compatible, act, x, y, a0, a1, a2, a3,
                                 Visit(b, unassigned, compatible, a3, y < b.height - 1, x, y + 1, index), c);
    }
  }

  /** The activation step of the fill from a cell of the component: the
      four neighbour visits stay in it. */
  lemma {:induction false} ActivationStaysInComponent(
      b: FillBounds, unassigned: seq<bool>, compatible: (nat, nat) -> bool,
      act: seq<bool>, x: nat, y: nat,
      a0: seq<bool>, a1: seq<bool>, a2: seq<bool>, a3: seq<bool>, r: seq<bool>, c: set<nat>)
    requires |act| == |unassigned| == b.total
    requires CellIndex(b.hcount, x, y) < b.total && !act[CellIndex(b.hcount, x, y)]
    requires ClosedUnderSteps(b.hcount, compatible, c) && CellIndex(b.hcount, x, y) in c
    requires a0 == act[CellIndex(b.hcount, x, y) := true]
    requires a1 == Visit(b, unassigned, compatible, a0, x > 0, x - 1, y, CellIndex(b.hcount, x, y))
    requires a2 == Visit(b, unassigned, compatible, a1, x < b.width - 1, x + 1, y, CellIndex(b.hcount, x, y))
    requires a3 == Visit(b, unassigned, compatible, a2, y > 0, x, y - 1, CellIndex(b.hcount, x, y))
    requires r == Visit(b, unassigned, compatible, a3, y < b.height - 1, x, y + 1, CellIndex(b.hcount, x, y))
    ensures forall j: nat :: Fresh(r, act, j) ==> j in c
    decreases |act| - CountTrue(act), 1
  {
    var index := CellIndex(b.hcount, x, y);
    CountTrueUpdate(act, index, true);
    NeighbourSteps(b.hcount, x, y);
    VisitStaysInComponent(b, unassigned, compatible, a0, x > 0, x - 1, y, index, c);
    CountTrueMonotone(a0, a1);
    VisitStaysInComponent(b, unassigned, compatible, a1, x < b.width - 1, x + 1, y, index, c);
    CountTrueMonotone(a1, a2);
    VisitStaysInComponent(b, unassigned, compatible, a2, y > 0, x, y - 1, index, c);
    CountTrueMonotone(a2, a3);
    VisitStaysInComponent(b, unassigned, compatible, a3, y < b.height - 1, x, y + 1, index, c);
    LayersInSet(act, a0, a1, a2, a3, r, index, c);
  }

  /** The four sub-fills of one activation, layered on top of each other,
      activate only cells of `c` when each layer does. */
  lemma LayersInSet(act: seq<bool>, a0: seq<bool>, a1: seq<bool>, a2: seq<bool>, a3: seq<bool>,
                    r: seq<bool>, index: nat, c: set<nat>)
    requires |act| == |a0| == |a1| == |a2| == |a3| == |r|
    requires index < |act| && a0 == act[index := true] && index in c
    requires forall j: nat :: Fresh(a1, a0, j) ==> j in c
    requires forall j: nat :: Fresh(a2, a1, j) ==> j in c
    requires forall j: nat :: Fresh(a3, a2, j) ==> j in c
    requires forall j: nat :: Fresh(r, a3, j) ==> j in c
    ensures forall j: nat :: Fresh(r, act, j) ==> j in c
  {
    forall j: nat | Fresh(r, act, j) ensures j in c {
      if j != index {
        if a1[j] {
          assert Fresh(a1, a0, j);
        } else if a2[j] {
          assert Fresh(a2, a1, j);
        } else if a3[j] {
          assert Fresh(a3, a2, j);
        } else {
          assert Fresh(r, a3, j);
        }
      }
    }
  }

  /** A neighbour visit from a cell `index` of the component stays in it. */
  lemma {:induction false} VisitStaysInComponent(
      b: FillBounds, unassigned: seq<bool>, compatible: (nat, nat) -> bool,
      a: seq<bool>, go: bool, x: int, y: int, index: nat, c: set<nat>)
    requires |a| == |unassigned| == b.total
    requires go ==> x >= 0 && y >= 0 && Step(b.hcount, index, CellIndex(b.hcount, x, y))
    requires ClosedUnderSteps(b.hcount, compatible, c) && index in c
    ensures forall j: nat :: Fresh(Visit(b, unassigned, compatible, a, go, x, y, index), a, j) ==> j in c
    decreases |a| - CountTrue(a), 3
  {
    if go {
      GrowStaysInComponent(b, unassigned, compatible, a, x, y, index, c);
    }
  }
}
