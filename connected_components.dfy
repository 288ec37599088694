/** Adjacency of plane regions on the cell label grid.

    The grid holds, per cell, 0 (no plane) or `p + 1` for plane `p`. The scan
    visits every origin cell except those of the last row and of the last
    column, and compares each origin with its right and lower neighbour: two
    different positive labels mark the two planes as associated, in both
    directions. Two planes that touch only along the last row (side by
    side) or only along the last column (one above the other) are therefore
    never associated. */
module ConnectedComponents {
  import opened CellGrid

  /** A label grid of `rows` x `cols` cells whose labels name planes below `n`. */
  predicate LabelGrid(labels: seq<int>, rows: nat, cols: nat, n: nat)
  {
    rows >= 1 && cols >= 1 && |labels| == cols * rows
    && forall i :: 0 <= i < |labels| ==> 0 <= labels[i] <= n
  }

  /** The label of the cell at column `c`, row `r`. */
  function LabelAt(labels: seq<int>, rows: nat, cols: nat, r: nat, c: nat): int
    requires |labels| == cols * rows && r < rows && c < cols
  {
    CellInGrid(cols, rows, c, r);
    labels[CellIndex(cols, c, r)]
  }

  /** The pairs `(v - 1, w - 1)` and `(w - 1, v - 1)` when `v` and `w` are two
      different plane labels, none otherwise. */
  function LinkedPair(v: int, w: int): (s: set<(nat, nat)>)
    ensures forall a: nat, b: nat :: (a, b) in s <==>
      (v > 0 && w > 0 && v != w && ((a == v - 1 && b == w - 1) || (a == w - 1 && b == v - 1)))
  {
    if v > 0 && w > 0 && v != w then {(v - 1, w - 1), (w - 1, v - 1)} else {}
  }

  /** The pairs the scan records at origin `(r, c)`. */
  function OriginPairs(labels: seq<int>, rows: nat, cols: nat, r: nat, c: nat): set<(nat, nat)>
    requires |labels| == cols * rows && r + 1 < rows && c + 1 < cols
  {
    var v := LabelAt(labels, rows, cols, r, c);
    if v > 0 then
      LinkedPair(v, LabelAt(labels, rows, cols, r, c + 1))
      + LinkedPair(v, LabelAt(labels, rows, cols, r + 1, c))
    else {}
  }

  /** The pairs recorded at the first `c` origins of row `r`. */
  function RowPairs(labels: seq<int>, rows: nat, cols: nat, r: nat, c: nat): set<(nat, nat)>
    requires |labels| == cols * rows && r + 1 < rows && c < cols
  {
    if c == 0 then {} else RowPairs(labels, rows, cols, r, c - 1) + OriginPairs(labels, rows, cols, r, c - 1)
  }

  /** The pairs recorded in the first `r` rows. */
  function GridPairs(labels: seq<int>, rows: nat, cols: nat, r: nat): set<(nat, nat)>
    requires |labels| == cols * rows && r < rows && cols >= 1
  {
    if r == 0 then {} else GridPairs(labels, rows, cols, r - 1) + RowPairs(labels, rows, cols, r - 1, cols - 1)
  }

  /** All pairs the scan records. */
  function ConnectedPairs(labels: seq<int>, rows: nat, cols: nat): set<(nat, nat)>
    requires |labels| == cols * rows && rows >= 1 && cols >= 1
  {
    GridPairs(labels, rows, cols, rows - 1)
  }

  /** Plane `a` sits on origin `(r, c)` and plane `b` on its right or lower neighbour. */
  ghost predicate Touches(labels: seq<int>, rows: nat, cols: nat, r: nat, c: nat, a: nat, b: nat)
    requires |labels| == cols * rows
  {
    r + 1 < rows && c + 1 < cols && a != b
    && LabelAt(labels, rows, cols, r, c) == a + 1
    && (LabelAt(labels, rows, cols, r, c + 1) == b + 1 || LabelAt(labels, rows, cols, r + 1, c) == b + 1)
  }

  /** Planes `a` and `b` touch at some origin cell, either way round. */
  ghost predicate Associated(labels: seq<int>, rows: nat, cols: nat, a: nat, b: nat)
    requires |labels| == cols * rows
  {
    exists r: nat, c: nat :: Touches(labels, rows, cols, r, c, a, b) || Touches(labels, rows, cols, r, c, b, a)
  }

  /** The pairs of one origin are exactly the planes touching there. */
  lemma OriginPairsMeaning(labels: seq<int>, rows: nat, cols: nat, r: nat, c: nat, a: nat, b: nat)
    requires |labels| == cols * rows && r + 1 < rows && c + 1 < cols
    ensures (a, b) in OriginPairs(labels, rows, cols, r, c)
      <==> Touches(labels, rows, cols, r, c, a, b) || Touches(labels, rows, cols, r, c, b, a)
  {
  }

  /** A pair is recorded in the first `c` origins of row `r` exactly when the two
      planes touch at one of them. */
  lemma {:induction false} RowPairsMeaning(labels: seq<int>, rows: nat, cols: nat, r: nat, c: nat, a: nat, b: nat)
    requires |labels| == cols * rows && r + 1 < rows && c < cols
    ensures (a, b) in RowPairs(labels, rows, cols, r, c)
      <==> (exists c': nat :: c' < c
              && (Touches(labels, rows, cols, r, c', a, b) || Touches(labels, rows, cols, r, c', b, a)))
  {
    if c > 0 {
      RowPairsMeaning(labels, rows, cols, r, c - 1, a, b);
      OriginPairsMeaning(labels, rows, cols, r, c - 1, a, b);
      if (a, b) in OriginPairs(labels, rows, cols, r, c - 1) {
        assert Touches(labels, rows, cols, r, c - 1, a, b) || Touches(labels, rows, cols, r, c - 1, b, a);
      }
    }
  }

  /** A pair is recorded in the first `r` rows exactly when the two planes touch
      at an origin of one of those rows. */
  lemma {:induction false} GridPairsMeaning(labels: seq<int>, rows: nat, cols: nat, r: nat, a: nat, b: nat)
    requires |labels| == cols * rows && r < rows && cols >= 1
    ensures (a, b) in GridPairs(labels, rows, cols, r)
      <==> (exists r': nat, c': nat :: r' < r
              && (Touches(labels, rows, cols, r', c', a, b) || Touches(labels, rows, cols, r', c', b, a)))
  {
    if r > 0 {
      GridPairsMeaning(labels, rows, cols, r - 1, a, b);
      RowPairsMeaning(labels, rows, cols, r - 1, cols - 1, a, b);
      if (a, b) in RowPairs(labels, rows, cols, r - 1, cols - 1) {
        var c': nat :| c' < cols - 1
          && (Touches(labels, rows, cols, r - 1, c', a, b) || Touches(labels, rows, cols, r - 1, c', b, a));
      }
      if (exists r': nat, c': nat :: r' < r
            && (Touches(labels, rows, cols, r', c', a, b) || Touches(labels, rows, cols, r', c', b, a)))
      {
        var r': nat, c': nat :| r' < r
          && (Touches(labels, rows, cols, r', c', a, b) || Touches(labels, rows, cols, r', c', b, a));
        if r' == r - 1 {
          assert c' < cols - 1;
        }
      }
    }
  }

  /** The scan associates two planes exactly when they touch at an origin cell,
      in either direction. */
  lemma ConnectedPairsMeaning(labels: seq<int>, rows: nat, cols: nat, a: nat, b: nat)
    requires |labels| == cols * rows && rows >= 1 && cols >= 1
    ensures (a, b) in ConnectedPairs(labels, rows, cols) <==> Associated(labels, rows, cols, a, b)
  {
    GridPairsMeaning(labels, rows, cols, rows - 1, a, b);
    if Associated(labels, rows, cols, a, b) {
      var r: nat, c: nat :| Touches(labels, rows, cols, r, c, a, b) || Touches(labels, rows, cols, r, c, b, a);
      assert r < rows - 1;
    }
  }

  /** The association is symmetric. */
  lemma ConnectedPairsSymmetric(labels: seq<int>, rows: nat, cols: nat, a: nat, b: nat)
    requires |labels| == cols * rows && rows >= 1 && cols >= 1
    ensures (a, b) in ConnectedPairs(labels, rows, cols) <==> (b, a) in ConnectedPairs(labels, rows, cols)
  {
    ConnectedPairsMeaning(labels, rows, cols, a, b);
    ConnectedPairsMeaning(labels, rows, cols, b, a);
  }

  /** No plane is associated with itself, and associated planes are below `n`. */
  lemma {:induction false} ConnectedPairsInRange(labels: seq<int>, rows: nat, cols: nat, n: nat, a: nat, b: nat)
    requires LabelGrid(labels, rows, cols, n)
    requires (a, b) in ConnectedPairs(labels, rows, cols)
    ensures a != b && a < n && b < n
  {
    ConnectedPairsMeaning(labels, rows, cols, a, b);
    var r: nat, c: nat :| Touches(labels, rows, cols, r, c, a, b) || Touches(labels, rows, cols, r, c, b, a);
    CellInGrid(cols, rows, c, r);
    CellInGrid(cols, rows, c + 1, r);
    CellInGrid(cols, rows, c, r + 1);
  }

  /** Two planes side by side in the last row of a 2 x 2 grid are not associated. */
  lemma LastRowNeverScanned()
    ensures var labels := [0, 0, 1, 2];
      LabelAt(labels, 2, 2, 1, 0) == 1 && LabelAt(labels, 2, 2, 1, 1) == 2
      && ConnectedPairs(labels, 2, 2) == {}
  {
    var labels := [0, 0, 1, 2];
    assert LabelAt(labels, 2, 2, 0, 0) == 0;
    assert OriginPairs(labels, 2, 2, 0, 0) == {};
  }

  /** The scan: for each origin cell, record the pairs of planes it touches
      in `assoc`, an `n` x `n` matrix that is only ever set, never cleared. */
  method GetConnectedComponents(labels: seq<int>, rows: nat, cols: nat, assoc: array2<bool>)
    requires LabelGrid(labels, rows, cols, assoc.Length0) && assoc.Length1 == assoc.Length0
    modifies assoc
    ensures forall a, b :: 0 <= a < assoc.Length0 && 0 <= b < assoc.Length1 ==>
      assoc[a, b] == (old(assoc[a, b]) || (a, b) in ConnectedPairs(labels, rows, cols))
  {
    for r := 0 to rows - 1
      invariant forall a, b :: 0 <= a < assoc.Length0 && 0 <= b < assoc.Length1 ==>
        assoc[a, b] == (old(assoc[a, b]) || (a, b) in GridPairs(labels, rows, cols, r))
    {
      ScanRow(labels, rows, cols, r, assoc);
    }
  }

  /** One row of origins of the scan. */
  method ScanRow(labels: seq<int>, rows: nat, cols: nat, r: nat, assoc: array2<bool>)
    requires LabelGrid(labels, rows, cols, assoc.Length0) && assoc.Length1 == assoc.Length0
    requires r + 1 < rows
    modifies assoc
    ensures forall a, b :: 0 <= a < assoc.Length0 && 0 <= b < assoc.Length1 ==>
      assoc[a, b] == (old(assoc[a, b]) || (a, b) in RowPairs(labels, rows, cols, r, cols - 1))
  {
    for c := 0 to cols - 1
      invariant forall a, b :: 0 <= a < assoc.Length0 && 0 <= b < assoc.Length1 ==>
        assoc[a, b] == (old(assoc[a, b]) || (a, b) in RowPairs(labels, rows, cols, r, c))
    {
      ScanOrigin(labels, rows, cols, r, c, assoc);
      assert RowPairs(labels, rows, cols, r, c + 1)
          == RowPairs(labels, rows, cols, r, c) + OriginPairs(labels, rows, cols, r, c);
    }
  }

  /** One origin of the scan. */
  method ScanOrigin(labels: seq<int>, rows: nat, cols: nat, r: nat, c: nat, assoc: array2<bool>)
    requires LabelGrid(labels, rows, cols, assoc.Length0) && assoc.Length1 == assoc.Length0
    requires r + 1 < rows && c + 1 < cols
    modifies assoc
    ensures forall a, b :: 0 <= a < assoc.Length0 && 0 <= b < assoc.Length1 ==>
      assoc[a, b] == (old(assoc[a, b]) || (a, b) in OriginPairs(labels, rows, cols, r, c))
  {
    var v := LabelAt(labels, rows, cols, r, c);
    if v > 0 {
      var right := LabelAt(labels, rows, cols, r, c + 1);
      var below := LabelAt(labels, rows, cols, r + 1, c);
      CellInGrid(cols, rows, c, r);
      CellInGrid(cols, rows, c + 1, r);
      CellInGrid(cols, rows, c, r + 1);
      if right > 0 && v != right {
        assoc[v - 1, right - 1] := true;
        assoc[right - 1, v - 1] := true;
      }
      if below > 0 && v != below {
        assoc[v - 1, below - 1] := true;
        assoc[below - 1, v - 1] := true;
      }
    }
  }
}
