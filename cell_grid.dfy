/** Index arithmetic of the cell grid laid over the depth image.

    The image is `width` x `height` pixels; it is cut into square cells of
    `cellSize` pixels, `width / cellSize` cells per row and `height / cellSize`
    rows of cells. Cells are numbered row by row; the depth points of a cell
    are stored contiguously ("stacked"), `cellSize * cellSize` of them per
    cell, so pixel `j` of cell `c` lives at `c * pointsPerCell + j`. */
module CellGrid {

  /** Number of cells per row of the grid. */
  function HorizontalCells(width: nat, cellSize: nat): nat
    requires cellSize > 0
  {
    width / cellSize
  }

  /** Number of rows of cells. */
  function VerticalCells(height: nat, cellSize: nat): nat
    requires cellSize > 0
  {
    height / cellSize
  }

  /** Index of the cell at column `x`, row `y`. */
  function CellIndex(hcount: nat, x: nat, y: nat): nat
  {
    x + hcount * y
  }

  /** Column of cell `id`. */
  function CellColumn(hcount: nat, id: nat): nat
    requires hcount > 0
  {
    id % hcount
  }

  /** Row of cell `id`. */
  function CellRow(hcount: nat, id: nat): nat
    requires hcount > 0
  {
    id / hcount
  }

  /** Quotient and remainder are determined by a bracketing multiple. */
  lemma DivisionBracket(a: nat, b: nat, q: nat)
    requires b > 0
    requires q * b <= a < q * b + b
    ensures a / b == q
    ensures a % b == a - q * b
  {
    var q', r' := a / b, a % b;
    assert (q' - q) * b == (a - q * b) - r';
    ZeroMultiple(q' - q, b);
  }

  /** The only multiple of `b` strictly between `-b` and `b` is zero. */
  lemma ZeroMultiple(d: int, b: int)
    requires b > 0
    requires -b < d * b < b
    ensures d == 0
  {
    if d > 0 {
      MultiplyAtLeastOnce(d, b);
    }
  }

  lemma MultiplyAtLeastOnce(k: nat, b: nat)
    requires k >= 1
    ensures k * b >= b
  {
  }

  /** The cell index built from a cell's row and column gives the cell back
      (the split `y = id / hcount`, `x = id % hcount` before growing a seed). */
  lemma IndexFromCoordinates(hcount: nat, id: nat)
    requires hcount > 0
    ensures CellColumn(hcount, id) < hcount
    ensures CellIndex(hcount, CellColumn(hcount, id), CellRow(hcount, id)) == id
  {
  }

  /** Conversely, a column inside the grid and any row are recovered from the index. */
  lemma {:induction false} CoordinatesFromIndex(hcount: nat, x: nat, y: nat)
    requires x < hcount
    ensures CellColumn(hcount, CellIndex(hcount, x, y)) == x
    ensures CellRow(hcount, CellIndex(hcount, x, y)) == y
  {
    DivisionBracket(x + hcount * y, hcount, y);
  }

  /** A cell of a grid with `vcount` rows lies on one of those rows. */
  lemma RowInGrid(hcount: nat, vcount: nat, id: nat)
    requires hcount > 0
    requires id < hcount * vcount
    ensures CellRow(hcount, id) < vcount
  {
  }

  /** A cell inside the grid's columns and rows has an index inside the grid. */
  lemma CellInGrid(hcount: nat, vcount: nat, x: nat, y: nat)
    requires x < hcount && y < vcount
    ensures CellIndex(hcount, x, y) < hcount * vcount
  {
    MultiplyMonotone(y + 1, vcount, hcount);
  }

  lemma MultiplyMonotone(a: nat, b: nat, c: nat)
    requires a <= b
    ensures a * c <= b * c
  {
  }

  /** Every per-cell array has one entry per cell, and all cells' stacked
      pixels fit in the `width * height` pixel arrays. */
  lemma {:induction false} CellsFitPixels(width: nat, height: nat, cellSize: nat)
    requires cellSize > 0
    ensures HorizontalCells(width, cellSize) * VerticalCells(height, cellSize) * (cellSize * cellSize)
            <= width * height
  {
    var h, v := HorizontalCells(width, cellSize), VerticalCells(height, cellSize);
    assert h * cellSize <= width;
    assert v * cellSize <= height;
    calc {
      h * v * (cellSize * cellSize);
      (h * cellSize) * (v * cellSize);
    <= { MultiplyMonotone(h * cellSize, width, v * cellSize); }
      width * (v * cellSize);
    <= { MultiplyMonotone(v * cellSize, height, width); }
      width * height;
    }
  }

  /** Pixel `j` of cell `c` is inside the stacked pixel arrays. */
  lemma StackedIndexInRange(c: nat, j: nat, total: nat, pointsPerCell: nat)
    requires c < total
    requires j < pointsPerCell
    ensures c * pointsPerCell + j < total * pointsPerCell
  {
    MultiplyMonotone(c + 1, total, pointsPerCell);
  }

  /** The stacked pixel at `p` belongs to cell `p / pointsPerCell`. */
  lemma StackedCell(c: nat, j: nat, pointsPerCell: nat)
    requires j < pointsPerCell
    ensures (c * pointsPerCell + j) / pointsPerCell == c
  {
    DivisionBracket(c * pointsPerCell + j, pointsPerCell, c);
  }

  /** Pixel row (or column) `p` lies in cell row (or column) `k` exactly when
      it is one of the `cellSize` pixels from `k * cellSize` on. */
  lemma PixelSpan(cellSize: nat, k: nat, p: nat)
    requires cellSize > 0
    ensures p / cellSize == k <==> k * cellSize <= p < k * cellSize + cellSize
    ensures p / cellSize == k ==> p % cellSize == p - k * cellSize
  {
    if k * cellSize <= p < k * cellSize + cellSize {
      DivisionBracket(p, cellSize, k);
    }
  }

  /** The offset of pixel `(dr, dc)` inside a cell, row by row, is below the
      cell's pixel count. */
  lemma OffsetInCell(cellSize: nat, dr: nat, dc: nat)
    requires dr < cellSize && dc < cellSize
    ensures dr * cellSize + dc < cellSize * cellSize
  {
    MultiplyMonotone(dr + 1, cellSize, cellSize);
  }
}
