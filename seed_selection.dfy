/** Choice of the seed cell a new plane is grown from.

    Each cell of the grid carries the outcome of its local plane fit: whether
    the cell is planar and the mean squared error of the fit. The fit itself
    is floating-point work outside this model; here it is a value per cell. */
module SeedSelection {

  /** Outcome of the plane fit of one cell. */
  datatype CellFit = CellFit(planar: bool, mse: real)

  /** The starting value of the running minimum: `INT_MAX` stored in a
      `float`, which rounds 2^31 - 1 up to 2^31. */
  const MaxSeedMse: real := 2147483648.0

  /** All candidates are cells of the grid. */
  predicate CandidatesInGrid(grid: seq<CellFit>, candidates: seq<nat>)
  {
    forall i :: 0 <= i < |candidates| ==> candidates[i] < |grid|
  }

  /** No candidate has an error below the starting value. */
  predicate NoSeedBelow(grid: seq<CellFit>, candidates: seq<nat>)
    requires CandidatesInGrid(grid, candidates)
  {
    forall i :: 0 <= i < |candidates| ==> grid[candidates[i]].mse >= MaxSeedMse
  }

  /** Candidate `i` is the first one with the strictly smallest error: every
      earlier candidate has a larger error, no later one a smaller error. */
  predicate FirstMinimum(grid: seq<CellFit>, candidates: seq<nat>, i: int)
    requires CandidatesInGrid(grid, candidates)
  {
    0 <= i < |candidates| && grid[candidates[i]].mse < MaxSeedMse
    && (forall j :: 0 <= j < i ==> grid[candidates[j]].mse > grid[candidates[i]].mse)
    && (forall j :: i < j < |candidates| ==> grid[candidates[j]].mse >= grid[candidates[i]].mse)
  }

  /** The scan for the seed: keep a candidate when its error is strictly below
      the running minimum. The seed stays cell 0 when no candidate is below the
      starting value. */
  method SelectSeed(grid: seq<CellFit>, candidates: seq<nat>) returns (seedId: nat)
    requires CandidatesInGrid(grid, candidates)
    ensures NoSeedBelow(grid, candidates) ==> seedId == 0
    ensures !NoSeedBelow(grid, candidates) ==>
      exists i :: FirstMinimum(grid, candidates, i) && seedId == candidates[i]
  {
    seedId := 0;
    var minMse := MaxSeedMse;
    ghost var at := -1;
    for i := 0 to |candidates|
      invariant -1 <= at < i || (at == -1 && i == 0)
      invariant at == -1 ==>
        (seedId == 0 && minMse == MaxSeedMse
         && forall j :: 0 <= j < i ==> grid[candidates[j]].mse >= MaxSeedMse)
      invariant at >= 0 ==>
        (seedId == candidates[at] && minMse == grid[candidates[at]].mse && minMse < MaxSeedMse
         && (forall j :: 0 <= j < at ==> grid[candidates[j]].mse > minMse)
         && (forall j :: at < j < i ==> grid[candidates[j]].mse >= minMse))
    {
      if grid[candidates[i]].mse < minMse {
        seedId := candidates[i];
        minMse := grid[candidates[i]].mse;
        at := i;
      }
    }
    if at >= 0 {
      assert FirstMinimum(grid, candidates, at);
    }
  }

  /** There is only one first minimum. */
  lemma FirstMinimumUnique(grid: seq<CellFit>, candidates: seq<nat>, i: int, j: int)
    requires CandidatesInGrid(grid, candidates)
    requires FirstMinimum(grid, candidates, i) && FirstMinimum(grid, candidates, j)
    ensures i == j
  {
  }

  /** The seed has the smallest error of all candidates. */
  lemma FirstMinimumIsMinimal(grid: seq<CellFit>, candidates: seq<nat>, i: int)
    requires CandidatesInGrid(grid, candidates)
    requires FirstMinimum(grid, candidates, i)
    ensures forall j :: 0 <= j < |candidates| ==> grid[candidates[i]].mse <= grid[candidates[j]].mse
  {
  }

  /** When a candidate is below the starting value, some candidate is a first minimum. */
  lemma {:induction false} FirstMinimumExists(grid: seq<CellFit>, candidates: seq<nat>)
    requires CandidatesInGrid(grid, candidates)
    requires !NoSeedBelow(grid, candidates)
    ensures exists i :: FirstMinimum(grid, candidates, i)
  {
    var n := |candidates|;
    var last := candidates[n - 1];
    var front := candidates[..n - 1];
    assert CandidatesInGrid(grid, front);
    if NoSeedBelow(grid, front) {
      assert grid[last].mse < MaxSeedMse;
      assert FirstMinimum(grid, candidates, n - 1);
    } else {
      FirstMinimumExists(grid, front);
      var i :| FirstMinimum(grid, front, i);
      if grid[last].mse < grid[front[i]].mse {
        assert FirstMinimum(grid, candidates, n - 1);
      } else {
        assert FirstMinimum(grid, candidates, i);
      }
    }
  }
}
