/** The two binary morphology steps the plane refinement applies to a
    region's cell mask: an erosion with the 3x3 cross kernel and a dilation
    with the 3x3 square kernel, one iteration each, with OpenCV's default
    border (outside the grid never removes a cell from an erosion and never
    adds one to a dilation). Masks are row-major over `rows` x `cols` cells. */
module Morphology {

  /** Whether cell `k` has a neighbour above, below, left, right. */
  predicate HasAbove(cols: nat, k: nat) { k >= cols }
  predicate HasBelow(n: nat, cols: nat, k: nat) { k + cols < n }
  predicate HasLeft(cols: nat, k: nat) requires cols > 0 { k % cols > 0 }
  predicate HasRight(cols: nat, k: nat) requires cols > 0 { k % cols < cols - 1 }

  /** Erosion by the cross kernel: a cell stays set when it and each of its
      4-neighbours inside the grid are set. */
  function Erode(mask: seq<bool>, cols: nat): (e: seq<bool>)
    requires cols > 0
    ensures |e| == |mask|
    ensures forall k :: 0 <= k < |e| && e[k] ==> mask[k]
  {
    var n := |mask|;
    seq(n, k requires 0 <= k < n =>
      mask[k]
      && (HasAbove(cols, k) ==> mask[k - cols])
      && (HasBelow(n, cols, k) ==> mask[k + cols])
      && (HasLeft(cols, k) ==> mask[k - 1])
      && (HasRight(cols, k) && k + 1 < n ==> mask[k + 1]))
  }

  /** Dilation by the square kernel: a cell becomes set when it or one of its
      8-neighbours inside the grid is set. */
  function Dilate(mask: seq<bool>, cols: nat): (d: seq<bool>)
    requires cols > 0
    ensures |d| == |mask|
    ensures forall k :: 0 <= k < |d| && mask[k] ==> d[k]
  {
    var n := |mask|;
    seq(n, k requires 0 <= k < n =>
      var up, down := HasAbove(cols, k), HasBelow(n, cols, k);
      var left, right := HasLeft(cols, k), HasRight(cols, k) && k + 1 < n;
      mask[k]
      || (up && mask[k - cols])
      || (down && mask[k + cols])
      || (left && mask[k - 1])
      || (right && mask[k + 1])
      || (up && left && mask[k - cols - 1])
      || (up && right && mask[k - cols + 1])
      || (down && left && mask[k + cols - 1])
      || (down && right && k + cols + 1 < n && mask[k + cols + 1]))
  }

  /** `dilated - eroded` on 0/1 masks with saturating subtraction: the ring of
      cells around the region's core whose pixels are refined one by one. */
  function Ring(dilated: seq<bool>, eroded: seq<bool>): (r: seq<bool>)
    requires |dilated| == |eroded|
    ensures |r| == |dilated|
    ensures forall k :: 0 <= k < |r| ==> (r[k] <==> dilated[k] && !eroded[k])
  {
    seq(|dilated|, k requires 0 <= k < |dilated| => dilated[k] && !eroded[k])
  }

  /** Whether a mask has no set cell (`minMaxLoc` giving a maximum of 0). */
  predicate IsEmpty(mask: seq<bool>)
  {
    forall k :: 0 <= k < |mask| ==> !mask[k]
  }
}
