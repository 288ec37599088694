/** Counting over the flat boolean masks and integer label grids that the
    plane detector keeps per cell and per pixel. */
module Counting {

  /** Number of set entries of a mask (what a loop that increments a counter
      for every `true` cell computes). */
  function CountTrue(s: seq<bool>): (n: nat)
    ensures n <= |s|
  {
    if s == [] then 0 else CountTrue(s[..|s| - 1]) + (if s[|s| - 1] then 1 else 0)
  }

  /** Number of entries of a label grid equal to `lbl`. */
  function CountLabel(s: seq<int>, lbl: int): (n: nat)
    ensures n <= |s|
  {
    if s == [] then 0 else CountLabel(s[..|s| - 1], lbl) + (if s[|s| - 1] == lbl then 1 else 0)
  }

  /** The set of indices at which a mask is set. */
  function TrueIndices(s: seq<bool>): (r: set<nat>)
    ensures forall i: nat :: i in r <==> i < |s| && s[i]
  {
    set i: nat | i < |s| && s[i]
  }

  /** Extending the counted prefix by one element adds that element's weight. */
  lemma CountTruePrefix(s: seq<bool>, i: nat)
    requires i < |s|
    ensures CountTrue(s[..i + 1]) == CountTrue(s[..i]) + (if s[i] then 1 else 0)
  {
    assert s[..i + 1][..i] == s[..i];
  }

  lemma CountLabelPrefix(s: seq<int>, lbl: int, i: nat)
    requires i < |s|
    ensures CountLabel(s[..i + 1], lbl) == CountLabel(s[..i], lbl) + (if s[i] == lbl then 1 else 0)
  {
    assert s[..i + 1][..i] == s[..i];
  }

  /** Overwriting one entry changes the count by the difference of the two weights. */
  lemma {:induction false} CountTrueUpdate(s: seq<bool>, i: nat, b: bool)
    requires i < |s|
    ensures CountTrue(s[i := b]) == CountTrue(s) - (if s[i] then 1 else 0) + (if b then 1 else 0)
  {
    var t := s[i := b];
    if i == |s| - 1 {
      assert t[..|t| - 1] == s[..|s| - 1];
    } else {
      assert t[..|t| - 1] == s[..|s| - 1][i := b];
      CountTrueUpdate(s[..|s| - 1], i, b);
    }
  }

  /** A mask that is pointwise below another one has no more set entries. */
  lemma {:induction false} CountTrueMonotone(a: seq<bool>, b: seq<bool>)
    requires |a| == |b|
    requires forall i :: 0 <= i < |a| && a[i] ==> b[i]
    ensures CountTrue(a) <= CountTrue(b)
  {
    if a != [] {
      CountTrueMonotone(a[..|a| - 1], b[..|b| - 1]);
    }
  }

  /** A mask with a positive count has a set entry. */
  lemma {:induction false} CountTruePositive(s: seq<bool>)
    requires CountTrue(s) > 0
    ensures exists i :: 0 <= i < |s| && s[i]
  {
    if !s[|s| - 1] {
      CountTruePositive(s[..|s| - 1]);
      var i :| 0 <= i < |s| - 1 && s[..|s| - 1][i];
      assert s[i];
    }
  }

  /** An all-false mask counts zero. */
  lemma {:induction false} CountTrueNone(s: seq<bool>)
    requires forall i :: 0 <= i < |s| ==> !s[i]
    ensures CountTrue(s) == 0
  {
    if s != [] {
      CountTrueNone(s[..|s| - 1]);
    }
  }

  /** Stamping `lbl` onto the cells selected by `mark`, when those cells held
      0 and no cell held `lbl` before, makes `lbl` occur exactly once per
      selected cell and leaves the count of every other non-zero label as it was. */
  lemma {:induction false} CountLabelAfterStamp(s: seq<int>, t: seq<int>, mark: seq<bool>, lbl: int, other: int)
    requires |s| == |t| == |mark|
    requires lbl != 0 && other != 0 && other != lbl
    requires forall i :: 0 <= i < |s| ==> t[i] == if mark[i] then lbl else s[i]
    requires forall i :: 0 <= i < |s| && mark[i] ==> s[i] == 0
    requires forall i :: 0 <= i < |s| ==> s[i] != lbl
    ensures CountLabel(t, lbl) == CountTrue(mark)
    ensures CountLabel(t, other) == CountLabel(s, other)
  {
    if s != [] {
      var n := |s| - 1;
      CountLabelAfterStamp(s[..n], t[..n], mark[..n], lbl, other);
    }
  }
}
