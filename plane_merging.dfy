/** Merging of adjacent, geometrically similar planes.

    Every plane starts with its own label. Row `r` of the association matrix
    is visited in order; the plane currently labelled for `r` (the "test
    plane") absorbs every later plane `c` that is associated with `r` and
    passes the geometric merge test, and `c` takes the test plane's label.
    A later row can relabel `c` again, so the final label of `c` is the label
    of the last row that absorbed it.

    The merge test compares the test plane, as refitted after the rows before
    `r`, with plane `c`. It is floating-point geometry, so the model receives
    it as a parameter `ok(r, planeId, c)`: the row, the test plane's label and
    the candidate plane. */
module PlaneMerging {
  import opened ConnectedComponents

  type MergeTest = (nat, nat, nat) -> bool

  /** Row `r` absorbs plane `c`: they are associated and the test plane of
      row `r`, `labels[r]`, passes the merge test against `c`. */
  ghost predicate Merges(pairs: set<(nat, nat)>, ok: MergeTest, labels: seq<nat>, r: nat, c: nat)
  {
    r < |labels| && (r, c) in pairs && ok(r, labels[r], c)
  }

  /** No row before `k` absorbs `c`. */
  ghost predicate NoMerger(pairs: set<(nat, nat)>, ok: MergeTest, labels: seq<nat>, c: nat, k: nat)
  {
    forall r: nat :: r < k ==> !Merges(pairs, ok, labels, r, c)
  }

  /** Row `r` is the last row before `k` that absorbs `c`. */
  ghost predicate LastMergerOf(pairs: set<(nat, nat)>, ok: MergeTest, labels: seq<nat>, c: nat, k: nat, r: nat)
  {
    r < k && Merges(pairs, ok, labels, r, c)
    && forall r': nat :: r < r' < k ==> !Merges(pairs, ok, labels, r', c)
  }

  /** `labels[c]` is what the rows before `k` leave for plane `c`: its own index
      when none of them absorbed it, otherwise the label of the last one that did. */
  ghost predicate SettledBy(pairs: set<(nat, nat)>, ok: MergeTest, labels: seq<nat>, c: nat, k: nat)
    requires c < |labels|
  {
    (NoMerger(pairs, ok, labels, c, k) ==> labels[c] == c)
    && (forall r: nat :: LastMergerOf(pairs, ok, labels, c, k, r) ==> labels[c] == labels[r])
  }

  /** The labels the merge produces: every plane is settled by all rows before it
      (rows at or after `c` never touch `c`). */
  ghost predicate MergeOutcome(pairs: set<(nat, nat)>, ok: MergeTest, labels: seq<nat>)
  {
    forall c: nat :: c < |labels| ==> SettledBy(pairs, ok, labels, c, c)
  }

  /** The merge pass over the association of the plane label grid `grid`
      (labels `1..n`, 0 for no plane). Returns the merge label of each plane. */
  method MergePlanes(grid: seq<int>, rows: nat, cols: nat, n: nat, ok: MergeTest) returns (labels: seq<nat>)
    requires LabelGrid(grid, rows, cols, n)
    ensures |labels| == n
    ensures MergeOutcome(ConnectedPairs(grid, rows, cols), ok, labels)
  {
    var pairs := ConnectedPairs(grid, rows, cols);
    var assoc := new bool[n, n]((i, j) => false);
    GetConnectedComponents(grid, rows, cols, assoc);
    labels := [];
    for i := 0 to n
      invariant labels == seq(i, j => j)
    {
      labels := labels + [i];
    }
    assert forall c: nat :: c < n ==> SettledBy(pairs, ok, labels, c, 0);
    for r := 0 to n
      invariant |labels| == n
      invariant forall a, b :: 0 <= a < n && 0 <= b < n ==> assoc[a, b] == ((a, b) in pairs)
      invariant forall j :: 0 <= j < n ==> labels[j] <= j
      invariant forall c: nat :: c < r ==> SettledBy(pairs, ok, labels, c, c)
      invariant forall c: nat :: r <= c < n ==> SettledBy(pairs, ok, labels, c, r)
    {
      var planeId := labels[r];
      ghost var next := r + 1;
      for c := r + 1 to n
        invariant |labels| == n && labels[r] == planeId
        invariant forall a, b :: 0 <= a < n && 0 <= b < n ==> assoc[a, b] == ((a, b) in pairs)
        invariant forall j :: 0 <= j < n ==> labels[j] <= j
        invariant forall j: nat :: j <= r ==> SettledBy(pairs, ok, labels, j, j)
        invariant forall j: nat :: r < j < c ==> SettledBy(pairs, ok, labels, j, next)
        invariant forall j: nat :: c <= j < n ==> SettledBy(pairs, ok, labels, j, r)
      {
        if assoc[r, c] && ok(r, planeId, c) {
          ghost var before := labels;
          labels := labels[c := planeId];
          SettledByLast(pairs, ok, labels, c, r);
          forall j: nat | j <= r ensures SettledBy(pairs, ok, labels, j, j) {
            SettledFrame(pairs, ok, before, labels, j, j);
          }
          forall j: nat | r < j < c ensures SettledBy(pairs, ok, labels, j, next) {
            SettledFrame(pairs, ok, before, labels, j, next);
          }
          forall j: nat | c < j < n ensures SettledBy(pairs, ok, labels, j, r) {
            SettledFrame(pairs, ok, before, labels, j, r);
          }
        } else {
          SettledSkip(pairs, ok, labels, c, r);
        }
      }
    }
  }

  /** Settling depends only on the labels of the rows considered and of `c` itself. */
  lemma SettledFrame(pairs: set<(nat, nat)>, ok: MergeTest, a: seq<nat>, b: seq<nat>, c: nat, k: nat)
    requires |a| == |b| && c < |a|
    requires a[c] == b[c] && forall r :: 0 <= r < k && r < |a| ==> a[r] == b[r]
    requires SettledBy(pairs, ok, a, c, k)
    ensures SettledBy(pairs, ok, b, c, k)
  {
    assert forall r: nat :: r < k ==> (Merges(pairs, ok, a, r, c) <==> Merges(pairs, ok, b, r, c));
    assert forall r: nat :: LastMergerOf(pairs, ok, a, c, k, r) <==> LastMergerOf(pairs, ok, b, c, k, r);
  }

  /** Row `k` absorbs `c` and `c` takes its label: `c` is settled by the rows before `k + 1`. */
  lemma SettledByLast(pairs: set<(nat, nat)>, ok: MergeTest, labels: seq<nat>, c: nat, k: nat)
    requires k < c < |labels|
    requires (k, c) in pairs && ok(k, labels[k], c) && labels[c] == labels[k]
    ensures SettledBy(pairs, ok, labels, c, k + 1)
  {
    assert Merges(pairs, ok, labels, k, c);
  }

  /** Row `k` does not absorb `c`: settling by the rows before `k` carries over to `k + 1`. */
  lemma SettledSkip(pairs: set<(nat, nat)>, ok: MergeTest, labels: seq<nat>, c: nat, k: nat)
    requires k < c < |labels|
    requires !Merges(pairs, ok, labels, k, c)
    requires SettledBy(pairs, ok, labels, c, k)
    ensures SettledBy(pairs, ok, labels, c, k + 1)
  {
  }

  /** When some row before `k` absorbs `c`, a last such row exists. */
  lemma {:induction false} LastMerger(pairs: set<(nat, nat)>, ok: MergeTest, labels: seq<nat>, c: nat, k: nat)
    requires !NoMerger(pairs, ok, labels, c, k)
    ensures exists r: nat :: LastMergerOf(pairs, ok, labels, c, k, r)
  {
    if Merges(pairs, ok, labels, k - 1, c) {
      assert LastMergerOf(pairs, ok, labels, c, k, k - 1);
    } else {
      LastMerger(pairs, ok, labels, c, k - 1);
      var r: nat :| LastMergerOf(pairs, ok, labels, c, k - 1, r);
      assert LastMergerOf(pairs, ok, labels, c, k, r);
    }
  }

  /** A plane that does not keep its own label took it from an earlier row
      that absorbed it. */
  lemma MergedFromEarlierRow(pairs: set<(nat, nat)>, ok: MergeTest, labels: seq<nat>, c: nat)
    requires MergeOutcome(pairs, ok, labels) && c < |labels|
    requires labels[c] != c
    ensures exists r: nat :: r < c && (r, c) in pairs && ok(r, labels[r], c) && labels[c] == labels[r]
  {
    assert SettledBy(pairs, ok, labels, c, c);
    LastMerger(pairs, ok, labels, c, c);
    var r: nat :| LastMergerOf(pairs, ok, labels, c, c, r);
  }

  /** Merge labels never point forward: a plane is labelled by itself or an
      earlier plane. */
  lemma {:induction false} MergeLabelAtMostIndex(pairs: set<(nat, nat)>, ok: MergeTest, labels: seq<nat>, c: nat)
    requires MergeOutcome(pairs, ok, labels) && c < |labels|
    ensures labels[c] <= c
    decreases c
  {
    if labels[c] != c {
      MergedFromEarlierRow(pairs, ok, labels, c);
      var r: nat :| r < c && (r, c) in pairs && ok(r, labels[r], c) && labels[c] == labels[r];
      MergeLabelAtMostIndex(pairs, ok, labels, r);
    }
  }

  /** Merge labels name representatives: the plane a label names keeps that
      label itself, so following a label once reaches the representative. */
  lemma {:induction false} MergeLabelIdempotent(pairs: set<(nat, nat)>, ok: MergeTest, labels: seq<nat>, c: nat)
    requires MergeOutcome(pairs, ok, labels) && c < |labels|
    ensures labels[c] < |labels| && labels[labels[c]] == labels[c]
    decreases c
  {
    MergeLabelAtMostIndex(pairs, ok, labels, c);
    if labels[c] != c {
      MergedFromEarlierRow(pairs, ok, labels, c);
      var r: nat :| r < c && (r, c) in pairs && ok(r, labels[r], c) && labels[c] == labels[r];
      MergeLabelIdempotent(pairs, ok, labels, r);
    }
  }

  /** The merge outcome is determined by the association and the merge test:
      two label sequences of the same length that both satisfy it are equal. */
  lemma MergeOutcomeUnique(pairs: set<(nat, nat)>, ok: MergeTest, a: seq<nat>, b: seq<nat>)
    requires |a| == |b|
    requires MergeOutcome(pairs, ok, a) && MergeOutcome(pairs, ok, b)
    ensures a == b
  {
    forall c: nat | c < |a| ensures a[c] == b[c] {
      AgreeUpTo(pairs, ok, a, b, c);
    }
  }

  lemma {:induction false} AgreeUpTo(pairs: set<(nat, nat)>, ok: MergeTest, a: seq<nat>, b: seq<nat>, c: nat)
    requires |a| == |b| && c < |a|
    requires MergeOutcome(pairs, ok, a) && MergeOutcome(pairs, ok, b)
    ensures forall j :: 0 <= j <= c ==> a[j] == b[j]
    decreases c
  {
    if c > 0 {
      AgreeUpTo(pairs, ok, a, b, c - 1);
    }
    assert forall r: nat :: r < c ==> (Merges(pairs, ok, a, r, c) <==> Merges(pairs, ok, b, r, c));
    assert SettledBy(pairs, ok, a, c, c) && SettledBy(pairs, ok, b, c, c);
    if !NoMerger(pairs, ok, a, c, c) {
      LastMerger(pairs, ok, a, c, c);
      var r: nat :| LastMergerOf(pairs, ok, a, c, c, r);
      assert LastMergerOf(pairs, ok, b, c, c, r);
    } else {
      assert NoMerger(pairs, ok, b, c, c);
    }
  }
}
