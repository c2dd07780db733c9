/**
 * MODEL3.py: the binarisation of the processed image into a skeleton, and
 * `label_loops` with first label 1 and step 10.
 *
 * The first label equals the sentinel, so the first flood fill only
 * terminates when the first foreground cell has no foreground neighbour;
 * `LabelLoops` states that as its precondition.  `LabelLoopsFixed` is the
 * evidently intended version, starting at 11.
 */
module Model3 {
  import opened Grid
  import L = LabelLoops

  /** The value the binarisation stores for a cell holding `v`: gaps and background become 0. */
  function SkeletonValue(v: int): (b: int)
    ensures b == 0 || b == 1
    ensures b == 1 <==> v != -1 && v != 0
  {
    if v == -1 then 0
    else if v == 0 then 0
    else 1
  }

  /** `copy.deepcopy` of the processed array: a fresh array with the same cells. */
  method DeepCopy(a: array2<int>) returns (b: array2<int>)
    ensures fresh(b)
    ensures b.Length0 == a.Length0 && b.Length1 == a.Length1
    ensures forall i, j :: 0 <= i < a.Length0 && 0 <= j < a.Length1 ==> b[i, j] == a[i, j]
  {
    b := new int[a.Length0, a.Length1];
    for i := 0 to a.Length0
      invariant forall i', j :: 0 <= i' < i && 0 <= j < a.Length1 ==> b[i', j] == a[i', j]
    {
      for j := 0 to a.Length1
        invariant forall i', j' :: 0 <= i' < i && 0 <= j' < a.Length1 ==> b[i', j'] == a[i', j']
        invariant forall j' :: 0 <= j' < j ==> b[i, j'] == a[i, j']
      {
        b[i, j] := a[i, j];
      }
    }
  }

  /** The nested loop that rewrites every cell of the skeleton by `SkeletonValue`. */
  method BinariseInPlace(a: array2<int>)
    modifies a
    ensures forall i, j :: 0 <= i < a.Length0 && 0 <= j < a.Length1 ==> a[i, j] == SkeletonValue(old(a[i, j]))
  {
    for i := 0 to a.Length0
      invariant forall i', j :: 0 <= i' < a.Length0 && 0 <= j < a.Length1 ==>
        a[i', j] == if i' < i then SkeletonValue(old(a[i', j])) else old(a[i', j])
    {
      for j := 0 to a.Length1
        invariant forall i', j' :: 0 <= i' < a.Length0 && 0 <= j' < a.Length1 ==>
          a[i', j'] == if i' < i || (i' == i && j' < j) then SkeletonValue(old(a[i', j'])) else old(a[i', j'])
      {
        if a[i, j] == -1 {
          a[i, j] := 0;
        } else if a[i, j] == 0 {
          a[i, j] := 0;
        } else {
          a[i, j] := 1;
        }
      }
    }
  }

  /**
   * The skeleton of the processed array: a deep copy, binarised.  The
   * processed array itself is not modified.
   */
  method Skeleton(processed: array2<int>) returns (skeleton: array2<int>)
    ensures fresh(skeleton)
    ensures skeleton.Length0 == processed.Length0 && skeleton.Length1 == processed.Length1
    ensures forall i, j :: 0 <= i < skeleton.Length0 && 0 <= j < skeleton.Length1 ==>
      skeleton[i, j] == SkeletonValue(processed[i, j])
  {
    skeleton := DeepCopy(processed);
    BinariseInPlace(skeleton);
  }

  /**
   * `label_loops` as MODEL3.py writes it, first label 1 and step 10.  It can
   * only be called when the first foreground cell is isolated; otherwise the
   * first fill never stops (FloodFill.SentinelFillNeverStops).
   */
  method LabelLoops(grid: array2<int>) returns (labelled: array2<int>)
    requires grid.Length0 >= 1
    requires L.FirstIsolated(Snapshot(grid))
    modifies grid
    ensures labelled == grid
    ensures Snapshot(grid) == L.Labelling(old(Snapshot(grid)), Sentinel, 10).grid
  {
    var next;
    labelled, next := L.LabelLoops(grid, Sentinel, 10);
  }

  /**
   * `label_loops` with the first label moved off the sentinel to 11 and the
   * step of 10 kept: labels 11, 21, 31, ..., and no cell left at 1.
   */
  method LabelLoopsFixed(grid: array2<int>) returns (labelled: array2<int>)
    requires grid.Length0 >= 1
    modifies grid
    ensures labelled == grid
    ensures Snapshot(grid) == L.Labelling(old(Snapshot(grid)), 11, 10).grid
    ensures forall i, j :: 0 <= i < grid.Length0 && 0 <= j < grid.Length1 ==> grid[i, j] != Sentinel
  {
    ghost var g0 := Snapshot(grid);
    assert Rect(g0, |g0[0]|);
    var next;
    labelled, next := L.LabelLoops(grid, 11, 10);
    L.NoSentinelLeft(g0, 11, 10);
    forall i, j | 0 <= i < grid.Length0 && 0 <= j < grid.Length1
      ensures grid[i, j] != Sentinel
    {
      assert InBounds(Snapshot(grid), (i, j));
    }
  }
}
