/**
 * `label_loops`: scan the grid in row-major order and start a flood fill at
 * every cell that still holds the sentinel, with a label that starts at
 * `first` and grows by `step` after every fill.  loopfinding.py uses
 * first = 11, step = 1; MODEL3.py uses first = 1, step = 10.
 *
 * `ScanTo` is the scan as a value: the grid and the seeds (the cells where a
 * fill started) once every cell before a position was visited.  The method
 * `LabelLoops` is proved to compute it, and `LabelsComponents` proves what it
 * means: each 4-connected foreground component gets its own label, in the
 * order of the components' first cells.
 */
module LabelLoops {
  import opened Grid
  import opened FloodFill

  /** `p` is the row-major first cell of its 4-connected foreground component. */
  ghost predicate IsLeader(g: seq<seq<int>>, p: Cell) {
    IsOne(g, p) && forall q :: Connected(g, q, p) ==> !Before(q, p)
  }

  /** `p` is the row-major first foreground cell of `g`. */
  ghost predicate IsFirstOne(g: seq<seq<int>>, p: Cell) {
    IsOne(g, p) && forall q :: IsOne(g, q) ==> !Before(q, p)
  }

  /** The row-major first foreground cell of `g`, if any, has no foreground neighbour. */
  ghost predicate FirstIsolated(g: seq<seq<int>>) {
    forall p {:trigger IsFirstOne(g, p)} :: IsFirstOne(g, p) ==> !HasOneNeighbour(g, p)
  }

  /** `p` lies in the component of one of the `seeds`. */
  ghost predicate Covered(g: seq<seq<int>>, seeds: seq<Cell>, p: Cell) {
    exists k :: 0 <= k < |seeds| && Connected(g, seeds[k], p)
  }

  /** The label of the fill started at the `k`-th seed. */
  function LabelOf(first: int, step: int, k: nat): int {
    if k == 0 then first else LabelOf(first, step, k - 1) + step
  }

  /**
   * `g1` is `g0` labelled component by component: `seeds` lists the first
   * cell of every component, in row-major order, and the component of
   * `seeds[k]` carries the `k`-th label; every other cell keeps its value.
   */
  ghost predicate LabelledBy(g0: seq<seq<int>>, g1: seq<seq<int>>, seeds: seq<Cell>, first: int, step: int) {
    && SameShape(g0, g1)
    && (forall p :: InBounds(g0, p) && !IsOne(g0, p) ==> At(g1, p) == At(g0, p))
    && (forall k :: 0 <= k < |seeds| ==> IsLeader(g0, seeds[k]))
    && (forall k, k' :: 0 <= k < k' < |seeds| ==> Before(seeds[k], seeds[k']))
    && (forall p {:trigger IsLeader(g0, p)} :: IsLeader(g0, p) ==> p in seeds)
    && (forall k, p :: 0 <= k < |seeds| && InBounds(g0, p) && Connected(g0, seeds[k], p) ==>
          At(g1, p) == LabelOf(first, step, k))
    && (forall p {:trigger Covered(g0, seeds, p)} :: IsOne(g0, p) ==> Covered(g0, seeds, p))
  }

  /** The state of the scan: the grid's value and the cells where a fill started. */
  datatype Scan = Scan(grid: seq<seq<int>>, seeds: seq<Cell>)

  /** Visiting `pos`: a cell that still holds the sentinel starts a fill with the next label. */
  ghost function Visit(st: Scan, pos: Cell, first: int, step: int): Scan {
    if IsOne(st.grid, pos) then
      Scan(Filled(st.grid, pos, LabelOf(first, step, |st.seeds|)), st.seeds + [pos])
    else
      st
  }

  /** The scan of a grid `cols` wide once every cell before `(i, j)` was visited. */
  ghost function ScanTo(g0: seq<seq<int>>, cols: nat, first: int, step: int, i: nat, j: nat): Scan
    decreases i, j
  {
    if j > 0 then Visit(ScanTo(g0, cols, first, step, i, j - 1), (i, j - 1), first, step)
    else if i > 0 then ScanTo(g0, cols, first, step, i - 1, cols)
    else Scan(g0, [])
  }

  /** The whole scan; the width is that of the first row. */
  ghost function Labelling(g0: seq<seq<int>>, first: int, step: int): Scan
    requires |g0| >= 1
  {
    ScanTo(g0, |g0[0]|, first, step, |g0|, 0)
  }

  /**
   * The scan of `label_loops`.  The source reads the width from `grid[0]`, so
   * the grid has at least one row.  With the sentinel as the first label, the
   * first fill terminates only when the first foreground cell is isolated.
   */
  method LabelLoops(grid: array2<int>, first: int, step: int) returns (labelled: array2<int>, next: int)
    requires grid.Length0 >= 1
    requires first >= 1 && step >= 1
    requires first == Sentinel ==> FirstIsolated(Snapshot(grid))
    modifies grid
    ensures labelled == grid
    ensures Snapshot(grid) == Labelling(old(Snapshot(grid)), first, step).grid
    ensures next == LabelOf(first, step, |Labelling(old(Snapshot(grid)), first, step).seeds|)
  {
    var rows, cols := grid.Length0, grid.Length1;
    ghost var g0 := Snapshot(grid);
    var lab := first;
    for i := 0 to rows
      invariant Snapshot(grid) == ScanTo(g0, cols, first, step, i, 0).grid
      invariant lab == LabelOf(first, step, |ScanTo(g0, cols, first, step, i, 0).seeds|)
    {
      for j := 0 to cols
        invariant Snapshot(grid) == ScanTo(g0, cols, first, step, i, j).grid
        invariant lab == LabelOf(first, step, |ScanTo(g0, cols, first, step, i, j).seeds|)
      {
        ghost var st := ScanTo(g0, cols, first, step, i, j);
        assert ScanTo(g0, cols, first, step, i, j + 1) == Visit(st, (i, j), first, step);
        assert InBounds(st.grid, (i, j));
        if grid[i, j] == Sentinel {
          assert IsOne(st.grid, (i, j));
          FillAllowedAt(g0, cols, first, step, i, j);
          FloodFill.FloodFill(grid, i, j, lab);
          FillOfIsFilled(st.grid, Snapshot(grid), (i, j), lab);
          NextLabel(first, step, |st.seeds|);
          lab := lab + step;
          assert Snapshot(grid) == Visit(st, (i, j), first, step).grid;
          assert |Visit(st, (i, j), first, step).seeds| == |st.seeds| + 1;
        } else {
          assert !IsOne(st.grid, (i, j));
        }
      }
    }
    labelled := grid;
    next := lab;
  }

  /** Where the scan starts a fill, the flood fill's precondition holds. */
  lemma FillAllowedAt(g0: seq<seq<int>>, cols: nat, first: int, step: int, i: nat, j: nat)
    requires Rect(g0, cols) && i < |g0| && j < cols
    requires first >= 1 && step >= 1
    requires first == Sentinel ==> FirstIsolated(g0)
    requires IsOne(ScanTo(g0, cols, first, step, i, j).grid, (i, j))
    ensures var st := ScanTo(g0, cols, first, step, i, j);
      LabelOf(first, step, |st.seeds|) != Sentinel || !HasOneNeighbour(st.grid, (i, j))
  {
    ScanToInv(g0, cols, first, step, i, j);
    var st := ScanTo(g0, cols, first, step, i, j);
    FillAllowed(g0, st.grid, st.seeds, first, step, (i, j));
  }

  /**
   * What `label_loops` computes: every foreground component gets its own
   * label, the components numbered in the row-major order of their first
   * cells, and every other cell keeps its value.
   */
  lemma LabelsComponents(g0: seq<seq<int>>, first: int, step: int)
    requires |g0| >= 1 && Rect(g0, |g0[0]|)
    requires first >= 1 && step >= 1
    requires first == Sentinel ==> FirstIsolated(g0)
    ensures var st := Labelling(g0, first, step);
      LabelledBy(g0, st.grid, st.seeds, first, step)
  {
    ScanToInv(g0, |g0[0]|, first, step, |g0|, 0);
    var st := Labelling(g0, first, step);
    ScanDone(g0, st.grid, st.seeds, first, step);
  }

  // ---------------------------------------------------------------------
  // The invariant of the scan, in parts

  /** Only foreground cells changed, and edge-adjacent foreground cells still agree. */
  ghost predicate Frame(g0: seq<seq<int>>, g1: seq<seq<int>>) {
    && SameShape(g0, g1)
    && (forall p :: InBounds(g0, p) && !IsOne(g0, p) ==> At(g1, p) == At(g0, p))
    && AdjacentAgree(g0, g1)
  }

  /** Every foreground cell that no longer holds the sentinel lies in the component of a seed. */
  ghost predicate ChangedCovered(g0: seq<seq<int>>, g1: seq<seq<int>>, seeds: seq<Cell>) {
    forall p {:trigger Covered(g0, seeds, p)} :: IsOne(g0, p) && InBounds(g1, p) && At(g1, p) != Sentinel ==> Covered(g0, seeds, p)
  }

  /**
   * The seeds are, in row-major order, exactly the component leaders before
   * `pos`, and the first of them is the first foreground cell.
   */
  ghost predicate SeedsUpTo(g0: seq<seq<int>>, seeds: seq<Cell>, pos: Cell) {
    && (forall k :: 0 <= k < |seeds| ==> IsLeader(g0, seeds[k]) && Before(seeds[k], pos))
    && (forall k, k' :: 0 <= k < k' < |seeds| ==> Before(seeds[k], seeds[k']))
    && (forall p {:trigger IsLeader(g0, p)} :: IsLeader(g0, p) && Before(p, pos) ==> p in seeds)
    && (|seeds| > 0 ==> IsFirstOne(g0, seeds[0]))
  }

  /** The component of `seeds[k]` carries the `k`-th label. */
  ghost predicate SeedLabels(g0: seq<seq<int>>, g1: seq<seq<int>>, seeds: seq<Cell>, first: int, step: int) {
    forall k, p :: 0 <= k < |seeds| && InBounds(g1, p) && Connected(g0, seeds[k], p) ==>
      At(g1, p) == LabelOf(first, step, k)
  }

  /** Every foreground cell before `pos` lies in the component of a seed. */
  ghost predicate ScannedCovered(g0: seq<seq<int>>, seeds: seq<Cell>, pos: Cell) {
    forall p {:trigger Covered(g0, seeds, p)} :: IsOne(g0, p) && Before(p, pos) ==> Covered(g0, seeds, p)
  }

  ghost predicate ScanInv(g0: seq<seq<int>>, g1: seq<seq<int>>, seeds: seq<Cell>, first: int, step: int, pos: Cell) {
    && Frame(g0, g1)
    && ChangedCovered(g0, g1, seeds)
    && SeedsUpTo(g0, seeds, pos)
    && SeedLabels(g0, g1, seeds, first, step)
    && ScannedCovered(g0, seeds, pos)
  }

  /** Every prefix of the scan satisfies the invariant. */
  lemma {:induction false} ScanToInv(g0: seq<seq<int>>, cols: nat, first: int, step: int, i: nat, j: nat)
    requires Rect(g0, cols) && ((i < |g0| && j <= cols) || (i == |g0| && j == 0))
    requires first >= 1 && step >= 1
    requires first == Sentinel ==> FirstIsolated(g0)
    ensures var st := ScanTo(g0, cols, first, step, i, j);
      ScanInv(g0, st.grid, st.seeds, first, step, (i, j))
    decreases i, j
  {
    if j > 0 {
      ScanToInv(g0, cols, first, step, i, j - 1);
      var st := ScanTo(g0, cols, first, step, i, j - 1);
      if IsOne(st.grid, (i, j - 1)) {
        FillKeepsScan(g0, st.grid, st.seeds, first, step, (i, j - 1));
      } else {
        SkipKeepsScan(g0, st.grid, st.seeds, first, step, (i, j - 1));
      }
    } else if i > 0 {
      ScanToInv(g0, cols, first, step, i - 1, cols);
      var st := ScanTo(g0, cols, first, step, i - 1, cols);
      NextRow(g0, st.grid, st.seeds, first, step, i - 1, cols);
    } else {
      InitialScan(g0, first, step);
    }
  }

  lemma InitialScan(g0: seq<seq<int>>, first: int, step: int)
    ensures ScanInv(g0, g0, [], first, step, (0, 0))
  {
  }

  /** After the last row the invariant is the specification. */
  lemma ScanDone(g0: seq<seq<int>>, g1: seq<seq<int>>, seeds: seq<Cell>, first: int, step: int)
    requires ScanInv(g0, g1, seeds, first, step, (|g0|, 0))
    ensures LabelledBy(g0, g1, seeds, first, step)
  {
    AllSeedsFound(g0, seeds);
    AllCovered(g0, seeds);
  }

  /** After the last row every component leader is a seed. */
  lemma AllSeedsFound(g0: seq<seq<int>>, seeds: seq<Cell>)
    requires SeedsUpTo(g0, seeds, (|g0|, 0))
    ensures forall p {:trigger IsLeader(g0, p)} :: IsLeader(g0, p) ==> p in seeds
  {
    forall p | IsLeader(g0, p)
      ensures p in seeds
    {
      assert Before(p, (|g0|, 0));
    }
  }

  /** After the last row every foreground cell lies in the component of a seed. */
  lemma AllCovered(g0: seq<seq<int>>, seeds: seq<Cell>)
    requires ScannedCovered(g0, seeds, (|g0|, 0))
    ensures forall p {:trigger Covered(g0, seeds, p)} :: IsOne(g0, p) ==> Covered(g0, seeds, p)
  {
    forall p | IsOne(g0, p)
      ensures Covered(g0, seeds, p)
    {
      assert Before(p, (|g0|, 0));
    }
  }

  // ---------------------------------------------------------------------
  // Facts used by the steps

  /** Each fill's label is `step` above the previous one. */
  lemma NextLabel(first: int, step: int, k: nat)
    ensures LabelOf(first, step, k + 1) == LabelOf(first, step, k) + step
  {
  }

  /** With a positive step, the `k`-th label is at least `k` above the first. */
  lemma {:induction false} LabelsGrow(first: int, step: int, k: nat)
    requires step >= 1
    ensures LabelOf(first, step, k) >= first + k
  {
    if k > 0 {
      LabelsGrow(first, step, k - 1);
    }
  }

  /** Only the first label can equal the sentinel, and only when `first` is the sentinel. */
  lemma LabelIsSentinel(first: int, step: int, k: int)
    requires first >= 1 && step >= 1 && k >= 0 && LabelOf(first, step, k) == Sentinel
    ensures first == Sentinel && k == 0
  {
    LabelsGrow(first, step, k);
  }

  /** A grid that changed only foreground cells has no foreground cell the original lacks. */
  lemma OnesShrink(g0: seq<seq<int>>, g1: seq<seq<int>>)
    requires Frame(g0, g1)
    ensures OnesWithin(g1, g0)
  {
    forall p | IsOne(g1, p)
      ensures IsOne(g0, p)
    {
      assert InBounds(g0, p);
    }
  }

  /** With no seed yet, the cell the scan reached is the first foreground cell. */
  lemma NoSeedIsFirst(g0: seq<seq<int>>, pos: Cell)
    requires ScannedCovered(g0, [], pos) && IsOne(g0, pos)
    ensures IsFirstOne(g0, pos)
  {
    forall q | IsOne(g0, q)
      ensures !Before(q, pos)
    {
      assert Before(q, pos) ==> Covered(g0, [], q);
    }
  }

  /** A leader is not in the component of an earlier seed. */
  lemma LeaderNotCovered(g0: seq<seq<int>>, seeds: seq<Cell>, pos: Cell)
    requires IsLeader(g0, pos)
    requires forall k :: 0 <= k < |seeds| ==> Before(seeds[k], pos)
    ensures !Covered(g0, seeds, pos)
  {
  }

  /** A cell reached from a foreground cell scanned before `pos` carries the label of a seed. */
  lemma EarlierConnected(g0: seq<seq<int>>, g1: seq<seq<int>>, seeds: seq<Cell>, first: int, step: int,
                         pos: Cell, q: Cell, t: Cell) returns (k: int)
    requires Frame(g0, g1) && SeedLabels(g0, g1, seeds, first, step) && ScannedCovered(g0, seeds, pos)
    requires IsOne(g0, q) && Before(q, pos) && Connected(g0, q, t)
    ensures 0 <= k < |seeds| && Connected(g0, seeds[k], t)
    ensures InBounds(g1, t) && At(g1, t) == LabelOf(first, step, k)
  {
    assert Covered(g0, seeds, q);
    k :| 0 <= k < |seeds| && Connected(g0, seeds[k], q);
    ConnectedTrans(g0, seeds[k], q, t);
    ConnectedEnds(g0, seeds[k], t);
  }

  /** The cell where the scan starts a fill is the leader of its component. */
  lemma FoundIsLeader(g0: seq<seq<int>>, g1: seq<seq<int>>, seeds: seq<Cell>, first: int, step: int, pos: Cell)
    requires first >= 1 && step >= 1
    requires first == Sentinel ==> FirstIsolated(g0)
    requires Frame(g0, g1) && SeedsUpTo(g0, seeds, pos) && SeedLabels(g0, g1, seeds, first, step)
    requires ScannedCovered(g0, seeds, pos) && IsOne(g1, pos)
    ensures IsLeader(g0, pos)
  {
    OnesShrink(g0, g1);
    assert IsOne(g0, pos);
    forall q | Connected(g0, q, pos)
      ensures !Before(q, pos)
    {
      ConnectedEnds(g0, q, pos);
      if Before(q, pos) {
        var k := EarlierConnected(g0, g1, seeds, first, step, pos, q, pos);
        LabelIsSentinel(first, step, k);
        assert IsFirstOne(g0, seeds[0]);
        IsolatedConnectsOnlyItself(g0, seeds[0], pos);
        assert false;
      }
    }
  }

  /** The first label is the sentinel only when the seed is isolated, as the flood fill demands. */
  lemma FillAllowed(g0: seq<seq<int>>, g1: seq<seq<int>>, seeds: seq<Cell>, first: int, step: int, pos: Cell)
    requires first >= 1 && step >= 1
    requires first == Sentinel ==> FirstIsolated(g0)
    requires Frame(g0, g1) && ScannedCovered(g0, seeds, pos) && IsOne(g1, pos)
    ensures LabelOf(first, step, |seeds|) != Sentinel || !HasOneNeighbour(g1, pos)
  {
    if LabelOf(first, step, |seeds|) == Sentinel {
      LabelIsSentinel(first, step, |seeds|);
      OnesShrink(g0, g1);
      NoSeedIsFirst(g0, pos);
      assert !HasOneNeighbour(g0, pos);
    }
  }

  // ---------------------------------------------------------------------
  // A fill

  /** `g2` is `g1` with the component of `pos` in `g0` relabelled `lab`. */
  ghost predicate Relabel(g0: seq<seq<int>>, g1: seq<seq<int>>, g2: seq<seq<int>>, pos: Cell, lab: int) {
    SameShape(g0, g1) && SameShape(g0, g2) &&
    forall p :: InBounds(g0, p) ==> At(g2, p) == if Connected(g0, pos, p) then lab else At(g1, p)
  }

  /** The component of `pos` in the current grid is its component in the original grid. */
  lemma FillIsRelabel(g0: seq<seq<int>>, g1: seq<seq<int>>, pos: Cell, lab: int)
    requires Frame(g0, g1) && IsOne(g1, pos)
    ensures Relabel(g0, g1, Filled(g1, pos, lab), pos, lab)
  {
    var g2 := Filled(g1, pos, lab);
    OnesShrink(g0, g1);
    forall p | InBounds(g0, p)
      ensures At(g2, p) == if Connected(g0, pos, p) then lab else At(g1, p)
    {
      if Connected(g0, pos, p) {
        ConnectedKeptByAgreement(g0, g1, pos, p);
      } else if Connected(g1, pos, p) {
        ConnectedWithin(g1, g0, pos, p);
        assert false;
      }
    }
  }

  lemma FillKeepsFrame(g0: seq<seq<int>>, g1: seq<seq<int>>, g2: seq<seq<int>>, pos: Cell, lab: int)
    requires Frame(g0, g1) && Relabel(g0, g1, g2, pos, lab)
    ensures Frame(g0, g2)
  {
    forall p | InBounds(g0, p) && !IsOne(g0, p)
      ensures At(g2, p) == At(g0, p)
    {
      if Connected(g0, pos, p) {
        ConnectedEnds(g0, pos, p);
        assert false;
      }
    }
    forall p, q | Adjacent(p, q) && IsOne(g0, p) && IsOne(g0, q)
      ensures At(g2, p) == At(g2, q)
    {
      if Connected(g0, pos, p) {
        ConnectedExtend(g0, pos, p, q);
      } else if Connected(g0, pos, q) {
        ConnectedExtend(g0, pos, q, p);
        assert false;
      }
    }
  }

  lemma CoveredGrows(g0: seq<seq<int>>, seeds: seq<Cell>, pos: Cell, p: Cell)
    requires Covered(g0, seeds, p) || Connected(g0, pos, p)
    ensures Covered(g0, seeds + [pos], p)
  {
    var seeds' := seeds + [pos];
    if Connected(g0, pos, p) {
      assert Connected(g0, seeds'[|seeds|], p);
    } else {
      var k :| 0 <= k < |seeds| && Connected(g0, seeds[k], p);
      assert Connected(g0, seeds'[k], p);
    }
  }

  lemma FillKeepsChanged(g0: seq<seq<int>>, g1: seq<seq<int>>, g2: seq<seq<int>>, seeds: seq<Cell>, pos: Cell, lab: int)
    requires ChangedCovered(g0, g1, seeds) && Relabel(g0, g1, g2, pos, lab)
    ensures ChangedCovered(g0, g2, seeds + [pos])
  {
    forall p | IsOne(g0, p) && InBounds(g2, p) && At(g2, p) != Sentinel
      ensures Covered(g0, seeds + [pos], p)
    {
      if !Connected(g0, pos, p) {
        assert Covered(g0, seeds, p);
      }
      CoveredGrows(g0, seeds, pos, p);
    }
  }

  lemma FillKeepsScanned(g0: seq<seq<int>>, seeds: seq<Cell>, pos: Cell)
    requires ScannedCovered(g0, seeds, pos) && IsOne(g0, pos)
    ensures ScannedCovered(g0, seeds + [pos], (pos.0, pos.1 + 1))
  {
    ConnectedSelf(g0, pos);
    forall p | IsOne(g0, p) && Before(p, (pos.0, pos.1 + 1))
      ensures Covered(g0, seeds + [pos], p)
    {
      if p != pos {
        assert Covered(g0, seeds, p);
      }
      CoveredGrows(g0, seeds, pos, p);
    }
  }

  lemma FillKeepsSeeds(g0: seq<seq<int>>, seeds: seq<Cell>, pos: Cell)
    requires SeedsUpTo(g0, seeds, pos) && IsLeader(g0, pos)
    requires |seeds| == 0 ==> IsFirstOne(g0, pos)
    ensures SeedsUpTo(g0, seeds + [pos], (pos.0, pos.1 + 1))
  {
    var seeds' := seeds + [pos];
    assert seeds'[|seeds|] == pos;
    assert forall k :: 0 <= k < |seeds| ==> seeds'[k] == seeds[k];
  }

  lemma FillKeepsLabels(g0: seq<seq<int>>, g1: seq<seq<int>>, g2: seq<seq<int>>, seeds: seq<Cell>,
                        first: int, step: int, pos: Cell)
    requires SeedLabels(g0, g1, seeds, first, step)
    requires Relabel(g0, g1, g2, pos, LabelOf(first, step, |seeds|))
    requires IsLeader(g0, pos) && forall k :: 0 <= k < |seeds| ==> Before(seeds[k], pos)
    ensures SeedLabels(g0, g2, seeds + [pos], first, step)
  {
    var seeds' := seeds + [pos];
    forall k, p | 0 <= k < |seeds'| && InBounds(g2, p) && Connected(g0, seeds'[k], p)
      ensures At(g2, p) == LabelOf(first, step, k)
    {
      if k < |seeds| {
        assert seeds'[k] == seeds[k];
        if Connected(g0, pos, p) {
          ConnectedSym(g0, pos, p);
          ConnectedTrans(g0, seeds[k], p, pos);
          assert false;
        }
      }
    }
  }

  /** After the fill at `pos`, the invariant holds one cell further on. */
  lemma FillKeepsScan(g0: seq<seq<int>>, g1: seq<seq<int>>, seeds: seq<Cell>, first: int, step: int, pos: Cell)
    requires first >= 1 && step >= 1
    requires first == Sentinel ==> FirstIsolated(g0)
    requires ScanInv(g0, g1, seeds, first, step, pos) && IsOne(g1, pos)
    ensures ScanInv(g0, Filled(g1, pos, LabelOf(first, step, |seeds|)), seeds + [pos], first, step, (pos.0, pos.1 + 1))
  {
    var lab := LabelOf(first, step, |seeds|);
    var g2 := Filled(g1, pos, lab);
    FoundIsLeader(g0, g1, seeds, first, step, pos);
    FillIsRelabel(g0, g1, pos, lab);
    FillKeepsFrame(g0, g1, g2, pos, lab);
    FillKeepsChanged(g0, g1, g2, seeds, pos, lab);
    if |seeds| == 0 {
      NoSeedIsFirst(g0, pos);
    }
    FillKeepsSeeds(g0, seeds, pos);
    FillKeepsLabels(g0, g1, g2, seeds, first, step, pos);
    FillKeepsScanned(g0, seeds, pos);
  }

  // ---------------------------------------------------------------------
  // Passing over a cell, and the end of a row

  lemma SkipKeepsSeeds(g0: seq<seq<int>>, g1: seq<seq<int>>, seeds: seq<Cell>, pos: Cell)
    requires SeedsUpTo(g0, seeds, pos) && ChangedCovered(g0, g1, seeds) && Frame(g0, g1)
    requires InBounds(g0, pos) && !IsOne(g1, pos)
    ensures SeedsUpTo(g0, seeds, (pos.0, pos.1 + 1))
  {
    forall p | IsLeader(g0, p) && Before(p, (pos.0, pos.1 + 1))
      ensures p in seeds
    {
      if p == pos {
        LeaderNotCovered(g0, seeds, pos);
        assert false;
      }
    }
  }

  lemma SkipKeepsScanned(g0: seq<seq<int>>, g1: seq<seq<int>>, seeds: seq<Cell>, pos: Cell)
    requires ScannedCovered(g0, seeds, pos) && ChangedCovered(g0, g1, seeds) && Frame(g0, g1)
    requires InBounds(g0, pos) && !IsOne(g1, pos)
    ensures ScannedCovered(g0, seeds, (pos.0, pos.1 + 1))
  {
    forall p | IsOne(g0, p) && Before(p, (pos.0, pos.1 + 1))
      ensures Covered(g0, seeds, p)
    {
      assert At(g1, pos) != Sentinel;
    }
  }

  /** Passing over a cell that no longer holds the sentinel keeps the invariant. */
  lemma SkipKeepsScan(g0: seq<seq<int>>, g1: seq<seq<int>>, seeds: seq<Cell>, first: int, step: int, pos: Cell)
    requires ScanInv(g0, g1, seeds, first, step, pos)
    requires InBounds(g0, pos) && !IsOne(g1, pos)
    ensures ScanInv(g0, g1, seeds, first, step, (pos.0, pos.1 + 1))
  {
    SkipKeepsSeeds(g0, g1, seeds, pos);
    SkipKeepsScanned(g0, g1, seeds, pos);
  }

  lemma NextRowSeeds(g0: seq<seq<int>>, seeds: seq<Cell>, i: int, cols: int)
    requires Rect(g0, cols) && SeedsUpTo(g0, seeds, (i, cols))
    ensures SeedsUpTo(g0, seeds, (i + 1, 0))
  {
    forall k | 0 <= k < |seeds|
      ensures Before(seeds[k], (i + 1, 0))
    {
      assert IsOne(g0, seeds[k]);
    }
    forall p | IsLeader(g0, p) && Before(p, (i + 1, 0))
      ensures p in seeds
    {
      assert Before(p, (i, cols));
    }
  }

  lemma NextRowScanned(g0: seq<seq<int>>, seeds: seq<Cell>, i: int, cols: int)
    requires Rect(g0, cols) && ScannedCovered(g0, seeds, (i, cols))
    ensures ScannedCovered(g0, seeds, (i + 1, 0))
  {
    forall p | IsOne(g0, p) && Before(p, (i + 1, 0))
      ensures Covered(g0, seeds, p)
    {
      assert Before(p, (i, cols));
    }
  }

  /** At the end of a row the scan continues at the start of the next one. */
  lemma NextRow(g0: seq<seq<int>>, g1: seq<seq<int>>, seeds: seq<Cell>, first: int, step: int, i: int, cols: int)
    requires Rect(g0, cols) && ScanInv(g0, g1, seeds, first, step, (i, cols))
    ensures ScanInv(g0, g1, seeds, first, step, (i + 1, 0))
  {
    NextRowSeeds(g0, seeds, i, cols);
    NextRowScanned(g0, seeds, i, cols);
  }

  // ---------------------------------------------------------------------
  // What the labelling means

  /** The recursive label counter is the closed form `first + k * step`. */
  lemma {:induction false} LabelOfIsLinear(first: int, step: int, k: nat)
    ensures LabelOf(first, step, k) == first + k * step
  {
    if k > 0 {
      LabelOfIsLinear(first, step, k - 1);
    }
  }

  /** With a positive step, later components get strictly larger labels. */
  lemma {:induction false} LabelsIncrease(first: int, step: int, k: nat, k': nat)
    requires step >= 1 && k < k'
    ensures LabelOf(first, step, k) < LabelOf(first, step, k')
    decreases k'
  {
    if k < k' - 1 {
      LabelsIncrease(first, step, k, k' - 1);
    }
  }

  /** The index of the seed whose component holds the foreground cell `p`, and its label. */
  lemma SeedOf(g0: seq<seq<int>>, g1: seq<seq<int>>, seeds: seq<Cell>, first: int, step: int, p: Cell)
    returns (k: nat)
    requires LabelledBy(g0, g1, seeds, first, step) && IsOne(g0, p)
    ensures k < |seeds| && Connected(g0, seeds[k], p)
    ensures InBounds(g1, p) && At(g1, p) == LabelOf(first, step, k)
  {
    assert Covered(g0, seeds, p);
    k :| 0 <= k < |seeds| && Connected(g0, seeds[k], p);
  }

  /**
   * Two foreground cells get the same label exactly when a 4-connected path
   * of foreground cells joins them.
   */
  lemma SameLabelIffConnected(g0: seq<seq<int>>, first: int, step: int, p: Cell, q: Cell)
    requires |g0| >= 1 && Rect(g0, |g0[0]|)
    requires first >= 1 && step >= 1
    requires first == Sentinel ==> FirstIsolated(g0)
    requires IsOne(g0, p) && IsOne(g0, q)
    ensures var g1 := Labelling(g0, first, step).grid;
      InBounds(g1, p) && InBounds(g1, q) && (At(g1, p) == At(g1, q) <==> Connected(g0, p, q))
  {
    LabelsComponents(g0, first, step);
    var st := Labelling(g0, first, step);
    var k := SeedOf(g0, st.grid, st.seeds, first, step, p);
    var k' := SeedOf(g0, st.grid, st.seeds, first, step, q);
    if Connected(g0, p, q) {
      ConnectedTrans(g0, st.seeds[k], p, q);
      assert At(st.grid, q) == LabelOf(first, step, k);
    }
    if At(st.grid, p) == At(st.grid, q) {
      if k < k' {
        LabelsIncrease(first, step, k, k');
      } else if k' < k {
        LabelsIncrease(first, step, k', k);
      }
      assert k == k';
      ConnectedSym(g0, st.seeds[k], p);
      ConnectedTrans(g0, p, st.seeds[k], q);
    }
  }

  /** A component's first cell is a seed, and its label is that seed's. */
  lemma LeaderIsSeed(g0: seq<seq<int>>, g1: seq<seq<int>>, seeds: seq<Cell>, first: int, step: int, p: Cell)
    returns (k: nat)
    requires LabelledBy(g0, g1, seeds, first, step) && IsLeader(g0, p)
    ensures k < |seeds| && seeds[k] == p
    ensures InBounds(g1, p) && At(g1, p) == LabelOf(first, step, k)
  {
    assert p in seeds;
    k :| 0 <= k < |seeds| && seeds[k] == p;
    ConnectedSelf(g0, p);
  }

  /**
   * Labels follow the row-major order of the components' first cells: a
   * component whose first cell comes earlier gets a smaller label.
   */
  lemma LabelsInScanOrder(g0: seq<seq<int>>, first: int, step: int, p: Cell, q: Cell)
    requires |g0| >= 1 && Rect(g0, |g0[0]|)
    requires first >= 1 && step >= 1
    requires first == Sentinel ==> FirstIsolated(g0)
    requires IsLeader(g0, p) && IsLeader(g0, q) && Before(p, q)
    ensures var g1 := Labelling(g0, first, step).grid;
      InBounds(g1, p) && InBounds(g1, q) && At(g1, p) < At(g1, q)
  {
    LabelsComponents(g0, first, step);
    var st := Labelling(g0, first, step);
    var k := LeaderIsSeed(g0, st.grid, st.seeds, first, step, p);
    var k' := LeaderIsSeed(g0, st.grid, st.seeds, first, step, q);
    assert k' < k ==> Before(st.seeds[k'], st.seeds[k]);
    LabelsIncrease(first, step, k, k');
  }

  /** The component of the first foreground cell gets the first label. */
  lemma FirstComponentGetsFirst(g0: seq<seq<int>>, first: int, step: int, p: Cell)
    requires |g0| >= 1 && Rect(g0, |g0[0]|)
    requires first >= 1 && step >= 1
    requires first == Sentinel ==> FirstIsolated(g0)
    requires IsFirstOne(g0, p)
    ensures var g1 := Labelling(g0, first, step).grid;
      InBounds(g1, p) && At(g1, p) == first
  {
    LabelsComponents(g0, first, step);
    var st := Labelling(g0, first, step);
    forall q | Connected(g0, q, p)
      ensures !Before(q, p)
    {
      ConnectedEnds(g0, q, p);
    }
    var k := LeaderIsSeed(g0, st.grid, st.seeds, first, step, p);
    assert IsOne(g0, st.seeds[0]);
  }

  /**
   * With a first label above the sentinel, no cell holds the sentinel once the
   * scan is done: every component was found and filled.
   */
  lemma NoSentinelLeft(g0: seq<seq<int>>, first: int, step: int)
    requires |g0| >= 1 && Rect(g0, |g0[0]|)
    requires first > Sentinel && step >= 1
    ensures var g1 := Labelling(g0, first, step).grid;
      SameShape(g0, g1) && forall p :: InBounds(g1, p) ==> At(g1, p) != Sentinel
  {
    LabelsComponents(g0, first, step);
    var st := Labelling(g0, first, step);
    forall p | InBounds(st.grid, p)
      ensures At(st.grid, p) != Sentinel
    {
      if IsOne(g0, p) {
        var k := SeedOf(g0, st.grid, st.seeds, first, step, p);
        LabelsGrow(first, step, k);
      }
    }
  }

  /**
   * The label counter after the scan: one step per component, so with step 1
   * it exceeds the first label by the number of components.
   */
  lemma CounterCountsComponents(g0: seq<seq<int>>, first: int, step: int)
    requires |g0| >= 1 && Rect(g0, |g0[0]|)
    requires first >= 1 && step >= 1
    requires first == Sentinel ==> FirstIsolated(g0)
    ensures var st := Labelling(g0, first, step);
      LabelOf(first, step, |st.seeds|) == first + |st.seeds| * step &&
      (forall k :: 0 <= k < |st.seeds| ==> IsLeader(g0, st.seeds[k])) &&
      (forall k, k' :: 0 <= k < k' < |st.seeds| ==> st.seeds[k] != st.seeds[k']) &&
      (forall p {:trigger IsLeader(g0, p)} :: IsLeader(g0, p) ==> p in st.seeds)
  {
    LabelsComponents(g0, first, step);
    var st := Labelling(g0, first, step);
    LabelOfIsLinear(first, step, |st.seeds|);
  }
}
