/**
 * loopfinding.py: `label_loops` with first label 11 and step 1.  Every label
 * is above the sentinel, so each flood fill terminates and no foreground
 * cell is left unlabelled.
 */
module LoopFinding {
  import opened Grid
  import L = LabelLoops

  const FirstLabel: int := 11
  const Step: int := 1

  /**
   * Labels the grid in place and returns it.  The source indexes `grid[0]`,
   * so the grid has a row.
   */
  method LabelLoops(grid: array2<int>) returns (labelled: array2<int>)
    requires grid.Length0 >= 1
    modifies grid
    ensures labelled == grid
    ensures Snapshot(grid) == L.Labelling(old(Snapshot(grid)), FirstLabel, Step).grid
    ensures forall i, j :: 0 <= i < grid.Length0 && 0 <= j < grid.Length1 ==> grid[i, j] != Sentinel
  {
    ghost var g0 := Snapshot(grid);
    assert Rect(g0, |g0[0]|);
    var next;
    labelled, next := L.LabelLoops(grid, FirstLabel, Step);
    L.NoSentinelLeft(g0, FirstLabel, Step);
    forall i, j | 0 <= i < grid.Length0 && 0 <= j < grid.Length1
      ensures grid[i, j] != Sentinel
    {
      assert InBounds(Snapshot(grid), (i, j));
    }
  }

  /** Diagonal neighbours are not connected: `[[1, 0], [0, 1]]` gets two labels. */
  lemma DiagonalCellsApart()
    ensures var g1 := L.Labelling([[1, 0], [0, 1]], FirstLabel, Step).grid;
      InBounds(g1, (0, 0)) && InBounds(g1, (1, 1)) && At(g1, (0, 0)) != At(g1, (1, 1))
  {
    var g0 := [[1, 0], [0, 1]];
    assert IsOne(g0, (0, 0)) && IsOne(g0, (1, 1));
    assert !HasOneNeighbour(g0, (0, 0));
    if Connected(g0, (0, 0), (1, 1)) {
      IsolatedConnectsOnlyItself(g0, (0, 0), (1, 1));
      assert false;
    }
    L.SameLabelIffConnected(g0, FirstLabel, Step, (0, 0), (1, 1));
  }

  /** A ring of eight foreground cells around a background centre. */
  function SmallRing(): seq<seq<int>> {
    [[1, 1, 1], [1, 0, 1], [1, 1, 1]]
  }

  /** Every foreground cell of the small ring is joined to its corner. */
  lemma SmallRingConnected(p: Cell)
    requires IsOne(SmallRing(), p)
    ensures Connected(SmallRing(), (0, 0), p)
  {
    var g := SmallRing();
    RowConnected(g, 0, 0, 2);
    ColumnConnected(g, 0, 0, 2);
    ColumnConnected(g, 2, 0, 2);
    RowConnected(g, 2, 0, 2);
    if p.0 == 2 {
      ConnectedTrans(g, (0, 0), (2, 0), p);
    } else if p.1 == 2 {
      ConnectedTrans(g, (0, 0), (0, 2), p);
    }
  }

  /** The corner is the small ring's first foreground cell and the first cell of its component. */
  lemma SmallRingCorner()
    ensures L.IsFirstOne(SmallRing(), (0, 0)) && L.IsLeader(SmallRing(), (0, 0))
  {
    var g := SmallRing();
    forall q | Connected(g, q, (0, 0))
      ensures !Before(q, (0, 0))
    {
      ConnectedEnds(g, q, (0, 0));
    }
  }

  /**
   * Entry `k` of `s`, or the origin when there is none.  Being total, it can
   * name the first two entries of a sequence that may be shorter, which lets
   * the verifier instantiate the requires of AtMostOneDistinct at 0 and 1.
   */
  function Nth(s: seq<Cell>, k: int): Cell {
    if 0 <= k < |s| then s[k] else (0, 0)
  }

  /** A sequence of distinct cells that are all `c` has at most one entry. */
  lemma AtMostOneDistinct(s: seq<Cell>, c: Cell)
    requires forall k :: 0 <= k < |s| ==> s[k] == c
    requires forall k, k' :: 0 <= k < k' < |s| ==> s[k] != s[k']
    ensures |s| <= 1
  {
    // mentioning the first two entries instantiates both requires at 0 and 1:
    // if there were two entries they would be equal to `c` and distinct
    var first, second := Nth(s, 0), Nth(s, 1);
  }

  /** The scan of the small ring starts exactly one fill, at the corner. */
  lemma SmallRingOneSeed()
    ensures |L.Labelling(SmallRing(), FirstLabel, Step).seeds| == 1
  {
    var g := SmallRing();
    assert Rect(g, 3);
    L.CounterCountsComponents(g, FirstLabel, Step);
    var st := L.Labelling(g, FirstLabel, Step);
    SmallRingCorner();
    forall k | 0 <= k < |st.seeds|
      ensures st.seeds[k] == (0, 0)
    {
      SmallRingConnected(st.seeds[k]);
    }
    assert (0, 0) in st.seeds;
    AtMostOneDistinct(st.seeds, (0, 0));
  }

  /** On the small ring `label_loops` finds one component and gives all eight cells the first label. */
  lemma SmallRingLabels()
    ensures var st := L.Labelling(SmallRing(), FirstLabel, Step);
      && |st.seeds| == 1
      && forall p :: IsOne(SmallRing(), p) ==> InBounds(st.grid, p) && At(st.grid, p) == FirstLabel
  {
    var g := SmallRing();
    assert Rect(g, 3);
    var g1 := L.Labelling(g, FirstLabel, Step).grid;
    SmallRingOneSeed();
    SmallRingCorner();
    L.FirstComponentGetsFirst(g, FirstLabel, Step, (0, 0));
    forall p | IsOne(g, p)
      ensures InBounds(g1, p) && At(g1, p) == FirstLabel
    {
      SmallRingConnected(p);
      L.SameLabelIffConnected(g, FirstLabel, Step, (0, 0), p);
    }
  }

  // ---------------------------------------------------------------------
  // The example at the bottom of loopfinding.py

  /** The example grid: an outer frame of ones with a few spurs, and a ring of ones inside. */
  function Example(): seq<seq<int>> {
    [
      [1, 1, 1, 1, 1, 1, 1, 1, 1],
      [1, 0, 0, 0, 0, 1, 1, 1, 1],
      [1, 1, 0, 0, 0, 0, 0, 0, 1],
      [1, 0, 0, 1, 1, 1, 0, 1, 1],
      [1, 1, 0, 1, 0, 1, 0, 0, 1],
      [1, 1, 0, 1, 1, 1, 0, 0, 1],
      [1, 0, 0, 0, 0, 0, 0, 1, 1],
      [1, 1, 1, 1, 1, 1, 1, 1, 1]
    ]
  }

  /** The inner ring, rows 3 to 5 and columns 3 to 5 without the centre. */
  const Ring: set<Cell> := {(3, 3), (3, 4), (3, 5), (4, 3), (4, 5), (5, 3), (5, 4), (5, 5)}

  /** Zeros surround the ring: no path leaves it. */
  lemma RingClosed()
    ensures ClosedUnder(Example(), Ring)
  {
  }

  /** `(3, 3)` is the ring's first cell in scan order. */
  lemma RingNotBefore(p: Cell)
    ensures p in Ring ==> !Before(p, (3, 3))
  {
  }

  /** A grid whose ring cells are all foreground (the example is one). */
  ghost predicate RingShape(g: seq<seq<int>>) {
    forall p :: p in Ring ==> IsOne(g, p)
  }

  lemma RingConnected(g: seq<seq<int>>, p: Cell)
    requires RingShape(g) && p in Ring
    ensures Connected(g, (3, 3), p)
  {
    assert IsOne(g, (3, 4)) && IsOne(g, (3, 5)) && IsOne(g, (4, 3)) && IsOne(g, (4, 5));
    assert IsOne(g, (5, 3)) && IsOne(g, (5, 4)) && IsOne(g, (5, 5));
    RowConnected(g, 3, 3, 5);
    ConnectedExtend(g, (3, 3), (3, 3), (4, 3));
    ConnectedExtend(g, (3, 3), (4, 3), (5, 3));
    ConnectedExtend(g, (3, 3), (3, 5), (4, 5));
    ConnectedExtend(g, (3, 3), (4, 5), (5, 5));
    ConnectedExtend(g, (3, 3), (5, 5), (5, 4));
  }

  /**
   * A grid whose outer rows and columns are foreground, with foreground
   * spurs at the cells where the example has them.
   */
  ghost predicate FrameShape(g: seq<seq<int>>) {
    && (forall j :: 0 <= j <= 8 ==> IsOne(g, (0, j)) && IsOne(g, (7, j)))
    && (forall i :: 0 <= i <= 7 ==> IsOne(g, (i, 0)) && IsOne(g, (i, 8)))
    && IsOne(g, (1, 5)) && IsOne(g, (1, 6)) && IsOne(g, (1, 7))
    && IsOne(g, (2, 1)) && IsOne(g, (4, 1)) && IsOne(g, (5, 1))
    && IsOne(g, (3, 7)) && IsOne(g, (6, 7))
  }

  lemma ExampleShape()
    ensures FrameShape(Example()) && RingShape(Example())
  {
  }

  lemma TopRowConnected(g: seq<seq<int>>)
    requires FrameShape(g)
    ensures forall j :: 0 <= j <= 8 ==> Connected(g, (0, 0), (0, j))
  {
    RowConnected(g, 0, 0, 8);
  }

  lemma LeftColumnConnected(g: seq<seq<int>>)
    requires FrameShape(g)
    ensures forall i :: 0 <= i <= 7 ==> Connected(g, (0, 0), (i, 0))
  {
    ColumnConnected(g, 0, 0, 7);
  }

  lemma RightColumnConnected(g: seq<seq<int>>)
    requires FrameShape(g)
    ensures forall i :: 0 <= i <= 7 ==> Connected(g, (0, 0), (i, 8))
  {
    TopRowConnected(g);
    ColumnConnected(g, 8, 0, 7);
    forall i | 0 <= i <= 7
      ensures Connected(g, (0, 0), (i, 8))
    {
      ConnectedTrans(g, (0, 0), (0, 8), (i, 8));
    }
  }

  lemma BottomRowConnected(g: seq<seq<int>>)
    requires FrameShape(g)
    ensures forall j :: 0 <= j <= 8 ==> Connected(g, (0, 0), (7, j))
  {
    LeftColumnConnected(g);
    RowConnected(g, 7, 0, 8);
    forall j | 0 <= j <= 8
      ensures Connected(g, (0, 0), (7, j))
    {
      ConnectedTrans(g, (0, 0), (7, 0), (7, j));
    }
  }

  /** The cells that stick into the frame's inside are joined to it. */
  lemma SpursConnected(g: seq<seq<int>>)
    requires FrameShape(g)
    ensures Connected(g, (0, 0), (1, 5)) && Connected(g, (0, 0), (1, 6)) && Connected(g, (0, 0), (1, 7))
    ensures Connected(g, (0, 0), (2, 1)) && Connected(g, (0, 0), (4, 1)) && Connected(g, (0, 0), (5, 1))
    ensures Connected(g, (0, 0), (3, 7)) && Connected(g, (0, 0), (6, 7))
  {
    TopRowConnected(g);
    LeftColumnConnected(g);
    RightColumnConnected(g);
    ConnectedExtend(g, (0, 0), (0, 5), (1, 5));
    ConnectedExtend(g, (0, 0), (0, 6), (1, 6));
    ConnectedExtend(g, (0, 0), (0, 7), (1, 7));
    ConnectedExtend(g, (0, 0), (2, 0), (2, 1));
    ConnectedExtend(g, (0, 0), (4, 0), (4, 1));
    ConnectedExtend(g, (0, 0), (5, 0), (5, 1));
    ConnectedExtend(g, (0, 0), (3, 8), (3, 7));
    ConnectedExtend(g, (0, 0), (6, 8), (6, 7));
  }

  /** The foreground cells of the example off the ring: the frame and its spurs. */
  lemma FrameCells(p: Cell)
    requires IsOne(Example(), p) && p !in Ring
    ensures p.0 == 0 || p.0 == 7 || p.1 == 0 || p.1 == 8 ||
      p in {(1, 5), (1, 6), (1, 7), (2, 1), (3, 7), (4, 1), (5, 1), (6, 7)}
  {
  }

  /** Every foreground cell of the example off the ring is joined to the corner `(0, 0)`. */
  lemma FrameConnected(p: Cell)
    requires IsOne(Example(), p) && p !in Ring
    ensures Connected(Example(), (0, 0), p)
  {
    FrameCells(p);
    ExampleShape();
    FrameReaches(Example(), p);
  }

  lemma FrameReaches(g: seq<seq<int>>, p: Cell)
    requires FrameShape(g)
    requires p.0 == 0 || p.0 == 7 || p.1 == 0 || p.1 == 8 ||
      p in {(1, 5), (1, 6), (1, 7), (2, 1), (3, 7), (4, 1), (5, 1), (6, 7)}
    requires InBounds(g, p) && |g| == 8 && |g[p.0]| == 9
    ensures Connected(g, (0, 0), p)
  {
    TopRowConnected(g);
    LeftColumnConnected(g);
    RightColumnConnected(g);
    BottomRowConnected(g);
    SpursConnected(g);
  }

  /** A component's first cell that comes before the ring's is the corner. */
  lemma EarlierLeaderIsCorner(p: Cell)
    requires L.IsLeader(Example(), p) && Before(p, (3, 3))
    ensures p == (0, 0)
  {
    RingNotBefore(p);
    FrameConnected(p);
    assert !Before((0, 0), p);
  }

  lemma CornerIsLeader()
    ensures L.IsLeader(Example(), (0, 0))
  {
    forall q | Connected(Example(), q, (0, 0))
      ensures !Before(q, (0, 0))
    {
      ConnectedEnds(Example(), q, (0, 0));
    }
  }

  lemma RingIsLeader()
    ensures L.IsLeader(Example(), (3, 3))
  {
    RingClosed();
    forall q | Connected(Example(), q, (3, 3))
      ensures !Before(q, (3, 3))
    {
      ConnectedSym(Example(), q, (3, 3));
      ClosedHoldsComponent(Example(), Ring, (3, 3), q);
      RingNotBefore(q);
    }
  }

  /** The ring is the second component in scan order, so it gets label 12. */
  lemma RingLabel()
    ensures var g1 := L.Labelling(Example(), FirstLabel, Step).grid;
      InBounds(g1, (3, 3)) && At(g1, (3, 3)) == 12
  {
    var g := Example();
    L.LabelsComponents(g, FirstLabel, Step);
    var st := L.Labelling(g, FirstLabel, Step);
    RingIsLeader();
    CornerIsLeader();
    var k := L.LeaderIsSeed(g, st.grid, st.seeds, FirstLabel, Step, (3, 3));
    var m := L.LeaderIsSeed(g, st.grid, st.seeds, FirstLabel, Step, (0, 0));
    forall k0 | 0 <= k0 < k
      ensures st.seeds[k0] == (0, 0)
    {
      EarlierLeaderIsCorner(st.seeds[k0]);
    }
    assert m < k;
    assert st.seeds[0] == (0, 0);
    assert st.seeds[k - 1] == (0, 0);
  }

  /** Cells joined by a path of foreground cells get the same label. */
  lemma JoinedLabel(g: seq<seq<int>>, s: Cell, p: Cell)
    requires |g| >= 1 && Rect(g, |g[0]|) && Connected(g, s, p)
    ensures var g1 := L.Labelling(g, FirstLabel, Step).grid;
      InBounds(g1, s) && InBounds(g1, p) && At(g1, p) == At(g1, s)
  {
    ConnectedEnds(g, s, p);
    L.SameLabelIffConnected(g, FirstLabel, Step, s, p);
  }

  /** Background cells keep their value. */
  lemma BackgroundKept(g: seq<seq<int>>, p: Cell)
    requires |g| >= 1 && Rect(g, |g[0]|) && InBounds(g, p) && !IsOne(g, p)
    ensures var g1 := L.Labelling(g, FirstLabel, Step).grid;
      InBounds(g1, p) && At(g1, p) == At(g, p)
  {
    L.LabelsComponents(g, FirstLabel, Step);
  }

  /** The example holds only zeros and ones, in eight rows of nine. */
  lemma ExampleBinary()
    ensures |Example()| == 8 && Rect(Example(), 9)
    ensures forall p :: InBounds(Example(), p) ==> At(Example(), p) == 0 || At(Example(), p) == 1
  {
  }

  /**
   * On the example, `label_loops` gives the frame and its spurs label 11 and
   * the ring label 12, and leaves every zero as it is.
   */
  lemma ExampleLabels()
    ensures var g1 := L.Labelling(Example(), FirstLabel, Step).grid;
      && (forall p :: InBounds(Example(), p) && !IsOne(Example(), p) ==> InBounds(g1, p) && At(g1, p) == 0)
      && (forall p :: IsOne(Example(), p) && p !in Ring ==> InBounds(g1, p) && At(g1, p) == 11)
      && (forall p :: p in Ring ==> InBounds(g1, p) && At(g1, p) == 12)
  {
    var g := Example();
    var g1 := L.Labelling(g, FirstLabel, Step).grid;
    ExampleBinary();
    ExampleShape();
    assert L.IsFirstOne(g, (0, 0));
    L.FirstComponentGetsFirst(g, FirstLabel, Step, (0, 0));
    RingLabel();
    forall p | InBounds(g, p) && !IsOne(g, p)
      ensures InBounds(g1, p) && At(g1, p) == 0
    {
      BackgroundKept(g, p);
    }
    forall p | IsOne(g, p) && p !in Ring
      ensures InBounds(g1, p) && At(g1, p) == 11
    {
      FrameConnected(p);
      JoinedLabel(g, (0, 0), p);
    }
    forall p | p in Ring
      ensures InBounds(g1, p) && At(g1, p) == 12
    {
      RingConnected(g, p);
      JoinedLabel(g, (3, 3), p);
    }
  }
}
