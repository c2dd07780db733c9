/**
 * The nested `flood_fill` of `label_loops`: an explicit-stack, 4-connected
 * flood fill that overwrites every sentinel cell reachable from a seed with
 * one label.  The same function appears in loopfinding.py and MODEL3.py; it
 * is modelled once here, with the label as a parameter.
 */
module FloodFill {
  import opened Grid

  /** Cells the fill has labelled: foreground in `g0`, no longer foreground in `g1`. */
  ghost predicate Marked(g0: seq<seq<int>>, g1: seq<seq<int>>, p: Cell) {
    IsOne(g0, p) && InBounds(g1, p) && At(g1, p) != Sentinel
  }

  /**
   * `g1` is `g0` with the 4-connected foreground component of `s` overwritten
   * by `lab`; every other cell keeps its value.
   */
  ghost predicate FillOf(g0: seq<seq<int>>, g1: seq<seq<int>>, s: Cell, lab: int) {
    SameShape(g0, g1) &&
    forall p :: InBounds(g0, p) ==> At(g1, p) == if Connected(g0, s, p) then lab else At(g0, p)
  }

  /** The grid `FillOf` describes, as a value. */
  ghost function Filled(g0: seq<seq<int>>, s: Cell, lab: int): (g1: seq<seq<int>>)
    ensures FillOf(g0, g1, s, lab)
  {
    seq(|g0|, i requires 0 <= i < |g0| =>
      seq(|g0[i]|, j requires 0 <= j < |g0[i]| => if Connected(g0, s, (i, j)) then lab else g0[i][j]))
  }

  /** `FillOf` determines the filled grid. */
  lemma FillOfIsFilled(g0: seq<seq<int>>, g1: seq<seq<int>>, s: Cell, lab: int)
    requires FillOf(g0, g1, s, lab)
    ensures g1 == Filled(g0, s, lab)
  {
    var f := Filled(g0, s, lab);
    forall i | 0 <= i < |g1|
      ensures g1[i] == f[i]
    {
      forall j | 0 <= j < |g1[i]|
        ensures g1[i][j] == f[i][j]
      {
        assert InBounds(g0, (i, j));
      }
    }
  }

  /** The only cells that differ between `g0` and `g1` were sentinels and now hold `lab`. */
  ghost predicate WritesOnly(g0: seq<seq<int>>, g1: seq<seq<int>>, lab: int) {
    SameShape(g0, g1) &&
    forall p :: InBounds(g0, p) ==> At(g1, p) == At(g0, p) || (IsOne(g0, p) && At(g1, p) == lab)
  }

  /** Every foreground neighbour of a marked cell is marked too. */
  ghost predicate MarksClosed(g0: seq<seq<int>>, g1: seq<seq<int>>) {
    forall p, q :: Marked(g0, g1, p) && Adjacent(p, q) && IsOne(g0, q) ==> Marked(g0, g1, q)
  }

  lemma {:induction false} MarksCoverPath(g0: seq<seq<int>>, g1: seq<seq<int>>, path: seq<Cell>, k: nat)
    requires MarksClosed(g0, g1) && IsOnePath(g0, path) && Marked(g0, g1, path[0]) && k < |path|
    ensures Marked(g0, g1, path[k])
  {
    if k > 0 {
      MarksCoverPath(g0, g1, path, k - 1);
      assert Adjacent(path[k - 1], path[k]) && IsOne(g0, path[k]);
    }
  }

  /** A closed set of marks that holds the seed holds its whole component. */
  lemma MarksCoverComponent(g0: seq<seq<int>>, g1: seq<seq<int>>, s: Cell, t: Cell)
    requires MarksClosed(g0, g1) && Marked(g0, g1, s) && Connected(g0, s, t)
    ensures Marked(g0, g1, t)
  {
    var path :| IsOnePath(g0, path) && path[0] == s && path[|path| - 1] == t;
    MarksCoverPath(g0, g1, path, |path| - 1);
  }

  /**
   * The loop invariant of FloodFill, over the grid `g0` before the fill and
   * the grid `g1` now: only sentinels were overwritten, and only by `lab`;
   * every labelled cell is connected to the seed, and so is every cell that
   * pushed a stack entry; every foreground neighbour of a labelled cell is
   * still on the stack; the seed is on the stack or labelled; and every
   * foreground cell the stack may still label lies in `remaining`, the
   * termination measure.
   */
  ghost predicate FillInv(g0: seq<seq<int>>, g1: seq<seq<int>>, seed: Cell, lab: int,
                          stack: seq<Cell>, from: seq<Cell>, remaining: set<Cell>)
  {
    && |from| == |stack|
    && WritesOnly(g0, g1, lab)
    && (forall p :: Marked(g0, g1, p) ==> Connected(g0, seed, p))
    && (forall k :: 0 <= k < |stack| ==>
          stack[k] == seed || (Connected(g0, seed, from[k]) && Adjacent(from[k], stack[k])))
    && (lab != Sentinel ==>
          forall p, q :: Marked(g0, g1, p) && Adjacent(p, q) && IsOne(g1, q) ==> q in stack)
    && (lab != Sentinel && IsOne(g0, seed) ==> seed in stack || Marked(g0, g1, seed))
    && (forall k :: 0 <= k < |stack| && IsOne(g1, stack[k]) ==> stack[k] in remaining)
    && (lab != Sentinel ==> forall p :: IsOne(g1, p) ==> p in remaining)
    && (lab == Sentinel ==>
          (!IsOne(g0, seed) || !HasOneNeighbour(g0, seed)) &&
          (stack == [seed] || forall k :: 0 <= k < |stack| ==> !IsOne(g1, stack[k])))
  }

  /**
   * The flood fill.  It pops the top of the stack; a position inside the grid
   * that still holds the sentinel gets `lab` and its four neighbours are
   * pushed.  Positions outside the grid are popped and never indexed.
   *
   * It terminates when `lab` differs from the sentinel, when the seed is not
   * a foreground cell (one pop, rejected), or when the seed has no foreground
   * neighbour; otherwise it runs forever (see SentinelFillNeverStops).
   *
   * Each pass of the loop is one `FillStep`; `RunFills` shows that the step
   * model, run from the seed, reaches the same grid with an empty stack.
   */
  method FloodFill(grid: array2<int>, r: int, c: int, lab: int)
    requires lab != Sentinel || !IsOne(Snapshot(grid), (r, c)) || !HasOneNeighbour(Snapshot(grid), (r, c))
    modifies grid
    ensures FillOf(old(Snapshot(grid)), Snapshot(grid), (r, c), lab)
  {
    ghost var g0 := Snapshot(grid);
    ghost var seed := (r, c);
    var stack: seq<Cell> := [(r, c)];
    // from[k] is the labelled cell whose neighbours pushed stack[k] (the seed for the first entry)
    ghost var from: seq<Cell> := [(r, c)];
    // the cells that may still be labelled; shrinks with every labelled cell
    ghost var remaining := set i, j | 0 <= i < grid.Length0 && 0 <= j < grid.Length1 :: (i, j);
    InitialFillInv(g0, seed, lab, remaining);
    while stack != []
      invariant FillInv(g0, Snapshot(grid), seed, lab, stack, from, remaining)
      decreases |remaining|, |stack|
    {
      ghost var before := Snapshot(grid);
      ghost var popped, poppedFrom, oldRemaining := stack, from, remaining;
      var top := stack[|stack| - 1];
      var x, y := top.0, top.1;
      stack := stack[..|stack| - 1];
      from := from[..|from| - 1];
      if 0 <= x < grid.Length0 && 0 <= y < grid.Length1 && grid[x, y] == Sentinel {
        assert IsOne(before, top);
        grid[x, y] := lab;
        remaining := remaining - {top};
        // the source appends the four neighbours one by one, in this order
        stack := stack + Neighbours(top);
        from := from + [top, top, top, top];
        ghost var after := Snapshot(grid);
        assert LabelsOne(before, after, top, lab);
        AcceptStep(g0, before, after, seed, lab, popped, poppedFrom, oldRemaining);
      } else {
        assert !IsOne(before, top);
        RejectStep(g0, before, seed, lab, popped, poppedFrom, remaining);
      }
    }
    FillFromInvariant(g0, Snapshot(grid), seed, lab, remaining);
  }

  lemma InitialFillInv(g0: seq<seq<int>>, seed: Cell, lab: int, remaining: set<Cell>)
    requires Rect(g0, if |g0| == 0 then 0 else |g0[0]|)
    requires forall i, j :: 0 <= i < |g0| && 0 <= j < |g0[i]| ==> (i, j) in remaining
    requires lab != Sentinel || !IsOne(g0, seed) || !HasOneNeighbour(g0, seed)
    ensures FillInv(g0, g0, seed, lab, [seed], [seed], remaining)
  {
  }

  /** A foreground cell on top of the stack can still be counted off the measure. */
  lemma TopInRemaining(g0: seq<seq<int>>, g1: seq<seq<int>>, seed: Cell, lab: int,
                       stack: seq<Cell>, from: seq<Cell>, remaining: set<Cell>)
    requires FillInv(g0, g1, seed, lab, stack, from, remaining)
    requires stack != [] && IsOne(g1, stack[|stack| - 1])
    ensures stack[|stack| - 1] in remaining
  {
  }

  /** The invariant survives popping a cell that is not a foreground cell now. */
  lemma RejectStep(g0: seq<seq<int>>, g1: seq<seq<int>>, seed: Cell, lab: int,
                   popped: seq<Cell>, poppedFrom: seq<Cell>, remaining: set<Cell>)
    requires FillInv(g0, g1, seed, lab, popped, poppedFrom, remaining)
    requires popped != [] && !IsOne(g1, popped[|popped| - 1])
    ensures FillInv(g0, g1, seed, lab, popped[..|popped| - 1], poppedFrom[..|poppedFrom| - 1], remaining)
  {
    RejectKeepsEntries(g0, g1, seed, lab, popped, poppedFrom, remaining);
    if lab != Sentinel {
      RejectKeepsClosure(g0, g1, seed, popped);
    }
  }

  lemma RejectKeepsEntries(g0: seq<seq<int>>, g1: seq<seq<int>>, seed: Cell, lab: int,
                           popped: seq<Cell>, poppedFrom: seq<Cell>, remaining: set<Cell>)
    requires |popped| == |poppedFrom| > 0
    requires forall k :: 0 <= k < |popped| ==>
      popped[k] == seed || (Connected(g0, seed, poppedFrom[k]) && Adjacent(poppedFrom[k], popped[k]))
    requires forall k :: 0 <= k < |popped| && IsOne(g1, popped[k]) ==> popped[k] in remaining
    requires lab == Sentinel ==>
      (popped == [seed] || forall k :: 0 <= k < |popped| ==> !IsOne(g1, popped[k]))
    ensures var stack := popped[..|popped| - 1];
      var from := poppedFrom[..|poppedFrom| - 1];
      && (forall k :: 0 <= k < |stack| ==>
            stack[k] == seed || (Connected(g0, seed, from[k]) && Adjacent(from[k], stack[k])))
      && (forall k :: 0 <= k < |stack| && IsOne(g1, stack[k]) ==> stack[k] in remaining)
      && (lab == Sentinel ==> forall k :: 0 <= k < |stack| ==> !IsOne(g1, stack[k]))
  {
    var stack := popped[..|popped| - 1];
    var from := poppedFrom[..|poppedFrom| - 1];
    assert forall k :: 0 <= k < |stack| ==> stack[k] == popped[k] && from[k] == poppedFrom[k];
  }

  lemma RejectKeepsClosure(g0: seq<seq<int>>, g1: seq<seq<int>>, seed: Cell, popped: seq<Cell>)
    requires popped != [] && !IsOne(g1, popped[|popped| - 1])
    requires SameShape(g0, g1)
    requires forall p, q :: Marked(g0, g1, p) && Adjacent(p, q) && IsOne(g1, q) ==> q in popped
    requires IsOne(g0, seed) ==> seed in popped || Marked(g0, g1, seed)
    ensures var stack := popped[..|popped| - 1];
      && (forall p, q :: Marked(g0, g1, p) && Adjacent(p, q) && IsOne(g1, q) ==> q in stack)
      && (IsOne(g0, seed) ==> seed in stack || Marked(g0, g1, seed))
  {
    var t := popped[|popped| - 1];
    forall p, q | Marked(g0, g1, p) && Adjacent(p, q) && IsOne(g1, q)
      ensures q in popped[..|popped| - 1]
    {
      PopKeeps(popped, q);
    }
    if IsOne(g0, seed) && seed in popped {
      if seed == t {
        assert |g1[seed.0]| == |g0[seed.0]|;
        assert Marked(g0, g1, seed);
      } else {
        PopKeeps(popped, seed);
      }
    }
  }

  /** `after` is `before` with the foreground cell `t` overwritten by `lab`. */
  ghost predicate LabelsOne(before: seq<seq<int>>, after: seq<seq<int>>, t: Cell, lab: int) {
    && SameShape(before, after)
    && IsOne(before, t)
    && At(after, t) == lab
    && forall p :: InBounds(before, p) && p != t ==> At(after, p) == At(before, p)
  }

  /** Labelling the popped foreground cell is one pass of FillStep. */
  lemma AcceptIsStep(before: seq<seq<int>>, after: seq<seq<int>>, popped: seq<Cell>, lab: int)
    requires popped != [] && LabelsOne(before, after, popped[|popped| - 1], lab)
    ensures var t := popped[|popped| - 1];
      FillStep(FillState(before, popped), lab) == FillState(after, popped[..|popped| - 1] + Neighbours(t))
  {
    LabelsOneIsUpdate(before, after, popped[|popped| - 1], lab);
  }

  lemma LabelsOneIsUpdate(before: seq<seq<int>>, after: seq<seq<int>>, t: Cell, lab: int)
    requires LabelsOne(before, after, t, lab)
    ensures after == before[t.0 := before[t.0][t.1 := lab]]
  {
    forall i | 0 <= i < |after|
      ensures after[i] == before[t.0 := before[t.0][t.1 := lab]][i]
    {
      forall j | 0 <= j < |after[i]|
        ensures after[i][j] == before[t.0 := before[t.0][t.1 := lab]][i][j]
      {
        assert InBounds(before, (i, j));
      }
    }
  }

  /** The invariant survives labelling the popped cell and pushing its neighbours. */
  lemma AcceptStep(g0: seq<seq<int>>, before: seq<seq<int>>, after: seq<seq<int>>, seed: Cell, lab: int,
                   popped: seq<Cell>, poppedFrom: seq<Cell>, remaining: set<Cell>)
    requires FillInv(g0, before, seed, lab, popped, poppedFrom, remaining)
    requires popped != [] && LabelsOne(before, after, popped[|popped| - 1], lab)
    ensures popped[|popped| - 1] in remaining
    ensures var t := popped[|popped| - 1];
      FillInv(g0, after, seed, lab,
              popped[..|popped| - 1] + Neighbours(t),
              poppedFrom[..|poppedFrom| - 1] + [t, t, t, t],
              remaining - {t})
  {
    var t := popped[|popped| - 1];
    var stack := popped[..|popped| - 1] + Neighbours(t);
    var from := poppedFrom[..|poppedFrom| - 1] + [t, t, t, t];
    TopInRemaining(g0, before, seed, lab, popped, poppedFrom, remaining);
    AcceptKeepsWrites(g0, before, after, t, lab);
    AcceptKeepsSoundness(g0, before, after, seed, lab, popped, poppedFrom);
    if lab != Sentinel {
      AcceptKeepsClosure(g0, before, after, seed, lab, popped);
    }
    AcceptKeepsMeasure(g0, before, after, seed, lab, popped, remaining);
  }

  lemma AcceptKeepsWrites(g0: seq<seq<int>>, before: seq<seq<int>>, after: seq<seq<int>>, t: Cell, lab: int)
    requires WritesOnly(g0, before, lab) && LabelsOne(before, after, t, lab)
    ensures WritesOnly(g0, after, lab) && IsOne(g0, t)
    ensures forall p :: Marked(g0, after, p) ==> Marked(g0, before, p) || p == t
  {
  }

  lemma AcceptKeepsSoundness(g0: seq<seq<int>>, before: seq<seq<int>>, after: seq<seq<int>>, seed: Cell, lab: int,
                             popped: seq<Cell>, poppedFrom: seq<Cell>)
    requires |popped| == |poppedFrom| > 0
    requires WritesOnly(g0, before, lab) && LabelsOne(before, after, popped[|popped| - 1], lab)
    requires forall p :: Marked(g0, before, p) ==> Connected(g0, seed, p)
    requires forall k :: 0 <= k < |popped| ==>
      popped[k] == seed || (Connected(g0, seed, poppedFrom[k]) && Adjacent(poppedFrom[k], popped[k]))
    ensures var t := popped[|popped| - 1];
      var stack := popped[..|popped| - 1] + Neighbours(t);
      var from := poppedFrom[..|poppedFrom| - 1] + [t, t, t, t];
      && (forall p :: Marked(g0, after, p) ==> Connected(g0, seed, p))
      && (forall k :: 0 <= k < |stack| ==>
            stack[k] == seed || (Connected(g0, seed, from[k]) && Adjacent(from[k], stack[k])))
  {
    var t := popped[|popped| - 1];
    AcceptKeepsWrites(g0, before, after, t, lab);
    PoppedConnected(g0, seed, popped, poppedFrom);
    PushKeepsOrigins(g0, seed, popped, poppedFrom);
  }

  /** The popped foreground cell is connected to the seed. */
  lemma PoppedConnected(g0: seq<seq<int>>, seed: Cell, popped: seq<Cell>, poppedFrom: seq<Cell>)
    requires |popped| == |poppedFrom| > 0 && IsOne(g0, popped[|popped| - 1])
    requires forall k :: 0 <= k < |popped| ==>
      popped[k] == seed || (Connected(g0, seed, poppedFrom[k]) && Adjacent(poppedFrom[k], popped[k]))
    ensures Connected(g0, seed, popped[|popped| - 1])
  {
    var t := popped[|popped| - 1];
    if t == seed {
      ConnectedSelf(g0, seed);
    } else {
      ConnectedExtend(g0, seed, poppedFrom[|popped| - 1], t);
    }
  }

  /** The pushed neighbours come from the popped cell, the other entries keep their origin. */
  lemma PushKeepsOrigins(g0: seq<seq<int>>, seed: Cell, popped: seq<Cell>, poppedFrom: seq<Cell>)
    requires |popped| == |poppedFrom| > 0 && Connected(g0, seed, popped[|popped| - 1])
    requires forall k :: 0 <= k < |popped| ==>
      popped[k] == seed || (Connected(g0, seed, poppedFrom[k]) && Adjacent(poppedFrom[k], popped[k]))
    ensures var t := popped[|popped| - 1];
      var stack := popped[..|popped| - 1] + Neighbours(t);
      var from := poppedFrom[..|poppedFrom| - 1] + [t, t, t, t];
      forall k :: 0 <= k < |stack| ==>
        stack[k] == seed || (Connected(g0, seed, from[k]) && Adjacent(from[k], stack[k]))
  {
    var t := popped[|popped| - 1];
    var rest := popped[..|popped| - 1];
    var stack := rest + Neighbours(t);
    var from := poppedFrom[..|poppedFrom| - 1] + [t, t, t, t];
    forall k | 0 <= k < |stack|
      ensures stack[k] == seed || (Connected(g0, seed, from[k]) && Adjacent(from[k], stack[k]))
    {
      if k < |rest| {
        assert stack[k] == popped[k] && from[k] == poppedFrom[k];
      } else {
        assert from[k] == t && stack[k] in Neighbours(t);
      }
    }
  }

  /** Every other entry of the stack survives popping its top. */
  lemma PopKeeps(popped: seq<Cell>, q: Cell)
    requires popped != [] && q in popped && q != popped[|popped| - 1]
    ensures q in popped[..|popped| - 1]
  {
    var k :| 0 <= k < |popped| && popped[k] == q;
    assert popped[..|popped| - 1][k] == q;
  }

  lemma AcceptKeepsClosure(g0: seq<seq<int>>, before: seq<seq<int>>, after: seq<seq<int>>, seed: Cell, lab: int,
                           popped: seq<Cell>)
    requires popped != []
    requires lab != Sentinel
    requires WritesOnly(g0, before, lab) && LabelsOne(before, after, popped[|popped| - 1], lab)
    requires forall p, q :: Marked(g0, before, p) && Adjacent(p, q) && IsOne(before, q) ==> q in popped
    requires IsOne(g0, seed) ==> seed in popped || Marked(g0, before, seed)
    ensures var t := popped[|popped| - 1];
      var stack := popped[..|popped| - 1] + Neighbours(t);
      && (forall p, q :: Marked(g0, after, p) && Adjacent(p, q) && IsOne(after, q) ==> q in stack)
      && (IsOne(g0, seed) ==> seed in stack || Marked(g0, after, seed))
  {
    var t := popped[|popped| - 1];
    var stack := popped[..|popped| - 1] + Neighbours(t);
    AcceptKeepsWrites(g0, before, after, t, lab);
    forall p, q | Marked(g0, after, p) && Adjacent(p, q) && IsOne(after, q)
      ensures q in stack
    {
      if p == t {
        assert q in Neighbours(t);
      } else {
        assert |after[q.0]| == |before[q.0]|;
        assert q != t && IsOne(before, q);
        PopKeeps(popped, q);
      }
    }
    if IsOne(g0, seed) && seed != t && seed in popped {
      PopKeeps(popped, seed);
    }
  }

  lemma AcceptKeepsMeasure(g0: seq<seq<int>>, before: seq<seq<int>>, after: seq<seq<int>>, seed: Cell, lab: int,
                           popped: seq<Cell>, remaining: set<Cell>)
    requires popped != []
    requires WritesOnly(g0, before, lab) && LabelsOne(before, after, popped[|popped| - 1], lab)
    requires lab != Sentinel ==> forall p :: IsOne(before, p) ==> p in remaining
    requires lab == Sentinel ==>
      (!IsOne(g0, seed) || !HasOneNeighbour(g0, seed)) &&
      (popped == [seed] || forall k :: 0 <= k < |popped| ==> !IsOne(before, popped[k]))
    ensures var t := popped[|popped| - 1];
      var stack := popped[..|popped| - 1] + Neighbours(t);
      && (forall k :: 0 <= k < |stack| && IsOne(after, stack[k]) ==> stack[k] in remaining - {t})
      && (lab != Sentinel ==> forall p :: IsOne(after, p) ==> p in remaining - {t})
      && (lab == Sentinel ==> forall k :: 0 <= k < |stack| ==> !IsOne(after, stack[k]))
  {
    var t := popped[|popped| - 1];
    var stack := popped[..|popped| - 1] + Neighbours(t);
    if lab == Sentinel {
      assert popped == [seed] && t == seed;
      assert IsOne(g0, seed);
      assert forall p :: InBounds(g0, p) ==> At(after, p) == At(g0, p);
      forall k | 0 <= k < |stack|
        ensures !IsOne(after, stack[k])
      {
        assert stack[k] in Neighbours(seed);
        assert !IsOne(g0, stack[k]);
      }
    } else {
      assert forall p :: IsOne(after, p) ==> p != t && IsOne(before, p);
    }
  }

  /** When the stack is empty the invariant of FloodFill gives its postcondition. */
  lemma FillFromInvariant(g0: seq<seq<int>>, g1: seq<seq<int>>, seed: Cell, lab: int, remaining: set<Cell>)
    requires FillInv(g0, g1, seed, lab, [], [], remaining)
    ensures FillOf(g0, g1, seed, lab)
  {
    forall p | InBounds(g0, p)
      ensures At(g1, p) == if Connected(g0, seed, p) then lab else At(g0, p)
    {
      if Connected(g0, seed, p) {
        ConnectedEnds(g0, seed, p);
        if lab != Sentinel {
          MarksCoverComponent(g0, g1, seed, p);
        }
      }
    }
  }

  /** The state of the fill's `while stack` loop: the grid's value and the stack. */
  datatype FillState = FillState(grid: seq<seq<int>>, stack: seq<Cell>)

  /** One pass of the loop body, exactly as the source writes it, for any label. */
  function FillStep(st: FillState, lab: int): (next: FillState)
    requires st.stack != []
    ensures SameShape(st.grid, next.grid)
    ensures var t := st.stack[|st.stack| - 1];
      if IsOne(st.grid, t) then |next.stack| == |st.stack| + 3 && At(next.grid, t) == lab
      else next == FillState(st.grid, st.stack[..|st.stack| - 1])
  {
    var t := st.stack[|st.stack| - 1];
    var rest := st.stack[..|st.stack| - 1];
    if IsOne(st.grid, t) then
      FillState(st.grid[t.0 := st.grid[t.0][t.1 := lab]], rest + Neighbours(t))
    else
      FillState(st.grid, rest)
  }

  /** The state after at most `n` passes; the loop stops early on an empty stack. */
  function FillRun(st: FillState, lab: int, n: nat): FillState
    decreases n
  {
    if n == 0 || st.stack == [] then st else FillRun(FillStep(st, lab), lab, n - 1)
  }

  lemma {:induction false} FillRunOneMore(st: FillState, lab: int, n: nat)
    requires FillRun(st, lab, n).stack != []
    ensures FillRun(st, lab, n + 1) == FillStep(FillRun(st, lab, n), lab)
    decreases n
  {
    if n > 0 && st.stack != [] {
      FillRunOneMore(FillStep(st, lab), lab, n - 1);
    }
  }

  /**
   * With the sentinel as the label, a labelled cell still holds the sentinel,
   * so a foreground cell with a foreground neighbour on the stack keeps one
   * on the stack after every pass.
   */
  lemma SentinelStepStaysLive(st: FillState, k: nat)
    requires k < |st.stack| && IsOne(st.grid, st.stack[k]) && HasOneNeighbour(st.grid, st.stack[k])
    ensures var next := FillStep(st, Sentinel);
      next.grid == st.grid &&
      exists k' :: 0 <= k' < |next.stack| && IsOne(next.grid, next.stack[k']) && HasOneNeighbour(next.grid, next.stack[k'])
  {
    var g := st.grid;
    var n := |st.stack|;
    var t := st.stack[n - 1];
    var next := FillStep(st, Sentinel);
    if IsOne(g, t) {
      assert g[t.0][t.1 := Sentinel] == g[t.0];
      assert next.grid == g;
      if HasOneNeighbour(g, t) {
        var q :| q in Neighbours(t) && IsOne(g, q);
        var i :| 0 <= i < 4 && Neighbours(t)[i] == q;
        assert next.stack[n - 1 + i] == q;
        assert Adjacent(q, t);
        AdjacentIsNeighbour(g, q, t);
      } else {
        assert k < n - 1 && next.stack[k] == st.stack[k];
      }
    } else {
      assert k < n - 1 && next.stack[k] == st.stack[k];
    }
  }

  lemma {:induction false} SentinelRunStaysLive(st: FillState, n: nat)
    requires exists k :: 0 <= k < |st.stack| && IsOne(st.grid, st.stack[k]) && HasOneNeighbour(st.grid, st.stack[k])
    ensures var last := FillRun(st, Sentinel, n);
      last.grid == st.grid &&
      exists k :: 0 <= k < |last.stack| && IsOne(last.grid, last.stack[k]) && HasOneNeighbour(last.grid, last.stack[k])
    decreases n
  {
    if n > 0 {
      var k :| 0 <= k < |st.stack| && IsOne(st.grid, st.stack[k]) && HasOneNeighbour(st.grid, st.stack[k]);
      SentinelStepStaysLive(st, k);
      SentinelRunStaysLive(FillStep(st, Sentinel), n - 1);
    }
  }

  /**
   * The fill as MODEL3.py first calls it, with the sentinel itself as the
   * label, never empties its stack when the seed has a foreground neighbour:
   * the grid never changes and the loop runs forever.
   */
  lemma SentinelFillNeverStops(g: seq<seq<int>>, s: Cell, n: nat)
    requires IsOne(g, s) && HasOneNeighbour(g, s)
    ensures FillRun(FillState(g, [s]), Sentinel, n).stack != []
    ensures FillRun(FillState(g, [s]), Sentinel, n).grid == g
  {
    assert IsOne(g, [s][0]) && HasOneNeighbour(g, [s][0]);
    SentinelRunStaysLive(FillState(g, [s]), n);
  }

  /** The smallest such grid: two foreground cells side by side. */
  lemma TwoCellsNeverStop(n: nat)
    ensures FillRun(FillState([[1, 1]], [(0, 0)]), Sentinel, n).stack != []
  {
    assert IsOne([[1, 1]], (0, 1));
    SentinelFillNeverStops([[1, 1]], (0, 0), n);
  }

  /** Overwriting the foreground cell `t` with `lab` is what LabelsOne describes. */
  lemma UpdateLabelsOne(before: seq<seq<int>>, t: Cell, lab: int)
    requires IsOne(before, t)
    ensures LabelsOne(before, before[t.0 := before[t.0][t.1 := lab]], t, lab)
  {
  }

  /** A pass that labels the popped cell keeps the invariant, with one cell fewer remaining. */
  lemma AcceptPass(g0: seq<seq<int>>, seed: Cell, lab: int, st: FillState, from: seq<Cell>, remaining: set<Cell>)
    requires FillInv(g0, st.grid, seed, lab, st.stack, from, remaining)
    requires st.stack != [] && IsOne(st.grid, st.stack[|st.stack| - 1])
    ensures var t := st.stack[|st.stack| - 1];
      && t in remaining
      && FillInv(g0, FillStep(st, lab).grid, seed, lab, FillStep(st, lab).stack,
                 from[..|from| - 1] + [t, t, t, t], remaining - {t})
  {
    var t := st.stack[|st.stack| - 1];
    var after := st.grid[t.0 := st.grid[t.0][t.1 := lab]];
    UpdateLabelsOne(st.grid, t, lab);
    AcceptStep(g0, st.grid, after, seed, lab, st.stack, from, remaining);
    AcceptIsStep(st.grid, after, st.stack, lab);
  }

  /** A pass that only pops keeps the invariant. */
  lemma RejectPass(g0: seq<seq<int>>, seed: Cell, lab: int, st: FillState, from: seq<Cell>, remaining: set<Cell>)
    requires FillInv(g0, st.grid, seed, lab, st.stack, from, remaining)
    requires st.stack != [] && !IsOne(st.grid, st.stack[|st.stack| - 1])
    ensures |FillStep(st, lab).stack| < |st.stack|
    ensures FillInv(g0, FillStep(st, lab).grid, seed, lab, FillStep(st, lab).stack, from[..|from| - 1], remaining)
  {
    RejectStep(g0, st.grid, seed, lab, st.stack, from, remaining);
  }

  /** One more pass from a state with a non-empty stack is a run from the next state. */
  lemma RunUnfold(st: FillState, lab: int, m: nat)
    requires st.stack != []
    ensures FillRun(st, lab, m + 1) == FillRun(FillStep(st, lab), lab, m)
  {
  }

  /**
   * From any state satisfying the fill's invariant, the step model empties
   * the stack after some number of passes, and the grid it reaches is the
   * fill of the seed's component.
   */
  lemma {:induction false} RunFromInvariant(g0: seq<seq<int>>, seed: Cell, lab: int, st: FillState,
                                            from: seq<Cell>, remaining: set<Cell>) returns (n: nat)
    requires FillInv(g0, st.grid, seed, lab, st.stack, from, remaining)
    ensures FillRun(st, lab, n).stack == []
    ensures FillOf(g0, FillRun(st, lab, n).grid, seed, lab)
    decreases |remaining|, |st.stack|
  {
    if st.stack == [] {
      n := 0;
      FillFromInvariant(g0, st.grid, seed, lab, remaining);
    } else {
      var t := st.stack[|st.stack| - 1];
      var m: nat;
      if IsOne(st.grid, t) {
        AcceptPass(g0, seed, lab, st, from, remaining);
        m := RunFromInvariant(g0, seed, lab, FillStep(st, lab), from[..|from| - 1] + [t, t, t, t], remaining - {t});
      } else {
        RejectPass(g0, seed, lab, st, from, remaining);
        m := RunFromInvariant(g0, seed, lab, FillStep(st, lab), from[..|from| - 1], remaining);
      }
      n := m + 1;
      RunUnfold(st, lab, m);
    }
  }

  /**
   * The loop as written, started from the seed with a label other than the
   * sentinel (or a seed without a foreground neighbour), stops after some
   * number of passes with the grid `FloodFill` is proved to produce.
   */
  lemma RunFills(g: seq<seq<int>>, s: Cell, lab: int) returns (n: nat)
    requires Rect(g, if |g| == 0 then 0 else |g[0]|)
    requires lab != Sentinel || !IsOne(g, s) || !HasOneNeighbour(g, s)
    ensures FillRun(FillState(g, [s]), lab, n) == FillState(Filled(g, s, lab), [])
  {
    var remaining := set i, j | 0 <= i < |g| && 0 <= j < |g[i]| :: (i, j);
    InitialFillInv(g, s, lab, remaining);
    n := RunFromInvariant(g, s, lab, FillState(g, [s]), [s], remaining);
    FillOfIsFilled(g, FillRun(FillState(g, [s]), lab, n).grid, s, lab);
  }
}
