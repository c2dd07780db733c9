/**
 * cock2.py: `HeatDiffusion`, one explicit (forward-time, centred-space)
 * five-point step of the heat equation per `update`, double-buffered:
 * every new value is read from the array as it was before the step.
 * Temperatures are reals; floating-point rounding is not modelled.
 */
module Heat {
  import opened Grid

  /** The result of `update`: the new array, or the `ValueError` raised on an unstable ratio. */
  datatype Outcome = Updated(temps: array2<real>) | Unstable(ratioSum: real)

  /** The diffusion number `alpha * dt / d^2` for grid spacing `d`. */
  function Ratio(alpha: real, dt: real, d: real): real
    requires d != 0.0
  {
    alpha * dt / (d * d)
  }

  /** Row `i` and column `j` are both strictly inside a `rows` by `cols` grid. */
  predicate Interior(rows: int, cols: int, i: int, j: int) {
    1 <= i < rows - 1 && 1 <= j < cols - 1
  }

  /**
   * The five-point update of a cell holding `c` from its neighbours above,
   * below, to the left and to the right.
   */
  function Stencil(c: real, up: real, down: real, left: real, right: real, rx: real, ry: real): real {
    c + rx * (down - 2.0 * c + up) + ry * (right - 2.0 * c + left)
  }

  /**
   * The value cell `(i, j)` gets from one step over `g`: an interior cell
   * whose value is not one of the pinned edge temperatures takes the
   * five-point update, `rx` weighting the rows above and below and `ry` the
   * columns to the left and right; every other cell keeps its value.
   */
  function NewCell(g: seq<seq<real>>, cols: int, rx: real, ry: real, pins: seq<real>, i: int, j: int): real
    requires Rect(g, cols) && 0 <= i < |g| && 0 <= j < cols
  {
    if Interior(|g|, cols, i, j) && g[i][j] !in pins then
      Stencil(g[i][j], g[i - 1][j], g[i + 1][j], g[i][j - 1], g[i][j + 1], rx, ry)
    else
      g[i][j]
  }

  /** One step over the whole grid, every cell computed from `g` alone. */
  function Diffuse(g: seq<seq<real>>, cols: int, rx: real, ry: real, pins: seq<real>): (h: seq<seq<real>>)
    requires Rect(g, cols) && cols >= 0
    ensures |h| == |g| && Rect(h, cols)
    ensures forall i, j :: 0 <= i < |g| && 0 <= j < cols ==> h[i][j] == NewCell(g, cols, rx, ry, pins, i, j)
  {
    seq(|g|, i requires 0 <= i < |g| => seq(cols, j requires 0 <= j < cols => NewCell(g, cols, rx, ry, pins, i, j)))
  }

  /** `n` steps. */
  function Steps(g: seq<seq<real>>, cols: int, rx: real, ry: real, pins: seq<real>, n: nat): (h: seq<seq<real>>)
    requires Rect(g, cols) && cols >= 0
    ensures |h| == |g| && Rect(h, cols)
    decreases n
  {
    if n == 0 then g else Diffuse(Steps(g, cols, rx, ry, pins, n - 1), cols, rx, ry, pins)
  }

  class HeatDiffusion {
    var temps: array2<real>
    const edgeTemps: seq<real>
    const alpha: real
    const dx: real := 1.0
    const dy: real := 1.0
    const dt: real := 0.1

    /** Copies the initial temperatures; no stability check is made here. */
    constructor (initial: array2<real>, edgeTemps: seq<real>, alpha: real)
      ensures fresh(temps)
      ensures temps.Length0 == initial.Length0 && temps.Length1 == initial.Length1
      ensures forall i, j :: 0 <= i < initial.Length0 && 0 <= j < initial.Length1 ==> temps[i, j] == initial[i, j]
      ensures this.edgeTemps == edgeTemps && this.alpha == alpha
    {
      this.edgeTemps := edgeTemps;
      this.alpha := alpha;
      temps := new real[initial.Length0, initial.Length1]((i, j)
        reads initial requires 0 <= i < initial.Length0 && 0 <= j < initial.Length1 => initial[i, j]);
    }

    function Rx(): real {
      Ratio(alpha, dt, dx)
    }

    function Ry(): real {
      Ratio(alpha, dt, dy)
    }

    /**
     * One step.  With `rx + ry > 0.5` it raises before touching anything;
     * otherwise it fills a copy of the array from the old values and makes
     * the copy the current array, which it returns.
     */
    method Update() returns (outcome: Outcome)
      modifies this
      ensures outcome.Unstable? <==> Rx() + Ry() > 0.5
      ensures outcome.Unstable? ==> outcome.ratioSum == Rx() + Ry() && temps == old(temps)
      ensures outcome.Updated? ==>
        && fresh(temps) && outcome.temps == temps
        && temps.Length0 == old(temps.Length0) && temps.Length1 == old(temps.Length1)
        && Snapshot(temps) == Diffuse(old(Snapshot(temps)), old(temps.Length1), Rx(), Ry(), edgeTemps)
    {
      var cur := temps;
      var rows, cols := cur.Length0, cur.Length1;
      ghost var g := Snapshot(cur);
      var rx := alpha * dt / (dx * dx);
      var ry := alpha * dt / (dy * dy);
      if rx + ry > 0.5 {
        return Unstable(rx + ry);
      }
      var next := new real[rows, cols]((i, j) reads cur requires 0 <= i < rows && 0 <= j < cols => cur[i, j]);
      var i := 1;
      while i < rows - 1
        invariant 1 <= i && (i == 1 || i <= rows - 1)
        invariant forall a, b :: 0 <= a < rows && 0 <= b < cols ==>
          next[a, b] == if a < i then NewCell(g, cols, rx, ry, edgeTemps, a, b) else cur[a, b]
      {
        var j := 1;
        while j < cols - 1
          invariant 1 <= j && (j == 1 || j <= cols - 1)
          invariant forall a, b :: 0 <= a < rows && 0 <= b < cols ==>
            next[a, b] == if a < i || (a == i && b < j) then NewCell(g, cols, rx, ry, edgeTemps, a, b) else cur[a, b]
        {
          if cur[i, j] !in edgeTemps {
            next[i, j] := Stencil(cur[i, j], cur[i - 1, j], cur[i + 1, j], cur[i, j - 1], cur[i, j + 1], rx, ry);
          }
          j := j + 1;
        }
        i := i + 1;
      }
      temps := next;
      outcome := Updated(next);
      SameCells(Snapshot(next), Diffuse(g, cols, rx, ry, edgeTemps));
    }
  }

  /** `dx = dy = 1` and `dt = 0.1`, so both ratios are a tenth of the diffusivity. */
  lemma RatiosAreATenth(h: HeatDiffusion)
    ensures h.Rx() == h.Ry() == h.alpha / 10.0
  {
  }

  /**
   * A cell keeps its value under a step exactly when it is on the border,
   * pinned, or its weighted neighbour differences cancel.
   */
  lemma CellKeptIff(g: seq<seq<real>>, cols: int, rx: real, ry: real, pins: seq<real>, i: int, j: int)
    requires Rect(g, cols) && 0 <= i < |g| && 0 <= j < cols
    ensures NewCell(g, cols, rx, ry, pins, i, j) == g[i][j] <==>
      || !Interior(|g|, cols, i, j)
      || g[i][j] in pins
      || rx * (g[i + 1][j] - 2.0 * g[i][j] + g[i - 1][j]) + ry * (g[i][j + 1] - 2.0 * g[i][j] + g[i][j - 1]) == 0.0
  {
  }

  /** Border cells keep their value through any number of steps. */
  lemma {:induction false} BorderKeptForever(g: seq<seq<real>>, cols: int, rx: real, ry: real, pins: seq<real>,
                                             n: nat, i: int, j: int)
    requires Rect(g, cols) && cols >= 0 && 0 <= i < |g| && 0 <= j < cols
    requires !Interior(|g|, cols, i, j)
    ensures Steps(g, cols, rx, ry, pins, n)[i][j] == g[i][j]
    decreases n
  {
    if n > 0 {
      BorderKeptForever(g, cols, rx, ry, pins, n - 1, i, j);
    }
  }

  /** A cell holding one of the edge temperatures keeps it through any number of steps. */
  lemma {:induction false} PinnedKeptForever(g: seq<seq<real>>, cols: int, rx: real, ry: real, pins: seq<real>,
                                             n: nat, i: int, j: int)
    requires Rect(g, cols) && cols >= 0 && 0 <= i < |g| && 0 <= j < cols
    requires g[i][j] in pins
    ensures Steps(g, cols, rx, ry, pins, n)[i][j] == g[i][j]
    decreases n
  {
    if n > 0 {
      PinnedKeptForever(g, cols, rx, ry, pins, n - 1, i, j);
    }
  }

  /** The stencil leaves a cell among equal neighbours alone. */
  lemma StencilOfConstant(c: real, rx: real, ry: real)
    ensures Stencil(c, c, c, c, c, rx, ry) == c
  {
    assert c - 2.0 * c + c == 0.0;
  }

  /** A uniform field is a fixed point of the step. */
  lemma UniformIsFixed(g: seq<seq<real>>, cols: int, rx: real, ry: real, pins: seq<real>, c: real)
    requires Rect(g, cols) && cols >= 0
    requires forall i, j :: 0 <= i < |g| && 0 <= j < cols ==> g[i][j] == c
    ensures Diffuse(g, cols, rx, ry, pins) == g
  {
    StencilOfConstant(c, rx, ry);
    SameCells(Diffuse(g, cols, rx, ry, pins), g);
  }

  /** A uniform field stays uniform through any number of steps. */
  lemma {:induction false} UniformForever(g: seq<seq<real>>, cols: int, rx: real, ry: real, pins: seq<real>, c: real, n: nat)
    requires Rect(g, cols) && cols >= 0
    requires forall i, j :: 0 <= i < |g| && 0 <= j < cols ==> g[i][j] == c
    ensures Steps(g, cols, rx, ry, pins, n) == g
    decreases n
  {
    if n > 0 {
      UniformForever(g, cols, rx, ry, pins, c, n - 1);
      UniformIsFixed(g, cols, rx, ry, pins, c);
    }
  }

  /** A grid with fewer than three rows or columns has no interior and is left as it is. */
  lemma ThinGridUnchanged(g: seq<seq<real>>, cols: int, rx: real, ry: real, pins: seq<real>)
    requires Rect(g, cols) && cols >= 0
    requires |g| < 3 || cols < 3
    ensures Diffuse(g, cols, rx, ry, pins) == g
  {
    SameCells(Diffuse(g, cols, rx, ry, pins), g);
  }

  /** A 5 by 5 field at 25 degrees inside a border held at 100. */
  function Scenario(): seq<seq<real>> {
    [
      [100.0, 100.0, 100.0, 100.0, 100.0],
      [100.0,  25.0,  25.0,  25.0, 100.0],
      [100.0,  25.0,  25.0,  25.0, 100.0],
      [100.0,  25.0,  25.0,  25.0, 100.0],
      [100.0, 100.0, 100.0, 100.0, 100.0]
    ]
  }

  /**
   * One step of the scenario with the diffusivity the simulation uses,
   * 1.32e-4: the eight cells next to the border warm up, the centre (whose
   * neighbours are all at 25) does not change yet, and the border stays.
   */
  lemma ScenarioStep()
    ensures var rx := Ratio(0.000132, 0.1, 1.0);
      var h := Diffuse(Scenario(), 5, rx, rx, [100.0, 200.0, 300.0]);
      && (forall i, j :: Interior(5, 5, i, j) && (i, j) != (2, 2) ==> h[i][j] > 25.0)
      && h[2][2] == 25.0
      && (forall i, j :: 0 <= i < 5 && 0 <= j < 5 && !Interior(5, 5, i, j) ==> h[i][j] == 100.0)
  {
    var g := Scenario();
    var rx := Ratio(0.000132, 0.1, 1.0);
    var pins := [100.0, 200.0, 300.0];
    assert rx == 0.0000132;
    assert Rect(g, 5);
    var h := Diffuse(g, 5, rx, rx, pins);
    forall i, j | 0 <= i < 5 && 0 <= j < 5
      ensures h[i][j] == NewCell(g, 5, rx, rx, pins, i, j)
    {
    }
  }
}
