# Loop labelling and heat diffusion, modelled in Dafny

The repository turns a picture of closed loops into a heat simulation. This
project models the three grid algorithms at its centre:

- **`label_loops`** appears twice, in `demo-files/loopfinding.py` and in
  `demo-files/MODEL3.py`. It scans an integer grid in row-major order. Each
  time it meets a cell that still holds the sentinel `1`, it runs an
  explicit-stack, 4-connected flood fill that overwrites the whole foreground
  component with the current label, then advances the label.
  - `loopfinding.py` starts at 11 and steps by 1.
  - `MODEL3.py` starts at 1 and steps by 10.
- **The skeleton binarisation** in `MODEL3.py` deep-copies the processed
  image array, then maps `-1` and `0` to `0` and every other value to `1`.
- **`HeatDiffusion.update`** in `demo-files/cock2.py` is one double-buffered
  explicit five-point step of the heat equation over the interior cells. It
  skips cells whose value is one of the edge temperatures, and it raises when
  `rx + ry > 0.5`.

The model has these modules:

- `Grid` holds snapshots of a 2-D array as `seq<seq<T>>`, cells, 4-adjacency
  and 4-connectivity through foreground cells.
- `FloodFill` holds the nested `flood_fill`, written once with the label as a
  parameter. It has the imperative method, proved against the
  specification predicate `FillOf`. It also has a step-by-step model of the
  loop exactly as written, for any label. `RunFills` proves that this model
  reaches the same grid whenever the method terminates.
- `LabelLoops` holds the scan, generic in the first label and the step. The
  ghost function `ScanTo` / `Labelling` is the scan as a value. The method is
  proved to compute it, and lemmas prove what it means.
- `LoopFinding` holds the `loopfinding.py` instance (11, +1), with its
  example grid.
- `Model3` holds the `MODEL3.py` instance (1, +10), the binarisation and a
  corrected labelling.
- `Heat` holds the `HeatDiffusion` class, with `update` proved against the
  function `Diffuse` and lemmas about repeated steps (`Steps`).

The grid is a rectangular `array2<int>`; temperatures are `real`.

Facts about the code that the model keeps:

- The constructor of `HeatDiffusion` makes no stability check. Only `update`
  raises (`cock2.py:24-29`, `37-38`).
- `rx` weights the cells above and below (`i ± 1`). `ry` weights the cells to
  the left and right (`j ± 1`) (`cock2.py:45-46`).
- A cell is pinned when its current value is one of the edge temperatures.
  `update` tests this anew on every call (`cock2.py:42`). A pinned cell keeps
  its value, so it stays pinned (`Heat.PinnedKeptForever`).
- A grid with fewer than three rows or columns is returned unchanged
  (`Heat.ThinGridUnchanged`).
- `label_loops` returns only the grid (`loopfinding.py:21`). The number of
  components is the number of fills the scan started, which is the length of
  the ghost `seeds` of `Labelling`. The generic method also returns the
  final label counter.
- In the 5 by 5 heat scenario, the centre stays at 25 after one step: its
  four neighbours all equal its own value (`Heat.ScenarioStep`).

## Model

| member | source | states |
|---|---|---|
| FloodFill.FloodFill | demo-files/loopfinding.py:6-13 | After the fill, the grid is the old grid with exactly the cells 4-connected to the seed through `1` cells overwritten by the label; every other cell is untouched, and out-of-grid neighbour positions are never indexed; it terminates whenever the label is not the sentinel, the seed is not `1`, or the seed has no foreground neighbour |
| FloodFill.RunFills | demo-files/loopfinding.py:7-13 | Under the same condition, the loop as written (`FillStep` repeated from a stack holding the seed) empties its stack after some number of passes, and the grid it reaches is the fill that `FloodFill` is proved to produce |
| FloodFill.FillStep | demo-files/MODEL3.py:61-66 | One pass of the loop body for any label: a popped in-grid `1` is overwritten with the label and four neighbours are pushed (the stack grows by three); any other pop only shrinks the stack; the grid keeps its shape |
| FloodFill.SentinelFillNeverStops | demo-files/MODEL3.py:56-66 | With the sentinel `1` as the label, a fill seeded at a `1` with a `1` neighbour never empties its stack and never changes the grid, after any number of passes |
| FloodFill.TwoCellsNeverStop | demo-files/MODEL3.py:56-71 | On `[[1, 1]]` the first fill of `MODEL3.py`'s `label_loops` still has a non-empty stack after any number of passes |
| LabelLoops.LabelLoops | demo-files/loopfinding.py:15-21 | The row-major scan mutates the grid in place into exactly `Labelling(old grid)` and returns the same array; the final label counter is the label after the last component's |
| LabelLoops.FillAllowedAt | demo-files/loopfinding.py:17-18 | Wherever the scan starts a fill, the fill terminates: the current label is not the sentinel, or (first label = sentinel) the cell is the isolated first `1` |
| LabelLoops.LabelsComponents | demo-files/loopfinding.py:1-21 | The scan's result: non-`1` cells keep their value; the seeds are exactly the first cells of the components, in strict row-major order; the component of the k-th seed carries the k-th label; every `1` lies in some seed's component |
| LabelLoops.SameLabelIffConnected | demo-files/loopfinding.py:4-13 | Two original `1` cells end with the same label if and only if a 4-connected path of `1` cells joins them |
| LabelLoops.LabelsInScanOrder | demo-files/loopfinding.py:15-19 | A component whose first cell comes earlier in row-major order gets a strictly smaller label |
| LabelLoops.FirstComponentGetsFirst | demo-files/loopfinding.py:3 | The component of the grid's first `1` gets the first label |
| LabelLoops.NoSentinelLeft | demo-files/loopfinding.py:3-19 | With a first label above the sentinel, no cell holds `1` after the scan and the shape is unchanged |
| LabelLoops.CounterCountsComponents | demo-files/loopfinding.py:19 | The counter after the scan is `first + components × step`, where the components are counted by their distinct first cells, each one a seed |
| LabelLoops.LabelOfIsLinear | demo-files/MODEL3.py:56-72 | The k-th label is `first + k × step`: 11, 12, 13, … in `loopfinding.py` and 1, 11, 21, … in `MODEL3.py` |
| LabelLoops.LabelsIncrease | demo-files/loopfinding.py:19 | With a positive step, later components get strictly larger labels |
| LoopFinding.LabelLoops | demo-files/loopfinding.py:1-21 | `label_loops` with 11 and +1: requires only a first row, terminates, mutates and returns the same grid equal to the labelling, and leaves no cell at `1` |
| LoopFinding.DiagonalCellsApart | demo-files/loopfinding.py:4 | On `[[1, 0], [0, 1]]` the two diagonal cells get different labels |
| LoopFinding.SmallRingLabels | demo-files/loopfinding.py:4-19 | On the ring `[[1,1,1],[1,0,1],[1,1,1]]` the scan starts exactly one fill and all eight cells get label 11 |
| LoopFinding.JoinedLabel | demo-files/loopfinding.py:10-13 | Cells joined by a path of `1` cells end with the same label |
| LoopFinding.BackgroundKept | demo-files/loopfinding.py:10-11 | A cell that is not `1` keeps its value |
| LoopFinding.ExampleBinary | demo-files/loopfinding.py:24-33 | The example grid is 8 rows of 9 cells, each 0 or 1 |
| LoopFinding.RingLabel | demo-files/loopfinding.py:24-35 | In the example, the inner ring's first cell (3, 3) gets label 12 |
| LoopFinding.ExampleLabels | demo-files/loopfinding.py:24-35 | In the example, every 0 stays 0, the frame with its spurs becomes 11 and the inner ring becomes 12 |
| Model3.SkeletonValue | demo-files/MODEL3.py:41-46 | The binarised value is 0 or 1, and it is 1 exactly when the original is neither -1 nor 0 |
| Model3.DeepCopy | demo-files/MODEL3.py:38 | The copy is a fresh array of the same dimensions with the same cells |
| Model3.BinariseInPlace | demo-files/MODEL3.py:39-46 | Every cell is replaced by the binarised value of its old value |
| Model3.Skeleton | demo-files/MODEL3.py:37-46 | The skeleton is a fresh array of the processed array's dimensions holding the binarised values; the processed array is not modified |
| Model3.LabelLoops | demo-files/MODEL3.py:54-74 | `label_loops` with 1 and +10, callable only when the first `1` is isolated (otherwise it does not terminate); the result is the labelling with labels 1, 11, 21, … |
| Model3.LabelLoopsFixed | demo-files/MODEL3.py:54-74 | The corrected `label_loops` with 11 and +10 terminates on every grid with a row, computes the labelling and leaves no cell at `1` |
| Heat.Diffuse | demo-files/cock2.py:40-46 | One step: same shape, each cell is `NewCell` of the old grid, i.e. the five-point update for an unpinned interior cell and the old value otherwise, all read from the old grid |
| Heat.HeatDiffusion.constructor | demo-files/cock2.py:24-29 | The field is a fresh copy of the initial temperatures, with the given edge temperatures and diffusivity, `dx = dy = 1`, `dt = 0.1`, and no stability check |
| Heat.HeatDiffusion.Update | demo-files/cock2.py:31-49 | Raises (`Unstable`) exactly when `rx + ry > 0.5`, leaving the field as it was; otherwise the field becomes a fresh array of the same shape equal to `Diffuse` of the old one, and that array is returned |
| Heat.RatiosAreATenth | demo-files/cock2.py:28-35 | `rx = ry = alpha / 10` |
| Heat.CellKeptIff | demo-files/cock2.py:40-46 | A cell keeps its value under a step if and only if it is on the border, holds an edge temperature, or its weighted neighbour differences sum to zero |
| Heat.BorderKeptForever | demo-files/cock2.py:40-41 | Border cells keep their value through any number of updates |
| Heat.PinnedKeptForever | demo-files/cock2.py:42-43 | A cell holding an edge temperature keeps it through any number of updates |
| Heat.StencilOfConstant | demo-files/cock2.py:44-46 | The five-point update leaves a cell among equal neighbours unchanged |
| Heat.UniformIsFixed | demo-files/cock2.py:40-46 | A uniform field is a fixed point of one update |
| Heat.UniformForever | demo-files/cock2.py:40-48 | A uniform field is unchanged by any number of updates |
| Heat.ThinGridUnchanged | demo-files/cock2.py:40-41 | A field with fewer than three rows or columns is returned unchanged |
| Heat.ScenarioStep | demo-files/cock2.py:31-49 | On a 5 by 5 field at 25 inside a border at 100, with diffusivity 1.32e-4 and edge temperatures 100, 200, 300, one step warms all eight interior cells next to the border above 25, keeps the centre at 25 and keeps the border at 100 |

## Left out

- `process_image` (`cock2.py:9-21`, `MODEL3.py:10-23`) is image loading, resizing and colour masking through PIL and numpy. It is not part of this model; the processed array is an input.
- Plotting, printing, the animation and the GIF export (`cock2.py:65-74`, `92-115`; `MODEL3.py:31-35`, `48-51`, `76-78`; `loopfinding.py:36-37`) are output only.
- `setup_simulation` (`cock2.py:51-90`) is left out. It calls `scipy.ndimage.label`, whose code is not part of this model, and builds temperatures with `np.linspace`.
- The frame driver (`cock2.py:101-107`) runs 20 updates per frame. Repeated updates are modelled by `Heat.Steps`, and the lemmas about any number of steps cover them.
- Module-level script state in `MODEL3.py` (`color_mapping`, print options, the first aliasing assignment at line 37 that line 38 overwrites) is left out.
- Floating point is left out: temperatures are exact reals, so rounding and the float equality behind the `in edge_temps` test are not modelled.
- Integer edge temperatures compared with float cells become reals of equal value.
- `label_loops` indexes `grid[0]`, so on an empty grid it raises `IndexError`. The labelling methods require a row instead of modelling that error.
- Jagged Python lists are not modelled: the grid is a rectangular two-dimensional array, as the code assumes when it reads the width from `grid[0]`.
- Heat.RatiosAreATenth: states `alpha / 10` exactly, where Python computes `alpha * 0.1 / 1` in floating point.
- LabelLoops.LabelLoops: the generic scan takes `first >= 1` and `step >= 1`, which both instances in the code meet. Other labels are not modelled.
- FloodFill.FloodFill: requires the label to differ from the sentinel, the seed not to be `1`, or the seed to have no foreground neighbour. Otherwise the loop runs forever (`FloodFill.SentinelFillNeverStops`), and a total method cannot model that.
- Model3.LabelLoops: requires the first `1` of the grid to be isolated, for the same reason. Without that precondition the code does not terminate.
- Heat.HeatDiffusion.Update: the `ValueError` is the `Unstable` result carrying `rx + ry`; the message text is not modelled.

## Findings

| source | as written | input that shows it | evidently intended | confidence | as-written member | corrected member |
|---|---|---|---|---|---|---|
| demo-files/MODEL3.py:56 | The first label is `1`, the same value as the unlabelled sentinel. The fill's write at line 64 leaves the cell at `1`, so line 63 accepts it again and its neighbours are pushed forever. | `[[1, 1]]`: the first fill never empties its stack and the grid never changes | A first label distinct from the sentinel, e.g. 11, giving labels 11, 21, 31, … with the step of 10 kept | high; not executed | FloodFill.TwoCellsNeverStop | Model3.LabelLoopsFixed |
