/**
 * Rectangular grids, cells, 4-connectivity and paths of foreground cells.
 *
 * A grid in the source is a two-dimensional array (a list of equally long
 * rows or a numpy array).  Specifications talk about value snapshots of such
 * an array, `seq<seq<T>>`, so that facts about connectivity are plain lemmas
 * over values.
 */
module Grid {

  /** A (row, column) position; it may lie outside the grid. */
  type Cell = (int, int)

  /** The value that marks a foreground cell still waiting for a label. */
  const Sentinel: int := 1

  /** The value of a two-dimensional array, row by row. */
  ghost function Snapshot<T>(a: array2<T>): (g: seq<seq<T>>)
    reads a
    ensures |g| == a.Length0
    ensures forall i :: 0 <= i < |g| ==> |g[i]| == a.Length1
    ensures forall i, j :: 0 <= i < a.Length0 && 0 <= j < a.Length1 ==> g[i][j] == a[i, j]
  {
    seq(a.Length0, i requires 0 <= i < a.Length0 reads a =>
      seq(a.Length1, j requires 0 <= j < a.Length1 reads a => a[i, j]))
  }

  /** Grids of the same shape with the same entries are equal. */
  lemma SameCells<T>(g: seq<seq<T>>, h: seq<seq<T>>)
    requires SameShape(g, h)
    requires forall i, j :: 0 <= i < |g| && 0 <= j < |g[i]| ==> g[i][j] == h[i][j]
    ensures g == h
  {
    forall i | 0 <= i < |g|
      ensures g[i] == h[i]
    {
      assert forall j :: 0 <= j < |g[i]| ==> g[i][j] == h[i][j];
    }
  }

  /** Every row of `g` has `cols` entries. */
  ghost predicate Rect<T>(g: seq<seq<T>>, cols: int) {
    forall i :: 0 <= i < |g| ==> |g[i]| == cols
  }

  /** `g` and `h` have the same number of rows and equally long rows. */
  ghost predicate SameShape<T, U>(g: seq<seq<T>>, h: seq<seq<U>>) {
    |g| == |h| && forall i :: 0 <= i < |g| ==> |g[i]| == |h[i]|
  }

  predicate InBounds<T>(g: seq<seq<T>>, p: Cell) {
    0 <= p.0 < |g| && 0 <= p.1 < |g[p.0]|
  }

  function At<T>(g: seq<seq<T>>, p: Cell): T
    requires InBounds(g, p)
  {
    g[p.0][p.1]
  }

  /** `p` lies in the grid and still holds the sentinel. */
  predicate IsOne(g: seq<seq<int>>, p: Cell) {
    InBounds(g, p) && At(g, p) == Sentinel
  }

  /** Row-major scan order: `p` is visited strictly before `q`. */
  predicate Before(p: Cell, q: Cell) {
    p.0 < q.0 || (p.0 == q.0 && p.1 < q.1)
  }

  /** `p` and `q` share an edge; corners do not count. */
  predicate Adjacent(p: Cell, q: Cell) {
    (p.0 == q.0 && (p.1 - q.1 == 1 || q.1 - p.1 == 1)) ||
    (p.1 == q.1 && (p.0 - q.0 == 1 || q.0 - p.0 == 1))
  }

  /** The four neighbours in the order the flood fill pushes them: up, down, left, right. */
  function Neighbours(p: Cell): (ns: seq<Cell>)
    ensures |ns| == 4
    ensures forall q :: q in ns <==> Adjacent(p, q)
    ensures p !in ns
  {
    [(p.0 - 1, p.1), (p.0 + 1, p.1), (p.0, p.1 - 1), (p.0, p.1 + 1)]
  }

  /** Some edge neighbour of `p` is a foreground cell. */
  predicate HasOneNeighbour(g: seq<seq<int>>, p: Cell) {
    IsOne(g, (p.0 - 1, p.1)) || IsOne(g, (p.0 + 1, p.1)) ||
    IsOne(g, (p.0, p.1 - 1)) || IsOne(g, (p.0, p.1 + 1))
  }

  lemma AdjacentIsNeighbour(g: seq<seq<int>>, p: Cell, q: Cell)
    requires Adjacent(p, q) && IsOne(g, q)
    ensures HasOneNeighbour(g, p)
  {
  }

  /** A non-empty walk through foreground cells, each step to an edge neighbour. */
  ghost predicate IsOnePath(g: seq<seq<int>>, path: seq<Cell>) {
    |path| > 0 &&
    (forall k :: 0 <= k < |path| ==> IsOne(g, path[k])) &&
    (forall i, j :: 0 <= i && j == i + 1 && j < |path| ==> Adjacent(path[i], path[j]))
  }

  /** `t` is reachable from `s` through 4-connected foreground cells. */
  ghost predicate Connected(g: seq<seq<int>>, s: Cell, t: Cell) {
    exists path :: IsOnePath(g, path) && path[0] == s && path[|path| - 1] == t
  }

  lemma ConnectedSelf(g: seq<seq<int>>, s: Cell)
    requires IsOne(g, s)
    ensures Connected(g, s, s)
  {
    assert IsOnePath(g, [s]);
  }

  lemma ConnectedEnds(g: seq<seq<int>>, s: Cell, t: Cell)
    requires Connected(g, s, t)
    ensures IsOne(g, s) && IsOne(g, t)
  {
    var path :| IsOnePath(g, path) && path[0] == s && path[|path| - 1] == t;
    assert IsOne(g, path[|path| - 1]);
  }

  lemma ConnectedExtend(g: seq<seq<int>>, s: Cell, a: Cell, b: Cell)
    requires Connected(g, s, a) && Adjacent(a, b) && IsOne(g, b)
    ensures Connected(g, s, b)
  {
    var path :| IsOnePath(g, path) && path[0] == s && path[|path| - 1] == a;
    var longer := path + [b];
    assert IsOnePath(g, longer);
    assert longer[0] == s && longer[|longer| - 1] == b;
  }

  lemma ConnectedTrans(g: seq<seq<int>>, a: Cell, b: Cell, c: Cell)
    requires Connected(g, a, b) && Connected(g, b, c)
    ensures Connected(g, a, c)
  {
    var p1 :| IsOnePath(g, p1) && p1[0] == a && p1[|p1| - 1] == b;
    var p2 :| IsOnePath(g, p2) && p2[0] == b && p2[|p2| - 1] == c;
    var joined := p1 + p2[1..];
    assert forall k :: |p1| <= k < |joined| ==> joined[k] == p2[k - |p1| + 1];
    assert IsOnePath(g, joined);
    assert joined[|joined| - 1] == c;
  }

  function Reverse(path: seq<Cell>): (r: seq<Cell>)
    ensures |r| == |path|
    ensures forall k :: 0 <= k < |path| ==> r[k] == path[|path| - 1 - k]
  {
    if path == [] then [] else Reverse(path[1..]) + [path[0]]
  }

  lemma ConnectedSym(g: seq<seq<int>>, a: Cell, b: Cell)
    requires Connected(g, a, b)
    ensures Connected(g, b, a)
  {
    var path :| IsOnePath(g, path) && path[0] == a && path[|path| - 1] == b;
    var back := Reverse(path);
    forall k | 0 < k < |back|
      ensures Adjacent(back[k - 1], back[k])
    {
      assert back[k - 1] == path[|path| - k] && back[k] == path[|path| - 1 - k];
    }
    assert IsOnePath(g, back);
  }

  /** Through a cell with no foreground neighbour no path leaves. */
  lemma {:induction false} IsolatedConnectsOnlyItself(g: seq<seq<int>>, s: Cell, t: Cell)
    requires !HasOneNeighbour(g, s) && Connected(g, s, t)
    ensures t == s
  {
    var path :| IsOnePath(g, path) && path[0] == s && path[|path| - 1] == t;
    if |path| > 1 {
      assert Adjacent(path[0], path[1]) && IsOne(g, path[1]);
      AdjacentIsNeighbour(g, s, path[1]);
    }
  }

  /** Every foreground cell of `g` is a foreground cell of `h`. */
  ghost predicate OnesWithin(g: seq<seq<int>>, h: seq<seq<int>>) {
    forall p :: IsOne(g, p) ==> IsOne(h, p)
  }

  lemma ConnectedWithin(g: seq<seq<int>>, h: seq<seq<int>>, s: Cell, t: Cell)
    requires OnesWithin(g, h) && Connected(g, s, t)
    ensures Connected(h, s, t)
  {
    var path :| IsOnePath(g, path) && path[0] == s && path[|path| - 1] == t;
    assert IsOnePath(h, path);
  }

  /**
   * `h` gives edge-adjacent foreground cells of `g` the same value; along a
   * path of `g` it is then constant.
   */
  ghost predicate AdjacentAgree(g: seq<seq<int>>, h: seq<seq<int>>) {
    SameShape(g, h) &&
    forall p, q :: Adjacent(p, q) && IsOne(g, p) && IsOne(g, q) ==> At(h, p) == At(h, q)
  }

  lemma {:induction false} AgreeAlongPath(g: seq<seq<int>>, h: seq<seq<int>>, path: seq<Cell>, k: nat)
    requires AdjacentAgree(g, h) && IsOnePath(g, path) && k < |path|
    ensures InBounds(h, path[0]) && InBounds(h, path[k]) && At(h, path[k]) == At(h, path[0])
  {
    assert IsOne(g, path[k]);
    if k > 0 {
      AgreeAlongPath(g, h, path, k - 1);
      assert Adjacent(path[k - 1], path[k]) && IsOne(g, path[k - 1]);
    }
  }

  lemma AgreeOnConnected(g: seq<seq<int>>, h: seq<seq<int>>, s: Cell, t: Cell)
    requires AdjacentAgree(g, h) && Connected(g, s, t)
    ensures InBounds(h, s) && InBounds(h, t) && At(h, s) == At(h, t)
  {
    var path :| IsOnePath(g, path) && path[0] == s && path[|path| - 1] == t;
    AgreeAlongPath(g, h, path, |path| - 1);
  }

  /** A path of `g` whose start is foreground in an agreeing `h` is a path of `h`. */
  lemma ConnectedKeptByAgreement(g: seq<seq<int>>, h: seq<seq<int>>, s: Cell, t: Cell)
    requires AdjacentAgree(g, h) && Connected(g, s, t) && IsOne(h, s)
    ensures Connected(h, s, t)
  {
    var path :| IsOnePath(g, path) && path[0] == s && path[|path| - 1] == t;
    forall k | 0 <= k < |path|
      ensures IsOne(h, path[k])
    {
      AgreeAlongPath(g, h, path, k);
    }
    assert IsOnePath(h, path);
  }

  /** A run of foreground cells along row `i` is connected to its left end. */
  lemma {:induction false} RowConnected(g: seq<seq<int>>, i: int, a: int, b: int)
    requires forall j :: a <= j <= b ==> IsOne(g, (i, j))
    ensures forall j :: a <= j <= b ==> Connected(g, (i, a), (i, j))
    decreases b - a
  {
    if b > a {
      RowConnected(g, i, a, b - 1);
      assert Connected(g, (i, a), (i, b - 1));
      ConnectedExtend(g, (i, a), (i, b - 1), (i, b));
    } else if b == a {
      ConnectedSelf(g, (i, a));
    }
  }

  /** A run of foreground cells down column `j` is connected to its top end. */
  lemma {:induction false} ColumnConnected(g: seq<seq<int>>, j: int, a: int, b: int)
    requires forall i :: a <= i <= b ==> IsOne(g, (i, j))
    ensures forall i :: a <= i <= b ==> Connected(g, (a, j), (i, j))
    decreases b - a
  {
    if b > a {
      ColumnConnected(g, j, a, b - 1);
      assert Connected(g, (a, j), (b - 1, j));
      ConnectedExtend(g, (a, j), (b - 1, j), (b, j));
    } else if b == a {
      ConnectedSelf(g, (a, j));
    }
  }

  /** No foreground cell outside `s` touches a foreground cell inside it. */
  ghost predicate ClosedUnder(g: seq<seq<int>>, s: set<Cell>) {
    forall p, q :: p in s && Adjacent(p, q) && IsOne(g, q) ==> q in s
  }

  lemma {:induction false} ClosedAlongPath(g: seq<seq<int>>, s: set<Cell>, path: seq<Cell>, k: nat)
    requires ClosedUnder(g, s) && IsOnePath(g, path) && path[0] in s && k < |path|
    ensures path[k] in s
  {
    if k > 0 {
      ClosedAlongPath(g, s, path, k - 1);
      assert Adjacent(path[k - 1], path[k]) && IsOne(g, path[k]);
    }
  }

  /** A component that starts in a closed set stays in it. */
  lemma ClosedHoldsComponent(g: seq<seq<int>>, s: set<Cell>, a: Cell, b: Cell)
    requires ClosedUnder(g, s) && a in s && Connected(g, a, b)
    ensures b in s
  {
    var path :| IsOnePath(g, path) && path[0] == a && path[|path| - 1] == b;
    ClosedAlongPath(g, s, path, |path| - 1);
  }
}
