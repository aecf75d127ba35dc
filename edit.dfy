/** Terraforming: a point edit and the flood fill that pulls the
    surrounding cells up towards a cone below the edited height. */
module Edit {
  import opened Ranges
  import opened TerrainGrid
  import opened Wrappers

  /** A grid cell (row, column). */
  type Cell = (nat, nat)

  /** The contents of a height grid as a value: `g[i][j]` is cell (i, j). */
  type Grid = seq<seq<real>>

  predicate InGrid(c: Cell, rows: nat, cols: nat) {
    c.0 < rows && c.1 < cols
  }

  /** `m` is one of the up to eight cells around `p` inside a
      `rows` x `cols` grid. */
  predicate IsNeighbour(p: Cell, m: Cell, rows: nat, cols: nat) {
    && InGrid(m, rows, cols)
    && p.0 <= m.0 + 1 && m.0 <= p.0 + 1
    && p.1 <= m.1 + 1 && m.1 <= p.1 + 1
    && m != p
  }

  /** `neighbours`: the 8-connected in-grid neighbours of (row, col), in the
      order: up, down, left, right, then the four diagonals. */
  function Neighbours(row: nat, col: nat, rows: nat, cols: nat): (ns: seq<Cell>)
    requires row < rows && col < cols
    ensures forall m :: m in ns <==> IsNeighbour((row, col), m, rows, cols)
    ensures forall a, b :: 0 <= a < b < |ns| ==> ns[a] != ns[b]
    ensures |ns| <= 8
  {
    var axial, diagonal := AxialNeighbours(row, col, rows, cols), DiagonalNeighbours(row, col, rows, cols);
    assert forall a, b :: 0 <= a < |axial| && 0 <= b < |diagonal| ==> axial[a] != diagonal[b];
    axial + diagonal
  }

  /** The neighbours sharing a row or a column with (row, col). */
  function AxialNeighbours(row: nat, col: nat, rows: nat, cols: nat): (ns: seq<Cell>)
    requires row < rows && col < cols
    ensures forall m :: m in ns <==> IsNeighbour((row, col), m, rows, cols) && (m.0 == row || m.1 == col)
    ensures forall a, b :: 0 <= a < b < |ns| ==> ns[a] != ns[b]
    ensures |ns| <= 4
  {
    (if row > 0 then [(row - 1, col)] else [])
    + (if row < rows - 1 then [(row + 1, col)] else [])
    + (if col > 0 then [(row, col - 1)] else [])
    + (if col < cols - 1 then [(row, col + 1)] else [])
  }

  /** The neighbours sharing neither a row nor a column with (row, col). */
  function DiagonalNeighbours(row: nat, col: nat, rows: nat, cols: nat): (ns: seq<Cell>)
    requires row < rows && col < cols
    ensures forall m :: m in ns <==> IsNeighbour((row, col), m, rows, cols) && m.0 != row && m.1 != col
    ensures forall a, b :: 0 <= a < b < |ns| ==> ns[a] != ns[b]
    ensures |ns| <= 4
  {
    (if row > 0 && col > 0 then [(row - 1, col - 1)] else [])
    + (if row > 0 && col < cols - 1 then [(row - 1, col + 1)] else [])
    + (if row < rows - 1 && col > 0 then [(row + 1, col - 1)] else [])
    + (if row < rows - 1 && col < cols - 1 then [(row + 1, col + 1)] else [])
  }

  /** A cell away from the border has all eight neighbours; a corner cell of
      a grid at least 2 x 2 has three. */
  lemma NeighbourCounts(row: nat, col: nat, rows: nat, cols: nat)
    requires row < rows && col < cols
    ensures 0 < row < rows - 1 && 0 < col < cols - 1 ==> |Neighbours(row, col, rows, cols)| == 8
    ensures 2 <= rows && 2 <= cols && (row == 0 || row == rows - 1) && (col == 0 || col == cols - 1)
      ==> |Neighbours(row, col, rows, cols)| == 3
  {
  }

  /** `f32::min` on two heights. */
  function MinReal(a: real, b: real): real { if a < b then a else b }

  /** Squared grid distance between two cells (the argument of the square
      root in `propagate`). */
  function SquaredDistance(a: Cell, b: Cell): nat {
    var dr := if a.0 < b.0 then b.0 - a.0 else a.0 - b.0;
    var dc := if a.1 < b.1 then b.1 - a.1 else a.1 - b.1;
    dr * dr + dc * dc
  }

  /** The cone of an edit: the edited cell, its height after the edit, and
      the square root the source takes of a squared distance. */
  datatype Cone = Cone(origin: Cell, height: real, dist: nat -> real) {
    /** `cheight - dist`: the highest a cell may be pulled up to. */
    function Cap(m: Cell): real {
      height - dist(SquaredDistance(m, origin))
    }
  }

  /** `g` is a `rows` x `cols` grid. */
  ghost predicate Shaped(g: Grid, rows: nat, cols: nat) {
    |g| == rows && forall i :: 0 <= i < rows ==> |g[i]| == cols
  }

  /** The contents of `data`. */
  ghost function Snapshot(data: array2<real>): (g: Grid)
    reads data
    ensures Shaped(g, data.Length0, data.Length1)
    ensures forall i, j :: 0 <= i < data.Length0 && 0 <= j < data.Length1 ==> g[i][j] == data[i, j]
  {
    seq(data.Length0, i requires 0 <= i < data.Length0 reads data =>
      seq(data.Length1, j requires 0 <= j < data.Length1 reads data => data[i, j]))
  }

  /** `g` with cell `m` set to `h`. */
  ghost function Raise(g: Grid, m: Cell, h: real): Grid
    requires m.0 < |g| && m.1 < |g[m.0]|
  {
    g[m.0 := g[m.0][m.1 := h]]
  }

  /** Two grids of one shape with the same cells are equal. */
  lemma GridsEqual(a: Grid, b: Grid, rows: nat, cols: nat)
    requires Shaped(a, rows, cols) && Shaped(b, rows, cols)
    requires forall i, j :: 0 <= i < rows && 0 <= j < cols ==> a[i][j] == b[i][j]
    ensures a == b
  {
    forall i | 0 <= i < rows ensures a[i] == b[i] {
      assert forall j :: 0 <= j < cols ==> a[i][j] == b[i][j];
    }
  }

  /** The fixed inputs of one flood fill: the grid's shape, its contents on
      entry and the finite set of heights a cell can ever take. */
  datatype FillContext = FillContext(rows: nat, cols: nat, init: Grid, vals: set<real>)

  /** The heights a cell can hold during `propagate`: an initial height of
      some cell, or the cone bound of some cell. */
  ghost function Values(init: Grid, rows: nat, cols: nat, cone: Cone): set<real>
    requires Shaped(init, rows, cols)
  {
    (set i, j | 0 <= i < rows && 0 <= j < cols :: init[i][j])
    + (set i: nat, j: nat | i < rows && j < cols :: cone.Cap((i, j)))
  }

  /** The raises still possible: (cell, value) with the value in `vals`
      above the cell's height. */
  ghost function Potential(g: Grid, vals: set<real>): set<(int, int, real)> {
    set i, j, v | 0 <= i < |g| && 0 <= j < |g[i]| && v in vals && v > g[i][j] :: (i, j, v)
  }

  /** Raising cells, one of them to a value of `vals`, removes that pair
      from the potential and adds none: the measure of `propagate`. */
  lemma RaisesShrinkPotential(g0: Grid, g1: Grid, vals: set<real>, w: Cell)
    requires |g1| == |g0| && forall i :: 0 <= i < |g0| ==> |g1[i]| == |g0[i]|
    requires forall i, j :: 0 <= i < |g0| && 0 <= j < |g0[i]| ==> g1[i][j] >= g0[i][j]
    requires w.0 < |g0| && w.1 < |g0[w.0]| && g1[w.0][w.1] > g0[w.0][w.1] && g1[w.0][w.1] in vals
    ensures Potential(g1, vals) < Potential(g0, vals)
  {
    forall x | x in Potential(g1, vals) ensures x in Potential(g0, vals) {
      var (i, j, v) := x;
      assert v > g1[i][j] >= g0[i][j];
    }
    assert (w.0 as int, w.1 as int, g1[w.0][w.1]) in Potential(g0, vals) - Potential(g1, vals);
  }

  /** Every cell holds a value of `vals` no lower than its initial one, and
      every cone bound is in `vals`. */
  ghost predicate RaisedWithin(ctx: FillContext, cone: Cone, g: Grid)
    requires Shaped(g, ctx.rows, ctx.cols) && Shaped(ctx.init, ctx.rows, ctx.cols)
  {
    && (forall i: nat, j: nat :: i < ctx.rows && j < ctx.cols ==> cone.Cap((i, j)) in ctx.vals)
    && (forall i, j :: 0 <= i < ctx.rows && 0 <= j < ctx.cols ==> g[i][j] >= ctx.init[i][j] && g[i][j] in ctx.vals)
  }

  /** A changed cell is processed or queued, lies under the cone, and has a
      recorded neighbour it was last raised from. */
  ghost predicate ChangesAccounted(ctx: FillContext, cone: Cone, g: Grid,
                                   processed: set<Cell>, queue: seq<Cell>, from: map<Cell, Cell>)
    requires Shaped(g, ctx.rows, ctx.cols) && Shaped(ctx.init, ctx.rows, ctx.cols)
  {
    forall i, j :: 0 <= i < ctx.rows && 0 <= j < ctx.cols && g[i][j] != ctx.init[i][j] ==>
      && ((i, j) in processed || (i, j) in queue)
      && g[i][j] <= cone.Cap((i, j))
      && (i, j) in from
  }

  /** Each recorded cell is no higher than the neighbour it was raised from. */
  ghost predicate RaisedFrom(ctx: FillContext, g: Grid, from: map<Cell, Cell>)
    requires Shaped(g, ctx.rows, ctx.cols)
  {
    forall c {:trigger from[c]} :: c in from ==>
      && InGrid(c, ctx.rows, ctx.cols)
      && IsNeighbour(c, from[c], ctx.rows, ctx.cols)
      && g[c.0][c.1] <= g[from[c].0][from[c].1]
  }

  /** Neighbour `m` of `p` is at least as high as `p` would raise it to. */
  ghost predicate RelaxedAt(ctx: FillContext, cone: Cone, g: Grid, p: Cell, m: Cell)
    requires Shaped(g, ctx.rows, ctx.cols)
  {
    && InGrid(p, ctx.rows, ctx.cols) && InGrid(m, ctx.rows, ctx.cols)
    && g[m.0][m.1] >= MinReal(g[p.0][p.1], cone.Cap(m))
  }

  /** A processed cell that is neither queued nor being visited would raise
      none of its neighbours. */
  ghost predicate Settled(ctx: FillContext, cone: Cone, g: Grid,
                          processed: set<Cell>, queue: seq<Cell>, exempt: set<Cell>)
    requires Shaped(g, ctx.rows, ctx.cols)
  {
    forall q: Cell, m: Cell {:trigger IsNeighbour(q, m, ctx.rows, ctx.cols)} ::
      q in processed && q !in queue && q !in exempt && IsNeighbour(q, m, ctx.rows, ctx.cols) ==>
      RelaxedAt(ctx, cone, g, q, m)
  }

  /** Every processed or queued cell is the edited cell or one whose height
      has changed: a cell is only queued when it is raised. */
  ghost predicate OnlyRaisedQueued(ctx: FillContext, cone: Cone, g: Grid, processed: set<Cell>, queue: seq<Cell>)
    requires Shaped(g, ctx.rows, ctx.cols) && Shaped(ctx.init, ctx.rows, ctx.cols)
  {
    && (forall q :: q in processed && InGrid(q, ctx.rows, ctx.cols) ==>
          q == cone.origin || g[q.0][q.1] != ctx.init[q.0][q.1])
    && (forall q :: q in queue && InGrid(q, ctx.rows, ctx.cols) ==>
          q == cone.origin || g[q.0][q.1] != ctx.init[q.0][q.1])
  }

  /** The state the flood fill keeps between steps; `exempt` is the cell
      whose neighbours are being visited. */
  ghost predicate FillInvariant(ctx: FillContext, cone: Cone, g: Grid,
                                processed: set<Cell>, queue: seq<Cell>, from: map<Cell, Cell>, exempt: set<Cell>)
  {
    && Shaped(g, ctx.rows, ctx.cols) && Shaped(ctx.init, ctx.rows, ctx.cols)
    && (forall q :: q in queue ==> InGrid(q, ctx.rows, ctx.cols))
    && (forall q :: q in processed ==> InGrid(q, ctx.rows, ctx.cols))
    && RaisedWithin(ctx, cone, g)
    && ChangesAccounted(ctx, cone, g, processed, queue, from)
    && RaisedFrom(ctx, g, from)
    && Settled(ctx, cone, g, processed, queue, exempt)
    && OnlyRaisedQueued(ctx, cone, g, processed, queue)
  }

  /** The fill state on entry: nothing processed, the edited cell queued. */
  lemma StartFill(ctx: FillContext, cone: Cone)
    requires Shaped(ctx.init, ctx.rows, ctx.cols) && InGrid(cone.origin, ctx.rows, ctx.cols)
    requires ctx.vals == Values(ctx.init, ctx.rows, ctx.cols, cone)
    ensures FillInvariant(ctx, cone, ctx.init, {}, [cone.origin], map[], {})
  {
    forall i: nat, j: nat | i < ctx.rows && j < ctx.cols ensures cone.Cap((i, j)) in ctx.vals {
    }
  }

  /** Dequeuing the front cell and marking it processed keeps the fill
      state, with that cell exempt while its neighbours are visited. */
  lemma StartVisit(ctx: FillContext, cone: Cone, g: Grid, processed: set<Cell>, queue: seq<Cell>, from: map<Cell, Cell>)
    requires queue != []
    requires FillInvariant(ctx, cone, g, processed, queue, from, {})
    ensures FillInvariant(ctx, cone, g, processed + {queue[0]}, queue[1..], from, {queue[0]})
  {
    forall q | q in queue ensures q == queue[0] || q in queue[1..] {
      if q != queue[0] {
        var k :| 0 <= k < |queue| && queue[k] == q;
        assert queue[1..][k - 1] == q;
      }
    }
  }

  /** Raising neighbour `m` of the exempt cell `p` to min(height of p, cone
      bound of m), recording p and enqueuing m, keeps the fill state. */
  lemma RaiseKeepsFill(ctx: FillContext, cone: Cone, g: Grid, p: Cell, m: Cell, h: real,
                       processed: set<Cell>, queue: seq<Cell>, from: map<Cell, Cell>)
    requires FillInvariant(ctx, cone, g, processed, queue, from, {p})
    requires p in processed && IsNeighbour(p, m, ctx.rows, ctx.cols)
    requires h == MinReal(g[p.0][p.1], cone.Cap(m)) && g[m.0][m.1] < h
    ensures var g' := Raise(g, m, h);
      && FillInvariant(ctx, cone, g', processed, queue + [m], from[m := p], {p})
      && RelaxedAt(ctx, cone, g', p, m)
  {
    var g' := Raise(g, m, h);
    assert g[p.0][p.1] in ctx.vals && cone.Cap(m) in ctx.vals;
    assert RaisedWithin(ctx, cone, g');
    RaiseKeepsChanges(ctx, cone, g, p, m, h, processed, queue, from);
    RaiseKeepsFrom(ctx, g, p, m, h, from);
    RaiseKeepsSettled(ctx, cone, g, p, m, h, processed, queue);
    RaiseKeepsOnlyRaised(ctx, cone, g, m, h, processed, queue);
  }

  lemma RaiseKeepsOnlyRaised(ctx: FillContext, cone: Cone, g: Grid, m: Cell, h: real,
                             processed: set<Cell>, queue: seq<Cell>)
    requires Shaped(g, ctx.rows, ctx.cols) && Shaped(ctx.init, ctx.rows, ctx.cols)
    requires OnlyRaisedQueued(ctx, cone, g, processed, queue)
    requires InGrid(m, ctx.rows, ctx.cols) && ctx.init[m.0][m.1] <= g[m.0][m.1] < h
    ensures OnlyRaisedQueued(ctx, cone, Raise(g, m, h), processed, queue + [m])
  {
    var g', queue' := Raise(g, m, h), queue + [m];
    forall q | (q in processed || q in queue') && InGrid(q, ctx.rows, ctx.cols)
      ensures q == cone.origin || g'[q.0][q.1] != ctx.init[q.0][q.1]
    {
      if q != m {
        assert g'[q.0][q.1] == g[q.0][q.1];
        assert q in processed || q in queue;
      }
    }
  }

  lemma RaiseKeepsChanges(ctx: FillContext, cone: Cone, g: Grid, p: Cell, m: Cell, h: real,
                          processed: set<Cell>, queue: seq<Cell>, from: map<Cell, Cell>)
    requires Shaped(g, ctx.rows, ctx.cols) && Shaped(ctx.init, ctx.rows, ctx.cols)
    requires ChangesAccounted(ctx, cone, g, processed, queue, from)
    requires InGrid(m, ctx.rows, ctx.cols) && h <= cone.Cap(m)
    ensures ChangesAccounted(ctx, cone, Raise(g, m, h), processed, queue + [m], from[m := p])
  {
    var g', queue' := Raise(g, m, h), queue + [m];
    forall i, j | 0 <= i < ctx.rows && 0 <= j < ctx.cols && g'[i][j] != ctx.init[i][j]
      ensures ((i, j) in processed || (i, j) in queue') && g'[i][j] <= cone.Cap((i, j)) && (i, j) in from[m := p]
    {
      if (i, j) != (m.0 as int, m.1 as int) {
        assert g'[i][j] == g[i][j];
      }
    }
  }

  lemma RaiseKeepsFrom(ctx: FillContext, g: Grid, p: Cell, m: Cell, h: real, from: map<Cell, Cell>)
    requires Shaped(g, ctx.rows, ctx.cols) && RaisedFrom(ctx, g, from)
    requires IsNeighbour(p, m, ctx.rows, ctx.cols) && InGrid(p, ctx.rows, ctx.cols)
    requires g[m.0][m.1] < h <= g[p.0][p.1]
    ensures RaisedFrom(ctx, Raise(g, m, h), from[m := p])
  {
    var g', from' := Raise(g, m, h), from[m := p];
    forall c | c in from' ensures InGrid(c, ctx.rows, ctx.cols) && IsNeighbour(c, from'[c], ctx.rows, ctx.cols)
      && g'[c.0][c.1] <= g'[from'[c].0][from'[c].1]
    {
      if c != m {
        assert g[c.0][c.1] <= g[from[c].0][from[c].1];
      }
    }
  }

  lemma RaiseKeepsSettled(ctx: FillContext, cone: Cone, g: Grid, p: Cell, m: Cell, h: real,
                          processed: set<Cell>, queue: seq<Cell>)
    requires Shaped(g, ctx.rows, ctx.cols) && Settled(ctx, cone, g, processed, queue, {p})
    requires InGrid(m, ctx.rows, ctx.cols) && g[m.0][m.1] < h
    ensures Settled(ctx, cone, Raise(g, m, h), processed, queue + [m], {p})
  {
    var g', queue' := Raise(g, m, h), queue + [m];
    forall q: Cell, n: Cell | q in processed && q !in queue' && q != p && IsNeighbour(q, n, ctx.rows, ctx.cols)
      ensures RelaxedAt(ctx, cone, g', q, n)
    {
      assert RelaxedAt(ctx, cone, g, q, n);
    }
  }

  /** Once every neighbour of the exempt cell is relaxed, it needs no
      exemption. */
  lemma EndVisit(ctx: FillContext, cone: Cone, g: Grid, processed: set<Cell>, queue: seq<Cell>,
                 from: map<Cell, Cell>, p: Cell)
    requires FillInvariant(ctx, cone, g, processed, queue, from, {p})
    requires forall m :: IsNeighbour(p, m, ctx.rows, ctx.cols) ==> RelaxedAt(ctx, cone, g, p, m)
    ensures FillInvariant(ctx, cone, g, processed, queue, from, {})
  {
  }

  /** With the queue empty, every changed cell is processed, under the cone
      and no higher than the neighbour it was raised from, and no processed
      cell would raise any neighbour. */
  lemma FinishFill(ctx: FillContext, cone: Cone, g: Grid, processed: set<Cell>, from: map<Cell, Cell>)
    requires FillInvariant(ctx, cone, g, processed, [], from, {})
    ensures forall i, j :: 0 <= i < ctx.rows && 0 <= j < ctx.cols ==> g[i][j] >= ctx.init[i][j]
    ensures forall i, j :: 0 <= i < ctx.rows && 0 <= j < ctx.cols && g[i][j] != ctx.init[i][j] ==>
      && (i, j) in processed
      && g[i][j] <= cone.Cap((i, j))
      && (i, j) in from && IsNeighbour((i, j), from[(i, j)], ctx.rows, ctx.cols)
      && g[i][j] <= g[from[(i, j)].0][from[(i, j)].1]
    ensures forall p: Cell, m: Cell :: p in processed && IsNeighbour(p, m, ctx.rows, ctx.cols) ==>
      RelaxedAt(ctx, cone, g, p, m)
    ensures forall p :: p in processed ==> p == cone.origin || g[p.0][p.1] != ctx.init[p.0][p.1]
  {
  }

  /** The state of the inner loop of `propagate` after relaxing the first
      `k` neighbours of `p`, against the grid `g0` and queue `q0` on entry:
      heights only rose, the queue only grew at its end, the first cell
      pushed was raised, and if none was pushed nothing changed. */
  ghost predicate RelaxState(ctx: FillContext, cone: Cone, g0: Grid, q0: seq<Cell>, g: Grid, queue: seq<Cell>,
                             p: Cell, ns: seq<Cell>, k: nat)
  {
    && Shaped(g0, ctx.rows, ctx.cols) && Shaped(g, ctx.rows, ctx.cols) && k <= |ns|
    && (forall i, j :: 0 <= i < ctx.rows && 0 <= j < ctx.cols ==> g[i][j] >= g0[i][j])
    && |queue| >= |q0| && queue[..|q0|] == q0
    && (|queue| == |q0| ==> g == g0)
    && (|queue| > |q0| ==> var w := queue[|q0|]; InGrid(w, ctx.rows, ctx.cols) && g[w.0][w.1] > g0[w.0][w.1])
    && (forall a :: 0 <= a < k ==> RelaxedAt(ctx, cone, g, p, ns[a]))
  }

  /** Relaxing neighbour `ns[k]` either changes nothing or raises it and
      pushes it; either way the inner loop's state moves on by one. */
  lemma RelaxStep(ctx: FillContext, cone: Cone, g0: Grid, q0: seq<Cell>, g: Grid, queue: seq<Cell>,
                  g': Grid, queue': seq<Cell>, p: Cell, ns: seq<Cell>, k: nat)
    requires RelaxState(ctx, cone, g0, q0, g, queue, p, ns, k) && k < |ns|
    requires IsNeighbour(p, ns[k], ctx.rows, ctx.cols)
    requires Shaped(g', ctx.rows, ctx.cols) && RelaxedAt(ctx, cone, g', p, ns[k])
    requires (g' == g && queue' == queue)
      || (queue' == queue + [ns[k]] && g[ns[k].0][ns[k].1] < g'[ns[k].0][ns[k].1]
          && g' == Raise(g, ns[k], g'[ns[k].0][ns[k].1]))
    ensures RelaxState(ctx, cone, g0, q0, g', queue', p, ns, k + 1)
  {
    if queue' != queue {
      assert queue'[..|q0|] == queue[..|q0|];
      forall a | 0 <= a < k ensures RelaxedAt(ctx, cone, g', p, ns[a]) {
        assert RelaxedAt(ctx, cone, g, p, ns[a]);
      }
    }
  }

  /** After the inner loop, the potential shrank, or nothing changed and no
      cell was pushed. */
  lemma RelaxProgress(ctx: FillContext, cone: Cone, g0: Grid, q0: seq<Cell>, g: Grid, queue: seq<Cell>,
                      p: Cell, ns: seq<Cell>)
    requires Shaped(ctx.init, ctx.rows, ctx.cols)
    requires RelaxState(ctx, cone, g0, q0, g, queue, p, ns, |ns|)
    requires RaisedWithin(ctx, cone, g)
    ensures Potential(g, ctx.vals) < Potential(g0, ctx.vals) || (g == g0 && |queue| == |q0|)
  {
    if |queue| > |q0| {
      RaisesShrinkPotential(g0, g, ctx.vals, queue[|q0|]);
    }
  }

  /** Every cell of a queue is its front or is still in the queue that
      extends its tail. */
  lemma QueueKept(queue: seq<Cell>, queue': seq<Cell>)
    requires queue != [] && |queue'| >= |queue| - 1 && queue'[..|queue| - 1] == queue[1..]
    ensures forall q :: q in queue ==> q == queue[0] || q in queue'
  {
    forall q | q in queue && q != queue[0] ensures q in queue' {
      var k :| 0 <= k < |queue| && queue[k] == q;
      assert queue'[k - 1] == queue[1..][k - 1] == q;
    }
  }

  /** Every cell of `cells` lies in rectangle `b`. */
  predicate Holds(b: Range2, cells: set<Cell>) {
    forall q :: q in cells ==> b.Contains(q.0, q.1)
  }

  /** `range` is the bounding box of the processed cells: it holds every one
      of them, lies inside every rectangle that does, and lies in the grid. */
  ghost predicate Bounds(rows: nat, cols: nat, processed: set<Cell>, range: Range2) {
    && Holds(range, processed)
    && (forall b: Range2 :: Holds(b, processed) ==> Within(range, b))
    && Within(range, Range2(Interval(0, rows), Interval(0, cols)))
  }

  /** Cells inside a rectangle are inside every rectangle that holds it. */
  lemma WithinKeepsCells(inner: Range2, outer: Range2, cells: set<Cell>)
    requires forall q :: q in cells ==> inner.Contains(q.0, q.1)
    requires Within(inner, outer)
    ensures forall q :: q in cells ==> outer.Contains(q.0, q.1)
  {
  }

  /** One step of the inner loop of `propagate`: neighbour `m` of the
      dequeued cell `p` is raised to min(height of p, cone bound of m) and
      enqueued if it is lower than that. `g` and `g'` are the grid's
      contents before and after. */
  method Relax(data: array2<real>, p: Cell, m: Cell, cone: Cone, ghost ctx: FillContext, ghost g: Grid,
               ghost processed: set<Cell>, queue: seq<Cell>, ghost from: map<Cell, Cell>)
      returns (queue': seq<Cell>, ghost from': map<Cell, Cell>, ghost g': Grid)
    requires ctx.rows == data.Length0 && ctx.cols == data.Length1 && g == Snapshot(data)
    requires p in processed && IsNeighbour(p, m, ctx.rows, ctx.cols)
    requires FillInvariant(ctx, cone, g, processed, queue, from, {p})
    modifies data
    ensures g' == Snapshot(data)
    ensures FillInvariant(ctx, cone, g', processed, queue', from', {p})
    ensures RelaxedAt(ctx, cone, g', p, m)
    ensures (g' == g && queue' == queue)
      || (queue' == queue + [m] && g[m.0][m.1] < g'[m.0][m.1] && g' == Raise(g, m, g'[m.0][m.1]))
  {
    var minH := MinReal(data[p.0, p.1], cone.height - cone.dist(SquaredDistance(m, cone.origin)));
    if data[m.0, m.1] < minH {
      data[m.0, m.1] := minH;
      queue' := queue + [m];
      from' := from[m := p];
      g' := Raise(g, m, minH);
      RaiseKeepsFill(ctx, cone, g, p, m, minH, processed, queue, from);
      GridsEqual(Snapshot(data), g', ctx.rows, ctx.cols);
    } else {
      queue', from', g' := queue, from, g;
    }
  }

  /** The inner loop of `propagate`: relax every neighbour in `ns` of the
      exempt cell `p`, in order. */
  method RelaxAll(data: array2<real>, p: Cell, ns: seq<Cell>, cone: Cone, ghost ctx: FillContext, ghost g: Grid,
                  ghost processed: set<Cell>, queue: seq<Cell>, ghost from: map<Cell, Cell>)
      returns (queue': seq<Cell>, ghost from': map<Cell, Cell>, ghost g': Grid)
    requires ctx.rows == data.Length0 && ctx.cols == data.Length1 && g == Snapshot(data)
    requires p in processed && forall m :: m in ns ==> IsNeighbour(p, m, ctx.rows, ctx.cols)
    requires FillInvariant(ctx, cone, g, processed, queue, from, {p})
    modifies data
    ensures g' == Snapshot(data)
    ensures FillInvariant(ctx, cone, g', processed, queue', from', {p})
    ensures RelaxState(ctx, cone, g, queue, g', queue', p, ns, |ns|)
  {
    queue', from', g' := queue, from, g;
    var k := 0;
    while k < |ns|
      invariant 0 <= k <= |ns|
      invariant g' == Snapshot(data)
      invariant FillInvariant(ctx, cone, g', processed, queue', from', {p})
      invariant RelaxState(ctx, cone, g, queue, g', queue', p, ns, k)
    {
      ghost var gk, qk := g', queue';
      queue', from', g' := Relax(data, p, ns[k], cone, ctx, g', processed, queue', from');
      RelaxStep(ctx, cone, g, queue, gk, qk, g', queue', p, ns, k);
      k := k + 1;
    }
  }

  /** `expand_to` on the rectangle of processed cells, when `p` is
      dequeued. */
  method GrowBounds(rows: nat, cols: nat, ghost processed: set<Cell>, range: Range2, p: Cell) returns (range': Range2)
    requires Bounds(rows, cols, processed, range) && InGrid(p, rows, cols)
    ensures Bounds(rows, cols, processed + {p}, range')
  {
    range' := ExpandTo(range, p.0, p.1);
    WithinKeepsCells(range, range', processed);
    assert Range2(Interval(0, rows), Interval(0, cols)).Contains(p.0, p.1);
    forall b: Range2 | Holds(b, processed + {p}) ensures Within(range', b) {
      assert Holds(b, processed) && b.Contains(p.0, p.1);
    }
  }

  /** One turn of the outer loop of `propagate`: dequeue the front cell,
      grow the rectangle to it, mark it processed and relax each of its
      neighbours in order. Either the potential shrank or the queue got
      shorter. */
  method Visit(data: array2<real>, cone: Cone, ghost ctx: FillContext, ghost g: Grid,
               ghost processed: set<Cell>, queue: seq<Cell>, ghost from: map<Cell, Cell>, range: Range2)
      returns (queue': seq<Cell>, ghost processed': set<Cell>, ghost from': map<Cell, Cell>,
               range': Range2, ghost g': Grid)
    requires ctx.rows == data.Length0 && ctx.cols == data.Length1 && g == Snapshot(data)
    requires queue != []
    requires FillInvariant(ctx, cone, g, processed, queue, from, {})
    requires Bounds(ctx.rows, ctx.cols, processed, range)
    modifies data
    ensures g' == Snapshot(data)
    ensures processed' == processed + {queue[0]}
    ensures Bounds(ctx.rows, ctx.cols, processed', range')
    ensures forall q :: q in queue ==> q in processed' || q in queue'
    ensures FillInvariant(ctx, cone, g', processed', queue', from', {})
    ensures Potential(g', ctx.vals) < Potential(g, ctx.vals) || (g' == g && |queue'| < |queue|)
  {
    var p := queue[0];
    var rest := queue[1..];
    assert p in queue;
    range' := GrowBounds(data.Length0, data.Length1, processed, range, p);
    processed' := processed + {p};
    StartVisit(ctx, cone, g, processed, queue, from);
    var ns := Neighbours(p.0, p.1, data.Length0, data.Length1);
    queue', from', g' := RelaxAll(data, p, ns, cone, ctx, g, processed', rest, from);
    RelaxProgress(ctx, cone, g, rest, g', queue', p, ns);
    EndVisit(ctx, cone, g', processed', queue', from', p);
    QueueKept(queue, queue');
  }

  /** The outer loop of `propagate`: visit queued cells until the queue is
      empty. Ends in the fill state with nothing queued, every cell once
      queued processed and the rectangle holding every processed cell. */
  method FloodFill(data: array2<real>, cone: Cone, ghost ctx: FillContext, ghost g: Grid)
      returns (range: Range2, ghost processed: set<Cell>, ghost from: map<Cell, Cell>, ghost g': Grid)
    requires ctx.rows == data.Length0 && ctx.cols == data.Length1 && g == Snapshot(data)
    requires ctx.init == g && ctx.vals == Values(g, ctx.rows, ctx.cols, cone)
    requires InGrid(cone.origin, ctx.rows, ctx.cols)
    modifies data
    ensures g' == Snapshot(data)
    ensures forall i, j :: 0 <= i < ctx.rows && 0 <= j < ctx.cols ==> g'[i][j] >= ctx.init[i][j]
    ensures forall i, j :: 0 <= i < ctx.rows && 0 <= j < ctx.cols && g'[i][j] != ctx.init[i][j] ==>
      && (i, j) in processed
      && g'[i][j] <= cone.Cap((i, j))
      && (i, j) in from && IsNeighbour((i, j), from[(i, j)], ctx.rows, ctx.cols)
      && g'[i][j] <= g'[from[(i, j)].0][from[(i, j)].1]
    ensures forall p: Cell, m: Cell :: p in processed && IsNeighbour(p, m, ctx.rows, ctx.cols) ==>
      RelaxedAt(ctx, cone, g', p, m)
    ensures cone.origin in processed
    ensures forall p :: p in processed ==> InGrid(p, ctx.rows, ctx.cols) && (p == cone.origin || g'[p.0][p.1] != ctx.init[p.0][p.1])
    ensures Bounds(ctx.rows, ctx.cols, processed, range)
  {
    StartFill(ctx, cone);
    var queue: seq<Cell> := [cone.origin];
    range := EmptyRange2;
    processed := {};
    from := map[];
    g' := g;
    while queue != []
      invariant g' == Snapshot(data)
      invariant FillInvariant(ctx, cone, g', processed, queue, from, {})
      invariant cone.origin in processed || cone.origin in queue
      invariant Bounds(ctx.rows, ctx.cols, processed, range)
      decreases Potential(g', ctx.vals), |queue|
    {
      queue, processed, from, range, g' := Visit(data, cone, ctx, g', processed, queue, from, range);
    }
    FinishFill(ctx, cone, g', processed, from);
  }

  /** `propagate`: breadth-first flood fill from the edited cell. A dequeued
      cell p raises each neighbour m below min(height of p, cone bound of m)
      to that value and enqueues it. Returns the bounding rectangle of the
      dequeued cells; `processed` is the set of dequeued cells and `from`
      gives, for each changed cell, the neighbour it was last raised from.
      `dist` is the square root of a squared distance. */
  method Propagate(crow: nat, ccol: nat, data: array2<real>, dist: nat -> real)
      returns (range: Range2, ghost processed: set<Cell>, ghost from: map<Cell, Cell>)
    requires crow < data.Length0 && ccol < data.Length1
    modifies data
    ensures (crow, ccol) in processed
    ensures forall p :: p in processed ==> p.0 < data.Length0 && p.1 < data.Length1 && range.Contains(p.0, p.1)
    ensures Within(range, Range2(Interval(0, data.Length0), Interval(0, data.Length1)))
    // heights only go up, and only inside the returned rectangle
    ensures forall i, j :: 0 <= i < data.Length0 && 0 <= j < data.Length1 ==> data[i, j] >= old(data[i, j])
    ensures forall i, j :: 0 <= i < data.Length0 && 0 <= j < data.Length1 && data[i, j] != old(data[i, j]) ==>
      (i, j) in processed
    ensures forall i, j :: 0 <= i < data.Length0 && 0 <= j < data.Length1 && !range.Contains(i, j) ==>
      data[i, j] == old(data[i, j])
    // the returned rectangle is the bounding box of the edited cell and the changed cells
    ensures forall b: Range2 ::
      b.Contains(crow, ccol)
      && (forall i, j :: 0 <= i < data.Length0 && 0 <= j < data.Length1 && data[i, j] != old(data[i, j]) ==> b.Contains(i, j))
      ==> Within(range, b)
    // a changed cell lies under the cone and no higher than the neighbour it was raised from
    ensures var cone := Cone((crow, ccol), old(data[crow, ccol]), dist);
      forall i, j :: 0 <= i < data.Length0 && 0 <= j < data.Length1 && data[i, j] != old(data[i, j]) ==>
        && data[i, j] <= cone.Cap((i, j))
        && (i, j) in from && IsNeighbour((i, j), from[(i, j)], data.Length0, data.Length1)
        && data[i, j] <= data[from[(i, j)].0, from[(i, j)].1]
    // fixpoint: no processed cell would raise any of its neighbours any more
    ensures var cone := Cone((crow, ccol), old(data[crow, ccol]), dist);
      forall p: Cell, m: Cell :: p in processed && IsNeighbour(p, m, data.Length0, data.Length1) ==>
        data[m.0, m.1] >= MinReal(data[p.0, p.1], cone.Cap(m))
  {
    var cheight := data[crow, ccol];
    var cone := Cone((crow, ccol), cheight, dist);
    ghost var g := Snapshot(data);
    ghost var ctx := FillContext(data.Length0, data.Length1, g, Values(g, data.Length0, data.Length1, cone));
    range, processed, from, g := FloodFill(data, cone, ctx, g);
    assert forall i, j :: 0 <= i < ctx.rows && 0 <= j < ctx.cols ==> ctx.init[i][j] == old(data[i, j]);
    forall i, j | 0 <= i < data.Length0 && 0 <= j < data.Length1 && data[i, j] != old(data[i, j])
      ensures data[i, j] <= data[from[(i, j)].0, from[(i, j)].1]
    {
      assert g[i][j] != ctx.init[i][j];
      var f := from[(i, j)];
      assert g[f.0][f.1] == data[f.0, f.1];
    }
    forall b: Range2 | b.Contains(crow, ccol)
      && (forall i, j :: 0 <= i < data.Length0 && 0 <= j < data.Length1 && data[i, j] != old(data[i, j]) ==> b.Contains(i, j))
      ensures Within(range, b)
    {
      forall q | q in processed ensures b.Contains(q.0, q.1) {
        if q != (crow, ccol) {
          assert g[q.0][q.1] != ctx.init[q.0][q.1];
        }
      }
      assert Holds(b, processed);
    }
  }

  /** The cell `click_point` edits for a selected point with coordinates
      `z` (row) and `x` (column), or None when it returns early. Both
      coordinates are cast to indices before the bounds test, so the
      `row < 0 || col < 0` half of that test can never hold. */
  function ClickCell(z: real, x: real, rows: nat, cols: nat): (c: Option<Cell>)
    ensures c.Some? <==> CastToIndex(z) < rows && CastToIndex(x) < cols
    ensures c.Some? ==> c.value == (CastToIndex(z), CastToIndex(x)) && InGrid(c.value, rows, cols)
  {
    var row, col := CastToIndex(z), CastToIndex(x);
    if row >= rows || col >= cols then None else Some((row, col))
  }

  /** A point left of or above the grid is not rejected: it edits a cell on
      the grid's first row or column. */
  lemma NegativePointClampsToEdge(z: real, x: real, rows: nat, cols: nat)
    requires 0 < rows && 0 < cols
    requires z < 0.0 && 0.0 <= x < cols as real
    ensures var c := ClickCell(z, x, rows, cols); c.Some? && c.value.0 == 0 && c.value.1 == x.Floor
  {
  }

  /** `click_point`: while the left button is held, raise the elevation cell
      under the selected point (`z`, `x`) by 1, run the flood fill from it and
      mark dirty every block overlapping the rectangle it returns. With the
      button up, or the point past the grid, nothing changes. `range` is
      the rectangle the flood fill returned. */
  method ClickPoint(t: Terrain, pressed: bool, z: real, x: real, dist: nat -> real) returns (range: Range2)
    requires t.Valid() && Elevation in t.grids
    requires dist(0) == 0.0
    modifies t.grids[Elevation], t.blockInfo
    ensures t.Valid()
    ensures var g := t.grids[Elevation];
      var target := ClickCell(z, x, g.Length0, g.Length1);
      if !pressed || target.None? then
        unchanged(g) && unchanged(t.blockInfo)
      else
        var (r, c) := target.value;
        // the clicked cell rises by exactly 1 and no cell falls
        && g[r, c] == old(g[r, c]) + 1.0
        && (forall i, j :: 0 <= i < g.Length0 && 0 <= j < g.Length1 ==> g[i, j] >= old(g[i, j]))
        // the flood fill's rectangle is the bounding box of the changed cells
        && range.Contains(r, c)
        && (forall i, j :: 0 <= i < g.Length0 && 0 <= j < g.Length1 && !range.Contains(i, j) ==>
              g[i, j] == old(g[i, j]))
        && (forall b: Range2 ::
              (forall i, j :: 0 <= i < g.Length0 && 0 <= j < g.Length1 && g[i, j] != old(g[i, j]) ==> b.Contains(i, j))
              ==> Within(range, b))
        // a raised cell other than the clicked one lies under the cone
        && (forall i, j ::
              0 <= i < g.Length0 && 0 <= j < g.Length1 && (i, j) != (r as int, c as int) && g[i, j] != old(g[i, j])
              ==> g[i, j] <= old(g[r, c]) + 1.0 - dist(SquaredDistance((i, j), (r, c))))
        // exactly the blocks overlapping that rectangle become dirty
        && (forall br, bc :: 0 <= br < t.numBlocks.0 && 0 <= bc < t.numBlocks.1 ==>
              t.blockInfo[br, bc] == old(t.blockInfo[br, bc]).(dirty := old(t.blockInfo[br, bc].dirty)
                || BlockCells(br, bc).Overlaps(range)))
  {
    range := EmptyRange2;
    var g := t.grids[Elevation];
    if !pressed { return; }
    var target := ClickCell(z, x, g.Length0, g.Length1);
    if target.None? { return; }
    var (r, c) := target.value;
    range := RaiseCell(g, r, c, dist);
    t.DirtyRange(range);
  }

  /** The edit `click_point` makes to the grid: cell (`r`, `c`) rises by 1,
      then the flood fill runs from it; `range` is the rectangle it returns. */
  method RaiseCell(g: array2<real>, r: nat, c: nat, dist: nat -> real) returns (range: Range2)
    requires r < g.Length0 && c < g.Length1
    requires dist(0) == 0.0
    modifies g
    ensures g[r, c] == old(g[r, c]) + 1.0
    ensures forall i, j :: 0 <= i < g.Length0 && 0 <= j < g.Length1 ==> g[i, j] >= old(g[i, j])
    ensures range.Contains(r, c)
    ensures forall i, j :: 0 <= i < g.Length0 && 0 <= j < g.Length1 && !range.Contains(i, j) ==>
      g[i, j] == old(g[i, j])
    ensures forall b: Range2 ::
      (forall i, j :: 0 <= i < g.Length0 && 0 <= j < g.Length1 && g[i, j] != old(g[i, j]) ==> b.Contains(i, j))
      ==> Within(range, b)
    ensures forall i, j ::
      0 <= i < g.Length0 && 0 <= j < g.Length1 && (i, j) != (r as int, c as int) && g[i, j] != old(g[i, j])
      ==> g[i, j] <= old(g[r, c]) + 1.0 - dist(SquaredDistance((i, j), (r, c)))
  {
    g[r, c] := g[r, c] + 1.0;
    label raised:
    ghost var processed, from;
    range, processed, from := Propagate(r, c, g, dist);
    assert forall i, j :: 0 <= i < g.Length0 && 0 <= j < g.Length1 && (i, j) != (r as int, c as int) ==>
      old@raised(g[i, j]) == old(g[i, j]);
    // the cone's cap at the clicked cell is its own height, so the fill never raises it
    assert SquaredDistance((r, c), (r, c)) == 0;
    assert g[r, c] == old@raised(g[r, c]);
    forall b: Range2 | forall i, j :: 0 <= i < g.Length0 && 0 <= j < g.Length1 && g[i, j] != old(g[i, j]) ==> b.Contains(i, j)
      ensures Within(range, b)
    {
      assert b.Contains(r, c);
      assert forall i, j :: 0 <= i < g.Length0 && 0 <= j < g.Length1 && g[i, j] != old@raised(g[i, j]) ==> b.Contains(i, j);
    }
  }
}
