/** Triangulation of a square patch of heights: the two-triangles-per-cell
    baseline, and the right-triangulated irregular network (RTIN) of the
    MARTINI algorithm, which keeps splitting a right isosceles triangle at
    the midpoint of its long edge while the height error there is above a
    threshold. */
module Rtin {
  import opened Wrappers

  /** A vertex as (row, column) of the height grid. */
  type Vertex = (nat, nat)

  /** Three vertices, in the order the mesh builder emits them. */
  datatype Triangle = Triangle(v1: Vertex, v2: Vertex, v3: Vertex)

  // ---------------------------------------------------------------------
  // triangulate_basic
  // ---------------------------------------------------------------------

  /** The two triangles of cell (i, j): upper-left and lower-right halves. */
  function CellTriangles(i: nat, j: nat): seq<Triangle> {
    [Triangle((i, j), (i, j + 1), (i + 1, j)), Triangle((i + 1, j), (i, j + 1), (i + 1, j + 1))]
  }

  /** The triangles of the first `n` cells of row `i`, left to right. */
  function BasicRow(i: nat, n: nat): seq<Triangle> {
    if n == 0 then [] else BasicRow(i, n - 1) + CellTriangles(i, n - 1)
  }

  /** The triangles of the first `n` rows of cells, each `cols` cells wide,
      row by row. */
  function BasicRows(n: nat, cols: nat): seq<Triangle> {
    if n == 0 then [] else BasicRows(n - 1, cols) + BasicRow(n - 1, cols)
  }

  /** `triangulate_basic`: two triangles for every cell of the grid, cells in
      row-major order. */
  method TriangulateBasic(points: array2<real>) returns (triangles: seq<Triangle>)
    requires points.Length0 >= 1 && points.Length1 >= 1
    ensures triangles == BasicRows(points.Length0 - 1, points.Length1 - 1)
  {
    var h, w := points.Length0, points.Length1;
    triangles := [];
    var i := 0;
    while i < h - 1
      invariant 0 <= i <= h - 1
      invariant triangles == BasicRows(i, w - 1)
    {
      var j := 0;
      while j < w - 1
        invariant 0 <= j <= w - 1
        invariant triangles == BasicRows(i, w - 1) + BasicRow(i, j)
      {
        var v1, v2, v3, v4 := (i, j), (i, j + 1), (i + 1, j), (i + 1, j + 1);
        triangles := triangles + [Triangle(v1, v2, v3)];
        triangles := triangles + [Triangle(v3, v2, v4)];
        j := j + 1;
      }
      i := i + 1;
    }
  }

  lemma {:induction false} BasicRowCount(i: nat, n: nat)
    ensures |BasicRow(i, n)| == 2 * n
  {
    if n > 0 {
      BasicRowCount(i, n - 1);
    }
  }

  /** `triangulate_basic` emits exactly 2 (h - 1) (w - 1) triangles. */
  lemma {:induction false} BasicCount(n: nat, cols: nat)
    ensures |BasicRows(n, cols)| == 2 * n * cols
  {
    if n > 0 {
      BasicCount(n - 1, cols);
      BasicRowCount(n - 1, cols);
      assert 2 * n * cols == 2 * (n - 1) * cols + 2 * cols;
    }
  }

  /** A triangle is emitted exactly when it is one of the two triangles of
      some cell of the grid. */
  lemma {:induction false} BasicMembers(n: nat, cols: nat, t: Triangle)
    ensures t in BasicRows(n, cols) <==> exists i, j :: 0 <= i < n && 0 <= j < cols && t in CellTriangles(i, j)
  {
    if t in BasicRows(n, cols) {
      var i, j := BasicMembersDown(n, cols, t);
    }
    if exists i, j :: 0 <= i < n && 0 <= j < cols && t in CellTriangles(i, j) {
      var i, j :| 0 <= i < n && 0 <= j < cols && t in CellTriangles(i, j);
      BasicMembersUp(n, cols, t, i, j);
    }
  }

  /** The cell an emitted triangle belongs to. */
  lemma {:induction false} BasicMembersDown(n: nat, cols: nat, t: Triangle) returns (i: nat, j: nat)
    requires t in BasicRows(n, cols)
    ensures i < n && j < cols && t in CellTriangles(i, j)
  {
    var inLast := BasicRowsSplit(n, cols, t);
    if inLast {
      i := n - 1;
      j := BasicRowCell(i, cols, t);
    } else {
      i, j := BasicMembersDown(n - 1, cols, t);
    }
  }

  /** A triangle of the first `n` rows is in the last of them or in the
      rows before. */
  lemma BasicRowsSplit(n: nat, cols: nat, t: Triangle) returns (inLast: bool)
    requires t in BasicRows(n, cols)
    ensures n > 0
    ensures inLast ==> t in BasicRow(n - 1, cols)
    ensures !inLast ==> t in BasicRows(n - 1, cols)
  {
    assert BasicRows(n, cols) == BasicRows(n - 1, cols) + BasicRow(n - 1, cols);
    inLast := t in BasicRow(n - 1, cols);
  }

  /** The cell of row `i` a triangle of that row belongs to. */
  lemma {:induction false} BasicRowCell(i: nat, n: nat, t: Triangle) returns (j: nat)
    requires t in BasicRow(i, n)
    ensures j < n && t in CellTriangles(i, j)
  {
    assert n > 0 && BasicRow(i, n) == BasicRow(i, n - 1) + CellTriangles(i, n - 1);
    if t in BasicRow(i, n - 1) {
      j := BasicRowCell(i, n - 1, t);
    } else {
      j := n - 1;
    }
  }

  lemma {:induction false} BasicMembersUp(n: nat, cols: nat, t: Triangle, i: nat, j: nat)
    requires i < n && j < cols && t in CellTriangles(i, j)
    ensures t in BasicRows(n, cols)
  {
    assert BasicRows(n, cols) == BasicRows(n - 1, cols) + BasicRow(n - 1, cols);
    if i < n - 1 {
      BasicMembersUp(n - 1, cols, t, i, j);
    } else {
      BasicRowCellUp(i, cols, t, j);
    }
  }

  /** A triangle of cell `j` of row `i` is among that row's triangles. */
  lemma {:induction false} BasicRowCellUp(i: nat, n: nat, t: Triangle, j: nat)
    requires j < n && t in CellTriangles(i, j)
    ensures t in BasicRow(i, n)
  {
    assert BasicRow(i, n) == BasicRow(i, n - 1) + CellTriangles(i, n - 1);
    if j < n - 1 {
      BasicRowCellUp(i, n - 1, t, j);
    }
  }

  /** Every vertex of every cell triangle of an n x cols grid of cells lies
      on the (n + 1) x (cols + 1) grid of points. */
  lemma {:induction false} BasicInGrid(n: nat, cols: nat, t: Triangle)
    requires t in BasicRows(n, cols)
    ensures TriangleWithin(t, n, cols)
  {
    BasicMembers(n, cols, t);
  }

  /** Every vertex lies at row at most `maxRow` and column at most `maxCol`. */
  predicate TriangleWithin(t: Triangle, maxRow: nat, maxCol: nat) {
    && t.v1.0 <= maxRow && t.v2.0 <= maxRow && t.v3.0 <= maxRow
    && t.v1.1 <= maxCol && t.v2.1 <= maxCol && t.v3.1 <= maxCol
  }

  /** The unit test `trivial`: a 2 x 2 patch gives two triangles. */
  lemma BasicTrivial()
    ensures BasicRows(1, 1) == [Triangle((0, 0), (0, 1), (1, 0)), Triangle((1, 0), (0, 1), (1, 1))]
    ensures |BasicRows(1, 1)| == 2
  {
  }

  // ---------------------------------------------------------------------
  // Geometry of the RTIN triangles
  // ---------------------------------------------------------------------

  /** A grid point as (x, y) = (column, row), or a vector between two. */
  datatype Point = Point(x: int, y: int)

  function Sub(a: Point, b: Point): Point { Point(a.x - b.x, a.y - b.y) }

  function Abs(n: int): nat { if n < 0 then -n else n }

  function Max(a: nat, b: nat): nat { if a < b then b else a }

  /** A quarter turn: the second leg of every RTIN triangle is its first leg
      turned this way. */
  function Rot(u: Point): Point { Point(u.y, -u.x) }

  predicate IsPow2(n: nat) {
    if n <= 1 then n == 1 else n % 2 == 0 && IsPow2(n / 2)
  }

  /** A leg of an RTIN triangle: along an axis or a diagonal, with a
      power-of-two extent. */
  predicate IsLeg(u: Point) {
    || (u.y == 0 && IsPow2(Abs(u.x)))
    || (u.x == 0 && IsPow2(Abs(u.y)))
    || (Abs(u.x) == Abs(u.y) && IsPow2(Abs(u.x)))
  }

  /** Triangle (a, b, c) is right isosceles with the right angle at `c`,
      the long edge from `a` to `b`, and b - c the quarter turn of a - c. */
  predicate Shape(a: Point, b: Point, c: Point) {
    IsLeg(Sub(a, c)) && Sub(b, c) == Rot(Sub(a, c))
  }

  /** Both coordinates within 0..=tile. */
  predicate InTile(p: Point, tile: nat) {
    0 <= p.x <= tile && 0 <= p.y <= tile
  }

  /** `(ax + bx) >> 1, (ay + by) >> 1`: the midpoint, rounded down. */
  function Mid(a: Point, b: Point): (m: Point)
    requires a.x + b.x >= 0 && a.y + b.y >= 0
    ensures a.x <= m.x <= b.x || b.x <= m.x <= a.x
    ensures a.y <= m.y <= b.y || b.y <= m.y <= a.y
  {
    Point((a.x + b.x) / 2, (a.y + b.y) / 2)
  }

  /** `|ax - cx| + |ay - cy|`: the test that stops splitting. */
  function LegLength(u: Point): nat { Abs(u.x) + Abs(u.y) }

  /** Decreases with every split (an axis leg of extent s gives diagonal
      legs of extent s / 2, a diagonal leg of extent s axis legs of extent
      s). */
  function Measure(u: Point): nat { Abs(u.x) + Abs(u.y) + Max(Abs(u.x), Abs(u.y)) }

  /** Twice the area of the triangle whose leg is `u`. */
  function Weight(u: Point): nat { u.x * u.x + u.y * u.y }

  lemma {:induction false} Pow2Half(s: nat)
    requires IsPow2(s) && s > 1
    ensures s % 2 == 0 && IsPow2(s / 2) && s / 2 >= 1
  {
  }

  /** An integer of even magnitude is twice its half. */
  lemma {:induction false} EvenHalf(n: int)
    requires Abs(n) % 2 == 0
    ensures n == 2 * (n / 2) && Abs(n / 2) == Abs(n) / 2
  {
    if n < 0 {
      var k := (-n) / 2;
      assert -n == 2 * k;
      assert n / 2 == -k;
    }
  }

  function Neg(u: Point): Point { Point(-u.x, -u.y) }

  /** Half of u + Rot(u): the vector from the right-angle corner to the
      midpoint of the long edge. */
  function HalfDiagonal(u: Point): Point { Point((u.x + u.y) / 2, (u.y - u.x) / 2) }

  /** A leg longer than 1 is one of four kinds, each with a power-of-two
      half-extent `h`: (2h, 0), (0, 2h), (h, h) or (-h, h). For each, the
      legs -w and Rot(u) - w of the two halves, where w = HalfDiagonal(u). */
  lemma {:induction false} LegKinds(u: Point) returns (h: int, kind: nat)
    requires IsLeg(u) && LegLength(u) > 1
    ensures IsPow2(Abs(h)) && kind <= 3
    ensures var w := HalfDiagonal(u);
      && (kind == 0 ==> u == Point(2 * h, 0) && Neg(w) == Point(-h, h) && Sub(Rot(u), w) == Point(-h, -h))
      && (kind == 1 ==> u == Point(0, 2 * h) && Neg(w) == Point(-h, -h) && Sub(Rot(u), w) == Point(h, -h))
      && (kind == 2 ==> u == Point(h, h) && Neg(w) == Point(-h, 0) && Sub(Rot(u), w) == Point(0, -h))
      && (kind == 3 ==> u == Point(-h, h) && Neg(w) == Point(0, -h) && Sub(Rot(u), w) == Point(h, 0))
  {
    var w := HalfDiagonal(u);
    if u.y == 0 {
      Pow2Half(Abs(u.x));
      EvenHalf(u.x);
      h, kind := u.x / 2, 0;
      assert w == Point(h, -h);
    } else if u.x == 0 {
      Pow2Half(Abs(u.y));
      EvenHalf(u.y);
      h, kind := u.y / 2, 1;
      assert w == Point(h, h);
    } else if u.x == u.y {
      h, kind := u.x, 2;
      assert w == Point(h, 0);
    } else {
      h, kind := u.y, 3;
      assert w == Point(0, h);
    }
  }

  /** A leg longer than 1 has u + Rot(u) even in both coordinates. */
  lemma {:induction false} LegSplitEven(u: Point)
    requires IsLeg(u) && LegLength(u) > 1
    ensures var w := HalfDiagonal(u); 2 * w.x == u.x + u.y && 2 * w.y == u.y - u.x
  {
    var h, kind := LegKinds(u);
  }

  /** The legs of the two halves, -w and Rot(u) - w, are legs again. */
  lemma {:induction false} LegSplitShape(u: Point)
    requires IsLeg(u) && LegLength(u) > 1
    ensures var w := HalfDiagonal(u); IsLeg(Neg(w)) && IsLeg(Sub(Rot(u), w))
  {
    var h, kind := LegKinds(u);
    assert Abs(-h) == Abs(h);
  }

  /** Both halves have a smaller measure. */
  lemma {:induction false} LegSplitMeasure(u: Point)
    requires IsLeg(u) && LegLength(u) > 1
    ensures var w := HalfDiagonal(u); Measure(Neg(w)) < Measure(u) && Measure(Sub(Rot(u), w)) < Measure(u)
  {
    var h, kind := LegKinds(u);
    Measures(h);
    assert Abs(h) >= 1;
  }

  lemma {:induction false} Measures(h: int)
    ensures Measure(Point(2 * h, 0)) == 4 * Abs(h) && Measure(Point(0, 2 * h)) == 4 * Abs(h)
    ensures Measure(Point(h, h)) == 3 * Abs(h) && Measure(Point(-h, h)) == 3 * Abs(h)
    ensures Measure(Point(-h, -h)) == 3 * Abs(h) && Measure(Point(h, -h)) == 3 * Abs(h)
    ensures Measure(Point(-h, 0)) == 2 * Abs(h) && Measure(Point(0, -h)) == 2 * Abs(h)
    ensures Measure(Point(h, 0)) == 2 * Abs(h)
  {
    assert Abs(-h) == Abs(h) && Abs(2 * h) == 2 * Abs(h);
  }

  /** Each half has half the area. */
  lemma {:induction false} LegSplitWeight(u: Point)
    requires IsLeg(u) && LegLength(u) > 1
    ensures var w := HalfDiagonal(u);
      Weight(Neg(w)) == Weight(Sub(Rot(u), w)) && 2 * Weight(Neg(w)) == Weight(u)
  {
    var h, kind := LegKinds(u);
    Squares(h);
  }

  lemma {:induction false} Squares(h: int)
    ensures Weight(Point(-h, h)) == 2 * (h * h) && Weight(Point(-h, -h)) == 2 * (h * h)
    ensures Weight(Point(h, -h)) == 2 * (h * h) && Weight(Point(h, h)) == 2 * (h * h)
    ensures Weight(Point(2 * h, 0)) == 4 * (h * h) && Weight(Point(0, 2 * h)) == 4 * (h * h)
    ensures Weight(Point(-h, 0)) == h * h && Weight(Point(0, -h)) == h * h
    ensures Weight(Point(h, 0)) == h * h && Weight(Point(0, h)) == h * h
  {
    assert (-h) * (-h) == h * h;
    assert (2 * h) * (2 * h) == 4 * (h * h);
  }

  /** Splitting a triangle whose leg is longer than 1 at the midpoint of its
      long edge gives the two triangles (c, a, m) and (b, c, m) of the same
      shape, each with a smaller measure. */
  lemma {:induction false} ChildShapes(a: Point, b: Point, c: Point)
    requires Shape(a, b, c) && LegLength(Sub(a, c)) > 1
    requires a.x + b.x >= 0 && a.y + b.y >= 0
    ensures var m := Mid(a, b);
      && Shape(c, a, m) && Shape(b, c, m)
      && Measure(Sub(c, m)) < Measure(Sub(a, c)) && Measure(Sub(b, m)) < Measure(Sub(a, c))
  {
    var u := Sub(a, c);
    var w := HalfDiagonal(u);
    ChildLegs(a, b, c);
    LegSplitShape(u);
    LegSplitMeasure(u);
  }

  /** ... and each of the two has half its area. */
  lemma {:induction false} ChildAreas(a: Point, b: Point, c: Point)
    requires Shape(a, b, c) && LegLength(Sub(a, c)) > 1
    requires a.x + b.x >= 0 && a.y + b.y >= 0
    ensures var m := Mid(a, b);
      Weight(Sub(c, m)) == Weight(Sub(b, m)) && 2 * Weight(Sub(c, m)) == Weight(Sub(a, c))
  {
    ChildLegs(a, b, c);
    LegSplitWeight(Sub(a, c));
  }

  /** The legs of the two halves in terms of the leg u = a - c. */
  lemma {:induction false} ChildLegs(a: Point, b: Point, c: Point)
    requires Shape(a, b, c) && LegLength(Sub(a, c)) > 1
    requires a.x + b.x >= 0 && a.y + b.y >= 0
    ensures var u, m := Sub(a, c), Mid(a, b); var w := HalfDiagonal(u);
      && Sub(c, m) == Neg(w) && Sub(a, m) == Rot(Neg(w))
      && Sub(b, m) == Sub(Rot(u), w) && Sub(c, m) == Rot(Sub(Rot(u), w))
  {
    var u := Sub(a, c);
    var w := HalfDiagonal(u);
    LegSplitEven(u);
    var m := Mid(a, b);
    assert m == Point(c.x + w.x, c.y + w.y);
  }

  // ---------------------------------------------------------------------
  // build_rtin_mesh
  // ---------------------------------------------------------------------

  /** The triangle (a, b, c) as emitted: each vertex as (row, column). */
  function Emit(a: Point, b: Point, c: Point, tile: nat): (t: Triangle)
    requires InTile(a, tile) && InTile(b, tile) && InTile(c, tile)
    ensures TriangleWithin(t, tile, tile)
  {
    Triangle((a.y, a.x), (b.y, b.x), (c.y, c.x))
  }

  /** What `process_triangle` needs of its triangle: RTIN shape, every
      vertex on a tile that fits in the error map. */
  predicate Processable(a: Point, b: Point, c: Point, tile: nat, errors: array2<real>) {
    && Shape(a, b, c)
    && InTile(a, tile) && InTile(b, tile) && InTile(c, tile)
    && tile < errors.Length0 && tile < errors.Length1
  }

  /** The triangles `process_triangle` emits for (a, b, c): split at the
      midpoint `m` of the long edge into (c, a, m) and (b, c, m) when the leg
      is longer than 1 and the error stored at `m` exceeds the threshold,
      otherwise the triangle itself. */
  function Split(a: Point, b: Point, c: Point, tile: nat, threshold: real, errors: array2<real>): (ts: seq<Triangle>)
    requires Processable(a, b, c, tile, errors)
    reads errors
    ensures |ts| >= 1
    decreases Measure(Sub(a, c))
  {
    var m := Mid(a, b);
    if LegLength(Sub(a, c)) > 1 && errors[m.y, m.x] > threshold then
      ChildShapes(a, b, c);
      Split(c, a, m, tile, threshold, errors) + Split(b, c, m, tile, threshold, errors)
    else
      [Emit(a, b, c, tile)]
  }

  /** Every vertex of every emitted triangle has both coordinates in
      0..=tile. */
  lemma {:induction false} SplitInTile(a: Point, b: Point, c: Point, tile: nat, threshold: real, errors: array2<real>)
    requires Processable(a, b, c, tile, errors)
    ensures forall t :: t in Split(a, b, c, tile, threshold, errors) ==> TriangleWithin(t, tile, tile)
    decreases Measure(Sub(a, c))
  {
    var m := Mid(a, b);
    MidInTile(a, b, tile);
    if LegLength(Sub(a, c)) > 1 && errors[m.y, m.x] > threshold {
      ChildrenProcessable(a, b, c, tile, errors);
      SplitDivides(a, b, c, tile, threshold, errors);
      SplitInTile(c, a, m, tile, threshold, errors);
      SplitInTile(b, c, m, tile, threshold, errors);
    } else {
      SplitKeeps(a, b, c, tile, threshold, errors);
    }
  }

  /** The midpoint of the long edge lies on the tile. */
  lemma {:induction false} MidInTile(a: Point, b: Point, tile: nat)
    requires InTile(a, tile) && InTile(b, tile)
    ensures InTile(Mid(a, b), tile)
  {
  }

  /** When (a, b, c) is split, both halves can be processed, each with a
      smaller measure. */
  lemma {:induction false} ChildrenProcessable(a: Point, b: Point, c: Point, tile: nat, errors: array2<real>)
    requires Processable(a, b, c, tile, errors) && LegLength(Sub(a, c)) > 1
    ensures var m := Mid(a, b);
      && Processable(c, a, m, tile, errors) && Processable(b, c, m, tile, errors)
      && Measure(Sub(c, m)) < Measure(Sub(a, c)) && Measure(Sub(b, m)) < Measure(Sub(a, c))
  {
    ChildShapes(a, b, c);
    MidInTile(a, b, tile);
  }

  /** `Split` on a triangle that is divided. */
  lemma {:induction false} SplitDivides(a: Point, b: Point, c: Point, tile: nat, threshold: real, errors: array2<real>)
    requires Processable(a, b, c, tile, errors) && LegLength(Sub(a, c)) > 1
    requires InTile(Mid(a, b), tile) && errors[Mid(a, b).y, Mid(a, b).x] > threshold
    requires Processable(c, a, Mid(a, b), tile, errors) && Processable(b, c, Mid(a, b), tile, errors)
    ensures Split(a, b, c, tile, threshold, errors)
      == Split(c, a, Mid(a, b), tile, threshold, errors) + Split(b, c, Mid(a, b), tile, threshold, errors)
  {
  }

  /** `Split` on a triangle that is kept whole. */
  lemma {:induction false} SplitKeeps(a: Point, b: Point, c: Point, tile: nat, threshold: real, errors: array2<real>)
    requires Processable(a, b, c, tile, errors) && InTile(Mid(a, b), tile)
    requires !(LegLength(Sub(a, c)) > 1 && errors[Mid(a, b).y, Mid(a, b).x] > threshold)
    ensures Split(a, b, c, tile, threshold, errors) == [Emit(a, b, c, tile)]
  {
  }

  lemma PairConcat<T>(x: T, y: T)
    ensures [x] + [y] == [x, y]
  {
  }

  /** `process_triangle`: append to `triangles` the triangles of (a, b, c). */
  method ProcessTriangle(a: Point, b: Point, c: Point, tile: nat, threshold: real, errors: array2<real>,
                         triangles: seq<Triangle>) returns (triangles': seq<Triangle>)
    requires Processable(a, b, c, tile, errors)
    ensures triangles' == triangles + Split(a, b, c, tile, threshold, errors)
    decreases Measure(Sub(a, c))
  {
    var m := Mid(a, b);
    MidInTile(a, b, tile);
    if LegLength(Sub(a, c)) > 1 && errors[m.y, m.x] > threshold {
      ChildrenProcessable(a, b, c, tile, errors);
      var left := ProcessTriangle(c, a, m, tile, threshold, errors, triangles);
      triangles' := ProcessTriangle(b, c, m, tile, threshold, errors, left);
      SplitDivides(a, b, c, tile, threshold, errors);
      AppendAssoc(triangles, Split(c, a, m, tile, threshold, errors), Split(b, c, m, tile, threshold, errors));
    } else {
      SplitKeeps(a, b, c, tile, threshold, errors);
      triangles' := triangles + [Emit(a, b, c, tile)];
    }
  }

  /** Both roots are processable on a tile of power-of-two side: the
      triangle (0, 0), (t, t) with the right angle at (t, 0), and the
      triangle (t, t), (0, 0) with the right angle at (0, t). */
  lemma {:induction false} RootsProcessable(tile: nat, errors: array2<real>)
    requires IsPow2(tile) && tile < errors.Length0 && tile < errors.Length1
    ensures Processable(Point(0, 0), Point(tile, tile), Point(tile, 0), tile, errors)
    ensures Processable(Point(tile, tile), Point(0, 0), Point(0, tile), tile, errors)
  {
    assert Abs(-(tile as int)) == tile;
  }

  /** The mesh `build_rtin_mesh` returns: the triangles of the first root,
      then those of the second. */
  function RtinMesh(tile: nat, threshold: real, errors: array2<real>): (mesh: seq<Triangle>)
    requires IsPow2(tile) && tile < errors.Length0 && tile < errors.Length1
    reads errors
    ensures |mesh| >= 2
    ensures forall t :: t in mesh ==> TriangleWithin(t, tile, tile)
  {
    RootsProcessable(tile, errors);
    SplitInTile(Point(0, 0), Point(tile, tile), Point(tile, 0), tile, threshold, errors);
    SplitInTile(Point(tile, tile), Point(0, 0), Point(0, tile), tile, threshold, errors);
    Split(Point(0, 0), Point(tile, tile), Point(tile, 0), tile, threshold, errors)
    + Split(Point(tile, tile), Point(0, 0), Point(0, tile), tile, threshold, errors)
  }

  /** `build_rtin_mesh` on a patch of side 2^k + 1. */
  method BuildRtinMesh(points: array2<real>, threshold: real, errors: array2<real>) returns (triangles: seq<Triangle>)
    requires points.Length0 >= 2 && IsPow2(points.Length0 - 1)
    requires points.Length0 <= errors.Length0 && points.Length0 <= errors.Length1
    ensures triangles == RtinMesh(points.Length0 - 1, threshold, errors)
  {
    var tile := points.Length0 - 1;
    triangles := [];
    RootsProcessable(tile, errors);
    triangles := ProcessTriangle(Point(0, 0), Point(tile, tile), Point(tile, 0), tile, threshold, errors, triangles);
    triangles := ProcessTriangle(Point(tile, tile), Point(0, 0), Point(0, tile), tile, threshold, errors, triangles);
    AppendAssoc([], Split(Point(0, 0), Point(tile, tile), Point(tile, 0), tile, threshold, errors),
      Split(Point(tile, tile), Point(0, 0), Point(0, tile), tile, threshold, errors));
    EmptyAppend(RtinMesh(tile, threshold, errors));
  }

  /** With a threshold at or above every stored error no triangle is split:
      the mesh is the two roots. */
  lemma {:induction false} HighThresholdGivesRoots(tile: nat, threshold: real, errors: array2<real>)
    requires IsPow2(tile) && tile < errors.Length0 && tile < errors.Length1
    requires forall i, j :: 0 <= i < errors.Length0 && 0 <= j < errors.Length1 ==> errors[i, j] <= threshold
    ensures RtinMesh(tile, threshold, errors) == [
      Triangle((0, 0), (tile, tile), (0, tile)),
      Triangle((tile, tile), (0, 0), (tile, 0))]
  {
    RootsProcessable(tile, errors);
    RootKept(Point(0, 0), Point(tile, tile), Point(tile, 0), tile, threshold, errors);
    RootKept(Point(tile, tile), Point(0, 0), Point(0, tile), tile, threshold, errors);
    PairConcat(Triangle((0, 0), (tile, tile), (0, tile)), Triangle((tile, tile), (0, 0), (tile, 0)));
  }

  /** A triangle whose midpoint error is at most the threshold is emitted
      whole. */
  lemma {:induction false} RootKept(a: Point, b: Point, c: Point, tile: nat, threshold: real, errors: array2<real>)
    requires Processable(a, b, c, tile, errors)
    requires forall i, j :: 0 <= i < errors.Length0 && 0 <= j < errors.Length1 ==> errors[i, j] <= threshold
    ensures Split(a, b, c, tile, threshold, errors) == [Triangle((a.y, a.x), (b.y, b.x), (c.y, c.x))]
  {
    MidInTile(a, b, tile);
    SplitKeeps(a, b, c, tile, threshold, errors);
  }

  /** The square of a nonzero integer is at least 1, and exactly 1 for a
      unit. */
  lemma {:induction false} SquareOfNonzero(n: int)
    requires n != 0
    ensures n * n >= 1 && (Abs(n) == 1 ==> n * n == 1)
  {
    var k := Abs(n);
    assert n * n == k * k;
    assert k * k == k + k * (k - 1);
    assert k * (k - 1) >= 0;
  }

  /** A leg is never the zero vector ... */
  lemma {:induction false} LegNonzero(u: Point)
    requires IsLeg(u)
    ensures LegLength(u) >= 1
  {
  }

  /** ... so its triangle has positive area. */
  lemma {:induction false} WeightOfLeg(u: Point)
    requires LegLength(u) >= 1
    ensures Weight(u) >= 1
    ensures LegLength(u) == 1 ==> Weight(u) == 1
  {
    if u.x != 0 {
      SquareOfNonzero(u.x);
      assert u.y * u.y >= 0;
    }
    if u.y != 0 {
      SquareOfNonzero(u.y);
      assert u.x * u.x >= 0;
    }
  }

  /** Every emitted triangle covers at least the smallest area, so the
      triangles of (a, b, c) number at most twice its area. */
  lemma {:induction false} SplitCountBound(a: Point, b: Point, c: Point, tile: nat, threshold: real, errors: array2<real>)
    requires Processable(a, b, c, tile, errors)
    ensures |Split(a, b, c, tile, threshold, errors)| <= Weight(Sub(a, c))
    decreases Measure(Sub(a, c))
  {
    var m := Mid(a, b);
    MidInTile(a, b, tile);
    if LegLength(Sub(a, c)) > 1 && errors[m.y, m.x] > threshold {
      ChildrenProcessable(a, b, c, tile, errors);
      ChildAreas(a, b, c);
      SplitDivides(a, b, c, tile, threshold, errors);
      SplitCountBound(c, a, m, tile, threshold, errors);
      SplitCountBound(b, c, m, tile, threshold, errors);
    } else {
      SplitKeeps(a, b, c, tile, threshold, errors);
      LegNonzero(Sub(a, c));
      WeightOfLeg(Sub(a, c));
    }
  }

  /** With a threshold below every stored error each triangle is split down
      to legs of length 1: the count is exactly twice the area. */
  lemma {:induction false} SplitCountFull(a: Point, b: Point, c: Point, tile: nat, threshold: real, errors: array2<real>)
    requires Processable(a, b, c, tile, errors)
    requires forall i, j :: 0 <= i < errors.Length0 && 0 <= j < errors.Length1 ==> errors[i, j] > threshold
    ensures |Split(a, b, c, tile, threshold, errors)| == Weight(Sub(a, c))
    decreases Measure(Sub(a, c))
  {
    var m := Mid(a, b);
    MidInTile(a, b, tile);
    if LegLength(Sub(a, c)) > 1 {
      assert errors[m.y, m.x] > threshold;
      ChildrenProcessable(a, b, c, tile, errors);
      ChildAreas(a, b, c);
      SplitDivides(a, b, c, tile, threshold, errors);
      SplitCountFull(c, a, m, tile, threshold, errors);
      SplitCountFull(b, c, m, tile, threshold, errors);
    } else {
      SplitKeeps(a, b, c, tile, threshold, errors);
      LegNonzero(Sub(a, c));
      WeightOfLeg(Sub(a, c));
    }
  }

  /** The two roots each have twice-area tile * tile. */
  lemma {:induction false} RootWeights(tile: nat)
    ensures Weight(Sub(Point(0, 0), Point(tile, 0))) == tile * tile
    ensures Weight(Sub(Point(tile, tile), Point(0, tile))) == tile * tile
    ensures 2 * tile * tile == tile * tile + tile * tile
  {
    assert Sub(Point(0, 0), Point(tile, 0)) == Point(-(tile as int), 0);
    assert (-(tile as int)) * (-(tile as int)) == tile * tile;
  }

  /** An RTIN mesh never has more triangles than the basic triangulation of
      the same patch. */
  lemma {:induction false} RtinMeshBound(tile: nat, threshold: real, errors: array2<real>)
    requires IsPow2(tile) && tile < errors.Length0 && tile < errors.Length1
    ensures |RtinMesh(tile, threshold, errors)| <= 2 * tile * tile == |BasicRows(tile, tile)|
  {
    RootsProcessable(tile, errors);
    var first := Split(Point(0, 0), Point(tile, tile), Point(tile, 0), tile, threshold, errors);
    var second := Split(Point(tile, tile), Point(0, 0), Point(0, tile), tile, threshold, errors);
    SplitCountBound(Point(0, 0), Point(tile, tile), Point(tile, 0), tile, threshold, errors);
    SplitCountBound(Point(tile, tile), Point(0, 0), Point(0, tile), tile, threshold, errors);
    RootWeights(tile);
    assert RtinMesh(tile, threshold, errors) == first + second;
    assert |first + second| == |first| + |second|;
    BasicCount(tile, tile);
  }

  /** With a threshold below every stored error the RTIN mesh has exactly as
      many triangles as the basic triangulation. */
  lemma {:induction false} RtinMeshFull(tile: nat, threshold: real, errors: array2<real>)
    requires IsPow2(tile) && tile < errors.Length0 && tile < errors.Length1
    requires forall i, j :: 0 <= i < errors.Length0 && 0 <= j < errors.Length1 ==> errors[i, j] > threshold
    ensures |RtinMesh(tile, threshold, errors)| == 2 * tile * tile == |BasicRows(tile, tile)|
  {
    RootsProcessable(tile, errors);
    var first := Split(Point(0, 0), Point(tile, tile), Point(tile, 0), tile, threshold, errors);
    var second := Split(Point(tile, tile), Point(0, 0), Point(0, tile), tile, threshold, errors);
    SplitCountFull(Point(0, 0), Point(tile, tile), Point(tile, 0), tile, threshold, errors);
    SplitCountFull(Point(tile, tile), Point(0, 0), Point(0, tile), tile, threshold, errors);
    RootWeights(tile);
    assert RtinMesh(tile, threshold, errors) == first + second;
    assert |first + second| == |first| + |second|;
    BasicCount(tile, tile);
  }

  /** Raising the threshold never adds triangles. */
  lemma {:induction false} SplitMonotone(a: Point, b: Point, c: Point, tile: nat, t1: real, t2: real, errors: array2<real>)
    requires Processable(a, b, c, tile, errors) && t1 <= t2
    ensures |Split(a, b, c, tile, t2, errors)| <= |Split(a, b, c, tile, t1, errors)|
    decreases Measure(Sub(a, c))
  {
    var m := Mid(a, b);
    MidInTile(a, b, tile);
    if LegLength(Sub(a, c)) > 1 && errors[m.y, m.x] > t2 {
      ChildrenProcessable(a, b, c, tile, errors);
      SplitDivides(a, b, c, tile, t1, errors);
      SplitDivides(a, b, c, tile, t2, errors);
      SplitMonotone(c, a, m, tile, t1, t2, errors);
      SplitMonotone(b, c, m, tile, t1, t2, errors);
    } else {
      SplitKeeps(a, b, c, tile, t2, errors);
    }
  }

  /** Raising the threshold never adds triangles to the whole mesh. */
  lemma {:induction false} RtinMeshMonotone(tile: nat, t1: real, t2: real, errors: array2<real>)
    requires IsPow2(tile) && tile < errors.Length0 && tile < errors.Length1 && t1 <= t2
    ensures |RtinMesh(tile, t2, errors)| <= |RtinMesh(tile, t1, errors)|
  {
    RootsProcessable(tile, errors);
    SplitMonotone(Point(0, 0), Point(tile, tile), Point(tile, 0), tile, t1, t2, errors);
    SplitMonotone(Point(tile, tile), Point(0, 0), Point(0, tile), tile, t1, t2, errors);
  }

  /** A triangle emitted whole under threshold t1 is emitted whole under
      any higher threshold. */
  lemma {:induction false} UnsplitStaysUnsplit(a: Point, b: Point, c: Point, tile: nat, t1: real, t2: real, errors: array2<real>)
    requires Processable(a, b, c, tile, errors) && t1 <= t2
    requires |Split(a, b, c, tile, t1, errors)| == 1
    ensures Split(a, b, c, tile, t2, errors) == [Emit(a, b, c, tile)]
  {
  }

  // ---------------------------------------------------------------------
  // build_error_map
  // ---------------------------------------------------------------------

  /** A triangle as the error-map builder tracks it: long edge from `a` to
      `b`, right angle at `c`. */
  datatype Tri = Tri(a: Point, b: Point, c: Point)

  predicate TriInTile(t: Tri, tile: nat) {
    InTile(t.a, tile) && InTile(t.b, tile) && InTile(t.c, tile)
  }

  /** The root chosen by the lowest bit of the id: odd ids lie in the
      bottom-left root (0, 0), (t, t), (t, 0), even ids in the top-right
      root (t, t), (0, 0), (0, t). */
  function Root(id: nat, tile: nat): (t: Tri)
    ensures TriInTile(t, tile)
  {
    if id % 2 == 1 then Tri(Point(0, 0), Point(tile, tile), Point(tile, 0))
    else Tri(Point(tile, tile), Point(0, 0), Point(0, tile))
  }

  /** The half of `t` chosen by one bit: 1 the left half (c, a, m), 0 the
      right half (b, c, m), with m the midpoint of the long edge. */
  function Child(t: Tri, bit: nat, tile: nat): (r: Tri)
    requires TriInTile(t, tile)
    ensures TriInTile(r, tile)
  {
    MidInTile(t.a, t.b, tile);
    var m := Mid(t.a, t.b);
    if bit == 1 then Tri(t.c, t.a, m) else Tri(t.b, t.c, m)
  }

  /** Descend from `t` along the bits of `id` above its lowest, lowest bit
      first, stopping below the leading 1. */
  function Descend(t: Tri, id: nat, tile: nat): (r: Tri)
    requires TriInTile(t, tile)
    ensures TriInTile(r, tile)
    decreases id
  {
    var next := id / 2;
    if next <= 1 then t else Descend(Child(t, next % 2, tile), next, tile)
  }

  /** The triangle with index `i` in the implicit binary tree of all RTIN
      triangles of the tile. */
  function Locate(i: nat, tile: nat): (t: Tri)
    ensures TriInTile(t, tile)
  {
    Descend(Root(i + 2, tile), i + 2, tile)
  }

  /** Ids 2 and 3 are the roots themselves. */
  lemma {:induction false} LocateRoots(tile: nat)
    ensures Locate(0, tile) == Tri(Point(tile, tile), Point(0, 0), Point(0, tile))
    ensures Locate(1, tile) == Tri(Point(0, 0), Point(tile, tile), Point(tile, 0))
  {
  }

  /** Ids 4 to 7 are the four halves of the roots: 4 and 6 halve the
      top-right root, 5 and 7 the bottom-left one, the third bit choosing
      the right (0) or the left (1) half. */
  lemma {:induction false} LocateSecondLevel(tile: nat)
    ensures var m := Mid(Point(0, 0), Point(tile, tile));
      && Locate(2, tile) == Tri(Point(0, 0), Point(0, tile), m)
      && Locate(3, tile) == Tri(Point(tile, tile), Point(tile, 0), m)
      && Locate(4, tile) == Tri(Point(0, tile), Point(tile, tile), m)
      && Locate(5, tile) == Tri(Point(tile, 0), Point(0, 0), m)
  {
    var m := Mid(Point(0, 0), Point(tile, tile));
    assert Mid(Point(tile, tile), Point(0, 0)) == m;
    OneHalving(Root(4, tile), 4, tile);
    OneHalving(Root(5, tile), 5, tile);
    OneHalving(Root(6, tile), 6, tile);
    OneHalving(Root(7, tile), 7, tile);
  }

  /** An id of three bits takes exactly one halving. */
  lemma {:induction false} OneHalving(t: Tri, id: nat, tile: nat)
    requires TriInTile(t, tile) && 4 <= id < 8
    ensures Descend(t, id, tile) == Child(t, (id / 2) % 2, tile)
  {
    var c := Child(t, (id / 2) % 2, tile);
    assert Descend(c, id / 2, tile) == c;
  }

  /** The decoding loop of `build_error_map`: the root by the lowest bit of
      i + 2, then one halving per further bit. */
  method LocateTriangle(i: nat, tile: nat) returns (t: Tri)
    ensures t == Locate(i, tile)
  {
    var id: nat := i + 2;
    t := Root(id, tile);
    while true
      invariant TriInTile(t, tile)
      invariant Descend(t, id, tile) == Locate(i, tile)
      decreases id
    {
      id := id / 2;
      if id <= 1 {
        break;
      }
      t := Child(t, id % 2, tile);
    }
  }

  function AbsReal(x: real): (r: real)
    ensures r >= 0.0 && (r == x || r == -x)
  {
    if x < 0.0 then -x else x
  }

  /** The larger of `current` and `err`, as one step of the accumulation. */
  function Raise(current: real, err: real): real {
    if err > current then err else current
  }

  /** `current` raised by each of `errs` in turn. */
  function RaiseAll(current: real, errs: seq<real>): (r: real)
    decreases |errs|
  {
    if |errs| == 0 then current else Raise(RaiseAll(current, errs[..|errs| - 1]), errs[|errs| - 1])
  }

  /** The accumulated value is the maximum of the start value and the
      candidates: at least each of them, and equal to one of them. */
  lemma {:induction false} RaiseAllIsMax(current: real, errs: seq<real>)
    ensures RaiseAll(current, errs) >= current
    ensures forall k :: 0 <= k < |errs| ==> RaiseAll(current, errs) >= errs[k]
    ensures RaiseAll(current, errs) == current || RaiseAll(current, errs) in errs
    decreases |errs|
  {
    if |errs| > 0 {
      var init := errs[..|errs| - 1];
      RaiseAllIsMax(current, init);
      assert forall k :: 0 <= k < |init| ==> errs[k] == init[k];
      assert forall e :: e in init ==> e in errs;
    }
  }

  /** How far the height at the midpoint of the long edge is from the
      average of the heights at its ends. */
  function MiddleError(points: array2<real>, t: Tri, tile: nat): (e: real)
    requires TriInTile(t, tile) && tile < points.Length0 && tile < points.Length1
    reads points
    ensures e >= 0.0
  {
    MidInTile(t.a, t.b, tile);
    var m := Mid(t.a, t.b);
    var interpolated := (points[t.a.y, t.a.x] + points[t.b.y, t.b.x]) / 2.0;
    AbsReal(interpolated - points[m.y, m.x])
  }

  /** One step of `build_error_map` for triangle `t`: a smallest triangle
      stores its middle error at its midpoint; a bigger one raises the
      value stored there by its middle error and then by the values stored
      at its children's midpoints. Nothing else changes. */
  method AccumulateError(points: array2<real>, errors: array2<real>, t: Tri, tile: nat, smallest: bool)
    requires errors != points
    requires TriInTile(t, tile) && tile < points.Length0 && tile < points.Length1
    requires tile < errors.Length0 && tile < errors.Length1
    modifies errors
    ensures var m, l, r := Mid(t.a, t.b), Mid(t.a, t.c), Mid(t.b, t.c);
      && (smallest ==> errors[m.y, m.x] == MiddleError(points, t, tile))
      && (!smallest ==> errors[m.y, m.x] == RaiseAll(old(errors[m.y, m.x]),
            [MiddleError(points, t, tile), old(errors[l.y, l.x]), old(errors[r.y, r.x])]))
      && (!smallest ==>
            && errors[m.y, m.x] >= old(errors[m.y, m.x]) && errors[m.y, m.x] >= MiddleError(points, t, tile)
            && errors[m.y, m.x] >= old(errors[l.y, l.x]) && errors[m.y, m.x] >= old(errors[r.y, r.x]))
    ensures var m := Mid(t.a, t.b);
      forall y, x :: 0 <= y < errors.Length0 && 0 <= x < errors.Length1 && (y, x) != (m.y, m.x)
        ==> errors[y, x] == old(errors[y, x])
  {
    MidInTile(t.a, t.b, tile);
    MidInTile(t.a, t.c, tile);
    MidInTile(t.b, t.c, tile);
    var m := Mid(t.a, t.b);
    var middle := MiddleError(points, t, tile);
    if smallest {
      errors[m.y, m.x] := middle;
    } else {
      var l, r := Mid(t.a, t.c), Mid(t.b, t.c);
      var errs := [middle, errors[l.y, l.x], errors[r.y, r.x]];
      ghost var start := errors[m.y, m.x];
      for k := 0 to |errs|
        invariant errors[m.y, m.x] == RaiseAll(start, errs[..k])
        invariant forall y, x :: 0 <= y < errors.Length0 && 0 <= x < errors.Length1 && (y, x) != (m.y, m.x) ==>
                    errors[y, x] == old(errors[y, x])
      {
        assert errs[..k + 1][..k] == errs[..k];
        if errs[k] > errors[m.y, m.x] {
          errors[m.y, m.x] := errs[k];
        }
      }
      assert errs[..|errs|] == errs;
      RaiseAllIsMax(start, errs);
      assert errors[m.y, m.x] >= errs[0] && errors[m.y, m.x] >= errs[1] && errors[m.y, m.x] >= errs[2];
    }
  }

  /** A step keeps every stored error non-negative. */
  lemma {:induction false} AccumulateKeepsNonNegative(old_value: real, middle: real, left: real, right: real)
    requires old_value >= 0.0 && middle >= 0.0
    ensures RaiseAll(old_value, [middle, left, right]) >= 0.0
  {
    RaiseAllIsMax(old_value, [middle, left, right]);
  }

  /** All cells of `errors` non-negative. */
  predicate NonNegative(errors: array2<real>)
    reads errors
  {
    forall y, x :: 0 <= y < errors.Length0 && 0 <= x < errors.Length1 ==> errors[y, x] >= 0.0
  }

  /** `build_error_map`: every triangle of the implicit tree, from the last
      index down to 0, accumulates its error at its midpoint. A patch needs
      at least 3 rows (for 2 the index arithmetic underflows) and rows at
      least as long as the patch is high. */
  method BuildErrorMap(points: array2<real>) returns (errors: array2<real>)
    requires points.Length0 >= 3 && points.Length1 >= points.Length0
    ensures fresh(errors)
    ensures errors.Length0 == points.Length0 && errors.Length1 == points.Length1
    ensures NonNegative(errors)
  {
    var gridSize := points.Length0;
    var tile := gridSize - 1;
    var numSmallest := tile * tile;
    var numTriangles := numSmallest * 2 - 2;
    var lastLevelIndex := numTriangles - numSmallest;
    errors := new real[points.Length0, points.Length1]((_, _) => 0.0);
    for i := numTriangles downto 0
      invariant NonNegative(errors)
    {
      var t := LocateTriangle(i, tile);
      ghost var m, l, r := Mid(t.a, t.b), Mid(t.a, t.c), Mid(t.b, t.c);
      MidInTile(t.a, t.b, tile);
      MidInTile(t.a, t.c, tile);
      MidInTile(t.b, t.c, tile);
      ghost var before := errors[m.y, m.x];
      ghost var left, right := errors[l.y, l.x], errors[r.y, r.x];
      AccumulateError(points, errors, t, tile, i >= lastLevelIndex);
      AccumulateKeepsNonNegative(before, MiddleError(points, t, tile), left, right);
    }
  }

  // ---------------------------------------------------------------------
  // triangulate_rtin
  // ---------------------------------------------------------------------

  /** `triangulate_rtin`: the error map of the patch, then the mesh over it.
      Every triangle lies on the patch; there are never more than in the
      basic triangulation, and exactly as many for a negative threshold,
      since every stored error is non-negative. */
  method TriangulateRtin(points: array2<real>, threshold: real) returns (triangles: seq<Triangle>)
    requires points.Length0 >= 3 && IsPow2(points.Length0 - 1)
    requires points.Length1 >= points.Length0
    ensures var tile := points.Length0 - 1;
      && (forall t :: t in triangles ==> TriangleWithin(t, tile, tile))
      && |triangles| <= |BasicRows(tile, tile)|
      && (threshold < 0.0 ==> |triangles| == |BasicRows(tile, tile)|)
  {
    var errors := BuildErrorMap(points);
    triangles := BuildRtinMesh(points, threshold, errors);
    var tile := points.Length0 - 1;
    RtinMeshBound(tile, threshold, errors);
    RootsProcessable(tile, errors);
    SplitInTile(Point(0, 0), Point(tile, tile), Point(tile, 0), tile, threshold, errors);
    SplitInTile(Point(tile, tile), Point(0, 0), Point(0, tile), tile, threshold, errors);
    if threshold < 0.0 {
      RtinMeshFull(tile, threshold, errors);
    }
  }
}
