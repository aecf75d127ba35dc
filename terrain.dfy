/** The layered elevation store and the per-block dirty flags. */
module TerrainGrid {
  import opened Ranges

  /** A semantic layer of the terrain, each with its own elevation grid. */
  datatype Layer = Elevation | Structure

  /** Cells per block edge (`Terrain::reset` fixes it at 64). */
  const BlockSize: nat := 64

  /** One finest-level block: its index, its cell range and whether its
      meshes must be rebuilt. */
  datatype BlockInfo = BlockInfo(blockNum: (nat, nat), range: Range2, dirty: bool)

  /** The cells of block (r, c): it shares its last row and column with the
      blocks below and to the right of it. */
  function BlockCells(r: nat, c: nat): (range: Range2)
    ensures !range.IsEmpty()
    ensures range.rows.end - range.rows.start == BlockSize + 1
    ensures range.cols.end - range.cols.start == BlockSize + 1
  {
    Range2(Interval(r * BlockSize, (r + 1) * BlockSize + 1),
           Interval(c * BlockSize, (c + 1) * BlockSize + 1))
  }

  /** Vertically adjacent blocks share exactly one row of cells, the same
      columns, and blocks two apart share nothing. */
  lemma AdjacentBlocksShareOneRow(r: nat, c: nat)
    ensures var a, b := BlockCells(r, c), BlockCells(r + 1, c);
      a.cols == b.cols
      && (forall i :: a.rows.Contains(i) && b.rows.Contains(i) <==> i == (r + 1) * BlockSize)
      && !a.Overlaps(BlockCells(r + 2, c))
  {
  }

  /** Horizontally adjacent blocks share exactly one column of cells. */
  lemma AdjacentBlocksShareOneColumn(r: nat, c: nat)
    ensures var a, b := BlockCells(r, c), BlockCells(r, c + 1);
      a.rows == b.rows
      && (forall j :: a.cols.Contains(j) && b.cols.Contains(j) <==> j == (c + 1) * BlockSize)
      && !a.Overlaps(BlockCells(r, c + 2))
  {
  }

  /** Every cell of a grid of `BlockSize * n + 1` rows lies in some block row. */
  lemma {:induction false} BlocksCoverGrid(n: nat, i: nat)
    requires 0 < n && i < BlockSize * n + 1
    ensures var r := if i / BlockSize < n then i / BlockSize else n - 1;
      r < n && BlockCells(r, 0).rows.Contains(i)
  {
    var r := if i / BlockSize < n then i / BlockSize else n - 1;
    if i / BlockSize >= n {
      assert i == BlockSize * n;
      assert (n - 1) * BlockSize + BlockSize == BlockSize * n;
    } else {
      assert r * BlockSize <= i < r * BlockSize + BlockSize;
    }
  }

  class Terrain {
    /** Number of blocks per axis (rows, columns). */
    var numBlocks: (nat, nat)
    /** One elevation grid per layer, `BlockSize * numBlocks + 1` per axis. */
    var grids: map<Layer, array2<real>>
    /** One entry per finest-level block, shared by all layers. */
    var blockInfo: array2<BlockInfo>

    ghost predicate Valid()
      reads this, blockInfo, grids.Values
    {
      && blockInfo.Length0 == numBlocks.0 && blockInfo.Length1 == numBlocks.1
      && (forall l :: l in grids ==>
            grids[l].Length0 == BlockSize * numBlocks.0 + 1
            && grids[l].Length1 == BlockSize * numBlocks.1 + 1)
      && (forall l1, l2 :: l1 in grids && l2 in grids && l1 != l2 ==> grids[l1] != grids[l2])
      && (forall r, c :: 0 <= r < numBlocks.0 && 0 <= c < numBlocks.1 ==>
            blockInfo[r, c].blockNum == (r, c) && blockInfo[r, c].range == BlockCells(r, c))
    }

    /** `Terrain::default()`: no blocks and no layers. */
    constructor ()
      ensures Valid() && numBlocks == (0, 0) && grids == map[]
    {
      numBlocks := (0, 0);
      grids := map[];
      blockInfo := new BlockInfo[0, 0];
    }

    /** A fresh zero grid of `rows` by `cols` cells for each layer, no two
        layers sharing one. */
    static method ZeroGrids(layers: seq<Layer>, rows: nat, cols: nat) returns (m: map<Layer, array2<real>>)
      ensures m.Keys == set l | l in layers
      ensures forall l :: l in m ==>
        && fresh(m[l])
        && m[l].Length0 == rows && m[l].Length1 == cols
        && forall i, j :: 0 <= i < rows && 0 <= j < cols ==> m[l][i, j] == 0.0
      ensures forall l1, l2 :: l1 in m && l2 in m && l1 != l2 ==> m[l1] != m[l2]
    {
      m := map[];
      var k := 0;
      while k < |layers|
        invariant 0 <= k <= |layers|
        invariant m.Keys == set i | 0 <= i < k :: layers[i]
        invariant forall l :: l in m ==>
          && fresh(m[l])
          && m[l].Length0 == rows && m[l].Length1 == cols
          && forall i, j :: 0 <= i < rows && 0 <= j < cols ==> m[l][i, j] == 0.0
        invariant forall l1, l2 :: l1 in m && l2 in m && l1 != l2 ==> m[l1] != m[l2]
      {
        var g := new real[rows, cols]((i: nat, j: nat) => 0.0);
        m := m[layers[k] := g];
        k := k + 1;
      }
    }

    /** `Terrain::reset` (with the layers of the map): `size / 64` blocks per
        axis, a zero grid of `64 * blocks + 1` cells per axis for each layer,
        and every block clean. */
    method Reset(sizeRows: nat, sizeCols: nat, layers: seq<Layer>)
      modifies this
      ensures Valid()
      ensures numBlocks == (sizeRows / BlockSize, sizeCols / BlockSize)
      ensures grids.Keys == set l | l in layers
      ensures fresh(blockInfo) && forall l :: l in grids ==> fresh(grids[l])
      ensures forall l, i, j :: l in grids && 0 <= i < grids[l].Length0 && 0 <= j < grids[l].Length1 ==>
        grids[l][i, j] == 0.0
      ensures forall r, c :: 0 <= r < numBlocks.0 && 0 <= c < numBlocks.1 ==> !blockInfo[r, c].dirty
    {
      var blocks := (sizeRows / BlockSize, sizeCols / BlockSize);
      var rows, cols := BlockSize * blocks.0 + 1, BlockSize * blocks.1 + 1;
      var m := ZeroGrids(layers, rows, cols);
      numBlocks := blocks;
      grids := m;
      blockInfo := new BlockInfo[blocks.0, blocks.1]((r: nat, c: nat) =>
        BlockInfo((r, c), BlockCells(r, c), false));
    }

    /** `Terrain::dirty_range`: mark dirty every block whose cells overlap
        `range`; no flag is cleared and no elevation changes. */
    method DirtyRange(range: Range2)
      requires Valid()
      modifies blockInfo
      ensures Valid()
      ensures forall r, c :: 0 <= r < numBlocks.0 && 0 <= c < numBlocks.1 ==>
        blockInfo[r, c] == old(blockInfo[r, c]).(dirty := old(blockInfo[r, c].dirty) || BlockCells(r, c).Overlaps(range))
    {
      var i := 0;
      while i < numBlocks.0
        invariant 0 <= i <= numBlocks.0
        invariant Valid()
        invariant forall r, c :: 0 <= r < numBlocks.0 && 0 <= c < numBlocks.1 ==>
          blockInfo[r, c] == old(blockInfo[r, c]).(dirty := old(blockInfo[r, c].dirty) || (r < i && BlockCells(r, c).Overlaps(range)))
      {
        var j := 0;
        while j < numBlocks.1
          invariant 0 <= j <= numBlocks.1
          invariant Valid()
          invariant forall r, c :: 0 <= r < numBlocks.0 && 0 <= c < numBlocks.1 ==>
            blockInfo[r, c] == old(blockInfo[r, c]).(dirty := old(blockInfo[r, c].dirty)
              || ((r < i || (r == i && c < j)) && BlockCells(r, c).Overlaps(range)))
        {
          if blockInfo[i, j].range.Overlaps(range) {
            blockInfo[i, j] := blockInfo[i, j].(dirty := true);
          }
          j := j + 1;
        }
        i := i + 1;
      }
    }

    /** `Terrain::set_elevation` on one layer: paste `data` with its corner at
        `offset`, clipped to the grid, then mark dirty every block overlapping
        the pasted rectangle. A paste that misses the grid changes nothing. */
    method SetElevation(layer: Layer, offset: (int, int), data: array2<real>)
      requires Valid() && layer in grids && data != grids[layer]
      modifies grids[layer], blockInfo
      ensures Valid()
      ensures var g := grids[layer];
        forall i, j :: 0 <= i < g.Length0 && 0 <= j < g.Length1 ==>
          g[i, j] == if 0 <= i - offset.0 < data.Length0 && 0 <= j - offset.1 < data.Length1
                     then data[i - offset.0, j - offset.1] else old(g[i, j])
      ensures var dest := Range2(Clip(data.Length0, offset.0, grids[layer].Length0),
                                 Clip(data.Length1, offset.1, grids[layer].Length1));
        forall r, c :: 0 <= r < numBlocks.0 && 0 <= c < numBlocks.1 ==>
          blockInfo[r, c] == old(blockInfo[r, c]).(dirty := old(blockInfo[r, c].dirty)
            || (!dest.IsEmpty() && BlockCells(r, c).Overlaps(dest)))
    {
      var dataRange := Paste(grids[layer], offset, data);
      if dataRange.IsEmpty() { return; }
      DirtyRange(dataRange);
    }

    /** The slice copy of `set_elevation`: `data` with its corner at `offset`,
        clipped to `g`; `dest` is the clipped rectangle of `g` it covers. */
    static method Paste(g: array2<real>, offset: (int, int), data: array2<real>) returns (dest: Range2)
      requires data != g
      modifies g
      ensures dest == Range2(Clip(data.Length0, offset.0, g.Length0), Clip(data.Length1, offset.1, g.Length1))
      ensures forall i, j :: 0 <= i < g.Length0 && 0 <= j < g.Length1 ==>
        g[i, j] == if 0 <= i - offset.0 < data.Length0 && 0 <= j - offset.1 < data.Length1
                   then data[i - offset.0, j - offset.1] else old(g[i, j])
    {
      var fromRows, toRows := GetCopyableRange(data.Length0, offset.0, g.Length0);
      var fromCols, toCols := GetCopyableRange(data.Length1, offset.1, g.Length1);
      dest := Range2(toRows, toCols);
      if fromRows.IsEmpty() || fromCols.IsEmpty() { return; }
      CopyBlock(g, data, fromRows.start, fromCols.start, dest);
    }

    /** `elevation_at` for a point whose `y` picks the row and `x` the
        column: both are cast to indices, and the height stored at that cell
        is returned, or -1 when the cast falls outside the grid. */
    function ElevationAt(layer: Layer, y: real, x: real): (h: real)
      requires layer in grids
      reads this, grids.Values
      ensures var g, r, c := grids[layer], CastToIndex(y), CastToIndex(x);
        if r < g.Length0 && c < g.Length1 then h == g[r, c] else h == -1.0
    {
      var g := grids[layer];
      var r, c := CastToIndex(y), CastToIndex(x);
      if r < g.Length0 && c < g.Length1 then g[r, c] else -1.0
    }

    /** A point inside cell (i, j), its corner included, reads that cell. */
    lemma PointInCellReadsCell(layer: Layer, i: nat, j: nat, y: real, x: real)
      requires layer in grids && i < grids[layer].Length0 && j < grids[layer].Length1
      requires i as real <= y < i as real + 1.0 && j as real <= x < j as real + 1.0
      ensures ElevationAt(layer, y, x) == grids[layer][i, j]
    {
      CastOfCellPoint(i, y);
      CastOfCellPoint(j, x);
    }

    /** A point past the last row or column reads -1. */
    lemma PointPastGridReadsMissing(layer: Layer, y: real, x: real)
      requires layer in grids
      requires y >= grids[layer].Length0 as real || x >= grids[layer].Length1 as real
      ensures ElevationAt(layer, y, x) == -1.0
    {
    }
  }

  /** Rust's `as usize` on a float that is not NaN and below `usize::MAX`:
      truncation toward zero, with every negative value saturating to 0. */
  function CastToIndex(x: real): (n: nat)
    ensures x >= 0.0 ==> n as real <= x < n as real + 1.0
    ensures x < 0.0 ==> n == 0
  {
    if x <= 0.0 then 0 else x.Floor
  }

  /** The cast of any point of [i, i + 1) is i. */
  lemma CastOfCellPoint(i: nat, y: real)
    requires i as real <= y < i as real + 1.0
    ensures CastToIndex(y) == i
  {
  }

  /** Rust's `as isize` on a float that is not NaN and within range:
      truncation toward zero. */
  function CastToOffset(x: real): (n: int)
    ensures x >= 0.0 ==> n as real <= x < n as real + 1.0
    ensures x <= 0.0 ==> n as real - 1.0 < x <= n as real
  {
    if x >= 0.0 then x.Floor else -((-x).Floor)
  }

  /** `coord_to_offset`: the grid offset (row, column) of a point given in
      the map's coordinate system, whose bounds start at (minX, minY) and
      whose row count is `sizeRows`. Rows count down from the top: a
      larger `y` is a smaller row. */
  function CoordToOffset(sizeRows: nat, minX: real, minY: real, x: real, y: real): (offset: (int, int))
    ensures var dy, dx := y - minY, x - minX;
      && (dy >= 0.0 ==> sizeRows as real - dy <= offset.0 as real < sizeRows as real - dy + 1.0)
      && (dx >= 0.0 ==> offset.1 as real <= dx < offset.1 as real + 1.0)
  {
    (sizeRows - CastToOffset(y - minY), CastToOffset(x - minX))
  }

  /** Whole-number coordinates map exactly, and the bottom-left corner
      of the bounds is row `sizeRows`, column 0. */
  lemma CoordToOffsetWhole(sizeRows: nat, minX: real, minY: real, i: int, j: int)
    ensures CoordToOffset(sizeRows, minX, minY, minX + j as real, minY + i as real) == (sizeRows - i, j)
    ensures CoordToOffset(sizeRows, minX, minY, minX, minY) == (sizeRows, 0)
  {
    assert CastToOffset(i as real) == i;
    assert CastToOffset(j as real) == j;
  }

  /** The slice assignment of `set_elevation`: cell (to.rows.start + k,
      to.cols.start + l) of `g` receives cell (fromRow + k, fromCol + l) of
      `data`; every other cell keeps its value. */
  method CopyBlock(g: array2<real>, data: array2<real>, fromRow: nat, fromCol: nat, to: Range2)
    requires g != data
    requires to.rows.end <= g.Length0 && to.cols.end <= g.Length1
    requires to.rows.start <= to.rows.end && to.cols.start <= to.cols.end
    requires fromRow + (to.rows.end - to.rows.start) <= data.Length0
    requires fromCol + (to.cols.end - to.cols.start) <= data.Length1
    modifies g
    ensures forall i, j :: 0 <= i < g.Length0 && 0 <= j < g.Length1 ==>
      g[i, j] == if to.Contains(i, j) then data[fromRow + i - to.rows.start, fromCol + j - to.cols.start]
                 else old(g[i, j])
  {
    var k := 0;
    while k < to.rows.end - to.rows.start
      invariant 0 <= k <= to.rows.end - to.rows.start
      invariant forall i, j :: 0 <= i < g.Length0 && 0 <= j < g.Length1 ==>
        g[i, j] == if to.Contains(i, j) && i < to.rows.start + k
                   then data[fromRow + i - to.rows.start, fromCol + j - to.cols.start]
                   else old(g[i, j])
    {
      var l := 0;
      while l < to.cols.end - to.cols.start
        invariant 0 <= l <= to.cols.end - to.cols.start
        invariant forall i, j :: 0 <= i < g.Length0 && 0 <= j < g.Length1 ==>
          g[i, j] == if to.Contains(i, j) && (i < to.rows.start + k || (i == to.rows.start + k && j < to.cols.start + l))
                     then data[fromRow + i - to.rows.start, fromCol + j - to.cols.start]
                     else old(g[i, j])
      {
        g[to.rows.start + k, to.cols.start + l] := data[fromRow + k, fromCol + l];
        l := l + 1;
      }
      k := k + 1;
    }
  }
}
