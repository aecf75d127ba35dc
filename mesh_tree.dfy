/** The padded quadtree of mesh blocks over the terrain's block grid. Level
    0 holds one entry per terrain block; each higher level halves both
    dimensions, so a block at level L covers 2^L x 2^L terrain blocks. */
module MeshTrees {
  import opened Wrappers

  /** An opaque handle to a spawned mesh entity. */
  type Entity = nat

  /** A block of the tree: its row and column within its level. */
  datatype BlockId = BlockId(row: nat, col: nat, level: nat)

  /** The tri-state entry: no mesh yet, a mesh, or padding outside the
      terrain. */
  datatype BlockKind = Pending | Populated(entity: Entity) | Invalid

  /** One level of the tree: a `rows` x `cols` grid of entries. */
  datatype Level = Level(rows: nat, cols: nat, entries: seq<seq<BlockKind>>) {
    ghost predicate Shaped() {
      |entries| == rows && forall i :: 0 <= i < rows ==> |entries[i]| == cols
    }
  }

  function Pow2(k: nat): (p: nat)
    ensures p >= 1
  {
    if k == 0 then 1 else 2 * Pow2(k - 1)
  }

  /** `n` halved (rounding down) `k` times. */
  function Halve(n: nat, k: nat): nat {
    if k == 0 then n else Halve(n, k - 1) / 2
  }

  /** Halving a multiple of `2^j` fewer than `j + 1` times is exact. */
  lemma {:induction false} HalveMultiple(m: nat, j: nat, k: nat)
    requires k <= j
    ensures Halve(m * Pow2(j), k) == m * Pow2(j - k)
  {
    if k > 0 {
      HalveMultiple(m, j, k - 1);
      assert Pow2(j - k + 1) == 2 * Pow2(j - k);
      assert m * Pow2(j - (k - 1)) == 2 * (m * Pow2(j - k));
    }
  }

  /** The integer form of `(n as f32).log2().ceil() as usize`: the least k
      with `n <= 2^k`, and 0 for 0 (where the float is -inf and the cast
      saturates). */
  function CeilLog2(n: nat): (k: nat)
    ensures n <= Pow2(k)
    ensures k > 0 ==> Pow2(k - 1) < n
  {
    if n <= 1 then 0 else 1 + CeilLog2((n + 1) / 2)
  }

  /** `usize::div_ceil`. */
  function DivCeil(n: nat, d: nat): nat
    requires d > 0
  {
    (n + d - 1) / d
  }

  function Min(a: nat, b: nat): nat { if a < b then a else b }

  /** The highest level `new` builds. */
  function TopLevel(height: nat, width: nat, maxLevel: nat): nat {
    Min(CeilLog2(Min(height, width)), maxLevel)
  }

  /** A grid dimension of level 0: `n` rounded up to a multiple of
      `2^top`. */
  function Padded(n: nat, top: nat): nat {
    DivCeil(n, Pow2(top)) * Pow2(top)
  }

  /** Level `k` as `new` builds it: the padded dimensions and the valid
      dimensions both halved `k` times; an entry is Pending inside the valid
      part and Invalid in the padding. */
  function InitialLevel(height: nat, width: nat, top: nat, k: nat): (l: Level)
    ensures l.Shaped()
  {
    var rows, cols := Halve(Padded(height, top), k), Halve(Padded(width, top), k);
    var validRows, validCols := Halve(height, k), Halve(width, k);
    Level(rows, cols, seq(rows, i => seq(cols, j => if i < validRows && j < validCols then Pending else Invalid)))
  }

  /** Every level `new` builds, bottom first. */
  function InitialLevels(height: nat, width: nat, maxLevel: nat): seq<Level> {
    var top := TopLevel(height, width, maxLevel);
    seq(top + 1, k requires 0 <= k <= top => InitialLevel(height, width, top, k))
  }

  /** `parent`: the block one level up that covers `b`. */
  function Parent(b: BlockId): (p: BlockId) {
    BlockId(b.row / 2, b.col / 2, b.level + 1)
  }

  /** `children`: the four blocks one level down covering `b`, row-major;
      none at level 0. */
  function Children(b: BlockId): (cs: seq<BlockId>)
    ensures |cs| == if b.level == 0 then 0 else 4
  {
    if b.level == 0 then []
    else
      var r, c, l := 2 * b.row, 2 * b.col, b.level - 1;
      [BlockId(r, c, l), BlockId(r, c + 1, l), BlockId(r + 1, c, l), BlockId(r + 1, c + 1, l)]
  }

  /** The children of `b` are exactly the blocks one level down whose
      parent is `b`, and each appears once. */
  lemma {:induction false} ChildrenAreParentPreimage(b: BlockId, x: BlockId)
    ensures x in Children(b) <==> b.level > 0 && x.level + 1 == b.level && Parent(x) == b
    ensures forall i, j :: 0 <= i < j < |Children(b)| ==> Children(b)[i] != Children(b)[j]
  {
    if b.level > 0 && x.level + 1 == b.level && Parent(x) == b {
      assert x.row == 2 * b.row || x.row == 2 * b.row + 1;
      assert x.col == 2 * b.col || x.col == 2 * b.col + 1;
    }
  }

  /** The block `k` levels above `b` that covers it. */
  function AncestorAt(b: BlockId, k: nat): BlockId {
    BlockId(Halve(b.row, k), Halve(b.col, k), b.level + k)
  }

  /** Two more levels down is four times as many blocks. */
  lemma {:induction false} Pow2Twice(k: nat)
    requires k > 0
    ensures Pow2(2 * k) == 4 * Pow2(2 * (k - 1))
  {
    var j := 2 * (k - 1);
    assert 2 * k == j + 2;
    assert Pow2(j + 2) == 2 * Pow2(j + 1);
    assert Pow2(j + 1) == 2 * Pow2(j);
  }

  /** The number of blocks in a full subtree of height n: one root above
      four subtrees of height n - 1. */
  function SubtreeSize(n: nat): nat {
    if n == 0 then 1 else 1 + 4 * SubtreeSize(n - 1)
  }

  /** That number is the sum of 4^k for k in 0..=n. */
  lemma {:induction false} SubtreeSizeIsSum(n: nat)
    requires n > 0
    ensures SubtreeSize(n) == SubtreeSize(n - 1) + Pow2(2 * n)
  {
    if n > 1 {
      SubtreeSizeIsSum(n - 1);
      Pow2Twice(n);
    }
  }

  /** `x` is `b` or lies below it. */
  predicate Below(x: BlockId, b: BlockId) {
    x.level <= b.level && AncestorAt(x, b.level - x.level) == b
  }

  /** The levels of a tree: at least one, each well-formed, and each level
      above the bottom exactly half the one below it. */
  ghost predicate WellFormed(levels: seq<Level>) {
    && |levels| >= 1
    && (forall k :: 0 <= k < |levels| ==> levels[k].Shaped())
    && (forall k :: 0 < k < |levels| ==>
          levels[k - 1].rows == 2 * levels[k].rows && levels[k - 1].cols == 2 * levels[k].cols)
  }

  /** `b` addresses an entry of `levels`. */
  predicate Addresses(levels: seq<Level>, b: BlockId) {
    b.level < |levels| && b.row < levels[b.level].rows && b.col < levels[b.level].cols
  }

  /** The entry of `b`. */
  function EntryOf(levels: seq<Level>, b: BlockId): BlockKind
    requires WellFormed(levels) && Addresses(levels, b)
  {
    levels[b.level].entries[b.row][b.col]
  }

  /** The entry of `b` is not padding. */
  predicate ValidIn(levels: seq<Level>, b: BlockId)
    requires WellFormed(levels) && Addresses(levels, b)
  {
    !EntryOf(levels, b).Invalid?
  }

  /** The entry of `b` holds a mesh. */
  predicate PopulatedIn(levels: seq<Level>, b: BlockId)
    requires WellFormed(levels) && Addresses(levels, b)
  {
    EntryOf(levels, b).Populated?
  }

  /** `a` and `b` have the same number of levels, each of the same size. */
  predicate SameShape(a: seq<Level>, b: seq<Level>) {
    |a| == |b| && forall k :: 0 <= k < |a| ==> a[k].rows == b[k].rows && a[k].cols == b[k].cols
  }

  /** Levels of the same shape address the same blocks. */
  lemma SameShapeAddresses(a: seq<Level>, b: seq<Level>, x: BlockId)
    requires SameShape(a, b)
    ensures Addresses(a, x) <==> Addresses(b, x)
  {
  }

  /** The levels with the entry of `b` replaced by `kind`: the same shape,
      and every other entry as before. */
  function SetEntry(levels: seq<Level>, b: BlockId, kind: BlockKind): (r: seq<Level>)
    requires WellFormed(levels) && Addresses(levels, b)
    ensures WellFormed(r) && SameShape(r, levels)
    ensures forall x :: Addresses(levels, x) ==> EntryOf(r, x) == if x == b then kind else EntryOf(levels, x)
  {
    var l := levels[b.level];
    var row := l.entries[b.row];
    levels[b.level := l.(entries := l.entries[b.row := row[b.col := kind]])]
  }

  class MeshTree {
    /** The number of terrain blocks per axis. */
    var height: nat
    var width: nat
    var levels: seq<Level>

    /** The tree's levels are well-formed. */
    ghost predicate Valid()
      reads this
    {
      WellFormed(levels)
    }

    /** `b` addresses an entry of the tree. */
    predicate InTree(b: BlockId)
      reads this
    {
      Addresses(levels, b)
    }

    /** `MeshTree::new`. */
    constructor (numBlocks: (nat, nat), maxLevel: nat)
      ensures Valid()
      ensures height == numBlocks.0 && width == numBlocks.1
      ensures levels == InitialLevels(numBlocks.0, numBlocks.1, maxLevel)
    {
      var (h, w) := numBlocks;
      var girth := Min(h, w);
      var top := Min(CeilLog2(girth), maxLevel);
      var maxBlockSize := Pow2(top);
      var levelHeight := DivCeil(h, maxBlockSize) * maxBlockSize;
      var levelWidth := DivCeil(w, maxBlockSize) * maxBlockSize;
      var validHeight := h;
      var validWidth := w;
      var ls: seq<Level> := [];
      var k := 0;
      while k <= top
        invariant 0 <= k <= top + 1
        invariant levelHeight == Halve(Padded(h, top), k) && levelWidth == Halve(Padded(w, top), k)
        invariant validHeight == Halve(h, k) && validWidth == Halve(w, k)
        invariant ls == seq(k, i requires 0 <= i < k => InitialLevel(h, w, top, i))
      {
        var vh, vw := validHeight, validWidth;
        ls := ls + [Level(levelHeight, levelWidth,
          seq(levelHeight, i => seq(levelWidth, j => if i < vh && j < vw then Pending else Invalid)))];
        levelHeight := levelHeight / 2;
        levelWidth := levelWidth / 2;
        validHeight := validHeight / 2;
        validWidth := validWidth / 2;
        k := k + 1;
      }
      assert ls == InitialLevels(h, w, maxLevel);
      InitialLevelsHalve(h, w, maxLevel);
      height, width := h, w;
      levels := ls;
    }

    /** `get_entry`. */
    function GetEntry(b: BlockId): BlockKind
      requires Valid() && InTree(b)
      reads this
    {
      EntryOf(levels, b)
    }

    /** `valid`: the entry is not padding. */
    predicate ValidBlock(b: BlockId)
      requires Valid() && InTree(b)
      reads this
    {
      ValidIn(levels, b)
    }

    /** `populated`: the entry holds a mesh. */
    predicate Populated(b: BlockId)
      requires Valid() && InTree(b)
      reads this
    {
      PopulatedIn(levels, b)
    }

    /** `set_mesh`: replace the entry of `b` by `kind`, returning the mesh
        it held, if any. Every other entry is unchanged. */
    method SetMesh(b: BlockId, kind: BlockKind) returns (replaced: Option<Entity>)
      requires Valid() && InTree(b)
      modifies this
      ensures Valid() && height == old(height) && width == old(width)
      ensures levels == SetEntry(old(levels), b, kind)
      ensures forall x :: InTree(x) ==> GetEntry(x) == if x == b then kind else old(GetEntry(x))
      ensures replaced.Some? <==> old(GetEntry(b)).Populated?
      ensures replaced.Some? ==> old(GetEntry(b)) == BlockKind.Populated(replaced.value)
    {
      var oldKind := GetEntry(b);
      levels := SetEntry(levels, b, kind);
      if oldKind.Populated? {
        replaced := Some(oldKind.entity);
      } else {
        replaced := None;
      }
    }

    /** `ancestors`: one block per higher level, nearest first. */
    method Ancestors(b: BlockId) returns (result: seq<BlockId>)
      ensures |result| == if b.level < |levels| then |levels| - 1 - b.level else 0
      ensures forall k :: 0 <= k < |result| ==> result[k] == AncestorAt(b, k + 1)
      // each is the parent of the one before it, the first the parent of b
      ensures |result| > 0 ==> result[0] == Parent(b)
      ensures forall k :: 0 < k < |result| ==> result[k] == Parent(result[k - 1])
    {
      result := [];
      var row, col := b.row, b.col;
      var lvl := b.level + 1;
      while lvl < |levels|
        invariant b.level + 1 <= lvl && (lvl <= |levels| || lvl == b.level + 1)
        invariant |result| == lvl - b.level - 1
        invariant row == Halve(b.row, lvl - b.level - 1) && col == Halve(b.col, lvl - b.level - 1)
        invariant forall k :: 0 <= k < |result| ==> result[k] == AncestorAt(b, k + 1)
      {
        row := row / 2;
        col := col / 2;
        result := result + [BlockId(row, col, lvl)];
        lvl := lvl + 1;
      }
    }

    /** `walk`: the blocks visited, in order, starting from each root of the
        top level in row-major order and descending into the children of a
        block only where `descend` holds for it. */
    function Walk(descend: BlockId -> bool): (visited: seq<BlockId>)
      requires Valid()
      reads this
      ensures forall x :: x in visited ==> x.level < |levels|
      ensures var top := |levels| - 1;
        forall x: BlockId :: x.level == top && x.row < levels[top].rows && x.col < levels[top].cols ==> x in visited
    {
      WalkLevelsFacts(levels, descend);
      WalkLevels(levels, descend)
    }
  }

  /** `walk` on the levels of a tree: the walk from each root in turn. */
  function WalkLevels(levels: seq<Level>, descend: BlockId -> bool): seq<BlockId>
    requires |levels| >= 1
  {
    var top := |levels| - 1;
    WalkEach(Roots(levels[top].rows, levels[top].cols, top), |levels|, descend)
  }

  /** The blocks of a `rows` x `cols` top level `top` in the order
      `indexed_iter` yields its entries: row by row, each row left to
      right. */
  function Roots(rows: nat, cols: nat, top: nat): (roots: seq<BlockId>)
    ensures forall x :: x in roots ==> x.level == top && x.row < rows && x.col < cols
  {
    if rows == 0 then [] else Roots(rows - 1, cols, top) + RowRoots(rows - 1, cols, top)
  }

  /** The blocks of row `i` of level `top`, left to right. */
  function RowRoots(i: nat, cols: nat, top: nat): (row: seq<BlockId>)
    ensures |row| == cols && forall j :: 0 <= j < cols ==> row[j] == BlockId(i, j, top)
  {
    seq(cols, j requires 0 <= j => BlockId(i, j, top))
  }

  /** The walk of a tree stays within its levels and starts at every block
      of the top level. */
  lemma WalkLevelsFacts(levels: seq<Level>, descend: BlockId -> bool)
    requires |levels| >= 1
    ensures forall x :: x in WalkLevels(levels, descend) ==> x.level < |levels|
    ensures var top := |levels| - 1;
      forall x: BlockId :: x.level == top && x.row < levels[top].rows && x.col < levels[top].cols ==> x in WalkLevels(levels, descend)
  {
    var top := |levels| - 1;
    var roots := Roots(levels[top].rows, levels[top].cols, top);
    RootsAll(levels[top].rows, levels[top].cols, top);
    forall x | x in WalkLevels(levels, descend) ensures x.level < |levels| {
      WalkEachMembers(roots, |levels|, descend, x);
      var y :| y in roots && x in WalkBlock(y, descend);
      WalkBlockMembers(y, descend, x);
    }
    forall x: BlockId | x in roots ensures x in WalkLevels(levels, descend) {
      WalkEachMembers(roots, |levels|, descend, x);
      assert WalkBlock(x, descend)[0] == x;
    }
  }

  /** The same for every block of the top level at once. */
  lemma RootsAll(rows: nat, cols: nat, top: nat)
    ensures forall x: BlockId :: x.level == top && x.row < rows && x.col < cols ==> x in Roots(rows, cols, top)
  {
    forall x: BlockId | x.level == top && x.row < rows && x.col < cols ensures x in Roots(rows, cols, top) {
      RootsComplete(rows, cols, top, x);
    }
  }

  /** Every block of the top level is a root. */
  lemma {:induction false} RootsComplete(rows: nat, cols: nat, top: nat, x: BlockId)
    requires x.level == top && x.row < rows && x.col < cols
    ensures x in Roots(rows, cols, top)
  {
    if x.row < rows - 1 {
      RootsComplete(rows - 1, cols, top, x);
    } else {
      assert RowRoots(rows - 1, cols, top)[x.col] == x;
    }
  }

  /** `walk_block`: `b`, then, if `descend(b)`, the walk of each child in
      turn. */
  function WalkBlock(b: BlockId, descend: BlockId -> bool): (visited: seq<BlockId>)
    ensures |visited| >= 1 && visited[0] == b
    decreases b.level, 1, 0
  {
    [b] + if descend(b) then WalkEach(Children(b), b.level, descend) else []
  }

  /** The walks of `bs`, one after another. */
  function WalkEach(bs: seq<BlockId>, bound: nat, descend: BlockId -> bool): (visited: seq<BlockId>)
    requires forall x :: x in bs ==> x.level < bound
    ensures |visited| >= |bs|
    decreases bound, 0, |bs|
  {
    if bs == [] then [] else WalkBlock(bs[0], descend) + WalkEach(bs[1..], bound, descend)
  }

  /** `new` builds at least one level, each well-formed, and every level
      above the bottom is exactly half the one below it. */
  lemma {:induction false} InitialLevelsHalve(height: nat, width: nat, maxLevel: nat)
    ensures WellFormed(InitialLevels(height, width, maxLevel))
  {
    var top := TopLevel(height, width, maxLevel);
    var ls := InitialLevels(height, width, maxLevel);
    forall k | 0 < k < |ls| ensures ls[k - 1].rows == 2 * ls[k].rows && ls[k - 1].cols == 2 * ls[k].cols {
      PaddedHalves(height, top, k);
      PaddedHalves(width, top, k);
    }
  }

  /** The padded size halved `k - 1` times is even for `k <= top`, so it is
      twice the size halved `k` times. */
  lemma {:induction false} PaddedHalves(n: nat, top: nat, k: nat)
    requires 0 < k <= top
    ensures Halve(Padded(n, top), k - 1) == 2 * Halve(Padded(n, top), k)
  {
    var m := DivCeil(n, Pow2(top));
    assert Padded(n, top) == m * Pow2(top);
    HalveMultiple(m, top, k - 1);
    HalveMultiple(m, top, k);
    var x := Pow2(top - k);
    assert Pow2(top - (k - 1)) == 2 * x;
    assert m * (2 * x) == 2 * (m * x);
  }

  /** Halving then halving `k` more times is halving `k + 1` times. */
  lemma {:induction false} HalveShift(n: nat, k: nat)
    ensures Halve(n / 2, k) == Halve(n, k + 1)
  {
    if k > 0 {
      HalveShift(n, k - 1);
    }
  }

  /** A child is one level down, and its parent is the block it came from. */
  lemma {:induction false} ChildHasParent(b: BlockId, x: BlockId)
    requires x in Children(b)
    ensures x.level + 1 == b.level && Parent(x) == b
  {
  }

  /** The ancestor `k` levels above the parent is the ancestor `k + 1`
      levels above. */
  lemma {:induction false} AncestorOfParent(x: BlockId, k: nat)
    ensures AncestorAt(Parent(x), k) == AncestorAt(x, k + 1)
  {
    HalveShift(x.row, k);
    HalveShift(x.col, k);
  }

  /** The unit tests of `new`: two levels of 2 x 2 and 1 x 1 for [2, 2]
      with at most level 1; three levels of 4 x 8, 2 x 4 and 1 x 2 for
      [3, 7] with at most level 2, whose last row and column are padding. */
  lemma NewExamples()
    ensures var ls := InitialLevels(2, 2, 1);
      && |ls| == 2
      && ls[0].rows == 2 && ls[0].cols == 2 && ls[1].rows == 1 && ls[1].cols == 1
      && ls[1].entries[0][0] == Pending
    ensures var ls := InitialLevels(3, 7, 2);
      && |ls| == 3
      && ls[0].rows == 4 && ls[0].cols == 8
      && ls[1].rows == 2 && ls[1].cols == 4
      && ls[2].rows == 1 && ls[2].cols == 2
      && ls[0].entries[3][7] == Invalid && ls[1].entries[1][3] == Invalid && ls[2].entries[0][1] == Invalid
  {
    assert CeilLog2(2) == 1;
    assert CeilLog2(3) == 2 by { assert CeilLog2(2) == 1; }
    assert Padded(2, 1) == 2 && Padded(3, 2) == 4 && Padded(7, 2) == 8;
  }

  /** Level 0 of `new` covers the terrain, with fewer than 2^top rows and
      columns of padding. */
  lemma {:induction false} BottomLevelCovers(height: nat, width: nat, maxLevel: nat)
    ensures var ls, top := InitialLevels(height, width, maxLevel), TopLevel(height, width, maxLevel);
      && height <= ls[0].rows < height + Pow2(top)
      && width <= ls[0].cols < width + Pow2(top)
  {
    var top := TopLevel(height, width, maxLevel);
    RoundUp(height, Pow2(top));
    RoundUp(width, Pow2(top));
  }

  /** `div_ceil(n, d) * d` is the least multiple of `d` not below `n`. */
  lemma {:induction false} RoundUp(n: nat, d: nat)
    requires d > 0
    ensures n <= DivCeil(n, d) * d < n + d
  {
    var m := n + d - 1;
    var q, r := m / d, m % d;
    assert m == q * d + r && 0 <= r < d;
  }

  /** An entry above level 0 is Pending exactly when its four children
      are. */
  lemma {:induction false} PendingIffChildrenPending(height: nat, width: nat, maxLevel: nat, k: nat, i: nat, j: nat)
    requires var ls := InitialLevels(height, width, maxLevel); 0 < k < |ls| && i < ls[k].rows && j < ls[k].cols
    ensures var ls := InitialLevels(height, width, maxLevel);
      var cs := Children(BlockId(i, j, k));
      && (forall c :: c in cs ==> c.row < ls[k - 1].rows && c.col < ls[k - 1].cols)
      && (ls[k].entries[i][j] == Pending <==> forall c :: c in cs ==> ls[k - 1].entries[c.row][c.col] == Pending)
  {
    var top := TopLevel(height, width, maxLevel);
    var ls := InitialLevels(height, width, maxLevel);
    assert ls[k] == InitialLevel(height, width, top, k) && ls[k - 1] == InitialLevel(height, width, top, k - 1);
    ChildEntriesPending(height, width, top, k, i, j);
  }

  /** `PendingIffChildrenPending` on the two levels themselves. */
  lemma {:induction false} ChildEntriesPending(height: nat, width: nat, top: nat, k: nat, i: nat, j: nat)
    requires 0 < k <= top && i < Halve(Padded(height, top), k) && j < Halve(Padded(width, top), k)
    ensures var hi, lo := InitialLevel(height, width, top, k), InitialLevel(height, width, top, k - 1);
      var cs := Children(BlockId(i, j, k));
      && (forall c :: c in cs ==> c.row < lo.rows && c.col < lo.cols)
      && (hi.entries[i][j] == Pending <==> forall c :: c in cs ==> lo.entries[c.row][c.col] == Pending)
  {
    PaddedHalves(height, top, k);
    PaddedHalves(width, top, k);
    var q, r := Halve(height, k - 1), Halve(width, k - 1);
    assert Halve(height, k) == q / 2 && Halve(width, k) == r / 2;
    var cs := Children(BlockId(i, j, k));
    assert cs[3] == BlockId(2 * i + 1, 2 * j + 1, k - 1);
    assert forall c :: c in cs ==> c.row <= 2 * i + 1 && c.col <= 2 * j + 1;
  }

  /** The blocks `k` levels below `b`, in the order `descendants` produces
      them: each generation is the children of the previous one, in turn. */
  function Generation(b: BlockId, k: nat): seq<BlockId> {
    if k == 0 then [b] else AllChildren(Generation(b, k - 1))
  }

  /** The children of each block of `bs`, one after another. */
  function AllChildren(bs: seq<BlockId>): seq<BlockId> {
    if bs == [] then [] else Children(bs[0]) + AllChildren(bs[1..])
  }

  lemma {:induction false} AllChildrenMembers(bs: seq<BlockId>, x: BlockId)
    ensures x in AllChildren(bs) <==> exists y :: y in bs && x in Children(y)
  {
    if bs != [] {
      AllChildrenMembers(bs[1..], x);
      assert forall y :: y in bs <==> y == bs[0] || y in bs[1..];
    }
  }

  lemma {:induction false} AllChildrenCount(bs: seq<BlockId>, level: nat)
    requires level > 0 && forall y :: y in bs ==> y.level == level
    ensures |AllChildren(bs)| == 4 * |bs|
    ensures forall x :: x in AllChildren(bs) ==> x.level == level - 1
  {
    if bs != [] {
      AllChildrenCount(bs[1..], level);
      assert bs[0] in bs;
    }
  }

  lemma AllChildrenOfBottom(bs: seq<BlockId>)
    requires forall y :: y in bs ==> y.level == 0
    ensures AllChildren(bs) == []
  {
  }

  /** Generation `k <= level` holds 4^k blocks, all at `level - k`;
      generation `level + 1` is empty. */
  lemma {:induction false} GenerationShape(b: BlockId, k: nat)
    requires k <= b.level + 1
    ensures k <= b.level ==> (|Generation(b, k)| == Pow2(2 * k)
      && forall x :: x in Generation(b, k) ==> x.level == b.level - k)
    ensures k == b.level + 1 ==> Generation(b, k) == []
  {
    if k > 0 {
      GenerationShape(b, k - 1);
      assert Generation(b, k) == AllChildren(Generation(b, k - 1));
      if k <= b.level {
        AllChildrenCount(Generation(b, k - 1), b.level - (k - 1));
        Pow2Twice(k);
      } else {
        AllChildrenOfBottom(Generation(b, k - 1));
      }
    }
  }

  /** Generation `k` of `b` is exactly the blocks `k` levels below `b`
      that lie under it. */
  lemma {:induction false} GenerationMembers(b: BlockId, k: nat, x: BlockId)
    ensures x in Generation(b, k) <==> x.level + k == b.level && AncestorAt(x, k) == b
    decreases k, 1
  {
    if k > 0 {
      if x in Generation(b, k) {
        GenerationMembersDown(b, k, x);
      }
      if x.level + k == b.level && AncestorAt(x, k) == b {
        GenerationMembersUp(b, k, x);
      }
    }
  }

  lemma {:induction false} GenerationMembersDown(b: BlockId, k: nat, x: BlockId)
    requires k > 0 && x in Generation(b, k)
    ensures x.level + k == b.level && AncestorAt(x, k) == b
    decreases k, 0
  {
    ParentInPreviousGeneration(b, k, x);
    GenerationMembers(b, k - 1, Parent(x));
    AncestorOfParent(x, k - 1);
  }

  lemma {:induction false} ParentInPreviousGeneration(b: BlockId, k: nat, x: BlockId)
    requires k > 0 && x in Generation(b, k)
    ensures Parent(x) in Generation(b, k - 1)
  {
    var gs := Generation(b, k - 1);
    AllChildrenMembers(gs, x);
    var y :| y in gs && x in Children(y);
    ChildHasParent(y, x);
  }

  lemma {:induction false} GenerationMembersUp(b: BlockId, k: nat, x: BlockId)
    requires k > 0 && x.level + k == b.level && AncestorAt(x, k) == b
    ensures x in Generation(b, k)
    decreases k, 0
  {
    var gs := Generation(b, k - 1);
    var p := Parent(x);
    AncestorOfParent(x, k - 1);
    GenerationMembers(b, k - 1, p);
    ChildrenAreParentPreimage(p, x);
    AllChildrenMembers(gs, x);
  }

  /** Generations 0..=n of `b`, one after another. */
  function Generations(b: BlockId, n: nat): seq<BlockId> {
    if n == 0 then Generation(b, 0) else Generations(b, n - 1) + Generation(b, n)
  }

  /** `descendants` as a value: nothing at level 0, and otherwise `b` and
      every generation below it, breadth first. */
  function DescendantsOf(b: BlockId): seq<BlockId> {
    if b.level == 0 then [] else Generations(b, b.level)
  }

  /** `descendants`: breadth first from `b` down to level 0, `b` included;
      empty for a block of level 0. */
  method Descendants(b: BlockId) returns (results: seq<BlockId>)
    ensures results == DescendantsOf(b)
  {
    if b.level == 0 { return []; }
    results := [];
    var children := [b];
    ghost var g := 0;
    while children != []
      invariant g <= b.level + 1
      invariant children == Generation(b, g)
      invariant g == 0 ==> results == []
      invariant g > 0 ==> results == Generations(b, g - 1)
      decreases b.level + 1 - g
    {
      GenerationShape(b, g);
      if g == b.level + 1 {
        assert false;
      }
      results := results + children;
      children := AllChildren(children);
      g := g + 1;
    }
    GenerationShape(b, g);
  }

  /** `descendants` of a block above level 0 lists each block at or below
      it exactly once: sum of 4^k for k in 0..=level blocks. */
  lemma {:induction false} DescendantsExact(b: BlockId, x: BlockId)
    requires b.level > 0
    ensures |DescendantsOf(b)| == SubtreeSize(b.level)
    ensures x in DescendantsOf(b) <==> Below(x, b)
  {
    GenerationsCount(b, b.level);
    GenerationsMembers(b, b.level, x);
  }

  lemma {:induction false} GenerationsCount(b: BlockId, n: nat)
    requires n <= b.level
    ensures |Generations(b, n)| == SubtreeSize(n)
  {
    GenerationShape(b, n);
    if n > 0 {
      GenerationsCount(b, n - 1);
      SubtreeSizeIsSum(n);
    }
  }

  lemma {:induction false} GenerationsMembers(b: BlockId, n: nat, x: BlockId)
    ensures x in Generations(b, n) <==> x.level <= b.level && b.level - x.level <= n && AncestorAt(x, b.level - x.level) == b
  {
    GenerationMembers(b, n, x);
    if n > 0 {
      GenerationsMembers(b, n - 1, x);
    }
  }

  /** The visitor that descends everywhere. */
  predicate Always(b: BlockId) { true }

  /** With a visitor that always descends, the walk from `b` visits the
      whole subtree below it. */
  lemma {:induction false} WalkAllCount(b: BlockId)
    ensures |WalkBlock(b, Always)| == SubtreeSize(b.level)
    decreases b.level
  {
    if b.level > 0 {
      var cs := Children(b);
      forall c | c in cs ensures |WalkBlock(c, Always)| == SubtreeSize(b.level - 1) {
        ChildrenAreParentPreimage(b, c);
        WalkAllCount(c);
      }
      WalkEachCount(cs, b.level, b.level - 1);
    }
  }

  lemma {:induction false} WalkEachCount(bs: seq<BlockId>, bound: nat, n: nat)
    requires forall x :: x in bs ==> x.level < bound
    requires forall x :: x in bs ==> |WalkBlock(x, Always)| == SubtreeSize(n)
    ensures |WalkEach(bs, bound, Always)| == |bs| * SubtreeSize(n)
  {
    if bs != [] {
      assert forall x :: x in bs[1..] ==> x in bs;
      WalkEachCount(bs[1..], bound, n);
      assert bs[0] in bs;
      assert WalkEach(bs, bound, Always) == WalkBlock(bs[0], Always) + WalkEach(bs[1..], bound, Always);
      MulStep(|bs|, SubtreeSize(n));
    }
  }

  lemma {:induction false} MulStep(a: nat, m: nat)
    requires a > 0
    ensures a * m == (a - 1) * m + m
  {
  }

  /** The walk test: an always-true visitor on the tree for [2, 2] with at
      most level 1 visits 5 blocks. */
  lemma WalkExample()
    ensures |WalkLevels(InitialLevels(2, 2, 1), Always)| == 5
  {
    NewExamples();
    var ls := InitialLevels(2, 2, 1);
    var root := BlockId(0, 0, 1);
    WalkAllCount(root);
    assert Roots(1, 1, 1) == [root];
    assert WalkEach([root], 2, Always) == WalkBlock(root, Always) + WalkEach([], 2, Always);
    assert WalkLevels(ls, Always) == WalkBlock(root, Always);
  }

  /** Every ancestor of `x` from one level up to `k` levels up was
      descended into. */
  predicate PathDescends(x: BlockId, k: nat, descend: BlockId -> bool) {
    forall j :: 1 <= j <= k ==> descend(AncestorAt(x, j))
  }

  /** The walk from `b` visits exactly the blocks at or below `b` each of
      whose ancestors up to `b` was descended into. */
  lemma {:induction false} WalkBlockMembers(b: BlockId, descend: BlockId -> bool, x: BlockId)
    ensures x in WalkBlock(b, descend) <==> Below(x, b) && PathDescends(x, b.level - x.level, descend)
    decreases b.level, 1
  {
    if x in WalkBlock(b, descend) {
      WalkBlockMembersDown(b, descend, x);
    }
    if Below(x, b) && PathDescends(x, b.level - x.level, descend) {
      WalkBlockMembersUp(b, descend, x);
    }
  }

  lemma {:induction false} WalkBlockMembersDown(b: BlockId, descend: BlockId -> bool, x: BlockId)
    requires x in WalkBlock(b, descend)
    ensures Below(x, b) && PathDescends(x, b.level - x.level, descend)
    decreases b.level, 0
  {
    if x != b {
      assert descend(b);
      var cs := Children(b);
      WalkEachMembers(cs, b.level, descend, x);
      var c :| c in cs && x in WalkBlock(c, descend);
      ChildHasParent(b, c);
      WalkBlockMembers(c, descend, x);
      ClimbBelow(x, c, b, descend);
    } else {
      assert AncestorAt(x, 0) == x;
    }
  }

  lemma {:induction false} WalkBlockMembersUp(b: BlockId, descend: BlockId -> bool, x: BlockId)
    requires Below(x, b) && PathDescends(x, b.level - x.level, descend)
    ensures x in WalkBlock(b, descend)
    decreases b.level, 0
  {
    assert AncestorAt(x, 0) == x;
    if x != b {
      var k := b.level - x.level;
      assert k > 0 && descend(b);
      var c := AncestorAt(x, k - 1);
      assert c in Children(b) by {
        AncestorComposes(x, k - 1);
        ChildrenAreParentPreimage(b, c);
      }
      assert x in WalkBlock(c, descend) by {
        assert PathDescends(x, c.level - x.level, descend);
        WalkBlockMembers(c, descend, x);
      }
      WalkEachMembers(Children(b), b.level, descend, x);
    }
  }

  lemma {:induction false} WalkEachMembers(bs: seq<BlockId>, bound: nat, descend: BlockId -> bool, x: BlockId)
    requires forall y :: y in bs ==> y.level < bound
    ensures x in WalkEach(bs, bound, descend) <==> exists y :: y in bs && x in WalkBlock(y, descend)
  {
    if bs != [] {
      var first, rest := WalkBlock(bs[0], descend), WalkEach(bs[1..], bound, descend);
      assert WalkEach(bs, bound, descend) == first + rest;
      WalkEachMembers(bs[1..], bound, descend, x);
      if x in first {
        assert bs[0] in bs;
      } else if x in rest {
        var y :| y in bs[1..] && x in WalkBlock(y, descend);
        assert y in bs;
      } else {
        forall y | y in bs ensures x !in WalkBlock(y, descend) {
          assert y == bs[0] || y in bs[1..];
        }
      }
    }
  }

  /** Walking one more block after `bs` appends its walk. */
  lemma {:induction false} WalkEachSnoc(bs: seq<BlockId>, x: BlockId, bound: nat, descend: BlockId -> bool)
    requires forall y :: y in bs ==> y.level < bound
    requires x.level < bound
    ensures WalkEach(bs + [x], bound, descend) == WalkEach(bs, bound, descend) + WalkBlock(x, descend)
  {
    if bs == [] {
      assert [x][1..] == [];
    } else {
      assert (bs + [x])[1..] == bs[1..] + [x];
      WalkEachSnoc(bs[1..], x, bound, descend);
    }
  }

  /** The walks of the first `k + 1` blocks of `bs` are those of the first
      `k`, then the walk of block `k`. */
  lemma WalkEachPrefix(bs: seq<BlockId>, k: nat, bound: nat, descend: BlockId -> bool)
    requires k < |bs| && forall y :: y in bs ==> y.level < bound
    ensures WalkEach(bs[..k + 1], bound, descend) == WalkEach(bs[..k], bound, descend) + WalkBlock(bs[k], descend)
  {
    assert bs[..k + 1] == bs[..k] + [bs[k]];
    WalkEachSnoc(bs[..k], bs[k], bound, descend);
  }

  /** The parent of the ancestor `k` levels up is the ancestor `k + 1`
      levels up. */
  lemma {:induction false} AncestorComposes(x: BlockId, k: nat)
    ensures Parent(AncestorAt(x, k)) == AncestorAt(x, k + 1)
  {
  }

  /** Being below a child of `b`, with every ancestor up to that child
      descended into and `b` descended into, is being below `b` with every
      ancestor up to `b` descended into. */
  lemma {:induction false} ClimbBelow(x: BlockId, c: BlockId, b: BlockId, descend: BlockId -> bool)
    requires c.level + 1 == b.level && Parent(c) == b && descend(b)
    requires Below(x, c) && PathDescends(x, c.level - x.level, descend)
    ensures Below(x, b) && PathDescends(x, b.level - x.level, descend)
  {
    var k := c.level - x.level;
    AncestorComposes(x, k);
  }
}
