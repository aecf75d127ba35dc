/** The per-frame rules of terrain rendering: which blocks get new meshes,
    how finished mesh tasks land in the mesh trees, and which meshes are
    shown. Bevy's entities, tasks and queries become plain values: an
    entity is an opaque number, a task's completion is an input, and the
    camera's distance test is a predicate. */
module Rendering {
  import opened Wrappers
  import opened Ranges
  import opened TerrainGrid
  import opened MeshTrees

  /** At most this many dirty blocks are taken per frame. */
  const RendersPerFrame: nat := 16

  /** The highest tree level `update_parents` asks for. */
  const MaxMeshTreeLevel: nat := 4

  // ---------------------------------------------------------------------
  // block_range and block_quality
  // ---------------------------------------------------------------------

  /** The cells covered by block `b`: a square of `2^level * blockSize`
      cells plus the shared edge row and column. */
  function BlockRange(blockSize: nat, b: BlockId): (r: Range2)
    ensures r.rows.start == b.row * (Pow2(b.level) * blockSize) && r.cols.start == b.col * (Pow2(b.level) * blockSize)
    ensures r.rows.end - r.rows.start == r.cols.end - r.cols.start == Pow2(b.level) * blockSize + 1
  {
    var size := Pow2(b.level) * blockSize;
    Range2(Interval(b.row * size, (b.row + 1) * size + 1),
           Interval(b.col * size, (b.col + 1) * size + 1))
  }

  /** The sampling stride of `block_quality`: `1 << level`. */
  function Spacing(b: BlockId): (s: nat)
    ensures s >= 1
  {
    Pow2(b.level)
  }

  /** The number of elements a slice `start..end;step` takes from an
      interval of `len` elements. */
  function SampleCount(len: nat, step: nat): nat
    requires step >= 1
  {
    (len + step - 1) / step
  }

  /** A bottom-level block covers exactly the cells `reset` gives it. */
  lemma BlockRangeOfBottom(r: nat, c: nat)
    ensures BlockRange(BlockSize, BlockId(r, c, 0)) == BlockCells(r, c)
  {
  }

  /** Each child's range lies inside its parent's. */
  lemma {:induction false} ChildRangeWithin(blockSize: nat, b: BlockId, x: BlockId)
    requires x in Children(b)
    ensures Within(BlockRange(blockSize, x), BlockRange(blockSize, b))
  {
    var s := Pow2(x.level) * blockSize;
    assert Pow2(b.level) == 2 * Pow2(x.level);
    assert Pow2(b.level) * blockSize == 2 * s;
    HalfEdgeWithin(b.row, x.row, s);
    HalfEdgeWithin(b.col, x.col, s);
  }

  /** Along one axis: child index `k` (2r or 2r + 1) at size `s` lies within
      parent index `r` at size `2s`. */
  lemma {:induction false} HalfEdgeWithin(r: nat, k: nat, s: nat)
    requires k == 2 * r || k == 2 * r + 1
    ensures r * (2 * s) <= k * s && (k + 1) * s + 1 <= (r + 1) * (2 * s) + 1
  {
    assert r * (2 * s) == (2 * r) * s;
    assert (r + 1) * (2 * s) == (2 * r) * s + 2 * s;
    assert (2 * r + 1) * s == (2 * r) * s + s;
    assert (k + 1) * s == k * s + s;
  }

  lemma {:induction false} MulAtLeast(k: int, s: nat)
    ensures k >= 1 ==> k * s >= s
  {
    if k >= 1 {
      assert k * s == (k - 1) * s + s;
      assert (k - 1) * s >= 0;
    }
  }

  /** Division is exact on the quotient's own interval. */
  lemma {:induction false} DivUnique(a: int, s: nat, q: int)
    requires s >= 1 && q * s <= a < q * s + s
    ensures a / s == q
  {
    var d, m := a / s, a % s;
    assert a == d * s + m;
    assert (q - d) * s == q * s - d * s;
    assert (d - q) * s == d * s - q * s;
    MulAtLeast(q - d, s);
    MulAtLeast(d - q, s);
  }

  /** Sampling a block's range at its spacing takes `blockSize + 1` points
      per axis, the first on the range's first cell and the last on its last
      cell, so the meshes of neighbouring blocks meet. */
  lemma {:induction false} SpacingSamplesBlock(blockSize: nat, b: BlockId)
    ensures var r, s := BlockRange(blockSize, b), Spacing(b);
      && SampleCount(r.rows.end - r.rows.start, s) == blockSize + 1
      && SampleCount(r.cols.end - r.cols.start, s) == blockSize + 1
      && r.rows.start + blockSize * s == r.rows.end - 1
      && r.cols.start + blockSize * s == r.cols.end - 1
  {
    var r, s := BlockRange(blockSize, b), Spacing(b);
    var size := Pow2(b.level) * blockSize;
    assert size == blockSize * s;
    assert (b.row + 1) * size == b.row * size + size;
    assert (b.col + 1) * size == b.col * size + size;
    assert r.rows.end - r.rows.start == size + 1;
    assert r.cols.end - r.cols.start == size + 1;
    assert size + 1 + s - 1 == (blockSize + 1) * s;
    DivUnique(size + 1 + s - 1, s, blockSize + 1);
  }

  // ---------------------------------------------------------------------
  // Choosing the dirty blocks (update_meshes)
  // ---------------------------------------------------------------------

  /** The dirty blocks among the first `n` of row `i`, left to right. */
  function DirtyRow(info: array2<BlockInfo>, i: nat, n: nat): seq<(nat, nat)>
    requires i < info.Length0 && n <= info.Length1
    reads info
  {
    if n == 0 then []
    else DirtyRow(info, i, n - 1) + (if info[i, n - 1].dirty then [(i, n - 1)] else [])
  }

  /** The dirty blocks among the first `n` rows, in row-major order. */
  function DirtyRows(info: array2<BlockInfo>, n: nat): seq<(nat, nat)>
    requires n <= info.Length0
    reads info
  {
    if n == 0 then [] else DirtyRows(info, n - 1) + DirtyRow(info, n - 1, info.Length1)
  }

  /** The first `n` elements of `s`, or all of it when it is shorter. */
  function Take<T>(s: seq<T>, n: nat): (t: seq<T>)
    ensures t <= s && |t| == if |s| < n then |s| else n
  {
    if |s| <= n then s else s[..n]
  }

  /** Once `n` elements are taken, extending the sequence changes nothing. */
  lemma {:induction false} TakeOfExtension<T>(s: seq<T>, t: seq<T>, n: nat)
    requires s <= t && |Take(s, n)| == n
    ensures Take(t, n) == Take(s, n)
  {
    assert t[..n] == s[..n];
  }

  /** A row's dirty blocks up to `j` are a prefix of those up to `n`. */
  lemma {:induction false} DirtyRowPrefix(info: array2<BlockInfo>, i: nat, j: nat, n: nat)
    requires i < info.Length0 && j <= n <= info.Length1
    ensures DirtyRow(info, i, j) <= DirtyRow(info, i, n)
    decreases n - j
  {
    if j < n {
      DirtyRowPrefix(info, i, j, n - 1);
    }
  }

  /** The first `i` rows' dirty blocks are a prefix of the first `n` rows'. */
  lemma {:induction false} DirtyRowsPrefix(info: array2<BlockInfo>, i: nat, n: nat)
    requires i <= n <= info.Length0
    ensures DirtyRows(info, i) <= DirtyRows(info, n)
    decreases n - i
  {
    if i < n {
      DirtyRowsPrefix(info, i, n - 1);
    }
  }

  /** The blocks `update_meshes` works on in a frame: the first
      `RendersPerFrame` dirty blocks in row-major order. */
  function Picked(info: array2<BlockInfo>): seq<(nat, nat)>
    reads info
  {
    Take(DirtyRows(info, info.Length0), RendersPerFrame)
  }

  /** The loops that collect `Picked`. */
  method PickDirty(info: array2<BlockInfo>) returns (blocks: seq<(nat, nat)>)
    ensures blocks == Picked(info)
  {
    blocks := [];
    var i := 0;
    while i < info.Length0 && |blocks| < RendersPerFrame
      invariant 0 <= i <= info.Length0
      invariant blocks == Take(DirtyRows(info, i), RendersPerFrame)
    {
      var j := 0;
      while j < info.Length1 && |blocks| < RendersPerFrame
        invariant 0 <= j <= info.Length1
        invariant blocks == Take(DirtyRows(info, i) + DirtyRow(info, i, j), RendersPerFrame)
      {
        if info[i, j].dirty {
          blocks := blocks + [(i, j)];
        }
        j := j + 1;
      }
      if j < info.Length1 {
        DirtyRowPrefix(info, i, j, info.Length1);
        TakeOfExtension(DirtyRows(info, i) + DirtyRow(info, i, j), DirtyRows(info, i + 1), RendersPerFrame);
      }
      i := i + 1;
    }
    if i < info.Length0 {
      DirtyRowsPrefix(info, i, info.Length0);
      TakeOfExtension(DirtyRows(info, i), DirtyRows(info, info.Length0), RendersPerFrame);
    }
  }

  /** Row-major order on block indices. */
  predicate RowMajorBefore(p: (nat, nat), q: (nat, nat)) {
    p.0 < q.0 || (p.0 == q.0 && p.1 < q.1)
  }

  predicate Ascending(s: seq<(nat, nat)>) {
    forall k, l :: 0 <= k < l < |s| ==> RowMajorBefore(s[k], s[l])
  }

  /** Joining two ascending runs, the first wholly before the second. */
  lemma {:induction false} AscendingJoin(s: seq<(nat, nat)>, t: seq<(nat, nat)>)
    requires Ascending(s) && Ascending(t)
    requires forall p, q :: p in s && q in t ==> RowMajorBefore(p, q)
    ensures Ascending(s + t)
  {
    var u := s + t;
    forall k, l | 0 <= k < l < |u|
      ensures RowMajorBefore(u[k], u[l])
    {
      if l < |s| {
        assert u[k] == s[k] && u[l] == s[l];
      } else if k >= |s| {
        assert u[k] == t[k - |s|] && u[l] == t[l - |s|];
      } else {
        assert u[k] == s[k] && u[l] == t[l - |s|];
      }
    }
  }

  /** Row `i` lists exactly its dirty blocks before column `n`, left to
      right. */
  lemma {:induction false} DirtyRowFacts(info: array2<BlockInfo>, i: nat, n: nat)
    requires i < info.Length0 && n <= info.Length1
    ensures forall p :: p in DirtyRow(info, i, n) <==> p.0 == i && p.1 < n && info[i, p.1].dirty
    ensures Ascending(DirtyRow(info, i, n))
  {
    if n > 0 {
      DirtyRowFacts(info, i, n - 1);
      if info[i, n - 1].dirty {
        AscendingJoin(DirtyRow(info, i, n - 1), [(i, n - 1)]);
      }
    }
  }

  /** The first `n` rows list exactly their dirty blocks, in row-major
      order. */
  lemma {:induction false} DirtyRowsFacts(info: array2<BlockInfo>, n: nat)
    requires n <= info.Length0
    ensures forall p :: p in DirtyRows(info, n) <==> p.0 < n && p.1 < info.Length1 && info[p.0, p.1].dirty
    ensures Ascending(DirtyRows(info, n))
  {
    if n > 0 {
      DirtyRowsFacts(info, n - 1);
      DirtyRowFacts(info, n - 1, info.Length1);
      AscendingJoin(DirtyRows(info, n - 1), DirtyRow(info, n - 1, info.Length1));
    }
  }

  /** What `update_meshes` picks: at most `RendersPerFrame` blocks, all dirty,
      in row-major order, and any dirty block left out comes after all of
      them with the quota full. Nothing is picked exactly when no block is
      dirty. */
  lemma {:induction false} PickedAreFirstDirty(info: array2<BlockInfo>)
    ensures var picked := Picked(info);
      && |picked| <= RendersPerFrame
      && Ascending(picked)
      && (forall p :: p in picked ==> p.0 < info.Length0 && p.1 < info.Length1 && info[p.0, p.1].dirty)
      && (forall r, c :: 0 <= r < info.Length0 && 0 <= c < info.Length1 && info[r, c].dirty && (r, c) !in picked ==>
            |picked| == RendersPerFrame && forall p :: p in picked ==> RowMajorBefore(p, (r, c)))
      && (picked == [] <==> forall r, c :: 0 <= r < info.Length0 && 0 <= c < info.Length1 ==> !info[r, c].dirty)
  {
    var all := DirtyRows(info, info.Length0);
    var picked := Take(all, RendersPerFrame);
    DirtyRowsFacts(info, info.Length0);
    assert forall k :: 0 <= k < |picked| ==> picked[k] == all[k];
    forall r, c | 0 <= r < info.Length0 && 0 <= c < info.Length1 && info[r, c].dirty && (r, c) !in picked
      ensures |picked| == RendersPerFrame && forall p :: p in picked ==> RowMajorBefore(p, (r, c))
    {
      assert (r, c) in all;
      var l :| 0 <= l < |all| && all[l] == (r, c);
      assert l >= |picked|;
      forall p | p in picked
        ensures RowMajorBefore(p, (r, c))
      {
        var k :| 0 <= k < |picked| && picked[k] == p;
      }
    }
    if picked == [] {
      assert all == [];
    } else {
      assert picked[0] in all;
    }
  }

  // ---------------------------------------------------------------------
  // The blocks needed for the picked blocks (update_meshes)
  // ---------------------------------------------------------------------

  /** The bottom-level block of terrain block `p`. */
  function Leaf(p: (nat, nat)): BlockId {
    BlockId(p.0, p.1, 0)
  }

  /** `x` is the block at its level covering terrain block `p`. */
  predicate Covers(x: BlockId, p: (nat, nat)) {
    AncestorAt(Leaf(p), x.level) == x
  }

  /** Terrain block `p` followed by what `ancestors` returns for it in a
      tree whose top level is `top`. */
  function Lineage(p: (nat, nat), top: nat): seq<BlockId> {
    [Leaf(p)] + seq(top, k requires 0 <= k < top => AncestorAt(Leaf(p), k + 1))
  }

  /** The blocks gathered for `picked`, each followed by its ancestors. */
  function Gathered(picked: seq<(nat, nat)>, top: nat): seq<BlockId> {
    if picked == [] then []
    else Gathered(picked[..|picked| - 1], top) + Lineage(picked[|picked| - 1], top)
  }

  /** The blocks of `bs` at `level`, in their order. */
  function ByLevel(bs: seq<BlockId>, level: nat): seq<BlockId> {
    if bs == [] then []
    else ByLevel(bs[..|bs| - 1], level) + (if bs[|bs| - 1].level == level then [bs[|bs| - 1]] else [])
  }

  /** The blocks of `bs` at or below `level`, in their order. */
  function AtMost(bs: seq<BlockId>, level: nat): seq<BlockId> {
    if bs == [] then []
    else AtMost(bs[..|bs| - 1], level) + (if bs[|bs| - 1].level <= level then [bs[|bs| - 1]] else [])
  }

  /** The stable sort `sort_by_key(|b| usize::MAX - b.level)` of the blocks
      of `bs` at or below `level`: the blocks of each level in their original
      order, highest level first. */
  function SortByLevel(bs: seq<BlockId>, level: nat): seq<BlockId>
    decreases level
  {
    ByLevel(bs, level) + (if level == 0 then [] else SortByLevel(bs, level - 1))
  }

  /** `Vec::dedup`: drop each element equal to the one before it. */
  function DedupAdjacent(s: seq<BlockId>): (r: seq<BlockId>)
    ensures |s| > 0 ==> |r| > 0 && r[|r| - 1] == s[|s| - 1]
  {
    if |s| <= 1 then s
    else
      var d := DedupAdjacent(s[..|s| - 1]);
      if s[|s| - 1] == s[|s| - 2] then d else d + [s[|s| - 1]]
  }

  /** Drop each element equal to any earlier one. */
  function Distinct(s: seq<BlockId>): seq<BlockId> {
    if s == [] then []
    else
      var d := Distinct(s[..|s| - 1]);
      if s[|s| - 1] in s[..|s| - 1] then d else d + [s[|s| - 1]]
  }

  /** Levels never increase along `s`. */
  predicate LevelsDescend(s: seq<BlockId>) {
    forall i, j :: 0 <= i < j < |s| ==> s[i].level >= s[j].level
  }

  /** No block occurs twice in `s`. */
  predicate NoRepeats(s: seq<BlockId>) {
    forall i, j :: 0 <= i < j < |s| ==> s[i] != s[j]
  }

  /** `blocks_needed` as `update_meshes` computes it: sorted by level only,
      then `dedup`. */
  function BlocksNeededAsWritten(picked: seq<(nat, nat)>, top: nat): (needed: seq<BlockId>)
    ensures forall i :: 0 <= i < |needed| - 1 ==> needed[i] != needed[i + 1]
  {
    DedupAdjacentNeighbours(SortByLevel(Gathered(picked, top), top));
    DedupAdjacent(SortByLevel(Gathered(picked, top), top))
  }

  /** `blocks_needed` with every repeat dropped, not only adjacent ones. */
  function BlocksNeeded(picked: seq<(nat, nat)>, top: nat): seq<BlockId> {
    Distinct(SortByLevel(Gathered(picked, top), top))
  }

  lemma {:induction false} LineageMembers(p: (nat, nat), top: nat, x: BlockId)
    ensures x in Lineage(p, top) <==> x.level <= top && Covers(x, p)
  {
    var s := Lineage(p, top);
    if x.level <= top && Covers(x, p) {
      if x.level == 0 {
        assert x == s[0];
      } else {
        assert x == s[x.level];
      }
    }
    if x in s {
      var i :| 0 <= i < |s| && s[i] == x;
      if i == 0 {
        assert AncestorAt(Leaf(p), 0) == Leaf(p);
      } else {
        assert s[i] == AncestorAt(Leaf(p), i);
      }
    }
  }

  /** The gathered blocks are the picked blocks and the blocks above them,
      up to `top`. */
  lemma {:induction false} GatheredMembers(picked: seq<(nat, nat)>, top: nat, x: BlockId)
    ensures x in Gathered(picked, top) <==> x.level <= top && exists p :: p in picked && Covers(x, p)
  {
    if picked != [] {
      var n := |picked| - 1;
      GatheredMembers(picked[..n], top, x);
      LineageMembers(picked[n], top, x);
      assert picked == picked[..n] + [picked[n]];
    }
  }

  lemma {:induction false} ByLevelMembers(bs: seq<BlockId>, level: nat, x: BlockId)
    ensures x in ByLevel(bs, level) <==> x in bs && x.level == level
  {
    if bs != [] {
      var n := |bs| - 1;
      ByLevelMembers(bs[..n], level, x);
      assert bs == bs[..n] + [bs[n]];
    }
  }

  lemma {:induction false} AtMostMembers(bs: seq<BlockId>, level: nat, x: BlockId)
    ensures x in AtMost(bs, level) <==> x in bs && x.level <= level
  {
    if bs != [] {
      var n := |bs| - 1;
      AtMostMembers(bs[..n], level, x);
      assert bs == bs[..n] + [bs[n]];
    }
  }

  /** Filtering by a bound every block meets keeps everything. */
  lemma {:induction false} AtMostAll(bs: seq<BlockId>, level: nat)
    requires forall x :: x in bs ==> x.level <= level
    ensures AtMost(bs, level) == bs
  {
    if bs != [] {
      var n := |bs| - 1;
      AtMostAll(bs[..n], level);
      assert bs == bs[..n] + [bs[n]];
    }
  }

  /** Blocks at or below `level` are those at `level` and those below it. */
  lemma {:induction false} AtMostSplits(bs: seq<BlockId>, level: nat)
    requires level > 0
    ensures multiset(ByLevel(bs, level)) + multiset(AtMost(bs, level - 1)) == multiset(AtMost(bs, level))
  {
    if bs != [] {
      var n := |bs| - 1;
      AtMostSplits(bs[..n], level);
    }
  }

  /** The sort is a permutation of the blocks at or below `level`. */
  lemma {:induction false} SortByLevelPermutes(bs: seq<BlockId>, level: nat)
    ensures multiset(SortByLevel(bs, level)) == multiset(AtMost(bs, level))
    decreases level
  {
    if level == 0 {
      ByLevelIsAtMostZero(bs);
    } else {
      SortByLevelPermutes(bs, level - 1);
      AtMostSplits(bs, level);
    }
  }

  lemma {:induction false} ByLevelIsAtMostZero(bs: seq<BlockId>)
    ensures ByLevel(bs, 0) == AtMost(bs, 0)
  {
    if bs != [] {
      ByLevelIsAtMostZero(bs[..|bs| - 1]);
    }
  }

  /** Joining two runs of descending levels, the first never below the
      second. */
  lemma {:induction false} LevelsDescendJoin(s: seq<BlockId>, t: seq<BlockId>)
    requires LevelsDescend(s) && LevelsDescend(t)
    requires forall x, y :: x in s && y in t ==> x.level >= y.level
    ensures LevelsDescend(s + t)
  {
    var u := s + t;
    forall i, j | 0 <= i < j < |u|
      ensures u[i].level >= u[j].level
    {
      if j < |s| {
        assert u[i] == s[i] && u[j] == s[j];
      } else if i >= |s| {
        assert u[i] == t[i - |s|] && u[j] == t[j - |s|];
      } else {
        assert u[i] == s[i] && u[j] == t[j - |s|];
      }
    }
  }

  /** The sort keeps exactly the blocks at or below `level`, highest level
      first. */
  lemma {:induction false} SortByLevelFacts(bs: seq<BlockId>, level: nat)
    ensures forall x :: x in SortByLevel(bs, level) <==> x in bs && x.level <= level
    ensures LevelsDescend(SortByLevel(bs, level))
    decreases level
  {
    var high := ByLevel(bs, level);
    forall x ensures x in high <==> x in bs && x.level == level {
      ByLevelMembers(bs, level, x);
    }
    if level > 0 {
      SortByLevelFacts(bs, level - 1);
      LevelsDescendJoin(high, SortByLevel(bs, level - 1));
    }
  }

  /** `dedup` keeps every block, drops only adjacent repeats, and keeps
      descending levels descending. */
  lemma {:induction false} DedupAdjacentFacts(s: seq<BlockId>)
    ensures forall x :: x in DedupAdjacent(s) <==> x in s
    ensures forall i :: 0 <= i < |DedupAdjacent(s)| - 1 ==> DedupAdjacent(s)[i] != DedupAdjacent(s)[i + 1]
    ensures LevelsDescend(s) ==> LevelsDescend(DedupAdjacent(s))
  {
    DedupAdjacentMembers(s);
    DedupAdjacentNeighbours(s);
    if LevelsDescend(s) {
      DedupAdjacentLevels(s);
    }
  }

  lemma {:induction false} DedupAdjacentMembers(s: seq<BlockId>)
    ensures forall x :: x in DedupAdjacent(s) <==> x in s
  {
    if |s| > 1 {
      var n := |s| - 1;
      DedupAdjacentMembers(s[..n]);
      assert s == s[..n] + [s[n]];
      assert s[n - 1] in s[..n];
    }
  }

  lemma {:induction false} DedupAdjacentNeighbours(s: seq<BlockId>)
    ensures forall i :: 0 <= i < |DedupAdjacent(s)| - 1 ==> DedupAdjacent(s)[i] != DedupAdjacent(s)[i + 1]
  {
    if |s| > 1 {
      var n := |s| - 1;
      var d := DedupAdjacent(s[..n]);
      DedupAdjacentNeighbours(s[..n]);
      if s[n] != s[n - 1] {
        var r := d + [s[n]];
        assert d[|d| - 1] == s[..n][n - 1] == s[n - 1];
        forall i | 0 <= i < |r| - 1 ensures r[i] != r[i + 1] {
          if i < |d| - 1 {
            assert r[i] == d[i] && r[i + 1] == d[i + 1];
          }
        }
      }
    }
  }

  lemma {:induction false} DedupAdjacentLevels(s: seq<BlockId>)
    requires LevelsDescend(s)
    ensures LevelsDescend(DedupAdjacent(s))
  {
    if |s| > 1 {
      var n := |s| - 1;
      var d := DedupAdjacent(s[..n]);
      assert LevelsDescend(s[..n]);
      DedupAdjacentLevels(s[..n]);
      DedupAdjacentMembers(s[..n]);
      if s[n] != s[n - 1] {
        forall x | x in d ensures x.level >= s[n].level {
          var i :| 0 <= i < n && s[..n][i] == x;
          assert s[i] == x;
        }
        LevelsDescendJoin(d, [s[n]]);
      }
    }
  }

  /** Dropping every repeat keeps every block, leaves none twice, and keeps
      descending levels descending. */
  lemma {:induction false} DistinctFacts(s: seq<BlockId>)
    ensures forall x :: x in Distinct(s) <==> x in s
    ensures NoRepeats(Distinct(s))
    ensures LevelsDescend(s) ==> LevelsDescend(Distinct(s))
  {
    if s != [] {
      var n := |s| - 1;
      var d := Distinct(s[..n]);
      DistinctFacts(s[..n]);
      assert s == s[..n] + [s[n]];
      if s[n] !in s[..n] {
        var r := d + [s[n]];
        forall i, j | 0 <= i < j < |r| ensures r[i] != r[j] {
          if j == |d| {
            assert r[i] in d;
          } else {
            assert r[i] == d[i] && r[j] == d[j];
          }
        }
        if LevelsDescend(s) {
          forall x | x in d ensures x.level >= s[n].level {
            var i :| 0 <= i < n && s[i] == x;
          }
          LevelsDescendJoin(d, [s[n]]);
        }
      }
    }
  }

  /** Every gathered block lies at or below `top`. */
  lemma {:induction false} GatheredBelowTop(picked: seq<(nat, nat)>, top: nat)
    ensures forall x :: x in Gathered(picked, top) ==> x.level <= top
  {
    forall x | x in Gathered(picked, top) ensures x.level <= top {
      GatheredMembers(picked, top, x);
    }
  }

  /** What `update_meshes` computes holds the picked blocks and their
      ancestors and nothing else, highest level first, with no two
      neighbours equal. */
  lemma {:induction false} BlocksNeededAsWrittenFacts(picked: seq<(nat, nat)>, top: nat)
    ensures var needed := BlocksNeededAsWritten(picked, top);
      && (forall x :: x in needed <==> x.level <= top && exists p :: p in picked && Covers(x, p))
      && LevelsDescend(needed)
      && (forall i :: 0 <= i < |needed| - 1 ==> needed[i] != needed[i + 1])
  {
    var g := Gathered(picked, top);
    SortByLevelFacts(g, top);
    DedupAdjacentFacts(SortByLevel(g, top));
    forall x ensures x in g <==> x.level <= top && exists p :: p in picked && Covers(x, p) {
      GatheredMembers(picked, top, x);
    }
  }

  /** A block that covers two picked terrain blocks which are not
      neighbours in the list stays twice in `blocks_needed`: blocks (0, 0),
      (0, 2), (1, 0) under a two-level tree need block (0, 0) of level 1 at
      positions 0 and 2. */
  lemma BlocksNeededAsWrittenRepeats()
    ensures var needed := BlocksNeededAsWritten([(0, 0), (0, 2), (1, 0)], 1);
      && |needed| == 6 && needed[0] == needed[2] == BlockId(0, 0, 1)
      && needed == [BlockId(0, 0, 1), BlockId(0, 1, 1), BlockId(0, 0, 1), BlockId(0, 0, 0), BlockId(0, 2, 0), BlockId(1, 0, 0)]
  {
    var g := RepeatsGathered();
    var sorted := RepeatsSorted(g);
    RepeatsKeptByDedup(sorted);
  }

  lemma RepeatsGathered() returns (g: seq<BlockId>)
    ensures g == Gathered([(0, 0), (0, 2), (1, 0)], 1)
    ensures g == [BlockId(0, 0, 0), BlockId(0, 0, 1), BlockId(0, 2, 0), BlockId(0, 1, 1), BlockId(1, 0, 0), BlockId(0, 0, 1)]
  {
    var picked := [(0, 0), (0, 2), (1, 0)];
    LineageOfTwoLevels((0, 0));
    LineageOfTwoLevels((0, 2));
    LineageOfTwoLevels((1, 0));
    assert picked[..2][..1] == [(0, 0)] && picked[..2][1] == (0, 2);
    assert Gathered(picked[..1], 1) == Lineage((0, 0), 1);
    assert Gathered(picked[..2], 1) == Lineage((0, 0), 1) + Lineage((0, 2), 1);
    g := Gathered(picked, 1);
  }

  lemma RepeatsSorted(g: seq<BlockId>) returns (sorted: seq<BlockId>)
    requires g == [BlockId(0, 0, 0), BlockId(0, 0, 1), BlockId(0, 2, 0), BlockId(0, 1, 1), BlockId(1, 0, 0), BlockId(0, 0, 1)]
    ensures sorted == SortByLevel(g, 1)
    ensures sorted == [BlockId(0, 0, 1), BlockId(0, 1, 1), BlockId(0, 0, 1), BlockId(0, 0, 0), BlockId(0, 2, 0), BlockId(1, 0, 0)]
  {
    assert g[..1] == [g[0]] && g[..2][..1] == g[..1] && g[..3][..2] == g[..2];
    assert g[..4][..3] == g[..3] && g[..5][..4] == g[..4] && g[..5] == g[..6][..5];
    assert g[..1][..0] == [];
    assert ByLevel(g[..1], 1) == [];
    assert ByLevel(g[..2], 1) == [g[1]];
    assert ByLevel(g[..4], 1) == [g[1], g[3]];
    assert ByLevel(g, 1) == [g[1], g[3], g[5]];
    assert ByLevel(g[..1], 0) == [g[0]];
    assert ByLevel(g[..3], 0) == [g[0], g[2]];
    assert ByLevel(g[..4], 0) == [g[0], g[2]];
    assert ByLevel(g[..5], 0) == [g[0], g[2], g[4]];
    assert ByLevel(g, 0) == [g[0], g[2], g[4]];
    sorted := SortByLevel(g, 1);
  }

  lemma RepeatsKeptByDedup(sorted: seq<BlockId>)
    requires sorted == [BlockId(0, 0, 1), BlockId(0, 1, 1), BlockId(0, 0, 1), BlockId(0, 0, 0), BlockId(0, 2, 0), BlockId(1, 0, 0)]
    ensures DedupAdjacent(sorted) == sorted
  {
    assert sorted[..2][..1] == sorted[..1] && sorted[..3][..2] == sorted[..2];
    assert sorted[..4][..3] == sorted[..3] && sorted[..5][..4] == sorted[..4] && sorted[..6][..5] == sorted[..5];
    assert DedupAdjacent(sorted[..2]) == sorted[..2];
    assert DedupAdjacent(sorted[..3]) == sorted[..3];
    assert DedupAdjacent(sorted[..4]) == sorted[..4];
    assert DedupAdjacent(sorted[..5]) == sorted[..5];
  }

  /** Under a two-level tree a terrain block's lineage is its leaf and the
      block above it. */
  lemma LineageOfTwoLevels(p: (nat, nat))
    ensures Lineage(p, 1) == [Leaf(p), BlockId(p.0 / 2, p.1 / 2, 1)]
  {
    var s := Lineage(p, 1);
    assert Halve(p.0, 1) == p.0 / 2 && Halve(p.1, 1) == p.1 / 2;
    assert |s| == 2 && s[0] == Leaf(p) && s[1] == AncestorAt(Leaf(p), 1);
  }

  /** The corrected list: the picked blocks and their ancestors and
      nothing else, highest level first, each block once. */
  lemma {:induction false} BlocksNeededFacts(picked: seq<(nat, nat)>, top: nat)
    ensures var needed := BlocksNeeded(picked, top);
      && (forall x :: x in needed <==> x.level <= top && exists p :: p in picked && Covers(x, p))
      && LevelsDescend(needed)
      && NoRepeats(needed)
  {
    var g := Gathered(picked, top);
    SortByLevelFacts(g, top);
    DistinctFacts(SortByLevel(g, top));
    forall x ensures x in g <==> x.level <= top && exists p :: p in picked && Covers(x, p) {
      GatheredMembers(picked, top, x);
    }
  }

  /** The counterexample arises on a terrain of 2 x 3 blocks: its tree has
      two levels and block (0, 0) of level 1 is a real block. */
  lemma RepeatsScenario()
    ensures var ls := InitialLevels(2, 3, MaxMeshTreeLevel);
      |ls| == 2 && ls[1].rows == 1 && ls[1].cols == 2 && ls[1].entries[0][0] == Pending
  {
    assert CeilLog2(2) == 1;
    assert Padded(2, 1) == 2 && Padded(3, 1) == 4;
  }

  // ---------------------------------------------------------------------
  // Where blocks lie in a tree
  // ---------------------------------------------------------------------

  /** The bottom level of `levels` has room for every terrain block. */
  ghost predicate Fits(levels: seq<Level>, numBlocks: (nat, nat)) {
    WellFormed(levels) && numBlocks.0 <= levels[0].rows && numBlocks.1 <= levels[0].cols
  }

  /** The index of the top level. */
  function Top(levels: seq<Level>): nat
    requires |levels| >= 1
  {
    |levels| - 1
  }

  /** The levels of every tree, by layer. */
  function Forest(trees: map<Layer, MeshTree>): (forest: map<Layer, seq<Level>>)
    reads trees.Values
    ensures forall l :: l in trees <==> l in forest
    ensures forall l :: l in trees ==> forest[l] == trees[l].levels
  {
    map l | l in trees :: trees[l].levels
  }

  /** A tree built by `new` fits the block grid it was built for. */
  lemma NewTreeFits(numBlocks: (nat, nat), maxLevel: nat)
    ensures Fits(InitialLevels(numBlocks.0, numBlocks.1, maxLevel), numBlocks)
  {
    InitialLevelsHalve(numBlocks.0, numBlocks.1, maxLevel);
    BottomLevelCovers(numBlocks.0, numBlocks.1, maxLevel);
  }

  /** The blocks above a block of the tree, up to the top, are in the tree. */
  lemma {:induction false} AncestorInTree(levels: seq<Level>, b: BlockId, k: nat)
    requires WellFormed(levels) && Addresses(levels, b) && b.level + k < |levels|
    ensures Addresses(levels, AncestorAt(b, k))
  {
    if k > 0 {
      AncestorInTree(levels, b, k - 1);
      var l := b.level + k;
      assert levels[l - 1].rows == 2 * levels[l].rows;
      assert levels[l - 1].cols == 2 * levels[l].cols;
    }
  }

  /** The blocks below a block of the tree are in the tree. */
  lemma {:induction false} DescendantInTree(levels: seq<Level>, b: BlockId, x: BlockId)
    requires WellFormed(levels) && Addresses(levels, b) && Below(x, b)
    ensures Addresses(levels, x)
  {
    var k := b.level - x.level;
    HalveBelowLevel(levels, x, k, k);
    assert Halve(x.row, 0) == x.row && Halve(x.col, 0) == x.col;
  }

  lemma {:induction false} HalveBelowLevel(levels: seq<Level>, x: BlockId, k: nat, j: nat)
    requires WellFormed(levels) && x.level + k < |levels| && j <= k
    requires Halve(x.row, k) < levels[x.level + k].rows
    requires Halve(x.col, k) < levels[x.level + k].cols
    ensures Halve(x.row, k - j) < levels[x.level + k - j].rows
    ensures Halve(x.col, k - j) < levels[x.level + k - j].cols
  {
    if j > 0 {
      HalveBelowLevel(levels, x, k, j - 1);
      var l := x.level + k - j + 1;
      assert levels[l - 1].rows == 2 * levels[l].rows;
      assert levels[l - 1].cols == 2 * levels[l].cols;
    }
  }

  /** The list as written and the corrected one hold the same blocks. */
  lemma NeededListsAgree(picked: seq<(nat, nat)>, top: nat)
    ensures forall x :: x in BlocksNeeded(picked, top) <==> x in BlocksNeededAsWritten(picked, top)
  {
    BlocksNeededFacts(picked, top);
    BlocksNeededAsWrittenFacts(picked, top);
  }

  /** Every block needed for terrain blocks inside the grid is in a tree
      that fits the grid. */
  lemma {:induction false} NeededInTree(levels: seq<Level>, numBlocks: (nat, nat), picked: seq<(nat, nat)>)
    requires Fits(levels, numBlocks)
    requires forall p :: p in picked ==> p.0 < numBlocks.0 && p.1 < numBlocks.1
    ensures forall x :: x in BlocksNeededAsWritten(picked, Top(levels)) ==> Addresses(levels, x)
  {
    BlocksNeededAsWrittenFacts(picked, Top(levels));
    forall x | x in BlocksNeededAsWritten(picked, Top(levels)) ensures Addresses(levels, x) {
      var p :| p in picked && Covers(x, p);
      assert Addresses(levels, Leaf(p));
      AncestorInTree(levels, Leaf(p), x.level);
    }
  }

  // ---------------------------------------------------------------------
  // Queueing mesh tasks (update_meshes, queue_mesh_task)
  // ---------------------------------------------------------------------

  /** A queued mesh build: the block of a layer to mesh. The cells it
      reads and the stride it samples them at follow from the block. */
  datatype MeshTask = MeshTask(layer: Layer, block: BlockId) {
    /** The cells the mesh task reads: `block_range` of its block. */
    function Range(): Range2 {
      BlockRange(BlockSize, block)
    }

    /** The sampling stride `block_quality` gives its block. */
    function Stride(): nat {
      Spacing(block)
    }
  }

  /** The mesh task `update_meshes` queues for block `b` of `layer`: it reads
      `block_range(b)` at stride `1 << b.level`. */
  function TaskFor(layer: Layer, b: BlockId): (t: MeshTask)
    ensures t.layer == layer && t.block == b
    ensures t.Range() == BlockRange(BlockSize, b) && t.Stride() == Spacing(b)
  {
    MeshTask(layer, b)
  }

  /** The queue of mesh tasks still running. */
  class MeshTaskQueue {
    var tasks: seq<MeshTask>

    /** `MeshTaskQueue::default()`. */
    constructor ()
      ensures tasks == []
    {
      tasks := [];
    }
  }

  /** The mesh tasks queued for one layer: one per needed block that is not
      padding, in order. (Every needed block is in the tree, by
      `NeededInTree`.) */
  function LayerTasks(layer: Layer, levels: seq<Level>, needed: seq<BlockId>): seq<MeshTask>
    requires WellFormed(levels)
  {
    if needed == [] then []
    else
      var n := |needed| - 1;
      var b := needed[n];
      LayerTasks(layer, levels, needed[..n]) + (if Addresses(levels, b) && ValidIn(levels, b) then [TaskFor(layer, b)] else [])
  }

  /** The mesh tasks queued for every layer, in the order of `layers`. */
  function FrameTasks(layers: seq<Layer>, forest: map<Layer, seq<Level>>, numBlocks: (nat, nat), picked: seq<(nat, nat)>): seq<MeshTask>
    requires forall l :: l in layers ==> l in forest && Fits(forest[l], numBlocks)
    requires forall p :: p in picked ==> p.0 < numBlocks.0 && p.1 < numBlocks.1
  {
    if layers == [] then []
    else
      var n := |layers| - 1;
      var levels := forest[layers[n]];
      assert layers[n] in layers && Fits(levels, numBlocks) && WellFormed(levels);
      FrameTasks(layers[..n], forest, numBlocks, picked) + LayerTasks(layers[n], levels, BlocksNeededAsWritten(picked, Top(levels)))
  }

  /** A layer's tasks are those for its needed blocks that are not padding. */
  lemma {:induction false} LayerTasksExact(layer: Layer, levels: seq<Level>, needed: seq<BlockId>, t: MeshTask)
    requires WellFormed(levels)
    ensures t in LayerTasks(layer, levels, needed) <==>
      t.layer == layer && t.block in needed && Addresses(levels, t.block) && ValidIn(levels, t.block)
  {
    if needed != [] {
      var n := |needed| - 1;
      LayerTasksExact(layer, levels, needed[..n], t);
      assert needed == needed[..n] + [needed[n]];
    }
  }

  /** A frame queues, for each layer, a task for each needed block of that
      layer's tree that is in the tree and not padding, and no other: no
      task is ever queued for an Invalid block. */
  lemma {:induction false} FrameTasksExact(layers: seq<Layer>, forest: map<Layer, seq<Level>>, numBlocks: (nat, nat),
                                           picked: seq<(nat, nat)>, t: MeshTask)
    requires forall l :: l in layers ==> l in forest && Fits(forest[l], numBlocks)
    requires forall p :: p in picked ==> p.0 < numBlocks.0 && p.1 < numBlocks.1
    ensures t in FrameTasks(layers, forest, numBlocks, picked) <==>
      && t.layer in layers
      && t.block in BlocksNeededAsWritten(picked, Top(forest[t.layer]))
      && Addresses(forest[t.layer], t.block)
      && ValidIn(forest[t.layer], t.block)
  {
    if layers != [] {
      var n := |layers| - 1;
      LayersSnoc(layers, t.layer);
      FrameTasksExact(layers[..n], forest, numBlocks, picked, t);
      FrameTasksLast(layers, forest, numBlocks, picked, t);
    }
  }

  lemma LayersSnoc(layers: seq<Layer>, l: Layer)
    requires layers != []
    ensures forall k :: k in layers[..|layers| - 1] ==> k in layers
    ensures l in layers <==> l in layers[..|layers| - 1] || l == layers[|layers| - 1]
  {
    assert layers == layers[..|layers| - 1] + [layers[|layers| - 1]];
  }

  /** A task is queued over `layers` exactly when it is queued over all but
      the last layer or it is one of the last layer's tasks. */
  lemma FrameTasksLast(layers: seq<Layer>, forest: map<Layer, seq<Level>>, numBlocks: (nat, nat),
                       picked: seq<(nat, nat)>, t: MeshTask)
    requires forall l :: l in layers ==> l in forest && Fits(forest[l], numBlocks)
    requires forall p :: p in picked ==> p.0 < numBlocks.0 && p.1 < numBlocks.1
    requires layers != []
    ensures var n := |layers| - 1;
      var levels := forest[layers[n]];
      t in FrameTasks(layers, forest, numBlocks, picked) <==>
      || t in FrameTasks(layers[..n], forest, numBlocks, picked)
      || (&& t.layer == layers[n] && t.block in BlocksNeededAsWritten(picked, Top(levels))
          && Addresses(levels, t.block) && ValidIn(levels, t.block))
  {
    var n := |layers| - 1;
    assert layers[n] in layers;
    var levels := forest[layers[n]];
    LayerTasksExact(layers[n], levels, BlocksNeededAsWritten(picked, Top(levels)), t);
  }

  /** A layer queues the mesh task of block `x` as many times as `x` occurs in
      the needed list, and never when `x` is padding. */
  lemma {:induction false} LayerTasksCount(layer: Layer, levels: seq<Level>, needed: seq<BlockId>, x: BlockId)
    requires WellFormed(levels)
    ensures multiset(LayerTasks(layer, levels, needed))[TaskFor(layer, x)] ==
      if Addresses(levels, x) && ValidIn(levels, x) then multiset(needed)[x] else 0
  {
    if needed != [] {
      var n := |needed| - 1;
      LayerTasksCount(layer, levels, needed[..n], x);
      LayerTasksCountStep(layer, levels, needed, x);
      CountStep(needed, x);
    }
  }

  lemma LayerTasksCountStep(layer: Layer, levels: seq<Level>, needed: seq<BlockId>, x: BlockId)
    requires WellFormed(levels) && needed != []
    ensures var n := |needed| - 1;
      multiset(LayerTasks(layer, levels, needed))[TaskFor(layer, x)]
      == multiset(LayerTasks(layer, levels, needed[..n]))[TaskFor(layer, x)]
         + if x == needed[n] && Addresses(levels, x) && ValidIn(levels, x) then 1 else 0
  {
    var n := |needed| - 1;
    var y := needed[n];
    var last := if Addresses(levels, y) && ValidIn(levels, y) then [TaskFor(layer, y)] else [];
    assert LayerTasks(layer, levels, needed) == LayerTasks(layer, levels, needed[..n]) + last;
  }

  lemma CountStep(s: seq<BlockId>, x: BlockId)
    requires s != []
    ensures multiset(s)[x] == multiset(s[..|s| - 1])[x] + if x == s[|s| - 1] then 1 else 0
  {
    assert s == s[..|s| - 1] + [s[|s| - 1]];
  }

  /** Over layers that are each listed once (the keys of the layer map), a
      frame queues the mesh task of block `x` of layer `l` as many times as `x`
      occurs in the list `update_meshes` builds for that layer. */
  lemma {:induction false} FrameTasksCount(layers: seq<Layer>, forest: map<Layer, seq<Level>>, numBlocks: (nat, nat),
                                           picked: seq<(nat, nat)>, l: Layer, x: BlockId)
    requires forall l :: l in layers ==> l in forest && Fits(forest[l], numBlocks)
    requires forall p :: p in picked ==> p.0 < numBlocks.0 && p.1 < numBlocks.1
    requires forall i, j :: 0 <= i < j < |layers| ==> layers[i] != layers[j]
    ensures multiset(FrameTasks(layers, forest, numBlocks, picked))[TaskFor(l, x)] ==
      if l in layers && Addresses(forest[l], x) && ValidIn(forest[l], x)
      then multiset(BlocksNeededAsWritten(picked, Top(forest[l])))[x] else 0
  {
    if layers != [] {
      var n := |layers| - 1;
      var levels := forest[layers[n]];
      var needed := BlocksNeededAsWritten(picked, Top(levels));
      LayersSnoc(layers, l);
      assert layers[n] in layers;
      FrameTasksCount(layers[..n], forest, numBlocks, picked, l, x);
      assert FrameTasks(layers, forest, numBlocks, picked)
        == FrameTasks(layers[..n], forest, numBlocks, picked) + LayerTasks(layers[n], levels, needed);
      if l == layers[n] {
        LayerTasksCount(layers[n], levels, needed, x);
        assert l !in layers[..n];
      } else {
        LayerTasksExact(layers[n], levels, needed, TaskFor(l, x));
      }
    }
  }

  /** On the terrain of `RepeatsScenario`, with blocks (0, 0), (0, 2),
      (1, 0) picked, the frame queues the mesh of block (0, 0) of level 1
      twice. */
  lemma FrameQueuesRepeatTwice()
    ensures var levels := InitialLevels(2, 3, MaxMeshTreeLevel);
      && Fits(levels, (2, 3))
      && multiset(FrameTasks([Elevation], map[Elevation := levels], (2, 3), [(0, 0), (0, 2), (1, 0)]))[TaskFor(Elevation, BlockId(0, 0, 1))] == 2
  {
    var levels := InitialLevels(2, 3, MaxMeshTreeLevel);
    NewTreeFits((2, 3), MaxMeshTreeLevel);
    RepeatsScenario();
    RepeatQueuedTwice(levels, [(0, 0), (0, 2), (1, 0)], BlockId(0, 0, 1));
  }

  lemma RepeatQueuedTwice(levels: seq<Level>, picked: seq<(nat, nat)>, x: BlockId)
    requires Fits(levels, (2, 3)) && |levels| == 2 && levels[1].entries[0][0] == Pending
    requires picked == [(0, 0), (0, 2), (1, 0)] && x == BlockId(0, 0, 1)
    ensures multiset(FrameTasks([Elevation], map[Elevation := levels], (2, 3), picked))[TaskFor(Elevation, x)] == 2
  {
    var forest := map[Elevation := levels];
    assert forest[Elevation] == levels && Top(levels) == 1;
    RepeatCount();
    assert Addresses(levels, x) && ValidIn(levels, x);
    FrameTasksCount([Elevation], forest, (2, 3), picked, Elevation, x);
  }

  lemma RepeatCount()
    ensures multiset(BlocksNeededAsWritten([(0, 0), (0, 2), (1, 0)], 1))[BlockId(0, 0, 1)] == 2
  {
    BlocksNeededAsWrittenRepeats();
    var s := [BlockId(0, 0, 1), BlockId(0, 1, 1), BlockId(0, 0, 1), BlockId(0, 0, 0), BlockId(0, 2, 0), BlockId(1, 0, 0)];
    assert s == [s[0], s[1], s[2]] + [s[3], s[4], s[5]];
    assert multiset(s) == multiset([s[0], s[1], s[2]]) + multiset([s[3], s[4], s[5]]);
  }

  /** One more layer adds that layer's tasks. */
  lemma {:induction false} FrameTasksStep(layers: seq<Layer>, forest: map<Layer, seq<Level>>, numBlocks: (nat, nat),
                                          picked: seq<(nat, nat)>, i: nat)
    requires forall l :: l in layers ==> l in forest && Fits(forest[l], numBlocks)
    requires forall p :: p in picked ==> p.0 < numBlocks.0 && p.1 < numBlocks.1
    requires i < |layers| && layers[i] in forest && Fits(forest[layers[i]], numBlocks)
    ensures forall x :: x in BlocksNeededAsWritten(picked, Top(forest[layers[i]])) ==> Addresses(forest[layers[i]], x)
    ensures FrameTasks(layers[..i + 1], forest, numBlocks, picked)
      == FrameTasks(layers[..i], forest, numBlocks, picked) + LayerTasks(layers[i], forest[layers[i]], BlocksNeededAsWritten(picked, Top(forest[layers[i]])))
  {
    NeededInTree(forest[layers[i]], numBlocks, picked);
    assert layers[..i + 1][..i] == layers[..i];
  }

  /** With nothing picked, no task is queued. */
  lemma {:induction false} FrameTasksOfNothing(layers: seq<Layer>, forest: map<Layer, seq<Level>>, numBlocks: (nat, nat))
    requires forall l :: l in layers ==> l in forest && Fits(forest[l], numBlocks)
    ensures FrameTasks(layers, forest, numBlocks, []) == []
  {
    if layers != [] {
      var n := |layers| - 1;
      FrameTasksOfNothing(layers[..n], forest, numBlocks);
      SortByLevelOfNothing(Top(forest[layers[n]]));
    }
  }

  lemma {:induction false} SortByLevelOfNothing(level: nat)
    ensures SortByLevel([], level) == []
  {
    if level > 0 {
      SortByLevelOfNothing(level - 1);
    }
  }

  /** The picked blocks, each followed by its ancestors as `ancestors`
      returns them. */
  method GatherNeeded(tree: MeshTree, picked: seq<(nat, nat)>) returns (gathered: seq<BlockId>)
    requires tree.Valid()
    ensures gathered == Gathered(picked, Top(tree.levels))
  {
    var top := Top(tree.levels);
    gathered := [];
    for k := 0 to |picked|
      invariant gathered == Gathered(picked[..k], top)
    {
      var leaf := BlockId(picked[k].0, picked[k].1, 0);
      var ancestors := tree.Ancestors(leaf);
      assert ancestors == seq(top, i requires 0 <= i < top => AncestorAt(Leaf(picked[k]), i + 1));
      var lineage := [leaf] + ancestors;
      gathered := gathered + lineage;
      assert picked[..k + 1][..k] == picked[..k];
    }
    assert picked[..|picked|] == picked;
  }

  /** `update_meshes`: pick the first `RendersPerFrame` dirty blocks; if
      there are none, change nothing. Otherwise, for each layer in turn,
      queue a task for every block of the `dedup`ed list of blocks needed
      for the picked blocks that is not padding in that layer's tree,
      highest level first (a block that recurs in the list, not next to
      itself, is queued again); then clear the picked blocks' dirty flags,
      and only theirs. */
  method UpdateMeshes(terrain: Terrain, layers: seq<Layer>, trees: map<Layer, MeshTree>, queue: MeshTaskQueue)
    returns (picked: seq<(nat, nat)>)
    requires terrain.Valid()
    requires forall l :: l in layers ==> l in trees && Fits(trees[l].levels, terrain.numBlocks)
    modifies terrain.blockInfo, queue
    ensures terrain.Valid()
    ensures picked == old(Picked(terrain.blockInfo))
    ensures forall p :: p in picked ==> p.0 < terrain.numBlocks.0 && p.1 < terrain.numBlocks.1
    ensures queue.tasks == old(queue.tasks) + FrameTasks(layers, old(Forest(trees)), terrain.numBlocks, picked)
    ensures forall r, c :: 0 <= r < terrain.numBlocks.0 && 0 <= c < terrain.numBlocks.1 ==>
      terrain.blockInfo[r, c] == old(terrain.blockInfo[r, c]).(dirty := old(terrain.blockInfo[r, c].dirty) && (r, c) !in picked)
  {
    ghost var forest := Forest(trees);
    var info := terrain.blockInfo;
    picked := PickDirty(info);
    PickedAreFirstDirty(info);
    if picked == [] {
      FrameTasksOfNothing(layers, forest, terrain.numBlocks);
      return;
    }
    QueueLayers(layers, trees, terrain.numBlocks, picked, queue);
    ClearDirty(terrain, picked);
  }

  /** `update_meshes`' loop over the layers. */
  method QueueLayers(layers: seq<Layer>, trees: map<Layer, MeshTree>, numBlocks: (nat, nat), picked: seq<(nat, nat)>,
                     queue: MeshTaskQueue)
    requires forall l :: l in layers ==> l in trees && Fits(trees[l].levels, numBlocks)
    requires forall p :: p in picked ==> p.0 < numBlocks.0 && p.1 < numBlocks.1
    modifies queue
    ensures queue.tasks == old(queue.tasks) + FrameTasks(layers, old(Forest(trees)), numBlocks, picked)
  {
    ghost var forest := Forest(trees);
    var queued: seq<MeshTask> := [];
    for i := 0 to |layers|
      modifies {}
      invariant queued == FrameTasks(layers[..i], forest, numBlocks, picked)
    {
      var tasks := LayerNeeds(layers[i], trees[layers[i]], numBlocks, picked);
      queued := queued + tasks;
      FrameTasksStep(layers, forest, numBlocks, picked, i);
    }
    assert layers[..|layers|] == layers;
    queue.tasks := queue.tasks + queued;
  }

  /** The body of `update_meshes`' layer loop: gather the needed blocks,
      sort and deduplicate them, and queue a task for each that is not
      padding. */
  method LayerNeeds(layer: Layer, tree: MeshTree, numBlocks: (nat, nat), picked: seq<(nat, nat)>) returns (tasks: seq<MeshTask>)
    requires Fits(tree.levels, numBlocks)
    requires forall p :: p in picked ==> p.0 < numBlocks.0 && p.1 < numBlocks.1
    ensures forall x :: x in BlocksNeededAsWritten(picked, Top(tree.levels)) ==> Addresses(tree.levels, x)
    ensures tasks == LayerTasks(layer, tree.levels, BlocksNeededAsWritten(picked, Top(tree.levels)))
  {
    var gathered := GatherNeeded(tree, picked);
    var needed := DedupAdjacent(SortByLevel(gathered, Top(tree.levels)));
    assert needed == BlocksNeededAsWritten(picked, Top(tree.levels));
    NeededInTree(tree.levels, numBlocks, picked);
    tasks := QueueNeeded(layer, tree, needed);
  }

  /** The inner loop of `update_meshes`: a task for each needed block that
      is not padding, in order. */
  method QueueNeeded(layer: Layer, tree: MeshTree, needed: seq<BlockId>) returns (tasks: seq<MeshTask>)
    requires tree.Valid() && forall b :: b in needed ==> Addresses(tree.levels, b)
    ensures tasks == LayerTasks(layer, tree.levels, needed)
  {
    tasks := [];
    for j := 0 to |needed|
      invariant tasks == LayerTasks(layer, tree.levels, needed[..j])
    {
      if tree.ValidBlock(needed[j]) {
        tasks := tasks + [TaskFor(layer, needed[j])];
      }
      assert needed[..j + 1][..j] == needed[..j];
    }
    assert needed[..|needed|] == needed;
  }

  /** The dirty-flag reset at the end of `update_meshes`: clear the flag of
      each picked block. */
  method ClearDirty(terrain: Terrain, picked: seq<(nat, nat)>)
    requires terrain.Valid()
    requires forall p :: p in picked ==> p.0 < terrain.numBlocks.0 && p.1 < terrain.numBlocks.1
    modifies terrain.blockInfo
    ensures terrain.Valid()
    ensures forall r, c :: 0 <= r < terrain.numBlocks.0 && 0 <= c < terrain.numBlocks.1 ==>
      terrain.blockInfo[r, c] == old(terrain.blockInfo[r, c]).(dirty := old(terrain.blockInfo[r, c].dirty) && (r, c) !in picked)
  {
    var info := terrain.blockInfo;
    for k := 0 to |picked|
      invariant terrain.Valid()
      invariant forall r, c :: 0 <= r < info.Length0 && 0 <= c < info.Length1 ==>
        info[r, c] == old(info[r, c]).(dirty := old(info[r, c].dirty) && (r, c) !in picked[..k])
    {
      var (r, c) := picked[k];
      info[r, c] := info[r, c].(dirty := false);
      assert picked[..k + 1] == picked[..k] + [(r, c)];
    }
    assert picked[..|picked|] == picked;
  }

  // ---------------------------------------------------------------------
  // Harvesting finished tasks (handle_mesh_tasks)
  // ---------------------------------------------------------------------

  /** What one poll of a queued task yields: still running; finished, but
      the mesh has no bounding box; or finished, its mesh spawned as
      `entity`. */
  datatype Outcome = NotReady | NoBounds | Ready(entity: Entity)

  /** The mesh tasks still running, in their queued order. */
  function StillRunning(tasks: seq<MeshTask>, outcomes: seq<Outcome>): (running: seq<MeshTask>)
    requires |outcomes| == |tasks|
    ensures |running| <= |tasks|
    ensures forall t :: t in running ==> t in tasks
  {
    if tasks == [] then []
    else
      var n := |tasks| - 1;
      StillRunning(tasks[..n], outcomes[..n]) + (if outcomes[n].NotReady? then [tasks[n]] else [])
  }

  /** Task `i` finished and lands on block `x` of `layer`. */
  predicate Lands(tasks: seq<MeshTask>, outcomes: seq<Outcome>, i: nat, layer: Layer, x: BlockId)
    requires i < |tasks| == |outcomes|
  {
    outcomes[i].Ready? && tasks[i].layer == layer && tasks[i].block == x
  }

  /** The levels of `layer`'s tree once the finished tasks for that layer
      have set their blocks, in queue order. */
  function Landed(tasks: seq<MeshTask>, outcomes: seq<Outcome>, layer: Layer, levels: seq<Level>): (r: seq<Level>)
    requires |outcomes| == |tasks| && WellFormed(levels)
    requires forall t :: t in tasks && t.layer == layer ==> Addresses(levels, t.block)
    ensures WellFormed(r) && SameShape(r, levels)
  {
    if tasks == [] then levels
    else
      var n := |tasks| - 1;
      var prev := Landed(tasks[..n], outcomes[..n], layer, levels);
      if outcomes[n].Ready? && tasks[n].layer == layer then
        SameShapeAddresses(prev, levels, tasks[n].block);
        SetEntry(prev, tasks[n].block, Populated(outcomes[n].entity))
      else prev
  }

  /** Every tree is well-formed, and every task's block lies in its
      layer's tree. */
  ghost predicate Placed(tasks: seq<MeshTask>, forest: map<Layer, seq<Level>>) {
    && (forall l :: l in forest ==> WellFormed(forest[l]))
    && (forall t :: t in tasks ==> t.layer in forest && Addresses(forest[t.layer], t.block))
  }

  /** The meshes despawned, in order: the mesh each finished task's block
      held just before that mesh task landed, if any. */
  function Released(tasks: seq<MeshTask>, outcomes: seq<Outcome>, forest: map<Layer, seq<Level>>): seq<Entity>
    requires |outcomes| == |tasks| && Placed(tasks, forest)
  {
    if tasks == [] then []
    else
      var n := |tasks| - 1;
      var prev := Released(tasks[..n], outcomes[..n], forest);
      var t := tasks[n];
      if outcomes[n].Ready? then
        var before := Landed(tasks[..n], outcomes[..n], t.layer, forest[t.layer]);
        prev + (if PopulatedIn(before, t.block) then [EntryOf(before, t.block).entity] else [])
      else prev
  }

  /** A task stays queued exactly when it has not finished. */
  lemma {:induction false} StillRunningExact(tasks: seq<MeshTask>, outcomes: seq<Outcome>, t: MeshTask)
    requires |outcomes| == |tasks|
    ensures t in StillRunning(tasks, outcomes) <==> exists i :: 0 <= i < |tasks| && tasks[i] == t && outcomes[i].NotReady?
  {
    if tasks != [] {
      var n := |tasks| - 1;
      StillRunningExact(tasks[..n], outcomes[..n], t);
      var prev := StillRunning(tasks[..n], outcomes[..n]);
      assert StillRunning(tasks, outcomes) == prev + (if outcomes[n].NotReady? then [tasks[n]] else []);
      if exists i :: 0 <= i < |tasks| && tasks[i] == t && outcomes[i].NotReady? {
        var i :| 0 <= i < |tasks| && tasks[i] == t && outcomes[i].NotReady?;
        if i < n {
          assert tasks[..n][i] == t && outcomes[..n][i].NotReady?;
        }
      }
      if t in prev {
        var i :| 0 <= i < n && tasks[..n][i] == t && outcomes[..n][i].NotReady?;
        assert tasks[i] == t && outcomes[i].NotReady?;
      }
    }
  }

  /** A queue whose tasks are all still running is kept as it is. */
  lemma {:induction false} StillRunningAllRunning(tasks: seq<MeshTask>, outcomes: seq<Outcome>)
    requires |outcomes| == |tasks|
    requires forall i :: 0 <= i < |tasks| ==> outcomes[i].NotReady?
    ensures StillRunning(tasks, outcomes) == tasks
  {
    if tasks != [] {
      var n := |tasks| - 1;
      StillRunningAllRunning(tasks[..n], outcomes[..n]);
      assert tasks == tasks[..n] + [tasks[n]];
    }
  }

  /** Each task either stays queued or finishes, and each finished task
      releases at most one mesh. */
  lemma {:induction false} ReleasedCount(tasks: seq<MeshTask>, outcomes: seq<Outcome>, forest: map<Layer, seq<Level>>)
    requires |outcomes| == |tasks| && Placed(tasks, forest)
    ensures |Released(tasks, outcomes, forest)| + |StillRunning(tasks, outcomes)| <= |tasks|
  {
    if tasks != [] {
      var n := |tasks| - 1;
      ReleasedCount(tasks[..n], outcomes[..n], forest);
    }
  }

  /** One more task changes block `x` only if it lands on it. */
  lemma {:induction false} LandedEntryStep(tasks: seq<MeshTask>, outcomes: seq<Outcome>, layer: Layer, levels: seq<Level>, x: BlockId)
    requires |outcomes| == |tasks| > 0 && WellFormed(levels)
    requires forall t :: t in tasks && t.layer == layer ==> Addresses(levels, t.block)
    requires Addresses(levels, x)
    ensures var n := |tasks| - 1;
      SameShape(Landed(tasks[..n], outcomes[..n], layer, levels), levels)
      && Addresses(Landed(tasks[..n], outcomes[..n], layer, levels), x)
      && EntryOf(Landed(tasks, outcomes, layer, levels), x)
        == if Lands(tasks, outcomes, n, layer, x) then Populated(outcomes[n].entity)
           else EntryOf(Landed(tasks[..n], outcomes[..n], layer, levels), x)
  {
    var n := |tasks| - 1;
    var prev := Landed(tasks[..n], outcomes[..n], layer, levels);
    SameShapeAddresses(prev, levels, x);
    SameShapeAddresses(prev, levels, tasks[n].block);
  }

  /** A block no finished task lands on keeps its entry. */
  lemma {:induction false} LandedUntouched(tasks: seq<MeshTask>, outcomes: seq<Outcome>, layer: Layer, levels: seq<Level>, x: BlockId)
    requires |outcomes| == |tasks| && WellFormed(levels)
    requires forall t :: t in tasks && t.layer == layer ==> Addresses(levels, t.block)
    requires Addresses(levels, x)
    requires forall i :: 0 <= i < |tasks| ==> !Lands(tasks, outcomes, i, layer, x)
    ensures Addresses(Landed(tasks, outcomes, layer, levels), x)
    ensures EntryOf(Landed(tasks, outcomes, layer, levels), x) == EntryOf(levels, x)
  {
    if tasks != [] {
      var n := |tasks| - 1;
      NoLandingBefore(tasks, outcomes, layer, x, n);
      LandedUntouched(tasks[..n], outcomes[..n], layer, levels, x);
      LandedEntryStep(tasks, outcomes, layer, levels, x);
    }
  }

  /** Landings in a prefix are landings in the whole. */
  lemma NoLandingBefore(tasks: seq<MeshTask>, outcomes: seq<Outcome>, layer: Layer, x: BlockId, n: nat)
    requires n <= |tasks| == |outcomes|
    ensures forall i :: 0 <= i < n ==> Lands(tasks[..n], outcomes[..n], i, layer, x) == Lands(tasks, outcomes, i, layer, x)
  {
  }

  /** A block's entry is the mesh of the last finished task that lands on
      it. */
  lemma {:induction false} LandedLast(tasks: seq<MeshTask>, outcomes: seq<Outcome>, layer: Layer, levels: seq<Level>, x: BlockId, i: nat)
    requires |outcomes| == |tasks| && WellFormed(levels)
    requires forall t :: t in tasks && t.layer == layer ==> Addresses(levels, t.block)
    requires Addresses(levels, x)
    requires i < |tasks| && Lands(tasks, outcomes, i, layer, x)
    requires forall j :: i < j < |tasks| ==> !Lands(tasks, outcomes, j, layer, x)
    ensures Addresses(Landed(tasks, outcomes, layer, levels), x)
    ensures EntryOf(Landed(tasks, outcomes, layer, levels), x) == Populated(outcomes[i].entity)
  {
    var n := |tasks| - 1;
    LandedEntryStep(tasks, outcomes, layer, levels, x);
    SameShapeAddresses(Landed(tasks, outcomes, layer, levels), levels, x);
    if i < n {
      assert Lands(tasks[..n], outcomes[..n], i, layer, x);
      NoLandingBefore(tasks, outcomes, layer, x, n);
      LandedLast(tasks[..n], outcomes[..n], layer, levels, x, i);
    }
  }

  /** Whether some task landed, checked from the last outcome back. */
  predicate AnyLanded(outcomes: seq<Outcome>) {
    outcomes != [] && (outcomes[|outcomes| - 1].Ready? || AnyLanded(outcomes[..|outcomes| - 1]))
  }

  /** Some task landed exactly when some outcome is a spawned mesh. */
  lemma {:induction false} AnyLandedExact(outcomes: seq<Outcome>)
    ensures AnyLanded(outcomes) <==> exists i :: 0 <= i < |outcomes| && outcomes[i].Ready?
  {
    if outcomes != [] {
      var n := |outcomes| - 1;
      AnyLandedExact(outcomes[..n]);
      if AnyLanded(outcomes[..n]) {
        var i :| 0 <= i < n && outcomes[..n][i].Ready?;
        assert outcomes[i].Ready?;
      }
    }
  }

  /** One more task, as the loop of `handle_mesh_tasks` takes it. */
  lemma {:induction false} HarvestStep(tasks: seq<MeshTask>, outcomes: seq<Outcome>, forest: map<Layer, seq<Level>>, i: nat)
    requires |outcomes| == |tasks| && Placed(tasks, forest) && i < |tasks|
    ensures Placed(tasks[..i + 1], forest) && Placed(tasks[..i], forest)
    ensures StillRunning(tasks[..i + 1], outcomes[..i + 1])
      == StillRunning(tasks[..i], outcomes[..i]) + (if outcomes[i].NotReady? then [tasks[i]] else [])
    ensures AnyLanded(outcomes[..i + 1]) <==> AnyLanded(outcomes[..i]) || outcomes[i].Ready?
    ensures outcomes[i].Ready? ==> Addresses(Landed(tasks[..i], outcomes[..i], tasks[i].layer, forest[tasks[i].layer]), tasks[i].block)
    ensures forall l :: l in forest ==>
      Landed(tasks[..i + 1], outcomes[..i + 1], l, forest[l])
        == var prev := Landed(tasks[..i], outcomes[..i], l, forest[l]);
           if outcomes[i].Ready? && tasks[i].layer == l then SetEntry(prev, tasks[i].block, Populated(outcomes[i].entity)) else prev
    ensures var t, before := tasks[i], Landed(tasks[..i], outcomes[..i], tasks[i].layer, forest[tasks[i].layer]);
      Released(tasks[..i + 1], outcomes[..i + 1], forest)
        == Released(tasks[..i], outcomes[..i], forest)
           + (if outcomes[i].Ready? && PopulatedIn(before, t.block) then [EntryOf(before, t.block).entity] else [])
  {
    assert tasks[..i + 1][..i] == tasks[..i];
    assert outcomes[..i + 1][..i] == outcomes[..i];
    if outcomes[i].Ready? {
      var l := tasks[i].layer;
      SameShapeAddresses(Landed(tasks[..i], outcomes[..i], l, forest[l]), forest[l], tasks[i].block);
    }
  }

  /** The trees of `trees` are distinct and hold the levels of `forest`
      after the first `i` tasks. */
  ghost predicate Harvested(trees: map<Layer, MeshTree>, tasks: seq<MeshTask>, outcomes: seq<Outcome>,
                            forest: map<Layer, seq<Level>>, i: nat)
    requires |outcomes| == |tasks| && Placed(tasks, forest) && i <= |tasks|
    reads trees.Values
  {
    && (forall l :: l in trees <==> l in forest)
    && (forall l, m :: l in trees && m in trees && l != m ==> trees[l] != trees[m])
    && (forall l :: l in trees ==> trees[l].Valid() && trees[l].levels == Landed(tasks[..i], outcomes[..i], l, forest[l]))
  }

  /** Before the first poll, every tree holds the levels it started with. */
  lemma HarvestStart(trees: map<Layer, MeshTree>, tasks: seq<MeshTask>, outcomes: seq<Outcome>)
    requires |outcomes| == |tasks|
    requires forall l, m :: l in trees && m in trees && l != m ==> trees[l] != trees[m]
    requires Placed(tasks, Forest(trees))
    ensures Harvested(trees, tasks, outcomes, Forest(trees), 0)
  {
    assert tasks[..0] == [] && outcomes[..0] == [];
  }

  /** A finished task with a bounding box lands: its block of its layer's
      tree takes the spawned mesh; `replaced` is the mesh that block held. */
  method Land(trees: map<Layer, MeshTree>, tasks: seq<MeshTask>, outcomes: seq<Outcome>,
              ghost forest: map<Layer, seq<Level>>, i: nat)
    returns (replaced: Option<Entity>)
    requires |outcomes| == |tasks| && Placed(tasks, forest) && i < |tasks| && outcomes[i].Ready?
    requires Harvested(trees, tasks, outcomes, forest, i)
    requires Addresses(Landed(tasks[..i], outcomes[..i], tasks[i].layer, forest[tasks[i].layer]), tasks[i].block)
    requires forall l :: l in forest ==>
      Landed(tasks[..i + 1], outcomes[..i + 1], l, forest[l])
        == var prev := Landed(tasks[..i], outcomes[..i], l, forest[l]);
           if tasks[i].layer == l then SetEntry(prev, tasks[i].block, Populated(outcomes[i].entity)) else prev
    modifies trees.Values
    ensures Harvested(trees, tasks, outcomes, forest, i + 1)
    ensures var before := Landed(tasks[..i], outcomes[..i], tasks[i].layer, forest[tasks[i].layer]);
      replaced == if PopulatedIn(before, tasks[i].block) then Some(EntryOf(before, tasks[i].block).entity) else None
  {
    var t := tasks[i];
    var tree := trees[t.layer];
    replaced := tree.SetMesh(t.block, Populated(outcomes[i].entity));
  }

  /** `handle_mesh_tasks`' loop body: poll task `i` once. A task still
      running is queued again; a finished one with no bounding box is
      dropped; any other finished task lands: its block of its layer's
      tree takes the new mesh, and the mesh it held, if any, is despawned. */
  method PollTask(trees: map<Layer, MeshTree>, tasks: seq<MeshTask>, outcomes: seq<Outcome>,
                  ghost forest: map<Layer, seq<Level>>, i: nat,
                  running: seq<MeshTask>, anyChange: bool, despawned: seq<Entity>)
    returns (running': seq<MeshTask>, anyChange': bool, despawned': seq<Entity>)
    requires |outcomes| == |tasks| && Placed(tasks, forest) && i < |tasks|
    requires Harvested(trees, tasks, outcomes, forest, i)
    requires running == StillRunning(tasks[..i], outcomes[..i])
    requires anyChange == AnyLanded(outcomes[..i])
    requires despawned == Released(tasks[..i], outcomes[..i], forest)
    modifies trees.Values
    ensures Harvested(trees, tasks, outcomes, forest, i + 1)
    ensures running' == StillRunning(tasks[..i + 1], outcomes[..i + 1])
    ensures anyChange' == AnyLanded(outcomes[..i + 1])
    ensures despawned' == Released(tasks[..i + 1], outcomes[..i + 1], forest)
  {
    HarvestStep(tasks, outcomes, forest, i);
    running', anyChange', despawned' := running, anyChange, despawned;
    var t := tasks[i];
    match outcomes[i] {
      case NotReady =>
        running' := running + [t];
      case NoBounds =>
      case Ready(e) =>
        var replaced := Land(trees, tasks, outcomes, forest, i);
        if replaced.Some? {
          despawned' := despawned + [replaced.value];
        }
        anyChange' := true;
    }
  }

  /** `handle_mesh_tasks`: with an empty queue, do nothing. Otherwise take
      the whole queue and poll each task once, in order: a task still
      running goes back on the queue; a finished task whose mesh has no
      bounding box is dropped; any other finished task sets its block of
      its layer's tree to its spawned mesh, despawning the mesh it
      replaces. Report whether any task landed. */
  method HandleMeshTasks(queue: MeshTaskQueue, trees: map<Layer, MeshTree>, outcomes: seq<Outcome>)
    returns (anyChange: bool, despawned: seq<Entity>)
    requires |outcomes| == |queue.tasks|
    requires forall l, m :: l in trees && m in trees && l != m ==> trees[l] != trees[m]
    requires Placed(queue.tasks, Forest(trees))
    modifies queue, trees.Values
    ensures queue.tasks == StillRunning(old(queue.tasks), outcomes)
    ensures anyChange == AnyLanded(outcomes)
    ensures forall l :: l in trees ==>
      trees[l].Valid() && trees[l].levels == Landed(old(queue.tasks), outcomes, l, old(Forest(trees))[l])
    ensures despawned == Released(old(queue.tasks), outcomes, old(Forest(trees)))
  {
    ghost var forest := Forest(trees);
    var oldQueue := queue.tasks;
    if oldQueue == [] {
      return false, [];
    }
    HarvestStart(trees, oldQueue, outcomes);
    var running;
    running, anyChange, despawned := PollAll(trees, oldQueue, outcomes, forest);
    queue.tasks := running;
  }

  /** `handle_mesh_tasks`' loop: poll every task of the queue taken, in
      order. */
  method PollAll(trees: map<Layer, MeshTree>, tasks: seq<MeshTask>, outcomes: seq<Outcome>, ghost forest: map<Layer, seq<Level>>)
    returns (running: seq<MeshTask>, anyChange: bool, despawned: seq<Entity>)
    requires |outcomes| == |tasks| && Placed(tasks, forest)
    requires Harvested(trees, tasks, outcomes, forest, 0)
    modifies trees.Values
    ensures forall l :: l in trees ==> trees[l].Valid() && trees[l].levels == Landed(tasks, outcomes, l, forest[l])
    ensures running == StillRunning(tasks, outcomes)
    ensures anyChange == AnyLanded(outcomes)
    ensures despawned == Released(tasks, outcomes, forest)
  {
    running, anyChange, despawned := [], false, [];
    for i := 0 to |tasks|
      invariant Harvested(trees, tasks, outcomes, forest, i)
      invariant running == StillRunning(tasks[..i], outcomes[..i])
      invariant anyChange == AnyLanded(outcomes[..i])
      invariant despawned == Released(tasks[..i], outcomes[..i], forest)
    {
      running, anyChange, despawned := PollTask(trees, tasks, outcomes, forest, i, running, anyChange, despawned);
    }
    assert tasks[..|tasks|] == tasks;
    assert outcomes[..|outcomes|] == outcomes;
  }

  // ---------------------------------------------------------------------
  // Choosing the meshes to show (select_meshes)
  // ---------------------------------------------------------------------

  /** Bevy's visibility of an entity. */
  datatype Visibility = Inherited | Hidden | Visible

  /** The graphics events. */
  datatype GraphicsEvent = LoadedLevel | RenderTerrain | MoveCamera

  /** The visibility of each mesh entity that has a transform, a bounding
      box and a visibility: the entities `select_meshes` can look up. */
  class MeshVisibility {
    var vis: map<Entity, Visibility>

    constructor (initial: map<Entity, Visibility>)
      ensures vis == initial
    {
      vis := initial;
    }
  }

  /** `too_close` for block `b` holding mesh `e`: above level 0, the
      camera is nearer the mesh than the block's cutoff (`near`), and all
      four children hold meshes. */
  predicate TooClose(levels: seq<Level>, near: (BlockId, Entity) -> bool, b: BlockId, e: Entity)
    requires WellFormed(levels)
    ensures TooClose(levels, near, b, e) ==>
      && b.level > 0 && |Children(b)| == 4
      && forall c :: c in Children(b) ==> c.level == b.level - 1 && Addresses(levels, c) && EntryOf(levels, c).Populated?
  {
    b.level > 0 && near(b, e) && forall c :: c in Children(b) ==> Addresses(levels, c) && PopulatedIn(levels, c)
  }

  /** The visitor's answer for block `b`: a mesh that can be looked up is
      descended past only when too close; every other entry is descended
      into. */
  predicate Descend(levels: seq<Level>, keys: set<Entity>, near: (BlockId, Entity) -> bool, b: BlockId)
    requires WellFormed(levels) && Addresses(levels, b)
    ensures !Descend(levels, keys, near, b) ==> EntryOf(levels, b).Populated? && EntryOf(levels, b).entity in keys
    ensures b.level == 0 && EntryOf(levels, b).Populated? && EntryOf(levels, b).entity in keys ==> !Descend(levels, keys, near, b)
  {
    match EntryOf(levels, b)
    case Populated(e) => e !in keys || TooClose(levels, near, b, e)
    case _ => true
  }

  /** The visitor as the walk sees it. */
  ghost function Rule(levels: seq<Level>, keys: set<Entity>, near: (BlockId, Entity) -> bool): BlockId -> bool
    requires WellFormed(levels)
  {
    b => !Addresses(levels, b) || Descend(levels, keys, near, b)
  }

  /** Block `x` is a block other than `b` holding mesh `e`. */
  predicate HoldsBelow(levels: seq<Level>, b: BlockId, x: BlockId, e: Entity)
    requires WellFormed(levels) && Addresses(levels, x)
  {
    x != b && EntryOf(levels, x) == Populated(e)
  }

  /** Hide the mesh of every block of `xs` other than `b` that has one and
      can be looked up. */
  function HideAll(levels: seq<Level>, vis: map<Entity, Visibility>, b: BlockId, xs: seq<BlockId>): (r: map<Entity, Visibility>)
    requires WellFormed(levels) && forall x :: x in xs ==> Addresses(levels, x)
    ensures r.Keys == vis.Keys
  {
    if xs == [] then vis
    else
      var n := |xs| - 1;
      HideOne(levels, HideAll(levels, vis, b, xs[..n]), b, xs[n])
  }

  /** Hide the mesh of block `x`, unless `x` is `b`, it has none, or the
      mesh cannot be looked up. */
  function HideOne(levels: seq<Level>, vis: map<Entity, Visibility>, b: BlockId, x: BlockId): (r: map<Entity, Visibility>)
    requires WellFormed(levels) && Addresses(levels, x)
    ensures r.Keys == vis.Keys
    ensures forall e :: e in vis ==> r[e] == if HoldsBelow(levels, b, x, e) then Hidden else vis[e]
  {
    match EntryOf(levels, x)
    case Populated(e) => if x != b && e in vis then vis[e := Hidden] else vis
    case _ => vis
  }

  /** Hiding the first `k + 1` blocks of `xs` hides the first `k`, then
      block `k`. */
  lemma HideAllPrefix(levels: seq<Level>, vis: map<Entity, Visibility>, b: BlockId, xs: seq<BlockId>, k: nat)
    requires WellFormed(levels) && forall x :: x in xs ==> Addresses(levels, x)
    requires k < |xs|
    ensures HideAll(levels, vis, b, xs[..k + 1]) == HideOne(levels, HideAll(levels, vis, b, xs[..k]), b, xs[k])
  {
    assert xs[..k + 1][..k] == xs[..k];
  }

  /** The blocks `descendants` lists are in the tree and below `b`. */
  lemma DescendantsInTree(levels: seq<Level>, b: BlockId)
    requires WellFormed(levels) && Addresses(levels, b)
    ensures forall x :: x in DescendantsOf(b) ==> Below(x, b) && Addresses(levels, x)
  {
    forall x | x in DescendantsOf(b)
      ensures Below(x, b) && Addresses(levels, x)
    {
      DescendantsExact(b, x);
      DescendantInTree(levels, b, x);
    }
  }

  /** The children of a block of the tree are in the tree. */
  lemma ChildrenInTree(levels: seq<Level>, b: BlockId)
    requires WellFormed(levels) && Addresses(levels, b)
    ensures forall c :: c in Children(b) ==> Addresses(levels, c) && c.level < b.level
  {
    forall c | c in Children(b)
      ensures Addresses(levels, c) && c.level < b.level
    {
      ChildrenAreParentPreimage(b, c);
      assert Halve(c.row, 0) == c.row && Halve(c.col, 0) == c.col;
      assert AncestorAt(c, 1) == b;
      DescendantInTree(levels, b, c);
    }
  }

  /** The visibilities after visiting block `b`: its own mesh is hidden
      when descending and inherited otherwise; when not descending, the
      mesh of every block below it is hidden. */
  function AfterVisit(levels: seq<Level>, vis: map<Entity, Visibility>, near: (BlockId, Entity) -> bool, b: BlockId)
    : (r: map<Entity, Visibility>)
    requires WellFormed(levels) && Addresses(levels, b)
    ensures r.Keys == vis.Keys
  {
    var d := Descend(levels, vis.Keys, near, b);
    var own := match EntryOf(levels, b)
      case Populated(e) => if e in vis then vis[e := if d then Hidden else Inherited] else vis
      case _ => vis;
    if d then own
    else
      DescendantsInTree(levels, b);
      HideAll(levels, own, b, DescendantsOf(b))
  }

  /** The visibilities after visiting `order`'s blocks of the tree in turn. */
  function AfterVisits(levels: seq<Level>, vis: map<Entity, Visibility>, near: (BlockId, Entity) -> bool, order: seq<BlockId>)
    : (r: map<Entity, Visibility>)
    requires WellFormed(levels)
    ensures r.Keys == vis.Keys
  {
    if order == [] then vis
    else
      var n := |order| - 1;
      var prev := AfterVisits(levels, vis, near, order[..n]);
      if Addresses(levels, order[n]) then AfterVisit(levels, prev, near, order[n]) else prev
  }

  /** Visiting `o1` then `o2` is visiting `o1 + o2`. */
  lemma {:induction false} AfterVisitsJoin(levels: seq<Level>, vis: map<Entity, Visibility>, near: (BlockId, Entity) -> bool,
                                           o1: seq<BlockId>, o2: seq<BlockId>)
    requires WellFormed(levels)
    ensures AfterVisits(levels, vis, near, o1 + o2) == AfterVisits(levels, AfterVisits(levels, vis, near, o1), near, o2)
  {
    if o2 == [] {
      assert o1 + o2 == o1;
    } else {
      var n, o := |o2| - 1, o1 + o2;
      AfterVisitsJoin(levels, vis, near, o1, o2[..n]);
      assert o[..|o| - 1] == o1 + o2[..n];
      assert o[|o| - 1] == o2[n];
      AfterVisitsLast(levels, vis, near, o);
      AfterVisitsLast(levels, AfterVisits(levels, vis, near, o1), near, o2);
    }
  }

  /** One more block in the order is one more visit. */
  lemma AfterVisitsLast(levels: seq<Level>, vis: map<Entity, Visibility>, near: (BlockId, Entity) -> bool, order: seq<BlockId>)
    requires WellFormed(levels) && order != []
    ensures var n := |order| - 1;
      var prev := AfterVisits(levels, vis, near, order[..n]);
      AfterVisits(levels, vis, near, order) == if Addresses(levels, order[n]) then AfterVisit(levels, prev, near, order[n]) else prev
  {
  }

  /** A mesh is hidden by `HideAll` exactly when some block of `xs` other
      than `b` holds it; every other visibility is kept. */
  lemma {:induction false} HideAllExact(levels: seq<Level>, vis: map<Entity, Visibility>, b: BlockId, xs: seq<BlockId>, e: Entity)
    requires WellFormed(levels) && forall x :: x in xs ==> Addresses(levels, x)
    requires e in vis
    ensures HideAll(levels, vis, b, xs)[e] ==
      if exists x :: x in xs && HoldsBelow(levels, b, x, e) then Hidden else vis[e]
  {
    if xs != [] {
      var n := |xs| - 1;
      HideAllExact(levels, vis, b, xs[..n], e);
      assert xs == xs[..n] + [xs[n]];
      var inPrefix := exists x :: x in xs[..n] && HoldsBelow(levels, b, x, e);
      var atLast := HoldsBelow(levels, b, xs[n], e);
      assert (exists x :: x in xs && HoldsBelow(levels, b, x, e)) <==> inPrefix || atLast;
    }
  }

  /** `select_meshes`' visitor for a block with no mesh to look up: it
      descends and changes nothing. A block at level 0 is never too
      close. */
  lemma VisitDescends(levels: seq<Level>, vis: map<Entity, Visibility>, near: (BlockId, Entity) -> bool, b: BlockId)
    requires WellFormed(levels) && Addresses(levels, b)
    ensures b.level == 0 ==> forall e :: !TooClose(levels, near, b, e)
    ensures !PopulatedIn(levels, b) || EntryOf(levels, b).entity !in vis ==>
      Descend(levels, vis.Keys, near, b) && AfterVisit(levels, vis, near, b) == vis
  {
  }

  /** `select_meshes`' visitor for a block whose mesh can be looked up: it
      descends exactly when too close, that is above level 0, near the
      camera and with all four children populated; it then hides its own
      mesh and changes nothing else. */
  lemma VisitShown(levels: seq<Level>, vis: map<Entity, Visibility>, near: (BlockId, Entity) -> bool, b: BlockId, e: Entity)
    requires WellFormed(levels) && Addresses(levels, b)
    requires EntryOf(levels, b) == Populated(e) && e in vis
    ensures Descend(levels, vis.Keys, near, b) <==>
      b.level > 0 && near(b, e) && forall c :: c in Children(b) ==> PopulatedIn(levels, c)
    ensures Descend(levels, vis.Keys, near, b) ==> AfterVisit(levels, vis, near, b) == vis[e := Hidden]
  {
    ChildrenInTree(levels, b);
  }

  /** When the visitor does not descend from `b`, the mesh of every block
      strictly below `b` is hidden, `b`'s own mesh is inherited unless a
      block below it holds the same mesh, and every other visibility is
      kept. */
  lemma VisitStops(levels: seq<Level>, vis: map<Entity, Visibility>, near: (BlockId, Entity) -> bool, b: BlockId, e: Entity)
    requires WellFormed(levels) && Addresses(levels, b)
    requires !Descend(levels, vis.Keys, near, b) && e in vis
    ensures var r := AfterVisit(levels, vis, near, b);
      r[e] == if exists x :: Below(x, b) && Addresses(levels, x) && HoldsBelow(levels, b, x, e) then Hidden
              else if EntryOf(levels, b) == Populated(e) then Inherited
              else vis[e]
  {
    DescendantsInTree(levels, b);
    var own := vis[EntryOf(levels, b).entity := Inherited];
    HideAllExact(levels, own, b, DescendantsOf(b), e);
    if exists x :: Below(x, b) && Addresses(levels, x) && HoldsBelow(levels, b, x, e) {
      var x :| Below(x, b) && Addresses(levels, x) && HoldsBelow(levels, b, x, e);
      DescendantsExact(b, x);
    }
  }

  /** `select_meshes`' visitor: look up `b`'s mesh, decide whether to
      descend, set its visibility, and, when not descending, hide every
      mesh below it. */
  method Visit(tree: MeshTree, meshes: MeshVisibility, near: (BlockId, Entity) -> bool, b: BlockId) returns (descend: bool)
    requires tree.Valid() && tree.InTree(b)
    modifies meshes
    ensures descend == Descend(tree.levels, old(meshes.vis).Keys, near, b)
    ensures meshes.vis == AfterVisit(tree.levels, old(meshes.vis), near, b)
  {
    descend := true;
    match tree.GetEntry(b) {
      case Populated(e) =>
        if e in meshes.vis {
          var tooClose := false;
          if b.level > 0 {
            tooClose := near(b, e);
            ChildrenInTree(tree.levels, b);
            if tooClose && !(forall c :: c in Children(b) ==> tree.Populated(c)) {
              tooClose := false;
            }
          }
          meshes.vis := meshes.vis[e := if tooClose then Hidden else Inherited];
          descend := tooClose;
        }
      case _ =>
    }
    if !descend {
      HideBelow(tree, meshes, b);
    }
  }

  /** `select_meshes`' loop over `descendants` when not descending. */
  method HideBelow(tree: MeshTree, meshes: MeshVisibility, b: BlockId)
    requires tree.Valid() && tree.InTree(b)
    modifies meshes
    ensures forall x :: x in DescendantsOf(b) ==> Addresses(tree.levels, x)
    ensures meshes.vis == HideAll(tree.levels, old(meshes.vis), b, DescendantsOf(b))
  {
    var ds := Descendants(b);
    DescendantsInTree(tree.levels, b);
    for k := 0 to |ds|
      invariant meshes.vis == HideAll(tree.levels, old(meshes.vis), b, ds[..k])
    {
      HideAllPrefix(tree.levels, old(meshes.vis), b, ds, k);
      HideOneBlock(tree, meshes, b, ds[k]);
    }
    assert ds[..|ds|] == ds;
  }

  /** One pass of that loop: block `x`, unless it is `b`, has its mesh
      hidden when it has one that can be looked up. */
  method HideOneBlock(tree: MeshTree, meshes: MeshVisibility, b: BlockId, x: BlockId)
    requires tree.Valid() && tree.InTree(x)
    modifies meshes
    ensures meshes.vis == HideOne(tree.levels, old(meshes.vis), b, x)
  {
    if x != b {
      match tree.GetEntry(x) {
        case Populated(e) =>
          if e in meshes.vis {
            meshes.vis := meshes.vis[e := Hidden];
          }
        case _ =>
      }
    }
  }

  /** The walk's visitor answers for a block of the tree as `Descend`
      does. */
  lemma RuleAt(levels: seq<Level>, keys: set<Entity>, near: (BlockId, Entity) -> bool, b: BlockId)
    requires WellFormed(levels) && Addresses(levels, b)
    ensures Rule(levels, keys, near)(b) == Descend(levels, keys, near, b)
  {
  }

  /** Visiting one more block of the tree is `AfterVisit` on what came
      before. */
  lemma AfterVisitsSnoc(levels: seq<Level>, vis: map<Entity, Visibility>, near: (BlockId, Entity) -> bool,
                        before: seq<BlockId>, b: BlockId)
    requires WellFormed(levels) && Addresses(levels, b)
    ensures AfterVisits(levels, vis, near, before + [b]) == AfterVisit(levels, AfterVisits(levels, vis, near, before), near, b)
  {
    assert (before + [b])[..|before|] == before;
  }

  /** `walk_block` with `select_meshes`' visitor: visit `b`, then, if
      descending, each child in turn. The walk so far visited `before`,
      starting from the visibilities `vis0`; returns it extended with the
      blocks this walk visits. */
  method SelectBlock(tree: MeshTree, meshes: MeshVisibility, near: (BlockId, Entity) -> bool, b: BlockId,
                     ghost vis0: map<Entity, Visibility>, ghost before: seq<BlockId>)
    returns (ghost visited: seq<BlockId>)
    requires tree.Valid() && tree.InTree(b)
    requires meshes.vis == AfterVisits(tree.levels, vis0, near, before)
    modifies meshes
    ensures visited == before + WalkBlock(b, Rule(tree.levels, vis0.Keys, near))
    ensures meshes.vis == AfterVisits(tree.levels, vis0, near, visited)
    decreases b.level, 1
  {
    var descend := Visit(tree, meshes, near, b);
    RuleAt(tree.levels, vis0.Keys, near, b);
    AfterVisitsSnoc(tree.levels, vis0, near, before, b);
    visited := before + [b];
    if descend {
      ChildrenInTree(tree.levels, b);
      visited := SelectEach(tree, meshes, near, Children(b), b.level, vis0, visited);
      AppendAssoc(before, [b], WalkEach(Children(b), b.level, Rule(tree.levels, vis0.Keys, near)));
    }
  }

  /** The walks from each block of `bs` in turn, after `before`. */
  method SelectEach(tree: MeshTree, meshes: MeshVisibility, near: (BlockId, Entity) -> bool, bs: seq<BlockId>, bound: nat,
                    ghost vis0: map<Entity, Visibility>, ghost before: seq<BlockId>)
    returns (ghost visited: seq<BlockId>)
    requires tree.Valid() && forall x :: x in bs ==> tree.InTree(x) && x.level < bound
    requires meshes.vis == AfterVisits(tree.levels, vis0, near, before)
    modifies meshes
    ensures visited == before + WalkEach(bs, bound, Rule(tree.levels, vis0.Keys, near))
    ensures meshes.vis == AfterVisits(tree.levels, vis0, near, visited)
    decreases bound, 0
  {
    ghost var rule := Rule(tree.levels, vis0.Keys, near);
    visited := before;
    assert before + WalkEach(bs[..0], bound, rule) == before;
    for k := 0 to |bs|
      invariant visited == before + WalkEach(bs[..k], bound, rule)
      invariant meshes.vis == AfterVisits(tree.levels, vis0, near, visited)
    {
      assert bs[k] in bs;
      visited := SelectBlock(tree, meshes, near, bs[k], vis0, visited);
      WalkEachPrefix(bs, k, bound, rule);
      AppendAssoc(before, WalkEach(bs[..k], bound, rule), WalkBlock(bs[k], rule));
    }
    assert bs[..|bs|] == bs;
  }

  /** `walk` with `select_meshes`' visitor over one tree: each root of the
      top level in row-major order. */
  method SelectTree(tree: MeshTree, meshes: MeshVisibility, near: (BlockId, Entity) -> bool)
    returns (ghost visited: seq<BlockId>)
    requires tree.Valid()
    modifies meshes
    ensures meshes.vis.Keys == old(meshes.vis).Keys
    ensures visited == tree.Walk(Rule(tree.levels, old(meshes.vis).Keys, near))
    ensures meshes.vis == AfterVisits(tree.levels, old(meshes.vis), near, visited)
  {
    ghost var vis0 := meshes.vis;
    ghost var rule := Rule(tree.levels, vis0.Keys, near);
    var top := |tree.levels| - 1;
    var roots := Roots(tree.levels[top].rows, tree.levels[top].cols, top);
    visited := [];
    for k := 0 to |roots|
      invariant visited == WalkEach(roots[..k], |tree.levels|, rule)
      invariant meshes.vis == AfterVisits(tree.levels, vis0, near, visited)
    {
      assert roots[k] in roots;
      visited := SelectBlock(tree, meshes, near, roots[k], vis0, visited);
      WalkEachPrefix(roots, k, |tree.levels|, rule);
    }
    assert roots[..|roots|] == roots;
  }

  /** The levels of each tree, in order. */
  ghost function LevelsOf(trees: seq<MeshTree>): (forest: seq<seq<Level>>)
    reads set t | t in trees
    ensures |forest| == |trees| && forall i :: 0 <= i < |trees| ==> forest[i] == trees[i].levels
    ensures (forall i :: 0 <= i < |trees| ==> trees[i].Valid()) ==> forall i :: 0 <= i < |forest| ==> WellFormed(forest[i])
  {
    if trees == [] then [] else LevelsOf(trees[..|trees| - 1]) + [trees[|trees| - 1].levels]
  }

  /** The visibilities after walking one tree with `select_meshes`'
      visitor. */
  ghost function AfterTree(levels: seq<Level>, vis: map<Entity, Visibility>, near: (BlockId, Entity) -> bool)
    : (r: map<Entity, Visibility>)
    requires WellFormed(levels)
    ensures r.Keys == vis.Keys
  {
    AfterVisits(levels, vis, near, WalkLevels(levels, Rule(levels, vis.Keys, near)))
  }

  /** The visibilities after walking every tree in turn. */
  ghost function AfterForest(forest: seq<seq<Level>>, vis: map<Entity, Visibility>, near: (BlockId, Entity) -> bool)
    : (r: map<Entity, Visibility>)
    requires forall i :: 0 <= i < |forest| ==> WellFormed(forest[i])
    ensures r.Keys == vis.Keys
  {
    if forest == [] then vis
    else
      var n := |forest| - 1;
      AfterTree(forest[n], AfterForest(forest[..n], vis, near), near)
  }

  /** `select_meshes` runs only when the camera moved or the terrain was
      rendered. */
  predicate Triggered(events: seq<GraphicsEvent>) {
    MoveCamera in events || RenderTerrain in events
  }

  /** `select_meshes`: with no single camera, or with no camera move and no
      terrain render among the events, do nothing. Otherwise walk every
      tree in turn with the visitor. */
  method SelectMeshes(trees: seq<MeshTree>, meshes: MeshVisibility, near: (BlockId, Entity) -> bool,
                      cameraFound: bool, events: seq<GraphicsEvent>)
    requires forall i :: 0 <= i < |trees| ==> trees[i].Valid()
    modifies meshes
    ensures !cameraFound || !Triggered(events) ==> meshes.vis == old(meshes.vis)
    ensures cameraFound && Triggered(events) ==> meshes.vis == AfterForest(old(LevelsOf(trees)), old(meshes.vis), near)
  {
    if !cameraFound {
      return;
    }
    if !(MoveCamera in events || RenderTerrain in events) {
      return;
    }
    ghost var vis0 := meshes.vis;
    ghost var forest := LevelsOf(trees);
    for i := 0 to |trees|
      invariant meshes.vis == AfterForest(forest[..i], vis0, near)
    {
      ghost var v := SelectTree(trees[i], meshes, near);
      assert forest[..i + 1][..i] == forest[..i];
    }
    assert forest[..|trees|] == forest;
  }
}
