# rreng terrain level of detail, modelled in Dafny

This project models the terrain level-of-detail pipeline of rreng, a Bevy
railway game written in Rust. It covers every stage a height edit passes
through:

- A terraform click raises a cell of the elevation grid and floods the
  raise outwards under a distance cone.
- The edited rectangle marks 64-cell terrain blocks dirty.
- Each frame takes up to 16 dirty blocks and queues a mesh task for each
  block, and for each of its ancestors, in a per-layer quadtree of meshes
  (the mesh tree).
- Finished mesh tasks land in that tree.
- A walk of the tree decides which mesh of each region is shown.
- Mesh tasks triangulate a patch with the RTIN ("MARTINI")
  longest-edge-bisection algorithm, or with the plain two-triangles-per-cell
  mesh.

One Dafny module stands for each source file:

| module | file | form |
|---|---|---|
| `Wrappers` (wrappers.dfy) | — | `Option` and two sequence helpers |
| `Ranges` (ranges.dfy) | src/terrain/utils.rs | datatypes for `Range2` and its ranges; `expand_to`, `restrict_ranges` and `get_copyable_range` are methods |
| `TerrainGrid` (terrain.dfy) | src/terrain/terrain.rs | class `Terrain`, with grids as `array2<real>` and the block table as `array2<BlockInfo>` |
| `Edit` (edit.dfy) | src/terrain/edit.rs | `neighbours` as functions; `propagate` as a method with a queue loop over the grid array |
| `MeshTrees` (mesh_tree.dfy) | src/terrain/rendering/mesh_tree.rs | class `MeshTree` with `levels: seq<Level>`; `new`, `ancestors` and `descendants` as loops; `walk` as a function |
| `Rtin` (rtin.dfy) | src/terrain/rtin.rs | `triangulate_basic`, `build_error_map` and `process_triangle` as methods, each proved against a function |
| `Rendering` (rendering.dfy) | src/terrain/rendering/mod.rs | the per-frame systems `update_meshes`, `handle_mesh_tasks` and `select_meshes` as methods over the classes above |

Several parts of the engine become plain values or inputs:

- Heights are `real`.
- An entity is an opaque number (`Entity = nat`).
- A mesh task's completion is an input: one `Outcome` per queued task.
- The camera distance test of `select_meshes` is a predicate
  `near(block, entity)`.
- The square root in `propagate` is a parameter `dist: nat -> real`,
  applied to the squared grid distance.
- Iteration over the layer `HashMap` follows an input sequence `layers`.
- The query over mesh trees is a sequence of trees.

Three behaviours of the code are kept as written:

- `click_point` and `elevation_at` test `row < 0` after an `as usize`
  cast, and that test can never hold. A negative coordinate therefore
  saturates to row or column 0 and selects a cell on the grid's edge
  (`Edit.NegativePointClampsToEdge`).
- terrain.rs keeps a single `elevation` grid, while rendering/mod.rs
  reads one grid per layer from a `TerrainData` resource. TerrainData
  is not part of this model. `Terrain` therefore holds one grid per
  layer, each grid with terrain.rs's operations, and one block table
  shared by all layers.
- `update_meshes` sorts the needed blocks by level only and then
  `dedup`s them. `dedup` drops only adjacent repeats, so an ancestor
  shared by two picked blocks that are not next to each other can stay
  twice, and its mesh is then queued twice
  (`Rendering.FrameQueuesRepeatTwice`). The list with every repeat
  dropped, `Rendering.BlocksNeeded`, serves as the reference it is
  compared with (see Findings).

## Model

| member | source | states |
|---|---|---|
| Ranges.OverlapsIffSharedCell | src/terrain/utils.rs:7-10 | two non-empty rectangles overlap exactly when some cell lies in both |
| Ranges.OverlapsSymmetric | src/terrain/utils.rs:7-10 | `overlaps` gives the same answer with its arguments swapped |
| Ranges.EmptyRangeCanOverlap | src/terrain/utils.rs:7-10 | the bounds test alone accepts an empty rectangle (rows 5..3) as overlapping 0..10 x 0..10 |
| Ranges.IsEmptyIffNoCell | src/terrain/utils.rs:12-14 | a rectangle is empty exactly when it contains no cell |
| Ranges.WithinIffCellsContained | src/terrain/utils.rs:20-25 | the bounds comparison used for boxes is containment of their cell sets |
| Ranges.ExpandTo | src/terrain/utils.rs:16-26 | the result is non-empty and contains (row, col); it contains the old box; it is the smallest box that does both; on an empty box it is exactly row..row+1 x col..col+1 |
| Ranges.RestrictRanges | src/terrain/utils.rs:29-45 | unless both are reset, `to` becomes its intersection with 0..limit, both results are non-empty, and each end of `from` moves by as much as the same end of `to`; both become 0..0 exactly when the shifted `from` or `to` is empty |
| Ranges.Clip | src/terrain/utils.rs:47-54 | a position is in the result exactly when it is in 0..destWidth and in offset..offset+srcWidth; an empty result is 0..0 |
| Ranges.GetCopyableRange | src/terrain/utils.rs:47-54 | `from` lies in 0..srcWidth and `to` in 0..destWidth; they have equal lengths and are empty together; a non-empty `to` starts at from.start + offset; empty ones are both 0..0; `to` is the `Clip` of the patch |
| TerrainGrid.BlockCells | src/terrain/terrain.rs:38-43 | a block's range is non-empty and spans 65 rows and 65 columns |
| TerrainGrid.AdjacentBlocksShareOneRow | src/terrain/terrain.rs:40 | vertically adjacent blocks share exactly the row (r+1)*64 and all their columns; blocks two apart do not overlap |
| TerrainGrid.AdjacentBlocksShareOneColumn | src/terrain/terrain.rs:40 | horizontally adjacent blocks share exactly the column (c+1)*64 and all their rows |
| TerrainGrid.BlocksCoverGrid | src/terrain/terrain.rs:35-40 | every row of a grid of 64*n+1 rows lies in some block row |
| TerrainGrid.Terrain.constructor | src/terrain/terrain.rs:18-27 | the default terrain has no blocks and no grids and satisfies the invariant |
| TerrainGrid.Terrain.ZeroGrids | src/terrain/terrain.rs:36-37 | one fresh all-zero grid of the given shape for each layer, no two layers sharing a grid |
| TerrainGrid.Terrain.Reset | src/terrain/terrain.rs:30-44 | size/64 blocks per axis, zero grids of 64*blocks+1 cells per axis, every block clean; the invariant gives block (r, c) the number (r, c) and the range r*64..(r+1)*64+1 x c*64..(c+1)*64+1 |
| TerrainGrid.Terrain.DirtyRange | src/terrain/terrain.rs:72-78 | each block's flag becomes its old flag or whether its range overlaps `range`; no flag is cleared, and no other field of a block or the grids change |
| TerrainGrid.Terrain.SetElevation | src/terrain/terrain.rs:46-70 | each grid cell holds the patch cell at its offset when the patch covers it, and its old height otherwise; a block becomes dirty exactly when it overlaps the non-empty clipped destination, and otherwise keeps its flag |
| TerrainGrid.Terrain.Paste | src/terrain/terrain.rs:47-58 | the returned rectangle is the patch clipped to the grid on both axes; cells inside it take the patch's values and all others keep their heights |
| TerrainGrid.Terrain.ElevationAt | src/terrain/terrain.rs:83-92 | the height of the cell the cast point names, or -1 when that cell is past the grid |
| TerrainGrid.Terrain.PointInCellReadsCell | src/terrain/terrain.rs:84-88 | any point inside cell (i, j), its corner included, reads that cell's height |
| TerrainGrid.Terrain.PointPastGridReadsMissing | src/terrain/terrain.rs:87-91 | a point at or past the last row or column reads -1 |
| TerrainGrid.CastToIndex | src/terrain/terrain.rs:84-85 | a non-negative value truncates to the integer below it; a negative value saturates to 0 |
| TerrainGrid.CastOfCellPoint | src/terrain/terrain.rs:84-85 | every point of [i, i+1) casts to i |
| TerrainGrid.CastToOffset | src/terrain/terrain.rs:100 | `as isize` truncates toward zero on both signs |
| TerrainGrid.CoordToOffset | src/terrain/terrain.rs:97-101 | the row counts down from size[0] by the truncated height above the bounds' minimum; the column is the truncated distance from the left edge |
| TerrainGrid.CoordToOffsetWhole | src/terrain/terrain.rs:97-101 | whole-number coordinates map exactly, and the bottom-left corner of the bounds maps to (size[0], 0) |
| TerrainGrid.CopyBlock | src/terrain/terrain.rs:56-58 | each destination cell receives the matching source cell, and every cell outside the destination keeps its value |
| Edit.Neighbours | src/terrain/edit.rs:58-88 | the result holds exactly the in-grid cells at most one step away on each axis, other than the cell itself; there are no repeats and at most 8 cells |
| Edit.AxialNeighbours | src/terrain/edit.rs:61-72 | the first four pushes are exactly the neighbours in the same row or column, with no repeats, at most 4 |
| Edit.DiagonalNeighbours | src/terrain/edit.rs:74-85 | the last four pushes are exactly the diagonal neighbours, with no repeats, at most 4 |
| Edit.NeighbourCounts | src/terrain/edit.rs:61-85 | an interior cell has 8 neighbours and a corner cell of a grid at least 2 x 2 has 3 |
| Edit.RaisesShrinkPotential | src/terrain/edit.rs:48-50 | raising a cell to a value of the finite set of candidate heights removes a pair from the set of possible future raises, so the flood fill ends |
| Edit.StartFill | src/terrain/edit.rs:33-38 | the state after queueing the origin satisfies the flood-fill invariant |
| Edit.FinishFill | src/terrain/edit.rs:40-53 | with the queue empty, no processed cell can raise any of its neighbours any more |
| Edit.Relax | src/terrain/edit.rs:45-51 | one neighbour raise keeps the flood-fill invariant and leaves that neighbour at least min(height of the dequeued cell, cone cap); either nothing changes or the neighbour is raised and queued |
| Edit.RelaxAll | src/terrain/edit.rs:44-52 | every neighbour of the dequeued cell is relaxed, keeping the invariant |
| Edit.GrowBounds | src/terrain/edit.rs:42 | `expand_to` keeps the returned range the bounding box of all dequeued cells: it holds them all, lies within every rectangle that holds them all, and lies in the grid |
| Edit.Visit | src/terrain/edit.rs:41-52 | one dequeue adds the front cell to the processed set and keeps the invariant; every queued cell is processed or still queued; the potential falls or the queue shrinks |
| Edit.FloodFill | src/terrain/edit.rs:40-53 | the queue loop ends with no cell lowered; each changed cell is processed, under the cone and no higher than the neighbour it was raised from; every processed cell's neighbours are relaxed; the origin is processed, every other processed cell was changed, and the range is the bounding box of the processed cells |
| Edit.Propagate | src/terrain/edit.rs:32-56 | heights only rise, and only at processed cells inside the returned range, which contains the origin and lies in the grid; a changed cell is at most cheight - dist(origin) and at most the neighbour it was raised from; afterwards no processed cell would raise a neighbour; the range lies within every rectangle that holds the origin and every changed cell, so it is their bounding box |
| Edit.ClickCell | src/terrain/edit.rs:19-24 | a cell is edited exactly when both cast coordinates fall inside the grid, and it is that cell |
| Edit.NegativePointClampsToEdge | src/terrain/edit.rs:19-22 | a point above the grid (z < 0) is not rejected but edits row 0 |
| Edit.ClickPoint | src/terrain/edit.rs:12-30 | with the button up or the point off the grid nothing changes; otherwise, given that `dist(0)` is 0 as `sqrt` gives, the cell rises by exactly 1, no cell falls, the returned range is the bounding box of the clicked and changed cells, every other raised cell lies under the cone, and exactly the blocks overlapping the range are added to the dirty ones |
| Edit.RaiseCell | src/terrain/edit.rs:26-27 | given `dist(0) = 0`, the clicked cell rises by exactly 1, no cell falls, the range is the bounding box of the clicked and changed cells, and every other changed cell is at most the raised height minus its distance |
| MeshTrees.Pow2 | src/terrain/rendering/mesh_tree.rs:38 | `1 << k` is at least 1 |
| MeshTrees.CeilLog2 | src/terrain/rendering/mesh_tree.rs:37 | the least k with n <= 2^k |
| MeshTrees.InitialLevel | src/terrain/rendering/mesh_tree.rs:47-53 | each level built by `new` is a rectangular table of its stated size |
| MeshTrees.Children | src/terrain/rendering/mesh_tree.rs:76-87 | no children at level 0, four otherwise |
| MeshTrees.ChildrenAreParentPreimage | src/terrain/rendering/mesh_tree.rs:68-87 | x is a child of b exactly when b is above level 0, x is one level lower and `parent(x)` is b; the four children are distinct |
| MeshTrees.SetEntry | src/terrain/rendering/mesh_tree.rs:123-129 | the levels keep their shape; block b's entry becomes `kind` and every other entry is unchanged |
| MeshTrees.MeshTree.constructor | src/terrain/rendering/mesh_tree.rs:34-66 | the loop builds exactly the levels `InitialLevels` describes, well-formed |
| MeshTrees.MeshTree.SetMesh | src/terrain/rendering/mesh_tree.rs:127-133 | only the addressed entry changes, to `kind`; the result is Some(e) exactly when that entry was Populated(e) |
| MeshTrees.MeshTree.Walk | src/terrain/rendering/mesh_tree.rs:143-159 | `walk` visits only blocks of the tree's levels and starts a walk at every block of the top level |
| MeshTrees.WalkBlock | src/terrain/rendering/mesh_tree.rs:144-151 | `walk_block` visits b before anything else (what it visits after is `WalkBlockMembers`) |
| MeshTrees.WalkEach | src/terrain/rendering/mesh_tree.rs:153-158 | the walks of a list of blocks, one after another, visit at least one block per list entry (which ones is `WalkEachMembers`) |
| MeshTrees.MeshTree.Ancestors | src/terrain/rendering/mesh_tree.rs:89-100 | one block per higher level, nearest first; the first is the parent of b and each next one the parent of the one before it; none for a top-level block |
| MeshTrees.Roots | src/terrain/rendering/mesh_tree.rs:153-158 | the roots are top-level blocks inside the top level |
| MeshTrees.RowRoots | src/terrain/rendering/mesh_tree.rs:155-156 | one row of roots, left to right |
| MeshTrees.RootsComplete | src/terrain/rendering/mesh_tree.rs:155-158 | every block of the top level is a root the walk starts from |
| MeshTrees.InitialLevelsHalve | src/terrain/rendering/mesh_tree.rs:40-58 | `new` builds at least one level, and every level above the bottom is exactly half the one below it |
| MeshTrees.NewExamples | src/terrain/rendering/mesh_tree.rs:166-189 | [2, 2] with at most level 1 gives levels 2x2 and 1x1 with a Pending root; [3, 7] with at most level 2 gives 4x8, 2x4 and 1x2 with Invalid padding at (3, 7), (1, 3) and (0, 1) |
| MeshTrees.BottomLevelCovers | src/terrain/rendering/mesh_tree.rs:40-41 | level 0 covers the terrain with less than 2^top rows and columns of padding |
| MeshTrees.PendingIffChildrenPending | src/terrain/rendering/mesh_tree.rs:48-58 | above level 0 an entry is Pending exactly when its four children are, and the children lie inside the level below |
| MeshTrees.ChildEntriesPending | src/terrain/rendering/mesh_tree.rs:48-58 | the same on two consecutive levels as `new` builds them |
| MeshTrees.AllChildrenMembers | src/terrain/rendering/mesh_tree.rs:110-112 | the flat map of `children` holds exactly the children of the blocks it is given |
| MeshTrees.GenerationShape | src/terrain/rendering/mesh_tree.rs:108-114 | generation k of b holds 4^k blocks, all at level b.level - k; the generation below level 0 is empty |
| MeshTrees.GenerationMembers | src/terrain/rendering/mesh_tree.rs:108-114 | generation k of b holds exactly the blocks k levels down whose k-th ancestor is b |
| MeshTrees.Descendants | src/terrain/rendering/mesh_tree.rs:102-117 | the loop returns b and each of its generations in turn, breadth first, or nothing at level 0 |
| MeshTrees.DescendantsExact | src/terrain/rendering/mesh_tree.rs:102-117 | `descendants` of b lists exactly the blocks at or below b, 4^0 + ... + 4^level of them |
| MeshTrees.GenerationsCount | src/terrain/rendering/mesh_tree.rs:108-114 | generations 0..n hold 4^0 + ... + 4^n blocks |
| MeshTrees.GenerationsMembers | src/terrain/rendering/mesh_tree.rs:108-114 | generations 0..n hold exactly the blocks at most n levels below b whose ancestor at b's level is b |
| MeshTrees.WalkAllCount | src/terrain/rendering/mesh_tree.rs:144-151 | a walk from b that always descends visits 4^0 + ... + 4^level blocks |
| MeshTrees.WalkEachCount | src/terrain/rendering/mesh_tree.rs:153-158 | walking from each of n roots of one level visits n times that many |
| MeshTrees.WalkExample | src/terrain/rendering/mesh_tree.rs:205-208 | on the [2, 2] tree with an always-true visitor the walk visits 5 blocks |
| MeshTrees.WalkBlockMembers | src/terrain/rendering/mesh_tree.rs:144-151 | the walk from b visits x exactly when x is at or below b and the visitor descends at every block strictly between them |
| MeshTrees.WalkEachMembers | src/terrain/rendering/mesh_tree.rs:155-158 | the walk over the roots visits exactly what some root's walk visits |
| MeshTrees.WalkEachSnoc | src/terrain/rendering/mesh_tree.rs:155-158 | the walk over one more root appends that root's walk |
| Rtin.TriangulateBasic | src/terrain/rtin.rs:12-33 | the nested loops emit the two triangles of each cell, row by row and left to right |
| Rtin.BasicCount | src/terrain/rtin.rs:12-33 | 2 (h-1)(w-1) triangles |
| Rtin.BasicMembers | src/terrain/rtin.rs:17-28 | a triangle is emitted exactly when it is one of the two triangles of some cell |
| Rtin.BasicInGrid | src/terrain/rtin.rs:19-22 | every vertex lies in the grid |
| Rtin.BasicTrivial | src/terrain/rtin.rs:170-175 | a 2 x 2 patch gives the two triangles of its one cell |
| Rtin.Mid | src/terrain/rtin.rs:129-130 | the shifted midpoint lies between the ends on each axis |
| Rtin.ChildShapes | src/terrain/rtin.rs:132-135 | both halves of a split right isosceles triangle of power-of-two size have that shape, each with a smaller measure, so the recursion ends |
| Rtin.ChildAreas | src/terrain/rtin.rs:132-135 | each half has half the area |
| Rtin.Emit | src/terrain/rtin.rs:141-147 | an emitted triangle has every vertex in 0..=tile on both axes |
| Rtin.Split | src/terrain/rtin.rs:122-149 | `process_triangle` emits at least one triangle |
| Rtin.SplitInTile | src/terrain/rtin.rs:141-147 | every triangle `process_triangle` emits has every vertex in 0..=tile |
| Rtin.SplitDivides | src/terrain/rtin.rs:132-135 | a triangle with leg longer than 1 and error above the threshold emits its (c, a, m) half, then its (b, c, m) half |
| Rtin.SplitKeeps | src/terrain/rtin.rs:136-147 | any other triangle emits itself as [(ay, ax), (by, bx), (cy, cx)] |
| Rtin.ProcessTriangle | src/terrain/rtin.rs:122-149 | the recursive pushes append exactly the triangles `Split` describes |
| Rtin.RootsProcessable | src/terrain/rtin.rs:151-160 | both root triangles have the RTIN shape and lie in the tile |
| Rtin.BuildRtinMesh | src/terrain/rtin.rs:111-163 | the mesh is the split of the bottom-left root followed by that of the top-right root |
| Rtin.HighThresholdGivesRoots | src/terrain/rtin.rs:132-160 | a threshold at or above every stored error gives exactly the two root triangles |
| Rtin.RootKept | src/terrain/rtin.rs:132 | a triangle whose stored errors are all within the threshold is emitted whole |
| Rtin.SplitCountBound | src/terrain/rtin.rs:132-148 | a triangle never emits more triangles than twice its area |
| Rtin.SplitCountFull | src/terrain/rtin.rs:132-148 | when every split is taken it emits exactly that many |
| Rtin.RtinMeshBound | src/terrain/rtin.rs:151-160 | the mesh has at most as many triangles as the basic triangulation, 2 tile^2 |
| Rtin.RtinMeshFull | src/terrain/rtin.rs:151-160 | when every stored error is above the threshold the mesh has exactly 2 tile^2 triangles |
| Rtin.RtinMesh | src/terrain/rtin.rs:151-160 | the mesh of both roots holds at least two triangles, each with every vertex in the tile |
| Rtin.SplitMonotone | src/terrain/rtin.rs:132 | raising the threshold never increases the number of triangles one triangle emits |
| Rtin.RtinMeshMonotone | src/terrain/rtin.rs:132-160 | raising the threshold never increases the number of triangles of the whole mesh |
| Rtin.UnsplitStaysUnsplit | src/terrain/rtin.rs:132 | a triangle not split at one threshold is not split at any higher one |
| Rtin.Root | src/terrain/rtin.rs:66-70 | the root chosen by the lowest bit of the id lies in the tile |
| Rtin.Child | src/terrain/rtin.rs:76-86 | the half chosen by one bit lies in the tile |
| Rtin.Descend | src/terrain/rtin.rs:72-87 | every triangle the bit decoding reaches lies in the tile, so every access it leads to is in bounds |
| Rtin.Locate | src/terrain/rtin.rs:64-87 | the triangle an id names lies in the tile, so every access it leads to is in bounds |
| Rtin.LocateRoots | src/terrain/rtin.rs:64-70 | ids 2 and 3 decode to the top-right and bottom-left roots |
| Rtin.LocateSecondLevel | src/terrain/rtin.rs:72-87 | ids 4 to 7 decode to the four halves of the roots |
| Rtin.OneHalving | src/terrain/rtin.rs:72-87 | a three-bit id takes exactly one halving, chosen by its middle bit |
| Rtin.LocateTriangle | src/terrain/rtin.rs:64-87 | the shift loop computes the triangle the id names in the implicit binary tree |
| Rtin.AbsReal | src/terrain/rtin.rs:92 | the absolute value is non-negative and equals x or -x |
| Rtin.RaiseAllIsMax | src/terrain/rtin.rs:100-104 | the raise loop leaves the largest of the old value and the candidates |
| Rtin.MiddleError | src/terrain/rtin.rs:89-92 | the error at the midpoint is non-negative |
| Rtin.AccumulateError | src/terrain/rtin.rs:94-105 | a smallest triangle stores its middle error; a bigger one stores at least its old value, its middle error and both child midpoint errors; no other entry changes |
| Rtin.AccumulateKeepsNonNegative | src/terrain/rtin.rs:100-104 | a raise step keeps the stored error non-negative |
| Rtin.BuildErrorMap | src/terrain/rtin.rs:50-109 | the error map has the shape of the points and every entry is non-negative |
| Rtin.TriangulateRtin | src/terrain/rtin.rs:41-48 | every vertex lies in the tile; there are at most 2 tile^2 triangles, and exactly that many for a negative threshold |
| Rendering.BlockRange | src/terrain/rendering/mod.rs:367-372 | a block's range starts at row * 2^level * block_size and col * 2^level * block_size and spans 2^level * block_size + 1 cells on each axis |
| Rendering.Spacing | src/terrain/rendering/mod.rs:374-378 | the stride `1 << level` is at least 1 |
| Rendering.BlockRangeOfBottom | src/terrain/rendering/mod.rs:367-372 | at level 0 a block's range is the block range `reset` gives it |
| Rendering.ChildRangeWithin | src/terrain/rendering/mod.rs:367-372 | a child's range lies within its parent's |
| Rendering.SpacingSamplesBlock | src/terrain/rendering/mod.rs:225-228 | slicing a block's range with its stride takes block_size + 1 samples per axis, from its first cell to its last |
| Rendering.Take | src/terrain/rendering/mod.rs:126 | `take(n)` gives a prefix of length min(n, len) |
| Rendering.PickDirty | src/terrain/rendering/mod.rs:124-127 | the loop over the block table returns the blocks `Picked` describes |
| Rendering.PickedAreFirstDirty | src/terrain/rendering/mod.rs:124-129 | at most 16 blocks, all dirty, in row-major order; a dirty block left out comes after all picked ones with the quota full; nothing is picked exactly when no block is dirty |
| Rendering.DedupAdjacent | src/terrain/rendering/mod.rs:152 | `dedup` keeps the last element |
| Rendering.GatheredMembers | src/terrain/rendering/mod.rs:146-150 | the gathered list holds exactly the picked blocks and their ancestors up to the top level |
| Rendering.SortByLevelPermutes | src/terrain/rendering/mod.rs:151 | the sort by level is a permutation of the list |
| Rendering.SortByLevelFacts | src/terrain/rendering/mod.rs:151 | the sort keeps the members and orders them by non-increasing level |
| Rendering.DedupAdjacentFacts | src/terrain/rendering/mod.rs:152 | `dedup` keeps the members, leaves no two neighbours equal and keeps the level order |
| Rendering.DistinctFacts | src/terrain/rendering/mod.rs:152 | the corrected `dedup`, dropping every repeat, keeps the members and the level order and leaves no repeats |
| Rendering.BlocksNeededAsWritten | src/terrain/rendering/mod.rs:145-152 | the `dedup`ed list has no two equal neighbours |
| Rendering.BlocksNeededAsWrittenFacts | src/terrain/rendering/mod.rs:145-152 | `blocks_needed` holds exactly the picked blocks and their ancestors, highest level first, with no two neighbours equal |
| Rendering.BlocksNeededAsWrittenRepeats | src/terrain/rendering/mod.rs:151-152 | picked blocks (0, 0), (0, 2), (1, 0) under two levels leave block (0, 0) of level 1 twice in `blocks_needed` |
| Rendering.RepeatsKeptByDedup | src/terrain/rendering/mod.rs:152 | `dedup` keeps the sorted list of that case unchanged |
| Rendering.RepeatsScenario | src/terrain/rendering/mod.rs:103 | a terrain of 2 x 3 blocks gets a tree of two levels whose block (0, 0) of level 1 is real |
| Rendering.BlocksNeededFacts | src/terrain/rendering/mod.rs:145-152 | the corrected list holds the same blocks, highest level first, each once |
| Rendering.Forest | src/terrain/rendering/mod.rs:134-137 | each layer maps to the levels of its tree |
| Rendering.NewTreeFits | src/terrain/rendering/mod.rs:103 | a tree from `new` has room at level 0 for every terrain block |
| Rendering.NeededListsAgree | src/terrain/rendering/mod.rs:151-152 | the `dedup`ed list and the list with every repeat dropped hold the same blocks |
| Rendering.NeededInTree | src/terrain/rendering/mod.rs:145-156 | every block of the `dedup`ed list is addressable in the layer's tree, so `valid` can read it |
| Rendering.TaskFor | src/terrain/rendering/mod.rs:158-171 | the mesh task for a block records the layer and the block, and with them the block's `block_range` and `block_quality` stride |
| Rendering.LayerTasksExact | src/terrain/rendering/mod.rs:155-181 | a layer queues a mesh task for a block exactly when the block is in the needed list, in the tree and not Invalid |
| Rendering.LayerTasksCount | src/terrain/rendering/mod.rs:155-181 | a layer queues a block's task as many times as the block occurs in the needed list, when it is in the tree and not Invalid, and never otherwise |
| Rendering.FrameTasksExact | src/terrain/rendering/mod.rs:133-182 | the frame queues a mesh task for a layer and block exactly when the layer is processed and the block is in that layer's `dedup`ed list, in the tree and not Invalid; no Invalid block is ever queued |
| Rendering.FrameTasksCount | src/terrain/rendering/mod.rs:133-182 | over distinct layers, the frame queues a block's task as many times as the block occurs in that layer's `dedup`ed list, when it is in the tree and not Invalid, and never otherwise |
| Rendering.FrameQueuesRepeatTwice | src/terrain/rendering/mod.rs:145-181 | picked blocks (0, 0), (0, 2), (1, 0) of a terrain of 2 x 3 blocks queue the mesh task for block (0, 0) of level 1 twice |
| Rendering.MeshTaskQueue.constructor | src/terrain/rendering/mod.rs:69-70 | the queue starts empty |
| Rendering.GatherNeeded | src/terrain/rendering/mod.rs:145-150 | the loop pushes each picked block followed by its ancestors |
| Rendering.UpdateMeshes | src/terrain/rendering/mod.rs:116-188 | picks the dirty blocks `Picked` describes; appends to the queue, for every layer in order, the mesh tasks of the blocks of its `dedup`ed list, repeats included; clears exactly the picked blocks' flags and leaves every other block alone |
| Rendering.QueueLayers | src/terrain/rendering/mod.rs:134-182 | the per-layer loop appends the frame's mesh tasks in layer order |
| Rendering.LayerNeeds | src/terrain/rendering/mod.rs:144-181 | one layer's mesh tasks are those of the blocks of its `dedup`ed list that are not Invalid, in list order |
| Rendering.QueueNeeded | src/terrain/rendering/mod.rs:155-181 | the loop over the needed list skips Invalid blocks and queues a task for each other one, in order |
| Rendering.ClearDirty | src/terrain/rendering/mod.rs:184-187 | exactly the picked blocks become clean; every other block is unchanged |
| Rendering.Landed | src/terrain/rendering/mod.rs:276 | landing keeps each tree well-formed and of the same shape |
| Rendering.StillRunning | src/terrain/rendering/mod.rs:281-283 | the still-running mesh tasks are no more than the queued ones and are all among them |
| Rendering.StillRunningExact | src/terrain/rendering/mod.rs:281-283 | a mesh task stays queued exactly when it has not finished |
| Rendering.StillRunningAllRunning | src/terrain/rendering/mod.rs:247-284 | when no mesh task has finished the queue is unchanged |
| Rendering.ReleasedCount | src/terrain/rendering/mod.rs:253-284 | each mesh task either stays queued or finishes, and a finished one releases at most one mesh |
| Rendering.LandedEntryStep | src/terrain/rendering/mod.rs:276 | one more finished mesh task changes a block only if it lands on that block, which then holds the new mesh |
| Rendering.LandedUntouched | src/terrain/rendering/mod.rs:276 | a block no finished mesh task lands on keeps its entry |
| Rendering.LandedLast | src/terrain/rendering/mod.rs:276 | a block holds the mesh of the last finished mesh task that lands on it |
| Rendering.AnyLandedExact | src/terrain/rendering/mod.rs:280 | `any_change` holds exactly when some mesh task finished with a mesh |
| Rendering.HarvestStep | src/terrain/rendering/mod.rs:253-284 | one poll extends the still-running list, the change flag, the landed trees and the released meshes by that mesh task's own effect |
| Rendering.HarvestStart | src/terrain/rendering/mod.rs:249 | before the first poll every tree holds its starting levels |
| Rendering.Land | src/terrain/rendering/mod.rs:260-278 | the mesh task's block takes the new mesh; the replaced mesh is returned exactly when the block held one |
| Rendering.PollTask | src/terrain/rendering/mod.rs:254-283 | a running mesh task is queued again, a finished one without bounds is dropped, and any other one lands and releases the mesh it replaces |
| Rendering.PollAll | src/terrain/rendering/mod.rs:253-284 | the loop returns the still-running mesh tasks in order, the change flag and the released meshes, and leaves every tree with the mesh tasks landed |
| Rendering.HandleMeshTasks | src/terrain/rendering/mod.rs:239-289 | the queue becomes the unfinished mesh tasks in their original order; each tree holds the finished ones' meshes; the released meshes and the render event are exactly those the finished ones cause |
| Rendering.MeshVisibility.constructor | src/terrain/rendering/mod.rs:295 | the visibilities start as given |
| Rendering.HideOne | src/terrain/rendering/mod.rs:353-358 | only the mesh of block x is hidden, and only when x is not b and holds a mesh that can be looked up |
| Rendering.HideAll | src/terrain/rendering/mod.rs:352-359 | hiding keeps the set of looked-up entities |
| Rendering.HideAllPrefix | src/terrain/rendering/mod.rs:352-359 | hiding one more block extends the loop's result by that block |
| Rendering.HideAllExact | src/terrain/rendering/mod.rs:350-360 | a mesh is hidden exactly when some listed block other than b holds it; every other visibility is kept |
| Rendering.DescendantsInTree | src/terrain/rendering/mod.rs:352 | every descendant of a block in the tree is in the tree and below it |
| Rendering.ChildrenInTree | src/terrain/rendering/mod.rs:329-330 | every child of a block in the tree is in the tree |
| Rendering.AfterVisit | src/terrain/rendering/mod.rs:316-362 | a visit keeps the set of looked-up entities |
| Rendering.AfterVisits | src/terrain/rendering/mod.rs:315-363 | visits in turn keep the set of looked-up entities |
| Rendering.AfterVisitsJoin | src/terrain/rendering/mod.rs:315-363 | visiting two orders in turn is visiting their concatenation |
| Rendering.TooClose | src/terrain/rendering/mod.rs:321-333 | a block is too close only above level 0 and when each of its four children, one level down, is in the tree and holds a mesh |
| Rendering.Descend | src/terrain/rendering/mod.rs:318-348 | the walk stops at a block only when it holds a mesh that can be looked up, and always stops at such a block of level 0 |
| Rendering.VisitDescends | src/terrain/rendering/mod.rs:318-348 | a level-0 block is never too close; a block with no mesh to look up is descended into and changes nothing |
| Rendering.VisitShown | src/terrain/rendering/mod.rs:319-341 | a block with a mesh descends exactly when it is above level 0, near the camera and all four children are populated; it then hides its own mesh and changes nothing else |
| Rendering.VisitStops | src/terrain/rendering/mod.rs:335-360 | when not descending, every mesh held strictly below the block is hidden, the block's own mesh is inherited unless a lower block holds it too, and every other visibility is kept |
| Rendering.Visit | src/terrain/rendering/mod.rs:316-362 | the visitor returns the descend decision and leaves the visibilities `AfterVisit` gives |
| Rendering.HideBelow | src/terrain/rendering/mod.rs:350-360 | the loop over `descendants` hides exactly what `HideAll` hides |
| Rendering.HideOneBlock | src/terrain/rendering/mod.rs:353-358 | one turn of that loop hides what `HideOne` hides |
| Rendering.RuleAt | src/terrain/rendering/mod.rs:316-362 | the walk's descend rule at a tree block is the visitor's decision |
| Rendering.AfterVisitsSnoc | src/terrain/rendering/mod.rs:315-363 | visiting one more block applies that block's visit |
| Rendering.SelectBlock | src/terrain/rendering/mesh_tree.rs:144-151 | the recursive walk from b with the visitor visits exactly `WalkBlock` under the visitor's rule, and the visibilities are those visits applied in order |
| Rendering.SelectEach | src/terrain/rendering/mesh_tree.rs:155-158 | walking from each root in turn visits exactly `WalkEach`, with the visits applied in order |
| Rendering.SelectTree | src/terrain/rendering/mod.rs:315-363 | walking one tree visits exactly `walk` under the visitor's rule; the visibilities are its visits applied in order and keep their keys |
| Rendering.LevelsOf | src/terrain/rendering/mod.rs:315 | the levels of each tree, in query order, each well-formed when its tree is |
| Rendering.AfterTree | src/terrain/rendering/mod.rs:316-363 | a tree's walk keeps the set of looked-up entities |
| Rendering.AfterForest | src/terrain/rendering/mod.rs:315-364 | the walks of all trees keep the set of looked-up entities |
| Rendering.SelectMeshes | src/terrain/rendering/mod.rs:291-365 | with no single camera, or with no camera move or terrain render among the events, nothing changes; otherwise the visibilities are those of walking every tree in turn |

## Left out

- Bevy ECS plumbing is not modelled: commands, spawning and despawning, queries, resources, plugins, materials, transforms and `Assets<Mesh>`. Entities are opaque numbers. The despawned meshes of `handle_mesh_tasks` are returned as a list.
- The async task pool, `Arc<Mutex<...>>` and `block_on(poll_once)` are not modelled. A mesh task's result at its one poll this frame is an input `Outcome`, so the model covers any completion order.
- Mesh building is not modelled: `create_mesh`, heightmap meshes, normals and the sliced copy of the elevation. A mesh task records its block, range and stride.
- `update_parents`, `init_render_params`, the water system and the transform and material choices of `update_meshes` are not modelled. They only spawn entities or pick constants.
- Camera distance, the cutoff `block_size * 4 * 2^level` and the `powi` quality threshold are floating-point geometry. They become the predicate `near`; the stride of `block_quality` is modelled.
- Rendering.SelectMeshes: `set_vis`'s change detection is not modelled, so a visibility is written even when unchanged; reading the event queue is a sequence of events.
- Rendering.Visit: a mesh entity missing from the visibility query is modelled as the `e !in vis` case; Bevy's `warn!` is dropped.
- Rendering.PollTask: the "could not compute Aabb" case is the `NoBounds` outcome, because the mesh's geometry is not modelled.
- f32 arithmetic becomes exact `real` arithmetic, with no rounding, NaN or infinity.
- Edit.Propagate: `sqrt` of the squared distance is the parameter `dist`, about which nothing is assumed.
- MeshTrees.CeilLog2: f32 `log2().ceil()` becomes an exact integer ceiling log; the two agree where f32 is exact.
- HashMap iteration order over layers is the input sequence `layers`. The query order over mesh trees is the order of the `trees` sequence.
- Rtin.BuildErrorMap: requires at least 3 rows, because a 2-row patch makes `last_level_index = 0 - 1` underflow in `usize`. It also requires at least as many columns as rows, as every index it builds is at most the row tile size. It proves non-negativity and the per-step maximum (Rtin.AccumulateError), not that each stored error bounds the whole subtree below it.
- Rtin.TriangulateRtin: requires the tile size (rows - 1) to be a power of two. The source recurses on other sizes too, but its triangles then stop being right isosceles, and the model's termination measure needs that shape.
- Rtin.UnsplitStaysUnsplit is a per-triangle statement about the split decision; for the whole mesh the model proves only the count form, Rtin.RtinMeshMonotone.
- Rtin.TriangulateBasic: requires at least one row and one column. On an empty view the source's `h - 1` or `w - 1` underflows in `usize` (src/terrain/rtin.rs:14), which is a panic the model does not reproduce.
- Ranges.ExpandTo: the in-place update of `&mut self` is modelled as a method returning the new rectangle.
- Ranges.RestrictRanges: the two `&mut Range<isize>` arguments become two returned spans.
- MeshTrees.MeshTree.Walk: the visitor closure becomes a pure decision `BlockId -> bool`. `select_meshes` is modelled as a method whose recursion applies each visit to the visibilities in walk order (Rendering.SelectBlock).
- `get_entry`, `valid`, `populated` and `parent` are modelled as functions without contracts (MeshTrees.MeshTree.GetEntry, ValidBlock, Populated, MeshTrees.Parent). Their properties are stated by MeshTrees.MeshTree.SetMesh and MeshTrees.ChildrenAreParentPreimage.
- The `TerrainData` resource is not part of this model. Grids are kept per layer in `Terrain`, and `set_elevation` takes the layer it writes.
- `Terrain` fields `bounds`, `resolution` and `mesh_entity` are not modelled; `coord_to_offset` takes the bounds' minimum and size[0] as parameters.

## Findings

| source | as written | input that shows it | evidently intended | confidence | as-written member | corrected member |
|---|---|---|---|---|---|---|
| src/terrain/rendering/mod.rs:151-152 | `blocks_needed` is sorted by level only and then `dedup`ed, which drops adjacent repeats only | picked blocks (0, 0), (0, 2), (1, 0) on a terrain of 2 x 3 blocks (two tree levels) give block (0, 0) of level 1 at positions 0 and 2, so its mesh is queued twice | each needed block is queued once | not executed | Rendering.FrameQueuesRepeatTwice | Rendering.BlocksNeededFacts |

The operations keep the code's behaviour: `Rendering.UpdateMeshes` queues
from the `dedup`ed list, repeats included. The corrected list
`Rendering.BlocksNeeded` drops every repeat; `Rendering.NeededListsAgree`
proves it holds the same blocks, and `Rendering.BlocksNeededFacts` that it
holds each of them once.
