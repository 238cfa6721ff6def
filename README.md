# Flow-field navigation, modelled in Dafny

This project models the flow-field pathfinding engine of a small Bevy game
(`src/flowfield/mod.rs`). The play area is cut into 5×5-pixel cells. Cells hit by a
layer-0 wall collider become walls. A FIFO wavefront of "heat" grows from the goal
cells through the non-wall cells. Each cell then gets the direction of its
lowest positive-heat neighbour among six offsets.

The project has five modules, in the order of the data flow:

- `Grid` (`grid.dfy`) covers cell coordinates and `in_bound`, and `neighbors` with its
  saturating edges. It also has the edge weight `GridPos::distance`, `div_ceil` sizing,
  `trans_to_grid`, and grids as `seq<seq<_>>`.
- `Walls` (`walls.dfy`) is the rasterisation loops of `build`. `RasterizeWalls` is proved
  to produce exactly `WallCells`.
- `Heat` (`heat.dfy`) seeds the sources, then runs the `while !queue.is_empty()` loop.
  The inner loop walks over the `HashSet` of neighbours, and `visited.insert` guards
  each push. The loop is proved against an invariant (`Wavefront`) that tracks four
  things:
  - every cell pushed is pushed once;
  - every reached cell has a path from a source (a walk that visits no cell twice)
    whose cost is its heat, and no cell on that path is hotter than its end;
  - every cell that has left the queue has all its non-wall neighbours visited;
  - the number of dequeues is bounded by `size_x * size_y`.
- `Flow` (`flow.dfy`) holds the four nested flow loops. Each cell's offset is specified
  by `IsBestOffset`. An offset is eligible when `i != j`, its target is in bounds and
  the target's heat is `> 0`. The chosen offset is the eligible offset of least heat
  below `f32::MAX` (the initial `min_heat`), the first in `i`-outer/`j`-inner order
  among equals; it is zero when there is no such offset.
- `Navigation` (`navigation.dfy`) is the `FlowField` struct as a class.
  - It holds the window size, the grid size, the heat grid and the flow grid.
  - `new` is the class constructor, and `reset` is a method.
  - `build` composes the three phases, and its postcondition states the combined
    outcome.

Heat is a `real`, and the sentinel `-1` is kept, as in the source. The diagonal weight
is the exact value of `sqrt(2.0)` as an `f32`, `1.41421353816986083984375`.
`f32::MAX` is written out exactly. Each flow cell holds the chosen integer offset
`(i, j)`, not the normalised `Vec2`.

Three inputs are parameters:
- the sources, a `set<GridPos>`;
- the colliders, a sequence of `(Collider, Transform)` pairs;
- the collision library's intersection test, a function parameter `intersects`.

The order in which a `HashSet` is iterated is not fixed. Sources and neighbours are
therefore picked with `:|` from sets, and every result holds for every order.

In several places the code does something other than what a flow field is meant to
do; the model follows the code:
- A point with a negative coordinate maps to column (or row) 0, not to "out of bounds".
  The `f32 as usize` cast saturates at 0 (see `Grid.Truncate`).
- A wall cell that is not a source keeps the sentinel heat. The flow loops still give it
  a nonzero offset when, among the six examined offsets, one leads to a reached cell
  with positive heat. `Flow.UnreachedFlowIsZero` therefore covers only non-wall cells.
- A source cell is never a flow target, because its heat is 0. The source cell itself
  gets an offset toward its lowest positive-heat neighbour among the six examined
  offsets, not the zero vector.
- `new`, `reset` and `build` accept a window of width or height 0 and give an empty
  grid; they do not reject it. (`trans_to_grid` divides by the window size, so it
  panics on such a window; see "Left out".)
- The wall test `block.overlap(trans, col, &block_trans)` passes the probe block the
  collider's transform and the collider the probe's transform. So the probe cuboid is
  placed at the collider's position and rotation, and the collider's shape is placed,
  unrotated, at `(5x, 5y)`. For a rotated or off-centre wall this is a different test
  from "the wall overlaps the cell" (`Walls.BlockHit` keeps the order as written).
- Only the six offsets with `i != j` are examined, exactly as written.
- A cell that is already visited is relaxed but not re-enqueued. So a heat is the cost of
  *some* path from a source (`HeatIsWalkCost`), not of the shortest one. The path never
  repeats a cell: a strictly lowering relaxation cannot target a cell on the dequeued
  cell's own path, because every cell on that path is at most as hot as the dequeued cell.

## Model

| member | source | states |
|---|---|---|
| Grid.CeilDiv | src/flowfield/mod.rs:49-50 | `div_ceil`: the result times the block size covers `n`, one block fewer does not, and the result is 0 exactly for `n = 0` |
| Grid.InBound | src/flowfield/mod.rs:185-187 | `in_bound`: both coordinates below the grid size (a predicate; `Grid.Neighbors` and `Grid.TransToGrid` state their results through it) |
| Grid.SatSub1 | src/flowfield/mod.rs:191-198 | `saturating_sub(1)`: at most one less than `n` and never more, and equal to `n` exactly when `n` is 0 |
| Grid.Candidates | src/flowfield/mod.rs:190-199 | the contract states only that there are eight candidates; their order, as in the source, is in the body, and `Grid.CandidatesAdjacent` and `Grid.Neighbors` state what they mean |
| Grid.CandidatesAdjacent | src/flowfield/mod.rs:190-199 | each of the eight candidates is at most one step from `pos` in each coordinate, saturated or not |
| Grid.Neighbors | src/flowfield/mod.rs:189-206 | a cell is a result exactly when it is in bounds, differs from `pos` by at most one in each coordinate, and is not `pos` itself unless `pos` lies on the x = 0 or y = 0 edge; at most 8 results |
| Grid.Distance | src/flowfield/mod.rs:24-26 | for cells at most one step apart: 0 exactly for the same cell, otherwise between 1 and 2 |
| Grid.DistanceIsEuclidean | src/flowfield/mod.rs:24-26 | the weight's square equals the squared Euclidean distance of the two cells, to within 1e-6 |
| Grid.Truncate | src/flowfield/mod.rs:210-211 | `f32 as usize`: 0 for non-positive values, otherwise the floor |
| Grid.Scale | src/flowfield/mod.rs:210-211 | `size * p / window` in integer division: the result times the window brackets `size * p` from below, within one window |
| Grid.AxisCell | src/flowfield/mod.rs:210-211 | one axis of `size * p / window`: the index brackets the scaled coordinate, and it is below `size` exactly when the point is below the window edge |
| Grid.TransToGrid | src/flowfield/mod.rs:208-219 | a `Some` result is in bounds; with a nonempty grid the result is `Some` exactly when both coordinates are below the window size; the cell brackets `size * px / window` on each axis |
| Grid.Filled | src/flowfield/mod.rs:52-53 | `vec![vec![v; size_y]; size_x]`: `size_x` rows of `size_y` entries, all equal to `v` |
| Grid.CellSetBound | src/flowfield/mod.rs:117 | a set of in-bounds cells has at most `size_x * size_y` members |
| Walls.Overlap | src/physics/collider.rs:35-53 | `Collider::overlap`: the intersection test applied to the receiver's shape at `self_trans` and the other shape at `other_trans`, in that order (a function of the abstract test) |
| Walls.Block | src/flowfield/mod.rs:91-99 | the probe collider: a cuboid whose extents are one block, 5 by 5, on layer 0 |
| Walls.BlockTransform | src/flowfield/mod.rs:100-107 | the probe transform of cell `(x, y)`: translation `(5x, 5y)`, no rotation |
| Walls.BlockHit | src/flowfield/mod.rs:108 | the test as written: the probe shape at the collider's transform against the collider's shape at the probe transform (a predicate) |
| Walls.WallCells | src/flowfield/mod.rs:87-114 | a cell is a wall exactly when it is in bounds and `BlockHit` holds for it and some collider of layer 0: the probe cuboid placed at that collider's transform intersects the collider's shape placed, unrotated, at `(5x, 5y)` |
| Walls.RasterizeWalls | src/flowfield/mod.rs:85-114 | the loops over colliders, `x` and `y` build exactly `WallCells`, with the transforms in the order the source passes them |
| Walls.OtherLayersIgnored | src/flowfield/mod.rs:88 | adding a collider of another layer leaves the wall set unchanged |
| Heat.WalkExtend | src/flowfield/mod.rs:136-141 | a walk extended by a non-wall neighbour of its end is a walk, and its cost grows by that step's `distance` |
| Heat.Relaxed | src/flowfield/mod.rs:139-148 | the relaxation rule for one cell: a newly visited neighbour gets the dequeued cell's heat plus the step's weight; a visited neighbour for which that value is strictly smaller takes it; a visited cell's heat never grows; the result is the old heat or that new value |
| Heat.VisitNeighbor | src/flowfield/mod.rs:137-148 | `visited.insert` reports a new cell exactly when the cell was not visited; a new cell gets the current heat plus `d` and is pushed; a visited cell is lowered only when that is strictly smaller; no other cell changes |
| Heat.ExpandCell | src/flowfield/mod.rs:130-149 | after the loop over the neighbour set: every neighbour is visited; the cells pushed are exactly the neighbours not visited before, each once; every cell's heat is the relaxed value |
| Heat.RelaxedEffect | src/flowfield/mod.rs:139-148 | after an expansion, no visited cell's heat increases, and every changed heat is a neighbour's heat equal to the dequeued cell's heat plus `distance` |
| Heat.SeedSources | src/flowfield/mod.rs:119-124 | every source gets heat 0, is visited and is queued once; no other cell gets a heat |
| Heat.HeadReached | src/flowfield/mod.rs:127-128 | the dequeued cell is the next recorded push, is in bounds and has a heat `>= 0`, and the number of earlier dequeues is below `size_x * size_y` |
| Heat.RunWavefront | src/flowfield/mod.rs:127-150 | the wavefront loop ends with an empty queue, and its invariant holds |
| Heat.WavefrontDone | src/flowfield/mod.rs:127-150 | at the end: sources have heat 0; every heat is -1 or `>= 0`; non-source walls keep -1; each cell was pushed at most once and there were at most `size_x * size_y` dequeues |
| Heat.ClosedWhenDone | src/flowfield/mod.rs:130-148 | at the end, every non-wall neighbour of a reached cell is reached |
| Heat.WitnessedWhenDone | src/flowfield/mod.rs:136-148 | at the end, every reached cell's heat is the cost of some path from a source to it, a walk that visits no cell twice |
| Heat.PropagateHeat | src/flowfield/mod.rs:116-150 | the whole heat phase: sources have heat 0; every heat is -1 or `>= 0`; non-source walls keep -1; the field is closed under non-wall neighbours; heats are costs of paths that repeat no cell; pushes are distinct and at most `size_x * size_y`; a cell has a heat exactly when it is reachable from a source through non-wall neighbours |
| Heat.WalkEndReached | src/flowfield/mod.rs:130-148 | in a closed heat field with reached sources, every walk from a source ends at a reached cell |
| Heat.TwoCellPathCost | src/flowfield/mod.rs:137-142 | on a 2 by 1 grid seeded at `(0, 0)` without walls, a heat field whose heats are path costs gives `(1, 0)` heat 1, the value the first relaxation writes |
| Heat.ReachedIffReachable | src/flowfield/mod.rs:130-148 | in such a field, a cell has a heat exactly when it is reachable |
| Flow.Eligible | src/flowfield/mod.rs:159-168 | an offset the loops may pick: components in -1..1 and unequal, the target in bounds, its heat `> 0` (a predicate) |
| Flow.IsBestOffset | src/flowfield/mod.rs:157-178 | the outcome of the offset loops: zero when no eligible offset's heat is below `f32::MAX`, else the eligible offset of least heat, the first in `i`-outer/`j`-inner order among equals (a predicate; `Flow.BestOffsetUnique` and `Flow.ZeroFlowIff` are about it) |
| Flow.CellFlow | src/flowfield/mod.rs:155-178 | the offset loops yield the best offset of the cell, which is zero or has `i != j` with both components in -1..1 |
| Flow.ScanRow | src/flowfield/mod.rs:158-177 | one `j` loop extends the best offset from the offsets before `(i, -1)` to those before `(i + 1, -1)` |
| Flow.CellStep | src/flowfield/mod.rs:159-175 | one examined offset keeps the loop's best-so-far property |
| Flow.DeriveFlow | src/flowfield/mod.rs:153-182 | the flow grid has the grid's shape, and every cell holds its best offset |
| Flow.BestOffsetUnique | src/flowfield/mod.rs:155-178 | the best offset is determined by the heat grid |
| Flow.ZeroFlowIff | src/flowfield/mod.rs:155-178 | the flow is zero exactly when no eligible offset's heat is below `f32::MAX`; a nonzero flow points at an eligible target with heat `> 0` |
| Flow.SourceNeverTarget | src/flowfield/mod.rs:168 | a cell with heat 0, such as a source, is never the target of a flow |
| Flow.DiagonalOneOneIgnored | src/flowfield/mod.rs:157-159 | on a 2 by 2 grid whose only positive heat is at `(1, 1)`, cell `(0, 0)` gets zero flow, because `(1, 1)` has `i == j` |
| Flow.LeastHeatNotFirst | src/flowfield/mod.rs:168-173 | in a 3 by 1 strip with heats 5, -1, 1, the middle cell's flow is `(1, 0)`, the least-heat target, not the first eligible `(-1, 0)` |
| Flow.UnreachedFlowIsZero | src/flowfield/mod.rs:157-178 | in a closed heat field, a non-wall cell without heat has zero flow |
| Navigation.FlowField.constructor | src/flowfield/mod.rs:48-63 | a new field stores the window, sizes the grid by `div_ceil(5)`, and fills the heat with -1 and the flow with zero |
| Navigation.FlowField.Reset | src/flowfield/mod.rs:65-74 | the field is as a new one for the given window |
| Navigation.FlowField.Build | src/flowfield/mod.rs:77-183 | the window and sizes are unchanged; for `WallCells`: sources have heat 0, every heat is -1 or `>= 0`, non-source walls keep -1, the field is closed under non-wall neighbours, a cell has a heat exactly when it is reachable, and heats are costs of paths that repeat no cell (the push record stays inside the heat phase); every cell holds its best offset; every non-wall cell without heat has zero flow |
| Navigation.StartSourceInBound | src/flowfield/mod.rs:234-235 | the start source `(size_x / 2, size_y / 2)` is in bounds exactly when the window is nonempty |

## Left out

- `Grid.Distance`: is defined only for cells at most one step apart, the only pairs `build`
  measures. The general Euclidean distance needs a square root, which is not modelled.
- f32 arithmetic: heats are exact reals. The rounding of the additions of `heat + d` and
  of `Vec2::distance` is not modelled.
- `normalize_or_zero` (src/flowfield/mod.rs:179): the flow grid stores the chosen
  integer offset instead of the unit `Vec2`.
- `Grid.TransToGrid`: requires positive window sizes. The source divides by
  `window_width` and `window_height` and panics when either is 0; the model does not
  represent that panic. The product `size_x * (point.x as usize)` is unbounded in
  `Grid.Scale`, so the `usize` overflow (a panic in debug builds, wrap-around in
  release builds) for very large coordinates is not modelled.
- `Grid.Truncate`: does not model the saturation of `f32 as usize` at `usize::MAX`, or
  NaN.
- `x as i32 + i` (src/flowfield/mod.rs:160-161) is modelled without 32-bit wrap-around.
- The collision library's intersection test (`proximity` with margin 0, compared to
  `Intersecting`) is an abstract function parameter. `Walls.Overlap` only passes it
  the two shapes and transforms; the conversion of a `Transform` rotation to an angle
  is not modelled. The rest of `src/physics/collider.rs` is not part of this model.
- `initialize_flow_field` and `move_in_flow_field` (src/flowfield/mod.rs:222-319) are
  ECS plumbing and are not modelled: window queries, `Commands`, logging, the
  commented-out rendering and the per-frame velocity update. Only the start source's
  bound is stated (`Navigation.StartSourceInBound`).
- The out-of-bounds panic of `heat_grid[pos.x][pos.y]` on a bad source is not modelled
  as an error result. `Build` requires in-bounds sources, as its indexing does.
- `HashSet` hashing and capacity are not modelled. Sets are mathematical sets, and
  iteration picks members in any order.
- Idempotence of `build` is not stated: the heat it computes depends on the `HashSet`
  iteration order.
- The Bevy `Query` over colliders is a sequence of `(Collider, Transform)` pairs.
- `Transform` is reduced to its planar translation and rotation angle.
- The trait conversions `From<(usize, usize)>` and `Into<GridPos>` are not modelled.
  Sources are given as `GridPos` directly.
