# Grid movement for a turn-based tactics game, in Dafny

This project models the movement core of a small tactics game in Dafny and
proves properties of the model. The game shows a unit on a 10 by 10 grid of
terrain cells. From the unit's cell it computes every cell reachable within a
movement budget and the cheapest route to each. It outlines the edge of that
region and draws the route to the cell under the mouse. It also reads the
wall layout from a text file and converts between pixels and grid cells.

The modules follow the program's files:

- `Wrappers` (`wrappers.dfy`): `Option` and `Result`.
- `Terrains` (`terrain.dfy`): the terrain kinds and their movement cost
  (`src/terrain.rs`).
- `Grid` (`grid.dfy`):
  - cells, directions, `is_point_valid` (as `IsPointValid`), `relative_adj_dir`;
  - the two neighbour scans `valid_neighbor_coords` and `neighbor_costs`.
- `Frontier` (`frontier.dfy`): the `DaState` order and the binary heap. The
  heap is modelled as the sequence of its entries with extract-max.
- `Engine` (`engine.dfy`): `compute_path_costs`, the bounded best-first search.
  - It keeps the source's handling of stale heap entries: every pop re-expands
    its cell. Because a move costs what the entered cell costs, none ever
    arises: cells leave the heap in order of cost, each exactly once.
  - The loop is proved to terminate through a finite set of tokens, one per
    unit of cost a grid cell can still lose.
- `PathServices` (`paths.dfy`): `get_path` and
  `find_boundary_neighbor_directions`.
- `Consolidation` (`consolidate.dfy`):
  - `consolidate_path`;
  - the inverse drawing function `Expand`, which redraws a consolidated path
    cell by cell.
- `Optimality` (`optimality.dfy`): what the search results mean for walks on
  the grid. A path read back from the search is a cheapest walk, and
  consolidating it loses nothing.
- `DataParser` (`dataparser.dfy`): the wall-file parser over a sequence of read
  lines, its error type and the conversion to the game's error type.
- `MainStateGeometry` (`geometry.dfy`): the layout-parameterised pixel/grid
  conversions of the main state, and `cpath_to_segments` on the integer pixel
  values before they are cast to floating point.
- `ScreenConstants` (`screen.dfy`): the constants of `src/main.rs` and its free
  conversion functions.

The engine is generic over the movement cost, as a function
`Terrain -> nat`. The repository's own cost function returns 1 for every
terrain. Only the lemmas that walk backpointer chains need the cost to be
positive, and they say so in their preconditions.

## Model

| member | source | states |
|---|---|---|
| Terrains.Cost | src/terrain.rs:11-13 | every terrain costs a positive amount to enter |
| Grid.RelativeAdjDir | src/pathfinding.rs:208-230 | for 4-adjacent cells, the returned direction leads from `from` to `to`: y−1 is N, y+1 is S, x−1 is W, x+1 is E. Adjacency is required because the source panics otherwise |
| Grid.RelativeAdjDirInverse | src/pathfinding.rs:208-230 | stepping in direction `d` and asking for the direction back gives `d` |
| Grid.IsPointValid | src/pathfinding.rs:43-45 | a predicate without a contract of its own: a cell is in the grid when x < `max_w` and y < `max_h` |
| Grid.ValidPointInTerrain | src/pathfinding.rs:43-45 | on a terrain matrix that covers the grid, every point `is_point_valid` accepts can be looked up, which is what the terrain lookups after each check rely on |
| Grid.ValidNeighborCoords | src/pathfinding.rs:83-102 | the result holds only in-grid 4-neighbours, holds every one of them, and lists them in W, E, N, S order, so with no duplicates |
| Grid.InGridInScanOrder | src/pathfinding.rs:89-101 | the four conditional pushes, in order, give exactly the in-grid neighbours in scan order |
| Grid.AppendInGrid | src/pathfinding.rs:89-101 | each conditional push extends a sound, complete, ordered list of the directions scanned so far by the next direction |
| Grid.NeighborCosts | src/pathfinding.rs:48-80 | the result lists every legal move (adjacent, in the grid, not a wall) and only those. Each is paired with the cost of the cell entered, in W, E, N, S order |
| Grid.StepsInScanOrder | src/pathfinding.rs:55-78 | the four guarded pushes, in order, give exactly the legal moves with their entry costs, in scan order |
| Grid.AppendStep | src/pathfinding.rs:55-78 | each guarded push extends the list of legal moves found so far by the next direction |
| Frontier.Cmp | src/pathfinding.rs:34-40 | a smaller cost compares Greater, a larger one Less; equal costs compare the cells lexicographically on (x, y) |
| Frontier.CmpFlip | src/pathfinding.rs:34-40 | the order is antisymmetric: swapping the arguments flips the result |
| Frontier.CmpEqualIff | src/pathfinding.rs:16-41 | two entries compare Equal exactly when they are identical, so the order is total |
| Frontier.CmpTransitive | src/pathfinding.rs:34-40 | the order is transitive |
| Frontier.MaxIndex | src/pathfinding.rs:145 | the index of an entry that no entry of the heap exceeds |
| Frontier.Pop | src/pathfinding.rs:145 | pop returns an entry of the heap that no entry exceeds, so one of least cost. What remains is the heap with one copy of that entry removed |
| Engine.TokensShrink | src/pathfinding.rs:151-156 | lowering a grid cell's recorded cost removes termination tokens |
| Engine.PopStep | src/pathfinding.rs:145-148 | popping an entry and recording its cell as reachable and on the boundary, without its backpointer, keeps the search invariants |
| Engine.RelaxStep | src/pathfinding.rs:150-157 | recording a strictly cheaper in-budget cost with its backpointer, and pushing it, keeps the search invariants |
| Engine.RelaxMoves | src/pathfinding.rs:149-159 | relaxing all legal moves out of the popped cell keeps the invariants and settles that cell. Either the token set shrinks or the frontier is unchanged, which is what makes the loop finite |
| Engine.PopOrdered | src/pathfinding.rs:144-148 | popping the cheapest entry reaches a cell not reached before, which costs at least as much as every reached cell. Every remaining entry still carries the current cost of an unreached cell, once, and the boundary is still exactly the reached cells that no reached cell points back to |
| Engine.PopLeaves | src/pathfinding.rs:146-148 | removing the popped cell's backpointer from the boundary and adding the cell keeps the boundary equal to the reached cells without a reached child |
| Engine.NoLowering | src/pathfinding.rs:150-154 | a move out of the cell just popped never lowers a cost already recorded, so the update branch only ever records new cells |
| Engine.RelaxOrdered | src/pathfinding.rs:150-157 | recording a new cell through the cell just popped, with an exact backpointer, keeps the order of the search and leaves the boundary as it is |
| Engine.Finish | src/pathfinding.rs:144-161 | the invariants with an empty frontier give the guarantees of `Explored` |
| Engine.ComputePathCosts | src/pathfinding.rs:104-162 | states `Explored` (listed below) |
| PathServices.Reversed | src/pathfinding.rs:179 | the reversal has the same length, with element i taken from position n−1−i |
| PathServices.GetPath | src/pathfinding.rs:165-181 | with `dest` not a key: `[]`. With a self-pointing `dest`: `[dest]`. Otherwise a backpointer chain that ends at `dest` and starts where the walk stops; every later cell's backpointer is its predecessor |
| PathServices.BackChainUnique | src/pathfinding.rs:165-181 | two backpointer chains that end at the same cell are equal, which pins the result of `get_path` down |
| PathServices.GetPathScenarios | src/pathfinding.rs:261-289 | on the map (2, 1) → (1, 1) → (0, 0) → (0, 0), the paths to (0, 0), (1, 1) and (2, 1) are `[(0, 0)]`, `[(0, 0), (1, 1)]` and `[(0, 0), (1, 1), (2, 1)]`, as the three tests assert |
| PathServices.RemoveItem | src/pathfinding.rs:249 | removing an item takes exactly one occurrence of it out of the multiset of directions |
| PathServices.RemoveItemInOrder | src/pathfinding.rs:249 | on a list in N, S, E, W order, removal keeps the order and leaves exactly the other directions |
| PathServices.OpenSides | src/pathfinding.rs:244-253 | the sides kept for a cell are exactly those whose neighbour is off the grid or not reachable, in N, S, E, W order |
| PathServices.FindBoundaryNeighborDirections | src/pathfinding.rs:236-255 | one entry per boundary cell: every entry is a distinct boundary cell with its open sides, and every boundary cell appears |
| Consolidation.TurnIndices | src/pathfinding.rs:190-199 | the interior indices where the path turns (the x-equality of the step in differs from the step out), complete and strictly increasing |
| Consolidation.CornersAtTurns | src/pathfinding.rs:190-199 | the corner points pushed by the loop are exactly the path at its turn indices, in order |
| Consolidation.Consolidated | src/pathfinding.rs:185-204 | the result is no longer than the path. A non-empty path's result starts at its first point and ends at its last |
| Consolidation.ConsolidatePath | src/pathfinding.rs:185-204 | the loop over windows, carrying `prev_horizontal`, computes `Consolidated` |
| Consolidation.RunSegment | src/pathfinding.rs:185-204 | a straight run of unit steps lies on one row or column and is exactly the segment between its ends |
| Consolidation.ExpandPrefix | src/pathfinding.rs:185-204 | for a unit-step path without reversals, the consolidated prefix up to each index is aligned and redraws exactly that prefix |
| Consolidation.AxisRunInLine | src/pathfinding.rs:190-199 | a run of unit steps that all keep, or all change, the x coordinate ends on the column, or the row, where it started |
| Consolidation.AlignedPrefix | src/pathfinding.rs:189-199 | for any unit-step path, the points kept after each window are aligned. The path runs along one axis from the last kept point onwards |
| Consolidation.ConsolidatedAligned | src/pathfinding.rs:185-204 | for any path of unit steps, consecutive consolidated points share a row or a column |
| Consolidation.ConsolidatedRoundTrip | src/pathfinding.rs:183-204 | for a unit-step path that never steps straight back, consecutive consolidated points share a row or column. Redrawing them cell by cell gives back the path |
| Consolidation.ConsolidatedStraightScenarios | src/pathfinding.rs:291-317 | the empty, one-point, two-point and straight three-point tests |
| Consolidation.ConsolidatedOneTurnScenario | src/pathfinding.rs:319-324 | the one-turn test |
| Consolidation.ConsolidatedTwoTurnsScenario | src/pathfinding.rs:326-341 | the two-turn, ten-point test |
| Optimality.NoCheaperWalk | src/pathfinding.rs:104-120 | every walk of legal moves from the source whose cost to step k stays within the budget has its cell k recorded as reachable. The recorded cost is at most that walk's cost |
| Optimality.ChainCost | src/pathfinding.rs:134-158 | a backpointer chain from the search starts at the source, is a walk of legal moves, and the walk's cost to each cell is that cell's recorded cost |
| Optimality.ChainIsShortestWalk | src/pathfinding.rs:104-120 | the path read back to a cell is a walk from the source whose cost is the recorded cost, within the budget. No walk within the budget to the same cell is cheaper |
| Optimality.CostsRankBackpointers | src/pathfinding.rs:150-157 | with positive costs, the recorded cost strictly decreases along every backpointer, so `get_path` terminates on the search's output |
| Optimality.ChainDrawsBack | src/pathfinding.rs:165-204 | a path read back from the search moves one cell at a time and never steps straight back. Consolidating it and redrawing gives the path again |
| Optimality.RouteTo | src/pathfinding.rs:121-204 | the search with the game's tile costs, `get_path` and `consolidate_path` in sequence. A cell out of range gets no path, the source the one-cell path, and any other reached cell a cheapest in-budget walk from the source whose consolidated form is aligned and draws that walk back |
| DataParser.ToGameError | src/dataparser.rs:23-30 | invalid wall data becomes a resource-load error carrying the path. An I/O error becomes one carrying the error's message |
| DataParser.FirstError | src/dataparser.rs:32-55 | no error exactly when no line from the given index on has an error |
| DataParser.FirstErrorIs | src/dataparser.rs:38-51 | the error reported is that of the first line with an error |
| DataParser.ParseWalls | src/dataparser.rs:32-55 | `Ok` exactly when no line has an error; otherwise the first line's error. Possible errors: a line index ≥ `max_h`, a read failure, a character at index ≥ `max_w`, any character other than '0'/'1'. On `Ok`: `max_w` columns of `max_h` cells, a wall exactly where a '1' was read at (character index, line index), cells of short or missing lines open |
| DataParser.FixtureWalls | src/dataparser.rs:69-90 | the 4 by 4 test file parses without error with walls exactly at (2, 1) and (1, 2) |
| MainStateGeometry.GridCellDim | src/mainstate.rs:67 | the cell size is the largest at which `n` cells fit between the vertical paddings |
| MainStateGeometry.NewLayout | src/mainstate.rs:42-72 | the layout keeps the window size. Ten cells fit between the vertical paddings with less than one cell to spare. The layout is usable (paddings fit, cells non-empty) exactly when the window is at least 270 wide and 70 high |
| MainStateGeometry.NewLayoutCellDim | src/mainstate.rs:42-72 | an 800-pixel-high window gives 74-pixel cells |
| MainStateGeometry.ScreenToGrid | src/mainstate.rs:90-103 | `None` exactly when the pixel is left of `hpad`, right of `width − hpad`, above `vpad` or below `height − vpad`. Otherwise the cell whose span of `dim` pixels after the padding holds the pixel |
| MainStateGeometry.GridToScreen | src/mainstate.rs:105-113 | the corner pixel lies at or after the start of the cell's span, and inside the span whenever half the grid line is narrower than a cell |
| MainStateGeometry.GridToScreenCenter | src/mainstate.rs:115-122 | the centre pixel lies at or after the corner pixel, and inside the cell's span whenever cells are non-empty |
| MainStateGeometry.ScreenRoundTrip | src/mainstate.rs:91-122 | for a cell whose centre is inside the padded area, converting its corner pixel or its centre pixel back selects that cell |
| MainStateGeometry.LegsAt | src/mainstate.rs:142-161 | the loop over windows pushes two points per interior point: the approach point at 2j−2, the centre at 2j−1 |
| MainStateGeometry.CpathToSegments | src/mainstate.rs:128-168 | fewer than two points: their centres. Otherwise 2n−2 points: first the centre of the first point, last the centre of the last. Each interior point j gives its approach point at 2j−1, offset from its centre by half the path line width along the direction of travel, and its centre at 2j |
| MainStateGeometry.ApproachBeyond | src/mainstate.rs:146-161 | on a row or column, the approach point lies on the far side of the cell's centre, seen from the previous point |
| MainStateGeometry.SegmentsAt | src/mainstate.rs:135-168 | leg j of the result is drawn from the centre of point j to the approach point of point j+1, or, for the last leg, to the last centre |
| MainStateGeometry.SegmentsDrawLegs | src/mainstate.rs:124-168 | taken in pairs, the points draw one axis-parallel segment per leg of an aligned consolidated path. Each segment starts at the centre of point j and covers the centre of point j+1 |
| MainStateGeometry.CenterMonotone | src/mainstate.rs:108-122 | cell centres keep the order of cell coordinates |
| ScreenConstants.CellDimIs74 | src/main.rs:24-32 | `GRID_CELL_DIM` is 74, the same formula as the main state's, and ten cells exactly fill the padded width and height |
| ScreenConstants.ScreenToGridCoord | src/main.rs:85-91 | `None` exactly for x < 270, x > 1010, y < 30 or y > 770. Otherwise the cell whose 74-pixel span holds the pixel |
| ScreenConstants.GridToScreenCoord | src/main.rs:93-97 | the corner pixel lies strictly inside the cell's 74-pixel span, past the grid line, on both axes |
| ScreenConstants.ScreenIsNewLayout | src/main.rs:24-32 | the constants give the same layout as a main state created for the 1280 by 800 window |
| ScreenConstants.AgreesWithLayout | src/main.rs:85-97 | the free functions agree with the main state's methods for the 1280 by 800 window |
| ScreenConstants.GridRoundTrip | src/main.rs:85-97 | for every cell of the 10 by 10 grid, converting its corner pixel back gives the cell |
| ScreenConstants.FarEdgeLeavesGrid | src/main.rs:85-91 | the pixel (1010, 770) on the far grid lines gives cell (10, 10), which is outside the grid |
| ScreenConstants.ScreenToGridCell | src/main.rs:85-91 | the corrected conversion returns a cell exactly inside the half-open area [270, 1010) × [30, 770), always a cell of the grid, and then agrees with the original |
| ScreenConstants.GridCellRoundTrip | src/main.rs:85-97 | the corrected conversion still selects every cell from its corner pixel |

`Explored`, the postcondition of `Engine.ComputePathCosts`, says:

- the source is its own backpointer and costs 0;
- the keys of the backpointer map, the keys of the cost map and the reachable
  set are the same set;
- the boundary is a subset of the reachable set, and a reachable cell is on
  the boundary exactly when no other reached cell has its backpointer there:
  the boundary is the set of leaves of the backpointer tree;
- no cost exceeds the budget;
- every other key's backpointer is a recorded cell one legal move away, and
  the key's cost is exactly the backpointer's cost plus the cost of entering
  the key;
- no legal move within the budget can lower any recorded cost.

## Left out

- Rendering, the event loop, fonts, sprites, mouse events, `MainState::new`,
  `draw_grid`, `draw` and `main`: these are drawing and I/O through a graphics
  library (src/main.rs, src/mainstate.rs:31-88).
- The wall sprite loops in both `new` functions are left out: they only add
  sprites.
- `konrad_tick`, the sprite animation counter: it is floating-point
  arithmetic.
- Opening the wall file (`parse_walls`, src/dataparser.rs:58-62): the parser is
  modelled over the sequence of lines the reader yields. A read failure is an
  `IoFailure` line carrying the message `to_string` would give.
- `GameError`: only the variant this conversion produces is modelled.
- Floating point: the `as f32` casts of `cpath_to_segments` and the `tuple_as!`
  macro (src/utils.rs) are left out. Pixel values are the integers before the
  cast.
- Machine integers:
  - the u32 arithmetic of cells, costs and pixels is modelled with unbounded
    naturals, so overflow is not modelled;
  - the i32 casts of `relative_adj_dir` are modelled as exact subtraction;
  - `x - path_line_width / 2` in `cpath_to_segments` is computed as an
    integer, where u32 would underflow below zero.
- MainStateGeometry.GridCellDim requires the paddings to fit in the window
  height and at least one cell. MainStateGeometry.NewLayout requires a window
  at least 60 pixels high. Otherwise the u32 subtraction underflows, or the
  division by zero panics.
- MainStateGeometry.ScreenToGrid requires the paddings to fit in the window
  and a non-empty cell. Otherwise the u32 subtraction and the division in the
  source panic.
- MainStateGeometry.GridToScreenCenter and CpathToSegments require the grid
  line to be no wider than a cell. Otherwise `grid_cell_dim - grid_line_width`
  underflows.
- Rational and decimal costs: costs are natural numbers, and the engine is
  generic over the cost function. The Rational/d128 mismatch between
  src/terrain.rs and src/pathfinding.rs is not modelled. Neither are the
  four-argument call and the `bool` wall matrix in src/mainstate.rs:40-47,
  which do not match the signatures they call.
- Hash iteration order:
  - `HashMap`/`HashSet` are modelled as Dafny maps and sets;
  - PathServices.FindBoundaryNeighborDirections picks boundary cells in an
    unspecified order, and its contract is stated per cell;
  - neighbours are relaxed in the source's W, E, N, S order.
- The binary heap is a sequence with extract-max (Frontier.Pop). Which of
  several equal-priority copies of an entry pops first is not modelled, since
  such copies are identical.
- PathServices.GetPath takes a ghost rank that strictly decreases along
  backpointers between distinct keys. The source loops forever only when the
  walk from `dest` enters a cycle. The rank also rules out maps with a cycle
  elsewhere, on which the source would still return.
  Optimality.CostsRankBackpointers supplies the rank for the engine's output
  when every terrain cost is positive.
- Terrains.Cost promises only a positive cost, which is what the engine's
  lemmas need. Its body returns 1 for every terrain, as the source does.
- `unit.rs` is not part of this model: it is a constructor returning two
  constants.

## Findings

| source | as written | input that shows it | evidently intended | confidence | as-written member | corrected member |
|---|---|---|---|---|---|---|
| src/main.rs:85-91 | the far-edge test is `screen_x > WINDOW_WIDTH - HORIZONTAL_PADDING` (and the same for y). So column x = 1010 and row y = 770, the right and bottom grid lines, pass the test and divide to index 10 | pixel (1010, 770) gives `Some((10, 10))`, and `draw` then highlights a cell drawn outside the 10 by 10 grid | only cells of the grid are returned: the far edges are excluded with `>=` | medium, not executed | ScreenConstants.FarEdgeLeavesGrid | ScreenConstants.ScreenToGridCell |
