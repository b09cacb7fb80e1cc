# mazing in Dafny

This project models the core of *mazing*, a maze generator written in Rust, and proves properties of the model. The repository holds several generations of code side by side. Each generation is modelled on its own terms, one Dafny module per source file:

- **Grids.** These are rectangular, row-major grids of cells:
  - `Grids`, for src/grid.rs: contains, localize/pin, at, cell, neighbours, crumbs and the random pickers.
  - `GridBase`, for src/grid/base.rs: the constructors, `_storage_pos`, the checked and unchecked accessors, and storage-position access.
- **Addressing and walks.**
  - `Location`: a storage position read back as a column and a line.
  - `PathWalk`: the row-major `ZWalk` iterator.
  - `FreeWalk`: a walker that steps one cell up, down, left or right.
- **Mazes.**
  - `OrthoMazes` (src/maze/orthomaze.rs): each cell stores only its down and right gates. `carve` writes the bit on the cell that owns it. `gates_at` rebuilds the four directions into a bit set.
  - `OldMazes` (src/maze.rs): the older vector of HORI/VERT flag sets, with `toggle`.
  - `FlagMaze`: the maze that the carving algorithms call.
- **Carving algorithms.** Each is a class whose `ExecuteOne` (or `CarveOne`) method equals a pure `Tick` function. The lemmas are proved about `Tick`.
  - `BinaryTreeStep`, `SideWinder`, `AldousBroder` and `Wilson` come from src/algo/carving.rs.
  - `AlgoBase` (src/algo/base.rs) holds the address helpers: border tests and the right-then-down walk.
  - `BinaryTreeWalk` (src/algo/binary_tree.rs) holds the whole-grid binary tree over a `ZWalk`.
  - `Executions` (src/algo/execution.rs, and the copy in src/algo/binary_tree.rs) holds the execution history.
  - `OldCarving` (src/carving.rs) and `OldAlgoBase` (src/algo_base.rs) hold the first-generation cursor and walker.
- **Scheduling.** `Tasks` (src/task.rs) is the FIFO executor.
- **Overlays.**
  - `HighMap` (src/highmap.rs) and `DepthMap` (src/depth.rs) are grids of optional depths.
  - `Seeding` (src/algo/seeding.rs) is the row-major depth placeholder.
- **Text output.** `Ascii` (src/display/ascii.rs) is the run-length line builder and the row structure of the plain-text drawing.
- **Command line.** `MainCli` (src/main_cli.rs) is the algorithm-name table.

Every random draw of the source becomes a parameter of the operation that uses it, under a `requires` that the draw is in range:
- a bool for a coin;
- an index for `choose`;
- the door column for `gen_range`;
- a sequence of cell indices for the draws of `anywhere_rand_match`.

The maze that src/algo/carving.rs, src/algo/base.rs, src/carving.rs and src/algo_base.rs call is not part of this model. Its functions are `carve(c, l, c2, l2)`, the cell flag setters and `is_visitation_complete`. `FlagMaze` gives it a minimal definition:
- a `Grids.Grid` of cells, each holding a down gate, a right gate and the active, current and visited flags;
- `carve`, which opens the gate between two in-bounds, 4-adjacent cells on the upper or left cell of the pair, and changes nothing otherwise.

The model follows the code as written, including these behaviours:
- `set_depth` (src/highmap.rs:64-68 and src/depth.rs:60-64) overwrites an existing depth. There is no first-assignment-wins rule.
- src/task.rs's `Status` has only `Done` and `Continuing`:
  - `run` and `run_step` pop the front task only on `Done`;
  - `run` loops until the queue is empty, and nothing in it stops on an abort.
- The `Aborted(reason)` status that src/algo/carving.rs returns belongs to the carving modules' own `StepStatus`.
- `anywhere_rand_match` (src/grid.rs:116-135) reports no match when the match is found on the last allowed retry. The test is `security == 0`, not whether the candidate matches.
- `gates_at` (src/maze/orthomaze.rs:118-123) reports RIGHT only when the cell's down gate is closed, because of an `else if`.
- `carve` towards Down or Right (src/maze/orthomaze.rs:93-100) opens the gate even on the bottom and right borders. Its guards hold for every cell of the grid. Only Up on line 0 and Left on column 0 fail, with "invalid carving".

## Model

| member | source | states |
|---|---|---|
| Grids.Grid.constructor | src/grid.rs:15-22 | `columns * lines` cells, every one the default value, and the given dimensions |
| Grids.Grid.CellCount | src/grid.rs:35-37 | the cell count is the length of the cell storage |
| Grids.Grid.Pin | src/grid.rs:61-65 | for an index below the cell count, `pin` gives coordinates inside the grid that localize back to that index |
| Grids.Grid.Contains | src/grid.rs:53-55 | contained coordinates localize below the cell count |
| Grids.Grid.Localize | src/grid.rs:57-59 | for a column below the width, the index's quotient by the width is the line and its remainder the column |
| Grids.Grid.PinInvertsLocalize | src/grid.rs:57-65 | `pin` inverts `localize` on contained coordinates |
| Grids.Grid.At | src/grid.rs:67-74 | None exactly when `(x, y)` is not contained; otherwise the cell at `y * columns + x` |
| Grids.Grid.AtPinned | src/grid.rs:61-74 | reading at the pinned coordinates of index `i` gives cell `i` |
| Grids.Grid.AtMut | src/grid.rs:76-83 | a write succeeds exactly when `(x, y)` is contained; it replaces that one cell and leaves the storage unchanged otherwise |
| Grids.Grid.Cell | src/grid.rs:85-91 | Some exactly when the coordinates are contained, and then their address (also `Address::from`, src/grid.rs:177-179) |
| Grids.Grid.Center | src/grid.rs:101-105 | Some exactly when the grid has a column and a line, and then the cell (columns / 2, lines / 2), at no more than half the columns and half the lines |
| Grids.Grid.NeighbourList | src/grid.rs:227-275 | at most 4 neighbours, exactly the contained cells one orthogonal step away, without repeats, in the order top, left, bottom, right |
| Grids.Grid.TopOf | src/grid.rs:230-239 | the neighbour above, if any: exactly the contained cells in the same column one line up, of rank 0 |
| Grids.Grid.LeftOf | src/grid.rs:241-250 | the neighbour on the left, if any: exactly the contained cells on the same line one column left, of rank 1 |
| Grids.Grid.BottomOf | src/grid.rs:252-261 | the neighbour below, if any: exactly the contained cells in the same column one line down, of rank 2 |
| Grids.Grid.RightOf | src/grid.rs:263-272 | the neighbour on the right, if any: exactly the contained cells on the same line one column right, of rank 3 |
| Grids.QuartersSorted | src/grid.rs:227-275 | the four sides pushed in the order top, left, bottom, right give a list without repeats in that rank order |
| Grids.Grid.AnywhereRand | src/grid.rs:107-114 | the drawn index pinned to a contained cell that localizes back to the index |
| Grids.Grid.FirstMatchFromSpec | src/grid.rs:116-135 | a returned cell is in the grid and satisfies the filter, at one of the allowed retries; None means no allowed retry before the last one matched |
| Grids.Grid.RandMatchSpec | src/grid.rs:116-135 | `anywhere_rand_match` returns a matching, contained cell, or None when no draw before the last allowed retry matched |
| Grids.Grid.AnywhereRandMatch | src/grid.rs:116-135 | the while loop with its `security` countdown computes the retry specification on the current cells |
| Grids.Crumbs.constructor | src/grid.rs:44-51 | the crumbs start at index 0 with the grid's dimensions |
| Grids.Crumbs.Next | src/grid.rs:302-313 | below the cell count it yields `(i % columns, i / columns)` and advances `i` by one; after that, None with nothing changed |
| Grids.CollectCrumbs | src/grid.rs:299-313 | iterating the crumbs yields exactly `cell_count` addresses, the k-th being `(k % columns, k / columns)` |
| GridBase.PushAll | src/grid/base.rs:47-56 | the push loop yields `count` values, the i-th being `create(i)` |
| GridBase.Grid.New | src/grid/base.rs:12-19 | the given dimensions and every cell the default value |
| GridBase.Grid.NewFromCopy | src/grid/base.rs:24-31 | the given dimensions and every cell a copy of the model |
| GridBase.Grid.NewBy | src/grid/base.rs:36-45 | the given dimensions and every cell `create()` |
| GridBase.Grid.NewInitWith | src/grid/base.rs:47-56 | the given dimensions and cell `i` holds `create(i)` |
| GridBase.Grid.StoragePos | src/grid/base.rs:71-77 | Some exactly when `column < columns && line < lines`; the position is then below `columns * lines` with remainder `column` and quotient `line` by `columns` |
| GridBase.Grid.StoragePosInjective | src/grid/base.rs:71-77 | distinct in-range coordinates have distinct storage positions |
| GridBase.Grid.StoragePosCovers | src/grid/base.rs:71-77 | every storage position below the cell count is the position of `(spos % columns, spos / columns)` |
| GridBase.Grid.TryAt | src/grid/base.rs:92-95 | None exactly when the coordinates are out of range; otherwise the cell at their storage position |
| GridBase.Grid.At | src/grid/base.rs:84-88 | panics out of range (a precondition); in range it agrees with `try_at` |
| GridBase.Grid.TryAtLoc | src/grid/base.rs:117-120 | None exactly when the storage position is at least the cell count; otherwise that cell |
| GridBase.Grid.AtLoc | src/grid/base.rs:111-114 | panics past the end (a precondition); otherwise it agrees with `try_at_loc` |
| GridBase.Grid.TryAtLocAgrees | src/grid/base.rs:92-120 | access by storage position and by coordinates agree |
| GridBase.Grid.TryAtMut | src/grid/base.rs:105-108 | succeeds exactly in range; then `try_at` reads the written value back and no other cell changes; otherwise nothing changes |
| GridBase.Grid.AtMut | src/grid/base.rs:98-102 | in range (a precondition), writes the one cell, which `at` then reads back |
| GridBase.Grid.TryDirectAtMut | src/grid/base.rs:128-130 | succeeds exactly below the cell count and writes only that cell; otherwise nothing changes |
| GridBase.Grid.DirectAtMut | src/grid/base.rs:123-125 | below the cell count (a precondition), writes only that cell |
| GridBase.WriteThenRead | src/grid/base.rs:313-318 | after a write at `(column, line)`, `try_at` there gives the written value and at every other coordinate the old value |
| Location.FromStoragePos | src/grid/location.rs:16-18 | `from_storage_pos(s).storage_pos() == s` |
| Location.FromCoordinates | src/grid/location.rs:21-24 | whenever `column < columns`, the column and line read back; in range, the storage position is the grid's `_storage_pos` |
| Location.Column | src/grid/location.rs:32-34 | the column is below `columns` |
| Location.Line | src/grid/location.rs:37-39 | the line is the quotient: `line * columns <= spos < (line + 1) * columns` |
| Location.CoordinatesRoundTrip | src/grid/location.rs:21-44 | rebuilding a location from its coordinates gives the same location |
| Location.InGridIffLine | src/grid/location.rs:37-39 | a storage position is inside the grid exactly when its line is below `lines` |
| Location.Value | src/grid/location.rs:47-49 | panics past the end (a precondition); otherwise agrees with `maybe_value` |
| Location.MaybeValue | src/grid/location.rs:52-54 | None exactly past the end of the grid; otherwise the cell at the storage position |
| Location.IsCloseTo | src/grid/location.rs:73-81 | Top exactly when the position is in the first line; Left exactly when it is a multiple of `columns` |
| Location.IsCloseToAt | src/grid/location.rs:73-81 | at in-range coordinates: Top iff `line == 0`, Down iff `line + 1 >= lines`, Left iff `column == 0`, Right iff `column + 1 >= columns` |
| Location.CornersOfFourByFive | src/grid/location.rs:100-145 | on a 4 x 5 grid, the border tests at the corners (0, 0), (3, 0) and (0, 4) |
| PathWalk.Column | src/grid/pathwalk.rs:48-50 | the column of the location at the storage position: below `columns`, and the storage position's remainder by `columns` |
| PathWalk.Line | src/grid/pathwalk.rs:53-55 | the line of the location at the storage position: the quotient of the storage position by `columns` |
| PathWalk.ToLoc | src/grid/pathwalk.rs:60-62 | the location has the same storage position |
| PathWalk.ExpectedPathAt | src/grid/pathwalk.rs:94-115 | entry k of the nested columns-within-lines loop is `(k % columns, k / columns)` |
| PathWalk.WalkIsRowMajor | src/grid/pathwalk.rs:29-56 | the whole walk, read as coordinates, is exactly the expected row-major path |
| PathWalk.ZWalk.constructor | src/grid/pathwalk.rs:15-22 | the walk starts at 0 with limit `columns * lines` |
| PathWalk.ZWalk.Next | src/grid/pathwalk.rs:29-37 | below the limit, yields position `i` and increases `i` by exactly one; at the limit, None and nothing changes; `i` never exceeds the limit (on a 0 x 0 grid the first call is None) |
| PathWalk.ZWalk.Collect | src/grid/pathwalk.rs:85-115 | iterating to the end yields exactly the `columns * lines` positions in order and stops at the limit |
| FreeWalk.Stepped | src/grid/freewalk.rs:45-55 | a step moves exactly one coordinate by one; Left and Right keep the line |
| FreeWalk.StepBack | src/grid/freewalk.rs:154-177 | Up after Down, Down after Up, Left after Right and Right after Left return to the start |
| FreeWalk.OrthoFreeWalk.constructor | src/grid/freewalk.rs:15-22 | the walker starts at (0, 0) |
| FreeWalk.OrthoFreeWalk.CanMove | src/grid/freewalk.rs:35-42 | needs at least one line and one column (`lines - 1` and `columns - 1`); from a cell of the grid it holds exactly when the step lands in the grid |
| FreeWalk.OrthoFreeWalk.StepTo | src/grid/freewalk.rs:45-55 | the new position is the step from the old one (Up and Left underflow at 0, a precondition) |
| FreeWalk.OrthoFreeWalk.SpawnAt | src/grid/freewalk.rs:58-64 | both coordinates are set exactly, with no bounds check |
| FreeWalk.OrthoFreeWalk.ToLoc | src/grid/freewalk.rs:69-71 | on the grid, the location's coordinates are the walker's |
| FreeWalk.OriginMoves | src/grid/freewalk.rs:91-127 | on a 4 x 5 grid, a walker at the origin can move down and right, not up or left |
| OrthoMazes.ToWay | src/maze/orthomaze.rs:38-45 | each way maps to a single bit among the four gate bits |
| OrthoMazes.ToWayDistinct | src/maze/orthomaze.rs:38-45 | different ways map to disjoint bits |
| OrthoMazes.InsertThenCanMove | src/maze/orthomaze.rs:48-50 | after inserting a way's bit, a way can move exactly when it is that way or could move before |
| OrthoMazes.NoGatesBlock | src/maze/orthomaze.rs:48-50 | the empty set allows no way |
| OrthoMazes.CanMoveAll | src/maze/orthomaze.rs:53-55 | holds exactly when every listed way can move |
| OrthoMazes.Opened | src/maze/orthomaze.rs:89-112 | opening sets the down or the right gate and keeps everything else |
| OrthoMazes.Carved | src/maze/orthomaze.rs:89-112 | the target cell has its gate opened and every other cell is unchanged |
| OrthoMazes.CarvedIdempotent | src/maze/orthomaze.rs:89-112 | carving twice is carving once |
| OrthoMazes.OrthoMaze.New | src/maze/orthomaze.rs:70-76 | a fresh grid of the given dimensions whose cells are all the default cell: gates closed, unvisited (src/maze/orthomaze.rs:13-20) |
| OrthoMazes.OrthoMaze.ZWalk | src/maze/orthomaze.rs:79-81 | a fresh row-major walk over the maze's grid, before its first cell |
| OrthoMazes.OrthoMaze.Freewalk | src/maze/orthomaze.rs:84-86 | a fresh free walker over the maze's grid at the origin |
| OrthoMazes.OrthoMaze.CarveTarget | src/maze/orthomaze.rs:89-112 | Down and Right target the location's own cell whenever it is in the grid; Up targets the down gate of the cell above, which exists exactly when `1 <= line <= lines`; Left targets the right gate of the cell to the left, which exists exactly when `column >= 1` and the line is in the grid |
| OrthoMazes.OrthoMaze.CarveFailsOnlyOnBorder | src/maze/orthomaze.rs:93-111 | in the grid, Up fails exactly on the top border and Left exactly on the left border; Down and Right never fail |
| OrthoMazes.OrthoMaze.Carve | src/maze/orthomaze.rs:89-112 | Ok exactly when there is a target cell, whose one gate it opens; otherwise `Err("invalid carving")` and no change |
| OrthoMazes.OrthoMaze.GatesAt | src/maze/orthomaze.rs:115-140 | DOWN iff the own down gate is open; RIGHT iff the own right gate is open and the down gate is closed; TOP iff there is a cell above and it is down-open; LEFT iff there is a cell to the left and it is right-open; no other bit |
| OrthoMazes.GatesAtAllows | src/maze/orthomaze.rs:115-140 | the set `gates_at` builds allows exactly the ways the stored gates open: the own down gate; the own right gate when down is closed; the down gate of the cell above; the right gate of the cell to the left |
| OrthoMazes.CarveDownSeenFromBelow | src/maze/orthomaze.rs:93-137 | after carving Down, the cell allows Down and the cell below allows Up |
| OrthoMazes.CarveRightSeenFromRight | src/maze/orthomaze.rs:96-137 | after carving Right, the right neighbour allows Left, and the cell allows Right exactly when its down gate was closed |
| OldMazes.Complement | src/maze.rs:25-29 | the complement holds HORI (VERT) exactly when the set does not, and no other bit |
| OldMazes.ComplementInvolution | src/maze.rs:25-29 | complementing twice gives back a set of declared flags |
| OldMazes.Toggled | src/maze.rs:25-29 | toggling keeps the number of gates |
| OldMazes.ToggleTwice | src/maze.rs:25-29 | toggle keeps gates well formed and toggling twice is the identity |
| OldMazes.ToggleEmpty | src/maze.rs:16-29 | toggling empty gates makes every gate HORI \| VERT |
| OldMazes.Maze.constructor | src/maze.rs:16-23 | `width * height` empty gates, with the given dimensions; the `u32` product must not overflow |
| OldMazes.Maze.Toggle | src/maze.rs:25-29 | every gate is replaced by its complement, in place; dimensions and gate count stay |
| FlagMaze.MarkedAt | src/algo/base.rs:20-42 | after marking, the addressed cell has the flag set to the value and every other cell of the grid is as before |
| FlagMaze.MarkedHere | src/algo/base.rs:20-42 | marking an address outside the grid changes nothing |
| FlagMaze.MarkedKeepsGates | src/algo/base.rs:20-42 | marking moves no gate |
| FlagMaze.Carved | src/algo/carving.rs:13-23 | carving two in-bounds neighbours opens the gate between them in both directions, stored on the left or upper cell of the pair; every other cell, the owner's flags and its other gate are unchanged; any other pair changes nothing |
| FlagMaze.Carve | src/algo/carving.rs:13-23 | the maze's carve on the cell storage is `Carved` |
| FlagMaze.SetFlag | src/algo/base.rs:20-42 | the maze's flag setter on the cell storage is `Marked` |
| AlgoBase.Mark | src/algo/base.rs:20-42 | mark/unmark active, current, visit set the flag as the maze's setter does (only the addressed cell, by `MarkedAt`) |
| AlgoBase.MoveColumn | src/algo/base.rs:56-61 | changes only the column |
| AlgoBase.IsVisited | src/algo/base.rs:44-46 | false outside the grid; on a cell of the grid, the cell's visited flag |
| AlgoBase.IsOnRightBorder | src/algo/base.rs:48-50 | on a cell of the grid, true exactly when the right neighbour is outside the grid |
| AlgoBase.IsOnDownBorder | src/algo/base.rs:52-54 | on a cell of the grid, true exactly when the lower neighbour is outside the grid |
| AlgoBase.IsDoneWalkingRightThenDown | src/algo/base.rs:78-80 | done walking iff the address is outside the grid |
| AlgoBase.WalkRightThenDown | src/algo/base.rs:63-76 | the column increments, or wraps to 0 on the next line; current is unmarked on the old cell and marked on the new one only when not done |
| AlgoBase.WalkedKeepsGates | src/algo/base.rs:63-76 | the walk moves no gate |
| AlgoBase.RightThenDownIsRowMajor | src/algo/base.rs:63-71 | after k steps from (0, 0) the walk is at `(k % columns, k / columns)` |
| AlgoBase.RightThenDownCoversGrid | src/algo/base.rs:63-80 | from the first cell, step k visits the cell of slot k, and the walk is done exactly after `columns * lines` steps |
| Carving.Neighbours | src/algo/carving.rs:247 | at most 4 cells, exactly the cells of the grid adjacent to the given one |
| Carving.PickNext | src/algo/carving.rs:243-254 | Err("impossible situation - no neighbours") exactly when the cell has no neighbour; otherwise an adjacent cell of the grid |
| Carving.NeighboursEmptyIffSingle | src/algo/carving.rs:243-254 | a cell of the grid has no neighbour exactly on a 1 x 1 grid |
| Carving.CarveRight | src/algo/carving.rs:13-15 | carves toward `(column + 1, line)` |
| Carving.CarveDown | src/algo/carving.rs:17-19 | carves toward `(column, line + 1)` |
| Carving.CarveTo | src/algo/carving.rs:21-23 | carves toward the given address |
| Carving.MarkedAllSpec | src/algo/carving.rs:212-217 | setting a flag over a list changes exactly the listed cells |
| Carving.MarkedAllKeepsGates | src/algo/carving.rs:212-217 | marking a list moves no gate |
| Carving.ClearWalkMarks | src/algo/carving.rs:212-217 | unmarking the whole walk leaves no active mark |
| Carving.PushWalkMarks | src/algo/carving.rs:236-237 | marking the location active while pushing it keeps the active marks equal to the walk |
| Carving.MarkEach | src/algo/carving.rs:212-217 | the `for addr in walk` loop computes `MarkedAll` |
| Carving.VisitsCleared | src/algo/carving.rs:225-229 | every visit flag cleared, gates and other flags unchanged |
| Carving.ClearVisit | src/algo/carving.rs:225-229 | the loop over the crumbs clears every visit flag |
| Carving.FirstCrumb | src/algo/carving.rs:37-43 | the first crumb of a non-empty grid is (0, 0) |
| BinaryTreeStep.Tick | src/algo/carving.rs:60-86 | a step keeps the cell count |
| BinaryTreeStep.BinaryTree.constructor | src/algo/carving.rs:37-43 | starts on the first crumb, (0, 0) |
| BinaryTreeStep.BinaryTree.ExecuteOne | src/algo/carving.rs:60-86 | the new location, cells and status are those of `Tick` |
| BinaryTreeStep.TargetInMaze | src/algo/carving.rs:66-81 | bottom row carves right; right column not on the bottom row carves down; the target is a neighbour, in the grid except from the bottom-right cell |
| BinaryTreeStep.TickCarvesTarget | src/algo/carving.rs:63-86 | a step from a cell of the grid opens exactly the gate toward its target, closes none, and moves on along the walk |
| BinaryTreeStep.TickWhenDone | src/algo/carving.rs:63-65 | past the last cell, a step returns Done and changes nothing |
| BinaryTreeStep.TickCount | src/algo/carving.rs:60-86 | from (0, 0), steps 0 .. columns*lines - 1 continue to the next cell in row-major order; the next step is Done |
| SideWinder.GroupRun | src/algo/carving.rs:112-115 | the addresses `start_x .. column - 1` of the location's line |
| SideWinder.ClosedGroup | src/algo/carving.rs:111-125 | closing the group keeps the cell count |
| SideWinder.ContinuedGroup | src/algo/carving.rs:127-131 | continuing the group keeps the cell count |
| SideWinder.Tick | src/algo/carving.rs:144-182 | a step keeps the cell count |
| SideWinder.SideWinder.constructor | src/algo/carving.rs:101-105 | starts on the first crumb with the group starting at its column |
| SideWinder.SideWinder.CloseGroup | src/algo/carving.rs:111-125 | `close_group` with the drawn door column computes `ClosedGroup` |
| SideWinder.SideWinder.ContinueGroup | src/algo/carving.rs:127-131 | `continue_group` computes `ContinuedGroup` |
| SideWinder.SideWinder.ExecuteOne | src/algo/carving.rs:144-182 | the new state, cells and status are those of `Tick` |
| SideWinder.TickKeepsValid | src/algo/carving.rs:144-182 | the group never starts right of the location |
| SideWinder.TickClosesGroup | src/algo/carving.rs:111-125 | a close with a door in `[start_x, column]` carves down only at the door, clears active on columns `start_x .. column - 1` and on no other cell, keeps every visited mark, and the next group starts at the new location's column |
| SideWinder.ClosedGroupFlagsAt | src/algo/carving.rs:111-125 | closing a group and walking on keeps the visited mark of every cell and the active mark of every cell off the closed run |
| SideWinder.TickContinuesGroup | src/algo/carving.rs:127-131 | an extension marks the location active, opens only the gate to its right, and keeps `start_x` |
| SideWinder.BottomRowExtends | src/algo/carving.rs:152-158 | on the bottom row a step closes exactly on the right border |
| SideWinder.TickCount | src/algo/carving.rs:171-181 | from the first cell, each step moves to the next cell in row-major order and reports Done exactly on the step that leaves the grid |
| AldousBroder.WalkedTo | src/algo/carving.rs:231-241 | `walk_to` keeps the cell count |
| AldousBroder.ClearedAll | src/algo/carving.rs:219-223 | `clear_all` keeps the cell count |
| AldousBroder.RestartedCells | src/algo/carving.rs:270-273 | the pending restart keeps the cell count |
| AldousBroder.Tick | src/algo/carving.rs:267-304 | a step keeps the cell count |
| AldousBroder.AldousBroder.constructor | src/algo/carving.rs:198-206 | on the first crumb, an empty walk and a restart pending |
| AldousBroder.AldousBroder.ClearWalk | src/algo/carving.rs:212-217 | unmarks active on every walk cell and empties the walk |
| AldousBroder.AldousBroder.ClearAll | src/algo/carving.rs:219-223 | unmarks current, clears the walk and every visit flag |
| AldousBroder.AldousBroder.WalkTo | src/algo/carving.rs:231-241 | marks the old location visited and active, pushes it onto the walk, and makes the new cell current |
| AldousBroder.AldousBroder.ExecuteOne | src/algo/carving.rs:267-304 | the new state, cells and status are those of `Tick` |
| AldousBroder.TickKeepsWalkMarked | src/algo/carving.rs:231-241 | the location stays in the grid and the active marks are exactly the walk |
| AldousBroder.WalkedToMarks | src/algo/carving.rs:231-241 | `walk_to` pushes the old location onto the marked walk |
| AldousBroder.ClearedAllMarks | src/algo/carving.rs:219-223 | `clear_all` leaves no cell marked active |
| AldousBroder.TickAbortsOnlyAlone | src/algo/carving.rs:275-281 | a step aborts with the no-neighbours message exactly on a 1 x 1 grid, and then moves no gate |
| AldousBroder.TickCarvesIffUnvisited | src/algo/carving.rs:283-295 | the step moves to the chosen neighbour; it opens the gate toward it exactly when that neighbour was unvisited and no other gate; `restart_walk` is `visited or next in walk` |
| AldousBroder.TickWalksOrEnds | src/algo/carving.rs:293-303 | Done exactly when every cell is then visited, after which no cell is visited and the walk is empty; otherwise the old location is on the walk, visited, and the new cell is current |
| AldousBroder.TickGates | src/algo/carving.rs:283-295 | the gates after a step are those of the carve toward the chosen neighbour, if any |
| Wilson.Relocated | src/algo/carving.rs:414-427 | `relocate_rand` keeps the cell count |
| Wilson.WalkedTo | src/algo/carving.rs:345-353 | `walk_to` keeps the cell count |
| Wilson.Committed | src/algo/carving.rs:359-365 | the windows loop keeps the cell count |
| Wilson.FirstIndex | src/algo/carving.rs:396-399 | the length of the `take_while(x != addr)` prefix: no earlier entry is `addr`, and the stop is on `addr` or at the end |
| Wilson.Rewound | src/algo/carving.rs:391-412 | `rewind_to` keeps the cell count |
| Wilson.Tick | src/algo/carving.rs:441-488 | a step keeps the cell count |
| Wilson.Wilson.constructor | src/algo/carving.rs:320-328 | on the first crumb, not started, with an empty walk |
| Wilson.Wilson.WalkTo | src/algo/carving.rs:345-353 | the old location is marked active and pushed; the new cell becomes current |
| Wilson.Wilson.CommitWalk | src/algo/carving.rs:355-368 | over the windows of `walk ++ [location, next]`, each source is unmarked, visited and carved toward its successor; the walk is emptied |
| Wilson.PickRandUnvisited | src/algo/carving.rs:384-389 | Ok of an unvisited cell of the grid, or Err("impossible situation - no more unvisited cell") exactly when none of the draws the search may use hits an unvisited cell |
| Wilson.Wilson.PickRandUnvisitedIn | src/algo/carving.rs:384-389 | the random match on unvisited cells, or Err("impossible situation - no more unvisited cell") |
| Wilson.Wilson.RewindTo | src/algo/carving.rs:391-412 | the walk keeps the prefix before the first occurrence of `addr`; the rest of the walk and `addr` are unmarked active; `addr` becomes current |
| Wilson.Wilson.RelocateRand | src/algo/carving.rs:414-427 | the current mark moves to a random unvisited cell, or the step aborts |
| Wilson.Wilson.ClearAll | src/algo/carving.rs:334-337 | unmarks current and clears every visit flag |
| Wilson.Wilson.ExecuteOne | src/algo/carving.rs:441-488 | the new state, cells and status are those of `Tick` |
| Wilson.CommittedAt | src/algo/carving.rs:359-365 | committing a path unmarks and visits every window source and leaves every other cell's flags as they were; no gate closes |
| Wilson.CommitOpensPath | src/algo/carving.rs:359-365 | committing a path of neighbouring cells of the grid opens the gate of every window |
| Wilson.CommitPath | src/algo/carving.rs:355-368 | the walk, the location and a visited neighbour form a chain of neighbouring cells of the grid; committing it opens every window and closes no gate |
| Wilson.TickKeepsValid | src/algo/carving.rs:345-353 | the invariant holds after every step: the location is in the grid and not on the walk, the walk has no repeats and is a chain of neighbours, and the active marks are exactly the walk |
| Wilson.CommitKeepsValid | src/algo/carving.rs:459-470 | after a commit the invariant holds both when the maze is then done and cleared and when the walker relocates |
| Wilson.TickStarts | src/algo/carving.rs:441-449 | the first step marks the start visited, moves no gate, never reports Done, and relocates to an unvisited cell other than the start or aborts with "no more unvisited cell" in place |
| Wilson.TickCommits | src/algo/carving.rs:459-470 | a step onto a visited cell opens the gate of every window of `walk ++ [location, next]`, closes none, empties the walk, and is Done exactly when every cell is then visited |
| Wilson.TickRewinds | src/algo/carving.rs:473-480 | a step onto an unvisited cell of the walk cuts the walk just before its first occurrence, moves there, and moves no gate |
| Wilson.TickExtends | src/algo/carving.rs:481-486 | a step onto an unvisited cell off the walk appends the location and moves there; no gate moves |
| Wilson.TickAbortsOnlyAlone | src/algo/carving.rs:451-457 | a started step finds no neighbour only on a 1 x 1 grid, and then aborts with the no-neighbours message and changes nothing |
| Wilson.RewoundMarks | src/algo/carving.rs:391-412 | after the rewind, the active marks are exactly the cut walk |
| Wilson.CommitClearsMarks | src/algo/carving.rs:355-368 | after the commit no cell is marked active |
| BinaryTreeWalk.Choice | src/algo/binary_tree.rs:39-55 | the carve is Down or Right; bottom-row cells carve Right; right-column cells above the bottom row carve Down |
| BinaryTreeWalk.Reasons | src/algo/binary_tree.rs:39-55 | one reason per cell, in walk order |
| BinaryTreeWalk.Carve | src/algo/binary_tree.rs:36-60 | returns Ok on any grid; history grows by one reason per cell, in `zwalk` order; every cell has exactly the gate of its choice opened |
| BinaryTreeWalk.CarveCell | src/algo/binary_tree.rs:40-57 | the carve of one cell by its choice succeeds, opens exactly that gate, and appends its reason to the history |
| BinaryTreeWalk.FourByFive | src/algo/binary_tree.rs:83-116 | after the carve on 4 x 5: the top-right cell allows Down but not Up or Right; the right-column cell on line 1 allows Up and Down but not Right; bottom-row cell 0 allows Right but not Down or Left; bottom-row cell 1 allows Left and Right but not Down |
| Executions.Execution.constructor | src/algo/execution.rs:12-17 | an empty history and the given maze (also src/algo/binary_tree.rs:15-20) |
| Executions.Execution.Carve | src/algo/execution.rs:20-25 | on Ok the maze is carved as by `OrthoMaze::carve` and `why` is appended; on Err the maze's error is returned and nothing changes (also src/algo/binary_tree.rs:23-28) |
| OldCarving.DoneIsLastSlot | src/carving.rs:20-22 | on a cell of the grid, `is_done` is defined and holds exactly on the last cell in row-major order |
| OldCarving.BinaryTree.IsDone | src/carving.rs:20-22 | on a cell of the grid, true exactly when the cursor is on the last slot in row-major order |
| OldCarving.Tick | src/carving.rs:49-70 | a call keeps the cell count |
| OldCarving.BinaryTree.constructor | src/carving.rs:13-18 | the cursor starts at (0, 0) |
| OldCarving.BinaryTree.Next | src/carving.rs:40-47 | one step right, wrapping to column 0 of the next line |
| OldCarving.BinaryTree.CarveOne | src/carving.rs:49-70 | the new cursor and cells are those of `Tick` |
| OldCarving.TickWhenDone | src/carving.rs:52-53 | on the last cell a call neither carves nor moves |
| OldCarving.TickCarves | src/carving.rs:54-69 | on any other cell: the last row carves right, the last column above it carves down, otherwise one of the two; the gate is opened and the cursor moves on |
| OldCarving.CallsToDone | src/carving.rs:20-70 | from (0, 0), after k calls the cursor is on slot k and is done exactly when `k == columns * lines - 1`; the calls before carve and move on, the call there changes nothing |
| OldAlgoBase.Walker.constructor | src/algo_base.rs:37-42 | the walker starts at (0, 0) |
| OldAlgoBase.Walker.CarveRight | src/algo_base.rs:52-54 | carves toward `(x + 1, y)` |
| OldAlgoBase.Walker.CarveDown | src/algo_base.rs:56-58 | carves toward `(x, y + 1)` |
| OldAlgoBase.Walker.Mark | src/algo_base.rs:60-74 | mark/unmark active and current set only the walker's own cell |
| OldAlgoBase.Walker.MoveX | src/algo_base.rs:84-86 | a new walker on column `x` of the same line |
| OldAlgoBase.Walker.WalkRightThenDown | src/algo_base.rs:88-101 | x increments or wraps to 0 on line y + 1; current moves along as in `AlgoBase` |
| OldAlgoBase.Walker.IsOnRightBorder | src/algo_base.rs:76-78 | on a cell of the grid, true exactly when the cursor's right neighbour is outside the grid |
| OldAlgoBase.Walker.IsOnDownBorder | src/algo_base.rs:80-82 | on a cell of the grid, true exactly when the cursor's lower neighbour is outside the grid |
| OldAlgoBase.Walker.IsDoneWalkingRightThenDown | src/algo_base.rs:103-105 | done walking iff the cursor is outside the grid |
| OldAlgoBase.WalkMovesCurrent | src/algo_base.rs:88-101 | after a step, the next cell is current, the old cell is not, and every other cell is unchanged |
| Tasks.ExecuteOne | src/task.rs:13 | a countdown task reports Done exactly when its count is 0, and otherwise counts down by one |
| Tasks.Executor.constructor | src/task.rs:29-33 | an empty queue |
| Tasks.Executor.Stack | src/task.rs:35-37 | appends at the back, keeping the existing order |
| Tasks.Executor.Clear | src/task.rs:39-41 | empties the queue unconditionally |
| Tasks.Executor.ExecuteTask | src/task.rs:59-75 | None and no change on an empty queue; otherwise steps only the front task once |
| Tasks.Executor.RunStep | src/task.rs:52-57 | steps the front task once and pops it iff it reports Done; no change on an empty queue |
| Tasks.Executor.Run | src/task.rs:43-50 | ends with an empty queue, having stepped the tasks in the FIFO schedule |
| Tasks.ScheduleUnfolds | src/task.rs:43-57 | a run is one `run_step` on the front task followed by the run of the rest |
| Tasks.ScheduleLength | src/task.rs:43-50 | a run makes exactly as many steps as the tasks need to reach Done |
| Tasks.ScheduleIsFifo | src/task.rs:43-50 | task i is stepped only after every task before it is popped, all its steps in a row |
| Tasks.RunSteppedSpec | src/task.rs:52-63 | on an empty queue nothing changes; a finishing front task is popped; a continuing one stays at the front |
| Tasks.StackKeepsOrder | src/task.rs:35-50 | stacking a task appends its steps after all the others' |
| HighMap.OrthoHighMap.constructor | src/highmap.rs:29-34 | every height None and `highest` 0 (src/highmap.rs:11-15) |
| HighMap.Height | src/highmap.rs:56-60 | None out of the grid; otherwise the cell's height |
| HighMap.SetDepth | src/highmap.rs:64-68 | writes the height of the addressed cell in place |
| HighMap.SetDepthThenHeight | src/highmap.rs:56-68 | afterwards `height()` there is `Some(h)`, and every other cell is unchanged |
| HighMap.SetDepthOverwrites | src/highmap.rs:64-68 | a second `set_depth` overwrites the first |
| DepthMap.OrthoDepthMap.constructor | src/depth.rs:28-33 | every depth None and `max_path_depth` 0 (src/depth.rs:10-14) |
| DepthMap.Depth | src/depth.rs:52-56 | None out of the grid; otherwise the cell's depth |
| DepthMap.SetDepth | src/depth.rs:60-64 | writes the depth of the addressed cell in place |
| DepthMap.SetDepthThenDepth | src/depth.rs:52-64 | afterwards `depth()` there is `Some(d)`, and every other cell is unchanged |
| DepthMap.SetDepthOverwrites | src/depth.rs:60-64 | a second `set_depth` overwrites the first |
| Seeding.Seeded | src/algo/seeding.rs:35-38 | the cell of row-major index i has depth `Some(i)` |
| Seeding.ExecuteOne | src/algo/seeding.rs:32-41 | returns Done after one call and leaves the seeded depths whatever the depths were before, so twice is once |
| Seeding.SeededDepths | src/algo/seeding.rs:35-38 | every cell of the grid has depth `Some(its index)`, at most `columns * lines - 1` |
| Seeding.SeededLargest | src/algo/seeding.rs:35-38 | the last cell holds the largest depth, `columns * lines - 1` |
| Ascii.NewFactory | src/display/ascii.rs:25-41 | the gate patterns are 3 characters and the end markers 1; horizontal patterns start with the join, vertical ones end with two spaces; an opened and a closed pattern differ exactly when their symbols differ |
| Ascii.Factory | src/display/ascii.rs:154-159 | both symbol sets give well-formed factories whose open and closed patterns differ |
| Ascii.RenderLayout | src/display/ascii.rs:102-134 | n flags render to 3n characters, with cell k's pattern at `3k .. 3k + 3` |
| Ascii.RepeatIsRender | src/display/ascii.rs:60-63 | `pattern.repeat(n)` is the rendering of n closed gates |
| Ascii.HorizontalBorder | src/display/ascii.rs:60-63 | the closed horizontal pattern n times, then `join`: `3n + 1` characters |
| Ascii.LineBuilder.constructor | src/display/ascii.rs:82-99 | nothing written and no pending run |
| Ascii.LineBuilder.Update | src/display/ascii.rs:102-119 | a first flag opens the run; the same flag extends it; a changed flag writes out the pending run up to `index` (non-decreasing indices, else underflow) and starts a new one |
| Ascii.LineBuilder.Done | src/display/ascii.rs:122-134 | writes out the pending run up to `nb_cells` and the end marker; needs a prior update (the unwrap) |
| Ascii.FeedNext | src/display/ascii.rs:102-119 | `update(|gs|, g)` extends the flags the builder has received by `g` |
| Ascii.BuildLine | src/display/ascii.rs:102-134 | `update(i, g_i)` for i = 0 .. n - 1 then `done` yields the concatenation of (opened if g_i else closed), then the end marker: `3n + 1` characters |
| Ascii.Horizontal | src/display/ascii.rs:44-49 | a fresh builder of horizontal gates ending with the join |
| Ascii.Vertical | src/display/ascii.rs:52-57 | a fresh builder of vertical gates ending with the closed wall |
| Ascii.RowGates | src/display/ascii.rs:179-185 | the flags of a line have one entry per cell, and entry x is whether the stored gates of cell (x, y) allow the way |
| Ascii.FeedRow | src/display/ascii.rs:176-185 | the inner loop feeds the horizontal builder each cell's Down gate and the vertical one its Left gate |
| Ascii.DrawLine | src/display/ascii.rs:176-189 | the two rows of a line: its vertical row, then its horizontal row or, after the last line, the border |
| Ascii.Draw | src/display/ascii.rs:162-193 | `2 * lines + 1` rows: a border first and last, and per line the rows of `DrawLine` |
| Ascii.DrawnCell | src/display/ascii.rs:173-190 | in a drawing, the rows are `3 * columns + 1` characters long; cell (x, y) shows its Left gate in the vertical row and its Down gate in the row below, which is closed border after the last line |
| MainCli.All | src/main_cli.rs:13-18 | two entries, BinaryTree first, every variant present |
| MainCli.Name | src/main_cli.rs:20-25 | a name is never empty |
| MainCli.NameInjective | src/main_cli.rs:20-25 | different algorithms have different names |
| MainCli.From | src/main_cli.rs:27-33 | a found algorithm has exactly that name; None for a string that is no algorithm's name |
| MainCli.FromName | src/main_cli.rs:20-33 | `from(name(a)) == Some(a)` |
| MainCli.FoldIsSeparated | src/main_cli.rs:70-77 | the fold from the empty string writes the names separated by `", "`, with no leading separator |
| MainCli.ChoicesText | src/main_cli.rs:70-77 | the choices are exactly "BinaryTree, SideWinder" |

## Left out

- Randomness (`thread_rng`, `gen_range`, `choose`, the `next_f32() < 0.5` coin). The draws are parameters, and no distribution is modelled. Floating point is not modelled.
- Logging and diagnostic strings: `println!`, `log_action`, `action()`/`context()`, `Executor::log`/`try_log`, `Logger`, `to_str`, and the `Debug` impls. They are output only. The history of `Execution` keeps its `why` strings, and `BinaryTreeWalk` models the reasons these are built from.
- Shared ownership and locking: `Rc<RefCell<..>>` in `Args`, `Rc::get_mut` in `Loc::value_mut`/`maybe_value_mut`, and the mutex lock in `draw`. The model passes a single owned grid to each operation.
- Tasks.ExecuteOne: tasks are countdowns that report Done after a fixed number of steps. The concrete algorithms are modelled in their own modules. Because every countdown ends, the model does not capture that `run` never returns when a task never reports Done.
- Seeding.ExecuteOne: the depth map is a parameter, since `args.depth_map` is not a field of `Args`.
- Integer widths: `usize` arithmetic is unbounded in the model. The exceptions are the `lines() - 1`, `columns() - 1` and `index - start_index` underflows and the `u32` product of `Maze::new`, which are preconditions.
- `Pos`/`PosMut` wrappers and `cell_mut` of src/grid.rs: they are access paths to the same cells as `at` and `at_mut`.
- `Grid::iter` and its iterator (src/grid.rs:39-42, 320-343): the model does not include them.
- `Border`, the parent module of src/grid/location.rs, and the `loc_generator` behind `zwalk`, `freewalk` and `draw` are not part of this model. `Border` is declared locally.
- `try_at_loc_mut`: not in the file text. Storage-position writes are modelled by `try_direct_at_mut`.
- The unused `_current` and `_group` fields of `OrthoMaze`, and the `AlgoStatus` returned by the `Algo` trait of src/algo_base.rs. The trait is not modelled.
- src/main.rs, src/app.rs and src/maze_render.rs: the window, event loop and graphics. `parse_args` and the argparse calls of src/main_cli.rs.
- No breadth-first distance map exists in the code, so none is modelled.
- Ascii.LineBuilder: the output is modelled as characters. The byte lengths used only for the string capacity of the Dashed symbol set are not modelled.
