# Grid best-first search, modelled in Dafny

The program searches for a path on a rectangular obstacle map. The map has
`sizey` rows of `sizex` cells; a cell holding 0 is free. The search runs from
a start cell to a target cell and may move to any of the eight neighbouring
cells. Each search node (`Point`) records its cell, its step count `path`,
its priority `cost = path + Manhattan distance to the target`, and its parent.

The search works as follows:

- A cell is marked `used` when it is first discovered. Its node's parent is
  fixed from then on: an open node is never relaxed or re-opened.
- Each round expands the current node's free, unused neighbours into the
  queue. It then pops a node of least cost from the queue and updates a
  fallback `best` node. The fallback is the node closest to the target,
  with ties going to fewer steps.
- The search stops when the current node is on the target or when the queue
  is empty. It then prints the parent chain of the current node, or of the
  fallback node if the target was not reached.

The project has five modules, one file each:

- `Wrappers` (wrappers.dfy): the `Option` type.
- `Points` (points.dfy): `Point`, `get_dist`, `Point::new`, the hand-written
  `PartialEq` and `PartialOrd`, and the eight moves of the search.
- `Grid` (grid.dfy): `Map`, `Map::index` and `Map::avail`, both as written
  and corrected (see Findings).
- `Arena` (arena.dfy): the search tree stored in an arena. It holds what the
  search keeps true of each node, the `used` set as a function of the
  arena, `print_path` as the function `PathTo`, and walks over free cells.
- `Search` (search.dfy): the search of `main` as imperative methods.
  - `Expand` models the `for` loop over the eight moves.
  - `Pop` models `BinaryHeap::pop`.
  - `UpdateBest` models the fallback update.
  - `Search` models the `while` loop and the final branch.

Parent links are indices into the arena instead of `Rc` pointers. The
program hard-codes a 10×3 map, start (0,0) and target (9,2); here these are
parameters, and the start and target must lie on the map. As in the
program, the start and target points are built directly with `path` and
`cost` 0, and the start cell is never checked for being free.

## Model

| member | source | states |
|---|---|---|
| `Points.DistSymmetric` | src/main.rs:18-20 | `get_dist` is symmetric. |
| `Points.DistZeroIff` | src/main.rs:18-20 | The Manhattan distance is 0 exactly when the two cells are equal. |
| `Points.EqIffZeroDist` | src/main.rs:42-46 | `PartialEq` holds of two points exactly when `get_dist` between them is 0, and `get_dist` is symmetric on points. |
| `Points.NewPoint` | src/main.rs:29-39 | The new point stands on the given cell and keeps the given parent. Without a parent it has taken 0 steps; with one it has taken the parent's steps plus 1. Its cost minus its steps is its Manhattan distance to the target. |
| `Points.PartialCmpReversesCost` | src/main.rs:48-53 | Under `partial_cmp`, a point is greater exactly when it is cheaper, less exactly when it is dearer, and equal exactly when the costs are equal. The order is antisymmetric. |
| `Points.EqDisagreesWithOrder` | src/main.rs:42-53 | Two points on the same cell are `==` and yet can compare unequal under `partial_cmp`. |
| `Points.MoveTo` | src/main.rs:101 | Every cell adjacent to `a` (Chebyshev distance 1) is reached from `a` by one of the eight moves. |
| `Points.NeighbourIsAdjacent` | src/main.rs:116-121 | Each of the eight moves that stays on non-negative coordinates leads to an adjacent, different cell. |
| `Points.ManhattanOverestimatesDiagonal` | src/main.rs:37 | The heuristic can exceed the remaining number of moves: one diagonal move covers a Manhattan distance of 2. |
| `Grid.IndexInRange` | src/main.rs:71-73 | An in-bounds cell's index `y*sizex + x` is below `sizex*sizey`. |
| `Grid.IndexInjective` | src/main.rs:71-73 | Two cells with `x < sizex` and equal indices are the same cell. |
| `Grid.AvailAsWritten` | src/main.rs:75-81 | `avail` with its `<=` guard. It can fail only on the column `x == sizex` or the row `y == sizey`. |
| `Grid.AvailAsWrittenPanicsOnEdge` | src/main.rs:75-81 | A cell on the column `x == sizex` or the row `y == sizey` passes the guard and is then looked up out of range. |
| `Grid.Avail` | src/main.rs:75-81 | Corrected `avail`: it holds only on the map, and there it holds exactly when the cell is 0. |
| `Grid.AvailAgreesWhereDefined` | src/main.rs:75-81 | Behind the strict bounds check of the search, the original never fails. Wherever it does not fail, it agrees with `Avail`. |
| `Arena.ArenaAppend` | src/main.rs:126-131 | Pushing a well-placed node keeps every earlier node well placed. |
| `Arena.CellsAppend` | src/main.rs:130 | Inserting a node's index into `used` is the same as adding the node to the arena. |
| `Arena.CellsHas` | src/main.rs:109 | The cell index of every node is in `used`. |
| `Arena.CellsNode` | src/main.rs:125 | An in-bounds cell whose index is in `used` carries a node. |
| `Arena.CellsBelow` | src/main.rs:122 | Every index in `used` is below `sizex*sizey`. |
| `Arena.BoundedSetSize` | src/main.rs:105 | A set of indices below `n` has at most `n` members, so `used`, and with it the number of nodes, is bounded by the number of cells. |
| `Arena.PathTo` | src/main.rs:22-27 | The parent chain of a node gives `path + 1` cells. They start at the start cell and end at the node's cell. Every later cell is free and adjacent to the one before. |
| `Arena.PathNoRepeats` | src/main.rs:22-27 | The cells of a parent chain belong to nodes no later than the node itself, and no cell occurs twice. |
| `Arena.WalkStaysOnNodes` | src/main.rs:115-134 | Suppose every node has had its free neighbours marked used. Then every cell of every free-cell walk from the start carries a node. |
| `Search.Expand` | src/main.rs:116-134 | Each free, unused, in-bounds neighbour becomes a new node. The new node's parent is the current node, its cell is adjacent to the parent's, its step count is one more, and its cost is steps plus distance. The new node's cell enters `used` once, and its index is queued. The old nodes and the old queue are kept as a prefix. No two nodes share a cell. Afterwards every free neighbour of the current node is in `used`. |
| `Search.HeapTopExists` | src/main.rs:135-136 | A non-empty queue has an entry that no other queued point is greater than under `partial_cmp`. |
| `Search.Pop` | src/main.rs:135-138 | Popping an empty queue yields nothing. Otherwise it yields a queued index that no queued point is greater than, so one of least cost, and removes exactly that one occurrence. |
| `Search.UpdateBest` | src/main.rs:139-143 | The fallback is replaced only by a strictly closer node, or by an equally close node with fewer steps. The kept node beats both the old fallback and the current node. `best_dist` equals the kept node's distance and never grows. |
| `Search.ExpandCloses` | src/main.rs:115-134 | After an expansion, every node is queued, or is expanded, off the target and beaten by the fallback. |
| `Search.PopSettles` | src/main.rs:135-143 | After the pop and the fallback update, every node is queued, is the new current node, or is closed. |
| `Search.ExhaustedSearch` | src/main.rs:135-147 | When the queue runs dry, no free-cell walk from the start reaches the target. Every walk ends at least as far from the target as the fallback node. |
| `Search.InitialArena` | src/main.rs:105-113 | The arena holding only the start point is well formed, and `used` holds just the start's index. |
| `Search.Search` | src/main.rs:100-152 | The search terminates. It reports `Found` exactly when the target is reachable over free cells; the path then ends at the target. Otherwise the path ends at a reachable cell whose Manhattan distance to the target is as small as any reachable cell's. Either path starts at the start, moves only to adjacent free cells, never repeats a cell and has at most `sizex*sizey` cells. The printed length is its number of moves. |

## Left out

- `Map::new` (src/main.rs:83-97) fills the map with `rand::random`, a foreign random number generator. The map is a parameter here, of the shape `Map::new` gives: `sizey` rows of `sizex` cells.
- `Map::print`, the `println!` in `print_path` and the final output of `main` are I/O. `PathTo` returns the cells that `print_path` prints, and `Outcome` carries the printed length.
- `Rc` reference counting and sharing are replaced by arena indices.
- The internals of `BinaryHeap` and the derived `Ord` on `Point` are not modelled. `Pop` returns some entry that no queued point is greater than under the hand-written `partial_cmp`, and leaves the tie-break open.
- `partial_cmp` returns `Option<Ordering>`. It is always `Some` for `u32` costs, so it is modelled as an `Ordering`.
- Fixed-width integers are not modelled. Coordinates, steps and costs are unbounded naturals. The casts to `i32` in `get_dist` and in the move arithmetic are taken as exact, which holds when `sizex + sizey <= 2^31`. The `u32` product `y*sizex + x` is taken not to overflow.
- The optimality of found paths is not claimed. Open nodes are never relaxed (the TODO at src/main.rs:123-124), and the Manhattan heuristic overestimates diagonal moves (`Points.ManhattanOverestimatesDiagonal`).
- The model follows the code: Manhattan distance, one step per move, cells marked on discovery, no iteration budget; start and target are parameters.

## Findings

| source | as written | input that shows it | evidently intended | confidence | as-written member | corrected member |
|---|---|---|---|---|---|---|
| src/main.rs:76 | `avail` guards with `x <= self.sizex && y <= self.sizey` and then indexes `data[y][x]` | `x == sizex` with `y < sizey` (or `y == sizey`): the guard passes and the lookup is out of range, which panics | strict bounds `x < sizex && y < sizey`, answering `false` off the map | high (not executed); `main` itself never reaches it, because line 119 checks the strict bounds first | `Grid.AvailAsWrittenPanicsOnEdge` | `Grid.Avail` |
