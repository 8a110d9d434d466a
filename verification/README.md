# MazeSolver core in Dafny

This project models the algorithmic core of `MazeSolver.c` and proves its properties. The core has four parts.

- **The grid.** There is a wall/passage plane and a mark byte per cell. Both planes are stored flat and addressed by `r * cols + c`.
- **The maze generator.** `generate_maze` is an iterative randomized backtracker. It carves a perfect maze over the odd/odd "rooms": every room is reachable from (1,1), and every carved wall is a bridge (`MazeGen.Bridge`), meaning every passage path between the two rooms it joins runs through it, so the passages hold no cycle.
- **The two solvers.** `solve_bfs` searches breadth-first with a ring-buffer queue. `solve_dfs` searches depth-first with a bounded stack and shuffles the neighbour order on every expansion. Both record each cell's discoverer in a parent map. The start cell is the root, `-2`, and an undiscovered cell holds `-1`.
- **Path painting.** `reconstruct_and_mark` walks the parent map back from the goal and paints `M_PATH`.

Modules follow the program's structure:

| file | module | models |
|---|---|---|
| `grid.dfy` | `Grid` | cells, mark bits, `grid_get`/`grid_set`/`mark_*`, `grid_init`, `is_inside`, `nbrs4`, passage paths |
| `shuffle.dfy` | `Shuffle` | `shuffle_ints` |
| `counting.dfy` | `Counting` | cardinality facts behind the stack and buffer bounds |
| `maze.dfy` | `MazeGen` | `generate_maze` |
| `frontier.dfy` | `Frontier` | `Stack` and `Queue` with their operations |
| `paths.dfy` | `Paths` | parent chains, routes home, `reconstruct_and_mark` |
| `search.dfy` | `Search` | what both solvers share: parent initialisation, discovery bookkeeping, the answer a finished search gives |
| `bfs.dfy` | `Bfs` | `solve_bfs` |
| `dfs.dfy` | `Dfs` | `solve_dfs` |
| `options.dfy` | `Options` | the `Option` result type |

Grids are immutable values, and every mutating C routine returns a new grid. `rand()` becomes an explicit stream `rand: nat -> nat` with a cursor `pos`. Every property therefore holds for every sequence of draws. The generator returns the cursor after its last draw, and so does the DFS solver.

The solvers also return their parent map, so contracts can speak about it; the C code frees it. The verification-only state is ghost:
- the order in which cells were discovered;
- BFS distances, the current BFS layer and the queue head;
- the DFS stack contents as flat indices.

The solver contracts are stated through these predicates:
- `Search.Answered` holds for either solver's result. The start is the root. Every discovered cell's parent chain is a route home: distinct, 4-adjacent passage cells ending at the start. The goal is discovered exactly when a passage path leads to it from the start.
- `Search.Painted` says that after painting, a cell's non-PATH bits are clear exactly on undiscovered cells. PATH sits exactly on the goal's parent chain.
- `Paths.Tree` says every discovered cell other than the start points at a side-adjacent discovered passage of smaller rank. The rank is the BFS distance, or the DFS discovery index. So every parent chain reaches `-2` without a cycle.

In `solve_dfs` a neighbour is pushed only while its mark is `M_NONE`, and the push sets `M_FRONT` at once (MazeSolver.c:341-347). So no cell is pushed twice, and the `parent == -1` test before the assignment always succeeds (`Dfs.Unmarked`). This is what the comment at MazeSolver.c:310 means by "parent set only when discovered". The model keeps that test as written.

## Model

| member | source | states |
|---|---|---|
| Grid.Grid.Index | MazeSolver.c:76-93 | the flat index `r * cols + c` of an inside coordinate is in range for both planes and maps back to the coordinate |
| Grid.Grid.At | MazeSolver.c:262 | the row `i / cols` and column `i % cols` of an in-range flat index name an inside cell whose flat index is `i` |
| Grid.Grid.Inside | MazeSolver.c:251-253 | `is_inside` holds exactly when the row is in `0..rows-1` and the column in `0..cols-1`; `Grid.Grid.Index` and `Grid.Grid.At` state that these are the coordinates with a flat index |
| Grid.Grid.Get | MazeSolver.c:76-78 | `grid_get` reads the wall plane at the flat index; what it returns after a write or on a new grid is stated by `Grid.Grid.Set` and `Grid.GridInit` |
| Grid.Grid.MarkGet | MazeSolver.c:82-84 | `mark_get` reads the mark plane at the flat index; what it returns after a mark update is stated by `Grid.Grid.MarkOr`, `Grid.Grid.MarkAndNot`, `Grid.Grid.MarkSet` and `Grid.Grid.ClearMarks` |
| Grid.Grid.Set | MazeSolver.c:79-81 | `grid_set` stores the value at the cell and changes no other cell and no mark |
| Grid.Grid.MarkOr | MazeSolver.c:85-87 | `mark_or` raises the given bits, keeps every other bit of the cell, and changes no other cell's mark |
| Grid.Grid.MarkAndNot | MazeSolver.c:88-90 | `mark_andnot` clears the given bits, keeps every other bit of the cell, and changes no other cell's mark |
| Grid.Grid.MarkSet | MazeSolver.c:91-93 | `mark_set` overwrites one cell's mark and nothing else |
| Grid.Grid.ClearMarks | MazeSolver.c:275 | the `memset` of the marks leaves every cell's mark `M_NONE` and the cells unchanged |
| Grid.GridInit | MazeSolver.c:95-106 | a new grid has the requested shape, every cell a wall and every mark clear |
| Grid.DirTo | MazeSolver.c:254 | two side-adjacent cells are related by one of the four `nbrs4` offsets, and by no other |
| Grid.MarksElsewhere | MazeSolver.c:85-93 | a mark update confined to one coordinate leaves every other flat mark entry unchanged |
| Shuffle.ShuffleInts | MazeSolver.c:114-121 | for every stream of draws the result is a permutation (same multiset) of the input, and exactly `n - 1` draws are consumed |
| Shuffle.ShuffleKeepsMembers | MazeSolver.c:114-121 | a value occurs in the shuffled array exactly when it occurs in the input |
| MazeGen.FillWalls | MazeSolver.c:130 | the first fill loop leaves every cell a wall |
| MazeGen.OpenRooms | MazeSolver.c:131 | the second fill loop opens exactly the odd/odd rooms and leaves every other cell a wall |
| MazeGen.OpenRow | MazeSolver.c:131 | one pass of the inner loop opens the rooms of one odd row, and the rows above it stay opened |
| MazeGen.RoomGridSize | MazeSolver.c:133 | an `h` by `w` room grid has `h * w` rooms, so `maxcells` counts the rooms |
| MazeGen.VisitedBound | MazeSolver.c:133-135 | a set of rooms has at most `maxcells` members, and fewer while some room is missing |
| MazeGen.Choices | MazeSolver.c:145-152 | a direction is a choice exactly when the room two cells away is strictly inside the border and unvisited |
| MazeGen.Step | MazeSolver.c:142-165 | one iteration either pushes a fresh unvisited room, marking it visited and drawing once, or pops a room that has no unvisited interior neighbour without touching grid, visited set or stream |
| MazeGen.StepKeepsInv | MazeSolver.c:133-165 | each iteration keeps the carving invariant and the stack within `maxcells`, and strictly lowers `2 * (unvisited rooms) + stack height` |
| MazeGen.PushKeepsConnected | MazeSolver.c:153-161 | opening the wall to the new room keeps every visited room reachable from (1,1) through passages |
| MazeGen.PushKeepsCounted | MazeSolver.c:153-161 | every push carves exactly one wall, so carved walls stay one fewer than visited rooms |
| MazeGen.PushExits | MazeSolver.c:153-161 | right after a push, the only open cells beside the opened wall are the two rooms it joins, and the only open cell beside the new room is that wall |
| MazeGen.Splice | MazeSolver.c:153-161 | a passage path after the push whose ends avoid the new wall and room can be cut down to a path through the cells it visits that existed before the push |
| MazeGen.NewBridge | MazeSolver.c:153-161 | every passage path between the two rooms of the newly opened wall runs through that wall |
| MazeGen.PushKeepsBridged | MazeSolver.c:153-161 | a push keeps every carved wall a bridge: every passage path between the two rooms it joins runs through it |
| MazeGen.CarveDone | MazeSolver.c:142-165 | when the stack empties every room is visited and reachable from (1,1), and exactly `maxcells - 1` walls are carved |
| MazeGen.Carve | MazeSolver.c:133-165 | the carving loop terminates with rooms open, every opened non-room cell lying between two adjacent rooms, `maxcells - 1` carved walls, every room reachable from (1,1), every carved wall a bridge, and `maxcells - 1` draws consumed |
| MazeGen.GenerateMaze | MazeSolver.c:123-168 | the result keeps the shape, its border is all wall and every room is open. Every other opened cell lies between two adjacent rooms. Exactly `maxcells - 1` walls are carved and every room is reachable from (1,1). Every carved wall lies on every passage path between the two rooms it joins, so the passages hold no cycle: a perfect maze |
| Frontier.StackCreate | MazeSolver.c:201-207 | a new stack of capacity `cap` is empty |
| Frontier.StackPush | MazeSolver.c:208-210 | a push appends the value when there is room and silently leaves the contents unchanged when full |
| Frontier.StackPop | MazeSolver.c:211-213 | a pop returns the top entry and leaves the entries below it |
| Frontier.StackEmpty | MazeSolver.c:214-216 | `stack_empty` holds exactly when the stack has no entries |
| Frontier.StackPushPop | MazeSolver.c:208-213 | a pop undoes a push that found room |
| Frontier.QueueCreate | MazeSolver.c:226-232 | a new queue holds no entries |
| Frontier.QueuePush | MazeSolver.c:233-236 | `queue_push` keeps the buffer, its capacity and `head`; what it does to the held entries is stated by `Frontier.QueuePushHolds` and `Frontier.QueueFullLooksEmpty` |
| Frontier.QueuePop | MazeSolver.c:237-241 | `queue_pop` keeps the buffer contents, capacity and `tail`; which entry it returns and what stays held is stated by `Frontier.QueuePopHolds` |
| Frontier.QueueEmpty | MazeSolver.c:242-244 | `queue_empty` compares `head` and `tail`; `Frontier.QueueEmptyHolds` states that this is exact while a slot stays free |
| Frontier.QueuePushHolds | MazeSolver.c:233-236 | while a slot stays free, a push appends to the queue's contents without overwriting an unread entry |
| Frontier.QueuePopHolds | MazeSolver.c:237-241 | a pop returns the oldest entry and keeps the rest in order |
| Frontier.QueueEmptyHolds | MazeSolver.c:242-244 | `queue_empty` is exact while the buffer keeps a free slot |
| Frontier.QueueFullLooksEmpty | MazeSolver.c:233-244 | a push into the last free slot makes a non-empty queue report empty, which is why the buffer needs a spare slot |
| Paths.Walk | MazeSolver.c:261-264 | the parent walk from a cell lists that cell first, follows parent links, stays in range, and stops at `-2` or `-1` |
| Paths.TreeWalk | MazeSolver.c:293-297 | in a ranked parent tree the walk from a discovered cell reaches the root within rank + 1 steps along a route home, ranks falling strictly |
| Paths.TreeWalkFull | MazeSolver.c:257-268 | in a ranked parent tree the walk from any discovered cell, with `rows * cols` steps of fuel, is a route home |
| Paths.RouteHomeReaches | MazeSolver.c:257-268 | a route home, reversed, is a passage path from the start to the cell |
| Paths.ClosedUnreachable | MazeSolver.c:284-304 | if every discovered cell has all its open neighbours discovered, an undiscovered goal is unreachable from a discovered start |
| Paths.ReconstructAndMark | MazeSolver.c:257-268 | with `parent[goal] == -1` the marks are unchanged; otherwise PATH is raised on exactly the cells of the chain from the goal back to the root, with no other bit or cell changed |
| Search.ParentInit | MazeSolver.c:274 | the initial parent map holds `-1` for every cell |
| Search.DiscoverKeeps | MazeSolver.c:296-297 | assigning a parent to an undiscovered cell appends it, once, to the discovery order |
| Search.TreeGrow | MazeSolver.c:296-297 | giving an undiscovered passage a discovered side neighbour as parent, at a higher rank, keeps the parent map a tree |
| Search.AnsweredFound | MazeSolver.c:293 | a search stopping on a discovered goal has answered: the goal is reachable and every parent chain is a route home |
| Search.AnsweredExhausted | MazeSolver.c:284 | a search whose frontier ran out with every discovered cell expanded has answered: an undiscovered goal is unreachable |
| Search.Retire | MazeSolver.c:287-292 | on a popped cell FRONT is cleared and VISIT raised whatever the mark held, every other bit is kept, and no other cell's mark changes |
| Search.PaintRoute | MazeSolver.c:305 | painting the goal's chain over search marks leaves PATH exactly on the chain and the other bits telling discovered cells from undiscovered ones |
| Search.Finish | MazeSolver.c:305 | the closing `reconstruct_and_mark` keeps the cells and leaves the marks painted |
| Bfs.Nearest | MazeSolver.c:284-304 | under the layer condition a passage path of `L` steps from the start ends at a discovered cell at distance at most `L`, or at an undiscovered cell beyond the current layer |
| Bfs.Shortest | MazeSolver.c:270 | with the layer condition the goal's parent chain is no longer than any passage path from the start to the goal |
| Bfs.QueueSound | MazeSolver.c:233-244 | at the loop head `queue_empty` holds exactly when every discovered cell has been popped, and at least five slots stay free |
| Bfs.Begin | MazeSolver.c:273-282 | the set-up leaves the start alone discovered, queued, marked FRONT and carrying `-2` |
| Bfs.PopStep | MazeSolver.c:285-293 | the popped entry is the oldest discovered cell not yet popped; popping the goal finishes the search along a shortest route |
| Bfs.DiscoverStep | MazeSolver.c:295-301 | discovering an open neighbour with parent `-1` assigns the popped cell as parent, enqueues it one layer further out and marks it FRONT |
| Bfs.Expand | MazeSolver.c:294-303 | after the four-direction scan every open neighbour of the popped cell is discovered, no parent entry already set is overwritten, and the loop invariant holds again |
| Bfs.Round | MazeSolver.c:285-303 | one iteration either finishes the search along a shortest route or keeps the invariant with one more cell popped |
| Bfs.Exhausted | MazeSolver.c:284 | an empty queue ends the search answered, with shaded marks and shortest routes |
| Bfs.Explore | MazeSolver.c:284-304 | the search loop terminates answered: the goal is discovered exactly when reachable, and its chain is shortest |
| Bfs.SolveBfs | MazeSolver.c:271-308 | the cells are unchanged and every parent chain is a route home. The goal is found exactly when reachable, along a chain no longer than any passage path. PATH marks exactly that chain |
| Dfs.Begin | MazeSolver.c:313-322 | the set-up leaves the stack holding just the start, the start carrying `-2` and every other cell `-1` |
| Dfs.Directions | MazeSolver.c:336-337 | a shuffle of `{0,1,2,3}` lists each of the four directions once |
| Dfs.Unmarked | MazeSolver.c:341-343 | during the search a cell's mark is `M_NONE` exactly when its parent is `-1`, so the parent test before assignment always succeeds |
| Dfs.StackRoom | MazeSolver.c:317 | the stack never holds more entries than discovered cells, so it stays below its `rows * cols + 5` capacity |
| Dfs.DiscoverStep | MazeSolver.c:341-347 | pushing an open, unmarked neighbour finds room on the stack, assigns the popped cell as parent over `-1`, and marks it FRONT |
| Dfs.PopStep | MazeSolver.c:325-334 | the popped entry is the top frontier cell; popping the goal finishes the search answered |
| Dfs.Expand | MazeSolver.c:336-349 | after scanning the shuffled directions every open neighbour of the popped cell is discovered, no parent entry already set is overwritten, and the loop invariant holds again |
| Dfs.Round | MazeSolver.c:325-349 | one iteration either finishes the search or keeps the invariant, draws three numbers and strictly lowers `2 * (undiscovered cells) + stack height` |
| Dfs.Exhausted | MazeSolver.c:324 | an empty stack ends the search answered |
| Dfs.Explore | MazeSolver.c:324-350 | the search loop terminates answered for every stream of draws |
| Dfs.SolveDfs | MazeSolver.c:311-355 | for every stream of draws the cells are unchanged, every parent chain is a route home, the goal is found exactly when reachable, and PATH marks exactly its chain |

## Left out

- Drawing, ANSI colours, cursor control, `sleep_ms` and `enable_ansi_on_windows` are terminal output and timing. The drawing calls inside the loops observe the grid and change nothing, so they are dropped.
- `get_int_with_default` and the interactive loop in `main` are input handling. Their results become preconditions. `MazeGen.GenerateMaze` requires odd `rows` and `cols` of at least 3, which is weaker than `main`'s clamp to odd values of at least 11. The solvers require an inside start that is a passage and an inside goal. `main` always passes the rooms (1,1) and (rows-2, cols-2).
- `malloc`, `calloc`, `free`, `grid_free`, `stack_free`, `queue_free` and the out-of-memory `exit(1)` are allocation plumbing. Values replace them.
- `rand()` and `srand(time(NULL))` are the global random source. An explicit stream parameter replaces them.
- `rows * cols` and `rows * cols + 5` are computed with unbounded integers, so the model assumes they fit in a C `int`. `main` does not enforce this: it only clamps the sizes from below, and sizes such as 50001 by 50001 would overflow the products at MazeSolver.c:98, :274, :277, :314 and :317.
- The generator's `vis` array is modelled as a set of rooms and its stack as a sequence of rooms. The generator's stack bound and the solvers' buffer bounds are proved about these.
- Dfs.SolveDfs: the returned stream position is only stated not to go backwards. Each expansion draws exactly three numbers (`Dfs.Round`), but the total depends on how many cells were expanded.
- Search.Retire: it models `mark_andnot` followed by the conditional `mark_or` of the same popped cell as one update. The condition is kept as written.
