# Maze generator and solver, modelled in Dafny

This project models the two halves of a maze toolkit and proves properties about them.

- **The Java generator.** A recursive-backtracker (depth-first) carver builds a grid maze. The model covers:
  - its mode enum;
  - the key handler that cycles the modes;
  - `doNewMaze`;
  - the command-line flags of `main`.
- **The Python solver.** It covers:
  - decoding a maze image into per-cell bitmasks of open directions;
  - turning cells into graph nodes (start, end, corners, junctions and dead ends);
  - linking each node to the nearest node to its right and below;
  - running Dijkstra's algorithm from the first node to the last;
  - walking the predecessors back into a path.

Modules:

| module | file | models |
|---|---|---|
| `Wrappers` | Wrappers.dfy | `Option` and `Result` |
| `MazeModes` | MazeModes.dfy | the enum `MazeMode` |
| `MazeGen` | MazeGen.dfy | `Maze`. A class with the `int[rows][cols][5]` matrix as an `array3<bool>`. Its `dfs` loop is a method with ghost bookkeeping (visited set, carved passages, parent links), and `setEntryExit` is modelled too. |
| `MazeApp` | MazeApp.dfy | `Main`: mode cycling, `doNewMaze`, and the flag parsing of `main` |
| `Helpful` | Helpful.dfy | `bound`, `hamming_weight` and the class `RequiredOptions` (helpful.py, duplicated in solve.py) |
| `SolverMaze` | SolverMaze.dfy | the solver's `Maze` and `Node` (maze.py): index helpers, `calc_nodes`, `calc_connections` |
| `Dijkstra` | Dijkstra.dfy | `dijkstra` (solver.py) |
| `Solve` | Solve.dfy | the option handling and image decoder of solve.py |

Behaviour that is not specified by a value is modelled as follows:

- **Randomness.** The generator's random choice of direction is a free choice (`:|`). Every property proved holds whichever direction is chosen.
- **Frames.** A rendered frame is the matrix snapshot it is drawn from, together with the highlighted cell.
- **Code over the usage text.** Where the code and the programs' own usage messages differ, the model follows the code:
  - the usage line of Main.java:209-210 reads `[--rows n] [--cols n]`, but `--rows` sets the number of columns and `--cols` the number of rows (Main.java:223-228);
  - the usage line of helpful.py:37 offers `-h (help)`, but `opt in ("-h")` is Python's substring test on the string `"-h"` (solve.py:92).

## Model

| member | source | states |
|---|---|---|
| MazeModes.Index | src/maze/MazeMode.java:16-18 | every mode's index is a position in `values()` that holds that mode |
| MazeModes.IndicesDistinct | src/maze/MazeMode.java:4-8 | every mode is among the values, and two modes share an index exactly when they are the same mode |
| MazeModes.ValuesInIndexOrder | src/maze/MazeMode.java:4-8 | `values()` lists the constants in the order of their indices |
| MazeModes.FirstWithIndex | src/maze/MazeMode.java:21-23 | the loop's result carries the index asked for; it finds nothing exactly when no listed mode has that index |
| MazeModes.ByIndex | src/maze/MazeMode.java:20-25 | `byIndex` succeeds exactly for 0..4 with the mode of that index, and otherwise throws the IllegalArgumentException |
| MazeModes.ByIndexOfIndex | src/maze/MazeMode.java:16-25 | `byIndex(m.getIndex()) == m` |
| MazeModes.IndexOfByIndex | src/maze/MazeMode.java:16-25 | `byIndex(i).getIndex() == i` for every index in range |
| MazeApp.NextIndex | src/maze/Main.java:91-99 | RIGHT selects the next index modulo the number of modes, always a valid one |
| MazeApp.PrevIndex | src/maze/Main.java:102-110 | LEFT selects the previous index modulo the number of modes, always a valid one |
| MazeApp.PrevUndoesNext | src/maze/Main.java:91-110 | LEFT after RIGHT returns to the starting index |
| MazeApp.NextUndoesPrev | src/maze/Main.java:91-110 | RIGHT after LEFT returns to the starting index |
| MazeApp.ArrowsCancel | src/maze/Main.java:91-110 | RIGHT then LEFT, or LEFT then RIGHT, reselects the starting mode |
| MazeApp.NextPresses | src/maze/Main.java:91-99 | any number of RIGHT presses stays on a valid index |
| MazeApp.NextPressesIndex | src/maze/Main.java:91-99 | n RIGHT presses advance the index by n modulo 5 |
| MazeApp.FiveNextsAreIdentity | src/maze/Main.java:91-99 | five RIGHT presses come back to the starting mode |
| MazeApp.FewerNextsMove | src/maze/Main.java:91-99 | one to four RIGHT presses always select a different mode |
| MazeApp.Decimal | src/maze/Main.java:224 | the decimal text of a natural is a non-empty run of digits with that value and no leading zero |
| MazeApp.Format | src/maze/Main.java:224 | the text of an int, as `Integer.toString` writes it, is non-empty |
| MazeApp.ParseInt | src/maze/Main.java:224 | `Integer.parseInt` succeeds exactly on an optional sign followed by one or more digits whose value fits in 32 bits, and then yields that signed value; it rejects the empty text and a lone sign |
| MazeApp.ParseFormat | src/maze/Main.java:224 | every 32-bit value survives `toString` followed by `parseInt` |
| MazeApp.FormatInjective | src/maze/Main.java:224 | two 32-bit values with the same text are equal |
| MazeApp.IndexOf | src/maze/Main.java:221-224 | `List.indexOf` is -1 exactly for an absent string, and otherwise the first position holding it |
| MazeApp.FlagValue | src/maze/Main.java:223-234 | a flag yields a value exactly when an argument follows its first occurrence and parses as an int |
| MazeApp.Min | src/maze/Main.java:233 | `Math.min` is one of its arguments and no larger than either |
| MazeApp.NonNumericIsInvalid | src/maze/Main.java:222-240 | a flag followed by text that is not a signed decimal number makes `main` show the usage and exit |
| MazeApp.MissingValueIsInvalid | src/maze/Main.java:222-240 | a flag given last, with no value after it, makes `main` show the usage and exit |
| MazeApp.Settings.constructor | src/maze/Main.java:29-33 | the declared defaults: fps 30, 20 rows, 20 columns, scale factor 4 |
| MazeApp.Settings.ApplyArgs | src/maze/Main.java:220-240 | succeeds exactly when every flag present carries a readable value. On success `--rows` sets the columns, `--cols` the rows, `--scalefactor` the scale, and `--fps` the frame rate clamped to 60, so a frame rate given on the command line is never above 60. A flag that is absent leaves its setting as it was. |
| MazeApp.App.constructor | src/maze/Main.java:35-37 | a new application starts in BACKTRACK mode with no maze and no frames |
| MazeApp.App.DoNewMaze | src/maze/Main.java:125-146 | a fresh maze of the configured size with the given animation flag. It succeeds exactly in BACKTRACK mode on a grid with at least one cell, leaving a perfect maze: symmetric walls, only the entry and exit open outward, rows*cols-1 passages, every cell reachable. On success the frames are the maze's, 2*rows*cols-1 when animated plus the final one; on failure the frames on display stay as they were. |
| MazeApp.App.HandleKey | src/maze/Main.java:64-112 | RIGHT and LEFT move the mode to the next or previous index, and other keys keep it. Only F5 and F6 replace the maze and frames, with a fresh maze that is animated exactly for F6. |
| MazeGen.CrossedJoins | src/maze/Maze.java:70-97 | the passage a carving step crosses joins the cell left and the cell entered |
| MazeGen.RowCellsCount | src/maze/Maze.java:14-15 | a row of the grid has `cols` cells |
| MazeGen.AllCellsCount | src/maze/Maze.java:14-15 | the grid has `rows * cols` cells |
| MazeGen.AnimationGrows | src/maze/Maze.java:103-104 | appending a frame of a symmetric grid tagged with a grid cell keeps the frame list well formed |
| MazeGen.Maze.CellAt | src/maze/Maze.java:25 | a cell value holds exactly the cell's four sides and its visited mark |
| MazeGen.Maze.Snapshot | src/maze/Maze.java:103-104 | a frame copies every cell of the matrix, and shows a symmetric grid when the matrix is symmetric |
| MazeGen.Maze.constructor | src/maze/Maze.java:27-36 | a fresh all-closed, all-unvisited matrix of the given size; current cell (0, 0), stack `[(0, 0)]`, no frames |
| MazeGen.Maze.Candidates | src/maze/Maze.java:46-65 | the candidate list holds exactly the directions whose neighbour is in the grid and unvisited, at most four, and is empty exactly when there is no such neighbour |
| MazeGen.Maze.Carve | src/maze/Maze.java:70-97 | moves to the neighbour in direction d, opening exactly side d of the old cell and the facing side of the new one |
| MazeGen.Maze.OpeningKeepsSymmetry | src/maze/Maze.java:70-97 | carving a pair of facing sides keeps wall symmetry |
| MazeGen.Maze.OpeningKeepsBoundary | src/maze/Maze.java:70-97 | carving inside the grid opens no side facing out of it |
| MazeGen.Maze.OpeningAddsPassage | src/maze/Maze.java:70-97 | carving adds exactly the crossed passage to the open passages |
| MazeGen.Maze.OpeningKeepsFreshness | src/maze/Maze.java:70-97 | carving changes no visited mark, nor whether any cell has an unvisited neighbour |
| MazeGen.Maze.OpeningKeepsLinks | src/maze/Maze.java:70-97 | after carving, the old cell is linked to the new one |
| MazeGen.Maze.MarkingKeepsWalls | src/maze/Maze.java:45 | marking a cell visited keeps symmetry, the closed boundary and the set of open passages |
| MazeGen.Maze.MarkingKeepsFreshness | src/maze/Maze.java:45 | marking a cell visited can only take away unvisited neighbours |
| MazeGen.Maze.EntryExitKeepsWalls | src/maze/Maze.java:113-117 | opening the entry and exit keeps symmetry, leaves them as the only outward openings, and changes no visited mark |
| MazeGen.Maze.EntryExitKeepsPassages | src/maze/Maze.java:113-117 | opening the entry and exit adds no passage between cells |
| MazeGen.Maze.MarkCurrent | src/maze/Maze.java:45 | only the visited mark of the current cell is set |
| MazeGen.Maze.MarkingKeepsInv | src/maze/Maze.java:45 | marking the current cell keeps the dfs invariant, with that cell added to the visited set |
| MazeGen.Maze.AdvanceKeepsStack | src/maze/Maze.java:66-97 | after push and carve the visited marks and the stack shape still match the walk, and the reached set gains the new cell |
| MazeGen.Maze.AdvanceGrowsTree | src/maze/Maze.java:66-97 | the cell entered was not reached before, and the carved passages stay a tree with one more passage |
| MazeGen.Maze.AdvanceGrowsParents | src/maze/Maze.java:66-97 | the entered cell gets the old cell as its parent, and every reached cell keeps a linked parent of smaller depth |
| MazeGen.Maze.AdvanceKeepsInv | src/maze/Maze.java:66-97 | an advancing step keeps the dfs invariant and reaches exactly one new cell |
| MazeGen.Maze.Advance | src/maze/Maze.java:66-97 | pushes the current cell and carves into a fresh neighbour: the new state, the extended walk, the invariant kept, one new cell reached |
| MazeGen.Maze.BacktrackKeepsStack | src/maze/Maze.java:98-102 | popping keeps the current cell in the grid, the reached set, and the stack shape |
| MazeGen.Maze.BacktrackKeepsTree | src/maze/Maze.java:98-102 | popping keeps the visited marks, walls, carved tree and parent links |
| MazeGen.Maze.BacktrackKeepsInv | src/maze/Maze.java:98-102 | a backtracking step keeps the dfs invariant with one more pop and the same reached set |
| MazeGen.Maze.Backtrack | src/maze/Maze.java:98-102 | the popped top of the stack becomes the current cell |
| MazeGen.Maze.SetEntryExit | src/maze/Maze.java:113-120 | opens the left side of (0, 0) and the right side of the last cell and records the final frame tagged (-1, -1). It keeps symmetry, the passages and the visited marks; the entry and exit are then the only outward openings. |
| MazeGen.Maze.SidesKeepParentLinks | src/maze/Maze.java:113-117 | a change that closes no side keeps every parent link |
| MazeGen.Maze.OpenPassagesAre | src/maze/Maze.java:70-97 | the set of open passages is determined by which passages are open |
| MazeGen.Maze.VisitedClosedCoversGrid | src/maze/Maze.java:43-105 | when no visited cell has an unvisited neighbour and (0, 0) is visited, every cell is visited |
| MazeGen.Maze.ReachedByParents | src/maze/Maze.java:66-97 | following parents from a reached cell leads to (0, 0) through open sides |
| MazeGen.Maze.GridReachable | src/maze/Maze.java:42-107 | when the parent links span the grid, every cell is reachable from (0, 0) |
| MazeGen.Maze.EmptyStackCoversGrid | src/maze/Maze.java:43-105 | when the stack empties, every cell is visited and reached, through rows*cols-1 passages and rows*cols pops |
| MazeGen.Maze.Animate | src/maze/Maze.java:103-104 | records a frame tagged with the current cell exactly when animating, keeping the invariant and a well-formed frame list |
| MazeGen.Maze.Step | src/maze/Maze.java:44-104 | one loop iteration keeps the dfs invariant and performs exactly one push or one pop |
| MazeGen.Maze.WalkBounded | src/maze/Maze.java:43-105 | while the stack is not empty, fewer than 2*rows*cols iterations have run |
| MazeGen.Maze.RecordingKeepsInv | src/maze/Maze.java:103-104 | recording a frame does not disturb the dfs invariant |
| MazeGen.Maze.AddFrame | src/maze/Maze.java:103-104 | appends one frame of the current matrix, symmetric when the matrix is |
| MazeGen.Maze.StartInv | src/maze/Maze.java:27-45 | the constructor's state satisfies the dfs invariant for the empty walk |
| MazeGen.Maze.Explore | src/maze/Maze.java:43-105 | the loop ends with an empty stack and the invariant, and records one well-formed frame per iteration when animating |
| MazeGen.Maze.Dfs | src/maze/Maze.java:42-107 | dfs leaves a perfect maze: every cell visited, walls symmetric, only entry and exit open outward, rows*cols-1 passages, every cell reachable from (0, 0). There are 2*rows*cols-1 animation frames when animating, plus the final frame of the finished maze. |
| Helpful.Trunc | solver/helpful.py:25 | `int()` of a float truncates toward zero: the floor for non-negative numbers, between the input and zero for negative ones, within one of the input, exact on whole numbers |
| Helpful.TruncBetween | solver/helpful.py:25 | truncation keeps a number between two whole bounds |
| Helpful.Min | solver/helpful.py:25 | Python's `min` is one argument and no larger than either |
| Helpful.Max | solver/helpful.py:25 | Python's `max` is one argument and no smaller than either |
| Helpful.Bound | solver/helpful.py:22-25 | `bound` lies in [minimum, maximum] for whole bounds, is n for a whole n in range, and the floor of n for a non-negative range |
| Helpful.BoundSaturates | solver/helpful.py:22-25 | below the range `bound` answers the minimum, above it the maximum |
| Helpful.PopCountLowBits | solver/helpful.py:27-33 | the weight counts each of the four direction bits, exactly for values below 16 |
| Helpful.PopCountZero | solver/helpful.py:27-33 | the weight is 0 exactly for 0 |
| Helpful.HammingWeight | solver/helpful.py:27-33 | the shifting loop returns the number of one bits |
| Helpful.RemoveFirst | solver/helpful.py:12-14 | `list.remove` drops one occurrence when there is one: one shorter, the same multiset less x |
| Helpful.RemoveFirstSplits | solver/helpful.py:12-14 | removal cuts out exactly the first occurrence and keeps the rest in order |
| Helpful.RemoveFirstResolves | solver/helpful.py:12-14 | in a duplicate-free list, removal leaves no x and keeps the list duplicate-free |
| Helpful.AddThenResolve | solver/helpful.py:8-14 | adding a missing option and resolving it restores the list |
| Helpful.RequiredOptions.constructor | solver/helpful.py:5-6 | the required list is the given one |
| Helpful.RequiredOptions.Add | solver/helpful.py:8-10 | appends the option unless it is already required; afterwards it is required, and a duplicate-free list stays so |
| Helpful.RequiredOptions.Resolve | solver/helpful.py:12-14 | removes the first occurrence; in a duplicate-free list the option is then no longer required |
| Helpful.RequiredOptions.OptionsResolved | solver/helpful.py:16-20 | true exactly when no option is left |
| SolverMaze.NewNode | solver/maze.py:15-19 | a new node has the given cell and four empty links and distances |
| SolverMaze.Indices | solver/maze.py:17 | the cell index of every node, in list order |
| SolverMaze.Position | solver/maze.py:38-44 | the first position holding the cell, and -1 exactly when no node has it |
| SolverMaze.DeadEndIff | solver/maze.py:169-172 | a cell is a dead end exactly when it is not start, end or wall and has one open direction |
| SolverMaze.PlainCells | solver/maze.py:157-172 | among direction-only values, exactly 0, a straight up-down corridor (3) and a straight left-right one (12) make no node |
| SolverMaze.NodeCellsAreTheNodes | solver/maze.py:144-172 | the node cells are in range, strictly increasing, and exactly the cells that classify as a node |
| SolverMaze.JunctionCellsAreTheJunctions | solver/maze.py:158-162 | the junction cells are exactly the cells that classify as junctions |
| SolverMaze.NewNodes | solver/maze.py:153 | one fresh node per cell, in order |
| SolverMaze.PrefixStep | solver/maze.py:144-172 | visiting one more cell appends its node, its junction node and its counts exactly when it classifies so |
| SolverMaze.NewNodesAppend | solver/maze.py:161-172 | appending a cell appends its fresh node |
| SolverMaze.NonWallCountBound | solver/maze.py:120-126 | the traversible count is at most the cell count, and equal exactly when no cell is a wall |
| SolverMaze.Scan | solver/maze.py:183-195 | a scan's result names a node and the cell it sits on, at least as far on as the scan started |
| SolverMaze.Hit | solver/maze.py:177-209 | node k's scan names a node at distance at least 1 |
| SolverMaze.ScanHit | solver/maze.py:183-195 | a scan that finds a node stops at a clear node cell within the grid, having passed only clear non-node cells |
| SolverMaze.ScanMiss | solver/maze.py:183-200 | a scan that finds nothing passes no node before the first wall or the edge |
| SolverMaze.HitsUnique | solver/maze.py:183-209 | two nodes whose scans end on the same node are the same node, so every node gets at most one back link per direction |
| SolverMaze.SameStart | solver/maze.py:183-209 | scans from two node cells that end on the same node start from the same cell |
| SolverMaze.NotPassed | solver/maze.py:183-195 | a scan passes no node cell before the one it finds |
| SolverMaze.Scans | solver/maze.py:177-209 | every node's scan result, each naming a node, no two ending on the same node |
| SolverMaze.Connections | solver/maze.py:176-209 | the linked nodes keep their cells, and each keeps four links and distances |
| SolverMaze.Relink | solver/maze.py:189-194 | setting a forward link and its back link keeps every cell and the node shape |
| SolverMaze.RowStep | solver/maze.py:183-195 | one row scan's links take the connection state one node further along rows |
| SolverMaze.ColumnStep | solver/maze.py:197-209 | one column scan's links take the connection state one node further along columns |
| SolverMaze.BackLinkSource | solver/maze.py:195-209 | a backward link comes from an earlier scan that ended on the node: the scanning node's cell and that scan's distance |
| SolverMaze.ConnectionsLinkNodes | solver/maze.py:176-209 | after `calc_connections` on unlinked nodes, every link names a node cell and has a distance of at least one |
| SolverMaze.LinksSymmetric | solver/maze.py:183-209 | when node k's scan ends on node p at distance d, k links forward to p and p links back to k, both at distance d |
| SolverMaze.SlotsKept | solver/maze.py:183-209 | a forward slot keeps its value when its node's scan finds nothing; a back slot keeps it when no scan ends on the node |
| SolverMaze.Maze.constructor | solver/maze.py:25-36 | the given size, zero counts, no nodes, `rows*cols` zero cells (none when that is not positive) |
| SolverMaze.Maze.GetRow | solver/maze.py:76-78 | the row of a cell lies in [0, rows] |
| SolverMaze.Maze.GetCol | solver/maze.py:80-82 | the column of a cell lies in [0, cols) |
| SolverMaze.Maze.GetAbove | solver/maze.py:84-86 | the neighbour above is clamped into [0, size] |
| SolverMaze.Maze.GetBelow | solver/maze.py:88-90 | the neighbour below is clamped into [0, size] |
| SolverMaze.Maze.GetLeft | solver/maze.py:92-94 | the neighbour to the left is clamped into [0, size] |
| SolverMaze.Maze.GetRight | solver/maze.py:96-98 | the neighbour to the right is clamped into [0, size] |
| SolverMaze.Maze.CellCoordinates | solver/maze.py:72-82 | a cell's row and column are its quotient and remainder by cols, and `get_absolute_index` maps them back to the cell |
| SolverMaze.Maze.CoordinatesCell | solver/maze.py:72-82 | `get_row` and `get_col` invert `get_absolute_index` on the grid |
| SolverMaze.Maze.NeighbourOffsets | solver/maze.py:84-98 | inside the grid the neighbours are the cell minus or plus one row, minus or plus one |
| SolverMaze.Maze.NeighboursIgnoreRows | solver/maze.py:88-94 | the left neighbour of a row's first cell is the previous row's last cell, and below the last cell is the size |
| SolverMaze.Maze.GetNodeArrayIndex | solver/maze.py:38-44 | the first node position with the cell, or -1 |
| SolverMaze.Maze.GetNode | solver/maze.py:46-51 | the first node with the cell, or None exactly when there is none |
| SolverMaze.Maze.GetTraversibleCells | solver/maze.py:120-126 | the number of cells without the wall bit |
| SolverMaze.Maze.VisitCell | solver/maze.py:152-172 | one cell appends its node, its junction node and its counts exactly as it classifies |
| SolverMaze.Maze.CalcNodes | solver/maze.py:144-172 | appends one node per node cell and one junction node per junction cell, in cell order, and adds the junction and dead-end counts. The junction count keeps matching the junction list. |
| SolverMaze.Maze.ScanRow | solver/maze.py:183-195 | the row scan from a node finds the first node to its right before a wall, with its distance |
| SolverMaze.Maze.ScanColumn | solver/maze.py:197-209 | the column scan from a node finds the first node below it before a wall, with its distance |
| SolverMaze.Maze.CellPosition | solver/maze.py:178-180 | a node cell's row and column are in the grid and are its quotient and remainder by cols |
| SolverMaze.Maze.ConnectNode | solver/maze.py:177-209 | one node's two scans and their links take the connection state one node further |
| SolverMaze.Maze.CalcConnections | solver/maze.py:176-209 | the nodes become the linked graph of all scans over the cells (see LinksSymmetric, SlotsKept) |
| Dijkstra.PositionOfNode | solver/solver.py:32 | in a graph of distinct cells, every node is found at its own position |
| Dijkstra.Target | solver/solver.py:37-39 | a link leads to the node holding the linked cell |
| Dijkstra.Weight | solver/solver.py:48 | every link has a positive distance |
| Dijkstra.Len | solver/solver.py:48 | a walk is at least as long as its number of edges |
| Dijkstra.Cells | solver/solver.py:70-84 | the cells of a walk's nodes, in order |
| Dijkstra.SizeUpdate | solver/solver.py:27 | the heap size changes by exactly the entry removed or added |
| Dijkstra.SizeZero | solver/solver.py:27 | the heap is empty exactly when no node has a key |
| Dijkstra.Insert | solver/solver.py:55 | insert gives the node the key, touches nothing else, and grows the size by one |
| Dijkstra.DecreaseKey | solver/solver.py:61 | decrease_key lowers the node's key, touches nothing else, and keeps the size |
| Dijkstra.ExtractMin | solver/solver.py:29-31 | removes a node with the smallest key, shrinking the size by one |
| Dijkstra.NotQueuedNone | solver/solver.py:20 | a fresh `nodes_in_queue` leaves all `node_count` nodes never queued |
| Dijkstra.ConnectionsAreAGraph | solver/maze.py:176-209 | `calc_connections` over unlinked nodes on distinct cells leaves a graph whose links name node cells at positive distances |
| Dijkstra.MazeGraphOk | solver/maze.py:144-209 | the nodes `calc_nodes` makes from any maze, once linked, form such a graph, so the search's precondition holds for them |
| Dijkstra.NotQueuedMark | solver/solver.py:53-56 | queuing a new node leaves one fewer never-queued node |
| Dijkstra.Initial | solver/solver.py:5-24 | only the first node has a distance (0) and is queued; no predecessor, nothing visited |
| Dijkstra.InitialInv | solver/solver.py:5-24 | the initial state satisfies the search invariant |
| Dijkstra.ExtractKeeps | solver/solver.py:29-32 | extracting a node with the smallest key starts its exploration with the invariant kept |
| Dijkstra.Improve | solver/solver.py:51-63 | the neighbour gets the new distance, the explored node as predecessor, and a heap key equal to the distance |
| Dijkstra.ImproveKeeps | solver/solver.py:48-63 | a strictly shorter distance to an unvisited neighbour keeps the invariant, whether the neighbour is inserted or decreased |
| Dijkstra.ImproveQueued | solver/solver.py:51-63 | the heap keys stay equal to the distances of queued nodes |
| Dijkstra.ImproveOrdered | solver/solver.py:51-63 | explored nodes stay no farther than queued ones |
| Dijkstra.ImproveRelaxed | solver/solver.py:48-63 | the edge just followed is relaxed, and earlier ones stay relaxed |
| Dijkstra.ImprovePrevs | solver/solver.py:58-63 | every predecessor still lies on a shortest edge back |
| Dijkstra.SkipKeeps | solver/solver.py:37-66 | a missing link, a visited neighbour or no shorter distance keeps the invariant |
| Dijkstra.FinishKeeps | solver/solver.py:68 | marking the node visited after its four slots keeps the invariant |
| Dijkstra.WalkBound | solver/solver.py:27-68 | after the loop, every walk from a node with a distance ends at a node whose distance is at most the start's plus the walk's length |
| Dijkstra.RelaxSlot | solver/solver.py:37-66 | relaxing one slot keeps the invariant and the termination measure, and no recorded distance disappears or grows |
| Dijkstra.ExploreNeighbours | solver/solver.py:36-66 | relaxing all four slots keeps the invariant and the termination measure, and no recorded distance disappears or grows |
| Dijkstra.Search | solver/solver.py:5-68 | the loop ends with an empty heap and the invariant: reachable nodes have shortest distances and predecessors leading back. The loop runs once per node ever queued, so at most once per node. |
| Dijkstra.WalkCons | solver/solver.py:70-84 | an edge in front of a walk gives a walk longer by its distance |
| Dijkstra.CellsCons | solver/solver.py:70-84 | the cells of a walk with one more node in front |
| Dijkstra.BackStep | solver/solver.py:73-81 | one step back along a predecessor extends the walk back to the end and strictly lowers the distance |
| Dijkstra.BackDone | solver/solver.py:73-81 | the walk back stops at the start with the end's distance as its length, or at once when the end was not reached |
| Dijkstra.Reconstruct | solver/solver.py:70-84 | the path is the cells of a walk ending at the end node, starting at the start when the end was reached, and of the end's distance |
| Dijkstra.FindPath | solver/solver.py:4-84 | the cells of a shortest route from the first node to the last; the last node's cell alone when there is no route; the IndexError for a maze without nodes |
| Dijkstra.AsWrittenLoop | solver/solver.py:73-81 | the path as written only ever grows in front of what it held |
| Dijkstra.ReconstructAsWritten | solver/solver.py:70-84 | when the loop as written stops, its path ends with the end node's cell |
| Dijkstra.ExampleIsGraph | solver/solver.py:4-8 | the example's three nodes form a valid graph |
| Dijkstra.ExampleEnd | solver/solver.py:76 | in the example the end node's cell 5 is at position 2, the middle node's cell |
| Dijkstra.ExampleFinalPrev | solver/solver.py:5-68 | any finished search of the example leaves predecessors [None, 0, 2] |
| Dijkstra.ExampleLoops | solver/solver.py:73-81 | from cell 2 the loop as written never stops |
| Dijkstra.ExampleNeverEnds | solver/solver.py:70-84 | the reconstruction as written never stops on the example |
| Dijkstra.AsWrittenNeverEnds | solver/solver.py:4-84 | a search of the example followed by the reconstruction as written never returns |
| Solve.Maze.constructor | solver/solve.py:31-34 | the given size and `rows*cols` zero cells |
| Solve.Maze.GetRow | solver/solve.py:48-49 | the row of a cell lies in [0, rows] |
| Solve.Maze.GetCol | solver/solve.py:51-52 | the column lies in [0, cols) |
| Solve.Maze.GetSize | solver/solve.py:54-55 | the size is never negative and, for a maze with one cell per row and column, is rows times cols |
| Solve.Maze.SetCell | solver/solve.py:57-58 | only the given cell changes, to the value |
| Solve.DivTruncates | solver/solve.py:49 | true division of a cell index by cols, truncated, is floor division, and stays below the row count |
| Solve.RowColOfIndex | solver/solve.py:113-117 | for every cell index the row and column are its quotient and remainder, and map back to the index |
| Solve.FourBits | solver/solve.py:23-28 | the four flags of UP, DOWN, LEFT and RIGHT are independent bits |
| Solve.AsWrittenBits | solver/solve.py:119-135 | as written, a wall is 0. Otherwise UP and DOWN follow their probes, the LEFT bit means exactly one side is open, and the RIGHT bit means both are; values stay below 12. |
| Solve.AsWrittenLosesLeft | solver/solve.py:132-135 | as written, a cell open on both sides loses the LEFT bit and gains RIGHT |
| Solve.IntendedBits | solver/solve.py:119-135 | corrected: a wall is 0, and otherwise each of the four bits is set exactly when its probe reads white |
| Solve.DecodeCell | solver/solve.py:114-135 | decoding one cell sets exactly that cell to its value |
| Solve.AddIfOpen | solver/solve.py:120-135 | one probe adds its flag exactly when it reads white |
| Solve.Decode | solver/solve.py:108-135 | the decoded maze has height/8 rows and width/8 columns, and every cell holds the value of its sample pixel and probes |
| Solve.FirstHelp | solver/solve.py:91-93 | the first option asking for help, or -1 when none does |
| Solve.LastInput | solver/solve.py:94-96 | the last option naming the input file, or -1 |
| Solve.ProcessOptions | solver/solve.py:83-99 | shows the usage exactly when a help option is given or no input option is; otherwise proceeds with the last input argument |

## Left out

- The JavaFX window, drawing, `doAnimation`, `exportImage`, the `AnimatedImage` class and the frame images. A frame is the matrix snapshot it renders, together with the highlighted cell.
- `prim`, `combo`, `btree` and `ab`: only `dfs` is implemented in Maze.java. `prim` throws, and the others are not part of this model, so `DoNewMaze` reports an error for every mode other than BACKTRACK.
- The `iters` counter and the console messages of Main.java.
- `java.util.Random`: the direction is an unconstrained choice among the candidates.
- MazeApp.App.HandleKey: the X key (export) changes no modelled state. An exception thrown by F5 or F6 is swallowed, with the maze left as `doNewMaze` left it.
- `launch` and `showUsage`, and the `System.exit` after invalid flags: `ApplyArgs` returns false in that case.
- MazeApp.ParseInt: digits are the ASCII digits only. `Integer.parseInt` also accepts other Unicode decimal digits, which are not modelled.
- The fibheap package's FibonacciHeap is not part of this model. Dijkstra.ExtractMin: the heap is modelled as a key per node position. Among equal keys the lowest position is extracted, where the Fibonacci heap may pick another; the proved properties hold for any choice of minimum.
- Dijkstra.Search: requires the graph that `calc_connections` leaves (`GraphOk`). It does not model an arbitrary `maze.nodes`, for instance one with links to cells that are not nodes.
- Dijkstra.AsWrittenLoop: runs for at most `fuel` rounds and answers None when it has not stopped by then. Non-termination is stated as "None for every fuel".
- The `debug` parameter and every print of solver.py, maze.py and solve.py, including `print_maze` and `print_connections`.
- `get_node` in solver.py, line 38, as a separate search. Its result becomes the node that is queued and later extracted as `curr`. Because node cells are distinct (`GraphOk`), `get_node(nbr)` is `maze.nodes[nbr_index]`, so the model queues positions and Search reads `maze.nodes[u]`.
- `get_rows`, `get_cols`, `get_dead_ends`, `get_junctions` and `get_nodes` of maze.py: field reads used only by `print_maze` and the statistics. Also `get_junction_node_array_index`, a linear search of `junction_nodes` that only `print_maze` calls. `get_cell` of maze.py is never called; the `get_cell` of solve.py's own Maze class is `Solve.Maze.GetCell`.
- Helpful.HammingWeight: requires a non-negative number. In Python a negative n never terminates, because `-1 >> 1 == -1`; this non-termination is not modelled.
- Dijkstra.DecreaseKey: solver.py, line 61, passes the maze Node kept in `nodes_in_queue`, not the handle that `insert` returned. The model assumes the heap finds the entry of that node and lowers its key. The fibheap package is not part of this model, so whether it accepts a node rather than its handle is not established.
- The `n not in self.nodes` test of maze.py, line 157. It compares a fresh Node by identity, so it always holds, and `VisitCell` leaves it out.
- Object identity of the nodes. A node is a value, so `junction_nodes` shares no object with `nodes`. Only the cells of junction nodes are ever read.
- SolverMaze.Maze.ConnectNode: performs both scans of a node before setting its links, where the source interleaves them. A scan reads only the cells and the node cells, which no link changes, so the results are the same.
- Solve.Decode: requires an image whose sides are multiples of 8 pixels. Otherwise `rows` and `cols` are fractional floats, and `[0] * int(rows*cols)` and the loop behave in ways not modelled.
- getopt, PIL's `Image.open`, the FileNotFoundError path and `sys.exit`. ProcessOptions takes the parsed option pairs, and Decode takes the loaded pixels.
- `get_absolute_index` of solve.py (lines 45-46): it lacks `self` and is never called.
- Helpful.RequiredOptions.constructor: takes the initial list explicitly. The shared mutable default `options=[]` is not modelled.
- `usage_and_exit` of helpful.py.

## Findings

| source | as written | input that shows it | evidently intended | confidence | as-written member | corrected member |
|---|---|---|---|---|---|---|
| solver/solver.py:76-81 | every round compares `current`, a cell index, with the end node's position in the node list | a 2x3 maze with nodes at cells 0, 2 and 5, whose search leaves predecessors [None, 0, 2]: cell 2 equals the end node's position 2, so the loop goes back to cell 5 and repeats forever | start from the end node's cell and step to `prev[position(current)]` until None | not executed | Dijkstra.AsWrittenNeverEnds | Dijkstra.Reconstruct |
| solver/solve.py:132-135 | the probe at column plus 8 adds `CellConnections.LEFT` | a non-wall cell whose left and right probes both read white decodes to 4 + 4 = 8, which is the RIGHT bit, and loses LEFT | the column-plus probe adds `CellConnections.RIGHT` | not executed | Solve.AsWrittenLosesLeft | Solve.IntendedBits |
