# Grid pathfinding: a Dafny model

This project models the search core of a small maze pathfinder. The program
has three parts:

- `pathfinding_algorithms/maze.py`. An editable `rows x columns` grid of
  state tokens: `'0'` empty, `'S'` start, `'G'` goal, `'X'` blocked, `'V'`
  visited, `'E'` explored and `'P'` path. It runs five single-step
  searches: breadth-first, depth-first, Dijkstra, greedy best-first and A*.
  Each step pops one entry from the open list. If the entry is the goal,
  the step rebuilds the path from the goal's back-pointers, paints it and
  returns `True`. Otherwise the step:
  - closes the node and marks it explored;
  - opens every neighbour that is neither open nor closed, with a
    back-pointer and the state `'V'`;
  - re-sorts the open list by cost (the three priority strategies only).

  The window can also save the maze as comma-separated text and load it
  back.
- `astar.py`, an older script with the same A* step on a fixed 12 x 12
  grid. Its cost grid is the distance to the start plus the distance to
  the goal.
- `bfs.py`, an older breadth-first script. It keeps the whole path inside
  each frontier entry instead of back-pointers.

The Dafny modules follow that structure:

- `Cells`: tokens, grids, `set_node`, `get_actions` and `check_position`'s
  scan.
- `StableSort`: the stable sort by cost.
- `Engine`: the pure specification of one step, the invariant it keeps and
  the lemmas that prove it kept.
- `CostModels`: `calculate_cost_grid`.
- `SearchFacts`: what a step does beyond the invariant.
- `Runs`: sequences of steps. Dijkstra's runs pop the same positions as
  BFS's, and A*'s the same as greedy best-first's.
- `Persist`: `save` and `load`.
- `Maze`: the window as a class whose methods update its fields in place.
  Each method is proved equal to the specification.
- `Scripts`, `AStarScript` and `BfsScript`: the two scripts.

The five step methods of the window differ only in three things: which end
they pop, the cost grid and the re-sort. The model writes one `Step`,
parameterised by the strategy that `run` selected.

## Model

| member | source | states |
|---|---|---|
| Cells.SetCellEffect | pathfinding_algorithms/maze.py:186-189 | On an 'S' or 'G' cell the grid is unchanged. Otherwise the named cell becomes the given state and every other cell and every row length stays the same. The scripts' `set_node` (astar.py:57-60, bfs.py:70-73) is the same write and is modelled by the same function. |
| Cells.Write | pathfinding_algorithms/maze.py:236-237 | An unprotected cell write (as in the path painting) changes exactly that cell. |
| Cells.SetCellLayout | pathfinding_algorithms/maze.py:188-189 | Writing 'V' or 'E' through `set_node` onto a cell that is not blocked keeps the start, goal and blocked cells. |
| Cells.Targets | pathfinding_algorithms/maze.py:220-222 | The candidate moves are the current node plus each action offset, in the actions' order. |
| Cells.OpenAmong | pathfinding_algorithms/maze.py:223-224 | The filter keeps exactly the candidates inside the grid that are not 'X'. |
| Cells.NeighboursSpec | pathfinding_algorithms/maze.py:217-225 | A position is returned if and only if it is an orthogonal neighbour inside `rows x columns` and not 'X'. There are at most four, in strictly increasing UP, DOWN, LEFT, RIGHT order. |
| Cells.AdjacentIsTarget | pathfinding_algorithms/maze.py:154 | The four actions reach exactly the orthogonal neighbours. |
| Cells.NeighboursOrder | pathfinding_algorithms/maze.py:154 | Returned moves keep the order of the actions dictionary. |
| Cells.NeighboursOpen | pathfinding_algorithms/maze.py:223 | Every returned move is an open orthogonal neighbour. |
| Cells.NeighboursDistinct | pathfinding_algorithms/maze.py:220-224 | No move is returned twice. |
| Cells.NeighboursSameLayout | pathfinding_algorithms/maze.py:223 | Grids with the same blocked cells give the same moves, whatever the 'V'/'E' marks. |
| Cells.RowMatchesSpec | pathfinding_algorithms/maze.py:75-79 | The scan of one row finds exactly that row's cells holding the state, left to right. |
| Cells.GridMatchesSpec | pathfinding_algorithms/maze.py:71-80 | The scan finds a cell if and only if it holds the state. The matches come in strictly increasing row-major order. |
| Cells.MatchAt | pathfinding_algorithms/maze.py:76 | A grid cell is among the matches exactly when it holds the state. |
| Cells.FirstMatchIsLeast | pathfinding_algorithms/maze.py:77-78 | The cell returned for 'S' or 'G' comes, in row-major order, before every other cell holding it. |
| StableSort.InsertMultiset | pathfinding_algorithms/maze.py:247 | Inserting one entry adds exactly that entry. |
| StableSort.InsertSorted | pathfinding_algorithms/maze.py:247 | Inserting into a cost-sorted list keeps it sorted. |
| StableSort.InsertWithCost | pathfinding_algorithms/maze.py:247 | Inserting an entry puts it ahead of every entry of its own cost and keeps their order, so equal costs keep insertion order. |
| StableSort.SortKeepsEntries | pathfinding_algorithms/maze.py:247 | The sorted list has exactly the entries of the list it sorts. |
| StableSort.SortByCostSpec | pathfinding_algorithms/maze.py:247 | `sort(key=lambda x: x[1])` keeps the length, orders by cost, is a permutation, and is stable: the entries of each cost keep their relative order. |
| StableSort.SortConstantIsIdentity | pathfinding_algorithms/maze.py:203 | With the flat cost grid every entry has the same cost, so the sort changes nothing. |
| StableSort.Shift | pathfinding_algorithms/maze.py:207 | Adding a constant to every cost keeps each position and raises each cost by that constant. |
| StableSort.SortShift | pathfinding_algorithms/maze.py:300 | Sorting after raising every cost by the same amount is the same as raising the costs of the sorted list. |
| CostModels.MethodFor | pathfinding_algorithms/maze.py:130-144 | `run` passes no method to BFS and DFS, "cost" to Dijkstra, "heuristic" to greedy best-first and "cost+heuristic" to A*, each if and only if. |
| CostModels.CostGrid | pathfinding_algorithms/maze.py:198-211 | A `rows x columns` grid holding `self.cost` everywhere, or the Manhattan distance to the goal, or that distance plus `self.cost`, or 0 everywhere for any other method. |
| CostModels.FlatPlusHeuristicIsShift | pathfinding_algorithms/maze.py:205-207 | The A* grid is the greedy grid with `self.cost` added to every cell. |
| CostModels.ManhattanStep | pathfinding_algorithms/maze.py:205 | One orthogonal move changes the distance to the goal by exactly one. |
| CostModels.HeuristicZeroAtGoal | pathfinding_algorithms/maze.py:205 | The heuristic is never negative, and it is zero exactly at the goal. |
| CostModels.HeuristicConsistent | pathfinding_algorithms/maze.py:205 | Neighbouring cells' heuristics differ by exactly one. |
| Engine.PopIndex | pathfinding_algorithms/maze.py:269 | The index is always valid. DFS pops the last entry (`pop(-1)`), and every other strategy pops the first (`pop(0)`). |
| Engine.DropLast | pathfinding_algorithms/maze.py:236 | `full_path[:-1]` is one element shorter (empty for an empty path) and agrees with the path at every index it keeps. |
| Engine.PaintPathEffect | pathfinding_algorithms/maze.py:236-237 | After painting, a cell is 'P' exactly when it is among the painted cells. Every other cell is unchanged. |
| Engine.Visit | pathfinding_algorithms/maze.py:242-246 | Its own contract only keeps the grids sized `rows x columns`. What it does is stated by Engine.VisitInv (invariant, layout, closed list) and by SearchFacts.ExpandAllFacts (it only appends an unseen neighbour and points it at the current node). |
| Engine.ExpandAll | pathfinding_algorithms/maze.py:241-246 | Its own contract only keeps the grids sized. Its meaning is stated by Engine.ExpandAllInv and SearchFacts.ExpandAllFacts. |
| Engine.Closing | pathfinding_algorithms/maze.py:233-240 | Its own contract only keeps the grids sized. Its meaning is stated by Engine.ClosingInv (invariant and layout kept) and SearchFacts.StepFacts (exactly the popped node is closed). |
| Engine.Finished | pathfinding_algorithms/maze.py:234-238 | Its own contract only keeps the grids sized. Its meaning is stated by SearchFacts.GoalStepPath (the recorded path and the 'P' cells). |
| Engine.Expanded | pathfinding_algorithms/maze.py:239-246 | Its own contract only keeps the grids sized. Its meaning is stated by SearchFacts.ExpandedFacts and SearchFacts.ExpandedNeverReopens. |
| Engine.ChainFacts | pathfinding_algorithms/maze.py:191-196 | The loop of `generate_path` collects only closed nodes. The collected path is empty exactly when the node has no back-pointer. Each element is the back-pointer of the one before, and the last has none. |
| Engine.ChainDistinct | pathfinding_algorithms/maze.py:194-196 | The walk never repeats a node, so it ends, and is no longer than the closing rank of its first node. |
| Engine.InitialInv | pathfinding_algorithms/maze.py:146-151 | On a grid with exactly one 'S' and one 'G', the state `run` sets up (the start with its cost, nothing closed, no back-pointers) satisfies the invariant. |
| Engine.InvStepPre | pathfinding_algorithms/maze.py:233 | Under the invariant a step is defined whenever the open list is not empty. |
| Engine.PopFacts | pathfinding_algorithms/maze.py:233 | `pop` removes exactly the popped entry, and no other open entry holds the popped position. |
| Engine.ClosingInv | pathfinding_algorithms/maze.py:239-240 | Closing the popped non-goal node and marking it 'E' keeps the invariant and the start, goal and blocked cells. |
| Engine.ClosingClosedInv | pathfinding_algorithms/maze.py:239-240 | The popped node was not closed yet, so `closed_nodes` stays free of repeats. Every closed node stays in bounds and unblocked, and has a back-pointer unless it is the start. |
| Engine.ClosingRanked | pathfinding_algorithms/maze.py:239 | Appending the popped node to `closed_nodes` keeps every back-pointer pointing to an earlier closed node. |
| Engine.VisitInv | pathfinding_algorithms/maze.py:242-246 | One neighbour iteration keeps the invariant, the layout and the closed list. |
| Engine.ExpandAllInv | pathfinding_algorithms/maze.py:241-246 | The whole neighbour loop keeps the invariant, the layout and the closed list. |
| Engine.SortInv | pathfinding_algorithms/maze.py:247 | Re-sorting the open list keeps the invariant. |
| Engine.PaintedCells | pathfinding_algorithms/maze.py:236 | Every painted cell is a closed node with a back-pointer. |
| Engine.GoalStepInv | pathfinding_algorithms/maze.py:234-238 | The goal step keeps the invariant. Painting never overwrites the start, the goal or a blocked cell. |
| Engine.ClosedPlain | pathfinding_algorithms/maze.py:236-237 | A closed node with a back-pointer is an in-bounds cell that is not 'S', 'G' or 'X'. |
| Engine.PaintLayout | pathfinding_algorithms/maze.py:236-237 | Painting cells that are not 'S', 'G' or 'X' keeps the layout. |
| Engine.ExpandedInv | pathfinding_algorithms/maze.py:239-246 | A non-goal step before its re-sort keeps the invariant and the layout. |
| Engine.StepInv | pathfinding_algorithms/maze.py:231-248 | Every step keeps the invariant, and so the start, goal and blocked cells. The invariant covers unique S and G; open entries in bounds, with their own cost, not closed, not blocked and present once; distinct closed nodes; and back-pointers that are acyclic, orthogonal, never from the start and always to a closed node. |
| SearchFacts.ExpandAllFacts | pathfinding_algorithms/maze.py:241-246 | The neighbour loop only appends to the open list. It only adds back-pointers to the current node, and it keeps every other pointer except the goal's. |
| SearchFacts.ExpandedFacts | pathfinding_algorithms/maze.py:239-246 | A non-goal step appends exactly the popped node to the closed list. New open entries are neighbours of it that were never closed. |
| SearchFacts.StepFacts | pathfinding_algorithms/maze.py:239-248 | A non-goal step returns `False` and closes exactly the popped node, which was not closed before. It keeps every back-pointer but the goal's and points each new one at the popped node. |
| SearchFacts.StepNeverReopens | pathfinding_algorithms/maze.py:243 | A non-goal step keeps every open entry it did not pop. It adds only neighbours of the popped node that were not closed, so a closed node never returns to the open list. |
| SearchFacts.ExpandedNeverReopens | pathfinding_algorithms/maze.py:243-246 | The same as StepNeverReopens, before the re-sort. |
| SearchFacts.ExpandedKeepsOthers | pathfinding_algorithms/maze.py:233-246 | Before the re-sort, every open entry that was not popped is still open. |
| SearchFacts.ExpandedAddsFresh | pathfinding_algorithms/maze.py:243-246 | Before the re-sort, every open entry was open before or is a neighbour of the popped node that was never closed. |
| SearchFacts.ChainWalk | pathfinding_algorithms/maze.py:191-196 | From a node with a back-pointer, `generate_path` gives a walk between orthogonal neighbours. The walk starts next to that node, never repeats, stays among the closed nodes and ends at the start. |
| SearchFacts.GoalStepPath | pathfinding_algorithms/maze.py:234-238 | The goal step returns `True`. It keeps the closed list and back-pointers and drops the popped entry. It records a path from next to the goal to the start, and paints 'P' exactly on `full_path[:-1]`, the cells strictly between start and goal. |
| SearchFacts.ClosedBound | pathfinding_algorithms/maze.py:239 | The closed list never has more nodes than the grid has cells. |
| SearchFacts.StepProgress | pathfinding_algorithms/maze.py:239 | Each non-goal step grows the closed list by one, which stays within `rows * columns`. |
| SearchFacts.Positions | pathfinding_algorithms/maze.py:243 | The positions of the open entries, in order. |
| SearchFacts.OpenPositions | pathfinding_algorithms/maze.py:243 | Because the cost is a function of the position, the test `(n, cost) not in open_nodes` is the same as `n` not being open. No position is open twice. |
| Runs.RunFlags | pathfinding_algorithms/maze.py:172-177 | In a run, only the step that pops the goal returns true, and it is the last step. |
| Runs.StepAtInv | pathfinding_algorithms/maze.py:179 | Each step of a run keeps the invariant and the layout. Before the goal, each step closes one more node. |
| Runs.RunCons | pathfinding_algorithms/maze.py:179 | A non-goal step in front of a run is again a run. |
| Runs.BuildRun | pathfinding_algorithms/maze.py:165-179 | From any state with the invariant, the run loop has a run of at most `n` steps. It ends at the goal, at an empty open list or after `n` steps. |
| Runs.RunExists | pathfinding_algorithms/maze.py:165-179 | Such a run exists from every state satisfying the invariant. |
| Runs.RunInv | pathfinding_algorithms/maze.py:165-179 | Every state of a run keeps the invariant and the start, goal and blocked cells. |
| Runs.RunClosed | pathfinding_algorithms/maze.py:239 | After `k` non-goal steps the closed list holds `k` more nodes. |
| Runs.RunBound | pathfinding_algorithms/maze.py:165-179 | A run takes at most one step per still-unclosed cell, plus the goal step. |
| Runs.VisitShift | pathfinding_algorithms/maze.py:242-246 | Raising every pushed cost by `d` commutes with one neighbour iteration. |
| Runs.ExpandAllShift | pathfinding_algorithms/maze.py:241-246 | Raising every pushed cost by `d` commutes with the neighbour loop. |
| Runs.ShiftedStepPre | pathfinding_algorithms/maze.py:233 | Shifting every cost keeps the step defined, both ways. |
| Runs.RemainingShift | pathfinding_algorithms/maze.py:233 | Shifted lists pop the same position and leave shifted remainders. |
| Runs.UniformStepZero | pathfinding_algorithms/maze.py:261-264 | BFS and DFS push only cost 0, so every open entry has cost 0. |
| Runs.ResortedShift | pathfinding_algorithms/maze.py:247 | Re-sorting commutes with shifting. When only the shifted side re-sorts, all its costs are equal and its sort changes nothing. |
| Runs.StepShift | pathfinding_algorithms/maze.py:231-265 | On states whose costs differ by `d`, one step pops the same position, returns the same flag and leaves states that again differ by `d`. |
| Runs.RunShift | pathfinding_algorithms/maze.py:165-179 | Two runs from states differing by `d` pop the same positions at every step. |
| Runs.AgreeAtEnd | pathfinding_algorithms/maze.py:165-179 | Equal-length runs from shifted states pop the same positions and end on the same grid, closed list, back-pointers and path. |
| Runs.RunFromSameLength | pathfinding_algorithms/maze.py:165-179 | Two loops with the same step bound from states differing by a constant cost take the same number of steps: they stop together, on the bound, on the goal or on an empty open list. |
| Runs.DijkstraRunsLikeBfs | pathfinding_algorithms/maze.py:165-179 | A Dijkstra loop and a BFS loop from the same maze with the same step bound take the same steps. One pops the goal exactly when the other does, and they end in the same grid, closed list, back-pointers and path. |
| Runs.AStarRunsLikeGreedy | pathfinding_algorithms/maze.py:165-179 | An A* loop and a greedy best-first loop with the same step bound take the same steps, solve alike and end alike. |
| Runs.DijkstraPopsLikeBfs | pathfinding_algorithms/maze.py:284-301 | With the flat "cost" grid, a Dijkstra run and a BFS run of the same length from the same maze pop the same positions and end in the same grid, closed list, back-pointers and path. |
| Runs.AStarPopsLikeGreedy | pathfinding_algorithms/maze.py:231-248 | A* pushes the greedy heuristic plus a constant, so its runs pop exactly the positions of greedy best-first runs of the same length and end in the same grid and path. |
| Persist.ParseGrid | pathfinding_algorithms/maze.py:85 | `load` has one row per line of the file, each the line stripped and split at the commas. |
| Persist.Split | pathfinding_algorithms/maze.py:85 | `split(',')` always gives at least one piece. |
| Persist.JoinRowClean | pathfinding_algorithms/maze.py:108-113 | A written row of clean cells holds no white space. |
| Persist.SplitJoinRow | pathfinding_algorithms/maze.py:85 | Splitting a written row of comma-free cells gives the row back. |
| Persist.LinesSerialise | pathfinding_algorithms/maze.py:107-114 | The written file has one line per row, each the row's joined cells and a newline. |
| Persist.LoadSaveRoundTrip | pathfinding_algorithms/maze.py:82-114 | Loading what the write loop wrote gives the grid back, for grids of clean, non-empty rows. |
| Persist.SavedGrid | pathfinding_algorithms/maze.py:99-104 | The maze `save` builds has the window's dimensions. |
| Persist.NewMaze | pathfinding_algorithms/maze.py:99-104 | The new maze is 'X' on the blocked cells, else 'G' at the goal, else 'S' at the start, else '0', because later writes win. |
| Persist.NewCellSaved | pathfinding_algorithms/maze.py:97-104 | With the blocked cells found by the scan, each new maze cell is the saved cell of the window's grid. |
| Persist.WriteRows | pathfinding_algorithms/maze.py:107-114 | The write loop emits the rows' joined cells, one line per row. |
| Persist.SavedMarks | pathfinding_algorithms/maze.py:99-104 | In the saved maze the start and the goal are the only 'S' and 'G'. Each cell is already a saved cell. |
| Persist.SaveIdempotent | pathfinding_algorithms/maze.py:92-104 | Saving the saved maze again builds the same maze, with the same start and goal. |
| Persist.FirstMatchHolds | pathfinding_algorithms/maze.py:77-78 | The position found for a state holds that state. |
| Persist.LoadSaved | pathfinding_algorithms/maze.py:82-114 | Loading the saved maze gives it back. |
| Maze.Blank | pathfinding_algorithms/maze.py:46 | A new window's grid is `rows x columns` of '0'. |
| Maze.StrategyNamed | pathfinding_algorithms/maze.py:130-144 | `run`'s if-chain selects the strategy of that menu name, and none for any other name. |
| Maze.StrategyNamesDistinct | pathfinding_algorithms/maze.py:130-144 | Every strategy is selected by its own name. |
| Maze.ChainNext | pathfinding_algorithms/maze.py:194-196 | One iteration of `generate_path` follows one back-pointer and lowers the closing rank. |
| Maze.ScanGrid | pathfinding_algorithms/maze.py:73-80 | The loop returns the first row-major match for 'S'/'G', when there is one. Otherwise it returns the full row-major list of matches, empty when none. |
| Maze.OpenMoves | pathfinding_algorithms/maze.py:219-225 | The loop returns the open orthogonal neighbours in action order (see Cells.NeighboursSpec). |
| Maze.FollowPointers | pathfinding_algorithms/maze.py:193-196 | The loop collects the back-pointer chain (see Engine.ChainFacts and SearchFacts.ChainWalk). |
| Maze.SaveFound | pathfinding_algorithms/maze.py:99-114 | Builds and writes the saved maze. Loading the text gives that maze back. |
| Maze.MazeWindow.constructor | pathfinding_algorithms/maze.py:6-46 | Sets the dimensions and cost and an all-'0' grid. |
| Maze.MazeWindow.CheckPosition | pathfinding_algorithms/maze.py:71-80 | `check_position` on the window's grid, with ScanGrid's contract. |
| Maze.MazeWindow.Load | pathfinding_algorithms/maze.py:82-90 | The grid becomes the parsed text and `rows` its line count. `columns` is the first row's length, and the call fails exactly for an empty file (after `grid` and `rows` are replaced). When every line is as long as the first, the window is left Shaped. |
| Maze.MazeWindow.Save | pathfinding_algorithms/maze.py:92-114 | Fails exactly when 'S' or 'G' is missing. Otherwise writes the saved maze, and loading the text gives it back. |
| Maze.MazeWindow.SetNode | pathfinding_algorithms/maze.py:186-189 | The grid becomes the protected write of Cells.SetCellEffect. |
| Maze.MazeWindow.GeneratePath | pathfinding_algorithms/maze.py:191-196 | `full_path` becomes the back-pointer chain from the node. |
| Maze.MazeWindow.GetActions | pathfinding_algorithms/maze.py:217-225 | Returns the open orthogonal neighbours in UP, DOWN, LEFT, RIGHT order. |
| Maze.MazeWindow.CalculateCostGrid | pathfinding_algorithms/maze.py:198-215 | Gives the method's cost grid around the first 'G'. It fails exactly when the method reads the goal and there is none. |
| Maze.MazeWindow.ClearMaze | pathfinding_algorithms/maze.py:227-229 | The grid becomes the backup exactly. |
| Maze.MazeWindow.Prepare | pathfinding_algorithms/maze.py:130-157 | Fails, changing nothing, exactly when 'S' or 'G' is missing. Otherwise it sets up `run`'s configuration and the invariant's initial state, backs up the grid and leaves the grid itself unchanged. |
| Maze.MazeWindow.Start | pathfinding_algorithms/maze.py:147-157 | The field writes of the set-up, and nothing else. |
| Maze.MazeWindow.MarkPath | pathfinding_algorithms/maze.py:236-237 | Paints `full_path[:-1]` with 'P'. |
| Maze.MazeWindow.VisitNeighbours | pathfinding_algorithms/maze.py:241-246 | The neighbour loop updates grid, open list and back-pointers exactly as Engine.ExpandAll does. |
| Maze.MazeWindow.PopNode | pathfinding_algorithms/maze.py:233 | `pop(0)`, or `pop(-1)` for DFS, gives the popped position and the remaining list. |
| Maze.MazeWindow.CloseNode | pathfinding_algorithms/maze.py:239-240 | Appends the node to `closed_nodes` and marks it 'E' by `set_node`. |
| Maze.MazeWindow.SortOpenNodes | pathfinding_algorithms/maze.py:247 | The open list becomes its stable sort by cost. |
| Maze.MazeWindow.Step | pathfinding_algorithms/maze.py:231-320 | One call of `a_star`, `breadth_first_search`, `depth_first_search`, `dijkstra` or `greedy_best_first_search`. The new fields and the result are those of the step specification, whose properties are Engine.StepInv, SearchFacts.StepFacts, SearchFacts.StepNeverReopens and SearchFacts.GoalStepPath. |
| Maze.MazeWindow.FinishRun | pathfinding_algorithms/maze.py:234-238 | The goal branch: record the chain and paint it, as Engine.Finished does. |
| Maze.MazeWindow.ExpandNode | pathfinding_algorithms/maze.py:239-247 | The other branch: close, visit the neighbours and re-sort, as the step specification does. |
| Scripts.GetActions | astar.py:26-35 | The scripts' `get_actions`, including the swapped bounds test and the IndexError it can raise, as a filter over the candidate moves. The function of bfs.py:39-48 is identical. |
| Scripts.PaintCells | astar.py:75-76 | The paint loop writes 'P' on exactly the given cells. |
| Scripts.SwappedSquare | astar.py:28-33 | On a square grid the swapped test keeps exactly the open targets, in order. |
| Scripts.SwappedNoneExtends | astar.py:33 | Once an index error occurs, the whole call fails. |
| Scripts.ScriptNeighbours | astar.py:13-14 | On the scripts' 12 x 12 grid their `get_actions` is the window's. |
| Scripts.SwappedFailsOffSquare | bfs.py:41-46 | On a grid of one row and two columns, from (0, 0), the swapped test indexes a missing row where the correct answer is [(0, 1)]. |
| AStarScript.DetourCost | astar.py:104-106 | A cell's cost is never below the start-goal distance. It equals that distance exactly on the rectangle between start and goal, so the start and the goal cells are among those that do. |
| AStarScript.CheckPosition | astar.py:90-94 | The first row-major cell holding the status, or None when there is none. |
| AStarScript.CalculateCostGrid | astar.py:97-107 | A 12 x 12 grid of detour costs around the first 'S' and 'G'. It fails exactly when one is missing. |
| AStarScript.GeneratePath | astar.py:63-68 | The back-pointer chain without its last node (the start). |
| AStarScript.VisitNeighbours | astar.py:80-85 | The neighbour loop is the shared one. |
| AStarScript.AStarStep | astar.py:71-87 | The script's step gives the grid, lists and back-pointers of the shared A* step, and returns `True` exactly when that step did not reach the goal. |
| BfsScript.Middle | bfs.py:80 | `path[1:-1]` is the path without its first and last node. |
| BfsScript.PushAll | bfs.py:85-90 | The neighbour loop keeps the grid 12 x 12. |
| BfsScript.PushNeighbours | bfs.py:85-90 | The loop's grid, frontier and visited list are those of PushAll. |
| BfsScript.BreadthFirstSearch | bfs.py:76-91 | The step's new grid and lists are those of the step specification. It returns `False` exactly when it popped the goal. |
| BfsScript.Tagged | bfs.py:90 | One frontier entry per added node, in order, each with the same path copy. |
| BfsScript.PushAllShape | bfs.py:85-90 | The loop keeps `expanded` and the visited prefix. The frontier becomes the old one followed by the newly visited nodes, each with the path. |
| BfsScript.PushAllFresh | bfs.py:86-89 | Only unvisited neighbours are added, and a distinct visited list stays distinct. |
| BfsScript.BfsStepFacts | bfs.py:76-91 | The frontier is FIFO: the step drops the front entry and appends one entry per newly visited node, carrying the popped walk. Newly visited nodes are fresh, adjacent and in bounds. `expanded` grows by exactly the popped node on a non-goal step, and nothing changes it on the goal step. |
| BfsScript.InitialWalks | bfs.py:106 | The initial frontier `[(start, [])]` is a walk from the start. |
| BfsScript.BfsStepWalks | bfs.py:77-90 | Every frontier entry's path plus its node stays a walk from the start between orthogonal neighbours, inside the grid. |
| BfsScript.GoalStepPaints | bfs.py:79-82 | The goal step's walk runs from the start to the goal. It paints 'P' exactly on the cells strictly between them. |
| BfsScript.MarkedLayout | bfs.py:79-90 | A grid with the same start, goal and blocked cells keeps the one 'S' at the start and the one 'G' at the goal. |
| BfsScript.LayoutKeepsOpen | bfs.py:84-90 | A cell that is not blocked stays unblocked in a grid with the same layout. |
| BfsScript.BfsInitialInv | bfs.py:106 | The script's initial state (lists empty at bfs.py:32-33), the start alone on the frontier with nothing expanded or visited, satisfies the run invariant. |
| BfsScript.PushAllCovers | bfs.py:85-90 | After the neighbour loop every given neighbour is visited, and no earlier visited node is lost. |
| BfsScript.PushAllLayout | bfs.py:85-88 | The loop's 'V' writes on unblocked cells keep the start, goal and blocked cells. |
| BfsScript.NonGoalStep | bfs.py:77-90 | A step that pops neither the goal nor a blocked node keeps the layout and adds the popped node to `expanded`. Every neighbour of that node ends up visited. The new entries, at the back, are unvisited open neighbours carrying the popped walk. |
| BfsScript.KeptEntryInv | bfs.py:77-90 | An entry that stays on the frontier keeps its invariant properties. |
| BfsScript.NewEntryInv | bfs.py:78-90 | A new entry is an open cell whose path holds only expanded nodes and returns to the start only at its head. A start that re-enters the frontier adds no entry, because all its neighbours are already visited. |
| BfsScript.MoveEntriesInv | bfs.py:77-90 | After a non-goal step, every frontier entry satisfies the invariant's conditions on entries. |
| BfsScript.MoveInv | bfs.py:77-90 | The whole invariant carries over a non-goal step. |
| BfsScript.BfsStepInv | bfs.py:76-91 | A step that does not pop the goal keeps the run invariant and the start, goal and blocked cells. The invariant includes a visited list with no repeats, inside the grid. |
| BfsScript.VisitedBound | bfs.py:86-89 | A visited list with no repeats, all inside the 12 x 12 grid, holds at most 144 nodes. |
| BfsScript.BfsStepMeasure | bfs.py:77-90 | A step that does not pop the goal keeps the visited list free of repeats and inside the grid. It lowers the frontier length plus the number of unvisited cells by exactly one. |
| BfsScript.BfsRunMeasure | bfs.py:121-122 | After k calls of the loop that do not pop the goal, that measure has dropped by k and is still at least zero. |
| BfsScript.BfsRunBound | bfs.py:106-122 | From the set-up (`frontier = [(start, [])]`, empty lists at bfs.py:32-33), the loop makes at most 12 * 12 + 1 calls that do not pop the goal. After that it pops the goal or finds the frontier empty. |
| BfsScript.GoalStepKeepsMarks | bfs.py:79-82 | From an invariant state, neither the start nor the goal lies in `path[1:-1]`. The unprotected 'P' writes keep the layout and leave the one 'S' and the one 'G' in place. |

## Left out

- Rendering (`draw_grid` in all three files), pygame set-up, icons and
  window-size arithmetic. These are display only.
- The frame loop of `run` and the hide-expansion loop
  (`pathfinding_algorithms/maze.py:159-184`), and the scripts' main loops.
  They are event handling. Their effect on the search is modelled as
  sequences of steps in `Runs`. The extra `clear_maze` and repaint of the
  hide-expansion loop are not modelled.
- `edit` (`pathfinding_algorithms/maze.py:322-369`), the mouse editor. It is
  UI, including its integer `0` writes and its repeated start comparison.
- File handles in `load` and `save`. The model works on the text.
  - Newline translation is not modelled.
  - `str.strip` is modelled for ASCII white space only, not Unicode white
    space.
- `menu_window.py`: the tkinter menu. It offers "A star" while `run`
  matches "A*", so that entry selects nothing; Maze.StrategyNamed shows
  the names `run` accepts. `pathfinding_algorithms/__main__.py` is a
  launcher and is not part of this model.
- An empty open list. The source pops without checking and raises
  IndexError. Every step requires a non-empty open list:
  - the window's steps through Engine.StepPre (maze.py:252, 269);
  - the A* script through Engine.StepPre as well, which AStarScript.AStarStep
    requires (astar.py:72);
  - the BFS script through BfsScript.BfsPre, `|frontier| > 0` (bfs.py:77).
    The source raises there once an unreachable goal has emptied the
    frontier.

  A run that empties the list simply ends (Runs.RunFrom, BfsScript.BfsRun).
- Engine.StepPre also requires back-pointers ranked by closing order, so
  that `generate_path` ends. The invariant provides that from the initial
  state on (Engine.InitialInv, Engine.StepInv); the source has no such
  check.
- The integer `0` that the scripts' grids start with and that the editor
  writes is modelled as the token "0". Only equality with the other tokens
  matters, and both differ from all of them.
- Scripts: `a_star` and `breadth_first_search` change the caller's lists
  in place. They are modelled as methods that take the lists and return
  their new values, so aliasing between the lists is not modelled. The
  globals `goal_node` and `cost_grid` are parameters. `actions` is the
  constant ACTIONS, in the dictionary's insertion order.
- `get_cost_node` is a single lookup and is inlined where it is used.
- Maze.MazeWindow.Prepare: returns `false`, changing nothing, whenever 'S'
  or 'G' is missing. `check_position` itself returns `[]` then
  (maze.py:71-80), and the source fails in one of three places:
  - 'G' missing under GBFS or A*: `calculate_cost_grid` indexes
    `goal_node[0]` during set-up (maze.py:205, 207).
  - 'S' missing: `get_cost_node(cost_grid, [])` fails during set-up
    (maze.py:149, 215).
  - 'G' missing under BFS, DFS or Dijkstra: set-up succeeds with
    `goal_node = []` and the search runs. No popped node equals `[]`, so it
    paints 'V' and 'E' until the open list is empty, and the next `pop`
    raises IndexError (maze.py:252, 269).

  The model does not model these crashes or the partial painting of the
  third case.
- Maze.MazeWindow.constructor: takes rows, columns and cost as integers.
  The source's defaults `rows=12, columns=12, cost=1` (maze.py:6) are not
  modelled, so callers pass all three. The `int(...)` conversions
  (maze.py:19-24) are not modelled either. Width, margin and title only
  size and name the window, so the model leaves them out.
- Maze.MazeWindow.Load: `load` does not reset `grid_backup`, and neither
  does the model. The window's pixel size is not modelled.
- Maze.MazeWindow.Load: the source accepts a file whose lines differ in
  length, but the model does not model such ragged grids. Load leaves the
  window Shaped (every row `columns` long) exactly when every line is as
  long as the first. Every other operation of the window requires
  Shaped, so the model says nothing about a ragged grid.
- The invariants of the step (Engine.StepInv and the lemmas in
  SearchFacts) are proved about the step specification on values. The
  class's Step is proved equal to that specification, so they carry over;
  the class methods themselves state only the specification.
- Cost arithmetic uses unbounded integers, as Python does.
- Engine.InitialInv: the window's invariant assumes exactly one 'S' and
  one 'G', as a grid written by `save` has them (Persist.SavedMarks).
  `load` accepts any file (maze.py:82-90), for example `S,0,S,G`. `run`
  then starts from the first 'S' and the first 'G' in row-major order,
  and its set-up state is outside the invariant. The source searches
  such a grid anyway: the unprotected 'P' writes of the goal step
  (maze.py:236-237) paint over an extra 'S' or 'G' that lies on the
  path, and `set_node` never marks one 'V' or 'E'. Engine.StepInv,
  Runs.RunInv, Runs.RunBound and SearchFacts.GoalStepPath say nothing
  about such grids.
- SearchFacts.GoalStepPath: proves that the painted cells form a walk
  from next to the goal back to the start, not that the walk is the
  shortest. The `generate_path` docstring says "optimal" (maze.py:192),
  but the model proves no path length. For DFS the promise does not
  hold: on an open 3 x 3 grid with the start at (0, 0) and the goal at
  (2, 0), DFS closes (0, 0), (0, 1), (0, 2), (1, 2), (2, 2) and (2, 1)
  before popping the goal, and paints 5 cells where a shortest path has
  1 cell between start and goal. Greedy best-first search does not
  promise it either, nor does A*, which pops like it
  (Runs.AStarRunsLikeGreedy). BFS, and Dijkstra through
  Runs.DijkstraRunsLikeBfs, are expected to find a shortest path, but
  the model does not prove it.
- BfsScript.BfsInv: assumes the grid holds one 'S' at the start and one 'G'
  at the goal, as the editor leaves it after one click for each. The
  editor's writes are unprotected (bfs.py:101-116), so a later click can
  put 'G' or 'X' over the start, or 'X' over the goal. Such grids are not
  covered by the invariant, and the editor itself is not modelled.

## Findings

| source | as written | input that shows it | evidently intended | confidence | as-written member | corrected member |
|---|---|---|---|---|---|---|
| astar.py:26-35, bfs.py:39-48 | `width = len(grid)` and `height = len(grid[0])`, then `new_x < height` and `new_y < width`: the row is compared with the row length and the column with the number of rows | a grid of one row and two columns, current node (0, 0): DOWN gives (1, 0), which passes `1 < 2`, and `grid[1]` raises IndexError | the row compared with the number of rows and the column with the row length, as `maze.py:223` does; the answer here is [(0, 1)] | not executed; harmless on the scripts' own 12 x 12 grid (Scripts.ScriptNeighbours) | Scripts.SwappedFailsOffSquare | Cells.NeighboursSpec |
