/** The maze window: the grid, the search state of a run and the methods
    that change them in place. The five step methods of the window differ
    only in the pop end, the cost grid and the re-sort, and are modelled by
    one `Step` parameterised by the strategy the run selected. */
module Maze {
  import opened Cells
  import opened StableSort
  import opened Engine
  import opened CostModels
  import opened Runs
  import opened Persist

  /** What check_position returns: the first cell for the start or the
      goal, the list of all matching cells otherwise (an empty list when the
      start or goal is missing). */
  datatype Found = Single(p: Pos) | Many(ps: seq<Pos>)

  /** The start and the goal are looked up once: check_position stops at
      the first of them. */
  predicate IsMark(state: string) {
    state == START || state == GOAL
  }

  /** The grid a new window starts with: every cell '0'. */
  function Blank(rows: nat, cols: nat): (g: Grid)
    ensures IsGrid(g, rows, cols)
    ensures forall i, j | 0 <= i < rows && 0 <= j < cols :: g[i][j] == EMPTY
  {
    seq(rows, _ => seq(cols, _ => EMPTY))
  }

  /** The menu names `run` recognises. */
  function AlgorithmName(st: Strategy): string {
    match st
    case BreadthFirst => "Breadth-first search (BFS)"
    case DepthFirst => "Depth-first search (DFS)"
    case Dijkstra => "Dijkstra's algorithm"
    case GreedyBestFirst => "Greedy best-first search (GBFS)"
    case AStar => "A*"
  }

  /** The if-chain of `run` choosing the step method: the strategy with that
      name, or nothing for any other name. */
  function StrategyNamed(name: string): (r: Option<Strategy>)
    ensures r.Some? ==> AlgorithmName(r.value) == name
    ensures r.None? ==> forall st :: AlgorithmName(st) != name
  {
    if name == "Breadth-first search (BFS)" then Some(BreadthFirst)
    else if name == "Depth-first search (DFS)" then Some(DepthFirst)
    else if name == "Dijkstra's algorithm" then Some(Dijkstra)
    else if name == "Greedy best-first search (GBFS)" then Some(GreedyBestFirst)
    else if name == "A*" then Some(AStar)
    else None
  }

  /** Every strategy is selected by its own name. */
  lemma StrategyNamesDistinct(st: Strategy)
    ensures StrategyNamed(AlgorithmName(st)) == Some(st)
  {
  }

  /** The cost methods that read the goal position. */
  predicate NeedsGoal(m: CostMethod) {
    m == Heuristic || m == FlatPlusHeuristic
  }

  /** One step along the back-pointers, which lowers the closing rank. */
  lemma ChainNext(bp: map<Pos, Pos>, closed: seq<Pos>, p: Pos)
    requires Ranked(bp, closed) && p in bp
    ensures Chain(bp, closed, p) == [bp[p]] + Chain(bp, closed, bp[p])
    ensures Rank(closed, bp[p]) < Rank(closed, p)
  {
  }

  /** The row-major scan of check_position over grid `g`. */
  method ScanGrid(g: Grid, rs: int, cs: int, state: string) returns (r: Found)
    requires IsGrid(g, rs, cs)
    ensures IsMark(state) && GridMatches(g, state, 0) != [] ==> r == Single(GridMatches(g, state, 0)[0])
    ensures !(IsMark(state) && GridMatches(g, state, 0) != []) ==> r == Many(GridMatches(g, state, 0))
    ensures r.Single? ==> InBounds(rs, cs, r.p) && g[r.p.0][r.p.1] == state
  {
    var position: seq<Pos> := [];
    for row := 0 to rs
      invariant position + GridMatches(g, state, row) == GridMatches(g, state, 0)
      invariant IsMark(state) ==> position == []
    {
      assert GridMatches(g, state, row) == RowMatches(g[row], row, state, 0) + GridMatches(g, state, row + 1);
      for col := 0 to cs
        invariant position + RowMatches(g[row], row, state, col) + GridMatches(g, state, row + 1) == GridMatches(g, state, 0)
        invariant IsMark(state) ==> position == []
      {
        ghost var rest := RowMatches(g[row], row, state, col + 1) + GridMatches(g, state, row + 1);
        if g[row][col] == state {
          assert RowMatches(g[row], row, state, col) == [(row, col)] + RowMatches(g[row], row, state, col + 1);
          if state == START || state == GOAL {
            assert GridMatches(g, state, 0) == [(row, col)] + rest;
            return Single((row, col));
          }
          assert position + ([(row, col)] + rest) == (position + [(row, col)]) + rest;
          position := position + [(row, col)];
        } else {
          assert RowMatches(g[row], row, state, col) == RowMatches(g[row], row, state, col + 1);
        }
      }
      assert RowMatches(g[row], row, state, cs) == [];
    }
    return Many(position);
  }

  /** The move loop of get_actions over grid `g`. */
  method OpenMoves(g: Grid, rs: int, cs: int, currentNode: Pos) returns (moves: seq<Pos>)
    requires IsGrid(g, rs, cs)
    ensures moves == Neighbours(g, rs, cs, currentNode)
  {
    moves := [];
    ghost var targets := Targets(currentNode, ACTIONS);
    for k := 0 to |ACTIONS|
      invariant moves == OpenAmong(g, rs, cs, targets[..k])
    {
      var action := ACTIONS[k];
      var newX := currentNode.0 + action.0;
      var newY := currentNode.1 + action.1;
      assert targets[k] == (newX, newY);
      OpenAmongNext(g, rs, cs, targets, k);
      ghost var step := OpenAmong(g, rs, cs, targets[..k + 1]);
      if newX >= 0 && newX < rs && newY >= 0 && newY < cs && g[newX][newY] != BLOCKED {
        assert Open(g, rs, cs, (newX, newY));
        moves := moves + [(newX, newY)];
      } else {
        assert !Open(g, rs, cs, (newX, newY));
        assert step == moves + [];
      }
    }
    assert targets[..|ACTIONS|] == targets;
  }

  /** The loop of generate_path: follow the back-pointers from `p` until a
      node without one, collecting every node reached. */
  method FollowPointers(bp: map<Pos, Pos>, ghost closed: seq<Pos>, p: Pos) returns (path: seq<Pos>)
    requires Ranked(bp, closed)
    ensures path == Chain(bp, closed, p)
  {
    path := [];
    var node := p;
    while node in bp
      invariant path + Chain(bp, closed, node) == Chain(bp, closed, p)
      decreases Rank(closed, node)
    {
      ChainNext(bp, closed, node);
      ghost var before := path;
      node := bp[node];
      path := path + [node];
      assert before + ([node] + Chain(bp, closed, node)) == path + Chain(bp, closed, node);
    }
  }

  /** The part of `save` after the three scans: build the new maze from the
      start, the goal and the blocked cells found, then write it. */
  method SaveFound(g: Grid, rows: nat, cols: nat, start: Pos, goal: Pos, blocked: seq<Pos>) returns (out: string)
    requires IsGrid(g, rows, cols) && InBounds(rows, cols, start) && InBounds(rows, cols, goal)
    requires blocked == GridMatches(g, BLOCKED, 0)
    ensures out == Serialise(SavedGrid(g, rows, cols, start, goal))
    ensures ParseGrid(out) == SavedGrid(g, rows, cols, start, goal)
  {
    forall q | q in blocked ensures InBounds(rows, cols, q) {
      MatchInBounds(g, BLOCKED, q);
    }
    var newMaze := NewMaze(rows, cols, start, goal, blocked);
    ghost var saved := SavedGrid(g, rows, cols, start, goal);
    forall i | 0 <= i < rows ensures newMaze[i] == saved[i] {
      forall j | 0 <= j < cols ensures newMaze[i][j] == saved[i][j] {
        NewCellSaved(g, start, goal, blocked, (i, j));
      }
    }
    assert newMaze == saved;
    out := WriteRows(newMaze);
    LoadSaved(g, rows, cols, start, goal);
  }

  class MazeWindow {
    var rows: int
    var columns: int
    var cost: int
    var grid: Grid
    var gridBackup: Grid
    var costGrid: seq<seq<int>>
    var strategy: Strategy
    var startNode: Pos
    var goalNode: Pos
    var openNodes: seq<Entry>
    var closedNodes: seq<Pos>
    var bestPath: map<Pos, Pos>
    var fullPath: seq<Pos>

    /** The grid has `rows` rows of `columns` cells. */
    predicate Shaped()
      reads this
    {
      columns >= 0 && IsGrid(grid, rows, columns)
    }

    /** The fields a run keeps fixed. */
    function Configuration(): Config
      reads this
    {
      Config(strategy, rows, columns, costGrid, goalNode)
    }

    /** The fields a step changes. */
    function State(): Search
      reads this
    {
      Search(grid, openNodes, closedNodes, bestPath, fullPath)
    }

    constructor (rows: nat, columns: nat, cost: int)
      ensures this.rows == rows && this.columns == columns && this.cost == cost
      ensures grid == Blank(rows, columns)
      ensures Shaped()
    {
      this.rows := rows;
      this.columns := columns;
      this.cost := cost;
      grid := Blank(rows, columns);
      gridBackup := [];
      costGrid := [];
      strategy := BreadthFirst;
      startNode := (0, 0);
      goalNode := (0, 0);
      openNodes := [];
      closedNodes := [];
      bestPath := map[];
      fullPath := [];
    }

    /** check_position: the row-major scan of the grid for `state`. */
    method CheckPosition(state: string) returns (r: Found)
      requires Shaped()
      ensures IsMark(state) && GridMatches(grid, state, 0) != [] ==> r == Single(GridMatches(grid, state, 0)[0])
      ensures !(IsMark(state) && GridMatches(grid, state, 0) != []) ==> r == Many(GridMatches(grid, state, 0))
      ensures r.Single? ==> InBounds(rows, columns, r.p) && grid[r.p.0][r.p.1] == state
    {
      r := ScanGrid(grid, rows, columns, state);
    }

    /** load: the grid becomes the file's lines, stripped and split at the
        commas, and the dimensions are read off it. An empty file fails
        after the grid and the row count are already replaced. */
    method Load(text: string) returns (ok: bool)
      modifies this`grid, this`rows, this`columns
      ensures ok <==> text != ""
      ensures grid == ParseGrid(text) && rows == |grid|
      ensures ok ==> columns == |grid[0]|
      ensures !ok ==> grid == [] && columns == old(columns)
      ensures ok && (forall r | r in grid :: |r| == |grid[0]|) ==> Shaped()
    {
      grid := ParseGrid(text);
      rows := |grid|;
      if grid == [] {
        return false;
      }
      columns := |grid[0]|;
      return true;
    }

    /** save: the text of the maze holding the start, the goal and the
        blocked cells, or nothing when the start or the goal is missing
        (the source fails there indexing the empty list). Loading the text
        gives that maze back. */
    method Save() returns (text: Option<string>)
      requires Shaped()
      ensures text.None? <==> GridMatches(grid, START, 0) == [] || GridMatches(grid, GOAL, 0) == []
      ensures text.Some? ==>
        var saved := SavedGrid(grid, rows, columns, GridMatches(grid, START, 0)[0], GridMatches(grid, GOAL, 0)[0]);
        text.value == Serialise(saved) && ParseGrid(text.value) == saved
    {
      var start := CheckPosition(START);
      var goal := CheckPosition(GOAL);
      var blocked := CheckPosition(BLOCKED);
      if !start.Single? || !goal.Single? {
        return None;
      }
      var out := SaveFound(grid, rows, columns, start.p, goal.p, blocked.ps);
      return Some(out);
    }

    /** set_node: the protected write. */
    method SetNode(node: Pos, state: string)
      requires Shaped() && InBounds(rows, columns, node)
      modifies this`grid
      ensures grid == SetCell(old(grid), node, state)
      ensures Shaped()
    {
      if grid[node.0][node.1] != START && grid[node.0][node.1] != GOAL {
        grid := grid[node.0 := grid[node.0][node.1 := state]];
      }
    }

    /** generate_path: follows the back-pointers from `currentNode` until a
      node without one, collecting every node reached. */
    method GeneratePath(currentNode: Pos)
      requires Ranked(bestPath, closedNodes)
      modifies this`fullPath
      ensures fullPath == Chain(bestPath, closedNodes, currentNode)
    {
      fullPath := FollowPointers(bestPath, closedNodes, currentNode);
    }

    /** get_actions: the moves in UP, DOWN, LEFT, RIGHT order that stay
        inside the grid and do not enter a blocked cell. */
    method GetActions(currentNode: Pos) returns (possibleActions: seq<Pos>)
      requires Shaped()
      ensures possibleActions == Neighbours(grid, rows, columns, currentNode)
    {
      possibleActions := OpenMoves(grid, rows, columns, currentNode);
    }

    /** calculate_cost_grid: the cost grid of method `how`, or nothing when the
        method reads the goal and the grid has none (the source fails there
        indexing the empty list check_position returns). */
    method CalculateCostGrid(how: CostMethod) returns (totalCost: Option<seq<seq<int>>>)
      requires Shaped()
      ensures totalCost.None? <==> NeedsGoal(how) && GridMatches(grid, GOAL, 0) == []
      ensures totalCost.Some? && GridMatches(grid, GOAL, 0) != [] ==>
        totalCost.value == CostGrid(how, rows, columns, GridMatches(grid, GOAL, 0)[0], cost)
      ensures totalCost.Some? && GridMatches(grid, GOAL, 0) == [] ==>
        totalCost.value == CostGrid(how, rows, columns, (0, 0), cost)
    {
      var goal := CheckPosition(GOAL);
      if goal.Single? {
        return Some(CostGrid(how, rows, columns, goal.p, cost));
      } else if NeedsGoal(how) {
        return None;
      }
      return Some(CostGrid(how, rows, columns, (0, 0), cost));
    }

    /** clear_maze: the grid becomes the copy saved when the run started. */
    method ClearMaze()
      modifies this`grid
      ensures grid == gridBackup
    {
      grid := gridBackup;
    }

    /** The set-up part of `run`: select the strategy and its cost grid, find
        the start and the goal, open the start with its cost, and save a copy
        of the grid. It fails, changing nothing, when the start or the goal is
        missing. */
    method Prepare(st: Strategy) returns (ok: bool)
      requires Shaped()
      modifies this
      ensures ok <==> GridMatches(grid, START, 0) != [] && GridMatches(grid, GOAL, 0) != []
      ensures !ok ==> unchanged(this)
      ensures ok ==> && grid == old(grid) && gridBackup == grid && fullPath == old(fullPath)
                     && rows == old(rows) && columns == old(columns) && cost == old(cost)
                     && startNode == GridMatches(grid, START, 0)[0] && goalNode == GridMatches(grid, GOAL, 0)[0]
      ensures ok ==> && InBounds(rows, columns, startNode) && InBounds(rows, columns, goalNode)
                     && Configuration() == RunConfig(st, rows, columns, goalNode, cost)
                     && State() == Initial(Configuration(), grid, startNode, fullPath)
    {
      var cg := CalculateCostGrid(MethodFor(st));
      var s := CheckPosition(START);
      var g := CheckPosition(GOAL);
      if !s.Single? || !g.Single? {
        return false;
      }
      assert cg.Some? && IsGrid(cg.value, rows, columns);
      ghost var cfg := Config(st, rows, columns, cg.value, g.p);
      assert cg.value[s.p.0][s.p.1] == EntryCost(cfg, s.p);
      Start(st, cg.value, s.p, g.p, cg.value[s.p.0][s.p.1]);
      return true;
    }

    /** The field writes of the set-up. */
    method Start(st: Strategy, cg: seq<seq<int>>, start: Pos, goal: Pos, startCost: int)
      modifies this
      ensures strategy == st && costGrid == cg && startNode == start && goalNode == goal
      ensures openNodes == [(start, startCost)] && closedNodes == [] && bestPath == map[]
      ensures gridBackup == grid && grid == old(grid) && fullPath == old(fullPath)
      ensures rows == old(rows) && columns == old(columns) && cost == old(cost)
    {
      strategy := st;
      costGrid := cg;
      startNode := start;
      goalNode := goal;
      openNodes := [(start, startCost)];
      closedNodes := [];
      bestPath := map[];
      gridBackup := grid;
    }

    /** The paint loop of a goal step: `full_path[:-1]` becomes 'P', written
        directly into the grid. */
    method MarkPath()
      requires Shaped() && forall c | c in DropLast(fullPath) :: InBounds(rows, columns, c)
      modifies this`grid
      ensures grid == PaintPath(old(grid), rows, columns, DropLast(fullPath))
    {
      var cells := DropLast(fullPath);
      for k := 0 to |cells|
        invariant grid == PaintPath(old(grid), rows, columns, cells[..k])
      {
        assert cells[..k + 1][..k] == cells[..k];
        assert cells[k] in cells;
        var (x, y) := cells[k];
        grid := grid[x := grid[x][y := PATH]];
      }
      assert cells[..|cells|] == cells;
    }

    /** The neighbour loop of a non-goal step: each neighbour that is neither
        open with its cost nor closed gets a back-pointer to `currentNode`,
        the state 'V' and an open entry with its cost. */
    method VisitNeighbours(currentNode: Pos, nexts: seq<Pos>)
      requires WellSized(Configuration(), State())
      requires forall q | q in nexts :: InBounds(rows, columns, q)
      modifies this`grid, this`openNodes, this`bestPath
      ensures State() == ExpandAll(Configuration(), currentNode, old(State()), nexts)
    {
      for k := 0 to |nexts|
        invariant WellSized(Configuration(), State())
        invariant State() == ExpandAll(Configuration(), currentNode, old(State()), nexts[..k])
      {
        assert nexts[..k + 1][..k] == nexts[..k];
        assert nexts[k] in nexts;
        var nextState := nexts[k];
        var nextCost := if strategy == BreadthFirst || strategy == DepthFirst then 0 else costGrid[nextState.0][nextState.1];
        if (nextState, nextCost) !in openNodes && nextState !in closedNodes {
          bestPath := bestPath[nextState := currentNode];
          SetNode(nextState, VISITED);
          openNodes := openNodes + [(nextState, nextCost)];
        }
      }
      assert nexts[..|nexts|] == nexts;
    }

    /** `open_nodes.pop(0)`, or `pop(-1)` for depth-first search. */
    method PopNode() returns (currentNode: Pos)
      requires |openNodes| > 0
      modifies this`openNodes
      ensures currentNode == Popped(Configuration(), old(State()))
      ensures openNodes == Remaining(Configuration(), old(State()))
    {
      var i := if strategy == DepthFirst then |openNodes| - 1 else 0;
      currentNode := openNodes[i].0;
      openNodes := openNodes[..i] + openNodes[i + 1..];
    }

    /** A non-goal step closes the popped node and marks it explored. */
    method CloseNode(currentNode: Pos)
      requires Shaped() && InBounds(rows, columns, currentNode)
      modifies this`closedNodes, this`grid
      ensures closedNodes == old(closedNodes) + [currentNode]
      ensures grid == SetCell(old(grid), currentNode, EXPLORED)
      ensures Shaped()
    {
      closedNodes := closedNodes + [currentNode];
      SetNode(currentNode, EXPLORED);
    }

    /** `open_nodes.sort(key=lambda x: x[1])`: the stable sort by cost. */
    method SortOpenNodes()
      modifies this`openNodes
      ensures openNodes == SortByCost(old(openNodes))
    {
      openNodes := SortByCost(openNodes);
    }

    /** One call of a step method (a_star, breadth_first_search,
        depth_first_search, dijkstra, greedy_best_first_search): the new
        fields and the result are those of the step specification. */
    method Step() returns (solved: bool)
      requires StepPre(Configuration(), State())
      modifies this`grid, this`openNodes, this`closedNodes, this`bestPath, this`fullPath
      ensures (State(), solved) == Engine.Step(Configuration(), old(State()))
    {
      ghost var s := State();
      var currentNode := PopNode();
      if currentNode == goalNode {
        FinishRun(s);
        return true;
      }
      ExpandNode(s, currentNode);
      return false;
    }

    /** The goal branch of a step, after the pop: collect the back-pointer
        chain and paint it. */
    method FinishRun(ghost s: Search)
      requires StepPre(Configuration(), s) && Popped(Configuration(), s) == goalNode
      requires State() == s.(open := Remaining(Configuration(), s))
      modifies this`grid, this`fullPath
      ensures State() == Finished(Configuration(), s)
    {
      GeneratePath(goalNode);
      ChainFacts(bestPath, closedNodes, goalNode);
      MarkPath();
    }

    /** The other branch of a step, after the pop: close the node, visit its
        neighbours and, for the cost-ordered strategies, re-sort. */
    method ExpandNode(ghost s: Search, currentNode: Pos)
      requires StepPre(Configuration(), s) && Popped(Configuration(), s) == currentNode != goalNode
      requires State() == s.(open := Remaining(Configuration(), s))
      modifies this`grid, this`openNodes, this`closedNodes, this`bestPath
      ensures State() == Resorted(Configuration(), Expanded(Configuration(), s))
    {
      assert s.open[PoppedIndex(Configuration(), s)] in s.open;
      CloseNode(currentNode);
      assert State() == Closing(Configuration(), s);
      var nexts := GetActions(currentNode);
      NeighboursOpen(grid, rows, columns, currentNode);
      VisitNeighbours(currentNode, nexts);
      assert State() == Expanded(Configuration(), s);
      if strategy != BreadthFirst && strategy != DepthFirst {
        SortOpenNodes();
      }
    }
  }
}
