/** astar.py: the stand-alone A* script on its 12 by 12 grid. Its step
    `a_star` changes the caller's grid and lists in place; here it takes
    them and returns their new values. The script's globals `goal_node` and
    `cost_grid` are parameters; its `actions` dictionary is the constant
    ACTIONS, in the dictionary's order. */
module AStarScript {
  import opened Cells
  import opened StableSort
  import opened Engine
  import opened Scripts

  /** The run configuration of the script: A*, its grid size, its cost grid
      and its goal. */
  function ScriptConfig(costGrid: seq<seq<int>>, goal: Pos): Config {
    Config(AStar, ROWS, COLS, costGrid, goal)
  }

  /** `p` lies in the rectangle spanned by `a` and `b`. */
  predicate Between(a: Pos, b: Pos, p: Pos) {
    (a.0 <= p.0 <= b.0 || b.0 <= p.0 <= a.0) && (a.1 <= p.1 <= b.1 || b.1 <= p.1 <= a.1)
  }

  /** The cost calculate_cost_grid gives cell `p`: its distance to the start
      plus its distance to the goal. No cell costs less than the distance
      from start to goal, and a cell costs exactly that when it lies in the
      rectangle spanned by the start and the goal, that is on some shortest
      path between them (the start and the goal cells among them). */
  function DetourCost(start: Pos, goal: Pos, p: Pos): (c: nat)
    ensures c >= Manhattan(start, goal)
    ensures c == Manhattan(start, goal) <==> Between(start, goal, p)
  {
    Manhattan(start, p) + Manhattan(goal, p)
  }

  /** check_position: the first cell in row-major order holding `status`, or
      None when there is none. */
  method CheckPosition(grid: Grid, status: string) returns (r: Option<Pos>)
    requires IsGrid(grid, ROWS, COLS)
    ensures r.None? <==> GridMatches(grid, status, 0) == []
    ensures r.Some? ==> r.value == GridMatches(grid, status, 0)[0]
  {
    for row := 0 to ROWS
      invariant GridMatches(grid, status, row) == GridMatches(grid, status, 0)
    {
      assert GridMatches(grid, status, row) == RowMatches(grid[row], row, status, 0) + GridMatches(grid, status, row + 1);
      for col := 0 to COLS
        invariant RowMatches(grid[row], row, status, col) + GridMatches(grid, status, row + 1) == GridMatches(grid, status, 0)
      {
        if grid[row][col] == status {
          assert GridMatches(grid, status, 0)[0] == RowMatches(grid[row], row, status, col)[0] == (row, col);
          return Some((row, col));
        }
        assert RowMatches(grid[row], row, status, col) == RowMatches(grid[row], row, status, col + 1);
      }
      assert RowMatches(grid[row], row, status, COLS) == [];
      assert [] + GridMatches(grid, status, row + 1) == GridMatches(grid, status, row + 1);
    }
    return None;
  }

  /** calculate_cost_grid: every cell's detour cost between the first start
      and the first goal, or None when either is missing (the source fails
      there subscripting None). */
  method CalculateCostGrid(grid: Grid) returns (totalCost: Option<seq<seq<int>>>)
    requires IsGrid(grid, ROWS, COLS)
    ensures totalCost.None? <==> GridMatches(grid, START, 0) == [] || GridMatches(grid, GOAL, 0) == []
    ensures totalCost.Some? ==> IsGrid(totalCost.value, ROWS, COLS)
    ensures totalCost.Some? ==> forall i, j | 0 <= i < ROWS && 0 <= j < COLS ::
        totalCost.value[i][j] == DetourCost(GridMatches(grid, START, 0)[0], GridMatches(grid, GOAL, 0)[0], (i, j))
  {
    var startNode := CheckPosition(grid, START);
    var goalNode := CheckPosition(grid, GOAL);
    if startNode.None? || goalNode.None? {
      return None;
    }
    var s := startNode.value;
    var t := goalNode.value;
    var cost: seq<seq<int>> := [];
    for row := 0 to ROWS
      invariant |cost| == row
      invariant forall i | 0 <= i < row :: |cost[i]| == COLS
      invariant forall i, j | 0 <= i < row && 0 <= j < COLS :: cost[i][j] == DetourCost(s, t, (i, j))
    {
      var line: seq<int> := [];
      for col := 0 to COLS
        invariant |line| == col
        invariant forall j | 0 <= j < col :: line[j] == DetourCost(s, t, (row, j))
      {
        var costToStart := Abs(s.0 - row) + Abs(s.1 - col);
        var costToGoal := Abs(t.0 - row) + Abs(t.1 - col);
        assert costToStart + costToGoal == DetourCost(s, t, (row, col));
        line := line + [costToStart + costToGoal];
      }
      ghost var before := cost;
      cost := cost + [line];
      forall i, j | 0 <= i <= row && 0 <= j < COLS ensures cost[i][j] == DetourCost(s, t, (i, j)) {
        if i < row {
          assert cost[i] == before[i];
        } else {
          assert cost[i] == line;
        }
      }
    }
    return Some(cost);
  }

  /** generate_path: the back-pointer chain from `currentNode`, without its
      last node (the start). */
  method GeneratePath(bestPath: map<Pos, Pos>, ghost closed: seq<Pos>, currentNode: Pos) returns (path: seq<Pos>)
    requires Ranked(bestPath, closed)
    ensures path == DropLast(Chain(bestPath, closed, currentNode))
  {
    var fullPath: seq<Pos> := [];
    var node := currentNode;
    while node in bestPath
      invariant fullPath + Chain(bestPath, closed, node) == Chain(bestPath, closed, currentNode)
      decreases Rank(closed, node)
    {
      ghost var before := fullPath;
      assert Chain(bestPath, closed, node) == [bestPath[node]] + Chain(bestPath, closed, bestPath[node]);
      assert Rank(closed, bestPath[node]) < Rank(closed, node);
      node := bestPath[node];
      fullPath := fullPath + [node];
      assert before + ([node] + Chain(bestPath, closed, node)) == fullPath + Chain(bestPath, closed, node);
    }
    path := if fullPath == [] then [] else fullPath[..|fullPath| - 1];
  }

  /** The neighbour loop of a non-goal step: each neighbour that is neither
      open with its cost nor closed gets a back-pointer, the state 'V' and an
      open entry with its cost. */
  method VisitNeighbours(currentNode: Pos, grid: Grid, openNodes: seq<Entry>, closedNodes: seq<Pos>,
                         bestPath: map<Pos, Pos>, nexts: seq<Pos>, costGrid: seq<seq<int>>, ghost goal: Pos)
    returns (newGrid: Grid, newOpen: seq<Entry>, newBestPath: map<Pos, Pos>)
    requires IsGrid(grid, ROWS, COLS) && IsGrid(costGrid, ROWS, COLS)
    requires forall q | q in nexts :: InBounds(ROWS, COLS, q)
    ensures Search(newGrid, newOpen, closedNodes, newBestPath, []) ==
      ExpandAll(ScriptConfig(costGrid, goal), currentNode, Search(grid, openNodes, closedNodes, bestPath, []), nexts)
  {
    ghost var cfg := ScriptConfig(costGrid, goal);
    ghost var s := Search(grid, openNodes, closedNodes, bestPath, []);
    newGrid, newOpen, newBestPath := grid, openNodes, bestPath;
    for k := 0 to |nexts|
      invariant Search(newGrid, newOpen, closedNodes, newBestPath, []) == ExpandAll(cfg, currentNode, s, nexts[..k])
    {
      assert nexts[..k + 1][..k] == nexts[..k];
      assert nexts[k] in nexts;
      var nextState := nexts[k];
      var costNode := costGrid[nextState.0][nextState.1];
      if (nextState, costNode) !in newOpen && nextState !in closedNodes {
        newBestPath := newBestPath[nextState := currentNode];
        newGrid := SetCell(newGrid, nextState, VISITED);
        newOpen := newOpen + [(nextState, costNode)];
      }
    }
    assert nexts[..|nexts|] == nexts;
  }

  /** a_star: one step of the script. Its new grid, lists and back-pointers
      are those of the shared A* step, and it returns True exactly when that
      step did not reach the goal (so the script keeps running). */
  method AStarStep(grid: Grid, openNodes: seq<Entry>, closedNodes: seq<Pos>, bestPath: map<Pos, Pos>,
                   goalNode: Pos, costGrid: seq<seq<int>>)
    returns (running: bool, newGrid: Grid, newOpen: seq<Entry>, newClosed: seq<Pos>, newBestPath: map<Pos, Pos>)
    requires StepPre(ScriptConfig(costGrid, goalNode), Search(grid, openNodes, closedNodes, bestPath, []))
    ensures var r := Engine.Step(ScriptConfig(costGrid, goalNode), Search(grid, openNodes, closedNodes, bestPath, []));
            && running == !r.1
            && newGrid == r.0.grid && newOpen == r.0.open
            && newClosed == r.0.closed && newBestPath == r.0.bestPath
  {
    ghost var cfg := ScriptConfig(costGrid, goalNode);
    ghost var s := Search(grid, openNodes, closedNodes, bestPath, []);
    var currentNode := openNodes[0].0;
    newOpen := openNodes[1..];
    assert newOpen == Remaining(cfg, s) by {
      assert openNodes[..0] == [];
    }
    if currentNode == goalNode {
      var path := GeneratePath(bestPath, closedNodes, currentNode);
      ChainFacts(bestPath, closedNodes, currentNode);
      newGrid := PaintCells(grid, path);
      return false, newGrid, newOpen, closedNodes, bestPath;
    }
    newClosed := closedNodes + [currentNode];
    newGrid := SetCell(grid, currentNode, EXPLORED);
    assert Search(newGrid, newOpen, newClosed, bestPath, []) == Closing(cfg, s);
    var actions := GetActions(newGrid, currentNode, ACTIONS);
    ScriptNeighbours(newGrid, currentNode);
    NeighboursOpen(newGrid, ROWS, COLS, currentNode);
    newGrid, newOpen, newBestPath := VisitNeighbours(currentNode, newGrid, newOpen, newClosed, bestPath, actions.value, costGrid, goalNode);
    assert Search(newGrid, newOpen, newClosed, newBestPath, []) == Expanded(cfg, s);
    newOpen := SortByCost(newOpen);
    running := true;
  }
}
