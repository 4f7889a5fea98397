/** calculate_cost_grid of the maze window: the per-cell cost each strategy
    pushes, chosen by the algorithm name when a run starts. */
module CostModels {
  import opened Cells
  import opened Engine

  /** The `method` argument: "cost", "heuristic", "cost+heuristic", or
      anything else (the uniform strategies pass None). */
  datatype CostMethod = Flat | Heuristic | FlatPlusHeuristic | NoMethod

  /** The cost method `run` selects for each strategy. */
  function MethodFor(st: Strategy): (m: CostMethod)
    ensures Uniform(st) <==> m == NoMethod
    ensures st == Dijkstra <==> m == Flat
    ensures st == GreedyBestFirst <==> m == Heuristic
    ensures st == AStar <==> m == FlatPlusHeuristic
  {
    match st
    case BreadthFirst => NoMethod
    case DepthFirst => NoMethod
    case Dijkstra => Flat
    case GreedyBestFirst => Heuristic
    case AStar => FlatPlusHeuristic
  }

  function CellCost(m: CostMethod, goal: Pos, cost: int, p: Pos): int {
    match m
    case Flat => cost
    case Heuristic => Manhattan(goal, p)
    case FlatPlusHeuristic => Manhattan(goal, p) + cost
    case NoMethod => 0
  }

  /** The cost grid: `rows` rows of `cols` values, the flat cost everywhere,
      the Manhattan distance to the goal, that distance plus the flat cost,
      or zero everywhere. */
  function CostGrid(m: CostMethod, rows: nat, cols: nat, goal: Pos, cost: int): (r: seq<seq<int>>)
    ensures IsGrid(r, rows, cols)
    ensures m == Flat ==> forall i, j | 0 <= i < rows && 0 <= j < cols :: r[i][j] == cost
    ensures m == Heuristic ==> forall i, j | 0 <= i < rows && 0 <= j < cols ::
      r[i][j] == Abs(goal.0 - i) + Abs(goal.1 - j)
    ensures m == FlatPlusHeuristic ==> forall i, j | 0 <= i < rows && 0 <= j < cols ::
      r[i][j] == Abs(goal.0 - i) + Abs(goal.1 - j) + cost
    ensures m == NoMethod ==> forall i, j | 0 <= i < rows && 0 <= j < cols :: r[i][j] == 0
  {
    seq(rows, i => seq(cols, j => CellCost(m, goal, cost, (i, j))))
  }

  /** The A* grid is the greedy best-first grid with the flat cost added to
      every cell. */
  lemma FlatPlusHeuristicIsShift(rows: nat, cols: nat, goal: Pos, cost: int)
    ensures forall i, j | 0 <= i < rows && 0 <= j < cols ::
      CostGrid(FlatPlusHeuristic, rows, cols, goal, cost)[i][j] == CostGrid(Heuristic, rows, cols, goal, cost)[i][j] + cost
  {
  }

  /** One orthogonal move changes the Manhattan distance to `goal` by exactly one. */
  lemma ManhattanStep(goal: Pos, p: Pos, q: Pos)
    requires Adjacent(p, q)
    ensures Manhattan(goal, p) - Manhattan(goal, q) == 1 || Manhattan(goal, p) - Manhattan(goal, q) == -1
  {
    if p.0 == q.0 {
      assert Abs(p.1 - q.1) == 1;
    } else {
      assert p.1 == q.1 && Abs(p.0 - q.0) == 1;
    }
  }

  /** The heuristic is never negative and is zero exactly at the goal. */
  lemma HeuristicZeroAtGoal(rows: nat, cols: nat, goal: Pos, cost: int)
    ensures forall i, j | 0 <= i < rows && 0 <= j < cols ::
      CostGrid(Heuristic, rows, cols, goal, cost)[i][j] >= 0 &&
      (CostGrid(Heuristic, rows, cols, goal, cost)[i][j] == 0 <==> (i, j) == goal)
  {
    var h := CostGrid(Heuristic, rows, cols, goal, cost);
    forall i, j | 0 <= i < rows && 0 <= j < cols ensures h[i][j] >= 0 && (h[i][j] == 0 <==> (i, j) == goal) {
      assert h[i][j] == Manhattan(goal, (i, j));
    }
  }

  /** The heuristic changes by exactly one between orthogonal neighbours, so
      it never overestimates the number of moves to the goal. */
  lemma HeuristicConsistent(rows: nat, cols: nat, goal: Pos, cost: int, p: Pos, q: Pos)
    requires InBounds(rows, cols, p) && InBounds(rows, cols, q) && Adjacent(p, q)
    ensures CostGrid(Heuristic, rows, cols, goal, cost)[p.0][p.1] - CostGrid(Heuristic, rows, cols, goal, cost)[q.0][q.1] == 1 ||
            CostGrid(Heuristic, rows, cols, goal, cost)[p.0][p.1] - CostGrid(Heuristic, rows, cols, goal, cost)[q.0][q.1] == -1
  {
    var h := CostGrid(Heuristic, rows, cols, goal, cost);
    assert h[p.0][p.1] == Manhattan(goal, p) && h[q.0][q.1] == Manhattan(goal, q);
    ManhattanStep(goal, p, q);
  }
}
