/** bfs.py: the stand-alone breadth-first search script on its 12 by 12
    grid. Each frontier entry carries the whole path to its node instead of
    a back-pointer. Its step `breadth_first_search` changes the caller's
    grid and lists in place; here it takes them and returns their new
    values. The script's global `goal_node` is a parameter; its `actions`
    dictionary is the constant ACTIONS, in the dictionary's order. */
module BfsScript {
  import opened Cells
  import opened Engine
  import opened Scripts
  import opened SearchFacts

  /** A frontier entry: a node and the path that led to it (the nodes
      popped before it on the way from the start, without the node). */
  type Item = (Pos, seq<Pos>)

  /** What a step changes: the grid, the frontier, the expanded nodes and
      the visited nodes. */
  datatype Bfs = Bfs(grid: Grid, frontier: seq<Item>, expanded: seq<Pos>, visited: seq<Pos>)

  /** The walk an entry stands for: its path, then its node. */
  function WalkOf(e: Item): seq<Pos> {
    e.1 + [e.0]
  }

  /** `path[1:-1]`: the path without its first and its last node. */
  function Middle(path: seq<Pos>): (r: seq<Pos>)
    ensures |path| >= 2 ==> path == [path[0]] + r + [path[|path| - 1]]
    ensures |path| < 2 ==> r == []
  {
    if |path| < 2 then [] else path[1..|path| - 1]
  }

  /** Every cell of every entry's walk is inside the grid. */
  predicate FrontierInBounds(f: seq<Item>) {
    forall i | 0 <= i < |f| :: InBounds(ROWS, COLS, f[i].0) && forall c | c in f[i].1 :: InBounds(ROWS, COLS, c)
  }

  /** The neighbour loop: each neighbour not yet visited is marked 'V',
      added to the visited list and put at the back of the frontier with a
      copy of the path. */
  function PushAll(s: Bfs, path: seq<Pos>, ns: seq<Pos>): (r: Bfs)
    requires IsGrid(s.grid, ROWS, COLS) && forall q | q in ns :: InBounds(ROWS, COLS, q)
    ensures IsGrid(r.grid, ROWS, COLS)
  {
    if ns == [] then s
    else
      var init := ns[..|ns| - 1];
      assert forall q | q in init :: q in ns;
      var t := PushAll(s, path, init);
      var n := ns[|ns| - 1];
      assert n in ns && InBounds(ROWS, COLS, n);
      assert |t.grid[n.0]| == COLS;
      if n !in t.visited then
        t.(grid := SetCell(t.grid, n, VISITED), visited := t.visited + [n], frontier := t.frontier + [(n, path)])
      else t
  }

  /** What a step needs: a non-empty frontier whose walks are inside the
      grid. */
  predicate BfsPre(s: Bfs) {
    IsGrid(s.grid, ROWS, COLS) && |s.frontier| > 0 && FrontierInBounds(s.frontier)
  }

  /** One call of breadth_first_search: the new state, and whether the goal
      was popped. */
  function BfsStep(s: Bfs, goal: Pos): (Bfs, bool)
    requires BfsPre(s)
  {
    var e := s.frontier[0];
    var path := WalkOf(e);
    assert e in s.frontier;
    assert forall c | c in Middle(path) :: c in path;
    if e.0 == goal then
      (s.(frontier := s.frontier[1..], grid := PaintPath(s.grid, ROWS, COLS, Middle(path))), true)
    else
      var g := SetCell(s.grid, e.0, EXPLORED);
      NeighboursOpen(g, ROWS, COLS, e.0);
      (PushAll(s.(frontier := s.frontier[1..], expanded := s.expanded + [e.0], grid := g),
               path, Neighbours(g, ROWS, COLS, e.0)), false)
  }

  /** The neighbour loop of the step, over the neighbours in order. */
  method PushNeighbours(grid: Grid, frontier: seq<Item>, visited: seq<Pos>, path: seq<Pos>, nexts: seq<Pos>,
                        ghost expanded: seq<Pos>)
    returns (newGrid: Grid, newFrontier: seq<Item>, newVisited: seq<Pos>)
    requires IsGrid(grid, ROWS, COLS) && forall q | q in nexts :: InBounds(ROWS, COLS, q)
    ensures Bfs(newGrid, newFrontier, expanded, newVisited) == PushAll(Bfs(grid, frontier, expanded, visited), path, nexts)
  {
    ghost var s := Bfs(grid, frontier, expanded, visited);
    newGrid, newFrontier, newVisited := grid, frontier, visited;
    for k := 0 to |nexts|
      invariant Bfs(newGrid, newFrontier, expanded, newVisited) == PushAll(s, path, nexts[..k])
    {
      assert nexts[..k + 1][..k] == nexts[..k];
      assert nexts[k] in nexts;
      var nextState := nexts[k];
      if nextState !in newVisited {
        newGrid := SetCell(newGrid, nextState, VISITED);
        newVisited := newVisited + [nextState];
        newFrontier := newFrontier + [(nextState, path)];
      }
    }
    assert nexts[..|nexts|] == nexts;
  }

  /** breadth_first_search: one step of the script. It returns False when it
      popped the goal and True otherwise, and its new grid and lists are
      those of the step specification. */
  method BreadthFirstSearch(grid: Grid, frontier: seq<Item>, expanded: seq<Pos>, visited: seq<Pos>, goalNode: Pos)
    returns (running: bool, newGrid: Grid, newFrontier: seq<Item>, newExpanded: seq<Pos>, newVisited: seq<Pos>)
    requires BfsPre(Bfs(grid, frontier, expanded, visited))
    ensures var r := BfsStep(Bfs(grid, frontier, expanded, visited), goalNode);
            && running == !r.1
            && Bfs(newGrid, newFrontier, newExpanded, newVisited) == r.0
  {
    ghost var s := Bfs(grid, frontier, expanded, visited);
    var (currentNode, path) := frontier[0];
    assert frontier[0] in frontier;
    newFrontier := frontier[1..];
    path := path + [currentNode];
    if currentNode == goalNode {
      assert forall c | c in Middle(path) :: c in path;
      newGrid := PaintCells(grid, Middle(path));
      return false, newGrid, newFrontier, expanded, visited;
    }
    newExpanded := expanded + [currentNode];
    newGrid := SetCell(grid, currentNode, EXPLORED);
    var actions := GetActions(newGrid, currentNode, ACTIONS);
    ScriptNeighbours(newGrid, currentNode);
    NeighboursOpen(newGrid, ROWS, COLS, currentNode);
    newGrid, newFrontier, newVisited := PushNeighbours(newGrid, newFrontier, visited, path, actions.value, newExpanded);
    running := true;
  }

  // ---------------------------------------------------------------------
  // Properties of the step

  /** One frontier entry per node of `ns`, in order, each with `path`. */
  function Tagged(ns: seq<Pos>, path: seq<Pos>): (r: seq<Item>)
    ensures |r| == |ns| && forall i | 0 <= i < |ns| :: r[i] == (ns[i], path)
  {
    seq(|ns|, i requires 0 <= i < |ns| => (ns[i], path))
  }

  /** The neighbour loop keeps the frontier's old entries in front and puts
      behind them, in order, one entry per newly visited node, each with the
      given path; the expanded list does not change. */
  lemma {:induction false} PushAllShape(s: Bfs, path: seq<Pos>, ns: seq<Pos>)
    requires IsGrid(s.grid, ROWS, COLS) && forall q | q in ns :: InBounds(ROWS, COLS, q)
    ensures PushAll(s, path, ns).expanded == s.expanded
    ensures |PushAll(s, path, ns).visited| >= |s.visited|
    ensures PushAll(s, path, ns).visited[..|s.visited|] == s.visited
    ensures PushAll(s, path, ns).frontier == s.frontier + Tagged(PushAll(s, path, ns).visited[|s.visited|..], path)
  {
    if ns != [] {
      var init := ns[..|ns| - 1];
      assert forall q | q in init :: q in ns;
      PushAllShape(s, path, init);
      var t := PushAll(s, path, init);
      var n := ns[|ns| - 1];
      var r := PushAll(s, path, ns);
      if n !in t.visited {
        assert r.visited == t.visited + [n] && r.frontier == t.frontier + [(n, path)];
        assert r.visited[..|s.visited|] == t.visited[..|s.visited|];
        assert r.visited[|s.visited|..] == t.visited[|s.visited|..] + [n];
        assert Tagged(r.visited[|s.visited|..], path) == Tagged(t.visited[|s.visited|..], path) + [(n, path)];
      } else {
        assert r == t;
      }
    } else {
      assert s.visited[..|s.visited|] == s.visited && s.visited[|s.visited|..] == [];
      assert s.frontier + [] == s.frontier;
    }
  }

  /** The nodes the neighbour loop visits are neighbours it was given that
      were not visited before, and a list of distinct visited nodes stays
      distinct. */
  lemma {:induction false} PushAllFresh(s: Bfs, path: seq<Pos>, ns: seq<Pos>)
    requires IsGrid(s.grid, ROWS, COLS) && forall q | q in ns :: InBounds(ROWS, COLS, q)
    ensures var r := PushAll(s, path, ns);
            && |r.visited| >= |s.visited| && r.visited[..|s.visited|] == s.visited
            && (forall x | x in r.visited[|s.visited|..] :: x in ns && x !in s.visited)
            && (Distinct(s.visited) ==> Distinct(r.visited))
  {
    if ns != [] {
      var init := ns[..|ns| - 1];
      assert forall q | q in init :: q in ns;
      PushAllFresh(s, path, init);
      var t := PushAll(s, path, init);
      var n := ns[|ns| - 1];
      var r := PushAll(s, path, ns);
      if n !in t.visited {
        assert r.visited == t.visited + [n];
        assert r.visited[..|s.visited|] == t.visited[..|s.visited|];
        assert r.visited[|s.visited|..] == t.visited[|s.visited|..] + [n];
        forall x | x in r.visited[|s.visited|..] ensures x in ns && x !in s.visited {
          if x != n {
            assert x in t.visited[|s.visited|..];
          } else {
            assert s.visited == t.visited[..|s.visited|];
            assert forall y | y in t.visited[..|s.visited|] :: y in t.visited;
          }
        }
        if Distinct(s.visited) {
          forall i, j | 0 <= i < j < |r.visited| ensures r.visited[i] != r.visited[j] {
            if j == |r.visited| - 1 {
              assert r.visited[i] == t.visited[i] && r.visited[j] == n;
            } else {
              assert r.visited[i] == t.visited[i] && r.visited[j] == t.visited[j];
            }
          }
        }
      } else {
        assert r == t;
      }
    }
  }

  /** The frontier is first in, first out: a step drops the front entry and
      appends one entry per newly visited node, each carrying the popped
      walk; the visited list grows by exactly those nodes, none of which was
      visited before (so each node other than the start enters the frontier
      at most once over a run); the expanded list grows by the popped node on
      a non-goal step, and neither list changes on the goal step. */
  lemma BfsStepFacts(s: Bfs, goal: Pos)
    requires BfsPre(s)
    ensures BfsStep(s, goal).1 <==> s.frontier[0].0 == goal
    ensures BfsStep(s, goal).1 ==> BfsStep(s, goal).0.expanded == s.expanded && BfsStep(s, goal).0.visited == s.visited
    ensures !BfsStep(s, goal).1 ==> BfsStep(s, goal).0.expanded == s.expanded + [s.frontier[0].0]
    ensures |BfsStep(s, goal).0.visited| >= |s.visited| && BfsStep(s, goal).0.visited[..|s.visited|] == s.visited
    ensures BfsStep(s, goal).0.frontier ==
      s.frontier[1..] + Tagged(BfsStep(s, goal).0.visited[|s.visited|..], WalkOf(s.frontier[0]))
    ensures forall x | x in BfsStep(s, goal).0.visited[|s.visited|..] ::
      x !in s.visited && Adjacent(s.frontier[0].0, x) && InBounds(ROWS, COLS, x)
    ensures Distinct(s.visited) ==> Distinct(BfsStep(s, goal).0.visited)
  {
    var e := s.frontier[0];
    assert e in s.frontier;
    if e.0 != goal {
      var g := SetCell(s.grid, e.0, EXPLORED);
      var ns := Neighbours(g, ROWS, COLS, e.0);
      NeighboursOpen(g, ROWS, COLS, e.0);
      var s1 := s.(frontier := s.frontier[1..], expanded := s.expanded + [e.0], grid := g);
      PushAllShape(s1, WalkOf(e), ns);
      PushAllFresh(s1, WalkOf(e), ns);
      var t := PushAll(s1, WalkOf(e), ns);
      assert BfsStep(s, goal).0 == t;
      forall x | x in t.visited[|s.visited|..] ensures Adjacent(e.0, x) && InBounds(ROWS, COLS, x) {
        assert x in ns;
      }
    } else {
      assert s.visited[..|s.visited|] == s.visited && s.visited[|s.visited|..] == [];
      assert s.frontier[1..] + [] == s.frontier[1..];
    }
  }

  /** Consecutive nodes of `w` are orthogonal neighbours. */
  predicate IsWalk(w: seq<Pos>) {
    forall i | 0 <= i < |w| - 1 :: Adjacent(w[i], w[i + 1])
  }

  /** Every entry's walk leads from the start through neighbouring cells. */
  predicate Walks(start: Pos, f: seq<Item>) {
    forall e | e in f :: WalkOf(e)[0] == start && IsWalk(WalkOf(e))
  }

  /** The script's initial frontier, the start with an empty path. */
  lemma InitialWalks(start: Pos)
    requires InBounds(ROWS, COLS, start)
    ensures Walks(start, [(start, [])]) && FrontierInBounds([(start, [])])
  {
    assert WalkOf((start, [])) == [start];
  }

  /** A step keeps every frontier walk a walk from the start inside the
      grid: each child's walk is the popped walk followed by an open
      neighbour of its last cell. */
  lemma BfsStepWalks(start: Pos, s: Bfs, goal: Pos)
    requires BfsPre(s) && Walks(start, s.frontier)
    ensures Walks(start, BfsStep(s, goal).0.frontier)
    ensures FrontierInBounds(BfsStep(s, goal).0.frontier)
  {
    BfsStepFacts(s, goal);
    var t := BfsStep(s, goal).0;
    var e := s.frontier[0];
    assert e in s.frontier;
    var w := WalkOf(e);
    forall x | x in t.frontier
      ensures WalkOf(x)[0] == start && IsWalk(WalkOf(x))
      ensures forall c | c in WalkOf(x) :: InBounds(ROWS, COLS, c)
    {
      var added := t.visited[|s.visited|..];
      if x in s.frontier[1..] {
        assert x in s.frontier;
      } else {
        assert x in Tagged(added, w);
        var k :| 0 <= k < |added| && Tagged(added, w)[k] == x;
        var n := added[k];
        assert x == (n, w);
        assert n in added;
        assert Adjacent(e.0, n);
        assert WalkOf(x) == w + [n];
        assert w[|w| - 1] == e.0;
        WalkStep(w, n);
      }
    }
  }

  lemma WalkStep(w: seq<Pos>, n: Pos)
    requires |w| > 0 && IsWalk(w) && Adjacent(w[|w| - 1], n)
    ensures IsWalk(w + [n]) && (w + [n])[0] == w[0]
  {
    var v := w + [n];
    forall i | 0 <= i < |v| - 1 ensures Adjacent(v[i], v[i + 1]) {
      if i < |w| - 1 {
        assert v[i] == w[i] && v[i + 1] == w[i + 1];
      }
    }
  }

  /** The goal step paints exactly the cells strictly between the start and
      the goal on the popped walk, and the walk leads from the start to the
      goal through neighbouring cells. */
  lemma GoalStepPaints(start: Pos, s: Bfs, goal: Pos)
    requires BfsPre(s) && Walks(start, s.frontier) && s.frontier[0].0 == goal
    ensures var w := WalkOf(s.frontier[0]);
            && w[0] == start && w[|w| - 1] == goal && IsWalk(w)
            && BfsStep(s, goal).1
            && forall i, j | 0 <= i < ROWS && 0 <= j < COLS ::
                 BfsStep(s, goal).0.grid[i][j] == if (i, j) in Middle(w) then PATH else s.grid[i][j]
  {
    var e := s.frontier[0];
    assert e in s.frontier;
    var w := WalkOf(e);
    assert forall c | c in Middle(w) :: c in w;
    PaintPathEffect(s.grid, ROWS, COLS, Middle(w));
  }

  // ---------------------------------------------------------------------
  // What a run keeps: the start and the goal survive the path painting

  /** The grid holds its one start at `start` and its one goal at `goal`. */
  ghost predicate Marked(g: Grid, start: Pos, goal: Pos) {
    && IsGrid(g, ROWS, COLS) && InBounds(ROWS, COLS, start) && InBounds(ROWS, COLS, goal)
    && At(g, start) == START && At(g, goal) == GOAL
    && (forall i, j | 0 <= i < ROWS && 0 <= j < COLS && g[i][j] == START :: (i, j) == start)
    && (forall i, j | 0 <= i < ROWS && 0 <= j < COLS && g[i][j] == GOAL :: (i, j) == goal)
  }

  /** A grid with the same layout keeps the marks. */
  lemma MarkedLayout(g1: Grid, g2: Grid, start: Pos, goal: Pos)
    requires Marked(g1, start, goal) && SameLayout(g1, g2, ROWS, COLS)
    ensures Marked(g2, start, goal)
  {
  }

  /** A cell that is not blocked stays so in a grid with the same layout. */
  lemma LayoutKeepsOpen(g1: Grid, g2: Grid, p: Pos)
    requires SameLayout(g1, g2, ROWS, COLS) && InBounds(ROWS, COLS, p) && At(g1, p) != BLOCKED
    ensures At(g2, p) != BLOCKED
  {
  }

  /** What every state of a run satisfies until the goal is popped: the
      marks stay, the goal is never expanded, expanded and frontier nodes
      are not blocked, every entry's path consists of expanded nodes and
      returns to the start only at its head, and once the start has been
      expanded all its neighbours are visited (so a re-entered start adds
      nothing to the frontier); the visited list repeats no node and stays
      inside the grid. */
  ghost predicate BfsInv(start: Pos, goal: Pos, s: Bfs) {
    && Marked(s.grid, start, goal)
    && FrontierInBounds(s.frontier) && Walks(start, s.frontier)
    && goal !in s.expanded
    && (forall c | c in s.expanded :: InBounds(ROWS, COLS, c) && At(s.grid, c) != BLOCKED)
    && (forall e | e in s.frontier :: EntryInv(start, s, e))
    && (start in s.expanded ==> forall n | n in Neighbours(s.grid, ROWS, COLS, start) :: n in s.visited)
    && VisitedCounted(s)
  }

  /** The script's set-up: the start alone on the frontier, nothing
      expanded or visited. */
  lemma BfsInitialInv(g: Grid, start: Pos, goal: Pos)
    requires Marked(g, start, goal)
    ensures BfsInv(start, goal, Bfs(g, [(start, [])], [], []))
  {
    InitialWalks(start);
  }

  /** The neighbour loop visits every neighbour it is given and forgets no
      visited node. */
  lemma {:induction false} PushAllCovers(s: Bfs, path: seq<Pos>, ns: seq<Pos>)
    requires IsGrid(s.grid, ROWS, COLS) && forall q | q in ns :: InBounds(ROWS, COLS, q)
    ensures forall n | n in ns :: n in PushAll(s, path, ns).visited
    ensures forall n | n in s.visited :: n in PushAll(s, path, ns).visited
  {
    if ns != [] {
      var init := ns[..|ns| - 1];
      assert forall q | q in init :: q in ns;
      PushAllCovers(s, path, init);
      var n := ns[|ns| - 1];
      forall m | m in ns ensures m in PushAll(s, path, ns).visited {
        if m != n {
          assert m in init;
        }
      }
    }
  }

  /** The neighbour loop's 'V' writes, on cells that are not blocked, keep
      the layout. */
  lemma {:induction false} PushAllLayout(s: Bfs, path: seq<Pos>, ns: seq<Pos>)
    requires IsGrid(s.grid, ROWS, COLS)
    requires forall q | q in ns :: InBounds(ROWS, COLS, q) && At(s.grid, q) != BLOCKED
    ensures SameLayout(s.grid, PushAll(s, path, ns).grid, ROWS, COLS)
  {
    if ns != [] {
      var init := ns[..|ns| - 1];
      assert forall q | q in init :: q in ns;
      PushAllLayout(s, path, init);
      var t := PushAll(s, path, init);
      var n := ns[|ns| - 1];
      assert n in ns;
      if n !in t.visited {
        LayoutKeepsOpen(s.grid, t.grid, n);
        SetCellLayout(t.grid, ROWS, COLS, n, VISITED);
        SameLayoutTrans(s.grid, t.grid, SetCell(t.grid, n, VISITED), ROWS, COLS);
      } else {
        assert SameLayout(s.grid, t.grid, ROWS, COLS);
      }
    }
  }

  /** How a step that does not pop the goal relates the state before it to
      the state after it: the layout stays, the popped node joins the
      expanded list, every neighbour of it ends up visited, and the new
      entries, at the back, carry the popped walk and unvisited open
      neighbours. */
  ghost predicate NonGoalMove(s: Bfs, t: Bfs)
    requires BfsPre(s)
  {
    var e := s.frontier[0];
    && SameLayout(s.grid, t.grid, ROWS, COLS)
    && t.expanded == s.expanded + [e.0]
    && |t.visited| >= |s.visited|
    && (forall n | n in s.visited :: n in t.visited)
    && (forall n | n in Neighbours(s.grid, ROWS, COLS, e.0) :: n in t.visited)
    && t.frontier == s.frontier[1..] + Tagged(t.visited[|s.visited|..], WalkOf(e))
    && (forall x | x in t.visited[|s.visited|..] ::
          x in Neighbours(s.grid, ROWS, COLS, e.0) && x !in s.visited
          && InBounds(ROWS, COLS, x) && At(s.grid, x) != BLOCKED)
  }

  /** A step that does not pop an open node other than the goal moves as
      NonGoalMove says. */
  lemma NonGoalStep(s: Bfs, goal: Pos)
    requires BfsPre(s) && s.frontier[0].0 != goal && At(s.grid, s.frontier[0].0) != BLOCKED
    ensures NonGoalMove(s, BfsStep(s, goal).0)
  {
    var e := s.frontier[0];
    assert e in s.frontier;
    var w := WalkOf(e);
    var g := SetCell(s.grid, e.0, EXPLORED);
    SetCellLayout(s.grid, ROWS, COLS, e.0, EXPLORED);
    NeighboursOpen(g, ROWS, COLS, e.0);
    NeighboursSameLayout(s.grid, g, ROWS, COLS, e.0);
    var ns := Neighbours(g, ROWS, COLS, e.0);
    var s1 := s.(frontier := s.frontier[1..], expanded := s.expanded + [e.0], grid := g);
    var t := PushAll(s1, w, ns);
    assert BfsStep(s, goal).0 == t;
    PushAllLayout(s1, w, ns);
    SameLayoutTrans(s.grid, g, t.grid, ROWS, COLS);
    PushAllShape(s1, w, ns);
    PushAllFresh(s1, w, ns);
    PushAllCovers(s1, w, ns);
    forall x | x in t.visited[|s.visited|..] ensures At(s.grid, x) != BLOCKED {
      LayoutKeepsOpen(g, s.grid, x);
    }
  }

  /** What the invariant asks of one frontier entry in state `t`. */
  ghost predicate EntryInv(start: Pos, t: Bfs, x: Item)
    requires IsGrid(t.grid, ROWS, COLS)
  {
    && InBounds(ROWS, COLS, x.0) && At(t.grid, x.0) != BLOCKED
    && (forall c | c in x.1 :: c in t.expanded)
    && (x.1 != [] ==> start !in x.1[1..])
  }

  /** An entry that stays on the frontier keeps its properties. */
  lemma KeptEntryInv(start: Pos, goal: Pos, s: Bfs, t: Bfs, x: Item)
    requires BfsInv(start, goal, s) && |s.frontier| > 0 && NonGoalMove(s, t) && x in s.frontier
    ensures EntryInv(start, t, x)
  {
    LayoutKeepsOpen(s.grid, t.grid, x.0);
  }

  /** A new entry carries the popped walk and an unvisited open neighbour
      of the popped node. That node is not a re-entered start: a start
      popped again was expanded before, so all its neighbours are visited. */
  lemma NewEntryInv(start: Pos, s: Bfs, t: Bfs, n: Pos)
    requires BfsPre(s) && NonGoalMove(s, t) && n in t.visited[|s.visited|..]
    requires WalkOf(s.frontier[0])[0] == start && EntryInv(start, s, s.frontier[0])
    requires start in s.expanded ==> forall m | m in Neighbours(s.grid, ROWS, COLS, start) :: m in s.visited
    ensures EntryInv(start, t, (n, WalkOf(s.frontier[0])))
  {
    var e := s.frontier[0];
    if e.1 != [] {
      assert WalkOf(e)[0] == e.1[0] && e.1[0] in e.1;
      assert e.0 != start;
      assert WalkOf(e)[1..] == e.1[1..] + [e.0];
    }
    LayoutKeepsOpen(s.grid, t.grid, n);
  }

  /** The entries such a move leaves on the frontier are open cells whose
      paths consist of expanded nodes and return to the start only at their
      head. */
  lemma MoveEntriesInv(start: Pos, goal: Pos, s: Bfs, t: Bfs)
    requires BfsInv(start, goal, s) && |s.frontier| > 0 && NonGoalMove(s, t)
    ensures forall x | x in t.frontier :: EntryInv(start, t, x)
  {
    var added := t.visited[|s.visited|..];
    forall x | x in t.frontier ensures EntryInv(start, t, x) {
      if x in s.frontier[1..] {
        assert x in s.frontier;
        KeptEntryInv(start, goal, s, t, x);
      } else {
        assert x in Tagged(added, WalkOf(s.frontier[0]));
        var k :| 0 <= k < |added| && Tagged(added, WalkOf(s.frontier[0]))[k] == x;
        assert added[k] in added;
        assert s.frontier[0] in s.frontier;
        NewEntryInv(start, s, t, added[k]);
      }
    }
  }

  /** Such a move keeps the invariant, given that the new walks are walks
      from the start inside the grid. */
  lemma MoveInv(start: Pos, goal: Pos, s: Bfs, t: Bfs)
    requires BfsInv(start, goal, s) && |s.frontier| > 0 && s.frontier[0].0 != goal && NonGoalMove(s, t)
    requires Walks(start, t.frontier) && FrontierInBounds(t.frontier) && VisitedCounted(t)
    ensures BfsInv(start, goal, t)
  {
    MoveEntriesInv(start, goal, s, t);
    MarkedLayout(s.grid, t.grid, start, goal);
    var e := s.frontier[0];
    assert e in s.frontier;
    forall c | c in t.expanded ensures At(t.grid, c) != BLOCKED {
      LayoutKeepsOpen(s.grid, t.grid, c);
    }
    if start in t.expanded {
      NeighboursSameLayout(s.grid, t.grid, ROWS, COLS, start);
    }
  }

  /** A step that does not pop the goal keeps the invariant and the
      layout. */
  lemma BfsStepInv(start: Pos, goal: Pos, s: Bfs)
    requires BfsInv(start, goal, s) && |s.frontier| > 0 && s.frontier[0].0 != goal
    ensures BfsInv(start, goal, BfsStep(s, goal).0)
    ensures SameLayout(s.grid, BfsStep(s, goal).0.grid, ROWS, COLS)
  {
    assert s.frontier[0] in s.frontier;
    BfsStepWalks(start, s, goal);
    NonGoalStep(s, goal);
    BfsStepMeasure(s, goal);
    MoveInv(start, goal, s, BfsStep(s, goal).0);
  }

  /** The goal step's unprotected writes miss the start, the goal and the
      blocked cells: the popped path holds only expanded cells, none of
      them the goal, and the start only at its head, which `path[1:-1]`
      skips. */
  lemma GoalStepKeepsMarks(start: Pos, goal: Pos, s: Bfs)
    requires BfsInv(start, goal, s) && |s.frontier| > 0 && s.frontier[0].0 == goal
    ensures start !in Middle(WalkOf(s.frontier[0])) && goal !in Middle(WalkOf(s.frontier[0]))
    ensures SameLayout(s.grid, BfsStep(s, goal).0.grid, ROWS, COLS)
    ensures Marked(BfsStep(s, goal).0.grid, start, goal)
  {
    var e := s.frontier[0];
    assert e in s.frontier;
    var w := WalkOf(e);
    if e.1 != [] {
      assert Middle(w) == e.1[1..];
      forall c | c in Middle(w) ensures InBounds(ROWS, COLS, c) && !Structural(At(s.grid, c)) {
        assert c in e.1;
      }
    }
    PaintLayout(s.grid, ROWS, COLS, Middle(w));
    MarkedLayout(s.grid, BfsStep(s, goal).0.grid, start, goal);
  }

  // ---------------------------------------------------------------------
  // A bound on the number of steps

  /** The visited list repeats no node and stays inside the grid. */
  predicate VisitedCounted(s: Bfs) {
    Distinct(s.visited) && forall v | v in s.visited :: InBounds(ROWS, COLS, v)
  }

  /** What a run has left: the queued entries plus the cells not yet
      visited. */
  function Measure(s: Bfs): int {
    |s.frontier| + (ROWS * COLS - |s.visited|)
  }

  /** A counted visited list has at most one node per cell. */
  lemma VisitedBound(s: Bfs)
    requires VisitedCounted(s)
    ensures |s.visited| <= ROWS * COLS && Measure(s) >= |s.frontier|
  {
    DistinctCard(s.visited);
    BoxBound((set p | p in s.visited), ROWS, COLS);
  }

  /** A step that does not pop the goal uses up exactly one unit of the
      measure: it drops one entry and queues one per newly visited node,
      each a cell that was not visited before. */
  lemma BfsStepMeasure(s: Bfs, goal: Pos)
    requires BfsPre(s) && s.frontier[0].0 != goal && VisitedCounted(s)
    ensures VisitedCounted(BfsStep(s, goal).0)
    ensures Measure(BfsStep(s, goal).0) == Measure(s) - 1
    ensures |BfsStep(s, goal).0.visited| <= ROWS * COLS
  {
    BfsStepFacts(s, goal);
    var t := BfsStep(s, goal).0;
    var added := t.visited[|s.visited|..];
    assert t.visited == s.visited + added;
    forall v | v in t.visited ensures InBounds(ROWS, COLS, v) {
      if v !in s.visited {
        assert v in added;
      }
    }
    VisitedBound(t);
  }

  /** The script's loop without its display: the states of successive calls,
      every call but the last popping a node other than the goal (the call
      that pops the goal returns False and ends the loop). */
  ghost predicate BfsRun(goal: Pos, ss: seq<Bfs>) {
    && |ss| > 0
    && forall i | 0 <= i < |ss| - 1 ::
         BfsPre(ss[i]) && ss[i].frontier[0].0 != goal && ss[i + 1] == BfsStep(ss[i], goal).0
  }

  /** After `k` non-goal steps the measure has dropped by `k`, and it never
      goes below zero. */
  lemma {:induction false} BfsRunMeasure(goal: Pos, ss: seq<Bfs>, k: nat)
    requires BfsRun(goal, ss) && VisitedCounted(ss[0]) && k < |ss|
    ensures VisitedCounted(ss[k]) && Measure(ss[k]) == Measure(ss[0]) - k
    ensures Measure(ss[k]) >= 0
  {
    if k > 0 {
      BfsRunMeasure(goal, ss, k - 1);
      assert BfsPre(ss[k - 1]) && ss[k - 1].frontier[0].0 != goal && ss[k] == BfsStep(ss[k - 1], goal).0;
      BfsStepMeasure(ss[k - 1], goal);
    }
    VisitedBound(ss[k]);
  }

  /** From the script's set-up, the loop calls breadth_first_search at most
      ROWS * COLS + 1 times before it pops the goal or the frontier runs
      out: each call that does not pop the goal uses up one unit of a
      measure that starts at ROWS * COLS + 1. */
  lemma BfsRunBound(g: Grid, start: Pos, goal: Pos, ss: seq<Bfs>)
    requires BfsRun(goal, ss) && ss[0] == Bfs(g, [(start, [])], [], [])
    ensures |ss| - 1 <= ROWS * COLS + 1
  {
    BfsRunMeasure(goal, ss, |ss| - 1);
  }
}
