/** What the two stand-alone scripts, astar.py and bfs.py, share: the fixed
    12 by 12 grid and their common `get_actions`, whose bounds test compares
    the row with the row length and the column with the number of rows. */
module Scripts {
  import opened Cells
  import opened Engine

  const ROWS: nat := 12
  const COLS: nat := 12

  /** The bounds test of the scripts' get_actions, with `width = len(grid)`
      and `height = len(grid[0])`: `0 <= x < height` and `0 <= y < width`. */
  predicate SwappedInRange(g: Grid, q: Pos)
    requires g != []
  {
    0 <= q.0 < |g[0]| && 0 <= q.1 < |g|
  }

  /** The scripts' neighbour filter over `qs`, in order: nothing when some
      target passes the swapped bounds test but indexes outside the grid
      (Python's IndexError), else the targets that pass it and are not
      blocked. An empty grid fails at `len(grid[0])`. */
  function SwappedAmong(g: Grid, qs: seq<Pos>): Option<seq<Pos>> {
    if g == [] then None
    else if qs == [] then Some([])
    else
      var q := qs[|qs| - 1];
      match SwappedAmong(g, qs[..|qs| - 1])
      case None => None
      case Some(r) =>
        if !SwappedInRange(g, q) then Some(r)
        else if q.0 >= |g| || q.1 >= |g[q.0]| then None
        else if g[q.0][q.1] != BLOCKED then Some(r + [q])
        else Some(r)
  }

  /** get_actions of astar.py and bfs.py. */
  method GetActions(grid: Grid, currentNode: Pos, actions: seq<Pos>) returns (r: Option<seq<Pos>>)
    ensures r == SwappedAmong(grid, Targets(currentNode, actions))
  {
    if grid == [] {
      return None;
    }
    var possibleActions: seq<Pos> := [];
    ghost var targets := Targets(currentNode, actions);
    var width := |grid|;
    var height := |grid[0]|;
    for k := 0 to |actions|
      invariant SwappedAmong(grid, targets[..k]) == Some(possibleActions)
    {
      var action := actions[k];
      var newX := currentNode.0 + action.0;
      var newY := currentNode.1 + action.1;
      assert targets[..k + 1][..k] == targets[..k] && targets[k] == (newX, newY);
      if newX >= 0 && newX < height && newY >= 0 && newY < width {
        if newX >= |grid| || newY >= |grid[newX]| {
          SwappedNoneExtends(grid, targets, k + 1);
          return None;
        }
        if grid[newX][newY] != BLOCKED {
          possibleActions := possibleActions + [(newX, newY)];
        }
      }
    }
    assert targets[..|actions|] == targets;
    return Some(possibleActions);
  }

  /** The paint loop of both scripts' goal step, `grid[x][y] = 'P'` for
      each cell. */
  method PaintCells(grid: Grid, cells: seq<Pos>) returns (g: Grid)
    requires IsGrid(grid, ROWS, COLS) && forall c | c in cells :: InBounds(ROWS, COLS, c)
    ensures g == PaintPath(grid, ROWS, COLS, cells)
  {
    g := grid;
    for k := 0 to |cells|
      invariant g == PaintPath(grid, ROWS, COLS, cells[..k])
    {
      assert cells[..k + 1][..k] == cells[..k];
      assert cells[k] in cells;
      var (x, y) := cells[k];
      g := g[x := g[x][y := PATH]];
    }
    assert cells[..|cells|] == cells;
  }

  /** On a square grid the swapped test is the right one: the scripts'
      get_actions gives the open targets, in order. */
  lemma {:induction false} SwappedSquare(g: Grid, n: nat, qs: seq<Pos>)
    requires n >= 1 && IsGrid(g, n, n)
    ensures SwappedAmong(g, qs) == Some(OpenAmong(g, n, n, qs))
  {
    if qs != [] {
      var q := qs[|qs| - 1];
      SwappedSquare(g, n, qs[..|qs| - 1]);
      var r := OpenAmong(g, n, n, qs[..|qs| - 1]);
      assert OpenAmong(g, n, n, qs) == r + (if Open(g, n, n, q) then [q] else []);
      if InBounds(n, n, q) {
        assert SwappedInRange(g, q) && |g[q.0]| == n;
        assert Open(g, n, n, q) <==> g[q.0][q.1] != BLOCKED;
        assert SwappedAmong(g, qs) == if g[q.0][q.1] != BLOCKED then Some(r + [q]) else Some(r);
      } else {
        assert !SwappedInRange(g, q) && !Open(g, n, n, q);
        assert SwappedAmong(g, qs) == Some(r) && r + [] == r;
      }
    }
  }

  /** Once the filter has failed on a prefix it fails on the whole list. */
  lemma {:induction false} SwappedNoneExtends(g: Grid, qs: seq<Pos>, k: nat)
    requires k <= |qs| && SwappedAmong(g, qs[..k]) == None
    ensures SwappedAmong(g, qs) == None
    decreases |qs| - k
  {
    if k < |qs| {
      assert qs[..k + 1][..k] == qs[..k];
      SwappedNoneExtends(g, qs, k + 1);
    } else {
      assert qs[..k] == qs;
    }
  }

  /** On the scripts' own grid, get_actions is the window's get_actions. */
  lemma ScriptNeighbours(g: Grid, p: Pos)
    requires IsGrid(g, ROWS, COLS)
    ensures SwappedAmong(g, Targets(p, ACTIONS)) == Some(Neighbours(g, ROWS, COLS, p))
  {
    SwappedSquare(g, ROWS, Targets(p, ACTIONS));
  }

  /** The grid of one row and two columns, both cells empty. */
  function OneByTwo(): (g: Grid)
    ensures IsGrid(g, 1, 2)
  {
    [[EMPTY, EMPTY]]
  }

  /** On a grid of one row and two columns, from the left cell, the swapped
      test lets the move down through and indexes row 1, which does not
      exist, although the open neighbours of that cell are just the right
      cell. */
  lemma SwappedFailsOffSquare()
    ensures SwappedAmong(OneByTwo(), Targets((0, 0), ACTIONS)) == None
    ensures Neighbours(OneByTwo(), 1, 2, (0, 0)) == [(0, 1)]
  {
    OffSquareSwapped();
    OffSquareOpen();
  }

  lemma OffSquareSwapped()
    ensures SwappedAmong(OneByTwo(), Targets((0, 0), ACTIONS)) == None
  {
    var g := OneByTwo();
    var ts := Targets((0, 0), ACTIONS);
    var two := ts[..2];
    assert two == [(-1, 0), (1, 0)];
    assert two[..1] == [(-1, 0)] && two[..1][..0] == [];
    assert SwappedAmong(g, two[..1]) == Some([]);
    assert SwappedAmong(g, two) == None;
    SwappedNoneExtends(g, ts, 2);
  }

  lemma OffSquareOpen()
    ensures Neighbours(OneByTwo(), 1, 2, (0, 0)) == [(0, 1)]
  {
    var ts := Targets((0, 0), ACTIONS);
    assert ts == [(-1, 0), (1, 0), (0, -1), (0, 1)];
    OffSquareOpenAmong(ts);
  }

  lemma OffSquareOpenAmong(ts: seq<Pos>)
    requires ts == [(-1, 0), (1, 0), (0, -1), (0, 1)]
    ensures OpenAmong(OneByTwo(), 1, 2, ts) == [(0, 1)]
  {
    var g := OneByTwo();
    assert ts[..0] == [];
    OpenAmongNext(g, 1, 2, ts, 0);
    OpenAmongNext(g, 1, 2, ts, 1);
    OpenAmongNext(g, 1, 2, ts, 2);
    assert OpenAmong(g, 1, 2, ts[..3]) == [];
    OpenAmongNext(g, 1, 2, ts, 3);
    assert ts[..4] == ts;
  }
}
