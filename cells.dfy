/** The cell-state grid shared by the maze window and the two early scripts:
    positions, the state tokens, neighbour generation and the protected write
    that never overwrites the start or the goal. */
module Cells {

  /** A position (row, column), as the Python tuples are. */
  type Pos = (int, int)

  /** A grid of state tokens: each cell holds the string the Python list holds. */
  type Grid = seq<seq<string>>

  const EMPTY: string := "0"
  const START: string := "S"
  const GOAL: string := "G"
  const BLOCKED: string := "X"
  const VISITED: string := "V"
  const EXPLORED: string := "E"
  const PATH: string := "P"

  /** A value or nothing, as Python's `None`. */
  datatype Option<T> = None | Some(value: T)

  /** The moves UP, DOWN, LEFT, RIGHT, in the order of the actions dictionary. */
  const ACTIONS: seq<Pos> := [(-1, 0), (1, 0), (0, -1), (0, 1)]

  /** `g` has `rows` rows of `cols` cells each. */
  predicate IsGrid<T>(g: seq<seq<T>>, rows: int, cols: int) {
    |g| == rows && forall r | 0 <= r < |g| :: |g[r]| == cols
  }

  predicate InBounds(rows: int, cols: int, p: Pos) {
    0 <= p.0 < rows && 0 <= p.1 < cols
  }

  function Abs(x: int): nat { if x < 0 then -x else x }

  function Manhattan(p: Pos, q: Pos): nat {
    Abs(p.0 - q.0) + Abs(p.1 - q.1)
  }

  /** `q` is one of the four orthogonal neighbours of `p`. */
  predicate Adjacent(p: Pos, q: Pos) {
    Manhattan(p, q) == 1
  }

  function At(g: Grid, p: Pos): string
    requires 0 <= p.0 < |g| && 0 <= p.1 < |g[p.0]|
  {
    g[p.0][p.1]
  }

  /** A plain cell write, `grid[x][y] = v`. */
  function Write(g: Grid, p: Pos, v: string): (r: Grid)
    requires 0 <= p.0 < |g| && 0 <= p.1 < |g[p.0]|
    ensures |r| == |g| && forall i | 0 <= i < |g| :: |r[i]| == |g[i]|
    ensures forall i, j | 0 <= i < |g| && 0 <= j < |g[i]| ::
      r[i][j] == if (i, j) == p then v else g[i][j]
  {
    g[p.0 := g[p.0][p.1 := v]]
  }

  /** set_node: write `v` unless the cell holds the start or the goal. */
  function SetCell(g: Grid, p: Pos, v: string): Grid
    requires 0 <= p.0 < |g| && 0 <= p.1 < |g[p.0]|
  {
    if At(g, p) != START && At(g, p) != GOAL then Write(g, p, v) else g
  }

  /** set_node either leaves the grid alone (start or goal cell) or changes
      exactly the one cell it names, to the state it is given. */
  lemma SetCellEffect(g: Grid, p: Pos, v: string)
    requires 0 <= p.0 < |g| && 0 <= p.1 < |g[p.0]|
    ensures At(g, p) == START || At(g, p) == GOAL ==> SetCell(g, p, v) == g
    ensures At(g, p) != START && At(g, p) != GOAL ==>
      |SetCell(g, p, v)| == |g| &&
      (forall i | 0 <= i < |g| :: |SetCell(g, p, v)[i]| == |g[i]|) &&
      At(SetCell(g, p, v), p) == v &&
      forall i, j | 0 <= i < |g| && 0 <= j < |g[i]| && (i, j) != p :: SetCell(g, p, v)[i][j] == g[i][j]
  {
  }

  /** The cells the editor owns: start, goal and blocked. */
  predicate Structural(v: string) {
    v == START || v == GOAL || v == BLOCKED
  }

  /** `g2` has the same start, goal and blocked cells as `g1`: a cell that is
      structural in either grid holds the same token in both. */
  predicate SameLayout(g1: Grid, g2: Grid, rows: int, cols: int) {
    IsGrid(g1, rows, cols) && IsGrid(g2, rows, cols) &&
    forall i, j | 0 <= i < rows && 0 <= j < cols ::
      (Structural(g1[i][j]) || Structural(g2[i][j])) ==> g1[i][j] == g2[i][j]
  }

  lemma SameLayoutTrans(g1: Grid, g2: Grid, g3: Grid, rows: int, cols: int)
    requires SameLayout(g1, g2, rows, cols) && SameLayout(g2, g3, rows, cols)
    ensures SameLayout(g1, g3, rows, cols)
  {
  }

  /** A protected write of a non-structural state keeps the layout. */
  lemma SetCellLayout(g: Grid, rows: int, cols: int, p: Pos, v: string)
    requires IsGrid(g, rows, cols) && InBounds(rows, cols, p)
    requires !Structural(v) && At(g, p) != BLOCKED
    ensures SameLayout(g, SetCell(g, p, v), rows, cols)
  {
  }

  /** A cell get_actions may move to: inside the grid and not blocked. */
  predicate Open(g: Grid, rows: int, cols: int, q: Pos)
    requires IsGrid(g, rows, cols)
  {
    InBounds(rows, cols, q) && At(g, q) != BLOCKED
  }

  function Move(p: Pos, a: Pos): Pos { (p.0 + a.0, p.1 + a.1) }

  /** The positions reached from `p` by each action, in action order. */
  function Targets(p: Pos, acts: seq<Pos>): (r: seq<Pos>)
    ensures |r| == |acts| && forall i | 0 <= i < |acts| :: r[i] == Move(p, acts[i])
  {
    if acts == [] then [] else [Move(p, acts[0])] + Targets(p, acts[1..])
  }

  /** The open cells among `qs`, in their order. */
  function OpenAmong(g: Grid, rows: int, cols: int, qs: seq<Pos>): (r: seq<Pos>)
    requires IsGrid(g, rows, cols)
    ensures forall q :: q in r <==> q in qs && Open(g, rows, cols, q)
    ensures |r| <= |qs|
  {
    if qs == [] then []
    else
      var last := qs[|qs| - 1];
      assert qs == qs[..|qs| - 1] + [last];
      OpenAmong(g, rows, cols, qs[..|qs| - 1]) + (if Open(g, rows, cols, last) then [last] else [])
  }

  /** get_actions of the maze window: the open orthogonal neighbours of `p`. */
  function Neighbours(g: Grid, rows: int, cols: int, p: Pos): seq<Pos>
    requires IsGrid(g, rows, cols)
  {
    OpenAmong(g, rows, cols, Targets(p, ACTIONS))
  }

  /** Which action leads from `p` to `q`: 0 UP, 1 DOWN, 2 LEFT, 3 RIGHT. */
  function Direction(p: Pos, q: Pos): int {
    if q == Move(p, ACTIONS[0]) then 0
    else if q == Move(p, ACTIONS[1]) then 1
    else if q == Move(p, ACTIONS[2]) then 2
    else 3
  }

  lemma AdjacentIsTarget(p: Pos, q: Pos)
    ensures Adjacent(p, q) <==> q in Targets(p, ACTIONS)
  {
    var t := Targets(p, ACTIONS);
    assert t == [Move(p, ACTIONS[0]), Move(p, ACTIONS[1]), Move(p, ACTIONS[2]), Move(p, ACTIONS[3])];
  }

  /** Filtering keeps the original relative order. */
  lemma {:induction false} OpenAmongOrder(g: Grid, rows: int, cols: int, qs: seq<Pos>, i: int, j: int)
    requires IsGrid(g, rows, cols)
    requires 0 <= i < j < |OpenAmong(g, rows, cols, qs)|
    ensures exists a, b :: 0 <= a < b < |qs| && qs[a] == OpenAmong(g, rows, cols, qs)[i] && qs[b] == OpenAmong(g, rows, cols, qs)[j]
  {
    var init := qs[..|qs| - 1];
    var last := qs[|qs| - 1];
    assert qs == init + [last];
    var r := OpenAmong(g, rows, cols, qs);
    var ri := OpenAmong(g, rows, cols, init);
    if j < |ri| {
      OpenAmongOrder(g, rows, cols, init, i, j);
      var a, b :| 0 <= a < b < |init| && init[a] == ri[i] && init[b] == ri[j];
      assert qs[a] == r[i] && qs[b] == r[j];
    } else {
      assert r[j] == last;
      assert r[i] in init by { assert r[i] == ri[i]; assert ri[i] in init; }
      var a :| 0 <= a < |init| && init[a] == r[i];
      assert qs[a] == r[i] && qs[|qs| - 1] == r[j];
    }
  }

  lemma NeighboursOrder(g: Grid, rows: int, cols: int, p: Pos, i: int, j: int)
    requires IsGrid(g, rows, cols) && 0 <= i < j < |Neighbours(g, rows, cols, p)|
    ensures Direction(p, Neighbours(g, rows, cols, p)[i]) < Direction(p, Neighbours(g, rows, cols, p)[j])
  {
    var t := Targets(p, ACTIONS);
    var r := Neighbours(g, rows, cols, p);
    OpenAmongOrder(g, rows, cols, t, i, j);
    var a, b :| 0 <= a < b < |t| && t[a] == r[i] && t[b] == r[j];
    DirectionOfMove(p, a);
    DirectionOfMove(p, b);
  }

  lemma DirectionOfMove(p: Pos, k: int)
    requires 0 <= k < |ACTIONS|
    ensures Direction(p, Move(p, ACTIONS[k])) == k
  {
  }

  /** get_actions returns exactly the in-bounds, non-blocked orthogonal
      neighbours, each once, in UP, DOWN, LEFT, RIGHT order. */
  lemma NeighboursSpec(g: Grid, rows: int, cols: int, p: Pos)
    requires IsGrid(g, rows, cols)
    ensures forall q :: q in Neighbours(g, rows, cols, p) <==> Adjacent(p, q) && Open(g, rows, cols, q)
    ensures |Neighbours(g, rows, cols, p)| <= 4
    ensures forall i, j | 0 <= i < j < |Neighbours(g, rows, cols, p)| ::
      Direction(p, Neighbours(g, rows, cols, p)[i]) < Direction(p, Neighbours(g, rows, cols, p)[j])
  {
    var r := Neighbours(g, rows, cols, p);
    forall q ensures q in r <==> Adjacent(p, q) && Open(g, rows, cols, q) {
      AdjacentIsTarget(p, q);
    }
    forall i, j | 0 <= i < j < |r| ensures Direction(p, r[i]) < Direction(p, r[j]) {
      NeighboursOrder(g, rows, cols, p, i, j);
    }
  }

  /** Every neighbour is an open orthogonal neighbour. */
  lemma NeighboursOpen(g: Grid, rows: int, cols: int, p: Pos)
    requires IsGrid(g, rows, cols)
    ensures forall q | q in Neighbours(g, rows, cols, p) ::
      Adjacent(q, p) && InBounds(rows, cols, q) && At(g, q) != BLOCKED
  {
    forall q | q in Neighbours(g, rows, cols, p) ensures Adjacent(q, p) {
      AdjacentIsTarget(p, q);
    }
  }

  /** Neighbours are distinct (they are in strictly increasing direction). */
  lemma NeighboursDistinct(g: Grid, rows: int, cols: int, p: Pos)
    requires IsGrid(g, rows, cols)
    ensures forall i, j | 0 <= i < j < |Neighbours(g, rows, cols, p)| ::
      Neighbours(g, rows, cols, p)[i] != Neighbours(g, rows, cols, p)[j]
  {
    NeighboursSpec(g, rows, cols, p);
  }

  /** Neighbour generation only looks at whether a cell is blocked. */
  lemma NeighboursSameLayout(g1: Grid, g2: Grid, rows: int, cols: int, p: Pos)
    requires SameLayout(g1, g2, rows, cols)
    ensures Neighbours(g1, rows, cols, p) == Neighbours(g2, rows, cols, p)
  {
    OpenAmongSameLayout(g1, g2, rows, cols, Targets(p, ACTIONS));
  }

  lemma {:induction false} OpenAmongSameLayout(g1: Grid, g2: Grid, rows: int, cols: int, qs: seq<Pos>)
    requires SameLayout(g1, g2, rows, cols)
    ensures OpenAmong(g1, rows, cols, qs) == OpenAmong(g2, rows, cols, qs)
  {
    if qs != [] {
      OpenAmongSameLayout(g1, g2, rows, cols, qs[..|qs| - 1]);
    }
  }

  /** All positions holding `v`, in row-major order, from row `r` on. */
  function GridMatches(g: Grid, v: string, r: nat): seq<Pos>
    decreases |g| - r
  {
    if r >= |g| then [] else RowMatches(g[r], r, v, 0) + GridMatches(g, v, r + 1)
  }

  /** The positions of row `r` holding `v`, from column `c` on. */
  function RowMatches(row: seq<string>, r: int, v: string, c: nat): seq<Pos>
    decreases |row| - c
  {
    if c >= |row| then [] else (if row[c] == v then [(r, c)] else []) + RowMatches(row, r, v, c + 1)
  }

  /** `p` comes before `q` in row-major order. */
  predicate RowMajorBefore(p: Pos, q: Pos) {
    p.0 < q.0 || (p.0 == q.0 && p.1 < q.1)
  }

  lemma {:induction false} RowMatchesMembers(row: seq<string>, r: int, v: string, c: nat)
    ensures forall q :: q in RowMatches(row, r, v, c) <==> q.0 == r && c <= q.1 < |row| && row[q.1] == v
    decreases |row| - c
  {
    if c < |row| {
      RowMatchesMembers(row, r, v, c + 1);
    }
  }

  lemma {:induction false} RowMatchesOrdered(row: seq<string>, r: int, v: string, c: nat)
    ensures forall i, j | 0 <= i < j < |RowMatches(row, r, v, c)| ::
      RowMatches(row, r, v, c)[i].1 < RowMatches(row, r, v, c)[j].1
    decreases |row| - c
  {
    if c < |row| {
      RowMatchesOrdered(row, r, v, c + 1);
      RowMatchesMembers(row, r, v, c + 1);
      var head: seq<Pos> := if row[c] == v then [(r, c)] else [];
      var tail := RowMatches(row, r, v, c + 1);
      assert RowMatches(row, r, v, c) == head + tail;
      OrderedPrepend(head, tail, c);
    } else {
      assert RowMatches(row, r, v, c) == [];
    }
  }

  /** At most one cell in column `c` before cells in ascending columns
      right of it keeps the columns ascending. */
  lemma OrderedPrepend(head: seq<Pos>, tail: seq<Pos>, c: int)
    requires |head| <= 1 && forall i | 0 <= i < |head| :: head[i].1 == c
    requires forall q | q in tail :: q.1 > c
    requires forall i, j | 0 <= i < j < |tail| :: tail[i].1 < tail[j].1
    ensures forall i, j | 0 <= i < j < |head + tail| :: (head + tail)[i].1 < (head + tail)[j].1
  {
    var m := head + tail;
    forall i, j | 0 <= i < j < |m| ensures m[i].1 < m[j].1 {
      if i < |head| {
        assert m[j] in tail;
      } else {
        assert m[i] == tail[i - |head|] && m[j] == tail[j - |head|];
      }
    }
  }

  /** The scan of one row finds exactly the cells of that row holding `v`,
      left to right. */
  lemma RowMatchesSpec(row: seq<string>, r: int, v: string, c: nat)
    ensures forall q :: q in RowMatches(row, r, v, c) <==> q.0 == r && c <= q.1 < |row| && row[q.1] == v
    ensures forall i, j | 0 <= i < j < |RowMatches(row, r, v, c)| ::
      RowMatches(row, r, v, c)[i].1 < RowMatches(row, r, v, c)[j].1
  {
    RowMatchesMembers(row, r, v, c);
    RowMatchesOrdered(row, r, v, c);
  }

  /** check_position's scan finds exactly the cells holding `v`, each once,
      in strictly increasing row-major order. */
  lemma {:induction false} GridMatchesSpec(g: Grid, v: string, r: nat)
    ensures forall q :: q in GridMatches(g, v, r) <==>
      r <= q.0 < |g| && 0 <= q.1 < |g[q.0]| && g[q.0][q.1] == v
    ensures forall i, j | 0 <= i < j < |GridMatches(g, v, r)| ::
      RowMajorBefore(GridMatches(g, v, r)[i], GridMatches(g, v, r)[j])
    decreases |g| - r
  {
    if r < |g| {
      GridMatchesSpec(g, v, r + 1);
      RowMatchesSpec(g[r], r, v, 0);
      var a := RowMatches(g[r], r, v, 0);
      var b := GridMatches(g, v, r + 1);
      forall i, j | 0 <= i < j < |a + b| ensures RowMajorBefore((a + b)[i], (a + b)[j]) {
        if j < |a| {
        } else if i < |a| {
          assert (a + b)[j] in b;
        } else {
          assert (a + b)[i] == b[i - |a|] && (a + b)[j] == b[j - |a|];
        }
      }
    }
  }

  /** The open targets among the first `k + 1` are those among the first
      `k` and then target `k` if it is open. */
  lemma OpenAmongNext(g: Grid, rows: int, cols: int, qs: seq<Pos>, k: nat)
    requires IsGrid(g, rows, cols) && k < |qs|
    ensures OpenAmong(g, rows, cols, qs[..k + 1]) ==
      OpenAmong(g, rows, cols, qs[..k]) + (if Open(g, rows, cols, qs[k]) then [qs[k]] else [])
  {
    assert qs[..k + 1][..k] == qs[..k];
  }

  /** A cell of the grid is among the matches exactly when it holds `v`. */
  lemma MatchAt(g: Grid, v: string, q: Pos)
    requires 0 <= q.0 < |g| && 0 <= q.1 < |g[q.0]|
    ensures q in GridMatches(g, v, 0) <==> g[q.0][q.1] == v
  {
    GridMatchesSpec(g, v, 0);
  }

  /** Every match is a cell of the grid. */
  lemma MatchInBounds(g: Grid, v: string, q: Pos)
    requires q in GridMatches(g, v, 0)
    ensures 0 <= q.0 < |g| && 0 <= q.1 < |g[q.0]|
  {
    GridMatchesSpec(g, v, 0);
  }

  /** The first match is the least matching cell in row-major order. */
  lemma FirstMatchIsLeast(g: Grid, v: string, q: Pos)
    requires GridMatches(g, v, 0) != []
    requires 0 <= q.0 < |g| && 0 <= q.1 < |g[q.0]| && g[q.0][q.1] == v
    ensures q == GridMatches(g, v, 0)[0] || RowMajorBefore(GridMatches(g, v, 0)[0], q)
  {
    GridMatchesSpec(g, v, 0);
    var m := GridMatches(g, v, 0);
    var k :| 0 <= k < |m| && m[k] == q;
    if k > 0 {
      assert RowMajorBefore(m[0], m[k]);
    }
  }
}
