/** The single-step search shared by the five strategies of the maze window
    (and by the A* script): pop one open entry, stop with a reconstructed path
    at the goal, otherwise close it and enqueue its unseen neighbours with a
    back-pointer. This module holds the pure specification of one step, the
    invariant it keeps and the lemmas about both. */
module Engine {
  import opened Cells
  import opened StableSort

  datatype Strategy = BreadthFirst | DepthFirst | Dijkstra | GreedyBestFirst | AStar

  /** BFS and DFS push the literal cost 0 instead of looking it up. */
  predicate Uniform(st: Strategy) { st == BreadthFirst || st == DepthFirst }

  /** Dijkstra, greedy best-first and A* re-sort the open list after each step. */
  predicate Resorts(st: Strategy) { !Uniform(st) }

  /** Which entry a step pops: the last for DFS, the first otherwise. */
  function PopIndex(st: Strategy, n: nat): (r: nat)
    requires n > 0
    ensures r < n
    ensures st == DepthFirst ==> r == n - 1
    ensures st != DepthFirst ==> r == 0
  {
    if st == DepthFirst then n - 1 else 0
  }

  /** What stays fixed during a run: the strategy, the grid size, the cost
      grid and the goal. */
  datatype Config = Config(strategy: Strategy, rows: int, cols: int, costGrid: seq<seq<int>>, goal: Pos)

  /** The state a step changes: grid, open list, closed list, back-pointers
      and the last reconstructed path. */
  datatype Search = Search(grid: Grid, open: seq<Entry>, closed: seq<Pos>, bestPath: map<Pos, Pos>, fullPath: seq<Pos>)

  predicate WellSized(cfg: Config, s: Search) {
    IsGrid(s.grid, cfg.rows, cfg.cols) && IsGrid(cfg.costGrid, cfg.rows, cfg.cols)
  }

  /** The cost an entry for `p` is pushed with. */
  function EntryCost(cfg: Config, p: Pos): int
    requires IsGrid(cfg.costGrid, cfg.rows, cfg.cols) && InBounds(cfg.rows, cfg.cols, p)
  {
    if Uniform(cfg.strategy) then 0 else cfg.costGrid[p.0][p.1]
  }

  function IndexOf(s: seq<Pos>, x: Pos): (i: nat)
    requires x in s
    ensures i < |s| && s[i] == x && forall j | 0 <= j < i :: s[j] != x
  {
    if s[0] == x then 0 else 1 + IndexOf(s[1..], x)
  }

  lemma IndexOfAppend(s: seq<Pos>, y: Pos, x: Pos)
    requires x in s + [y]
    ensures x in s ==> IndexOf(s + [y], x) == IndexOf(s, x)
    ensures x !in s ==> IndexOf(s + [y], x) == |s|
  {
    var i := IndexOf(s + [y], x);
    if x in s {
      var k := IndexOf(s, x);
      assert (s + [y])[k] == x;
    }
  }

  /** Every back-pointer leads to a closed node that was closed before the
      node pointing to it (when that one is closed at all). */
  ghost predicate Ranked(bp: map<Pos, Pos>, closed: seq<Pos>) {
    forall k | k in bp :: bp[k] in closed && (k in closed ==> IndexOf(closed, bp[k]) < IndexOf(closed, k))
  }

  function Rank(closed: seq<Pos>, p: Pos): nat {
    if p in closed then IndexOf(closed, p) else |closed|
  }

  /** generate_path: the back-pointer chain from `p`, excluding `p` itself. */
  function Chain(bp: map<Pos, Pos>, closed: seq<Pos>, p: Pos): seq<Pos>
    requires Ranked(bp, closed)
    decreases Rank(closed, p)
  {
    if p in bp then [bp[p]] + Chain(bp, closed, bp[p]) else []
  }

  /** `full_path[:-1]`: every element but the last, in order (nothing
      for an empty list). */
  function DropLast<T>(s: seq<T>): (r: seq<T>)
    ensures |r| == if |s| == 0 then 0 else |s| - 1
    ensures forall i | 0 <= i < |r| :: r[i] == s[i]
  {
    if s == [] then [] else s[..|s| - 1]
  }

  /** `for (x, y) in cells: grid[x][y] = 'P'`. */
  function PaintPath(g: Grid, rows: int, cols: int, cells: seq<Pos>): (r: Grid)
    requires IsGrid(g, rows, cols) && forall c | c in cells :: InBounds(rows, cols, c)
    ensures IsGrid(r, rows, cols)
  {
    if cells == [] then g
    else
      var init := cells[..|cells| - 1];
      assert forall c | c in init :: c in cells;
      var last := cells[|cells| - 1];
      assert last in cells;
      assert InBounds(rows, cols, last);
      var prev := PaintPath(g, rows, cols, init);
      assert IsGrid(prev, rows, cols);
      assert |prev[last.0]| == cols;
      Write(prev, last, PATH)
  }

  /** One iteration of the neighbour loop. */
  function Visit(cfg: Config, current: Pos, s: Search, n: Pos): (r: Search)
    requires WellSized(cfg, s) && InBounds(cfg.rows, cfg.cols, n)
    ensures WellSized(cfg, r)
  {
    var c := EntryCost(cfg, n);
    if (n, c) !in s.open && n !in s.closed then
      s.(bestPath := s.bestPath[n := current], grid := SetCell(s.grid, n, VISITED), open := s.open + [(n, c)])
    else s
  }

  /** The whole neighbour loop, over `ns` in order. */
  function ExpandAll(cfg: Config, current: Pos, s: Search, ns: seq<Pos>): (r: Search)
    requires WellSized(cfg, s) && forall q | q in ns :: InBounds(cfg.rows, cfg.cols, q)
    ensures WellSized(cfg, r)
  {
    if ns == [] then s
    else
      var init := ns[..|ns| - 1];
      assert forall q | q in init :: q in ns;
      Visit(cfg, current, ExpandAll(cfg, current, s, init), ns[|ns| - 1])
  }

  /** What a step needs to be defined: a non-empty open list and in-bounds
      positions, and back-pointers that generate_path can follow to an end. */
  ghost predicate StepPre(cfg: Config, s: Search) {
    && WellSized(cfg, s) && |s.open| > 0
    && (forall e | e in s.open :: InBounds(cfg.rows, cfg.cols, e.0))
    && (forall p | p in s.closed :: InBounds(cfg.rows, cfg.cols, p))
    && Ranked(s.bestPath, s.closed)
  }

  function PoppedIndex(cfg: Config, s: Search): nat
    requires |s.open| > 0
  {
    PopIndex(cfg.strategy, |s.open|)
  }

  /** The position a step pops. */
  function Popped(cfg: Config, s: Search): Pos
    requires |s.open| > 0
  {
    s.open[PoppedIndex(cfg, s)].0
  }

  function Remaining(cfg: Config, s: Search): seq<Entry>
    requires |s.open| > 0
  {
    var i := PoppedIndex(cfg, s);
    s.open[..i] + s.open[i + 1..]
  }

  /** The state after the popped node is closed and marked explored. */
  function Closing(cfg: Config, s: Search): (r: Search)
    requires StepPre(cfg, s)
    ensures WellSized(cfg, r)
  {
    var current := Popped(cfg, s);
    s.(open := Remaining(cfg, s), closed := s.closed + [current], grid := SetCell(s.grid, current, EXPLORED))
  }

  /** The goal step: the popped entry is gone, the path from the goal is
      recorded and painted. */
  function Finished(cfg: Config, s: Search): (r: Search)
    requires StepPre(cfg, s)
    ensures WellSized(cfg, r)
  {
    var path := Chain(s.bestPath, s.closed, cfg.goal);
    ChainFacts(s.bestPath, s.closed, cfg.goal);
    s.(open := Remaining(cfg, s), fullPath := path,
       grid := PaintPath(s.grid, cfg.rows, cfg.cols, DropLast(path)))
  }

  /** The neighbour loop of a non-goal step, run on the state after closing. */
  function Expanded(cfg: Config, s: Search): (r: Search)
    requires StepPre(cfg, s)
    ensures WellSized(cfg, r)
  {
    var s1 := Closing(cfg, s);
    ExpandAll(cfg, Popped(cfg, s), s1, Neighbours(s1.grid, cfg.rows, cfg.cols, Popped(cfg, s)))
  }

  /** The re-sort of the three priority strategies. */
  function Resorted(cfg: Config, s: Search): Search {
    if Resorts(cfg.strategy) then s.(open := SortByCost(s.open)) else s
  }

  /** One call of a step method: the new state and the returned flag (true
      when the goal was popped). */
  function Step(cfg: Config, s: Search): (Search, bool)
    requires StepPre(cfg, s)
  {
    if Popped(cfg, s) == cfg.goal then (Finished(cfg, s), true)
    else (Resorted(cfg, Expanded(cfg, s)), false)
  }

  // ---------------------------------------------------------------------
  // Back-pointer chains

  lemma {:induction false} ChainFacts(bp: map<Pos, Pos>, closed: seq<Pos>, p: Pos)
    requires Ranked(bp, closed)
    ensures forall x | x in Chain(bp, closed, p) :: x in closed
    ensures (Chain(bp, closed, p) != []) == (p in bp)
    ensures p in bp ==> Chain(bp, closed, p)[0] == bp[p]
    ensures forall i | 0 <= i < |Chain(bp, closed, p)| - 1 ::
      Chain(bp, closed, p)[i] in bp && Chain(bp, closed, p)[i + 1] == bp[Chain(bp, closed, p)[i]]
    ensures Chain(bp, closed, p) != [] ==> Chain(bp, closed, p)[|Chain(bp, closed, p)| - 1] !in bp
    ensures forall x | x in Chain(bp, closed, p) :: Rank(closed, x) < Rank(closed, p)
    decreases Rank(closed, p)
  {
    if p in bp {
      var q := bp[p];
      ChainFacts(bp, closed, q);
      var c := Chain(bp, closed, q);
      assert Chain(bp, closed, p) == [q] + c;
      forall i | 0 <= i < |[q] + c| - 1
        ensures ([q] + c)[i] in bp && ([q] + c)[i + 1] == bp[([q] + c)[i]]
      {
        if i > 0 {
          assert ([q] + c)[i] == c[i - 1] && ([q] + c)[i + 1] == c[i];
        }
      }
    }
  }

  /** generate_path visits no position twice and takes at most as many steps
      as there are closed nodes. */
  lemma {:induction false} ChainDistinct(bp: map<Pos, Pos>, closed: seq<Pos>, p: Pos)
    requires Ranked(bp, closed)
    ensures forall i, j | 0 <= i < j < |Chain(bp, closed, p)| :: Chain(bp, closed, p)[i] != Chain(bp, closed, p)[j]
    ensures |Chain(bp, closed, p)| <= Rank(closed, p)
    decreases Rank(closed, p)
  {
    if p in bp {
      var q := bp[p];
      ChainDistinct(bp, closed, q);
      ChainFacts(bp, closed, q);
      var c := Chain(bp, closed, q);
      assert Chain(bp, closed, p) == [q] + c;
      assert q !in c;
      forall i, j | 0 <= i < j < |[q] + c| ensures ([q] + c)[i] != ([q] + c)[j] {
        if i > 0 {
          assert ([q] + c)[i] == c[i - 1] && ([q] + c)[j] == c[j - 1];
        } else {
          assert ([q] + c)[j] in c;
        }
      }
    }
  }

  lemma {:induction false} PaintPathEffect(g: Grid, rows: int, cols: int, cells: seq<Pos>)
    requires IsGrid(g, rows, cols) && forall c | c in cells :: InBounds(rows, cols, c)
    ensures forall i, j | 0 <= i < rows && 0 <= j < cols ::
      PaintPath(g, rows, cols, cells)[i][j] == if (i, j) in cells then PATH else g[i][j]
  {
    if cells != [] {
      var init := cells[..|cells| - 1];
      assert forall c | c in init :: c in cells;
      PaintPathEffect(g, rows, cols, init);
      assert cells == init + [cells[|cells| - 1]];
    }
  }

  // ---------------------------------------------------------------------
  // The invariant

  predicate Distinct(s: seq<Pos>) {
    forall i, j | 0 <= i < j < |s| :: s[i] != s[j]
  }

  /** The grid keeps its shape, its one start and its one goal. */
  ghost predicate GridInv(cfg: Config, start: Pos, s: Search) {
    && WellSized(cfg, s)
    && InBounds(cfg.rows, cfg.cols, start) && InBounds(cfg.rows, cfg.cols, cfg.goal)
    && At(s.grid, start) == START && At(s.grid, cfg.goal) == GOAL
    && (forall i, j | 0 <= i < cfg.rows && 0 <= j < cfg.cols && s.grid[i][j] == START :: (i, j) == start)
    && (forall i, j | 0 <= i < cfg.rows && 0 <= j < cfg.cols && s.grid[i][j] == GOAL :: (i, j) == cfg.goal)
  }

  /** Open entries: in bounds, pushed with their position's cost, never
      closed, never blocked, with a back-pointer unless they are the start,
      and each present once. */
  ghost predicate OpenInv(cfg: Config, start: Pos, s: Search)
    requires WellSized(cfg, s)
  {
    && (forall e | e in s.open ::
          && InBounds(cfg.rows, cfg.cols, e.0) && e.1 == EntryCost(cfg, e.0)
          && e.0 !in s.closed && At(s.grid, e.0) != BLOCKED
          && (e.0 != start ==> e.0 in s.bestPath))
    && (forall e | e in s.open :: multiset(s.open)[e] == 1)
  }

  /** Closed nodes: distinct, in bounds, not blocked, and with a back-pointer
      unless they are the start. */
  ghost predicate ClosedInv(cfg: Config, start: Pos, s: Search)
    requires WellSized(cfg, s)
  {
    && Distinct(s.closed)
    && (forall p | p in s.closed ::
          InBounds(cfg.rows, cfg.cols, p) && At(s.grid, p) != BLOCKED && (p != start ==> p in s.bestPath))
  }

  /** Back-pointers: ranked by closing order (so acyclic), between orthogonal
      neighbours, never from the start, only from positions opened so far. */
  ghost predicate PointerInv(cfg: Config, start: Pos, s: Search)
    requires WellSized(cfg, s) && InBounds(cfg.rows, cfg.cols, start)
  {
    && Ranked(s.bestPath, s.closed)
    && (forall k | k in s.bestPath :: Adjacent(k, s.bestPath[k]))
    && (forall k | k in s.bestPath :: k == cfg.goal || k in s.closed ||
          (InBounds(cfg.rows, cfg.cols, k) && (k, EntryCost(cfg, k)) in s.open))
    && start !in s.bestPath
    && (start in s.closed || (start, EntryCost(cfg, start)) in s.open)
    && cfg.goal !in s.closed
  }

  ghost predicate Inv(cfg: Config, start: Pos, s: Search) {
    GridInv(cfg, start, s) && OpenInv(cfg, start, s) && ClosedInv(cfg, start, s) && PointerInv(cfg, start, s)
  }

  /** The grid part of the invariant only depends on the layout. */
  lemma LayoutGridInv(cfg: Config, start: Pos, s: Search, t: Search)
    requires GridInv(cfg, start, s) && SameLayout(s.grid, t.grid, cfg.rows, cfg.cols)
    ensures GridInv(cfg, start, t)
  {
    forall i, j | 0 <= i < cfg.rows && 0 <= j < cfg.cols && t.grid[i][j] == START ensures (i, j) == start {
      assert s.grid[i][j] == START;
    }
    forall i, j | 0 <= i < cfg.rows && 0 <= j < cfg.cols && t.grid[i][j] == GOAL ensures (i, j) == cfg.goal {
      assert s.grid[i][j] == GOAL;
    }
  }

  lemma InvStepPre(cfg: Config, start: Pos, s: Search)
    requires Inv(cfg, start, s) && |s.open| > 0
    ensures StepPre(cfg, s)
  {
  }

  /** The state a run starts from satisfies the invariant, whatever path an
      earlier run left behind. */
  lemma InitialInv(cfg: Config, start: Pos, g: Grid, fullPath: seq<Pos>)
    requires IsGrid(g, cfg.rows, cfg.cols) && IsGrid(cfg.costGrid, cfg.rows, cfg.cols)
    requires InBounds(cfg.rows, cfg.cols, start) && InBounds(cfg.rows, cfg.cols, cfg.goal)
    requires At(g, start) == START && At(g, cfg.goal) == GOAL
    requires forall i, j | 0 <= i < cfg.rows && 0 <= j < cfg.cols && g[i][j] == START :: (i, j) == start
    requires forall i, j | 0 <= i < cfg.rows && 0 <= j < cfg.cols && g[i][j] == GOAL :: (i, j) == cfg.goal
    ensures Inv(cfg, start, Search(g, [(start, EntryCost(cfg, start))], [], map[], fullPath))
  {
    var s := Search(g, [(start, EntryCost(cfg, start))], [], map[], fullPath);
    assert multiset(s.open)[(start, EntryCost(cfg, start))] == 1;
  }

  // ---------------------------------------------------------------------
  // Preservation, piece by piece

  /** Popping removes exactly the popped entry, and no other entry is at the
      popped position. */
  lemma PopFacts(cfg: Config, start: Pos, s: Search)
    requires Inv(cfg, start, s) && |s.open| > 0
    ensures multiset(Remaining(cfg, s)) == multiset(s.open) - multiset{s.open[PoppedIndex(cfg, s)]}
    ensures forall e | e in Remaining(cfg, s) :: e in s.open && e.0 != Popped(cfg, s)
    ensures forall e | e in s.open && e.0 != Popped(cfg, s) :: e in Remaining(cfg, s)
  {
    var i := PoppedIndex(cfg, s);
    var x := s.open[i];
    var rest := Remaining(cfg, s);
    assert s.open == s.open[..i] + [x] + s.open[i + 1..];
    assert multiset(s.open) == multiset(rest) + multiset{x};
    assert x !in rest by {
      assert multiset(s.open)[x] == 1;
    }
    forall e | e in rest ensures e in s.open && e.0 != x.0 {
      assert e in multiset(rest);
      assert e in multiset(s.open);
    }
    forall e | e in s.open && e.0 != x.0 ensures e in rest {
      assert e in multiset(s.open);
    }
  }

  /** Closing the popped non-goal node keeps the invariant. */
  lemma ClosingInv(cfg: Config, start: Pos, s: Search)
    requires Inv(cfg, start, s) && |s.open| > 0 && Popped(cfg, s) != cfg.goal
    ensures Inv(cfg, start, Closing(cfg, s))
    ensures SameLayout(s.grid, Closing(cfg, s).grid, cfg.rows, cfg.cols)
  {
    var cur := Popped(cfg, s);
    var s1 := Closing(cfg, s);
    PopFacts(cfg, start, s);
    assert s.open[PoppedIndex(cfg, s)] in s.open;
    SetCellLayout(s.grid, cfg.rows, cfg.cols, cur, EXPLORED);
    LayoutGridInv(cfg, start, s, s1);
    ClosingOpenInv(cfg, start, s);
    ClosingClosedInv(cfg, start, s);
    ClosingPointerInv(cfg, start, s);
  }

  lemma ClosingOpenInv(cfg: Config, start: Pos, s: Search)
    requires Inv(cfg, start, s) && |s.open| > 0 && Popped(cfg, s) != cfg.goal
    requires SameLayout(s.grid, Closing(cfg, s).grid, cfg.rows, cfg.cols)
    ensures OpenInv(cfg, start, Closing(cfg, s))
  {
    var s1 := Closing(cfg, s);
    var x := s.open[PoppedIndex(cfg, s)];
    PopFacts(cfg, start, s);
    forall e | e in s1.open
      ensures && InBounds(cfg.rows, cfg.cols, e.0) && e.1 == EntryCost(cfg, e.0)
              && e.0 !in s1.closed && At(s1.grid, e.0) != BLOCKED
              && (e.0 != start ==> e.0 in s1.bestPath)
      ensures multiset(s1.open)[e] == 1
    {
      assert e in s.open && e != x;
      assert multiset(s1.open)[e] == multiset(s.open)[e];
    }
  }

  /** Appending a fresh element keeps a sequence free of repeats. */
  lemma DistinctAppend(s: seq<Pos>, x: Pos)
    requires Distinct(s) && x !in s
    ensures Distinct(s + [x])
  {
    var t := s + [x];
    forall i, j | 0 <= i < j < |t| ensures t[i] != t[j] {
      if j == |s| {
        assert t[i] in s;
      } else {
        assert t[i] == s[i] && t[j] == s[j];
      }
    }
  }

  lemma ClosingClosedInv(cfg: Config, start: Pos, s: Search)
    requires Inv(cfg, start, s) && |s.open| > 0 && Popped(cfg, s) != cfg.goal
    requires SameLayout(s.grid, Closing(cfg, s).grid, cfg.rows, cfg.cols)
    ensures ClosedInv(cfg, start, Closing(cfg, s))
  {
    var cur := Popped(cfg, s);
    var s1 := Closing(cfg, s);
    assert s.open[PoppedIndex(cfg, s)] in s.open;
    assert cur !in s.closed;
    DistinctAppend(s.closed, cur);
    assert s1.closed == s.closed + [cur];
    forall p | p in s1.closed
      ensures InBounds(cfg.rows, cfg.cols, p) && At(s1.grid, p) != BLOCKED && (p != start ==> p in s1.bestPath)
    {
      assert p in s.closed || p == cur;
    }
  }

  lemma ClosingRanked(cfg: Config, start: Pos, s: Search)
    requires Inv(cfg, start, s) && |s.open| > 0 && Popped(cfg, s) != cfg.goal
    ensures Ranked(s.bestPath, Closing(cfg, s).closed)
  {
    var cur := Popped(cfg, s);
    var closed := s.closed + [cur];
    assert Closing(cfg, s).closed == closed;
    forall p | p in closed ensures p in s.closed ==> IndexOf(closed, p) == IndexOf(s.closed, p)
      ensures p !in s.closed ==> IndexOf(closed, p) == |s.closed|
    {
      IndexOfAppend(s.closed, cur, p);
    }
  }

  lemma ClosingPointerInv(cfg: Config, start: Pos, s: Search)
    requires Inv(cfg, start, s) && |s.open| > 0 && Popped(cfg, s) != cfg.goal
    requires SameLayout(s.grid, Closing(cfg, s).grid, cfg.rows, cfg.cols)
    ensures PointerInv(cfg, start, Closing(cfg, s))
  {
    var s1 := Closing(cfg, s);
    PopFacts(cfg, start, s);
    ClosingRanked(cfg, start, s);
    assert s.open[PoppedIndex(cfg, s)] in s.open;
  }

  lemma VisitOpenInv(cfg: Config, start: Pos, current: Pos, s: Search, n: Pos)
    requires Inv(cfg, start, s) && InBounds(cfg.rows, cfg.cols, n) && At(s.grid, n) != BLOCKED
    requires (n, EntryCost(cfg, n)) !in s.open && n !in s.closed
    requires SameLayout(s.grid, Visit(cfg, current, s, n).grid, cfg.rows, cfg.cols)
    ensures OpenInv(cfg, start, Visit(cfg, current, s, n))
  {
    var c := EntryCost(cfg, n);
    var r := Visit(cfg, current, s, n);
    assert r.open == s.open + [(n, c)];
    assert multiset(r.open) == multiset(s.open) + multiset{(n, c)};
    forall e | e in r.open
      ensures && InBounds(cfg.rows, cfg.cols, e.0) && e.1 == EntryCost(cfg, e.0)
              && e.0 !in r.closed && At(r.grid, e.0) != BLOCKED
              && (e.0 != start ==> e.0 in r.bestPath)
      ensures multiset(r.open)[e] == 1
    {
      if e != (n, c) {
        assert e in s.open;
      }
    }
  }

  lemma VisitPointerInv(cfg: Config, start: Pos, current: Pos, s: Search, n: Pos)
    requires Inv(cfg, start, s) && current in s.closed && Adjacent(n, current)
    requires InBounds(cfg.rows, cfg.cols, n) && At(s.grid, n) != BLOCKED
    requires (n, EntryCost(cfg, n)) !in s.open && n !in s.closed
    ensures PointerInv(cfg, start, Visit(cfg, current, s, n))
  {
    var r := Visit(cfg, current, s, n);
    assert n != start;
    assert r.bestPath == s.bestPath[n := current] && r.closed == s.closed;
    assert Ranked(r.bestPath, r.closed);
  }

  /** One neighbour-loop iteration keeps the invariant and the layout. */
  lemma VisitInv(cfg: Config, start: Pos, current: Pos, s: Search, n: Pos)
    requires Inv(cfg, start, s) && current in s.closed && Adjacent(n, current)
    requires InBounds(cfg.rows, cfg.cols, n) && At(s.grid, n) != BLOCKED
    ensures Inv(cfg, start, Visit(cfg, current, s, n))
    ensures SameLayout(s.grid, Visit(cfg, current, s, n).grid, cfg.rows, cfg.cols)
    ensures Visit(cfg, current, s, n).closed == s.closed
  {
    var c := EntryCost(cfg, n);
    var r := Visit(cfg, current, s, n);
    if (n, c) !in s.open && n !in s.closed {
      SetCellLayout(s.grid, cfg.rows, cfg.cols, n, VISITED);
      LayoutGridInv(cfg, start, s, r);
      VisitOpenInv(cfg, start, current, s, n);
      VisitPointerInv(cfg, start, current, s, n);
    } else {
      assert SameLayout(s.grid, r.grid, cfg.rows, cfg.cols);
    }
  }

  /** The whole neighbour loop keeps the invariant and the layout. */
  lemma {:induction false} ExpandAllInv(cfg: Config, start: Pos, current: Pos, s: Search, ns: seq<Pos>)
    requires Inv(cfg, start, s) && current in s.closed
    requires forall q | q in ns :: Adjacent(q, current) && InBounds(cfg.rows, cfg.cols, q) && At(s.grid, q) != BLOCKED
    ensures Inv(cfg, start, ExpandAll(cfg, current, s, ns))
    ensures SameLayout(s.grid, ExpandAll(cfg, current, s, ns).grid, cfg.rows, cfg.cols)
    ensures ExpandAll(cfg, current, s, ns).closed == s.closed
  {
    if ns == [] {
      assert SameLayout(s.grid, s.grid, cfg.rows, cfg.cols);
    } else {
      var init := ns[..|ns| - 1];
      var last := ns[|ns| - 1];
      assert forall q | q in init :: q in ns;
      ExpandAllInv(cfg, start, current, s, init);
      var mid := ExpandAll(cfg, current, s, init);
      VisitInv(cfg, start, current, mid, last);
      SameLayoutTrans(s.grid, mid.grid, Visit(cfg, current, mid, last).grid, cfg.rows, cfg.cols);
    }
  }

  /** Re-sorting the open list keeps the invariant. */
  lemma SortInv(cfg: Config, start: Pos, s: Search)
    requires Inv(cfg, start, s)
    ensures Inv(cfg, start, s.(open := SortByCost(s.open)))
  {
    var r := s.(open := SortByCost(s.open));
    SortKeepsEntries(s.open);
    SortByCostSpec(s.open);
    assert GridInv(cfg, start, r) && ClosedInv(cfg, start, r);
    assert OpenInv(cfg, start, r) by {
      assert forall e | e in r.open :: multiset(r.open)[e] == multiset(s.open)[e];
    }
    assert PointerInv(cfg, start, r);
  }

  /** The cells the goal step paints: closed nodes with a back-pointer. */
  lemma PaintedCells(cfg: Config, start: Pos, s: Search)
    requires Inv(cfg, start, s)
    ensures forall c | c in DropLast(Chain(s.bestPath, s.closed, cfg.goal)) :: c in s.bestPath && c in s.closed
  {
    var path := Chain(s.bestPath, s.closed, cfg.goal);
    ChainFacts(s.bestPath, s.closed, cfg.goal);
    var cells := DropLast(path);
    forall c | c in cells ensures c in s.bestPath && c in s.closed {
      var k :| 0 <= k < |cells| && cells[k] == c;
      assert c == path[k];
    }
  }

  /** The goal step keeps the invariant: the painted cells are not
      structural, so the layout does not change. */
  lemma GoalStepInv(cfg: Config, start: Pos, s: Search)
    requires Inv(cfg, start, s) && |s.open| > 0 && Popped(cfg, s) == cfg.goal
    ensures Inv(cfg, start, Step(cfg, s).0)
    ensures SameLayout(s.grid, Step(cfg, s).0.grid, cfg.rows, cfg.cols)
  {
    GoalStepLayout(cfg, start, s);
    var r := Step(cfg, s).0;
    LayoutGridInv(cfg, start, s, r);
    GoalOpenInv(cfg, start, s);
    assert ClosedInv(cfg, start, r);
    GoalPointerInv(cfg, start, s);
  }

  lemma GoalOpenInv(cfg: Config, start: Pos, s: Search)
    requires Inv(cfg, start, s) && |s.open| > 0 && Popped(cfg, s) == cfg.goal
    requires SameLayout(s.grid, Step(cfg, s).0.grid, cfg.rows, cfg.cols)
    ensures OpenInv(cfg, start, Step(cfg, s).0)
  {
    var r := Step(cfg, s).0;
    PopFacts(cfg, start, s);
    forall e | e in r.open ensures multiset(r.open)[e] == 1 {
      assert e in s.open;
    }
  }

  lemma GoalPointerInv(cfg: Config, start: Pos, s: Search)
    requires Inv(cfg, start, s) && |s.open| > 0 && Popped(cfg, s) == cfg.goal
    ensures PointerInv(cfg, start, Step(cfg, s).0)
  {
    PopFacts(cfg, start, s);
  }

  lemma GoalStepLayout(cfg: Config, start: Pos, s: Search)
    requires Inv(cfg, start, s) && |s.open| > 0 && Popped(cfg, s) == cfg.goal
    ensures SameLayout(s.grid, Step(cfg, s).0.grid, cfg.rows, cfg.cols)
  {
    var path := Chain(s.bestPath, s.closed, cfg.goal);
    ChainFacts(s.bestPath, s.closed, cfg.goal);
    var cells := DropLast(path);
    PaintedCells(cfg, start, s);
    forall c | c in cells ensures InBounds(cfg.rows, cfg.cols, c) && !Structural(At(s.grid, c)) {
      ClosedPlain(cfg, start, s, c);
    }
    PaintLayout(s.grid, cfg.rows, cfg.cols, cells);
    assert Step(cfg, s).0 == Finished(cfg, s);
    assert Finished(cfg, s).grid == PaintPath(s.grid, cfg.rows, cfg.cols, cells);
  }

  /** A closed node with a back-pointer is a plain cell inside the grid. */
  lemma ClosedPlain(cfg: Config, start: Pos, s: Search, c: Pos)
    requires Inv(cfg, start, s) && c in s.closed && c in s.bestPath
    ensures InBounds(cfg.rows, cfg.cols, c) && !Structural(At(s.grid, c))
  {
    assert c != start && c != cfg.goal;
  }

  /** Painting non-structural cells keeps the layout. */
  lemma PaintLayout(g: Grid, rows: int, cols: int, cells: seq<Pos>)
    requires IsGrid(g, rows, cols)
    requires forall c | c in cells :: InBounds(rows, cols, c) && !Structural(At(g, c))
    ensures SameLayout(g, PaintPath(g, rows, cols, cells), rows, cols)
  {
    PaintPathEffect(g, rows, cols, cells);
  }

  /** The neighbour loop of a non-goal step keeps the invariant and the
      layout. */
  lemma ExpandedInv(cfg: Config, start: Pos, s: Search)
    requires Inv(cfg, start, s) && |s.open| > 0 && Popped(cfg, s) != cfg.goal
    ensures Inv(cfg, start, Expanded(cfg, s))
    ensures SameLayout(s.grid, Expanded(cfg, s).grid, cfg.rows, cfg.cols)
  {
    var cur := Popped(cfg, s);
    ClosingInv(cfg, start, s);
    var s1 := Closing(cfg, s);
    var ns := Neighbours(s1.grid, cfg.rows, cfg.cols, cur);
    NeighboursOpen(s1.grid, cfg.rows, cfg.cols, cur);
    assert cur in s1.closed;
    ExpandAllInv(cfg, start, cur, s1, ns);
    SameLayoutTrans(s.grid, s1.grid, ExpandAll(cfg, cur, s1, ns).grid, cfg.rows, cfg.cols);
  }

  /** Every step keeps the invariant and leaves the start, goal and blocked
      cells exactly as they were. */
  lemma StepInv(cfg: Config, start: Pos, s: Search)
    requires Inv(cfg, start, s) && |s.open| > 0
    ensures Inv(cfg, start, Step(cfg, s).0)
    ensures SameLayout(s.grid, Step(cfg, s).0.grid, cfg.rows, cfg.cols)
  {
    if Popped(cfg, s) == cfg.goal {
      GoalStepInv(cfg, start, s);
    } else {
      ExpandedInv(cfg, start, s);
      if Resorts(cfg.strategy) {
        SortInv(cfg, start, Expanded(cfg, s));
      }
    }
  }
}
