/** What one step of the shared search does beyond keeping the invariant:
    the non-goal step closes exactly the popped node and only adds
    back-pointers to it, the goal step returns a walk from the goal back to
    the start, and the number of non-goal steps is bounded by the grid size. */
module SearchFacts {
  import opened Cells
  import opened StableSort
  import opened Engine

  // ---------------------------------------------------------------------
  // The neighbour loop

  /** Every back-pointer's source other than the goal is closed or open. */
  ghost predicate KeysTracked(cfg: Config, s: Search)
    requires WellSized(cfg, s)
  {
    forall k | k in s.bestPath :: k == cfg.goal || k in s.closed ||
      (InBounds(cfg.rows, cfg.cols, k) && (k, EntryCost(cfg, k)) in s.open)
  }

  /** The neighbour loop only appends to the open list, only adds
      back-pointers to the node being expanded, and never moves an existing
      back-pointer other than the goal's. */
  lemma {:induction false} ExpandAllFacts(cfg: Config, current: Pos, s: Search, ns: seq<Pos>)
    requires WellSized(cfg, s) && KeysTracked(cfg, s)
    requires forall q | q in ns :: InBounds(cfg.rows, cfg.cols, q)
    ensures KeysTracked(cfg, ExpandAll(cfg, current, s, ns))
    ensures ExpandAll(cfg, current, s, ns).closed == s.closed
    ensures ExpandAll(cfg, current, s, ns).fullPath == s.fullPath
    ensures |s.open| <= |ExpandAll(cfg, current, s, ns).open|
    ensures ExpandAll(cfg, current, s, ns).open[..|s.open|] == s.open
    ensures forall k | k in s.bestPath && k != cfg.goal ::
      k in ExpandAll(cfg, current, s, ns).bestPath && ExpandAll(cfg, current, s, ns).bestPath[k] == s.bestPath[k]
    ensures forall k | k in ExpandAll(cfg, current, s, ns).bestPath ::
      k in s.bestPath || (k in ns && ExpandAll(cfg, current, s, ns).bestPath[k] == current)
    ensures forall e | e in ExpandAll(cfg, current, s, ns).open[|s.open|..] ::
      e.0 in ns && e.0 !in s.closed && e.0 in ExpandAll(cfg, current, s, ns).bestPath &&
      ExpandAll(cfg, current, s, ns).bestPath[e.0] == current
  {
    if ns != [] {
      var init := ns[..|ns| - 1];
      var last := ns[|ns| - 1];
      assert forall q | q in init :: q in ns;
      ExpandAllFacts(cfg, current, s, init);
      var mid := ExpandAll(cfg, current, s, init);
      var r := Visit(cfg, current, mid, last);
      assert r == ExpandAll(cfg, current, s, ns);
      var c := EntryCost(cfg, last);
      if (last, c) !in mid.open && last !in mid.closed {
        assert r.open == mid.open + [(last, c)];
        assert r.open[..|s.open|] == mid.open[..|s.open|];
        assert r.open[|s.open|..] == mid.open[|s.open|..] + [(last, c)];
        forall k | k in s.bestPath && k != cfg.goal ensures k != last {
          assert k in mid.bestPath;
        }
      }
    }
  }

  // ---------------------------------------------------------------------
  // Non-goal steps

  /** Closing the popped node keeps every back-pointer source tracked. */
  lemma ClosingKeys(cfg: Config, start: Pos, s: Search)
    requires Inv(cfg, start, s) && |s.open| > 0
    ensures KeysTracked(cfg, Closing(cfg, s))
  {
    PopFacts(cfg, start, s);
    var s1 := Closing(cfg, s);
    forall k | k in s1.bestPath && k != cfg.goal && k !in s1.closed
      ensures InBounds(cfg.rows, cfg.cols, k) && (k, EntryCost(cfg, k)) in s1.open
    {
      assert (k, EntryCost(cfg, k)) in s.open;
    }
  }

  lemma ExpandedFacts(cfg: Config, s: Search)
    requires StepPre(cfg, s) && Popped(cfg, s) != cfg.goal && KeysTracked(cfg, Closing(cfg, s))
    ensures Expanded(cfg, s).closed == s.closed + [Popped(cfg, s)]
    ensures Expanded(cfg, s).fullPath == s.fullPath
    ensures |Remaining(cfg, s)| <= |Expanded(cfg, s).open|
    ensures Expanded(cfg, s).open[..|Remaining(cfg, s)|] == Remaining(cfg, s)
    ensures forall k | k in s.bestPath && k != cfg.goal ::
      k in Expanded(cfg, s).bestPath && Expanded(cfg, s).bestPath[k] == s.bestPath[k]
    ensures forall k | k in Expanded(cfg, s).bestPath && k !in s.bestPath ::
      Expanded(cfg, s).bestPath[k] == Popped(cfg, s) && Adjacent(k, Popped(cfg, s))
    ensures forall e | e in Expanded(cfg, s).open[|Remaining(cfg, s)|..] ::
      e.0 !in s.closed && e.0 != Popped(cfg, s) && Adjacent(e.0, Popped(cfg, s))
  {
    var cur := Popped(cfg, s);
    var s1 := Closing(cfg, s);
    var ns := Neighbours(s1.grid, cfg.rows, cfg.cols, cur);
    NeighboursSpec(s1.grid, cfg.rows, cfg.cols, cur);
    ExpandAllFacts(cfg, cur, s1, ns);
  }

  /** A non-goal step returns false, closes exactly the popped node (which was
      not closed before), keeps every back-pointer it had except the goal's,
      points every new one at the popped node, and keeps the last path. */
  lemma StepFacts(cfg: Config, start: Pos, s: Search)
    requires Inv(cfg, start, s) && |s.open| > 0 && Popped(cfg, s) != cfg.goal
    ensures !Step(cfg, s).1
    ensures Popped(cfg, s) !in s.closed
    ensures Step(cfg, s).0.closed == s.closed + [Popped(cfg, s)]
    ensures forall k | k in s.bestPath && k != cfg.goal ::
      k in Step(cfg, s).0.bestPath && Step(cfg, s).0.bestPath[k] == s.bestPath[k]
    ensures forall k | k in Step(cfg, s).0.bestPath && k !in s.bestPath ::
      Step(cfg, s).0.bestPath[k] == Popped(cfg, s) && Adjacent(k, Popped(cfg, s))
    ensures Step(cfg, s).0.fullPath == s.fullPath
  {
    assert s.open[PoppedIndex(cfg, s)] in s.open;
    ClosingKeys(cfg, start, s);
    ExpandedFacts(cfg, s);
  }

  /** A non-goal step keeps the entries that were not popped and adds only
      neighbours of the popped node that were in neither list, so a closed
      node never returns to the open list. */
  lemma StepNeverReopens(cfg: Config, start: Pos, s: Search)
    requires Inv(cfg, start, s) && |s.open| > 0 && Popped(cfg, s) != cfg.goal
    ensures forall e | e in s.open && e.0 != Popped(cfg, s) :: e in Step(cfg, s).0.open
    ensures forall e | e in Step(cfg, s).0.open ::
      e in s.open || (e.0 !in s.closed && e.0 != Popped(cfg, s) && Adjacent(e.0, Popped(cfg, s)))
  {
    ClosingKeys(cfg, start, s);
    ExpandedNeverReopens(cfg, s);
    SortKeepsEntries(Expanded(cfg, s).open);
  }

  /** StepNeverReopens before the open list is re-sorted. */
  lemma ExpandedNeverReopens(cfg: Config, s: Search)
    requires StepPre(cfg, s) && Popped(cfg, s) != cfg.goal && KeysTracked(cfg, Closing(cfg, s))
    ensures forall e | e in s.open && e.0 != Popped(cfg, s) :: e in Expanded(cfg, s).open
    ensures forall e | e in Expanded(cfg, s).open ::
      e in s.open || (e.0 !in s.closed && e.0 != Popped(cfg, s) && Adjacent(e.0, Popped(cfg, s)))
  {
    ExpandedKeepsOthers(cfg, s);
    ExpandedAddsFresh(cfg, s);
  }

  /** The entries that were not popped stay on the open list. */
  lemma ExpandedKeepsOthers(cfg: Config, s: Search)
    requires StepPre(cfg, s) && Popped(cfg, s) != cfg.goal && KeysTracked(cfg, Closing(cfg, s))
    ensures forall e | e in s.open && e.0 != Popped(cfg, s) :: e in Expanded(cfg, s).open
  {
    ExpandedFacts(cfg, s);
    var o := Expanded(cfg, s).open;
    var i := PoppedIndex(cfg, s);
    var rest := Remaining(cfg, s);
    assert o == rest + o[|rest|..];
    forall e | e in s.open && e.0 != Popped(cfg, s) ensures e in o {
      var j :| 0 <= j < |s.open| && s.open[j] == e;
      if j < i {
        assert rest[j] == e;
      } else {
        assert j != i && rest[j - 1] == e;
      }
    }
  }

  /** Every entry on the new open list was there before or is a fresh
      neighbour of the popped node. */
  lemma ExpandedAddsFresh(cfg: Config, s: Search)
    requires StepPre(cfg, s) && Popped(cfg, s) != cfg.goal && KeysTracked(cfg, Closing(cfg, s))
    ensures forall e | e in Expanded(cfg, s).open ::
      e in s.open || (e.0 !in s.closed && e.0 != Popped(cfg, s) && Adjacent(e.0, Popped(cfg, s)))
  {
    ExpandedFacts(cfg, s);
    var o := Expanded(cfg, s).open;
    var i := PoppedIndex(cfg, s);
    var rest := Remaining(cfg, s);
    assert o == rest + o[|rest|..];
    forall e | e in o ensures e in s.open || (e.0 !in s.closed && e.0 != Popped(cfg, s) && Adjacent(e.0, Popped(cfg, s))) {
      if e in rest {
        var j :| 0 <= j < |rest| && rest[j] == e;
        assert e == if j < i then s.open[j] else s.open[j + 1];
      } else {
        assert e in o[|rest|..];
      }
    }
  }

  // ---------------------------------------------------------------------
  // Goal steps

  /** generate_path from a position with a back-pointer: the chain starts
      next to it, moves between orthogonal neighbours, never repeats a
      position, stays among the closed nodes and ends at the start, the one
      closed node without a back-pointer. */
  lemma ChainWalk(bp: map<Pos, Pos>, closed: seq<Pos>, start: Pos, p: Pos)
    requires Ranked(bp, closed) && p in bp && start !in bp
    requires forall k | k in bp :: Adjacent(k, bp[k])
    requires forall c | c in closed && c != start :: c in bp
    ensures |Chain(bp, closed, p)| > 0 && Adjacent(p, Chain(bp, closed, p)[0])
    ensures forall i | 0 <= i < |Chain(bp, closed, p)| - 1 :: Adjacent(Chain(bp, closed, p)[i], Chain(bp, closed, p)[i + 1])
    ensures Chain(bp, closed, p)[|Chain(bp, closed, p)| - 1] == start
    ensures Distinct(Chain(bp, closed, p)) && |Chain(bp, closed, p)| <= |closed|
    ensures forall c | c in Chain(bp, closed, p) :: c in closed && c != p
    ensures start !in DropLast(Chain(bp, closed, p))
  {
    var path := Chain(bp, closed, p);
    ChainFacts(bp, closed, p);
    ChainDistinct(bp, closed, p);
    forall i | 0 <= i < |path| - 1 ensures Adjacent(path[i], path[i + 1]) {
      assert path[i] in bp;
    }
    var last := path[|path| - 1];
    assert last in path;
    forall c | c in DropLast(path) ensures c != start {
      var k :| 0 <= k < |DropLast(path)| && DropLast(path)[k] == c;
      assert path[k] == c && k < |path| - 1;
      assert path[k] != path[|path| - 1];
    }
  }

  /** A goal step returns true, changes neither the closed list nor the
      back-pointers, removes the popped entry and records a path that starts
      next to the goal, moves between orthogonal neighbours, ends at the start,
      never repeats a position and is no longer than the closed list. Exactly
      the cells of the path without its last element, which lie strictly
      between start and goal, become 'P'. */
  lemma GoalStepPath(cfg: Config, start: Pos, s: Search)
    requires Inv(cfg, start, s) && |s.open| > 0 && Popped(cfg, s) == cfg.goal
    ensures Step(cfg, s).1
    ensures Step(cfg, s).0.closed == s.closed && Step(cfg, s).0.bestPath == s.bestPath
    ensures Step(cfg, s).0.open == Remaining(cfg, s)
    ensures |Step(cfg, s).0.fullPath| > 0
    ensures Adjacent(cfg.goal, Step(cfg, s).0.fullPath[0])
    ensures forall i | 0 <= i < |Step(cfg, s).0.fullPath| - 1 ::
      Adjacent(Step(cfg, s).0.fullPath[i], Step(cfg, s).0.fullPath[i + 1])
    ensures Step(cfg, s).0.fullPath[|Step(cfg, s).0.fullPath| - 1] == start
    ensures Distinct(Step(cfg, s).0.fullPath) && |Step(cfg, s).0.fullPath| <= |s.closed|
    ensures forall c | c in Step(cfg, s).0.fullPath :: c in s.closed && c != cfg.goal
    ensures start !in DropLast(Step(cfg, s).0.fullPath)
    ensures forall i, j | 0 <= i < cfg.rows && 0 <= j < cfg.cols ::
      Step(cfg, s).0.grid[i][j] == if (i, j) in DropLast(Step(cfg, s).0.fullPath) then PATH else s.grid[i][j]
  {
    var bp := s.bestPath;
    var path := Chain(bp, s.closed, cfg.goal);
    assert s.open[PoppedIndex(cfg, s)] in s.open;
    assert cfg.goal != start;
    ChainWalk(bp, s.closed, start, cfg.goal);
    PaintedCells(cfg, start, s);
    PaintPathEffect(s.grid, cfg.rows, cfg.cols, DropLast(path));
  }

  // ---------------------------------------------------------------------
  // A bound on the number of steps

  lemma {:induction false} DistinctCard(s: seq<Pos>)
    requires Distinct(s)
    ensures |set p | p in s| == |s|
  {
    if s != [] {
      DistinctCard(s[1..]);
      assert (set p | p in s) == {s[0]} + (set p | p in s[1..]);
      assert s[0] !in s[1..];
    }
  }

  lemma {:induction false} RowBound(ps: set<Pos>, r: int, cols: nat)
    requires forall p | p in ps :: p.0 == r && 0 <= p.1 < cols
    ensures |ps| <= cols
  {
    if cols > 0 {
      RowBound(ps - {(r, cols - 1)}, r, cols - 1);
    } else {
      assert ps == {} by {
        forall p | p in ps ensures false {
        }
      }
    }
  }

  lemma {:induction false} BoxBound(ps: set<Pos>, rows: nat, cols: nat)
    requires forall p | p in ps :: InBounds(rows, cols, p)
    ensures |ps| <= rows * cols
  {
    if rows > 0 {
      var lastRow := set p | p in ps && p.0 == rows - 1;
      var rest := ps - lastRow;
      RowBound(lastRow, rows - 1, cols);
      BoxBound(rest, rows - 1, cols);
      assert ps == lastRow + rest;
      assert (rows - 1) * cols + cols == rows * cols;
    } else {
      assert ps == {} by {
        forall p | p in ps ensures false {
        }
      }
    }
  }

  /** The closed list never holds more positions than the grid has cells. */
  lemma ClosedBound(cfg: Config, start: Pos, s: Search)
    requires Inv(cfg, start, s)
    ensures cfg.rows >= 0 && cfg.cols >= 0
    ensures |s.closed| <= cfg.rows * cfg.cols
  {
    assert InBounds(cfg.rows, cfg.cols, start);
    DistinctCard(s.closed);
    var ps := set p | p in s.closed;
    BoxBound(ps, cfg.rows, cfg.cols);
  }

  /** Each non-goal step uses up one of the rows * cols cells, so from any
      state a run makes at most rows * cols - |closed| non-goal steps. */
  lemma StepProgress(cfg: Config, start: Pos, s: Search)
    requires Inv(cfg, start, s) && |s.open| > 0 && Popped(cfg, s) != cfg.goal
    ensures |Step(cfg, s).0.closed| == |s.closed| + 1
    ensures |Step(cfg, s).0.closed| <= cfg.rows * cfg.cols
  {
    StepFacts(cfg, start, s);
    StepInv(cfg, start, s);
    ClosedBound(cfg, start, Step(cfg, s).0);
  }

  // ---------------------------------------------------------------------
  // The open list's membership test

  function Positions(s: seq<Entry>): (r: seq<Pos>)
    ensures |r| == |s| && forall i | 0 <= i < |s| :: r[i] == s[i].0
  {
    if s == [] then [] else [s[0].0] + Positions(s[1..])
  }

  lemma TwoIndices(s: seq<Entry>, i: int, j: int)
    requires 0 <= i < j < |s| && s[i] == s[j]
    ensures multiset(s)[s[i]] >= 2
  {
    assert s == s[..j] + s[j..];
    assert s[i] in s[..j];
    assert s[j] in s[j..];
  }

  /** Because an entry's cost is a function of its position, the step's test
      `(n, cost) not in open_nodes` is the same as `n` not being the position
      of any open entry, and no position is open twice. */
  lemma OpenPositions(cfg: Config, start: Pos, s: Search)
    requires Inv(cfg, start, s)
    ensures Distinct(Positions(s.open))
    ensures forall n | InBounds(cfg.rows, cfg.cols, n) :: (n, EntryCost(cfg, n)) in s.open <==> n in Positions(s.open)
  {
    var ps := Positions(s.open);
    forall i, j | 0 <= i < j < |ps| ensures ps[i] != ps[j] {
      assert s.open[i] in s.open && s.open[j] in s.open;
      if ps[i] == ps[j] {
        TwoIndices(s.open, i, j);
      }
    }
    forall n | InBounds(cfg.rows, cfg.cols, n) ensures (n, EntryCost(cfg, n)) in s.open <==> n in ps {
      if n in ps {
        var k :| 0 <= k < |ps| && ps[k] == n;
        assert s.open[k] in s.open;
      }
      if (n, EntryCost(cfg, n)) in s.open {
        var k :| 0 <= k < |s.open| && s.open[k] == (n, EntryCost(cfg, n));
        assert ps[k] == n;
      }
    }
  }
}
