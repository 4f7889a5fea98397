/** Sequences of steps, as the run loop issues them until a step reports the
    goal: a bound on their number, and the two equivalences the cost models
    give (Dijkstra on the flat cost grid behaves as breadth-first search,
    A* behaves as greedy best-first search). */
module Runs {
  import opened Cells
  import opened StableSort
  import opened Engine
  import opened SearchFacts
  import opened CostModels

  /** Step `i` of a run: from `ss[i]` the step is defined, pops `pops[i]`
      and leads to `ss[i + 1]`. */
  ghost predicate StepAt(cfg: Config, ss: seq<Search>, pops: seq<Pos>, i: nat)
    requires |ss| == |pops| + 1 && i < |pops|
  {
    StepPre(cfg, ss[i]) && Popped(cfg, ss[i]) == pops[i] && ss[i + 1] == Step(cfg, ss[i]).0
  }

  /** The run loop without its display: the states `ss` it passes through
      and the positions `pops` its steps pop, stopping once a step has popped
      the goal (the step that returns true). */
  ghost predicate IsRun(cfg: Config, ss: seq<Search>, pops: seq<Pos>) {
    && |ss| == |pops| + 1
    && (forall i | 0 <= i < |pops| :: StepAt(cfg, ss, pops, i))
    && cfg.goal !in DropLast(pops)
  }

  /** A run is solved when its last step popped the goal; that step is the
      only one that returns true. */
  lemma RunFlags(cfg: Config, ss: seq<Search>, pops: seq<Pos>, i: nat)
    requires IsRun(cfg, ss, pops) && i < |pops|
    ensures StepPre(cfg, ss[i])
    ensures Step(cfg, ss[i]).1 <==> i == |pops| - 1 && pops[i] == cfg.goal
  {
    assert StepAt(cfg, ss, pops, i);
    if i < |pops| - 1 {
      assert pops[i] in DropLast(pops);
    }
  }

  lemma StepAtInv(cfg: Config, start: Pos, ss: seq<Search>, pops: seq<Pos>, i: nat)
    requires IsRun(cfg, ss, pops) && i < |pops| && Inv(cfg, start, ss[i])
    ensures Inv(cfg, start, ss[i + 1])
    ensures SameLayout(ss[i].grid, ss[i + 1].grid, cfg.rows, cfg.cols)
    ensures i < |pops| - 1 ==> |ss[i + 1].closed| == |ss[i].closed| + 1
  {
    assert StepAt(cfg, ss, pops, i);
    StepInv(cfg, start, ss[i]);
    if i < |pops| - 1 {
      assert pops[i] in DropLast(pops);
      StepProgress(cfg, start, ss[i]);
    }
  }

  /** A non-goal step in front of a run is again a run. */
  lemma RunCons(cfg: Config, s: Search, ss: seq<Search>, pops: seq<Pos>)
    requires StepPre(cfg, s) && Popped(cfg, s) != cfg.goal
    requires IsRun(cfg, ss, pops) && ss[0] == Step(cfg, s).0
    ensures IsRun(cfg, [s] + ss, [Popped(cfg, s)] + pops)
  {
    RunConsSteps(cfg, s, ss, pops);
    if pops != [] {
      DropLastCons(Popped(cfg, s), pops);
    }
  }

  lemma RunConsSteps(cfg: Config, s: Search, ss: seq<Search>, pops: seq<Pos>)
    requires StepPre(cfg, s)
    requires IsRun(cfg, ss, pops) && ss[0] == Step(cfg, s).0
    ensures forall i | 0 <= i < |pops| + 1 :: StepAt(cfg, [s] + ss, [Popped(cfg, s)] + pops, i)
  {
    var ss' := [s] + ss;
    var pops' := [Popped(cfg, s)] + pops;
    forall i | 0 <= i < |pops'| ensures StepAt(cfg, ss', pops', i) {
      if i > 0 {
        assert StepAt(cfg, ss, pops, i - 1);
        StepAtMoved(cfg, ss, pops, ss', pops', i - 1);
      }
    }
  }

  lemma StepAtMoved(cfg: Config, ss: seq<Search>, pops: seq<Pos>, ss': seq<Search>, pops': seq<Pos>, i: nat)
    requires |ss| == |pops| + 1 && i < |pops| && StepAt(cfg, ss, pops, i)
    requires |ss'| == |pops'| + 1 && i + 1 < |pops'|
    requires ss'[i + 1] == ss[i] && ss'[i + 2] == ss[i + 1] && pops'[i + 1] == pops[i]
    ensures StepAt(cfg, ss', pops', i + 1)
  {
  }

  lemma DropLastCons<T>(x: T, s: seq<T>)
    requires s != []
    ensures DropLast([x] + s) == [x] + DropLast(s)
  {
    var a := DropLast([x] + s);
    var b := [x] + DropLast(s);
    assert |a| == |b|;
    forall k | 0 <= k < |a| ensures a[k] == b[k] {
      if k > 0 {
        assert a[k] == s[k - 1];
      }
    }
  }

  /** `ss`, `pops` is what the run loop does from `s` with at most `n`
      steps: it takes `n` steps unless it pops the goal or empties the open
      list first. */
  ghost predicate RunFrom(cfg: Config, s: Search, n: nat, ss: seq<Search>, pops: seq<Pos>) {
    && IsRun(cfg, ss, pops) && ss[0] == s && |pops| <= n
    && (|pops| == n || (pops != [] && pops[|pops| - 1] == cfg.goal) || ss[|pops|].open == [])
  }

  lemma RunFromGoal(cfg: Config, s: Search, n: nat)
    requires n > 0 && StepPre(cfg, s) && Popped(cfg, s) == cfg.goal
    ensures RunFrom(cfg, s, n, [s, Step(cfg, s).0], [cfg.goal])
  {
    assert StepAt(cfg, [s, Step(cfg, s).0], [cfg.goal], 0);
  }

  lemma RunFromCons(cfg: Config, s: Search, n: nat, ss: seq<Search>, pops: seq<Pos>)
    requires n > 0 && StepPre(cfg, s) && Popped(cfg, s) != cfg.goal
    requires RunFrom(cfg, Step(cfg, s).0, n - 1, ss, pops)
    ensures RunFrom(cfg, s, n, [s] + ss, [Popped(cfg, s)] + pops)
  {
    RunCons(cfg, s, ss, pops);
    var ss', pops' := [s] + ss, [Popped(cfg, s)] + pops;
    assert ss'[|pops'|] == ss[|pops|];
    assert pops != [] ==> pops'[|pops'| - 1] == pops[|pops| - 1];
  }

  /** The run the loop makes from `s` with at most `n` steps, built step by
      step. */
  lemma {:induction false} BuildRun(cfg: Config, start: Pos, s: Search, n: nat) returns (ss: seq<Search>, pops: seq<Pos>)
    requires Inv(cfg, start, s)
    ensures RunFrom(cfg, s, n, ss, pops)
    decreases n
  {
    if n == 0 || s.open == [] {
      ss, pops := [s], [];
    } else {
      InvStepPre(cfg, start, s);
      if Popped(cfg, s) == cfg.goal {
        RunFromGoal(cfg, s, n);
        ss, pops := [s, Step(cfg, s).0], [cfg.goal];
      } else {
        StepInv(cfg, start, s);
        var rest, restPops := BuildRun(cfg, start, Step(cfg, s).0, n - 1);
        RunFromCons(cfg, s, n, rest, restPops);
        ss, pops := [s] + rest, [Popped(cfg, s)] + restPops;
      }
    }
  }

  /** From every state satisfying the invariant the run loop can take its
      steps: such a run exists for every bound `n`. */
  lemma RunExists(cfg: Config, start: Pos, s: Search, n: nat)
    requires Inv(cfg, start, s)
    ensures exists ss: seq<Search>, pops: seq<Pos> :: RunFrom(cfg, s, n, ss, pops)
  {
    var ss, pops := BuildRun(cfg, start, s, n);
  }

  /** Every state of a run keeps the invariant and the layout of start, goal
      and blocked cells of the first. */
  lemma {:induction false} RunInv(cfg: Config, start: Pos, ss: seq<Search>, pops: seq<Pos>, k: nat)
    requires IsRun(cfg, ss, pops) && Inv(cfg, start, ss[0]) && k <= |pops|
    ensures Inv(cfg, start, ss[k])
    ensures SameLayout(ss[0].grid, ss[k].grid, cfg.rows, cfg.cols)
  {
    if k == 0 {
      assert SameLayout(ss[0].grid, ss[0].grid, cfg.rows, cfg.cols);
    } else {
      RunInv(cfg, start, ss, pops, k - 1);
      StepAtInv(cfg, start, ss, pops, k - 1);
      SameLayoutTrans(ss[0].grid, ss[k - 1].grid, ss[k].grid, cfg.rows, cfg.cols);
    }
  }

  /** Before the goal step, each step closes one more node. */
  lemma {:induction false} RunClosed(cfg: Config, start: Pos, ss: seq<Search>, pops: seq<Pos>, k: nat)
    requires IsRun(cfg, ss, pops) && Inv(cfg, start, ss[0]) && 0 < k < |pops|
    ensures |ss[k].closed| == |ss[0].closed| + k
  {
    RunInv(cfg, start, ss, pops, k - 1);
    StepAtInv(cfg, start, ss, pops, k - 1);
    assert |ss[k].closed| == |ss[k - 1].closed| + 1;
    if k > 1 {
      RunClosed(cfg, start, ss, pops, k - 1);
    }
  }

  /** A run pops at most one position per still-unclosed cell plus the goal:
      the number of steps before the goal is found is bounded by the grid. */
  lemma RunBound(cfg: Config, start: Pos, ss: seq<Search>, pops: seq<Pos>)
    requires IsRun(cfg, ss, pops) && Inv(cfg, start, ss[0])
    ensures cfg.rows * cfg.cols >= |ss[0].closed|
    ensures |pops| <= cfg.rows * cfg.cols - |ss[0].closed| + 1
  {
    ClosedBound(cfg, start, ss[0]);
    if |pops| > 1 {
      var k := |pops| - 1;
      RunClosed(cfg, start, ss, pops, k);
      RunInv(cfg, start, ss, pops, k);
      ClosedBound(cfg, start, ss[k]);
    }
  }

  // ---------------------------------------------------------------------
  // Runs that differ only by a constant added to every cost

  predicate Shifted(s1: Search, s2: Search, d: int) {
    s1 == s2.(open := Shift(s2.open, d))
  }

  /** Two configurations on the same grid size and goal whose pushed costs
      differ by `d` everywhere. */
  ghost predicate CostsShifted(cfg1: Config, cfg2: Config, d: int) {
    && cfg1.rows == cfg2.rows && cfg1.cols == cfg2.cols && cfg1.goal == cfg2.goal
    && IsGrid(cfg1.costGrid, cfg1.rows, cfg1.cols) && IsGrid(cfg2.costGrid, cfg2.rows, cfg2.cols)
    && forall p | InBounds(cfg1.rows, cfg1.cols, p) :: EntryCost(cfg1, p) == EntryCost(cfg2, p) + d
  }

  lemma VisitShift(cfg1: Config, cfg2: Config, d: int, current: Pos, s1: Search, s2: Search, n: Pos)
    requires CostsShifted(cfg1, cfg2, d) && WellSized(cfg1, s1) && WellSized(cfg2, s2)
    requires Shifted(s1, s2, d) && InBounds(cfg1.rows, cfg1.cols, n)
    ensures Shifted(Visit(cfg1, current, s1, n), Visit(cfg2, current, s2, n), d)
  {
    var c := EntryCost(cfg2, n);
    assert EntryCost(cfg1, n) == c + d;
    ShiftMember(s2.open, n, c, d);
    if (n, c) !in s2.open && n !in s2.closed {
      ShiftAppend(s2.open, (n, c), d);
      assert Visit(cfg2, current, s2, n).open == s2.open + [(n, c)];
      assert Visit(cfg1, current, s1, n).open == s1.open + [(n, c + d)];
    } else {
      assert Visit(cfg1, current, s1, n) == s1;
    }
  }

  lemma {:induction false} ExpandAllShift(cfg1: Config, cfg2: Config, d: int, current: Pos, s1: Search, s2: Search, ns: seq<Pos>)
    requires CostsShifted(cfg1, cfg2, d) && WellSized(cfg1, s1) && WellSized(cfg2, s2)
    requires Shifted(s1, s2, d) && forall q | q in ns :: InBounds(cfg1.rows, cfg1.cols, q)
    ensures Shifted(ExpandAll(cfg1, current, s1, ns), ExpandAll(cfg2, current, s2, ns), d)
  {
    if ns != [] {
      var init := ns[..|ns| - 1];
      assert forall q | q in init :: q in ns;
      ExpandAllShift(cfg1, cfg2, d, current, s1, s2, init);
      VisitShift(cfg1, cfg2, d, current, ExpandAll(cfg1, current, s1, init), ExpandAll(cfg2, current, s2, init), ns[|ns| - 1]);
    }
  }

  /** The strategies pop from the same end, and either both re-sort or the
      second pushes only zero costs (so re-sorting the first changes nothing). */
  predicate Compatible(st1: Strategy, st2: Strategy) {
    (st1 == DepthFirst <==> st2 == DepthFirst) && (Resorts(st1) == Resorts(st2) || Uniform(st2))
  }

  /** Shifting the open list keeps its positions, so it keeps every
      condition a step needs. */
  lemma ShiftedStepPre(cfg1: Config, cfg2: Config, d: int, s1: Search, s2: Search)
    requires CostsShifted(cfg1, cfg2, d) && Shifted(s1, s2, d)
    ensures StepPre(cfg1, s1) <==> StepPre(cfg2, s2)
  {
    assert s1.grid == s2.grid && s1.closed == s2.closed && s1.bestPath == s2.bestPath;
    if StepPre(cfg2, s2) {
      forall e | e in s1.open ensures InBounds(cfg1.rows, cfg1.cols, e.0) {
        var i :| 0 <= i < |s1.open| && s1.open[i] == e;
        assert s2.open[i] in s2.open && s2.open[i].0 == e.0;
      }
    }
    if StepPre(cfg1, s1) {
      forall f | f in s2.open ensures InBounds(cfg2.rows, cfg2.cols, f.0) {
        var i :| 0 <= i < |s2.open| && s2.open[i] == f;
        assert s1.open[i] in s1.open && s1.open[i].0 == f.0;
      }
    }
  }

  lemma RemainingShift(cfg1: Config, cfg2: Config, d: int, s1: Search, s2: Search)
    requires Shifted(s1, s2, d) && |s2.open| > 0 && (cfg1.strategy == DepthFirst <==> cfg2.strategy == DepthFirst)
    ensures |s1.open| > 0 && PoppedIndex(cfg1, s1) == PoppedIndex(cfg2, s2)
    ensures Popped(cfg1, s1) == Popped(cfg2, s2)
    ensures Remaining(cfg1, s1) == Shift(Remaining(cfg2, s2), d)
  {
    ShiftDelete(s2.open, PoppedIndex(cfg2, s2), d);
  }

  lemma FinishedShift(cfg1: Config, cfg2: Config, d: int, s1: Search, s2: Search)
    requires CostsShifted(cfg1, cfg2, d) && StepPre(cfg1, s1) && StepPre(cfg2, s2)
    requires Shifted(s1, s2, d) && (cfg1.strategy == DepthFirst <==> cfg2.strategy == DepthFirst)
    ensures Shifted(Finished(cfg1, s1), Finished(cfg2, s2), d)
  {
    RemainingShift(cfg1, cfg2, d, s1, s2);
  }

  lemma ExpandedShift(cfg1: Config, cfg2: Config, d: int, s1: Search, s2: Search)
    requires CostsShifted(cfg1, cfg2, d) && StepPre(cfg1, s1) && StepPre(cfg2, s2)
    requires Shifted(s1, s2, d) && (cfg1.strategy == DepthFirst <==> cfg2.strategy == DepthFirst)
    ensures Shifted(Expanded(cfg1, s1), Expanded(cfg2, s2), d)
  {
    RemainingShift(cfg1, cfg2, d, s1, s2);
    var cur := Popped(cfg2, s2);
    var c1 := Closing(cfg1, s1);
    var c2 := Closing(cfg2, s2);
    assert Shifted(c1, c2, d);
    var ns := Neighbours(c2.grid, cfg2.rows, cfg2.cols, cur);
    NeighboursSpec(c2.grid, cfg2.rows, cfg2.cols, cur);
    ExpandAllShift(cfg1, cfg2, d, cur, c1, c2, ns);
  }

  /** Every open entry has cost zero, as in a run of BFS or DFS. */
  predicate ZeroCosts(o: seq<Entry>) {
    forall k | 0 <= k < |o| :: o[k].1 == 0
  }

  lemma {:induction false} ExpandAllZero(cfg: Config, current: Pos, s: Search, ns: seq<Pos>)
    requires Uniform(cfg.strategy) && WellSized(cfg, s) && ZeroCosts(s.open)
    requires forall q | q in ns :: InBounds(cfg.rows, cfg.cols, q)
    ensures ZeroCosts(ExpandAll(cfg, current, s, ns).open)
  {
    if ns != [] {
      var init := ns[..|ns| - 1];
      assert forall q | q in init :: q in ns;
      ExpandAllZero(cfg, current, s, init);
    }
  }

  /** The uniform strategies push only cost zero, so their open lists stay
      all zero. */
  lemma UniformStepZero(cfg: Config, s: Search)
    requires Uniform(cfg.strategy) && StepPre(cfg, s) && ZeroCosts(s.open)
    ensures ZeroCosts(Step(cfg, s).0.open)
  {
    var i := PoppedIndex(cfg, s);
    var rest := Remaining(cfg, s);
    forall k | 0 <= k < |rest| ensures rest[k].1 == 0 {
      if k < i {
        assert rest[k] == s.open[k];
      } else {
        assert rest[k] == s.open[k + 1];
      }
    }
    if Popped(cfg, s) != cfg.goal {
      var c := Closing(cfg, s);
      NeighboursSpec(c.grid, cfg.rows, cfg.cols, Popped(cfg, s));
      ExpandAllZero(cfg, Popped(cfg, s), c, Neighbours(c.grid, cfg.rows, cfg.cols, Popped(cfg, s)));
    }
  }

  /** Re-sorting commutes with the shift when both sort (adding a constant to
      every key keeps a stable sort's order), and is the identity when the
      second pushes only zero costs. */
  lemma ResortedShift(cfg1: Config, cfg2: Config, d: int, s1: Search, s2: Search)
    requires Shifted(s1, s2, d) && Compatible(cfg1.strategy, cfg2.strategy)
    requires Uniform(cfg2.strategy) ==> ZeroCosts(s2.open)
    ensures Shifted(Resorted(cfg1, s1), Resorted(cfg2, s2), d)
  {
    if Resorts(cfg1.strategy) {
      if Resorts(cfg2.strategy) {
        SortShift(s2.open, d);
      } else {
        SortConstantIsIdentity(Shift(s2.open, d), d);
      }
    }
  }

  /** One step on two states whose costs differ by `d`: the same position is
      popped, the same flag returned, and the new states again differ only by
      `d` in their costs. */
  lemma StepShift(cfg1: Config, cfg2: Config, d: int, s1: Search, s2: Search)
    requires CostsShifted(cfg1, cfg2, d) && Compatible(cfg1.strategy, cfg2.strategy)
    requires Shifted(s1, s2, d) && StepPre(cfg2, s2)
    requires Uniform(cfg2.strategy) ==> ZeroCosts(s2.open)
    ensures StepPre(cfg1, s1) && Popped(cfg1, s1) == Popped(cfg2, s2)
    ensures Step(cfg1, s1).1 == Step(cfg2, s2).1
    ensures Shifted(Step(cfg1, s1).0, Step(cfg2, s2).0, d)
  {
    ShiftedStepPre(cfg1, cfg2, d, s1, s2);
    RemainingShift(cfg1, cfg2, d, s1, s2);
    if Popped(cfg2, s2) == cfg2.goal {
      FinishedShift(cfg1, cfg2, d, s1, s2);
    } else {
      ExpandedShift(cfg1, cfg2, d, s1, s2);
      var e2 := Expanded(cfg2, s2);
      if Uniform(cfg2.strategy) {
        UniformStepZero(cfg2, s2);
        assert Step(cfg2, s2).0 == e2;
      }
      ResortedShift(cfg1, cfg2, d, Expanded(cfg1, s1), e2);
    }
  }

  /** Step `i` of two runs whose states at `i` differ only by `d` in their
      costs. */
  lemma StepAtShift(cfg1: Config, cfg2: Config, d: int, ss1: seq<Search>, pops1: seq<Pos>, ss2: seq<Search>, pops2: seq<Pos>, i: nat)
    requires CostsShifted(cfg1, cfg2, d) && Compatible(cfg1.strategy, cfg2.strategy)
    requires IsRun(cfg1, ss1, pops1) && IsRun(cfg2, ss2, pops2) && i < |pops1| && i < |pops2|
    requires Shifted(ss1[i], ss2[i], d) && (Uniform(cfg2.strategy) ==> ZeroCosts(ss2[i].open))
    ensures pops1[i] == pops2[i] && Shifted(ss1[i + 1], ss2[i + 1], d)
    ensures Uniform(cfg2.strategy) ==> ZeroCosts(ss2[i + 1].open)
  {
    assert StepAt(cfg1, ss1, pops1, i);
    assert StepAt(cfg2, ss2, pops2, i);
    StepShift(cfg1, cfg2, d, ss1[i], ss2[i]);
    if Uniform(cfg2.strategy) {
      UniformStepZero(cfg2, ss2[i]);
    }
  }

  /** Runs from states whose costs differ by `d` pop the same positions and
      pass through states that again differ only in their costs, for as
      long as both run. */
  lemma {:induction false} RunShift(cfg1: Config, cfg2: Config, d: int, ss1: seq<Search>, pops1: seq<Pos>, ss2: seq<Search>, pops2: seq<Pos>, k: nat)
    requires CostsShifted(cfg1, cfg2, d) && Compatible(cfg1.strategy, cfg2.strategy)
    requires IsRun(cfg1, ss1, pops1) && IsRun(cfg2, ss2, pops2) && k <= |pops1| && k <= |pops2|
    requires Shifted(ss1[0], ss2[0], d) && (Uniform(cfg2.strategy) ==> ZeroCosts(ss2[0].open))
    ensures forall j | 0 <= j < k :: pops1[j] == pops2[j]
    ensures Shifted(ss1[k], ss2[k], d)
    ensures Uniform(cfg2.strategy) ==> ZeroCosts(ss2[k].open)
  {
    if k > 0 {
      RunShift(cfg1, cfg2, d, ss1, pops1, ss2, pops2, k - 1);
      StepAtShift(cfg1, cfg2, d, ss1, pops1, ss2, pops2, k - 1);
    }
  }

  /** The configuration `run` builds for a strategy. */
  function RunConfig(st: Strategy, rows: nat, cols: nat, goal: Pos, cost: int): Config {
    Config(st, rows, cols, CostGrid(MethodFor(st), rows, cols, goal, cost), goal)
  }

  /** The state `run` starts from: the start entry with its cost, nothing
      closed, no back-pointers, and the path of an earlier run, if any. */
  function Initial(cfg: Config, g: Grid, start: Pos, fullPath: seq<Pos>): Search
    requires IsGrid(cfg.costGrid, cfg.rows, cfg.cols) && InBounds(cfg.rows, cfg.cols, start)
  {
    Search(g, [(start, EntryCost(cfg, start))], [], map[], fullPath)
  }

  /** Runs of the same length of two strategies from the same start pop the
      same positions and end with the same grid, closed list, back-pointers
      and path. */
  ghost predicate RunsAgree(ss1: seq<Search>, pops1: seq<Pos>, ss2: seq<Search>, pops2: seq<Pos>)
    requires |ss1| > 0 && |ss2| > 0
  {
    var a := ss1[|ss1| - 1];
    var b := ss2[|ss2| - 1];
    pops1 == pops2 && a.grid == b.grid && a.closed == b.closed && a.bestPath == b.bestPath && a.fullPath == b.fullPath
  }

  lemma AgreeAtEnd(cfg1: Config, cfg2: Config, d: int, ss1: seq<Search>, pops1: seq<Pos>, ss2: seq<Search>, pops2: seq<Pos>)
    requires CostsShifted(cfg1, cfg2, d) && Compatible(cfg1.strategy, cfg2.strategy)
    requires IsRun(cfg1, ss1, pops1) && IsRun(cfg2, ss2, pops2) && |pops1| == |pops2|
    requires Shifted(ss1[0], ss2[0], d) && (Uniform(cfg2.strategy) ==> ZeroCosts(ss2[0].open))
    ensures RunsAgree(ss1, pops1, ss2, pops2)
  {
    RunShift(cfg1, cfg2, d, ss1, pops1, ss2, pops2, |pops1|);
  }

  /** With the flat "cost" grid every entry has the same cost, so the stable
      re-sort never reorders anything: a Dijkstra run pops exactly the
      positions a breadth-first run of the same length pops, in the same
      order, and leaves the same grid, closed list and back-pointers. */
  lemma DijkstraPopsLikeBfs(g: Grid, fullPath: seq<Pos>, rows: nat, cols: nat, start: Pos, goal: Pos, cost: int,
                            ss1: seq<Search>, pops1: seq<Pos>, ss2: seq<Search>, pops2: seq<Pos>)
    requires InBounds(rows, cols, start)
    requires IsRun(RunConfig(Dijkstra, rows, cols, goal, cost), ss1, pops1)
    requires IsRun(RunConfig(BreadthFirst, rows, cols, goal, cost), ss2, pops2)
    requires ss1[0] == Initial(RunConfig(Dijkstra, rows, cols, goal, cost), g, start, fullPath)
    requires ss2[0] == Initial(RunConfig(BreadthFirst, rows, cols, goal, cost), g, start, fullPath)
    requires |pops1| == |pops2|
    ensures RunsAgree(ss1, pops1, ss2, pops2)
  {
    var dj := RunConfig(Dijkstra, rows, cols, goal, cost);
    var bf := RunConfig(BreadthFirst, rows, cols, goal, cost);
    assert ss2[0].open == [(start, 0)];
    assert Shift([(start, 0)], cost) == [(start, cost)];
    AgreeAtEnd(dj, bf, cost, ss1, pops1, ss2, pops2);
  }

  /** A* pushes the greedy heuristic plus the flat cost, and a constant added
      to every key does not change a stable sort: an A* run pops exactly the
      positions a greedy best-first run of the same length pops, in the same
      order. */
  lemma AStarPopsLikeGreedy(g: Grid, fullPath: seq<Pos>, rows: nat, cols: nat, start: Pos, goal: Pos, cost: int,
                            ss1: seq<Search>, pops1: seq<Pos>, ss2: seq<Search>, pops2: seq<Pos>)
    requires InBounds(rows, cols, start)
    requires IsRun(RunConfig(AStar, rows, cols, goal, cost), ss1, pops1)
    requires IsRun(RunConfig(GreedyBestFirst, rows, cols, goal, cost), ss2, pops2)
    requires ss1[0] == Initial(RunConfig(AStar, rows, cols, goal, cost), g, start, fullPath)
    requires ss2[0] == Initial(RunConfig(GreedyBestFirst, rows, cols, goal, cost), g, start, fullPath)
    requires |pops1| == |pops2|
    ensures RunsAgree(ss1, pops1, ss2, pops2)
  {
    var a1 := RunConfig(AStar, rows, cols, goal, cost);
    var gb := RunConfig(GreedyBestFirst, rows, cols, goal, cost);
    FlatPlusHeuristicIsShift(rows, cols, goal, cost);
    var h := EntryCost(gb, start);
    assert Shift([(start, h)], cost) == [(start, h + cost)];
    AgreeAtEnd(a1, gb, cost, ss1, pops1, ss2, pops2);
  }

  /** Two runs with the same step bound from states whose costs differ by
      `d` take the same number of steps: while both run they are in shifted
      states, so when one stops because it popped the goal or emptied its
      open list, so does the other. */
  lemma RunFromSameLength(cfg1: Config, cfg2: Config, d: int, n: nat, s1: Search, s2: Search,
                          ss1: seq<Search>, pops1: seq<Pos>, ss2: seq<Search>, pops2: seq<Pos>)
    requires CostsShifted(cfg1, cfg2, d) && Compatible(cfg1.strategy, cfg2.strategy)
    requires RunFrom(cfg1, s1, n, ss1, pops1) && RunFrom(cfg2, s2, n, ss2, pops2)
    requires Shifted(s1, s2, d) && (Uniform(cfg2.strategy) ==> ZeroCosts(s2.open))
    ensures |pops1| == |pops2|
  {
    var k := if |pops1| <= |pops2| then |pops1| else |pops2|;
    RunShift(cfg1, cfg2, d, ss1, pops1, ss2, pops2, k);
    assert |ss1[k].open| == |ss2[k].open|;
    assert k < |pops1| ==> StepAt(cfg1, ss1, pops1, k);
    assert k < |pops2| ==> StepAt(cfg2, ss2, pops2, k);
    assert 0 < k < |pops1| ==> pops1[k - 1] in DropLast(pops1);
    assert 0 < k < |pops2| ==> pops2[k - 1] in DropLast(pops2);
  }

  /** A Dijkstra run and a breadth-first run from the same start with the
      same step bound: they take the same steps, so one pops the goal
      exactly when the other does, and they end in the same grid, closed
      list, back-pointers and path. */
  lemma DijkstraRunsLikeBfs(g: Grid, fullPath: seq<Pos>, rows: nat, cols: nat, start: Pos, goal: Pos, cost: int, n: nat,
                            ss1: seq<Search>, pops1: seq<Pos>, ss2: seq<Search>, pops2: seq<Pos>)
    requires InBounds(rows, cols, start)
    requires RunFrom(RunConfig(Dijkstra, rows, cols, goal, cost),
                     Initial(RunConfig(Dijkstra, rows, cols, goal, cost), g, start, fullPath), n, ss1, pops1)
    requires RunFrom(RunConfig(BreadthFirst, rows, cols, goal, cost),
                     Initial(RunConfig(BreadthFirst, rows, cols, goal, cost), g, start, fullPath), n, ss2, pops2)
    ensures |pops1| == |pops2| && RunsAgree(ss1, pops1, ss2, pops2)
    ensures (pops1 != [] && pops1[|pops1| - 1] == goal) <==> (pops2 != [] && pops2[|pops2| - 1] == goal)
  {
    var dj := RunConfig(Dijkstra, rows, cols, goal, cost);
    var bf := RunConfig(BreadthFirst, rows, cols, goal, cost);
    assert ss2[0].open == [(start, 0)];
    assert Shift([(start, 0)], cost) == [(start, cost)];
    RunFromSameLength(dj, bf, cost, n, ss1[0], ss2[0], ss1, pops1, ss2, pops2);
    AgreeAtEnd(dj, bf, cost, ss1, pops1, ss2, pops2);
  }

  /** An A* run and a greedy best-first run from the same start with the
      same step bound take the same steps, solve alike and end alike. */
  lemma AStarRunsLikeGreedy(g: Grid, fullPath: seq<Pos>, rows: nat, cols: nat, start: Pos, goal: Pos, cost: int, n: nat,
                            ss1: seq<Search>, pops1: seq<Pos>, ss2: seq<Search>, pops2: seq<Pos>)
    requires InBounds(rows, cols, start)
    requires RunFrom(RunConfig(AStar, rows, cols, goal, cost),
                     Initial(RunConfig(AStar, rows, cols, goal, cost), g, start, fullPath), n, ss1, pops1)
    requires RunFrom(RunConfig(GreedyBestFirst, rows, cols, goal, cost),
                     Initial(RunConfig(GreedyBestFirst, rows, cols, goal, cost), g, start, fullPath), n, ss2, pops2)
    ensures |pops1| == |pops2| && RunsAgree(ss1, pops1, ss2, pops2)
    ensures (pops1 != [] && pops1[|pops1| - 1] == goal) <==> (pops2 != [] && pops2[|pops2| - 1] == goal)
  {
    var a1 := RunConfig(AStar, rows, cols, goal, cost);
    var gb := RunConfig(GreedyBestFirst, rows, cols, goal, cost);
    FlatPlusHeuristicIsShift(rows, cols, goal, cost);
    var h := EntryCost(gb, start);
    assert Shift([(start, h)], cost) == [(start, h + cost)];
    RunFromSameLength(a1, gb, cost, n, ss1[0], ss2[0], ss1, pops1, ss2, pops2);
    AgreeAtEnd(a1, gb, cost, ss1, pops1, ss2, pops2);
  }
}
