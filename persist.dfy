/** The text form of a maze file: one line per row, the cells of a row
    joined by commas, each line ended by a newline. Loading reads the lines
    back, strips the white space around each and splits it at the commas. */
module Persist {
  import opened Cells

  /** The ASCII characters Python's `str.strip()` removes: space, tab,
      line feed, vertical tab, form feed, carriage return and the four
      separators 0x1C to 0x1F. */
  predicate IsSpace(c: char) {
    c == ' ' || ('\t' <= c <= '\r') || ('\U{1C}' <= c <= '\U{1F}')
  }

  function StripLeft(s: string): string {
    if s != [] && IsSpace(s[0]) then StripLeft(s[1..]) else s
  }

  function StripRight(s: string): string {
    if s != [] && IsSpace(s[|s| - 1]) then StripRight(s[..|s| - 1]) else s
  }

  /** `line.strip()`. */
  function Strip(s: string): string {
    StripRight(StripLeft(s))
  }

  /** What the write loop of `save` emits for one row before the newline:
      the first cell, then a comma and the cell for each further cell. */
  function JoinRow(row: seq<string>): string {
    if |row| == 0 then ""
    else if |row| == 1 then row[0]
    else JoinRow(row[..|row| - 1]) + "," + row[|row| - 1]
  }

  function LastComma(s: string): (i: nat)
    requires ',' in s
    ensures i < |s| && s[i] == ',' && forall j | i < j < |s| :: s[j] != ','
  {
    if s[|s| - 1] == ',' then |s| - 1
    else
      assert s == s[..|s| - 1] + [s[|s| - 1]];
      LastComma(s[..|s| - 1])
  }

  /** `line.split(',')`: the pieces between the commas, one more than there
      are commas (so the empty line gives one empty piece). */
  function Split(s: string): (r: seq<string>)
    ensures |r| >= 1
  {
    if ',' !in s then [s]
    else
      var i := LastComma(s);
      Split(s[..i]) + [s[i + 1..]]
  }

  function FirstNewline(s: string): (i: nat)
    requires '\n' in s
    ensures i < |s| && s[i] == '\n' && forall j | 0 <= j < i :: s[j] != '\n'
  {
    if s[0] == '\n' then 0 else 1 + FirstNewline(s[1..])
  }

  /** Iterating a text file: each line up to and including its newline, and
      a last piece without one when the text does not end in a newline. */
  function Lines(s: string): (r: seq<string>)
    decreases |s|
  {
    if s == [] then []
    else if '\n' !in s then [s]
    else
      var i := FirstNewline(s);
      [s[..i + 1]] + Lines(s[i + 1..])
  }

  /** The whole file `save` writes. */
  function Serialise(g: seq<seq<string>>): string {
    if g == [] then "" else JoinRow(g[0]) + "\n" + Serialise(g[1..])
  }

  /** `[line.strip().split(',') for line in file]`. */
  function ParseGrid(text: string): (g: seq<seq<string>>)
    ensures |g| == |Lines(text)|
    ensures forall i | 0 <= i < |g| :: g[i] == Split(Strip(Lines(text)[i]))
  {
    var ls := Lines(text);
    seq(|ls|, i requires 0 <= i < |ls| => Split(Strip(ls[i])))
  }

  /** A cell that survives the text form: no comma, no white space. */
  predicate CleanCell(v: string) {
    forall k | 0 <= k < |v| :: v[k] != ',' && !IsSpace(v[k])
  }

  predicate CleanGrid(g: seq<seq<string>>) {
    forall i, j | 0 <= i < |g| && 0 <= j < |g[i]| :: CleanCell(g[i][j])
  }

  // ---------------------------------------------------------------------
  // Lemmas

  /** A joined row of clean cells has no white space, and its commas are
      exactly the separators. */
  lemma {:induction false} JoinRowClean(row: seq<string>)
    requires forall j | 0 <= j < |row| :: CleanCell(row[j])
    ensures forall k | 0 <= k < |JoinRow(row)| :: !IsSpace(JoinRow(row)[k])
  {
    if |row| > 1 {
      var init := row[..|row| - 1];
      JoinRowClean(init);
      var a := JoinRow(init);
      var b := row[|row| - 1];
      assert JoinRow(row) == a + "," + b;
      forall k | 0 <= k < |JoinRow(row)| ensures !IsSpace(JoinRow(row)[k]) {
        if k < |a| {
          assert JoinRow(row)[k] == a[k];
        } else if k > |a| {
          assert JoinRow(row)[k] == b[k - |a| - 1];
        }
      }
    }
  }

  /** Splitting at the last comma. */
  lemma SplitAppend(a: string, b: string)
    requires ',' !in b
    ensures Split(a + "," + b) == Split(a) + [b]
  {
    var s := a + "," + b;
    assert s[|a|] == ',';
    forall j | |a| < j < |s| ensures s[j] != ',' {
      assert s[j] == b[j - |a| - 1];
    }
    var i := LastComma(s);
    assert i == |a|;
    assert s[..i] == a && s[i + 1..] == b;
  }

  /** Splitting a joined row of comma-free cells gives the row back, as
      long as the row has a cell. */
  lemma {:induction false} SplitJoinRow(row: seq<string>)
    requires |row| >= 1
    requires forall j | 0 <= j < |row| :: CleanCell(row[j])
    ensures Split(JoinRow(row)) == row
  {
    var b := row[|row| - 1];
    assert ',' !in b by {
      assert forall k | 0 <= k < |b| :: b[k] != ',';
    }
    if |row| > 1 {
      var init := row[..|row| - 1];
      SplitAppend(JoinRow(init), b);
      SplitJoinRow(init);
      assert init + [b] == row;
    }
  }

  /** A line without white space inside, ended by a newline, strips to
      itself without the newline. */
  lemma StripLine(j: string)
    requires forall k | 0 <= k < |j| :: !IsSpace(j[k])
    ensures Strip(j + "\n") == j
  {
    var s := j + "\n";
    if j == [] {
      assert StripLeft(s) == StripLeft(s[1..]);
      assert s[1..] == [];
    } else {
      assert StripLeft(s) == s;
      assert s[..|s| - 1] == j;
      assert StripRight(s) == StripRight(j);
    }
  }

  /** A line without a newline inside, read off the front of the text. */
  lemma LinesCons(j: string, rest: string)
    requires '\n' !in j
    ensures Lines(j + "\n" + rest) == [j + "\n"] + Lines(rest)
  {
    var s := j + "\n" + rest;
    assert s[|j|] == '\n';
    forall k | 0 <= k < |j| ensures s[k] != '\n' {
      assert s[k] == j[k];
    }
    var i := FirstNewline(s);
    assert i == |j|;
    assert s[..i + 1] == j + "\n" && s[i + 1..] == rest;
  }

  /** The lines of the written file are the rows' lines, in order. */
  lemma {:induction false} LinesSerialise(g: seq<seq<string>>)
    requires CleanGrid(g)
    ensures |Lines(Serialise(g))| == |g|
    ensures forall i | 0 <= i < |g| :: Lines(Serialise(g))[i] == JoinRow(g[i]) + "\n"
  {
    if g != [] {
      var j := JoinRow(g[0]);
      JoinRowClean(g[0]);
      assert '\n' !in j by {
        assert forall k | 0 <= k < |j| :: j[k] != '\n';
      }
      LinesCons(j, Serialise(g[1..]));
      assert CleanGrid(g[1..]);
      LinesSerialise(g[1..]);
    }
  }

  /** Loading what `save` wrote gives the grid back, for a grid whose every
      row has a cell and whose cells hold no comma and no white space. */
  lemma LoadSaveRoundTrip(g: seq<seq<string>>)
    requires CleanGrid(g)
    requires forall i | 0 <= i < |g| :: |g[i]| >= 1
    ensures ParseGrid(Serialise(g)) == g
  {
    LinesSerialise(g);
    var p := ParseGrid(Serialise(g));
    forall i | 0 <= i < |g| ensures p[i] == g[i] {
      JoinRowClean(g[i]);
      StripLine(JoinRow(g[i]));
      SplitJoinRow(g[i]);
    }
  }

  /** The cell `save` writes at `p`: 'X' where the maze is blocked, else 'G'
      at the goal, 'S' at the start and '0' everywhere else (a later write
      of the save wins over an earlier one). */
  function SavedCell(v: string, p: Pos, start: Pos, goal: Pos): string {
    if v == BLOCKED then BLOCKED
    else if p == goal then GOAL
    else if p == start then START
    else EMPTY
  }

  /** The maze `save` builds before writing it: the start, the goal and the
      blocked cells of `g`, and nothing else. */
  function SavedGrid(g: Grid, rows: nat, cols: nat, start: Pos, goal: Pos): (r: Grid)
    requires IsGrid(g, rows, cols)
    ensures IsGrid(r, rows, cols)
  {
    seq(rows, i requires 0 <= i < rows =>
      seq(cols, j requires 0 <= j < cols => SavedCell(g[i][j], (i, j), start, goal)))
  }

  /** What the new maze of `save` holds at `p` once the start, the goal and
      the cells of `blocked` are written, in that order. */
  function NewCell(p: Pos, start: Pos, goal: Pos, blocked: seq<Pos>): string {
    if p in blocked then BLOCKED else if p == goal then GOAL else if p == start then START else EMPTY
  }

  /** The new maze of `save`: all '0', then 'S' at the start, 'G' at the
      goal and 'X' at each blocked cell, written in that order, so a later
      write wins. */
  method NewMaze(rows: nat, cols: nat, start: Pos, goal: Pos, blocked: seq<Pos>) returns (m: Grid)
    requires InBounds(rows, cols, start) && InBounds(rows, cols, goal)
    requires forall q | q in blocked :: InBounds(rows, cols, q)
    ensures IsGrid(m, rows, cols)
    ensures forall i, j | 0 <= i < rows && 0 <= j < cols :: m[i][j] == NewCell((i, j), start, goal, blocked)
  {
    m := seq(rows, _ => seq(cols, _ => EMPTY));
    m := m[start.0 := m[start.0][start.1 := START]];
    m := m[goal.0 := m[goal.0][goal.1 := GOAL]];
    assert forall i, j | 0 <= i < rows && 0 <= j < cols :: m[i][j] == NewCell((i, j), start, goal, blocked[..0]);
    for k := 0 to |blocked|
      invariant IsGrid(m, rows, cols)
      invariant forall i, j | 0 <= i < rows && 0 <= j < cols :: m[i][j] == NewCell((i, j), start, goal, blocked[..k])
    {
      assert blocked[..k + 1] == blocked[..k] + [blocked[k]];
      assert blocked[k] in blocked;
      var b := blocked[k];
      ghost var before := m;
      m := m[b.0 := m[b.0][b.1 := BLOCKED]];
      forall i, j | 0 <= i < rows && 0 <= j < cols ensures m[i][j] == NewCell((i, j), start, goal, blocked[..k + 1]) {
        if (i, j) != b {
          assert m[i][j] == before[i][j];
        }
      }
    }
    assert blocked[..|blocked|] == blocked;
  }

  /** The new maze agrees with the saved grid at every cell when the
      blocked cells are those of `g`. */
  lemma NewCellSaved(g: Grid, start: Pos, goal: Pos, blocked: seq<Pos>, p: Pos)
    requires 0 <= p.0 < |g| && 0 <= p.1 < |g[p.0]| && blocked == GridMatches(g, BLOCKED, 0)
    ensures NewCell(p, start, goal, blocked) == SavedCell(g[p.0][p.1], p, start, goal)
  {
    MatchAt(g, BLOCKED, p);
  }

  /** The write loop of `save`, appending to the text instead of a file. */
  method WriteRows(g: seq<seq<string>>) returns (out: string)
    ensures out == Serialise(g)
  {
    out := "";
    for r := 0 to |g|
      invariant out == Serialise(g[..r])
    {
      var row := g[r];
      for idx := 0 to |row|
        invariant out == Serialise(g[..r]) + JoinRow(row[..idx])
      {
        assert row[..idx + 1][..idx] == row[..idx];
        if idx == 0 {
          out := out + row[idx];
        } else {
          out := out + "," + row[idx];
        }
      }
      assert row[..|row|] == row;
      SerialiseAppend(g[..r], row);
      assert g[..r + 1] == g[..r] + [row];
      out := out + "\n";
    }
    assert g[..|g|] == g;
  }

  /** A grid whose cells holding `v` are exactly `p` has `p` as its only
      match. */
  lemma OnlyMatch(g: Grid, v: string, p: Pos)
    requires 0 <= p.0 < |g| && 0 <= p.1 < |g[p.0]|
    requires forall i, j | 0 <= i < |g| && 0 <= j < |g[i]| :: g[i][j] == v <==> (i, j) == p
    ensures GridMatches(g, v, 0) == [p]
  {
    GridMatchesSpec(g, v, 0);
    var m := GridMatches(g, v, 0);
    assert p in m;
    assert m[0] == p;
    assert |m| >= 2 ==> m[1] == p && RowMajorBefore(m[0], m[1]);
  }

  /** In the saved maze of a grid with its start at `s` and its goal at `t`,
      'S' and 'G' sit only there, and saving it again changes no cell. */
  lemma SavedMarks(g: Grid, rows: nat, cols: nat, s: Pos, t: Pos)
    requires IsGrid(g, rows, cols) && InBounds(rows, cols, s) && InBounds(rows, cols, t)
    requires g[s.0][s.1] == START && g[t.0][t.1] == GOAL
    ensures var m := SavedGrid(g, rows, cols, s, t);
            forall i, j | 0 <= i < rows && 0 <= j < cols ::
              && (m[i][j] == START <==> (i, j) == s)
              && (m[i][j] == GOAL <==> (i, j) == t)
              && SavedCell(m[i][j], (i, j), s, t) == m[i][j]
  {
    var m := SavedGrid(g, rows, cols, s, t);
    forall i, j | 0 <= i < rows && 0 <= j < cols
      ensures m[i][j] == START <==> (i, j) == s
      ensures m[i][j] == GOAL <==> (i, j) == t
      ensures SavedCell(m[i][j], (i, j), s, t) == m[i][j]
    {
      assert m[i][j] == SavedCell(g[i][j], (i, j), s, t);
    }
  }

  /** Saving the saved maze again writes the same maze: its start and goal
      are the only ones, at the same cells, and its blocked cells stay. */
  lemma SaveIdempotent(g: Grid, rows: nat, cols: nat)
    requires IsGrid(g, rows, cols)
    requires GridMatches(g, START, 0) != [] && GridMatches(g, GOAL, 0) != []
    ensures var s := GridMatches(g, START, 0)[0];
            var t := GridMatches(g, GOAL, 0)[0];
            var m := SavedGrid(g, rows, cols, s, t);
            GridMatches(m, START, 0) == [s] && GridMatches(m, GOAL, 0) == [t] &&
            SavedGrid(m, rows, cols, s, t) == m
  {
    var s := GridMatches(g, START, 0)[0];
    var t := GridMatches(g, GOAL, 0)[0];
    FirstMatchHolds(g, START);
    FirstMatchHolds(g, GOAL);
    SavedMarks(g, rows, cols, s, t);
    var m := SavedGrid(g, rows, cols, s, t);
    OnlyMatch(m, START, s);
    OnlyMatch(m, GOAL, t);
    var m2 := SavedGrid(m, rows, cols, s, t);
    forall i | 0 <= i < rows ensures m2[i] == m[i] {
      assert forall j | 0 <= j < cols :: m2[i][j] == SavedCell(m[i][j], (i, j), s, t);
    }
  }

  /** The first match is a cell of the grid holding the value. */
  lemma FirstMatchHolds(g: Grid, v: string)
    requires GridMatches(g, v, 0) != []
    ensures var q := GridMatches(g, v, 0)[0];
            0 <= q.0 < |g| && 0 <= q.1 < |g[q.0]| && g[q.0][q.1] == v
  {
    GridMatchesSpec(g, v, 0);
    assert GridMatches(g, v, 0)[0] in GridMatches(g, v, 0);
  }

  /** Loading the saved maze gives it back: its cells are clean and, as it
      holds the start, every row has a cell. */
  lemma LoadSaved(g: Grid, rows: nat, cols: nat, start: Pos, goal: Pos)
    requires IsGrid(g, rows, cols) && InBounds(rows, cols, start)
    ensures ParseGrid(Serialise(SavedGrid(g, rows, cols, start, goal))) == SavedGrid(g, rows, cols, start, goal)
  {
    var m := SavedGrid(g, rows, cols, start, goal);
    assert CleanGrid(m);
    LoadSaveRoundTrip(m);
  }

  /** Writing the rows one after another is the file of all of them. */
  lemma {:induction false} SerialiseAppend(g: seq<seq<string>>, row: seq<string>)
    ensures Serialise(g + [row]) == Serialise(g) + JoinRow(row) + "\n"
  {
    if g != [] {
      assert (g + [row])[1..] == g[1..] + [row];
      SerialiseAppend(g[1..], row);
    } else {
      assert Serialise([row][1..]) == "";
    }
  }
}
