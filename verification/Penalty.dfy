/** The penalty by which one of the eight masks is chosen: runs, blocks, a rule that never fires, and
    the balance of dark and light. */
module Penalty {
  import opened ZigZag

  // ---- runs in one line ----

  /** The length of the run at the front. */
  function FirstRun(line: seq<Cell>): (n: nat)
    requires line != []
    ensures 0 < n <= |line|
    ensures forall i | 0 <= i < n :: line[i] == line[0]
    ensures n < |line| ==> line[n] != line[0]
  {
    if |line| > 1 && line[1] == line[0] then 1 + FirstRun(line[1..]) else 1
  }

  /** The length of the run at the end. */
  function LastRun(line: seq<Cell>): nat
    requires line != []
  {
    var m := |line| - 1;
    if m > 0 && line[m - 1] == line[m] then LastRun(line[..m]) + 1 else 1
  }

  /** A run of at least five scores its length less two. */
  function Worth(run: nat): nat {
    if run >= 5 then run - 2 else 0
  }

  /** The score of a line, run by run. */
  function RunScore(line: seq<Cell>): nat {
    if line == [] then 0
    else
      var n := FirstRun(line);
      Worth(n) + RunScore(line[n..])
  }

  lemma FirstRunIs(line: seq<Cell>, n: nat)
    requires 0 < n <= |line| && forall i | 0 <= i < n :: line[i] == line[0]
    requires n < |line| ==> line[n] != line[0]
    ensures FirstRun(line) == n
  {
  }

  lemma {:induction false} LastRunOf(a: seq<Cell>, b: seq<Cell>)
    requires b != [] && (a == [] || a[|a| - 1] != b[0])
    ensures LastRun(a + b) == LastRun(b)
    decreases |b|
  {
    var m := |b| - 1;
    assert (a + b)[..|a + b| - 1] == a + b[..m];
    if m > 0 && b[m - 1] == b[m] {
      LastRunOf(a, b[..m]);
    }
  }

  lemma {:induction false} WholeRun(line: seq<Cell>)
    requires line != [] && forall i | 0 <= i < |line| :: line[i] == line[0]
    ensures LastRun(line) == |line|
    decreases |line|
  {
    if |line| > 1 {
      WholeRun(line[..|line| - 1]);
    }
  }

  /** What a cell adds when the run it ends has this length: 3 as the fifth, 1 as a later one. */
  function Gain(run: nat): nat {
    if run == 5 then 3 else if run > 5 then 1 else 0
  }

  lemma RunsSplit(a: seq<Cell>, b: seq<Cell>)
    requires a != [] && (forall i | 0 <= i < |a| :: a[i] == a[0]) && (b != [] ==> b[0] != a[0])
    ensures RunScore(a + b) == Worth(|a|) + RunScore(b)
  {
    hide Worth;
    FirstRunIs(a + b, |a|);
    assert (a + b)[|a|..] == b;
  }

  /** One more cell scores by the run it ends. */
  lemma {:induction false} OneCellMore(line: seq<Cell>, c: Cell)
    requires line != []
    ensures RunScore(line + [c]) == RunScore(line) + Gain(LastRun(line + [c]))
    decreases |line|
  {
    hide RunScore, LastRun, FirstRun;
    var n := FirstRun(line);
    var a, b := line[..n], line[n..];
    assert line == a + b;
    RunsSplit(a, b);
    if b != [] {
      assert line + [c] == a + (b + [c]);
      RunsSplit(a, b + [c]);
      OneCellMore(b, c);
      LastRunOf(a, b + [c]);
    } else {
      assert a == line;
      OneRunMore(line, c);
    }
  }

  lemma OneRunMore(line: seq<Cell>, c: Cell)
    requires line != [] && forall i | 0 <= i < |line| :: line[i] == line[0]
    ensures RunScore(line + [c]) == RunScore(line) + Gain(LastRun(line + [c]))
  {
    hide RunScore, LastRun;
    assert RunScore([]) == 0 by {
      NoScore();
    }
    assert line + [] == line;
    RunsSplit(line, []);
    if c == line[0] {
      var more := line + [c];
      assert more + [] == more;
      RunsSplit(more, []);
      WholeRun(more);
    } else {
      RunsSplit(line, [c]);
      assert [c] + [] == [c];
      RunsSplit([c], []);
      LastRunOf(line, [c]);
      WholeRun([c]);
    }
  }

  lemma NoScore()
    ensures RunScore([]) == 0
  {
  }

  /** Row or column k of the grid. */
  ghost function Line(g: Grid, size: nat, down: bool, k: int): (line: seq<Cell>)
    requires g.Keys == Square(size) && 0 <= k < size
    ensures |line| == size
  {
    seq(size, i requires 0 <= i < size => if down then g[Pos(i, k)] else g[Pos(k, i)])
  }

  ghost function LinesScore(g: Grid, size: nat, down: bool, n: nat): nat
    requires g.Keys == Square(size) && n <= size
  {
    if n == 0 then 0 else LinesScore(g, size, down, n - 1) + RunScore(Line(g, size, down, n - 1))
  }

  // ---- counting positions row by row ----

  ghost function Before(s: set<Pos>, row: int, col: int): set<Pos> {
    set p <- s | p.row < row || (p.row == row && p.col < col)
  }

  lemma CountNone(s: set<Pos>)
    requires forall p <- s :: p.row >= 0 && p.col >= 0
    ensures |Before(s, 0, 0)| == 0
  {
    assert Before(s, 0, 0) == {};
  }

  lemma CountOne(s: set<Pos>, row: int, col: int)
    ensures |Before(s, row, col + 1)| == |Before(s, row, col)| + (if Pos(row, col) in s then 1 else 0)
  {
    if Pos(row, col) in s {
      assert Before(s, row, col + 1) == Before(s, row, col) + {Pos(row, col)};
    } else {
      assert Before(s, row, col + 1) == Before(s, row, col);
    }
  }

  lemma CountRow(s: set<Pos>, row: int, width: int)
    requires forall p <- s :: 0 <= p.col < width
    ensures Before(s, row, width) == Before(s, row + 1, 0)
  {
  }

  lemma CountAll(s: set<Pos>, height: int)
    requires forall p <- s :: p.row < height
    ensures Before(s, height, 0) == s
  {
  }

  // ---- blocks, patterns, balance ----

  /** The upper left cells of two by two blocks of one colour. */
  ghost function Blocks(g: Grid, size: nat): set<Pos>
    requires g.Keys == Square(size)
  {
    set p <- g.Keys | p.row < size - 1 && p.col < size - 1
                      && g[p] == g[Pos(p.row + 1, p.col)] == g[Pos(p.row, p.col + 1)]
                      && g[p] == g[Pos(p.row + 1, p.col + 1)]
  }

  const PATTERN := [true, false, true, true, true, false, true]

  /** Cells written one after the other with a separator in between, a null as nothing. */
  function Join(cells: seq<Cell>, separator: string): string {
    if cells == [] then ""
    else
      (match cells[0] case Null => "" case Module(dark) => if dark then "true" else "false") +
      (if |cells| > 1 then separator else "") + Join(cells[1..], separator)
  }

  /** What the code compares: cells joined with nothing in between. */
  function Joined(cells: seq<Cell>): string {
    Join(cells, "")
  }

  lemma JoinLast(cell: Cell, separator: string)
    ensures Join([cell], separator) == match cell case Null => "" case Module(dark) => if dark then "true" else "false"
  {
    assert [cell][1..] == [];
  }

  lemma JoinMore(cell: Cell, rest: seq<Cell>, separator: string)
    requires rest != []
    ensures Join([cell] + rest, separator)
         == (match cell case Null => "" case Module(dark) => if dark then "true" else "false") + separator
            + Join(rest, separator)
  {
    assert ([cell] + rest)[1..] == rest;
  }

  lemma {:induction false} NoComma(cells: seq<Cell>)
    ensures ',' !in Joined(cells)
    decreases |cells|
  {
    if cells != [] {
      NoComma(cells[1..]);
    }
  }

  ghost function Places(size: nat): set<Pos> {
    set p <- Square(size) | p.col < size - 6
  }

  /** Seven cells from a place on, across or down; a place down is given as column and row. */
  ghost function Stretch(g: Grid, size: nat, down: bool, p: Pos): (cells: seq<Cell>)
    requires g.Keys == Square(size) && p in Places(size)
    ensures |cells| == 7
  {
    seq(7, k requires 0 <= k < 7 => if down then g[Pos(p.col + k, p.row)] else g[Pos(p.row, p.col + k)])
  }

  /** Where the text of seven cells is the wanted one. */
  ghost function Matches(g: Grid, size: nat, down: bool): set<Pos>
    requires g.Keys == Square(size)
  {
    set p <- Places(size) | Joined(Stretch(g, size, down, p)) == "true,false,true,true,true,false,true"
  }

  /** Where seven cells are the pattern. */
  ghost function Found(g: Grid, size: nat, down: bool): set<Pos>
    requires g.Keys == Square(size)
  {
    set p <- Places(size) | forall k | 0 <= k < 7 :: Stretch(g, size, down, p)[k] == Module(PATTERN[k])
  }

  /** The comparison of the third rule fails everywhere, even on the pattern it looks for: the text
      has no commas. */
  lemma ThirdRuleNeverFires(g: Grid, size: nat, down: bool)
    requires g.Keys == Square(size)
    ensures Matches(g, size, down) == {}
  {
    assert "true,false,true,true,true,false,true"[4] == ',';
    forall p | p in Places(size) ensures Joined(Stretch(g, size, down, p)) != "true,false,true,true,true,false,true" {
      NoComma(Stretch(g, size, down, p));
    }
  }

  ghost function DarkCells(g: Grid): set<Pos> {
    set p <- g.Keys | g[p] == Module(true)
  }

  function Distance(a: int, b: int): nat {
    if a < b then b - a else a - b
  }

  function Balance(dark: nat, size: nat): nat
    requires size > 0
  {
    Distance(dark * 20, size * size * 10) / (size * size) * 10
  }

  /** Ten for every full five per cent by which the share of dark cells differs from one half. */
  lemma BalanceCountsSteps(dark: nat, size: nat, steps: nat)
    requires size > 0
    ensures var all := size * size;
            Balance(dark, size) == 10 * steps
            <==> 5 * steps * all <= (if 100 * dark >= 50 * all then 100 * dark - 50 * all else 50 * all - 100 * dark)
                 < 5 * (steps + 1) * all
  {
    hide Distance;
    QuotientIs(Distance(dark * 20, size * size * 10), size * size, steps);
    FiveTimes(dark, size * size, steps);
  }

  lemma QuotientIs(x: nat, d: nat, q: nat)
    requires d > 0
    ensures x / d == q <==> q * d <= x < (q + 1) * d
  {
    var k := x / d;
    Parts(x, d, k);
    Ordered(k + 1, q, d);
    Ordered(q + 1, k, d);
  }

  lemma Parts(x: nat, d: nat, k: nat)
    requires d > 0 && k == x / d
    ensures k * d <= x < (k + 1) * d
  {
    assert x == k * d + x % d;
    assert (k + 1) * d == k * d + d;
  }

  lemma Ordered(a: nat, b: nat, d: nat)
    ensures a <= b ==> a * d <= b * d
  {
    if a <= b {
      assert b * d == a * d + (b - a) * d;
    }
  }

  lemma FiveTimes(dark: nat, all: nat, steps: nat)
    ensures 5 * Distance(dark * 20, all * 10)
         == if 100 * dark >= 50 * all then 100 * dark - 50 * all else 50 * all - 100 * dark
    ensures 5 * (steps * all) == 5 * steps * all && 5 * ((steps + 1) * all) == 5 * (steps + 1) * all
  {
  }

  /** The penalty of a square of cells. */
  ghost function Total(g: Grid, size: nat): nat
    requires g.Keys == Square(size) && size > 0
  {
    LinesScore(g, size, false, size) + LinesScore(g, size, true, size) + 3 * |Blocks(g, size)|
    + 40 * (|Matches(g, size, false)| + |Matches(g, size, true)|) + Balance(|DarkCells(g)|, size)
  }

  /** The penalty with the third rule as it is meant. */
  ghost function Intended(g: Grid, size: nat): nat
    requires g.Keys == Square(size) && size > 0
  {
    LinesScore(g, size, false, size) + LinesScore(g, size, true, size) + 3 * |Blocks(g, size)|
    + 40 * (|Found(g, size, false)| + |Found(g, size, true)|) + Balance(|DarkCells(g)|, size)
  }

  /** The penalty is the one meant exactly when the pattern is nowhere. */
  lemma TotalIsIntendedExactlyWhen(g: Grid, size: nat)
    requires g.Keys == Square(size) && size > 0
    ensures Total(g, size) == Intended(g, size) <==> Found(g, size, false) == {} == Found(g, size, true)
    ensures Intended(g, size) == Total(g, size) + 40 * (|Found(g, size, false)| + |Found(g, size, true)|)
  {
    hide LinesScore, Blocks, Matches, Found, DarkCells, Balance;
    ThirdRuleNeverFires(g, size, false);
    ThirdRuleNeverFires(g, size, true);
  }

  // ---- the loops ----

  predicate Shaped(modules: array2<Cell>) {
    modules.Length0 == modules.Length1 > 0
  }

  method ScoreLine(modules: array2<Cell>, down: bool, line: nat) returns (score: nat)
    requires Shaped(modules) && line < modules.Length0
    ensures score == RunScore(Line(GridOf(modules), modules.Length0, down, line))
  {
    hide RunScore, GridOf;
    var size := modules.Length0;
    ghost var cells := Line(GridOf(modules), size, down, line);
    forall i | 0 <= i < size ensures cells[i] == if down then modules[i, line] else modules[line, i] {
      GridAt(modules, if down then i else line, if down then line else i);
    }
    score := 0;
    var run := 1;
    OneCell(cells);
    for i := 1 to size
      invariant run == LastRun(cells[..i]) && score == RunScore(cells[..i])
    {
      var current := if down then modules[i, line] else modules[line, i];
      var previous := if down then modules[i - 1, line] else modules[line, i - 1];
      OneCellMore(cells[..i], cells[i]);
      assert cells[..i] + [cells[i]] == cells[..i + 1] && cells[..i + 1][..i] == cells[..i];
      run := if current == previous then run + 1 else 1;
      if run == 5 {
        score := score + 3;
      } else if run > 5 {
        score := score + 1;
      }
    }
    assert cells[..size] == cells;
  }

  lemma OneCell(cells: seq<Cell>)
    requires cells != []
    ensures RunScore(cells[..1]) == 0 && LastRun(cells[..1]) == 1
  {
    FirstRunIs(cells[..1], 1);
  }

  method ScoreRuns(modules: array2<Cell>) returns (score: nat)
    requires Shaped(modules)
    ensures score == LinesScore(GridOf(modules), modules.Length0, false, modules.Length0)
                     + LinesScore(GridOf(modules), modules.Length0, true, modules.Length0)
  {
    hide GridOf, RunScore, Line;
    score := 0;
    for pass := 0 to 2
      invariant score == (if pass > 0 then LinesScore(GridOf(modules), modules.Length0, false, modules.Length0) else 0)
                         + (if pass > 1 then LinesScore(GridOf(modules), modules.Length0, true, modules.Length0) else 0)
    {
      ghost var before := score;
      for line := 0 to modules.Length0
        invariant score == before + LinesScore(GridOf(modules), modules.Length0, pass == 1, line)
      {
        var one := ScoreLine(modules, pass == 1, line);
        score := score + one;
      }
    }
  }

  method ScoreBlocks(modules: array2<Cell>) returns (score: nat)
    requires Shaped(modules)
    ensures score == 3 * |Blocks(GridOf(modules), modules.Length0)|
  {
    hide GridOf, Before, Blocks;
    var size := modules.Length0;
    ghost var s := Blocks(GridOf(modules), size);
    BlocksInside(GridOf(modules), size);
    CountNone(s);
    score := 0;
    for row := 0 to size - 1
      invariant score == 3 * |Before(s, row, 0)|
    {
      for col := 0 to size - 1
        invariant score == 3 * |Before(s, row, col)|
      {
        BlockAt(modules, row, col);
        CountOne(s, row, col);
        if modules[row, col] == modules[row + 1, col] && modules[row, col] == modules[row, col + 1]
           && modules[row, col] == modules[row + 1, col + 1] {
          score := score + 3;
        }
      }
      CountRow(s, row, size - 1);
    }
    CountAll(s, size - 1);
  }

  lemma BlocksInside(g: Grid, size: nat)
    requires g.Keys == Square(size)
    ensures forall p <- Blocks(g, size) :: 0 <= p.row < size - 1 && 0 <= p.col < size - 1
  {
  }

  lemma BlockAt(modules: array2<Cell>, row: int, col: int)
    requires Shaped(modules) && 0 <= row < modules.Length0 - 1 && 0 <= col < modules.Length0 - 1
    ensures Pos(row, col) in Blocks(GridOf(modules), modules.Length0)
       <==> modules[row, col] == modules[row + 1, col] == modules[row, col + 1]
            && modules[row, col] == modules[row + 1, col + 1]
  {
    hide GridOf;
    GridAt(modules, row, col);
    GridAt(modules, row + 1, col);
    GridAt(modules, row, col + 1);
    GridAt(modules, row + 1, col + 1);
  }

  /** The third rule: 40 for each stretch whose text is the wanted one, across and down. */
  method ScorePatterns(modules: array2<Cell>) returns (score: nat)
    requires Shaped(modules)
    ensures score == 40 * (|Matches(GridOf(modules), modules.Length0, false)|
                           + |Matches(GridOf(modules), modules.Length0, true)|)
  {
    hide GridOf, Before, Matches, Joined;
    var size := modules.Length0;
    ghost var g := GridOf(modules);
    ghost var across, downward := Matches(g, size, false), Matches(g, size, true);
    MatchesInside(g, size);
    CountNone(across);
    CountNone(downward);
    score := 0;
    for row := 0 to size
      invariant score == 40 * (|Before(across, row, 0)| + |Before(downward, row, 0)|)
    {
      var col := 0;
      while col < size - 6
        invariant 0 <= col && (size >= 6 ==> col <= size - 6) && (size < 6 ==> col == 0)
        invariant score == 40 * (|Before(across, row, col)| + |Before(downward, row, col)|)
      {
        CountOne(across, row, col);
        CountOne(downward, row, col);
        var a := seq(7, k requires 0 <= k < 7 reads modules => modules[row, col + k]);
        MatchAt(modules, false, row, col, a);
        if Joined(a) == "true,false,true,true,true,false,true" {
          score := score + 40;
        }
        var b := seq(7, k requires 0 <= k < 7 reads modules => modules[col + k, row]);
        MatchAt(modules, true, row, col, b);
        if Joined(b) == "true,false,true,true,true,false,true" {
          score := score + 40;
        }
        col := col + 1;
      }
      RowIsDone(across, row, col, size - 6);
      RowIsDone(downward, row, col, size - 6);
    }
    CountAll(across, size);
    CountAll(downward, size);
  }

  lemma MatchesInside(g: Grid, size: nat)
    requires g.Keys == Square(size)
    ensures forall p <- Matches(g, size, false) :: 0 <= p.row < size && 0 <= p.col < size - 6
    ensures forall p <- Matches(g, size, true) :: 0 <= p.row < size && 0 <= p.col < size - 6
  {
  }

  lemma RowIsDone(s: set<Pos>, row: int, col: int, width: int)
    requires (forall p <- s :: 0 <= p.col < width) && col >= width
    ensures Before(s, row, col) == Before(s, row + 1, 0)
  {
  }

  lemma MatchAt(modules: array2<Cell>, down: bool, row: int, col: int, cells: seq<Cell>)
    requires Shaped(modules) && 0 <= row < modules.Length0 && 0 <= col < modules.Length0 - 6
    requires |cells| == 7
    requires forall k | 0 <= k < 7 :: cells[k] == if down then modules[col + k, row] else modules[row, col + k]
    ensures Pos(row, col) in Matches(GridOf(modules), modules.Length0, down)
       <==> Joined(cells) == "true,false,true,true,true,false,true"
  {
    hide GridOf, Joined;
    forall k | 0 <= k < 7 ensures (if down then Pos(col + k, row) else Pos(row, col + k)) in GridOf(modules)
      ensures GridOf(modules)[if down then Pos(col + k, row) else Pos(row, col + k)] == cells[k]
    {
      GridAt(modules, if down then col + k else row, if down then row else col + k);
    }
    assert Pos(row, col) in Places(modules.Length0);
    assert Stretch(GridOf(modules), modules.Length0, down, Pos(row, col)) == cells;
  }

  method CountDark(modules: array2<Cell>) returns (dark: nat)
    requires Shaped(modules)
    ensures dark == |DarkCells(GridOf(modules))|
  {
    hide GridOf, Before, DarkCells;
    var size := modules.Length0;
    ghost var s := DarkCells(GridOf(modules));
    DarkInside(GridOf(modules), size);
    CountNone(s);
    dark := 0;
    for row := 0 to size
      invariant dark == |Before(s, row, 0)|
    {
      for col := 0 to size
        invariant dark == |Before(s, row, col)|
      {
        DarkAt(modules, row, col);
        CountOne(s, row, col);
        if modules[row, col] == Module(true) {
          dark := dark + 1;
        }
      }
      CountRow(s, row, size);
    }
    CountAll(s, size);
  }

  lemma DarkInside(g: Grid, size: nat)
    requires g.Keys == Square(size)
    ensures forall p <- DarkCells(g) :: 0 <= p.row < size && 0 <= p.col < size
  {
  }

  lemma DarkAt(modules: array2<Cell>, row: int, col: int)
    requires Shaped(modules) && 0 <= row < modules.Length0 && 0 <= col < modules.Length0
    ensures Pos(row, col) in DarkCells(GridOf(modules)) <==> modules[row, col] == Module(true)
  {
    hide GridOf;
    GridAt(modules, row, col);
  }

  /** The whole function. */
  method Penalty(modules: array2<Cell>) returns (score: nat)
    requires Shaped(modules)
    ensures score == Total(GridOf(modules), modules.Length0)
  {
    hide LinesScore, Blocks, Matches, DarkCells, Balance, GridOf;
    var size := modules.Length0;
    var runs := ScoreRuns(modules);
    var blocks := ScoreBlocks(modules);
    var patterns := ScorePatterns(modules);
    var dark := CountDark(modules);
    score := runs + blocks + patterns + Balance(dark, size);
  }
}
