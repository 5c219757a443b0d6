/** The symbol: function patterns, format and version bits, and the data area. */
module Matrix {
  import opened Bits
  import opened ZigZag
  import B = Bch

  const ALIGNMENT: seq<seq<nat>> := [
    [], [6, 18], [6, 22], [6, 26], [6, 30], [6, 34],
    [6, 22, 38], [6, 24, 42], [6, 26, 46], [6, 28, 50]]

  function Size(version: nat): nat {
    version * 4 + 17
  }

  // ---- painting rectangles ----

  ghost function Rect(r0: int, r1: int, c0: int, c1: int): set<Pos> {
    set r: int, c: int | r0 <= r < r1 && c0 <= c < c1 :: Pos(r, c)
  }

  datatype Pattern = Finder(row: int, col: int) | Timing | Alignment(row: int, col: int)

  function Abs(x: int): int {
    if x < 0 then -x else x
  }

  /** The colour a pattern gives to a cell of its area. */
  function Dark(pattern: Pattern, p: Pos): bool {
    match pattern
    case Finder(row, col) =>
      var r, c := p.row - row, p.col - col;
      0 <= r <= 6 && 0 <= c <= 6 && (r == 0 || r == 6 || c == 0 || c == 6 || (2 <= r <= 4 && 2 <= c <= 4))
    case Timing => if p.row == 6 then p.col % 2 == 0 else p.row % 2 == 0
    case Alignment(row, col) =>
      var r, c := p.row - row, p.col - col;
      Abs(r) == 2 || Abs(c) == 2 || (r == 0 && c == 0)
  }

  /** A grid with a pattern painted over an area. */
  ghost function Paint(g: Grid, area: set<Pos>, pattern: Pattern): (h: Grid)
    ensures h.Keys == g.Keys
  {
    map p <- g.Keys :: if p in area then Module(Dark(pattern, p)) else g[p]
  }

  /** Writing one cell; positions outside the symbol are ignored. */
  ghost function SetIn(g: Grid, p: Pos, dark: bool): (h: Grid)
    ensures h.Keys == g.Keys
  {
    if p in g then g[p := Module(dark)] else g
  }

  lemma PaintOne(g: Grid, area: set<Pos>, pattern: Pattern, p: Pos)
    ensures SetIn(Paint(g, area, pattern), p, Dark(pattern, p)) == Paint(g, area + {p}, pattern)
  {
  }

  lemma PaintNone(g: Grid, pattern: Pattern)
    ensures Paint(g, {}, pattern) == g
  {
  }

  lemma RectGrows(r0: int, r1: int, c0: int, c1: int)
    requires r0 <= r1 && c0 <= c1
    ensures Rect(r0, r1 + 1, c0, c1) == Rect(r0, r1, c0, c1) + Rect(r1, r1 + 1, c0, c1)
    ensures Rect(r0, r0 + 1, c0, c1 + 1) == Rect(r0, r0 + 1, c0, c1) + {Pos(r0, c1)}
    ensures Rect(r0, r1 + 1, c0, c0 + 1) == Rect(r0, r1, c0, c0 + 1) + {Pos(r1, c0)}
    ensures Rect(r0, r0, c0, c1) == {} && Rect(r0, r1, c0, c0) == {}
  {
  }

  ghost predicate Shaped(modules: array2<Cell>) {
    modules.Length0 == modules.Length1
  }

  method Set(modules: array2<Cell>, row: int, col: int, dark: bool)
    requires Shaped(modules)
    modifies modules
    ensures GridOf(modules) == SetIn(old(GridOf(modules)), Pos(row, col), dark)
  {
    if row >= 0 && row < modules.Length0 && col >= 0 && col < modules.Length0 {
      GridAt(modules, row, col);
      Write(modules, row, col, Module(dark));
    }
  }

  /** The two nested loops of a square pattern around a centre or corner. */
  method PaintSquare(modules: array2<Cell>, row: int, col: int, from: int, to: int, pattern: Pattern)
    requires Shaped(modules) && from <= to
    requires pattern == Finder(row, col) || pattern == Alignment(row, col)
    modifies modules
    ensures GridOf(modules) == Paint(old(GridOf(modules)), Rect(row + from, row + to, col + from, col + to), pattern)
  {
    hide GridOf, Paint, SetIn, Rect, Dark;
    ghost var before := GridOf(modules);
    PaintNone(before, pattern);
    RectGrows(row + from, row + from, col + from, col + to);
    for r := from to to
      invariant GridOf(modules) == Paint(before, Rect(row + from, row + r, col + from, col + to), pattern)
    {
      ghost var above := Rect(row + from, row + r, col + from, col + to);
      RectGrows(row + r, row + r + 1, col + from, col + from);
      assert above + Rect(row + r, row + r + 1, col + from, col + from) == above;
      for c := from to to
        invariant GridOf(modules)
               == Paint(before, above + Rect(row + r, row + r + 1, col + from, col + c), pattern)
      {
        ghost var area := above + Rect(row + r, row + r + 1, col + from, col + c);
        PaintOne(before, area, pattern, Pos(row + r, col + c));
        RectGrows(row + r, row + r, col + from, col + c);
        assert area + {Pos(row + r, col + c)} == above + Rect(row + r, row + r + 1, col + from, col + c + 1);
        Set(modules, row + r, col + c, Dark(pattern, Pos(row + r, col + c)));
      }
      RectGrows(row + from, row + r, col + from, col + to);
    }
  }

  ghost function TimingArea(from: int, to: int): set<Pos> {
    Rect(6, 7, from, to) + Rect(from, to, 6, 7)
  }

  method PaintTiming(modules: array2<Cell>)
    requires Shaped(modules) && modules.Length0 >= 17
    modifies modules
    ensures GridOf(modules) == Paint(old(GridOf(modules)), TimingArea(8, modules.Length0 - 8), Timing)
  {
    hide GridOf, Paint, SetIn, Rect;
    var size := modules.Length0;
    ghost var before := GridOf(modules);
    PaintNone(before, Timing);
    RectGrows(6, 7, 8, 8);
    RectGrows(8, 8, 6, 7);
    assert TimingArea(8, 8) == {};
    for i := 8 to size - 8
      invariant GridOf(modules) == Paint(before, TimingArea(8, i), Timing)
    {
      PaintOne(before, TimingArea(8, i), Timing, Pos(6, i));
      PaintOne(before, TimingArea(8, i) + {Pos(6, i)}, Timing, Pos(i, 6));
      RectGrows(6, 7, 8, i);
      RectGrows(8, i, 6, 7);
      assert TimingArea(8, i) + {Pos(6, i)} + {Pos(i, 6)} == TimingArea(8, i + 1);
      Set(modules, 6, i, i % 2 == 0);
      Set(modules, i, 6, i % 2 == 0);
    }
  }

  // ---- alignment patterns ----

  ghost function AlignmentArea(row: int, col: int): set<Pos> {
    Rect(row - 2, row + 3, col - 2, col + 3)
  }

  /** A centre that is already covered is skipped. */
  ghost function WithAlignment(g: Grid, row: int, col: int): (h: Grid)
    ensures h.Keys == g.Keys
  {
    if Pos(row, col) in g && g[Pos(row, col)] != Null then g
    else Paint(g, AlignmentArea(row, col), Alignment(row, col))
  }

  ghost function WithAlignmentRow(g: Grid, row: int, cols: seq<nat>): (h: Grid)
    ensures h.Keys == g.Keys
  {
    if cols == [] then g
    else WithAlignment(WithAlignmentRow(g, row, cols[..|cols| - 1]), row, cols[|cols| - 1])
  }

  ghost function WithAlignments(g: Grid, rows: seq<nat>, cols: seq<nat>): (h: Grid)
    ensures h.Keys == g.Keys
  {
    if rows == [] then g
    else WithAlignmentRow(WithAlignments(g, rows[..|rows| - 1], cols), rows[|rows| - 1], cols)
  }

  predicate CentresFit(centres: seq<nat>, size: nat) {
    forall c <- centres :: c < size
  }

  method PaintAlignments(modules: array2<Cell>, centres: seq<nat>)
    requires Shaped(modules) && CentresFit(centres, modules.Length0)
    modifies modules
    ensures GridOf(modules) == WithAlignments(old(GridOf(modules)), centres, centres)
  {
    hide GridOf, Paint, SetIn, Rect, Dark;
    ghost var before := GridOf(modules);
    for i := 0 to |centres|
      invariant GridOf(modules) == WithAlignments(before, centres[..i], centres)
    {
      var row := centres[i];
      assert row in centres;
      ghost var above := GridOf(modules);
      for j := 0 to |centres|
        invariant GridOf(modules) == WithAlignmentRow(above, row, centres[..j])
      {
        var col := centres[j];
        assert col in centres;
        assert centres[..j + 1][..j] == centres[..j];
        GridAt(modules, row, col);
        if modules[row, col] == Null {
          PaintSquare(modules, row, col, -2, 3, Alignment(row, col));
        }
      }
      assert centres[..|centres|] == centres;
      assert centres[..i + 1][..i] == centres[..i];
    }
    assert centres[..|centres|] == centres;
  }

  // ---- format and version bits ----

  function FormatA(size: nat, i: nat): Pos {
    Pos(if i < 6 then i else if i < 8 then i + 1 else size - 15 + i, 8)
  }

  function FormatB(size: nat, i: nat): Pos {
    Pos(8, if i < 8 then size - i - 1 else if i < 9 then 15 - i else 14 - i)
  }

  ghost function WithFormat(g: Grid, size: nat, word: nat, n: nat): (h: Grid)
    ensures h.Keys == g.Keys
  {
    if n == 0 then g
    else
      SetIn(SetIn(WithFormat(g, size, word, n - 1), FormatA(size, n - 1), Bit(word, n - 1)),
            FormatB(size, n - 1), Bit(word, n - 1))
  }

  function VersionA(size: nat, i: nat): Pos {
    Pos(i / 3, size - 11 + i % 3)
  }

  function VersionB(size: nat, i: nat): Pos {
    Pos(size - 11 + i % 3, i / 3)
  }

  ghost function WithVersion(g: Grid, size: nat, word: nat, n: nat): (h: Grid)
    ensures h.Keys == g.Keys
  {
    if n == 0 then g
    else
      SetIn(SetIn(WithVersion(g, size, word, n - 1), VersionA(size, n - 1), Bit(word, n - 1)),
            VersionB(size, n - 1), Bit(word, n - 1))
  }

  method SetFormat(modules: array2<Cell>, mask: nat)
    requires Shaped(modules)
    modifies modules
    ensures GridOf(modules) == WithFormat(old(GridOf(modules)), modules.Length0, B.FormatWord(mask), 15)
  {
    hide GridOf, SetIn, Bit, B.Remainder, B.ShiftLeft, B.Xor, B.Or;
    var size := modules.Length0;
    var data := B.ShiftLeft(8 + mask, 10);
    var check := B.Bch(data, 0x537);
    var format := B.Or(data, B.Xor(check, 0x5412));
    ghost var before := GridOf(modules);
    for i := 0 to 15
      invariant GridOf(modules) == WithFormat(before, size, format, i)
    {
      var bit := Bit(format, i);
      Set(modules, if i < 6 then i else if i < 8 then i + 1 else size - 15 + i, 8, bit);
      Set(modules, 8, if i < 8 then size - i - 1 else if i < 9 then 15 - i else 14 - i, bit);
    }
  }

  method SetVersion(modules: array2<Cell>, version: nat)
    requires Shaped(modules)
    modifies modules
    ensures GridOf(modules) == WithVersion(old(GridOf(modules)), modules.Length0, B.VersionWord(version), 18)
  {
    hide GridOf, SetIn, Bit, B.Remainder, B.ShiftLeft, B.Xor, B.Or;
    var size := modules.Length0;
    var data := B.ShiftLeft(version, 12);
    var check := B.Bch(data, 0x1f25);
    var number := B.Or(data, check);
    ghost var before := GridOf(modules);
    for i := 0 to 18
      invariant GridOf(modules) == WithVersion(before, size, number, i)
    {
      var bit := Bit(number, i);
      Set(modules, i / 3, size - 11 + i % 3, bit);
      Set(modules, size - 11 + i % 3, i / 3, bit);
    }
  }

  // ---- the function pattern and the symbol ----

  ghost function Empty(size: nat): (g: Grid)
    ensures g.Keys == Square(size)
  {
    map p <- Square(size) :: Null
  }

  /** The three finders with their separators, and the timing lines. */
  ghost function Frame(size: nat): (g: Grid)
    ensures g.Keys == Square(size)
  {
    var a := Paint(Empty(size), Rect(-1, 8, -1, 8), Finder(0, 0));
    var b := Paint(a, Rect(size - 8, size + 1, -1, 8), Finder(size - 7, 0));
    var c := Paint(b, Rect(-1, 8, size - 8, size + 1), Finder(0, size - 7));
    Paint(c, TimingArea(8, size - 8), Timing)
  }

  ghost function FunctionGrid(version: nat, mask: nat): (g: Grid)
    requires 1 <= version <= 10
    ensures g.Keys == Square(Size(version))
  {
    var size := Size(version);
    var aligned := WithAlignments(Frame(size), ALIGNMENT[version - 1], ALIGNMENT[version - 1]);
    var formatted := SetIn(WithFormat(aligned, size, B.FormatWord(mask), 15), Pos(size - 8, 8), true);
    if version >= 7 then WithVersion(formatted, size, B.VersionWord(version), 18) else formatted
  }

  /** The cells left for data, in the order they are filled. */
  ghost function DataCells(version: nat, mask: nat): seq<Pos>
    requires 1 <= version <= 10
  {
    Free(WholePath(Size(version)), Open(FunctionGrid(version, mask)))
  }

  method PaintFrame(modules: array2<Cell>)
    requires Shaped(modules) && modules.Length0 >= 17
    requires GridOf(modules) == Empty(modules.Length0)
    modifies modules
    ensures GridOf(modules) == Frame(modules.Length0)
  {
    hide GridOf, Paint, Rect, Dark, Empty;
    var size := modules.Length0;
    PaintSquare(modules, 0, 0, -1, 8, Finder(0, 0));
    PaintSquare(modules, size - 7, 0, -1, 8, Finder(size - 7, 0));
    PaintSquare(modules, 0, size - 7, -1, 8, Finder(0, size - 7));
    PaintTiming(modules);
  }

  lemma CentresInside(version: nat)
    requires 1 <= version <= 10
    ensures CentresFit(ALIGNMENT[version - 1], Size(version))
  {
    var centres := ALIGNMENT[version - 1];
    assert |centres| <= 3;
    assert |centres| > 0 ==> centres[0] == 6;
    assert |centres| > 1 ==> centres[1] < Size(version);
    assert |centres| > 2 ==> centres[2] < Size(version);
  }

  /** The matrix the encoder builds for one mask. */
  method MakeMatrix(version: nat, words: seq<Byte>, mask: nat) returns (modules: array2<Cell>)
    requires 1 <= version <= 10
    ensures fresh(modules) && Shaped(modules) && modules.Length0 == Size(version)
    ensures Inside(DataCells(version, mask))
    ensures GridOf(modules) == Placed(FunctionGrid(version, mask), DataCells(version, mask), words, mask)
  {
    hide GridOf, Paint, SetIn, Rect, Dark, Frame, WithAlignments, WithFormat, WithVersion, Placed, Free, Open,
      WholePath, Inside, B.FormatWord, B.VersionWord;
    var size := version * 4 + 17;
    modules := NewModules(size);
    PaintFrame(modules);
    CentresInside(version);
    PaintAlignments(modules, ALIGNMENT[version - 1]);
    SetFormat(modules, mask);
    Set(modules, size - 8, 8, true);
    if version >= 7 {
      SetVersion(modules, version);
    }
    PlaceData(modules, words, mask);
  }

  method NewModules(size: nat) returns (modules: array2<Cell>)
    ensures fresh(modules) && Shaped(modules) && modules.Length0 == size
    ensures GridOf(modules) == Empty(size)
  {
    modules := new Cell[size, size]((r, c) => Null);
  }
}
