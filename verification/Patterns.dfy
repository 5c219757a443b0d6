/** Which function patterns stand in the finished symbol: all finders and timing lines always, and
    exactly the alignment patterns not centred on row or column 6. */
module Patterns {
  import opened Bits
  import opened ZigZag
  import opened Matrix
  import S = Symbol
  import B = Bch
  import Penalty

  ghost function Aligned(version: nat): (g: Grid)
    requires 1 <= version <= 10
    ensures g.Keys == Square(Size(version))
  {
    WithAlignments(Frame(Size(version)), ALIGNMENT[version - 1], ALIGNMENT[version - 1])
  }

  // ---- the loop over the centres, unrolled ----

  lemma RowAppend(g: Grid, row: int, cols: seq<nat>, c: nat)
    ensures WithAlignmentRow(g, row, cols + [c]) == WithAlignment(WithAlignmentRow(g, row, cols), row, c)
    ensures WithAlignmentRow(g, row, []) == g
  {
    assert (cols + [c])[..|cols|] == cols;
  }

  lemma RowsAppend(g: Grid, rows: seq<nat>, r: nat, cols: seq<nat>)
    ensures WithAlignments(g, rows + [r], cols) == WithAlignmentRow(WithAlignments(g, rows, cols), r, cols)
    ensures WithAlignments(g, [], cols) == g
  {
    assert (rows + [r])[..|rows|] == rows;
  }

  lemma RowOfTwo(g: Grid, row: int, a: nat, b: nat)
    ensures WithAlignmentRow(g, row, [a, b]) == WithAlignment(WithAlignment(g, row, a), row, b)
  {
    hide WithAlignmentRow, WithAlignment;
    RowAppend(g, row, [], a);
    RowAppend(g, row, [a], b);
    assert [] + [a] == [a] && [a] + [b] == [a, b];
  }

  lemma RowOfThree(g: Grid, row: int, a: nat, b: nat, c: nat)
    ensures WithAlignmentRow(g, row, [a, b, c])
         == WithAlignment(WithAlignment(WithAlignment(g, row, a), row, b), row, c)
  {
    hide WithAlignmentRow, WithAlignment;
    RowOfTwo(g, row, a, b);
    RowAppend(g, row, [a, b], c);
    assert [a, b] + [c] == [a, b, c];
  }

  lemma RowsOfTwo(g: Grid, a: nat, b: nat, cols: seq<nat>)
    ensures WithAlignments(g, [a, b], cols) == WithAlignmentRow(WithAlignmentRow(g, a, cols), b, cols)
  {
    hide WithAlignments, WithAlignmentRow;
    RowsAppend(g, [], a, cols);
    RowsAppend(g, [a], b, cols);
    assert [] + [a] == [a] && [a] + [b] == [a, b];
  }

  lemma RowsOfThree(g: Grid, a: nat, b: nat, c: nat, cols: seq<nat>)
    ensures WithAlignments(g, [a, b, c], cols)
         == WithAlignmentRow(WithAlignmentRow(WithAlignmentRow(g, a, cols), b, cols), c, cols)
  {
    hide WithAlignments, WithAlignmentRow;
    RowsOfTwo(g, a, b, cols);
    RowsAppend(g, [a, b], c, cols);
    assert [a, b] + [c] == [a, b, c];
  }

  lemma Skipped(g: Grid, row: int, col: int)
    requires Pos(row, col) in S.Closed(g)
    ensures WithAlignment(g, row, col) == g
  {
  }

  lemma Painted(g: Grid, row: int, col: int)
    requires Pos(row, col) !in S.Closed(g)
    ensures WithAlignment(g, row, col) == Paint(g, AlignmentArea(row, col), Alignment(row, col))
    ensures S.Closed(WithAlignment(g, row, col)) == S.Closed(g) + AlignmentArea(row, col) * g.Keys
  {
    S.ClosedPaint(g, AlignmentArea(row, col), Alignment(row, col));
  }

  /** The middle centre of versions 7 to 10 and the last centre of every version. */
  ghost function Middle(version: nat): nat
    requires 7 <= version <= 10
  {
    ALIGNMENT[version - 1][1]
  }

  ghost function LastCentre(version: nat): nat {
    Size(version) - 7
  }

  lemma Centres(version: nat)
    requires 2 <= version <= 10
    ensures version < 7 ==> ALIGNMENT[version - 1] == [6, LastCentre(version)]
    ensures version >= 7 ==>
              && ALIGNMENT[version - 1] == [6, Middle(version), LastCentre(version)]
              && 22 <= Middle(version) <= Size(version) - 23 && Middle(version) + 16 <= LastCentre(version)
  {
  }

  lemma OneAlignment(version: nat)
    requires 2 <= version <= 6
    ensures var n := LastCentre(version);
            Aligned(version) == Paint(Frame(Size(version)), AlignmentArea(n, n), Alignment(n, n))
  {
    hide Frame, WithAlignment, WithAlignments, WithAlignmentRow, Paint, Rect, S.Closed;
    var size, n := Size(version), LastCentre(version);
    var f := Frame(size);
    Centres(version);
    S.FrameClosed(size);
    RowsOfTwo(f, 6, n, [6, n]);
    RowOfTwo(f, 6, 6, n);
    RowOfTwo(f, n, 6, n);
    FrameCentres(size, n);
    Skipped(f, 6, 6);
    Skipped(f, 6, n);
    Skipped(f, n, 6);
    Painted(f, n, n);
  }

  lemma FrameCentres(size: nat, n: nat)
    requires size >= 21 && n == size - 7
    ensures Pos(6, 6) in S.FrameArea(size) && Pos(6, n) in S.FrameArea(size) && Pos(n, 6) in S.FrameArea(size)
    ensures Pos(n, n) !in S.FrameArea(size)
  {
  }

  lemma MiddleCentres(size: nat, m: nat, n: nat)
    requires 22 <= m && m + 16 <= n == size - 7
    ensures Pos(6, m) in S.FrameArea(size) && Pos(m, 6) in S.FrameArea(size)
    ensures Pos(m, m) !in S.FrameArea(size) && Pos(m, n) !in S.FrameArea(size) && Pos(n, m) !in S.FrameArea(size)
    ensures Pos(m, n) !in AlignmentArea(m, m)
    ensures Pos(n, m) !in AlignmentArea(m, m) + AlignmentArea(m, n)
    ensures Pos(n, n) !in AlignmentArea(m, m) + AlignmentArea(m, n) + AlignmentArea(n, m)
    ensures Pos(n, 6) !in AlignmentArea(m, m)
  {
  }

  ghost function FourAlignments(f: Grid, m: nat, n: nat): Grid {
    var a := Paint(f, AlignmentArea(m, m), Alignment(m, m));
    var b := Paint(a, AlignmentArea(m, n), Alignment(m, n));
    var c := Paint(b, AlignmentArea(n, m), Alignment(n, m));
    Paint(c, AlignmentArea(n, n), Alignment(n, n))
  }

  lemma FirstRowSkipped(version: nat)
    requires 7 <= version <= 10
    ensures var m, n := Middle(version), LastCentre(version);
            WithAlignmentRow(Frame(Size(version)), 6, [6, m, n]) == Frame(Size(version))
  {
    hide Frame, WithAlignment, WithAlignmentRow, Rect, S.Closed;
    var size, m, n := Size(version), Middle(version), LastCentre(version);
    var f := Frame(size);
    Centres(version);
    S.FrameClosed(size);
    FrameCentres(size, n);
    MiddleCentres(size, m, n);
    RowOfThree(f, 6, 6, m, n);
    Skipped(f, 6, 6);
    Skipped(f, 6, m);
    Skipped(f, 6, n);
  }

  lemma MiddleRow(size: nat, m: nat, n: nat)
    requires size >= 21 && 22 <= m && m + 16 <= n == size - 7
    ensures var f := Frame(size);
            var b := Paint(Paint(f, AlignmentArea(m, m), Alignment(m, m)), AlignmentArea(m, n), Alignment(m, n));
            && WithAlignmentRow(f, m, [6, m, n]) == b
            && S.Closed(b) <= S.FrameArea(size) + AlignmentArea(m, m) + AlignmentArea(m, n)
            && S.FrameArea(size) <= S.Closed(b)
  {
    hide Frame, WithAlignment, WithAlignmentRow, Rect, S.Closed, Paint, S.FrameArea, AlignmentArea;
    var f := Frame(size);
    var a := Paint(f, AlignmentArea(m, m), Alignment(m, m));
    S.FrameClosed(size);
    MiddleCentres(size, m, n);
    RowOfThree(f, m, 6, m, n);
    Skipped(f, m, 6);
    Painted(f, m, m);
    Painted(a, m, n);
  }

  lemma FourPainted(version: nat)
    requires 7 <= version <= 10
    ensures Aligned(version) == FourAlignments(Frame(Size(version)), Middle(version), LastCentre(version))
  {
    hide Frame, WithAlignment, WithAlignments, WithAlignmentRow, Rect, S.Closed, Paint, S.FrameArea, AlignmentArea,
      Middle, LastCentre;
    var size, m, n := Size(version), Middle(version), LastCentre(version);
    var f := Frame(size);
    Centres(version);
    LastIs(version);
    RowsOfThree(f, 6, m, n, [6, m, n]);
    FirstRowSkipped(version);
    MiddleRow(size, m, n);
    var b := WithAlignmentRow(f, m, [6, m, n]);
    FrameCentres(size, n);
    MiddleCentres(size, m, n);
    RowOfThree(b, n, 6, m, n);
    Skipped(b, n, 6);
    Painted(b, n, m);
    Painted(WithAlignment(b, n, m), n, n);
  }

  lemma LastIs(version: nat)
    ensures LastCentre(version) == Size(version) - 7
  {
  }

  // ---- the cells of the finished function pattern ----

  /** The centre (row, col) is painted: it is in the table and not on row or column 6. */
  predicate PaintedCentre(version: nat, row: int, col: int)
    requires 1 <= version <= 10
  {
    row in ALIGNMENT[version - 1] && col in ALIGNMENT[version - 1] && row != 6 && col != 6
  }

  lemma PaintedCentres(version: nat, row: int, col: int)
    requires 1 <= version <= 10 && PaintedCentre(version, row, col)
    ensures version >= 2 && (row == LastCentre(version) || (version >= 7 && row == Middle(version)))
    ensures col == LastCentre(version) || (version >= 7 && col == Middle(version))
  {
    if version >= 2 {
      Centres(version);
    }
  }

  /** Cells of painted patterns have their colour, all other cells are as in the frame. */
  lemma AlignedCell(version: nat, p: Pos)
    requires 1 <= version <= 10 && p in Square(Size(version))
    ensures forall row, col | PaintedCentre(version, row, col) && p in AlignmentArea(row, col) ::
              Aligned(version)[p] == Module(Dark(Alignment(row, col), p))
    ensures (forall row, col | PaintedCentre(version, row, col) :: p !in AlignmentArea(row, col)) ==>
              Aligned(version)[p] == Frame(Size(version))[p]
  {
    hide Frame, Dark, Aligned;
    if version == 1 {
      NoAlignment();
    } else {
      Centres(version);
      var n := LastCentre(version);
      if version < 7 {
        OneAlignment(version);
        assert PaintedCentre(version, n, n);
      } else {
        var m := Middle(version);
        FourPainted(version);
        assert PaintedCentre(version, m, m) && PaintedCentre(version, m, n);
        assert PaintedCentre(version, n, m) && PaintedCentre(version, n, n);
      }
    }
    forall row, col | PaintedCentre(version, row, col) && p in AlignmentArea(row, col)
      ensures Aligned(version)[p] == Module(Dark(Alignment(row, col), p))
    {
      PaintedCentres(version, row, col);
    }
  }

  lemma NoAlignment()
    ensures Aligned(1) == Frame(Size(1))
  {
  }

  lemma {:induction false} FormatMisses(g: Grid, size: nat, word: nat, n: nat, p: Pos)
    requires size >= 21 && n <= 15 && p in g
    requires p.row == 6 || p.col == 6 || (p.row != 8 && p.col != 8)
    ensures WithFormat(g, size, word, n)[p] == g[p]
    decreases n
  {
    hide Bit;
    if n > 0 {
      FormatMisses(g, size, word, n - 1, p);
    }
  }

  /** Away from the format and version words nothing is painted over. */
  lemma OverlayMisses(version: nat, mask: nat, p: Pos)
    requires 1 <= version <= 10 && p in Square(Size(version))
    requires p.row == 6 || p.col == 6 || (p.row != 8 && p.col != 8)
    requires var size := Size(version);
             && !(0 <= p.row < 6 && size - 11 <= p.col < size - 8)
             && !(0 <= p.col < 6 && size - 11 <= p.row < size - 8)
             && p != Pos(size - 8, 8)
    ensures FunctionGrid(version, mask)[p] == Aligned(version)[p]
  {
    hide Frame, WithAlignments, WithFormat, WithVersion, Bit, B.FormatWord, B.VersionWord, ALIGNMENT;
    var size := Size(version);
    var aligned := Aligned(version);
    FormatMisses(aligned, size, B.FormatWord(mask), 15, p);
    var formatted := SetIn(WithFormat(aligned, size, B.FormatWord(mask), 15), Pos(size - 8, 8), true);
    S.VersionMisses(formatted, size, B.VersionWord(version), 18, p);
  }

  // ---- alignment patterns ----

  ghost predicate Stands(g: Grid, row: int, col: int) {
    forall p <- AlignmentArea(row, col) :: p in g && g[p] == Module(Dark(Alignment(row, col), p))
  }

  /** The three centres that lie under the finders. */
  predicate UnderFinder(version: nat, row: int, col: int) {
    var last := Size(version) - 7;
    (row == 6 && col == 6) || (row == 6 && col == last) || (row == last && col == 6)
  }

  lemma PaintedStands(version: nat, mask: nat, row: int, col: int)
    requires 1 <= version <= 10 && PaintedCentre(version, row, col)
    ensures Stands(FunctionGrid(version, mask), row, col)
  {
    hide FunctionGrid, Aligned, Dark, Middle;
    var size := Size(version);
    PaintedCentres(version, row, col);
    if version >= 7 {
      Centres(version);
    }
    forall p | p in AlignmentArea(row, col)
      ensures p in FunctionGrid(version, mask)
      ensures FunctionGrid(version, mask)[p] == Module(Dark(Alignment(row, col), p))
    {
      assert 16 <= p.row <= size - 5 && 16 <= p.col <= size - 5;
      AlignedCell(version, p);
      OverlayMisses(version, mask, p);
    }
  }

  lemma OutsideFrame(size: nat, m: nat)
    requires size >= 45 && 22 <= m <= size - 23
    ensures Pos(4, m) in Square(size) && Frame(size)[Pos(4, m)] == Null
    ensures Pos(m, 4) in Square(size) && Frame(size)[Pos(m, 4)] == Null
  {
    hide Frame;
    S.FrameClosed(size);
    assert Pos(4, m) !in S.FrameArea(size) && Pos(m, 4) !in S.FrameArea(size);
  }

  /** Two rows above the centre on the timing line the cell is open. */
  lemma MissingCellIsOpen(version: nat, mask: nat)
    requires 7 <= version <= 10
    ensures forall p | p == Pos(4, Middle(version)) || p == Pos(Middle(version), 4) ::
              p in Open(FunctionGrid(version, mask)) && FunctionGrid(version, mask)[p] == Null
  {
    hide FunctionGrid, Aligned, Frame, Dark, Middle;
    var size, m := Size(version), Middle(version);
    Centres(version);
    OutsideFrame(size, m);
    forall p | p == Pos(4, m) || p == Pos(m, 4)
      ensures p in FunctionGrid(version, mask) && FunctionGrid(version, mask)[p] == Null
    {
      forall row, col | PaintedCentre(version, row, col) ensures p !in AlignmentArea(row, col) {
        PaintedCentres(version, row, col);
      }
      AlignedCell(version, p);
      OverlayMisses(version, mask, p);
    }
  }

  /** The pattern centred on the timing line is missing. */
  lemma TimingCentreMissing(version: nat, mask: nat)
    requires 7 <= version <= 10
    ensures !Stands(FunctionGrid(version, mask), 6, Middle(version))
    ensures !Stands(FunctionGrid(version, mask), Middle(version), 6)
  {
    hide FunctionGrid, Dark, Middle, Open;
    var m := Middle(version);
    MissingCellIsOpen(version, mask);
    assert Pos(4, m) in AlignmentArea(6, m) && Pos(m, 4) in AlignmentArea(m, 6);
  }

  /** A centre of the table that no finder covers carries its whole pattern, for every mask,
      exactly when it is not on row or column 6. */
  lemma CentreStandsExactlyWhen(version: nat, mask: nat, row: int, col: int)
    requires 1 <= version <= 10 && row in ALIGNMENT[version - 1] && col in ALIGNMENT[version - 1]
    requires !UnderFinder(version, row, col)
    ensures Stands(FunctionGrid(version, mask), row, col) <==> row != 6 && col != 6
  {
    hide FunctionGrid, Stands;
    if row != 6 && col != 6 {
      PaintedStands(version, mask, row, col);
    } else {
      Centres(version);
      TimingCentreMissing(version, mask);
    }
  }

  ghost predicate AlignmentsStand(version: nat, mask: nat)
    requires 1 <= version <= 10
  {
    forall row, col | row in ALIGNMENT[version - 1] && col in ALIGNMENT[version - 1] ::
      UnderFinder(version, row, col) || Stands(FunctionGrid(version, mask), row, col)
  }

  /** All alignment patterns of ISO/IEC 18004:2015 stand exactly up to version 6. */
  lemma AlignmentsStandExactlyWhen(version: nat, mask: nat)
    requires 1 <= version <= 10
    ensures AlignmentsStand(version, mask) <==> version < 7
  {
    hide FunctionGrid, Stands;
    if version >= 7 {
      Centres(version);
      TimingCentreMissing(version, mask);
      assert !UnderFinder(version, 6, Middle(version)) && Middle(version) in ALIGNMENT[version - 1];
      assert 6 in ALIGNMENT[version - 1];
    } else {
      forall row, col | row in ALIGNMENT[version - 1] && col in ALIGNMENT[version - 1]
        ensures UnderFinder(version, row, col) || Stands(FunctionGrid(version, mask), row, col)
      {
        if !UnderFinder(version, row, col) {
          if version >= 2 {
            Centres(version);
          }
          CentreStandsExactlyWhen(version, mask, row, col);
        }
      }
    }
  }

  /** In version 7 the pattern centred on (6, 22) is missing. */
  lemma VersionSevenLacksOne(mask: nat)
    ensures !Stands(FunctionGrid(7, mask), 6, 22) && !AlignmentsStand(7, mask)
  {
    hide FunctionGrid, Stands;
    TimingCentreMissing(7, mask);
    AlignmentsStandExactlyWhen(7, mask);
    assert Middle(7) == 22;
  }

  // ---- what a reader of the standard takes for data ----

  /** The cells of all alignment patterns of ISO/IEC 18004:2015. */
  ghost function AlignmentCells(version: nat): set<Pos>
    requires 1 <= version <= 10
  {
    set row <- ALIGNMENT[version - 1], col <- ALIGNMENT[version - 1], p <- AlignmentArea(row, col)
      | !UnderFinder(version, row, col) :: p
  }

  /** The data cells of a reader that knows all alignment patterns. */
  ghost function StandardDataCells(version: nat, mask: nat): seq<Pos>
    requires 1 <= version <= 10
  {
    Free(WholePath(Size(version)), Open(FunctionGrid(version, mask)) - AlignmentCells(version))
  }

  /** Such a reader looks for the data in the cells the encoder has filled exactly up to version 6. */
  lemma ReadersAgreeExactlyWhen(version: nat, mask: nat)
    requires 1 <= version <= 10
    ensures StandardDataCells(version, mask) == DataCells(version, mask) <==> version < 7
  {
    hide FunctionGrid, Free, WholePath, Stands, UnderFinder, Open;
    var size, g := Size(version), FunctionGrid(version, mask);
    if version < 7 {
      AlignmentsStandExactlyWhen(version, mask);
      forall p | p in AlignmentCells(version) ensures p !in Open(g) {
        var row, col :| row in ALIGNMENT[version - 1] && col in ALIGNMENT[version - 1] && p in AlignmentArea(row, col)
                        && !UnderFinder(version, row, col);
        StandingIsClosed(g, row, col, p);
      }
      assert Open(g) - AlignmentCells(version) == Open(g);
    } else {
      var m := Middle(version);
      Centres(version);
      var p := Pos(4, m);
      MissingCellIsOpen(version, mask);
      assert 6 in ALIGNMENT[version - 1] && m in ALIGNMENT[version - 1];
      assert p in AlignmentArea(6, m) && !UnderFinder(version, 6, m) by {
        NotUnderFinder(version);
      }
      assert p in AlignmentCells(version);
      S.DataCellsAreOpen(version, mask);
      FreeCells(WholePath(size), Open(g) - AlignmentCells(version));
      assert p in DataCells(version, mask) && p !in StandardDataCells(version, mask);
    }
  }

  lemma StandingIsClosed(g: Grid, row: int, col: int, p: Pos)
    requires Stands(g, row, col) && p in AlignmentArea(row, col)
    ensures p !in Open(g)
  {
  }

  lemma NotUnderFinder(version: nat)
    requires 7 <= version <= 10
    ensures Pos(4, Middle(version)) in AlignmentArea(6, Middle(version)) && !UnderFinder(version, 6, Middle(version))
  {
    Centres(version);
  }

  // ---- the patterns in the finished symbol ----

  lemma FrameCell(size: nat, p: Pos)
    requires size >= 21 && p in Square(size)
    ensures p in Rect(-1, 8, -1, 8) ==> Frame(size)[p] == Module(Dark(Finder(0, 0), p))
    ensures p in Rect(size - 8, size + 1, -1, 8) ==> Frame(size)[p] == Module(Dark(Finder(size - 7, 0), p))
    ensures p in Rect(-1, 8, size - 8, size + 1) ==> Frame(size)[p] == Module(Dark(Finder(0, size - 7), p))
    ensures p in TimingArea(8, size - 8) ==> Frame(size)[p] == Module(Dark(Timing, p))
  {
    hide Dark;
  }

  ghost predicate InFrame(size: nat, p: Pos) {
    || p in Rect(-1, 8, -1, 8)
    || p in Rect(size - 8, size + 1, -1, 8)
    || p in Rect(-1, 8, size - 8, size + 1)
    || p in TimingArea(8, size - 8)
  }

  lemma FrameStands(version: nat, mask: nat, p: Pos)
    requires 1 <= version <= 10 && p in Square(Size(version)) && InFrame(Size(version), p)
    ensures FunctionGrid(version, mask)[p] == Frame(Size(version))[p]
  {
    hide FunctionGrid, Frame, Aligned;
    forall row, col | PaintedCentre(version, row, col) ensures p !in AlignmentArea(row, col) {
      PaintedCentres(version, row, col);
      if version >= 7 {
        Centres(version);
      }
    }
    AlignedCell(version, p);
    OverlayMisses(version, mask, p);
  }

  /** In every finished symbol, whatever the data: the three finders with their separators, the
      timing lines and the painted alignment patterns have their colours. */
  lemma PatternsStandInSymbol(version: nat, words: seq<Byte>, mask: nat, p: Pos)
    requires 1 <= version <= 10 && p in Square(Size(version))
    ensures var s, size := S.SymbolGrid(version, words, mask), Size(version);
            && p in s
            && (p in Rect(-1, 8, -1, 8) ==> s[p] == Module(Dark(Finder(0, 0), p)))
            && (p in Rect(size - 8, size + 1, -1, 8) ==> s[p] == Module(Dark(Finder(size - 7, 0), p)))
            && (p in Rect(-1, 8, size - 8, size + 1) ==> s[p] == Module(Dark(Finder(0, size - 7), p)))
            && (p in TimingArea(8, size - 8) ==> s[p] == Module(Dark(Timing, p)))
            && (forall row, col | PaintedCentre(version, row, col) && p in AlignmentArea(row, col) ::
                  s[p] == Module(Dark(Alignment(row, col), p)))
  {
    hide S.SymbolGrid, FunctionGrid, Frame, Dark, PaintedCentre, Rect, TimingArea;
    var size := Size(version);
    InsideSquare(size, p);
    S.SymbolIsComplete(version, words, mask, p);
    FrameCell(size, p);
    if InFrame(size, p) {
      FrameStands(version, mask, p);
    }
    forall row, col | PaintedCentre(version, row, col) && p in AlignmentArea(row, col)
      ensures S.SymbolGrid(version, words, mask)[p] == Module(Dark(Alignment(row, col), p))
    {
      PaintedStands(version, mask, row, col);
    }
  }

  lemma InsideSquare(size: nat, p: Pos)
    requires p in Square(size)
    ensures InSquare(size, p)
  {
  }

  // ---- the third rule of the penalty ----

  /** Whether the middle rows of the three finders are where the pattern is looked for. */
  ghost function FinderRows(size: nat): set<Pos> {
    {Pos(2, 0), Pos(3, 0), Pos(4, 0), Pos(2, size - 7), Pos(3, size - 7), Pos(4, size - 7),
     Pos(size - 5, 0), Pos(size - 4, 0), Pos(size - 3, 0)}
  }

  lemma FinderRowIsPattern(version: nat, words: seq<Byte>, mask: nat, p: Pos, down: bool)
    requires 1 <= version <= 10 && p in FinderRows(Size(version))
    ensures p in Penalty.Found(S.SymbolGrid(version, words, mask), Size(version), down)
  {
    hide S.SymbolGrid, PaintedCentre;
    var size, g := Size(version), S.SymbolGrid(version, words, mask);
    assert p in Penalty.Places(size);
    forall k | 0 <= k < 7 ensures Penalty.Stretch(g, size, down, p)[k] == Module(Penalty.PATTERN[k]) {
      var q := if down then Pos(p.col + k, p.row) else Pos(p.row, p.col + k);
      PatternsStandInSymbol(version, words, mask, q);
    }
  }

  /** Every finished symbol has the pattern at least nine times across and nine times down, in its
      finders; so the penalty by which the mask is chosen is at least 720 below the one meant. */
  lemma EverySymbolHasPattern(version: nat, words: seq<Byte>, mask: nat)
    requires 1 <= version <= 10
    ensures var g, size := S.SymbolGrid(version, words, mask), Size(version);
            Penalty.Intended(g, size) >= Penalty.Total(g, size) + 720
  {
    hide S.SymbolGrid, Penalty.Found, Penalty.Total, Penalty.Intended;
    var size, g := Size(version), S.SymbolGrid(version, words, mask);
    Penalty.TotalIsIntendedExactlyWhen(g, size);
    forall p, down | p in FinderRows(size) ensures p in Penalty.Found(g, size, down) {
      FinderRowIsPattern(version, words, mask, p, down);
    }
    assert |FinderRows(size)| == 9;
    S.SubsetSize(FinderRows(size), Penalty.Found(g, size, false));
    S.SubsetSize(FinderRows(size), Penalty.Found(g, size, true));
  }
}
