/** What the finished symbol holds: room for every version's words, no blank cell, the format
    and version words twice, and the encoded bytes. */
module Symbol {
  import opened Bits
  import opened ZigZag
  import opened Matrix
  import opened Codewords
  import opened Wrappers
  import I = Interleaving
  import B = Bch
  import G = Gf256
  import Penalty

  // ---- which cells the function patterns cover ----

  ghost function Closed(g: Grid): set<Pos> {
    set p <- g.Keys | g[p] != Null
  }

  lemma ClosedPaint(g: Grid, area: set<Pos>, pattern: Pattern)
    ensures Closed(Paint(g, area, pattern)) == Closed(g) + area * g.Keys
  {
  }

  lemma ClosedSet(g: Grid, p: Pos, dark: bool)
    ensures Closed(g) <= Closed(SetIn(g, p, dark)) <= Closed(g) + {p}
    ensures |Closed(SetIn(g, p, dark))| <= |Closed(g)| + 1
  {
    UnionSize(Closed(g), {p});
    SubsetSize(Closed(SetIn(g, p, dark)), Closed(g) + {p});
  }

  lemma {:induction false} SubsetSize<T>(a: set<T>, b: set<T>)
    requires a <= b
    ensures |a| <= |b|
  {
    if a != {} {
      var x :| x in a;
      SubsetSize(a - {x}, b - {x});
    }
  }

  lemma UnionSize<T>(a: set<T>, b: set<T>)
    ensures |a + b| <= |a| + |b|
  {
    assert a + b == a + (b - a);
    SubsetSize(b - a, b);
  }

  lemma {:induction false} RowSize(r: int, c0: int, c1: int)
    requires c0 <= c1
    ensures |Rect(r, r + 1, c0, c1)| == c1 - c0
    decreases c1 - c0
  {
    if c1 == c0 {
      assert Rect(r, r + 1, c0, c1) == {};
    } else {
      RowSize(r, c0, c1 - 1);
      assert Rect(r, r + 1, c0, c1) == Rect(r, r + 1, c0, c1 - 1) + {Pos(r, c1 - 1)};
    }
  }

  lemma LastRow(r0: int, r1: int, c0: int, c1: int)
    requires r0 < r1
    ensures Rect(r0, r1, c0, c1) == Rect(r0, r1 - 1, c0, c1) + Rect(r1 - 1, r1, c0, c1)
    ensures Rect(r0, r1 - 1, c0, c1) !! Rect(r1 - 1, r1, c0, c1)
  {
  }

  lemma {:induction false} RectSize(r0: int, r1: int, c0: int, c1: int)
    requires r0 <= r1 && c0 <= c1
    ensures |Rect(r0, r1, c0, c1)| == (r1 - r0) * (c1 - c0)
    decreases r1 - r0
  {
    if r1 == r0 {
      assert Rect(r0, r1, c0, c1) == {};
    } else {
      hide Rect;
      RectSize(r0, r1 - 1, c0, c1);
      RowSize(r1 - 1, c0, c1);
      LastRow(r0, r1, c0, c1);
      OneRowMore(r1 - r0, c1 - c0);
    }
  }

  lemma OneRowMore(h: int, w: int)
    ensures h * w == (h - 1) * w + w
  {
  }

  lemma SquareSize(size: nat)
    ensures |Square(size)| == size * size
  {
    assert Square(size) == Rect(0, size, 0, size);
    RectSize(0, size, 0, size);
  }

  lemma OpenCount(g: Grid, size: nat)
    requires g.Keys == Square(size)
    ensures |Open(g)| == size * size - |Closed(g)|
  {
    SquareSize(size);
    assert Open(g) + Closed(g) == Square(size) && Open(g) !! Closed(g);
  }

  // ---- the frame ----

  ghost predicate LinesClosed(g: Grid) {
    forall p <- g.Keys :: p.row == 6 || p.col == 6 ==> g[p] != Null
  }

  ghost function FrameArea(size: nat): set<Pos> {
    Rect(0, 8, 0, 8) + Rect(size - 8, size, 0, 8) + Rect(0, 8, size - 8, size)
    + Rect(6, 7, 8, size - 8) + Rect(8, size - 8, 6, 7)
  }

  lemma FrameClosed(size: nat)
    requires size >= 21
    ensures Closed(Frame(size)) == FrameArea(size)
    ensures LinesClosed(Frame(size))
  {
    var a := Paint(Empty(size), Rect(-1, 8, -1, 8), Finder(0, 0));
    var b := Paint(a, Rect(size - 8, size + 1, -1, 8), Finder(size - 7, 0));
    var c := Paint(b, Rect(-1, 8, size - 8, size + 1), Finder(0, size - 7));
    ClosedPaint(Empty(size), Rect(-1, 8, -1, 8), Finder(0, 0));
    ClosedPaint(a, Rect(size - 8, size + 1, -1, 8), Finder(size - 7, 0));
    ClosedPaint(b, Rect(-1, 8, size - 8, size + 1), Finder(0, size - 7));
    ClosedPaint(c, TimingArea(8, size - 8), Timing);
    assert Closed(Empty(size)) == {};
    assert Rect(-1, 8, -1, 8) * Square(size) == Rect(0, 8, 0, 8);
    assert Rect(size - 8, size + 1, -1, 8) * Square(size) == Rect(size - 8, size, 0, 8);
    assert Rect(-1, 8, size - 8, size + 1) * Square(size) == Rect(0, 8, size - 8, size);
    assert TimingArea(8, size - 8) * Square(size) == TimingArea(8, size - 8);
    forall p <- Frame(size).Keys | p.row == 6 || p.col == 6 ensures Frame(size)[p] != Null {
      assert p in FrameArea(size);
      assert p in Closed(Frame(size));
    }
  }

  lemma FrameCount(size: nat)
    requires size >= 21
    ensures |Closed(Frame(size))| <= 192 + 2 * (size - 16)
  {
    hide Rect, Frame, Closed;
    FrameClosed(size);
    var a, b, c := Rect(0, 8, 0, 8), Rect(size - 8, size, 0, 8), Rect(0, 8, size - 8, size);
    var d, e := Rect(6, 7, 8, size - 8), Rect(8, size - 8, 6, 7);
    RectSize(0, 8, 0, 8);
    RectSize(size - 8, size, 0, 8);
    RectSize(0, 8, size - 8, size);
    RectSize(6, 7, 8, size - 8);
    RectSize(8, size - 8, 6, 7);
    UnionSize(a, b);
    UnionSize(a + b, c);
    UnionSize(a + b + c, d);
    UnionSize(a + b + c + d, e);
  }

  // ---- alignment ----

  function Others(centres: seq<nat>): nat {
    if centres == [] then 0 else Others(centres[..|centres| - 1]) + (if centres[|centres| - 1] == 6 then 0 else 1)
  }

  lemma AlignmentCount(g: Grid, row: int, col: int)
    ensures Closed(g) <= Closed(WithAlignment(g, row, col))
    ensures |Closed(WithAlignment(g, row, col))| <= |Closed(g)| + 25
    ensures LinesClosed(g) ==> LinesClosed(WithAlignment(g, row, col))
    ensures LinesClosed(g) && Pos(row, col) in g && (row == 6 || col == 6) ==> WithAlignment(g, row, col) == g
  {
    var area := AlignmentArea(row, col);
    var h := WithAlignment(g, row, col);
    ClosedPaint(g, area, Alignment(row, col));
    RectSize(row - 2, row + 3, col - 2, col + 3);
    UnionSize(Closed(g), area);
    SubsetSize(Closed(h), Closed(g) + area);
  }

  lemma {:induction false} AlignmentRowCount(g: Grid, row: int, cols: seq<nat>)
    requires LinesClosed(g) && forall c <- cols :: Pos(row, c) in g
    ensures LinesClosed(WithAlignmentRow(g, row, cols))
    ensures Closed(g) <= Closed(WithAlignmentRow(g, row, cols))
    ensures |Closed(WithAlignmentRow(g, row, cols))| <= |Closed(g)| + 25 * (if row == 6 then 0 else Others(cols))
    decreases |cols|
  {
    if cols != [] {
      hide WithAlignment, LinesClosed, Closed;
      var m := |cols| - 1;
      assert cols[m] in cols;
      AlignmentRowCount(g, row, cols[..m]);
      AlignmentCount(WithAlignmentRow(g, row, cols[..m]), row, cols[m]);
    }
  }

  lemma TimesGrows(a: nat, d: nat, n: nat)
    requires d <= 1
    ensures (a + d) * n == a * n + (if d == 0 then 0 else n)
  {
  }

  lemma {:induction false} AlignmentsCount(g: Grid, rows: seq<nat>, cols: seq<nat>)
    requires LinesClosed(g) && forall r <- rows, c <- cols :: Pos(r, c) in g
    ensures LinesClosed(WithAlignments(g, rows, cols))
    ensures Closed(g) <= Closed(WithAlignments(g, rows, cols))
    ensures |Closed(WithAlignments(g, rows, cols))| <= |Closed(g)| + 25 * (Others(rows) * Others(cols))
    decreases |rows|
  {
    if rows != [] {
      hide WithAlignmentRow, LinesClosed, Closed;
      var m := |rows| - 1;
      var n := Others(cols);
      assert rows[m] in rows;
      forall r <- rows[..m] ensures r in rows {
      }
      AlignmentsCount(g, rows[..m], cols);
      AlignmentRowCount(WithAlignments(g, rows[..m], cols), rows[m], cols);
      TimesGrows(Others(rows[..m]), if rows[m] == 6 then 0 else 1, n);
    }
  }

  // ---- format and version ----

  lemma {:induction false} FormatCount(g: Grid, size: nat, word: nat, n: nat)
    ensures Closed(g) <= Closed(WithFormat(g, size, word, n))
    ensures |Closed(WithFormat(g, size, word, n))| <= |Closed(g)| + 2 * n
    decreases n
  {
    hide SetIn, Closed;
    if n > 0 {
      FormatCount(g, size, word, n - 1);
      var h := WithFormat(g, size, word, n - 1);
      ClosedSet(h, FormatA(size, n - 1), Bit(word, n - 1));
      ClosedSet(SetIn(h, FormatA(size, n - 1), Bit(word, n - 1)), FormatB(size, n - 1), Bit(word, n - 1));
    }
  }

  lemma {:induction false} VersionCount(g: Grid, size: nat, word: nat, n: nat)
    ensures Closed(g) <= Closed(WithVersion(g, size, word, n))
    ensures |Closed(WithVersion(g, size, word, n))| <= |Closed(g)| + 2 * n
    decreases n
  {
    hide SetIn, Closed;
    if n > 0 {
      VersionCount(g, size, word, n - 1);
      var h := WithVersion(g, size, word, n - 1);
      ClosedSet(h, VersionA(size, n - 1), Bit(word, n - 1));
      ClosedSet(SetIn(h, VersionA(size, n - 1), Bit(word, n - 1)), VersionB(size, n - 1), Bit(word, n - 1));
    }
  }

  lemma AlignedCount(version: nat)
    requires 1 <= version <= 10
    ensures var g := WithAlignments(Frame(Size(version)), ALIGNMENT[version - 1], ALIGNMENT[version - 1]);
            var m := Others(ALIGNMENT[version - 1]);
            && LinesClosed(g)
            && |Closed(g)| <= 192 + 2 * (Size(version) - 16) + 25 * (m * m)
  {
    hide Frame, WithAlignments, Others, Closed, LinesClosed;
    var size := Size(version);
    var centres := ALIGNMENT[version - 1];
    FrameClosed(size);
    FrameCount(size);
    CentresInside(version);
    forall r <- centres, c <- centres ensures Pos(r, c) in Frame(size) {
    }
    AlignmentsCount(Frame(size), centres, centres);
  }

  lemma OverlayCount(aligned: Grid, version: nat, mask: nat)
    requires 1 <= version <= 10
    ensures var formatted := SetIn(WithFormat(aligned, Size(version), B.FormatWord(mask), 15),
              Pos(Size(version) - 8, 8), true);
            var g := if version >= 7 then WithVersion(formatted, Size(version), B.VersionWord(version),
                18) else formatted;
            && Closed(aligned) <= Closed(g)
            && |Closed(g)| <= |Closed(aligned)| + 31 + (if version >= 7 then 36 else 0)
  {
    hide WithFormat, WithVersion, SetIn, Closed, B.FormatWord, B.VersionWord;
    var size := Size(version);
    FormatCount(aligned, size, B.FormatWord(mask), 15);
    var formatted := WithFormat(aligned, size, B.FormatWord(mask), 15);
    ClosedSet(formatted, Pos(size - 8, 8), true);
    VersionCount(SetIn(formatted, Pos(size - 8, 8), true), size, B.VersionWord(version), 18);
  }

  /** The function patterns cover column 6 and leave at least this many cells open. */
  lemma FunctionCount(version: nat, mask: nat)
    requires 1 <= version <= 10
    ensures forall p <- Open(FunctionGrid(version, mask)) :: p.col != 6
    ensures var size, m := Size(version), Others(ALIGNMENT[version - 1]);
            |Open(FunctionGrid(version, mask))|
            >= size * size - 192 - 2 * (size - 16) - 25 * (m * m) - 31 - (if version >= 7 then 36 else 0)
  {
    hide Frame, WithAlignments, WithFormat, WithVersion, SetIn, B.FormatWord, B.VersionWord, Others;
    var aligned := WithAlignments(Frame(Size(version)), ALIGNMENT[version - 1], ALIGNMENT[version - 1]);
    AlignedCount(version);
    OverlayCount(aligned, version, mask);
    var g := FunctionGrid(version, mask);
    OpenCount(g, Size(version));
    assert forall p <- g.Keys :: p.col == 6 ==> p in Closed(aligned);
  }

  function TotalWords(table: seq<Block>): nat {
    if table == [] then 0 else table[0].count * table[0].total + TotalWords(table[1..])
  }

  lemma OthersAppend(centres: seq<nat>, c: nat)
    ensures Others(centres + [c]) == Others(centres) + (if c == 6 then 0 else 1)
  {
    assert (centres + [c])[..|centres|] == centres;
  }

  lemma OthersOfTable(version: nat)
    requires 1 <= version <= 10
    ensures Others(ALIGNMENT[version - 1]) == if version == 1 then 0 else if version < 7 then 1 else 2
  {
    hide Others;
    var centres := ALIGNMENT[version - 1];
    NoOthers();
    if version > 1 {
      var second := centres[1];
      OthersAppend([], 6);
      OthersAppend([6], second);
      assert [] + [6] == [6] && [6] + [second] == [6, second];
      if version < 7 {
        assert centres == [6, second];
      } else {
        var third := centres[2];
        OthersAppend([6, second], third);
        assert centres == [6, second] + [third];
      }
    }
  }

  lemma NoOthers()
    ensures Others([]) == 0
  {
  }

  /** Every version has room for all of its words, whatever the mask. */
  lemma RoomForWords(version: nat, mask: nat)
    requires 1 <= version <= 10
    ensures 8 * TotalWords(RS_BLOCKS[version - 1]) <= |Open(FunctionGrid(version, mask))|
  {
    hide FunctionGrid, Open;
    FunctionCount(version, mask);
    OthersOfTable(version);
    var table := RS_BLOCKS[version - 1];
    assert version < 10 ==> table[1..] == [];
    assert version == 10 ==> table[1..][1..] == [];
  }

  /** The data cells are exactly the open cells, each once. */
  lemma DataCellsAreOpen(version: nat, mask: nat)
    requires 1 <= version <= 10
    ensures NoDuplicates(DataCells(version, mask)) && Inside(DataCells(version, mask))
    ensures forall p :: p in DataCells(version, mask) <==> p in Open(FunctionGrid(version, mask))
    ensures |DataCells(version, mask)| == |Open(FunctionGrid(version, mask))|
  {
    hide FunctionGrid;
    var size := Size(version);
    var open := Open(FunctionGrid(version, mask));
    PathIsComplete(size);
    FreeCells(WholePath(size), open);
    FunctionCount(version, mask);
    forall p <- open ensures p in WholePath(size) {
    }
    DistinctCount(DataCells(version, mask), open);
  }

  lemma ClosedSetIn(g: Grid, p: Pos, dark: bool)
    ensures Closed(SetIn(g, p, dark)) == Closed(g) + {p} * g.Keys
  {
  }

  /** Which cells a word covers depends on no bit of it. */
  lemma {:induction false} SameFormatCells(g: Grid, h: Grid, size: nat, word: nat, other: nat, n: nat)
    requires g.Keys == h.Keys && Closed(g) == Closed(h)
    ensures Closed(WithFormat(g, size, word, n)) == Closed(WithFormat(h, size, other, n))
    decreases n
  {
    hide Closed, SetIn, Bit;
    if n > 0 {
      SameFormatCells(g, h, size, word, other, n - 1);
      var a, b := WithFormat(g, size, word, n - 1), WithFormat(h, size, other, n - 1);
      SameCells(a, b, FormatA(size, n - 1), Bit(word, n - 1), Bit(other, n - 1));
      SameCells(SetIn(a, FormatA(size, n - 1), Bit(word, n - 1)), SetIn(b, FormatA(size, n - 1), Bit(other, n - 1)),
                FormatB(size, n - 1), Bit(word, n - 1), Bit(other, n - 1));
    }
  }

  lemma SameCells(g: Grid, h: Grid, p: Pos, dark: bool, other: bool)
    requires g.Keys == h.Keys && Closed(g) == Closed(h)
    ensures Closed(SetIn(g, p, dark)) == Closed(SetIn(h, p, other))
  {
    hide Closed, SetIn;
    ClosedSetIn(g, p, dark);
    ClosedSetIn(h, p, other);
  }

  lemma {:induction false} SameVersionCells(g: Grid, h: Grid, size: nat, word: nat, n: nat)
    requires g.Keys == h.Keys && Closed(g) == Closed(h)
    ensures Closed(WithVersion(g, size, word, n)) == Closed(WithVersion(h, size, word, n))
    decreases n
  {
    hide Closed, SetIn, Bit;
    if n > 0 {
      SameVersionCells(g, h, size, word, n - 1);
      var a, b := WithVersion(g, size, word, n - 1), WithVersion(h, size, word, n - 1);
      var bit := Bit(word, n - 1);
      SameCells(a, b, VersionA(size, n - 1), bit, bit);
      SameCells(SetIn(a, VersionA(size, n - 1), bit), SetIn(b, VersionA(size, n - 1), bit), VersionB(size, n - 1), bit,
                bit);
    }
  }

  lemma SameFunctionCells(version: nat, mask: nat, other: nat)
    requires 1 <= version <= 10
    ensures Closed(FunctionGrid(version, mask)) == Closed(FunctionGrid(version, other))
  {
    hide Closed, WithFormat, WithVersion, SetIn, Frame, WithAlignments, B.FormatWord, B.VersionWord;
    var size := Size(version);
    var aligned := WithAlignments(Frame(size), ALIGNMENT[version - 1], ALIGNMENT[version - 1]);
    SameFormatCells(aligned, aligned, size, B.FormatWord(mask), B.FormatWord(other), 15);
    var a := WithFormat(aligned, size, B.FormatWord(mask), 15);
    var b := WithFormat(aligned, size, B.FormatWord(other), 15);
    SameCells(a, b, Pos(size - 8, 8), true, true);
    SameVersionCells(SetIn(a, Pos(size - 8, 8), true), SetIn(b, Pos(size - 8, 8), true), size, B.VersionWord(version),
                     18);
  }

  /** The data cells are the same, in the same order, for every mask. */
  lemma DataCellsIgnoreMask(version: nat, mask: nat, other: nat)
    requires 1 <= version <= 10
    ensures DataCells(version, mask) == DataCells(version, other)
  {
    hide Closed, Open, Free, WholePath, FunctionGrid;
    SameFunctionCells(version, mask, other);
    OpenOfClosed(FunctionGrid(version, mask));
    OpenOfClosed(FunctionGrid(version, other));
  }

  lemma OpenOfClosed(g: Grid)
    ensures Open(g) == g.Keys - Closed(g)
  {
  }

  lemma SymbolKeys(version: nat, words: seq<Byte>, mask: nat)
    requires 1 <= version <= 10
    ensures Inside(DataCells(version, mask))
    ensures Placed(FunctionGrid(version, mask), DataCells(version, mask), words, mask).Keys == Square(Size(version))
  {
    hide FunctionGrid, Placed, DataCells;
    DataCellsAreOpen(version, mask);
    PlacedKeys(FunctionGrid(version, mask), DataCells(version, mask), words, mask);
  }

  /** The finished symbol, as MakeMatrix builds it. */
  ghost function SymbolGrid(version: nat, words: seq<Byte>, mask: nat): (g: Grid)
    requires 1 <= version <= 10
    ensures g.Keys == Square(Size(version))
  {
    SymbolKeys(version, words, mask);
    Placed(FunctionGrid(version, mask), DataCells(version, mask), words, mask)
  }

  /** No blank cell is left and no cell of a function pattern is overwritten, for any words. */
  lemma SymbolIsComplete(version: nat, words: seq<Byte>, mask: nat, p: Pos)
    requires 1 <= version <= 10 && InSquare(Size(version), p)
    ensures p in SymbolGrid(version, words, mask) && SymbolGrid(version, words, mask)[p] != Null
    ensures p in FunctionGrid(version, mask)
    ensures FunctionGrid(version, mask)[p] != Null ==>
              SymbolGrid(version, words, mask)[p] == FunctionGrid(version, mask)[p]
  {
    hide FunctionGrid, Placed, DataCells;
    var g := FunctionGrid(version, mask);
    var free := DataCells(version, mask);
    DataCellsAreOpen(version, mask);
    assert p in g.Keys;
    PlacedAt(g, free, words, mask, p);
    if p in free {
      var i :| 0 <= i < |free| && free[i] == p;
      PlacedBit(g, free, words, mask, i);
    }
  }

  // ---- reading the symbol ----

  ghost function WordsOf(bits: seq<bool>, n: nat): seq<Byte>
    requires 8 * n <= |bits|
  {
    seq(n, k requires 0 <= k < n => ByteAt(bits, 8 * k))
  }

  lemma WordOfStream(words: seq<Byte>, bits: seq<bool>, k: nat)
    requires Stream(words) <= bits && k < |words|
    ensures ByteAt(bits, 8 * k) == words[k]
  {
    hide Stream, BitsOf, Value;
    var s := Stream(words);
    StreamAt(words, k);
    assert bits[8 * k..8 * k + 8] == s[8 * k..8 * k + 8];
    assert Pow2(8) == 256;
    ValueOfBits(words[k], 8);
  }

  lemma WordsOfStream(words: seq<Byte>, bits: seq<bool>)
    requires Stream(words) <= bits
    ensures WordsOf(bits, |words|) == words
  {
    hide ByteAt, Stream;
    forall k | 0 <= k < |words| ensures ByteAt(bits, 8 * k) == words[k] {
      WordOfStream(words, bits, k);
    }
  }

  /** A receiver without error correction: unmask and collect the data cells, cut them into
      words, undo the interleaving, decode. */
  ghost function ReadSymbol(g: Grid, version: nat, mask: nat): Option<seq<Byte>>
    requires 1 <= version <= 10
  {
    var table := RS_BLOCKS[version - 1];
    var free := DataCells(version, mask);
    DataCellsAreOpen(version, mask);
    if !(forall p <- free :: p in g && g[p].Module?) then None
    else
      var bits := ReadBack(g, free, mask);
      var n := TotalWords(table);
      if |bits| < 8 * n || n < I.Total(I.DataSizes(table)) then None
      else Decode(I.Concat(I.Rows(WordsOf(bits, n), I.DataSizes(table))), version)
  }

  lemma {:induction false} TableTotals(table: seq<Block>)
    requires I.SaneTable(table)
    ensures I.Total(I.DataSizes(table)) == DataWords(table)
    ensures I.Total(I.DataSizes(table)) + I.Total(I.EccSizes(table)) == TotalWords(table)
  {
    if table != [] {
      var Block(count, total, data) := table[0];
      assert table[0] in table;
      TableTotals(table[1..]);
      RepeatTotal(count, data, I.DataSizes(table[1..]));
      RepeatTotal(count, total - data, I.EccSizes(table[1..]));
      assert count * data + count * (total - data) == count * total;
    }
  }

  lemma {:induction false} RepeatTotal(n: nat, x: nat, rest: seq<nat>)
    ensures I.Total(I.Repeat(n, x, rest)) == n * x + I.Total(rest)
    decreases n
  {
    if n > 0 {
      RepeatTotal(n - 1, x, rest);
      assert n * x == (n - 1) * x + x;
    }
  }

  lemma TablesAreSane(version: nat)
    requires 1 <= version <= 10
    ensures I.SaneTable(RS_BLOCKS[version - 1])
  {
  }

  /** From bytes to symbol and back: for every byte string that fits, every version and every
      mask, the finished symbol reads back as exactly these bytes. */
  lemma SymbolReadsBack(bytes: seq<Byte>, words: seq<Byte>, version: nat, mask: nat)
    requires 1 <= version <= 10 && Fits(|bytes|, version)
    requires |words| == Capacity(version) && IsLayout(words, bytes, version)
    ensures I.SaneTable(RS_BLOCKS[version - 1])
    ensures ReadSymbol(SymbolGrid(version, I.Interleaved(words, RS_BLOCKS[version - 1]), mask), version, mask)
         == Some(bytes)
  {
    hide FunctionGrid, Placed, DataCells, Open, I.Interleaved, ReadBack, IsLayout, Fits, Decode, I.SaneTable,
      I.Split, I.Eccs, I.DataSizes, I.EccSizes, WordsOf, Stream, DataWords, TotalWords;
    var table := RS_BLOCKS[version - 1];
    TablesAreSane(version);
    TableTotals(table);
    I.InterleaveInverse(words, table);
    var stream := I.Interleaved(words, table);
    RoomForWords(version, mask);
    SymbolBits(version, stream, mask);
    var g := SymbolGrid(version, stream, mask);
    WordsOfStream(stream, ReadBack(g, DataCells(version, mask), mask));
    DecodeInvertsLayout(words, bytes, version);
  }

  /** The data cells of a symbol, read in order and unmasked, start with the words' bits. */
  lemma SymbolBits(version: nat, words: seq<Byte>, mask: nat)
    requires 1 <= version <= 10
    requires |words| == TotalWords(RS_BLOCKS[version - 1])
    ensures var g, free := SymbolGrid(version, words, mask), DataCells(version, mask);
            && Inside(free)
            && (forall p <- free :: p in g && g[p].Module?)
            && Stream(words) <= ReadBack(g, free, mask)
  {
    hide FunctionGrid, Placed, DataCells, Open, ReadBack, Stream, TotalWords;
    DataCellsAreOpen(version, mask);
    RoomForWords(version, mask);
    ReadBackPlaced(FunctionGrid(version, mask), DataCells(version, mask), words, mask);
  }

  datatype Rendered = TooLong | Rendered(version: nat, mask: nat, modules: array2<Cell>)

  /** The first of the least scores. */
  predicate FirstLeast(scores: seq<int>, mask: nat) {
    && mask < |scores|
    && (forall m | 0 <= m < |scores| :: scores[mask] <= scores[m])
    && (forall m | 0 <= m < mask :: scores[mask] < scores[m])
  }

  lemma LeastIs(scores: seq<int>, mask: nat)
    requires FirstLeast(scores, mask)
    ensures mask < |scores| && (forall m | 0 <= m < |scores| :: scores[mask] <= scores[m])
    ensures forall m | 0 <= m < mask :: scores[mask] < scores[m]
  {
  }

  lemma OneScore(scores: seq<int>)
    requires |scores| > 0
    ensures FirstLeast(scores[..1], 0)
  {
  }

  lemma NextScore(scores: seq<int>, n: nat, best: nat)
    requires n < |scores| && FirstLeast(scores[..n], best)
    ensures FirstLeast(scores[..n + 1], if scores[n] < scores[best] then n else best)
  {
    assert scores[..n + 1] == scores[..n] + [scores[n]];
    assert forall m | 0 <= m < n :: scores[..n + 1][m] == scores[..n][m];
  }

  /** The smallest version that fits. */
  method ChooseVersion(bytes: seq<Byte>) returns (version: nat, data: Option<seq<Byte>>)
    ensures version == 0 <==> forall v | 1 <= v <= 10 :: !Fits(|bytes|, v)
    ensures version <= 10 && (version > 0 ==> Fits(|bytes|, version) && data.Some?)
    ensures version > 0 ==> |data.value| == Capacity(version) && IsLayout(data.value, bytes, version)
    ensures forall v | 1 <= v < version :: !Fits(|bytes|, v)
  {
    hide Fits, IsLayout, DataWords, Capacity;
    version, data := 0, None;
    var candidate := 1;
    while candidate <= 10 && version == 0
      invariant 1 <= candidate <= 11 && version <= 10
      invariant version == 0 ==> forall v | 1 <= v < candidate :: !Fits(|bytes|, v)
      invariant version > 0 ==> Fits(|bytes|, version) && data.Some?
      invariant version > 0 ==> |data.value| == Capacity(version) && IsLayout(data.value, bytes, version)
      invariant forall v | 1 <= v < version :: !Fits(|bytes|, v)
      decreases 11 - candidate, version == 0
    {
      data := DataCodewords(bytes, candidate);
      if data.Some? {
        version := candidate;
      }
      candidate := candidate + 1;
    }
  }

  /** The penalties of the eight symbols. */
  ghost function Scores(version: nat, words: seq<Byte>): (scores: seq<int>)
    requires 1 <= version <= 10
    ensures |scores| == 8
  {
    seq(8, mask requires 0 <= mask < 8 => Penalty.Total(SymbolGrid(version, words, mask), Size(version)))
  }

  lemma ScoreAt(version: nat, words: seq<Byte>, mask: nat)
    requires 1 <= version <= 10 && mask < 8
    ensures Scores(version, words)[mask] == Penalty.Total(SymbolGrid(version, words, mask), Size(version))
  {
  }

  /** The encoder: the smallest version that fits, its data words, and of the eight masks the first
      whose symbol has the least penalty. */
  method Render(t: G.Tables, bytes: seq<Byte>) returns (result: Rendered, data: seq<Byte>)
    requires t.Valid()
    ensures result.TooLong? <==> forall v | 1 <= v <= 10 :: !Fits(|bytes|, v)
    ensures result.Rendered? ==>
              && 1 <= result.version <= 10 && Fits(|bytes|, result.version)
              && (forall v | 1 <= v < result.version :: !Fits(|bytes|, v))
              && |data| == Capacity(result.version) && IsLayout(data, bytes, result.version)
              && I.SaneTable(RS_BLOCKS[result.version - 1])
              && (var words := I.Interleaved(data, RS_BLOCKS[result.version - 1]);
                  && result.mask < 8
                  && (forall m | 0 <= m < 8 ::
                        Scores(result.version, words)[result.mask] <= Scores(result.version, words)[m])
                  && (forall m | 0 <= m < result.mask ::
                        Scores(result.version, words)[result.mask] < Scores(result.version, words)[m])
                  && Shaped(result.modules) && result.modules.Length0 == Size(result.version)
                  && GridOf(result.modules) == SymbolGrid(result.version, words, result.mask)
                  && ReadSymbol(GridOf(result.modules), result.version, result.mask) == Some(bytes))
  {
    hide ReadSymbol, Fits, FunctionGrid, Placed, DataCells, GridOf, IsLayout, I.Interleaved, DataWords, Capacity,
      FirstLeast, Scores, Penalty.Total;
    data := [];
    var version, laid := ChooseVersion(bytes);
    if version == 0 {
      return TooLong, [];
    }
    data := laid.value;
    TablesAreSane(version);
    var words := I.Interleave(t, data, RS_BLOCKS[version - 1]);
    ghost var scores := Scores(version, words);
    var best := 0;
    var modules := MakeMatrix(version, words, 0);
    var least := Penalty.Penalty(modules);
    ScoreAt(version, words, 0);
    OneScore(scores);
    for mask := 1 to 8
      invariant best < mask && FirstLeast(scores[..mask], best) && least == scores[best]
      invariant Shaped(modules) && modules.Length0 == Size(version)
      invariant GridOf(modules) == SymbolGrid(version, words, best)
    {
      var other := MakeMatrix(version, words, mask);
      var score := Penalty.Penalty(other);
      ScoreAt(version, words, mask);
      NextScore(scores, mask, best);
      if score < least {
        best, modules, least := mask, other, score;
      }
    }
    assert scores[..8] == scores;
    LeastIs(scores, best);
    SymbolReadsBack(bytes, data, version, best);
    result := Rendered(version, best, modules);
  }

  // ---- format and version words in the symbol ----

  /** The two times fifteen places are all different and inside. */
  lemma FormatPlaces(g: Grid, size: nat, i: nat, j: nat)
    requires size >= 21 && g.Keys == Square(size) && i <= j < 15
    ensures FormatA(size, i) in g && FormatB(size, i) in g && FormatA(size, i) != FormatB(size, j)
    ensures FormatB(size, i) != FormatA(size, j)
    ensures i < j ==> FormatA(size, i) != FormatA(size, j) && FormatB(size, i) != FormatB(size, j)
  {
  }

  lemma {:induction false} FormatCopies(g: Grid, size: nat, word: nat, n: nat, i: nat)
    requires size >= 21 && g.Keys == Square(size) && i < n <= 15
    ensures var h := WithFormat(g, size, word, n);
            && FormatA(size, i) in h && h[FormatA(size, i)] == Module(Bit(word, i))
            && FormatB(size, i) in h && h[FormatB(size, i)] == Module(Bit(word, i))
    decreases n
  {
    hide Bit, FormatA, FormatB;
    FormatPlaces(g, size, n - 1, n - 1);
    if i < n - 1 {
      FormatCopies(g, size, word, n - 1, i);
      FormatPlaces(g, size, i, n - 1);
    }
  }

  lemma VersionPlaces(g: Grid, size: nat, i: nat, j: nat)
    requires size >= 21 && g.Keys == Square(size) && i <= j < 18
    ensures VersionA(size, i) in g && VersionB(size, i) in g && VersionA(size, i) != VersionB(size, j)
    ensures VersionB(size, i) != VersionA(size, j)
    ensures i < j ==> VersionA(size, i) != VersionA(size, j) && VersionB(size, i) != VersionB(size, j)
  {
    assert i == 3 * (i / 3) + i % 3 && j == 3 * (j / 3) + j % 3;
  }

  lemma {:induction false} VersionCopies(g: Grid, size: nat, word: nat, n: nat, i: nat)
    requires size >= 21 && g.Keys == Square(size) && i < n <= 18
    ensures var h := WithVersion(g, size, word, n);
            && VersionA(size, i) in h && h[VersionA(size, i)] == Module(Bit(word, i))
            && VersionB(size, i) in h && h[VersionB(size, i)] == Module(Bit(word, i))
    decreases n
  {
    hide Bit, VersionA, VersionB;
    VersionPlaces(g, size, n - 1, n - 1);
    if i < n - 1 {
      VersionCopies(g, size, word, n - 1, i);
      VersionPlaces(g, size, i, n - 1);
    }
  }

  lemma {:induction false} VersionMisses(g: Grid, size: nat, word: nat, n: nat, p: Pos)
    requires size >= 21 && n <= 18 && p in g
    requires !(0 <= p.row < 6 && size - 11 <= p.col < size - 8) && !(0 <= p.col < 6 && size - 11 <= p.row < size - 8)
    ensures WithVersion(g, size, word, n)[p] == g[p]
    decreases n
  {
    hide Bit;
    if n > 0 {
      VersionMisses(g, size, word, n - 1, p);
    }
  }

  /** Both copies of the format word, and from version 7 on both copies of the version word,
      stand in the finished symbol whatever the data. */
  lemma WordsStandInSymbol(version: nat, words: seq<Byte>, mask: nat, i: nat)
    requires 1 <= version <= 10
    ensures var s, size := SymbolGrid(version, words, mask), Size(version);
            i < 15 ==>
              && FormatA(size, i) in s && s[FormatA(size, i)] == Module(Bit(B.FormatWord(mask), i))
              && FormatB(size, i) in s && s[FormatB(size, i)] == Module(Bit(B.FormatWord(mask), i))
    ensures var s, size := SymbolGrid(version, words, mask), Size(version);
            version >= 7 && i < 18 ==>
              && VersionA(size, i) in s && s[VersionA(size, i)] == Module(Bit(B.VersionWord(version), i))
              && VersionB(size, i) in s && s[VersionB(size, i)] == Module(Bit(B.VersionWord(version), i))
  {
    hide Bit, Frame, WithAlignments, WithFormat, WithVersion, SymbolGrid, B.FormatWord, B.VersionWord;
    var size := Size(version);
    var aligned := WithAlignments(Frame(size), ALIGNMENT[version - 1], ALIGNMENT[version - 1]);
    var formatted := SetIn(WithFormat(aligned, size, B.FormatWord(mask), 15), Pos(size - 8, 8), true);
    if i < 15 {
      FormatCopies(aligned, size, B.FormatWord(mask), 15, i);
      VersionMisses(formatted, size, B.VersionWord(version), 18, FormatA(size, i));
      VersionMisses(formatted, size, B.VersionWord(version), 18, FormatB(size, i));
      SymbolIsComplete(version, words, mask, FormatA(size, i));
      SymbolIsComplete(version, words, mask, FormatB(size, i));
    }
    if version >= 7 && i < 18 {
      VersionCopies(formatted, size, B.VersionWord(version), 18, i);
      SymbolIsComplete(version, words, mask, VersionA(size, i));
      SymbolIsComplete(version, words, mask, VersionB(size, i));
    }
  }
}
