/** The finished symbol as ISO/IEC 18004:2015 describes it to a reader: pictures of the patterns, the
    places of format and version word, and the words themselves. */
module Receiver {
  import opened Bits
  import opened ZigZag
  import opened Matrix
  import opened Codewords
  import P = Patterns
  import S = Symbol
  import B = Bch

  // ---- the pictures ----

  const FINDER_PICTURE := ["#######", "#.....#", "#.###.#", "#.###.#", "#.###.#", "#.....#", "#######"]

  const ALIGNMENT_PICTURE := ["#####", "#...#", "#.#.#", "#...#", "#####"]

  predicate FinderDark(r: nat, c: nat)
    requires r < 7 && c < 7
  {
    FINDER_PICTURE[r][c] == '#'
  }

  predicate AlignmentDark(r: nat, c: nat)
    requires r < 5 && c < 5
  {
    ALIGNMENT_PICTURE[r][c] == '#'
  }

  lemma FinderIsPicture(row: int, col: int, r: nat, c: nat)
    requires r < 7 && c < 7
    ensures Dark(Finder(row, col), Pos(row + r, col + c)) <==> FinderDark(r, c)
  {
  }

  lemma AlignmentIsPicture(row: int, col: int, r: nat, c: nat)
    requires r < 5 && c < 5
    ensures Dark(Alignment(row, col), Pos(row - 2 + r, col - 2 + c)) <==> AlignmentDark(r, c)
  {
  }

  /** The three finders. */
  lemma FindersStand(version: nat, words: seq<Byte>, mask: nat, r: nat, c: nat)
    requires 1 <= version <= 10 && r < 7 && c < 7
    ensures var s, n := S.SymbolGrid(version, words, mask), Size(version);
            forall p | p in [Pos(r, c), Pos(n - 7 + r, c), Pos(r, n - 7 + c)] ::
              p in s && s[p] == Module(FinderDark(r, c))
  {
    hide S.SymbolGrid, Dark, P.PaintedCentre, FinderDark;
    var n := Size(version);
    FinderIsPicture(0, 0, r, c);
    FinderIsPicture(n - 7, 0, r, c);
    FinderIsPicture(0, n - 7, r, c);
    P.PatternsStandInSymbol(version, words, mask, Pos(r, c));
    P.PatternsStandInSymbol(version, words, mask, Pos(n - 7 + r, c));
    P.PatternsStandInSymbol(version, words, mask, Pos(r, n - 7 + c));
  }

  lemma OutsideIsLight(row: int, col: int, p: Pos)
    requires p.row < row || p.row > row + 6 || p.col < col || p.col > col + 6
    ensures !Dark(Finder(row, col), p)
  {
  }

  /** The k-th cells of the six lines around the finders. */
  function Separators(n: nat, k: nat): seq<Pos> {
    [Pos(7, k), Pos(k, 7), Pos(n - 8, k), Pos(n - 1 - k, 7), Pos(7, n - 1 - k), Pos(k, n - 8)]
  }

  /** Light separators on the inner sides of the finders. */
  lemma SeparatorsStand(version: nat, words: seq<Byte>, mask: nat, k: nat)
    requires 1 <= version <= 10 && k < 8
    ensures var s := S.SymbolGrid(version, words, mask);
            forall p | p in Separators(Size(version), k) :: p in s && s[p] == Module(false)
  {
    hide S.SymbolGrid, Dark, P.PaintedCentre;
    var n := Size(version);
    forall p | p in Separators(n, k)
      ensures p in S.SymbolGrid(version, words, mask) && S.SymbolGrid(version, words, mask)[p] == Module(false)
    {
      P.PatternsStandInSymbol(version, words, mask, p);
      if p.row <= 7 && p.col <= 7 {
        OutsideIsLight(0, 0, p);
      } else if p.col <= 7 {
        OutsideIsLight(n - 7, 0, p);
      } else {
        OutsideIsLight(0, n - 7, p);
      }
    }
  }

  /** The timing lines between the separators, dark on even places. */
  lemma TimingStands(version: nat, words: seq<Byte>, mask: nat, k: nat)
    requires 1 <= version <= 10 && 8 <= k < Size(version) - 8
    ensures var s := S.SymbolGrid(version, words, mask);
            forall p | p in [Pos(6, k), Pos(k, 6)] :: p in s && s[p] == Module(k % 2 == 0)
  {
    hide S.SymbolGrid, P.PaintedCentre;
    P.PatternsStandInSymbol(version, words, mask, Pos(6, k));
    P.PatternsStandInSymbol(version, words, mask, Pos(k, 6));
  }

  /** The painted alignment patterns. */
  lemma AlignmentStands(version: nat, words: seq<Byte>, mask: nat, row: int, col: int, r: nat, c: nat)
    requires 1 <= version <= 10 && r < 5 && c < 5
    requires row in ALIGNMENT[version - 1] && col in ALIGNMENT[version - 1] && row != 6 && col != 6
    ensures var s, p := S.SymbolGrid(version, words, mask), Pos(row - 2 + r, col - 2 + c);
            p in s && s[p] == Module(AlignmentDark(r, c))
  {
    hide S.SymbolGrid, Dark, AlignmentDark;
    P.PaintedCentres(version, row, col);
    P.Centres(version);
    AlignmentIsPicture(row, col, r, c);
    P.PatternsStandInSymbol(version, words, mask, Pos(row - 2 + r, col - 2 + c));
  }

  // ---- format and version word ----

  /** The number whose bits are the dark cells, the least significant first. */
  ghost function ReadNumber(g: Grid, cells: seq<Pos>): nat {
    if cells == [] then 0
    else (if cells[0] in g && g[cells[0]] == Module(true) then 1 else 0) + 2 * ReadNumber(g, cells[1..])
  }

  /** The format word around the upper left finder, bit 0 first (figure 25 of ISO/IEC 18004:2015). */
  function FormatAtCorner(): seq<Pos> {
    [Pos(0, 8), Pos(1, 8), Pos(2, 8), Pos(3, 8), Pos(4, 8), Pos(5, 8), Pos(7, 8), Pos(8, 8),
     Pos(8, 7), Pos(8, 5), Pos(8, 4), Pos(8, 3), Pos(8, 2), Pos(8, 1), Pos(8, 0)]
  }

  /** The format word divided between the two other finders. */
  function FormatDivided(n: nat): seq<Pos> {
    [Pos(8, n - 1), Pos(8, n - 2), Pos(8, n - 3), Pos(8, n - 4), Pos(8, n - 5), Pos(8, n - 6), Pos(8, n - 7),
     Pos(8, n - 8), Pos(n - 7, 8), Pos(n - 6, 8), Pos(n - 5, 8), Pos(n - 4, 8), Pos(n - 3, 8), Pos(n - 2, 8),
     Pos(n - 1, 8)]
  }

  /** The version word beside the upper right finder, bit 0 first, and its mirror image (figure 28). */
  function VersionAbove(n: nat): seq<Pos> {
    [Pos(0, n - 11), Pos(0, n - 10), Pos(0, n - 9), Pos(1, n - 11), Pos(1, n - 10), Pos(1, n - 9),
     Pos(2, n - 11), Pos(2, n - 10), Pos(2, n - 9), Pos(3, n - 11), Pos(3, n - 10), Pos(3, n - 9),
     Pos(4, n - 11), Pos(4, n - 10), Pos(4, n - 9), Pos(5, n - 11), Pos(5, n - 10), Pos(5, n - 9)]
  }

  function VersionBeside(n: nat): seq<Pos> {
    [Pos(n - 11, 0), Pos(n - 10, 0), Pos(n - 9, 0), Pos(n - 11, 1), Pos(n - 10, 1), Pos(n - 9, 1),
     Pos(n - 11, 2), Pos(n - 10, 2), Pos(n - 9, 2), Pos(n - 11, 3), Pos(n - 10, 3), Pos(n - 9, 3),
     Pos(n - 11, 4), Pos(n - 10, 4), Pos(n - 9, 4), Pos(n - 11, 5), Pos(n - 10, 5), Pos(n - 9, 5)]
  }

  lemma {:induction false} NumberRead(g: Grid, cells: seq<Pos>, x: nat)
    requires x < Pow2(|cells|)
    requires forall i | 0 <= i < |cells| :: cells[i] in g && g[cells[i]] == Module(Bit(x, i))
    ensures ReadNumber(g, cells) == x
    decreases |cells|
  {
    hide Bit;
    if cells != [] {
      forall i | 0 <= i < |cells| - 1 ensures cells[1..][i] in g && g[cells[1..][i]] == Module(Bit(x / 2, i)) {
        var k := i + 1;
        assert cells[1..][i] == cells[k];
        NextBit(x, i);
      }
      NumberRead(g, cells[1..], x / 2);
      FirstBit(x);
    }
  }

  lemma NextBit(x: nat, i: nat)
    ensures Bit(x, i + 1) == Bit(x / 2, i)
  {
  }

  lemma FirstBit(x: nat)
    ensures Bit(x, 0) <==> x % 2 == 1
  {
  }

  lemma FormatPlace(n: nat, i: nat)
    requires n >= 21 && i < 15
    ensures FormatAtCorner()[i] == if i < 8 then FormatA(n, i) else FormatB(n, i)
    ensures FormatDivided(n)[i] == if i < 8 then FormatB(n, i) else FormatA(n, i)
  {
  }

  lemma VersionPlace(n: nat, i: nat)
    requires n >= 21 && i < 18
    ensures VersionAbove(n)[i] == VersionA(n, i) && VersionBeside(n)[i] == VersionB(n, i)
  {
  }

  lemma FormatIsShort(mask: nat)
    requires mask < 8
    ensures B.FormatWord(mask) < Pow2(15)
  {
    hide B.Remainder, B.ShiftLeft, B.Or, B.Xor, Pow2;
    var r := B.Remainder(B.ShiftLeft(8 + mask, 10), 0x537);
    assert B.Degree(0x537) == 10;
    B.RemainderBelow(B.ShiftLeft(8 + mask, 10), 0x537, 10);
    B.MaskedThenJoined(8 + mask, r);
    B.ShiftsAreProducts(1);
    B.XorBelow(r, 0x12, 10);
    TopIsShort(mask);
    Fifteen();
  }

  lemma TopIsShort(mask: nat)
    requires mask < 8
    ensures B.Or(8 + mask, 21) < 32
  {
    hide B.Or;
    B.OrHalves(8 + mask, 21);
    B.OrHalves((8 + mask) / 2, 10);
    B.OrHalves((8 + mask) / 4, 5);
    B.OrHalves((8 + mask) / 8, 2);
    assert (8 + mask) / 8 == 1;
    B.OrXorZero(1);
  }

  lemma Fifteen()
    ensures Pow2(15) == 0x8000 && Pow2(18) == 0x4_0000
  {
    assert Pow2(5) == 32;
    assert Pow2(10) == 1024;
    assert Pow2(15) == 0x8000;
  }

  /** Read at the standard's places, both copies of the format word are the encoder's word. */
  lemma FormatReadsBack(version: nat, words: seq<Byte>, mask: nat)
    requires 1 <= version <= 10 && mask < 8
    ensures var s, n := S.SymbolGrid(version, words, mask), Size(version);
            ReadNumber(s, FormatAtCorner()) == ReadNumber(s, FormatDivided(n)) == B.FormatWord(mask)
  {
    hide S.SymbolGrid, ReadNumber, B.FormatWord, FormatA, FormatB, Bit, Pow2;
    var s, n := S.SymbolGrid(version, words, mask), Size(version);
    FormatIsShort(mask);
    forall i | 0 <= i < 15
      ensures FormatAtCorner()[i] in s && s[FormatAtCorner()[i]] == Module(Bit(B.FormatWord(mask), i))
      ensures FormatDivided(n)[i] in s && s[FormatDivided(n)[i]] == Module(Bit(B.FormatWord(mask), i))
    {
      FormatPlace(n, i);
      S.WordsStandInSymbol(version, words, mask, i);
    }
    NumberRead(s, FormatAtCorner(), B.FormatWord(mask));
    NumberRead(s, FormatDivided(n), B.FormatWord(mask));
  }

  lemma VersionIsShort(version: nat)
    requires version <= 10
    ensures B.VersionWord(version) < Pow2(18)
  {
    hide B.VersionWord;
    var exponents := B.VersionWordIsMultiple(version);
    Fifteen();
  }

  lemma VersionReadsBack(version: nat, words: seq<Byte>, mask: nat)
    requires 7 <= version <= 10
    ensures var s, n := S.SymbolGrid(version, words, mask), Size(version);
            ReadNumber(s, VersionAbove(n)) == ReadNumber(s, VersionBeside(n)) == B.VersionWord(version)
  {
    hide S.SymbolGrid, ReadNumber, B.VersionWord, VersionA, VersionB, Bit, Pow2;
    var s, n := S.SymbolGrid(version, words, mask), Size(version);
    VersionIsShort(version);
    forall i | 0 <= i < 18
      ensures VersionAbove(n)[i] in s && s[VersionAbove(n)[i]] == Module(Bit(B.VersionWord(version), i))
      ensures VersionBeside(n)[i] in s && s[VersionBeside(n)[i]] == Module(Bit(B.VersionWord(version), i))
    {
      VersionPlace(n, i);
      S.WordsStandInSymbol(version, words, mask, i);
    }
    NumberRead(s, VersionAbove(n), B.VersionWord(version));
    NumberRead(s, VersionBeside(n), B.VersionWord(version));
  }

  // ---- the tables ----

  /** Per version at level L: all words, the most bytes of data, the blocks and the check words in each
      (tables 1, 7 and 9 of ISO/IEC 18004:2015). */
  const ALL_WORDS: seq<nat> := [26, 44, 70, 100, 134, 172, 196, 242, 292, 346]
  const MOST_BYTES: seq<nat> := [17, 32, 53, 78, 106, 134, 154, 192, 230, 271]
  const BLOCKS: seq<nat> := [1, 1, 1, 1, 1, 2, 2, 2, 2, 4]
  const CHECK_WORDS: seq<nat> := [7, 10, 15, 20, 26, 18, 20, 24, 30, 18]

  function CountBlocks(table: seq<Block>): nat {
    if table == [] then 0 else table[0].count + CountBlocks(table[1..])
  }

  /** The encoder's table is that of the standard. */
  lemma TablesAreListed(version: nat, size: nat)
    requires 1 <= version <= 10
    ensures S.TotalWords(RS_BLOCKS[version - 1]) == ALL_WORDS[version - 1]
    ensures Fits(size, version) <==> size <= MOST_BYTES[version - 1]
    ensures CountBlocks(RS_BLOCKS[version - 1]) == BLOCKS[version - 1]
    ensures forall b <- RS_BLOCKS[version - 1] :: b.total == b.data + CHECK_WORDS[version - 1]
  {
  }

  /** The centres of alignment patterns: 6, the seventh cell from the end, and from version 7 on the one
      half way between. */
  lemma CentresAreSpaced(version: nat)
    requires 2 <= version <= 10
    ensures var centres, n := ALIGNMENT[version - 1], Size(version);
            && n == 17 + 4 * version && |centres| == (if version < 7 then 2 else 3)
            && centres[0] == 6 && centres[|centres| - 1] == n - 7
            && (version >= 7 ==> 2 * centres[1] == 6 + (n - 7))
  {
  }

  // ---- the other modules ----

  /** The one module that is always dark. */
  lemma DarkModuleStands(version: nat, words: seq<Byte>, mask: nat)
    requires 1 <= version <= 10
    ensures var s, p := S.SymbolGrid(version, words, mask), Pos(4 * version + 9, 8);
            p in s && s[p] == Module(true)
  {
    hide S.SymbolGrid, Frame, WithAlignments, WithFormat, WithVersion, Bit, B.FormatWord, B.VersionWord;
    var size := Size(version);
    var p := Pos(size - 8, 8);
    var aligned := WithAlignments(Frame(size), ALIGNMENT[version - 1], ALIGNMENT[version - 1]);
    var formatted := SetIn(WithFormat(aligned, size, B.FormatWord(mask), 15), p, true);
    P.InsideSquare(size, p);
    S.VersionMisses(formatted, size, B.VersionWord(version), 18, p);
    S.SymbolIsComplete(version, words, mask, p);
  }

  /** A data module is dark exactly when its bit differs from the standard's condition for the mask;
      bits come word by word from the most significant one, zeros behind the last. */
  lemma DataModule(version: nat, words: seq<Byte>, mask: nat, i: nat)
    requires 1 <= version <= 10 && i < |DataCells(version, mask)|
    ensures var s, p := S.SymbolGrid(version, words, mask), DataCells(version, mask)[i];
            && p in s && p.row >= 0 && p.col >= 0
            && s[p] == Module((i < 8 * |words| && Stream(words)[i]) != Inverts(mask, p.row, p.col))
  {
    hide FunctionGrid, DataCells, Placed, Masked, Stream, Bit;
    S.DataCellsAreOpen(version, mask);
    var p := DataCells(version, mask)[i];
    PlacedBit(FunctionGrid(version, mask), DataCells(version, mask), words, mask, i);
    MaskIsStandard(mask, p);
    if i < 8 * |words| {
      StreamBit(words, i);
    }
  }
}
