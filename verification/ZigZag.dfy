/** The zig-zag order in which the data bits fill the symbol, and the placing loop. */
module ZigZag {
  import opened Bits

  datatype Pos = Pos(row: int, col: int)
  datatype Cell = Null | Module(dark: bool)
  type Grid = map<Pos, Cell>

  predicate InSquare(size: nat, p: Pos) {
    0 <= p.row < size && 0 <= p.col < size
  }

  ghost function Square(size: nat): set<Pos> {
    set r: int, c: int | 0 <= r < size && 0 <= c < size :: Pos(r, c)
  }

  /** The value of the module array. */
  ghost function GridOf(modules: array2<Cell>): (g: Grid)
    requires modules.Length0 == modules.Length1
    reads modules
    ensures g.Keys == Square(modules.Length0)
  {
    map p: Pos | p in Square(modules.Length0) :: modules[p.row, p.col]
  }

  ghost function Open(g: Grid): set<Pos> {
    set p <- g.Keys | g[p] == Null
  }

  // ---- the path ----

  predicate Odd(size: nat) {
    size >= 9 && size % 2 == 1
  }

  /** The right column of the k-th strip; column 6 is stepped over. */
  function RightCol(size: nat, k: nat): int {
    var col := size - 1 - 2 * k;
    if col > 6 then col else col - 1
  }

  function Strips(size: nat): nat
    requires Odd(size)
  {
    (size - 1) / 2
  }

  function CellAt(size: nat, k: nat, j: nat): Pos {
    Pos(if k % 2 == 0 then size - 1 - j / 2 else j / 2, RightCol(size, k) - j % 2)
  }

  /** The first n cells of strip k. */
  function Strip(size: nat, k: nat, n: nat): (s: seq<Pos>)
    ensures |s| == n
  {
    if n == 0 then [] else Strip(size, k, n - 1) + [CellAt(size, k, n - 1)]
  }

  /** The first k strips. */
  function Path(size: nat, k: nat): seq<Pos> {
    if k == 0 then [] else Path(size, k - 1) + Strip(size, k - 1, 2 * size)
  }

  function WholePath(size: nat): seq<Pos>
    requires Odd(size)
  {
    Path(size, Strips(size))
  }

  /** The strip a column belongs to. */
  function StripOf(size: nat, col: int): int {
    if col > 6 then (size - 1 - col) / 2 else (size - 2 - col) / 2
  }

  ghost predicate NoDuplicates<T>(s: seq<T>) {
    forall i, j | 0 <= i < j < |s| :: s[i] != s[j]
  }

  lemma {:induction false} StripAt(size: nat, k: nat, n: nat, j: nat)
    requires j < n
    ensures Strip(size, k, n)[j] == CellAt(size, k, j)
    decreases n
  {
    if j < n - 1 {
      StripAt(size, k, n - 1, j);
    }
  }

  lemma CellsDiffer(size: nat, k: nat, i: nat, j: nat)
    requires i != j
    ensures CellAt(size, k, i) != CellAt(size, k, j)
  {
    assert i == 2 * (i / 2) + i % 2 && j == 2 * (j / 2) + j % 2;
  }

  lemma CellInRow(size: nat, k: nat, index: nat, c: nat)
    requires c < 2
    ensures CellAt(size, k, 2 * index + c) == Pos(if k % 2 == 0 then size - 1 - index else index, RightCol(size, k) - c)
  {
    assert (2 * index + c) / 2 == index && (2 * index + c) % 2 == c;
  }

  lemma CellInStrip(size: nat, k: nat, j: nat)
    requires Odd(size) && k < Strips(size) && j < 2 * size
    ensures var p := CellAt(size, k, j);
            InSquare(size, p) && p.col != 6 && StripOf(size, p.col) == k
  {
  }

  lemma {:induction false} StripNoDuplicates(size: nat, k: nat, n: nat)
    ensures NoDuplicates(Strip(size, k, n))
  {
    forall i, j | 0 <= i < j < n ensures Strip(size, k, n)[i] != Strip(size, k, n)[j] {
      StripAt(size, k, n, i);
      StripAt(size, k, n, j);
      CellsDiffer(size, k, i, j);
    }
  }

  /** A cell of the square outside column 6 is in its strip. */
  lemma StripCovers(size: nat, p: Pos)
    requires Odd(size) && InSquare(size, p) && p.col != 6
    ensures var k := StripOf(size, p.col);
            && 0 <= k < Strips(size) && p in Strip(size, k, 2 * size)
  {
    hide Strip, StripOf, RightCol, Strips;
    StripColumn(size, p.col);
    var k := StripOf(size, p.col);
    var index := if k % 2 == 0 then size - 1 - p.row else p.row;
    var side := RightCol(size, k) - p.col;
    var j := 2 * index + side;
    assert j / 2 == index && j % 2 == side;
    StripAt(size, k, 2 * size, j);
  }

  lemma StripColumn(size: nat, col: int)
    requires Odd(size) && 0 <= col < size && col != 6
    ensures var k := StripOf(size, col);
            0 <= k < Strips(size) && 0 <= RightCol(size, k) - col <= 1
  {
    var m := Strips(size);
    assert size == 2 * m + 1;
    var h := col / 2;
    assert col == 2 * h || col == 2 * h + 1;
  }

  lemma StripCells(size: nat, k: nat, n: nat, p: Pos)
    requires Odd(size) && k < Strips(size) && n <= 2 * size && p in Strip(size, k, n)
    ensures InSquare(size, p) && p.col != 6 && StripOf(size, p.col) == k
  {
    var j :| 0 <= j < n && Strip(size, k, n)[j] == p;
    StripAt(size, k, n, j);
    CellInStrip(size, k, j);
  }

  lemma {:induction false} PathCell(size: nat, k: nat, p: Pos)
    requires Odd(size) && k <= Strips(size)
    ensures p in Path(size, k) <==> InSquare(size, p) && p.col != 6 && StripOf(size, p.col) < k
    decreases k
  {
    hide Strip, StripOf, Strips, Odd;
    if InSquare(size, p) && p.col != 6 {
      StripCovers(size, p);
    }
    if k > 0 {
      PathCell(size, k - 1, p);
      if p in Strip(size, k - 1, 2 * size) {
        StripCells(size, k - 1, 2 * size, p);
      }
    }
  }

  /** The first k strips hold exactly the cells of their columns, each once. */
  lemma {:induction false} PathCells(size: nat, k: nat)
    requires Odd(size) && k <= Strips(size)
    ensures forall p :: p in Path(size, k) <==> InSquare(size, p) && p.col != 6 && StripOf(size, p.col) < k
    ensures NoDuplicates(Path(size, k))
    decreases k
  {
    hide Strip, StripOf, InSquare, NoDuplicates, Odd, Strips;
    forall p | p in Path(size, k) ensures InSquare(size, p) && p.col != 6 && StripOf(size, p.col) < k {
      PathCell(size, k, p);
    }
    forall p | InSquare(size, p) && p.col != 6 && StripOf(size, p.col) < k ensures p in Path(size, k) {
      PathCell(size, k, p);
    }
    if k == 0 {
      NoCells<Pos>();
    } else {
      PathCells(size, k - 1);
      StripNoDuplicates(size, k - 1, 2 * size);
      var before, strip := Path(size, k - 1), Strip(size, k - 1, 2 * size);
      forall p | p in strip ensures p !in before {
        StripCells(size, k - 1, 2 * size, p);
      }
      JoinNoDuplicates(before, strip);
    }
  }

  lemma NoCells<T>()
    ensures NoDuplicates<T>([])
  {
  }

  lemma JoinNoDuplicates<T>(a: seq<T>, b: seq<T>)
    requires NoDuplicates(a) && NoDuplicates(b)
    requires forall x <- b :: x !in a
    ensures NoDuplicates(a + b)
  {
    forall i, j | 0 <= i < j < |a + b| ensures (a + b)[i] != (a + b)[j] {
      if j >= |a| {
        assert b[j - |a|] in b;
      }
    }
  }

  /** The zig-zag visits every cell outside column 6 exactly once. */
  lemma PathIsComplete(size: nat)
    requires Odd(size)
    ensures NoDuplicates(WholePath(size))
    ensures forall p :: p in WholePath(size) <==> InSquare(size, p) && p.col != 6
  {
    PathCells(size, Strips(size));
    forall p | InSquare(size, p) && p.col != 6 ensures p in WholePath(size) {
      StripCovers(size, p);
    }
  }

  /** The place of a cell in the order of section 7.7.3 of ISO/IEC 18004:2015: pairs of columns from
      the right, column 6 left out; the first pair upwards, then down and up in turn; in each row the
      right cell first. */
  function PlaceOf(size: nat, p: Pos): int {
    var across := if p.col > 6 then size - 1 - p.col else size - 2 - p.col;
    2 * size * (across / 2) + 2 * (if across / 2 % 2 == 0 then size - 1 - p.row else p.row) + across % 2
  }

  /** k times width, by adding. */
  function Repeated(width: nat, k: nat): nat {
    if k == 0 then 0 else Repeated(width, k - 1) + width
  }

  lemma {:induction false} RepeatedIs(width: nat, k: nat)
    ensures Repeated(width, k) == width * k
    decreases k
  {
    if k > 0 {
      RepeatedIs(width, k - 1);
      assert width * k == width * (k - 1) + width;
    }
  }

  lemma {:induction false} PathLength(size: nat, k: nat)
    ensures |Path(size, k)| == Repeated(2 * size, k)
    decreases k
  {
    hide Strip;
    if k > 0 {
      PathLength(size, k - 1);
    }
  }

  lemma {:induction false} PathAt(size: nat, n: nat, k: nat, j: nat)
    requires k < n && j < 2 * size
    ensures var i := Repeated(2 * size, k) + j;
            i < |Path(size, n)| && Path(size, n)[i] == CellAt(size, k, j)
    decreases n
  {
    hide CellAt, Strip, Repeated;
    PathLength(size, n - 1);
    if k < n - 1 {
      PathAt(size, n - 1, k, j);
    } else {
      StripAt(size, k, 2 * size, j);
    }
  }

  /** The path visits the cells in the standard's order. */
  lemma PathIsStandard(size: nat, p: Pos)
    requires Odd(size) && InSquare(size, p) && p.col != 6
    ensures 0 <= PlaceOf(size, p) < |WholePath(size)| && WholePath(size)[PlaceOf(size, p)] == p
  {
    hide Path, Repeated;
    var k, side := AcrossIs(size, p.col);
    var up: nat := if k % 2 == 0 then size - 1 - p.row else p.row;
    var j: nat := 2 * up + side;
    assert j / 2 == up && j % 2 == side;
    assert PlaceOf(size, p) == 2 * size * k + j;
    RepeatedIs(2 * size, k);
    assert CellAt(size, k, j) == p;
    hide CellAt, PlaceOf, RightCol;
    PathAt(size, Strips(size), k, j);
  }

  lemma AcrossIs(size: nat, col: int) returns (k: nat, side: nat)
    requires Odd(size) && 0 <= col < size && col != 6
    ensures k < Strips(size) && side < 2 && RightCol(size, k) - side == col
    ensures var across := if col > 6 then size - 1 - col else size - 2 - col;
            across / 2 == k && across % 2 == side
  {
    StripColumn(size, col);
    var across := if col > 6 then size - 1 - col else size - 2 - col;
    k, side := across / 2, across % 2;
  }

  // ---- the free cells along the path ----

  ghost function Free(path: seq<Pos>, open: set<Pos>): seq<Pos> {
    if path == [] then []
    else
      var m := |path| - 1;
      Free(path[..m], open) + (if path[m] in open then [path[m]] else [])
  }

  lemma FreeAppend(path: seq<Pos>, p: Pos, open: set<Pos>)
    ensures Free(path + [p], open) == Free(path, open) + (if p in open then [p] else [])
  {
    assert (path + [p])[..|path|] == path;
  }

  lemma {:induction false} FreeCells(path: seq<Pos>, open: set<Pos>)
    ensures forall p :: p in Free(path, open) <==> p in path && p in open
    ensures NoDuplicates(path) ==> NoDuplicates(Free(path, open))
    decreases |path|
  {
    if path != [] {
      var m := |path| - 1;
      FreeCells(path[..m], open);
      assert path == path[..m] + [path[m]];
      if NoDuplicates(path) {
        assert path[m] !in path[..m];
      }
    }
  }

  lemma {:induction false} DistinctCount<T>(s: seq<T>, elements: set<T>)
    requires NoDuplicates(s) && forall x :: x in s <==> x in elements
    ensures |s| == |elements|
    decreases |s|
  {
    if s == [] {
      assert elements == {};
    } else {
      var m := |s| - 1;
      assert s == s[..m] + [s[m]];
      assert s[m] !in s[..m];
      DistinctCount(s[..m], elements - {s[m]});
    }
  }

  // ---- placing ----

  /** Bit i of the word stream; zero behind its end. */
  function DataBit(words: seq<Byte>, i: nat): bool {
    i < 8 * |words| && Bit(words[i / 8], 7 - i % 8)
  }

  function Masked(mask: nat, p: Pos): bool
    requires p.row >= 0 && p.col >= 0
  {
    match mask
    case 0 => (p.row + p.col) % 2 == 0
    case 1 => p.row % 2 == 0
    case 2 => p.col % 3 == 0
    case 3 => (p.row + p.col) % 3 == 0
    case 4 => (p.row / 2 + p.col / 3) % 2 == 0
    case 5 => (p.row * p.col) % 2 + (p.row * p.col) % 3 == 0
    case 6 => ((p.row * p.col) % 2 + (p.row * p.col) % 3) % 2 == 0
    case _ => ((p.row * p.col) % 3 + (p.row + p.col) % 2) % 2 == 0
  }

  ghost predicate Inside(free: seq<Pos>) {
    forall p <- free :: p.row >= 0 && p.col >= 0
  }

  /** The grid with bit i of the words, masked, in the i-th free cell. */
  ghost function Placed(g: Grid, free: seq<Pos>, words: seq<Byte>, mask: nat): Grid
    requires Inside(free)
    decreases |free|
  {
    if free == [] then g
    else
      var m := |free| - 1;
      Placed(g, free[..m], words, mask)[free[m] := Module(DataBit(words, m) != Masked(mask, free[m]))]
  }

  lemma {:induction false} PlacedKeys(g: Grid, free: seq<Pos>, words: seq<Byte>, mask: nat)
    requires Inside(free) && forall p <- free :: p in g
    ensures Placed(g, free, words, mask).Keys == g.Keys
    decreases |free|
  {
    hide DataBit, Masked;
    if free != [] {
      PlacedKeys(g, free[..|free| - 1], words, mask);
      assert free[|free| - 1] in free;
    }
  }

  lemma {:induction false} PlacedAt(g: Grid, free: seq<Pos>, words: seq<Byte>, mask: nat, p: Pos)
    requires Inside(free)
    ensures p !in free ==> (p in Placed(g, free, words, mask) <==> p in g)
    ensures p !in free && p in g ==> Placed(g, free, words, mask)[p] == g[p]
    decreases |free|
  {
    if free != [] {
      var m := |free| - 1;
      assert free == free[..m] + [free[m]];
      PlacedAt(g, free[..m], words, mask, p);
    }
  }

  lemma {:induction false} PlacedBit(g: Grid, free: seq<Pos>, words: seq<Byte>, mask: nat, i: nat)
    requires Inside(free) && NoDuplicates(free) && i < |free|
    ensures free[i] in Placed(g, free, words, mask)
    ensures Placed(g, free, words, mask)[free[i]] == Module(DataBit(words, i) != Masked(mask, free[i]))
    decreases |free|
  {
    var m := |free| - 1;
    if i < m {
      PlacedBit(g, free[..m], words, mask, i);
    }
  }

  /** The condition under which the mask inverts the module in row i and column j, as section
      7.8.2 of ISO/IEC 18004:2015 writes it. */
  predicate Inverts(mask: nat, i: int, j: int)
    requires i >= 0 && j >= 0
  {
    || (mask == 0 && (i + j) % 2 == 0)
    || (mask == 1 && i % 2 == 0)
    || (mask == 2 && j % 3 == 0)
    || (mask == 3 && (i + j) % 3 == 0)
    || (mask == 4 && ((i / 2) + (j / 3)) % 2 == 0)
    || (mask == 5 && (i * j) % 2 + (i * j) % 3 == 0)
    || (mask == 6 && ((i * j) % 2 + (i * j) % 3) % 2 == 0)
    || (mask >= 7 && ((i + j) % 2 + (i * j) % 3) % 2 == 0)
  }

  /** The encoder's conditions are those of the standard. */
  lemma MaskIsStandard(mask: nat, p: Pos)
    requires p.row >= 0 && p.col >= 0
    ensures Masked(mask, p) <==> Inverts(mask, p.row, p.col)
  {
  }

  /** The receiver: the bits of the free cells in path order, unmasked by the standard's conditions. */
  ghost function ReadBack(g: Grid, free: seq<Pos>, mask: nat): (bits: seq<bool>)
    requires Inside(free) && forall p <- free :: p in g && g[p].Module?
    ensures |bits| == |free|
  {
    seq(|free|, i requires 0 <= i < |free| =>
      (assert free[i] in free; g[free[i]].dark != Inverts(mask, free[i].row, free[i].col)))
  }

  /** Reading back gives the words' bits and then zeros. */
  lemma ReadBackPlaced(g: Grid, free: seq<Pos>, words: seq<Byte>, mask: nat)
    requires Inside(free) && NoDuplicates(free) && 8 * |words| <= |free|
    ensures var after := Placed(g, free, words, mask);
            && (forall p <- free :: p in after && after[p].Module?)
            && ReadBack(after, free, mask) == Stream(words) + seq(|free| - 8 * |words|, i => false)
  {
    var after := Placed(g, free, words, mask);
    forall p | p in free ensures p in after && after[p].Module? {
      var i :| 0 <= i < |free| && free[i] == p;
      PlacedBit(g, free, words, mask, i);
    }
    var bits := Stream(words) + seq(|free| - 8 * |words|, i => false);
    forall i | 0 <= i < |free| ensures ReadBack(after, free, mask)[i] == bits[i] {
      PlacedBit(g, free, words, mask, i);
      MaskIsStandard(mask, free[i]);
      if i < 8 * |words| {
        StreamBit(words, i);
      }
    }
  }

  /** What the loop has done after visiting some cells. */
  ghost predicate Progress(modules: array2<Cell>, before: Grid, seen: seq<Pos>, words: seq<Byte>, mask: nat, bit: nat)
    requires modules.Length0 == modules.Length1
    reads modules
  {
    var free := Free(seen, Open(before));
    && Inside(free)
    && bit == |free|
    && GridOf(modules) == Placed(before, free, words, mask)
    && before.Keys == Square(modules.Length0)
  }

  method Write(modules: array2<Cell>, row: int, col: int, cell: Cell)
    requires modules.Length0 == modules.Length1 && InSquare(modules.Length0, Pos(row, col))
    modifies modules
    ensures GridOf(modules) == old(GridOf(modules))[Pos(row, col) := cell]
  {
    modules[row, col] := cell;
  }

  lemma GridAt(modules: array2<Cell>, row: int, col: int)
    requires modules.Length0 == modules.Length1 && InSquare(modules.Length0, Pos(row, col))
    ensures Pos(row, col) in GridOf(modules) && GridOf(modules)[Pos(row, col)] == modules[row, col]
  {
    assert Pos(row, col) in Square(modules.Length0);
  }

  /** Visiting a cell never seen before: it is free exactly when it is null in the array. */
  lemma VisitFresh(g: Grid, before: Grid, seen: seq<Pos>, words: seq<Byte>, mask: nat, p: Pos)
    requires Inside(Free(seen, Open(before))) && p.row >= 0 && p.col >= 0
    requires g == Placed(before, Free(seen, Open(before)), words, mask)
    requires p !in seen && p in before
    ensures p in g && (g[p] == Null <==> p in Open(before))
    ensures var free := Free(seen, Open(before));
            var free' := Free(seen + [p], Open(before));
            && Inside(free')
            && |free'| == |free| + (if g[p] == Null then 1 else 0)
            && Placed(before, free', words, mask)
            == if g[p] == Null then g[p := Module(DataBit(words, |free|) != Masked(mask, p))] else g
  {
    hide Masked, DataBit;
    var free := Free(seen, Open(before));
    FreeCells(seen, Open(before));
    PlacedAt(before, free, words, mask, p);
    FreeAppend(seen, p, Open(before));
    assert (free + [p])[..|free|] == free && free + [] == free;
  }

  method Visit(modules: array2<Cell>, words: seq<Byte>, mask: nat, bit: nat, row: int, col: int,
               ghost before: Grid, ghost seen: seq<Pos>) returns (bit': nat)
    requires modules.Length0 == modules.Length1 && InSquare(modules.Length0, Pos(row, col))
    requires Progress(modules, before, seen, words, mask, bit)
    requires Pos(row, col) !in seen
    modifies modules
    ensures Progress(modules, before, seen + [Pos(row, col)], words, mask, bit')
  {
    hide Masked, Bit, Placed, Free, Open, GridOf, Inside;
    bit' := bit;
    GridAt(modules, row, col);
    VisitFresh(GridOf(modules), before, seen, words, mask, Pos(row, col));
    if modules[row, col] == Null {
      var raw := bit < |words| * 8 && Bit(words[bit / 8], 7 - bit % 8);
      Write(modules, row, col, Module(raw != Masked(mask, Pos(row, col))));
      bit' := bit + 1;
    }
  }

  lemma PathPrefixFresh(size: nat, k: nat, j: nat)
    requires Odd(size) && k < Strips(size) && j < 2 * size
    ensures CellAt(size, k, j) !in Path(size, k) + Strip(size, k, j)
  {
    PathCells(size, k);
    CellInStrip(size, k, j);
    forall i | 0 <= i < j ensures Strip(size, k, j)[i] != CellAt(size, k, j) {
      StripAt(size, k, j, i);
      CellsDiffer(size, k, i, j);
    }
  }

  /** The two columns of one strip. */
  method PlaceStrip(modules: array2<Cell>, words: seq<Byte>, mask: nat, bit: nat, col: int, upward: bool,
                    ghost before: Grid, ghost k: nat) returns (bit': nat)
    requires modules.Length0 == modules.Length1 && Odd(modules.Length0) && k < Strips(modules.Length0)
    requires col == RightCol(modules.Length0, k) && upward == (k % 2 == 0)
    requires Progress(modules, before, Path(modules.Length0, k), words, mask, bit)
    modifies modules
    ensures Progress(modules, before, Path(modules.Length0, k + 1), words, mask, bit')
  {
    hide Progress, Path, RightCol, CellAt, StripOf;
    var size := modules.Length0;
    bit' := bit;
    ghost var path := Path(size, k);
    assert path + Strip(size, k, 0) == path;
    for index := 0 to size
      invariant Progress(modules, before, path + Strip(size, k, 2 * index), words, mask, bit')
    {
      var row := if upward then size - 1 - index else index;
      for c := 0 to 2
        invariant Progress(modules, before, path + Strip(size, k, 2 * index + c), words, mask, bit')
      {
        ghost var j := 2 * index + c;
        CellInRow(size, k, index, c);
        CellInStrip(size, k, j);
        PathPrefixFresh(size, k, j);
        bit' := Visit(modules, words, mask, bit', row, col - c, before, path + Strip(size, k, j));
        assert path + Strip(size, k, j) + [Pos(row, col - c)] == path + Strip(size, k, j + 1);
      }
    }
    PathStep(size, k);
  }

  lemma PathStep(size: nat, k: nat)
    ensures Path(size, k + 1) == Path(size, k) + Strip(size, k, 2 * size) && Path(size, 0) == []
  {
  }

  lemma NoProgress(modules: array2<Cell>, words: seq<Byte>, mask: nat)
    requires modules.Length0 == modules.Length1
    ensures Progress(modules, GridOf(modules), [], words, mask, 0)
  {
  }

  lemma AllPlaced(modules: array2<Cell>, before: Grid, words: seq<Byte>, mask: nat, bit: nat)
    requires modules.Length0 == modules.Length1 && Odd(modules.Length0)
    requires Progress(modules, before, Path(modules.Length0, Strips(modules.Length0)), words, mask, bit)
    ensures Inside(Free(WholePath(modules.Length0), Open(before)))
    ensures GridOf(modules) == Placed(before, Free(WholePath(modules.Length0), Open(before)), words, mask)
  {
  }

  /** The encoder's column variable when strip k starts, before column 6 is stepped over. */
  function ColumnBefore(size: nat, k: nat): int {
    if size - 1 - 2 * k >= 6 then size - 1 - 2 * k else size - 2 - 2 * k
  }

  lemma FirstColumn(size: nat)
    requires Odd(size)
    ensures ColumnBefore(size, 0) == size - 1 && Strips(size) >= 0
  {
  }

  lemma ColumnSteps(size: nat, k: nat)
    requires Odd(size) && k <= Strips(size)
    ensures ColumnBefore(size, k) > 0 <==> k < Strips(size)
    ensures ColumnBefore(size, k) > 0 ==>
              var right := if ColumnBefore(size, k) == 6 then 5 else ColumnBefore(size, k);
              right == RightCol(size, k) && ColumnBefore(size, k + 1) == right - 2
    ensures (k + 1) % 2 == 0 <==> k % 2 != 0
  {
    var m := Strips(size);
    assert size == 2 * m + 1;
  }

  /** The placing loop of the encoder, for any function pattern already in the array. */
  method PlaceData(modules: array2<Cell>, words: seq<Byte>, mask: nat)
    requires modules.Length0 == modules.Length1 && Odd(modules.Length0)
    modifies modules
    ensures Inside(Free(WholePath(modules.Length0), old(Open(GridOf(modules)))))
    ensures GridOf(modules)
         == Placed(old(GridOf(modules)), Free(WholePath(modules.Length0), old(Open(GridOf(modules)))), words, mask)
  {
    hide Progress, Placed, Free, Open, GridOf, Inside, Path, Strip, WholePath, Strips, RightCol, ColumnBefore, Odd;
    var size := modules.Length0;
    ghost var before := GridOf(modules);
    var bit := 0;
    var upward := true;
    var col := size - 1;
    ghost var k := 0;
    FirstColumn(size);
    NoProgress(modules, words, mask);
    PathStep(size, 0);
    while col > 0
      invariant 0 <= k <= Strips(size)
      invariant upward == (k % 2 == 0)
      invariant col == ColumnBefore(size, k)
      invariant Progress(modules, before, Path(size, k), words, mask, bit)
      decreases col
    {
      ColumnSteps(size, k);
      if col == 6 {
        col := col - 1;
      }
      bit := PlaceStrip(modules, words, mask, bit, col, upward, before, k);
      upward := !upward;
      col := col - 2;
      k := k + 1;
    }
    ColumnSteps(size, k);
    AllPlaced(modules, before, words, mask, bit);
  }
}
