/** Splitting data words into blocks, adding error-correction words, and interleaving the
    blocks column by column (section 7.6 of ISO/IEC 18004:2015), with the inverse. */
module Interleaving {
  import opened Bits
  import opened Codewords
  import G = Gf256
  import RS = ReedSolomon

  // ---- column order ----

  function MaxOf(lens: seq<nat>): nat {
    if lens == [] then 0
    else
      var rest := MaxOf(lens[1..]);
      if lens[0] > rest then lens[0] else rest
  }

  function Total(lens: seq<nat>): nat {
    if lens == [] then 0 else lens[0] + Total(lens[1..])
  }

  function Lengths<T>(rows: seq<seq<T>>): (r: seq<nat>)
    ensures |r| == |rows| && forall b | 0 <= b < |rows| :: r[b] == |rows[b]|
  {
    seq(|rows|, b requires 0 <= b < |rows| => |rows[b]|)
  }

  /** The i-th elements of the rows that have one. */
  function Column<T>(rows: seq<seq<T>>, i: nat): seq<T> {
    if rows == [] then []
    else (if i < |rows[0]| then [rows[0][i]] else []) + Column(rows[1..], i)
  }

  function Columns<T>(rows: seq<seq<T>>, n: nat): seq<T> {
    if n == 0 then [] else Columns(rows, n - 1) + Column(rows, n - 1)
  }

  /** How many of the rows reach column i. */
  function Reaching(lens: seq<nat>, i: nat): nat {
    if lens == [] then 0 else (if i < lens[0] then 1 else 0) + Reaching(lens[1..], i)
  }

  /** Where column i starts. */
  function Start(lens: seq<nat>, i: nat): nat {
    if i == 0 then 0 else Start(lens, i - 1) + Reaching(lens, i - 1)
  }

  /** Where element i of row b is found. */
  function Position(lens: seq<nat>, b: nat, i: nat): nat
    requires b <= |lens|
  {
    Start(lens, i) + Reaching(lens[..b], i)
  }

  /** The de-interleaver: reads every row back from its positions. */
  function Rows<T>(stream: seq<T>, lens: seq<nat>): (rows: seq<seq<T>>)
    requires Total(lens) <= |stream|
    ensures Lengths(rows) == lens
  {
    seq(|lens|, b requires 0 <= b < |lens| =>
      seq(lens[b], i requires 0 <= i < lens[b] =>
        PositionInRange(lens, b, i); stream[Position(lens, b, i)]))
  }

  lemma {:induction false} ReachingBefore(lens: seq<nat>, b: nat, i: nat)
    requires b < |lens| && i < lens[b]
    ensures Reaching(lens[..b], i) < Reaching(lens, i)
    decreases b
  {
    if b > 0 {
      assert lens[..b][1..] == lens[1..][..b - 1];
      ReachingBefore(lens[1..], b - 1, i);
    }
  }

  lemma {:induction false} ReachingAfterMax(lens: seq<nat>, i: nat)
    ensures MaxOf(lens) <= i ==> Reaching(lens, i) == 0
    ensures Reaching(lens, i) > 0 ==> i < MaxOf(lens)
  {
    if lens != [] {
      ReachingAfterMax(lens[1..], i);
    }
  }

  /** Counting by columns and counting by rows give the same number of elements. */
  lemma {:induction false} StartByRows(lens: seq<nat>, n: nat)
    ensures Start(lens, n) <= Total(lens)
    ensures lens != [] ==> Start(lens, n) == (if n < lens[0] then n else lens[0]) + Start(lens[1..], n)
    ensures MaxOf(lens) <= n ==> Start(lens, n) == Total(lens)
    decreases |lens|, n
  {
    if n > 0 {
      StartByRows(lens, n - 1);
    }
    if lens != [] {
      StartByRows(lens[1..], n);
    } else if n > 0 {
      assert Reaching(lens, n - 1) == 0;
    }
  }

  lemma PositionInRange(lens: seq<nat>, b: nat, i: nat)
    requires b < |lens| && i < lens[b]
    ensures Position(lens, b, i) < Total(lens)
  {
    ReachingBefore(lens, b, i);
    StartByRows(lens, i + 1);
  }

  lemma {:induction false} ColumnAt<T>(rows: seq<seq<T>>, i: nat, b: nat)
    requires b < |rows| && i < |rows[b]|
    ensures |Column(rows, i)| == Reaching(Lengths(rows), i)
    ensures Reaching(Lengths(rows)[..b], i) < |Column(rows, i)|
    ensures Column(rows, i)[Reaching(Lengths(rows)[..b], i)] == rows[b][i]
    decreases |rows|
  {
    var lens := Lengths(rows);
    ColumnLength(rows, i);
    ReachingBefore(lens, b, i);
    assert Lengths(rows[1..]) == lens[1..];
    if b > 0 {
      assert lens[..b][1..] == lens[1..][..b - 1];
      ColumnAt(rows[1..], i, b - 1);
    }
  }

  lemma {:induction false} ColumnLength<T>(rows: seq<seq<T>>, i: nat)
    ensures |Column(rows, i)| == Reaching(Lengths(rows), i)
  {
    if rows != [] {
      assert Lengths(rows[1..]) == Lengths(rows)[1..];
      ColumnLength(rows[1..], i);
    }
  }

  lemma {:induction false} ColumnsAt<T>(rows: seq<seq<T>>, n: nat, b: nat, i: nat)
    requires b < |rows| && i < |rows[b]| && i < n
    ensures |Columns(rows, n)| == Start(Lengths(rows), n)
    ensures Position(Lengths(rows), b, i) < |Columns(rows, n)|
    ensures Columns(rows, n)[Position(Lengths(rows), b, i)] == rows[b][i]
    decreases n
  {
    hide Column, Reaching, Lengths;
    ColumnLength(rows, n - 1);
    ColumnsLength(rows, n - 1);
    ColumnAt(rows, i, b);
    if i < n - 1 {
      ColumnsAt(rows, n - 1, b, i);
    }
  }

  lemma {:induction false} ColumnsLength<T>(rows: seq<seq<T>>, n: nat)
    ensures |Columns(rows, n)| == Start(Lengths(rows), n)
    decreases n
  {
    hide Column, Reaching, Lengths;
    if n > 0 {
      ColumnLength(rows, n - 1);
      ColumnsLength(rows, n - 1);
    }
  }

  /** De-interleaving recovers every row, whatever the row lengths, even with more text behind. */
  lemma RowsOfColumns<T>(rows: seq<seq<T>>, tail: seq<T>)
    ensures |Columns(rows, MaxOf(Lengths(rows)))| == Total(Lengths(rows))
    ensures Rows(Columns(rows, MaxOf(Lengths(rows))) + tail, Lengths(rows)) == rows
  {
    var lens := Lengths(rows);
    var n := MaxOf(lens);
    ColumnsLength(rows, n);
    StartByRows(lens, n);
    var stream := Columns(rows, n) + tail;
    forall b, i | 0 <= b < |rows| && 0 <= i < |rows[b]| ensures Rows(stream, lens)[b][i] == rows[b][i] {
      ReachingBefore(lens, b, i);
      ReachingAfterMax(lens, i);
      ColumnsAt(rows, n, b, i);
    }
    assert forall b | 0 <= b < |rows| :: |Rows(stream, lens)[b]| == Lengths(Rows(stream, lens))[b];
    assert forall b | 0 <= b < |rows| :: Rows(stream, lens)[b] == rows[b];
  }

  // ---- nothing is lost or duplicated ----

  function Concat<T>(rows: seq<seq<T>>): seq<T> {
    if rows == [] then [] else rows[0] + Concat(rows[1..])
  }

  /** Every row cut off after n elements. */
  function Cut<T>(rows: seq<seq<T>>, n: nat): (r: seq<seq<T>>)
    ensures |r| == |rows|
  {
    seq(|rows|, b requires 0 <= b < |rows| => if n < |rows[b]| then rows[b][..n] else rows[b])
  }

  lemma {:induction false} CutGrows<T>(rows: seq<seq<T>>, n: nat)
    ensures multiset(Concat(Cut(rows, n + 1))) == multiset(Concat(Cut(rows, n))) + multiset(Column(rows, n))
    decreases |rows|
  {
    hide Cut, Concat;
    if rows == [] {
      NothingCut<T>(n);
    } else {
      CutFirst(rows, n);
      CutFirst(rows, n + 1);
      CutGrows(rows[1..], n);
      var c, head := Cut(rows, n)[0], if n < |rows[0]| then [rows[0][n]] else [];
      assert Cut(rows, n + 1)[0] == c + head;
      Regroup(c, head, Concat(Cut(rows[1..], n)), Concat(Cut(rows[1..], n + 1)), Column(rows[1..], n));
    }
  }

  lemma Regroup<T>(c: seq<T>, head: seq<T>, rest: seq<T>, more: seq<T>, column: seq<T>)
    requires multiset(more) == multiset(rest) + multiset(column)
    ensures multiset((c + head) + more) == multiset(c + rest) + multiset(head + column)
  {
  }

  lemma NothingCut<T>(n: nat)
    ensures Concat(Cut<T>([], n)) == [] == Concat(Cut<T>([], n + 1))
  {
  }

  lemma CutFirst<T>(rows: seq<seq<T>>, n: nat)
    requires rows != []
    ensures Cut(rows, n)[0] == if n < |rows[0]| then rows[0][..n] else rows[0]
    ensures Concat(Cut(rows, n)) == Cut(rows, n)[0] + Concat(Cut(rows[1..], n))
  {
    assert Cut(rows, n)[1..] == Cut(rows[1..], n);
  }

  lemma {:induction false} ColumnsAreCut<T>(rows: seq<seq<T>>, n: nat)
    ensures multiset(Columns(rows, n)) == multiset(Concat(Cut(rows, n)))
    decreases n
  {
    hide Column, Cut, Concat;
    if n > 0 {
      ColumnsAreCut(rows, n - 1);
      CutGrows(rows, n - 1);
    } else {
      CutAtZero(rows);
    }
  }

  lemma {:induction false} CutAtZero<T>(rows: seq<seq<T>>)
    ensures Concat(Cut(rows, 0)) == []
  {
    if rows != [] {
      assert Cut(rows, 0)[1..] == Cut(rows[1..], 0);
      CutAtZero(rows[1..]);
    }
  }

  lemma {:induction false} MaxOfBounds(lens: seq<nat>, b: nat)
    requires b < |lens|
    ensures lens[b] <= MaxOf(lens)
    decreases |lens|
  {
    if b > 0 {
      MaxOfBounds(lens[1..], b - 1);
    }
  }

  /** Column order is a permutation of row order. */
  lemma ColumnsPermute<T>(rows: seq<seq<T>>)
    ensures multiset(Columns(rows, MaxOf(Lengths(rows)))) == multiset(Concat(rows))
  {
    var n := MaxOf(Lengths(rows));
    ColumnsAreCut(rows, n);
    forall b | 0 <= b < |rows| ensures Cut(rows, n)[b] == rows[b] {
      MaxOfBounds(Lengths(rows), b);
    }
    assert Cut(rows, n) == rows;
  }

  // ---- blocks ----

  predicate SaneTable(table: seq<Block>) {
    forall row <- table :: row.data <= row.total <= row.data + 512
  }

  /** The data and error-correction lengths of all blocks, in order. */
  function DataSizes(table: seq<Block>): seq<nat> {
    if table == [] then [] else Repeat(table[0].count, table[0].data, DataSizes(table[1..]))
  }

  function Repeat(n: nat, x: nat, rest: seq<nat>): (r: seq<nat>)
    ensures |r| == n + |rest|
  {
    if n == 0 then rest else [x] + Repeat(n - 1, x, rest)
  }

  function EccSizes(table: seq<Block>): (r: seq<nat>)
    requires SaneTable(table)
  {
    if table == [] then []
    else Repeat(table[0].count, table[0].total - table[0].data, EccSizes(table[1..]))
  }

  lemma {:induction false} SizesMatch(table: seq<Block>)
    requires SaneTable(table)
    ensures |EccSizes(table)| == |DataSizes(table)|
  {
    if table != [] {
      SizesMatch(table[1..]);
    }
  }

  /** A slice with both ends clipped to the list, as the encoder's slice does. */
  function Slice(words: seq<Byte>, from: nat, to: nat): seq<Byte>
    requires from <= to
  {
    var low := if from < |words| then from else |words|;
    var high := if to < |words| then to else |words|;
    words[low..high]
  }

  function Split(words: seq<Byte>, from: nat, sizes: seq<nat>): (parts: seq<seq<Byte>>)
    ensures |parts| == |sizes|
    decreases |sizes|
  {
    if sizes == [] then []
    else [Slice(words, from, from + sizes[0])] + Split(words, from + sizes[0], sizes[1..])
  }

  lemma {:induction false} SplitAppend(words: seq<Byte>, from: nat, sizes: seq<nat>, n: nat)
    ensures Split(words, from, sizes + [n])
         == Split(words, from, sizes) + [Slice(words, from + Total(sizes), from + Total(sizes) + n)]
    ensures Total(sizes + [n]) == Total(sizes) + n
    decreases |sizes|
  {
    if sizes != [] {
      assert (sizes + [n])[1..] == sizes[1..] + [n];
      SplitAppend(words, from + sizes[0], sizes[1..], n);
    }
  }

  /** When the sizes add up to the words, splitting loses nothing. */
  lemma {:induction false} SplitExact(words: seq<Byte>, from: nat, sizes: seq<nat>)
    requires from + Total(sizes) == |words|
    ensures Lengths(Split(words, from, sizes)) == sizes
    ensures Concat(Split(words, from, sizes)) == words[from..]
    decreases |sizes|
  {
    if sizes != [] {
      var parts := Split(words, from, sizes);
      SplitExact(words, from + sizes[0], sizes[1..]);
      assert parts[1..] == Split(words, from + sizes[0], sizes[1..]);
      assert Lengths(parts)[1..] == Lengths(parts[1..]) == sizes[1..];
    }
  }

  function ToField(words: seq<Byte>): seq<bv8> {
    seq(|words|, i requires 0 <= i < |words| => words[i] as bv8)
  }

  function FromField(words: seq<bv8>): (r: seq<Byte>)
    ensures |r| == |words|
  {
    seq(|words|, i requires 0 <= i < |words| => words[i] as int)
  }

  /** The error-correction words of one block. */
  ghost function Ecc(part: seq<Byte>, n: nat): (r: seq<Byte>)
    ensures |r| == n
  {
    FromField(RS.Residue(ToField(part), RS.Divisor(n)))
  }

  ghost function Eccs(parts: seq<seq<Byte>>, sizes: seq<nat>): (r: seq<seq<Byte>>)
    requires |parts| == |sizes|
    ensures Lengths(r) == sizes
  {
    seq(|parts|, b requires 0 <= b < |parts| => Ecc(parts[b], sizes[b]))
  }

  /** The whole stream the encoder emits for a block table. */
  ghost function Interleaved(words: seq<Byte>, table: seq<Block>): seq<Byte>
    requires SaneTable(table)
  {
    SizesMatch(table);
    var parts := Split(words, 0, DataSizes(table));
    var eccs := Eccs(parts, EccSizes(table));
    Columns(parts, MaxOf(Lengths(parts))) + Columns(eccs, MaxOf(Lengths(eccs)))
  }

  method Longest(rows: seq<seq<Byte>>) returns (n: nat)
    ensures n == MaxOf(Lengths(rows))
  {
    n := 0;
    var b := |rows|;
    while b > 0
      invariant 0 <= b <= |rows|
      invariant n == MaxOf(Lengths(rows)[b..])
    {
      b := b - 1;
      assert Lengths(rows)[b..][1..] == Lengths(rows)[b + 1..];
      if |rows[b]| > n {
        n := |rows[b]|;
      }
    }
    assert Lengths(rows)[0..] == Lengths(rows);
  }

  method AppendColumn(result: seq<Byte>, rows: seq<seq<Byte>>, i: nat) returns (more: seq<Byte>)
    ensures more == result + Column(rows, i)
  {
    more := result;
    assert rows[0..] == rows;
    for b := 0 to |rows|
      invariant more + Column(rows[b..], i) == result + Column(rows, i)
    {
      assert rows[b..][1..] == rows[b + 1..];
      if i < |rows[b]| {
        more := more + [rows[b][i]];
      }
    }
  }

  /** The two column loops of the encoder. */
  method Weave(rows: seq<seq<Byte>>) returns (result: seq<Byte>)
    ensures result == Columns(rows, MaxOf(Lengths(rows)))
  {
    result := [];
    var n := Longest(rows);
    for i := 0 to n
      invariant result == Columns(rows, i)
    {
      result := AppendColumn(result, rows, i);
    }
  }

  /** The state of the block loop: the blocks cut so far, and where the next one starts. */
  ghost predicate CutSoFar(words: seq<Byte>, offset: nat, parts: seq<seq<Byte>>, eccs: seq<seq<Byte>>,
                           dataSizes: seq<nat>, eccSizes: seq<nat>) {
    && |dataSizes| == |eccSizes|
    && offset == Total(dataSizes)
    && parts == Split(words, 0, dataSizes)
    && eccs == Eccs(parts, eccSizes)
  }

  method AddBlock(t: G.Tables, words: seq<Byte>, offset: nat, data: nat, eccLength: nat, parts: seq<seq<Byte>>,
                  eccs: seq<seq<Byte>>, ghost dataSizes: seq<nat>, ghost eccSizes: seq<nat>)
    returns (parts': seq<seq<Byte>>, eccs': seq<seq<Byte>>)
    requires t.Valid() && eccLength <= 512
    requires CutSoFar(words, offset, parts, eccs, dataSizes, eccSizes)
    ensures CutSoFar(words, offset + data, parts', eccs', dataSizes + [data], eccSizes + [eccLength])
  {
    hide Split, Slice, Eccs, Total, Lengths, RS.Residue, RS.Divisor;
    var part := Slice(words, offset, offset + data);
    SplitAppend(words, 0, dataSizes, data);
    EccsAppend(parts, eccSizes, part, eccLength);
    var ecc := RS.Remainder(t, ToField(part), eccLength);
    parts', eccs' := parts + [part], eccs + [FromField(ecc)];
  }

  lemma EccsAppend(parts: seq<seq<Byte>>, sizes: seq<nat>, part: seq<Byte>, n: nat)
    requires |parts| == |sizes|
    ensures Eccs(parts + [part], sizes + [n]) == Eccs(parts, sizes) + [Ecc(part, n)]
  {
    hide Ecc;
  }

  method AddRow(t: G.Tables, words: seq<Byte>, offset: nat, row: Block, parts: seq<seq<Byte>>,
                eccs: seq<seq<Byte>>, ghost dataSizes: seq<nat>, ghost eccSizes: seq<nat>)
    returns (offset': nat, parts': seq<seq<Byte>>, eccs': seq<seq<Byte>>)
    requires t.Valid() && row.data <= row.total <= row.data + 512
    requires CutSoFar(words, offset, parts, eccs, dataSizes, eccSizes)
    ensures CutSoFar(words, offset', parts', eccs', dataSizes + Repeat(row.count, row.data, []),
                     eccSizes + Repeat(row.count, row.total - row.data, []))
  {
    hide CutSoFar;
    offset', parts', eccs' := offset, parts, eccs;
    var Block(count, total, data) := row;
    var eccLength: nat := total - data;
    ghost var ds, es := dataSizes, eccSizes;
    for i := 0 to count
      invariant ds + Repeat(count - i, data, []) == dataSizes + Repeat(count, data, [])
      invariant es + Repeat(count - i, eccLength, []) == eccSizes + Repeat(count, eccLength, [])
      invariant CutSoFar(words, offset', parts', eccs', ds, es)
    {
      parts', eccs' := AddBlock(t, words, offset', data, eccLength, parts', eccs', ds, es);
      offset' := offset' + data;
      ds, es := ds + [data], es + [eccLength];
    }
    assert ds == ds + Repeat(0, data, []) && es == es + Repeat(0, eccLength, []);
  }

  method Interleave(t: G.Tables, words: seq<Byte>, table: seq<Block>) returns (result: seq<Byte>)
    requires t.Valid() && SaneTable(table)
    ensures result == Interleaved(words, table)
  {
    hide CutSoFar, Interleaved, RS_BLOCKS;
    var parts: seq<seq<Byte>>, eccs: seq<seq<Byte>> := [], [];
    var offset := 0;
    CutNothing(words);
    assert DataSizes(table[..0]) == [] && EccSizes(table[..0]) == [];
    for row := 0 to |table|
      invariant CutSoFar(words, offset, parts, eccs, DataSizes(table[..row]), EccSizes(table[..row]))
    {
      SizesAppend(table[..row], table[row]);
      assert table[..row + 1] == table[..row] + [table[row]];
      assert table[row] in table;
      offset, parts, eccs := AddRow(t, words, offset, table[row], parts, eccs,
                                    DataSizes(table[..row]), EccSizes(table[..row]));
    }
    assert table[..|table|] == table;
    var front := Weave(parts);
    var back := Weave(eccs);
    result := front + back;
    CutAll(words, offset, parts, eccs, table);
  }

  lemma {:induction false} RepeatThen(n: nat, x: nat, rest: seq<nat>, more: seq<nat>)
    ensures Repeat(n, x, rest) + more == Repeat(n, x, rest + more)
    decreases n
  {
    if n > 0 {
      RepeatThen(n - 1, x, rest, more);
    }
  }

  lemma {:induction false} SizesAppend(table: seq<Block>, row: Block)
    requires SaneTable(table + [row])
    ensures DataSizes(table + [row]) == DataSizes(table) + Repeat(row.count, row.data, [])
    ensures row in table + [row]
    ensures EccSizes(table + [row]) == EccSizes(table) + Repeat(row.count, row.total - row.data, [])
  {
    var all := table + [row];
    assert all[|table|] == row;
    if table != [] {
      assert all[1..] == table[1..] + [row];
      SizesAppend(table[1..], row);
      RepeatThen(table[0].count, table[0].data, DataSizes(table[1..]), Repeat(row.count, row.data, []));
      RepeatThen(table[0].count, table[0].total - table[0].data, EccSizes(table[1..]),
                 Repeat(row.count, row.total - row.data, []));
    }
  }

  lemma CutNothing(words: seq<Byte>)
    ensures CutSoFar(words, 0, [], [], [], [])
  {
  }

  lemma CutAll(words: seq<Byte>, offset: nat, parts: seq<seq<Byte>>, eccs: seq<seq<Byte>>, table: seq<Block>)
    requires SaneTable(table)
    requires CutSoFar(words, offset, parts, eccs, DataSizes(table), EccSizes(table))
    ensures Interleaved(words, table) == Columns(parts, MaxOf(Lengths(parts))) + Columns(eccs, MaxOf(Lengths(eccs)))
  {
  }

  /** The receiver's view: when the words fill the table exactly, the stream gives back every
      block's data and error-correction words, and joining the data gives the words. */
  lemma InterleaveInverse(words: seq<Byte>, table: seq<Block>)
    requires SaneTable(table) && |words| == Total(DataSizes(table))
    ensures var stream := Interleaved(words, table);
            var parts := Split(words, 0, DataSizes(table));
            && |DataSizes(table)| == |EccSizes(table)|
            && |stream| == |words| + Total(EccSizes(table))
            && Rows(stream, DataSizes(table)) == parts
            && Rows(stream[|words|..], EccSizes(table)) == Eccs(parts, EccSizes(table))
            && Concat(parts) == words
            && multiset(stream[..|words|]) == multiset(words)
            && multiset(stream[|words|..]) == multiset(Concat(Eccs(parts, EccSizes(table))))
  {
    SizesMatch(table);
    var parts := Split(words, 0, DataSizes(table));
    var eccs := Eccs(parts, EccSizes(table));
    var front, back := Columns(parts, MaxOf(Lengths(parts))), Columns(eccs, MaxOf(Lengths(eccs)));
    SplitExact(words, 0, DataSizes(table));
    RowsOfColumns(parts, back);
    RowsOfColumns(eccs, []);
    assert back + [] == back;
    var stream := Interleaved(words, table);
    assert stream[|words|..] == back && stream[..|words|] == front;
    ColumnsPermute(parts);
    ColumnsPermute(eccs);
  }
}
