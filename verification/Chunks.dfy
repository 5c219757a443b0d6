/** Chunk arithmetic shared by the upload handlers and the browser. */
module Chunks {
  const MIB: int := 0x10_0000
  const MIN_CHUNK: int := 5 * MIB
  const MAX_CHUNK: int := 95 * MIB
  const TARGET_PARTS: int := 64
  const INT64_LIMIT: int := 0x8000_0000_0000_0000

  /** 64-bit two's complement. */
  function Wrap(x: int): int {
    (x + INT64_LIMIT) % (2 * INT64_LIMIT) - INT64_LIMIT
  }

  /** Division that truncates toward zero. */
  function Quotient(a: int, b: int): int
    requires b > 0
  {
    if a >= 0 then a / b else -((-a) / b)
  }

  function Min(a: int, b: int): int {
    if a < b then a else b
  }

  function Max(a: int, b: int): int {
    if a < b then b else a
  }

  /** The automatic chunk size, on 64-bit integers. */
  function AutoChunkSize(size: int): int {
    var c := Quotient(Wrap(size + TARGET_PARTS - 1), TARGET_PARTS);
    var whole := Wrap(Wrap(c + MIB - 1) / MIB * MIB);
    Min(Max(whole, MIN_CHUNK), MAX_CHUNK)
  }

  /** The number of chunks, on 64-bit integers. */
  function ChunkCount(size: int, chunkSize: int): int
    requires chunkSize > 0
  {
    Quotient(Wrap(size + chunkSize - 1), chunkSize)
  }

  predicate WholeMiB(s: int) {
    s % MIB == 0
  }

  lemma AutoChunkSizeExact(size: int)
    requires 0 < size <= INT64_LIMIT - TARGET_PARTS
    ensures AutoChunkSize(size)
         == Min(Max(((size + TARGET_PARTS - 1) / TARGET_PARTS + MIB - 1) / MIB * MIB, MIN_CHUNK), MAX_CHUNK)
  {
    var c := (size + TARGET_PARTS - 1) / TARGET_PARTS;
    assert Wrap(size + TARGET_PARTS - 1) == size + TARGET_PARTS - 1;
    assert Wrap(c + MIB - 1) == c + MIB - 1;
  }

  /** Rounding up to whole MiB. */
  lemma WholeAbove(c: int) returns (whole: int)
    ensures whole == (c + MIB - 1) / MIB * MIB && whole % MIB == 0 && c <= whole < c + MIB
    ensures forall s | s % MIB == 0 && c <= s :: whole <= s
  {
    whole := (c + MIB - 1) / MIB * MIB;
    forall s | s % MIB == 0 && c <= s ensures whole <= s {
      assert s == MIB * (s / MIB);
    }
  }

  /** Up to 64 chunks of 95 MiB the size is the least whole number of MiB, at least 5, that
      needs at most 64 chunks; beyond that it is 95 MiB. */
  lemma AutoChunkSizeIsLeast(size: int)
    requires 0 < size <= 0x7fff_ffff_ffff_ffc0
    ensures var c := AutoChunkSize(size);
            && c % 0x10_0000 == 0 && 5 * 0x10_0000 <= c <= 95 * 0x10_0000
            && (size <= 6080 * 0x10_0000 ==> size <= 64 * c)
            && (size <= 6080 * 0x10_0000 ==>
                  forall s | WholeMiB(s) && s >= 5 * 0x10_0000 && size <= 64 * s :: c <= s)
            && (size > 6080 * 0x10_0000 ==> c == 95 * 0x10_0000)
    ensures forall s :: WholeMiB(s) <==> s % 0x10_0000 == 0
  {
    AutoChunkSizeExact(size);
    hide AutoChunkSize;
    var c := (size + TARGET_PARTS - 1) / TARGET_PARTS;
    var whole := WholeAbove(c);
    assert size <= TARGET_PARTS * c < size + TARGET_PARTS;
  }

  lemma AutoChunkSizeMonotone(a: int, b: int)
    requires 0 < a <= b <= 0x7fff_ffff_ffff_ffc0
    ensures AutoChunkSize(a) <= AutoChunkSize(b)
  {
    hide AutoChunkSize;
    AutoChunkSizeIsLeast(a);
    AutoChunkSizeIsLeast(b);
    assert WholeMiB(AutoChunkSize(b));
  }

  /** Among all positive 64-bit sizes the sum overflows exactly above 2^63 - 64, and then the
      smallest chunk size comes out instead of the largest. */
  lemma AutoChunkSizeOverflow(size: int)
    requires 0 < size <= 0x7fff_ffff_ffff_ffff
    ensures size > 0x7fff_ffff_ffff_ffc0 ==> AutoChunkSize(size) == 5 * 0x10_0000
    ensures size > 6080 * 0x10_0000 ==> (AutoChunkSize(size) == 95 * 0x10_0000 <==> size <= 0x7fff_ffff_ffff_ffc0)
  {
    if size <= INT64_LIMIT - TARGET_PARTS {
      AutoChunkSizeIsLeast(size);
    } else {
      var sum := size + TARGET_PARTS - 1;
      assert Wrap(sum) == sum - 2 * INT64_LIMIT;
      var c := Quotient(Wrap(sum), TARGET_PARTS);
      assert Wrap(c + MIB - 1) == c + MIB - 1 < 0;
    }
  }

  // ---- geometry of one upload ----

  /** total chunks of chunkSize cover size bytes and the last one is not empty. */
  predicate Geometry(size: int, chunkSize: int, total: int) {
    chunkSize > 0 && total > 0 && (total - 1) * chunkSize < size <= total * chunkSize
  }

  lemma DividesOnce(a: int, b: int)
    requires a >= b > 0
    ensures a / b >= 1
  {
  }

  /** The stored chunk count is the true one, or negative when the 64-bit sum overflowed. */
  lemma ChunkCountIsGeometry(size: int, chunkSize: int)
    requires 0 < size < 0x8000_0000_0000_0000 && 0 < chunkSize < 0x4000_0000_0000_0000
    ensures size + chunkSize <= 0x8000_0000_0000_0000 ==> Geometry(size, chunkSize, ChunkCount(size, chunkSize))
    ensures size + chunkSize > 0x8000_0000_0000_0000 ==> ChunkCount(size, chunkSize) < 0
  {
    var sum := size + chunkSize - 1;
    if sum < INT64_LIMIT {
      assert Wrap(sum) == sum;
      var n := sum / chunkSize;
      assert n * chunkSize <= sum < n * chunkSize + chunkSize;
      assert (n - 1) * chunkSize == n * chunkSize - chunkSize;
    } else {
      assert Wrap(sum) == sum - 2 * INT64_LIMIT;
      var low := -Wrap(sum);
      assert low >= chunkSize;
      DividesOnce(low, chunkSize);
    }
  }

  /** At most 64 automatic chunks exactly up to 64 times 95 MiB, and again where the 64-bit sum
      overflows and the stored count is negative. */
  lemma AutoChunkCount(size: int)
    requires 0 < size <= 0x7fff_ffff_ffff_ffff
    ensures ChunkCount(size, AutoChunkSize(size)) <= 64
       <==> size <= 6080 * 0x10_0000 || size > 0x8000_0000_0000_0000 - 95 * 0x10_0000
  {
    hide AutoChunkSize, ChunkCount;
    var c := AutoChunkSize(size);
    AutoChunkSizeOverflow(size);
    if size <= INT64_LIMIT - TARGET_PARTS {
      AutoChunkSizeIsLeast(size);
    }
    ChunkCountIsGeometry(size, c);
    if size + c - 1 < INT64_LIMIT {
      CountBound(size, c, ChunkCount(size, c), TARGET_PARTS);
    }
  }

  lemma CountBound(size: int, chunkSize: int, total: int, n: int)
    requires Geometry(size, chunkSize, total) && n >= 0
    ensures total <= n <==> size <= n * chunkSize
  {
    if total <= n {
      TimesMonotone(total, n, chunkSize);
    } else {
      TimesMonotone(n, total - 1, chunkSize);
    }
  }

  lemma TimesMonotone(a: int, b: int, c: int)
    requires a <= b && c >= 0
    ensures a * c <= b * c
  {
  }

  /** The server's expected length of chunk idx. */
  function Want(size: int, chunkSize: int, total: int, idx: int): int {
    if idx == total - 1 then size - (total - 1) * chunkSize else chunkSize
  }

  /** The browser's slice bounds. */
  function SliceEnd(size: int, chunkSize: int, idx: int): int {
    Min((idx + 1) * chunkSize, size)
  }

  function SliceLength(size: int, chunkSize: int, idx: int): int {
    SliceEnd(size, chunkSize, idx) - idx * chunkSize
  }

  /** Server and browser agree on every chunk; lengths lie in 1..chunkSize and only the last
      chunk may be shorter; the ranges follow each other from 0 to size without gap. */
  lemma RangesAgree(size: int, chunkSize: int, total: int, idx: int)
    requires Geometry(size, chunkSize, total) && 0 <= idx < total
    ensures Want(size, chunkSize, total, idx) == SliceLength(size, chunkSize, idx)
    ensures 1 <= Want(size, chunkSize, total, idx) <= chunkSize
    ensures 0 <= idx * chunkSize && SliceEnd(size, chunkSize, idx) <= size
    ensures SliceEnd(size, chunkSize, idx) == if idx == total - 1 then size else (idx + 1) * chunkSize
  {
    assert (idx + 1) * chunkSize == idx * chunkSize + chunkSize;
    TimesMonotone(0, idx, chunkSize);
    if idx < total - 1 {
      TimesMonotone(idx + 1, total - 1, chunkSize);
    }
  }

  /** The quotient is the one k whose range of length d holds x. */
  lemma QuotientIs(x: int, d: int, k: int)
    requires d > 0
    ensures k * d <= x < (k + 1) * d <==> k == x / d
  {
    var q := x / d;
    assert q * d <= x < q * d + d;
    if k < q {
      TimesMonotone(k + 1, q, d);
    } else if q < k {
      TimesMonotone(q + 1, k, d);
    }
  }

  /** Every byte position lies in exactly one chunk. */
  lemma OneChunkPerByte(size: int, chunkSize: int, total: int, x: int, idx: int)
    requires Geometry(size, chunkSize, total) && 0 <= x < size && 0 <= idx < total
    ensures idx * chunkSize <= x < SliceEnd(size, chunkSize, idx) <==> idx == x / chunkSize
    ensures 0 <= x / chunkSize < total
  {
    QuotientIs(x, chunkSize, idx);
    InsideTotal(x, chunkSize, total);
  }

  lemma InsideTotal(x: int, d: int, total: int)
    requires d > 0 && 0 <= x < total * d
    ensures 0 <= x / d < total
  {
    QuotientIs(x, d, x / d);
    if x / d >= total {
      TimesMonotone(total, x / d, d);
    }
  }

  /** Sum of the browser's chunk lengths over the first n chunks. */
  function LoadedBytes(size: int, chunkSize: int, n: nat): int {
    if n == 0 then 0 else LoadedBytes(size, chunkSize, n - 1) + SliceLength(size, chunkSize, n - 1)
  }

  /** When every chunk is loaded the progress sum is the file size. */
  lemma {:induction false} LoadedIsPrefix(size: int, chunkSize: int, total: int, n: nat)
    requires Geometry(size, chunkSize, total) && n <= total
    ensures LoadedBytes(size, chunkSize, n) == if n == total then size else n * chunkSize
    decreases n
  {
    if n > 0 {
      LoadedIsPrefix(size, chunkSize, total, n - 1);
      RangesAgree(size, chunkSize, total, n - 1);
    }
  }
}
