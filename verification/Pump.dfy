/** The browser's chunk scheduler: a pump that keeps up to target uploads in flight, halves the
    target on errors, probes for more threads while throughput grows, and settles once. */
module Pump {
  import opened Chunks
  import opened Wrappers

  const ABORT := "AbortError"

  datatype Result = Pending | Resolved | Rejected(error: string)

  datatype File = File(size: int, chunkSize: int, total: int, received: set<nat>)

  /** The scheduler's variables; started, running and succeeded record what its promises do. */
  datatype State = State(
    file: File, max: int, auto: bool, target: int, indexes: seq<nat>, inflight: int, failed: Option<string>,
    done: bool, result: Result, settlements: nat, aborted: bool, loaded: seq<int>, lastBytes: int, baseRate: int,
    probing: bool, holdUntil: int, started: seq<nat>, running: set<nat>, succeeded: set<nat>)

  datatype Event =
    | Settle(idx: nat, error: Option<string>)
    | ChunkError(idx: nat, now: int)
    | Progress(idx: nat, bytes: nat)
    | Tick(now: int)
    | Abort

  function ChunkBytes(f: File, idx: int): int {
    SliceLength(f.size, f.chunkSize, idx)
  }

  function TotalLoaded(loaded: seq<int>): int {
    if loaded == [] then 0 else TotalLoaded(loaded[..|loaded| - 1]) + loaded[|loaded| - 1]
  }

  /** The chunks below n that the server does not have. */
  function MissingBelow(f: File, n: nat): (r: seq<nat>)
    ensures forall i | 0 <= i < |r| :: r[i] < n && r[i] !in f.received
    ensures forall idx: nat | idx < n && idx !in f.received :: idx in r
    ensures forall i, j | 0 <= i < j < |r| :: r[i] < r[j]
  {
    if n == 0 then [] else if n - 1 in f.received then MissingBelow(f, n - 1) else MissingBelow(f, n - 1) + [n - 1]
  }

  function Missing(f: File): seq<nat> {
    MissingBelow(f, if f.total < 0 then 0 else f.total)
  }

  function InitialLoaded(f: File): seq<int> {
    seq(if f.total < 0 then 0 else f.total, i requires i >= 0 => if i in f.received then ChunkBytes(f, i) else 0)
  }

  // ---- the callbacks as functions of the state ----

  function Finished(s: State): State {
    if s.done then s
    else
      s.(done := true, settlements := s.settlements + 1,
         result := if s.failed.Some? then Rejected(s.failed.value) else Resolved)
  }

  function Failing(failed: Option<string>, error: Option<string>): Option<string> {
    if failed.Some? then failed else error
  }

  function StartOne(s: State): State
    requires s.indexes != []
  {
    s.(indexes := s.indexes[1..], inflight := s.inflight + 1, started := s.started + [s.indexes[0]],
       running := s.running + {s.indexes[0]})
  }

  predicate CanStart(s: State) {
    s.failed.None? && s.inflight < s.target && s.indexes != []
  }

  function Pumped(s: State): State
    decreases |s.indexes|
  {
    if CanStart(s) then Pumped(StartOne(s)) else s
  }

  lemma PumpedUnfolds(s: State)
    ensures Pumped(s) == if CanStart(s) then Pumped(StartOne(s)) else s
  {
  }

  function Aborted(s: State): State {
    var t := s.(aborted := true, failed := Failing(s.failed, Some(ABORT)), indexes := []);
    if t.inflight == 0 then Finished(t) else t
  }

  function SetLoaded(loaded: seq<int>, idx: nat, bytes: int): seq<int> {
    if idx < |loaded| then loaded[idx := bytes] else loaded
  }

  /** One upload has ended. */
  function Landed(s: State, idx: nat, error: Option<string>): State {
    s.(failed := Failing(s.failed, error), inflight := s.inflight - 1, running := s.running - {idx},
       succeeded := if error.None? then s.succeeded + {idx} else s.succeeded,
       loaded := if error.None? then SetLoaded(s.loaded, idx, ChunkBytes(s.file, idx)) else s.loaded)
  }

  function Settled(s: State, idx: nat, error: Option<string>): State {
    var t := Landed(s, idx, error);
    if t.inflight == 0 && (t.failed.Some? || t.indexes == []) then Finished(t) else Pumped(t)
  }

  function Erred(s: State, idx: nat, now: int): State {
    var t := s.(loaded := SetLoaded(s.loaded, idx, 0));
    if s.auto then t.(target := Max(1, s.target / 2), probing := false, holdUntil := now + 20_000) else t
  }

  /** The rate has fallen below 95 percent of the base rate. */
  predicate Slower(rate: int, baseRate: int) {
    20 * rate < 19 * baseRate
  }

  function Ticked(s: State, now: int): State {
    var bytes := TotalLoaded(s.loaded);
    var rate := bytes - s.lastBytes;
    var t := s.(lastBytes := bytes);
    if rate <= 0 || now < s.holdUntil || s.indexes == [] then t
    else if s.probing then
      if Slower(rate, s.baseRate) then t.(probing := false, target := Max(1, s.target - 1), holdUntil := now + 30_000)
      else t.(probing := false)
    else if s.target < s.max then Pumped(t.(baseRate := rate, target := s.target + 1, probing := true))
    else t
  }

  predicate Enabled(s: State, e: Event) {
    match e
    case Settle(idx, error) => idx in s.running
    case ChunkError(idx, now) => idx in s.running
    case Progress(idx, bytes) => idx in s.running
    case Tick(now) => s.auto && !s.done
    case Abort => !s.done && !s.aborted
  }

  function Next(s: State, e: Event): State {
    match e
    case Settle(idx, error) => Settled(s, idx, error)
    case ChunkError(idx, now) => Erred(s, idx, now)
    case Progress(idx, bytes) => s.(loaded := SetLoaded(s.loaded, idx, bytes))
    case Tick(now) => Ticked(s, now)
    case Abort => Aborted(s)
  }

  function FirstTarget(manual: Option<int>, max: int): int {
    if manual.None? then 3 else Min(max, Max(1, manual.value))
  }

  function Begin(f: File, manual: Option<int>, max: int, aborted: bool): State {
    var s := State(f, max, manual.None?, FirstTarget(manual, max), Missing(f), 0, None, false, Pending, 0, false,
                   InitialLoaded(f), TotalLoaded(InitialLoaded(f)), 0, false, 0, [], {}, {});
    if aborted then Aborted(s) else Pumped(s)
  }

  // ---- the scheduler ----

  class Scheduler {
    const file: File
    const max: int
    const auto: bool
    var target: int
    var indexes: seq<nat>
    var inflight: int
    var failed: Option<string>
    var done: bool
    var result: Result
    var settlements: nat
    var aborted: bool
    var loaded: seq<int>
    var lastBytes: int
    var baseRate: int
    var probing: bool
    var holdUntil: int
    ghost var started: seq<nat>
    ghost var running: set<nat>
    ghost var succeeded: set<nat>

    ghost function Now(): State
      reads this
    {
      State(file, max, auto, target, indexes, inflight, failed, done, result, settlements, aborted, loaded, lastBytes,
            baseRate, probing, holdUntil, started, running, succeeded)
    }

    constructor (file: File, manual: Option<int>, max: int, aborted: bool)
      ensures Now() == Begin(file, manual, max, aborted)
    {
      this.file, this.max, auto, target := file, max, manual.None?, FirstTarget(manual, max);
      indexes, inflight, failed, done, result, settlements := Missing(file), 0, None, false, Pending, 0;
      this.aborted, loaded, lastBytes := false, InitialLoaded(file), TotalLoaded(InitialLoaded(file));
      baseRate, probing, holdUntil, started, running, succeeded := 0, false, 0, [], {}, {};
      new;
      if aborted {
        OnAbort();
      } else {
        RunPump();
      }
    }

    method Finish()
      modifies this
      ensures Now() == Finished(old(Now()))
    {
      if done {
        return;
      }
      done := true;
      settlements := settlements + 1;
      result := if failed.Some? then Rejected(failed.value) else Resolved;
    }

    method OnAbort()
      modifies this
      ensures Now() == Aborted(old(Now()))
    {
      aborted := true;
      if failed.None? {
        failed := Some(ABORT);
      }
      indexes := [];
      if inflight == 0 {
        Finish();
      }
    }

    method RunPump()
      modifies this
      ensures Now() == Pumped(old(Now()))
    {
      hide Pumped;
      PumpedUnfolds(Now());
      while failed.None? && inflight < target && |indexes| > 0
        invariant Pumped(Now()) == Pumped(old(Now()))
        invariant !CanStart(Now()) ==> Pumped(Now()) == Now()
        decreases |indexes|
      {
        ghost var before := Now();
        PumpedUnfolds(before);
        var idx := indexes[0];
        indexes := indexes[1..];
        inflight := inflight + 1;
        started := started + [idx];
        running := running + {idx};
        assert Now() == StartOne(before);
        PumpedUnfolds(Now());
      }
    }

    method OnSettled(idx: nat, error: Option<string>)
      modifies this
      ensures Now() == Settled(old(Now()), idx, error)
    {
      if error.None? {
        if idx < |loaded| {
          loaded := loaded[idx := Min((idx + 1) * file.chunkSize, file.size) - idx * file.chunkSize];
        }
        succeeded := succeeded + {idx};
      } else if failed.None? {
        failed := error;
      }
      inflight := inflight - 1;
      running := running - {idx};
      assert Now() == Landed(old(Now()), idx, error);
      hide Landed;
      if inflight == 0 && (failed.Some? || |indexes| == 0) {
        Finish();
      } else {
        RunPump();
      }
    }

    method OnChunkError(idx: nat, now: int)
      modifies this
      ensures Now() == Erred(old(Now()), idx, now)
    {
      if idx < |loaded| {
        loaded := loaded[idx := 0];
      }
      if auto {
        target := Max(1, target / 2);
        probing := false;
        holdUntil := now + 20_000;
      }
    }

    method OnTick(now: int)
      modifies this
      ensures Now() == Ticked(old(Now()), now)
    {
      hide Pumped, TotalLoaded;
      var bytes := TotalLoaded(loaded);
      var rate := bytes - lastBytes;
      lastBytes := bytes;
      if rate <= 0 || now < holdUntil || |indexes| == 0 {
        return;
      }
      if probing {
        probing := false;
        if 20 * rate < 19 * baseRate {
          target := Max(1, target - 1);
          holdUntil := now + 30_000;
        }
      } else if target < max {
        baseRate := rate;
        target := target + 1;
        probing := true;
        RunPump();
      }
    }
  }

  // ---- what single callbacks do ----

  lemma {:induction false} PumpFills(s: State)
    ensures var n := Pumped(s);
            && n.inflight == (if s.failed.None? && s.target - s.inflight > 0
                              then s.inflight + Min(s.target - s.inflight, |s.indexes|) else s.inflight)
            && n == s.(indexes := n.indexes, inflight := n.inflight, started := n.started, running := n.running)
            && n.started + n.indexes == s.started + s.indexes
    decreases |s.indexes|
  {
    if CanStart(s) {
      PumpFills(StartOne(s));
      assert s.indexes == [s.indexes[0]] + s.indexes[1..];
      assert s.started + [s.indexes[0]] + s.indexes[1..] == s.started + s.indexes;
    }
  }

  /** The timer outside a hold, with progress and chunks left: a running probe ends, and its thread is
      taken back with a hold of thirty seconds exactly if the rate is below 95 per cent; without a probe
      one thread more is allowed and started unless all are; otherwise only the byte count is noted. */
  lemma TickDoes(s: State, now: int)
    ensures var n, rate := Ticked(s, now), TotalLoaded(s.loaded) - s.lastBytes;
            var acts := rate > 0 && now >= s.holdUntil && s.indexes != [];
            && n.lastBytes == TotalLoaded(s.loaded)
            && (!acts || (!s.probing && s.target >= s.max) ==> n == s.(lastBytes := n.lastBytes))
            && (acts && s.probing && 100 * rate < 95 * s.baseRate ==>
                  !n.probing && n.target == Max(1, s.target - 1) && n.holdUntil - now == 30_000)
            && (acts && s.probing && 100 * rate >= 95 * s.baseRate ==>
                  !n.probing && n.target == s.target && n.holdUntil == s.holdUntil)
            && (acts && !s.probing && s.target < s.max ==>
                  && n.probing && n.target == s.target + 1 && n.baseRate == rate && n.holdUntil == s.holdUntil
                  && (s.failed.None? && s.inflight == s.target ==> n.inflight == s.inflight + 1))
  {
    hide Pumped, TotalLoaded;
    var bytes := TotalLoaded(s.loaded);
    PumpFills(s.(lastBytes := bytes, baseRate := bytes - s.lastBytes, target := s.target + 1, probing := true));
  }

  /** Cancelling: nothing more is started, the first failure is kept or becomes the abort's, and the
      scheduler settles at once if nothing is in flight. */
  lemma AbortDoes(s: State)
    requires !s.done
    ensures var n := Aborted(s);
            && n.aborted && n.indexes == [] && n.failed.Some? && n.inflight == s.inflight && n.running == s.running
            && (s.failed.Some? ==> n.failed == s.failed) && (s.failed == None ==> n.failed == Some("AbortError"))
            && (s.inflight == 0 <==> n.done) && (n.done ==> n.result == Rejected(n.failed.value))
  {
  }

  /** The bytes of the chunks below n that the server does not have. */
  function MissingBytes(f: File, n: nat): int {
    if n == 0 then 0
    else MissingBytes(f, n - 1) + (if n - 1 in f.received then 0 else SliceLength(f.size, f.chunkSize, n - 1))
  }

  lemma {:induction false} LoadedBelow(f: File, n: nat)
    requires f.total >= 0 && n <= f.total
    ensures TotalLoaded(InitialLoaded(f)[..n]) + MissingBytes(f, n) == LoadedBytes(f.size, f.chunkSize, n)
    decreases n
  {
    hide SliceLength;
    var loaded := InitialLoaded(f);
    if n > 0 {
      LoadedBelow(f, n - 1);
      assert loaded[..n][..n - 1] == loaded[..n - 1] && loaded[..n][n - 1] == loaded[n - 1];
    }
  }

  /** The progress starts with what the server has: with the missing bytes it is the file. */
  lemma ProgressStartsRight(f: File)
    requires Geometry(f.size, f.chunkSize, f.total)
    ensures TotalLoaded(InitialLoaded(f)) + MissingBytes(f, f.total) == f.size
    ensures TotalLoaded(InitialLoaded(f)) == f.size <==> MissingBytes(f, f.total) == 0
  {
    LoadedBelow(f, f.total);
    LoadedIsPrefix(f.size, f.chunkSize, f.total, f.total);
    assert InitialLoaded(f)[..f.total] == InitialLoaded(f);
  }

  /** After n chunk errors, whatever their chunks and times. */
  function AfterErrors(s: State, errors: seq<(nat, int)>): State {
    if errors == [] then s
    else
      var last := errors[|errors| - 1];
      Erred(AfterErrors(s, errors[..|errors| - 1]), last.0, last.1)
  }

  function Halved(target: int, n: nat): int
    decreases n
  {
    if n == 0 then target else Halved(target / 2, n - 1)
  }

  lemma {:induction false} HalvedLast(target: int, n: nat)
    ensures Halved(target, n + 1) == Halved(target, n) / 2
    decreases n
  {
    if n > 0 {
      HalvedLast(target / 2, n - 1);
    }
  }

  /** Each error halves the number of threads down to one, gives the chunk's progress back and holds
      for twenty seconds; with a number of threads chosen by hand it only gives the progress back. */
  lemma {:induction false} ErrorsHalve(s: State, errors: seq<(nat, int)>)
    requires s.target >= 1
    ensures var n := AfterErrors(s, errors);
            && n.auto == s.auto && |n.loaded| == |s.loaded|
            && n.target == (if s.auto then Max(1, Halved(s.target, |errors|)) else s.target)
            && (errors != [] && errors[|errors| - 1].0 < |n.loaded| ==> n.loaded[errors[|errors| - 1].0] == 0)
            && (errors != [] && s.auto ==> !n.probing && n.holdUntil - errors[|errors| - 1].1 == 20_000)
            && (!s.auto ==> n.holdUntil == s.holdUntil && n.probing == s.probing)
    decreases |errors|
  {
    if errors != [] {
      ErrorsHalve(s, errors[..|errors| - 1]);
      HalvedLast(s.target, |errors| - 1);
      HalvedBelow(s.target, |errors| - 1);
    }
  }

  lemma {:induction false} HalvedBelow(target: int, n: nat)
    requires target >= 0
    ensures Halved(target, n) >= 0
    decreases n
  {
    if n > 0 {
      HalvedBelow(target / 2, n - 1);
    }
  }

  /** A number of threads chosen by hand is used as it is when the pool has it, and moved to the nearest
      the pool has otherwise; without a choice three are started with. */
  lemma FirstTargetIsNearest(manual: Option<int>, max: int)
    requires max >= 3
    ensures var t := FirstTarget(manual, max);
            && 1 <= t <= max && (manual.None? ==> t == 3)
            && (manual.Some? && 1 <= manual.value <= max ==> t == manual.value)
            && (manual.Some? && manual.value < 1 ==> t == 1) && (manual.Some? && manual.value > max ==> t == max)
  {
  }

  // ---- the test in floating point ----

  /** The double nearest to 0.95. */
  const FACTOR := 4278419646001971.0 / 4503599627370496.0

  function Fine(k: int): real {
    k as real / 64.0
  }

  /** Rounding to doubles keeps the order and, up to 2^46, every multiple of 1/64. */
  ghost predicate Rounds(r: real -> real) {
    && (forall x, y | x <= y :: r(x) <= r(y))
    && (forall k | 0 <= k <= 0x10_0000_0000_0000 :: r(Fine(k)) == Fine(k))
  }

  /** The rounded product gives the same answer as the exact test for every base rate below 2^46. */
  lemma RoundedTestAgrees(rate: int, baseRate: int, r: real -> real)
    requires Rounds(r) && 0 <= baseRate < 0x4000_0000_0000
    ensures rate as real < r(baseRate as real * FACTOR) <==> 20 * rate < 19 * baseRate
  {
    hide Fine;
    var f := baseRate as real * FACTOR;
    var low, high := Between(baseRate);
    assert r(Fine(low)) <= r(f) <= r(Fine(high));
    Separates(rate, baseRate, low, high, r(f));
  }

  /** The multiples of 1/64 around the product. */
  lemma Between(n: int) returns (low: int, high: int)
    requires 0 <= n < 0x4000_0000_0000
    ensures Fine(low) <= n as real * FACTOR <= Fine(high) && 0 <= low <= high <= 0x10_0000_0000_0000
    ensures low == (if n == 0 then 0 else if 19 * n % 20 == 0 then 64 * (19 * n / 20) - 1 else 64 * (19 * n / 20) + 1)
    ensures high == if 19 * n % 20 == 0 then 64 * (19 * n / 20) else 64 * (19 * n / 20) + 63
  {
    var q, rest := 19 * n / 20, 19 * n % 20;
    low := if n == 0 then 0 else if rest == 0 then 64 * q - 1 else 64 * q + 1;
    high := if rest == 0 then 64 * q else 64 * q + 63;
    FactorIsClose(n, q, rest);
  }

  lemma FactorIsClose(n: int, q: int, rest: int)
    requires 0 <= n < 0x4000_0000_0000 && 19 * n == 20 * q + rest && 0 <= rest < 20
    ensures q as real + rest as real / 20.0 - 0.01 < n as real * FACTOR <= q as real + rest as real / 20.0
  {
    var x, y, z := n as real, q as real, rest as real;
    assert 19.0 * x == 20.0 * y + z;
    assert FACTOR == 0.95 - 1.0 / 22517998136852480.0;
    assert x * FACTOR == x * 0.95 - x / 22517998136852480.0;
  }

  lemma Separates(rate: int, n: int, low: int, high: int, x: real)
    requires n >= 0 && Fine(low) <= x <= Fine(high)
    requires low == if n == 0 then 0 else if 19 * n % 20 == 0 then 64 * (19 * n / 20) - 1 else 64 * (19 * n / 20) + 1
    requires high == if 19 * n % 20 == 0 then 64 * (19 * n / 20) else 64 * (19 * n / 20) + 63
    ensures rate as real < x <==> 20 * rate < 19 * n
  {
    hide Fine;
    WholeSeparates(rate, n, 19 * n / 20, 19 * n % 20, low, high);
    OnOneSide(rate, low, high, x);
  }

  lemma WholeSeparates(rate: int, n: int, q: int, rest: int, low: int, high: int)
    requires n >= 0 && 19 * n == 20 * q + rest && 0 <= rest < 20
    requires low == if n == 0 then 0 else if rest == 0 then 64 * q - 1 else 64 * q + 1
    requires high == if rest == 0 then 64 * q else 64 * q + 63
    ensures if 20 * rate < 19 * n then 64 * rate < low else high <= 64 * rate
  {
    if rest == 0 {
      if rate < q {
        assert 20 * rate <= 20 * q - 20 && 64 * rate <= 64 * q - 64;
      } else {
        assert 20 * rate >= 20 * q && 64 * rate >= 64 * q;
      }
    } else if rate <= q {
      assert 20 * rate <= 20 * q && 64 * rate <= 64 * q;
    } else {
      assert 20 * rate >= 20 * q + 20 && 64 * rate >= 64 * q + 64;
    }
  }

  lemma OnOneSide(rate: int, low: int, high: int, x: real)
    requires Fine(low) <= x <= Fine(high)
    ensures 64 * rate < low ==> rate as real < x
    ensures high <= 64 * rate ==> x <= rate as real
  {
    assert 64.0 * Fine(low) == low as real && 64.0 * Fine(high) == high as real;
  }

  // ---- the invariant ----

  /** Threads stay within the pool, each missing index is started at most once and in order, and
      what is started is running, has succeeded or has failed. */
  ghost predicate Sound(s: State) {
    && 1 <= s.target <= s.max
    && 0 <= s.inflight == |s.running| <= s.max
    && (s.indexes == [] || s.started + s.indexes == Missing(s.file))
    && s.started <= Missing(s.file)
    && (s.failed.None? ==> s.started + s.indexes == Missing(s.file))
    && s.running !! s.succeeded
    && (forall idx <- s.running :: idx in s.started)
    && (forall idx <- s.succeeded :: idx in s.started)
    && (s.failed.None? ==> forall idx <- s.started :: idx in s.running || idx in s.succeeded)
  }

  ghost predicate LoadedRight(s: State) {
    && |s.loaded| == (if s.file.total < 0 then 0 else s.file.total)
    && (forall idx | 0 <= idx < |s.loaded| && (idx in s.file.received || idx in s.succeeded) ::
          s.loaded[idx] == ChunkBytes(s.file, idx))
  }

  /** Not settled means something in flight; settled means nothing in flight, exactly one
      settlement, and the right one. */
  ghost predicate SettlesOnce(s: State) {
    && (s.done <==> s.inflight == 0)
    && s.settlements == (if s.done then 1 else 0)
    && (s.result.Pending? <==> !s.done)
    && (s.result.Resolved? ==> s.failed.None? && s.indexes == [])
    && (s.result.Rejected? ==> s.failed == Some(s.result.error))
    && (s.aborted ==> s.failed.Some? && s.indexes == [])
  }

  ghost predicate Inv(s: State) {
    Sound(s) && LoadedRight(s) && SettlesOnce(s)
  }

  function Remaining(s: State): int {
    |s.indexes| + s.inflight
  }

  lemma MissingDistinct(f: File, started: seq<nat>, indexes: seq<nat>)
    requires started + indexes == Missing(f) && indexes != []
    ensures indexes[0] !in started
  {
    var m := Missing(f);
    assert m[|started|] == indexes[0];
    forall i | 0 <= i < |started| ensures started[i] != indexes[0] {
      assert m[i] == started[i];
    }
  }

  lemma StartKeeps(s: State)
    requires Sound(s) && CanStart(s)
    ensures Sound(StartOne(s)) && Remaining(StartOne(s)) == Remaining(s)
  {
    hide Missing;
    MissingDistinct(s.file, s.started, s.indexes);
    var n := StartOne(s);
    assert n.started + n.indexes == s.started + s.indexes;
    assert s.indexes[0] !in s.running;
  }

  /** The pump loop keeps everything sound and does not stop with nothing in flight while there is
      something to do. */
  lemma {:induction false} PumpKeeps(s: State)
    requires Sound(s)
    ensures var n := Pumped(s);
            && Sound(n) && Remaining(n) == Remaining(s)
            && n == s.(indexes := n.indexes, inflight := n.inflight, started := n.started, running := n.running)
            && n.inflight >= s.inflight && |n.indexes| <= |s.indexes|
            && (CanStart(s) ==> n.inflight > 0)
    decreases |s.indexes|
  {
    hide Sound;
    if CanStart(s) {
      StartKeeps(s);
      assert s.inflight >= 0 by {
        SoundInflight(s);
      }
      PumpKeeps(StartOne(s));
    }
  }

  lemma SoundInflight(s: State)
    requires Sound(s)
    ensures s.inflight >= 0 && s.target >= 1
  {
  }

  lemma PumpedIsGood(s: State)
    requires Sound(s) && LoadedRight(s) && !s.done && s.settlements == 0 && s.result.Pending?
    requires s.aborted ==> s.failed.Some? && s.indexes == []
    requires s.inflight > 0 || CanStart(s)
    ensures Inv(Pumped(s))
  {
    hide Sound;
    PumpKeeps(s);
  }

  lemma FinishedIsGood(s: State)
    requires Sound(s) && LoadedRight(s) && !s.done && s.settlements == 0 && s.result.Pending?
    requires s.aborted ==> s.failed.Some? && s.indexes == []
    requires s.inflight == 0 && (s.failed.Some? || s.indexes == [])
    ensures Inv(Finished(s)) && Remaining(Finished(s)) == Remaining(s)
  {
    hide Missing, ChunkBytes;
  }

  lemma LandedIsSound(s: State, idx: nat, error: Option<string>)
    requires Sound(s) && LoadedRight(s) && idx in s.running
    ensures var t := Landed(s, idx, error);
            && Sound(t) && LoadedRight(t) && Remaining(t) == Remaining(s) - 1
            && t.done == s.done && t.settlements == s.settlements && t.result == s.result && t.aborted == s.aborted
            && t.indexes == s.indexes && (s.failed.Some? ==> t.failed == s.failed) && t.inflight == s.inflight - 1
  {
    hide Missing, ChunkBytes, MissingBelow;
  }

  /** A running chunk is one the server does not have yet. */
  lemma RunningIsMissing(s: State, idx: nat)
    requires Sound(s) && idx in s.running
    ensures idx !in s.file.received && idx !in s.succeeded && s.inflight > 0
  {
    assert s.running != {};
    var i :| 0 <= i < |s.started| && s.started[i] == idx;
    assert Missing(s.file)[i] == idx;
  }

  lemma LoadedKeeps(s: State, idx: nat, bytes: int)
    requires Inv(s) && idx in s.running
    ensures Inv(s.(loaded := SetLoaded(s.loaded, idx, bytes)))
  {
    hide ChunkBytes, Missing, MissingBelow;
    RunningIsMissing(s, idx);
  }

  lemma ErrorKeeps(s: State, idx: nat, now: int)
    requires Inv(s) && idx in s.running
    ensures Inv(Erred(s, idx, now)) && Remaining(Erred(s, idx, now)) == Remaining(s)
  {
    hide ChunkBytes, Missing, MissingBelow;
    LoadedKeeps(s, idx, 0);
  }

  lemma SettleKeeps(s: State, idx: nat, error: Option<string>)
    requires Inv(s) && idx in s.running
    ensures Inv(Settled(s, idx, error)) && Remaining(Settled(s, idx, error)) < Remaining(s)
  {
    hide Sound, LoadedRight, Landed, Pumped;
    LandedIsSound(s, idx, error);
    RunningIsMissing(s, idx);
    var t := Landed(s, idx, error);
    SoundInflight(t);
    if !(t.inflight == 0 && (t.failed.Some? || t.indexes == [])) {
      PumpKeeps(t);
      PumpedIsGood(t);
    } else {
      FinishedIsGood(t);
    }
  }

  lemma AbortKeeps(s: State)
    requires Sound(s) && LoadedRight(s) && !s.done && s.settlements == 0 && s.result.Pending?
    ensures Inv(Aborted(s)) && Remaining(Aborted(s)) <= Remaining(s)
  {
    hide Missing, ChunkBytes, MissingBelow;
  }

  lemma TickKeeps(s: State, now: int)
    requires Inv(s) && !s.done
    ensures Inv(Ticked(s, now)) && Remaining(Ticked(s, now)) == Remaining(s)
  {
    hide Missing, ChunkBytes, Pumped, TotalLoaded, MissingBelow;
    var bytes := TotalLoaded(s.loaded);
    var rate := bytes - s.lastBytes;
    var t := s.(lastBytes := bytes);
    if !(rate <= 0 || now < s.holdUntil || s.indexes == []) && !s.probing && s.target < s.max {
      var u := t.(baseRate := rate, target := s.target + 1, probing := true);
      PumpKeeps(u);
      PumpedIsGood(u);
    }
  }

  lemma StepKeeps(s: State, e: Event)
    requires Inv(s) && Enabled(s, e)
    ensures Inv(Next(s, e)) && Remaining(Next(s, e)) <= Remaining(s) - (if e.Settle? then 1 else 0)
  {
    hide Missing, ChunkBytes, Pumped, TotalLoaded, MissingBelow, Settled, Ticked, Aborted;
    match e
    case Settle(idx, error) => SettleKeeps(s, idx, error);
    case Tick(now) => TickKeeps(s, now);
    case Abort => AbortKeeps(s);
    case ChunkError(idx, now) => ErrorKeeps(s, idx, now);
    case Progress(idx, bytes) => LoadedKeeps(s, idx, bytes);
  }

  lemma BeginIsGood(f: File, manual: Option<int>, max: int, aborted: bool)
    requires max >= 3 && Missing(f) != []
    ensures Inv(Begin(f, manual, max, aborted)) && Remaining(Begin(f, manual, max, aborted)) <= |Missing(f)|
  {
    hide Missing, ChunkBytes, Pumped, TotalLoaded, MissingBelow;
    var s := State(f, max, manual.None?, FirstTarget(manual, max), Missing(f), 0, None, false, Pending, 0, false,
                   InitialLoaded(f), TotalLoaded(InitialLoaded(f)), 0, false, 0, [], {}, {});
    assert [] + Missing(f) == Missing(f);
    if aborted {
      AbortKeeps(s);
    } else {
      PumpKeeps(s);
      PumpedIsGood(s);
    }
  }

  // ---- whole runs ----

  predicate IsRun(s: State, events: seq<Event>)
    decreases |events|
  {
    events == [] || (Enabled(s, events[0]) && IsRun(Next(s, events[0]), events[1..]))
  }

  function After(s: State, events: seq<Event>): State
    decreases |events|
  {
    if events == [] then s else After(Next(s, events[0]), events[1..])
  }

  function Settles(events: seq<Event>): nat {
    if events == [] then 0 else (if events[0].Settle? then 1 else 0) + Settles(events[1..])
  }

  lemma {:induction false} RunKeeps(s: State, events: seq<Event>)
    requires Inv(s) && IsRun(s, events)
    ensures Inv(After(s, events)) && Settles(events) + Remaining(After(s, events)) <= Remaining(s)
    ensures After(s, events).file == s.file && After(s, events).max == s.max
    decreases |events|
  {
    hide Inv, Enabled, Next, Remaining;
    if events != [] {
      StepKeeps(s, events[0]);
      SameFile(s, events[0]);
      RunKeeps(Next(s, events[0]), events[1..]);
    }
  }

  lemma {:induction false} PumpedSameFile(s: State)
    ensures Pumped(s).file == s.file && Pumped(s).max == s.max
    decreases |s.indexes|
  {
    if CanStart(s) {
      PumpedSameFile(StartOne(s));
    }
  }

  lemma SameFile(s: State, e: Event)
    ensures Next(s, e).file == s.file && Next(s, e).max == s.max
  {
    hide Pumped, TotalLoaded;
    forall t: State ensures Pumped(t).file == t.file && Pumped(t).max == t.max {
      PumpedSameFile(t);
    }
  }

  lemma {:induction false} AllLoaded(f: File, loaded: seq<int>)
    requires f.chunkSize > 0 && forall idx | 0 <= idx < |loaded| :: loaded[idx] == ChunkBytes(f, idx)
    ensures TotalLoaded(loaded) == LoadedBytes(f.size, f.chunkSize, |loaded|)
    decreases |loaded|
  {
    if loaded != [] {
      AllLoaded(f, loaded[..|loaded| - 1]);
    }
  }

  /** Over every run of successes, failures, errors, ticks and cancellation: the threads stay
      within the pool; each missing chunk is started at most once, in order; something is in
      flight until the promise is settled, and it is settled once, with nothing in flight, after
      at most as many settled chunks as were missing; it resolves only when every missing chunk
      has succeeded, and then the progress sum is the file size. */
  lemma PumpIsCorrect(f: File, manual: Option<int>, max: int, aborted: bool, events: seq<Event>)
    requires max >= 3 && Missing(f) != [] && Geometry(f.size, f.chunkSize, f.total)
    requires IsRun(Begin(f, manual, max, aborted), events)
    ensures var s := After(Begin(f, manual, max, aborted), events);
            && 1 <= s.target <= max && 0 <= s.inflight <= max
            && s.started <= Missing(f)
            && (s.done <==> s.inflight == 0) && s.settlements == (if s.done then 1 else 0)
            && Settles(events) <= |Missing(f)|
            && (s.result.Resolved? ==>
                  && s.failed.None? && !s.aborted
                  && (forall idx <- Missing(f) :: idx in s.succeeded)
                  && TotalLoaded(s.loaded) == f.size)
  {
    hide IsRun, After, Begin, TotalLoaded, ChunkBytes;
    var b := Begin(f, manual, max, aborted);
    BeginIsGood(f, manual, max, aborted);
    BeginFile(f, manual, max, aborted);
    RunKeeps(b, events);
    var s := After(b, events);
    if s.result.Resolved? {
      assert s.started + [] == s.started == Missing(f);
      assert s.running == {};
      AllLoaded(f, s.loaded);
      LoadedIsPrefix(f.size, f.chunkSize, f.total, f.total);
    }
  }

  lemma BeginFile(f: File, manual: Option<int>, max: int, aborted: bool)
    ensures Begin(f, manual, max, aborted).file == f && Begin(f, manual, max, aborted).max == max
  {
    forall t: State ensures Pumped(t).file == t.file && Pumped(t).max == t.max {
      PumpedSameFile(t);
    }
  }

  lemma SomeRunning(s: State) returns (idx: nat)
    requires s.running != {}
    ensures idx in s.running
  {
    idx :| idx in s.running;
  }

  /** While nothing has failed, letting every upload in flight succeed brings the promise to
      resolve after exactly as many successes as there were chunks left. */
  lemma {:induction false} SuccessesResolve(s: State) returns (events: seq<Event>)
    requires Inv(s) && s.failed.None?
    ensures IsRun(s, events) && After(s, events).result.Resolved?
    ensures forall e <- events :: e.Settle? && e.error.None?
    ensures |events| == Remaining(s)
    decreases Remaining(s)
  {
    hide Sound, LoadedRight, Next, Landed;
    if s.done {
      events := [];
    } else {
      InFlight(s);
      var idx := SomeRunning(s);
      var e := Settle(idx, None);
      StepKeeps(s, e);
      SuccessFailsNothing(s, idx);
      var rest := SuccessesResolve(Next(s, e));
      events := [e] + rest;
      assert events[1..] == rest;
    }
  }

  lemma InFlight(s: State)
    requires Inv(s)
    ensures s.done <==> s.running == {}
    ensures Remaining(s) >= 0
  {
  }

  lemma SuccessFailsNothing(s: State, idx: nat)
    requires Inv(s) && s.failed.None? && idx in s.running
    ensures Next(s, Settle(idx, None)).failed.None?
    ensures Remaining(Next(s, Settle(idx, None))) == Remaining(s) - 1
  {
    hide Pumped, ChunkBytes, Missing, MissingBelow;
    var t := Landed(s, idx, None);
    LandedIsSound(s, idx, None);
    PumpKeeps(t);
  }

  // ---- hill climbing ----

  predicate Quiet(e: Event) {
    e.Progress? || e.Settle?
  }

  predicate SameClimb(s: State, t: State) {
    t.target == s.target && t.probing == s.probing && t.baseRate == s.baseRate && t.holdUntil == s.holdUntil
    && t.lastBytes == s.lastBytes && t.max == s.max && t.auto == s.auto
  }

  lemma {:induction false} PumpedClimb(s: State)
    ensures SameClimb(s, Pumped(s))
    decreases |s.indexes|
  {
    if CanStart(s) {
      PumpedClimb(StartOne(s));
    }
  }

  lemma {:induction false} QuietRunKeepsClimb(s: State, events: seq<Event>)
    requires forall e <- events :: Quiet(e)
    ensures SameClimb(s, After(s, events))
    decreases |events|
  {
    hide Pumped, TotalLoaded, ChunkBytes;
    if events != [] {
      assert events[0] in events;
      if events[0].Settle? {
        PumpedClimb(Landed(s, events[0].idx, events[0].error));
      }
      QuietRunKeepsClimb(Next(s, events[0]), events[1..]);
    }
  }

  /** A thread added by a tick that turns out not to help by the next tick is taken back, and no
      new one is tried for thirty seconds. */
  lemma FailedProbeIsTakenBack(s: State, first: int, events: seq<Event>, second: int)
    requires s.target >= 1 && !s.probing && Ticked(s, first).probing
    requires forall e <- events :: Quiet(e)
    requires var m := After(Ticked(s, first), events);
             var rate := TotalLoaded(m.loaded) - m.lastBytes;
             rate > 0 && second >= m.holdUntil && m.indexes != [] && Slower(rate, m.baseRate)
    ensures var t := Ticked(After(Ticked(s, first), events), second);
            t.target == s.target && !t.probing && t.holdUntil == second + 30_000
  {
    hide Pumped, TotalLoaded, After;
    var bytes := TotalLoaded(s.loaded);
    PumpedClimb(s.(lastBytes := bytes, baseRate := bytes - s.lastBytes, target := s.target + 1, probing := true));
    QuietRunKeepsClimb(Ticked(s, first), events);
  }

  predicate BeforeTime(e: Event, time: int) {
    (e.Tick? ==> e.now < time) && (e.ChunkError? ==> e.now + 20_000 >= time)
  }

  lemma HeldStep(s: State, e: Event, time: int)
    requires time <= s.holdUntil && s.target >= 1 && BeforeTime(e, time)
    ensures var n := Next(s, e); 1 <= n.target <= s.target && time <= n.holdUntil
  {
    hide Pumped, TotalLoaded, ChunkBytes;
    if e.Settle? {
      PumpedClimb(Landed(s, e.idx, e.error));
    }
  }

  /** No thread is added while the hold lasts, whatever else happens. */
  lemma {:induction false} HoldIsRespected(s: State, events: seq<Event>, time: int)
    requires time <= s.holdUntil && s.target >= 1 && forall e <- events :: BeforeTime(e, time)
    ensures 1 <= After(s, events).target <= s.target
    decreases |events|
  {
    hide Next, BeforeTime;
    if events != [] {
      assert events[0] in events;
      HeldStep(s, events[0], time);
      HoldIsRespected(Next(s, events[0]), events[1..], time);
    }
  }
}
