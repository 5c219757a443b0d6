/** Several schedulers over one connection pool: each chunk a scheduler starts is a task of the pool,
    and the end of the task settles the chunk. */
module Pools {
  import opened Wrappers
  import P = Pump
  import N = NetSlots

  /** owner[t] names the scheduler and the chunk index of task t. */
  datatype System = System(slots: N.System, pumps: seq<P.State>, owner: seq<(nat, nat)>)

  datatype Step =
    | Slot(step: N.Step, now: int)
    | Settle(task: nat)
    | Event(pump: nat, event: P.Event)

  predicate Shaped(s: System) {
    && |s.owner| == |s.slots.tasks|
    && forall t | 0 <= t < |s.owner| :: s.owner[t].0 < |s.pumps|
  }

  /** The task's chunk is in flight. */
  predicate InFlight(s: System, t: nat)
    requires Shaped(s) && t < |s.owner|
  {
    s.owner[t].1 in s.pumps[s.owner[t].0].running
  }

  /** A task begins once its chunk has been started and is cancelled only with its upload; a chunk
      settles once its task has ended. */
  predicate Enabled(s: System, step: Step) {
    && Shaped(s)
    && match step
       case Slot(n, now) =>
         && N.Enabled(s.slots, n)
         && (n.Begin? ==> InFlight(s, n.task))
         && (n.Cancel? ==> s.pumps[s.owner[n.task].0].aborted)
       case Settle(t) => t < |s.owner| && s.slots.tasks[t].phase.Ended? && InFlight(s, t)
       case Event(p, e) => p < |s.pumps| && (e.Tick? || e.Abort? || e.Progress?) && P.Enabled(s.pumps[p], e)
  }

  function ErrorOf(outcome: N.Outcome): Option<string> {
    match outcome
    case Success => None
    case Failure => Some("Error")
    case Cancelled => Some(P.ABORT)
  }

  function PumpEvent(s: System, p: nat, e: P.Event): System
    requires p < |s.pumps|
  {
    s.(pumps := s.pumps[p := P.Next(s.pumps[p], e)])
  }

  /** A failed attempt is reported to the scheduler of the chunk at once. */
  function Next(s: System, step: Step): System
    requires Enabled(s, step)
  {
    match step
    case Slot(n, now) =>
      var t := s.(slots := N.Next(s.slots, n));
      if n.Finish? && n.outcome.Failure? && InFlight(s, n.task)
      then PumpEvent(t, s.owner[n.task].0, P.ChunkError(s.owner[n.task].1, now)) else t
    case Settle(t) =>
      PumpEvent(s, s.owner[t].0, P.Settle(s.owner[t].1, ErrorOf(s.slots.tasks[t].phase.outcome)))
    case Event(p, e) => PumpEvent(s, p, e)
  }

  // ---- the invariant ----

  /** Every missing chunk of every scheduler is exactly one task. */
  ghost predicate Owned(s: System) {
    && Shaped(s)
    && (forall t, u | 0 <= t < u < |s.owner| :: s.owner[t] != s.owner[u])
    && (forall p: nat, idx: nat | p < |s.pumps| && idx in P.Missing(s.pumps[p].file) :: (p, idx) in s.owner)
  }

  /** A started task is in flight until it has ended; one not started has done nothing. */
  ghost predicate Tied(s: System, t: nat)
    requires Shaped(s) && t < |s.owner|
  {
    var pump, idx, phase := s.pumps[s.owner[t].0], s.owner[t].1, s.slots.tasks[t].phase;
    && (idx in pump.started && !phase.Ended? ==> idx in pump.running)
    && (idx !in pump.started ==> phase == N.Ready(0))
  }

  ghost predicate Inv(s: System) {
    && Owned(s) && N.Inv(s.slots) && s.slots.pool.max > 0
    && (forall p | 0 <= p < |s.pumps| :: P.Inv(s.pumps[p]))
    && (forall t: nat | t < |s.owner| :: Tied(s, t))
  }

  // ---- what single steps change ----

  lemma {:induction false} PumpedGrows(s: P.State)
    ensures var n := P.Pumped(s);
            && n.file == s.file && n.succeeded == s.succeeded && s.running <= n.running && s.started <= n.started
            && (forall idx <- n.started :: idx in s.started || idx in n.running)
    decreases |s.indexes|
  {
    if P.CanStart(s) {
      var n := P.StartOne(s);
      PumpedGrows(n);
      var e := P.Pumped(s);
      forall idx | idx in e.started ensures idx in s.started || idx in e.running {
        assert idx in n.started || idx in e.running;
      }
    }
  }

  /** A started chunk stays started; a chunk in flight stays in flight unless it is the one that
      settles; a newly started chunk is in flight. */
  lemma EventMoves(s: P.State, e: P.Event)
    ensures var n := P.Next(s, e);
            && n.file == s.file
            && (forall idx <- s.started :: idx in n.started)
            && (forall idx <- s.running :: idx in n.running || (e.Settle? && e.idx == idx))
            && (forall idx <- n.started :: idx in s.started || idx in n.running)
  {
    hide P.Pumped, P.TotalLoaded, P.ChunkBytes;
    forall t: P.State
      ensures P.Pumped(t).file == t.file && t.running <= P.Pumped(t).running && t.started <= P.Pumped(t).started
      ensures forall idx <- P.Pumped(t).started :: idx in t.started || idx in P.Pumped(t).running
    {
      PumpedGrows(t);
    }
  }

  /** The phase of a task changes only by its own steps, or from waiting to holding. */
  lemma SlotMoves(s: N.System, n: N.Step, t: nat)
    requires N.Enabled(s, n) && t < |s.tasks|
    ensures |N.Next(s, n).tasks| == |s.tasks| && N.Next(s, n).pool.max == s.pool.max
    ensures var a, b := s.tasks[t].phase, N.Next(s, n).tasks[t].phase;
            && (a.Ended? ==> b == a)
            && (t != n.task ==> b == a || (a.Waiting? && b.Holding?))
            && (n.Cancel? ==> b == a)
            && (t == n.task && !n.Begin? && !n.Cancel? ==> !a.Ready?)
  {
  }

  // ---- every step keeps it ----

  lemma PumpEventKeeps(s: System, p: nat, e: P.Event)
    requires Inv(s) && p < |s.pumps| && P.Enabled(s.pumps[p], e)
    requires e.Settle? ==> forall t: nat | t < |s.owner| && s.owner[t] == (p, e.idx) :: s.slots.tasks[t].phase.Ended?
    ensures Inv(PumpEvent(s, p, e))
    ensures Left(PumpEvent(s, p, e).pumps) <= Left(s.pumps) - (if e.Settle? then 1 else 0)
  {
    hide P.Inv, P.Next, N.Inv, P.Missing, P.Enabled;
    P.StepKeeps(s.pumps[p], e);
    EventMoves(s.pumps[p], e);
    LeftAfter(s.pumps, p, P.Next(s.pumps[p], e));
    var n := PumpEvent(s, p, e);
    forall t: nat | t < |n.owner| ensures Tied(n, t) {
      assert Tied(s, t);
    }
  }

  lemma SlotKeeps(s: System, n: N.Step)
    requires Inv(s) && N.Enabled(s.slots, n) && (n.Begin? ==> InFlight(s, n.task))
    ensures Inv(s.(slots := N.Next(s.slots, n))) && N.Work(N.Next(s.slots, n).tasks) < N.Work(s.slots.tasks)
  {
    hide P.Inv, N.Inv, N.Next, N.Work, P.Missing;
    N.StepKeeps(s.slots, n);
    N.StepWorks(s.slots, n);
    SlotMoves(s.slots, n, n.task);
    var m := s.(slots := N.Next(s.slots, n));
    forall t: nat | t < |m.owner| ensures Tied(m, t) {
      assert Tied(s, t);
      SlotMoves(s.slots, n, t);
      if t == n.task && n.Begin? {
        RunningIsStarted(s.pumps[s.owner[t].0], s.owner[t].1);
      }
    }
  }

  lemma RunningIsStarted(s: P.State, idx: nat)
    requires P.Inv(s) && idx in s.running
    ensures idx in s.started
  {
  }

  /** How many chunks all schedulers still have to settle. */
  function Left(pumps: seq<P.State>): int {
    if pumps == [] then 0 else Left(pumps[..|pumps| - 1]) + P.Remaining(pumps[|pumps| - 1])
  }

  lemma {:induction false} LeftAfter(pumps: seq<P.State>, p: nat, n: P.State)
    requires p < |pumps|
    ensures Left(pumps[p := n]) == Left(pumps) - P.Remaining(pumps[p]) + P.Remaining(n)
    decreases |pumps|
  {
    hide P.Remaining;
    var m := |pumps| - 1;
    if p < m {
      assert pumps[p := n][..m] == pumps[..m][p := n];
      LeftAfter(pumps[..m], p, n);
    } else {
      assert pumps[p := n][..m] == pumps[..m];
    }
  }

  /** What all schedulers and tasks together can still do. */
  function Ahead(s: System): int {
    N.Work(s.slots.tasks) + Left(s.pumps)
  }

  lemma StepKeeps(s: System, step: Step)
    requires Inv(s) && Enabled(s, step)
    ensures Inv(Next(s, step)) && Ahead(Next(s, step)) <= Ahead(s) - (if step.Event? then 0 else 1)
  {
    hide Inv, P.Next, N.Next, Left, N.Work, P.Enabled;
    match step
    case Slot(n, now) =>
      assert N.Enabled(s.slots, n) && (n.Begin? ==> InFlight(s, n.task));
      SlotKeeps(s, n);
      var t := s.(slots := N.Next(s.slots, n));
      if n.Finish? && n.outcome.Failure? && InFlight(s, n.task) {
        ErrorEnabled(s.pumps[s.owner[n.task].0], s.owner[n.task].1, now);
        PumpEventKeeps(t, s.owner[n.task].0, P.ChunkError(s.owner[n.task].1, now));
      }
    case Settle(t) =>
      var e := P.Settle(s.owner[t].1, ErrorOf(s.slots.tasks[t].phase.outcome));
      SettleEnabled(s.pumps[s.owner[t].0], e);
      OnlyOwner(s, t);
      PumpEventKeeps(s, s.owner[t].0, e);
    case Event(p, e) =>
      PumpEventKeeps(s, p, e);
  }

  lemma ErrorEnabled(s: P.State, idx: nat, now: int)
    requires idx in s.running
    ensures P.Enabled(s, P.ChunkError(idx, now))
  {
  }

  lemma SettleEnabled(s: P.State, e: P.Event)
    requires e.Settle? && e.idx in s.running
    ensures P.Enabled(s, e)
  {
  }

  lemma OnlyOwner(s: System, t: nat)
    requires Inv(s) && t < |s.owner|
    ensures forall u: nat | u < |s.owner| && s.owner[u] == s.owner[t] :: u == t
  {
  }

  // ---- no stall, and an end ----

  predicate AllDone(s: System) {
    forall p | 0 <= p < |s.pumps| :: s.pumps[p].done
  }

  lemma OwnerOf(s: System, p: nat) returns (t: nat)
    requires Inv(s) && p < |s.pumps| && !s.pumps[p].done
    ensures t < |s.owner| && s.owner[t].0 == p && InFlight(s, t)
  {
    hide N.Inv, P.Missing;
    P.InFlight(s.pumps[p]);
    var idx := P.SomeRunning(s.pumps[p]);
    assert idx in P.Missing(s.pumps[p].file) by {
      StartedIsMissing(s.pumps[p], idx);
    }
    assert (p, idx) in s.owner;
    t :| 0 <= t < |s.owner| && s.owner[t] == (p, idx);
  }

  lemma StartedIsMissing(s: P.State, idx: nat)
    requires P.Inv(s) && idx in s.running
    ensures idx in P.Missing(s.file)
  {
    hide P.Missing;
    var i :| 0 <= i < |s.started| && s.started[i] == idx;
    assert P.Missing(s.file)[i] == idx;
  }

  /** As long as a scheduler has not settled, something can go on without any tick or
      cancellation. */
  lemma NeverStuck(s: System) returns (step: Step)
    requires Inv(s) && !AllDone(s)
    ensures Enabled(s, step) && !step.Event? && (step.Slot? ==> !step.step.Cancel?)
  {
    hide P.Inv, P.Missing, N.Inv, Tied;
    var p: nat :| p < |s.pumps| && !s.pumps[p].done;
    var t := OwnerOf(s, p);
    match s.slots.tasks[t].phase
    case Ended(_) => step := Settle(t);
    case Ready(_) => step := Slot(N.Begin(t), 0);
    case Holding(_) => step := Slot(N.Finish(t, N.Success), 0);
    case Backoff(_) => step := Slot(N.Wake(t), 0);
    case Waiting(_) =>
      var h := WaitingHasHolder(s.slots, t);
      step := Slot(N.Finish(h, N.Success), 0);
  }

  /** When all schedulers have settled the pool is empty. */
  lemma PoolIsEmpty(s: System)
    requires Inv(s) && AllDone(s)
    ensures s.slots.pool.used == 0 && s.slots.pool.waiters == []
  {
    forall t: nat | t < |s.owner| ensures !s.slots.tasks[t].phase.Holding? && !s.slots.tasks[t].phase.Waiting? {
      assert Tied(s, t);
      P.InFlight(s.pumps[s.owner[t].0]);
    }
    assert N.Holders(s.slots.tasks) == {};
    NoneWaiting(s.slots);
  }

  lemma NoneWaiting(s: N.System)
    requires N.Inv(s) && forall t | 0 <= t < |s.tasks| :: !s.tasks[t].phase.Waiting?
    ensures s.pool.waiters == []
  {
    if s.pool.waiters != [] {
      var t := FirstWaits(s);
    }
  }

  lemma FirstWaits(s: N.System) returns (t: nat)
    requires N.Inv(s) && s.pool.waiters != []
    ensures t < |s.tasks| && s.tasks[t].phase.Waiting?
  {
    t := s.pool.waiters[0];
  }

  /** A waiting task means that some task holds a slot. */
  lemma WaitingHasHolder(s: N.System, t: nat) returns (h: nat)
    requires N.Inv(s) && s.pool.max > 0 && t < |s.tasks| && s.tasks[t].phase.Waiting?
    ensures h < |s.tasks| && s.tasks[h].phase.Holding?
  {
    hide N.Bounded;
    assert t in s.pool.waiters;
    h := N.SomeoneHolds(s.tasks);
  }

  // ---- whole runs ----

  predicate IsRun(s: System, steps: seq<Step>)
    decreases |steps|
  {
    steps == [] || (Enabled(s, steps[0]) && IsRun(Next(s, steps[0]), steps[1..]))
  }

  function After(s: System, steps: seq<Step>): System
    requires IsRun(s, steps)
    decreases |steps|
  {
    if steps == [] then s else After(Next(s, steps[0]), steps[1..])
  }

  /** The steps that are neither ticks nor progress reports nor cancelling. */
  function Moves(steps: seq<Step>): nat {
    if steps == [] then 0 else (if steps[0].Event? then 0 else 1) + Moves(steps[1..])
  }

  lemma {:induction false} RunKeeps(s: System, steps: seq<Step>)
    requires Inv(s) && IsRun(s, steps)
    ensures Inv(After(s, steps)) && Moves(steps) + Ahead(After(s, steps)) <= Ahead(s)
    decreases |steps|
  {
    hide Inv, Enabled, Next, Ahead;
    if steps != [] {
      StepKeeps(s, steps[0]);
      RunKeeps(Next(s, steps[0]), steps[1..]);
    }
  }

  lemma {:induction false} LeftIsNatural(pumps: seq<P.State>)
    requires forall p | 0 <= p < |pumps| :: P.Inv(pumps[p])
    ensures Left(pumps) >= 0
    decreases |pumps|
  {
    hide P.Inv, P.Remaining;
    if pumps != [] {
      P.InFlight(pumps[|pumps| - 1]);
      LeftIsNatural(pumps[..|pumps| - 1]);
    }
  }

  /** So from any state with the invariant. */
  lemma RunFromInv(s: System, steps: seq<Step>)
    requires Inv(s) && IsRun(s, steps)
    ensures var e := After(s, steps);
            && Moves(steps) <= Ahead(s)
            && e.slots.pool.used <= e.slots.pool.max
            && (forall p | 0 <= p < |e.pumps| :: e.pumps[p].settlements == (if e.pumps[p].done then 1 else 0))
            && (!AllDone(e) ==> exists step :: Enabled(e, step) && !step.Event?)
            && (AllDone(e) ==> e.slots.pool.used == 0 && e.slots.pool.waiters == [])
  {
    hide IsRun, After, N.Work, Left, Enabled, P.Missing;
    RunKeeps(s, steps);
    var e := After(s, steps);
    LeftIsNatural(e.pumps);
    if AllDone(e) {
      PoolIsEmpty(e);
    } else {
      var step := NeverStuck(e);
    }
  }

  lemma {:induction false} RunKeepsMax(s: System, steps: seq<Step>)
    requires IsRun(s, steps)
    ensures After(s, steps).slots.pool.max == s.slots.pool.max
    decreases |steps|
  {
    hide P.Next, N.Next;
    if steps != [] {
      if steps[0].Slot? {
        SlotMoves(s.slots, steps[0].step, steps[0].step.task);
      }
      RunKeepsMax(Next(s, steps[0]), steps[1..]);
    }
  }

  // ---- the start ----

  /** A scheduler that has just begun has nothing settled. */
  lemma BeginFits(f: P.File, manual: Option<int>, max: int, aborted: bool)
    requires max >= 3 && P.Missing(f) != []
    ensures var b := P.Begin(f, manual, max, aborted);
            P.Inv(b) && b.succeeded == {} && b.file == f && forall idx <- b.started :: idx in b.running
  {
    hide P.Pumped, P.TotalLoaded, P.Missing, P.InitialLoaded;
    P.BeginIsGood(f, manual, max, aborted);
    P.BeginFile(f, manual, max, aborted);
    forall t: P.State
      ensures P.Pumped(t).succeeded == t.succeeded
      ensures forall idx <- P.Pumped(t).started :: idx in t.started || idx in P.Pumped(t).running
    {
      PumpedGrows(t);
    }
  }

  /** Schedulers that have just begun and a pool whose tasks nobody has begun, one for each missing
      chunk. */
  lemma StartIsGood(max: nat, pumps: seq<P.State>, owner: seq<(nat, nat)>)
    requires max > 0 && forall p | 0 <= p < |pumps| :: P.Inv(pumps[p]) && pumps[p].succeeded == {}
    requires forall p | 0 <= p < |pumps| :: forall idx <- pumps[p].started :: idx in pumps[p].running
    requires Owned(System(N.Start(max, seq(|owner|, i => false)), pumps, owner))
    ensures Inv(System(N.Start(max, seq(|owner|, i => false)), pumps, owner))
  {
    hide P.Inv, N.Inv, P.Missing;
    N.StartIsGood(max, seq(|owner|, i => false));
  }

  /** A file to send, the number of threads chosen, and whether the upload is already cancelled. */
  datatype Begins = Begins(file: P.File, manual: Option<int>, aborted: bool)

  /** Some schedulers have just begun, each with something to send, and one pool in which nobody has
      begun the tasks, one for each missing chunk. */
  ghost predicate Beginning(s: System, max: nat, begins: seq<Begins>) {
    && s.slots == N.Start(max, seq(|s.owner|, i => false))
    && |begins| == |s.pumps|
    && (forall p | 0 <= p < |s.pumps| ::
          && P.Missing(begins[p].file) != []
          && s.pumps[p] == P.Begin(begins[p].file, begins[p].manual, max, begins[p].aborted))
    && Owned(s)
  }

  /** Any number of schedulers over one pool, in any run from their beginning: the run makes only so
      many moves, it can make one as long as a scheduler has not settled, each settles at most once,
      and when all have settled every slot is back. */
  lemma AllSettleAndSlotsComeBack(s: System, max: nat, begins: seq<Begins>, steps: seq<Step>)
    requires max >= 3 && Beginning(s, max, begins) && IsRun(s, steps)
    ensures var e := After(s, steps);
            && Moves(steps) <= Ahead(s)
            && e.slots.pool.max == max && e.slots.pool.used <= max
            && (forall p | 0 <= p < |e.pumps| :: e.pumps[p].settlements == (if e.pumps[p].done then 1 else 0))
            && (!AllDone(e) ==> exists step :: Enabled(e, step) && !step.Event?)
            && (AllDone(e) ==> e.slots.pool.used == 0 && e.slots.pool.waiters == [])
  {
    hide IsRun, After, P.Begin, P.Inv, P.Missing, N.Start, Inv, Owned, Ahead, Moves, AllDone, Enabled;
    forall p | 0 <= p < |s.pumps|
      ensures P.Inv(s.pumps[p]) && s.pumps[p].succeeded == {}
      ensures forall idx <- s.pumps[p].started :: idx in s.pumps[p].running
    {
      BeginFits(begins[p].file, begins[p].manual, max, begins[p].aborted);
    }
    assert s == System(N.Start(max, seq(|s.owner|, i => false)), s.pumps, s.owner);
    StartIsGood(max, s.pumps, s.owner);
    RunFromInv(s, steps);
    RunKeepsMax(s, steps);
    StartMax(max, seq(|s.owner|, i => false));
  }

  lemma StartMax(max: nat, cancelled: seq<bool>)
    ensures N.Start(max, cancelled).pool.max == max
  {
  }
}
