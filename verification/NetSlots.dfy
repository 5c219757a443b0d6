/** The connection pool shared by all chunk uploads, and the life of one chunk upload in it. */
module NetSlots {
  import opened Wrappers

  const CHUNK_RETRIES := 3

  datatype Pool = Pool(max: nat, used: int, waiters: seq<nat>)

  /** A free slot is taken at once, otherwise the task queues up. */
  function Acquire(p: Pool, task: nat): (Pool, bool) {
    if p.used < p.max then (p.(used := p.used + 1), true) else (p.(waiters := p.waiters + [task]), false)
  }

  /** The slot is handed to the first waiter, or given back. */
  function Release(p: Pool): (Pool, Option<nat>) {
    if p.waiters != [] then (p.(waiters := p.waiters[1..]), Some(p.waiters[0])) else (p.(used := p.used - 1), None)
  }

  class Slots {
    const max: nat
    var used: int
    var waiters: seq<nat>

    ghost function State(): Pool
      reads this
    {
      Pool(max, used, waiters)
    }

    constructor (multiplexed: bool)
      ensures State() == Pool(if multiplexed then 8 else 5, 0, [])
    {
      max := if multiplexed then 8 else 5;
      used, waiters := 0, [];
    }

    method AcquireSlot(task: nat) returns (granted: bool)
      modifies this
      ensures (State(), granted) == Acquire(old(State()), task)
    {
      if used < max {
        used := used + 1;
        return true;
      }
      waiters := waiters + [task];
      granted := false;
    }

    method ReleaseSlot() returns (next: Option<nat>)
      modifies this
      ensures (State(), next) == Release(old(State()))
    {
      if |waiters| > 0 {
        next := Some(waiters[0]);
        waiters := waiters[1..];
      } else {
        next := None;
        used := used - 1;
      }
    }
  }

  // ---- the tasks ----

  datatype Outcome = Success | Failure | Cancelled

  datatype Phase =
    | Ready(attempt: nat)
    | Waiting(attempt: nat)
    | Holding(attempt: nat)
    | Backoff(attempt: nat)
    | Ended(outcome: Outcome)

  datatype Task = Task(phase: Phase, cancelled: bool)

  /** The pool, the tasks, and who asked for, was given and gave back a slot, in order. */
  datatype System = System(pool: Pool, tasks: seq<Task>, requests: seq<nat>, grants: seq<nat>, releases: seq<nat>)

  datatype Step = Begin(task: nat) | Finish(task: nat, outcome: Outcome) | Wake(task: nat) | Cancel(task: nat)

  predicate Enabled(s: System, step: Step) {
    && step.task < |s.tasks|
    && var t := s.tasks[step.task];
       match step
       case Begin(_) => t.phase.Ready?
       case Finish(_, outcome) => t.phase.Holding? && (outcome.Cancelled? ==> t.cancelled)
       case Wake(_) => t.phase.Backoff?
       case Cancel(_) => !t.cancelled
  }

  function Moved(s: System, task: nat, phase: Phase): System
    requires task < |s.tasks|
  {
    s.(tasks := s.tasks[task := s.tasks[task].(phase := phase)])
  }

  /** Asking for a slot. */
  function Asking(s: System, task: nat): System
    requires task < |s.tasks| && s.tasks[task].phase.Ready?
  {
    var a := s.tasks[task].phase.attempt;
    var (pool, granted) := Acquire(s.pool, task);
    Moved(s, task, if granted then Holding(a) else Waiting(a)).(
      pool := pool, requests := s.requests + [task], grants := if granted then s.grants + [task] else s.grants)
  }

  /** Giving the slot back on the way out of an attempt, whatever the way. */
  function Releasing(s: System, task: nat, phase: Phase): System
    requires task < |s.tasks|
  {
    var (pool, next) := Release(s.pool);
    var t := Moved(s, task, phase).(pool := pool, releases := s.releases + [task]);
    if next.Some? && next.value < |t.tasks| && t.tasks[next.value].phase.Waiting?
    then Moved(t, next.value, Holding(t.tasks[next.value].phase.attempt)).(grants := s.grants + [next.value])
    else t
  }

  function Next(s: System, step: Step): System
    requires Enabled(s, step)
  {
    var t := s.tasks[step.task];
    match step
    case Begin(i) => if t.cancelled then Moved(s, i, Ended(Cancelled)) else Asking(s, i)
    case Finish(i, outcome) => Releasing(s, i, if outcome.Failure? then Backoff(t.phase.attempt) else Ended(outcome))
    case Wake(i) =>
      Moved(s, i, if t.cancelled then Ended(Cancelled)
                  else if t.phase.attempt + 1 < CHUNK_RETRIES then Ready(t.phase.attempt + 1) else Ended(Failure))
    case Cancel(i) => s.(tasks := s.tasks[i := t.(cancelled := true)])
  }

  // ---- the invariant ----

  function Holders(tasks: seq<Task>): set<nat> {
    set i: nat | i < |tasks| && tasks[i].phase.Holding?
  }

  /** Slots are conserved, waiting means that the pool is full, slots are granted in the order in
      which they were asked for, and whatever was granted is held or was given back. */
  ghost predicate Conserved(s: System) {
    && |Holders(s.tasks)| == s.pool.used <= s.pool.max
    && (s.pool.waiters != [] ==> s.pool.used == s.pool.max)
    && s.requests == s.grants + s.pool.waiters
    && multiset(s.grants) == multiset(s.releases) + multiset(Holders(s.tasks))
  }

  /** The queue is exactly the waiting tasks, each once. */
  ghost predicate Queued(s: System) {
    && (forall k | 0 <= k < |s.pool.waiters| ::
          s.pool.waiters[k] < |s.tasks| && s.tasks[s.pool.waiters[k]].phase.Waiting?)
    && (forall k, j | 0 <= k < j < |s.pool.waiters| :: s.pool.waiters[k] != s.pool.waiters[j])
    && (forall i | 0 <= i < |s.tasks| && s.tasks[i].phase.Waiting? :: i in s.pool.waiters)
  }

  /** How often a task in this phase has asked for a slot. */
  predicate Asked(phase: Phase, n: nat) {
    match phase
    case Ready(a) => n == a < CHUNK_RETRIES
    case Ended(outcome) => n <= CHUNK_RETRIES && (outcome.Failure? ==> n == CHUNK_RETRIES)
    case _ => n == phase.attempt + 1 <= CHUNK_RETRIES
  }

  ghost predicate Bounded(s: System) {
    forall i | 0 <= i < |s.tasks| :: Asked(s.tasks[i].phase, multiset(s.requests)[i])
  }

  /** Only a cancelled task ends as cancelled. */
  predicate EndsRight(t: Task) {
    t.phase == Ended(Cancelled) ==> t.cancelled
  }

  ghost predicate Inv(s: System) {
    Conserved(s) && Queued(s) && Bounded(s) && forall i | 0 <= i < |s.tasks| :: EndsRight(s.tasks[i])
  }

  lemma MovedHolders(s: System, task: nat, phase: Phase)
    requires task < |s.tasks|
    ensures Holders(Moved(s, task, phase).tasks)
         == if phase.Holding? then Holders(s.tasks) + {task} else Holders(s.tasks) - {task}
  {
  }

  lemma OneMoreRequest(requests: seq<nat>, task: nat, i: nat)
    ensures multiset(requests + [task])[i] == multiset(requests)[i] + (if i == task then 1 else 0)
  {
  }

  lemma AskingBounds(s: System, task: nat)
    requires Bounded(s) && task < |s.tasks| && s.tasks[task].phase.Ready?
    ensures Bounded(Asking(s, task))
  {
    var n := Asking(s, task);
    forall i | 0 <= i < |n.tasks| ensures Asked(n.tasks[i].phase, multiset(n.requests)[i]) {
      OneMoreRequest(s.requests, task, i);
      assert Asked(s.tasks[i].phase, multiset(s.requests)[i]);
    }
  }

  lemma AskingQueues(s: System, task: nat)
    requires Queued(s) && task < |s.tasks| && s.tasks[task].phase.Ready?
    ensures Queued(Asking(s, task))
  {
    var n := Asking(s, task);
    if Acquire(s.pool, task).1 {
      assert n.pool.waiters == s.pool.waiters;
    } else {
      assert n.pool.waiters == s.pool.waiters + [task];
      assert n.pool.waiters[|s.pool.waiters|] == task;
    }
    forall i | 0 <= i < |n.tasks| && n.tasks[i].phase.Waiting? ensures i in n.pool.waiters {
      if i != task {
        assert s.tasks[i].phase.Waiting?;
        assert i in s.pool.waiters;
      }
    }
  }

  lemma AskingConserves(s: System, task: nat)
    requires Conserved(s) && task < |s.tasks| && s.tasks[task].phase.Ready?
    ensures Conserved(Asking(s, task))
  {
    hide Holders;
    var a := s.tasks[task].phase.attempt;
    NotHolding(s.tasks, task);
    MovedHolders(s, task, Holding(a));
    MovedHolders(s, task, Waiting(a));
    var n := Asking(s, task);
    if Acquire(s.pool, task).1 {
      assert s.pool.waiters == [];
      assert multiset(n.grants) == multiset(s.grants) + multiset{task};
      assert multiset(Holders(n.tasks)) == multiset(Holders(s.tasks)) + multiset{task};
    } else {
      assert Holders(n.tasks) == Holders(s.tasks);
    }
  }

  lemma NotHolding(tasks: seq<Task>, task: nat)
    requires task < |tasks|
    ensures task in Holders(tasks) <==> tasks[task].phase.Holding?
  {
  }

  /** Moving between phases outside the pool. */
  lemma PhaseKeeps(s: System, task: nat, phase: Phase)
    requires Inv(s) && task < |s.tasks| && !s.tasks[task].phase.Holding? && !s.tasks[task].phase.Waiting?
    requires !phase.Holding? && !phase.Waiting? && Asked(phase, multiset(s.requests)[task])
    requires phase == Ended(Cancelled) ==> s.tasks[task].cancelled
    ensures Inv(Moved(s, task, phase))
  {
    hide Holders, Asked, Conserved, Queued;
    NotHolding(s.tasks, task);
    MovedHolders(s, task, phase);
    assert Holders(s.tasks) - {task} == Holders(s.tasks);
    SamePool(s, Moved(s, task, phase));
    SameQueue(s, Moved(s, task, phase));
  }

  lemma SamePool(s: System, n: System)
    requires Conserved(s) && n.pool == s.pool && Holders(n.tasks) == Holders(s.tasks)
    requires n.requests == s.requests && n.grants == s.grants && n.releases == s.releases
    ensures Conserved(n)
  {
  }

  lemma SameQueue(s: System, n: System)
    requires Queued(s) && n.pool.waiters == s.pool.waiters && |n.tasks| == |s.tasks|
    requires forall i | 0 <= i < |s.tasks| :: n.tasks[i].phase.Waiting? <==> s.tasks[i].phase.Waiting?
    ensures Queued(n)
  {
  }

  lemma ReleasingConserves(s: System, task: nat, phase: Phase)
    requires Conserved(s) && Queued(s) && task < |s.tasks| && s.tasks[task].phase.Holding?
    requires !phase.Holding? && !phase.Waiting?
    ensures Conserved(Releasing(s, task, phase))
  {
    hide Holders;
    MovedHolders(s, task, phase);
    NotHolding(s.tasks, task);
    var n := Releasing(s, task, phase);
    if s.pool.waiters != [] {
      var w := s.pool.waiters[0];
      var t := Moved(s, task, phase);
      NotHolding(s.tasks, w);
      MovedHolders(t, w, Holding(s.tasks[w].phase.attempt));
      assert Holders(n.tasks) == Holders(s.tasks) - {task} + {w};
      HandedOver(s.grants, s.releases, Holders(s.tasks), task, w);
      assert n.grants + n.pool.waiters == s.grants + s.pool.waiters;
    } else {
      assert Holders(n.tasks) == Holders(s.tasks) - {task};
      HandedBack(s.grants, s.releases, Holders(s.tasks), task);
    }
  }

  lemma HandedBack(grants: seq<nat>, releases: seq<nat>, holders: set<nat>, task: nat)
    requires multiset(grants) == multiset(releases) + multiset(holders) && task in holders
    ensures multiset(grants) == multiset(releases + [task]) + multiset(holders - {task})
  {
  }

  lemma HandedOver(grants: seq<nat>, releases: seq<nat>, holders: set<nat>, task: nat, next: nat)
    requires multiset(grants) == multiset(releases) + multiset(holders) && task in holders && next !in holders
    ensures multiset(grants + [next]) == multiset(releases + [task]) + multiset(holders - {task} + {next})
  {
    HandedBack(grants, releases, holders, task);
    assert multiset(holders - {task} + {next}) == multiset(holders - {task}) + multiset{next};
  }

  lemma ReleasingQueues(s: System, task: nat, phase: Phase)
    requires Queued(s) && task < |s.tasks| && s.tasks[task].phase.Holding?
    requires !phase.Holding? && !phase.Waiting?
    ensures Queued(Releasing(s, task, phase))
  {
    var n := Releasing(s, task, phase);
    if s.pool.waiters == [] {
      SameQueue(s, n);
    } else {
      var w := s.pool.waiters[0];
      assert s.tasks[w].phase.Waiting?;
      assert forall k | 0 <= k < |n.pool.waiters| :: n.pool.waiters[k] == s.pool.waiters[k + 1];
      forall i | 0 <= i < |n.tasks| && n.tasks[i].phase.Waiting? ensures i in n.pool.waiters {
        assert s.tasks[i].phase.Waiting?;
        var k :| 0 <= k < |s.pool.waiters| && s.pool.waiters[k] == i;
        assert n.pool.waiters[k - 1] == i;
      }
    }
  }

  lemma ReleasingBounds(s: System, task: nat, phase: Phase)
    requires Bounded(s) && task < |s.tasks| && s.tasks[task].phase.Holding?
    requires Asked(phase, multiset(s.requests)[task]) && !phase.Waiting?
    ensures Bounded(Releasing(s, task, phase))
  {
    var n := Releasing(s, task, phase);
    forall i | 0 <= i < |n.tasks| ensures Asked(n.tasks[i].phase, multiset(n.requests)[i]) {
      assert Asked(s.tasks[i].phase, multiset(s.requests)[i]);
    }
  }

  lemma BeginKeeps(s: System, i: nat)
    requires Inv(s) && Enabled(s, Begin(i)) && !s.tasks[i].cancelled
    ensures Inv(Asking(s, i))
  {
    hide Holders, Conserved, Queued, Bounded;
    AskingConserves(s, i);
    AskingQueues(s, i);
    AskingBounds(s, i);
    forall k | 0 <= k < |s.tasks| ensures EndsRight(Asking(s, i).tasks[k]) {
      assert EndsRight(s.tasks[k]);
    }
  }

  lemma FinishKeeps(s: System, i: nat, phase: Phase)
    requires Inv(s) && i < |s.tasks| && s.tasks[i].phase.Holding?
    requires phase == Backoff(s.tasks[i].phase.attempt) || (phase.Ended? && !phase.outcome.Failure?)
    requires phase == Ended(Cancelled) ==> s.tasks[i].cancelled
    ensures Inv(Releasing(s, i, phase))
  {
    hide Holders, Conserved, Queued;
    assert Asked(s.tasks[i].phase, multiset(s.requests)[i]);
    hide Bounded;
    ReleasingConserves(s, i, phase);
    ReleasingQueues(s, i, phase);
    ReleasingBounds(s, i, phase);
    forall k | 0 <= k < |s.tasks| ensures EndsRight(Releasing(s, i, phase).tasks[k]) {
      assert EndsRight(s.tasks[k]);
    }
  }

  lemma StepKeeps(s: System, step: Step)
    requires Inv(s) && Enabled(s, step)
    ensures Inv(Next(s, step))
  {
    hide Holders, Conserved, Queued;
    var t := s.tasks[step.task];
    assert Asked(t.phase, multiset(s.requests)[step.task]);
    match step
    case Begin(i) =>
      if t.cancelled {
        PhaseKeeps(s, i, Ended(Cancelled));
      } else {
        BeginKeeps(s, i);
      }
    case Finish(i, outcome) =>
      FinishKeeps(s, i, if outcome.Failure? then Backoff(t.phase.attempt) else Ended(outcome));
    case Wake(i) =>
      PhaseKeeps(s, i, Next(s, step).tasks[i].phase);
    case Cancel(i) =>
      CancelKeeps(s, i);
  }

  lemma CancelKeeps(s: System, i: nat)
    requires Inv(s) && i < |s.tasks|
    ensures Inv(s.(tasks := s.tasks[i := s.tasks[i].(cancelled := true)]))
  {
    hide Asked, Conserved, Queued;
    var n := s.(tasks := s.tasks[i := s.tasks[i].(cancelled := true)]);
    assert Holders(n.tasks) == Holders(s.tasks);
    SamePool(s, n);
    SameQueue(s, n);
  }

  // ---- whole runs ----

  function Start(max: nat, cancelled: seq<bool>): System {
    System(Pool(max, 0, []), seq(|cancelled|, i requires 0 <= i < |cancelled| => Task(Ready(0), cancelled[i])),
        [], [], [])
  }

  predicate IsRun(s: System, steps: seq<Step>)
    decreases |steps|
  {
    steps == [] || (Enabled(s, steps[0]) && IsRun(Next(s, steps[0]), steps[1..]))
  }

  function After(s: System, steps: seq<Step>): System
    requires IsRun(s, steps)
    decreases |steps|
  {
    if steps == [] then s else After(Next(s, steps[0]), steps[1..])
  }

  lemma StartIsGood(max: nat, cancelled: seq<bool>)
    ensures Inv(Start(max, cancelled))
  {
    assert Holders(Start(max, cancelled).tasks) == {};
  }

  /** How much a task can still do. */
  function Rank(t: Task): nat {
    (if t.cancelled then 0 else 1) +
    (match t.phase
     case Ready(a) => if a < CHUNK_RETRIES then 4 * (CHUNK_RETRIES - a) else 4
     case Waiting(a) => if a < CHUNK_RETRIES then 4 * (CHUNK_RETRIES - a) - 1 else 3
     case Holding(a) => if a < CHUNK_RETRIES then 4 * (CHUNK_RETRIES - a) - 2 else 2
     case Backoff(a) => if a < CHUNK_RETRIES then 4 * (CHUNK_RETRIES - a) - 3 else 1
     case Ended(_) => 0)
  }

  function Work(tasks: seq<Task>): nat {
    if tasks == [] then 0 else Work(tasks[..|tasks| - 1]) + Rank(tasks[|tasks| - 1])
  }

  lemma {:induction false} WorkAfter(tasks: seq<Task>, i: nat, t: Task)
    requires i < |tasks|
    ensures Work(tasks[i := t]) == Work(tasks) - Rank(tasks[i]) + Rank(t)
    decreases |tasks|
  {
    hide Rank;
    var n := |tasks| - 1;
    if i < n {
      assert tasks[i := t][..n] == tasks[..n][i := t];
      WorkAfter(tasks[..n], i, t);
    } else {
      assert tasks[i := t][..n] == tasks[..n];
    }
  }

  /** Every step uses up work, so no run goes on for ever. */
  lemma StepWorks(s: System, step: Step)
    requires Inv(s) && Enabled(s, step)
    ensures Work(Next(s, step).tasks) < Work(s.tasks)
  {
    hide Work, Conserved, Queued;
    var i := step.task;
    var t := s.tasks[i];
    assert Asked(t.phase, multiset(s.requests)[i]);
    WorkAfter(s.tasks, i, Next(s, step).tasks[i]);
    if step.Finish? {
      var moved := Moved(s, i, if step.outcome.Failure? then Backoff(t.phase.attempt) else Ended(step.outcome));
      WorkAfter(s.tasks, i, moved.tasks[i]);
      if s.pool.waiters != [] && s.pool.waiters[0] < |s.tasks| && moved.tasks[s.pool.waiters[0]].phase.Waiting? {
        var w := s.pool.waiters[0];
        assert Asked(s.tasks[w].phase, multiset(s.requests)[w]);
        WorkAfter(moved.tasks, w, Next(s, step).tasks[w]);
      }
    }
  }

  predicate AllEnded(s: System) {
    forall i | 0 <= i < |s.tasks| :: s.tasks[i].phase.Ended?
  }

  lemma SomeoneHolds(tasks: seq<Task>) returns (i: nat)
    requires Holders(tasks) != {}
    ensures i < |tasks| && tasks[i].phase.Holding?
  {
    i :| i in Holders(tasks);
  }

  /** As long as a task has not ended, some task can go on without anybody being cancelled. */
  lemma NeverStuck(s: System) returns (step: Step)
    requires Inv(s) && s.pool.max > 0 && !AllEnded(s)
    ensures Enabled(s, step) && !step.Cancel?
  {
    hide Bounded;
    var i: nat :| i < |s.tasks| && !s.tasks[i].phase.Ended?;
    match s.tasks[i].phase
    case Ready(_) => step := Begin(i);
    case Holding(_) => step := Finish(i, Success);
    case Backoff(_) => step := Wake(i);
    case Waiting(_) =>
      assert i in s.pool.waiters;
      var h := SomeoneHolds(s.tasks);
      step := Finish(h, Success);
  }

  /** Any run from the start: no more holders than slots, nobody overtakes a waiter, at most
      three slots per task, and the run is no longer than the work there was. */
  lemma {:induction false} RunKeeps(s: System, steps: seq<Step>)
    requires Inv(s) && IsRun(s, steps)
    ensures Inv(After(s, steps))
    ensures |steps| + Work(After(s, steps).tasks) <= Work(s.tasks)
    decreases |steps|
  {
    hide Inv, Enabled, Next, Work;
    if steps != [] {
      StepKeeps(s, steps[0]);
      StepWorks(s, steps[0]);
      RunKeeps(Next(s, steps[0]), steps[1..]);
    }
  }

  /** When all tasks have ended every slot is back, each task having given back exactly the slots
      it was granted. */
  lemma SlotsComeBack(max: nat, cancelled: seq<bool>, steps: seq<Step>)
    requires IsRun(Start(max, cancelled), steps)
    ensures var e := After(Start(max, cancelled), steps);
            && |Holders(e.tasks)| == e.pool.used <= max
            && e.grants <= e.requests
            && (e.pool.waiters != [] ==> e.pool.used == max)
            && (forall i | 0 <= i < |e.tasks| :: multiset(e.requests)[i] <= 3)
            && (forall i | 0 <= i < |e.tasks| && e.tasks[i].phase == Ended(Failure) :: multiset(e.requests)[i] == 3)
            && (AllEnded(e) ==> e.pool.used == 0 && e.pool.waiters == [] && multiset(e.grants) == multiset(e.releases))
  {
    hide IsRun, After, Start;
    StartIsGood(max, cancelled);
    RunKeeps(Start(max, cancelled), steps);
    MaxStays(Start(max, cancelled), steps);
    var e := After(Start(max, cancelled), steps);
    assert Start(max, cancelled).pool.max == max by {
      StartMax(max, cancelled);
    }
    forall i | 0 <= i < |e.tasks|
      ensures multiset(e.requests)[i] <= 3 && (e.tasks[i].phase == Ended(Failure) ==> multiset(e.requests)[i] == 3)
    {
      assert Asked(e.tasks[i].phase, multiset(e.requests)[i]);
    }
    if AllEnded(e) {
      assert Holders(e.tasks) == {};
    }
  }

  lemma StartMax(max: nat, cancelled: seq<bool>)
    ensures Start(max, cancelled).pool.max == max
  {
  }

  lemma {:induction false} MaxStays(s: System, steps: seq<Step>)
    requires IsRun(s, steps)
    ensures After(s, steps).pool.max == s.pool.max
    decreases |steps|
  {
    if steps != [] {
      MaxStays(Next(s, steps[0]), steps[1..]);
    }
  }
}
