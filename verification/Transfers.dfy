/** Browser and server together: the scheduler's successes are chunks the server has accepted, while
    any other requests come in between. */
module Transfers {
  import opened Chunks
  import opened Tables
  import opened Handlers
  import opened Wrappers
  import L = Lifecycle
  import P = Pump

  /** The scheduler of one upload, the server, and the chunk indexes the server has accepted. */
  datatype System = System(pump: P.State, history: L.History, accepted: set<nat>)

  datatype Step = Client(event: P.Event) | Request(step: L.Step)

  /** A success is reported only for an accepted chunk; the upload itself is neither aborted nor
      completed before the scheduler has settled. */
  ghost predicate Enabled(s: System, id: string, step: Step, src: L.Sources) {
    match step
    case Client(e) => P.Enabled(s.pump, e) && (e.Settle? && e.error.None? ==> e.idx in s.accepted)
    case Request(r) =>
      && L.WellKeyed(s.history.world.db) && L.Honest(s.history.world, r, src)
      && (r.Abort? || r.Complete? ==> r.id != id)
  }

  /** The chunk of the upload that a request records when it is answered Ok. */
  function Recorded(r: L.Step, id: string): set<nat> {
    match r
    case Chunk(i, req) => if i == id && req.idx.Some? && req.idx.value >= 0 then {req.idx.value} else {}
    case ETag(i, index, etag, partFails, r2Off) =>
      if i == id && index.Some? && index.value >= 0 then {index.value} else {}
    case _ => {}
  }

  ghost function Next(s: System, id: string, step: Step, src: L.Sources): System
    requires Enabled(s, id, step, src)
  {
    match step
    case Client(e) => s.(pump := P.Next(s.pump, e))
    case Request(r) =>
      s.(history := L.Next(s.history, r),
         accepted := if L.Result(s.history.world, r).1.Ok? then s.accepted + Recorded(r, id) else s.accepted)
  }

  ghost predicate IsRun(s: System, id: string, steps: seq<Step>, src: L.Sources)
    decreases |steps|
  {
    steps == [] || (Enabled(s, id, steps[0], src) && IsRun(Next(s, id, steps[0], src), id, steps[1..], src))
  }

  ghost function After(s: System, id: string, steps: seq<Step>, src: L.Sources): System
    requires IsRun(s, id, steps, src)
    decreases |steps|
  {
    if steps == [] then s else After(Next(s, id, steps[0], src), id, steps[1..], src)
  }

  // ---- what links the two sides ----

  /** What the browser knows of the upload when it starts: the row, and the recorded indexes. */
  ghost predicate Describes(f: P.File, db: Db, u: Upload) {
    && f.size == u.size && f.chunkSize == u.chunkSize && f.total == u.totalChunks
    && forall idx: nat | idx in f.received :: (u.id, idx as int) in db.parts
  }

  ghost predicate Linked(s: System, u: Upload, src: L.Sources) {
    && P.Inv(s.pump) && L.Inv(s.history, src)
    && u.id in s.history.world.db.uploads && s.history.world.db.uploads[u.id] == u
    && Describes(s.pump.file, s.history.world.db, u)
    && s.pump.succeeded <= s.accepted
    && forall idx: nat | idx in s.accepted :: (u.id, idx as int) in s.history.world.db.parts
  }

  /** Requests that leave the upload alone keep its row and its parts, and record what they
      accept. */
  lemma RequestKeepsUpload(w: World, r: L.Step, u: Upload)
    requires L.WellKeyed(w.db) && (r.Init? ==> ChunkSetting(r.env.chunkSetting))
    requires u.id in w.db.uploads && w.db.uploads[u.id] == u && (r.Abort? || r.Complete? ==> r.id != u.id)
    ensures var (w', status) := L.Result(w, r);
            && u.id in w'.db.uploads && w'.db.uploads[u.id] == u
            && (forall k <- w.db.parts | k.0 == u.id :: k in w'.db.parts)
            && (status.Ok? ==> forall idx: nat | idx in Recorded(r, u.id) :: (u.id, idx as int) in w'.db.parts)
  {
    hide AllParts, WellFormed, DiskFull, TrimQuotes, HasSlot, Want, Arrived, FileSlugTaken, UploadSlugTaken;
  }

  lemma {:induction false} PumpedSucceeds(s: P.State)
    ensures P.Pumped(s).succeeded == s.succeeded
    decreases |s.indexes|
  {
    if P.CanStart(s) {
      PumpedSucceeds(P.StartOne(s));
    }
  }

  /** Only a success adds to the succeeded chunks. */
  lemma EventSucceeds(s: P.State, e: P.Event)
    ensures P.Next(s, e).succeeded == if e.Settle? && e.error.None? then s.succeeded + {e.idx} else s.succeeded
  {
    hide P.Pumped, P.TotalLoaded, P.ChunkBytes;
    forall t: P.State ensures P.Pumped(t).succeeded == t.succeeded {
      PumpedSucceeds(t);
    }
  }

  lemma StepKeepsLinked(s: System, u: Upload, step: Step, src: L.Sources)
    requires Linked(s, u, src) && Enabled(s, u.id, step, src)
    ensures Linked(Next(s, u.id, step, src), u, src)
  {
    hide P.Inv, L.Inv, P.Next, L.Result, L.Honest;
    match step
    case Client(e) =>
      P.StepKeeps(s.pump, e);
      P.SameFile(s.pump, e);
      EventSucceeds(s.pump, e);
    case Request(r) =>
      L.StepKeeps(s.history, r, src);
      HonestSetting(s.history.world, r, src);
      RequestKeepsUpload(s.history.world, r, u);
  }

  lemma HonestSetting(w: World, r: L.Step, src: L.Sources)
    requires L.Honest(w, r, src)
    ensures r.Init? ==> ChunkSetting(r.env.chunkSetting)
  {
  }

  lemma {:induction false} RunKeepsLinked(s: System, u: Upload, steps: seq<Step>, src: L.Sources)
    requires Linked(s, u, src) && IsRun(s, u.id, steps, src)
    ensures Linked(After(s, u.id, steps, src), u, src)
    decreases |steps|
  {
    hide Linked, Enabled, Next;
    if steps != [] {
      StepKeepsLinked(s, u, steps[0], src);
      RunKeepsLinked(Next(s, u.id, steps[0], src), u, steps[1..], src);
    }
  }

  lemma MissingCovers(f: P.File, idx: nat)
    requires idx < f.total
    ensures idx in f.received || idx in P.Missing(f)
  {
  }

  /** A resolved scheduler has had a success for every missing chunk. */
  lemma ResolvedHasAll(s: P.State, idx: nat)
    requires P.Inv(s) && s.result.Resolved? && idx < s.file.total
    ensures idx in s.file.received || idx in s.succeeded
  {
    hide P.Missing, P.MissingBelow;
    MissingCovers(s.file, idx);
    assert s.started + [] == s.started == P.Missing(s.file);
    assert s.running == {};
  }

  /** When the scheduler resolves, in any run of it among any other requests, the server has every
      part, so that completing succeeds exactly if the upload file is still there, and then
      publishes the source. */
  lemma ResolvedMeansComplete(s: System, u: Upload, manual: Option<int>, max: int, steps: seq<Step>, env: CompleteEnv,
                              src: L.Sources)
    requires max >= 3 && P.Missing(s.pump.file) != [] && s.pump == P.Begin(s.pump.file, manual, max, false)
    requires L.Inv(s.history, src) && s.accepted == {}
    requires u.id in s.history.world.db.uploads && s.history.world.db.uploads[u.id] == u
    requires Describes(s.pump.file, s.history.world.db, u) && u.storage.LocalDisk?
    requires IsRun(s, u.id, steps, src) && After(s, u.id, steps, src).pump.result.Resolved?
    requires env.completes && !env.dbFails
    ensures var w := After(s, u.id, steps, src).history.world;
            && AllParts(w.db, u.id, u.totalChunks) && u.id in w.db.uploads && w.db.uploads[u.id] == u
            && (CompleteSpec(w, u.id, env).1.Ok? <==> u.slug in w.disk.tmp)
            && (u.slug in w.disk.tmp ==>
                  CompleteSpec(w, u.id, env).0.disk.objects == w.disk.objects[u.slug := src(u.id)])
  {
    hide IsRun, After, P.Inv, L.Inv, P.Begin, P.Missing, AllParts;
    P.BeginIsGood(s.pump.file, manual, max, false);
    P.BeginFile(s.pump.file, manual, max, false);
    NothingSucceededYet(s.pump.file, manual, max);
    RunKeepsLinked(s, u, steps, src);
    var e := After(s, u.id, steps, src);
    SomethingMissing(s.pump.file);
    assert AllParts(e.history.world.db, u.id, u.totalChunks) by {
      EveryPart(e, u, src);
    }
    L.RolledBack(e.history, u.id, env, src);
    L.InvIsKeyed(e.history, src);
    if u.slug in e.history.world.disk.tmp {
      assert !FileSlugTaken(e.history.world.db, u.slug) by {
        L.NoFileHasSlug(e.history.world.db, u.id) by {
          ApartInGood(e.history, src);
        }
      }
      L.CompletionIsSafe(e.history, u.id, env, src);
    }
  }

  lemma SomethingMissing(f: P.File)
    requires P.Missing(f) != []
    ensures f.total > 0
  {
  }

  lemma ApartInGood(h: L.History, src: L.Sources)
    requires L.Inv(h, src)
    ensures L.SlugsApart(h.world.db)
  {
  }

  lemma NothingSucceededYet(f: P.File, manual: Option<int>, max: int)
    ensures P.Begin(f, manual, max, false).succeeded == {}
  {
    forall t: P.State ensures P.Pumped(t).succeeded == t.succeeded {
      PumpedSucceeds(t);
    }
  }

  lemma EveryPart(s: System, u: Upload, src: L.Sources)
    requires Linked(s, u, src) && s.pump.result.Resolved? && u.totalChunks > 0
    ensures AllParts(s.history.world.db, u.id, u.totalChunks)
  {
    hide P.Inv, P.Missing;
    forall i ensures (u.id, i) in s.history.world.db.parts <==> 0 <= i < u.totalChunks {
      if 0 <= i < u.totalChunks {
        var k: nat := i;
        ResolvedHasAll(s.pump, k);
        assert (u.id, k as int) in s.history.world.db.parts;
      } else if (u.id, i) in s.history.world.db.parts {
        InRangeInGood(s.history, (u.id, i), src);
      }
    }
  }

  lemma InRangeInGood(h: L.History, k: (string, int), src: L.Sources)
    requires L.Inv(h, src) && k in h.world.db.parts
    ensures k.0 in h.world.db.uploads && 0 <= k.1 < h.world.db.uploads[k.0].totalChunks
  {
  }
}
