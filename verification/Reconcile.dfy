/** Orphan reconciliation while completions are in progress: the clean-up lists keys, reads the
    known slugs and deletes key by key, and a completion renames first and finalizes later, with
    any other steps in between. */
module Reconcile {
  import opened Bits
  import opened Storage
  import opened Tables
  import opened Handlers
  import opened Cleanup
  import opened Wrappers
  import L = Lifecycle

  datatype Reconciler =
    | Idle
    | Listed(keys: set<string>)
    | Deleting(pending: set<string>, known: set<string>)

  /** Renamed holds the upload row that a completing handler has read and renamed. */
  datatype System = System(world: World, renamed: map<string, Upload>, reconciler: Reconciler)

  datatype Step =
    | Handler(step: L.Step)
    | Rename(id: string)
    | Finalize(id: string, env: CompleteEnv)
    | ListKeys
    | ReadKnown
    | DropKey(key: string)

  ghost predicate Enabled(s: System, step: Step) {
    match step
    case Handler(h) =>
      && L.WellKeyed(s.world.db)
      && (h.Init? ==> ChunkSetting(h.env.chunkSetting))
      && (h.Complete? && h.id in s.world.db.uploads ==> !s.world.db.uploads[h.id].storage.LocalDisk?)
    case Rename(id) =>
      && id in s.world.db.uploads && s.world.db.uploads[id].storage.LocalDisk?
      && AllParts(s.world.db, id, s.world.db.uploads[id].totalChunks)
      && s.world.db.uploads[id].slug in s.world.disk.tmp
    case Finalize(id, env) => id in s.renamed
    case ListKeys => s.reconciler.Idle?
    case ReadKnown => s.reconciler.Listed?
    case DropKey(key) => s.reconciler.Deleting? && key in s.reconciler.pending
  }

  ghost function KnownSlugs(db: Db): set<string> {
    (set id | id in db.files :: db.files[id].slug) + (set id | id in db.uploads :: db.uploads[id].slug)
  }

  /** The metadata step of a completion: the row it read, not the row as it is now. */
  ghost function Finalizing(w: World, u: Upload, env: CompleteEnv): World {
    if env.dbFails then
      (if env.rollbackFails then w else w.(disk := w.disk.(objects := w.disk.objects - {u.slug})))
    else if FileSlugTaken(w.db, u.slug) then w
    else w.(db := Finalized(w.db, u, env))
  }

  ghost function Dropping(s: System, key: string): System {
    if !s.reconciler.Deleting? then s
    else
      var rest := s.reconciler.pending - {key};
      s.(world := if key in s.reconciler.known then s.world
                  else s.world.(disk := s.world.disk.(objects := s.world.disk.objects - {key})),
         reconciler := if rest == {} then Idle else Deleting(rest, s.reconciler.known))
  }

  ghost function Next(s: System, step: Step): System
    requires Enabled(s, step)
  {
    match step
    case Handler(h) => s.(world := L.Result(s.world, h).0)
    case Rename(id) =>
      var u := s.world.db.uploads[id];
      s.(world := s.world.(disk := Renamed(s.world.disk, u.slug)), renamed := s.renamed[id := u])
    case Finalize(id, env) => s.(world := Finalizing(s.world, s.renamed[id], env), renamed := s.renamed - {id})
    case ListKeys =>
      s.(reconciler := if s.world.disk.objects == map[] then Idle else Listed(s.world.disk.objects.Keys))
    case ReadKnown => s.(reconciler := Deleting(s.reconciler.keys, KnownSlugs(s.world.db)))
    case DropKey(key) => Dropping(s, key)
  }

  /** The steps that the property allows: a new upload has an id no handler is working on and a
      generated slug is fresh, and the uploads and files of the slug are not aborted or deleted. */
  ghost predicate Spares(s: System, step: Step, slug: string) {
    match step
    case Handler(Init(req, env)) =>
      && env.id !in s.renamed
      && (req.slug == "" || env.lookupFails ==> !FileSlugTaken(s.world.db, ChosenSlug(req, env)))
    case Handler(Abort(id, aborts)) => id in s.world.db.uploads ==> s.world.db.uploads[id].slug != slug
    case Handler(Delete(id, faults)) => id in s.world.db.files ==> s.world.db.files[id].slug != slug
    case _ => true
  }

  /** A failed metadata write of the slug is rolled back by deleting the object. */
  ghost predicate RollsBack(s: System, step: Step, slug: string) {
    && step.Finalize? && step.id in s.renamed && s.renamed[step.id].slug == slug
    && step.env.dbFails && !step.env.rollbackFails
  }

  // ---- the invariant ----

  ghost predicate SnapshotsMatch(s: System) {
    forall id | id in s.renamed ::
      s.renamed[id].id == id && (id in s.world.db.uploads ==> s.world.db.uploads[id] == s.renamed[id])
  }

  /** The slug has a row, and a running deletion pass knows it. */
  ghost predicate Protected(s: System, slug: string) {
    && SnapshotsMatch(s)
    && Known(s.world.db, slug)
    && (s.reconciler.Deleting? && slug in s.reconciler.pending ==> slug in s.reconciler.known)
  }

  lemma KnownSlugsAreKnown(db: Db, slug: string)
    ensures slug in KnownSlugs(db) <==> Known(db, slug)
  {
  }

  lemma HandlerKeepsRow(w: World, step: L.Step, slug: string)
    requires L.WellKeyed(w.db) && (step.Init? ==> ChunkSetting(step.env.chunkSetting))
    requires Known(w.db, slug)
    requires step.Abort? && step.id in w.db.uploads ==> w.db.uploads[step.id].slug != slug
    requires step.Delete? && step.fileId in w.db.files ==> w.db.files[step.fileId].slug != slug
    ensures Known(L.Result(w, step).0.db, slug)
  {
    hide AllParts, NewUpload, WellFormed, DiskFull, InRange, TrimQuotes, HasSlot;
    var w' := L.Result(w, step).0;
    if FileSlugTaken(w.db, slug) {
      var id :| id in w.db.files && w.db.files[id].slug == slug;
      assert id in w'.db.files && w'.db.files[id].slug == slug;
    } else {
      var id :| id in w.db.uploads && w.db.uploads[id].slug == slug;
      if id in w'.db.uploads {
        assert w'.db.uploads[id].slug == slug;
      } else {
        assert w'.db.files[w.db.nextId].slug == slug;
      }
    }
  }

  /** Only deleting the slug's own file takes its object. */
  lemma HandlerKeepsObject(s: System, step: L.Step, slug: string)
    requires Enabled(s, Handler(step)) && slug in s.world.disk.objects
    requires step.Delete? && step.fileId in s.world.db.files ==> s.world.db.files[step.fileId].slug != slug
    ensures var w' := L.Result(s.world, step).0;
            slug in w'.disk.objects && w'.disk.objects[slug] == s.world.disk.objects[slug]
  {
    hide AllParts, NewUpload, WellFormed, DiskFull, InRange, TrimQuotes, HasSlot;
  }

  lemma HandlerKeepsUploads(s: System, step: L.Step)
    requires Enabled(s, Handler(step)) && SnapshotsMatch(s) && (step.Init? ==> step.env.id !in s.renamed)
    ensures SnapshotsMatch(s.(world := L.Result(s.world, step).0))
  {
    hide AllParts, WellFormed, DiskFull, InRange, TrimQuotes, HasSlot;
  }

  lemma FinalizingKeepsRow(w: World, u: Upload, env: CompleteEnv, slug: string)
    requires Known(w.db, slug) && L.WellKeyed(w.db) && (u.id in w.db.uploads ==> w.db.uploads[u.id] == u)
    ensures Known(Finalizing(w, u, env).db, slug)
  {
    var w' := Finalizing(w, u, env);
    if FileSlugTaken(w.db, slug) {
      var id :| id in w.db.files && w.db.files[id].slug == slug;
      assert id in w'.db.files && w'.db.files[id].slug == slug;
    } else {
      var id :| id in w.db.uploads && w.db.uploads[id].slug == slug;
      if id in w'.db.uploads {
        assert w'.db.uploads[id].slug == slug;
      } else {
        assert w'.db.files[w.db.nextId].slug == slug;
      }
    }
  }

  /** Every allowed step keeps the protection, keeps the object exactly unless it rolls it back, and
      then keeps its bytes unless it is the rename that publishes the slug. */
  lemma StepProtects(s: System, step: Step, slug: string)
    requires Protected(s, slug) && Enabled(s, step) && Spares(s, step, slug) && L.WellKeyed(s.world.db)
    ensures Protected(Next(s, step), slug)
    ensures slug in s.world.disk.objects ==>
              && (slug in Next(s, step).world.disk.objects <==> !RollsBack(s, step, slug))
              && (!(step.Rename? && s.world.db.uploads[step.id].slug == slug) && !RollsBack(s, step, slug) ==>
                    Next(s, step).world.disk.objects[slug] == s.world.disk.objects[slug])
  {
    hide Known, L.Result;
    KnownSlugsAreKnown(s.world.db, slug);
    match step
    case Handler(h) =>
      HandlerKeepsRow(s.world, h, slug);
      HandlerKeepsUploads(s, h);
      if slug in s.world.disk.objects {
        HandlerKeepsObject(s, h, slug);
      }
    case Finalize(id, env) =>
      FinalizingKeepsRow(s.world, s.renamed[id], env, slug);
    case _ =>
  }

  lemma HandlerStaysKeyed(s: System, step: L.Step)
    requires Enabled(s, Handler(step)) && L.WellKeyed(s.world.db)
    ensures L.WellKeyed(L.Result(s.world, step).0.db)
  {
    hide AllParts, WellFormed, DiskFull, InRange, TrimQuotes, HasSlot;
  }

  lemma StepStaysKeyed(s: System, step: Step)
    requires Enabled(s, step) && L.WellKeyed(s.world.db)
    ensures L.WellKeyed(Next(s, step).world.db)
  {
    hide L.Result;
    if step.Handler? {
      HandlerStaysKeyed(s, step.step);
    }
  }

  // ---- published objects ----

  /** The slug's upload has been renamed into place and nothing is left to rename again. */
  ghost predicate Published(s: System, slug: string, bytes: seq<Byte>) {
    && Protected(s, slug) && slug !in s.world.disk.tmp
    && slug in s.world.disk.objects && s.world.disk.objects[slug] == bytes
  }

  /** A failing init under the slug leaves an upload file of zeros there again. */
  ghost predicate Reopens(s: System, step: Step, slug: string) {
    && step.Handler? && step.step.Init?
    && L.ZerosLeft(s.world, step.step.req, step.step.env).Some? && ChosenSlug(step.step.req, step.step.env) == slug
  }

  lemma InitKeepsTmpAway(s: System, req: InitRequest, env: InitEnv, slug: string)
    requires ChunkSetting(env.chunkSetting) && Spares(s, Handler(L.Init(req, env)), slug)
    requires Known(s.world.db, slug) && slug !in s.world.disk.tmp
    ensures slug in InitSpec(s.world, req, env).0.disk.tmp <==> Reopens(s, Handler(L.Init(req, env)), slug)
  {
    hide WellFormed, DiskFull, BackendOf, ChosenChunkSize, L.ZerosLeft;
    ChosenChunkSizeInRange(req, env);
    if InitSpec(s.world, req, env).1.Ok? {
      L.AcceptedLeavesNothing(s.world, req, env);
    } else {
      L.InitLeavesZeros(s.world, req, env);
    }
  }

  lemma HandlerKeepsTmpAway(s: System, step: L.Step, slug: string)
    requires Enabled(s, Handler(step)) && Spares(s, Handler(step), slug)
    requires Known(s.world.db, slug) && slug !in s.world.disk.tmp
    ensures slug in L.Result(s.world, step).0.disk.tmp <==> Reopens(s, Handler(step), slug)
  {
    hide AllParts, InitSpec, InRange, TrimQuotes, HasSlot, Spares, Known;
    if step.Init? {
      InitKeepsTmpAway(s, step.req, step.env, slug);
    }
  }

  /** A published object stays published through every allowed step, except exactly a rollback and
      a failing init that leaves zeros under its slug. */
  lemma StepKeepsPublished(s: System, step: Step, slug: string, bytes: seq<Byte>)
    requires Published(s, slug, bytes) && Enabled(s, step) && Spares(s, step, slug) && L.WellKeyed(s.world.db)
    ensures Published(Next(s, step), slug, bytes) <==> !RollsBack(s, step, slug) && !Reopens(s, step, slug)
  {
    hide Protected, L.Result, AllParts, L.ZerosLeft;
    StepProtects(s, step, slug);
    if step.Handler? {
      assert Known(s.world.db, slug) by {
        ProtectedIsKnown(s, slug);
      }
      HandlerKeepsTmpAway(s, step.step, slug);
    }
  }

  lemma ProtectedIsKnown(s: System, slug: string)
    requires Protected(s, slug)
    ensures Known(s.world.db, slug)
  {
  }

  // ---- runs ----

  /** A run of allowed steps. */
  ghost predicate SparingRun(s: System, steps: seq<Step>, slug: string)
    decreases |steps|
  {
    steps == [] ||
    (Enabled(s, steps[0]) && Spares(s, steps[0], slug) && SparingRun(Next(s, steps[0]), steps[1..], slug))
  }

  ghost function After(s: System, steps: seq<Step>, slug: string): System
    requires SparingRun(s, steps, slug)
    decreases |steps|
  {
    if steps == [] then s else After(Next(s, steps[0]), steps[1..], slug)
  }

  lemma {:induction false} RunProtects(s: System, steps: seq<Step>, slug: string)
    requires SparingRun(s, steps, slug) && Protected(s, slug) && L.WellKeyed(s.world.db)
    ensures Protected(After(s, steps, slug), slug) && L.WellKeyed(After(s, steps, slug).world.db)
    decreases |steps|
  {
    hide Protected, Enabled, Spares, Next;
    if steps != [] {
      StepProtects(s, steps[0], slug);
      StepStaysKeyed(s, steps[0]);
      RunProtects(Next(s, steps[0]), steps[1..], slug);
    }
  }

  /** No step rolls the slug's object back and no failing init leaves zeros under the slug. */
  ghost predicate Undisturbed(s: System, steps: seq<Step>, slug: string)
    requires SparingRun(s, steps, slug)
    decreases |steps|
  {
    steps == [] ||
    (!RollsBack(s, steps[0], slug) && !Reopens(s, steps[0], slug) && Undisturbed(Next(s, steps[0]), steps[1..], slug))
  }

  lemma {:induction false} RunKeepsPublished(s: System, steps: seq<Step>, slug: string, bytes: seq<Byte>)
    requires SparingRun(s, steps, slug) && Undisturbed(s, steps, slug)
    requires Published(s, slug, bytes) && L.WellKeyed(s.world.db)
    ensures Published(After(s, steps, slug), slug, bytes)
    decreases |steps|
  {
    hide Published, Enabled, Spares, Next, RollsBack, Reopens;
    if steps != [] {
      StepKeepsPublished(s, steps[0], slug, bytes);
      StepStaysKeyed(s, steps[0]);
      RunKeepsPublished(Next(s, steps[0]), steps[1..], slug, bytes);
    }
  }

  /** An upload whose row exists at some moment before the known slugs are read, say when the
      keys are listed, and that is neither aborted nor deleted: from the moment it is renamed its
      object stays with the very bytes that were uploaded, under every interleaving with the
      reconciler and with other requests that do not roll it back or leave zeros under its slug. */
  lemma PublishedUploadIsNeverLost(s: System, id: string, before: seq<Step>, after: seq<Step>, slug: string)
    requires L.WellKeyed(s.world.db) && SnapshotsMatch(s) && !s.reconciler.Deleting?
    requires id in s.world.db.uploads && s.world.db.uploads[id].slug == slug
    requires SparingRun(s, before, slug)
    requires var m := After(s, before, slug);
             && id in m.world.db.uploads && m.world.db.uploads[id].slug == slug
             && Enabled(m, Rename(id)) && SparingRun(Next(m, Rename(id)), after, slug)
             && Undisturbed(Next(m, Rename(id)), after, slug)
    ensures var m := After(s, before, slug);
            var e := After(Next(m, Rename(id)), after, slug);
            && slug in m.world.disk.tmp
            && slug in e.world.disk.objects && e.world.disk.objects[slug] == m.world.disk.tmp[slug]
            && Known(e.world.db, slug)
  {
    hide SparingRun, After, AllParts, Undisturbed;
    RunProtects(s, before, slug);
    var m := After(s, before, slug);
    StepProtects(m, Rename(id), slug);
    StepStaysKeyed(m, Rename(id));
    RunKeepsPublished(Next(m, Rename(id)), after, slug, m.world.disk.tmp[slug]);
  }

  /** Such an init between rename and finalize lets a repeated completion rename the file of zeros over
      the object. */
  lemma ReopenedIsOverwritten(s: System, id: string, req: InitRequest, env: InitEnv)
    requires L.WellKeyed(s.world.db) && id in s.world.db.uploads && s.world.db.uploads[id].storage.LocalDisk?
    requires AllParts(s.world.db, id, s.world.db.uploads[id].totalChunks)
    requires ChunkSetting(env.chunkSetting) && Reopens(s, Handler(L.Init(req, env)), s.world.db.uploads[id].slug)
    ensures var slug, init := s.world.db.uploads[id].slug, Handler(L.Init(req, env));
            && Enabled(s, init) && Enabled(Next(s, init), Rename(id))
            && Next(Next(s, init), Rename(id)).world.disk.objects
               == s.world.disk.objects[slug := Blank(L.ZerosLeft(s.world, req, env).value)]
  {
    hide AllParts, InitSpec, L.ZerosLeft, Blank;
    if InitSpec(s.world, req, env).1.Ok? {
      L.AcceptedLeavesNothing(s.world, req, env);
    } else {
      L.InitLeavesZeros(s.world, req, env);
    }
  }

  /** Both kinds exist for every upload with a requestable slug that no file has. */
  lemma BothKindsReopen(s: System, id: string, size: int, other: string, now: int)
    requires id in s.world.db.uploads && SlugSyntax(s.world.db.uploads[id].slug) && size > 0
    requires !FileSlugTaken(s.world.db, s.world.db.uploads[id].slug)
    ensures var slug := s.world.db.uploads[id].slug;
            && Reopens(s, Handler(L.Init(L.HugeInit(slug), L.FullDisk(other, now))), slug)
            && Reopens(s, Handler(L.Init(L.SizedInit(slug, size), L.StuckFile(other, now))), slug)
  {
    hide SlugSyntax, FileSlugTaken, L.ZerosLeft;
    var slug := s.world.db.uploads[id].slug;
    L.HugeInitLeavesEmpty(s.world, slug, other, now);
    L.RefusedInitLeavesZeros(s.world, slug, size, other, now);
    L.SlugNotEmpty(slug);
  }

  // ---- without interleaving the steps are the atomic operations ----

  lemma RenameThenFinalizeIsComplete(s: System, id: string, env: CompleteEnv)
    requires L.WellKeyed(s.world.db) && Enabled(s, Rename(id)) && env.completes
    ensures Next(Next(s, Rename(id)), Finalize(id, env)).world == CompleteSpec(s.world, id, env).0
  {
    hide AllParts, Finalized;
  }

  /** Deleting key by key in the given order. */
  ghost function DropInOrder(s: System, order: seq<string>): System
    decreases |order|
  {
    if order == [] then s else DropInOrder(Dropping(s, order[0]), order[1..])
  }

  ghost function Keys(order: seq<string>): set<string> {
    set k | k in order
  }

  lemma FirstKey(order: seq<string>)
    requires order != [] && forall i, j | 0 <= i < j < |order| :: order[i] != order[j]
    ensures order[0] in Keys(order) && Keys(order[1..]) == Keys(order) - {order[0]}
    ensures order[1..] != [] ==> order[1] in Keys(order[1..])
  {
    assert order == [order[0]] + order[1..];
    assert order[1..] != [] ==> order[1..][0] in Keys(order[1..]);
  }

  ghost function Left(objects: map<string, seq<Byte>>, pending: set<string>, known: set<string>)
    : map<string, seq<Byte>>
  {
    map k | k in objects && (k !in pending || k in known) :: objects[k]
  }

  lemma LeftOneLess(objects: map<string, seq<Byte>>, pending: set<string>, known: set<string>, key: string)
    requires key in pending
    ensures Left(if key in known then objects else objects - {key}, pending - {key}, known)
              == Left(objects, pending, known)
  {
  }

  lemma {:induction false} DropInOrderLeaves(s: System, order: seq<string>)
    requires s.reconciler.Deleting? && s.reconciler.pending == Keys(order) && order != []
    requires forall i, j | 0 <= i < j < |order| :: order[i] != order[j]
    ensures DropInOrder(s, order)
         == s.(reconciler := Idle, world := s.world.(disk := s.world.disk.(
                 objects := Left(s.world.disk.objects, Keys(order), s.reconciler.known))))
    decreases |order|
  {
    hide Left, Keys;
    var n := Dropping(s, order[0]);
    FirstKey(order);
    LeftOneLess(s.world.disk.objects, Keys(order), s.reconciler.known, order[0]);
    if order[1..] != [] {
      DropInOrderLeaves(n, order[1..]);
    } else {
      NoneLeft(n.world.disk.objects, s.reconciler.known);
    }
  }

  lemma NoneLeft(objects: map<string, seq<Byte>>, known: set<string>)
    ensures Keys([]) == {} && Left(objects, {}, known) == objects
  {
  }

  /** Listing, reading and deleting with nothing in between is the sequential reconciliation. */
  lemma AloneIsDropOrphans(s: System, order: seq<string>)
    requires s.reconciler.Idle? && Keys(order) == s.world.disk.objects.Keys && order != []
    requires forall i, j | 0 <= i < j < |order| :: order[i] != order[j]
    ensures order[0] in s.world.disk.objects
    ensures DropInOrder(Next(Next(s, ListKeys), ReadKnown), order).world
         == DropOrphans(s.world, OrphanFaults(false, false, {}))
  {
    hide Known, KnownSlugs, DropInOrder;
    assert order[0] in Keys(order);
    DropInOrderLeaves(Next(Next(s, ListKeys), ReadKnown), order);
    forall k ensures k in KnownSlugs(s.world.db) <==> Known(s.world.db, k) {
      KnownSlugsAreKnown(s.world.db, k);
    }
    assert Left(s.world.disk.objects, Keys(order), KnownSlugs(s.world.db))
        == DropOrphans(s.world, OrphanFaults(false, false, {})).disk.objects;
  }

  // ---- the condition is exact ----

  lemma Prepend(s: System, step: Step, rest: seq<Step>, slug: string)
    requires Enabled(s, step) && Spares(s, step, slug) && SparingRun(Next(s, step), rest, slug)
    ensures SparingRun(s, [step] + rest, slug)
    ensures After(s, [step] + rest, slug) == After(Next(s, step), rest, slug)
  {
    hide Enabled, Spares, Next;
    assert ([step] + rest)[1..] == rest;
  }

  /** A file row under the slug with nothing on disk. */
  ghost predicate Lost(s: System, slug: string) {
    FileSlugTaken(s.world.db, slug) && slug !in s.world.disk.objects
  }

  lemma FinishesLost(s: System, id: string, slug: string, now: int)
    requires s.reconciler.Deleting? && slug in s.reconciler.pending && slug !in s.reconciler.known
    requires L.WellKeyed(s.world.db) && !FileSlugTaken(s.world.db, slug) && Enabled(s, Rename(id))
    requires s.world.db.uploads[id].slug == slug
    ensures var steps := [Rename(id), DropKey(slug), Finalize(id, CompleteEnv(now, "", true, false, false, false))];
            SparingRun(s, steps, slug) && Lost(After(s, steps, slug), slug)
  {
    hide AllParts;
    var finalize := Finalize(id, CompleteEnv(now, "", true, false, false, false));
    var s1 := Next(s, Rename(id));
    var s2 := Next(s1, DropKey(slug));
    var s3 := Next(s2, finalize);
    assert s3.world.db.files[s2.world.db.nextId].slug == slug;
    Prepend(s2, finalize, [], slug);
    Prepend(s1, DropKey(slug), [finalize], slug);
    assert [DropKey(slug)] + [finalize] == [DropKey(slug), finalize];
    Prepend(s, Rename(id), [DropKey(slug), finalize], slug);
    assert [Rename(id)] + [DropKey(slug), finalize] == [Rename(id), DropKey(slug), finalize];
  }

  lemma TinyUploadReady(s: System, id: string, slug: string, now: int, byte: Byte)
    requires L.WellKeyed(s.world.db) && !UploadSlugTaken(s.world.db, slug) && id !in s.world.db.uploads
    requires forall k <- s.world.db.parts :: k.0 != id
    ensures var w := L.TinyUpload(s.world, id, slug, now, byte);
            L.WellKeyed(w.db) && Enabled(s.(world := w), Rename(id)) && w.db.uploads[id].slug == slug
  {
    hide NewUpload;
    L.TinyRow(id, slug, now);
    var w := L.TinyUpload(s.world, id, slug, now, byte);
    assert AllParts(w.db, id, 1);
  }

  /** When the known slugs are read, exactly the listed keys without a row are at risk: for any
      such key a later upload under it loses its object although nobody aborts or deletes it. */
  lemma LateRowIsLost(s: System, id: string, slug: string, now: int, byte: Byte) returns (steps: seq<Step>)
    requires L.WellKeyed(s.world.db) && s.reconciler.Listed? && slug in s.reconciler.keys
    requires !Known(s.world.db, slug)
    requires id !in s.world.db.uploads && id !in s.renamed && forall k <- s.world.db.parts :: k.0 != id
    ensures SparingRun(s, steps, slug) && Lost(After(s, steps, slug), slug)
  {
    hide L.TinyUpload, FileSlugTaken, UploadSlugTaken, Lost, After, SparingRun;
    KnownSlugsAreKnown(s.world.db, slug);
    var init := Handler(L.Init(L.TINY, L.TinyEnv(id, slug, now)));
    var chunk := Handler(L.Chunk(id, ChunkRequest(Some(0), 1, [byte], false, false, None, false)));
    var s1 := Next(s, ReadKnown);
    L.TinyUploadArises(s.world, id, slug, now, byte);
    var s2 := Next(s1, init);
    assert L.WellKeyed(s2.world.db) by {
      StepStaysKeyed(s1, init);
    }
    var s3 := Next(s2, chunk);
    assert s3.world == L.TinyUpload(s.world, id, slug, now, byte);
    TinyUploadReady(s1, id, slug, now, byte);
    assert s3 == s1.(world := s3.world);
    assert s3.world.db.files == s.world.db.files by {
      TinyKeepsFiles(s.world, id, slug, now, byte);
    }
    assert !FileSlugTaken(s3.world.db, slug) by {
      SameFilesTaken(s.world.db, s3.world.db, slug);
    }
    FinishesLost(s3, id, slug, now);
    var last := [Rename(id), DropKey(slug), Finalize(id, CompleteEnv(now, "", true, false, false, false))];
    Prepend(s2, chunk, last, slug);
    Prepend(s1, init, [chunk] + last, slug);
    Prepend(s, ReadKnown, [init] + ([chunk] + last), slug);
    steps := [ReadKnown] + ([init] + ([chunk] + last));
  }

  lemma TinyKeepsFiles(w: World, id: string, slug: string, now: int, byte: Byte)
    ensures L.TinyUpload(w, id, slug, now, byte).db.files == w.db.files
  {
  }

  lemma SameFilesTaken(db: Db, db': Db, slug: string)
    requires db'.files == db.files
    ensures FileSlugTaken(db', slug) <==> FileSlugTaken(db, slug)
  {
  }

  // ---- aborts ----

  /** A running deletion pass does not have the slug among the keys it will delete. */
  predicate Spared(s: System, slug: string) {
    s.reconciler.Deleting? && slug in s.reconciler.pending ==> slug in s.reconciler.known
  }

  /** The known slugs are read while the slug's key is listed and has no row. */
  ghost predicate Dooms(s: System, step: Step, slug: string) {
    step.ReadKnown? && s.reconciler.Listed? && slug in s.reconciler.keys && !Known(s.world.db, slug)
  }

  ghost predicate DeletesFile(s: System, step: Step, slug: string) {
    && step.Handler? && step.step.Delete? && step.step.fileId in s.world.db.files
    && s.world.db.files[step.step.fileId].slug == slug
  }

  /** Of all steps, aborts among them, exactly reading the known slugs while the listed slug has no
      row puts it on the list of a deletion pass; as long as it is not on the list its object goes
      only by a rollback or by deleting its file. */
  lemma StepDoomsExactlyWhen(s: System, step: Step, slug: string)
    requires Enabled(s, step) && Spared(s, slug)
    ensures Spared(Next(s, step), slug) <==> !Dooms(s, step, slug)
    ensures slug in s.world.disk.objects && !DeletesFile(s, step, slug) ==>
              (slug in Next(s, step).world.disk.objects <==> !RollsBack(s, step, slug))
  {
    hide Known, L.Result, AllParts;
    KnownSlugsAreKnown(s.world.db, slug);
    if step.Handler? && slug in s.world.disk.objects && !DeletesFile(s, step, slug) {
      HandlerKeepsObject(s, step.step, slug);
    }
  }

  ghost predicate Harmless(s: System, step: Step, slug: string) {
    !Dooms(s, step, slug) && !DeletesFile(s, step, slug) && !RollsBack(s, step, slug)
  }

  ghost predicate HarmlessRun(s: System, steps: seq<Step>, slug: string)
    decreases |steps|
  {
    steps == [] ||
    (Enabled(s, steps[0]) && Harmless(s, steps[0], slug) && HarmlessRun(Next(s, steps[0]), steps[1..], slug))
  }

  ghost function AfterHarmless(s: System, steps: seq<Step>, slug: string): System
    requires HarmlessRun(s, steps, slug)
    decreases |steps|
  {
    if steps == [] then s else AfterHarmless(Next(s, steps[0]), steps[1..], slug)
  }

  /** So an object survives every run without these, even when its upload is aborted between its
      rename and its metadata write. */
  lemma {:induction false} ObjectSurvivesAborts(s: System, steps: seq<Step>, slug: string)
    requires Spared(s, slug) && slug in s.world.disk.objects && HarmlessRun(s, steps, slug)
    ensures slug in AfterHarmless(s, steps, slug).world.disk.objects && Spared(AfterHarmless(s, steps, slug), slug)
    decreases |steps|
  {
    hide Spared, Enabled, Next, Dooms, DeletesFile, RollsBack;
    if steps != [] {
      StepDoomsExactlyWhen(s, steps[0], slug);
      ObjectSurvivesAborts(Next(s, steps[0]), steps[1..], slug);
    }
  }

  /** All steps of the run can be made, one after the other. */
  ghost predicate CanRun(s: System, steps: seq<Step>)
    decreases |steps|
  {
    steps == [] || (Enabled(s, steps[0]) && CanRun(Next(s, steps[0]), steps[1..]))
  }

  ghost function Ending(s: System, steps: seq<Step>): System
    requires CanRun(s, steps)
    decreases |steps|
  {
    if steps == [] then s else Ending(Next(s, steps[0]), steps[1..])
  }

  lemma Precede(s: System, step: Step, rest: seq<Step>)
    requires Enabled(s, step) && CanRun(Next(s, step), rest)
    ensures CanRun(s, [step] + rest) && Ending(s, [step] + rest) == Ending(Next(s, step), rest)
  {
    hide Enabled, Next;
    assert ([step] + rest)[1..] == rest;
  }

  const CALM := AbortFaults(false, false, false)

  /** After an abort no row has the slug. */
  lemma AbortForgets(w: World, id: string)
    requires L.WellKeyed(w.db) && L.SlugsApart(w.db) && id in w.db.uploads && w.db.uploads[id].storage.LocalDisk?
    ensures var w' := AbortSpec(w, id, CALM).0;
            w'.disk.objects == w.disk.objects && !Known(w'.db, w.db.uploads[id].slug)
  {
  }

  lemma DroppedThenFinalized(s: System, id: string, u: Upload, now: int)
    requires s.reconciler.Deleting? && u.slug in s.reconciler.pending && u.slug !in s.reconciler.known
    requires id in s.renamed && s.renamed[id] == u && !FileSlugTaken(s.world.db, u.slug)
    ensures var finalize := Finalize(id, CompleteEnv(now, "", true, false, false, false));
            CanRun(s, [DropKey(u.slug), finalize]) && Lost(Ending(s, [DropKey(u.slug), finalize]), u.slug)
  {
    var finalize := Finalize(id, CompleteEnv(now, "", true, false, false, false));
    var s1 := Next(s, DropKey(u.slug));
    var s2 := Next(s1, finalize);
    assert s2.world.db.files[s1.world.db.nextId].slug == u.slug;
    Precede(s1, finalize, []);
    Precede(s, DropKey(u.slug), [finalize]);
    assert [DropKey(u.slug)] + [finalize] == [DropKey(u.slug), finalize];
  }

  /** Aborting between rename and metadata write takes the row that protects the object: a clean-up
      pass from there deletes the object, and the completion still answers with a file. */
  lemma AbortedIsLost(s: System, id: string, now: int)
    requires L.WellKeyed(s.world.db) && L.SlugsApart(s.world.db) && s.reconciler.Idle? && Enabled(s, Rename(id))
    ensures var slug := s.world.db.uploads[id].slug;
            var finalize := Finalize(id, CompleteEnv(now, "", true, false, false, false));
            var steps := [Rename(id), Handler(L.Abort(id, CALM)), ListKeys, ReadKnown, DropKey(slug), finalize];
            CanRun(s, steps) && Lost(Ending(s, steps), slug)
  {
    hide AllParts, L.WellKeyed, L.SlugsApart, KnownSlugs, Known, Lost, CanRun, Ending;
    var u := s.world.db.uploads[id];
    var finalize := Finalize(id, CompleteEnv(now, "", true, false, false, false));
    var abort := Handler(L.Abort(id, CALM));
    var s1 := Next(s, Rename(id));
    AbortForgets(s1.world, id);
    var s2 := Next(s1, abort);
    assert u.slug in s2.world.disk.objects;
    var s3 := Next(s2, ListKeys);
    var s4 := Next(s3, ReadKnown);
    KnownSlugsAreKnown(s2.world.db, u.slug);
    assert !FileSlugTaken(s4.world.db, u.slug) by {
      UnknownIsFree(s2.world.db, u.slug);
    }
    DroppedThenFinalized(s4, id, u, now);
    Precede(s3, ReadKnown, [DropKey(u.slug), finalize]);
    Precede(s2, ListKeys, [ReadKnown] + [DropKey(u.slug), finalize]);
    Precede(s1, abort, [ListKeys] + ([ReadKnown] + [DropKey(u.slug), finalize]));
    Precede(s, Rename(id), [abort] + ([ListKeys] + ([ReadKnown] + [DropKey(u.slug), finalize])));
    assert [Rename(id)] + ([abort] + ([ListKeys] + ([ReadKnown] + [DropKey(u.slug), finalize])))
        == [Rename(id), abort, ListKeys, ReadKnown, DropKey(u.slug), finalize];
  }

  lemma UnknownIsFree(db: Db, slug: string)
    requires !Known(db, slug)
    ensures !FileSlugTaken(db, slug)
  {
  }

  /** Reading the known slugs before listing the keys would be wrong: an upload started and
      finished in between is listed, unknown, and deleted. */
  lemma ReadingKnownFirstLoses(w: World, id: string, slug: string, now: int, byte: Byte)
    requires L.WellKeyed(w.db) && !Known(w.db, slug) && slug !in w.disk.objects
    requires id !in w.db.uploads && forall k <- w.db.parts :: k.0 != id
    ensures var known := KnownSlugs(w.db);
            var ready := L.TinyUpload(w, id, slug, now, byte);
            && L.WellKeyed(ready.db)
            && (var (done, status) := CompleteSpec(ready, id, CompleteEnv(now, "", true, false, false, false));
                var s := System(done, map[], Deleting(done.disk.objects.Keys, known));
                && status.Ok? && Enabled(s, DropKey(slug)) && Lost(Next(s, DropKey(slug)), slug))
  {
    hide L.TinyUpload, AllParts;
    KnownSlugsAreKnown(w.db, slug);
    TinyUploadReady(System(w, map[], Idle), id, slug, now, byte);
    TinyKeepsFiles(w, id, slug, now, byte);
    var ready := L.TinyUpload(w, id, slug, now, byte);
    var (done, status) := CompleteSpec(ready, id, CompleteEnv(now, "", true, false, false, false));
    assert !FileSlugTaken(ready.db, slug);
    assert done.db.files[ready.db.nextId].slug == slug;
  }
}
