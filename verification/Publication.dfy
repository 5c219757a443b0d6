/** What a request asks for against what is finally published: from the init over any other requests to
    the completion, and on to the downloads. */
module Publication {
  import opened Bits
  import opened Chunks
  import opened Storage
  import opened Tables
  import opened Handlers
  import opened Wrappers
  import L = Lifecycle
  import Q = Quota

  // ---- what is accepted ----

  /** A letter, a digit, a hyphen or an underscore, by its code. */
  predicate SlugCode(code: int) {
    code == 45 || 48 <= code <= 57 || 65 <= code <= 90 || code == 95 || 97 <= code <= 122
  }

  lemma SlugIsLiteral(slug: string)
    ensures SlugSyntax(slug) <==> 3 <= |slug| <= 64 && forall c <- slug :: SlugCode(c as int)
  {
  }

  /** The requests that are valid, in plain numbers: at most ten years and a milliard downloads. */
  predicate ValidRequest(req: InitRequest, r2Configured: bool) {
    && 1 <= |req.name| <= 512 && req.size >= 1
    && 0 <= req.expiresIn <= 315_360_000 && 0 <= req.maxDownloads <= 1_000_000_000
    && (req.storage == "" || req.storage == "local" || (req.storage == "r2" && r2Configured))
    && (req.slug == "" || (3 <= |req.slug| <= 64 && forall c <- req.slug :: SlugCode(c as int)))
  }

  /** Exactly the requests that are not valid are refused as bad. */
  lemma BadExactlyWhenInvalid(w: World, req: InitRequest, env: InitEnv)
    requires ChunkSetting(env.chunkSetting)
    ensures InitSpec(w, req, env).1.BadRequest? <==> !ValidRequest(req, env.r2Configured)
  {
    hide SlugSyntax, ChosenChunkSize, DiskFull, SlugRefused, ChunkCount;
    SlugIsLiteral(req.slug);
  }

  /** Exactly the valid local uploads under a free slug that would leave less than a gibibyte of a known
      free space are refused as too large, where the 64-bit sum does not overflow. */
  lemma FullExactlyWhen(w: World, req: InitRequest, env: InitEnv)
    requires ChunkSetting(env.chunkSetting) && Int64(req.size + 0x4000_0000)
    ensures InitSpec(w, req, env).1.Full?
       <==> && ValidRequest(req, env.r2Configured) && (req.storage == "" || req.storage == "local")
            && (req.slug != "" && !env.lookupFails ==> !FileSlugTaken(w.db, req.slug))
            && env.free.Some? && env.free.value - req.size < 1024 * 1024 * 1024
  {
    hide SlugSyntax, ChosenChunkSize, ChunkCount, FileSlugTaken;
    SlugIsLiteral(req.slug);
  }

  // ---- the upload row ----

  /** The row of an accepted init holds what was asked for. */
  lemma RowIsRequested(w: World, req: InitRequest, env: InitEnv)
    requires ChunkSetting(env.chunkSetting) && InitSpec(w, req, env).1.Ok?
    ensures var uploads := InitSpec(w, req, env).0.db.uploads;
            && env.id !in w.db.uploads && env.id in uploads && uploads - {env.id} == w.db.uploads - {env.id}
            && (var u := uploads[env.id];
                && u.id == env.id && u.name == req.name && u.size == req.size && u.passwordHash == req.passwordHash
                && u.expiresIn == req.expiresIn && u.maxDownloads == req.maxDownloads && u.createdAt == env.now
                && u.slug == (if req.slug == "" then env.newSlug else req.slug)
                && (req.storage == "" || req.storage == "local" ==> u.storage == LocalDisk && u.providerID == "")
                && (req.storage == "r2" ==> u.storage == R2 && Some(u.providerID) == env.r2Provider)
                && (env.chunkSetting > 0 ==> u.chunkSize == env.chunkSetting)
                && (env.chunkSetting == 0 ==> u.chunkSize == AutoChunkSize(req.size)))
  {
    hide SlugSyntax, AutoChunkSize, SlugRefused, ChunkCount, DiskFull;
  }

  // ---- the requests in between ----

  /** A chunk of a local upload is accepted exactly when its index is one of the upload's, exactly its
      bytes are announced and arrive, the upload file is there and nothing fails; then its part is
      recorded, and otherwise none is. */
  lemma ChunkAcceptedExactlyWhen(w: World, id: string, req: ChunkRequest)
    requires id in w.db.uploads && w.db.uploads[id].storage == LocalDisk && w.db.uploads[id].chunkSize > 0
    ensures var u, (w', status) := w.db.uploads[id], ChunkSpec(w, id, req);
            && (status.Ok? <==>
                  && req.idx.Some? && 0 <= req.idx.value < u.totalChunks
                  && (var bytes := if req.idx.value < u.totalChunks - 1 then u.chunkSize
                                   else u.size - (u.totalChunks - 1) * u.chunkSize;
                      req.contentLength == bytes && |req.data| == bytes)
                  && !req.readFails && !req.partFails && u.slug in w.disk.tmp)
            && w'.db == (if status.Ok? then w.db.(parts := w.db.parts[(id, req.idx.value) := ""]) else w.db)
  {
    hide Overwrite;
  }

  /** An etag is recorded, without quotes at its ends, exactly for a chunk of an upload in an object store
      that is on, when something besides quotes is left and nothing fails. */
  lemma ETagAcceptedExactlyWhen(w: World, id: string, index: Option<int>, etag: string, partFails: bool, r2Off: bool)
    requires id in w.db.uploads
    ensures var u, (w', status) := w.db.uploads[id], ETagSpec(w, id, index, etag, partFails, r2Off);
            && (status.Ok? <==>
                  && u.storage == R2 && !r2Off && index.Some? && 0 <= index.value < u.totalChunks
                  && (exists c <- etag :: c != '"') && !partFails)
            && w' == (if status.Ok? then w.(db := w.db.(parts := w.db.parts[(id, index.value) := TrimQuotes(etag)]))
                      else w)
  {
    hide TrimQuotes;
    var before := TrimmedOfQuotes(etag);
    var r := TrimQuotes(etag);
    if r != "" {
      assert r[0] == etag[before];
      assert etag[before] in etag;
    } else {
      assert forall k | 0 <= k < |etag| :: etag[k] == '"';
    }
  }

  /** An abort takes the row with its parts unless that fails, the local upload file unless that fails,
      and nothing else. */
  lemma AbortTakes(w: World, id: string, faults: AbortFaults)
    requires id in w.db.uploads && w.db.uploads[id].storage == LocalDisk
    ensures var u, (w', status) := w.db.uploads[id], AbortSpec(w, id, faults);
            && (status.Ok? <==> !faults.db) && w'.disk.objects == w.disk.objects && w'.db.files == w.db.files
            && (forall slug :: slug in w'.disk.tmp <==> slug in w.disk.tmp && (slug != u.slug || faults.storage))
            && (forall slug <- w'.disk.tmp :: w'.disk.tmp[slug] == w.disk.tmp[slug])
            && (forall k :: k in w'.db.uploads <==> k in w.db.uploads && (k != id || faults.db))
            && (forall k :: k in w'.db.parts <==> k in w.db.parts && (k.0 != id || faults.db))
  {
  }

  /** A completion of a local upload is accepted exactly when every part is recorded, the upload file is
      there, no file has the slug and nothing fails. */
  lemma CompletedExactlyWhen(w: World, id: string, done: CompleteEnv)
    requires id in w.db.uploads && w.db.uploads[id].id == id && w.db.uploads[id].storage == LocalDisk
    ensures CompleteSpec(w, id, done).1.Ok?
       <==> && (forall i :: (id, i) in w.db.parts <==> 0 <= i < w.db.uploads[id].totalChunks)
            && w.db.uploads[id].totalChunks >= 0 && w.db.uploads[id].slug in w.disk.tmp
            && !FileSlugTaken(w.db, w.db.uploads[id].slug) && done.completes && !done.dbFails
  {
    hide FileSlugTaken, Finalized;
  }

  // ---- runs between init and completion ----

  /** A run of whole requests; each init finds a sane chunk size setting. */
  ghost predicate CanRun(h: L.History, steps: seq<L.Step>)
    requires L.WellKeyed(h.world.db)
    decreases |steps|
  {
    steps == [] ||
    ((steps[0].Init? ==> ChunkSetting(steps[0].env.chunkSetting)) &&
     (StaysKeyed(h.world, steps[0]); CanRun(L.Next(h, steps[0]), steps[1..])))
  }

  ghost function After(h: L.History, steps: seq<L.Step>): (r: L.History)
    requires L.WellKeyed(h.world.db) && CanRun(h, steps)
    ensures L.WellKeyed(r.world.db)
    decreases |steps|
  {
    if steps == [] then h
    else
      StaysKeyed(h.world, steps[0]);
      After(L.Next(h, steps[0]), steps[1..])
  }

  lemma StaysKeyed(w: World, step: L.Step)
    requires L.WellKeyed(w.db) && (step.Init? ==> ChunkSetting(step.env.chunkSetting))
    ensures L.WellKeyed(L.Result(w, step).0.db)
  {
    hide AllParts, WellFormed, DiskFull, InRange, TrimQuotes, HasSlot, ChunkCount, ChosenChunkSize;
    if step.Init? {
      ChosenChunkSizeInRange(step.req, step.env);
    }
  }

  /** The request neither aborts nor completes the upload. */
  predicate Spares(step: L.Step, id: string) {
    !(step.Abort? && step.id == id) && !(step.Complete? && step.id == id)
  }

  lemma RowStays(w: World, step: L.Step, id: string)
    requires L.WellKeyed(w.db) && (step.Init? ==> ChunkSetting(step.env.chunkSetting))
    requires id in w.db.uploads && Spares(step, id)
    ensures var uploads := L.Result(w, step).0.db.uploads; id in uploads && uploads[id] == w.db.uploads[id]
  {
    hide AllParts, WellFormed, DiskFull, InRange, TrimQuotes, HasSlot, ChunkCount, AutoChunkSize;
  }

  lemma {:induction false} RowStaysOverRun(h: L.History, steps: seq<L.Step>, id: string)
    requires L.WellKeyed(h.world.db) && CanRun(h, steps)
    requires id in h.world.db.uploads && forall step <- steps :: Spares(step, id)
    ensures var uploads := After(h, steps).world.db.uploads; id in uploads && uploads[id] == h.world.db.uploads[id]
    decreases |steps|
  {
    hide L.Result, L.WellKeyed, Spares;
    if steps != [] {
      assert forall step <- steps[1..] :: step in steps;
      StaysKeyed(h.world, steps[0]);
      RowStays(h.world, steps[0], id);
      RowStaysOverRun(L.Next(h, steps[0]), steps[1..], id);
    }
  }

  // ---- the published row ----

  /** The file is what the request asked for, published at the given time. */
  predicate AsRequested(f: File, req: InitRequest, env: InitEnv, published: int) {
    && f.name == req.name && f.size == req.size
    && f.passwordHash == req.passwordHash && f.maxDownloads == req.maxDownloads && f.downloads == 0
    && f.createdAt == published
    && (req.expiresIn > 0 ==> f.expiresAt - published == req.expiresIn) && (req.expiresIn <= 0 ==> f.expiresAt == 0)
    && (req.slug == "" ==> f.slug == env.newSlug) && (req.slug != "" ==> f.slug == req.slug)
    && (req.storage == "" || req.storage == "local" ==> f.storage == LocalDisk)
    && (req.storage == "r2" ==> f.storage == R2)
  }

  /** A completion adds one row, made from the upload's, and takes the upload and its parts. */
  lemma CompletionAddsRow(w: World, id: string, done: CompleteEnv)
    requires id in w.db.uploads && w.db.uploads[id].id == id && L.WellKeyed(w.db) && CompleteSpec(w, id, done).1.Ok?
    ensures var db, n := CompleteSpec(w, id, done).0.db, w.db.nextId;
            && n !in w.db.files && n in db.files && db.files - {n} == w.db.files && db.nextId == n + 1
            && db.uploads == w.db.uploads - {id} && (forall k <- db.parts :: k.0 != id)
            && (var f, u := db.files[n], w.db.uploads[id];
                && f.id == n && f.slug == u.slug && f.name == u.name && f.size == u.size && f.storage == u.storage
                && f.passwordHash == u.passwordHash && f.maxDownloads == u.maxDownloads && f.downloads == 0
                && f.createdAt == done.now
                && (u.expiresIn > 0 ==> f.expiresAt - done.now == u.expiresIn)
                && (u.expiresIn <= 0 ==> f.expiresAt == 0)
                && (done.contentType != "" ==> f.contentType == done.contentType)
                && (done.contentType == "" ==> f.contentType == "application/octet-stream"))
  {
    hide AllParts;
    var db, n := CompleteSpec(w, id, done).0.db, w.db.nextId;
    assert db.files - {n} == w.db.files;
  }

  /** From an accepted init over any requests that neither abort nor complete it to its completion: the
      new row is what the init asked for. */
  lemma PublishedAsRequested(h: L.History, req: InitRequest, env: InitEnv, steps: seq<L.Step>, done: CompleteEnv)
    requires L.WellKeyed(h.world.db) && CanRun(h, [L.Init(req, env)] + steps)
    requires ChunkSetting(env.chunkSetting) && InitSpec(h.world, req, env).1.Ok?
    requires forall step <- steps :: Spares(step, env.id)
    requires CompleteSpec(After(h, [L.Init(req, env)] + steps).world, env.id, done).1.Ok?
    ensures var w := After(h, [L.Init(req, env)] + steps).world;
            var files := CompleteSpec(w, env.id, done).0.db.files;
            && w.db.nextId !in w.db.files && w.db.nextId in files && files - {w.db.nextId} == w.db.files
            && AsRequested(files[w.db.nextId], req, env, done.now)
  {
    hide InitSpec, L.WellKeyed, CompleteSpec, Spares;
    StaysKeyed(h.world, L.Init(req, env));
    var h1 := L.Next(h, L.Init(req, env));
    assert ([L.Init(req, env)] + steps)[1..] == steps;
    RowIsRequested(h.world, req, env);
    RowStaysOverRun(h1, steps, env.id);
    CompletionAddsRow(After(h1, steps).world, env.id, done);
  }

  // ---- and on to the downloads ----

  /** Such a file is served only to visitors with its password, only until it expires, and from the start
      at most as often as was asked for. */
  lemma LimitsHold(f: File, req: InitRequest, env: InitEnv, published: int, requests: seq<Q.Download>)
    requires AsRequested(f, req, env, published)
    ensures req.maxDownloads > 0 ==> Q.ServedFromStart(f, requests) <= req.maxDownloads
    ensures forall d | Q.Downloaded(Q.AfterDownloads(f, requests), d).1.Served? ::
              && (req.passwordHash != "" ==> d.tokenOK)
              && (req.expiresIn > 0 && published + req.expiresIn > 0 ==> d.now <= published + req.expiresIn)
  {
    Q.DownloadsCount(f, requests);
    if req.maxDownloads > 0 {
      Q.QuotaLimitsTransfers(f, requests);
    }
  }
}
