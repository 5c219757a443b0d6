/** Whole runs of the upload lifecycle, each handler one atomic step, with a client that always
    slices the same source for the same upload. */
module Lifecycle {
  import opened Bits
  import opened Chunks
  import opened Storage
  import opened Tables
  import opened Handlers
  import opened Wrappers

  datatype Step =
    | Init(req: InitRequest, env: InitEnv)
    | Chunk(id: string, chunk: ChunkRequest)
    | ETag(id: string, index: Option<int>, etag: string, partFails: bool, r2Off: bool)
    | Complete(id: string, done: CompleteEnv)
    | Abort(id: string, faults: AbortFaults)
    | Delete(fileId: int, deletes: DeleteFaults)
    | Count(fileId: int)
    | Patch(fileId: int, expiresAt: int, passwordHash: string, maxDownloads: int)

  /** A state together with the upload every file came from. */
  datatype History = History(world: World, origin: map<int, string>)

  type Sources = string -> seq<Byte>

  ghost predicate WellKeyed(db: Db) {
    && (forall id <- db.uploads :: db.uploads[id].id == id && db.uploads[id].chunkSize >= 0)
    && (forall id <- db.files :: db.files[id].id == id < db.nextId)
  }

  ghost function Result(w: World, step: Step): (World, Status)
    requires WellKeyed(w.db) && (step.Init? ==> ChunkSetting(step.env.chunkSetting))
  {
    match step
    case Init(req, env) => InitSpec(w, req, env)
    case Chunk(id, req) => ChunkSpec(w, id, req)
    case ETag(id, index, etag, partFails, r2Off) => ETagSpec(w, id, index, etag, partFails, r2Off)
    case Complete(id, env) => CompleteSpec(w, id, env)
    case Abort(id, faults) => AbortSpec(w, id, faults)
    case Delete(id, faults) => DeleteSpec(w, id, faults)
    case Count(id) =>
      if id in w.db.files && HasSlot(w.db.files[id])
      then (w.(db := w.db.(files := w.db.files[id := Counted(w.db.files[id])])), Ok) else (w, NotFound)
    case Patch(id, e, p, m) =>
      if id in w.db.files
      then (w.(db := w.db.(files := w.db.files[id := Patched(w.db.files[id], e, p, m)])), Ok) else (w, NotFound)
  }

  ghost function Next(h: History, step: Step): History
    requires WellKeyed(h.world.db) && (step.Init? ==> ChunkSetting(step.env.chunkSetting))
  {
    var (w, status) := Result(h.world, step);
    History(w, if step.Complete? && status.Ok? then h.origin[h.world.db.nextId := step.id] else h.origin)
  }

  /** The bytes the browser slices out for one chunk. */
  function SourceSlice(source: seq<Byte>, u: Upload, idx: int): seq<Byte> {
    var lo, hi := idx * u.chunkSize, SliceEnd(u.size, u.chunkSize, idx);
    if 0 <= lo <= hi <= |source| then source[lo..hi] else []
  }

  /** The init gets as far as emptying the local upload file under its slug. */
  predicate Empties(w: World, req: InitRequest, env: InitEnv) {
    && WellFormed(req, env) && !SlugRefused(w, req, env) && !DiskFull(req, env)
    && BackendOf(req.storage, env.r2Configured).LocalDisk?
    && !env.hashFails && !env.createFails
  }

  /** How many zeros a failing init leaves under its slug: none when the emptied file cannot be
      stretched, all when the row is refused and the stretched file cannot be removed. */
  function ZerosLeft(w: World, req: InitRequest, env: InitEnv): Option<nat> {
    if !Empties(w, req, env) then None
    else if env.truncateFails then Some(0)
    else if RowRefused(w.db, env.id, ChosenSlug(req, env), env) && env.abortFails then Some(req.size)
    else None
  }

  /** A local upload under the slug. */
  predicate OwnsTmp(u: Upload, slug: string) {
    u.storage.LocalDisk? && u.slug == slug
  }

  /** A local upload under the slug has a recorded chunk. */
  ghost predicate Begun(db: Db, slug: string) {
    exists k | k in db.parts && k.0 in db.uploads :: OwnsTmp(db.uploads[k.0], slug)
  }

  /** For the local upload under the slug, if there is one, n zeros are not too many, and every byte
      of its recorded chunks lies among them and is zero. */
  ghost predicate ZerosFit(db: Db, slug: string, n: nat, src: Sources) {
    forall id | id in db.uploads && OwnsTmp(db.uploads[id], slug) :: ZerosFitUpload(db, db.uploads[id], n, src(id))
  }

  ghost predicate ZerosFitUpload(db: Db, u: Upload, n: nat, source: seq<Byte>) {
    && n <= u.size
    && forall x | 0 <= x < |source| && PartHolds(db, u, x) :: x < n && source[x] == 0
  }

  /** The chunk of the byte is recorded. */
  predicate PartHolds(db: Db, u: Upload, x: int) {
    u.chunkSize > 0 && (u.id, x / u.chunkSize) in db.parts
  }

  /** The completion renames the upload file. */
  ghost predicate Renames(w: World, id: string, env: CompleteEnv) {
    && id in w.db.uploads && w.db.uploads[id].storage.LocalDisk? && AllParts(w.db, id, w.db.uploads[id].totalChunks)
    && env.completes && w.db.uploads[id].slug in w.disk.tmp
  }

  /** The deletion removes an object and then fails to delete its row. */
  predicate LosesObject(w: World, id: int, faults: DeleteFaults) {
    && id in w.db.files && w.db.files[id].storage.LocalDisk?
    && id !in faults.lookups && id !in faults.objects && id in faults.rows
  }

  /** What the run assumes of its environment: a new upload id stands for a source of the
      announced size, a slug that is not looked up is not the slug of a file, whatever arrives of a
      chunk is a beginning of that chunk of the source. Failures are excluded in three places, each
      exactly where they would break the invariant: a failing init may not leave zeros that do not
      fit the local upload under its slug, the rollback of a failed completion may not fail, and
      neither may the row deletion after the object's. */
  ghost predicate Honest(w: World, step: Step, src: Sources) {
    match step
    case Init(req, env) =>
      && ChunkSetting(env.chunkSetting) && Int64(req.size)
      && (req.size > 0 ==> |src(env.id)| == req.size)
      && (req.slug == "" || env.lookupFails ==> !FileSlugTaken(w.db, ChosenSlug(req, env)))
      && (ZerosLeft(w, req, env).Some? ==> ZerosFit(w.db, ChosenSlug(req, env), ZerosLeft(w, req, env).value, src))
    case Chunk(id, req) =>
      id in w.db.uploads && InRange(w.db.uploads[id], req.idx) ==>
        req.data <= SourceSlice(src(id), w.db.uploads[id], req.idx.value)
    case Complete(id, env) => !(env.dbFails && env.rollbackFails && Renames(w, id, env))
    case Delete(id, faults) => !LosesObject(w, id, faults)
    case _ => true
  }

  // ---- the invariant ----

  ghost predicate UploadRow(u: Upload, src: Sources) {
    && 0 < u.size < INT64_LIMIT && MIN_CHUNK <= u.chunkSize <= MAX_CHUNK
    && u.totalChunks == ChunkCount(u.size, u.chunkSize)
    && |src(u.id)| == u.size
  }

  ghost predicate Rows(db: Db, src: Sources) {
    && WellKeyed(db)
    && (forall id <- db.uploads :: UploadRow(db.uploads[id], src))
    && (forall k <- db.parts :: k.0 in db.uploads && 0 <= k.1 < db.uploads[k.0].totalChunks)
  }

  /** Slugs are unique among uploads, unique among files, and no slug is in both. */
  ghost predicate SlugsApart(db: Db) {
    && (forall i, j | i in db.uploads && j in db.uploads && i != j :: db.uploads[i].slug != db.uploads[j].slug)
    && (forall i, j | i in db.files && j in db.files && i != j :: db.files[i].slug != db.files[j].slug)
    && (forall i, j | i in db.uploads && j in db.files :: db.uploads[i].slug != db.files[j].slug)
  }

  /** The upload file is no longer than announced, and every byte of a recorded chunk stands in
      it. */
  ghost predicate Received(db: Db, u: Upload, file: seq<Byte>, source: seq<Byte>)
    requires u.chunkSize > 0
  {
    && |file| <= u.size == |source|
    && forall x | 0 <= x < u.size && (u.id, x / u.chunkSize) in db.parts :: x < |file| && file[x] == source[x]
  }

  /** Upload files without a row may be left over; those with a row are good. */
  ghost predicate UploadFiles(w: World, src: Sources)
    requires Rows(w.db, src)
  {
    forall id <- w.db.uploads :: UploadFile(w, w.db.uploads[id], src)
  }

  ghost predicate LocalFile(db: Db, slug: string) {
    exists id | id in db.files :: db.files[id].slug == slug && db.files[id].storage.LocalDisk?
  }

  ghost predicate UploadFile(w: World, u: Upload, src: Sources)
    requires u.chunkSize > 0
  {
    u.storage.LocalDisk? && u.slug in w.disk.tmp ==> Received(w.db, u, w.disk.tmp[u.slug], src(u.id))
  }

  /** Local file rows and finished objects correspond one to one by slug; the object is the
      source the file was uploaded from, and as long as the row says. */
  ghost predicate FinishedFiles(h: History, src: Sources) {
    && (forall id <- h.world.db.files :: FinishedFile(h, h.world.db.files[id], src))
    && (forall slug <- h.world.disk.objects :: LocalFile(h.world.db, slug))
  }

  ghost predicate FinishedFile(h: History, f: File, src: Sources) {
    f.storage.LocalDisk? ==>
      && f.slug in h.world.disk.objects && f.id in h.origin
      && h.world.disk.objects[f.slug] == src(h.origin[f.id])
      && |h.world.disk.objects[f.slug]| == f.size
  }

  ghost predicate Inv(h: History, src: Sources) {
    && Rows(h.world.db, src)
    && SlugsApart(h.world.db)
    && UploadFiles(h.world, src)
    && FinishedFiles(h, src)
  }

  // ---- chunk writes ----

  /** Writing at an offset: the data, around it the old bytes, zeros in a gap. */
  lemma OverwriteAt(file: seq<Byte>, offset: nat, data: seq<Byte>)
    ensures var r := Overwrite(file, offset, data);
            && |r| == (if data == [] then |file| else Max(|file|, offset + |data|))
            && (forall x | 0 <= x < |r| ::
                  r[x] == if offset <= x < offset + |data| then data[x - offset] else if x < |file| then file[x] else 0)
  {
  }

  lemma RowGeometry(u: Upload, src: Sources)
    requires UploadRow(u, src) && u.totalChunks > 0
    ensures Geometry(u.size, u.chunkSize, u.totalChunks)
  {
    ChunkCountIsGeometry(u.size, u.chunkSize);
  }

  /** Writing any beginning of a chunk keeps what was received; writing all of it adds it. */
  lemma ChunkKeepsReceived(db: Db, u: Upload, file: seq<Byte>, src: Sources, idx: int, data: seq<Byte>, etag: string)
    requires UploadRow(u, src) && 0 <= idx < u.totalChunks
    requires Received(db, u, file, src(u.id))
    requires data <= SourceSlice(src(u.id), u, idx)
    ensures 0 <= idx * u.chunkSize
    ensures var file' := Overwrite(file, idx * u.chunkSize, data);
            && Received(db, u, file', src(u.id))
            && (|data| == Want(u.size, u.chunkSize, u.totalChunks, idx) ==>
                  Received(db.(parts := db.parts[(u.id, idx) := etag]), u, file', src(u.id)))
  {
    hide Overwrite, ChunkCount;
    var source := src(u.id);
    RowGeometry(u, src);
    RangesAgree(u.size, u.chunkSize, u.totalChunks, idx);
    var lo, hi := idx * u.chunkSize, SliceEnd(u.size, u.chunkSize, idx);
    OverwriteAt(file, lo, data);
    forall x | 0 <= x < u.size
      ensures x / u.chunkSize == idx <==> lo <= x < hi
      ensures lo <= x < lo + |data| ==> data[x - lo] == source[x]
    {
      OneChunkPerByte(u.size, u.chunkSize, u.totalChunks, x, idx);
      if lo <= x < lo + |data| {
        assert data[x - lo] == source[lo..hi][x - lo];
      }
    }
  }

  /** Whatever a chunk request sends, only the bytes of its own chunk change, no object does and no
      other upload file does. */
  lemma ChunkStaysInside(w: World, id: string, req: ChunkRequest, src: Sources, x: int)
    requires Rows(w.db, src) && id in w.db.uploads && InRange(w.db.uploads[id], req.idx)
    requires w.db.uploads[id].slug in w.disk.tmp && 0 <= x < |w.disk.tmp[w.db.uploads[id].slug]|
    ensures var u := w.db.uploads[id];
            var disk, lo := ChunkSpec(w, id, req).0.disk, req.idx.value * u.chunkSize;
            && disk.objects == w.disk.objects && disk.tmp.Keys == w.disk.tmp.Keys
            && (forall slug <- w.disk.tmp | slug != u.slug :: disk.tmp[slug] == w.disk.tmp[slug])
            && x < |disk.tmp[u.slug]| <= Max(|w.disk.tmp[u.slug]|, SliceEnd(u.size, u.chunkSize, req.idx.value))
            && (x < lo || x >= SliceEnd(u.size, u.chunkSize, req.idx.value) ==>
                  disk.tmp[u.slug][x] == w.disk.tmp[u.slug][x])
  {
    hide Overwrite, ChunkCount;
    var u := w.db.uploads[id];
    RowGeometry(u, src);
    RangesAgree(u.size, u.chunkSize, u.totalChunks, req.idx.value);
    var want := Want(u.size, u.chunkSize, u.totalChunks, req.idx.value);
    assert req.idx.value * u.chunkSize >= 0;
    OverwriteAt(w.disk.tmp[u.slug], req.idx.value * u.chunkSize, Arrived(req.data, want));
  }

  lemma ByteReceived(db: Db, u: Upload, file: seq<Byte>, src: Sources, x: int)
    requires UploadRow(u, src) && AllParts(db, u.id, u.totalChunks)
    requires Received(db, u, file, src(u.id)) && 0 <= x < u.size
    ensures x < |file| <= u.size && file[x] == src(u.id)[x]
  {
    hide ChunkCount;
    ChunkCountIsGeometry(u.size, u.chunkSize);
    var k := x / u.chunkSize;
    assert 0 <= k < u.totalChunks by {
      ChunkInRange(u, src, x, db);
    }
    assert (u.id, k) in db.parts;
  }

  lemma ChunkInRange(u: Upload, src: Sources, x: int, db: Db)
    requires UploadRow(u, src) && AllParts(db, u.id, u.totalChunks) && 0 <= x < u.size
    ensures 0 <= x / u.chunkSize < u.totalChunks
  {
    hide ChunkCount;
    ChunkCountIsGeometry(u.size, u.chunkSize);
    InsideTotal(x, u.chunkSize, u.totalChunks);
  }

  /** Once every part is recorded the upload file is the source. */
  lemma AllReceived(db: Db, u: Upload, file: seq<Byte>, src: Sources)
    requires UploadRow(u, src) && AllParts(db, u.id, u.totalChunks)
    requires Received(db, u, file, src(u.id))
    ensures file == src(u.id)
  {
    hide ChunkCount, AllParts, Received;
    ByteReceived(db, u, file, src, u.size - 1);
    forall x | 0 <= x < u.size ensures x < |file| && file[x] == src(u.id)[x] {
      ByteReceived(db, u, file, src, x);
    }
  }

  // ---- frames ----

  /** An upload file stays good when its bytes stay and no part is added. */
  lemma UploadFileFrame(w: World, w': World, u: Upload, src: Sources)
    requires u.chunkSize > 0 && UploadFile(w, u, src)
    requires u.slug in w'.disk.tmp ==> u.slug in w.disk.tmp && w'.disk.tmp[u.slug] == w.disk.tmp[u.slug]
    requires forall k <- w'.db.parts :: k.0 == u.id ==> k in w.db.parts
    ensures UploadFile(w', u, src)
  {
  }

  lemma FinishedFrame(h: History, h': History, src: Sources)
    requires FinishedFiles(h, src)
    requires h'.world.db.files == h.world.db.files && h'.world.disk.objects == h.world.disk.objects
    requires h'.origin == h.origin
    ensures FinishedFiles(h', src)
  {
    forall id | id in h'.world.db.files ensures FinishedFile(h', h'.world.db.files[id], src) {
      assert FinishedFile(h, h.world.db.files[id], src);
    }
    forall slug | slug in h'.world.disk.objects ensures LocalFile(h'.world.db, slug) {
      assert LocalFile(h.world.db, slug);
    }
  }

  // ---- every step keeps the invariant ----

  lemma AddUpload(w: World, w': World, u: Upload, src: Sources)
    requires Rows(w.db, src) && SlugsApart(w.db) && UploadFiles(w, src)
    requires UploadRow(u, src) && u.id !in w.db.uploads
    requires !UploadSlugTaken(w.db, u.slug) && !FileSlugTaken(w.db, u.slug)
    requires w'.db == w.db.(uploads := w.db.uploads[u.id := u])
    requires w'.disk.tmp == if u.storage.LocalDisk? then w.disk.tmp[u.slug := Blank(u.size)] else w.disk.tmp
    ensures Rows(w'.db, src) && SlugsApart(w'.db) && UploadFiles(w', src)
  {
    hide ChunkCount, Blank, UploadFile, SlugsApart;
    AddSlug(w.db, w'.db, u);
    forall id | id in w'.db.uploads ensures UploadFile(w', w'.db.uploads[id], src) {
      if id == u.id {
        FreshUploadFile(w, w', u, src);
      } else {
        assert w.db.uploads[id].slug != u.slug;
        UploadFileFrame(w, w', w.db.uploads[id], src);
      }
    }
  }

  lemma AddSlug(db: Db, db': Db, u: Upload)
    requires SlugsApart(db) && !UploadSlugTaken(db, u.slug) && !FileSlugTaken(db, u.slug)
    requires u.id !in db.uploads && db'.uploads == db.uploads[u.id := u] && db'.files == db.files
    ensures SlugsApart(db')
  {
  }

  lemma FreshUploadFile(w: World, w': World, u: Upload, src: Sources)
    requires UploadRow(u, src) && u.id !in w.db.uploads && !UploadSlugTaken(w.db, u.slug)
    requires forall k <- w'.db.parts :: k.0 != u.id
    requires w'.disk.tmp == if u.storage.LocalDisk? then w.disk.tmp[u.slug := Blank(u.size)] else w.disk.tmp
    ensures UploadFile(w', u, src)
  {
  }

  /** Upload files may vanish. */
  lemma LoseUploadFile(w: World, w': World, slug: string, src: Sources)
    requires Rows(w.db, src) && UploadFiles(w, src)
    requires w'.db == w.db && (w'.disk.tmp == w.disk.tmp || w'.disk.tmp == w.disk.tmp - {slug})
    ensures UploadFiles(w', src)
  {
    hide Received;
    forall id | id in w.db.uploads ensures UploadFile(w', w.db.uploads[id], src) {
      UploadFileFrame(w, w', w.db.uploads[id], src);
    }
  }

  /** What a failing init leaves of the upload file under its slug. */
  lemma InitLeavesZeros(w: World, req: InitRequest, env: InitEnv)
    requires ChunkSetting(env.chunkSetting) && !InitSpec(w, req, env).1.Ok?
    ensures ZerosLeft(w, req, env).Some? ==>
              InitSpec(w, req, env).0
              == w.(disk := w.disk.(tmp := w.disk.tmp[ChosenSlug(req, env) := Blank(ZerosLeft(w, req, env).value)]))
    ensures ZerosLeft(w, req, env).None? ==>
              InitSpec(w, req, env).0 == w
              || InitSpec(w, req, env).0 == w.(disk := w.disk.(tmp := w.disk.tmp - {ChosenSlug(req, env)}))
  {
    hide AutoChunkSize, ChunkCount, FileSlugTaken, UploadSlugTaken, Wrap, SlugSyntax;
    ChosenChunkSizeInRange(req, env);
    assert Blank(0) == [];
  }

  lemma AcceptedLeavesNothing(w: World, req: InitRequest, env: InitEnv)
    requires ChunkSetting(env.chunkSetting) && InitSpec(w, req, env).1.Ok?
    ensures ZerosLeft(w, req, env).None?
  {
    hide AutoChunkSize, ChunkCount, FileSlugTaken, UploadSlugTaken, Wrap, SlugSyntax;
    ChosenChunkSizeInRange(req, env);
  }

  lemma InitKeeps(h: History, req: InitRequest, env: InitEnv, src: Sources)
    requires Inv(h, src) && ChunkSetting(env.chunkSetting) && Int64(req.size)
    requires req.size > 0 ==> |src(env.id)| == req.size
    requires InitSpec(h.world, req, env).1.Ok? ==> !FileSlugTaken(h.world.db, ChosenSlug(req, env))
    requires ZerosLeft(h.world, req, env).Some? ==>
               ZerosFit(h.world.db, ChosenSlug(req, env), ZerosLeft(h.world, req, env).value, src)
    ensures WellKeyed(h.world.db) && Inv(Next(h, Init(req, env)), src)
  {
    hide Wrap, AutoChunkSize, ChunkCount, SlugSyntax, BackendOf, Rows, SlugsApart, UploadFiles, FinishedFiles, Blank,
      FileSlugTaken, UploadSlugTaken, ChosenChunkSize, ZerosFit, ZerosLeft;
    var w := h.world;
    RowsAreKeyed(w.db, src);
    var (w', status) := InitSpec(w, req, env);
    ChosenChunkSizeInRange(req, env);
    var u := NewUpload(req, env);
    if status.Ok? {
      FreshId(w.db, u.id, src);
      AddUpload(w, w', u, src);
    } else {
      InitLeavesZeros(w, req, env);
      if ZerosLeft(w, req, env).Some? {
        ZerosKeepExactlyWhen(w, w', u.slug, ZerosLeft(w, req, env).value, src);
      } else {
        LoseUploadFile(w, w', u.slug, src);
      }
    }
    FinishedFrame(h, Next(h, Init(req, env)), src);
  }

  /** Every recorded chunk holds a byte. */
  lemma PartHasByte(db: Db, k: (string, int), src: Sources) returns (x: int)
    requires Rows(db, src) && k in db.parts
    ensures k.0 in db.uploads && 0 <= x < |src(k.0)| && PartHolds(db, db.uploads[k.0], x)
  {
    var u := db.uploads[k.0];
    RowGeometry(u, src);
    RangesAgree(u.size, u.chunkSize, u.totalChunks, k.1);
    x := k.1 * u.chunkSize;
    OneChunkPerByte(u.size, u.chunkSize, u.totalChunks, x, k.1);
  }

  /** A file of zeros put under a slug keeps the upload files good exactly when the zeros fit the
      local upload there; so always when there is none, and while nothing of it is recorded exactly
      when they are not too many. */
  lemma ZerosKeepExactlyWhen(w: World, w': World, slug: string, n: nat, src: Sources)
    requires Rows(w.db, src) && SlugsApart(w.db) && UploadFiles(w, src)
    requires w' == w.(disk := w.disk.(tmp := w.disk.tmp[slug := Blank(n)]))
    ensures UploadFiles(w', src) <==> ZerosFit(w.db, slug, n, src)
    ensures (forall id <- w.db.uploads :: !OwnsTmp(w.db.uploads[id], slug)) ==> UploadFiles(w', src)
    ensures !Begun(w.db, slug) ==>
              (UploadFiles(w', src)
               <==> forall id | id in w.db.uploads && OwnsTmp(w.db.uploads[id], slug) :: n <= w.db.uploads[id].size)
  {
    hide ChunkCount, SlugsApart, ZerosFitUpload, UploadFile, Begun;
    forall id | id in w.db.uploads
      ensures !OwnsTmp(w.db.uploads[id], slug) ==> UploadFile(w', w.db.uploads[id], src)
      ensures OwnsTmp(w.db.uploads[id], slug) ==>
                && (UploadFile(w', w.db.uploads[id], src) <==> ZerosFitUpload(w.db, w.db.uploads[id], n, src(id)))
                && (!Begun(w.db, slug) ==>
                      (ZerosFitUpload(w.db, w.db.uploads[id], n, src(id)) <==> n <= w.db.uploads[id].size))
    {
      var u := w.db.uploads[id];
      if OwnsTmp(u, slug) {
        ZerosReceived(w', u, n, src);
        if !Begun(w.db, slug) {
          NothingBegun(w.db, u, slug);
          UnbegunFits(w.db, u, n, src(id));
        }
      } else {
        OtherUploadFile(w, w', u, slug, src);
      }
    }
  }

  lemma OtherUploadFile(w: World, w': World, u: Upload, slug: string, src: Sources)
    requires u.chunkSize > 0 && UploadFile(w, u, src) && !OwnsTmp(u, slug) && w'.db == w.db
    requires forall key | key != slug :: key in w'.disk.tmp ==> key in w.disk.tmp && w'.disk.tmp[key] == w.disk.tmp[key]
    ensures UploadFile(w', u, src)
  {
  }

  lemma ZerosReceived(w: World, u: Upload, n: nat, src: Sources)
    requires UploadRow(u, src) && u.storage.LocalDisk? && u.slug in w.disk.tmp && w.disk.tmp[u.slug] == Blank(n)
    ensures UploadFile(w, u, src) <==> ZerosFitUpload(w.db, u, n, src(u.id))
  {
    hide ChunkCount;
    var source := src(u.id);
    assert forall x | 0 <= x < u.size :: PartHolds(w.db, u, x) <==> (u.id, x / u.chunkSize) in w.db.parts;
    if ZerosFitUpload(w.db, u, n, source) {
      forall x | 0 <= x < u.size && (u.id, x / u.chunkSize) in w.db.parts ensures x < n && source[x] == 0 {
        assert PartHolds(w.db, u, x);
      }
    }
  }

  lemma UnbegunFits(db: Db, u: Upload, n: nat, source: seq<Byte>)
    requires forall idx :: (u.id, idx) !in db.parts
    ensures ZerosFitUpload(db, u, n, source) <==> n <= u.size
  {
  }

  /** A file left empty keeps the upload files good exactly when no local upload under the slug has a
      recorded chunk. */
  lemma EmptyingKeepsExactlyWhen(w: World, w': World, slug: string, src: Sources)
    requires Rows(w.db, src) && SlugsApart(w.db) && UploadFiles(w, src)
    requires w' == w.(disk := w.disk.(tmp := w.disk.tmp[slug := []]))
    ensures UploadFiles(w', src) <==> !Begun(w.db, slug)
  {
    hide ChunkCount, SlugsApart, UploadFiles, UploadRow;
    assert Blank(0) == [];
    ZerosKeepExactlyWhen(w, w', slug, 0, src);
    forall id | id in w.db.uploads ensures 0 <= w.db.uploads[id].size {
      SizeIsPositive(w.db, id, src);
    }
    if Begun(w.db, slug) {
      var k :| k in w.db.parts && k.0 in w.db.uploads && OwnsTmp(w.db.uploads[k.0], slug);
      var x := PartHasByte(w.db, k, src);
      assert !ZerosFitUpload(w.db, w.db.uploads[k.0], 0, src(k.0));
    }
  }

  lemma SizeIsPositive(db: Db, id: string, src: Sources)
    requires Rows(db, src) && id in db.uploads
    ensures 0 < db.uploads[id].size
  {
  }

  lemma NothingBegun(db: Db, u: Upload, slug: string)
    requires !Begun(db, slug) && u.id in db.uploads && db.uploads[u.id] == u && OwnsTmp(u, slug)
    ensures forall idx :: (u.id, idx) !in db.parts
  {
    if idx :| (u.id, idx) in db.parts {
      assert (u.id, idx).0 in db.uploads;
    }
  }

  lemma RowsAreKeyed(db: Db, src: Sources)
    requires Rows(db, src)
    ensures WellKeyed(db)
  {
  }

  lemma FreshId(db: Db, id: string, src: Sources)
    requires Rows(db, src) && id !in db.uploads
    ensures forall k <- db.parts :: k.0 != id
  {
  }

  lemma OtherSlug(db: Db, i: string, j: string)
    requires SlugsApart(db) && i in db.uploads && j in db.uploads && i != j
    ensures db.uploads[i].slug != db.uploads[j].slug
  {
  }

  lemma SameSlugs(db: Db, db': Db)
    requires SlugsApart(db) && db'.uploads == db.uploads && db'.files == db.files
    ensures SlugsApart(db')
  {
  }

  lemma WriteKeeps(w: World, w': World, u: Upload, idx: int, data: seq<Byte>, src: Sources)
    requires Rows(w.db, src) && SlugsApart(w.db) && UploadFiles(w, src)
    requires u.id in w.db.uploads && w.db.uploads[u.id] == u && u.storage.LocalDisk? && 0 <= idx < u.totalChunks
    requires data <= SourceSlice(src(u.id), u, idx) && 0 <= idx * u.chunkSize
    requires w'.disk == ChunkWritten(w.disk, u.slug, idx * u.chunkSize, data)
    requires w'.db == w.db || (w'.db == w.db.(parts := w.db.parts[(u.id, idx) := ""])
                               && |data| == Want(u.size, u.chunkSize, u.totalChunks, idx))
    ensures Rows(w'.db, src) && SlugsApart(w'.db) && UploadFiles(w', src)
  {
    hide Overwrite, ChunkCount, SourceSlice, Want, Received, SlugsApart;
    SameSlugs(w.db, w'.db);
    assert UploadFile(w, u, src);
    if u.slug in w.disk.tmp {
      ChunkKeepsReceived(w.db, u, w.disk.tmp[u.slug], src, idx, data, "");
    }
    forall k | k in w'.db.uploads ensures UploadFile(w', w'.db.uploads[k], src) {
      if k != u.id {
        OtherSlug(w.db, k, u.id);
        UploadFileFrame(w, w', w.db.uploads[k], src);
      }
    }
  }

  /** Parts of an object-store upload say nothing about local files. */
  lemma RemotePartKeeps(w: World, w': World, u: Upload, idx: int, etag: string, src: Sources)
    requires Rows(w.db, src) && SlugsApart(w.db) && UploadFiles(w, src)
    requires u.id in w.db.uploads && w.db.uploads[u.id] == u && !u.storage.LocalDisk? && 0 <= idx < u.totalChunks
    requires w' == PartRecorded(w, u.id, idx, etag)
    ensures Rows(w'.db, src) && SlugsApart(w'.db) && UploadFiles(w', src)
  {
    hide ChunkCount, Received;
    forall k | k in w'.db.uploads ensures UploadFile(w', w'.db.uploads[k], src) {
      if k != u.id {
        UploadFileFrame(w, w', w.db.uploads[k], src);
      }
    }
  }

  lemma ArrivedIsPrefix(data: seq<Byte>, want: int)
    ensures Arrived(data, want) <= data
    ensures Arrived(data, want) == data ==> |data| == want || want < 0 || |data| < want
  {
  }

  lemma ChunkKeeps(h: History, id: string, req: ChunkRequest, src: Sources)
    requires Inv(h, src) && Honest(h.world, Chunk(id, req), src)
    ensures Inv(Next(h, Chunk(id, req)), src)
  {
    hide Overwrite, ChunkCount, SourceSlice, Want, Received, UploadFiles, FinishedFiles, SlugsApart, ChunkWritten,
      Arrived;
    var w := h.world;
    var (w', status) := ChunkSpec(w, id, req);
    if w' != w {
      var u := w.db.uploads[id];
      var idx := req.idx.value;
      if u.storage.LocalDisk? {
        var want := Want(u.size, u.chunkSize, u.totalChunks, idx);
        ArrivedIsPrefix(req.data, want);
        assert idx * u.chunkSize >= 0;
        WriteKeeps(w, w', u, idx, Arrived(req.data, want), src);
      } else {
        RemotePartKeeps(w, w', u, idx, req.r2Etag.value, src);
      }
    }
    ObjectsUntouched();
    FinishedFrame(h, Next(h, Chunk(id, req)), src);
  }

  lemma ObjectsUntouched()
    ensures forall disk: Disk, key, offset, data :: ChunkWritten(disk, key, offset, data).objects == disk.objects
  {
  }

  lemma ETagKeeps(h: History, id: string, index: Option<int>, etag: string, partFails: bool, r2Off: bool,
                  src: Sources)
    requires Inv(h, src)
    ensures Inv(Next(h, ETag(id, index, etag, partFails, r2Off)), src)
  {
    hide ChunkCount, Received, UploadFiles, FinishedFiles, SlugsApart, TrimQuotes;
    var w := h.world;
    var (w', status) := ETagSpec(w, id, index, etag, partFails, r2Off);
    if w' != w {
      RemotePartKeeps(w, w', w.db.uploads[id], index.value, TrimQuotes(etag), src);
    }
    FinishedFrame(h, Next(h, ETag(id, index, etag, partFails, r2Off)), src);
  }

  /** Dropping an upload row and its upload file. */
  lemma DropKeeps(w: World, w': World, id: string, src: Sources)
    requires Rows(w.db, src) && SlugsApart(w.db) && UploadFiles(w, src) && id in w.db.uploads
    requires w'.db.uploads == WithoutUpload(w.db, id).uploads && w'.db.parts == WithoutUpload(w.db, id).parts
    requires WellKeyed(w'.db)
    requires w'.disk.tmp == w.disk.tmp || w'.disk.tmp == w.disk.tmp - {w.db.uploads[id].slug}
    ensures Rows(w'.db, src) && UploadFiles(w', src)
  {
    hide ChunkCount, UploadFile, SlugsApart, WellKeyed;
    forall k | k in w'.db.uploads ensures UploadFile(w', w'.db.uploads[k], src) {
      OtherSlug(w.db, k, id);
      UploadFileFrame(w, w', w.db.uploads[k], src);
    }
  }

  lemma SameSlugsOrFewer(db: Db, db': Db, id: string)
    requires SlugsApart(db) && (db' == db || db' == WithoutUpload(db, id))
    ensures SlugsApart(db')
  {
  }

  lemma AbortKeeps(h: History, id: string, faults: AbortFaults, src: Sources)
    requires Inv(h, src)
    ensures Inv(Next(h, Abort(id, faults)), src)
  {
    hide UploadFiles, FinishedFiles, UploadRow, SlugsApart;
    var w := h.world;
    var (w', status) := AbortSpec(w, id, faults);
    if id in w.db.uploads && !status.Dropped? {
      SameSlugsOrFewer(w.db, w'.db, id);
      if faults.db {
        LoseUploadFile(w, w', w.db.uploads[id].slug, src);
      } else {
        DropKeeps(w, w', id, src);
      }
    }
    FinishedFrame(h, Next(h, Abort(id, faults)), src);
  }

  /** A successful completion publishes the source. */
  lemma CompletePublishes(h: History, id: string, env: CompleteEnv, src: Sources)
    requires Inv(h, src) && id in h.world.db.uploads && h.world.db.uploads[id].storage.LocalDisk?
    requires CompleteSpec(h.world, id, env).1.Ok?
    ensures var u := h.world.db.uploads[id];
            && u.slug in h.world.disk.tmp && h.world.disk.tmp[u.slug] == src(id)
            && CompleteSpec(h.world, id, env).0.disk.objects[u.slug] == src(id)
  {
    hide ChunkCount, Received, FinishedFiles;
    var u := h.world.db.uploads[id];
    assert UploadFile(h.world, u, src);
    AllReceived(h.world.db, u, h.world.disk.tmp[u.slug], src);
  }

  lemma FinishKeeps(h: History, id: string, env: CompleteEnv, src: Sources)
    requires Inv(h, src) && id in h.world.db.uploads && CompleteSpec(h.world, id, env).1.Ok?
    ensures FinishedFiles(Next(h, Complete(id, env)), src)
    ensures SlugsApart(Next(h, Complete(id, env)).world.db)
  {
    hide ChunkCount, UploadFiles, AllParts, FinishedFile, LocalFile, UploadRow;
    var w := h.world;
    var u := w.db.uploads[id];
    var h' := Next(h, Complete(id, env));
    var w' := h'.world;
    RowSize(w.db, id, src);
    if u.storage.LocalDisk? {
      CompletePublishes(h, id, env, src);
    }
    var f := NewFile(u, w.db.nextId, env);
    assert w'.db.files == w.db.files[w.db.nextId := f];
    forall k | k in w'.db.files ensures FinishedFile(h', w'.db.files[k], src) {
      if k == w.db.nextId {
        NewFileFinished(h', f, src);
      } else {
        assert w.db.files[k].slug != u.slug;
        FinishedFileFrame(h, h', w.db.files[k], src);
      }
    }
    forall slug | slug in w'.disk.objects ensures LocalFile(w'.db, slug) {
      FileOwnerStays(w.db, w'.db, slug, f);
    }
  }

  lemma RowSize(db: Db, id: string, src: Sources)
    requires Rows(db, src) && id in db.uploads
    ensures |src(id)| == db.uploads[id].size && db.uploads[id].chunkSize > 0
  {
  }

  lemma NewFileFinished(h: History, f: File, src: Sources)
    requires f.storage.LocalDisk? ==>
               && f.slug in h.world.disk.objects && f.id in h.origin
               && h.world.disk.objects[f.slug] == src(h.origin[f.id]) && |src(h.origin[f.id])| == f.size
    ensures FinishedFile(h, f, src)
  {
  }

  lemma FinishedFileFrame(h: History, h': History, f: File, src: Sources)
    requires FinishedFile(h, f, src)
    requires f.slug in h.world.disk.objects ==>
               f.slug in h'.world.disk.objects && h'.world.disk.objects[f.slug] == h.world.disk.objects[f.slug]
    requires f.id in h.origin ==> f.id in h'.origin && h'.origin[f.id] == h.origin[f.id]
    ensures FinishedFile(h', f, src)
  {
  }

  lemma FileOwnerStays(db: Db, db': Db, slug: string, f: File)
    requires f.id !in db.files && db'.files == db.files[f.id := f]
    requires LocalFile(db, slug) || (slug == f.slug && f.storage.LocalDisk?)
    ensures LocalFile(db', slug)
  {
    if LocalFile(db, slug) {
      var k :| k in db.files && db.files[k].slug == slug && db.files[k].storage.LocalDisk?;
      assert db'.files[k].slug == slug;
    } else {
      assert db'.files[f.id].slug == slug;
    }
  }

  /** When no file owns the slug, no object is overwritten or lost by a failed completion. */
  lemma RolledBack(h: History, id: string, env: CompleteEnv, src: Sources)
    requires Inv(h, src) && id in h.world.db.uploads
    ensures h.world.db.uploads[id].slug !in h.world.disk.objects
    ensures !CompleteSpec(h.world, id, env).1.Conflict?
  {
    hide UploadFiles, ChunkCount, AllParts, UploadRow;
    var u := h.world.db.uploads[id];
    assert forall k <- h.world.db.files :: h.world.db.files[k].slug != u.slug;
    assert !LocalFile(h.world.db, u.slug) && !FileSlugTaken(h.world.db, u.slug);
  }

  lemma CompleteKeeps(h: History, id: string, env: CompleteEnv, src: Sources)
    requires Inv(h, src) && !(env.dbFails && env.rollbackFails && Renames(h.world, id, env))
    ensures Inv(Next(h, Complete(id, env)), src)
  {
    hide UploadFiles, FinishedFiles, AllParts, ChunkCount;
    var w := h.world;
    var h' := Next(h, Complete(id, env));
    var (w', status) := CompleteSpec(w, id, env);
    if id in w.db.uploads {
      RolledBack(h, id, env, src);
      if status.Ok? {
        DropKeeps(w, w', id, src);
        FinishKeeps(h, id, env, src);
      } else {
        LoseUploadFile(w, w', w.db.uploads[id].slug, src);
        assert w'.disk.objects == w.disk.objects;
        FinishedFrame(h, h', src);
      }
    }
  }

  lemma DeleteKeeps(h: History, id: int, faults: DeleteFaults, src: Sources)
    requires Inv(h, src) && !LosesObject(h.world, id, faults)
    ensures Inv(Next(h, Delete(id, faults)), src)
  {
    hide ChunkCount, UploadFiles, UploadRow, FinishedFile, LocalFile;
    var w := h.world;
    var h' := Next(h, Delete(id, faults));
    var w' := h'.world;
    LoseUploadFiles(w, w', src);
    if w' != w {
      var f := w.db.files[id];
      forall k | k in w'.db.files ensures FinishedFile(h', w'.db.files[k], src) {
        assert w.db.files[k].slug != f.slug;
        FinishedFileFrame(h, h', w.db.files[k], src);
      }
      forall slug | slug in w'.disk.objects ensures LocalFile(w'.db, slug) {
        FileOwnerSurvives(w.db, w'.db, slug, id);
      }
    }
  }

  lemma FileOwnerSurvives(db: Db, db': Db, slug: string, id: int)
    requires LocalFile(db, slug) && id in db.files && SlugsApart(db)
    requires db.files[id].storage.LocalDisk? ==> slug != db.files[id].slug
    requires db'.files == db.files - {id}
    ensures LocalFile(db', slug)
  {
    var k :| k in db.files && db.files[k].slug == slug && db.files[k].storage.LocalDisk?;
    assert k in db'.files && db'.files[k].slug == slug;
  }

  lemma LoseUploadFiles(w: World, w': World, src: Sources)
    requires Rows(w.db, src) && UploadFiles(w, src)
    requires w'.db.uploads == w.db.uploads && w'.db.parts == w.db.parts && w'.disk.tmp == w.disk.tmp
    requires WellKeyed(w'.db)
    ensures Rows(w'.db, src) && UploadFiles(w', src)
  {
    hide Received, ChunkCount;
    forall id | id in w.db.uploads ensures UploadFile(w', w.db.uploads[id], src) {
      UploadFileFrame(w, w', w.db.uploads[id], src);
    }
  }

  /** Changing counters, expiry, password or quota of a row. */
  lemma RowEditKeeps(h: History, id: int, f: File, src: Sources)
    requires Inv(h, src) && id in h.world.db.files
    requires var g := h.world.db.files[id]; f.id == id && f.slug == g.slug && f.size == g.size && f.storage == g.storage
    ensures Inv(h.(world := h.world.(db := h.world.db.(files := h.world.db.files[id := f]))), src)
  {
    hide ChunkCount, UploadFiles, UploadRow, FinishedFile, LocalFile;
    var w := h.world;
    var g := w.db.files[id];
    var h' := h.(world := w.(db := w.db.(files := w.db.files[id := f])));
    LoseUploadFiles(w, h'.world, src);
    forall k | k in h'.world.db.files ensures FinishedFile(h', h'.world.db.files[k], src) {
      FinishedFileFrame(h, h', w.db.files[k], src);
      if k == id {
        EditedFile(h', g, f, src);
      }
    }
    forall slug | slug in h'.world.disk.objects ensures LocalFile(h'.world.db, slug) {
      EditedOwner(w.db, h'.world.db, slug, id, f);
    }
  }

  lemma EditedFile(h: History, g: File, f: File, src: Sources)
    requires FinishedFile(h, g, src)
    requires f.id == g.id && f.slug == g.slug && f.size == g.size && f.storage == g.storage
    ensures FinishedFile(h, f, src)
  {
  }

  lemma EditedOwner(db: Db, db': Db, slug: string, id: int, f: File)
    requires LocalFile(db, slug) && id in db.files && db'.files == db.files[id := f]
    requires f.slug == db.files[id].slug && f.storage == db.files[id].storage
    ensures LocalFile(db', slug)
  {
    var k :| k in db.files && db.files[k].slug == slug && db.files[k].storage.LocalDisk?;
    assert db'.files[k].slug == slug;
  }

  lemma StepKeeps(h: History, step: Step, src: Sources)
    requires Inv(h, src) && Honest(h.world, step, src)
    ensures Inv(Next(h, step), src)
  {
    hide Inv, InitSpec, ChunkSpec, ETagSpec, CompleteSpec, AbortSpec, DeleteSpec;
    InvIsKeyed(h, src);
    match step
    case Init(req, env) =>
      HonestInitIsFresh(h.world, req, env, src);
      InitKeeps(h, req, env, src);
    case Chunk(id, req) => ChunkKeeps(h, id, req, src);
    case ETag(id, index, etag, partFails, r2Off) => ETagKeeps(h, id, index, etag, partFails, r2Off, src);
    case Complete(id, env) => CompleteKeeps(h, id, env, src);
    case Abort(id, faults) => AbortKeeps(h, id, faults, src);
    case Delete(id, faults) => DeleteKeeps(h, id, faults, src);
    case Count(id) =>
      if id in h.world.db.files {
        RowEditKeeps(h, id, Counted(h.world.db.files[id]), src);
      }
    case Patch(id, e, p, m) =>
      if id in h.world.db.files {
        RowEditKeeps(h, id, Patched(h.world.db.files[id], e, p, m), src);
      }
  }

  lemma HonestInitIsFresh(w: World, req: InitRequest, env: InitEnv, src: Sources)
    requires Honest(w, Init(req, env), src)
    ensures InitSpec(w, req, env).1.Ok? ==> !FileSlugTaken(w.db, ChosenSlug(req, env))
  {
    hide AutoChunkSize, ChunkCount, FileSlugTaken, Wrap, SlugSyntax, ZerosLeft, ZerosFit;
  }

  lemma InvIsKeyed(h: History, src: Sources)
    requires Inv(h, src)
    ensures WellKeyed(h.world.db)
  {
  }

  // ---- whole runs ----

  function Start(): History {
    History(World(Db(map[], map[], map[], 1, map[]), Disk(map[], map[])), map[])
  }

  ghost predicate HonestRun(h: History, steps: seq<Step>, src: Sources)
    requires Inv(h, src)
    decreases |steps|
  {
    steps == [] ||
    (Honest(h.world, steps[0], src) &&
     (StepKeeps(h, steps[0], src); HonestRun(Next(h, steps[0]), steps[1..], src)))
  }

  ghost function After(h: History, steps: seq<Step>, src: Sources): (r: History)
    requires Inv(h, src) && HonestRun(h, steps, src)
    ensures Inv(r, src)
    decreases |steps|
  {
    if steps == [] then h
    else
      StepKeeps(h, steps[0], src);
      After(Next(h, steps[0]), steps[1..], src)
  }

  lemma StartIsGood(src: Sources)
    ensures Inv(Start(), src)
  {
  }

  /** After any honest run from the empty server: each local file's object is, byte for byte, the
      source it was uploaded from; the finished objects are exactly the local files' slugs; and
      whatever is completed next is published intact, without conflict and without touching
      another object. */
  lemma ContentIsSource(steps: seq<Step>, src: Sources)
    requires Inv(Start(), src) && HonestRun(Start(), steps, src)
    ensures var h := After(Start(), steps, src);
            var w := h.world;
            && SlugsApart(w.db)
            && (forall id <- w.db.files | w.db.files[id].storage.LocalDisk? ::
                  && w.db.files[id].slug in w.disk.objects && id in h.origin
                  && w.disk.objects[w.db.files[id].slug] == src(h.origin[id])
                  && |src(h.origin[id])| == w.db.files[id].size)
            && w.disk.objects.Keys == (set id | id in w.db.files && w.db.files[id].storage.LocalDisk? ::
              w.db.files[id].slug)
  {
    hide Rows, UploadFiles, After, HonestRun, SlugsApart;
    var h := After(Start(), steps, src);
    var w := h.world;
    InvIsKeyed(h, src);
    forall id | id in w.db.files && w.db.files[id].storage.LocalDisk?
      ensures w.db.files[id].slug in w.disk.objects && id in h.origin
      ensures w.disk.objects[w.db.files[id].slug] == src(h.origin[id])
      ensures |src(h.origin[id])| == w.db.files[id].size
    {
      assert FinishedFile(h, w.db.files[id], src);
    }
    forall slug | slug in w.disk.objects
      ensures exists id :: id in w.db.files && w.db.files[id].storage.LocalDisk? && w.db.files[id].slug == slug
    {
      assert LocalFile(w.db, slug);
    }
  }

  /** The next completion: never a conflict, no owned object is overwritten, and success means
      that the source stands under the slug while every other object is as before. */
  lemma CompletionIsSafe(h: History, id: string, env: CompleteEnv, src: Sources)
    requires Inv(h, src) && id in h.world.db.uploads && Honest(h.world, Complete(id, env), src)
    ensures var (w', status) := CompleteSpec(h.world, id, env);
            var u := h.world.db.uploads[id];
            && !status.Conflict?
            && (forall slug <- h.world.disk.objects ::
                  slug in w'.disk.objects && w'.disk.objects[slug] == h.world.disk.objects[slug])
            && (status.Ok? && u.storage.LocalDisk? ==>
                  w'.disk.objects == h.world.disk.objects[u.slug := src(id)])
            && (!status.Ok? ==> w'.disk.objects == h.world.disk.objects && w'.db == h.world.db)
  {
    RolledBack(h, id, env, src);
    hide Rows, UploadFiles, FinishedFiles, SlugsApart, AllParts, Finalized;
    InvIsKeyed(h, src);
    if CompleteSpec(h.world, id, env).1.Ok? && h.world.db.uploads[id].storage.LocalDisk? {
      CompletePublishes(h, id, env, src);
    }
  }

  /** Within a good state the handler's per-index test never fires: as many parts as chunks
      means part i at position i, with the etag recorded last. */
  lemma MissingChunkIsDead(h: History, id: string, list: seq<Part>, src: Sources)
    requires Inv(h, src) && id in h.world.db.uploads
    requires IsPartList(h.world.db, id, list) && |list| == h.world.db.uploads[id].totalChunks
    ensures forall i | 0 <= i < |list| :: list[i].idx == i && list[i].etag == h.world.db.parts[(id, i)]
  {
    hide IsPartList, SlugsApart, UploadFiles, FinishedFiles;
    FullPartList(h.world.db, id, list, |list|);
  }

  // ---- files keep their bytes ----

  /** What later states still say of the files of an earlier one: ids are never used again, and
      a file that is still there has its slug, size, backend and origin. */
  ghost predicate Continues(h: History, h': History) {
    && h.world.db.nextId <= h'.world.db.nextId
    && (forall id <- h'.world.db.files | id < h.world.db.nextId ::
          id in h.world.db.files && SameFile(h.world.db.files[id], h'.world.db.files[id]))
    && (forall id | id < h.world.db.nextId && id in h.origin :: id in h'.origin && h'.origin[id] == h.origin[id])
  }

  predicate SameFile(f: File, g: File) {
    f.slug == g.slug && f.size == g.size && f.storage == g.storage && f.name == g.name
  }

  lemma StepContinues(h: History, step: Step, src: Sources)
    requires Inv(h, src) && Honest(h.world, step, src)
    ensures Continues(h, Next(h, step))
  {
    hide Inv, InitSpec, ChunkSpec, ETagSpec, CompleteSpec, AbortSpec, DeleteSpec;
    InvIsKeyed(h, src);
    FilesMove(h.world, step);
  }

  /** The file table loses a row, gains one under the next id, or has a row edited. */
  lemma FilesMove(w: World, step: Step)
    requires WellKeyed(w.db) && (step.Init? ==> ChunkSetting(step.env.chunkSetting))
    ensures var (w', status) := Result(w, step);
            && w'.db.nextId == w.db.nextId + (if step.Complete? && status.Ok? then 1 else 0)
            && (forall id <- w'.db.files | id < w.db.nextId ::
                  id in w.db.files && SameFile(w.db.files[id], w'.db.files[id]))
  {
    hide ChunkCount, AutoChunkSize, WellFormed, AllParts, Overwrite, TrimQuotes, Want, Blank, Arrived, DiskFull,
      InRange;
  }

  lemma {:induction false} RunContinues(h: History, steps: seq<Step>, src: Sources)
    requires Inv(h, src) && HonestRun(h, steps, src)
    ensures Continues(h, After(h, steps, src))
    decreases |steps|
  {
    hide Inv, Next;
    if steps != [] {
      InvIsKeyed(h, src);
      StepKeeps(h, steps[0], src);
      StepContinues(h, steps[0], src);
      RunContinues(Next(h, steps[0]), steps[1..], src);
    }
  }

  /** A local file that exists before and after a run has the same bytes, whatever happened in
      between. */
  lemma BytesNeverChange(h: History, steps: seq<Step>, src: Sources, id: int)
    requires Inv(h, src) && HonestRun(h, steps, src)
    requires id in h.world.db.files && h.world.db.files[id].storage.LocalDisk?
    requires id in After(h, steps, src).world.db.files
    ensures var slug, before, after := h.world.db.files[id].slug, h.world.disk.objects, After(h, steps,
              src).world.disk.objects;
            slug in before && slug in after && after[slug] == before[slug]
  {
    hide After, HonestRun, UploadFiles, SlugsApart;
    RunContinues(h, steps, src);
    var h' := After(h, steps, src);
    InvIsKeyed(h, src);
    InvIsKeyed(h', src);
    assert FinishedFile(h, h.world.db.files[id], src);
    assert FinishedFile(h', h'.world.db.files[id], src);
  }

  // ---- an interrupted upload can be finished ----

  /** A chunk sent whole and undisturbed. */
  function WholeChunk(u: Upload, idx: int, source: seq<Byte>): ChunkRequest {
    ChunkRequest(Some(idx), Want(u.size, u.chunkSize, u.totalChunks, idx), SourceSlice(source, u, idx), false,
        false, None, false)
  }

  const QUIET := CompleteEnv(0, "", true, false, false, false)

  lemma WholeChunkIsAccepted(h: History, id: string, idx: nat, src: Sources)
    requires Inv(h, src) && id in h.world.db.uploads && idx < h.world.db.uploads[id].totalChunks
    requires h.world.db.uploads[id].storage.LocalDisk? && h.world.db.uploads[id].slug in h.world.disk.tmp
    ensures var u, w := h.world.db.uploads[id], h.world;
            var step := Chunk(id, WholeChunk(u, idx, src(id)));
            && Honest(w, step, src)
            && (var n := Next(h, step);
                n.world.db == w.db.(parts := w.db.parts[(id, idx) := ""]) && u.slug in n.world.disk.tmp)
  {
    hide Received, SlugsApart, UploadFiles, FinishedFiles, ChunkCount, Overwrite;
    var u := h.world.db.uploads[id];
    RowGeometry(u, src);
    RangesAgree(u.size, u.chunkSize, u.totalChunks, idx);
    assert |SourceSlice(src(id), u, idx)| == Want(u.size, u.chunkSize, u.totalChunks, idx);
  }

  lemma FullUploadCompletes(h: History, id: string, src: Sources)
    requires Inv(h, src) && id in h.world.db.uploads && h.world.db.uploads[id].totalChunks > 0
    requires h.world.db.uploads[id].storage.LocalDisk? && h.world.db.uploads[id].slug in h.world.disk.tmp
    requires forall i | 0 <= i < h.world.db.uploads[id].totalChunks :: (id, i) in h.world.db.parts
    ensures var slug, e := h.world.db.uploads[id].slug, Next(h, Complete(id, QUIET)).world;
            FileSlugTaken(e.db, slug) && id !in e.db.uploads && slug in e.disk.objects
                && e.disk.objects[slug] == src(id)
  {
    hide SlugsApart, UploadFiles, FinishedFiles, UploadRow, ChunkCount;
    var w := h.world;
    var u := w.db.uploads[id];
    assert AllParts(w.db, id, u.totalChunks);
    RolledBack(h, id, QUIET, src);
    CompletePublishes(h, id, QUIET, src);
    assert Next(h, Complete(id, QUIET)).world.db.files[w.db.nextId].slug == u.slug;
  }

  /** The requests for the given chunks, in the given order. */
  function Sending(u: Upload, todo: seq<nat>, source: seq<Byte>): (r: seq<Step>)
    ensures |r| == |todo|
  {
    seq(|todo|, k requires 0 <= k < |todo| => Chunk(u.id, WholeChunk(u, todo[k], source)))
  }

  /** From any good state an upload whose file is still there is finished by sending, in any
      order, chunks that include all missing ones, and completing. */
  lemma {:induction false} UploadCanFinish(h: History, id: string, todo: seq<nat>, src: Sources)
    requires Inv(h, src) && id in h.world.db.uploads && h.world.db.uploads[id].totalChunks > 0
    requires h.world.db.uploads[id].storage.LocalDisk? && h.world.db.uploads[id].slug in h.world.disk.tmp
    requires forall k | 0 <= k < |todo| :: todo[k] < h.world.db.uploads[id].totalChunks
    requires forall i: nat | i < h.world.db.uploads[id].totalChunks :: (id, i as int) in h.world.db.parts || i in todo
    ensures h.world.db.uploads[id].id == id
    ensures var u := h.world.db.uploads[id];
            var steps := Sending(u, todo, src(id)) + [Complete(id, QUIET)];
            && HonestRun(h, steps, src)
            && (var e := After(h, steps, src).world;
                FileSlugTaken(e.db, u.slug) && id !in e.db.uploads
                && u.slug in e.disk.objects && e.disk.objects[u.slug] == src(id))
    decreases |todo|
  {
    hide Inv, Next, WholeChunk, FileSlugTaken;
    InvIsKeyed(h, src);
    var u := h.world.db.uploads[id];
    var steps := Sending(u, todo, src(id)) + [Complete(id, QUIET)];
    if todo == [] {
      forall i | 0 <= i < u.totalChunks ensures (id, i) in h.world.db.parts {
        var k: nat := i;
        assert (id, k as int) in h.world.db.parts || k in todo;
      }
      FullUploadCompletes(h, id, src);
      assert steps[1..] == [];
    } else {
      WholeChunkIsAccepted(h, id, todo[0], src);
      StepKeeps(h, steps[0], src);
      var n := Next(h, steps[0]);
      assert todo == [todo[0]] + todo[1..];
      forall i: nat | i < u.totalChunks ensures (id, i as int) in n.world.db.parts || i in todo[1..] {
        assert (id, i as int) in h.world.db.parts || i in todo;
      }
      UploadCanFinish(n, id, todo[1..], src);
      assert steps[1..] == Sending(u, todo[1..], src(id)) + [Complete(id, QUIET)];
    }
  }

  // ---- where a failure does break it ----

  /** A failed rollback of a failed completion breaks the invariant, and nothing else a completion
      does. */
  lemma CompleteKeepsExactlyWhen(h: History, id: string, env: CompleteEnv, src: Sources)
    requires Inv(h, src)
    ensures Inv(Next(h, Complete(id, env)), src) <==> !(env.dbFails && env.rollbackFails && Renames(h.world, id, env))
  {
    if env.dbFails && env.rollbackFails && Renames(h.world, id, env) {
      hide UploadFiles, Rows, AllParts;
      var slug := h.world.db.uploads[id].slug;
      var w' := Next(h, Complete(id, env)).world;
      assert slug in w'.disk.objects;
      assert !LocalFile(w'.db, slug);
    } else {
      CompleteKeeps(h, id, env, src);
    }
  }

  /** A deletion breaks the invariant exactly when the object goes and the row cannot. */
  lemma DeleteKeepsExactlyWhen(h: History, id: int, faults: DeleteFaults, src: Sources)
    requires Inv(h, src)
    ensures Inv(Next(h, Delete(id, faults)), src) <==> !LosesObject(h.world, id, faults)
  {
    if LosesObject(h.world, id, faults) {
      hide UploadFiles, Rows, SlugsApart;
      InvIsKeyed(h, src);
      var h' := Next(h, Delete(id, faults));
      assert !FinishedFile(h', h'.world.db.files[id], src);
    } else {
      DeleteKeeps(h, id, faults, src);
    }
  }

  /** An init keeps the invariant exactly when it is not accepted under the slug of a file and leaves
      no zeros that do not fit. */
  lemma InitKeepsExactlyWhen(h: History, req: InitRequest, env: InitEnv, src: Sources)
    requires Inv(h, src) && ChunkSetting(env.chunkSetting) && Int64(req.size)
    requires req.size > 0 ==> |src(env.id)| == req.size
    ensures WellKeyed(h.world.db)
    ensures var w, slug, zeros := h.world, ChosenSlug(req, env), ZerosLeft(h.world, req, env);
            (Inv(Next(h, Init(req, env)), src) <==>
             (InitSpec(w, req, env).1.Ok? ==> !FileSlugTaken(w.db, slug))
             && (zeros.Some? ==> ZerosFit(w.db, slug, zeros.value, src)))
  {
    hide Rows, SlugsApart, FinishedFiles, UploadFiles, FileSlugTaken, InitSpec, ZerosLeft, ZerosFit;
    var w, slug, zeros := h.world, ChosenSlug(req, env), ZerosLeft(h.world, req, env);
    RowsAreKeyed(w.db, src);
    if InitSpec(w, req, env).1.Ok? {
      InitKeepsSlugsApartExactlyWhen(w, req, env);
      AcceptedLeavesNothing(w, req, env);
    } else if zeros.Some? {
      InitLeavesZeros(w, req, env);
      ZerosKeepExactlyWhen(w, InitSpec(w, req, env).0, slug, zeros.value, src);
    }
    if (InitSpec(w, req, env).1.Ok? ==> !FileSlugTaken(w.db, slug))
       && (zeros.Some? ==> ZerosFit(w.db, slug, zeros.value, src)) {
      InitKeeps(h, req, env, src);
    }
  }

  /** The request of an init as large as 64 bits allow. */
  function HugeInit(slug: string): InitRequest {
    SizedInit(slug, INT64_LIMIT - 1)
  }

  function SizedInit(slug: string, size: int): InitRequest {
    InitRequest("b", size, "local", slug, 0, "", 0)
  }

  /** No byte is free, and the file cannot be stretched. */
  function FullDisk(id: string, now: int): InitEnv {
    InitEnv(id, "", 0, now, Some(0), false, None, false, false, false, true, false, false)
  }

  /** The upload file of a refused row cannot be removed. */
  function StuckFile(id: string, now: int): InitEnv {
    InitEnv(id, "", 0, now, None, false, None, false, false, false, false, false, true)
  }

  /** The space test overflows, so the init goes through to the file and empties it. */
  lemma HugeInitLeavesEmpty(w: World, slug: string, id: string, now: int)
    requires SlugSyntax(slug) && !FileSlugTaken(w.db, slug)
    ensures ZerosLeft(w, HugeInit(slug), FullDisk(id, now)) == Some(0)
    ensures InitSpec(w, HugeInit(slug), FullDisk(id, now))
         == (w.(disk := w.disk.(tmp := w.disk.tmp[slug := Blank(0)])), Internal)
  {
    hide FileSlugTaken, AutoChunkSize, ChunkCount, SlugSyntax;
    assert Wrap(INT64_LIMIT - 1 + DISK_MARGIN) < 0;
    assert Blank(0) == [];
    SlugNotEmpty(slug);
  }

  /** The row is refused because an upload has the slug, and the file stays. */
  lemma RefusedInitLeavesZeros(w: World, slug: string, size: int, id: string, now: int)
    requires SlugSyntax(slug) && !FileSlugTaken(w.db, slug) && UploadSlugTaken(w.db, slug) && size > 0
    ensures ZerosLeft(w, SizedInit(slug, size), StuckFile(id, now)) == Some(size)
    ensures InitSpec(w, SizedInit(slug, size), StuckFile(id, now))
         == (w.(disk := w.disk.(tmp := w.disk.tmp[slug := Blank(size)])), Conflict)
  {
    hide FileSlugTaken, UploadSlugTaken, AutoChunkSize, ChunkCount, SlugSyntax;
    SlugNotEmpty(slug);
  }

  lemma SlugNotEmpty(slug: string)
    requires SlugSyntax(slug)
    ensures |slug| > 0
  {
  }

  // ---- what becomes of such an upload ----

  /** The state after the given chunks have been sent whole, one after the other, and whether all of
      them were accepted. */
  ghost function Sent(w: World, id: string, todo: seq<nat>, source: seq<Byte>): (r: (World, bool))
    requires id in w.db.uploads && w.db.uploads[id].chunkSize >= 0
    ensures r.0.db.uploads == w.db.uploads
    decreases |todo|
  {
    if todo == [] then (w, true)
    else
      var (w1, status) := ChunkSpec(w, id, WholeChunk(w.db.uploads[id], todo[0], source));
      var (w2, accepted) := Sent(w1, id, todo[1..], source);
      (w2, status.Ok? && accepted)
  }

  /** How far the given chunks reach. */
  function Reach(u: Upload, todo: seq<nat>): int
    decreases |todo|
  {
    if todo == [] then 0 else Max(SliceEnd(u.size, u.chunkSize, todo[0]), Reach(u, todo[1..]))
  }

  /** The bytes of a file after the given chunks of the source have been written into it. */
  ghost predicate FilledIn(file: seq<Byte>, file': seq<Byte>, u: Upload, todo: seq<nat>, source: seq<Byte>)
    requires u.chunkSize > 0
  {
    && |file'| == Max(|file|, Reach(u, todo))
    && forall x | 0 <= x < |file'| ::
         file'[x] == if x < |source| && x / u.chunkSize in todo then source[x] else if x < |file| then file[x] else 0
  }

  lemma OneChunkFilledIn(u: Upload, file: seq<Byte>, src: Sources, idx: nat)
    requires UploadRow(u, src) && idx < u.totalChunks
    ensures var data := SourceSlice(src(u.id), u, idx);
            && |data| == Want(u.size, u.chunkSize, u.totalChunks, idx) && 0 <= idx * u.chunkSize
            && FilledIn(file, Overwrite(file, idx * u.chunkSize, data), u, [idx], src(u.id))
  {
    hide Overwrite, ChunkCount, FilledIn;
    var source := src(u.id);
    RowGeometry(u, src);
    RangesAgree(u.size, u.chunkSize, u.totalChunks, idx);
    var lo, hi := idx * u.chunkSize, SliceEnd(u.size, u.chunkSize, idx);
    forall x | 0 <= x < |source| ensures x / u.chunkSize == idx <==> lo <= x < hi {
      OneChunkPerByte(u.size, u.chunkSize, u.totalChunks, x, idx);
    }
    SliceFilledIn(u, file, source, idx, lo, hi);
  }

  lemma SliceFilledIn(u: Upload, file: seq<Byte>, source: seq<Byte>, idx: nat, lo: nat, hi: nat)
    requires u.chunkSize > 0 && lo < hi <= |source| && hi == SliceEnd(u.size, u.chunkSize, idx)
    requires forall x | 0 <= x < |source| :: x / u.chunkSize == idx <==> lo <= x < hi
    ensures FilledIn(file, Overwrite(file, lo, source[lo..hi]), u, [idx], source)
  {
    hide Overwrite, SliceEnd;
    OverwriteAt(file, lo, source[lo..hi]);
    ReachAdds(u, idx, []);
    var r := Overwrite(file, lo, source[lo..hi]);
    forall x | 0 <= x < |r|
      ensures r[x] == if x < |source| && x / u.chunkSize in [idx] then source[x] else if x < |file| then file[x] else 0
    {
      assert x < |source| ==> (x / u.chunkSize == idx <==> lo <= x < hi);
    }
  }

  lemma ReachAdds(u: Upload, first: nat, rest: seq<nat>)
    ensures [first] + [] == [first] && Reach(u, []) == 0
    ensures Reach(u, [first] + rest) == Max(SliceEnd(u.size, u.chunkSize, first), Reach(u, rest))
  {
    assert ([first] + rest)[1..] == rest;
  }

  lemma FillingAdds(a: seq<Byte>, b: seq<Byte>, c: seq<Byte>, u: Upload, first: nat, rest: seq<nat>, source: seq<Byte>)
    requires u.chunkSize > 0 && |source| == u.size
    requires FilledIn(a, b, u, [first], source) && FilledIn(b, c, u, rest, source)
    ensures FilledIn(a, c, u, [first] + rest, source)
  {
    hide SliceEnd;
    var todo := [first] + rest;
    ReachAdds(u, first, []);
    ReachAdds(u, first, rest);
    forall x | 0 <= x < |c|
      ensures c[x] == if x < |source| && x / u.chunkSize in todo then source[x] else if x < |a| then a[x] else 0
    {
      if x < |b| {
        assert b[x] == if x < |source| && x / u.chunkSize in [first] then source[x] else if x < |a| then a[x] else 0;
      } else if x < |source| {
        PastSlice(u, x, first);
      }
    }
  }

  lemma PastSlice(u: Upload, x: int, idx: nat)
    requires u.chunkSize > 0 && SliceEnd(u.size, u.chunkSize, idx) <= x < u.size
    ensures x / u.chunkSize != idx
  {
    var q := x / u.chunkSize;
    assert x == q * u.chunkSize + x % u.chunkSize;
    assert (idx + 1) * u.chunkSize == idx * u.chunkSize + u.chunkSize;
    assert q == idx ==> q * u.chunkSize == idx * u.chunkSize;
  }

  /** One chunk sent whole. */
  lemma OneSent(w: World, id: string, idx: nat, src: Sources)
    requires Rows(w.db, src) && id in w.db.uploads && w.db.uploads[id].storage.LocalDisk?
    requires w.db.uploads[id].slug in w.disk.tmp && idx < w.db.uploads[id].totalChunks
    ensures w.db.uploads[id].chunkSize > 0
    ensures var u, (w1, status) := w.db.uploads[id], ChunkSpec(w, id, WholeChunk(w.db.uploads[id], idx, src(id)));
            && status.Ok? && u.slug in w1.disk.tmp && w1.disk.objects == w.disk.objects
            && FilledIn(w.disk.tmp[u.slug], w1.disk.tmp[u.slug], u, [idx], src(id))
            && w1.db == w.db.(parts := w1.db.parts) && Rows(w1.db, src)
            && (forall k :: k in w1.db.parts <==> k in w.db.parts || k == (id, idx as int))
  {
    hide Overwrite, ChunkCount, SourceSlice, Want, FilledIn;
    OneChunkFilledIn(w.db.uploads[id], w.disk.tmp[w.db.uploads[id].slug], src, idx);
  }

  /** Sending any chunks to an upload whose file is there, whatever it holds: all are accepted and
      recorded, and their bytes are filled in. */
  lemma {:induction false} SentFillsIn(w: World, id: string, todo: seq<nat>, src: Sources)
    requires Rows(w.db, src) && id in w.db.uploads && w.db.uploads[id].storage.LocalDisk?
    requires w.db.uploads[id].slug in w.disk.tmp
    requires forall k | 0 <= k < |todo| :: todo[k] < w.db.uploads[id].totalChunks
    ensures w.db.uploads[id].chunkSize > 0
    ensures var u, (e, accepted) := w.db.uploads[id], Sent(w, id, todo, src(id));
            && accepted && u.slug in e.disk.tmp && e.disk.objects == w.disk.objects
            && FilledIn(w.disk.tmp[u.slug], e.disk.tmp[u.slug], u, todo, src(id))
            && e.db == w.db.(parts := e.db.parts) && Rows(e.db, src)
            && (forall k :: k in e.db.parts <==> k in w.db.parts || (k.0 == id && k.1 in todo))
    decreases |todo|
  {
    hide ChunkSpec, WholeChunk, FilledIn, Rows;
    RowSize(w.db, id, src);
    var u := w.db.uploads[id];
    if todo == [] {
      NothingFilledIn(w.disk.tmp[u.slug], u, src(id));
    } else {
      OneSent(w, id, todo[0], src);
      var w1 := ChunkSpec(w, id, WholeChunk(u, todo[0], src(id))).0;
      SentFillsIn(w1, id, todo[1..], src);
      FillingAdds(w.disk.tmp[u.slug], w1.disk.tmp[u.slug], Sent(w, id, todo, src(id)).0.disk.tmp[u.slug], u, todo[0],
                  todo[1..], src(id));
      assert todo == [todo[0]] + todo[1..];
    }
  }

  lemma NothingFilledIn(file: seq<Byte>, u: Upload, source: seq<Byte>)
    requires u.chunkSize > 0
    ensures FilledIn(file, file, u, [], source)
  {
  }

  /** A file of n zeros has been put under the slug of an upload. Sending the missing chunks and
      completing then succeeds, and what is published has the sent chunks of the source and zeros
      everywhere else, and is too long when n is. */
  lemma ZerosArePublished(h: History, w: World, id: string, n: nat, todo: seq<nat>, src: Sources)
    requires Inv(h, src) && id in h.world.db.uploads && h.world.db.uploads[id].storage.LocalDisk?
    requires h.world.db.uploads[id].totalChunks > 0
    requires w == h.world.(disk := h.world.disk.(tmp := h.world.disk.tmp[h.world.db.uploads[id].slug := Blank(n)]))
    requires forall k | 0 <= k < |todo| :: todo[k] < h.world.db.uploads[id].totalChunks
    requires forall i: nat | i < h.world.db.uploads[id].totalChunks :: (id, i as int) in h.world.db.parts || i in todo
    ensures w.db.uploads[id].chunkSize > 0 && w.db.uploads[id].id == id
    ensures var u, (e, accepted) := w.db.uploads[id], Sent(w, id, todo, src(id));
            var (done, status) := CompleteSpec(e, id, QUIET);
            && accepted && status.Ok? && u.slug in done.disk.objects
            && FilledIn(Blank(n), done.disk.objects[u.slug], u, todo, src(id))
  {
    hide Inv, Rows, FilledIn, Blank, Sent, CompleteSpec, AllParts;
    RowsInGood(h, src);
    var u := w.db.uploads[id];
    SentFillsIn(w, id, todo, src);
    var e := Sent(w, id, todo, src(id)).0;
    assert !FileSlugTaken(e.db, u.slug) by {
      ApartInGood(h, src);
      NoFileHasSlug(h.world.db, id);
      SameFilesTaken(h.world.db, e.db, u.slug);
    }
    assert AllParts(e.db, id, u.totalChunks) by {
      AllSent(h.world.db, e.db, id, todo, src);
    }
    FullPublishes(e, id);
  }

  lemma RowsInGood(h: History, src: Sources)
    requires Inv(h, src)
    ensures Rows(h.world.db, src)
    ensures forall id <- h.world.db.uploads :: h.world.db.uploads[id].chunkSize > 0 && h.world.db.uploads[id].id == id
  {
  }

  lemma SameFilesTaken(db: Db, db': Db, slug: string)
    requires db'.files == db.files
    ensures FileSlugTaken(db', slug) <==> FileSlugTaken(db, slug)
  {
  }

  lemma AllSent(db: Db, db': Db, id: string, todo: seq<nat>, src: Sources)
    requires Rows(db, src) && id in db.uploads && db.uploads[id].totalChunks > 0
    requires forall k | 0 <= k < |todo| :: todo[k] < db.uploads[id].totalChunks
    requires forall i: nat | i < db.uploads[id].totalChunks :: (id, i as int) in db.parts || i in todo
    requires forall k :: k in db'.parts <==> k in db.parts || (k.0 == id && k.1 in todo)
    ensures AllParts(db', id, db.uploads[id].totalChunks)
  {
    hide UploadRow;
    forall i ensures (id, i) in db'.parts <==> 0 <= i < db.uploads[id].totalChunks {
      assert (id, i).0 == id && (id, i).1 == i;
      if 0 <= i < db.uploads[id].totalChunks {
        var k: nat := i;
        assert (id, k as int) in db.parts || k in todo;
      }
    }
  }

  lemma FullPublishes(w: World, id: string)
    requires id in w.db.uploads && w.db.uploads[id].id == id && w.db.uploads[id].storage.LocalDisk?
    requires AllParts(w.db, id, w.db.uploads[id].totalChunks)
    requires w.db.uploads[id].slug in w.disk.tmp && !FileSlugTaken(w.db, w.db.uploads[id].slug)
    ensures var (w', status) := CompleteSpec(w, id, QUIET);
            status.Ok? && w'.disk == Renamed(w.disk, w.db.uploads[id].slug)
  {
    hide AllParts;
  }

  /** A custom-slug init of 2^63 - 1 bytes under the slug of a local upload, with no byte free, passes
      the space test, empties the upload file and fails. Whatever was recorded, sending the missing
      chunks and completing then publishes zeros in place of the recorded ones. */
  lemma HalfDoneInitPublishesZeros(h: History, id: string, todo: seq<nat>, other: string, now: int, src: Sources)
    requires Inv(h, src) && id in h.world.db.uploads && h.world.db.uploads[id].storage.LocalDisk?
    requires h.world.db.uploads[id].totalChunks > 0 && SlugSyntax(h.world.db.uploads[id].slug)
    requires forall k | 0 <= k < |todo| :: todo[k] < h.world.db.uploads[id].totalChunks
    requires forall i: nat | i < h.world.db.uploads[id].totalChunks :: (id, i as int) in h.world.db.parts || i in todo
    ensures var u := h.world.db.uploads[id];
            var (w, refused) := InitSpec(h.world, HugeInit(u.slug), FullDisk(other, now));
            && refused.Internal? && id in w.db.uploads && w.db.uploads[id] == u && u.chunkSize > 0 && u.id == id
            && (var (e, accepted) := Sent(w, id, todo, src(id));
                var (done, status) := CompleteSpec(e, id, QUIET);
                && accepted && status.Ok? && u.slug in done.disk.objects
                && FilledIn([], done.disk.objects[u.slug], u, todo, src(id)))
  {
    hide SlugSyntax, InitSpec, Rows, UploadFiles, FinishedFiles, SlugsApart, Sent, CompleteSpec, FilledIn, ZerosLeft;
    var u := h.world.db.uploads[id];
    ApartInGood(h, src);
    NoFileHasSlug(h.world.db, id);
    HugeInitLeavesEmpty(h.world, u.slug, other, now);
    ZerosArePublished(h, InitSpec(h.world, HugeInit(u.slug), FullDisk(other, now)).0, id, 0, todo, src);
    assert Blank(0) == [];
  }

  /** A custom-slug init of any size under the slug of a local upload stretches a new file there, is
      refused, and cannot remove the file. Sending the missing chunks and completing then publishes
      zeros in place of the recorded ones, and at least as many bytes as that init announced. */
  lemma RefusedInitPublishesZeros(h: History, id: string, size: int, todo: seq<nat>, other: string, now: int,
                                  src: Sources)
    requires Inv(h, src) && id in h.world.db.uploads && h.world.db.uploads[id].storage.LocalDisk? && size > 0
    requires h.world.db.uploads[id].totalChunks > 0 && SlugSyntax(h.world.db.uploads[id].slug)
    requires forall k | 0 <= k < |todo| :: todo[k] < h.world.db.uploads[id].totalChunks
    requires forall i: nat | i < h.world.db.uploads[id].totalChunks :: (id, i as int) in h.world.db.parts || i in todo
    ensures var u := h.world.db.uploads[id];
            var (w, refused) := InitSpec(h.world, SizedInit(u.slug, size), StuckFile(other, now));
            && refused.Conflict? && id in w.db.uploads && w.db.uploads[id] == u && u.chunkSize > 0 && u.id == id
            && (var (e, accepted) := Sent(w, id, todo, src(id));
                var (done, status) := CompleteSpec(e, id, QUIET);
                && accepted && status.Ok? && u.slug in done.disk.objects
                && FilledIn(Blank(size), done.disk.objects[u.slug], u, todo, src(id)))
  {
    hide SlugSyntax, InitSpec, Rows, UploadFiles, FinishedFiles, SlugsApart, Sent, CompleteSpec, FilledIn, ZerosLeft;
    var u := h.world.db.uploads[id];
    ApartInGood(h, src);
    NoFileHasSlug(h.world.db, id);
    RefusedInitLeavesZeros(h.world, u.slug, size, other, now);
    ZerosArePublished(h, InitSpec(h.world, SizedInit(u.slug, size), StuckFile(other, now)).0, id, size, todo, src);
  }

  /** What is published is the source exactly when it is as long and the chunks that were not sent
      again are zeros in the source. */
  lemma PublishedIsSourceExactlyWhen(file: seq<Byte>, n: nat, u: Upload, todo: seq<nat>, src: Sources)
    requires UploadRow(u, src) && FilledIn(Blank(n), file, u, todo, src(u.id))
    ensures file == src(u.id)
       <==> Max(n, Reach(u, todo)) == u.size
            && forall x | 0 <= x < u.size && x / u.chunkSize !in todo :: src(u.id)[x] == 0
  {
    hide ChunkCount, Reach;
  }

  lemma ApartInGood(h: History, src: Sources)
    requires Inv(h, src)
    ensures SlugsApart(h.world.db)
  {
  }

  lemma NoFileHasSlug(db: Db, id: string)
    requires SlugsApart(db) && id in db.uploads
    ensures !FileSlugTaken(db, db.uploads[id].slug)
  {
  }

  // ---- when a slug is not looked up ----

  /** A successful init keeps the slugs apart exactly when the chosen slug is no file's slug. */
  lemma InitKeepsSlugsApartExactlyWhen(w: World, req: InitRequest, env: InitEnv)
    requires ChunkSetting(env.chunkSetting) && SlugsApart(w.db) && InitSpec(w, req, env).1.Ok?
    ensures SlugsApart(InitSpec(w, req, env).0.db) <==> !FileSlugTaken(w.db, ChosenSlug(req, env))
    ensures req.slug != "" && !env.lookupFails ==> !FileSlugTaken(w.db, req.slug)
  {
    hide AutoChunkSize, ChunkCount, Blank, Wrap;
    var w' := InitSpec(w, req, env).0;
    var u := NewUpload(req, env);
    assert w'.db.uploads[u.id] == u;
    if FileSlugTaken(w.db, u.slug) {
      var id :| id in w.db.files && w.db.files[id].slug == u.slug;
      assert w'.db.uploads[u.id].slug == w'.db.files[id].slug;
    }
  }

  const TINY := InitRequest("a", 1, "local", "", 0, "", 0)

  function TinyEnv(id: string, slug: string, now: int): InitEnv {
    InitEnv(id, slug, 0, now, None, false, None, false, false, false, false, false, false)
  }

  /** The state after starting a one-byte upload with the given slug and sending its chunk. */
  function TinyUpload(w: World, id: string, slug: string, now: int, byte: Byte): World {
    World(w.db.(uploads := w.db.uploads[id := NewUpload(TINY, TinyEnv(id, slug, now))],
                parts := w.db.parts[(id, 0) := ""]),
          w.disk.(tmp := w.disk.tmp[slug := [byte]]))
  }

  lemma TinyRow(id: string, slug: string, now: int)
    ensures var u := NewUpload(TINY, TinyEnv(id, slug, now));
            && u.id == id && u.slug == slug && u.storage.LocalDisk? && u.size == 1 && u.chunkSize == MIN_CHUNK
            && u.totalChunks == 1 && WellFormed(TINY, TinyEnv(id, slug, now))
  {
    hide AutoChunkSize;
    AutoChunkSizeIsLeast(1);
    assert WholeMiB(MIN_CHUNK);
  }

  lemma TinyUploadArises(w: World, id: string, slug: string, now: int, byte: Byte)
    requires id !in w.db.uploads && !UploadSlugTaken(w.db, slug)
    ensures var (w1, s1) := InitSpec(w, TINY, TinyEnv(id, slug, now));
            && s1.Ok? && w1.db.files == w.db.files && id in w1.db.uploads && w1.db.uploads[id].chunkSize > 0
            && ChunkSpec(w1, id, ChunkRequest(Some(0), 1, [byte], false, false, None, false))
               == (TinyUpload(w, id, slug, now, byte), Ok)
  {
    hide NewUpload, WellFormed, UploadSlugTaken;
    TinyRow(id, slug, now);
    assert Overwrite(Blank(1), 0, [byte]) == [byte];
    assert w.disk.tmp[slug := Blank(1)][slug := [byte]] == w.disk.tmp[slug := [byte]];
  }

  /** The same request for a slug that is asked for, with a lookup that fails. */
  function Asking(slug: string): InitRequest {
    TINY.(slug := slug)
  }

  lemma AskingIsTiny(w: World, id: string, slug: string, now: int)
    requires SlugSyntax(slug)
    ensures InitSpec(w, Asking(slug), TinyEnv(id, slug, now).(lookupFails := true))
         == InitSpec(w, TINY, TinyEnv(id, slug, now))
  {
    hide SlugSyntax, AutoChunkSize, ChunkCount, Wrap, UploadSlugTaken;
    TinyRow(id, slug, now);
    SlugNotEmpty(slug);
  }

  /** With a slug that is not looked up, because it is generated or because the lookup fails, and
      already is a file's, completing writes over that file's object and only then reports the
      conflict: one init, one chunk and one complete are enough. */
  lemma StaleSlugOverwrites(w: World, owner: int, asked: bool, id: string, now: int, byte: Byte)
    requires owner in w.db.files && w.db.files[owner].storage.LocalDisk?
    requires asked ==> SlugSyntax(w.db.files[owner].slug)
    requires id !in w.db.uploads && !UploadSlugTaken(w.db, w.db.files[owner].slug)
    requires forall k <- w.db.parts :: k.0 != id
    ensures var slug := w.db.files[owner].slug;
            var (w1, s1) := InitSpec(w, if asked then Asking(slug) else TINY,
                                     TinyEnv(id, slug, now).(lookupFails := asked));
            && s1.Ok? && id in w1.db.uploads && w1.db.uploads[id].chunkSize > 0
            && (var (w2, s2) := ChunkSpec(w1, id, ChunkRequest(Some(0), 1, [byte], false, false, None, false));
                && s2.Ok? && id in w2.db.uploads && w2.db.uploads[id].id == id
                && (var (w3, s3) := CompleteSpec(w2, id, CompleteEnv(now, "", true, false, false, false));
                    s3.Conflict? && w3.disk.objects == w.disk.objects[slug := [byte]]))
  {
    hide NewUpload, InitSpec, ChunkSpec, SlugSyntax;
    var slug := w.db.files[owner].slug;
    if asked {
      AskingIsTiny(w, id, slug, now);
    }
    TinyUploadArises(w, id, slug, now, byte);
    TinyRow(id, slug, now);
    var w2 := TinyUpload(w, id, slug, now, byte);
    assert AllParts(w2.db, id, 1);
    assert w2.db.files[owner].slug == slug;
  }

  /** The empty server takes a one-byte upload all the way: started, filled and published by an
      honest run. */
  lemma FirstUploadIsPublished(id: string, slug: string, now: int, src: Sources) returns (steps: seq<Step>)
    requires |src(id)| == 1
    ensures Inv(Start(), src) && HonestRun(Start(), steps, src)
    ensures var e := After(Start(), steps, src).world;
            FileSlugTaken(e.db, slug) && slug in e.disk.objects && e.disk.objects[slug] == src(id)
  {
    hide Inv, NewUpload, AutoChunkSize, FileSlugTaken, WellFormed;
    StartIsGood(src);
    TinyRow(id, slug, now);
    var init := Init(TINY, TinyEnv(id, slug, now));
    assert Honest(Start().world, init, src) by {
      NoFilesYet(slug);
    }
    StepKeeps(Start(), init, src);
    var h := Next(Start(), init);
    UploadCanFinish(h, id, [0], src);
    var rest := Sending(h.world.db.uploads[id], [0], src(id)) + [Complete(id, QUIET)];
    steps := [init] + rest;
    assert steps[1..] == rest;
  }

  lemma NoFilesYet(slug: string)
    ensures !FileSlugTaken(Start().world.db, slug)
  {
  }
}
