/** The upload and delete handlers: each one a method on the server's tables and files, proved
    against a function from the state before to the state after. */
module Handlers {
  import opened Bits
  import opened Chunks
  import opened Storage
  import opened Tables
  import opened Wrappers

  datatype World = World(db: Db, disk: Disk)

  /** Dropped: the handler panics and the client gets no answer. */
  datatype Status = Ok | BadRequest | NotFound | Conflict | Full | Internal | Dropped

  const DISK_MARGIN := 0x4000_0000
  const MAX_EXPIRES_IN := 10 * 365 * 24 * 3600
  const MAX_MAX_DOWNLOADS := 1_000_000_000

  predicate Int64(x: int) {
    -INT64_LIMIT <= x < INT64_LIMIT
  }

  // ---- starting an upload ----

  datatype InitRequest = InitRequest(
    name: string, size: int, storage: string, slug: string, expiresIn: int, passwordHash: string, maxDownloads: int)

  /** What the handler draws from outside: random ids, settings, clock, disk and object store,
      and whether looking the slug up, hashing the password, creating or stretching the upload
      file, inserting the row, or removing the upload file of a refused row fails. */
  datatype InitEnv = InitEnv(
    id: string, newSlug: string, chunkSetting: int, now: int, free: Option<int>, r2Configured: bool,
    r2Provider: Option<string>, lookupFails: bool, hashFails: bool, createFails: bool, truncateFails: bool,
    dbFails: bool, abortFails: bool)

  predicate ChunkSetting(setting: int) {
    setting == 0 || (MIN_CHUNK <= setting <= MAX_CHUNK && setting % MIB == 0)
  }

  function BackendOf(name: string, r2Configured: bool): Backend {
    if name == "" || name == "local" then LocalDisk
    else if name == "r2" && r2Configured then R2
    else Unknown
  }

  /** The backend of a row, looked up when the row is used: there is none once the object store has
      been switched off in the settings. */
  predicate NoBackend(backend: Backend, r2Off: bool) {
    backend.Unknown? || (backend.R2? && r2Off)
  }

  predicate SlugChar(c: char) {
    'A' <= c <= 'Z' || 'a' <= c <= 'z' || '0' <= c <= '9' || c == '_' || c == '-'
  }

  predicate SlugSyntax(slug: string) {
    3 <= |slug| <= 64 && forall c <- slug :: SlugChar(c)
  }

  predicate WellFormed(req: InitRequest, env: InitEnv) {
    && 0 < |req.name| <= 512
    && req.size > 0
    && 0 <= req.expiresIn <= MAX_EXPIRES_IN
    && 0 <= req.maxDownloads <= MAX_MAX_DOWNLOADS
    && !BackendOf(req.storage, env.r2Configured).Unknown?
    && (req.slug == "" || SlugSyntax(req.slug))
  }

  function ChosenSlug(req: InitRequest, env: InitEnv): string {
    if req.slug == "" then env.newSlug else req.slug
  }

  predicate DiskFull(req: InitRequest, env: InitEnv) {
    && BackendOf(req.storage, env.r2Configured).LocalDisk?
    && env.free.Some? && env.free.value < Wrap(req.size + DISK_MARGIN)
  }

  function ChosenChunkSize(req: InitRequest, env: InitEnv): int {
    if env.chunkSetting == 0 then AutoChunkSize(req.size) else env.chunkSetting
  }

  lemma ChosenChunkSizeInRange(req: InitRequest, env: InitEnv)
    requires ChunkSetting(env.chunkSetting)
    ensures MIN_CHUNK <= ChosenChunkSize(req, env) <= MAX_CHUNK
  {
  }

  function NewUpload(req: InitRequest, env: InitEnv): Upload
    requires ChunkSetting(env.chunkSetting)
  {
    var chunkSize := ChosenChunkSize(req, env);
    ChosenChunkSizeInRange(req, env);
    var backend := BackendOf(req.storage, env.r2Configured);
    Upload(env.id, ChosenSlug(req, env), req.name, req.size, chunkSize, ChunkCount(req.size, chunkSize), backend,
           if backend.R2? && env.r2Provider.Some? then env.r2Provider.value else "", req.passwordHash,
           req.expiresIn, req.maxDownloads, env.now)
  }

  /** The tables take no row for the upload. */
  predicate RowRefused(db: Db, id: string, slug: string, env: InitEnv) {
    env.dbFails || id in db.uploads || UploadSlugTaken(db, slug)
  }

  /** Creating the upload file and the row. A file that cannot be stretched stays behind empty; a
      refused row removes the file it had just stretched, or leaves it there when that fails too. */
  function Started(w: World, u: Upload, env: InitEnv): (World, Status)
    requires u.size >= 0
  {
    if u.storage.R2? && env.r2Provider.None? then (w, Internal)
    else if u.storage.LocalDisk? && env.createFails then (w, Internal)
    else if u.storage.LocalDisk? && env.truncateFails then
      (w.(disk := w.disk.(tmp := w.disk.tmp[u.slug := []])), Internal)
    else if RowRefused(w.db, u.id, u.slug, env) then
      (if u.storage.LocalDisk?
       then w.(disk := w.disk.(tmp := if env.abortFails then w.disk.tmp[u.slug := Blank(u.size)]
               else w.disk.tmp - {u.slug}))
       else w,
       if env.dbFails then Internal else Conflict)
    else
      (World(w.db.(uploads := w.db.uploads[u.id := u]),
             if u.storage.LocalDisk? then w.disk.(tmp := w.disk.tmp[u.slug := Blank(u.size)]) else w.disk), Ok)
  }

  /** The requested slug is looked up among the files; a lookup that fails lets it pass. */
  predicate SlugRefused(w: World, req: InitRequest, env: InitEnv) {
    req.slug != "" && !env.lookupFails && FileSlugTaken(w.db, req.slug)
  }

  function InitSpec(w: World, req: InitRequest, env: InitEnv): (World, Status)
    requires ChunkSetting(env.chunkSetting)
  {
    var u := NewUpload(req, env);
    if !WellFormed(req, env) then (w, BadRequest)
    else if SlugRefused(w, req, env) then (w, Conflict)
    else if DiskFull(req, env) then (w, Full)
    else if env.hashFails then (w, Internal)
    else Started(w, u, env)
  }

  // ---- chunks ----

  /** A chunk request: the index in the path (None when it is not a number), the declared
      length, the bytes that arrive, whether reading then fails, whether recording the part
      fails, the answer of the object store, and whether that has been switched off. */
  datatype ChunkRequest = ChunkRequest(
    idx: Option<int>, contentLength: int, data: seq<Byte>, readFails: bool, partFails: bool, r2Etag: Option<string>,
    r2Off: bool)

  predicate InRange(u: Upload, idx: Option<int>) {
    idx.Some? && 0 <= idx.value < u.totalChunks
  }

  /** Reading stops at the declared length. */
  function Arrived(data: seq<Byte>, want: int): seq<Byte> {
    if 0 <= want < |data| then data[..want] else data
  }

  function PartRecorded(w: World, id: string, idx: int, etag: string): World {
    w.(db := w.db.(parts := w.db.parts[(id, idx) := etag]))
  }

  function ChunkSpec(w: World, id: string, req: ChunkRequest): (World, Status)
    requires id in w.db.uploads ==> w.db.uploads[id].chunkSize >= 0
  {
    if id !in w.db.uploads then (w, NotFound)
    else
      var u := w.db.uploads[id];
      if !InRange(u, req.idx) then (w, BadRequest)
      else
        var idx := req.idx.value;
        var want := Want(u.size, u.chunkSize, u.totalChunks, idx);
        if req.contentLength != want then (w, BadRequest)
        else if NoBackend(u.storage, req.r2Off) then (w, Dropped)
        else if u.storage.LocalDisk? then
          var data := Arrived(req.data, want);
          var fails := req.readFails || data != req.data;
          var w' := w.(disk := ChunkWritten(w.disk, u.slug, idx * u.chunkSize, data));
          if !ChunkAccepted(w.disk, u.slug, data, fails, want) || req.partFails then (w', Internal)
          else (PartRecorded(w', id, idx, ""), Ok)
        else if req.r2Etag.None? || req.partFails then (w, Internal)
        else (PartRecorded(w, id, idx, req.r2Etag.value), Ok)
  }

  function TrimQuotes(s: string): string {
    if s != "" && s[0] == '"' then TrimQuotes(s[1..])
    else if s != "" && s[|s| - 1] == '"' then TrimQuotes(s[..|s| - 1])
    else s
  }

  /** r is s from before on without quotes at its ends, and the rest of s is quotes. */
  ghost predicate IsTrimmed(s: string, r: string, before: nat) {
    && (r != "" ==> r[0] != '"' && r[|r| - 1] != '"')
    && before + |r| <= |s| && (forall k | 0 <= k < |r| :: r[k] == s[before + k])
    && (forall k | 0 <= k < before || before + |r| <= k < |s| :: s[k] == '"')
  }

  lemma QuoteBefore(s: string, r: string, n: nat)
    requires s != "" && s[0] == '"' && IsTrimmed(s[1..], r, n)
    ensures IsTrimmed(s, r, n + 1)
  {
    var t := s[1..];
    forall k | 0 <= k < n + 1 || n + 1 + |r| <= k < |s| ensures s[k] == '"' {
      if k > 0 {
        assert t[k - 1] == '"';
      }
    }
  }

  lemma QuoteBehind(s: string, r: string, n: nat)
    requires s != "" && s[|s| - 1] == '"' && IsTrimmed(s[..|s| - 1], r, n)
    ensures IsTrimmed(s, r, n)
  {
    var t := s[..|s| - 1];
    forall k | 0 <= k < n || n + |r| <= k < |s| ensures s[k] == '"' {
      if k < |t| {
        assert t[k] == '"';
      }
    }
  }

  /** Exactly the quotes at both ends go. */
  lemma {:induction false} TrimmedOfQuotes(s: string) returns (before: nat)
    ensures IsTrimmed(s, TrimQuotes(s), before)
    decreases |s|
  {
    if s != "" && s[0] == '"' {
      var n := TrimmedOfQuotes(s[1..]);
      QuoteBefore(s, TrimQuotes(s[1..]), n);
      before := n + 1;
    } else if s != "" && s[|s| - 1] == '"' {
      before := TrimmedOfQuotes(s[..|s| - 1]);
      QuoteBehind(s, TrimQuotes(s[..|s| - 1]), before);
    } else {
      before := 0;
    }
  }

  /** The browser reports the etag of a chunk it sent to the object store itself. */
  function ETagSpec(w: World, id: string, index: Option<int>, etag: string, partFails: bool, r2Off: bool)
    : (World, Status)
  {
    if id !in w.db.uploads then (w, NotFound)
    else
      var u := w.db.uploads[id];
      if !u.storage.R2? || r2Off || !InRange(u, index) || TrimQuotes(etag) == "" then (w, BadRequest)
      else if partFails then (w, Internal)
      else (PartRecorded(w, id, index.value, TrimQuotes(etag)), Ok)
  }

  // ---- completing ----

  /** The clock, the type guessed from the name, which calls succeed: the backend's completion, the
      metadata transaction, and the deletion that rolls a failed one back; and whether the object
      store has been switched off. */
  datatype CompleteEnv = CompleteEnv(
    now: int, contentType: string, completes: bool, dbFails: bool, rollbackFails: bool, r2Off: bool)

  function NewFile(u: Upload, id: int, env: CompleteEnv): File {
    File(id, u.slug, u.name, u.size, u.storage,
         if env.contentType == "" then "application/octet-stream" else env.contentType, u.passwordHash, env.now,
         if u.expiresIn > 0 then env.now + u.expiresIn else 0, 0, u.maxDownloads)
  }

  ghost predicate AllParts(db: Db, id: string, total: int) {
    total >= 0 && forall idx :: (id, idx) in db.parts <==> 0 <= idx < total
  }

  function Renamed(disk: Disk, slug: string): Disk
    requires slug in disk.tmp
  {
    Disk(disk.tmp - {slug}, disk.objects[slug := disk.tmp[slug]])
  }

  function Finalized(db: Db, u: Upload, env: CompleteEnv): Db {
    WithoutUpload(db, u.id).(files := db.files[db.nextId := NewFile(u, db.nextId, env)], nextId := db.nextId + 1)
  }

  ghost function CompleteSpec(w: World, id: string, env: CompleteEnv): (World, Status)
    requires id in w.db.uploads ==> w.db.uploads[id].id == id
  {
    if id !in w.db.uploads then (w, NotFound)
    else
      var u := w.db.uploads[id];
      var local := u.storage.LocalDisk?;
      if !AllParts(w.db, id, u.totalChunks) then (w, BadRequest)
      else if NoBackend(u.storage, env.r2Off) then (w, Dropped)
      else if !env.completes || (local && u.slug !in w.disk.tmp) then (w, Internal)
      else
        var disk := if local then Renamed(w.disk, u.slug) else w.disk;
        if env.dbFails then
          (World(w.db, if local && !env.rollbackFails then disk.(objects := disk.objects - {u.slug})
              else disk), Internal)
        else if FileSlugTaken(w.db, u.slug) then (World(w.db, disk), Conflict)
        else (World(Finalized(w.db, u, env), disk), Ok)
  }

  /** Which of the two deletions of an abort fail, and whether the object store has been switched
      off. */
  datatype AbortFaults = AbortFaults(storage: bool, db: bool, r2Off: bool)

  /** The upload file goes first, and the row goes even when the file cannot be removed. */
  function AbortSpec(w: World, id: string, faults: AbortFaults): (World, Status) {
    if id !in w.db.uploads then (w, NotFound)
    else
      var u := w.db.uploads[id];
      if NoBackend(u.storage, faults.r2Off) then (w, Dropped)
      else
        (World(if faults.db then w.db else WithoutUpload(w.db, id),
               if u.storage.LocalDisk? && !faults.storage then w.disk.(tmp := w.disk.tmp - {u.slug}) else w.disk),
         if faults.db then Internal else Ok)
  }

  // ---- deleting files ----

  /** The ids of files whose row cannot be read, whose object cannot be deleted, or whose row
      cannot be deleted, and whether the object store has been switched off. */
  datatype DeleteFaults = DeleteFaults(lookups: set<int>, objects: set<int>, rows: set<int>, r2Off: bool)

  /** Deleting the file asks a backend that is not there. */
  predicate Drops(files: map<int, File>, id: int, faults: DeleteFaults) {
    id !in faults.lookups && id in files && NoBackend(files[id].storage, faults.r2Off)
  }

  /** Object first, row second; when the object cannot be deleted the row stays. */
  function DeleteSpec(w: World, id: int, faults: DeleteFaults): (World, Status) {
    if id in faults.lookups then (w, Internal)
    else if id !in w.db.files then (w, NotFound)
    else if Drops(w.db.files, id, faults) then (w, Dropped)
    else if id in faults.objects then (w, Internal)
    else
      var f := w.db.files[id];
      var disk := if f.storage.LocalDisk? then w.disk.(objects := w.disk.objects - {f.slug}) else w.disk;
      if id in faults.rows then (World(w.db, disk), Internal)
      else (World(w.db.(files := w.db.files - {id}), disk), Ok)
  }

  /** A second deletion has nothing left to do. */
  ghost predicate Settled(w: World, id: int, faults: DeleteFaults) {
    id in w.db.files && id !in faults.lookups && id !in faults.objects && !Drops(w.db.files, id, faults) ==>
      id in faults.rows && (w.db.files[id].storage.LocalDisk? ==> w.db.files[id].slug !in w.disk.objects)
  }

  lemma DeleteAgain(w: World, id: int, faults: DeleteFaults)
    requires Settled(w, id, faults)
    ensures DeleteSpec(w, id, faults).0 == w
  {
    if id in w.db.files && w.db.files[id].storage.LocalDisk? && id !in faults.lookups && id !in faults.objects {
      assert w.disk.objects - {w.db.files[id].slug} == w.disk.objects;
    }
  }

  lemma NothingToDelete(w: World, id: int, faults: DeleteFaults)
    requires id in faults.lookups || id !in w.db.files
    ensures DeleteSpec(w, id, faults).0 == w
  {
  }

  lemma DroppedChangesNothing(w: World, id: int, faults: DeleteFaults)
    requires Drops(w.db.files, id, faults)
    ensures DeleteSpec(w, id, faults) == (w, Dropped)
  {
  }

  lemma DeleteSettles(w: World, id: int, faults: DeleteFaults, other: int)
    requires other == id || Settled(w, other, faults)
    ensures Settled(DeleteSpec(w, id, faults).0, other, faults)
  {
  }

  /** Deleting several ids one after the other. */
  function DeleteAll(w: World, ids: seq<int>, faults: DeleteFaults): World {
    if ids == [] then w
    else DeleteSpec(DeleteAll(w, ids[..|ids| - 1], faults), ids[|ids| - 1], faults).0
  }

  lemma DeleteAllMore(w: World, ids: seq<int>, i: nat, faults: DeleteFaults)
    requires i < |ids|
    ensures DeleteAll(w, ids[..0], faults) == w && DeleteAll(w, ids[..|ids|], faults) == DeleteAll(w, ids, faults)
    ensures DeleteAll(w, ids[..i + 1], faults) == DeleteSpec(DeleteAll(w, ids[..i], faults), ids[i], faults).0
    ensures forall id :: id in ids[..i + 1] <==> id in ids[..i] || id == ids[i]
  {
    assert ids[..i + 1][..i] == ids[..i] && ids[..i + 1][i] == ids[i];
    assert ids[..i + 1] == ids[..i] + [ids[i]];
    assert ids[..|ids|] == ids;
  }

  // ---- without the object store ----

  /** Once the store has been switched off, no request about an upload or a file in it changes anything:
      chunks, full completions, aborts and deletions panic, and etags are refused. */
  lemma NothingWithoutStore(w: World, id: string, chunk: ChunkRequest, done: CompleteEnv, aborts: AbortFaults,
                            etag: string, index: Option<int>)
    requires id in w.db.uploads && w.db.uploads[id].storage == R2 && w.db.uploads[id].id == id
    requires w.db.uploads[id].chunkSize >= 0 && chunk.r2Off && done.r2Off && aborts.r2Off
    ensures ChunkSpec(w, id, chunk).0 == w && !ChunkSpec(w, id, chunk).1.Ok?
    ensures ETagSpec(w, id, index, etag, false, true) == (w, BadRequest)
    ensures CompleteSpec(w, id, done)
         == (w, if AllParts(w.db, id, w.db.uploads[id].totalChunks) then Dropped else BadRequest)
    ensures AbortSpec(w, id, aborts) == (w, Dropped)
  {
    hide AllParts;
  }

  lemma NoDeletionWithoutStore(w: World, id: int, faults: DeleteFaults)
    requires id in w.db.files && w.db.files[id].storage == R2 && faults.r2Off && id !in faults.lookups
    ensures DeleteSpec(w, id, faults) == (w, Dropped)
  {
  }

  // ---- the list of parts ----

  lemma {:induction false} PartListBelow(db: Db, id: string, list: seq<Part>, i: nat)
    requires IsPartList(db, id, list) && i < |list| && forall p <- list :: p.idx >= 0
    ensures list[i].idx >= i
    decreases i
  {
    assert list[i] in list;
    if i > 0 {
      PartListBelow(db, id, list, i - 1);
    }
  }

  lemma {:induction false} PartListAbove(db: Db, id: string, list: seq<Part>, total: int, i: nat)
    requires IsPartList(db, id, list) && i < |list| && forall p <- list :: p.idx < total
    ensures list[i].idx <= total - (|list| - i)
    decreases |list| - i
  {
    assert list[i] in list;
    if i < |list| - 1 {
      PartListAbove(db, id, list, total, i + 1);
    }
  }

  /** A full sorted list of distinct in-range indexes holds index i at position i. */
  lemma FullPartList(db: Db, id: string, list: seq<Part>, total: int)
    requires IsPartList(db, id, list) && |list| == total
    requires forall idx | (id, idx) in db.parts :: 0 <= idx < total
    ensures forall i | 0 <= i < total :: list[i].idx == i && list[i].etag == db.parts[(id, i)]
    ensures AllParts(db, id, total)
  {
    forall p | p in list ensures 0 <= p.idx < total {
      var k :| 0 <= k < |list| && list[k] == p;
    }
    forall i | 0 <= i < total ensures list[i].idx == i {
      PartListBelow(db, id, list, i);
      PartListAbove(db, id, list, total, i);
    }
    PartListComplete(db, id, list, total);
  }

  lemma {:induction false} EveryIndex(db: Db, id: string, list: seq<Part>, total: int, i: nat)
    requires IsPartList(db, id, list) && AllParts(db, id, total) && i < total
    requires forall p <- list :: p.idx >= 0
    ensures i < |list| && list[i].idx == i
    decreases i
  {
    var k := PositionOf(db, id, list, total, i);
    hide IsPartList, AllParts;
    PartListBelow(db, id, list, k);
    if i > 0 {
      EveryIndex(db, id, list, total, i - 1);
      PartsAscend(db, id, list);
    }
  }

  lemma PositionOf(db: Db, id: string, list: seq<Part>, total: int, i: nat) returns (k: nat)
    requires IsPartList(db, id, list) && AllParts(db, id, total) && i < total
    ensures k < |list| && list[k].idx == i
  {
    assert (id, i as int) in db.parts;
    k :| 0 <= k < |list| && list[k].idx == i;
  }

  lemma PartsAscend(db: Db, id: string, list: seq<Part>)
    requires IsPartList(db, id, list)
    ensures forall i, j | 0 <= i < j < |list| :: list[i].idx < list[j].idx
  {
  }

  /** The two tests of the handler accept exactly when every index has a part. */
  lemma PartListComplete(db: Db, id: string, list: seq<Part>, total: int)
    requires IsPartList(db, id, list)
    ensures AllParts(db, id, total) <==> |list| == total && forall i | 0 <= i < |list| :: list[i].idx == i
  {
    if AllParts(db, id, total) {
      forall p | p in list ensures 0 <= p.idx < total {
        var k :| 0 <= k < |list| && list[k] == p;
        assert (id, list[k].idx) in db.parts;
      }
      if |list| < total {
        EveryIndex(db, id, list, total, |list|);
      }
      if |list| > 0 {
        PartListBelow(db, id, list, |list| - 1);
        assert list[|list| - 1] in list;
      }
      forall i | 0 <= i < |list| ensures list[i].idx == i {
        EveryIndex(db, id, list, total, i);
      }
    }
    if |list| == total && forall i | 0 <= i < |list| :: list[i].idx == i {
      forall idx ensures (id, idx) in db.parts <==> 0 <= idx < total {
        if 0 <= idx < total {
          assert list[idx].idx == idx;
        }
      }
    }
  }

  // ---- the handlers ----

  class Server {
    const st: Store
    const local: Local

    ghost function State(): World
      reads st, local
    {
      World(st.State(), local.State())
    }

    constructor ()
      ensures fresh(st) && fresh(local)
      ensures State() == World(Db(map[], map[], map[], 1, map[]), Disk(map[], map[]))
    {
      st := new Store();
      local := new Local();
    }

    method HandleUploadInit(req: InitRequest, env: InitEnv) returns (status: Status)
      requires ChunkSetting(env.chunkSetting)
      modifies st, local
      ensures (State(), status) == InitSpec(old(State()), req, env)
    {
      hide SlugSyntax, AutoChunkSize, ChunkCount, FileSlugTaken, Started;
      if req.name == "" || |req.name| > 512 {
        return BadRequest;
      }
      if req.size <= 0 {
        return BadRequest;
      }
      if req.expiresIn < 0 || req.expiresIn > MAX_EXPIRES_IN {
        return BadRequest;
      }
      if req.maxDownloads < 0 || req.maxDownloads > MAX_MAX_DOWNLOADS {
        return BadRequest;
      }
      var backend := BackendOf(req.storage, env.r2Configured);
      if backend.Unknown? {
        return BadRequest;
      }
      var slug := req.slug;
      if slug != "" {
        if !SlugSyntax(slug) {
          return BadRequest;
        }
        var taken := st.SlugInFiles(slug, env.lookupFails);
        if taken {
          return Conflict;
        }
      } else {
        slug := env.newSlug;
      }
      if backend.LocalDisk? && env.free.Some? && env.free.value < Wrap(req.size + DISK_MARGIN) {
        return Full;
      }
      if env.hashFails {
        return Internal;
      }
      var chunkSize := env.chunkSetting;
      if chunkSize == 0 {
        chunkSize := AutoChunkSize(req.size);
      }
      ChosenChunkSizeInRange(req, env);
      var up := Upload(env.id, slug, req.name, req.size, chunkSize, ChunkCount(req.size, chunkSize), backend,
                       if backend.R2? && env.r2Provider.Some? then env.r2Provider.value else "", req.passwordHash,
                       req.expiresIn, req.maxDownloads, env.now);
      status := StartUpload(up, env);
    }

    method StartUpload(up: Upload, env: InitEnv) returns (status: Status)
      requires up.size >= 0
      modifies st, local
      ensures (State(), status) == Started(old(State()), up, env)
    {
      hide UploadSlugTaken;
      if up.storage.R2? && env.r2Provider.None? {
        return Internal;
      }
      if up.storage.LocalDisk? {
        var ready := local.Init(up.slug, up.size, env.createFails, env.truncateFails);
        if !ready {
          return Internal;
        }
      }
      var created := st.CreateUpload(up, env.dbFails);
      if created != Done {
        if up.storage.LocalDisk? && !env.abortFails {
          local.Abort(up.slug);
          assert (old(local.tmp)[up.slug := Blank(up.size)]) - {up.slug} == old(local.tmp) - {up.slug};
        }
        return if created.UniqueViolation? then Conflict else Internal;
      }
      status := Ok;
    }

    method HandleUploadChunk(id: string, req: ChunkRequest) returns (status: Status)
      requires id in st.uploads ==> st.uploads[id].chunkSize >= 0
      modifies st, local
      ensures (State(), status) == ChunkSpec(old(State()), id, req)
    {
      if id !in st.uploads {
        return NotFound;
      }
      var up := st.uploads[id];
      if req.idx.None? || req.idx.value < 0 || req.idx.value >= up.totalChunks {
        return BadRequest;
      }
      var idx: nat := req.idx.value;
      var want := up.chunkSize;
      if idx == up.totalChunks - 1 {
        want := up.size - (up.totalChunks - 1) * up.chunkSize;
      }
      if req.contentLength != want {
        return BadRequest;
      }
      if NoBackend(up.storage, req.r2Off) {
        return Dropped;
      }
      if up.storage.LocalDisk? {
        var data := Arrived(req.data, want);
        var ok := local.PutChunk(up.slug, idx, up.chunkSize, data, req.readFails || data != req.data, want);
        if !ok || req.partFails {
          return Internal;
        }
        st.PutPart(id, idx, "");
      } else {
        if req.r2Etag.None? || req.partFails {
          return Internal;
        }
        st.PutPart(id, idx, req.r2Etag.value);
      }
      status := Ok;
    }

    method HandleChunkETag(id: string, index: Option<int>, etag: string, partFails: bool, r2Off: bool)
      returns (status: Status)
      modifies st
      ensures (State(), status) == ETagSpec(old(State()), id, index, etag, partFails, r2Off)
    {
      if id !in st.uploads {
        return NotFound;
      }
      var up := st.uploads[id];
      if !up.storage.R2? || r2Off {
        return BadRequest;
      }
      if !InRange(up, index) {
        return BadRequest;
      }
      var trimmed := TrimQuotes(etag);
      if trimmed == "" {
        return BadRequest;
      }
      if partFails {
        return Internal;
      }
      st.PutPart(id, index.value, trimmed);
      status := Ok;
    }

    /** Whenever the backend is asked to complete, position i of the list it receives is the
        latest recorded etag of chunk i. */
    method CollectEtags(parts: seq<Part>) returns (etags: Option<seq<string>>)
      ensures etags.Some? <==> forall i | 0 <= i < |parts| :: parts[i].idx == i
      ensures etags.Some? ==> |etags.value| == |parts| && forall i | 0 <= i < |parts| :: etags.value[i] == parts[i].etag
    {
      var list: seq<string> := [];
      for i := 0 to |parts|
        invariant |list| == i
        invariant forall k | 0 <= k < i :: parts[k].idx == k && list[k] == parts[k].etag
      {
        if parts[i].idx != i {
          return None;
        }
        list := list + [parts[i].etag];
      }
      etags := Some(list);
    }

    method HandleUploadComplete(id: string, env: CompleteEnv) returns (status: Status, etags: seq<string>)
      requires id in st.uploads ==> st.uploads[id].id == id
      modifies st, local
      ensures (State(), status) == CompleteSpec(old(State()), id, env)
      ensures !(status.NotFound? || status.BadRequest?) ==>
                && |etags| == old(st.uploads)[id].totalChunks
                && forall i | 0 <= i < |etags| :: (id, i) in old(st.parts) && etags[i] == old(st.parts)[(id, i)]
    {
      etags := [];
      if id !in st.uploads {
        return NotFound, [];
      }
      var up := st.uploads[id];
      var parts := st.ListParts(id);
      PartListComplete(st.State(), id, parts, up.totalChunks);
      if |parts| != up.totalChunks {
        return BadRequest, [];
      }
      var collected := CollectEtags(parts);
      if collected.None? {
        return BadRequest, [];
      }
      etags := collected.value;
      if NoBackend(up.storage, env.r2Off) {
        return Dropped, etags;
      }
      if up.storage.LocalDisk? {
        var renamed := false;
        if env.completes {
          renamed := local.Complete(up.slug);
        }
        if !renamed {
          return Internal, etags;
        }
      } else if !env.completes {
        return Internal, etags;
      }
      var result := st.FinalizeUpload(NewFile(up, 0, env), id, env.dbFails);
      match result {
        case UniqueViolation =>
          status := Conflict;
        case Failed =>
          if up.storage.LocalDisk? && !env.rollbackFails {
            local.Delete(up.slug);
          }
          status := Internal;
        case Done =>
          status := Ok;
      }
    }

    method HandleUploadAbort(id: string, faults: AbortFaults) returns (status: Status)
      modifies st, local
      ensures (State(), status) == AbortSpec(old(State()), id, faults)
    {
      if id !in st.uploads {
        return NotFound;
      }
      var up := st.uploads[id];
      if NoBackend(up.storage, faults.r2Off) {
        return Dropped;
      }
      if up.storage.LocalDisk? && !faults.storage {
        local.Abort(up.slug);
      }
      if faults.db {
        return Internal;
      }
      st.DeleteUpload(id);
      status := Ok;
    }

    method DeleteFile(f: File, faults: DeleteFaults) returns (status: Status)
      requires f.id in st.files && st.files[f.id] == f && f.id !in faults.lookups
      modifies st, local
      ensures (State(), status) == DeleteSpec(old(State()), f.id, faults)
      ensures status.Ok? <==> !NoBackend(f.storage, faults.r2Off) && f.id !in faults.objects && f.id !in faults.rows
      ensures status.Dropped? <==> NoBackend(f.storage, faults.r2Off)
      ensures st.files == if status.Ok? then old(st.files) - {f.id} else old(st.files)
    {
      if NoBackend(f.storage, faults.r2Off) {
        return Dropped;
      }
      if f.id in faults.objects {
        return Internal;
      }
      if f.storage.LocalDisk? {
        local.Delete(f.slug);
      }
      if f.id in faults.rows {
        return Internal;
      }
      st.DeleteFile(f.id);
      status := Ok;
    }

    /** Repeated ids and ids without a row are passed over; the rest are deleted in order, up to the
        first whose backend is not there. */
    method HandleFileBatchDelete(ids: seq<int>, faults: DeleteFaults)
      returns (status: Status, deleted: seq<int>, failures: seq<int>)
      requires forall id <- st.files :: st.files[id].id == id
      modifies st, local
      ensures status == if !(0 < |ids| <= 100) then BadRequest
                        else if exists id :: id in ids && Drops(old(st.files), id, faults) then Dropped else Ok
      ensures status.BadRequest? ==> State() == old(State())
      ensures status.Dropped? ==>
                exists k :: 0 <= k < |ids| && Drops(old(st.files), ids[k], faults)
                            && (forall j | 0 <= j < k :: !Drops(old(st.files), ids[j], faults))
                            && State() == DeleteAll(old(State()), ids[..k], faults)
      ensures status.Ok? ==>
                && State() == DeleteAll(old(State()), ids, faults)
                && (forall id :: id in deleted <==> id in ids && id in old(st.files) && id !in st.files)
                && (forall id :: id in failures <==> id in ids && (id in faults.lookups || id in st.files))
                && (forall i, j | 0 <= i < j < |deleted| :: deleted[i] != deleted[j])
    {
      hide DeleteSpec, DeleteAll, Settled, NoBackend;
      deleted, failures := [], [];
      if |ids| == 0 || |ids| > 100 {
        return BadRequest, [], [];
      }
      var seen: set<int> := {};
      ghost var w0 := State();
      DeleteAllMore(w0, ids, 0, faults);
      for i := 0 to |ids|
        invariant State() == DeleteAll(w0, ids[..i], faults)
        invariant st.files.Keys <= w0.db.files.Keys && forall id <- st.files :: st.files[id] == w0.db.files[id]
        invariant forall id :: id in seen <==> id in ids[..i]
        invariant forall id | id in seen :: !Drops(w0.db.files, id, faults)
        invariant forall id | id !in seen :: id in st.files <==> id in w0.db.files
        invariant forall id :: id in deleted <==> id in seen && id in w0.db.files && id !in st.files
        invariant forall id :: id in failures <==> id in seen && (id in faults.lookups || id in st.files)
        invariant forall id | id in seen :: Settled(State(), id, faults)
        invariant forall k, j | 0 <= k < j < |deleted| :: deleted[k] != deleted[j]
      {
        var id := ids[i];
        DeleteAllMore(w0, ids, i, faults);
        if id in seen {
          DeleteAgain(State(), id, faults);
          continue;
        }
        forall other | other in seen || other == id ensures Settled(DeleteSpec(State(), id, faults).0, other, faults) {
          DeleteSettles(State(), id, faults, other);
        }
        seen := seen + {id};
        if id in faults.lookups {
          NothingToDelete(State(), id, faults);
          failures := failures + [id];
          continue;
        }
        if id !in st.files {
          NothingToDelete(State(), id, faults);
          continue;
        }
        ghost var before := State();
        var result := DeleteFile(st.files[id], faults);
        if result.Dropped? {
          assert ids[i] in ids && Drops(w0.db.files, ids[i], faults);
          DroppedChangesNothing(before, id, faults);
          return Dropped, [], [];
        }
        if !result.Ok? {
          failures := failures + [id];
        } else {
          deleted := deleted + [id];
        }
      }
      assert ids[..|ids|] == ids;
      status := Ok;
    }
  }
}
