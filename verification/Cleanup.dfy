/** The periodic clean-up: expired and exhausted files, abandoned uploads, orphaned objects. */
module Cleanup {
  import opened Bits
  import opened Tables
  import opened Handlers
  import L = Lifecycle

  const STALE_UPLOAD_AGE := 72 * 3600

  /** Which calls fail while the rows of one query are dropped: the query, the storage call for
      a slug, the row's deletion. */
  datatype RowFaults<Id(==)> = RowFaults(query: bool, objects: set<string>, rows: set<Id>)

  /** Failures while orphans are dropped. */
  datatype OrphanFaults = OrphanFaults(keys: bool, known: bool, objects: set<string>)

  datatype Faults = Faults(
    expired: RowFaults<int>, exhausted: RowFaults<int>, stale: RowFaults<string>, pastes: bool, orphans: OrphanFaults)

  ghost predicate Keyed(db: Db) {
    && (forall id <- db.files :: db.files[id].id == id)
    && (forall id <- db.uploads :: db.uploads[id].id == id)
  }

  // ---- what each pass leaves ----

  /** Of the given rows, the object goes unless its deletion fails, then the row goes unless its
      deletion fails. */
  ghost predicate ObjectDropped(w: World, ids: set<int>, faults: RowFaults<int>, key: string) {
    && key !in faults.objects
    && exists id | id in ids && id in w.db.files :: w.db.files[id].storage.LocalDisk? && w.db.files[id].slug == key
  }

  ghost predicate FileDropped(w: World, ids: set<int>, faults: RowFaults<int>, id: int)
    requires id in w.db.files
  {
    id in ids && id !in faults.rows && w.db.files[id].slug !in faults.objects
  }

  ghost function DropFiles(w: World, ids: set<int>, faults: RowFaults<int>): World {
    World(w.db.(files := map id | id in w.db.files && !FileDropped(w, ids, faults, id) :: w.db.files[id]),
          w.disk.(objects := map key | key in w.disk.objects && !ObjectDropped(w, ids, faults, key)
                             :: w.disk.objects[key]))
  }

  ghost predicate TmpDropped(w: World, ids: set<string>, faults: RowFaults<string>, key: string) {
    && key !in faults.objects
    && exists id | id in ids && id in w.db.uploads ::
         w.db.uploads[id].storage.LocalDisk? && w.db.uploads[id].slug == key
  }

  ghost predicate UploadDropped(w: World, ids: set<string>, faults: RowFaults<string>, id: string)
    requires id in w.db.uploads
  {
    id in ids && id !in faults.rows && w.db.uploads[id].slug !in faults.objects
  }

  ghost function DropUploads(w: World, ids: set<string>, faults: RowFaults<string>): World {
    World(w.db.(uploads := map id | id in w.db.uploads && !UploadDropped(w, ids, faults, id) :: w.db.uploads[id],
                parts := map k | k in w.db.parts && !(k.0 in w.db.uploads && UploadDropped(w, ids, faults, k.0))
                         :: w.db.parts[k]),
          w.disk.(tmp := map key | key in w.disk.tmp && !TmpDropped(w, ids, faults, key) :: w.disk.tmp[key]))
  }

  ghost predicate Known(db: Db, key: string) {
    FileSlugTaken(db, key) || UploadSlugTaken(db, key)
  }

  ghost function DropOrphans(w: World, faults: OrphanFaults): World {
    if faults.keys || faults.known then w
    else w.(disk := w.disk.(objects := map key | key in w.disk.objects && (Known(w.db, key) || key in faults.objects)
                                       :: w.disk.objects[key]))
  }

  ghost function ExpiredIds(w: World, now: int): set<int> {
    set id | id in w.db.files && Expired(w.db.files[id], now)
  }

  ghost function ExhaustedIds(w: World): set<int> {
    set id | id in w.db.files && Exhausted(w.db.files[id])
  }

  ghost function StaleIds(w: World, now: int): set<string> {
    set id | id in w.db.uploads && w.db.uploads[id].createdAt < now - STALE_UPLOAD_AGE
  }

  ghost function AfterExpired(w: World, now: int, faults: Faults): World {
    if faults.expired.query then w else DropFiles(w, ExpiredIds(w, now), faults.expired)
  }

  ghost function AfterExhausted(w: World, faults: Faults): World {
    if faults.exhausted.query then w else DropFiles(w, ExhaustedIds(w), faults.exhausted)
  }

  ghost function AfterStale(w: World, now: int, faults: Faults): World {
    if faults.stale.query then w else DropUploads(w, StaleIds(w, now), faults.stale)
  }

  ghost function AfterPastes(w: World, now: int, faults: Faults): World {
    if faults.pastes then w
    else w.(db := w.db.(pastes := map id | id in w.db.pastes && w.db.pastes[id] >= now :: w.db.pastes[id]))
  }

  /** The state after one clean-up; the clock is read once for files, once for uploads, and once
      for pastes. */
  ghost function CleanupSpec(w: World, now: int, later: int, latest: int, faults: Faults): World {
    var w3 := AfterStale(AfterExhausted(AfterExpired(w, now, faults), faults), later, faults);
    DropOrphans(AfterPastes(w3, latest, faults), faults.orphans)
  }

  // ---- the loops ----

  ghost function Ids(rows: seq<File>): set<int> {
    set f | f in rows :: f.id
  }

  ghost function UploadIds(rows: seq<Upload>): set<string> {
    set u | u in rows :: u.id
  }

  method DeleteStoredFile(s: Server, f: File, faults: RowFaults<int>, r2Off: bool) returns (status: Status)
    modifies s.st, s.local
    ensures status == if NoBackend(f.storage, r2Off) then Dropped
                      else if f.slug !in faults.objects && f.id !in faults.rows then Ok else Internal
    ensures s.st.State() == if status.Ok? then old(s.st.State()).(files := old(s.st.files) - {f.id})
                            else old(s.st.State())
    ensures s.local.State() == if !status.Dropped? && f.slug !in faults.objects && f.storage.LocalDisk?
                               then old(s.local.State()).(objects := old(s.local.objects) - {f.slug})
                               else old(s.local.State())
  {
    if NoBackend(f.storage, r2Off) {
      return Dropped;
    }
    if f.slug in faults.objects {
      return Internal;
    }
    if f.storage.LocalDisk? {
      s.local.Delete(f.slug);
    }
    if f.id in faults.rows {
      return Internal;
    }
    s.st.DeleteFile(f.id);
    status := Ok;
  }

  lemma DropOneMore(w: World, ids: set<int>, f: File, faults: RowFaults<int>)
    requires f.id in w.db.files && w.db.files[f.id] == f && Keyed(w.db)
    ensures var a, b := DropFiles(w, ids, faults), DropFiles(w, ids + {f.id}, faults);
            && b.db == (if f.slug !in faults.objects && f.id !in faults.rows
                        then a.db.(files := a.db.files - {f.id}) else a.db)
            && b.disk == (if f.slug !in faults.objects && f.storage.LocalDisk?
                          then a.disk.(objects := a.disk.objects - {f.slug}) else a.disk)
  {
    var a, b := DropFiles(w, ids, faults), DropFiles(w, ids + {f.id}, faults);
    forall key
      ensures ObjectDropped(w, ids + {f.id}, faults, key)
         <==> ObjectDropped(w, ids, faults, key) || (key == f.slug && f.storage.LocalDisk? && key !in faults.objects)
    {
    }
  }

  lemma OneMoreFile(rows: seq<File>, i: nat)
    requires i < |rows|
    ensures Ids(rows[..i + 1]) == Ids(rows[..i]) + {rows[i].id}
  {
    assert rows[..i + 1] == rows[..i] + [rows[i]];
  }

  lemma DropNone(w: World, rows: seq<File>, faults: RowFaults<int>)
    ensures DropFiles(w, Ids(rows[..0]), faults) == w
  {
    assert DropFiles(w, {}, faults).db.files == w.db.files;
    assert DropFiles(w, {}, faults).disk.objects == w.disk.objects;
  }

  /** The first n rows have a backend and the next one has none. */
  predicate StopsAt(backends: seq<Backend>, n: int, r2Off: bool) {
    && 0 <= n < |backends| && NoBackend(backends[n], r2Off)
    && forall k | 0 <= k < n :: !NoBackend(backends[k], r2Off)
  }

  function FileBackends(rows: seq<File>): (r: seq<Backend>)
    ensures |r| == |rows|
  {
    seq(|rows|, i requires 0 <= i < |rows| => rows[i].storage)
  }

  method DeleteFiles(s: Server, rows: seq<File>, faults: RowFaults<int>, r2Off: bool)
    returns (failed: bool, through: bool)
    requires Keyed(s.st.State()) && forall f <- rows :: f.id in s.st.files && s.st.files[f.id] == f
    modifies s.st, s.local
    ensures through <==> forall f <- rows :: !NoBackend(f.storage, r2Off)
    ensures through ==> s.State() == DropFiles(old(s.State()), Ids(rows), faults)
    ensures through ==> (!failed <==> forall f <- rows :: f.slug !in faults.objects && f.id !in faults.rows)
    ensures !through ==>
              exists n :: StopsAt(FileBackends(rows), n, r2Off)
                          && s.State() == DropFiles(old(s.State()), Ids(rows[..n]), faults)
  {
    hide DropFiles, Ids, NoBackend;
    failed := false;
    ghost var w := s.State();
    DropNone(w, rows, faults);
    for i := 0 to |rows|
      invariant s.State() == DropFiles(w, Ids(rows[..i]), faults)
      invariant forall k | 0 <= k < i :: !NoBackend(rows[k].storage, r2Off)
      invariant !failed <==> forall f <- rows[..i] :: f.slug !in faults.objects && f.id !in faults.rows
    {
      OneMoreFile(rows, i);
      DropOneMore(w, Ids(rows[..i]), rows[i], faults);
      assert rows[..i + 1] == rows[..i] + [rows[i]];
      var status := DeleteStoredFile(s, rows[i], faults, r2Off);
      if status.Dropped? {
        assert StopsAt(FileBackends(rows), i, r2Off);
        return failed, false;
      }
      if !status.Ok? {
        failed := true;
      }
    }
    assert rows[..|rows|] == rows;
    through := true;
  }

  method AbortStale(s: Server, up: Upload, faults: RowFaults<string>, r2Off: bool) returns (status: Status)
    modifies s.st, s.local
    ensures status == if NoBackend(up.storage, r2Off) then Dropped
                      else if up.slug !in faults.objects && up.id !in faults.rows then Ok else Internal
    ensures s.st.State() == if status.Ok? then WithoutUpload(old(s.st.State()), up.id) else old(s.st.State())
    ensures s.local.State() == if !status.Dropped? && up.slug !in faults.objects && up.storage.LocalDisk?
                               then old(s.local.State()).(tmp := old(s.local.tmp) - {up.slug})
                               else old(s.local.State())
  {
    if NoBackend(up.storage, r2Off) {
      return Dropped;
    }
    if up.slug in faults.objects {
      return Internal;
    }
    if up.storage.LocalDisk? {
      s.local.Abort(up.slug);
    }
    if up.id in faults.rows {
      return Internal;
    }
    s.st.DeleteUpload(up.id);
    status := Ok;
  }

  lemma AbortOneMoreRow(w: World, ids: set<string>, u: Upload, faults: RowFaults<string>)
    requires u.id in w.db.uploads && w.db.uploads[u.id] == u && Keyed(w.db)
    ensures var a, b := DropUploads(w, ids, faults).db, DropUploads(w, ids + {u.id}, faults).db;
            b == if u.slug !in faults.objects && u.id !in faults.rows then WithoutUpload(a, u.id) else a
  {
    hide TmpDropped;
    var a, b := DropUploads(w, ids, faults).db, DropUploads(w, ids + {u.id}, faults).db;
    if u.slug !in faults.objects && u.id !in faults.rows {
      assert b.uploads == WithoutUpload(a, u.id).uploads;
      assert b.parts == WithoutUpload(a, u.id).parts;
    } else {
      assert b.uploads == a.uploads;
      assert b.parts == a.parts;
    }
  }

  lemma AbortOneMoreTmp(w: World, ids: set<string>, u: Upload, faults: RowFaults<string>)
    requires u.id in w.db.uploads && w.db.uploads[u.id] == u
    ensures var a, b := DropUploads(w, ids, faults).disk, DropUploads(w, ids + {u.id}, faults).disk;
            b == if u.slug !in faults.objects && u.storage.LocalDisk? then a.(tmp := a.tmp - {u.slug}) else a
  {
    forall key
      ensures TmpDropped(w, ids + {u.id}, faults, key)
         <==> TmpDropped(w, ids, faults, key) || (key == u.slug && u.storage.LocalDisk? && key !in faults.objects)
    {
    }
  }

  lemma AbortOneMore(w: World, ids: set<string>, u: Upload, faults: RowFaults<string>)
    requires u.id in w.db.uploads && w.db.uploads[u.id] == u && Keyed(w.db)
    ensures var a, b := DropUploads(w, ids, faults), DropUploads(w, ids + {u.id}, faults);
            && b.db == (if u.slug !in faults.objects && u.id !in faults.rows then WithoutUpload(a.db, u.id) else a.db)
            && b.disk == (if u.slug !in faults.objects && u.storage.LocalDisk?
                          then a.disk.(tmp := a.disk.tmp - {u.slug}) else a.disk)
  {
    hide DropUploads, WithoutUpload;
    AbortOneMoreRow(w, ids, u, faults);
    AbortOneMoreTmp(w, ids, u, faults);
  }

  lemma OneMoreId(rows: seq<Upload>, i: nat)
    requires i < |rows|
    ensures UploadIds(rows[..i + 1]) == UploadIds(rows[..i]) + {rows[i].id}
  {
    assert rows[..i + 1] == rows[..i] + [rows[i]];
  }

  lemma AbortNone(w: World, rows: seq<Upload>, faults: RowFaults<string>)
    ensures DropUploads(w, UploadIds(rows[..0]), faults) == w
  {
    assert DropUploads(w, {}, faults).db.uploads == w.db.uploads;
    assert DropUploads(w, {}, faults).db.parts == w.db.parts;
    assert DropUploads(w, {}, faults).disk.tmp == w.disk.tmp;
  }

  function UploadBackends(rows: seq<Upload>): (r: seq<Backend>)
    ensures |r| == |rows|
  {
    seq(|rows|, i requires 0 <= i < |rows| => rows[i].storage)
  }

  method AbortUploads(s: Server, rows: seq<Upload>, faults: RowFaults<string>, r2Off: bool)
    returns (failed: bool, through: bool)
    requires Keyed(s.st.State()) && forall u <- rows :: u.id in s.st.uploads && s.st.uploads[u.id] == u
    modifies s.st, s.local
    ensures through <==> forall u <- rows :: !NoBackend(u.storage, r2Off)
    ensures through ==> s.State() == DropUploads(old(s.State()), UploadIds(rows), faults)
    ensures through ==> (!failed <==> forall u <- rows :: u.slug !in faults.objects && u.id !in faults.rows)
    ensures !through ==>
              exists n :: StopsAt(UploadBackends(rows), n, r2Off)
                          && s.State() == DropUploads(old(s.State()), UploadIds(rows[..n]), faults)
  {
    hide DropUploads, UploadIds, WithoutUpload, NoBackend;
    failed := false;
    ghost var w := s.State();
    AbortNone(w, rows, faults);
    for i := 0 to |rows|
      invariant s.State() == DropUploads(w, UploadIds(rows[..i]), faults)
      invariant forall k | 0 <= k < i :: !NoBackend(rows[k].storage, r2Off)
      invariant !failed <==> forall u <- rows[..i] :: u.slug !in faults.objects && u.id !in faults.rows
    {
      OneMoreId(rows, i);
      AbortOneMore(w, UploadIds(rows[..i]), rows[i], faults);
      assert rows[..i + 1] == rows[..i] + [rows[i]];
      var status := AbortStale(s, rows[i], faults, r2Off);
      if status.Dropped? {
        assert StopsAt(UploadBackends(rows), i, r2Off);
        return failed, false;
      }
      if !status.Ok? {
        failed := true;
      }
    }
    assert rows[..|rows|] == rows;
    through := true;
  }

  // ---- orphans ----

  /** What is left of the objects when the keys have been gone through. */
  ghost function Remaining(objects: map<string, seq<Byte>>, keys: seq<string>, known: set<string>, stuck: set<string>)
    : map<string, seq<Byte>>
  {
    map key | key in objects && (key !in keys || key in known || key in stuck) :: objects[key]
  }

  lemma OneMoreKey(objects: map<string, seq<Byte>>, keys: seq<string>, key: string, known: set<string>,
                   stuck: set<string>)
    ensures Remaining(objects, [], known, stuck) == objects
    ensures Remaining(objects, keys + [key], known, stuck)
         == if key in known || key in stuck then Remaining(objects, keys, known, stuck)
            else Remaining(objects, keys, known, stuck) - {key}
  {
  }

  /** Lists the finished objects first and reads the known slugs second. */
  method ReconcileLocalOrphans(s: Server, faults: OrphanFaults) returns (failed: bool)
    modifies s.local
    ensures s.State() == DropOrphans(old(s.State()), faults)
    ensures !failed <==> OrphansFaultFree(old(s.State()), faults)
  {
    failed := false;
    ghost var w := s.State();
    if faults.keys {
      return true;
    }
    var keys := s.local.ListKeys();
    if |keys| == 0 {
      assert forall k :: k in s.local.objects <==> k in keys;
      assert DropOrphans(w, faults).disk.objects == w.disk.objects;
      return;
    }
    assert keys[0] in s.local.objects;
    if faults.known {
      return true;
    }
    var known := s.st.KnownObjectSlugs();
    assert forall key :: key in known <==> Known(w.db, key);
    OneMoreKey(w.disk.objects, [], "", known, faults.objects);
    failed := DeleteUnknown(s, keys, known, faults.objects);
    assert DropOrphans(w, faults).disk.objects == s.local.objects;
    assert forall k :: k in keys <==> k in w.disk.objects;
  }

  method DeleteUnknown(s: Server, keys: seq<string>, known: set<string>, stuck: set<string>) returns (failed: bool)
    modifies s.local
    ensures s.local.objects == Remaining(old(s.local.objects), keys, known, stuck) && s.local.tmp == old(s.local.tmp)
    ensures !failed <==> forall key <- keys :: key in known || key !in stuck
  {
    hide Remaining;
    failed := false;
    ghost var objects := s.local.objects;
    OneMoreKey(objects, [], "", known, stuck);
    for i := 0 to |keys|
      invariant s.local.objects == Remaining(objects, keys[..i], known, stuck) && s.local.tmp == old(s.local.tmp)
      invariant !failed <==> forall key <- keys[..i] :: key in known || key !in stuck
    {
      var key := keys[i];
      assert keys[..i + 1] == keys[..i] + [key];
      OneMoreKey(objects, keys[..i], key, known, stuck);
      if key in known {
        continue;
      }
      if key in stuck {
        failed := true;
        continue;
      }
      s.local.Delete(key);
    }
    assert keys[..|keys|] == keys;
  }

  // ---- the whole clean-up ----

  ghost predicate FilesFaultFree(w: World, ids: set<int>, faults: RowFaults<int>) {
    !faults.query && forall id | id in ids && id in w.db.files ::
        w.db.files[id].slug !in faults.objects && id !in faults.rows
  }

  ghost predicate UploadsFaultFree(w: World, ids: set<string>, faults: RowFaults<string>) {
    && !faults.query
    && forall id | id in ids && id in w.db.uploads :: w.db.uploads[id].slug !in faults.objects && id !in faults.rows
  }

  ghost predicate OrphansFaultFree(w: World, faults: OrphanFaults) {
    && !faults.keys
    && (w.disk.objects == map[] || !faults.known)
    && forall key | key in w.disk.objects && !Known(w.db, key) :: key !in faults.objects
  }

  /** No call of this clean-up meets a failure. */
  ghost predicate FaultFree(w: World, now: int, later: int, latest: int, faults: Faults) {
    var w1 := AfterExpired(w, now, faults);
    var w2 := AfterExhausted(w1, faults);
    var w3 := AfterPastes(AfterStale(w2, later, faults), latest, faults);
    && FilesFaultFree(w, ExpiredIds(w, now), faults.expired)
    && FilesFaultFree(w1, ExhaustedIds(w1), faults.exhausted)
    && UploadsFaultFree(w2, StaleIds(w2, later), faults.stale)
    && !faults.pastes
    && OrphansFaultFree(w3, faults.orphans)
  }

  // ---- when the object store has been switched off ----

  /** The pass over the given files finds a backend for each. */
  ghost predicate FilesRun(w: World, ids: set<int>, faults: RowFaults<int>, r2Off: bool) {
    faults.query || forall id | id in ids && id in w.db.files :: !NoBackend(w.db.files[id].storage, r2Off)
  }

  ghost predicate UploadsRun(w: World, ids: set<string>, faults: RowFaults<string>, r2Off: bool) {
    faults.query || forall id | id in ids && id in w.db.uploads :: !NoBackend(w.db.uploads[id].storage, r2Off)
  }

  /** The clean-up reaches its end. */
  ghost predicate ComesThrough(w: World, now: int, later: int, faults: Faults, r2Off: bool) {
    var w1 := AfterExpired(w, now, faults);
    var w2 := AfterExhausted(w1, faults);
    && FilesRun(w, ExpiredIds(w, now), faults.expired, r2Off)
    && FilesRun(w1, ExhaustedIds(w1), faults.exhausted, r2Off)
    && UploadsRun(w2, StaleIds(w2, later), faults.stale, r2Off)
  }

  /** The pass has dealt with some of the files, all with a backend, and then met one without. */
  ghost predicate FilesStopped(w: World, w': World, ids: set<int>, faults: RowFaults<int>, r2Off: bool) {
    && !FilesRun(w, ids, faults, r2Off)
    && exists dealt: set<int> | dealt <= ids && dealt <= w.db.files.Keys ::
         w' == DropFiles(w, dealt, faults) && forall id <- dealt :: !NoBackend(w.db.files[id].storage, r2Off)
  }

  ghost predicate UploadsStopped(w: World, w': World, ids: set<string>, faults: RowFaults<string>, r2Off: bool) {
    && !UploadsRun(w, ids, faults, r2Off)
    && exists dealt: set<string> | dealt <= ids && dealt <= w.db.uploads.Keys ::
         w' == DropUploads(w, dealt, faults) && forall id <- dealt :: !NoBackend(w.db.uploads[id].storage, r2Off)
  }

  /** What a clean-up leaves that stops in one of its first three passes. */
  ghost predicate Stopped(w: World, w': World, now: int, later: int, faults: Faults, r2Off: bool) {
    var w1 := AfterExpired(w, now, faults);
    var w2 := AfterExhausted(w1, faults);
    if !FilesRun(w, ExpiredIds(w, now), faults.expired, r2Off)
    then FilesStopped(w, w', ExpiredIds(w, now), faults.expired, r2Off)
    else if !FilesRun(w1, ExhaustedIds(w1), faults.exhausted, r2Off)
    then FilesStopped(w1, w', ExhaustedIds(w1), faults.exhausted, r2Off)
    else UploadsStopped(w2, w', StaleIds(w2, later), faults.stale, r2Off)
  }

  lemma KeyOf<K, V>(table: map<K, V>, row: V) returns (k: K)
    requires row in table.Values
    ensures k in table && table[k] == row
  {
    k :| k in table && table[k] == row;
  }

  /** The rows of a query and the set of their ids. */
  ghost predicate RowsOf(w: World, rows: seq<File>, ids: set<int>) {
    && (forall f <- rows :: f.id in ids && f.id in w.db.files && w.db.files[f.id] == f)
    && forall id <- ids :: id in w.db.files && w.db.files[id] in rows
  }

  lemma FilesFound(w: World, rows: seq<File>, ids: set<int>, faults: RowFaults<int>, r2Off: bool)
    requires Keyed(w.db) && RowsOf(w, rows, ids) && !faults.query
    ensures Ids(rows) == ids
    ensures FilesRun(w, ids, faults, r2Off) <==> forall f <- rows :: !NoBackend(f.storage, r2Off)
    ensures FilesFaultFree(w, ids, faults)
       <==> forall f <- rows :: f.slug !in faults.objects && f.id !in faults.rows
  {
    hide NoBackend;
    forall f | f in rows ensures f.id in ids && w.db.files[f.id] == f {
    }
    assert forall id | id in ids :: w.db.files[id] in rows && w.db.files[id].id == id;
  }

  lemma FilesStopHere(w: World, rows: seq<File>, n: int, w': World, ids: set<int>, faults: RowFaults<int>, r2Off: bool)
    requires RowsOf(w, rows, ids) && !faults.query
    requires StopsAt(FileBackends(rows), n, r2Off) && w' == DropFiles(w, Ids(rows[..n]), faults)
    ensures FilesStopped(w, w', ids, faults, r2Off)
  {
    hide NoBackend, DropFiles;
    assert rows[n] in rows;
    var dealt := Ids(rows[..n]);
    forall id | id in dealt ensures id in ids && id in w.db.files && !NoBackend(w.db.files[id].storage, r2Off) {
      var k :| 0 <= k < n && rows[k].id == id;
      assert rows[k] in rows && FileBackends(rows)[k] == rows[k].storage;
    }
  }

  method DropExpired(s: Server, now: int, faults: Faults, r2Off: bool) returns (failed: bool, through: bool)
    requires Keyed(s.st.State())
    modifies s.st, s.local
    ensures through <==> FilesRun(old(s.State()), ExpiredIds(old(s.State()), now), faults.expired, r2Off)
    ensures through ==> s.State() == AfterExpired(old(s.State()), now, faults)
    ensures through ==>
              (!failed <==> FilesFaultFree(old(s.State()), ExpiredIds(old(s.State()), now), faults.expired))
    ensures !through ==>
              FilesStopped(old(s.State()), s.State(), ExpiredIds(old(s.State()), now), faults.expired, r2Off)
  {
    hide NoBackend, DropFiles, FilesStopped, Ids;
    if faults.expired.query {
      return true, true;
    }
    hide FilesRun, FilesFaultFree;
    ghost var w := s.State();
    var rows := s.st.ListExpiredFiles(now);
    forall f | f in rows ensures f.id in ExpiredIds(w, now) && w.db.files[f.id] == f {
      var id := KeyOf(w.db.files, f);
    }
    assert RowsOf(w, rows, ExpiredIds(w, now));
    failed, through := DeleteFiles(s, rows, faults.expired, r2Off);
    FilesFound(w, rows, ExpiredIds(w, now), faults.expired, r2Off);
    if !through {
      ghost var n :| StopsAt(FileBackends(rows), n, r2Off) && s.State() == DropFiles(w, Ids(rows[..n]), faults.expired);
      FilesStopHere(w, rows, n, s.State(), ExpiredIds(w, now), faults.expired, r2Off);
    }
  }

  method DropExhausted(s: Server, faults: Faults, r2Off: bool) returns (failed: bool, through: bool)
    requires Keyed(s.st.State())
    modifies s.st, s.local
    ensures through <==> FilesRun(old(s.State()), ExhaustedIds(old(s.State())), faults.exhausted, r2Off)
    ensures through ==> s.State() == AfterExhausted(old(s.State()), faults)
    ensures through ==>
              (!failed <==> FilesFaultFree(old(s.State()), ExhaustedIds(old(s.State())), faults.exhausted))
    ensures !through ==>
              FilesStopped(old(s.State()), s.State(), ExhaustedIds(old(s.State())), faults.exhausted, r2Off)
  {
    hide NoBackend, DropFiles, FilesStopped, Ids;
    if faults.exhausted.query {
      return true, true;
    }
    hide FilesRun, FilesFaultFree;
    ghost var w := s.State();
    var rows := s.st.ListExhaustedFiles();
    forall f | f in rows ensures f.id in ExhaustedIds(w) && w.db.files[f.id] == f {
      var id := KeyOf(w.db.files, f);
    }
    assert RowsOf(w, rows, ExhaustedIds(w));
    failed, through := DeleteFiles(s, rows, faults.exhausted, r2Off);
    FilesFound(w, rows, ExhaustedIds(w), faults.exhausted, r2Off);
    if !through {
      ghost var n :|
        StopsAt(FileBackends(rows), n, r2Off) && s.State() == DropFiles(w, Ids(rows[..n]), faults.exhausted);
      FilesStopHere(w, rows, n, s.State(), ExhaustedIds(w), faults.exhausted, r2Off);
    }
  }

  ghost predicate UploadRowsOf(w: World, rows: seq<Upload>, ids: set<string>) {
    && (forall u <- rows :: u.id in ids && u.id in w.db.uploads && w.db.uploads[u.id] == u)
    && forall id <- ids :: id in w.db.uploads && w.db.uploads[id] in rows
  }

  lemma UploadsFound(w: World, rows: seq<Upload>, ids: set<string>, faults: RowFaults<string>, r2Off: bool)
    requires Keyed(w.db) && UploadRowsOf(w, rows, ids) && !faults.query
    ensures UploadIds(rows) == ids
    ensures UploadsRun(w, ids, faults, r2Off) <==> forall u <- rows :: !NoBackend(u.storage, r2Off)
    ensures UploadsFaultFree(w, ids, faults)
       <==> forall u <- rows :: u.slug !in faults.objects && u.id !in faults.rows
  {
    hide NoBackend;
    forall u | u in rows ensures u.id in ids && w.db.uploads[u.id] == u {
    }
    assert forall id | id in ids :: w.db.uploads[id] in rows && w.db.uploads[id].id == id;
  }

  lemma UploadsStopHere(w: World, rows: seq<Upload>, n: int, w': World, ids: set<string>, faults: RowFaults<string>,
                        r2Off: bool)
    requires UploadRowsOf(w, rows, ids) && !faults.query
    requires StopsAt(UploadBackends(rows), n, r2Off) && w' == DropUploads(w, UploadIds(rows[..n]), faults)
    ensures UploadsStopped(w, w', ids, faults, r2Off)
  {
    hide NoBackend, DropUploads;
    assert rows[n] in rows;
    var dealt := UploadIds(rows[..n]);
    forall id | id in dealt ensures id in ids && id in w.db.uploads && !NoBackend(w.db.uploads[id].storage, r2Off) {
      var k :| 0 <= k < n && rows[k].id == id;
      assert rows[k] in rows && UploadBackends(rows)[k] == rows[k].storage;
    }
  }

  method DropStale(s: Server, now: int, faults: Faults, r2Off: bool) returns (failed: bool, through: bool)
    requires Keyed(s.st.State())
    modifies s.st, s.local
    ensures through <==> UploadsRun(old(s.State()), StaleIds(old(s.State()), now), faults.stale, r2Off)
    ensures through ==> s.State() == AfterStale(old(s.State()), now, faults)
    ensures through ==>
              (!failed <==> UploadsFaultFree(old(s.State()), StaleIds(old(s.State()), now), faults.stale))
    ensures !through ==>
              UploadsStopped(old(s.State()), s.State(), StaleIds(old(s.State()), now), faults.stale, r2Off)
  {
    hide NoBackend, DropUploads, UploadsStopped, UploadIds;
    if faults.stale.query {
      return true, true;
    }
    hide UploadsRun, UploadsFaultFree;
    ghost var w := s.State();
    var rows := s.st.ListStaleUploads(now - STALE_UPLOAD_AGE);
    assert forall u :: u in rows <==> u.id in StaleIds(w, now) && w.db.uploads[u.id] == u;
    assert UploadRowsOf(w, rows, StaleIds(w, now)) by {
      forall id | id in StaleIds(w, now) ensures w.db.uploads[id] in rows {
      }
    }
    failed, through := AbortUploads(s, rows, faults.stale, r2Off);
    UploadsFound(w, rows, StaleIds(w, now), faults.stale, r2Off);
    if !through {
      ghost var n :|
        StopsAt(UploadBackends(rows), n, r2Off) && s.State() == DropUploads(w, UploadIds(rows[..n]), faults.stale);
      UploadsStopHere(w, rows, n, s.State(), StaleIds(w, now), faults.stale, r2Off);
    }
  }

  method DropPastes(s: Server, now: int, faults: Faults) returns (failed: bool)
    modifies s.st
    ensures s.State() == AfterPastes(old(s.State()), now, faults)
    ensures !failed <==> !faults.pastes
  {
    if faults.pastes {
      return true;
    }
    s.st.DeleteExpiredPastes(now);
    failed := false;
  }

  /** The five passes in order. Asking a backend that is not there panics, and nothing catches the
      panic: the clean-up stops where it is. */
  method Cleanup(s: Server, now: int, later: int, latest: int, faults: Faults, r2Off: bool)
    returns (failed: bool, through: bool)
    requires Keyed(s.st.State())
    modifies s.st, s.local
    ensures through <==> ComesThrough(old(s.State()), now, later, faults, r2Off)
    ensures through ==> s.State() == CleanupSpec(old(s.State()), now, later, latest, faults)
    ensures through ==> (!failed <==> FaultFree(old(s.State()), now, later, latest, faults))
    ensures !through ==> Stopped(old(s.State()), s.State(), now, later, faults, r2Off)
  {
    hide FilesFaultFree, UploadsFaultFree, OrphansFaultFree, DropOrphans, ExpiredIds, ExhaustedIds, StaleIds, FilesRun,
      UploadsRun, FilesStopped, UploadsStopped, DropFiles, DropUploads;
    var e1, e2, e3;
    failed := false;
    e1, through := DropExpired(s, now, faults, r2Off);
    if !through {
      return;
    }
    KeyedAfterExpired(old(s.State()), now, faults);
    e2, through := DropExhausted(s, faults, r2Off);
    if !through {
      return;
    }
    KeyedAfterExhausted(AfterExpired(old(s.State()), now, faults), faults);
    e3, through := DropStale(s, later, faults, r2Off);
    if !through {
      return;
    }
    var e4 := DropPastes(s, latest, faults);
    var e5 := ReconcileLocalOrphans(s, faults.orphans);
    failed := e1 || e2 || e3 || e4 || e5;
  }

  lemma KeyedAfterExpired(w: World, now: int, faults: Faults)
    requires Keyed(w.db)
    ensures Keyed(AfterExpired(w, now, faults).db)
  {
  }

  lemma KeyedAfterExhausted(w: World, faults: Faults)
    requires Keyed(w.db)
    ensures Keyed(AfterExhausted(w, faults).db)
  {
  }

  // ---- what a clean-up means ----

  /** The unique constraints of the tables. */
  ghost predicate UniqueSlugs(db: Db) {
    && (forall i, j | i in db.uploads && j in db.uploads && db.uploads[i].slug == db.uploads[j].slug :: i == j)
    && (forall i, j | i in db.files && j in db.files && db.files[i].slug == db.files[j].slug :: i == j)
  }

  predicate Dead(f: File, now: int) {
    Expired(f, now) || Exhausted(f)
  }

  /** Started more than three days ago. */
  predicate Stale(u: Upload, now: int) {
    now - u.createdAt > 3 * 24 * 60 * 60
  }

  /** The file under a key is the same in both, or missing in both. */
  ghost predicate SameBytes(before: map<string, seq<Byte>>, after: map<string, seq<Byte>>, key: string) {
    (key in before <==> key in after) && (key in before ==> after[key] == before[key])
  }

  /** Nothing appears and nothing is rewritten. */
  ghost predicate OnlyLoses(w: World, w': World) {
    && (forall id <- w'.db.files :: id in w.db.files && w'.db.files[id] == w.db.files[id])
    && (forall id <- w'.db.uploads :: id in w.db.uploads && w'.db.uploads[id] == w.db.uploads[id])
    && (forall k <- w'.db.parts :: k in w.db.parts && w'.db.parts[k] == w.db.parts[k])
    && (forall key <- w'.disk.objects :: key in w.disk.objects && w'.disk.objects[key] == w.disk.objects[key])
    && (forall key <- w'.disk.tmp :: key in w.disk.tmp && w'.disk.tmp[key] == w.disk.tmp[key])
    && (forall id <- w'.db.pastes :: id in w.db.pastes && w'.db.pastes[id] == w.db.pastes[id])
    && w'.db.nextId == w.db.nextId
  }

  ghost predicate KeepsPastes(w: World, w': World, now: int) {
    forall id <- w.db.pastes | w.db.pastes[id] >= now :: id in w'.db.pastes
  }

  /** Every live file keeps its row and object. */
  ghost predicate KeepsFiles(w: World, w': World, now: int) {
    forall id <- w.db.files | !Dead(w.db.files[id], now) ::
      id in w'.db.files && SameBytes(w.disk.objects, w'.disk.objects, w.db.files[id].slug)
  }

  /** Every young upload keeps its row, its parts and its upload file. */
  ghost predicate KeepsUploads(w: World, w': World, later: int) {
    && (forall id <- w.db.uploads | !Stale(w.db.uploads[id], later) ::
          id in w'.db.uploads && SameBytes(w.disk.tmp, w'.disk.tmp, w.db.uploads[id].slug))
    && (forall k <- w.db.parts | k.0 in w'.db.uploads :: k in w'.db.parts)
  }

  lemma LossesAdd(w: World, w1: World, w2: World)
    requires OnlyLoses(w, w1) && OnlyLoses(w1, w2)
    ensures OnlyLoses(w, w2)
  {
  }

  lemma KeepingFilesAdds(w: World, w1: World, w2: World, now: int)
    requires KeepsFiles(w, w1, now) && KeepsFiles(w1, w2, now) && OnlyLoses(w, w1)
    ensures KeepsFiles(w, w2, now)
  {
    hide Dead;
  }

  lemma FilesPass(w: World, ids: set<int>, faults: RowFaults<int>, now: int)
    requires UniqueSlugs(w.db) && forall id <- ids :: id in w.db.files && Dead(w.db.files[id], now)
    ensures var w' := DropFiles(w, ids, faults);
            && OnlyLoses(w, w') && UniqueSlugs(w'.db) && KeepsFiles(w, w', now)
            && w'.db.uploads == w.db.uploads && w'.db.parts == w.db.parts && w'.disk.tmp == w.disk.tmp
            && w'.db.pastes == w.db.pastes
  {
  }

  lemma ExpiredPass(w: World, now: int, faults: Faults)
    requires UniqueSlugs(w.db)
    ensures var w' := AfterExpired(w, now, faults);
            && OnlyLoses(w, w') && UniqueSlugs(w'.db) && KeepsFiles(w, w', now)
            && w'.db.uploads == w.db.uploads && w'.db.parts == w.db.parts && w'.disk.tmp == w.disk.tmp
            && w'.db.pastes == w.db.pastes
  {
    hide DropFiles;
    FilesPass(w, ExpiredIds(w, now), faults.expired, now);
  }

  lemma ExhaustedPass(w: World, now: int, faults: Faults)
    requires UniqueSlugs(w.db)
    ensures var w' := AfterExhausted(w, faults);
            && OnlyLoses(w, w') && UniqueSlugs(w'.db) && KeepsFiles(w, w', now)
            && w'.db.uploads == w.db.uploads && w'.db.parts == w.db.parts && w'.disk.tmp == w.disk.tmp
            && w'.db.pastes == w.db.pastes
  {
    hide DropFiles;
    FilesPass(w, ExhaustedIds(w), faults.exhausted, now);
  }

  lemma UploadsPass(w: World, ids: set<string>, faults: RowFaults<string>, later: int)
    requires UniqueSlugs(w.db) && forall id <- ids :: id in w.db.uploads && Stale(w.db.uploads[id], later)
    ensures var w' := DropUploads(w, ids, faults);
            && OnlyLoses(w, w') && UniqueSlugs(w'.db) && KeepsUploads(w, w', later)
            && w'.db.files == w.db.files && w'.disk.objects == w.disk.objects && w'.db.pastes == w.db.pastes
  {
  }

  lemma StalePass(w: World, later: int, faults: Faults)
    requires UniqueSlugs(w.db)
    ensures var w' := AfterStale(w, later, faults);
            && OnlyLoses(w, w') && UniqueSlugs(w'.db) && KeepsUploads(w, w', later)
            && w'.db.files == w.db.files && w'.disk.objects == w.disk.objects && w'.db.pastes == w.db.pastes
  {
    hide DropUploads;
    UploadsPass(w, StaleIds(w, later), faults.stale, later);
  }

  lemma PastesPass(w: World, latest: int, faults: Faults)
    ensures var w' := AfterPastes(w, latest, faults);
            && OnlyLoses(w, w') && KeepsPastes(w, w', latest)
            && w'.disk == w.disk && w'.db == w.db.(pastes := w'.db.pastes)
            && (!faults.pastes ==> forall id <- w'.db.pastes :: w'.db.pastes[id] >= latest)
  {
  }

  /** Known objects survive the search for orphans. */
  lemma OrphansPass(w: World, faults: OrphanFaults, now: int)
    ensures var w' := DropOrphans(w, faults);
            && OnlyLoses(w, w') && w'.db == w.db && w'.disk.tmp == w.disk.tmp && KeepsFiles(w, w', now)
  {
    forall id | id in w.db.files ensures Known(w.db, w.db.files[id].slug) {
    }
  }

  /** Whatever fails, a clean-up takes nothing from live files, young uploads and live pastes. */
  lemma CleanupIsSafe(w: World, now: int, later: int, latest: int, faults: Faults)
    requires UniqueSlugs(w.db)
    ensures var w' := CleanupSpec(w, now, later, latest, faults);
            OnlyLoses(w, w') && KeepsFiles(w, w', now) && KeepsUploads(w, w', later) && KeepsPastes(w, w', latest)
  {
    hide AfterExpired, AfterExhausted, AfterStale, AfterPastes, DropOrphans, UniqueSlugs, OnlyLoses, KeepsFiles;
    var w1 := AfterExpired(w, now, faults);
    var w2 := AfterExhausted(w1, faults);
    var w3 := AfterStale(w2, later, faults);
    var w4 := AfterPastes(w3, latest, faults);
    var w5 := DropOrphans(w4, faults.orphans);
    ExpiredPass(w, now, faults);
    ExhaustedPass(w1, now, faults);
    StalePass(w2, later, faults);
    PastesPass(w3, latest, faults);
    OrphansPass(w4, faults.orphans, now);
    LossesAdd(w, w1, w2);
    LossesAdd(w, w2, w3);
    LossesAdd(w, w3, w4);
    LossesAdd(w, w4, w5);
    KeepingFilesAdds(w, w1, w2, now);
    SameFilesKept(w2, w4, now);
    LossesAdd(w2, w3, w4);
    KeepingFilesAdds(w, w2, w4, now);
    KeepingFilesAdds(w, w4, w5, now);
  }

  lemma SameFilesKept(w: World, w': World, now: int)
    requires w'.db.files == w.db.files && w'.disk.objects == w.disk.objects
    ensures KeepsFiles(w, w', now)
  {
  }

  /** When the queries answer, a clean-up comes through exactly when every dead file and every stale
      upload still has its backend. */
  lemma ComesThroughExactlyWhen(w: World, now: int, later: int, faults: Faults, r2Off: bool)
    requires !faults.expired.query && !faults.exhausted.query && !faults.stale.query
    ensures ComesThrough(w, now, later, faults, r2Off)
       <==> (forall id <- w.db.files | Dead(w.db.files[id], now) ::
               w.db.files[id].storage == LocalDisk || (w.db.files[id].storage == R2 && !r2Off))
            && (forall id <- w.db.uploads | Stale(w.db.uploads[id], later) ::
                  w.db.uploads[id].storage == LocalDisk || (w.db.uploads[id].storage == R2 && !r2Off))
  {
    hide NoBackend, Expired, Exhausted;
    BackendIsThere(r2Off);
    var w1 := AfterExpired(w, now, faults);
    var w2 := AfterExhausted(w1, faults);
    assert w2.db.uploads == w.db.uploads;
    forall id | id in w.db.files && Dead(w.db.files[id], now) && NoBackend(w.db.files[id].storage, r2Off)
      ensures !ComesThrough(w, now, later, faults, r2Off)
    {
      if id in ExpiredIds(w, now) {
        assert !FilesRun(w, ExpiredIds(w, now), faults.expired, r2Off);
      } else {
        assert id in w1.db.files && id in ExhaustedIds(w1);
        assert !FilesRun(w1, ExhaustedIds(w1), faults.exhausted, r2Off);
      }
    }
  }

  lemma BackendIsThere(r2Off: bool)
    ensures forall b :: !NoBackend(b, r2Off) <==> b == LocalDisk || (b == R2 && !r2Off)
  {
  }

  /** A clean-up that stops takes nothing from live files, young uploads and pastes either. */
  lemma StoppingIsSafe(w: World, w': World, now: int, later: int, faults: Faults, r2Off: bool)
    requires UniqueSlugs(w.db) && Stopped(w, w', now, later, faults, r2Off)
    ensures OnlyLoses(w, w') && KeepsFiles(w, w', now) && KeepsUploads(w, w', later) && w'.db.pastes == w.db.pastes
  {
    hide AfterExpired, AfterExhausted, FilesRun, UploadsRun, UniqueSlugs, OnlyLoses, KeepsFiles, KeepsUploads,
      NoBackend, DropFiles, DropUploads;
    var w1 := AfterExpired(w, now, faults);
    var w2 := AfterExhausted(w1, faults);
    ExpiredPass(w, now, faults);
    ExhaustedPass(w1, now, faults);
    LossesAdd(w, w1, w2);
    KeepingFilesAdds(w, w1, w2, now);
    if !FilesRun(w, ExpiredIds(w, now), faults.expired, r2Off) {
      FilesStopPass(w, w', ExpiredIds(w, now), faults.expired, now, r2Off);
      SameUploadsKept(w, w', later);
    } else if !FilesRun(w1, ExhaustedIds(w1), faults.exhausted, r2Off) {
      FilesStopPass(w1, w', ExhaustedIds(w1), faults.exhausted, now, r2Off);
      LossesAdd(w, w1, w');
      KeepingFilesAdds(w, w1, w', now);
      SameUploadsKept(w, w', later);
    } else {
      UploadsStopPass(w2, w', later, faults.stale, r2Off);
      LossesAdd(w, w2, w');
      SameFilesKept(w2, w', now);
      KeepingFilesAdds(w, w2, w', now);
      SameBefore(w, w2, w', later);
    }
  }

  lemma FilesStopPass(w: World, w': World, ids: set<int>, faults: RowFaults<int>, now: int, r2Off: bool)
    requires UniqueSlugs(w.db) && FilesStopped(w, w', ids, faults, r2Off)
    requires forall id <- ids :: id in w.db.files && Dead(w.db.files[id], now)
    ensures OnlyLoses(w, w') && KeepsFiles(w, w', now)
    ensures w'.db.uploads == w.db.uploads && w'.db.parts == w.db.parts && w'.disk.tmp == w.disk.tmp
    ensures w'.db.pastes == w.db.pastes
  {
    hide DropFiles, UniqueSlugs, OnlyLoses, KeepsFiles, NoBackend, Dead;
    var dealt: set<int> :| dealt <= ids && w' == DropFiles(w, dealt, faults);
    FilesPass(w, dealt, faults, now);
  }

  lemma UploadsStopPass(w: World, w': World, later: int, faults: RowFaults<string>, r2Off: bool)
    requires UniqueSlugs(w.db) && UploadsStopped(w, w', StaleIds(w, later), faults, r2Off)
    ensures OnlyLoses(w, w') && KeepsUploads(w, w', later)
    ensures w'.db.files == w.db.files && w'.disk.objects == w.disk.objects && w'.db.pastes == w.db.pastes
  {
    hide DropUploads, UniqueSlugs, OnlyLoses, KeepsUploads, NoBackend;
    var dealt: set<string> :| dealt <= StaleIds(w, later) && w' == DropUploads(w, dealt, faults);
    UploadsPass(w, dealt, faults, later);
  }

  lemma SameUploadsKept(w: World, w': World, later: int)
    requires w'.db.uploads == w.db.uploads && w'.db.parts == w.db.parts && w'.disk.tmp == w.disk.tmp
    ensures KeepsUploads(w, w', later)
  {
  }

  lemma SameBefore(w: World, w2: World, w': World, later: int)
    requires w2.db.uploads == w.db.uploads && w2.db.parts == w.db.parts && w2.disk.tmp == w.disk.tmp
    requires KeepsUploads(w2, w', later)
    ensures KeepsUploads(w, w', later)
  {
  }

  /** A clean-up that has stopped leaves the row it stopped at, so while the object store is off every
      later clean-up stops too, and what the later passes would do is not done any more. */
  lemma StoppedStaysStopped(w: World, w': World, now: int, later: int, faults: Faults, now': int, later': int,
                            faults': Faults, r2Off: bool)
    requires Stopped(w, w', now, later, faults, r2Off) && now <= now' && later <= later'
    requires !faults'.expired.query && !faults'.exhausted.query && !faults'.stale.query
    ensures !ComesThrough(w', now', later', faults', r2Off)
  {
    hide NoBackend, ComesThrough, AfterExpired, AfterExhausted;
    BackendIsThere(r2Off);
    ComesThroughExactlyWhen(w', now', later', faults', r2Off);
    var w1 := AfterExpired(w, now, faults);
    var w2 := AfterExhausted(w1, faults);
    if !FilesRun(w, ExpiredIds(w, now), faults.expired, r2Off) {
      var id :| id in ExpiredIds(w, now) && NoBackend(w.db.files[id].storage, r2Off);
      assert id in w'.db.files && w'.db.files[id] == w.db.files[id];
    } else if !FilesRun(w1, ExhaustedIds(w1), faults.exhausted, r2Off) {
      var id :| id in ExhaustedIds(w1) && NoBackend(w1.db.files[id].storage, r2Off);
      assert id in w'.db.files && w'.db.files[id] == w1.db.files[id];
    } else {
      var id :| id in StaleIds(w2, later) && NoBackend(w2.db.uploads[id].storage, r2Off);
      assert id in w'.db.uploads && w'.db.uploads[id] == w2.db.uploads[id];
    }
  }

  /** A clean-up without errors is exact, from any state of the tables and the disk: exactly the
      dead files and stale uploads are gone, and every finished object has a row. */
  lemma ErrorFreeIsExact(w: World, now: int, later: int, latest: int, faults: Faults)
    requires UniqueSlugs(w.db) && FaultFree(w, now, later, latest, faults)
    ensures var w' := CleanupSpec(w, now, later, latest, faults);
            && OnlyLoses(w, w') && KeepsFiles(w, w', now) && KeepsUploads(w, w', later)
            && (forall id <- w.db.pastes :: id in w'.db.pastes <==> w.db.pastes[id] >= latest)
            && (forall id <- w.db.files :: id in w'.db.files <==> !Dead(w.db.files[id], now))
            && (forall id <- w.db.uploads :: id in w'.db.uploads <==> !Stale(w.db.uploads[id], later))
            && (forall key <- w'.disk.objects :: Known(w'.db, key))
  {
    CleanupIsSafe(w, now, later, latest, faults);
    hide Known, KeepsFiles, KeepsUploads, UniqueSlugs, SameBytes;
    var w1 := AfterExpired(w, now, faults);
    var w2 := AfterExhausted(w1, faults);
    var w3 := AfterStale(w2, later, faults);
    var w4 := AfterPastes(w3, latest, faults);
    PastesPass(w3, latest, faults);
    var w' := DropOrphans(w4, faults.orphans);
    assert forall key <- w'.disk.objects :: Known(w4.db, key);
  }

  lemma NoDeadFiles(w: World, now: int, faults: Faults)
    requires forall id <- w.db.files :: !Dead(w.db.files[id], now)
    ensures AfterExpired(w, now, faults) == w && AfterExhausted(w, faults) == w
  {
    var w1 := AfterExpired(w, now, faults);
    assert w1.db.files == w.db.files && w1.disk.objects == w.disk.objects;
    var w2 := AfterExhausted(w, faults);
    assert w2.db.files == w.db.files && w2.disk.objects == w.disk.objects;
  }

  lemma NoStaleUploads(w: World, later: int, faults: Faults)
    requires forall id <- w.db.uploads :: !Stale(w.db.uploads[id], later)
    ensures AfterStale(w, later, faults) == w
  {
    var w3 := AfterStale(w, later, faults);
    assert w3.db.uploads == w.db.uploads && w3.db.parts == w.db.parts && w3.disk.tmp == w.disk.tmp;
  }

  lemma NoOldPastes(w: World, latest: int, faults: Faults)
    requires forall id <- w.db.pastes :: w.db.pastes[id] >= latest
    ensures AfterPastes(w, latest, faults) == w
  {
    var kept := AfterPastes(w, latest, faults).db.pastes;
    assert forall id <- w.db.pastes :: w.db.pastes[id] >= latest && id in kept;
    assert kept == w.db.pastes;
  }

  lemma NoOrphans(w: World, faults: OrphanFaults)
    requires forall key <- w.disk.objects :: Known(w.db, key)
    ensures DropOrphans(w, faults) == w
  {
    assert DropOrphans(w, faults).disk.objects == w.disk.objects;
  }

  /** A clean-up with nothing to do changes nothing. */
  lemma NothingToDo(w: World, now: int, later: int, latest: int, faults: Faults)
    requires forall id <- w.db.files :: !Dead(w.db.files[id], now)
    requires forall id <- w.db.uploads :: !Stale(w.db.uploads[id], later)
    requires forall id <- w.db.pastes :: w.db.pastes[id] >= latest
    requires forall key <- w.disk.objects :: Known(w.db, key)
    ensures CleanupSpec(w, now, later, latest, faults) == w
  {
    hide Known, Dead, Stale, AfterExpired, AfterExhausted, AfterStale, AfterPastes, DropOrphans;
    NoDeadFiles(w, now, faults);
    NoStaleUploads(w, later, faults);
    NoOldPastes(w, latest, faults);
    NoOrphans(w, faults.orphans);
  }

  /** Cleaning up twice with the same clock is cleaning up once. */
  lemma CleanupIsIdempotent(w: World, now: int, later: int, latest: int, faults: Faults, again: Faults)
    requires UniqueSlugs(w.db) && FaultFree(w, now, later, latest, faults)
    ensures var w' := CleanupSpec(w, now, later, latest, faults); CleanupSpec(w', now, later, latest, again) == w'
  {
    hide CleanupSpec, FaultFree, Known, Dead, Stale;
    ErrorFreeIsExact(w, now, later, latest, faults);
    NothingToDo(CleanupSpec(w, now, later, latest, faults), now, later, latest, again);
  }

  /** A dead local file answers for the object under its slug. */
  ghost predicate DeadOwner(db: Db, key: string, now: int) {
    exists id | id in db.files :: Dead(db.files[id], now) && db.files[id].storage.LocalDisk? && db.files[id].slug == key
  }

  /** After a clean-up without errors exactly those objects are left that have a row and were not
      a dead file's; so an object renamed into place just before a crash stays as long as its
      upload row does, and goes together with it. */
  lemma ObjectsLeftExactly(w: World, now: int, later: int, latest: int, faults: Faults)
    requires UniqueSlugs(w.db) && FaultFree(w, now, later, latest, faults)
    ensures var w' := CleanupSpec(w, now, later, latest, faults);
            forall key <- w.disk.objects :: key in w'.disk.objects <==> Known(w'.db, key) && !DeadOwner(w.db, key, now)
  {
    hide Known, UniqueSlugs, Expired, Exhausted;
    var w1 := AfterExpired(w, now, faults);
    var w2 := AfterExhausted(w1, faults);
    forall key | key in w.disk.objects ensures key in w2.disk.objects <==> !DeadOwner(w.db, key, now) {
      if DeadOwner(w.db, key, now) {
        var id :| id in w.db.files && Dead(w.db.files[id], now) && w.db.files[id].storage.LocalDisk?
                  && w.db.files[id].slug == key;
        if id in ExpiredIds(w, now) {
          assert ObjectDropped(w, ExpiredIds(w, now), faults.expired, key);
        } else {
          assert id in w1.db.files && id in ExhaustedIds(w1);
          assert ObjectDropped(w1, ExhaustedIds(w1), faults.exhausted, key);
        }
      }
    }
  }

  // ---- within the runs of the lifecycle ----

  lemma ApartIsUnique(db: Db)
    requires L.SlugsApart(db)
    ensures UniqueSlugs(db)
  {
  }

  lemma FewerRows(db: Db, db': Db, src: L.Sources)
    requires L.Rows(db, src) && L.SlugsApart(db) && db'.nextId == db.nextId
    requires forall id <- db'.files :: id in db.files && db'.files[id] == db.files[id]
    requires forall id <- db'.uploads :: id in db.uploads && db'.uploads[id] == db.uploads[id]
    requires forall k <- db'.parts :: k in db.parts && k.0 in db'.uploads
    ensures L.Rows(db', src) && L.SlugsApart(db')
  {
  }

  lemma PartsFollow(w: World, now: int, later: int, latest: int, faults: Faults)
    requires forall k <- w.db.parts :: k.0 in w.db.uploads
    ensures forall k <- CleanupSpec(w, now, later, latest, faults).db.parts ::
              k.0 in CleanupSpec(w, now, later, latest, faults).db.uploads
  {
  }

  /** Good states stay good through a clean-up without errors. */
  lemma CleanupKeepsInv(h: L.History, now: int, later: int, latest: int, faults: Faults, src: L.Sources)
    requires L.Inv(h, src) && FaultFree(h.world, now, later, latest, faults)
    ensures L.Inv(h.(world := CleanupSpec(h.world, now, later, latest, faults)), src)
  {
    hide CleanupSpec, FaultFree, L.Received, UniqueSlugs, Dead, Stale, Known, L.FinishedFile, L.UploadFile;
    var w := h.world;
    var w' := CleanupSpec(w, now, later, latest, faults);
    var h' := h.(world := w');
    ApartIsUnique(w.db);
    ErrorFreeIsExact(w, now, later, latest, faults);
    ObjectsLeftExactly(w, now, later, latest, faults);
    PartsFollow(w, now, later, latest, faults);
    FewerRows(w.db, w'.db, src);
    forall id | id in w'.db.uploads ensures L.UploadFile(w', w'.db.uploads[id], src) {
      L.UploadFileFrame(w, w', w.db.uploads[id], src);
    }
    forall id | id in w'.db.files ensures L.FinishedFile(h', w'.db.files[id], src) {
      L.FinishedFileFrame(h, h', w.db.files[id], src);
    }
    forall slug | slug in w'.disk.objects ensures L.LocalFile(w'.db, slug) {
      ObjectOwnerStays(w, now, w'.db, slug);
    }
  }

  lemma ObjectOwnerStays(w: World, now: int, db': Db, slug: string)
    requires L.LocalFile(w.db, slug) && !DeadOwner(w.db, slug, now)
    requires forall id <- w.db.files :: !Dead(w.db.files[id], now) ==>
              id in db'.files && db'.files[id] == w.db.files[id]
    ensures L.LocalFile(db', slug)
  {
    hide Dead;
    var id :| id in w.db.files && w.db.files[id].slug == slug && w.db.files[id].storage.LocalDisk?;
    assert id in db'.files && db'.files[id].slug == slug;
  }
}
