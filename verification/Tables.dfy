/** The metadata tables with their unique, primary-key and cascade constraints. */
module Tables {

  datatype Backend = LocalDisk | R2 | Unknown

  datatype Upload = Upload(
    id: string, slug: string, name: string, size: int, chunkSize: int, totalChunks: int, storage: Backend,
    providerID: string, passwordHash: string, expiresIn: int, maxDownloads: int, createdAt: int)

  datatype File = File(
    id: int, slug: string, name: string, size: int, storage: Backend, contentType: string, passwordHash: string,
    createdAt: int, expiresAt: int, downloads: int, maxDownloads: int)

  datatype Part = Part(idx: int, etag: string)

  /** The tables; of a paste only its id and expiry. */
  datatype Db = Db(
    uploads: map<string, Upload>, parts: map<(string, int), string>, files: map<int, File>, nextId: int,
    pastes: map<int, int>)

  datatype DbResult = Done | UniqueViolation | Failed

  predicate UploadSlugTaken(db: Db, slug: string) {
    exists id | id in db.uploads :: db.uploads[id].slug == slug
  }

  predicate FileSlugTaken(db: Db, slug: string) {
    exists id | id in db.files :: db.files[id].slug == slug
  }

  function WithoutUpload(db: Db, id: string): Db {
    db.(uploads := db.uploads - {id}, parts := map k | k in db.parts && k.0 != id :: db.parts[k])
  }

  // ---- the row tests of the queries ----

  predicate Expired(f: File, now: int) {
    f.expiresAt > 0 && f.expiresAt < now
  }

  predicate Exhausted(f: File) {
    f.maxDownloads > 0 && f.downloads >= f.maxDownloads
  }

  predicate HasSlot(f: File) {
    f.maxDownloads == 0 || f.downloads < f.maxDownloads
  }

  function Counted(f: File): File {
    f.(downloads := f.downloads + 1)
  }

  function Patched(f: File, expiresAt: int, passwordHash: string, maxDownloads: int): File {
    f.(expiresAt := expiresAt, passwordHash := passwordHash, maxDownloads := maxDownloads)
  }

  /** The sorted list of an upload's parts. */
  ghost predicate IsPartList(db: Db, id: string, list: seq<Part>) {
    && (forall i, j | 0 <= i < j < |list| :: list[i].idx < list[j].idx)
    && (forall i | 0 <= i < |list| :: (id, list[i].idx) in db.parts && db.parts[(id, list[i].idx)] == list[i].etag)
    && (forall idx | (id, idx) in db.parts :: exists i :: 0 <= i < |list| && list[i].idx == idx)
  }

  /** The keys whose rows pass a test. */
  function Passing<K(==), V(==)>(table: map<K, V>, keep: V -> bool): set<K> {
    set k | k in table && keep(table[k])
  }

  lemma OneMorePassing<K, V>(table: map<K, V>, keep: V -> bool, rest: set<K>, k: K)
    requires k in rest && rest <= table.Keys
    ensures |Passing(table, keep) - (rest - {k})|
         == |Passing(table, keep) - rest| + (if keep(table[k]) then 1 else 0)
  {
    if keep(table[k]) {
      assert Passing(table, keep) - (rest - {k}) == (Passing(table, keep) - rest) + {k};
    } else {
      assert Passing(table, keep) - (rest - {k}) == Passing(table, keep) - rest;
    }
  }

  lemma AllPassing<K, V>(table: map<K, V>, keep: V -> bool)
    ensures Passing(table, keep) - table.Keys == {} && Passing(table, keep) - {} == Passing(table, keep)
  {
  }

  /** A query: the rows that pass a test, each once, in some order. */
  method Scan<K(==), V(==)>(table: map<K, V>, keep: V -> bool) returns (rows: seq<V>)
    ensures forall k <- table :: keep(table[k]) ==> table[k] in rows
    ensures forall i | 0 <= i < |rows| :: rows[i] in table.Values && keep(rows[i])
    ensures |rows| == |Passing(table, keep)|
  {
    hide Passing;
    rows := [];
    var rest := table.Keys;
    AllPassing(table, keep);
    while rest != {}
      invariant rest <= table.Keys
      invariant |rows| == |Passing(table, keep) - rest|
      invariant forall i | 0 <= i < |rows| :: rows[i] in table.Values && keep(rows[i])
      invariant forall k <- table :: k in rest || (keep(table[k]) ==> table[k] in rows)
      decreases rest
    {
      var k :| k in rest;
      OneMorePassing(table, keep, rest, k);
      if keep(table[k]) {
        rows := rows + [table[k]];
      }
      rest := rest - {k};
    }
  }

  class Store {
    var uploads: map<string, Upload>
    var parts: map<(string, int), string>
    var files: map<int, File>
    var nextId: int
    var pastes: map<int, int>

    ghost function State(): Db
      reads this
    {
      Db(uploads, parts, files, nextId, pastes)
    }

    constructor ()
      ensures State() == Db(map[], map[], map[], 1, map[])
    {
      uploads, parts, files, nextId, pastes := map[], map[], map[], 1, map[];
    }

    /** A lookup that fails finds nothing. */
    method SlugInFiles(slug: string, fault: bool) returns (taken: bool)
      ensures taken == (!fault && FileSlugTaken(State(), slug))
    {
      taken := !fault && exists id | id in files :: files[id].slug == slug;
    }

    method CreateUpload(u: Upload, fault: bool) returns (result: DbResult)
      modifies this
      ensures result == if fault then Failed
                        else if u.id in old(uploads) || UploadSlugTaken(old(State()), u.slug) then UniqueViolation
                        else Done
      ensures State() == if result.Done? then old(State()).(uploads := old(uploads)[u.id := u]) else old(State())
    {
      if fault {
        return Failed;
      }
      if u.id in uploads || (exists id | id in uploads :: uploads[id].slug == u.slug) {
        return UniqueViolation;
      }
      uploads := uploads[u.id := u];
      result := Done;
    }

    method DeleteUpload(id: string)
      modifies this
      ensures State() == WithoutUpload(old(State()), id)
    {
      uploads := uploads - {id};
      parts := map k | k in parts && k.0 != id :: parts[k];
    }

    method PutPart(id: string, idx: int, etag: string)
      modifies this
      ensures State() == old(State()).(parts := old(parts)[(id, idx) := etag])
    {
      parts := parts[(id, idx) := etag];
    }

    method ListParts(id: string) returns (list: seq<Part>)
      ensures IsPartList(State(), id, list)
    {
      list := [];
      var rest := set k | k in parts && k.0 == id :: k.1;
      while rest != {}
        invariant forall idx <- rest :: (id, idx) in parts
        invariant forall i, j | 0 <= i < j < |list| :: list[i].idx < list[j].idx
        invariant forall i | 0 <= i < |list| :: (id, list[i].idx) in parts && parts[(id, list[i].idx)] == list[i].etag
        invariant forall i, idx | 0 <= i < |list| && idx in rest :: list[i].idx < idx
        invariant forall idx | (id, idx) in parts :: idx in rest || exists i :: 0 <= i < |list| && list[i].idx == idx
        decreases rest
      {
        ghost var m := HasLeast(rest);
        assert m in rest && forall x <- rest :: m <= x;
        var least :| least in rest && forall x <- rest :: least <= x;
        ghost var before := list;
        list := list + [Part(least, parts[(id, least)])];
        assert list[|before|].idx == least;
        assert forall i | 0 <= i < |before| :: list[i] == before[i];
        rest := rest - {least};
      }
    }

    /** Inserts the file row and drops the upload row in one transaction. */
    method FinalizeUpload(f: File, uploadID: string, fault: bool) returns (result: DbResult)
      modifies this
      ensures result == if fault then Failed else if FileSlugTaken(old(State()), f.slug) then UniqueViolation else Done
      ensures State() == if result.Done?
                         then WithoutUpload(old(State()), uploadID).(
                                files := old(files)[old(nextId) := f.(id := old(nextId))], nextId := old(nextId) + 1)
                         else old(State())
    {
      if fault {
        return Failed;
      }
      if exists id | id in files :: files[id].slug == f.slug {
        return UniqueViolation;
      }
      files := files[nextId := f.(id := nextId)];
      nextId := nextId + 1;
      DeleteUpload(uploadID);
      result := Done;
    }

    method DeleteFile(id: int)
      modifies this
      ensures State() == old(State()).(files := old(files) - {id})
    {
      files := files - {id};
    }

    method UpdateFile(id: int, expiresAt: int, passwordHash: string, maxDownloads: int)
      modifies this
      ensures State() == if id in old(files)
                         then old(State()).(files :=
                                old(files)[id := Patched(old(files)[id], expiresAt, passwordHash, maxDownloads)])
                         else old(State())
    {
      if id in files {
        files := files[id := Patched(files[id], expiresAt, passwordHash, maxDownloads)];
      }
    }

    method DeleteExpiredPastes(now: int)
      modifies this
      ensures State()
           == old(State()).(pastes := map id | id in old(pastes) && old(pastes)[id] >= now :: old(pastes)[id])
    {
      pastes := map id | id in pastes && pastes[id] >= now :: pastes[id];
    }

    /** One conditional update: counts a download only while a slot is left. */
    method TryIncrementDownloads(id: int) returns (ok: bool)
      modifies this
      ensures ok == (id in old(files) && HasSlot(old(files)[id]))
      ensures State() == if ok then old(State()).(files := old(files)[id := Counted(old(files)[id])]) else old(State())
    {
      ok := id in files && HasSlot(files[id]);
      if ok {
        files := files[id := Counted(files[id])];
      }
    }

    method KnownObjectSlugs() returns (known: set<string>)
      ensures forall slug :: slug in known <==> FileSlugTaken(State(), slug) || UploadSlugTaken(State(), slug)
    {
      known := (set id | id in files :: files[id].slug) + (set id | id in uploads :: uploads[id].slug);
    }

    method ListExpiredFiles(now: int) returns (rows: seq<File>)
      ensures forall f :: f in rows <==> f in files.Values && Expired(f, now)
      ensures |rows| == |set id | id in files && Expired(files[id], now)|
    {
      rows := Scan(files, f => Expired(f, now));
      assert Passing(files, f => Expired(f, now)) == set id | id in files && Expired(files[id], now);
    }

    method ListExhaustedFiles() returns (rows: seq<File>)
      ensures forall f :: f in rows <==> f in files.Values && Exhausted(f)
      ensures |rows| == |set id | id in files && Exhausted(files[id])|
    {
      rows := Scan(files, Exhausted);
      assert Passing(files, Exhausted) == set id | id in files && Exhausted(files[id]);
    }

    method ListStaleUploads(cutoff: int) returns (rows: seq<Upload>)
      ensures forall u :: u in rows <==> u in uploads.Values && u.createdAt < cutoff
      ensures |rows| == |set id | id in uploads && uploads[id].createdAt < cutoff|
    {
      rows := Scan(uploads, (u: Upload) => u.createdAt < cutoff);
      assert Passing(uploads, (u: Upload) => u.createdAt < cutoff)
          == set id | id in uploads && uploads[id].createdAt < cutoff;
    }
  }

  lemma Element<T>(s: set<T>) returns (x: T)
    requires s != {}
    ensures x in s
  {
    x :| x in s;
  }

  predicate IsLeast(m: int, s: set<int>) {
    m in s && forall x <- s :: m <= x
  }

  lemma {:induction false} HasLeast(s: set<int>) returns (m: int)
    requires s != {}
    ensures IsLeast(m, s)
    decreases s
  {
    var x := Element(s);
    m := x;
    if s != {x} {
      var t := s - {x};
      assert s == t + {x};
      assert t != {};
      var y := HasLeast(t);
      m := if y < x then y else x;
    }
  }
}
