/** Starting an upload as the separate steps it is made of, so that other requests come between the
    tests, the upload file and the row. */
module Inits {
  import opened Bits
  import opened Chunks
  import opened Storage
  import opened Tables
  import opened Handlers
  import opened Wrappers
  import L = Lifecycle

  // ---- the steps of one init ----

  /** The tests that come before anything is changed. */
  predicate Checked(w: World, req: InitRequest, env: InitEnv) {
    WellFormed(req, env) && !SlugRefused(w, req, env) && !DiskFull(req, env) && !env.hashFails
  }

  /** How many zeros the file step puts under the slug. */
  function ZerosPut(u: Upload, env: InitEnv): Option<nat>
    requires u.size >= 0
  {
    if !u.storage.LocalDisk? || env.createFails then None
    else if env.truncateFails then Some(0)
    else Some(u.size)
  }

  /** The file step, and whether it succeeds. */
  function Touched(w: World, u: Upload, env: InitEnv): (World, bool)
    requires u.size >= 0
  {
    (if ZerosPut(u, env).Some?
     then w.(disk := w.disk.(tmp := w.disk.tmp[u.slug := Blank(ZerosPut(u, env).value)]))
     else w,
     if u.storage.LocalDisk? then !env.createFails && !env.truncateFails
     else u.storage.R2? ==> env.r2Provider.Some?)
  }

  /** The row step; a refused row removes the upload file. */
  function Inserted(w: World, u: Upload, env: InitEnv): (World, Status) {
    if RowRefused(w.db, u.id, u.slug, env) then
      (if u.storage.LocalDisk? && !env.abortFails then w.(disk := w.disk.(tmp := w.disk.tmp - {u.slug})) else w,
       if env.dbFails then Internal else Conflict)
    else (w.(db := w.db.(uploads := w.db.uploads[u.id := u])), Ok)
  }

  /** With nothing in between the steps are the handler. */
  lemma StepsAreInit(w: World, req: InitRequest, env: InitEnv)
    requires ChunkSetting(env.chunkSetting)
    ensures !Checked(w, req, env) ==> InitSpec(w, req, env).0 == w && !InitSpec(w, req, env).1.Ok?
    ensures Checked(w, req, env) ==>
              && NewUpload(req, env).size >= 0
              && (var (w1, ready) := Touched(w, NewUpload(req, env), env);
                  InitSpec(w, req, env) == if ready then Inserted(w1, NewUpload(req, env), env) else (w1, Internal))
  {
    hide SlugSyntax, Wrap, FileSlugTaken, UploadSlugTaken, ChosenChunkSize, Blank;
    ChosenChunkSizeInRange(req, env);
    if Checked(w, req, env) {
      var u := NewUpload(req, env);
      assert NothingIn() == [];
      assert w.disk.tmp[u.slug := Blank(u.size)] - {u.slug} == w.disk.tmp - {u.slug};
    }
  }

  function NothingIn(): (s: seq<Byte>)
    ensures s == [] == Blank(0)
  {
    []
  }

  // ---- runs of interleaved steps ----

  /** A step of some init, or a whole request of another kind. */
  datatype Step = Touch(u: Upload, env: InitEnv) | Insert(u: Upload, env: InitEnv) | Other(step: L.Step)

  ghost function Next(h: L.History, step: Step): L.History
    requires L.WellKeyed(h.world.db) && (step.Touch? ==> step.u.size >= 0)
    requires step.Other? && step.step.Init? ==> ChunkSetting(step.step.env.chunkSetting)
  {
    match step
    case Touch(u, env) => h.(world := Touched(h.world, u, env).0)
    case Insert(u, env) => h.(world := Inserted(h.world, u, env).0)
    case Other(s) => L.Next(h, s)
  }

  /** The upload file under the slug, if there is one, is not longer than the upload. */
  predicate TmpFits(w: World, u: Upload) {
    u.storage.LocalDisk? && u.slug in w.disk.tmp ==> |w.disk.tmp[u.slug]| <= u.size
  }

  /** The file step puts no zeros that do not fit the local upload under its slug; no row is accepted
      under a file's slug or over a file that is too long. */
  ghost predicate Honest(w: World, step: Step, src: L.Sources) {
    match step
    case Touch(u, env) =>
      && L.UploadRow(u, src)
      && (ZerosPut(u, env).Some? ==> L.ZerosFit(w.db, u.slug, ZerosPut(u, env).value, src))
    case Insert(u, env) =>
      && L.UploadRow(u, src)
      && (!RowRefused(w.db, u.id, u.slug, env) ==> !FileSlugTaken(w.db, u.slug) && TmpFits(w, u))
    case Other(s) => L.Honest(w, s, src)
  }

  /** The file step keeps the invariant exactly when its zeros fit. */
  lemma TouchKeepsExactlyWhen(h: L.History, u: Upload, env: InitEnv, src: L.Sources)
    requires L.Inv(h, src) && u.size >= 0
    ensures L.WellKeyed(h.world.db)
    ensures L.Inv(Next(h, Touch(u, env)), src)
       <==> (ZerosPut(u, env).Some? ==> L.ZerosFit(h.world.db, u.slug, ZerosPut(u, env).value, src))
  {
    hide L.Rows, L.SlugsApart, L.UploadFiles, L.FinishedFiles, L.ZerosFit, Blank;
    L.RowsAreKeyed(h.world.db, src);
    var h' := Next(h, Touch(u, env));
    L.FinishedFrame(h, h', src);
    if ZerosPut(u, env).Some? {
      L.ZerosKeepExactlyWhen(h.world, h'.world, u.slug, ZerosPut(u, env).value, src);
    }
  }

  /** The row step keeps the invariant exactly when it is refused, or no file has the slug and the
      upload file is not too long. */
  lemma InsertKeepsExactlyWhen(h: L.History, u: Upload, env: InitEnv, src: L.Sources)
    requires L.Inv(h, src) && L.UploadRow(u, src)
    ensures L.WellKeyed(h.world.db)
    ensures L.Inv(Next(h, Insert(u, env)), src)
       <==> RowRefused(h.world.db, u.id, u.slug, env) || (!FileSlugTaken(h.world.db, u.slug) && TmpFits(h.world, u))
  {
    hide L.Rows, L.SlugsApart, L.UploadFiles, L.FinishedFiles, L.UploadRow, FileSlugTaken, TmpFits, UploadSlugTaken;
    L.RowsAreKeyed(h.world.db, src);
    var h' := Next(h, Insert(u, env));
    L.FinishedFrame(h, h', src);
    if RowRefused(h.world.db, u.id, u.slug, env) {
      L.LoseUploadFile(h.world, h'.world, u.slug, src);
    } else {
      RowsAdded(h.world, h'.world, u, src);
      SlugsAddedExactlyWhen(h.world.db, h'.world.db, u);
      FilesAddedExactlyWhen(h.world, h'.world, u, src);
    }
  }

  lemma RowsAdded(w: World, w': World, u: Upload, src: L.Sources)
    requires L.Rows(w.db, src) && L.UploadRow(u, src) && u.id !in w.db.uploads
    requires w'.db == w.db.(uploads := w.db.uploads[u.id := u])
    ensures L.Rows(w'.db, src)
  {
    hide ChunkCount;
  }

  lemma SlugsAddedExactlyWhen(db: Db, db': Db, u: Upload)
    requires L.SlugsApart(db) && !UploadSlugTaken(db, u.slug) && u.id !in db.uploads
    requires db' == db.(uploads := db.uploads[u.id := u])
    ensures L.SlugsApart(db') <==> !FileSlugTaken(db, u.slug)
  {
    if FileSlugTaken(db, u.slug) {
      var id :| id in db.files && db.files[id].slug == u.slug;
      assert db'.uploads[u.id].slug == db'.files[id].slug;
    } else {
      L.AddSlug(db, db', u);
    }
  }

  lemma FilesAddedExactlyWhen(w: World, w': World, u: Upload, src: L.Sources)
    requires L.Rows(w.db, src) && L.Rows(w'.db, src) && L.UploadFiles(w, src) && L.UploadRow(u, src)
    requires u.id !in w.db.uploads && w' == w.(db := w.db.(uploads := w.db.uploads[u.id := u]))
    ensures L.UploadFiles(w', src) <==> TmpFits(w, u)
  {
    hide ChunkCount, L.UploadFile;
    L.FreshId(w.db, u.id, src);
    NewFileFitsExactlyWhen(w', u, src);
    forall id | id in w.db.uploads ensures L.UploadFile(w', w.db.uploads[id], src) {
      L.UploadFileFrame(w, w', w.db.uploads[id], src);
    }
    assert w'.db.uploads[u.id] == u;
  }

  lemma NewFileFitsExactlyWhen(w: World, u: Upload, src: L.Sources)
    requires L.UploadRow(u, src) && forall k <- w.db.parts :: k.0 != u.id
    ensures L.UploadFile(w, u, src) <==> TmpFits(w, u)
  {
  }

  /** An init under a slug that neither a file nor an upload has meets both conditions. */
  lemma UnusedSlugIsHonest(w: World, req: InitRequest, env: InitEnv, src: L.Sources)
    requires L.Rows(w.db, src) && ChunkSetting(env.chunkSetting) && Int64(req.size) && Checked(w, req, env)
    requires |src(env.id)| == req.size
    requires !UploadSlugTaken(w.db, ChosenSlug(req, env)) && !FileSlugTaken(w.db, ChosenSlug(req, env))
    ensures NewUpload(req, env).size >= 0
    ensures var u := NewUpload(req, env);
            && Honest(w, Touch(u, env), src)
            && (Touched(w, u, env).1 ==> Honest(Touched(w, u, env).0, Insert(u, env), src))
  {
    hide SlugSyntax, ChunkCount, AutoChunkSize, L.Rows;
    ChosenChunkSizeInRange(req, env);
  }

  lemma StepKeeps(h: L.History, step: Step, src: L.Sources)
    requires L.Inv(h, src) && Honest(h.world, step, src)
    ensures L.WellKeyed(h.world.db) && (step.Touch? ==> step.u.size >= 0)
    ensures step.Other? && step.step.Init? ==> ChunkSetting(step.step.env.chunkSetting)
    ensures L.Inv(Next(h, step), src)
  {
    hide L.Inv, L.ZerosFit, RowRefused, TmpFits;
    L.InvIsKeyed(h, src);
    match step
    case Touch(u, env) => TouchKeepsExactlyWhen(h, u, env, src);
    case Insert(u, env) => InsertKeepsExactlyWhen(h, u, env, src);
    case Other(s) => L.StepKeeps(h, s, src);
  }

  ghost predicate HonestRun(h: L.History, steps: seq<Step>, src: L.Sources)
    requires L.Inv(h, src)
    decreases |steps|
  {
    steps == [] ||
    (Honest(h.world, steps[0], src) &&
     (StepKeeps(h, steps[0], src); HonestRun(Next(h, steps[0]), steps[1..], src)))
  }

  /** Every honest interleaving ends in a good state: each local file's object is its source. */
  ghost function After(h: L.History, steps: seq<Step>, src: L.Sources): (r: L.History)
    requires L.Inv(h, src) && HonestRun(h, steps, src)
    ensures L.Inv(r, src)
    decreases |steps|
  {
    if steps == [] then h
    else
      StepKeeps(h, steps[0], src);
      After(Next(h, steps[0]), steps[1..], src)
  }

  lemma ContentIsSource(steps: seq<Step>, src: L.Sources)
    requires L.Inv(L.Start(), src) && HonestRun(L.Start(), steps, src)
    ensures var h := After(L.Start(), steps, src);
            var w := h.world;
            && L.SlugsApart(w.db)
            && (forall id <- w.db.files | w.db.files[id].storage.LocalDisk? ::
                  && w.db.files[id].slug in w.disk.objects && id in h.origin
                  && w.disk.objects[w.db.files[id].slug] == src(h.origin[id])
                  && |src(h.origin[id])| == w.db.files[id].size)
  {
    hide L.Rows, L.UploadFiles, After, HonestRun, L.SlugsApart;
    var h := After(L.Start(), steps, src);
    var w := h.world;
    L.InvIsKeyed(h, src);
    forall id | id in w.db.files && w.db.files[id].storage.LocalDisk?
      ensures w.db.files[id].slug in w.disk.objects && id in h.origin
      ensures w.disk.objects[w.db.files[id].slug] == src(h.origin[id])
      ensures |src(h.origin[id])| == w.db.files[id].size
    {
      assert L.FinishedFile(h, w.db.files[id], src);
    }
  }

  // ---- two races in which no call fails ----

  /** File and row step of a one-byte upload under a file's slug, its chunk and its completion: the
      file's object is written over before the conflict is reported. */
  lemma LateStepsOverwrite(w: World, owner: int, other: string, now: int, byte: Byte)
    requires owner in w.db.files && w.db.files[owner].storage.LocalDisk? && SlugSyntax(w.db.files[owner].slug)
    requires other !in w.db.uploads && !UploadSlugTaken(w.db, w.db.files[owner].slug)
    requires forall k <- w.db.parts :: k.0 != other
    ensures var slug := w.db.files[owner].slug;
            var env := L.TinyEnv(other, slug, now);
            var u := NewUpload(L.Asking(slug), env);
            && u.size >= 0
            && (var (w2, ready) := Touched(w, u, env);
                var (w3, s3) := Inserted(w2, u, env);
                && ready && s3.Ok? && other in w3.db.uploads && w3.db.uploads[other].chunkSize > 0
                && (var (w4, s4) := ChunkSpec(w3, other, ChunkRequest(Some(0), 1, [byte], false, false, None, false));
                    && s4.Ok? && other in w4.db.uploads && w4.db.uploads[other].id == other
                    && (var (w5, s5) := CompleteSpec(w4, other, CompleteEnv(now, "", true, false, false, false));
                        s5.Conflict? && w5.disk.objects == w.disk.objects[slug := [byte]])))
  {
    hide SlugSyntax, UploadSlugTaken, CompleteSpec, ChunkSpec, InitSpec, NewUpload, FileSlugTaken;
    var slug := w.db.files[owner].slug;
    var req, env := L.Asking(slug), L.TinyEnv(other, slug, now);
    var blind := env.(lookupFails := true);
    L.StaleSlugOverwrites(w, owner, true, other, now, byte);
    StepsAreInit(w, req, blind);
    assert NewUpload(req, env) == NewUpload(req, blind) by {
      SameRow(req, env);
    }
  }

  lemma SameRow(req: InitRequest, env: InitEnv)
    requires ChunkSetting(env.chunkSetting)
    ensures NewUpload(req, env.(lookupFails := true)) == NewUpload(req, env)
  {
    hide AutoChunkSize, ChunkCount;
  }

  /** A tested request for the slug of an upload that completes before the request's file step: the
      second upload then takes the slug of a file, and its completion writes over that file's object. */
  lemma SlugRaceOverwrites(h: L.History, id: string, other: string, now: int, byte: Byte, src: L.Sources)
    requires L.Inv(h, src) && id in h.world.db.uploads && h.world.db.uploads[id].storage.LocalDisk?
    requires forall i | 0 <= i < h.world.db.uploads[id].totalChunks :: (id, i) in h.world.db.parts
    requires h.world.db.uploads[id].totalChunks > 0 && h.world.db.uploads[id].slug in h.world.disk.tmp
    requires SlugSyntax(h.world.db.uploads[id].slug) && other !in h.world.db.uploads
    ensures L.WellKeyed(h.world.db)
    ensures var slug := h.world.db.uploads[id].slug;
            var req, env := L.Asking(slug), L.TinyEnv(other, slug, now);
            var u, w1 := NewUpload(req, env), CompleteSpec(h.world, id, L.QUIET).0;
            && Checked(h.world, req, env) && u.size >= 0
            && FileSlugTaken(w1.db, slug) && slug in w1.disk.objects && w1.disk.objects[slug] == src(id)
            && (var (w2, ready) := Touched(w1, u, env);
                var (w3, s3) := Inserted(w2, u, env);
                && ready && s3.Ok? && other in w3.db.uploads && w3.db.uploads[other].chunkSize > 0
                && (var (w4, s4) := ChunkSpec(w3, other, ChunkRequest(Some(0), 1, [byte], false, false, None, false));
                    && s4.Ok? && other in w4.db.uploads && w4.db.uploads[other].id == other
                    && (var (w5, s5) := CompleteSpec(w4, other, CompleteEnv(now, "", true, false, false, false));
                        s5.Conflict? && w5.disk.objects == w1.disk.objects[slug := [byte]])))
  {
    hide L.Inv, SlugSyntax, UploadSlugTaken, ChunkSpec, NewUpload, FileSlugTaken, WellFormed, CompleteSpec, Touched,
      Inserted, Checked;
    L.InvIsKeyed(h, src);
    L.FullUploadCompletes(h, id, src);
    Completed(h, id, other, src);
    LateStepsOverwrite(CompleteSpec(h.world, id, L.QUIET).0, h.world.db.nextId, other, now, byte);
    AskingPasses(h, id, other, now, src);
  }

  /** The state after the completion: the new file has the slug, and no upload has. */
  lemma Completed(h: L.History, id: string, other: string, src: L.Sources)
    requires L.Inv(h, src) && id in h.world.db.uploads && h.world.db.uploads[id].storage.LocalDisk?
    requires forall i | 0 <= i < h.world.db.uploads[id].totalChunks :: (id, i) in h.world.db.parts
    requires h.world.db.uploads[id].totalChunks > 0 && h.world.db.uploads[id].slug in h.world.disk.tmp
    requires other !in h.world.db.uploads
    ensures L.WellKeyed(h.world.db)
    ensures var slug, w1, owner := h.world.db.uploads[id].slug, CompleteSpec(h.world, id, L.QUIET).0, h.world.db.nextId;
            && owner in w1.db.files && w1.db.files[owner].storage.LocalDisk? && w1.db.files[owner].slug == slug
            && other !in w1.db.uploads && !UploadSlugTaken(w1.db, slug)
            && forall k <- w1.db.parts :: k.0 != other
  {
    hide L.UploadFiles, L.FinishedFiles, L.UploadRow;
    L.RolledBack(h, id, L.QUIET, src);
    L.NoFileHasSlug(h.world.db, id);
    assert AllParts(h.world.db, id, h.world.db.uploads[id].totalChunks);
  }

  lemma AskingPasses(h: L.History, id: string, other: string, now: int, src: L.Sources)
    requires L.Inv(h, src) && id in h.world.db.uploads && SlugSyntax(h.world.db.uploads[id].slug)
    ensures var req, env := L.Asking(h.world.db.uploads[id].slug), L.TinyEnv(other, h.world.db.uploads[id].slug, now);
            Checked(h.world, req, env) && NewUpload(req, env).size >= 0
  {
    hide L.UploadFiles, L.FinishedFiles, L.UploadRow, SlugSyntax, ChunkCount, AutoChunkSize;
    L.NoFileHasSlug(h.world.db, id);
    L.SlugNotEmpty(h.world.db.uploads[id].slug);
  }

  /** The file step of another init under the slug of a local upload: when the upload goes on and
      completes before the row step, zeros are published in place of its recorded chunks. */
  lemma TouchRacePublishesZeros(h: L.History, id: string, u: Upload, env: InitEnv, todo: seq<nat>, src: L.Sources)
    requires L.Inv(h, src) && id in h.world.db.uploads && h.world.db.uploads[id].storage.LocalDisk?
    requires h.world.db.uploads[id].totalChunks > 0 && u.slug == h.world.db.uploads[id].slug
    requires u.size >= 0 && ZerosPut(u, env).Some?
    requires forall k | 0 <= k < |todo| :: todo[k] < h.world.db.uploads[id].totalChunks
    requires forall i: nat | i < h.world.db.uploads[id].totalChunks :: (id, i as int) in h.world.db.parts || i in todo
    ensures var w, v := Touched(h.world, u, env).0, h.world.db.uploads[id];
            && id in w.db.uploads && w.db.uploads[id] == v && v.chunkSize > 0 && v.id == id
            && (var (e, accepted) := L.Sent(w, id, todo, src(id));
                var (done, status) := CompleteSpec(e, id, L.QUIET);
                && accepted && status.Ok? && v.slug in done.disk.objects
                && L.FilledIn(Blank(ZerosPut(u, env).value), done.disk.objects[v.slug], v, todo, src(id)))
  {
    hide L.Inv, L.Sent, CompleteSpec, L.FilledIn, Blank;
    L.ZerosArePublished(h, Touched(h.world, u, env).0, id, ZerosPut(u, env).value, todo, src);
  }
}
