/** Download quotas: a stale lookup followed by a conditional increment, in any interleaving with
    edits that read a row and write it back later. */
module Quota {
  import opened Tables
  import opened Wrappers
  import H = Handlers

  datatype Reply = Served | NotFound | Gone | Forbidden | BadRequest | Updated | Broken

  /** An edit; a missing field leaves the row's value. */
  datatype PatchRequest = PatchRequest(expiresIn: Option<int>, passwordHash: Option<string>, maxDownloads: Option<int>)

  predicate ValidPatch(req: PatchRequest) {
    && (req.maxDownloads.Some? ==> 0 <= req.maxDownloads.value <= 1_000_000_000)
    && (req.expiresIn.Some? ==> 0 <= req.expiresIn.value <= 10 * 365 * 24 * 60 * 60)
  }

  /** The row as the edit will write it, computed from the row it read. */
  function Edited(f: File, req: PatchRequest, now: int): File {
    Patched(f,
            if req.expiresIn.None? then f.expiresAt else if req.expiresIn.value
                == 0 then 0 else now + req.expiresIn.value,
            if req.passwordHash.None? then f.passwordHash else req.passwordHash.value,
            if req.maxDownloads.None? then f.maxDownloads else req.maxDownloads.value)
  }

  /** Each setting that is mentioned is written, the expiry counted from now and 0 for never; each one
      that is not keeps its value, and so does everything else. */
  lemma EditIsRequested(f: File, req: PatchRequest, now: int)
    ensures var e := Edited(f, req, now);
            && e == f.(expiresAt := e.expiresAt, passwordHash := e.passwordHash, maxDownloads := e.maxDownloads)
            && (req.expiresIn == None ==> e.expiresAt == f.expiresAt)
            && (req.expiresIn == Some(0) ==> e.expiresAt == 0)
            && (req.expiresIn.Some? && req.expiresIn.value != 0 ==> e.expiresAt - now == req.expiresIn.value)
            && (req.passwordHash == None ==> e.passwordHash == f.passwordHash)
            && (req.passwordHash.Some? ==> e.passwordHash == req.passwordHash.value)
            && (req.maxDownloads == None ==> e.maxDownloads == f.maxDownloads)
            && (req.maxDownloads.Some? ==> e.maxDownloads == req.maxDownloads.value)
  {
  }

  /** The tests of the share page: the link is dead after its expiry or once its quota is used. */
  predicate LookupRefuses(f: File, now: int) {
    (f.expiresAt > 0 && now > f.expiresAt) || (f.maxDownloads > 0 && f.downloads >= f.maxDownloads)
  }

  /** Only the first request of a transfer counts. */
  predicate CountsAsDownload(range: string) {
    range == "" || "bytes=0-" <= range
  }

  // ---- the handlers, each run alone ----

  /** The table's key and unique constraint. */
  ghost predicate KeyedBySlug(files: map<int, File>) {
    && (forall id <- files :: files[id].id == id)
    && (forall i, j | i in files && j in files && files[i].slug == files[j].slug :: i == j)
  }

  method LookupShared(st: Store, slug: string, now: int) returns (reply: Reply, f: Option<File>)
    requires KeyedBySlug(st.files)
    ensures reply == if f.Some? then Served else if FileSlugTaken(st.State(), slug) then Gone else NotFound
    ensures f.Some? ==> f.value.id in st.files && st.files[f.value.id] == f.value && f.value.slug == slug
    ensures forall id | id in st.files && st.files[id].slug == slug :: f.Some? <==> !LookupRefuses(st.files[id], now)
  {
    if !(exists id | id in st.files :: st.files[id].slug == slug) {
      return NotFound, None;
    }
    var id :| id in st.files && st.files[id].slug == slug;
    var row := st.files[id];
    if row.expiresAt > 0 && now > row.expiresAt {
      return Gone, None;
    }
    if row.maxDownloads > 0 && row.downloads >= row.maxDownloads {
      return Gone, None;
    }
    return Served, Some(row);
  }

  /** The file is live, the visitor permitted, and a slot left if the request counts. */
  predicate Permits(f: File, now: int, range: string, tokenOK: bool) {
    !LookupRefuses(f, now) && (f.passwordHash == "" || tokenOK) && (CountsAsDownload(range) ==> HasSlot(f))
  }

  /** The request starts a transfer: no range, or one from the first byte on. */
  predicate FromTheStart(range: string) {
    range == "" || (|range| >= 8 && range[..8] == "bytes=0-")
  }

  /** A download request: the clock, its range, whether its token is good, and which calls fail. */
  datatype Download = Download(now: int, range: string, tokenOK: bool, countFails: bool, opens: bool)

  /** The row after a request for its file, and the answer. */
  function Downloaded(f: File, d: Download): (File, Reply) {
    if (f.expiresAt > 0 && d.now > f.expiresAt) || (f.maxDownloads > 0 && f.downloads >= f.maxDownloads) then (f, Gone)
    else if f.passwordHash != "" && !d.tokenOK then (f, Forbidden)
    else if FromTheStart(d.range) then
      if d.countFails then (f, Broken)
      else if f.maxDownloads != 0 && f.downloads >= f.maxDownloads then (f, Gone)
      else (f.(downloads := f.downloads + 1), if d.opens then Served else Broken)
    else (f, if d.opens then Served else Broken)
  }

  /** Serves exactly what is permitted, unless counting or opening the object fails, and counts
      exactly the permitted first requests, even when the object then cannot be opened. */
  method HandleDownloadBytes(st: Store, slug: string, now: int, range: string, tokenOK: bool, countFails: bool,
                             opens: bool) returns (reply: Reply)
    requires KeyedBySlug(st.files)
    modifies st
    ensures reply.NotFound? <==> !FileSlugTaken(old(st.State()), slug)
    ensures forall id | id in old(st.files) && old(st.files)[id].slug == slug ::
              var f := old(st.files)[id];
              var counted := Permits(f, now, range, tokenOK) && CountsAsDownload(range) && !countFails;
              && (reply.Served? <==>
                    Permits(f, now, range, tokenOK) && opens && (CountsAsDownload(range) ==> !countFails))
              && st.State() == (if counted then old(st.State()).(files := old(st.files)[id := Counted(f)])
                                else old(st.State()))
    ensures forall id | id in old(st.files) && old(st.files)[id].slug == slug ::
              var (f, answer) := Downloaded(old(st.files)[id], Download(now, range, tokenOK, countFails, opens));
              && reply == answer
              && st.files == (if f == old(st.files)[id] then old(st.files) else old(st.files)[id := f])
    ensures reply.NotFound? ==> st.State() == old(st.State())
  {
    StartsWith(range);
    var f;
    reply, f := LookupShared(st, slug, now);
    if f.None? {
      return;
    }
    if f.value.passwordHash != "" && !tokenOK {
      return Forbidden;
    }
    if CountsAsDownload(range) {
      if countFails {
        return Broken;
      }
      var ok := st.TryIncrementDownloads(f.value.id);
      if !ok {
        return Gone;
      }
    }
    reply := if opens then Served else Broken;
  }

  method HandleFileUpdate(st: Store, id: int, req: PatchRequest, now: int, hashFails: bool, dbFails: bool)
    returns (reply: Reply)
    modifies st
    ensures reply == if id !in old(st.files) then NotFound
                     else if !ValidPatch(req) then BadRequest
                     else if (req.passwordHash.Some? && hashFails) || dbFails then Broken
                     else Updated
    ensures st.State() == if reply.Updated?
                          then old(st.State()).(files := old(st.files)[id := Edited(old(st.files)[id], req, now)])
                          else old(st.State())
  {
    if id !in st.files {
      return NotFound;
    }
    var f := st.files[id];
    if req.maxDownloads.Some? {
      if req.maxDownloads.value < 0 || req.maxDownloads.value > H.MAX_MAX_DOWNLOADS {
        return BadRequest;
      }
      f := f.(maxDownloads := req.maxDownloads.value);
    }
    if req.expiresIn.Some? {
      if req.expiresIn.value < 0 || req.expiresIn.value > H.MAX_EXPIRES_IN {
        return BadRequest;
      }
      if req.expiresIn.value == 0 {
        f := f.(expiresAt := 0);
      } else {
        f := f.(expiresAt := now + req.expiresIn.value);
      }
    }
    if req.passwordHash.Some? {
      if hashFails {
        return Broken;
      }
      f := f.(passwordHash := req.passwordHash.value);
    }
    if dbFails {
      return Broken;
    }
    st.UpdateFile(id, f.expiresAt, f.passwordHash, f.maxDownloads);
    reply := Updated;
  }

  lemma StartsWith(range: string)
    ensures CountsAsDownload(range) <==> FromTheStart(range)
  {
    assert "bytes=0-" <= range ==> |"bytes=0-"| == 8;
  }

  // ---- one file, one request after the other ----

  /** The row after a sequence of requests. */
  function AfterDownloads(f: File, requests: seq<Download>): File {
    if requests == [] then f
    else Downloaded(AfterDownloads(f, requests[..|requests| - 1]), requests[|requests| - 1]).0
  }

  /** How many requests from the start were served. */
  function ServedFromStart(f: File, requests: seq<Download>): nat {
    if requests == [] then 0
    else
      var before, last := requests[..|requests| - 1], requests[|requests| - 1];
      ServedFromStart(f, before) +
      (if FromTheStart(last.range) && Downloaded(AfterDownloads(f, before), last).1.Served? then 1 else 0)
  }

  /** Only the counter changes, it goes up with every transfer served, and stops at the quota. */
  lemma {:induction false} DownloadsCount(f: File, requests: seq<Download>)
    ensures var e := AfterDownloads(f, requests);
            && e == f.(downloads := e.downloads)
            && f.downloads + ServedFromStart(f, requests) <= e.downloads <= f.downloads + |requests|
            && (f.maxDownloads > 0 && f.downloads <= f.maxDownloads ==> e.downloads <= f.maxDownloads)
    decreases |requests|
  {
    hide FromTheStart;
    if requests != [] {
      DownloadsCount(f, requests[..|requests| - 1]);
    }
  }

  /** Under a quota m > 0 a file that has not been downloaded yet is served from the start at most m
      times, whatever ranges, tokens and failures come. */
  lemma QuotaLimitsTransfers(f: File, requests: seq<Download>)
    requires f.maxDownloads > 0 && f.downloads == 0
    ensures ServedFromStart(f, requests) <= f.maxDownloads
  {
    DownloadsCount(f, requests);
  }

  /** Live, permitted requests from the start without a failing call. */
  predicate Clean(f: File, d: Download) {
    && (f.expiresAt > 0 ==> d.now <= f.expiresAt) && (f.passwordHash == "" || d.tokenOK)
    && FromTheStart(d.range) && !d.countFails && d.opens
  }

  /** And of such requests exactly the first m are served. */
  lemma {:induction false} FirstOnesAreServed(f: File, requests: seq<Download>)
    requires f.maxDownloads > 0 && f.downloads == 0 && forall d <- requests :: Clean(f, d)
    ensures ServedFromStart(f, requests) == AfterDownloads(f, requests).downloads
         == if |requests| < f.maxDownloads then |requests| else f.maxDownloads
    decreases |requests|
  {
    hide FromTheStart;
    if requests != [] {
      var before, last := requests[..|requests| - 1], requests[|requests| - 1];
      assert last in requests && forall d <- before :: d in requests;
      FirstOnesAreServed(f, before);
      DownloadsCount(f, before);
    }
  }

  /** A request that continues a transfer, and one in which counting fails, leaves the row. */
  lemma OthersAreNotCounted(f: File, d: Download)
    ensures Downloaded(f, d).0 == f <==> !(FromTheStart(d.range) && !d.countFails && Permits(f, d.now, "", d.tokenOK))
    ensures !FromTheStart(d.range) && Permits(f, d.now, d.range, d.tokenOK) ==>
              (Downloaded(f, d).1.Served? <==> d.opens)
  {
  }

  // ---- interleavings ----

  /** One counted download: the quota in force and the counter when it was granted. */
  datatype Grant = Grant(id: int, quota: int, before: int)

  /** The file rows, the rows that running downloads and edits have read, and all grants. */
  datatype System = System(
    files: map<int, File>, nextId: int, downloads: map<int, File>, edits: map<int, File>, grants: seq<Grant>)

  datatype Step =
    | Publish(f: File)
    | Remove(id: int)
    | Lookup(request: int, id: int, now: int)
    | Increment(request: int)
    | EditRead(request: int, id: int, req: PatchRequest, now: int)
    | EditWrite(request: int)

  predicate Enabled(s: System, step: Step) {
    match step
    case Publish(f) => f.downloads == 0 && 0 <= f.maxDownloads && f.id == s.nextId
    case Remove(id) => true
    case Lookup(request, id, now) => id in s.files && !LookupRefuses(s.files[id], now)
    case Increment(request) => request in s.downloads
    case EditRead(request, id, req, now) => id in s.files && ValidPatch(req)
    case EditWrite(request) => request in s.edits
  }

  function Next(s: System, step: Step): System
    requires Enabled(s, step)
  {
    match step
    case Publish(f) => s.(files := s.files[s.nextId := f], nextId := s.nextId + 1)
    case Remove(id) => s.(files := s.files - {id})
    case Lookup(request, id, now) => s.(downloads := s.downloads[request := s.files[id]])
    case Increment(request) =>
      var id := s.downloads[request].id;
      var t := s.(downloads := s.downloads - {request});
      if id in s.files && HasSlot(s.files[id]) then
        t.(files := s.files[id := Counted(s.files[id])],
           grants := s.grants + [Grant(id, s.files[id].maxDownloads, s.files[id].downloads)])
      else t
    case EditRead(request, id, req, now) => s.(edits := s.edits[request := Edited(s.files[id], req, now)])
    case EditWrite(request) =>
      var e := s.edits[request];
      var t := s.(edits := s.edits - {request});
      if e.id in s.files
      then t.(files := s.files[e.id := Patched(s.files[e.id], e.expiresAt, e.passwordHash, e.maxDownloads)])
      else t
  }

  predicate IsRun(s: System, steps: seq<Step>)
    decreases |steps|
  {
    steps == [] || (Enabled(s, steps[0]) && IsRun(Next(s, steps[0]), steps[1..]))
  }

  function After(s: System, steps: seq<Step>): System
    requires IsRun(s, steps)
    decreases |steps|
  {
    if steps == [] then s else After(Next(s, steps[0]), steps[1..])
  }

  const EMPTY := System(map[], 1, map[], map[], [])

  /** How many grants a file has had. */
  function GrantsOf(grants: seq<Grant>, id: int): nat {
    if grants == [] then 0
    else GrantsOf(grants[..|grants| - 1], id) + (if grants[|grants| - 1].id == id then 1 else 0)
  }

  ghost predicate Counts(s: System) {
    forall id <- s.files :: id < s.nextId && s.files[id].id == id && s.files[id].downloads == GrantsOf(s.grants, id)
  }

  ghost predicate NoneForLater(grants: seq<Grant>, nextId: int) {
    forall k | 0 <= k < |grants| :: grants[k].id < nextId
  }

  ghost predicate NonNegative(s: System) {
    && (forall id <- s.files :: s.files[id].maxDownloads >= 0)
    && (forall r <- s.edits :: s.edits[r].maxDownloads >= 0 && s.edits[r].id < s.nextId)
  }

  /** Each grant was given while the quota in force was zero or above the number of grants the
      file had had before. */
  ghost predicate Lawful(grants: seq<Grant>) {
    forall k | 0 <= k < |grants| ::
      && grants[k].before == GrantsOf(grants[..k], grants[k].id)
      && (grants[k].quota == 0 || grants[k].before < grants[k].quota)
  }

  ghost predicate Inv(s: System) {
    Counts(s) && NoneForLater(s.grants, s.nextId) && NonNegative(s) && Lawful(s.grants)
  }

  lemma {:induction false} NoGrantsYet(grants: seq<Grant>, nextId: int)
    requires NoneForLater(grants, nextId)
    ensures GrantsOf(grants, nextId) == 0
    decreases |grants|
  {
    if grants != [] {
      NoGrantsYet(grants[..|grants| - 1], nextId);
    }
  }

  lemma OneMore(grants: seq<Grant>, g: Grant, id: int)
    ensures GrantsOf(grants + [g], id) == GrantsOf(grants, id) + (if g.id == id then 1 else 0)
  {
    assert (grants + [g])[..|grants|] == grants;
  }

  lemma LawfulGrows(grants: seq<Grant>, g: Grant)
    requires Lawful(grants) && g.before == GrantsOf(grants, g.id) && (g.quota == 0 || g.before < g.quota)
    ensures Lawful(grants + [g])
  {
    var more := grants + [g];
    forall k | 0 <= k < |more|
      ensures more[k].before == GrantsOf(more[..k], more[k].id)
                && (more[k].quota == 0 || more[k].before < more[k].quota)
    {
      if k == |grants| {
        assert more[..k] == grants;
      } else {
        assert more[..k] == grants[..k];
      }
    }
  }

  lemma StepKeeps(s: System, step: Step)
    requires Inv(s) && Enabled(s, step)
    ensures Inv(Next(s, step))
  {
    hide Lawful, GrantsOf;
    match step
    case Publish(f) =>
      NoGrantsYet(s.grants, s.nextId);
    case Increment(request) =>
      var id := s.downloads[request].id;
      if id in s.files && HasSlot(s.files[id]) {
        var g := Grant(id, s.files[id].maxDownloads, s.files[id].downloads);
        LawfulGrows(s.grants, g);
        forall k ensures GrantsOf(s.grants + [g], k) == GrantsOf(s.grants, k) + (if k == id then 1 else 0) {
          OneMore(s.grants, g, k);
        }
      }
    case _ =>
  }

  lemma {:induction false} RunKeeps(s: System, steps: seq<Step>)
    requires Inv(s) && IsRun(s, steps)
    ensures Inv(After(s, steps))
    decreases |steps|
  {
    hide Inv, Enabled, Next;
    if steps != [] {
      StepKeeps(s, steps[0]);
      RunKeeps(Next(s, steps[0]), steps[1..]);
    }
  }

  /** In every interleaving the counter of every row is the number of its grants, so no edit loses
      an increment; every grant was lawful; and the page, the increment and the clean-up agree on
      whether a slot is left. */
  lemma CountersAreExact(steps: seq<Step>)
    requires IsRun(EMPTY, steps)
    ensures var s := After(EMPTY, steps);
            && Lawful(s.grants)
            && (forall id <- s.files ::
                  && s.files[id].downloads == GrantsOf(s.grants, id)
                  && (HasSlot(s.files[id]) <==> !Exhausted(s.files[id]))
                  && (forall now ::
                        LookupRefuses(s.files[id], now) <==> Expired(s.files[id], now) || Exhausted(s.files[id])))
  {
    hide IsRun, After, GrantsOf, Lawful;
    RunKeeps(EMPTY, steps) by {
      NothingYet();
    }
  }

  lemma NothingYet()
    ensures Inv(EMPTY)
  {
  }

  /** The three quota tests agree exactly on rows with a non-negative quota or a counter below it. */
  lemma TestsAgreeExactlyWhen(f: File)
    ensures f.expiresAt <= 0 ==> forall now :: LookupRefuses(f, now) <==> Exhausted(f)
    ensures (HasSlot(f) <==> !Exhausted(f)) <==> f.maxDownloads >= 0 || f.downloads < f.maxDownloads
  {
  }

  // ---- a fixed quota ----

  /** The file's quota is m, in its row and in every edit on its way, and it has had at most m
      grants. */
  ghost predicate Fixed(s: System, id: int, m: int) {
    && (id in s.files ==> s.files[id].maxDownloads == m)
    && (forall r <- s.edits | s.edits[r].id == id :: s.edits[r].maxDownloads == m)
    && GrantsOf(s.grants, id) <= m
  }

  predicate LeavesQuota(step: Step, id: int, m: int) {
    step.EditRead? && step.id == id ==> step.req.maxDownloads.None? || step.req.maxDownloads.value == m
  }

  lemma StepKeepsFixed(s: System, step: Step, id: int, m: int)
    requires m > 0 && Inv(s) && Fixed(s, id, m) && Enabled(s, step) && LeavesQuota(step, id, m) && id < s.nextId
    ensures Fixed(Next(s, step), id, m)
  {
    hide Lawful, GrantsOf;
    if step.Increment? {
      var f := s.downloads[step.request].id;
      if f in s.files && HasSlot(s.files[f]) {
        OneMore(s.grants, Grant(f, s.files[f].maxDownloads, s.files[f].downloads), id);
      }
    }
  }

  lemma {:induction false} RunKeepsFixed(s: System, steps: seq<Step>, id: int, m: int)
    requires m > 0 && Inv(s) && Fixed(s, id, m) && id < s.nextId && IsRun(s, steps)
    requires forall step <- steps :: LeavesQuota(step, id, m)
    ensures Fixed(After(s, steps), id, m)
    decreases |steps|
  {
    hide Inv, Enabled, Fixed, LeavesQuota;
    if steps != [] {
      StepKeeps(s, steps[0]);
      StepKeepsFixed(s, steps[0], id, m);
      RunKeepsFixed(Next(s, steps[0]), steps[1..], id, m);
    }
  }

  /** A file published with quota m > 0 that no edit changes is granted at most m times, in every
      interleaving of any number of downloads. */
  lemma FixedQuotaHolds(before: seq<Step>, f: File, after: seq<Step>)
    requires IsRun(EMPTY, before) && f.maxDownloads > 0
    requires var s := After(EMPTY, before); Enabled(s, Publish(f)) && IsRun(Next(s, Publish(f)), after)
    requires forall step <- after :: LeavesQuota(step, f.id, f.maxDownloads)
    ensures var e := After(Next(After(EMPTY, before), Publish(f)), after);
            GrantsOf(e.grants, f.id) <= f.maxDownloads
  {
    hide IsRun, After, GrantsOf, Lawful, LeavesQuota;
    var s := After(EMPTY, before);
    RunKeeps(EMPTY, before) by {
      NothingYet();
    }
    NoGrantsYet(s.grants, s.nextId);
    StepKeeps(s, Publish(f));
    RunKeepsFixed(Next(s, Publish(f)), after, f.id, f.maxDownloads);
  }

  // ---- edits that cross ----

  /** The step writes an edit of this file. */
  predicate Lands(s: System, step: Step, id: int) {
    step.EditWrite? && step.request in s.edits && s.edits[step.request].id == id
  }

  /** The row written by the last edit of the file that lands during the steps, or f if none does. */
  function LastWrite(s: System, steps: seq<Step>, id: int, f: File): File
    requires IsRun(s, steps)
    decreases |steps|
  {
    if steps == [] then f
    else
      LastWrite(Next(s, steps[0]), steps[1..], id, if Lands(s, steps[0], id) then s.edits[steps[0].request] else f)
  }

  predicate NoneLands(s: System, steps: seq<Step>, id: int)
    requires IsRun(s, steps)
    decreases |steps|
  {
    steps == [] || (!Lands(s, steps[0], id) && NoneLands(Next(s, steps[0]), steps[1..], id))
  }

  predicate SameSettings(f: File, g: File) {
    f.expiresAt == g.expiresAt && f.passwordHash == g.passwordHash && f.maxDownloads == g.maxDownloads
  }

  predicate Reuses(step: Step, request: int) {
    (step.EditRead? || step.EditWrite?) && step.request == request
  }

  /** Whatever happens in between, a row's settings are those written last. */
  lemma {:induction false} SettingsAreLastWrite(s: System, steps: seq<Step>, id: int, f: File)
    requires IsRun(s, steps) && id < s.nextId && id in After(s, steps).files
    requires id in s.files ==> SameSettings(s.files[id], f)
    ensures id in s.files && SameSettings(After(s, steps).files[id], LastWrite(s, steps, id, f))
    decreases |steps|
  {
    if steps != [] {
      var next := if Lands(s, steps[0], id) then s.edits[steps[0].request] else f;
      SettingsAreLastWrite(Next(s, steps[0]), steps[1..], id, next);
    }
  }

  lemma {:induction false} EditStays(s: System, steps: seq<Step>, request: int)
    requires IsRun(s, steps) && request in s.edits && forall step <- steps :: !Reuses(step, request)
    ensures request in After(s, steps).edits && After(s, steps).edits[request] == s.edits[request]
    decreases |steps|
  {
    if steps != [] {
      assert steps[0] in steps;
      EditStays(Next(s, steps[0]), steps[1..], request);
    }
  }

  lemma {:induction false} NoWrite(s: System, steps: seq<Step>, id: int, f: File)
    requires IsRun(s, steps) && NoneLands(s, steps, id)
    ensures LastWrite(s, steps, id, f) == f
    decreases |steps|
  {
    if steps != [] {
      NoWrite(Next(s, steps[0]), steps[1..], id, f);
    }
  }

  /** An edit reads its row, other steps follow, then it writes. A setting it omits stays as it is
      at that moment exactly when the last edit of the file that landed in between, if any, wrote
      the value that was read. */
  lemma EditLeavesOmittedExactlyWhen(s: System, request: int, id: int, req: PatchRequest, now: int, between: seq<Step>)
    requires id in s.files && s.files[id].id == id < s.nextId && ValidPatch(req)
    requires var r := Next(s, EditRead(request, id, req, now));
             IsRun(r, between) && id in After(r, between).files
    requires forall step <- between :: !Reuses(step, request)
    ensures var r := Next(s, EditRead(request, id, req, now));
            var t := After(r, between);
            var read, last := s.files[id], LastWrite(r, between, id, s.files[id]);
            && Enabled(t, EditWrite(request))
            && (var row, written := t.files[id], Next(t, EditWrite(request)).files[id];
                && (req.maxDownloads.None? ==>
                      (written.maxDownloads == row.maxDownloads <==> last.maxDownloads == read.maxDownloads))
                && (req.passwordHash.None? ==>
                      (written.passwordHash == row.passwordHash <==> last.passwordHash == read.passwordHash))
                && (req.expiresIn.None? ==>
                      (written.expiresAt == row.expiresAt <==> last.expiresAt == read.expiresAt)))
  {
    hide IsRun, After, LastWrite, Reuses;
    var r := Next(s, EditRead(request, id, req, now));
    EditStays(r, between, request);
    SettingsAreLastWrite(r, between, id, s.files[id]);
  }

  /** So an edit that no other edit of the file overtakes leaves every omitted setting alone. */
  lemma UndisturbedEditLeavesOmitted(s: System, request: int, id: int, req: PatchRequest, now: int, between: seq<Step>)
    requires id in s.files && s.files[id].id == id < s.nextId && ValidPatch(req)
    requires var r := Next(s, EditRead(request, id, req, now));
             IsRun(r, between) && id in After(r, between).files && NoneLands(r, between, id)
    requires forall step <- between :: !Reuses(step, request)
    ensures var t := After(Next(s, EditRead(request, id, req, now)), between);
            && Enabled(t, EditWrite(request))
            && (var row, written := t.files[id], Next(t, EditWrite(request)).files[id];
                && (req.maxDownloads.None? ==> written.maxDownloads == row.maxDownloads)
                && (req.passwordHash.None? ==> written.passwordHash == row.passwordHash)
                && (req.expiresIn.None? ==> written.expiresAt == row.expiresAt))
  {
    hide IsRun, After, LastWrite, Reuses, NoneLands;
    NoWrite(Next(s, EditRead(request, id, req, now)), between, id, s.files[id]);
    EditLeavesOmittedExactlyWhen(s, request, id, req, now, between);
  }

  /** So an edit of the password alone can undo a quota that another edit set meanwhile. */
  lemma CrossingEditUndoesQuota(s: System, id: int, quota: int, hash: string)
    requires id in s.files && s.files[id].id == id && 0 <= quota <= H.MAX_MAX_DOWNLOADS && 1 !in s.edits
              && 2 !in s.edits
    ensures var slow := EditRead(1, id, PatchRequest(None, Some(hash), None), 0);
            var s1 := Next(s, slow);
            var quick := EditRead(2, id, PatchRequest(None, None, Some(quota)), 0);
            var s2 := Next(s1, quick);
            var s3 := Next(s2, EditWrite(2));
            && s3.files[id].maxDownloads == quota
            && Next(s3, EditWrite(1)).files[id].maxDownloads == s.files[id].maxDownloads
  {
  }
}
