/** Suspended requests over whole runs of a dataset: none is lost, also when the file it waits
    for is closed for good. */
module DatasetWaiters {
  import opened VssTypes
  import opened DatasetTables
  import opened DatasetRuns
  import opened DatasetReferences
  import FS = FileStates
  import FR = FileRuns

  // ---------------------------------------------------------------- accounting

  /** How often request `c` waits in, or was handed back by, one of the files `m`. */
  ghost function AccountedIn(m: map<HandleId, Handle>, c: Context): nat
    decreases |m|
  {
    if m == map[] then 0 else var h :| h in m; FR.Accounted(m[h].file, c) + AccountedIn(m - {h}, c)
  }

  lemma {:induction false} AccountedTakesAny(m: map<HandleId, Handle>, h: HandleId, c: Context)
    requires h in m
    ensures AccountedIn(m, c) == FR.Accounted(m[h].file, c) + AccountedIn(m - {h}, c)
    decreases |m|
  {
    hide FR.Accounted;
    var p :| p in m && AccountedIn(m, c) == FR.Accounted(m[p].file, c) + AccountedIn(m - {p}, c);
    if p != h {
      AccountedTakesAny(m - {p}, h, c);
      AccountedTakesAny(m - {h}, p, c);
      assert m - {p} - {h} == m - {h} - {p};
    }
  }

  /** And how often it is accounted for in all, with the files that are gone. */
  ghost function Accounted(t: Tables, c: Context): nat {
    AccountedIn(t.handles, c) + t.requeued[c]
  }

  lemma {:induction false} TimesCounts(q: seq<Context>, c: Context)
    ensures multiset(q)[c] == FR.Times(q, c)
  {
    if q != [] {
      TimesCounts(q[1..], c);
      assert q == [q[0]] + q[1..];
      FR.MultisetCons(q[0], q[1..]);
    }
  }

  /** A file that goes hands back all that is accounted for in it. */
  lemma HandsBackAll(f: Handle, c: Context)
    ensures HandBack(f)[c] == FR.Accounted(f.file, c)
  {
    FR.WakeAllLosesNobody(f.file, c);
    TimesCounts(FS.WakeAll(f.file).requeued, c);
  }

  // ---------------------------------------------------------------- changes of the tables

  lemma OneFileChanges(m: map<HandleId, Handle>, h: HandleId, f: Handle, c: Context)
    requires h in m
    ensures AccountedIn(m[h := f], c) == AccountedIn(m, c) - FR.Accounted(m[h].file, c) + FR.Accounted(f.file, c)
  {
    hide FR.Accounted;
    AccountedTakesAny(m, h, c);
    AccountedTakesAny(m[h := f], h, c);
    assert m[h := f] - {h} == m - {h};
  }

  lemma OneFileComes(m: map<HandleId, Handle>, h: HandleId, f: Handle, c: Context)
    requires h !in m
    ensures AccountedIn(m[h := f], c) == AccountedIn(m, c) + FR.Accounted(f.file, c)
  {
    hide FR.Accounted;
    AccountedTakesAny(m[h := f], h, c);
    assert m[h := f] - {h} == m;
  }

  lemma SetFileAccounts(t: Tables, h: HandleId, file: FS.FileState, c: Context)
    requires h in t.handles
    ensures Accounted(SetFile(t, h, file), c) == Accounted(t, c) - FR.Accounted(t.handles[h].file, c) + FR.Accounted(file, c)
  {
    OneFileChanges(t.handles, h, t.handles[h].(file := file), c);
  }

  lemma DropAccounts(t: Tables, h: HandleId, c: Context)
    requires h in t.handles
    ensures Accounted(DropHandle(t, h), c) == Accounted(t, c)
  {
    hide FR.Accounted, HandBack;
    AccountedTakesAny(t.handles, h, c);
    HandsBackAll(t.handles[h], c);
  }

  /** Names and flags of handles do not matter. */
  lemma {:induction false} SameFilesAccount(m: map<HandleId, Handle>, n: map<HandleId, Handle>, c: Context)
    requires m.Keys == n.Keys && forall h | h in m :: n[h].file == m[h].file
    ensures AccountedIn(n, c) == AccountedIn(m, c)
    decreases |m|
  {
    hide FR.Accounted;
    if m == map[] {
      assert n == map[];
    } else {
      var h :| h in m;
      assert h in n.Keys;
      AccountedTakesAny(m, h, c);
      AccountedTakesAny(n, h, c);
      assert (m - {h}).Keys == m.Keys - {h} && (n - {h}).Keys == n.Keys - {h};
      SameFilesAccount(m - {h}, n - {h}, c);
    }
  }

  // ---------------------------------------------------------------- open and close

  lemma OpenContentLosesNobody(t: Tables, component: string, flags: bv32, isCreated: bool, e: Env, c: Context)
    requires component in t.db && t.db[component].File?
    requires if t.db[component].path in t.openHandles then t.openHandles[t.db[component].path] in t.handles else Allocates(t, e)
    ensures Accounted(OpenContent(t, component, flags, isCreated, e).tables, c) == Accounted(t, c)
  {
    var path := t.db[component].path;
    if path !in t.openHandles {
      hide FirstFree;
      OneFileComes(t.handles, e.newHandle, AddHandle(t, component, path, t.db[component].readOnly, flags, e).handles[e.newHandle], c);
    } else {
      var h := t.openHandles[path];
      var file := FS.AddReference(t.handles[h].file, flags).0;
      SetFileAccounts(t, h, file, c);
    }
  }

  lemma CreateLosesNobody(t: Tables, component: string, flags: bv32, readOnly: bool, e: Env, c: Context)
    requires Inv(t) && Supplies(t, e) && component !in t.db && Namespace.ParentExists(t.db, component)
    ensures var t1 := t.(db := t.db[component := Namespace.File(e.newPath, readOnly)]);
            Live(t1) && Accounted(OpenContent(t1, component, flags, true, e).tables, c) == Accounted(t, c)
  {
    var t1 := t.(db := t.db[component := Namespace.File(e.newPath, readOnly)]);
    SuppliesAllocates(t, e);
    CreateKeepsInv(t, component, e.newPath, readOnly);
    InvIsLive(t1);
    hide Inv, OpenContent, AccountedIn, Namespace.ParentExists;
    OpenContentLosesNobody(t1, component, flags, true, e, c);
  }

  lemma OpenLosesNobody(t: Tables, component: string, flags: bv32, readOnly: bool, e: Env, c: Context)
    requires Inv(t) && Live(t) && Supplies(t, e)
    ensures Accounted(OpenFile(t, component, flags, readOnly, e).tables, c) == Accounted(t, c)
  {
    SuppliesAllocates(t, e);
    hide Inv, Supplies, Allocates, OpenContent, Accounted, Namespace.ParentExists;
    if component in t.db && t.db[component].File? {
      OpenContentLosesNobody(t, component, flags, false, e, c);
    } else if component !in t.db && Namespace.ParentExists(t.db, component) {
      CreateLosesNobody(t, component, flags, readOnly, e, c);
    }
  }

  lemma AttachLosesNobody(file: FS.FileState, client: ObjectId, origin: U64, flags: bv32, c: Context)
    ensures FR.Accounted(Attach(file, client, origin, flags), c) == FR.Accounted(file, c)
  {
  }

  lemma ClientOpenLosesNobody(t: Tables, r: Request, c: Context)
    requires Inv(t) && Live(t) && r.Open? && Supplies(t, r.env)
    ensures Accounted(Step(t, r), c) == Accounted(t, c)
  {
    hide Inv, Live, Supplies, OpenFile, Attach, FR.Accounted, AccountedIn, SetFile;
    OpenLosesNobody(t, r.component, r.flags, r.readOnly, r.env, c);
    OpenKeepsInv(t, r.component, r.flags, r.readOnly, r.env);
    var o := OpenFile(t, r.component, r.flags, r.readOnly, r.env);
    if o.Opened? {
      var file := o.tables.handles[o.handle].file;
      AttachLosesNobody(file, r.client, r.origin, r.flags, c);
      SetFileAccounts(o.tables, o.handle, Attach(file, r.client, r.origin, r.flags), c);
    }
  }

  lemma CloseFileLosesNobody(t: Tables, h: HandleId, client: ObjectId, origin: U64, c: Context)
    requires h in t.handles
    ensures Accounted(CloseFile(t, h, client, origin).0, c) == Accounted(t, c)
  {
    hide FS.RemoveReference, FS.RemoveOpenOrigin, FS.ValidateOrigin, FR.Accounted, AccountedIn, HandBack;
    var f := t.handles[h];
    if FS.ValidateOrigin(f.file, origin) {
      var file := FS.RemoveReference(FS.RemoveOpenOrigin(f.file, origin), client, origin).0;
      FR.CloseLosesNobody(f.file, client, origin, c);
      SetFileAccounts(t, h, file, c);
      DropAccounts(SetFile(t, h, file), h, c);
    }
  }

  lemma TruncateLosesNobody(t: Tables, h: HandleId, client: ObjectId, origin: U64, size: U64, c: Context)
    requires h in t.handles
    ensures Accounted(TruncateFile(t, h, client, origin, size).0, c) == Accounted(t, c)
  {
    hide FS.DoIo, AccountedIn;
    var f := t.handles[h].file;
    FR.IoOnlyNotifies(f, client, origin, true, size, END_OF_FILE);
    SetFileAccounts(t, h, FS.DoIo(f, client, origin, true, size, END_OF_FILE).0, c);
  }

  lemma ResizeLosesNobody(t: Tables, r: Request, c: Context)
    requires Inv(t) && Live(t) && r.Resize? && Supplies(t, r.env)
    ensures Accounted(Step(t, r), c) == Accounted(t, c)
  {
    hide Inv, Live, Supplies, OpenFile, CloseFile, TruncateFile, AccountedIn;
    OpenLosesNobody(t, r.component, OPEN_WRITE | OPEN_ALWAYS, false, r.env, c);
    OpenKeepsInv(t, r.component, OPEN_WRITE | OPEN_ALWAYS, false, r.env);
    var o := OpenFile(t, r.component, OPEN_WRITE | OPEN_ALWAYS, false, r.env);
    if o.Opened? {
      TruncateLosesNobody(o.tables, o.handle, NO_OBJECT, 0, r.size, c);
      TruncateTouchesOneFile(o.tables, o.handle, r.size);
      CloseFileLosesNobody(TruncateFile(o.tables, o.handle, NO_OBJECT, 0, r.size).0, o.handle, NO_OBJECT, 0, c);
    }
  }

  // ---------------------------------------------------------------- the death of a client

  function Staying(m: map<HandleId, Handle>, client: ObjectId): map<HandleId, Handle> {
    map h | h in m && SurvivesWithout(m[h], client) :: Without(m[h], client)
  }

  /** Taking one file out of `m` takes it out of the side it goes to. */
  lemma OneSide(m: map<HandleId, Handle>, client: ObjectId, h: HandleId)
    requires h in m
    ensures Staying(m - {h}, client) == Staying(m, client) - {h} && ClosedBy(m - {h}, client) == ClosedBy(m, client) - {h}
    ensures SurvivesWithout(m[h], client) ==>
              h in Staying(m, client) && Staying(m, client)[h] == Without(m[h], client) && h !in ClosedBy(m, client)
    ensures !SurvivesWithout(m[h], client) ==>
              h in ClosedBy(m, client) && ClosedBy(m, client)[h] == Without(m[h], client) && h !in Staying(m, client)
  {
    hide Without, SurvivesWithout;
  }

  lemma HandedBackAt(m: map<HandleId, Handle>, h: HandleId, c: Context)
    requires h in m
    ensures HandedBack(m)[c] == FR.Accounted(m[h].file, c) + HandedBack(m - {h})[c]
  {
    hide FR.Accounted, HandBack, HandedBack;
    HandedBackTakesAny(m, h);
    HandsBackAll(m[h], c);
  }

  lemma NotThere(m: map<HandleId, Handle>, h: HandleId)
    requires h !in m
    ensures m - {h} == m
  {
  }

  lemma SplitOne(m: map<HandleId, Handle>, client: ObjectId, h: HandleId, c: Context)
    requires h in m
    ensures AccountedIn(Staying(m, client), c) + HandedBack(ClosedBy(m, client))[c]
         == FR.Accounted(m[h].file, c) + AccountedIn(Staying(m - {h}, client), c) + HandedBack(ClosedBy(m - {h}, client))[c]
  {
    hide *;
    OneSide(m, client, h);
    WithoutLosesNobody(m[h], client, c);
    if SurvivesWithout(m[h], client) {
      AccountedTakesAny(Staying(m, client), h, c);
      NotThere(ClosedBy(m, client), h);
    } else {
      HandedBackAt(ClosedBy(m, client), h, c);
      NotThere(Staying(m, client), h);
    }
  }

  lemma {:induction false} GoneClientSplitsFiles(m: map<HandleId, Handle>, client: ObjectId, c: Context)
    ensures AccountedIn(Staying(m, client), c) + HandedBack(ClosedBy(m, client))[c] == AccountedIn(m, c)
    decreases |m|
  {
    hide FR.Accounted, HandBack, Without, SurvivesWithout;
    if m == map[] {
      assert Staying(m, client) == map[] && ClosedBy(m, client) == map[];
    } else {
      hide Staying, ClosedBy, AccountedIn, HandedBack;
      var h :| h in m;
      GoneClientSplitsFiles(m - {h}, client, c);
      AccountedTakesAny(m, h, c);
      SplitOne(m, client, h, c);
    }
  }

  lemma WithoutLosesNobody(f: Handle, client: ObjectId, c: Context)
    ensures FR.Accounted(Without(f, client).file, c) == FR.Accounted(f.file, c)
  {
    hide FS.RemoveObject;
    FR.ClientGoneLosesNobody(f.file, client, c);
  }

  lemma ReleaseLosesNobody(t: Tables, client: ObjectId, c: Context)
    ensures Accounted(ObjectRelease(t, client), c) == Accounted(t, c)
  {
    GoneClientSplitsFiles(t.handles, client, c);
    hide Without, SurvivesWithout, AccountedIn, HandedBack;
    assert ObjectRelease(t, client).handles == Staying(t.handles, client);
  }

  // ---------------------------------------------------------------- every request

  lemma NamesLoseNobody(t: Tables, r: Request, c: Context)
    requires Live(t) && (r.Remove? || r.Rename? || r.MakeDir?)
    ensures Accounted(Step(t, r), c) == Accounted(t, c)
  {
    NamesKeepFiles(t, r);
    SameFilesAccount(t.handles, Step(t, r).handles, c);
  }

  lemma NamesKeepFiles(t: Tables, r: Request)
    requires Live(t) && (r.Remove? || r.Rename? || r.MakeDir?)
    ensures Step(t, r).handles.Keys == t.handles.Keys && Step(t, r).requeued == t.requeued
    ensures forall h | h in t.handles :: Step(t, r).handles[h].file == t.handles[h].file
  {
    hide Live, RenameFile, RemoveFile, MakeDirectory;
    match r
    case Remove(component, e) =>
      RemoveKeepsFiles(t, component, false, e);
      RenameFreesNothing(t, r);
      NamesHandNothingBack(t, r);
    case Rename(s, d, replace, removing, moving) =>
      RenameKeepsFiles(t, s, d, replace, removing, moving);
      RenameFreesNothing(t, r);
      NamesHandNothingBack(t, r);
    case MakeDir(component, e) => MakingTouchesNothing(t, component, e);
  }

  lemma MakingTouchesNothing(t: Tables, component: string, e: Env)
    ensures MakeDirectory(t, component, e).0 == t.(db := MakeDirectory(t, component, e).0.db)
  {
  }

  lemma NamesHandNothingBack(t: Tables, r: Request)
    requires Live(t) && (r.Remove? || r.Rename?)
    ensures Step(t, r).requeued == t.requeued
  {
    hide OpenConflict, RemoveAllowed, Namespace.ParentExists, Namespace.Intersects, Namespace.Moved;
  }

  /** The request that `r` leaves waiting, if any: only requests for one open file wait. */
  ghost function SuspendedBy(t: Tables, r: Request): seq<Context> {
    if Live(t) && r.OnFile? && ForOneFile(r.request) && r.fileId in t.fileIds
    then FR.Suspended(t.handles[t.fileIds[r.fileId]].file, r.request) else []
  }

  lemma OnFileLosesNobody(t: Tables, r: Request, c: Context)
    requires Live(t) && r.OnFile?
    ensures Accounted(Step(t, r), c) == Accounted(t, c) + FR.Times(SuspendedBy(t, r), c)
  {
    hide FR.Step, FR.Accounted, FR.Suspended, AccountedIn;
    if ForOneFile(r.request) && r.fileId in t.fileIds {
      var h := t.fileIds[r.fileId];
      FR.StepLosesNobody(t.handles[h].file, r.request, c);
      SetFileAccounts(t, h, FR.Step(t.handles[h].file, r.request), c);
    }
  }

  lemma StepLosesNobody(t: Tables, r: Request, c: Context)
    requires Inv(t) && EnvFits(t, r)
    ensures Accounted(Step(t, r), c) == Accounted(t, c) + FR.Times(SuspendedBy(t, r), c)
  {
    InvIsLive(t);
    if r.OnFile? {
      hide Inv, Step, Accounted, SuspendedBy;
      OnFileLosesNobody(t, r, c);
    } else {
      assert SuspendedBy(t, r) == [];
      hide Inv, Accounted, SuspendedBy, ClientOpen, CloseFile, StepOnFile, RemoveFile, RenameFile, MakeDirectory, SetSize, ObjectRelease, Supplies;
      match r
      case Open(_, _, _, _, _, _) => ClientOpenLosesNobody(t, r, c);
      case Close(fileId, client, origin) =>
        if fileId in t.fileIds {
          CloseFileLosesNobody(t, t.fileIds[fileId], client, origin, c);
        }
      case Remove(_, _) => NamesLoseNobody(t, r, c);
      case Rename(_, _, _, _, _) => NamesLoseNobody(t, r, c);
      case MakeDir(_, _) => NamesLoseNobody(t, r, c);
      case Resize(_, _, _) => ResizeLosesNobody(t, r, c);
      case ClientGone(client) => ReleaseLosesNobody(t, client, c);
    }
  }

  /** How often request `c` is suspended in the course of a run. */
  ghost function Suspensions(t: Tables, rs: seq<Request>, c: Context): nat
    decreases rs
  {
    if rs == [] then 0 else FR.Times(SuspendedBy(t, rs[0]), c) + Suspensions(Step(t, rs[0]), rs[1..], c)
  }

  lemma {:induction false} RunLosesNobody(t: Tables, rs: seq<Request>, c: Context)
    requires Inv(t) && RunFits(t, rs)
    ensures Accounted(Run(t, rs), c) == Accounted(t, c) + Suspensions(t, rs, c)
    decreases rs
  {
    hide Inv, Step, EnvFits, Accounted, SuspendedBy;
    if rs != [] {
      StepLosesNobody(t, rs[0], c);
      StepKeepsInv(t, rs[0]);
      RunLosesNobody(Step(t, rs[0]), rs[1..], c);
    }
  }

  /** Main result: over any run of a dataset, through opens, closes, deletions, renames and
      deaths of clients, each suspension of a request ends in the queue of an open file, or the
      request is handed back, by an open file or by one that is gone, once. */
  lemma EverySuspensionIsAccountedFor(t0: Tables, rs: seq<Request>, c: Context)
    requires Initial(t0) && t0.requeued == multiset{} && RunFits(t0, rs)
    ensures Accounted(Run(t0, rs), c) == Suspensions(t0, rs, c)
  {
    hide Run, RunFits, Suspensions, FR.Inv;
    RunLosesNobody(t0, rs, c);
  }

  /** When nothing is open any more, every suspended request has been handed back. */
  lemma NobodyWaitsForAClosedFile(t0: Tables, rs: seq<Request>, c: Context)
    requires Initial(t0) && t0.requeued == multiset{} && RunFits(t0, rs) && Run(t0, rs).handles == map[]
    ensures Run(t0, rs).requeued[c] == Suspensions(t0, rs, c)
  {
    hide Run, RunFits, Suspensions;
    EverySuspensionIsAccountedFor(t0, rs, c);
  }
}
