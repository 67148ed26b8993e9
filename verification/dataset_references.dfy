/** Reference conservation over whole runs of a dataset: as long as clients close only what
    they have open, every reference to an open file belongs to a client object. */
module DatasetReferences {
  import opened VssTypes
  import opened DatasetTables
  import opened DatasetRuns
  import FS = FileStates
  import FR = FileRuns

  predicate Balanced(file: FS.FileState) {
    FR.Anonymous(file) == 0 && NO_OBJECT !in file.objectRefs
  }

  /** No open file has a reference that no client accounts for. */
  ghost predicate Owned(t: Tables) {
    forall h | h in t.handles :: Balanced(t.handles[h].file)
  }

  /** The request handler turns a null client object away. */
  predicate FromAClient(r: Request) {
    r.Open? || r.Close? ==> r.client != NO_OBJECT
  }

  /** A close that gets through comes from a client that has the file open. */
  ghost predicate Fair(t: Tables, r: Request) {
    r.Close? && r.fileId in t.fileIds && t.fileIds[r.fileId] in t.handles ==>
      var file := t.handles[t.fileIds[r.fileId]].file;
      FS.ValidateOrigin(file, r.origin) ==> r.client in file.objectRefs
  }

  lemma SetFileKeepsOwned(t: Tables, h: HandleId, file: FS.FileState)
    requires h in t.handles && Balanced(file)
    requires forall x | x in t.handles && x != h :: Balanced(t.handles[x].file)
    ensures Owned(SetFile(t, h, file))
  {
    hide Balanced;
  }

  /** What an open adds: one reference, not yet anybody's, on one file. */
  ghost predicate AddsOne(t: Tables, o: Opened) {
    if o.Refused? then o.tables.handles == t.handles
    else && o.handle in o.tables.handles
         && FR.Anonymous(o.tables.handles[o.handle].file) == 1 && NO_OBJECT !in o.tables.handles[o.handle].file.objectRefs
         && (forall x | x in o.tables.handles && x != o.handle :: x in t.handles && o.tables.handles[x] == t.handles[x])
         && (forall x | x in t.handles :: x in o.tables.handles)
         && (o.handle in t.handles ==> o.tables.handles[o.handle].file.objectRefs == t.handles[o.handle].file.objectRefs)
  }

  lemma NewHandleAddsOne(t: Tables, component: string, flags: bv32, isCreated: bool, e: Env)
    requires component in t.db && t.db[component].File? && t.db[component].path !in t.openHandles && Allocates(t, e)
    ensures AddsOne(t, OpenContent(t, component, flags, isCreated, e))
  {
    hide FirstFree;
  }

  lemma OldHandleAddsOne(t: Tables, component: string, flags: bv32, isCreated: bool, e: Env)
    requires component in t.db && t.db[component].File? && t.db[component].path in t.openHandles
    requires t.openHandles[t.db[component].path] in t.handles && Owned(t)
    ensures AddsOne(t, OpenContent(t, component, flags, isCreated, e))
  {
  }

  lemma OpenAddsOne(t: Tables, component: string, flags: bv32, isCreated: bool, e: Env)
    requires Inv(t) && Owned(t) && component in t.db && t.db[component].File?
    requires t.db[component].path !in t.openHandles ==> Allocates(t, e)
    ensures AddsOne(t, OpenContent(t, component, flags, isCreated, e))
  {
    InvIsLive(t);
    hide Inv, Owned, Allocates, AddsOne, OpenContent;
    if t.db[component].path in t.openHandles {
      OldHandleAddsOne(t, component, flags, isCreated, e);
    } else {
      NewHandleAddsOne(t, component, flags, isCreated, e);
    }
  }

  lemma FileOpenAddsOne(t: Tables, component: string, flags: bv32, readOnly: bool, e: Env)
    requires Inv(t) && Live(t) && Owned(t) && Supplies(t, e)
    ensures AddsOne(t, OpenFile(t, component, flags, readOnly, e))
  {
    hide Inv, OpenContent, FR.Anonymous;
    SuppliesAllocates(t, e);
    if component in t.db && t.db[component].File? {
      OpenAddsOne(t, component, flags, false, e);
    } else if component !in t.db && Namespace.ParentExists(t.db, component) {
      CreateKeepsInv(t, component, e.newPath, readOnly);
      OpenAddsOne(t.(db := t.db[component := Namespace.File(e.newPath, readOnly)]), component, flags, true, e);
    }
  }

  lemma AttachBalances(file: FS.FileState, client: ObjectId, origin: U64, flags: bv32)
    requires FR.Anonymous(file) == 1 && NO_OBJECT !in file.objectRefs && client != NO_OBJECT
    ensures Balanced(Attach(file, client, origin, flags))
  {
  }

  lemma ClientOpenKeepsOwned(t: Tables, client: ObjectId, origin: U64, component: string, flags: bv32, readOnly: bool, e: Env)
    requires Inv(t) && Live(t) && Owned(t) && Supplies(t, e) && client != NO_OBJECT
    ensures Owned(ClientOpen(t, client, origin, component, flags, readOnly, e).0)
  {
    hide Inv, Live, Supplies, OpenFile, Balanced, FR.Anonymous, Attach;
    FileOpenAddsOne(t, component, flags, readOnly, e);
    var o := OpenFile(t, component, flags, readOnly, e);
    if o.Opened? {
      AttachBalances(o.tables.handles[o.handle].file, client, origin, flags);
      SetFileKeepsOwned(o.tables, o.handle, Attach(o.tables.handles[o.handle].file, client, origin, flags));
    }
  }

  /** A close takes one reference away, from the client if it has one. */
  lemma CloseKeepsOwned(t: Tables, h: HandleId, client: ObjectId, origin: U64)
    requires h in t.handles && t.handles[h].file.refcount > 0 && NO_OBJECT !in t.handles[h].file.objectRefs
    requires forall x | x in t.handles && x != h :: Balanced(t.handles[x].file)
    requires FS.ValidateOrigin(t.handles[h].file, origin)
    requires if client in t.handles[h].file.objectRefs then FR.Anonymous(t.handles[h].file) == 0
             else FR.Anonymous(t.handles[h].file) == 1
    ensures Owned(CloseFile(t, h, client, origin).0)
  {
    var f := t.handles[h].file;
    var file := FS.RemoveReference(FS.RemoveOpenOrigin(f, origin), client, origin).0;
    FR.CloseReferences(f, client, origin);
    CloseShrinksObjects(f, client, origin);
    hide FS.RemoveReference, FS.RemoveOpenOrigin;
    SetFileKeepsOwned(t, h, file);
  }

  lemma CloseShrinksObjects(f: FS.FileState, client: ObjectId, origin: U64)
    ensures FS.RemoveReference(FS.RemoveOpenOrigin(f, origin), client, origin).0.objectRefs == f.objectRefs - multiset{client}
  {
    var s0 := FS.RemoveOpenOrigin(f, origin);
    FR.ReleaseKeepsRefs(s0, origin);
    var s1 := FS.ReleaseBrlocks(s0, origin).(originFlags := f.originFlags - {origin}, objectRefs := f.objectRefs - multiset{client});
    FR.RemoveOplocksKeepsRefs(s1, client);
  }

  /** Truncating only tells the holders of oplocks. */
  lemma TruncateTouchesOneFile(t: Tables, h: HandleId, size: U64)
    requires h in t.handles
    ensures var u := TruncateFile(t, h, NO_OBJECT, 0, size).0;
            && u.handles.Keys == t.handles.Keys && (forall x | x in t.handles && x != h :: u.handles[x] == t.handles[x])
            && u.handles[h].file == t.handles[h].file.(breaks := u.handles[h].file.breaks)
  {
    hide FS.DoIo;
    FR.IoOnlyNotifies(t.handles[h].file, NO_OBJECT, 0, true, size, END_OF_FILE);
  }

  lemma ResizeKeepsOwned(t: Tables, component: string, size: U64, e: Env)
    requires Inv(t) && Live(t) && Owned(t) && Supplies(t, e)
    ensures Owned(SetSize(t, component, size, e).0)
  {
    hide Live, Supplies, OpenFile, CloseFile, TruncateFile, FR.Inv, TablesInv;
    FileOpenAddsOne(t, component, OPEN_WRITE | OPEN_ALWAYS, false, e);
    OpenKeepsInv(t, component, OPEN_WRITE | OPEN_ALWAYS, false, e);
    var o := OpenFile(t, component, OPEN_WRITE | OPEN_ALWAYS, false, e);
    if o.Opened? {
      TruncateKeepsInv(o.tables, o.handle, NO_OBJECT, 0, size);
      TruncateTouchesOneFile(o.tables, o.handle, size);
      CloseKeepsOwned(TruncateFile(o.tables, o.handle, NO_OBJECT, 0, size).0, o.handle, NO_OBJECT, 0);
    }
  }

  lemma ReleaseKeepsOwned(t: Tables, client: ObjectId)
    requires Owned(t)
    ensures Owned(ObjectRelease(t, client))
  {
    hide FS.RemoveObject;
    forall h | h in ObjectRelease(t, client).handles ensures Balanced(ObjectRelease(t, client).handles[h].file) {
      FR.ClientGoneDropsOnlyItsOwn(t.handles[h].file, client);
      assert t.handles[h].file.objectRefs[NO_OBJECT] == 0;
    }
  }

  /** Names come and go without touching references. */
  lemma NamesKeepOwned(t: Tables, r: Request)
    requires Live(t) && Owned(t) && (r.Remove? || r.MakeDir? || r.Rename?)
    ensures Owned(Step(t, r))
  {
    hide Balanced;
    if r.Rename? {
      RenameKeepsFiles(t, r.source, r.destination, r.replace, r.removing, r.moving);
    }
  }

  predicate SameFiles(t: Tables, u: Tables) {
    forall h | h in u.handles :: h in t.handles && u.handles[h].file == t.handles[h].file
  }

  lemma RemoveKeepsFiles(t: Tables, component: string, renameTarget: bool, e: Env)
    requires Live(t)
    ensures SameFiles(t, RemoveFile(t, component, renameTarget, e).0)
    ensures forall c | c in t.db && c != component :: c in RemoveFile(t, component, renameTarget, e).0.db
  {
  }

  lemma DoRenameKeepsFiles(t: Tables, s: string, d: string, e: Env)
    requires s in t.db
    ensures SameFiles(t, DoRename(t, s, d, e).0)
  {
    hide Namespace.Moved;
  }

  lemma RenameKeepsFiles(t: Tables, s: string, d: string, replace: bool, removing: Env, moving: Env)
    requires Live(t)
    ensures SameFiles(t, RenameFile(t, s, d, replace, removing, moving).0)
  {
    hide Live, OpenConflict, RemoveFile, DoRename, Namespace.ParentExists, Namespace.Intersects;
    if s in t.db {
      DoRenameKeepsFiles(t, s, d, moving);
      RemoveKeepsFiles(t, d, true, removing);
      var t1 := RemoveFile(t, d, true, removing).0;
      if s != d {
        DoRenameKeepsFiles(t1, s, d, moving);
      }
    }
  }

  lemma OnFileKeepsOwned(t: Tables, fileId: U32, r: FR.Request)
    requires Live(t) && Owned(t)
    ensures Owned(StepOnFile(t, fileId, r))
  {
    hide FR.Step;
    if fileId in t.fileIds && ForOneFile(r) {
      var h := t.fileIds[fileId];
      if r.Release? {
        FR.ReleaseKeepsRefs(t.handles[h].file, r.origin);
        ReleaseStepKeepsRefs(t.handles[h].file, r);
      } else {
        FR.LockKeepsRefs(t.handles[h].file, r);
      }
      SetFileKeepsOwned(t, h, FR.Step(t.handles[h].file, r));
    }
  }

  lemma ReleaseStepKeepsRefs(s: FS.FileState, r: FR.Request)
    requires r.Release?
    ensures FR.SameReferences(s, FR.Step(s, r))
  {
    FR.ReleaseKeepsRefs(s, r.origin);
  }

  lemma OpenStepKeepsOwned(t: Tables, r: Request)
    requires Inv(t) && Live(t) && Owned(t) && r.Open? && EnvFits(t, r) && FromAClient(r)
    ensures Owned(Step(t, r))
  {
    hide Inv, Live, Owned, ClientOpen, Supplies;
    ClientOpenKeepsOwned(t, r.client, r.origin, r.component, r.flags, r.readOnly, r.env);
  }

  lemma ResizeStepKeepsOwned(t: Tables, r: Request)
    requires Inv(t) && Live(t) && Owned(t) && r.Resize? && EnvFits(t, r)
    ensures Owned(Step(t, r))
  {
    hide Inv, Live, Owned, SetSize, Supplies;
    ResizeKeepsOwned(t, r.component, r.size, r.env);
  }

  /** Closing, one file at a time, and the death of a client. */
  lemma OtherStepsKeepOwned(t: Tables, r: Request)
    requires Inv(t) && Live(t) && Owned(t) && Fair(t, r) && (r.Close? || r.OnFile? || r.ClientGone?)
    ensures Owned(Step(t, r))
  {
    hide Inv, Live, Owned, ClientClose, StepOnFile, ObjectRelease, FS.ValidateOrigin;
    match r
    case Close(fileId, client, origin) => ClientCloseKeepsOwned(t, fileId, client, origin);
    case OnFile(fileId, fr) => OnFileKeepsOwned(t, fileId, fr);
    case ClientGone(client) => ReleaseKeepsOwned(t, client);
    case _ =>
  }

  lemma StepKeepsOwned(t: Tables, r: Request)
    requires Inv(t) && Owned(t) && EnvFits(t, r) && FromAClient(r) && Fair(t, r)
    ensures Owned(Step(t, r))
  {
    InvIsLive(t);
    hide Inv, Live, Owned, Step, EnvFits, FromAClient, Fair;
    if r.Open? {
      OpenStepKeepsOwned(t, r);
    } else if r.Resize? {
      ResizeStepKeepsOwned(t, r);
    } else if r.Remove? || r.Rename? || r.MakeDir? {
      NamesKeepOwned(t, r);
    } else {
      OtherStepsKeepOwned(t, r);
    }
  }

  lemma ClientCloseKeepsOwned(t: Tables, fileId: U32, client: ObjectId, origin: U64)
    requires Inv(t) && Live(t) && Owned(t) && Fair(t, Close(fileId, client, origin))
    ensures Owned(ClientClose(t, fileId, client, origin).0)
  {
    hide TablesInv, FR.Inv;
    if fileId in t.fileIds {
      var h := t.fileIds[fileId];
      if FS.ValidateOrigin(t.handles[h].file, origin) {
        CloseKeepsOwned(t, h, client, origin);
      }
    }
  }

  // ---------------------------------------------------------------- exactly when

  /** The opens of `h` that the request does not end. */
  ghost function LeftOpen(t: Tables, r: Request, h: HandleId): multiset<ObjectId>
    requires h in t.handles
  {
    var file := t.handles[h].file;
    if r.Close? && r.fileId in t.fileIds && t.fileIds[r.fileId] == h && FS.ValidateOrigin(file, r.origin)
    then file.objectRefs - multiset{r.client}
    else if r.ClientGone? then file.objectRefs[r.client := 0]
    else file.objectRefs
  }

  /** No client loses a handle that it still has open. */
  ghost predicate FreesOnlyUnused(t: Tables, r: Request) {
    forall h | h in t.handles && |LeftOpen(t, r, h)| > 0 :: h in Step(t, r).handles
  }

  lemma CloseStaysIffLeft(t: Tables, h: HandleId, client: ObjectId, origin: U64)
    requires h in t.handles && Balanced(t.handles[h].file) && t.handles[h].file.refcount > 0
    requires FS.ValidateOrigin(t.handles[h].file, origin) && client in t.handles[h].file.objectRefs
    ensures h in CloseFile(t, h, client, origin).0.handles <==> |t.handles[h].file.objectRefs - multiset{client}| > 0
    ensures forall x | x in t.handles && x != h :: x in CloseFile(t, h, client, origin).0.handles
  {
    hide FS.RemoveReference, FS.RemoveOpenOrigin, FS.ValidateOrigin;
    var f := t.handles[h].file;
    FR.CloseReferences(f, client, origin);
    CloseShrinksObjects(f, client, origin);
  }

  lemma CloseFreesOnlyUnused(t: Tables, r: Request)
    requires Inv(t) && Live(t) && Owned(t) && r.Close? && Fair(t, r)
    ensures FreesOnlyUnused(t, r)
  {
    hide TablesInv, FR.Inv, CloseFile, FS.ValidateOrigin, Balanced;
    if r.fileId in t.fileIds {
      var h := t.fileIds[r.fileId];
      if FS.ValidateOrigin(t.handles[h].file, r.origin) {
        CloseStaysIffLeft(t, h, r.client, r.origin);
      } else {
        InvalidCloseChangesNothing(t, h, r.client, r.origin);
      }
    }
  }

  lemma InvalidCloseChangesNothing(t: Tables, h: HandleId, client: ObjectId, origin: U64)
    requires h in t.handles && !FS.ValidateOrigin(t.handles[h].file, origin)
    ensures CloseFile(t, h, client, origin).0 == t
  {
  }

  lemma UnfairCloseShows(t: Tables, r: Request)
    requires Inv(t) && Live(t) && Owned(t) && r.Close? && !Fair(t, r)
    ensures !Owned(Step(t, r)) || !FreesOnlyUnused(t, r)
  {
    hide TablesInv, FR.Inv, FS.RemoveReference, FS.RemoveOpenOrigin;
    var h := t.fileIds[r.fileId];
    var f := t.handles[h].file;
    FR.CloseReferences(f, r.client, r.origin);
    CloseShrinksObjects(f, r.client, r.origin);
    assert f.objectRefs - multiset{r.client} == f.objectRefs;
    if h in Step(t, r).handles {
      assert FR.Anonymous(Step(t, r).handles[h].file) == -1;
    } else {
      assert |LeftOpen(t, r, h)| > 0;
    }
  }

  lemma SurvivesIffLeft(f: Handle, client: ObjectId)
    requires Balanced(f.file)
    ensures SurvivesWithout(f, client) <==> |f.file.objectRefs[client := 0]| > 0
  {
    assert f.file.objectRefs == f.file.objectRefs[client := 0] + multiset{}[client := f.file.objectRefs[client]];
  }

  lemma GoneFreesOnlyUnused(t: Tables, client: ObjectId)
    requires Owned(t) && Live(t)
    ensures FreesOnlyUnused(t, ClientGone(client))
  {
    hide Live, SurvivesWithout, Without, Balanced;
    assert Step(t, ClientGone(client)) == ObjectRelease(t, client) by { StepOfGone(t, client); }
    forall h | h in t.handles ensures |LeftOpen(t, ClientGone(client), h)| > 0 ==> h in ObjectRelease(t, client).handles {
      SurvivesIffLeft(t.handles[h], client);
    }
  }

  lemma StepOfGone(t: Tables, client: ObjectId)
    requires Live(t)
    ensures Step(t, ClientGone(client)) == ObjectRelease(t, client)
  {
    hide ObjectRelease;
  }

  lemma ResizeFreesOnlyUnused(t: Tables, component: string, size: U64, e: Env)
    requires Inv(t) && Live(t) && Owned(t) && Supplies(t, e)
    ensures forall h | h in t.handles && |t.handles[h].file.objectRefs| > 0 :: h in SetSize(t, component, size, e).0.handles
  {
    hide Live, Supplies, OpenFile, TruncateFile, FR.Inv, TablesInv, FS.RemoveReference, FS.RemoveOpenOrigin;
    FileOpenAddsOne(t, component, OPEN_WRITE | OPEN_ALWAYS, false, e);
    var o := OpenFile(t, component, OPEN_WRITE | OPEN_ALWAYS, false, e);
    if o.Opened? {
      TruncateTouchesOneFile(o.tables, o.handle, size);
      var u := TruncateFile(o.tables, o.handle, NO_OBJECT, 0, size).0;
      FR.CloseReferences(u.handles[o.handle].file, NO_OBJECT, 0);
      CloseShrinksObjects(u.handles[o.handle].file, NO_OBJECT, 0);
    }
  }

  lemma OpenFreesNothing(t: Tables, r: Request)
    requires Inv(t) && Live(t) && Owned(t) && EnvFits(t, r) && r.Open?
    ensures forall h | h in t.handles :: h in Step(t, r).handles
  {
    hide Inv, Live, Owned, OpenFile, Attach;
    FileOpenAddsOne(t, r.component, r.flags, r.readOnly, r.env);
  }

  lemma RenameFreesNothing(t: Tables, r: Request)
    requires Live(t) && (r.Rename? || r.Remove?)
    ensures forall h | h in t.handles :: h in Step(t, r).handles
  {
    hide OpenConflict, RemoveAllowed, Namespace.ParentExists, Namespace.Intersects, Namespace.Moved;
  }

  lemma OthersFreeNothing(t: Tables, r: Request)
    requires Inv(t) && Live(t) && Owned(t) && EnvFits(t, r) && !r.Close? && !r.ClientGone? && !r.Resize?
    ensures FreesOnlyUnused(t, r)
  {
    hide Inv, Live, Owned, ClientOpen, RenameFile, RemoveFile, FR.Step, EnvFits, Namespace.ParentExists;
    if r.Open? {
      OpenFreesNothing(t, r);
    } else if r.Rename? || r.Remove? {
      RenameFreesNothing(t, r);
    }
  }

  /** What exactly keeps the references of a dataset in order: that clients close only what
      they have open. Any other close that gets through leaves a file with fewer references
      than opens, or frees a file that a client still has open. */
  lemma FairIffConserved(t: Tables, r: Request)
    requires Inv(t) && Owned(t) && EnvFits(t, r) && FromAClient(r)
    ensures Fair(t, r) <==> Owned(Step(t, r)) && FreesOnlyUnused(t, r)
  {
    InvIsLive(t);
    hide Inv, Live, Owned, FreesOnlyUnused, Step, EnvFits, Fair;
    if Fair(t, r) {
      StepKeepsOwned(t, r);
      StepFreesOnlyUnused(t, r);
    } else {
      UnfairClose(t, r);
    }
  }

  lemma UnfairClose(t: Tables, r: Request)
    requires Inv(t) && Live(t) && Owned(t) && !Fair(t, r)
    ensures !Owned(Step(t, r)) || !FreesOnlyUnused(t, r)
  {
    hide Inv, Live, Owned, FreesOnlyUnused, Step;
    UnfairCloseShows(t, r);
  }

  lemma StepFreesOnlyUnused(t: Tables, r: Request)
    requires Inv(t) && Live(t) && Owned(t) && EnvFits(t, r) && Fair(t, r)
    ensures FreesOnlyUnused(t, r)
  {
    if r.Resize? {
      hide Inv, Live, Owned, Fair, SetSize;
      ResizeFreesOnlyUnused(t, r.component, r.size, r.env);
      LiveResize(t, r);
    } else {
      hide Inv, Live, Owned, Fair, EnvFits, FreesOnlyUnused;
      if r.Close? {
        CloseFreesOnlyUnused(t, r);
      } else if r.ClientGone? {
        GoneFreesOnlyUnused(t, r.client);
      } else {
        OthersFreeNothing(t, r);
      }
    }
  }

  lemma LiveResize(t: Tables, r: Request)
    requires Live(t) && r.Resize?
    ensures Step(t, r) == SetSize(t, r.component, r.size, r.env).0
  {
    hide SetSize;
  }

  ghost predicate AllFair(t: Tables, rs: seq<Request>)
    decreases rs
  {
    rs == [] || (Fair(t, rs[0]) && AllFair(Step(t, rs[0]), rs[1..]))
  }

  predicate FromClients(rs: seq<Request>) {
    forall r | r in rs :: FromAClient(r)
  }

  /** After every request each reference belongs to a client, and no request has taken a
      handle from a client that still has it open. */
  ghost predicate AllConserved(t: Tables, rs: seq<Request>)
    decreases rs
  {
    rs == [] || (Owned(Step(t, rs[0])) && FreesOnlyUnused(t, rs[0]) && AllConserved(Step(t, rs[0]), rs[1..]))
  }

  /** Main result, exactly: the references are in order throughout a run if and only if clients
      close only what they have open. */
  lemma {:induction false} AllFairIffConserved(t: Tables, rs: seq<Request>)
    requires Inv(t) && Owned(t) && RunFits(t, rs) && FromClients(rs)
    ensures AllFair(t, rs) <==> AllConserved(t, rs)
    decreases rs
  {
    hide Inv, Owned, Step, EnvFits, Fair, FreesOnlyUnused, FromAClient;
    if rs != [] {
      assert rs[0] in rs && forall r | r in rs[1..] :: r in rs;
      FairIffConserved(t, rs[0]);
      StepKeepsInv(t, rs[0]);
      if Owned(Step(t, rs[0])) {
        AllFairIffConserved(Step(t, rs[0]), rs[1..]);
      }
    }
  }

  lemma {:induction false} RunKeepsOwned(t: Tables, rs: seq<Request>)
    requires Inv(t) && Owned(t) && RunFits(t, rs) && FromClients(rs) && AllFair(t, rs)
    ensures Owned(Run(t, rs))
    decreases rs
  {
    hide Inv, Owned, Step, EnvFits, Fair, FromAClient;
    if rs != [] {
      assert rs[0] in rs && forall r | r in rs[1..] :: r in rs;
      StepKeepsInv(t, rs[0]);
      StepKeepsOwned(t, rs[0]);
      RunKeepsOwned(Step(t, rs[0]), rs[1..]);
    }
  }

  /** Main result: from a freshly activated dataset, references stay in order if and only if
      clients close only what they have open; and then a file has exactly as many references
      as its clients have opens, and at least one. */
  lemma ReferencesAreConserved(t0: Tables, rs: seq<Request>)
    requires Initial(t0) && RunFits(t0, rs) && FromClients(rs)
    ensures AllFair(t0, rs) <==> AllConserved(t0, rs)
    ensures AllFair(t0, rs) ==> forall h | h in Run(t0, rs).handles ::
              var file := Run(t0, rs).handles[h].file; file.refcount == |file.objectRefs| > 0
  {
    hide Run, RunFits, AllFair, AllConserved, FromClients, FR.Inv;
    AllFairIffConserved(t0, rs);
    RunKeepsInv(t0, rs);
    if AllFair(t0, rs) {
      RunKeepsOwned(t0, rs);
    }
  }
}
