/** The managed dataset (`managed_dataset`): the tables it updates in place, and the loops
    over them. Every operation is proved to do to `View()` what its function in module
    DatasetTables says, and to keep the invariant of module DatasetRuns. */
module ManagedDatasets {
  import opened VssTypes
  import opened Namespace
  import opened DatasetTables
  import FS = FileStates
  import FR = FileRuns
  import Flocks
  import opened DatasetRuns

  datatype Maybe = Null | Just(id: HandleId)

  // ---------------------------------------------------------------- the release loop

  lemma {:induction false} WithoutNone(locks: seq<Flocks.Flock>, which: Flocks.Which)
    requires Flocks.Picked(locks, which) == []
    ensures Flocks.Without(locks, which) == locks
  {
    if locks != [] {
      WithoutNone(locks[1..], which);
    }
  }

  lemma {:induction false} NothingPicked(locks: seq<Flocks.Flock>, which: Flocks.Which)
    requires forall l | l in locks :: !which.Selects(l)
    ensures Flocks.Picked(locks, which) == []
  {
    if locks != [] {
      assert locks[0] in locks && forall l | l in locks[1..] :: l in locks;
      NothingPicked(locks[1..], which);
    }
  }

  /** A client that has nothing on the file. */
  ghost predicate HasNothing(s: FS.FileState, client: ObjectId) {
    !FS.Holds(s.oplocks, client) && (forall l | l in s.locks :: l.owner != client) && client !in s.objectRefs
  }

  lemma RemovedHasNothing(s: FS.FileState, client: ObjectId)
    ensures HasNothing(FS.RemoveObject(s, client).0, client)
  {
    FR.OthersMembers(s.oplocks, client);
    Flocks.WithoutMembers(s.locks, Flocks.OfObject(client));
    hide FS.OthersOplocks, Flocks.Without, Flocks.Picked, FS.BrContexts, FS.OpContexts;
  }

  lemma NothingToRemove(s: FS.FileState, client: ObjectId)
    requires HasNothing(s, client)
    ensures FS.RemoveObject(s, client) == (s, false)
  {
    var which := Flocks.OfObject(client);
    FR.NoneToRemove(s.oplocks, client);
    NothingPicked(s.locks, which);
    WithoutNone(s.locks, which);
    hide FS.OthersOplocks, Flocks.Without, Flocks.Picked, FS.BrContexts, FS.OpContexts;
    assert s.objectRefs[client := 0] == s.objectRefs;
  }

  /** Removing a client twice is removing it once: the restarted scan does no more harm. */
  lemma RemoveObjectIsIdempotent(s: FS.FileState, client: ObjectId)
    ensures var s' := FS.RemoveObject(s, client).0; FS.RemoveObject(s', client) == (s', false)
  {
    hide FS.RemoveObject, HasNothing;
    RemovedHasNothing(s, client);
    NothingToRemove(FS.RemoveObject(s, client).0, client);
  }

  /** Half-way through `object_release`: the ids in `rest` are still ahead in the current
      scan; whatever was passed survives without `client`, whatever is gone does not. */
  ghost predicate Releasing(t0: Tables, t: Tables, client: ObjectId, rest: set<U32>)
    requires Live(t0)
  {
    && ReleasingTables(t0, t)
    && rest <= t.fileIds.Keys
    && (forall i | i in t0.fileIds && i !in t.fileIds :: !SurvivesWithout(t0.handles[t0.fileIds[i]], client))
    && (forall h | h in t.handles :: t.handles[h] == t0.handles[h] || t.handles[h] == Without(t0.handles[h], client))
    && (forall i | i in t.fileIds && i !in rest ::
          && t.handles[t.fileIds[i]] == Without(t0.handles[t.fileIds[i]], client)
          && SurvivesWithout(t0.handles[t.fileIds[i]], client))
  }

  /** The tables have shrunk, consistently, and nothing was added. */
  ghost predicate ReleasingTables(t0: Tables, t: Tables) {
    && t.db == t0.db
    && (forall i | i in t.fileIds :: i in t0.fileIds && t.fileIds[i] == t0.fileIds[i] && t.fileIds[i] in t.handles)
    && (forall h | h in t.handles :: h in t0.handles)
    && (forall h | h in t0.handles :: h in t.handles <==> t0.handles[h].fileId in t.fileIds)
    && (forall p | p in t.openHandles :: p in t0.openHandles && t.openHandles[p] == t0.openHandles[p])
    && (forall p | p in t0.openHandles :: p in t.openHandles <==> t0.openHandles[p] in t.handles)
  }

  /** The files that are gone, as they were when they went, have handed back what they had. */
  ghost predicate HandedSoFar(t0: Tables, t: Tables, client: ObjectId) {
    t.requeued == t0.requeued + HandedBack(Gone(t0, t, client))
  }

  function Gone(t0: Tables, t: Tables, client: ObjectId): map<HandleId, Handle> {
    map h | h in t0.handles && h !in t.handles :: Without(t0.handles[h], client)
  }

  lemma NothingGoneYet(t: Tables, client: ObjectId)
    ensures HandedSoFar(t, t, client)
  {
    assert Gone(t, t, client) == map[];
  }

  lemma OneMoreGone(t0: Tables, t: Tables, client: ObjectId, h: HandleId)
    requires HandedSoFar(t0, t, client) && h in t.handles && h in t0.handles
    requires t.handles[h] == Without(t0.handles[h], client)
    ensures HandedSoFar(t0, DropHandle(t, h), client)
  {
    hide Without, HandBack;
    var g, g1 := Gone(t0, t, client), Gone(t0, DropHandle(t, h), client);
    assert h in g1 && g1 - {h} == g;
    HandedBackTakesAny(g1, h);
  }

  lemma SameGone(t0: Tables, t: Tables, t1: Tables, client: ObjectId)
    requires HandedSoFar(t0, t, client) && t1.handles.Keys == t.handles.Keys && t1.requeued == t.requeued
    ensures HandedSoFar(t0, t1, client)
  {
    hide Without;
    assert forall h :: h in t1.handles.Keys <==> h in t.handles.Keys;
    assert Gone(t0, t1, client) == Gone(t0, t, client);
  }

  lemma KnownBefore(t0: Tables, t: Tables, client: ObjectId, rest: set<U32>, h: HandleId)
    requires Live(t0) && Releasing(t0, t, client, rest) && h in t.handles
    ensures h in t0.handles
  {
  }

  lemma AllGone(t0: Tables, t: Tables, client: ObjectId)
    requires HandedSoFar(t0, t, client)
    requires forall h | h in t0.handles :: h in t.handles <==> SurvivesWithout(t0.handles[h], client)
    ensures t.requeued == t0.requeued + HandedBack(ClosedBy(t0.handles, client))
  {
    hide Without, SurvivesWithout;
    assert Gone(t0, t, client) == ClosedBy(t0.handles, client);
  }

  lemma ReleasingStarts(t0: Tables, client: ObjectId)
    requires Inv(t0) && Live(t0)
    ensures Releasing(t0, t0, client, t0.fileIds.Keys)
  {
    hide FR.Inv, Closed, DistinctContents, PathsAgree, NamesAgree, FilesInv, SurvivesWithout, Without;
  }

  lemma ReleasingPasses(t0: Tables, t: Tables, client: ObjectId, rest: set<U32>, i: U32)
    requires Inv(t0) && Live(t0) && Releasing(t0, t, client, rest) && i in rest
    ensures i in t.fileIds && t.fileIds[i] in t.handles
    ensures var h := t.fileIds[i];
            var t1 := SetFile(t, h, FS.RemoveObject(t.handles[h].file, client).0);
            && h in t1.handles && t1.handles[h] == Without(t0.handles[h], client)
            && (t1.handles[h].file.refcount > 0 <==> SurvivesWithout(t0.handles[h], client))
            && Releasing(t0, t1, client, if t1.handles[h].file.refcount > 0 then rest - {i} else rest)
  {
    hide FR.Inv, FS.RemoveObject, Closed, DistinctContents, PathsAgree, NamesAgree, FilesInv;
    var h := t.fileIds[i];
    assert t0.handles[h].fileId == i;
    RemovedAgain(t0.handles[h], t.handles[h], client);
    ReleasingUpdates(t0, t, client, rest, i);
  }

  lemma RemovedAgain(f0: Handle, f: Handle, client: ObjectId)
    requires f == f0 || f == Without(f0, client)
    ensures Without(f, client) == Without(f0, client)
    ensures Without(f0, client).file.refcount > 0 <==> SurvivesWithout(f0, client)
  {
    hide FS.RemoveObject;
    RemoveObjectIsIdempotent(f0.file, client);
    RemovedReferences(f0.file, client);
  }

  lemma ReleasingUpdates(t0: Tables, t: Tables, client: ObjectId, rest: set<U32>, i: U32)
    requires IdsAgree(t0) && Live(t0) && Releasing(t0, t, client, rest) && i in rest
    requires Without(t.handles[t.fileIds[i]], client) == Without(t0.handles[t.fileIds[i]], client)
    ensures var h := t.fileIds[i];
            Releasing(t0, t.(handles := t.handles[h := Without(t.handles[h], client)]), client,
                      if SurvivesWithout(t0.handles[h], client) then rest - {i} else rest)
  {
    hide FS.RemoveObject, SurvivesWithout, Without;
    var h := t.fileIds[i];
    assert t0.handles[h].fileId == i;
  }

  lemma ReleasingDropsTables(t0: Tables, t: Tables, h: HandleId)
    requires TablesInv(t0) && Live(t0) && ReleasingTables(t0, t)
    requires h in t.handles && t.handles[h] == t0.handles[h].(file := t.handles[h].file)
    ensures ReleasingTables(t0, DropHandle(t, h))
  {
    hide Closed, DistinctContents, NamesAgree;
  }

  lemma ReleasingDrops(t0: Tables, t: Tables, client: ObjectId, rest: set<U32>, i: U32)
    requires Inv(t0) && Live(t0) && Releasing(t0, t, client, rest) && i in rest
    requires t.handles[t.fileIds[i]] == Without(t0.handles[t.fileIds[i]], client)
    requires !SurvivesWithout(t0.handles[t.fileIds[i]], client)
    ensures var t1 := DropHandle(t, t.fileIds[i]); Releasing(t0, t1, client, t1.fileIds.Keys)
  {
    hide FR.Inv, FS.RemoveObject, PathsAgree, NamesAgree, Closed, DistinctContents, SurvivesWithout;
    var h := t.fileIds[i];
    assert t0.handles[h].fileId == i;
    ReleasingDropsTables(t0, t, h);
  }

  lemma FreedIdWasTabled(t0: Tables, t: Tables, client: ObjectId, rest: set<U32>, i: U32)
    requires Inv(t0) && Live(t0) && Releasing(t0, t, client, rest) && i in rest
    requires t.handles[t.fileIds[i]] == Without(t0.handles[t.fileIds[i]], client)
    ensures |DropHandle(t, t.fileIds[i]).fileIds| < |t.fileIds|
  {
    hide FR.Inv, FS.RemoveObject, PathsAgree, NamesAgree, Closed, DistinctContents, SurvivesWithout;
    var id := t.handles[t.fileIds[i]].fileId;
    assert t0.handles[t.fileIds[i]].fileId == i;
    assert t.fileIds == (t.fileIds - {id})[id := t.fileIds[id]];
  }

  lemma ReleasingDone(t0: Tables, t: Tables, client: ObjectId)
    requires Inv(t0) && Live(t0) && Releasing(t0, t, client, {}) && HandedSoFar(t0, t, client)
    ensures t == ObjectRelease(t0, client)
  {
    hide FR.Inv, FS.RemoveObject, Closed, DistinctContents, PathsAgree, NamesAgree, FilesInv, SurvivesWithout, Without, HandedSoFar;
    forall h | h in t0.handles
      ensures h in t.handles <==> SurvivesWithout(t0.handles[h], client)
      ensures h in t.handles ==> t.handles[h] == Without(t0.handles[h], client)
    {
      assert t0.fileIds[t0.handles[h].fileId] == h;
    }
    ReleasedTables(t0, t, client);
  }

  lemma ReleasedTables(t0: Tables, t: Tables, client: ObjectId)
    requires IdsAgree(t0) && Live(t0) && ReleasingTables(t0, t) && HandedSoFar(t0, t, client)
    requires forall h | h in t0.handles :: h in t.handles <==> SurvivesWithout(t0.handles[h], client)
    requires forall h | h in t.handles :: t.handles[h] == Without(t0.handles[h], client)
    ensures t == ObjectRelease(t0, client)
  {
    hide FS.RemoveObject, SurvivesWithout, Without, HandedSoFar;
    AllGone(t0, t, client);
    var t1 := ObjectRelease(t0, client);
    assert t.handles == t1.handles;
    assert t.openHandles == t1.openHandles;
    assert t.fileIds == t1.fileIds;
  }

  /** Half-way through the renaming scan: the handles in `done` have been looked at. */
  function RenamedSoFar(all: map<HandleId, Handle>, done: set<HandleId>, s: string, d: string): map<HandleId, Handle> {
    map h | h in all :: if h in done && all[h].component == s then all[h].(component := d) else all[h]
  }

  lemma RenameOneMore(all: map<HandleId, Handle>, done: set<HandleId>, h: HandleId, s: string, d: string)
    requires h in all
    ensures var now := RenamedSoFar(all, done, s, d);
            RenamedSoFar(all, done + {h}, s, d)
              == if now[h].component == s then now[h := now[h].(component := d)] else now
  {
  }

  lemma TreeIsClosed(t: Tables)
    requires Inv(t)
    ensures Closed(t.db)
  {
    hide FR.Inv, Closed;
  }

  class ManagedDataset {
    var db: Tree
    var handles: map<HandleId, Handle>
    var openHandles: map<string, HandleId>
    var fileIdToHandle: map<U32, HandleId>
    ghost var requeued: multiset<Context>  // trace: requests handed back by files that are gone

    ghost function View(): Tables
      reads this
    {
      Tables(db, handles, openHandles, fileIdToHandle, requeued)
    }

    ghost predicate Valid()
      reads this
    {
      Inv(View()) && Live(View())
    }

    constructor (db: Tree)
      requires Closed(db) && DistinctContents(db)
      ensures Valid() && Initial(View()) && View().db == db
    {
      this.db := db;
      handles, openHandles, fileIdToHandle, requeued := map[], map[], map[], multiset{};
    }

    // -------------------------------------------------------------- open

    /** Count the file id up until it is not in the table; it wraps around at 2^32. */
    method ProbeFileId(tentative: U32) returns (id: U32)
      requires |fileIdToHandle| < 0x1_0000_0000
      ensures id == FirstFree(fileIdToHandle.Keys, tentative) && id !in fileIdToHandle
    {
      id := tentative;
      ghost var all := fileIdToHandle.Keys;
      ghost var used, n := all, 0;
      assert |all| == |fileIdToHandle|;
      while id in fileIdToHandle
        invariant used <= all && n == |all| - |used|
        invariant forall x | x in all - used :: 1 <= (id - x) % 0x1_0000_0000 <= n
        invariant FirstFree(used, id) == FirstFree(all, tentative)
        decreases |used|
      {
        assert (id - id) % 0x1_0000_0000 == 0;
        assert id !in all - used;
        CardinalityMinusOne(all, used, id);
        ProbeStep(all, used, id, n);
        used, n := used - {id}, n + 1;
        id := NextId(id);
      }
      FirstFreeIsFree(all, used, id, n);
    }

    method NewHandle(component: string, path: string, readOnly: bool, flags: bv32, e: Env)
      requires Allocates(View(), e)
      modifies this
      ensures View() == AddHandle(old(View()), component, path, readOnly, flags, e)
    {
      var id := ProbeFileId(e.tentativeId);
      handles := handles[e.newHandle := Handle(component, path, id, false, readOnly, FS.Fresh(flags))];
      openHandles := openHandles[path := e.newHandle];
      fileIdToHandle := fileIdToHandle[id := e.newHandle];
    }

    method UpdateFile(h: HandleId, file: FS.FileState)
      requires h in handles
      modifies this`handles
      ensures h in handles && handles.Keys == old(handles).Keys && View() == SetFile(old(View()), h, file)
      ensures handles[h] == old(handles)[h].(file := file)
    {
      handles := handles[h := handles[h].(file := file)];
    }

    /** `handle` is what `open_file` hands back, or null. */
    ghost predicate Answers(o: Opened, rv: Status, handle: Maybe)
      reads this
    {
      View() == o.tables && rv == o.status && handle == (if o.Opened? then Just(o.handle) else Null)
    }

    method OpenContent(component: string, flags: bv32, isCreated: bool, e: Env) returns (rv: Status, handle: Maybe)
      requires Inv(View()) && component in db && db[component].File?
      requires db[component].path !in openHandles ==> Allocates(View(), e)
      modifies this
      ensures Answers(DatasetTables.OpenContent(old(View()), component, flags, isCreated, e), rv, handle)
    {
      hide FR.Inv, Closed, DistinctContents, IdsAgree, NamesAgree, SetFile, AddHandle, FS.AddReference;
      var path, writable := db[component].path, flags & OPEN_WRITE != 0;
      var ok := if !isCreated && flags & (CREATE_ALWAYS | OPEN_ALWAYS) != 0 then Exists else Success;
      if path !in openHandles {
        if !isCreated && writable && db[component].readOnly {
          return Perm, Null;
        }
        if e.hostFails {
          return BadObject, Null;
        }
        NewHandle(component, path, db[component].readOnly, flags, e);
        return ok, Just(e.newHandle);
      }
      var h := openHandles[path];
      if !isCreated && writable && handles[h].readOnly {
        return Perm, Null;
      }
      if handles[h].deletePending {
        return Busy, Null;
      }
      var (file, conflict) := FS.AddReference(handles[h].file, flags);
      if conflict != FS.Success {
        return Access, Null;
      }
      UpdateFile(h, file);
      return ok, Just(h);
    }

    /** The checks and steps of `open_file`. */
    method FindOrCreate(component: string, flags: bv32, readOnly: bool, e: Env) returns (rv: Status, handle: Maybe)
      requires Valid() && Supplies(View(), e)
      modifies this
      ensures Answers(DatasetTables.OpenFile(old(View()), component, flags, readOnly, e), rv, handle)
    {
      hide Inv, DatasetTables.OpenContent, Supplies, ParentExists;
      if IsDirectory(db, component) {
        return IsDir, Null;
      }
      if component !in db {
        if !ParentExists(db, component) {
          return BadPath, Null;
        }
        if !Creatable(flags) {
          return NotFound, Null;
        }
        if e.full {
          return TooMany, Null;
        }
        if e.dbFails {
          return NotFound, Null;
        }
        CreateComponent(component, readOnly, e);
        rv, handle := OpenContent(component, flags, true, e);
      } else {
        if flags & CREATE_NEW != 0 {
          return Perm, Null;
        }
        assert Allocates(View(), e) by { SuppliesAllocates(View(), e); }
        rv, handle := OpenContent(component, flags, false, e);
      }
    }

    method OpenFile(component: string, flags: bv32, readOnly: bool, e: Env) returns (rv: Status, handle: Maybe)
      requires Valid() && Supplies(View(), e)
      modifies this
      ensures Valid() && Answers(DatasetTables.OpenFile(old(View()), component, flags, readOnly, e), rv, handle)
      ensures handle.Just? ==> handle.id in handles
    {
      hide Inv, DatasetTables.OpenFile, Supplies;
      OpenKeepsInv(View(), component, flags, readOnly, e);
      rv, handle := FindOrCreate(component, flags, readOnly, e);
      InvIsLive(View());
    }

    method CreateComponent(component: string, readOnly: bool, e: Env)
      requires Inv(View()) && Supplies(View(), e) && component !in db && ParentExists(db, component)
      modifies this`db
      ensures db == old(db)[component := File(e.newPath, readOnly)]
      ensures Inv(View()) && Allocates(View(), e)
    {
      hide Inv, ParentExists;
      CreateKeepsInv(View(), component, e.newPath, readOnly);
      db := db[component := File(e.newPath, readOnly)];
    }

    method AttachHandle(h: HandleId, client: ObjectId, origin: U64, flags: bv32)
      requires h in handles
      modifies this`handles
      ensures View() == SetFile(old(View()), h, Attach(old(handles)[h].file, client, origin, flags))
    {
      handles := handles[h := handles[h].(file := Attach(handles[h].file, client, origin, flags))];
    }

    /** `open_file` as the request handler calls it, tying the handle to the client. */
    method ClientOpen(client: ObjectId, origin: U64, component: string, flags: bv32, readOnly: bool, e: Env) returns (rv: Status)
      requires Valid() && Supplies(View(), e)
      modifies this
      ensures Valid() && (View(), rv) == DatasetTables.ClientOpen(old(View()), client, origin, component, flags, readOnly, e)
    {
      hide Inv, Supplies, DatasetTables.OpenFile, Attach, SetFile;
      ClientOpenKeepsInv(View(), client, origin, component, flags, readOnly, e);
      var handle;
      rv, handle := OpenFile(component, flags, readOnly, e);
      if handle.Just? {
        AttachHandle(handle.id, client, origin, flags);
      }
      InvIsLive(View());
    }

    // -------------------------------------------------------------- close, client death

    /** The handle leaves the tables, and with it the file, which hands back whoever waits. */
    method FreeHandle(h: HandleId)
      requires h in handles
      modifies this
      ensures View() == DropHandle(old(View()), h)
    {
      requeued := requeued + HandBack(handles[h]);
      if !handles[h].deletePending {
        openHandles := openHandles - {handles[h].filename};
      }
      fileIdToHandle := fileIdToHandle - {handles[h].fileId};
      handles := handles - {h};
    }

    method CloseFile(h: HandleId, client: ObjectId, origin: U64) returns (rv: Status)
      requires Valid() && h in handles
      modifies this
      ensures Valid() && (View(), rv) == DatasetTables.CloseFile(old(View()), h, client, origin)
    {
      CloseKeepsInv(View(), h, client, origin);
      hide Inv, Live, FS.RemoveReference, FS.RemoveOpenOrigin, FS.ValidateOrigin, DropHandle, SetFile;
      if !FS.ValidateOrigin(handles[h].file, origin) {
        return Invalid;
      }
      var file := FS.RemoveReference(FS.RemoveOpenOrigin(handles[h].file, origin), client, origin).0;
      UpdateFile(h, file);
      rv := Success;
      if file.refcount <= 0 {
        if !handles[h].deletePending && handles[h].filename !in openHandles {
          rv := Invalid;
        }
        FreeHandle(h);
      }
      InvIsLive(View());
    }

    /** One turn of the scan: take the client off one handle, and free it if it was the last. */
    method ReleaseOne(client: ObjectId, i: U32, rest: set<U32>, ghost t0: Tables) returns (rest': set<U32>)
      requires Inv(t0) && Live(t0) && Releasing(t0, View(), client, rest) && i in rest && HandedSoFar(t0, View(), client)
      modifies this
      ensures Releasing(t0, View(), client, rest') && HandedSoFar(t0, View(), client)
      ensures (fileIdToHandle == old(fileIdToHandle) && |rest'| < |rest|) || |fileIdToHandle| < |old(fileIdToHandle)|
    {
      hide Releasing, Inv, Live, FS.RemoveObject, SetFile, DropHandle, Without, SurvivesWithout, HandedSoFar;
      ReleasingPasses(t0, View(), client, rest, i);
      var h := fileIdToHandle[i];
      ghost var before := View();
      UpdateFile(h, FS.RemoveObject(handles[h].file, client).0);
      SameGone(t0, before, View(), client);
      if handles[h].file.refcount > 0 {
        rest' := rest - {i};
      } else {
        ReleasingDrops(t0, View(), client, rest, i);
        FreedIdWasTabled(t0, View(), client, rest, i);
        KnownBefore(t0, View(), client, rest, h);
        OneMoreGone(t0, View(), client, h);
        FreeHandle(h);
        rest' := fileIdToHandle.Keys;
      }
    }

    /** Scan all file ids for the client; after freeing a handle, start over. */
    method ObjectRelease(client: ObjectId)
      requires Valid()
      modifies this
      ensures Valid() && View() == DatasetTables.ObjectRelease(old(View()), client)
    {
      ghost var t0 := View();
      var rest := fileIdToHandle.Keys;
      ReleasingStarts(t0, client);
      NothingGoneYet(t0, client);
      hide Releasing, Inv, HandedSoFar;
      while rest != {}
        invariant Releasing(t0, View(), client, rest) && HandedSoFar(t0, View(), client)
        decreases |fileIdToHandle|, |rest|
      {
        var i :| i in rest;
        rest := ReleaseOne(client, i, rest, t0);
      }
      ReleasingDone(t0, View(), client);
      ReleaseKeepsInv(t0, client);
      InvIsLive(View());
    }

    // -------------------------------------------------------------- remove

    method CheckRemoveAllowed(component: string, renameTarget: bool) returns (allowed: bool, fp: Maybe)
      requires Live(View())
      ensures allowed == RemoveAllowed(View(), component, renameTarget)
      ensures fp == if component in db && db[component].File? && db[component].path in openHandles
                    then Just(openHandles[db[component].path]) else Null
    {
      allowed, fp := true, Null;
      if component in db {
        if db[component].File? {
          var path := db[component].path;
          if path in openHandles {
            fp := Just(openHandles[path]);
            var file := handles[fp.id].file;
            if renameTarget {
              if file.refcount != 1 { allowed := false; }
            } else if file.accessMode & OPEN_DELETE == 0 {
              allowed := false;
            }
          }
        } else if HasChildren(db, component) {
          allowed := false;
        }
      }
    }

    method RemoveFile(component: string, renameTarget: bool, e: Env) returns (rv: Status)
      requires Valid()
      modifies this`db, this`handles, this`openHandles
      ensures Valid() && (View(), rv) == DatasetTables.RemoveFile(old(View()), component, renameTarget, e)
    {
      hide Inv, HasChildren;
      RemoveKeepsInv(View(), component, renameTarget, e);
      var allowed, fp := CheckRemoveAllowed(component, renameTarget);
      if !allowed {
        rv := Busy;
      } else if component !in db {
        rv := NotFound;
      } else {
        if fp.Just? {
          openHandles := openHandles - {handles[fp.id].filename};
          handles := handles[fp.id := handles[fp.id].(component := GONE, filename := GONE, deletePending := true)];
        }
        if e.dbFails {
          rv := BadCommand;
        } else {
          db := db - {component};
          rv := Success;
        }
      }
      InvIsLive(View());
    }

    // -------------------------------------------------------------- rename

    /** The scan of `check_open_conflict`; for a file it stops at the first handle that
        matches, conflicting or not. */
    method CheckOpenConflict(component: string) returns (conflict: bool)
      requires Valid()
      ensures conflict == OpenConflict(View(), component)
    {
      hide FR.Inv, Closed, DistinctContents, IdsAgree;
      conflict := false;
      if component in db {
        var rest := openHandles.Keys;
        while rest != {}
          invariant rest <= openHandles.Keys
          invariant forall p | p in openHandles && p !in rest :: !ConflictsAt(p, component)
          decreases |rest|
        {
          var p :| p in rest;
          var f := handles[openHandles[p]];
          if db[component].File? && f.component == component {
            OnlyMatch(p, component);
            return f.file.accessMode & OPEN_DELETE == 0;
          }
          if db[component].Dir? && component <= f.component {
            assert ConflictsAt(p, component);
            return true;
          }
          rest := rest - {p};
        }
      }
    }

    ghost predicate ConflictsAt(p: string, component: string)
      requires Live(View()) && p in openHandles && component in db
      reads this
    {
      var f := handles[openHandles[p]];
      match db[component]
      case Dir => component <= f.component
      case File(_, _) => f.component == component && f.file.accessMode & OPEN_DELETE == 0
    }

    /** At most one open handle goes by a component, so stopping at the first is right. */
    lemma OnlyMatch(p: string, component: string)
      requires Valid() && p in openHandles && handles[openHandles[p]].component == component
      ensures forall q | q in openHandles && handles[openHandles[q]].component == component :: q == p
    {
      hide FR.Inv, Closed;
      forall q | q in openHandles && handles[openHandles[q]].component == component ensures q == p {
        OneHandlePerComponent(View(), openHandles[p], openHandles[q]);
      }
    }

    /** Give every open handle with the old name the new one. */
    method RenameOpenHandles(source: string, destination: string)
      requires Live(View())
      modifies this`handles
      ensures View() == RenameHandles(old(View()), source, destination)
    {
      ghost var all, done := handles, {};
      var rest := openHandles.Keys;
      while rest != {}
        invariant rest <= openHandles.Keys && done <= openHandles.Values
        invariant forall p | p in openHandles && p !in rest :: openHandles[p] in done
        invariant handles == RenamedSoFar(all, done, source, destination)
        decreases |rest|
      {
        var p :| p in rest;
        var h := openHandles[p];
        RenameOneMore(all, done, h, source, destination);
        if handles[h].component == source {
          handles := handles[h := handles[h].(component := destination)];
        }
        rest, done := rest - {p}, done + {h};
      }
      assert done == openHandles.Values;
    }

    /** The part of `rename_component` from the database call on. */
    method MoveTo(source: string, destination: string, e: Env) returns (rv: Status)
      requires Valid() && source in db && MayMove(db, source, destination) && !OpenConflict(View(), source)
      modifies this`db, this`handles
      ensures Valid() && (View(), rv) == DoRename(old(View()), source, destination, e)
    {
      hide Inv, MayMove, OpenConflict, Moved, RenameHandles;
      DoRenameKeepsInv(View(), source, destination, e);
      if e.dbFails || source == "" {
        return BadCommand;
      }
      var isFile := db[source].File?;
      db := Moved(db, source, destination);
      if isFile {
        RenameOpenHandles(source, destination);
      }
      rv := Success;
      InvIsLive(View());
    }

    method RenameFile(source: string, destination: string, replace: bool, removing: Env, moving: Env) returns (rv: Status)
      requires Valid()
      modifies this
      ensures Valid() && (View(), rv) == DatasetTables.RenameFile(old(View()), source, destination, replace, removing, moving)
    {
      hide Inv, OpenConflict, DatasetTables.RemoveFile, DoRename, ParentExists, Intersects;
      var conflict := CheckOpenConflict(source);
      if conflict {
        return Busy;
      }
      if source !in db {
        return NotFound;
      }
      if source != destination {
        if Intersects(source, destination) {
          return Invalid;
        }
        if destination in db {
          if db[destination].Dir? {
            return IsDir;
          }
          if !replace {
            return FileExists;
          }
          ghost var t := View();
          rv := RemoveFile(destination, true, removing);
          if rv != Success {
            return;
          }
          RemovedTargetIsFree(t, source, destination, removing);
        } else if !ParentExists(db, destination) {
          return BadPath;
        }
      }
      TreeIsClosed(View());
      rv := MoveTo(source, destination, moving);
    }

    // -------------------------------------------------------------- the rest

    method MakeDirectory(component: string, e: Env) returns (rv: Status)
      requires Valid()
      modifies this`db
      ensures Valid() && (View(), rv) == DatasetTables.MakeDirectory(old(View()), component, e)
    {
      hide Inv, ParentExists;
      MakeDirectoryKeepsInv(View(), component, e);
      if !ParentExists(db, component) {
        rv := BadPath;
      } else if component in db {
        rv := if db[component].Dir? then IsDir else FileExists;
      } else if component == "" {
        rv := Success;
      } else if e.full {
        rv := TooMany;
      } else if e.dbFails {
        rv := Access;
      } else {
        db := db[component := Dir];
        rv := Success;
      }
    }

    /** The locks and oplocks that a truncation meets; the host's file is not part of this model. */
    method TruncateFile(h: HandleId, client: ObjectId, origin: U64, size: U64) returns (rv: Status)
      requires Valid() && h in handles
      modifies this`handles
      ensures Valid() && h in handles && (View(), rv) == DatasetTables.TruncateFile(old(View()), h, client, origin, size)
    {
      hide Inv, Flocks.IoBlocked, FS.OplockBroken;
      TruncateKeepsInv(View(), h, client, origin, size);
      var file := handles[h].file;
      if Flocks.IoBlocked(file.locks, origin, Flocks.WRITE_EXCL, size, END_OF_FILE) {
        assert handles == handles[h := handles[h].(file := file)];
        return Locked;
      }
      var (notified, broken) := FS.CheckOplockConflict(file, client, true);
      handles := handles[h := handles[h].(file := notified)];
      InvIsLive(View());
      rv := if broken then Retry else Success;
    }

    method SetSize(component: string, size: U64, e: Env) returns (rv: Status)
      requires Valid() && Supplies(View(), e)
      modifies this
      ensures Valid() && (View(), rv) == DatasetTables.SetSize(old(View()), component, size, e)
    {
      hide Inv, Supplies, DatasetTables.OpenFile, DatasetTables.CloseFile, DatasetTables.TruncateFile;
      var handle;
      rv, handle := OpenFile(component, OPEN_WRITE | OPEN_ALWAYS, false, e);
      if handle.Just? {
        rv := TruncateFile(handle.id, NO_OBJECT, 0, size);
        var closed := CloseFile(handle.id, NO_OBJECT, 0);
        if rv == Success {
          rv := closed;
        }
      }
    }

    /** `close_file` as the request handler calls it, with the id the client knows. */
    method ClientClose(fileId: U32, client: ObjectId, origin: U64) returns (rv: Status)
      requires Valid()
      modifies this
      ensures Valid() && (View(), rv) == DatasetTables.ClientClose(old(View()), fileId, client, origin)
    {
      hide Inv, DatasetTables.CloseFile;
      if fileId !in fileIdToHandle {
        return BadObject;
      }
      rv := CloseFile(fileIdToHandle[fileId], client, origin);
    }
  }
}
