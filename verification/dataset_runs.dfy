/** Whole runs of requests against a managed dataset: the handle tables, the component tree
    and the lock state of every open file stay coherent. */
module DatasetRuns {
  import opened VssTypes
  import opened Namespace
  import opened DatasetTables
  import FS = FileStates
  import FR = FileRuns

  // ---------------------------------------------------------------- the invariant

  /** File ids and handles correspond one to one. */
  ghost predicate IdsAgree(t: Tables) {
    && (forall i | i in t.fileIds :: t.fileIds[i] in t.handles && t.handles[t.fileIds[i]].fileId == i)
    && (forall h | h in t.handles :: t.handles[h].fileId in t.fileIds && t.fileIds[t.handles[h].fileId] == h)
  }

  /** A handle is in `openHandles`, under its own content path, exactly when it is not
      delete-pending. */
  ghost predicate PathsAgree(t: Tables) {
    && (forall p | p in t.openHandles :: t.openHandles[p] in t.handles
          && !t.handles[t.openHandles[p]].deletePending && t.handles[t.openHandles[p]].filename == p)
    && (forall h | h in t.handles && !t.handles[h].deletePending ::
          t.handles[h].filename in t.openHandles && t.openHandles[t.handles[h].filename] == h)
  }

  /** The component of a live handle maps to the content path the handle has open. */
  ghost predicate NamesAgree(t: Tables) {
    forall h | h in t.handles && !t.handles[h].deletePending ::
      && t.handles[h].component in t.db && t.db[t.handles[h].component].File?
      && t.db[t.handles[h].component].path == t.handles[h].filename
  }

  ghost predicate TablesInv(t: Tables) {
    IdsAgree(t) && PathsAgree(t) && NamesAgree(t) && Closed(t.db) && DistinctContents(t.db)
  }

  /** Every tabled file is referenced, and its locks satisfy the invariant of module FileRuns. */
  ghost predicate FilesInv(t: Tables) {
    forall h | h in t.handles :: t.handles[h].file.refcount > 0 && FR.Inv(t.handles[h].file)
  }

  ghost predicate Inv(t: Tables) {
    TablesInv(t) && FilesInv(t)
  }

  /** At most one live handle matches a component. */
  lemma OneHandlePerComponent(t: Tables, a: HandleId, b: HandleId)
    requires TablesInv(t) && a in t.handles && b in t.handles
    requires !t.handles[a].deletePending && !t.handles[b].deletePending
    requires t.handles[a].component == t.handles[b].component
    ensures a == b
  {
    assert t.handles[a].filename == t.handles[b].filename;
  }

  /** The branch of `open_file` for a tabled handle that is delete-pending is never taken. */
  lemma OpenNeverFindsPending(t: Tables, component: string, flags: bv32, readOnly: bool, e: Env)
    requires PathsAgree(t) && Live(t)
    ensures OpenFile(t, component, flags, readOnly, e).status != Busy
  {
    hide AddHandle, FS.AddReference, ParentExists, SetFile, Creatable;
  }

  /** A live handle stays reachable under its component: opening it again finds it. */
  lemma ReopenFindsTheHandle(t: Tables, h: HandleId, flags: bv32, readOnly: bool, e: Env)
    requires TablesInv(t) && h in t.handles && !t.handles[h].deletePending
    ensures var o := OpenFile(t, t.handles[h].component, flags, readOnly, e);
            && (o.Opened? ==> o.handle == h)
            && o.tables.openHandles == t.openHandles && o.tables.fileIds == t.fileIds
  {
    hide Closed, DistinctContents, IdsAgree, AddHandle;
  }

  // ---------------------------------------------------------------- file ids

  /** One more id passed: the ids passed so far lie at most one further behind. */
  lemma ProbeStep(all: set<U32>, used: set<U32>, id: U32, n: nat)
    requires used <= all && id in used && n == |all| - |used| && |all| < 0x1_0000_0000
    requires forall x | x in all - used :: 1 <= (id - x) % 0x1_0000_0000 <= n
    ensures forall x | x in all - (used - {id}) :: 1 <= (NextId(id) - x) % 0x1_0000_0000 <= n + 1
  {
    CardinalityMinusOne(all, used, id);
    forall x | x in all - (used - {id}) ensures 1 <= (NextId(id) - x) % 0x1_0000_0000 <= n + 1 {
      if x != id {
        assert x in all - used;
        Shift(id, x, n);
      }
    }
  }

  /** With fewer than 2^32 ids in use, counting up ends at an unused one: the ids already
      passed lie at most `n` behind, so the count never comes around to them. */
  lemma {:induction false} FirstFreeIsFree(all: set<U32>, used: set<U32>, id: U32, n: nat)
    requires used <= all && n == |all| - |used| && |all| < 0x1_0000_0000
    requires forall x | x in all - used :: 1 <= (id - x) % 0x1_0000_0000 <= n
    ensures FirstFree(used, id) !in all
    decreases |used|
  {
    if id in used {
      CardinalityMinusOne(all, used, id);
      ProbeStep(all, used, id, n);
      FirstFreeIsFree(all, used - {id}, NextId(id), n + 1);
    } else {
      assert (id - id) % 0x1_0000_0000 == 0;
      assert id !in all - used;
    }
  }

  lemma CardinalityMinusOne(all: set<U32>, used: set<U32>, id: U32)
    requires used <= all && id in used
    ensures |used - {id}| == |used| - 1 && |all| - |used| < |all|
  {
    assert used == (used - {id}) + {id};
  }

  lemma Shift(id: U32, x: U32, n: nat)
    requires 1 <= (id - x) % 0x1_0000_0000 <= n && n + 1 < 0x1_0000_0000
    ensures 1 <= (NextId(id) - x) % 0x1_0000_0000 <= n + 1
  {
    if id == 0xffff_ffff {
      assert (id - x) % 0x1_0000_0000 == id - x;
    } else if x <= id {
      assert (id - x) % 0x1_0000_0000 == id - x;
    } else {
      assert (id - x) % 0x1_0000_0000 == id - x + 0x1_0000_0000;
    }
  }

  lemma NewIdIsUnused(t: Tables, e: Env)
    requires Allocates(t, e)
    ensures FirstFree(t.fileIds.Keys, e.tentativeId) !in t.fileIds
  {
    assert |t.fileIds.Keys| == |t.fileIds|;
    FirstFreeIsFree(t.fileIds.Keys, t.fileIds.Keys, e.tentativeId, 0);
  }

  // ---------------------------------------------------------------- every operation keeps it

  lemma SetFileKeepsTables(t: Tables, h: HandleId, file: FS.FileState)
    requires h in t.handles && TablesInv(t)
    ensures TablesInv(SetFile(t, h, file))
  {
    hide Closed, DistinctContents;
    var t' := SetFile(t, h, file);
    assert forall x | x in t.handles :: t'.handles[x] == t.handles[x].(file := t'.handles[x].file);
  }

  lemma SetFileKeepsInv(t: Tables, h: HandleId, file: FS.FileState)
    requires h in t.handles && Inv(t) && file.refcount > 0 && FR.Inv(file)
    ensures Inv(SetFile(t, h, file))
  {
    hide FR.Inv, TablesInv;
    SetFileKeepsTables(t, h, file);
  }

  lemma FreshFileInv(flags: bv32)
    ensures FR.Inv(FS.Fresh(flags))
  {
  }

  lemma NewIdKeepsIdsAgree(t: Tables, component: string, path: string, readOnly: bool, flags: bv32, e: Env)
    requires IdsAgree(t) && Allocates(t, e)
    ensures IdsAgree(AddHandle(t, component, path, readOnly, flags, e))
  {
    hide FirstFree, FS.Fresh;
    NewIdIsUnused(t, e);
  }

  lemma NewPathKeepsPathsAgree(t: Tables, component: string, path: string, readOnly: bool, flags: bv32, e: Env)
    requires PathsAgree(t) && Allocates(t, e) && path !in t.openHandles
    ensures PathsAgree(AddHandle(t, component, path, readOnly, flags, e))
  {
    hide FirstFree, FS.Fresh;
  }

  lemma AddHandleKeepsInv(t: Tables, component: string, path: string, readOnly: bool, flags: bv32, e: Env)
    requires Inv(t) && Allocates(t, e)
    requires component in t.db && t.db[component].File? && t.db[component].path == path && path !in t.openHandles
    ensures Inv(AddHandle(t, component, path, readOnly, flags, e))
  {
    hide FR.Inv, Closed, DistinctContents, FirstFree, IdsAgree, PathsAgree;
    FreshFileInv(flags);
    NewIdKeepsIdsAgree(t, component, path, readOnly, flags, e);
    NewPathKeepsPathsAgree(t, component, path, readOnly, flags, e);
  }

  /** Creating a component gives it a content path that no handle has open. */
  lemma CreateKeepsInv(t: Tables, component: string, path: string, readOnly: bool)
    requires Inv(t) && component !in t.db && ParentExists(t.db, component)
    requires forall c | c in t.db && t.db[c].File? :: t.db[c].path != path
    ensures Inv(t.(db := t.db[component := File(path, readOnly)])) && path !in t.openHandles
  {
    AddedKeepsClosed(t.db, component, File(path, readOnly));
  }

  lemma OpenContentKeepsInv(t: Tables, component: string, flags: bv32, isCreated: bool, e: Env)
    requires Inv(t) && component in t.db && t.db[component].File?
    requires t.db[component].path !in t.openHandles ==> Allocates(t, e)
    ensures Inv(OpenContent(t, component, flags, isCreated, e).tables)
    ensures var o := OpenContent(t, component, flags, isCreated, e); o.Opened? ==> o.handle in o.tables.handles
  {
    hide FR.Inv, FirstFree, IdsAgree, NamesAgree, Closed, DistinctContents;
    var path := t.db[component].path;
    if path !in t.openHandles {
      AddHandleKeepsInv(t, component, path, t.db[component].readOnly, flags, e);
    } else {
      var h := t.openHandles[path];
      var file := FS.AddReference(t.handles[h].file, flags).0;
      FR.OpenKeepsInv(t.handles[h].file, FR.OpenInternal(flags));
      SetFileKeepsInv(t, h, file);
    }
  }

  lemma OpenKeepsInv(t: Tables, component: string, flags: bv32, readOnly: bool, e: Env)
    requires Inv(t) && Supplies(t, e)
    ensures var o := OpenFile(t, component, flags, readOnly, e);
            Inv(o.tables) && (o.Opened? ==> o.handle in o.tables.handles)
  {
    hide Inv, OpenContent;
    InvIsLive(t);
    if component in t.db && t.db[component].File? {
      OpenContentKeepsInv(t, component, flags, false, e);
    } else if component !in t.db && ParentExists(t.db, component) {
      CreateKeepsInv(t, component, e.newPath, readOnly);
      OpenContentKeepsInv(t.(db := t.db[component := File(e.newPath, readOnly)]), component, flags, true, e);
    }
  }

  lemma SuppliesAllocates(t: Tables, e: Env)
    requires Supplies(t, e)
    ensures Allocates(t, e)
  {
  }

  lemma InvIsLive(t: Tables)
    requires Inv(t)
    ensures Live(t)
  {
  }

  /** An opened handle can be tied to the client: the sharing modes were checked. */
  lemma OpenedFileCanBeAttached(t: Tables, component: string, flags: bv32, isCreated: bool, e: Env, client: ObjectId, origin: U64)
    requires Inv(t) && component in t.db && t.db[component].File?
    requires OpenContent(t, component, flags, isCreated, e).Opened?
    ensures var o := OpenContent(t, component, flags, isCreated, e);
            o.handle in o.tables.handles && FR.Inv(Attach(o.tables.handles[o.handle].file, client, origin, flags))
  {
    var path := t.db[component].path;
    if path in t.openHandles {
      var file := t.handles[t.openHandles[path]].file;
      hide FR.Inv, IdsAgree, NamesAgree, Closed, DistinctContents;
      FR.OpenKeepsInv(file, FR.Open(client, origin, flags));
    } else {
      AttachedFreshInv(client, origin, flags);
    }
  }

  lemma AttachedFreshInv(client: ObjectId, origin: U64, flags: bv32)
    ensures FR.Inv(Attach(FS.Fresh(flags), client, origin, flags))
  {
  }

  lemma ClientOpenKeepsInv(t: Tables, client: ObjectId, origin: U64, component: string, flags: bv32, readOnly: bool, e: Env)
    requires Inv(t) && Supplies(t, e)
    requires Live(t)
    ensures Inv(ClientOpen(t, client, origin, component, flags, readOnly, e).0)
  {
    hide TablesInv, OpenContent, FR.Inv;
    OpenKeepsInv(t, component, flags, readOnly, e);
    var o := OpenFile(t, component, flags, readOnly, e);
    if o.Opened? {
      if component in t.db {
        OpenedFileCanBeAttached(t, component, flags, false, e, client, origin);
      } else {
        CreateKeepsInv(t, component, e.newPath, readOnly);
        OpenedFileCanBeAttached(t.(db := t.db[component := File(e.newPath, readOnly)]), component, flags, true, e, client, origin);
      }
      SetFileKeepsInv(o.tables, o.handle, Attach(o.tables.handles[o.handle].file, client, origin, flags));
    }
  }

  // ---------------------------------------------------------------- close, client death

  lemma DropHandleKeepsTables(t: Tables, h: HandleId)
    requires TablesInv(t) && h in t.handles
    ensures TablesInv(DropHandle(t, h))
  {
    hide Closed, DistinctContents;
    var t' := DropHandle(t, h);
    assert forall i | i in t'.fileIds :: t'.fileIds[i] != h;
    assert forall p | p in t'.openHandles :: t'.openHandles[p] != h;
  }

  lemma CloseKeepsInv(t: Tables, h: HandleId, client: ObjectId, origin: U64)
    requires Inv(t) && h in t.handles
    ensures Inv(CloseFile(t, h, client, origin).0)
    ensures CloseFile(t, h, client, origin).1 == if FS.ValidateOrigin(t.handles[h].file, origin) then Success else Invalid
  {
    hide FR.Inv, FS.RemoveReference, FS.RemoveOpenOrigin, FS.ValidateOrigin, IdsAgree, NamesAgree, Closed, DistinctContents;
    var f := t.handles[h];
    if FS.ValidateOrigin(f.file, origin) {
      var file := FS.RemoveReference(FS.RemoveOpenOrigin(f.file, origin), client, origin).0;
      FR.CloseKeepsInv(f.file, client, origin);
      SetFileKeepsTables(t, h, file);
      DropHandleKeepsTables(SetFile(t, h, file), h);
    }
  }

  lemma ReleaseKeepsInv(t: Tables, client: ObjectId)
    requires Inv(t)
    ensures Inv(ObjectRelease(t, client))
  {
    hide FR.Inv, FS.RemoveObject, Closed, DistinctContents;
    var t' := ObjectRelease(t, client);
    forall h | h in t'.handles ensures t'.handles[h].file.refcount > 0 && FR.Inv(t'.handles[h].file) {
      FR.ClientGoneKeepsInv(t.handles[h].file, client);
      RemovedReferences(t.handles[h].file, client);
    }
    ReleaseKeepsTables(t, client);
  }

  lemma ReleaseKeepsTables(t: Tables, client: ObjectId)
    requires TablesInv(t)
    ensures TablesInv(ObjectRelease(t, client))
  {
    hide FR.Inv, FS.RemoveObject, Closed, DistinctContents, SurvivesWithout;
    var t' := ObjectRelease(t, client);
    assert forall h | h in t'.handles :: t'.handles[h] == t.handles[h].(file := t'.handles[h].file);
  }

  lemma RemovedReferences(s: FS.FileState, client: ObjectId)
    ensures FS.RemoveObject(s, client).0.refcount == s.refcount - s.objectRefs[client]
  {
    FR.RemoveOplocksKeepsRefs(s, client);
  }

  // ---------------------------------------------------------------- remove

  lemma DeletePendingKeepsPaths(t: Tables, h: HandleId)
    requires PathsAgree(t) && h in t.handles && !t.handles[h].deletePending
    ensures PathsAgree(SetDeletePending(t, h))
  {
    var t' := SetDeletePending(t, h);
    assert forall x | x in t'.handles && x != h :: t'.handles[x] == t.handles[x];
    assert forall p | p in t'.openHandles :: t'.openHandles[p] == t.openHandles[p] != h;
  }

  lemma DeletePendingKeepsInv(t: Tables, h: HandleId)
    requires Inv(t) && h in t.handles && !t.handles[h].deletePending
    ensures Inv(SetDeletePending(t, h))
  {
    hide FR.Inv, Closed, DistinctContents, PathsAgree;
    var t' := SetDeletePending(t, h);
    DeletePendingKeepsPaths(t, h);
    assert forall x | x in t'.handles && x != h :: t'.handles[x] == t.handles[x];
    assert t'.handles[h] == t.handles[h].(component := GONE, filename := GONE, deletePending := true);
  }

  lemma DeletePendingFreesName(t: Tables, h: HandleId)
    requires TablesInv(t) && h in t.handles && !t.handles[h].deletePending
    ensures forall x | x in SetDeletePending(t, h).handles && !SetDeletePending(t, h).handles[x].deletePending ::
              SetDeletePending(t, h).handles[x].component != t.handles[h].component
  {
    hide TablesInv;
    var t' := SetDeletePending(t, h);
    forall x | x in t'.handles && !t'.handles[x].deletePending
      ensures t'.handles[x].component != t.handles[h].component
    {
      if t.handles[x].component == t.handles[h].component { OneHandlePerComponent(t, x, h); }
    }
  }

  lemma DeleteKeepsInv(t: Tables, c: string)
    requires Inv(t) && c in t.db && !(IsDirectory(t.db, c) && HasChildren(t.db, c))
    requires forall h | h in t.handles && !t.handles[h].deletePending :: t.handles[h].component != c
    ensures Inv(t.(db := t.db - {c}))
  {
    hide FR.Inv, Closed, HasChildren;
    RemovedKeepsClosed(t.db, c);
  }

  lemma RemoveKeepsInv(t: Tables, c: string, renameTarget: bool, e: Env)
    requires Inv(t)
    requires Live(t)
    ensures Inv(RemoveFile(t, c, renameTarget, e).0)
  {
    if RemoveAllowed(t, c, renameTarget) && c in t.db {
      hide FR.Inv, Closed, HasChildren, DistinctContents, IdsAgree, FilesInv;
      if t.db[c].File? && t.db[c].path in t.openHandles {
        var h := t.openHandles[t.db[c].path];
        OpenPathIsOpenComponent(t, c);
        DeletePendingKeepsInv(t, h);
        DeletePendingFreesName(t, h);
        if !e.dbFails {
          DeleteKeepsInv(SetDeletePending(t, h), c);
        }
      } else if !e.dbFails {
        DeleteKeepsInv(t, c);
      }
    }
  }

  /** The handle found under a component's content path was opened as that component. */
  lemma OpenPathIsOpenComponent(t: Tables, c: string)
    requires TablesInv(t) && c in t.db && t.db[c].File? && t.db[c].path in t.openHandles
    ensures var h := t.openHandles[t.db[c].path];
            h in t.handles && !t.handles[h].deletePending && t.handles[h].component == c
  {
  }

  // ---------------------------------------------------------------- rename

  lemma MoveKeepsInv(t: Tables, s: string, d: string)
    requires Inv(t) && MayMove(t.db, s, d)
    requires Live(t)
    requires !OpenConflict(t, s)
    ensures Inv(MoveComponent(t, s, d))
  {
    hide FR.Inv, Closed, Moved, MayMove, Rebase;
    MoveKeepsClosed(t.db, s, d);
    MoveKeepsContentsDistinct(t.db, s, d);
    MoveKeepsNames(t, s, d);
    var t' := t.(db := Moved(t.db, s, d));
    RenameKeepsTables(t', s, d);
  }

  /** Renaming touches nothing but component names. */
  lemma RenameKeepsTables(t: Tables, s: string, d: string)
    requires IdsAgree(t) && PathsAgree(t)
    ensures var t' := RenameHandles(t, s, d); IdsAgree(t') && PathsAgree(t') && (FilesInv(t) ==> FilesInv(t'))
    ensures forall h | h in t.handles && !t.handles[h].deletePending ::
              RenameHandles(t, s, d).handles[h].component
                == if t.handles[h].component == s then d else t.handles[h].component
  {
    hide FR.Inv;
    var t' := RenameHandles(t, s, d);
    assert forall h | h in t.handles :: t'.handles[h] == t.handles[h].(component := t'.handles[h].component);
  }

  /** The names of open handles follow the move: a directory is moved only when nothing is
      open under it, a file takes its handle along. */
  lemma MoveKeepsNames(t: Tables, s: string, d: string)
    requires Inv(t) && MayMove(t.db, s, d)
    requires Live(t)
    requires !OpenConflict(t, s)
    ensures NamesAgree(MoveComponent(t, s, d))
  {
    hide FR.Inv, Closed, Moved;
    var t' := MoveComponent(t, s, d);
    RenameKeepsTables(t, s, d);
    forall h | h in t'.handles && !t'.handles[h].deletePending
      ensures t'.handles[h].component in t'.db
      ensures t'.db[t'.handles[h].component] == t.db[t.handles[h].component]
    {
      var c := t.handles[h].component;
      MovedEntry(t.db, s, d, c);
      if t.db[s].File? {
        if Under(c, s) { OnlyDirectoriesHaveContents(t.db, s, c); }
        assert Rebase(c, s, d) == if c == s then d else c by { assert s[|s|..] == ""; assert d + "" == d; }
      } else {
        assert t.openHandles[t.handles[h].filename] == h;
        assert !(s <= c);
        assert Rebase(c, s, d) == c;
      }
    }
  }

  /** A directory "a" beside an open file "ab". */
  function Neighbours(): Tables {
    Tables(map["a" := Dir, "ab" := File("p", false)], map[1 := Handle("ab", "p", 5, false, false, FS.Fresh(0))],
           map["p" := 1], map[5 := 1], multiset{})
  }

  lemma NeighboursCoherent()
    ensures Inv(Neighbours())
  {
    FreshFileInv(0);
    assert "a"[..0] == "" && "ab"[..1] == "a";
    assert LastSlash("a") == -1 && LastSlash("ab") == -1;
    hide FR.Inv, FS.Fresh, LastSlash;
    assert Closed(Neighbours().db) && DistinctContents(Neighbours().db);
  }

  /** Nothing is open below "a", and yet it cannot be renamed. */
  lemma NeighbourBlocksRename(e: Env)
    ensures Inv(Neighbours()) && Live(Neighbours()) && !OpenBelow(Neighbours(), "a")
    ensures RenameFile(Neighbours(), "a", "b", false, e, e) == (Neighbours(), Busy)
  {
    NeighboursCoherent();
    hide Inv, FS.Fresh;
    var t := Neighbours();
    assert t.openHandles["p"] == 1 && "a" <= t.handles[1].component;
    assert OpenConflict(t, "a");
    hide OpenConflict;
  }

  lemma DoRenameKeepsInv(t: Tables, s: string, d: string, e: Env)
    requires Inv(t) && MayMove(t.db, s, d)
    requires Live(t)
    requires !OpenConflict(t, s)
    ensures Inv(DoRename(t, s, d, e).0)
  {
    hide Inv, MayMove, OpenConflict, MoveComponent;
    if !e.dbFails && s != "" {
      MoveKeepsInv(t, s, d);
    }
  }

  /** Removing the target of a rename leaves nothing in the way of the move. */
  lemma RemovedTargetIsFree(t: Tables, s: string, d: string, e: Env)
    requires Inv(t) && s in t.db && d in t.db && t.db[d].File? && s != d && !Intersects(s, d)
    requires Live(t)
    requires !OpenConflict(t, s) && RemoveFile(t, d, true, e).1 == Success
    ensures var t1 := RemoveFile(t, d, true, e).0;
            && MayMove(t1.db, s, d) && Live(t1)
            && !OpenConflict(t1, s)
  {
    hide FR.Inv, Closed, HasChildren, DistinctContents, IdsAgree, FilesInv;
    RemovedKeepsClosed(t.db, d);
    var t1 := RemoveFile(t, d, true, e).0;
    assert t1.db == t.db - {d};
    ParentSurvives(t.db, d);
    assert forall p | p in t1.openHandles :: p in t.openHandles && t1.openHandles[p] == t.openHandles[p];
    if t.db[d].path in t.openHandles {
      OpenPathIsOpenComponent(t, d);
    }
    assert forall p | p in t1.openHandles :: t1.handles[t1.openHandles[p]] == t.handles[t.openHandles[p]];
  }

  lemma ParentSurvives(db: Tree, d: string)
    requires Closed(db) && d in db && db[d].File?
    ensures ParentExists(db - {d}, d)
  {
    assert ParentExists(db, d);
  }

  lemma RenameKeepsInv(t: Tables, s: string, d: string, replace: bool, removing: Env, moving: Env)
    requires Inv(t)
    requires Live(t)
    ensures Inv(RenameFile(t, s, d, replace, removing, moving).0)
  {
    hide FilesInv, IdsAgree, PathsAgree, NamesAgree, DistinctContents, Closed, OpenConflict, DoRename, RemoveFile, ParentExists, Intersects;
    if OpenConflict(t, s) || s !in t.db {
    } else if s == d {
      DoRenameKeepsInv(t, s, d, moving);
    } else if Intersects(s, d) {
    } else if d in t.db {
      if t.db[d].File? && replace {
        RemoveKeepsInv(t, d, true, removing);
        if RemoveFile(t, d, true, removing).1 == Success {
          RemovedTargetIsFree(t, s, d, removing);
          DoRenameKeepsInv(RemoveFile(t, d, true, removing).0, s, d, moving);
        }
      }
    } else if ParentExists(t.db, d) {
      DoRenameKeepsInv(t, s, d, moving);
    }
  }

  lemma MakeDirectoryKeepsInv(t: Tables, c: string, e: Env)
    requires Inv(t)
    ensures Inv(MakeDirectory(t, c, e).0)
  {
    hide FR.Inv, Closed, ParentExists;
    if ParentExists(t.db, c) && c !in t.db {
      AddedKeepsClosed(t.db, c, Dir);
    }
  }

  lemma TruncateKeepsInv(t: Tables, h: HandleId, client: ObjectId, origin: U64, size: U64)
    requires Inv(t) && h in t.handles
    ensures Inv(TruncateFile(t, h, client, origin, size).0)
  {
    hide FR.Inv, TablesInv, FS.DoIo;
    var file := t.handles[h].file;
    FR.IoOnlyNotifies(file, client, origin, true, size, END_OF_FILE);
    SetFileKeepsInv(t, h, FS.DoIo(file, client, origin, true, size, END_OF_FILE).0);
  }

  lemma SetSizeKeepsInv(t: Tables, c: string, size: U64, e: Env)
    requires Inv(t) && Supplies(t, e)
    requires Live(t)
    ensures Inv(SetSize(t, c, size, e).0)
  {
    hide Inv, OpenFile, CloseFile, FS.DoIo;
    OpenKeepsInv(t, c, OPEN_WRITE | OPEN_ALWAYS, false, e);
    var o := OpenFile(t, c, OPEN_WRITE | OPEN_ALWAYS, false, e);
    if o.Opened? {
      TruncateKeepsInv(o.tables, o.handle, NO_OBJECT, 0, size);
      CloseKeepsInv(TruncateFile(o.tables, o.handle, NO_OBJECT, 0, size).0, o.handle, NO_OBJECT, 0);
    }
  }

  // ---------------------------------------------------------------- whole runs

  datatype Request =
    | Open(client: ObjectId, origin: U64, component: string, flags: bv32, readOnly: bool, env: Env)
    | Close(fileId: U32, client: ObjectId, origin: U64)
    | OnFile(fileId: U32, request: FR.Request)
    | Remove(component: string, env: Env)
    | Rename(source: string, destination: string, replace: bool, removing: Env, moving: Env)
    | MakeDir(component: string, env: Env)
    | Resize(component: string, size: U64, env: Env)
    | ClientGone(client: ObjectId)

  /** Locking, I/O, caching and `release_file` reach one open file through its id. */
  predicate ForOneFile(r: FR.Request) {
    r.LockRange? || r.Io? || r.CacheLock? || r.Release?
  }

  ghost function StepOnFile(t: Tables, fileId: U32, r: FR.Request): Tables
    requires Live(t)
  {
    if fileId !in t.fileIds || !ForOneFile(r) then t
    else SetFile(t, t.fileIds[fileId], FR.Step(t.handles[t.fileIds[fileId]].file, r))
  }

  ghost function Step(t: Tables, r: Request): Tables {
    if !Live(t) then t
    else match r
      case Open(client, origin, c, flags, readOnly, e) => ClientOpen(t, client, origin, c, flags, readOnly, e).0
      case Close(fileId, client, origin) => ClientClose(t, fileId, client, origin).0
      case OnFile(fileId, fr) => StepOnFile(t, fileId, fr)
      case Remove(c, e) => RemoveFile(t, c, false, e).0
      case Rename(s, d, replace, removing, moving) => RenameFile(t, s, d, replace, removing, moving).0
      case MakeDir(c, e) => MakeDirectory(t, c, e).0
      case Resize(c, size, e) => SetSize(t, c, size, e).0
      case ClientGone(client) => ObjectRelease(t, client)
  }

  ghost predicate EnvFits(t: Tables, r: Request) {
    (r.Open? || r.Resize?) ==> Supplies(t, r.env)
  }

  ghost function Run(t: Tables, rs: seq<Request>): Tables
    decreases rs
  {
    if rs == [] then t else Run(Step(t, rs[0]), rs[1..])
  }

  ghost predicate RunFits(t: Tables, rs: seq<Request>)
    decreases rs
  {
    rs == [] || (EnvFits(t, rs[0]) && RunFits(Step(t, rs[0]), rs[1..]))
  }

  lemma OnFileKeepsInv(t: Tables, fileId: U32, r: FR.Request)
    requires Inv(t) && Live(t)
    ensures Inv(StepOnFile(t, fileId, r))
  {
    hide FR.Inv, FR.Step, TablesInv;
    if fileId in t.fileIds && ForOneFile(r) {
      var h := t.fileIds[fileId];
      var file := t.handles[h].file;
      FR.StepKeepsInv(file, r);
      StepKeepsRefcount(file, r);
      SetFileKeepsInv(t, h, FR.Step(file, r));
    }
  }

  lemma StepKeepsRefcount(s: FS.FileState, r: FR.Request)
    requires ForOneFile(r)
    ensures FR.Step(s, r).refcount == s.refcount
  {
    if r.Release? {
      FR.ReleaseKeepsRefs(s, r.origin);
    } else {
      FR.LockKeepsRefs(s, r);
    }
  }

  lemma StepKeepsInv(t: Tables, r: Request)
    requires Inv(t) && EnvFits(t, r)
    ensures Inv(Step(t, r))
  {
    hide Inv, Live, ClientOpen, CloseFile, StepOnFile, RemoveFile, RenameFile, MakeDirectory, SetSize, ObjectRelease;
    InvIsLive(t);
    match r
    case Open(client, origin, c, flags, readOnly, e) => ClientOpenKeepsInv(t, client, origin, c, flags, readOnly, e);
    case Close(fileId, client, origin) => ClientCloseKeepsInv(t, fileId, client, origin);
    case OnFile(fileId, fr) => OnFileKeepsInv(t, fileId, fr);
    case Remove(c, e) => RemoveKeepsInv(t, c, false, e);
    case Rename(s, d, replace, removing, moving) => RenameKeepsInv(t, s, d, replace, removing, moving);
    case MakeDir(c, e) => MakeDirectoryKeepsInv(t, c, e);
    case Resize(c, size, e) => SetSizeKeepsInv(t, c, size, e);
    case ClientGone(client) => ReleaseKeepsInv(t, client);
  }

  lemma ClientCloseKeepsInv(t: Tables, fileId: U32, client: ObjectId, origin: U64)
    requires Inv(t) && Live(t)
    ensures Inv(ClientClose(t, fileId, client, origin).0)
  {
    hide Inv, CloseFile;
    if fileId in t.fileIds {
      CloseKeepsInv(t, t.fileIds[fileId], client, origin);
    }
  }

  /** A dataset that has just been activated: nothing is open. */
  ghost predicate Initial(t: Tables) {
    t.handles == map[] && t.openHandles == map[] && t.fileIds == map[] && Closed(t.db) && DistinctContents(t.db)
  }

  lemma {:induction false} RunKeepsInv(t: Tables, rs: seq<Request>)
    requires Inv(t) && RunFits(t, rs)
    ensures Inv(Run(t, rs))
    decreases rs
  {
    hide Inv, Step, EnvFits;
    if rs != [] {
      StepKeepsInv(t, rs[0]);
      RunKeepsInv(Step(t, rs[0]), rs[1..]);
    }
  }

  /** Main result: after any run of requests on a freshly activated dataset, file ids are
      unique, every handle is either live, tabled under its own content path and in agreement
      with the tree, or delete-pending and in no table but the id table; a component has at
      most one live handle; and every tabled handle is still referenced. */
  lemma TablesStayCoherent(t0: Tables, rs: seq<Request>)
    requires Initial(t0) && RunFits(t0, rs)
    ensures var t := Run(t0, rs);
            && (forall a, b | a in t.handles && b in t.handles && t.handles[a].fileId == t.handles[b].fileId :: a == b)
            && (forall h | h in t.handles :: t.handles[h].fileId in t.fileIds && t.fileIds[t.handles[h].fileId] == h)
            && (forall h | h in t.handles && t.handles[h].deletePending :: h !in t.openHandles.Values)
            && (forall h | h in t.handles && !t.handles[h].deletePending ::
                  var f := t.handles[h];
                  && f.filename in t.openHandles && t.openHandles[f.filename] == h
                  && f.component in t.db && t.db[f.component].File? && t.db[f.component].path == f.filename)
            && (forall a, b | a in t.handles && b in t.handles && a != b
                  && !t.handles[a].deletePending && !t.handles[b].deletePending ::
                  t.handles[a].component != t.handles[b].component)
            && (forall h | h in t.handles :: t.handles[h].file.refcount > 0)
  {
    hide Run, RunFits, FR.Inv;
    RunKeepsInv(t0, rs);
    var t := Run(t0, rs);
    assert Inv(t);
    forall a, b | a in t.handles && b in t.handles && a != b && !t.handles[a].deletePending && !t.handles[b].deletePending
      ensures t.handles[a].component != t.handles[b].component
    {
      if t.handles[a].component == t.handles[b].component { OneHandlePerComponent(t, a, b); }
    }
  }

  /** And the lock state of every open file satisfies the invariant of module FileRuns: across
      opens, closes, renames and deaths of clients, no waiter is forgotten. */
  lemma LocksStayCoherent(t0: Tables, rs: seq<Request>, h: HandleId)
    requires Initial(t0) && RunFits(t0, rs) && h in Run(t0, rs).handles
    ensures FR.Inv(Run(t0, rs).handles[h].file)
  {
    hide Run, RunFits, FR.Inv;
    RunKeepsInv(t0, rs);
  }

  /** Deleting an open file frees its name but leaves the open file as it was, under its id;
      the next open of that name makes another handle. */
  lemma DeletedFileStaysOpen(t: Tables, h: HandleId, e: Env, flags: bv32, readOnly: bool, e': Env)
    requires Inv(t) && Live(t) && h in t.handles && !t.handles[h].deletePending
    requires RemoveFile(t, t.handles[h].component, false, e).1 == Success
    ensures var c, t' := t.handles[h].component, RemoveFile(t, t.handles[h].component, false, e).0;
            && c !in t'.db && t'.fileIds == t.fileIds
            && h in t'.handles && t'.handles[h].file == t.handles[h].file && t'.handles[h].deletePending
            && Live(t')
            && (Supplies(t', e') && OpenFile(t', c, flags, readOnly, e').Opened? ==>
                  OpenFile(t', c, flags, readOnly, e').handle != h)
  {
    hide FR.Inv, Closed, DistinctContents, HasChildren, AddHandle;
    var c := t.handles[h].component;
    var t' := RemoveFile(t, c, false, e).0;
    RemoveKeepsInv(t, c, false, e);
    InvIsLive(t');
    if Supplies(t', e') && ParentExists(t'.db, c) {
      CreateKeepsInv(t', c, e'.newPath, readOnly);
    }
  }

  /** A dying client takes exactly its own references with it, and exactly the handles are
      freed that nobody else, client or dataset, has open, whether deleted or not. */
  lemma ReleaseDropsExactlyItsOwn(t: Tables, client: ObjectId, h: HandleId)
    requires h in t.handles
    ensures var f, t' := t.handles[h].file, ObjectRelease(t, client);
            && (h in t'.handles <==> |f.objectRefs| - f.objectRefs[client] + FR.Anonymous(f) > 0)
            && (h in t'.handles ==>
                  && client !in t'.handles[h].file.objectRefs
                  && (forall c | c != client :: t'.handles[h].file.objectRefs[c] == f.objectRefs[c])
                  && FR.Anonymous(t'.handles[h].file) == FR.Anonymous(f))
  {
    FR.ClientGoneDropsOnlyItsOwn(t.handles[h].file, client);
  }
}
