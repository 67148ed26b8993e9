/** What each request against a managed dataset answers and does, told from outside: in names,
    in what is open under them, and in bits of the protocol. */
module DatasetAnswers {
  import opened VssTypes
  import opened Namespace
  import opened DatasetTables
  import opened DatasetRuns
  import FS = FileStates
  import FR = FileRuns
  import FA = FileAnswers

  /** The file `c` is open, by `h`. */
  predicate OpenAs(t: Tables, c: string, h: HandleId) {
    h in t.handles && !t.handles[h].deletePending && t.handles[h].component == c
  }

  ghost predicate IsOpen(t: Tables, c: string) { exists h :: OpenAs(t, c, h) }

  /** Whoever has `c` open is the one found under its content path. */
  lemma OpenAsIff(t: Tables, c: string, h: HandleId)
    requires TablesInv(t) && c in t.db && t.db[c].File?
    ensures OpenAs(t, c, h) <==> t.db[c].path in t.openHandles && t.openHandles[t.db[c].path] == h
  {
    hide Closed;
    if t.db[c].path in t.openHandles {
      OpenPathIsOpenComponent(t, c);
    }
  }

  lemma IsOpenIff(t: Tables, c: string)
    requires TablesInv(t) && c in t.db && t.db[c].File?
    ensures IsOpen(t, c) <==> t.db[c].path in t.openHandles
    ensures IsOpen(t, c) ==> OpenAs(t, c, t.openHandles[t.db[c].path])
  {
    forall h ensures OpenAs(t, c, h) <==> t.db[c].path in t.openHandles && t.openHandles[t.db[c].path] == h {
      OpenAsIff(t, c, h);
    }
    hide TablesInv, OpenAs;
    if t.db[c].path in t.openHandles {
      assert OpenAs(t, c, t.openHandles[t.db[c].path]);
    }
  }

  // ---------------------------------------------------------------- open

  lemma OpenBits(flags: bv32)
    ensures Creatable(flags) <==> flags & 0x38 != 0
    ensures flags & OPEN_WRITE == flags & 2 && flags & CREATE_NEW == flags & 0x20
    ensures flags & (CREATE_ALWAYS | OPEN_ALWAYS) == flags & 0x18
  {
    assert OPEN_ALWAYS | CREATE_ALWAYS | CREATE_NEW == 0x38 && CREATE_ALWAYS | OPEN_ALWAYS == 0x18;
  }

  /** What cannot be opened at all: a directory; a name without its directory; a missing file
      that may not be made, or cannot; and an existing one that was to be new. */
  lemma OpenRefusals(t: Tables, c: string, flags: bv32, readOnly: bool, e: Env)
    requires Live(t)
    ensures var o := OpenFile(t, c, flags, readOnly, e);
            && (c in t.db && t.db[c].Dir? ==> o == Refused(t, IsDir))
            && (c !in t.db && !ParentExists(t.db, c) ==> o == Refused(t, BadPath))
            && (c !in t.db && ParentExists(t.db, c) && flags & 0x38 == 0 ==> o == Refused(t, NotFound))
            && (c !in t.db && ParentExists(t.db, c) && flags & 0x38 != 0 && e.full ==> o == Refused(t, TooMany))
            && (c !in t.db && ParentExists(t.db, c) && flags & 0x38 != 0 && !e.full && e.dbFails ==> o == Refused(t, NotFound))
            && (c in t.db && t.db[c].File? && flags & 0x20 != 0 ==> o == Refused(t, Perm))
  {
    OpenBits(flags);
    hide OpenContent, ParentExists, Creatable;
  }

  /** A new handle: for that name and content path, with one reference and nothing else, under
      an id that was not in use. */
  ghost predicate NewHandle(t: Tables, t': Tables, c: string, path: string, readOnly: bool, flags: bv32, e: Env) {
    && e.newHandle !in t.handles && e.newHandle in t'.handles
    && var f := t'.handles[e.newHandle];
       && f == Handle(c, path, f.fileId, false, readOnly, FS.Fresh(flags)) && f.fileId !in t.fileIds
       && t' == t.(handles := t.handles[e.newHandle := f], openHandles := t.openHandles[path := e.newHandle],
                   fileIds := t.fileIds[f.fileId := e.newHandle])
  }

  /** A missing file is made, empty of contents of others, and opened, unless the host fails;
      then it is there all the same. */
  lemma OpenMakes(t: Tables, c: string, flags: bv32, readOnly: bool, e: Env)
    requires Inv(t) && Live(t) && Supplies(t, e)
    requires c !in t.db && ParentExists(t.db, c) && flags & 0x38 != 0 && !e.full && !e.dbFails
    ensures var o, t1 := OpenFile(t, c, flags, readOnly, e), t.(db := t.db[c := File(e.newPath, readOnly)]);
            if e.hostFails then o == Refused(t1, BadObject)
            else && o == Opened(o.tables, Success, e.newHandle) && NewHandle(t1, o.tables, c, e.newPath, readOnly, flags, e)
                 && e.newPath !in t.openHandles
  {
    OpenBits(flags);
    SuppliesAllocates(t, e);
    CreateKeepsInv(t, c, e.newPath, readOnly);
    var t1 := t.(db := t.db[c := File(e.newPath, readOnly)]);
    NewIdIsUnused(t1, e);
    hide Inv, Creatable, ParentExists, FirstFree, Supplies;
  }

  /** An existing file that nobody has open: a read-only one is not opened to be written; else
      it gets a handle, and the answer tells if it might have been made. */
  lemma OpenFirst(t: Tables, c: string, flags: bv32, readOnly: bool, e: Env)
    requires Inv(t) && Live(t) && Supplies(t, e)
    requires c in t.db && t.db[c].File? && !IsOpen(t, c) && flags & 0x20 == 0
    ensures var o, f := OpenFile(t, c, flags, readOnly, e), t.db[c];
            if flags & 2 != 0 && f.readOnly then o == Refused(t, Perm)
            else if e.hostFails then o == Refused(t, BadObject)
            else && o == Opened(o.tables, if flags & 0x18 != 0 then Exists else Success, e.newHandle)
                 && NewHandle(t, o.tables, c, f.path, f.readOnly, flags, e)
  {
    OpenBits(flags);
    SuppliesAllocates(t, e);
    NewIdIsUnused(t, e);
    IsOpenIff(t, c);
    hide Inv, Creatable, ParentExists, FirstFree, Supplies, IsOpen;
  }

  /** One that is open already: the same handle, with one more reference, unless that is not to
      be written or the sharing modes disagree. */
  lemma OpenAgain(t: Tables, c: string, flags: bv32, readOnly: bool, e: Env, h: HandleId)
    requires Inv(t) && Live(t)
    requires c in t.db && t.db[c].File? && OpenAs(t, c, h) && flags & 0x20 == 0
    ensures var o, f := OpenFile(t, c, flags, readOnly, e), t.handles[h].file;
            if flags & 2 != 0 && t.handles[h].readOnly then o == Refused(t, Perm)
            else if FS.AddReference(f, flags).1 == FS.Access then o == Refused(t, Access)
            else o == Opened(SetFile(t, h, f.(refcount := f.refcount + 1)), if flags & 0x18 != 0 then Exists else Success, h)
  {
    OpenBits(flags);
    OpenAsIff(t, c, h);
    FA.ShareAnswers(t.handles[h].file, flags);
    hide Inv, Creatable, ParentExists, FS.AddReference;
  }

  /** What the handler adds for the client once the file is open. */
  lemma ClientOpenEffect(t: Tables, client: ObjectId, origin: U64, c: string, flags: bv32, readOnly: bool, e: Env)
    requires Inv(t) && Live(t) && Supplies(t, e)
    ensures var o, (t', rv) := OpenFile(t, c, flags, readOnly, e), ClientOpen(t, client, origin, c, flags, readOnly, e);
            && rv == o.status
            && (o.Refused? ==> t' == o.tables)
            && (o.Opened? ==>
                  && o.handle in o.tables.handles
                  && var f := o.tables.handles[o.handle].file;
                     t' == SetFile(o.tables, o.handle,
                       f.(objectRefs := f.objectRefs + multiset{client}, originFlags := f.originFlags[origin := flags],
                          accessMode := f.accessMode | flags, openOrigins := f.openOrigins + [origin])))
  {
    OpenKeepsInv(t, c, flags, readOnly, e);
    hide Inv, Supplies, OpenFile;
  }

  // ---------------------------------------------------------------- close

  /** What a close does to the tables, once the file is `file`. */
  ghost predicate ClosedTables(t: Tables, t': Tables, h: HandleId, file: FS.FileState)
    requires h in t.handles
  {
    var f := t.handles[h];
    && t'.db == t.db
    && (h in t'.handles <==> file.refcount > 0)
    && (h in t'.handles ==>
          t'.handles[h] == f.(file := file) && t'.fileIds == t.fileIds && t'.openHandles == t.openHandles && t'.requeued == t.requeued)
    && (h !in t'.handles ==>
          && t'.fileIds == t.fileIds - {f.fileId}
          && t'.openHandles == (if f.deletePending then t.openHandles else t.openHandles - {f.filename}))
    && (forall x | x != h :: (x in t'.handles <==> x in t.handles) && (x in t.handles ==> t'.handles[x] == t.handles[x]))
  }

  lemma SetOrDropped(t: Tables, h: HandleId, file: FS.FileState)
    requires h in t.handles
    ensures ClosedTables(t, if file.refcount > 0 then SetFile(t, h, file) else DropHandle(SetFile(t, h, file), h), h, file)
  {
    hide HandBack;
  }

  /** A close through a handle that has the file open takes one reference; with the last one the
      handle goes, with its id, and its content path if it still has it. */
  lemma CloseAnswers(t: Tables, h: HandleId, client: ObjectId, origin: U64)
    requires Inv(t) && h in t.handles
    ensures var f, (t', rv) := t.handles[h], CloseFile(t, h, client, origin);
            var file := FR.Step(f.file, FR.Close(client, origin));
            if origin != 0 && origin !in f.file.openOrigins then rv == Invalid && t' == t
            else rv == Success && ClosedTables(t, t', h, file) && file.refcount == f.file.refcount - 1
  {
    CloseKeepsInv(t, h, client, origin);
    ReferencedFiles(t, h);
    hide Inv;
    if origin == 0 || origin in t.handles[h].file.openOrigins {
      CloseThrough(t, h, client, origin);
    } else {
      ClosedInVain(t, h, client, origin);
    }
  }

  /** By file id: the one open file with that id is closed, or there is none. */
  lemma ClientCloseAnswers(t: Tables, fileId: U32, client: ObjectId, origin: U64)
    requires Inv(t) && Live(t)
    ensures var (t', rv) := ClientClose(t, fileId, client, origin);
            && (rv == BadObject <==> forall h | h in t.handles :: t.handles[h].fileId != fileId)
            && (rv != Success ==> t' == t)
            && (rv == Success <==> exists h | h in t.handles && t.handles[h].fileId == fileId ::
                                     origin == 0 || origin in t.handles[h].file.openOrigins)
            && forall h | h in t.handles && t.handles[h].fileId != fileId ::
                 h in t'.handles && t'.handles[h] == t.handles[h]
  {
    if fileId in t.fileIds {
      CloseAnswers(t, t.fileIds[fileId], client, origin);
    }
  }

  lemma ClosedInVain(t: Tables, h: HandleId, client: ObjectId, origin: U64)
    requires h in t.handles && origin != 0 && origin !in t.handles[h].file.openOrigins
    ensures CloseFile(t, h, client, origin) == (t, Invalid)
  {
  }

  lemma CloseThrough(t: Tables, h: HandleId, client: ObjectId, origin: U64)
    requires h in t.handles && t.handles[h].file.refcount > 0 && (origin == 0 || origin in t.handles[h].file.openOrigins)
    ensures FS.ValidateOrigin(t.handles[h].file, origin)
    ensures var file := FR.Step(t.handles[h].file, FR.Close(client, origin));
            ClosedTables(t, CloseFile(t, h, client, origin).0, h, file) && file.refcount == t.handles[h].file.refcount - 1
  {
    var f := t.handles[h].file;
    var file := FS.RemoveReference(FS.RemoveOpenOrigin(f, origin), client, origin).0;
    FA.CloseEffect(f, client, origin);
    SetOrDropped(t, h, file);
    hide FS.RemoveReference, FS.RemoveOpenOrigin, SetFile, DropHandle, ClosedTables;
  }

  lemma ReferencedFiles(t: Tables, h: HandleId)
    requires Inv(t) && h in t.handles
    ensures t.handles[h].file.refcount > 0
  {
    hide TablesInv, FR.Inv;
  }

  /** The death of a client: what stays open is what somebody else has open, without the client's
      locks, oplocks and opens; ids and content paths of the others are given up. */
  lemma GoneAnswers(t: Tables, client: ObjectId)
    requires Live(t)
    ensures var t' := ObjectRelease(t, client);
            && t'.db == t.db
            && (forall h :: h in t'.handles <==> h in t.handles && t.handles[h].file.refcount > t.handles[h].file.objectRefs[client])
            && (forall h | h in t'.handles :: t'.handles[h] == t.handles[h].(file := FS.RemoveObject(t.handles[h].file, client).0))
            && (forall i :: i in t'.fileIds <==> i in t.fileIds && t.fileIds[i] in t'.handles)
            && (forall i | i in t'.fileIds :: t'.fileIds[i] == t.fileIds[i])
            && (forall p :: p in t'.openHandles <==> p in t.openHandles && t.openHandles[p] in t'.handles)
            && (forall p | p in t'.openHandles :: t'.openHandles[p] == t.openHandles[p])
  {
    hide FS.RemoveObject, HandedBack;
  }

  // ---------------------------------------------------------------- remove

  ghost predicate HasEntriesBelow(db: Tree, c: string) {
    exists k :: k in db && Below(k, c)
  }

  lemma ChildrenIff(db: Tree, c: string)
    ensures HasChildren(db, c) <==> HasEntriesBelow(db, c)
  {
    if HasChildren(db, c) {
      var k :| k in db && (if c == "" then k != "" else Under(k, c));
      assert k in db && Below(k, c);
    }
  }

  /** A directory goes if nothing is below it. */
  lemma RemoveDirectoryAnswers(t: Tables, c: string, renameTarget: bool, e: Env)
    requires Live(t) && (c !in t.db || t.db[c].Dir?)
    ensures RemoveFile(t, c, renameTarget, e) ==
              if c !in t.db then (t, NotFound)
              else if HasEntriesBelow(t.db, c) then (t, Busy)
              else if e.dbFails then (t, BadCommand)
              else (t.(db := t.db - {c}), Success)
  {
    ChildrenIff(t.db, c);
    hide HasChildren, HasEntriesBelow;
  }

  /** An open file loses its name and its content path, but stays open under its id. */
  ghost predicate Unnamed(t: Tables, t': Tables, c: string) {
    && t'.fileIds == t.fileIds && t'.requeued == t.requeued && t'.handles.Keys == t.handles.Keys
    && (forall p :: p in t'.openHandles <==> p in t.openHandles && !OpenAs(t, c, t.openHandles[p]))
    && (forall p | p in t'.openHandles :: t'.openHandles[p] == t.openHandles[p])
    && (forall h | h in t.handles ::
          t'.handles[h] == if OpenAs(t, c, h) then t.handles[h].(component := GONE, filename := GONE, deletePending := true)
                           else t.handles[h])
  }

  /** A file goes if it is not open, or open so that it may be deleted; as the target of a rename,
      if it is open once. One that is open loses its name also when the database then fails. */
  lemma RemoveFileAnswers(t: Tables, c: string, renameTarget: bool, e: Env)
    requires Inv(t) && Live(t) && c in t.db && t.db[c].File?
    ensures var (t', rv) := RemoveFile(t, c, renameTarget, e);
            if exists h :: OpenAs(t, c, h) && !MayGo(t.handles[h], renameTarget) then rv == Busy && t' == t
            else && rv == (if e.dbFails then BadCommand else Success)
                 && t'.db == (if e.dbFails then t.db else t.db - {c})
                 && Unnamed(t, t', c)
  {
    forall h ensures OpenAs(t, c, h) <==> t.db[c].path in t.openHandles && t.openHandles[t.db[c].path] == h {
      OpenAsIff(t, c, h);
    }
    assert OPEN_DELETE == 4;
    if t.db[c].path in t.openHandles {
      UnnamedByPath(t, c);
    } else {
      UnnamedWhenClosed(t, c);
    }
    hide Inv, OpenAs, Unnamed, SetDeletePending;
    if t.db[c].path in t.openHandles && MayGo(t.handles[t.openHandles[t.db[c].path]], renameTarget) {
      var t1 := SetDeletePending(t, t.openHandles[t.db[c].path]);
      NamesOnly(t, t1, t1.(db := t.db - {c}), c);
    } else if t.db[c].path !in t.openHandles {
      NamesOnly(t, t, t.(db := t.db - {c}), c);
    }
  }

  lemma NamesOnly(t: Tables, t1: Tables, t2: Tables, c: string)
    requires Unnamed(t, t1, c) && t2 == t1.(db := t2.db)
    ensures Unnamed(t, t2, c)
  {
    hide OpenAs;
  }

  lemma UnnamedByPath(t: Tables, c: string)
    requires Inv(t) && Live(t) && c in t.db && t.db[c].File? && t.db[c].path in t.openHandles
    ensures var h := t.openHandles[t.db[c].path];
            h in t.handles && SetDeletePending(t, h).db == t.db && Unnamed(t, SetDeletePending(t, h), c)
  {
    var path := t.db[c].path;
    var h := t.openHandles[path];
    FoundUnderPath(t, path);
    forall x ensures OpenAs(t, c, x) <==> h == x {
      OpenAsIff(t, c, x);
    }
    forall p | p in t.openHandles && t.openHandles[p] == h ensures p == path {
      FoundUnderPath(t, p);
    }
    hide Inv, OpenAs, Live;
    PendingIsUnnamed(t, c, h);
  }

  lemma PendingIsUnnamed(t: Tables, c: string, h: HandleId)
    requires h in t.handles && forall x :: OpenAs(t, c, x) <==> h == x
    requires forall p | p in t.openHandles :: t.openHandles[p] == h <==> p == t.handles[h].filename
    ensures Unnamed(t, SetDeletePending(t, h), c)
  {
    hide OpenAs;
  }

  lemma UnnamedWhenClosed(t: Tables, c: string)
    requires Inv(t) && Live(t) && c in t.db && t.db[c].File? && t.db[c].path !in t.openHandles
    ensures Unnamed(t, t, c)
  {
    forall h ensures !OpenAs(t, c, h) {
      OpenAsIff(t, c, h);
    }
    hide Inv, OpenAs;
  }

  lemma FoundUnderPath(t: Tables, path: string)
    requires Inv(t) && path in t.openHandles
    ensures t.openHandles[path] in t.handles && t.handles[t.openHandles[path]].filename == path
  {
    hide FilesInv, Closed, DistinctContents;
  }

  predicate MayGo(f: Handle, renameTarget: bool) {
    if renameTarget then f.file.refcount == 1 else f.file.accessMode & 4 != 0
  }

  // ---------------------------------------------------------------- rename

  /** A file conflicts with a rename when it is open so that it may not be deleted. */
  lemma FileConflictIff(t: Tables, c: string)
    requires Inv(t) && Live(t) && c in t.db && t.db[c].File?
    ensures OpenConflict(t, c) <==> exists h :: OpenAs(t, c, h) && t.handles[h].file.accessMode & 4 == 0
  {
    assert OPEN_DELETE == 4;
    if OpenConflict(t, c) {
      var p :| p in t.openHandles && t.handles[t.openHandles[p]].component == c && t.handles[t.openHandles[p]].file.accessMode & OPEN_DELETE == 0;
      FoundUnderPath(t, p);
      NotPending(t, p);
      assert OpenAs(t, c, t.openHandles[p]);
    }
    if h :| OpenAs(t, c, h) && t.handles[h].file.accessMode & 4 == 0 {
      OpenAsIff(t, c, h);
      assert t.openHandles[t.db[c].path] == h;
    }
  }

  lemma NotPending(t: Tables, path: string)
    requires Inv(t) && path in t.openHandles
    ensures t.openHandles[path] in t.handles && !t.handles[t.openHandles[path]].deletePending
  {
    hide FilesInv, Closed, DistinctContents;
  }

  /** What is refused, before anything is changed. */
  lemma RenameRefusals(t: Tables, s: string, d: string, replace: bool, removing: Env, moving: Env)
    requires Live(t)
    ensures var (t', rv) := RenameFile(t, s, d, replace, removing, moving);
            && (OpenConflict(t, s) ==> (t', rv) == (t, Busy))
            && (s !in t.db ==> (t', rv) == (t, NotFound))
            && (!OpenConflict(t, s) && s in t.db && (Under(s, d) || Under(d, s)) && s != d ==> (t', rv) == (t, Invalid))
            && (!OpenConflict(t, s) && s in t.db && !Under(s, d) && !Under(d, s) && s != d ==>
                  && (d in t.db && t.db[d].Dir? ==> (t', rv) == (t, IsDir))
                  && (d in t.db && t.db[d].File? && !replace ==> (t', rv) == (t, FileExists))
                  && (d !in t.db && !ParentExists(t.db, d) ==> (t', rv) == (t, BadPath)))
  {
    hide RemoveFile, DoRename, ParentExists;
    assert s !in t.db ==> !OpenConflict(t, s);
    hide OpenConflict;
  }

  /** Without leave to replace, an existing target is never touched. */
  lemma NothingReplacedWithoutLeave(t: Tables, s: string, d: string, removing: Env, moving: Env)
    requires Live(t) && d in t.db && s != d
    ensures var (t', rv) := RenameFile(t, s, d, false, removing, moving); t' == t && rv != Success
  {
    RenameRefusals(t, s, d, false, removing, moving);
    hide RenameFile, OpenConflict, ParentExists;
  }

  /** The tree after a rename that went through: what was at or below the source is at or below
      the destination, the target is gone if there was one, everything else is as it was, and
      nothing else is there. */
  ghost predicate TreeMoved(db: Tree, db': Tree, s: string, d: string) {
    SourceMoved(db, db', s, d) && OthersStay(db, db', s, d) && NothingElse(db, db', s, d)
  }

  ghost predicate SourceMoved(db: Tree, db': Tree, s: string, d: string) {
    forall k | k in db && (k == s || Under(k, s)) :: d + k[|s|..] in db' && db'[d + k[|s|..]] == db[k]
  }

  ghost predicate OthersStay(db: Tree, db': Tree, s: string, d: string) {
    forall k | k in db && k != s && !Under(k, s) && k != d :: k in db' && db'[k] == db[k]
  }

  ghost predicate NothingElse(db: Tree, db': Tree, s: string, d: string) {
    forall m | m in db' :: (exists k :: k in db && Within(k, s) && m == d + k[|s|..]) || (m in db && !Within(m, s) && (m != d || s == d))
  }

  /** `db1` is `db`, or what is left of it when the target `d` is removed. */
  ghost predicate WithoutTarget(db: Tree, db1: Tree, s: string, d: string) {
    && (forall k | k in db1 :: k in db && db1[k] == db[k])
    && (forall k | k in db && k !in db1 :: k == d && !Within(d, s))
  }

  lemma MovedTree(db: Tree, db1: Tree, s: string, d: string)
    requires MayMove(db1, s, d) && WithoutTarget(db, db1, s, d)
    ensures TreeMoved(db, Moved(db1, s, d), s, d)
  {
    MoveIsARenaming(db1, s, d);
    var db' := Moved(db1, s, d);
    hide Moved, MayMove, Under, TreeMoved;
    assert SourceMoved(db, db', s, d) by {
      forall k | k in db && (k == s || Under(k, s)) ensures d + k[|s|..] in db' && db'[d + k[|s|..]] == db[k] {
        assert k in db1 && Rebase(k, s, d) == d + k[|s|..];
      }
    }
    assert OthersStay(db, db', s, d) by {
      forall k | k in db && k != s && !Under(k, s) && k != d ensures k in db' && db'[k] == db[k] {
        assert k in db1 && Rebase(k, s, d) == k;
      }
    }
    NothingElseThere(db, db1, s, d);
    assert TreeMoved(db, db', s, d) by { AllOfIt(db, db', s, d); }
  }

  lemma AllOfIt(db: Tree, db': Tree, s: string, d: string)
    requires SourceMoved(db, db', s, d) && OthersStay(db, db', s, d) && NothingElse(db, db', s, d)
    ensures TreeMoved(db, db', s, d)
  {
  }

  lemma NothingElseThere(db: Tree, db1: Tree, s: string, d: string)
    requires MayMove(db1, s, d) && WithoutTarget(db, db1, s, d)
    ensures NothingElse(db, Moved(db1, s, d), s, d)
  {
    forall m | m in Moved(db1, s, d)
      ensures (exists k :: k in db && Within(k, s) && m == d + k[|s|..]) || (m in db && !Within(m, s) && (m != d || s == d))
    {
      var k := MovedOrigin(db1, s, d, m);
      hide Moved, Within;
      assert k in db;
    }
  }

  /** When a rename goes through, the tree has moved, and the open handle of a file with it. */
  lemma RenameMoves(t: Tables, s: string, d: string, replace: bool, removing: Env, moving: Env)
    requires Inv(t) && Live(t) && RenameFile(t, s, d, replace, removing, moving).1 == Success
    ensures var t' := RenameFile(t, s, d, replace, removing, moving).0;
            s in t.db && TreeMoved(t.db, t'.db, s, d) && d in t'.db && t'.db[d] == t.db[s]
  {
    RenameRefusals(t, s, d, replace, removing, moving);
    DatabaseMoves(t, s, d, replace, removing, moving);
    assert d + s[|s|..] == d;
    hide Inv, Live, RenameFile, OpenConflict;
  }

  lemma DatabaseMoves(t: Tables, s: string, d: string, replace: bool, removing: Env, moving: Env)
    requires Inv(t) && Live(t) && RenameFile(t, s, d, replace, removing, moving).1 == Success
    ensures s in t.db && TreeMoved(t.db, RenameFile(t, s, d, replace, removing, moving).0.db, s, d)
  {
    hide OpenConflict, Moved, TreeMoved, FilesInv, IdsAgree, PathsAgree, NamesAgree;
    if s == d || d !in t.db {
      MovedTree(t.db, t.db, s, d);
    } else {
      RemovedTargetIsFree(t, s, d, removing);
      assert RemoveFile(t, d, true, removing).0.db == t.db - {d};
      MovedTree(t.db, t.db - {d}, s, d);
    }
  }

  /** Whatever a rename answers, an entry that is neither at or below the source nor the target
      that may be replaced keeps its name and its value; and unless it went through, the source
      stays where it is. */
  lemma RenameKeepsOthers(t: Tables, s: string, d: string, replace: bool, removing: Env, moving: Env, k: string)
    requires Inv(t) && Live(t) && k in t.db
    ensures var (t', rv) := RenameFile(t, s, d, replace, removing, moving);
            !Within(k, s) && (k != d || !replace || rv == Busy) ==> k in t'.db && t'.db[k] == t.db[k]
    ensures var (t', rv) := RenameFile(t, s, d, replace, removing, moving);
            rv != Success && k != d ==> k in t'.db && t'.db[k] == t.db[k]
  {
    if RenameFile(t, s, d, replace, removing, moving).1 == Success {
      DatabaseMoves(t, s, d, replace, removing, moving);
      RenameRefusals(t, s, d, replace, removing, moving);
      if k == d && !Within(k, s) {
        NothingReplacedWithoutLeave(t, s, d, removing, moving);
      }
      hide Inv, Live, RenameFile, OpenConflict, ParentExists, Under;
    } else {
      FailedRename(t, s, d, replace, removing, moving);
      hide Inv, Live, RenameFile, OpenConflict, Within;
    }
  }

  /** A rename that fails changes the tree only if the target was removed first and the database
      then refused the move. */
  lemma FailedRename(t: Tables, s: string, d: string, replace: bool, removing: Env, moving: Env)
    requires Live(t) && RenameFile(t, s, d, replace, removing, moving).1 != Success
    ensures var (t', rv) := RenameFile(t, s, d, replace, removing, moving);
            t'.db == t.db || (replace && s != d && d in t.db && t'.db == t.db - {d} && rv == BadCommand)
  {
    hide OpenConflict, RemoveAllowed, ParentExists, Intersects, Moved;
  }

  /** With leave to replace, and nothing in the way, the source takes the place of the target. */
  lemma ReplacingGoesThrough(t: Tables, s: string, d: string, removing: Env, moving: Env)
    requires Inv(t) && Live(t) && s in t.db && d in t.db && t.db[d].File? && s != d && s != ""
    requires !OpenConflict(t, s) && !Under(s, d) && !Under(d, s)
    requires forall h | OpenAs(t, d, h) :: t.handles[h].file.refcount == 1
    requires !removing.dbFails && !moving.dbFails
    ensures var (t', rv) := RenameFile(t, s, d, true, removing, moving);
            rv == Success && s !in t'.db && d in t'.db && t'.db[d] == t.db[s]
  {
    RemoveFileAnswers(t, d, true, removing);
    RemovedTargetIsFree(t, s, d, removing);
    GoesThrough(t, s, d, removing, moving);
    RenameMoves(t, s, d, true, removing, moving);
    SourceIsGone(t.db, RenameFile(t, s, d, true, removing, moving).0.db, s, d);
    hide *;
  }

  lemma GoesThrough(t: Tables, s: string, d: string, removing: Env, moving: Env)
    requires Live(t) && s in t.db && d in t.db && t.db[d].File? && s != d && s != "" && !OpenConflict(t, s) && !Intersects(s, d)
    requires RemoveFile(t, d, true, removing).1 == Success && s in RemoveFile(t, d, true, removing).0.db && !moving.dbFails
    ensures RenameFile(t, s, d, true, removing, moving).1 == Success
  {
    hide OpenConflict, RemoveFile, Intersects, Moved;
  }

  lemma SourceIsGone(db: Tree, db': Tree, s: string, d: string)
    requires TreeMoved(db, db', s, d) && s != d && !Under(s, d)
    ensures s !in db'
  {
    forall k | k in db && Within(k, s) ensures d + k[|s|..] != s {
      PrefixOfWithin(k, s, d);
    }
    assert Within(s, s);
    hide Within, Under, SourceMoved, OthersStay;
  }

  /** The handle of a file that is open moves with it; all else about handles stays. */
  lemma RenameTakesHandles(t: Tables, s: string, d: string, moving: Env)
    requires Inv(t) && Live(t) && s in t.db && s != "" && !moving.dbFails
    ensures var t' := DoRename(t, s, d, moving).0;
            && t'.handles.Keys == t.handles.Keys && t'.openHandles == t.openHandles && t'.fileIds == t.fileIds
            && forall h | h in t.handles ::
                 t'.handles[h] == if t.db[s].File? && OpenAs(t, s, h) then t.handles[h].(component := d) else t.handles[h]
  {
    forall h | h in t.handles ensures h in t.openHandles.Values <==> !t.handles[h].deletePending {
      TabledIffNotPending(t, h);
    }
    hide Inv, Moved;
  }

  /** What a rename that went through has done to the handles: the source's goes by the new name,
      the replaced target's by none, and all others are as they were. */
  lemma RenameAnswersHandles(t: Tables, s: string, d: string, replace: bool, removing: Env, moving: Env)
    requires Inv(t) && Live(t) && RenameFile(t, s, d, replace, removing, moving).1 == Success
    ensures var t' := RenameFile(t, s, d, replace, removing, moving).0;
            && s in t.db && t'.handles.Keys == t.handles.Keys && t'.fileIds == t.fileIds
            && forall h | h in t.handles ::
                 t'.handles[h] == if t.db[s].File? && OpenAs(t, s, h) then t.handles[h].(component := d)
                                  else if s != d && d in t.db && OpenAs(t, d, h)
                                  then t.handles[h].(component := GONE, filename := GONE, deletePending := true)
                                  else t.handles[h]
  {
    DirectoriesAreNotOpen(t, d);
    RenameIsMove(t, s, d, replace, removing, moving);
    hide Inv, RenameFile, DoRename, RemoveFile, Live;
    if s == d || d !in t.db {
      RenameTakesHandles(t, s, d, moving);
    } else {
      RemoveFileAnswers(t, d, true, removing);
      RemoveKeepsInv(t, d, true, removing);
      var t1 := RemoveFile(t, d, true, removing).0;
      InvIsLive(t1);
      RenameTakesHandles(t1, s, d, moving);
      assert t1.db[s] == t.db[s];
    }
  }

  lemma RenameIsMove(t: Tables, s: string, d: string, replace: bool, removing: Env, moving: Env)
    requires Inv(t) && Live(t) && RenameFile(t, s, d, replace, removing, moving).1 == Success
    ensures s in t.db && s != "" && !moving.dbFails
    ensures s == d || d !in t.db ==> RenameFile(t, s, d, replace, removing, moving) == DoRename(t, s, d, moving)
    ensures s != d && d in t.db ==>
              && t.db[d].File? && RemoveFile(t, d, true, removing).1 == Success && s in RemoveFile(t, d, true, removing).0.db
              && RenameFile(t, s, d, replace, removing, moving) == DoRename(RemoveFile(t, d, true, removing).0, s, d, moving)
  {
    if d in t.db && t.db[d].File? {
      RemoveFileAnswers(t, d, true, removing);
    }
    hide Inv, OpenConflict, RemoveFile, Moved, ParentExists, Intersects;
  }

  lemma DirectoriesAreNotOpen(t: Tables, d: string)
    requires Inv(t)
    ensures d in t.db && t.db[d].Dir? ==> forall h :: !OpenAs(t, d, h)
    ensures d !in t.db ==> forall h :: !OpenAs(t, d, h)
  {
    hide FilesInv, Closed, DistinctContents, IdsAgree, PathsAgree;
  }

  lemma TabledIffNotPending(t: Tables, h: HandleId)
    requires Inv(t) && h in t.handles
    ensures h in t.openHandles.Values <==> !t.handles[h].deletePending
  {
    hide FilesInv, Closed, DistinctContents, IdsAgree, NamesAgree;
    if !t.handles[h].deletePending {
      assert t.openHandles[t.handles[h].filename] == h;
    }
  }

  // ---------------------------------------------------------------- the rest

  /** A directory is made below an existing one, under a name that is free; the root is always
      there. */
  lemma MakeDirectoryAnswers(t: Tables, c: string, e: Env)
    ensures MakeDirectory(t, c, e) ==
              if !ParentExists(t.db, c) then (t, BadPath)
              else if c in t.db && t.db[c].Dir? then (t, IsDir)
              else if c in t.db then (t, FileExists)
              else if c == "" then (t, Success)
              else if e.full || e.dbFails then (t, if e.full then TooMany else Access)
              else (t.(db := t.db[c := Dir]), Success)
  {
    hide ParentExists;
  }

  /** Resizing by name answers what the open does, or what the locks and oplocks of others on
      the rest of the file say. */
  lemma ResizeAnswers(t: Tables, c: string, size: U64, e: Env)
    requires Inv(t) && Live(t) && Supplies(t, e)
    ensures var o, rv := OpenFile(t, c, 0xa, false, e), SetSize(t, c, size, e).1;
            && (o.Refused? ==> SetSize(t, c, size, e) == (o.tables, o.status))
            && (o.Opened? ==>
                  && o.handle in o.tables.handles
                  && var f := o.tables.handles[o.handle].file;
                     rv == if FA.IoKeptOut(f, 0, true, size, 0xffff_ffff_ffff_ffff) then Locked
                           else if exists x | x in f.oplocks :: x.owner != NO_OBJECT then Retry
                           else Success)
  {
    assert OPEN_WRITE | OPEN_ALWAYS == 0xa;
    OpenKeepsInv(t, c, 0xa, false, e);
    var o := OpenFile(t, c, 0xa, false, e);
    if o.Opened? {
      TruncateAnswers(o.tables, o.handle, size);
      TruncateKeepsInv(o.tables, o.handle, NO_OBJECT, 0, size);
      CloseKeepsInv(TruncateFile(o.tables, o.handle, NO_OBJECT, 0, size).0, o.handle, NO_OBJECT, 0);
    }
    hide Inv, Supplies, OpenFile, TruncateFile, CloseFile, FA.IoKeptOut;
  }

  lemma TruncateAnswers(t: Tables, h: HandleId, size: U64)
    requires Inv(t) && h in t.handles
    ensures var f, (t', rv) := t.handles[h].file, TruncateFile(t, h, NO_OBJECT, 0, size);
            && h in t'.handles
            && rv == if FA.IoKeptOut(f, 0, true, size, 0xffff_ffff_ffff_ffff) then Locked
                     else if exists x | x in f.oplocks :: x.owner != NO_OBJECT then Retry
                     else Success
  {
    FileIsCoherent(t, h);
    FA.IoAnswers(t.handles[h].file, NO_OBJECT, 0, true, size, 0xffff_ffff_ffff_ffff);
    hide Inv, FR.Inv, FS.DoIo, FA.IoKeptOut, FA.Told;
  }

  lemma FileIsCoherent(t: Tables, h: HandleId)
    requires Inv(t) && h in t.handles
    ensures FR.Inv(t.handles[h].file)
  {
    hide TablesInv, FR.Inv;
  }
}
