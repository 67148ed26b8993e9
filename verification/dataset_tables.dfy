/** The open-handle tables of a managed dataset, as a value, and what each operation on
    names and handles does to them. The class in module ManagedDatasets refines these
    functions. Names arrive normalised and, on a case-insensitive dataset, folded. */
module DatasetTables {
  import opened VssTypes
  import opened Namespace
  import FS = FileStates

  /** Identity of a `vss_file` object in memory. */
  type HandleId = nat

  /** The null `vss_object*`, passed when the dataset opens a file for itself. */
  const NO_OBJECT: ObjectId := 0

  const GONE := "<gone>"

  datatype Status = Success | Exists | FileExists | IsDir | BadPath | NotFound | TooMany | Perm
                  | BadObject | Busy | Access | Invalid | BadCommand | Locked | Retry

  datatype Handle = Handle(
    component: string, filename: string, fileId: U32, deletePending: bool, readOnly: bool, file: FS.FileState)

  datatype Tables = Tables(
    db: Tree,                          // component -> directory, or content path
    handles: map<HandleId, Handle>,    // every vss_file that has not been deleted
    openHandles: map<string, HandleId>,
    fileIds: map<U32, HandleId>,
    requeued: multiset<Context>)       // trace: requests handed back by files that are gone

  /** What the world contributes to one call: the content path and the object the database
      and the allocator hand out, the file id computed from clock and address, and whether
      the directory is full or the host file system or the database fails. */
  datatype Env = Env(newPath: string, newHandle: HandleId, tentativeId: U32,
                     full: bool, hostFails: bool, dbFails: bool)

  /** The database never gives one content path to two components, the allocator never hands
      out a live object, and fewer than 2^32 handles are open. */
  ghost predicate Supplies(t: Tables, e: Env) {
    (forall c | c in t.db && t.db[c].File? :: t.db[c].path != e.newPath) && Allocates(t, e)
  }

  ghost predicate Allocates(t: Tables, e: Env) {
    e.newHandle !in t.handles && |t.fileIds| < 0x1_0000_0000
  }

  /** Both tables point to objects that exist. */
  predicate Live(t: Tables) {
    && (forall p | p in t.openHandles :: t.openHandles[p] in t.handles)
    && (forall i | i in t.fileIds :: t.fileIds[i] in t.handles)
  }

  // ---------------------------------------------------------------- open

  function NextId(id: U32): U32 { if id == 0xffff_ffff then 0 else id + 1 }

  /** Count up from `id`, wrapping around, to the first file id not in use. */
  function FirstFree(used: set<U32>, id: U32): U32
    decreases |used|
  {
    if id !in used then id else FirstFree(used - {id}, NextId(id))
  }

  predicate Creatable(flags: bv32) {
    flags & (OPEN_ALWAYS | CREATE_ALWAYS | CREATE_NEW) != 0
  }

  /** A new handle for `component`, whose content is at `path`. */
  function AddHandle(t: Tables, component: string, path: string, readOnly: bool, flags: bv32, e: Env): Tables {
    var id := FirstFree(t.fileIds.Keys, e.tentativeId);
    t.(handles := t.handles[e.newHandle := Handle(component, path, id, false, readOnly, FS.Fresh(flags))],
       openHandles := t.openHandles[path := e.newHandle],
       fileIds := t.fileIds[id := e.newHandle])
  }

  function SetFile(t: Tables, h: HandleId, file: FS.FileState): Tables
    requires h in t.handles
  {
    t.(handles := t.handles[h := t.handles[h].(file := file)])
  }

  datatype Opened = Opened(tables: Tables, status: Status, handle: HandleId)
                  | Refused(tables: Tables, status: Status)

  /** The second half of `open_file`, once the component is known to be a file. */
  function OpenContent(t: Tables, component: string, flags: bv32, isCreated: bool, e: Env): Opened
    requires component in t.db && t.db[component].File?
    requires t.db[component].path in t.openHandles ==> t.openHandles[t.db[component].path] in t.handles
  {
    var content := t.db[component];
    var writable := flags & OPEN_WRITE != 0;
    var ok := if !isCreated && flags & (CREATE_ALWAYS | OPEN_ALWAYS) != 0 then Exists else Success;
    if content.path !in t.openHandles then
      if !isCreated && writable && content.readOnly then Refused(t, Perm)
      else if e.hostFails then Refused(t, BadObject)
      else Opened(AddHandle(t, component, content.path, content.readOnly, flags, e), ok, e.newHandle)
    else
      var h := t.openHandles[content.path];
      if !isCreated && writable && t.handles[h].readOnly then Refused(t, Perm)
      else if t.handles[h].deletePending then Refused(t, Busy)
      else
        var (file, rv) := FS.AddReference(t.handles[h].file, flags);
        if rv != FS.Success then Refused(t, Access) else Opened(SetFile(t, h, file), ok, h)
  }

  function OpenFile(t: Tables, component: string, flags: bv32, readOnly: bool, e: Env): Opened
    requires Live(t)
  {
    if IsDirectory(t.db, component) then Refused(t, IsDir)
    else if component !in t.db then
      if !ParentExists(t.db, component) then Refused(t, BadPath)
      else if !Creatable(flags) then Refused(t, NotFound)
      else if e.full then Refused(t, TooMany)
      else if e.dbFails then Refused(t, NotFound)
      else OpenContent(t.(db := t.db[component := File(e.newPath, readOnly)]), component, flags, true, e)
    else if flags & CREATE_NEW != 0 then Refused(t, Perm)
    else OpenContent(t, component, flags, false, e)
  }

  /** The request handler ties an opened handle to the client object and its own handle. */
  function Attach(file: FS.FileState, client: ObjectId, origin: U64, flags: bv32): FS.FileState {
    FS.AddOpenOrigin(FS.AddOrigin(FS.AddObject(file, client), origin, flags), origin)
  }

  function ClientOpen(t: Tables, client: ObjectId, origin: U64, component: string, flags: bv32,
                      readOnly: bool, e: Env): (Tables, Status)
    requires Live(t)
  {
    match OpenFile(t, component, flags, readOnly, e)
    case Refused(t', rv) => (t', rv)
    case Opened(t', rv, h) => (SetFile(t', h, Attach(t'.handles[h].file, client, origin, flags)), rv)
  }

  // ---------------------------------------------------------------- close, client death

  /** The requests a file has handed back when it is gone: its destructor wakes all that wait. */
  function HandBack(f: Handle): multiset<Context> {
    multiset(FS.WakeAll(f.file).requeued)
  }

  /** Forget a handle nobody refers to any more. */
  function DropHandle(t: Tables, h: HandleId): Tables
    requires h in t.handles
  {
    var f := t.handles[h];
    t.(handles := t.handles - {h},
       openHandles := if f.deletePending then t.openHandles else t.openHandles - {f.filename},
       fileIds := t.fileIds - {f.fileId},
       requeued := t.requeued + HandBack(f))
  }

  function CloseFile(t: Tables, h: HandleId, client: ObjectId, origin: U64): (Tables, Status)
    requires h in t.handles
  {
    var f := t.handles[h];
    if !FS.ValidateOrigin(f.file, origin) then (t, Invalid)
    else
      var file := FS.RemoveReference(FS.RemoveOpenOrigin(f.file, origin), client, origin).0;
      var t' := SetFile(t, h, file);
      if file.refcount > 0 then (t', Success)
      else (DropHandle(t', h), if !f.deletePending && f.filename !in t.openHandles then Invalid else Success)
  }

  function ClientClose(t: Tables, fileId: U32, client: ObjectId, origin: U64): (Tables, Status)
    requires Live(t)
  {
    if fileId !in t.fileIds then (t, BadObject) else CloseFile(t, t.fileIds[fileId], client, origin)
  }

  /** Does the file stay open when everything `client` holds on it is taken away? */
  predicate SurvivesWithout(f: Handle, client: ObjectId) {
    f.file.refcount - f.file.objectRefs[client] > 0
  }

  function Without(f: Handle, client: ObjectId): Handle {
    f.(file := FS.RemoveObject(f.file, client).0)
  }

  /** What the files `m` hand back in all; the order in which they are taken does not matter
      (lemma HandedBackTakesAny). */
  ghost function HandedBack(m: map<HandleId, Handle>): multiset<Context>
    decreases |m|
  {
    if m == map[] then multiset{} else var h :| h in m; HandBack(m[h]) + HandedBack(m - {h})
  }

  lemma {:induction false} HandedBackTakesAny(m: map<HandleId, Handle>, h: HandleId)
    requires h in m
    ensures HandedBack(m) == HandBack(m[h]) + HandedBack(m - {h})
    decreases |m|
  {
    hide HandBack;
    var p :| p in m && HandedBack(m) == HandBack(m[p]) + HandedBack(m - {p});
    if p != h {
      HandedBackTakesAny(m - {p}, h);
      HandedBackTakesAny(m - {h}, p);
      assert m - {p} - {h} == m - {h} - {p};
    }
  }

  /** Those of `m` that close when `client` goes, as it leaves them. */
  function ClosedBy(m: map<HandleId, Handle>, client: ObjectId): map<HandleId, Handle> {
    map h | h in m && !SurvivesWithout(m[h], client) :: Without(m[h], client)
  }

  ghost function ObjectRelease(t: Tables, client: ObjectId): Tables {
    var stays := set h | h in t.handles && SurvivesWithout(t.handles[h], client);
    t.(handles := map h | h in stays :: Without(t.handles[h], client),
       openHandles := map p | p in t.openHandles && t.openHandles[p] in stays :: t.openHandles[p],
       fileIds := map i | i in t.fileIds && t.fileIds[i] in stays :: t.fileIds[i],
       requeued := t.requeued + HandedBack(ClosedBy(t.handles, client)))
  }

  // ---------------------------------------------------------------- remove

  predicate RemoveAllowed(t: Tables, component: string, renameTarget: bool)
    requires Live(t)
  {
    if component !in t.db then true
    else match t.db[component]
      case Dir => !HasChildren(t.db, component)
      case File(path, _) =>
        path in t.openHandles ==>
          var file := t.handles[t.openHandles[path]].file;
          if renameTarget then file.refcount == 1 else file.accessMode & OPEN_DELETE != 0
  }

  /** An open file loses its name and its place in the table; the handle stays usable. */
  function SetDeletePending(t: Tables, h: HandleId): Tables
    requires h in t.handles
  {
    t.(handles := t.handles[h := t.handles[h].(component := GONE, filename := GONE, deletePending := true)],
       openHandles := t.openHandles - {t.handles[h].filename})
  }

  function RemoveFile(t: Tables, component: string, renameTarget: bool, e: Env): (Tables, Status)
    requires Live(t)
  {
    if !RemoveAllowed(t, component, renameTarget) then (t, Busy)
    else if component !in t.db then (t, NotFound)
    else
      var t1 := if t.db[component].File? && t.db[component].path in t.openHandles
                then SetDeletePending(t, t.openHandles[t.db[component].path]) else t;
      if e.dbFails then (t1, BadCommand) else (t1.(db := t.db - {component}), Success)
  }

  // ---------------------------------------------------------------- rename

  /** `check_open_conflict`: for a directory, any open name that merely starts with its name. */
  predicate OpenConflict(t: Tables, component: string)
    requires Live(t)
  {
    component in t.db &&
    exists p | p in t.openHandles ::
      var f := t.handles[t.openHandles[p]];
      match t.db[component]
      case Dir => component <= f.component
      case File(_, _) => f.component == component && f.file.accessMode & OPEN_DELETE == 0
  }

  /** The name `k` is below the directory `c`; everything but the root is below the root. */
  predicate Below(k: string, c: string) {
    if c == "" then k != "" else Under(k, c)
  }

  predicate OpenBelow(t: Tables, c: string)
    requires Live(t)
  {
    exists p | p in t.openHandles :: Below(t.handles[t.openHandles[p]].component, c)
  }

  /** The remark says that a directory conflicts when something is open below it. So it does,
      if and only if something is, or no open name merely begins like the directory's. */
  lemma DirectoryConflictIff(t: Tables, c: string)
    requires Live(t) && IsDirectory(t.db, c)
    ensures (OpenConflict(t, c) <==> OpenBelow(t, c))
       <==> OpenBelow(t, c) || forall p | p in t.openHandles :: !(c <= t.handles[t.openHandles[p]].component)
    ensures OpenBelow(t, c) ==> OpenConflict(t, c)
  {
    forall k: string | Below(k, c) ensures c <= k {
    }
  }

  /** Every tabled handle that was open under the old name is now open under the new one. */
  function RenameHandles(t: Tables, source: string, destination: string): Tables {
    t.(handles := map h | h in t.handles ::
         if h in t.openHandles.Values && t.handles[h].component == source
         then t.handles[h].(component := destination) else t.handles[h])
  }

  function MoveComponent(t: Tables, source: string, destination: string): Tables
    requires source in t.db
  {
    var t' := t.(db := Moved(t.db, source, destination));
    if t.db[source].File? then RenameHandles(t', source, destination) else t'
  }

  /** The database refuses to move the root, and may fail. */
  function DoRename(t: Tables, source: string, destination: string, e: Env): (Tables, Status)
    requires source in t.db
  {
    if e.dbFails || source == "" then (t, BadCommand) else (MoveComponent(t, source, destination), Success)
  }

  /** `removing` and `moving` are what the world contributes to the two database calls. */
  function RenameFile(t: Tables, source: string, destination: string, replace: bool, removing: Env, moving: Env)
    : (Tables, Status)
    requires Live(t)
  {
    if OpenConflict(t, source) then (t, Busy)
    else if source !in t.db then (t, NotFound)
    else if source == destination then DoRename(t, source, destination, moving)
    else if Intersects(source, destination) then (t, Invalid)
    else if destination in t.db then
      if t.db[destination].Dir? then (t, IsDir)
      else if !replace then (t, FileExists)
      else
        var (t1, rv) := RemoveFile(t, destination, true, removing);
        if rv != Success then (t1, rv) else DoRename(t1, source, destination, moving)
    else if !ParentExists(t.db, destination) then (t, BadPath)
    else DoRename(t, source, destination, moving)
  }

  // ---------------------------------------------------------------- the rest

  function MakeDirectory(t: Tables, component: string, e: Env): (Tables, Status) {
    if !ParentExists(t.db, component) then (t, BadPath)
    else if component in t.db then (t, if t.db[component].Dir? then IsDir else FileExists)
    else if component == "" then (t, Success)
    else if e.full then (t, TooMany)
    else if e.dbFails then (t, Access)
    else (t.(db := t.db[component := Dir]), Success)
  }

  const END_OF_FILE: U64 := 0xffff_ffff_ffff_ffff

  /** Everything from the new end on must be free to be written. */
  function TruncateFile(t: Tables, h: HandleId, client: ObjectId, origin: U64, size: U64): (Tables, Status)
    requires h in t.handles
  {
    var (file, rv) := FS.DoIo(t.handles[h].file, client, origin, true, size, END_OF_FILE);
    (SetFile(t, h, file), match rv case Success => Success case Locked => Locked case _ => Retry)
  }

  /** `set_size_iw` opens the file for the dataset itself, truncates it and closes it; a refusal
      of the truncation is the answer, but the file is closed all the same. */
  function SetSize(t: Tables, component: string, size: U64, e: Env): (Tables, Status)
    requires Live(t)
  {
    match OpenFile(t, component, OPEN_WRITE | OPEN_ALWAYS, false, e)
    case Refused(t', rv) => (t', rv)
    case Opened(t', _, h) =>
      var (t1, rv) := TruncateFile(t', h, NO_OBJECT, 0, size);
      var (t2, closed) := CloseFile(t1, h, NO_OBJECT, 0);
      (t2, if rv == Success then closed else rv)
  }
}
