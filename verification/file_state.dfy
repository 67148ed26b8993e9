/** What a `vss_file` holds, as a value, and what each of its public operations does to it.
    The class in module VssFile is proved to refine these functions. */
module FileStates {
  import opened VssTypes
  import opened Flocks

  const CACHE_READ: bv64 := 0x100
  const CACHE_WRITE: bv64 := 0x200
  const CACHE_BREAK: bv64 := 0x400

  const RANGE_LOCK: bv32 := 0x1
  const RANGE_UNLOCK: bv32 := 0x2
  const RANGE_WAIT: bv32 := 0x8

  datatype Status = Success | Invalid | BadCmd | Retry | WaitLock | Locked | Access

  /** A cache oplock: the right of one client object to cache the file. */
  datatype Oplock = Oplock(owner: ObjectId, mode: bv64)
  {
    /** The decision of `need_to_break`. */
    predicate BrokenBy(client: ObjectId, writing: bool) {
      || (mode & CACHE_WRITE != 0 && owner != client)
      || (mode & CACHE_READ != 0 && writing && owner != client)
    }
  }

  datatype BrWait = BrWait(context: Context, origin: U64, mode: bv64, start: U64, end: U64)

  /** A request waiting for oplocks. The queue entry says whether it is a write; a lock request
      is queued as if it were none, but when it is handed back it asks like a write. What the
      suspended request asks is part of its context. */
  datatype OpWait = OpWait(context: Context, owner: ObjectId, writing: bool, asksToWrite: bool)

  datatype FileState = FileState(
    locks: seq<Flock>,               // newest first
    oplocks: seq<Oplock>,            // newest first
    brQueue: seq<BrWait>,            // requests waiting for byte ranges, oldest first
    opQueue: seq<OpWait>,            // requests waiting for oplocks, oldest first
    requeued: seq<Context>,          // trace: requests handed back to the server
    breaks: seq<Oplock>,             // trace: oplock break notifications sent
    refcount: int,
    accessMode: bv32,                // union of the access and sharing modes granted
    objectRefs: multiset<ObjectId>,  // opens per client object
    originFlags: map<U64, bv32>,     // access and sharing modes per client handle
    openOrigins: seq<U64>)           // client handles that have the file open

  // ---------------------------------------------------------------- byte-range locks

  function AddRangeLock(s: FileState, l: Flock): (FileState, bool) {
    if LockBlocked(s.locks, l.origin, l.mode, l.start, l.end) then (s, false)
    else (s.(locks := [l] + s.locks), true)
  }

  predicate Reaches(w: BrWait, start: U64, end: U64) {
    !(start >= w.end || w.start >= end)
  }

  function StillWaiting(q: seq<BrWait>, start: U64, end: U64): seq<BrWait> {
    if q == [] then []
    else (if Reaches(q[0], start, end) then [] else [q[0]]) + StillWaiting(q[1..], start, end)
  }

  function Woken(q: seq<BrWait>, start: U64, end: U64): seq<BrWait> {
    if q == [] then []
    else (if Reaches(q[0], start, end) then [q[0]] else []) + Woken(q[1..], start, end)
  }

  function BrContexts(q: seq<BrWait>): seq<Context> {
    if q == [] then [] else [q[0].context] + BrContexts(q[1..])
  }

  function OpContexts(q: seq<OpWait>): seq<Context> {
    if q == [] then [] else [q[0].context] + OpContexts(q[1..])
  }

  lemma {:induction false} BrContextsAppend(a: seq<BrWait>, b: seq<BrWait>)
    ensures BrContexts(a + b) == BrContexts(a) + BrContexts(b)
  {
    if a == [] {
      assert a + b == b;
    } else {
      BrContextsAppend(a[1..], b);
      assert (a + b)[1..] == a[1..] + b;
    }
  }

  lemma {:induction false} OpContextsAppend(a: seq<OpWait>, b: seq<OpWait>)
    ensures OpContexts(a + b) == OpContexts(a) + OpContexts(b)
  {
    if a == [] {
      assert a + b == b;
    } else {
      OpContextsAppend(a[1..], b);
      assert (a + b)[1..] == a[1..] + b;
    }
  }

  lemma {:induction false} StillWaitingAppend(a: seq<BrWait>, b: seq<BrWait>, start: U64, end: U64)
    ensures StillWaiting(a + b, start, end) == StillWaiting(a, start, end) + StillWaiting(b, start, end)
  {
    if a == [] {
      assert a + b == b;
    } else {
      StillWaitingAppend(a[1..], b, start, end);
      assert (a + b)[1..] == a[1..] + b && (a + b)[0] == a[0];
      var h := if Reaches(a[0], start, end) then [] else [a[0]];
      var s, t := StillWaiting(a[1..], start, end), StillWaiting(b, start, end);
      assert h + (s + t) == h + s + t;
    }
  }

  lemma {:induction false} WokenAppend(a: seq<BrWait>, b: seq<BrWait>, start: U64, end: U64)
    ensures Woken(a + b, start, end) == Woken(a, start, end) + Woken(b, start, end)
  {
    if a == [] {
      assert a + b == b;
    } else {
      WokenAppend(a[1..], b, start, end);
      assert (a + b)[1..] == a[1..] + b && (a + b)[0] == a[0];
      var h := if Reaches(a[0], start, end) then [a[0]] else [];
      assert h + (Woken(a[1..], start, end) + Woken(b, start, end)) == h + Woken(a[1..], start, end) + Woken(b, start, end);
    }
  }

  lemma WakeOneMore(q: seq<BrWait>, i: nat, start: U64, end: U64)
    requires i < |q|
    ensures StillWaiting(q[..i + 1], start, end)
         == StillWaiting(q[..i], start, end) + (if Reaches(q[i], start, end) then [] else [q[i]])
    ensures BrContexts(Woken(q[..i + 1], start, end))
         == BrContexts(Woken(q[..i], start, end)) + (if Reaches(q[i], start, end) then [q[i].context] else [])
  {
    assert q[..i + 1] == q[..i] + [q[i]] && [q[i]][1..] == [];
    StillWaitingAppend(q[..i], [q[i]], start, end);
    WokenAppend(q[..i], [q[i]], start, end);
    BrContextsAppend(Woken(q[..i], start, end), Woken([q[i]], start, end));
  }

  /** `wake_range_lock`: retry every queued request that reaches into a freed range. */
  function WakeRange(s: FileState, start: U64, end: U64): FileState {
    s.(brQueue := StillWaiting(s.brQueue, start, end),
       requeued := s.requeued + BrContexts(Woken(s.brQueue, start, end)))
  }

  function WakeEach(s: FileState, freed: seq<Flock>): FileState
    decreases freed
  {
    if freed == [] then s
    else WakeEach(WakeRange(s, freed[0].start, freed[0].end), freed[1..])
  }

  lemma {:induction false} WakeEachTouchesQueueOnly(s: FileState, freed: seq<Flock>)
    ensures var s' := WakeEach(s, freed); s' == s.(brQueue := s'.brQueue, requeued := s'.requeued)
    decreases freed
  {
    if freed != [] {
      WakeEachTouchesQueueOnly(WakeRange(s, freed[0].start, freed[0].end), freed[1..]);
    }
  }

  lemma {:induction false} WakeEachAppend(s: FileState, a: seq<Flock>, l: Flock)
    ensures WakeEach(s, a + [l]) == WakeRange(WakeEach(s, a), l.start, l.end)
    decreases a
  {
    if a == [] {
      assert a + [l] == [l];
    } else {
      WakeEachAppend(WakeRange(s, a[0].start, a[0].end), a[1..], l);
      assert (a + [l])[1..] == a[1..] + [l];
    }
  }

  function RemoveRangeLock(s: FileState, origin: U64, mode: bv64, start: U64, end: U64): (FileState, bool) {
    var w := Exact(origin, mode, start, end);
    var s' := s.(locks := Without(s.locks, w));
    if Picked(s.locks, w) == [] then (s', false) else (WakeRange(s', start, end), true)
  }

  function ReleaseBrlocks(s: FileState, origin: U64): FileState {
    WakeEach(s, Picked(s.locks, OfOrigin(origin))).(locks := Without(s.locks, OfOrigin(origin)))
  }

  function RemoveBrlocks(s: FileState, client: ObjectId): (FileState, bool) {
    (s.(locks := Without(s.locks, OfObject(client))), Picked(s.locks, OfObject(client)) != [])
  }

  // ---------------------------------------------------------------- oplocks

  predicate OplockBroken(s: FileState, client: ObjectId, writing: bool) {
    exists o | o in s.oplocks :: o.BrokenBy(client, writing)
  }

  function Broken(os: seq<Oplock>, client: ObjectId, writing: bool): seq<Oplock> {
    if os == [] then []
    else (if os[0].BrokenBy(client, writing) then [os[0]] else []) + Broken(os[1..], client, writing)
  }

  /** `check_oplock_conflict`: notify every oplock the request breaks. */
  function CheckOplockConflict(s: FileState, client: ObjectId, writing: bool): (FileState, bool) {
    (s.(breaks := s.breaks + Broken(s.oplocks, client, writing)), OplockBroken(s, client, writing))
  }

  function OthersOplocks(os: seq<Oplock>, client: ObjectId): seq<Oplock> {
    if os == [] then []
    else (if os[0].owner == client then [] else [os[0]]) + OthersOplocks(os[1..], client)
  }

  predicate Holds(os: seq<Oplock>, client: ObjectId) {
    exists o | o in os :: o.owner == client
  }

  /** Give the first oplock of `client` a new mode. */
  function SetMode(os: seq<Oplock>, client: ObjectId, mode: bv64): seq<Oplock> {
    if os == [] then []
    else if os[0].owner == client then [Oplock(client, mode)] + os[1..]
    else [os[0]] + SetMode(os[1..], client, mode)
  }

  function RemoveOplocks(s: FileState, client: ObjectId): (FileState, bool) {
    var s' := s.(oplocks := OthersOplocks(s.oplocks, client));
    if Holds(s.oplocks, client)
    then (s'.(opQueue := [], requeued := s.requeued + OpContexts(s.opQueue)), true)
    else (s', false)
  }

  function SetOplock(s: FileState, client: ObjectId, mode: bv64): (FileState, Status) {
    if mode & !(CACHE_READ | CACHE_WRITE) != 0 then (s, Invalid)
    else if mode == 0 then (RemoveOplocks(s, client).0, Success)
    else if s.locks != [] then (s, Locked)
    else if OplockBroken(s, client, mode & CACHE_WRITE != 0) then (s, Locked)
    else if Holds(s.oplocks, client) then (s.(oplocks := SetMode(s.oplocks, client, mode)), Success)
    else (s.(oplocks := [Oplock(client, mode)] + s.oplocks), Success)
  }

  // ---------------------------------------------------------------- requests

  function SetLockRange(s: FileState, client: ObjectId, origin: U64, flags: bv32, mode: bv64, start: U64, end: U64)
    : (FileState, Status)
  {
    if end < start then (s, Invalid)
    else if flags & RANGE_UNLOCK != 0 && flags & RANGE_LOCK != 0 then (s, BadCmd)
    else if flags & RANGE_UNLOCK != 0 then
      var (s', removed) := RemoveRangeLock(s, origin, mode, start, end);
      (s', if removed then Success else Invalid)
    else if flags & RANGE_LOCK != 0 then
      var (s1, broken) := CheckOplockConflict(s, client, true);
      if broken then (s1, Retry)
      else
        var (s2, added) := AddRangeLock(s1, Flock(client, origin, mode, start, end));
        (s2, if added then Success else if flags & RANGE_WAIT != 0 then WaitLock else Locked)
    else (s, BadCmd)
  }

  /** A read, write or truncate: refused by a byte-range lock, or suspended by an oplock. */
  function DoIo(s: FileState, client: ObjectId, origin: U64, writing: bool, start: U64, end: U64)
    : (FileState, Status)
  {
    if IoBlocked(s.locks, origin, if writing then WRITE_EXCL else READ_SHARED, start, end) then (s, Locked)
    else
      var (s', broken) := CheckOplockConflict(s, client, writing);
      (s', if broken then Retry else Success)
  }

  function WakeAll(s: FileState): FileState {
    s.(brQueue := [], opQueue := [],
       requeued := s.requeued + BrContexts(s.brQueue) + OpContexts(s.opQueue))
  }

  // ---------------------------------------------------------------- references

  predicate ModeConflict(oldFlags: bv32, newFlags: bv32) {
    || (newFlags & OPEN_READ != 0 && oldFlags & SHARE_READ == 0)
    || (newFlags & OPEN_WRITE != 0 && oldFlags & SHARE_WRITE == 0)
    || (newFlags & OPEN_DELETE != 0 && oldFlags & SHARE_DELETE == 0)
    || (oldFlags & OPEN_READ != 0 && newFlags & SHARE_READ == 0)
    || (oldFlags & OPEN_WRITE != 0 && newFlags & SHARE_WRITE == 0)
    || (oldFlags & OPEN_DELETE != 0 && newFlags & SHARE_DELETE == 0)
  }

  function AddReference(s: FileState, flags: bv32): (FileState, Status) {
    if exists o | o in s.originFlags :: ModeConflict(s.originFlags[o], flags) then (s, Access)
    else (s.(refcount := s.refcount + 1), Success)
  }

  function AddObject(s: FileState, client: ObjectId): FileState {
    s.(objectRefs := s.objectRefs + multiset{client})
  }

  function AddOrigin(s: FileState, origin: U64, flags: bv32): FileState {
    s.(originFlags := s.originFlags[origin := flags], accessMode := s.accessMode | flags)
  }

  function AddOpenOrigin(s: FileState, origin: U64): FileState {
    s.(openOrigins := s.openOrigins + [origin])
  }

  function DropFirst(os: seq<U64>, origin: U64): seq<U64> {
    if os == [] then [] else if os[0] == origin then os[1..] else [os[0]] + DropFirst(os[1..], origin)
  }

  function RemoveOpenOrigin(s: FileState, origin: U64): FileState {
    s.(openOrigins := DropFirst(s.openOrigins, origin))
  }

  /** Origin 0 always passes: the dataset itself opens and closes files with it. */
  predicate ValidateOrigin(s: FileState, origin: U64) {
    origin in s.openOrigins || origin == 0
  }

  /** The union of all modes in the map; the order in which it is taken does not matter
      (lemma UnionTakesAny). */
  ghost function UnionOfFlags(m: map<U64, bv32>): bv32
    decreases |m|
  {
    if m == map[] then 0 else var o :| o in m; m[o] | UnionOfFlags(m - {o})
  }

  lemma {:induction false} UnionTakesAny(m: map<U64, bv32>, o: U64)
    requires o in m
    ensures UnionOfFlags(m) == m[o] | UnionOfFlags(m - {o})
    decreases |m|
  {
    var p :| p in m && UnionOfFlags(m) == m[p] | UnionOfFlags(m - {p});
    if p != o {
      UnionTakesAny(m - {p}, o);
      UnionTakesAny(m - {o}, p);
      assert m - {p} - {o} == m - {o} - {p};
    }
  }

  /** Nobody left: everything is allowed and shared. */
  ghost function AccessModeFor(m: map<U64, bv32>): bv32 {
    if m == map[] then 0xffff_ffff else UnionOfFlags(m)
  }

  ghost function ReleaseOrigin(s: FileState, origin: U64): FileState {
    var flags := s.originFlags - {origin};
    ReleaseBrlocks(s, origin).(originFlags := flags, accessMode := AccessModeFor(flags))
  }

  function RemoveReference(s: FileState, client: ObjectId, origin: U64): (FileState, Status) {
    var s1 := ReleaseBrlocks(s, origin).(originFlags := s.originFlags - {origin},
                                         objectRefs := s.objectRefs - multiset{client});
    var s2 := if s.objectRefs[client] == 1 then RemoveOplocks(s1, client).0 else s1;
    if s.refcount == 0 then (s2, Invalid) else (s2.(refcount := s.refcount - 1), Success)
  }

  function RemoveObject(s: FileState, client: ObjectId): (FileState, bool) {
    var (s1, hadOplock) := RemoveOplocks(s, client);
    var (s2, hadLock) := RemoveBrlocks(s1, client);
    var s3 := s2.(refcount := s.refcount - s.objectRefs[client], objectRefs := s.objectRefs[client := 0]);
    var removed := hadOplock || hadLock || client in s.objectRefs;
    (if removed then WakeAll(s3) else s3, removed)
  }

  /** A newly opened file: one reference, nothing else. */
  function Fresh(flags: bv32): FileState {
    FileState([], [], [], [], [], [], 1, flags, multiset{}, map[], [])
  }
}
