/** Whole runs of requests against one open file: what holds after any of them. */
module FileRuns {
  import opened VssTypes
  import opened Flocks
  import opened FileStates

  /** One request, handled as one step (there is one server thread per dataset). */
  datatype Request =
    | Open(client: ObjectId, origin: U64, flags: bv32)
    | OpenInternal(flags: bv32)
    | Close(client: ObjectId, origin: U64)
    | LockRange(context: Context, client: ObjectId, origin: U64, flags: bv32, mode: bv64, start: U64, end: U64)
    | Io(context: Context, client: ObjectId, origin: U64, writing: bool, start: U64, end: U64)
    | CacheLock(client: ObjectId, mode: bv64)
    | Release(origin: U64)
    | ClientGone(client: ObjectId)

  ghost function Step(s: FileState, r: Request): FileState {
    match r
    case Open(client, origin, flags) =>
      var (s1, rv) := AddReference(s, flags);
      if rv != Success then s1
      else AddOpenOrigin(AddOrigin(AddObject(s1, client), origin, flags), origin)
    case OpenInternal(flags) => AddReference(s, flags).0
    case Close(client, origin) =>
      if ValidateOrigin(s, origin) then RemoveReference(RemoveOpenOrigin(s, origin), client, origin).0 else s
    case LockRange(ctx, client, origin, flags, mode, start, end) =>
      var (s1, rv) := SetLockRange(s, client, origin, flags, mode, start, end);
      if rv == Retry then s1.(opQueue := s1.opQueue + [OpWait(ctx, client, false, true)])
      else if rv == WaitLock then s1.(brQueue := s1.brQueue + [BrWait(ctx, origin, mode, start, end)])
      else s1
    case Io(ctx, client, origin, writing, start, end) =>
      var (s1, rv) := DoIo(s, client, origin, writing, start, end);
      if rv == Retry then s1.(opQueue := s1.opQueue + [OpWait(ctx, client, writing, writing)]) else s1
    case CacheLock(client, mode) => SetOplock(s, client, mode).0
    case Release(origin) => ReleaseOrigin(s, origin)
    case ClientGone(client) => RemoveObject(s, client).0
  }

  ghost function Run(s: FileState, rs: seq<Request>): FileState
    decreases rs
  {
    if rs == [] then s else Run(Step(s, rs[0]), rs[1..])
  }

  // ---------------------------------------------------------------- the invariant

  predicate Waits(s: FileState, w: BrWait) {
    LockBlocked(s.locks, w.origin, w.mode, w.start, w.end)
  }

  /** Every request waiting for a byte range is kept out by a lock that is still held. */
  ghost predicate NoLostWakeups(s: FileState) {
    forall w | w in s.brQueue :: Waits(s, w)
  }

  predicate CacheMode(mode: bv64) {
    mode == CACHE_READ || mode == CACHE_WRITE || mode == CACHE_READ | CACHE_WRITE
  }

  /** One oplock per client; an oplock that allows writing is alone. */
  ghost predicate SingleWriterOrReaders(os: seq<Oplock>) {
    && (forall o | o in os :: CacheMode(o.mode))
    && (forall i, j | 0 <= i < j < |os| :: os[i].owner != os[j].owner)
    && (|os| > 1 ==> forall o | o in os :: o.mode == CACHE_READ)
  }

  /** Byte-range locks and oplocks never belong to different clients. */
  ghost predicate OneClientMixesBoth(s: FileState) {
    forall l, o | l in s.locks && o in s.oplocks :: l.owner == o.owner
  }

  /** Every request waiting for oplocks has a foreign oplock still held. */
  ghost predicate OplockWaitersHaveACause(s: FileState) {
    forall w | w in s.opQueue :: exists o | o in s.oplocks :: o.owner != w.owner
  }

  /** The sharing modes of any two handles allow each other. */
  ghost predicate SharingAgrees(s: FileState) {
    forall a, b | a in s.originFlags && b in s.originFlags && a != b ::
      !ModeConflict(s.originFlags[a], s.originFlags[b])
  }

  ghost predicate Inv(s: FileState) {
    && Admissible(s.locks)
    && NoLostWakeups(s)
    && SingleWriterOrReaders(s.oplocks)
    && OneClientMixesBoth(s)
    && OplockWaitersHaveACause(s)
    && SharingAgrees(s)
  }

  // ---------------------------------------------------------------- wake-ups

  lemma {:induction false} QueueMembers(q: seq<BrWait>, start: U64, end: U64)
    ensures forall w :: w in StillWaiting(q, start, end) <==> w in q && !Reaches(w, start, end)
    ensures forall w :: w in Woken(q, start, end) <==> w in q && Reaches(w, start, end)
  {
    if q != [] {
      QueueMembers(q[1..], start, end);
      assert forall w :: w in q <==> w == q[0] || w in q[1..];
    }
  }

  lemma {:induction false} WakeEachQueue(s: FileState, freed: seq<Flock>)
    ensures WakeEach(s, freed) == s.(brQueue := WakeEach(s, freed).brQueue, requeued := WakeEach(s, freed).requeued)
    ensures forall w :: w in WakeEach(s, freed).brQueue
                   <==> w in s.brQueue && forall l | l in freed :: !Reaches(w, l.start, l.end)
    decreases freed
  {
    if freed != [] {
      var s1 := WakeRange(s, freed[0].start, freed[0].end);
      QueueMembers(s.brQueue, freed[0].start, freed[0].end);
      WakeEachQueue(s1, freed[1..]);
      assert forall l :: l in freed <==> l == freed[0] || l in freed[1..];
    }
  }

  /** The heart of it: a request that survives the wake-up of the removed locks is still
      kept out by a lock that was not removed. */
  lemma SurvivorsStillBlocked(s: FileState, which: Which, s': FileState)
    requires NoLostWakeups(s)
    requires s'.locks == Without(s.locks, which)
    requires forall w | w in s'.brQueue ::
               w in s.brQueue && forall l | l in Picked(s.locks, which) :: !Reaches(w, l.start, l.end)
    ensures NoLostWakeups(s')
  {
    WithoutMembers(s.locks, which);
    forall w | w in s'.brQueue ensures Waits(s', w) {
      var l :| l in s.locks && l.LockConflicts(w.origin, w.mode, w.start, w.end);
      if which.Selects(l) {
        assert l in Picked(s.locks, which);
        assert Reaches(w, l.start, l.end);
      }
      assert l in s'.locks;
    }
  }

  lemma UnlockKeepsInv(s: FileState, origin: U64, mode: bv64, start: U64, end: U64)
    requires Inv(s)
    ensures Inv(RemoveRangeLock(s, origin, mode, start, end).0)
  {
    var which := Exact(origin, mode, start, end);
    var s' := RemoveRangeLock(s, origin, mode, start, end).0;
    WithoutAdmissible(s.locks, which);
    WithoutMembers(s.locks, which);
    QueueMembers(s.brQueue, start, end);
    SurvivorsStillBlocked(s, which, s');
  }

  lemma ReleaseKeepsInv(s: FileState, origin: U64)
    requires Inv(s)
    ensures Inv(ReleaseBrlocks(s, origin))
    ensures var s' := ReleaseBrlocks(s, origin);
            s' == s.(locks := s'.locks, brQueue := s'.brQueue, requeued := s'.requeued)
  {
    var which := OfOrigin(origin);
    WithoutAdmissible(s.locks, which);
    WithoutMembers(s.locks, which);
    WakeEachQueue(s, Picked(s.locks, which));
    SurvivorsStillBlocked(s, which, ReleaseBrlocks(s, origin));
  }

  // ---------------------------------------------------------------- oplocks

  lemma {:induction false} OthersMembers(os: seq<Oplock>, client: ObjectId)
    ensures forall o :: o in OthersOplocks(os, client) <==> o in os && o.owner != client
  {
    if os != [] {
      OthersMembers(os[1..], client);
      assert forall o :: o in os <==> o == os[0] || o in os[1..];
    }
  }

  lemma {:induction false} OthersKeepInv(os: seq<Oplock>, client: ObjectId)
    requires SingleWriterOrReaders(os)
    ensures SingleWriterOrReaders(OthersOplocks(os, client))
  {
    if os != [] {
      var t, r := os[1..], OthersOplocks(os[1..], client);
      OthersKeepInv(t, client);
      OthersMembers(t, client);
      if os[0].owner != client {
        ConsOplock(os[0], r, os);
      } else {
        assert OthersOplocks(os, client) == r;
      }
    }
  }

  /** Putting an oplock in front of some of the others it already lived with. */
  lemma ConsOplock(o: Oplock, r: seq<Oplock>, os: seq<Oplock>)
    requires os != [] && o == os[0] && SingleWriterOrReaders(os) && SingleWriterOrReaders(r)
    requires forall x | x in r :: x in os[1..]
    ensures SingleWriterOrReaders([o] + r)
  {
    forall x | x in r ensures x.owner != o.owner && |os| > 1 {
      var k :| 0 <= k < |os[1..]| && os[1..][k] == x;
      assert os[k + 1] == x;
    }
    if r != [] { assert r[0] in r; }
  }

  lemma RemoveOplocksKeepsInv(s: FileState, client: ObjectId)
    requires Inv(s)
    ensures Inv(RemoveOplocks(s, client).0)
  {
    OthersKeepInv(s.oplocks, client);
    OthersMembers(s.oplocks, client);
    if !Holds(s.oplocks, client) {
      var s' := RemoveOplocks(s, client).0;
      forall w | w in s'.opQueue ensures exists o | o in s'.oplocks :: o.owner != w.owner {
        var o :| o in s.oplocks && o.owner != w.owner;
        assert o in s'.oplocks;
      }
    }
  }

  lemma {:induction false} SetModeIndex(os: seq<Oplock>, client: ObjectId, mode: bv64) returns (k: nat)
    requires Holds(os, client)
    ensures k < |os| && os[k].owner == client
    ensures SetMode(os, client, mode) == os[k := Oplock(client, mode)]
  {
    if os[0].owner == client {
      k := 0;
      assert [Oplock(client, mode)] + os[1..] == os[0 := Oplock(client, mode)];
    } else {
      assert Holds(os[1..], client) by {
        var o :| o in os && o.owner == client;
        assert o in os[1..];
      }
      var k' := SetModeIndex(os[1..], client, mode);
      k := k' + 1;
      assert [os[0]] + os[1..][k' := Oplock(client, mode)] == os[k := Oplock(client, mode)];
    }
  }

  lemma SetOplockKeepsInv(s: FileState, client: ObjectId, mode: bv64)
    requires Inv(s)
    ensures Inv(SetOplock(s, client, mode).0)
  {
    var (s', rv) := SetOplock(s, client, mode);
    if mode & !(CACHE_READ | CACHE_WRITE) != 0 {
    } else if mode == 0 {
      RemoveOplocksKeepsInv(s, client);
    } else if rv == Success {
      assert CacheMode(mode);
      forall o | o in s.oplocks && o.owner != client ensures o.mode == CACHE_READ && mode == CACHE_READ {
        assert !o.BrokenBy(client, mode & CACHE_WRITE != 0);
      }
      if Holds(s.oplocks, client) {
        var k := SetModeIndex(s.oplocks, client, mode);
        var os := s.oplocks[k := Oplock(client, mode)];
        forall i | 0 <= i < |os| && i != k ensures os[i].mode == CACHE_READ == mode {
          assert s.oplocks[i] in s.oplocks && s.oplocks[i].owner != client;
        }
        if |os| > 1 {
          assert os[if k == 0 then 1 else 0].mode == CACHE_READ;
        }
        forall w | w in s'.opQueue ensures exists o | o in s'.oplocks :: o.owner != w.owner {
          var i :| 0 <= i < |s.oplocks| && s.oplocks[i].owner != w.owner;
          assert os[i] in os && os[i].owner == s.oplocks[i].owner;
        }
      } else {
        AddedOplock(s.oplocks, Oplock(client, mode));
        forall w | w in s'.opQueue ensures exists o | o in s'.oplocks :: o.owner != w.owner {
          var o :| o in s.oplocks && o.owner != w.owner;
          assert o in s'.oplocks;
        }
      }
    }
  }

  lemma AddedOplock(os: seq<Oplock>, o: Oplock)
    requires SingleWriterOrReaders(os) && CacheMode(o.mode)
    requires forall x | x in os :: x.owner != o.owner && x.mode == CACHE_READ && o.mode == CACHE_READ
    ensures SingleWriterOrReaders([o] + os)
  {
    var c := [o] + os;
    forall i, j | 0 <= i < j < |c| ensures c[i].owner != c[j].owner {
      assert c[j] in os;
    }
    if os != [] { assert os[0] in os; }
  }

  // ---------------------------------------------------------------- every request keeps it

  /** A lock that is granted. */
  lemma GrantKeepsInv(s: FileState, l: Flock)
    requires Inv(s) && AddRangeLock(s, l).1 && !OplockBroken(s, l.owner, true)
    ensures Inv(AddRangeLock(s, l).0)
  {
    var s' := AddRangeLock(s, l).0;
    assert ([l] + s.locks)[1..] == s.locks;
    forall o | o in s.oplocks ensures o.owner == l.owner {
      assert !o.BrokenBy(l.owner, true);
      assert CacheMode(o.mode);
    }
    forall w | w in s'.brQueue ensures Waits(s', w) {
      var x :| x in s.locks && x.LockConflicts(w.origin, w.mode, w.start, w.end);
      assert x in s'.locks;
    }
  }

  lemma LockKeepsInv(s: FileState, r: Request)
    requires Inv(s) && r.LockRange?
    ensures Inv(Step(s, r))
  {
    if r.end < r.start || (r.flags & RANGE_UNLOCK != 0 && r.flags & RANGE_LOCK != 0) {
    } else if r.flags & RANGE_UNLOCK != 0 {
      hide Inv, RemoveRangeLock;
      UnlockKeepsInv(s, r.origin, r.mode, r.start, r.end);
    } else if r.flags & RANGE_LOCK != 0 {
      AskKeepsInv(s, r);
    }
  }

  lemma AskKeepsInv(s: FileState, r: Request)
    requires Inv(s) && r.LockRange? && r.start <= r.end && r.flags & RANGE_UNLOCK == 0 && r.flags & RANGE_LOCK != 0
    ensures Inv(Step(s, r))
  {
    hide Admissible, SingleWriterOrReaders;
    var s1 := CheckOplockConflict(s, r.client, true).0;
    assert Inv(s1);
    if OplockBroken(s, r.client, true) {
      SuspendedHasCause(s, r.client, true);
    } else {
      var l := Flock(r.client, r.origin, r.mode, r.start, r.end);
      if AddRangeLock(s1, l).1 {
        GrantKeepsInv(s1, l);
      }
    }
  }

  /** A read, write or truncate changes nothing but the notifications it sends. */
  lemma IoOnlyNotifies(s: FileState, client: ObjectId, origin: U64, writing: bool, start: U64, end: U64)
    ensures var s' := DoIo(s, client, origin, writing, start, end).0; s' == s.(breaks := s'.breaks) && (Inv(s) ==> Inv(s'))
  {
  }

  lemma SuspendedHasCause(s: FileState, client: ObjectId, writing: bool)
    requires OplockBroken(s, client, writing)
    ensures exists o | o in s.oplocks :: o.owner != client
  {
    var o :| o in s.oplocks && o.BrokenBy(client, writing);
    assert o.owner != client;
  }

  lemma OpenKeepsInv(s: FileState, r: Request)
    requires Inv(s) && (r.Open? || r.OpenInternal?)
    ensures Inv(Step(s, r))
  {
    if r.Open? && AddReference(s, r.flags).1 == Success {
      forall a | a in s.originFlags
        ensures !ModeConflict(s.originFlags[a], r.flags) && !ModeConflict(r.flags, s.originFlags[a])
      {
        ConflictIsSymmetric(s.originFlags[a], r.flags);
      }
    }
  }

  lemma CloseKeepsInv(s: FileState, client: ObjectId, origin: U64)
    requires Inv(s)
    ensures Inv(RemoveReference(RemoveOpenOrigin(s, origin), client, origin).0)
  {
    var s0 := RemoveOpenOrigin(s, origin);
    ReleaseKeepsInv(s0, origin);
    var s1 := ReleaseBrlocks(s0, origin).(originFlags := s.originFlags - {origin},
                                          objectRefs := s.objectRefs - multiset{client});
    assert Inv(s1);
    RemoveOplocksKeepsInv(s1, client);
  }

  lemma ClientGoneKeepsInv(s: FileState, client: ObjectId)
    requires Inv(s)
    ensures Inv(RemoveObject(s, client).0)
  {
    RemoveOplocksKeepsInv(s, client);
    var s1 := RemoveOplocks(s, client).0;
    WithoutAdmissible(s1.locks, OfObject(client));
    WithoutMembers(s1.locks, OfObject(client));
  }

  lemma StepKeepsInv(s: FileState, r: Request)
    requires Inv(s)
    ensures Inv(Step(s, r))
  {
    match r
    case Open(_, _, _) => OpenKeepsInv(s, r);
    case OpenInternal(_) => OpenKeepsInv(s, r);
    case Close(client, origin) => CloseKeepsInv(s, client, origin);
    case LockRange(_, _, _, _, _, _, _) => LockKeepsInv(s, r);
    case Io(_, client, origin, writing, start, end) =>
      if DoIo(s, client, origin, writing, start, end).1 == Retry {
        SuspendedHasCause(s, client, writing);
      }
    case CacheLock(client, mode) => SetOplockKeepsInv(s, client, mode);
    case Release(origin) => ReleaseKeepsInv(s, origin);
    case ClientGone(client) => ClientGoneKeepsInv(s, client);
  }

  lemma ConflictIsSymmetric(a: bv32, b: bv32)
    ensures ModeConflict(a, b) == ModeConflict(b, a)
  {
  }

  /** After any run of requests on a newly opened file, the whole invariant holds. */
  lemma {:induction false} RunKeepsInv(s: FileState, rs: seq<Request>)
    requires Inv(s)
    ensures Inv(Run(s, rs))
    decreases rs
  {
    if rs != [] {
      StepKeepsInv(s, rs[0]);
      RunKeepsInv(Step(s, rs[0]), rs[1..]);
    }
  }

  /** How a file comes into being: opened by a client, or by the dataset for itself. */
  function Created(client: ObjectId, origin: U64, flags: bv32): FileState {
    AddOpenOrigin(AddOrigin(AddObject(Fresh(flags), client), origin, flags), origin)
  }

  ghost predicate Initial(s: FileState) {
    || (exists flags :: s == Fresh(flags))
    || (exists client, origin, flags :: s == Created(client, origin, flags))
  }

  /** Main result on lost wake-ups: after any run, whoever still waits for a byte range is
      kept out by a lock still held; whoever waits for oplocks has a foreign one still held,
      which breaks the request if that asks to write; a read can at worst be left behind
      reading oplocks. So when the last lock goes, nobody is left behind. */
  lemma NobodyWaitsForNothing(s0: FileState, rs: seq<Request>)
    requires Initial(s0)
    ensures var s := Run(s0, rs);
            && (forall w | w in s.brQueue :: LockBlocked(s.locks, w.origin, w.mode, w.start, w.end))
            && (forall w | w in s.opQueue :: exists o | o in s.oplocks :: o.owner != w.owner)
            && (forall w | w in s.opQueue && w.asksToWrite :: OplockBroken(s, w.owner, true))
            && (forall w | Stranded(s, w) :: !w.asksToWrite && forall o | o in s.oplocks :: o.mode == CACHE_READ || o.owner == w.owner)
            && (s.locks == [] ==> s.brQueue == [])
            && (s.oplocks == [] ==> s.opQueue == [])
  {
    RunKeepsInv(s0, rs);
    var s := Run(s0, rs);
    hide Run, Admissible, SharingAgrees;
    forall w | w in s.opQueue && w.asksToWrite ensures OplockBroken(s, w.owner, true) {
      WritersAreKeptOut(s, w);
    }
    assert s.brQueue != [] ==> s.brQueue[0] in s.brQueue;
    assert s.opQueue != [] ==> s.opQueue[0] in s.opQueue;
  }

  /** Main result on exclusion: after any run, overlapping locks of different handles are
      shared reads; a writing oplock is alone; oplocks and locks have one owner. */
  lemma LocksExcludeEachOther(s0: FileState, rs: seq<Request>)
    requires Initial(s0)
    ensures var s := Run(s0, rs);
            && (forall i, j | 0 <= i < |s.locks| && 0 <= j < |s.locks| && s.locks[i].origin != s.locks[j].origin
                  && s.locks[i].Overlaps(s.locks[j].start, s.locks[j].end) ::
                  !Exclusive(s.locks[i].mode) && !Exclusive(s.locks[j].mode))
            && (forall o | o in s.oplocks && o.mode & CACHE_WRITE != 0 :: s.oplocks == [o])
            && (forall l, o | l in s.locks && o in s.oplocks :: l.owner == o.owner)
  {
    RunKeepsInv(s0, rs);
    hide Run;
    Excluding(Run(s0, rs));
  }

  lemma Excluding(s: FileState)
    requires Inv(s)
    ensures forall i, j | 0 <= i < |s.locks| && 0 <= j < |s.locks| && s.locks[i].origin != s.locks[j].origin
              && s.locks[i].Overlaps(s.locks[j].start, s.locks[j].end) ::
              !Exclusive(s.locks[i].mode) && !Exclusive(s.locks[j].mode)
    ensures forall o | o in s.oplocks && o.mode & CACHE_WRITE != 0 :: s.oplocks == [o]
    ensures forall l, o | l in s.locks && o in s.oplocks :: l.owner == o.owner
  {
    forall i, j | 0 <= i < |s.locks| && 0 <= j < |s.locks| && s.locks[i].origin != s.locks[j].origin
      && s.locks[i].Overlaps(s.locks[j].start, s.locks[j].end)
      ensures !Exclusive(s.locks[i].mode) && !Exclusive(s.locks[j].mode)
    {
      ForeignOverlapIsReadOnly(s.locks, i, j);
    }
  }

  // ---------------------------------------------------------------- no request is lost

  function Times(q: seq<Context>, c: Context): nat {
    if q == [] then 0 else (if q[0] == c then 1 else 0) + Times(q[1..], c)
  }

  /** How often request `c` is accounted for: waiting in either queue, or handed back. */
  function Accounted(s: FileState, c: Context): nat {
    Times(BrContexts(s.brQueue), c) + Times(OpContexts(s.opQueue), c) + Times(s.requeued, c)
  }

  /** The request that `r` leaves waiting, if any. */
  function Suspended(s: FileState, r: Request): seq<Context> {
    if r.LockRange? && SetLockRange(s, r.client, r.origin, r.flags, r.mode, r.start, r.end).1 in {Retry, WaitLock}
    then [r.context]
    else if r.Io? && DoIo(s, r.client, r.origin, r.writing, r.start, r.end).1 == Retry then [r.context]
    else []
  }

  /** How often request `c` is suspended in the course of a run. */
  ghost function Suspensions(s: FileState, rs: seq<Request>, c: Context): nat
    decreases rs
  {
    if rs == [] then 0 else Times(Suspended(s, rs[0]), c) + Suspensions(Step(s, rs[0]), rs[1..], c)
  }

  lemma {:induction false} TimesAppend(a: seq<Context>, b: seq<Context>, c: Context)
    ensures Times(a + b, c) == Times(a, c) + Times(b, c)
  {
    if a == [] {
      assert a + b == b;
    } else {
      TimesAppend(a[1..], b, c);
      assert (a + b)[1..] == a[1..] + b;
    }
  }

  lemma MultisetCons<T>(x: T, s: seq<T>)
    ensures multiset([x] + s) == multiset{x} + multiset(s)
  {
  }

  /** One wake-up splits the queue: each waiter goes to exactly one side. */
  lemma {:induction false} WakeSplitsQueue(q: seq<BrWait>, start: U64, end: U64)
    ensures multiset(q) == multiset(StillWaiting(q, start, end)) + multiset(Woken(q, start, end))
  {
    if q != [] {
      WakeSplitsQueue(q[1..], start, end);
      assert q == [q[0]] + q[1..];
      var st, wo := StillWaiting(q[1..], start, end), Woken(q[1..], start, end);
      MultisetCons(q[0], q[1..]);
      if Reaches(q[0], start, end) {
        MultisetCons(q[0], wo);
        assert StillWaiting(q, start, end) == st;
      } else {
        MultisetCons(q[0], st);
        assert Woken(q, start, end) == wo;
      }
    }
  }

  lemma {:induction false} WakeSplitsContexts(q: seq<BrWait>, start: U64, end: U64, c: Context)
    ensures Times(BrContexts(q), c) == Times(BrContexts(StillWaiting(q, start, end)), c)
                                     + Times(BrContexts(Woken(q, start, end)), c)
  {
    if q != [] {
      WakeSplitsContexts(q[1..], start, end, c);
      var st, wo := StillWaiting(q[1..], start, end), Woken(q[1..], start, end);
      TimesAppend([q[0].context], BrContexts(q[1..]), c);
      if Reaches(q[0], start, end) {
        assert ([q[0]] + wo)[1..] == wo && StillWaiting(q, start, end) == st;
        TimesAppend([q[0].context], BrContexts(wo), c);
      } else {
        assert ([q[0]] + st)[1..] == st && Woken(q, start, end) == wo;
        TimesAppend([q[0].context], BrContexts(st), c);
      }
    }
  }

  /** `a` arises from `b` by leaving elements out. */
  predicate Subsequence<T(==)>(a: seq<T>, b: seq<T>) {
    || a == []
    || (b != [] && a[0] == b[0] && Subsequence(a[1..], b[1..]))
    || (b != [] && Subsequence(a, b[1..]))
  }

  lemma SubsequenceGrows<T>(a: seq<T>, b: seq<T>, x: T)
    requires Subsequence(a, b)
    ensures Subsequence(a, [x] + b) && Subsequence([x] + a, [x] + b)
  {
    assert ([x] + b)[1..] == b && ([x] + a)[1..] == a;
  }

  lemma {:induction false} WakeKeepsOrder(q: seq<BrWait>, start: U64, end: U64)
    ensures Subsequence(StillWaiting(q, start, end), q)
    ensures Subsequence(Woken(q, start, end), q)
  {
    if q != [] {
      WakeKeepsOrder(q[1..], start, end);
      var st, wo := StillWaiting(q[1..], start, end), Woken(q[1..], start, end);
      SubsequenceGrows(st, q[1..], q[0]);
      SubsequenceGrows(wo, q[1..], q[0]);
      hide Subsequence;
      assert q == [q[0]] + q[1..];
      if Reaches(q[0], start, end) {
        assert StillWaiting(q, start, end) == st;
      } else {
        assert Woken(q, start, end) == wo;
      }
    }
  }

  lemma WakeRangeLosesNobody(s: FileState, start: U64, end: U64, c: Context)
    ensures Accounted(WakeRange(s, start, end), c) == Accounted(s, c)
  {
    WakeSplitsContexts(s.brQueue, start, end, c);
    TimesAppend(s.requeued, BrContexts(Woken(s.brQueue, start, end)), c);
  }

  lemma {:induction false} WakeEachLosesNobody(s: FileState, freed: seq<Flock>, c: Context)
    ensures Accounted(WakeEach(s, freed), c) == Accounted(s, c)
    decreases freed
  {
    if freed != [] {
      WakeRangeLosesNobody(s, freed[0].start, freed[0].end, c);
      WakeEachLosesNobody(WakeRange(s, freed[0].start, freed[0].end), freed[1..], c);
    }
  }

  lemma RemoveOplocksLosesNobody(s: FileState, client: ObjectId, c: Context)
    ensures Accounted(RemoveOplocks(s, client).0, c) == Accounted(s, c)
  {
    TimesAppend(s.requeued, OpContexts(s.opQueue), c);
  }

  lemma ReleaseLosesNobody(s: FileState, origin: U64, c: Context)
    ensures Accounted(ReleaseBrlocks(s, origin), c) == Accounted(s, c)
  {
    WakeEachLosesNobody(s, Picked(s.locks, OfOrigin(origin)), c);
  }

  lemma CloseLosesNobody(s: FileState, client: ObjectId, origin: U64, c: Context)
    ensures Accounted(RemoveReference(RemoveOpenOrigin(s, origin), client, origin).0, c) == Accounted(s, c)
  {
    var s0 := RemoveOpenOrigin(s, origin);
    ReleaseLosesNobody(s0, origin, c);
    var s1 := ReleaseBrlocks(s0, origin).(originFlags := s.originFlags - {origin},
                                          objectRefs := s.objectRefs - multiset{client});
    RemoveOplocksLosesNobody(s1, client, c);
  }

  lemma WakeAllLosesNobody(s: FileState, c: Context)
    ensures Accounted(WakeAll(s), c) == Accounted(s, c)
  {
    TimesAppend(s.requeued, BrContexts(s.brQueue), c);
    TimesAppend(s.requeued + BrContexts(s.brQueue), OpContexts(s.opQueue), c);
  }

  lemma ClientGoneLosesNobody(s: FileState, client: ObjectId, c: Context)
    ensures Accounted(RemoveObject(s, client).0, c) == Accounted(s, c)
  {
    RemoveOplocksLosesNobody(s, client, c);
    var s2 := RemoveBrlocks(RemoveOplocks(s, client).0, client).0;
    var s3 := s2.(refcount := s.refcount - s.objectRefs[client], objectRefs := s.objectRefs[client := 0]);
    WakeAllLosesNobody(s3, c);
  }

  lemma SetLockRangeLosesNobody(s: FileState, client: ObjectId, origin: U64, flags: bv32, mode: bv64,
                                start: U64, end: U64, c: Context)
    ensures Accounted(SetLockRange(s, client, origin, flags, mode, start, end).0, c) == Accounted(s, c)
  {
    var s' := SetLockRange(s, client, origin, flags, mode, start, end).0;
    if end < start || (flags & RANGE_UNLOCK != 0 && flags & RANGE_LOCK != 0) {
    } else if flags & RANGE_UNLOCK != 0 {
      WakeRangeLosesNobody(s.(locks := Without(s.locks, Exact(origin, mode, start, end))), start, end, c);
    } else {
      assert s'.brQueue == s.brQueue && s'.opQueue == s.opQueue && s'.requeued == s.requeued;
    }
  }

  lemma QueueingAddsOne(s: FileState, b: BrWait, o: OpWait, c: Context)
    ensures Accounted(s.(brQueue := s.brQueue + [b]), c) == Accounted(s, c) + Times([b.context], c)
    ensures Accounted(s.(opQueue := s.opQueue + [o]), c) == Accounted(s, c) + Times([o.context], c)
  {
    BrContextsAppend(s.brQueue, [b]);
    OpContextsAppend(s.opQueue, [o]);
    assert BrContexts([b]) == [b.context] && OpContexts([o]) == [o.context];
    TimesAppend(BrContexts(s.brQueue), [b.context], c);
    TimesAppend(OpContexts(s.opQueue), [o.context], c);
  }

  lemma LockLosesNobody(s: FileState, r: Request, c: Context)
    requires r.LockRange?
    ensures Accounted(Step(s, r), c) == Accounted(s, c) + Times(Suspended(s, r), c)
  {
    var s1 := SetLockRange(s, r.client, r.origin, r.flags, r.mode, r.start, r.end).0;
    SetLockRangeLosesNobody(s, r.client, r.origin, r.flags, r.mode, r.start, r.end, c);
    QueueingAddsOne(s1, BrWait(r.context, r.origin, r.mode, r.start, r.end), OpWait(r.context, r.client, false, true), c);
  }

  lemma IoLosesNobody(s: FileState, r: Request, c: Context)
    requires r.Io?
    ensures Accounted(Step(s, r), c) == Accounted(s, c) + Times(Suspended(s, r), c)
  {
    var s1 := DoIo(s, r.client, r.origin, r.writing, r.start, r.end).0;
    assert Accounted(s1, c) == Accounted(s, c);
    QueueingAddsOne(s1, BrWait(0, 0, 0, 0, 0), OpWait(r.context, r.client, r.writing, r.writing), c);
  }

  lemma StepLosesNobody(s: FileState, r: Request, c: Context)
    ensures Accounted(Step(s, r), c) == Accounted(s, c) + Times(Suspended(s, r), c)
  {
    if r.LockRange? {
      LockLosesNobody(s, r, c);
    } else if r.Io? {
      IoLosesNobody(s, r, c);
    } else {
      assert Suspended(s, r) == [];
      match r
      case Open(_, _, _) =>
      case OpenInternal(_) =>
      case Close(client, origin) => CloseLosesNobody(s, client, origin, c);
      case CacheLock(client, _) => RemoveOplocksLosesNobody(s, client, c);
      case Release(origin) => ReleaseLosesNobody(s, origin, c);
      case ClientGone(client) => ClientGoneLosesNobody(s, client, c);
    }
  }

  /** Over any run, every request that was ever suspended is either still in a queue or has
      been handed back, once for each time it was suspended. */
  lemma {:induction false} RunLosesNobody(s: FileState, rs: seq<Request>, c: Context)
    ensures Accounted(Run(s, rs), c) == Accounted(s, c) + Suspensions(s, rs, c)
    decreases rs
  {
    if rs != [] {
      StepLosesNobody(s, rs[0], c);
      RunLosesNobody(Step(s, rs[0]), rs[1..], c);
    }
  }

  // ---------------------------------------------------------------- reference counts

  /** References that no client object accounts for. */
  function Anonymous(s: FileState): int {
    s.refcount - |s.objectRefs|
  }

  /** The effect of one request on them. A client that closes a handle it does not own
      takes away a reference it never had. */
  function AnonymousEffect(s: FileState, r: Request): int {
    if r.OpenInternal? && AddReference(s, r.flags).1 == Success then 1
    else if r.Close? && ValidateOrigin(s, r.origin) && r.client !in s.objectRefs && s.refcount != 0 then -1
    else if r.Close? && ValidateOrigin(s, r.origin) && r.client in s.objectRefs && s.refcount == 0 then 1
    else 0
  }

  predicate SameReferences(a: FileState, b: FileState) {
    a.refcount == b.refcount && a.objectRefs == b.objectRefs
  }

  lemma RemoveOplocksKeepsRefs(s: FileState, client: ObjectId)
    ensures SameReferences(s, RemoveOplocks(s, client).0)
  {
  }

  lemma ReleaseKeepsRefs(s: FileState, origin: U64)
    ensures SameReferences(s, ReleaseBrlocks(s, origin))
  {
    WakeEachQueue(s, Picked(s.locks, OfOrigin(origin)));
  }

  lemma LockKeepsRefs(s: FileState, r: Request)
    requires r.LockRange? || r.Io? || r.CacheLock?
    ensures SameReferences(s, Step(s, r))
  {
  }

  lemma CloseReferences(s: FileState, client: ObjectId, origin: U64)
    requires ValidateOrigin(s, origin)
    ensures Anonymous(RemoveReference(RemoveOpenOrigin(s, origin), client, origin).0)
         == Anonymous(s) + AnonymousEffect(s, Close(client, origin))
  {
    var s0 := RemoveOpenOrigin(s, origin);
    ReleaseKeepsRefs(s0, origin);
    var s1 := ReleaseBrlocks(s0, origin).(originFlags := s.originFlags - {origin},
                                          objectRefs := s.objectRefs - multiset{client});
    RemoveOplocksKeepsRefs(s1, client);
  }

  /** References are conserved, request by request, with exactly these exceptions. */
  lemma StepConservesReferences(s: FileState, r: Request)
    ensures Anonymous(Step(s, r)) == Anonymous(s) + AnonymousEffect(s, r)
  {
    match r
    case Open(_, _, _) =>
    case OpenInternal(_) =>
    case Close(client, origin) =>
      if ValidateOrigin(s, origin) {
        CloseReferences(s, client, origin);
      }
    case LockRange(_, _, _, _, _, _, _) => LockKeepsRefs(s, r);
    case Io(_, _, _, _, _, _) => LockKeepsRefs(s, r);
    case CacheLock(_, _) => LockKeepsRefs(s, r);
    case Release(origin) => ReleaseKeepsRefs(s, origin);
    case ClientGone(client) => RemoveOplocksKeepsRefs(s, client);
  }

  ghost function AnonymousBalance(s: FileState, rs: seq<Request>): int
    decreases rs
  {
    if rs == [] then 0 else AnonymousEffect(s, rs[0]) + AnonymousBalance(Step(s, rs[0]), rs[1..])
  }

  lemma {:induction false} RunConservesReferences(s: FileState, rs: seq<Request>)
    ensures Run(s, rs).refcount == |Run(s, rs).objectRefs| + Anonymous(s) + AnonymousBalance(s, rs)
    decreases rs
  {
    if rs != [] {
      StepConservesReferences(s, rs[0]);
      RunConservesReferences(Step(s, rs[0]), rs[1..]);
    }
  }

  /** A dying client takes exactly its own references with it; the file stays referenced
      exactly when somebody else, client or dataset, still has it open. */
  lemma ClientGoneDropsOnlyItsOwn(s: FileState, client: ObjectId)
    ensures var s' := RemoveObject(s, client).0;
            && client !in s'.objectRefs
            && (forall c | c != client :: s'.objectRefs[c] == s.objectRefs[c])
            && Anonymous(s') == Anonymous(s)
            && (s'.refcount > 0 <==> |s.objectRefs| - s.objectRefs[client] + Anonymous(s) > 0)
  {
    RemoveOplocksKeepsRefs(s, client);
  }

  /** A close by a client that does not have the file open takes away a reference that is
      another client's: here the last one, of a client that still has the file open. */
  lemma ForeignCloseTakesAReference()
    ensures var s := Step(Created(1, 7, 0), Close(2, 7)); s.refcount == 0 && 1 in s.objectRefs
  {
    var s0 := RemoveOpenOrigin(Created(1, 7, 0), 7);
    ReleaseKeepsRefs(s0, 7);
    CloseReferences(Created(1, 7, 0), 2, 7);
  }

  // ---------------------------------------------------------------- downgraded oplocks

  /** A waiter that the oplock rules would let through now. */
  ghost predicate Stranded(s: FileState, w: OpWait) {
    w in s.opQueue && !OplockBroken(s, w.owner, w.asksToWrite)
  }

  /** Every foreign oplock keeps a request out that asks to write. */
  lemma WritersAreKeptOut(s: FileState, w: OpWait)
    requires Inv(s) && w in s.opQueue && w.asksToWrite
    ensures OplockBroken(s, w.owner, true)
  {
    var o :| o in s.oplocks && o.owner != w.owner;
    assert CacheMode(o.mode);
    assert o.BrokenBy(w.owner, true);
  }

  /** The one request that forgets a waiting read `w`: its client trades a writing oplock for a
      reading one, in place. */
  predicate DowngradesUnder(s: FileState, r: Request, w: OpWait) {
    r.CacheLock? && r.mode == CACHE_READ && s.locks == [] && Holds(s.oplocks, r.client) && !w.asksToWrite
  }

  /** A read that is kept out waits for the one writing oplock there is. */
  lemma ReadersWaitForTheWriter(s: FileState, w: OpWait)
    requires SingleWriterOrReaders(s.oplocks) && OplockBroken(s, w.owner, false)
    ensures |s.oplocks| == 1 && s.oplocks[0].mode & CACHE_WRITE != 0 && s.oplocks[0].owner != w.owner
  {
    var o :| o in s.oplocks && o.BrokenBy(w.owner, false);
    assert s.oplocks[0] in s.oplocks;
  }

  lemma CacheLockStrandsIff(s: FileState, r: Request, w: OpWait)
    requires Inv(s) && r.CacheLock? && w in s.opQueue && OplockBroken(s, w.owner, w.asksToWrite)
    ensures Stranded(Step(s, r), w) <==> DowngradesUnder(s, r, w)
  {
    hide Inv, SetOplock, SingleWriterOrReaders;
    SetOplockKeepsInv(s, r.client, r.mode);
    var s' := Step(s, r);
    if w in s'.opQueue && w.asksToWrite {
      WritersAreKeptOut(s', w);
    } else if w in s'.opQueue {
      WriterKeepsReadersOut(s, r.client, r.mode, w);
    } else {
      QueueGoesWithTheOplock(s, r.client, r.mode);
    }
  }

  lemma QueueGoesWithTheOplock(s: FileState, client: ObjectId, mode: bv64)
    ensures mode != 0 ==> SetOplock(s, client, mode).0.opQueue == s.opQueue
  {
  }

  lemma WriterKeepsReadersOut(s: FileState, client: ObjectId, mode: bv64, w: OpWait)
    requires Inv(s) && OplockBroken(s, w.owner, false) && w in SetOplock(s, client, mode).0.opQueue
    ensures !OplockBroken(SetOplock(s, client, mode).0, w.owner, false)
       <==> mode == CACHE_READ && s.locks == [] && Holds(s.oplocks, client)
  {
    ReadersWaitForTheWriter(s, w);
    var o := s.oplocks[0];
    hide Inv, SetOplock;
    assert s.oplocks == [o] && o in s.oplocks;
    if o.owner != client {
      ForeignWriterStays(s, client, mode, o);
    } else {
      OwnWriterChanges(s, client, mode, o);
      var (s', rv) := SetOplock(s, client, mode);
      if mode != 0 && rv == Success {
        assert Oplock(client, mode) in s'.oplocks && forall x | x in s'.oplocks :: x == Oplock(client, mode);
      }
    }
  }

  /** Nobody takes an oplock beside a writing one. */
  lemma ForeignWriterStays(s: FileState, client: ObjectId, mode: bv64, o: Oplock)
    requires s.oplocks == [o] && o.mode & CACHE_WRITE != 0 && o.owner != client
    ensures SetOplock(s, client, mode).0.oplocks == s.oplocks && !Holds(s.oplocks, client)
  {
    NoneToRemove(s.oplocks, client);
    assert o in s.oplocks && o.BrokenBy(client, mode & CACHE_WRITE != 0);
  }

  lemma OwnWriterChanges(s: FileState, client: ObjectId, mode: bv64, o: Oplock)
    requires s.oplocks == [o] && o.owner == client
    ensures Holds(s.oplocks, client)
    ensures var (s', rv) := SetOplock(s, client, mode);
            && (mode == 0 ==> s'.opQueue == [])
            && (mode != 0 && rv == Success ==> s.locks == [] && CacheMode(mode) && s'.oplocks == [Oplock(client, mode)])
            && (rv != Success ==> s' == s && mode != 0 && !(mode == CACHE_READ && s.locks == []))
  {
    assert o in s.oplocks && [o][1..] == [];
  }

  lemma {:induction false} NoneToRemove(os: seq<Oplock>, client: ObjectId)
    requires !Holds(os, client)
    ensures OthersOplocks(os, client) == os
  {
    if os != [] {
      assert os[0] in os && forall o | o in os[1..] :: o in os;
      NoneToRemove(os[1..], client);
    }
  }

  lemma RemovalKeepsOplocks(s: FileState, client: ObjectId)
    ensures var s' := RemoveOplocks(s, client).0; s'.opQueue == [] || (s'.oplocks == s.oplocks && s'.opQueue == s.opQueue)
  {
    if !Holds(s.oplocks, client) {
      NoneToRemove(s.oplocks, client);
    }
  }

  lemma ReleaseKeepsOplocks(s: FileState, origin: U64)
    ensures ReleaseBrlocks(s, origin).oplocks == s.oplocks && ReleaseBrlocks(s, origin).opQueue == s.opQueue
  {
    WakeEachQueue(s, Picked(s.locks, OfOrigin(origin)));
  }

  lemma CloseKeepsOplocks(s: FileState, client: ObjectId, origin: U64)
    ensures var s' := RemoveReference(RemoveOpenOrigin(s, origin), client, origin).0;
            s'.opQueue == [] || (s'.oplocks == s.oplocks && s'.opQueue == s.opQueue)
  {
    var s0 := RemoveOpenOrigin(s, origin);
    ReleaseKeepsOplocks(s0, origin);
    var s1 := ReleaseBrlocks(s0, origin).(originFlags := s.originFlags - {origin},
                                          objectRefs := s.objectRefs - multiset{client});
    RemovalKeepsOplocks(s1, client);
  }

  lemma LockKeepsOplocks(s: FileState, r: Request)
    requires r.LockRange?
    ensures Step(s, r).oplocks == s.oplocks
    ensures forall w | w in Step(s, r).opQueue :: w in s.opQueue || OplockBroken(s, w.owner, w.asksToWrite)
  {
    RangeRequestKeepsOplocks(s, r.client, r.origin, r.flags, r.mode, r.start, r.end);
    hide SetLockRange, OplockBroken;
  }

  lemma RangeRequestKeepsOplocks(s: FileState, client: ObjectId, origin: U64, flags: bv32, mode: bv64, start: U64, end: U64)
    ensures var (s', rv) := SetLockRange(s, client, origin, flags, mode, start, end);
            s'.oplocks == s.oplocks && s'.opQueue == s.opQueue && (rv == Retry ==> OplockBroken(s, client, true))
  {
    hide LockBlocked, Without, Picked, OplockBroken;
  }

  lemma IoKeepsOplocks(s: FileState, r: Request)
    requires r.Io?
    ensures Step(s, r).oplocks == s.oplocks
    ensures forall w | w in Step(s, r).opQueue :: w in s.opQueue || OplockBroken(s, w.owner, w.asksToWrite)
  {
    IoRequestKeepsOplocks(s, r.client, r.origin, r.writing, r.start, r.end);
    hide DoIo, OplockBroken;
  }

  lemma IoRequestKeepsOplocks(s: FileState, client: ObjectId, origin: U64, writing: bool, start: U64, end: U64)
    ensures var (s', rv) := DoIo(s, client, origin, writing, start, end);
            s'.oplocks == s.oplocks && s'.opQueue == s.opQueue && (rv == Retry ==> OplockBroken(s, client, writing))
  {
    hide IoBlocked, OplockBroken, Broken;
  }

  /** The other requests change oplocks only when all that wait for them are handed back. */
  lemma OthersKeepOplocks(s: FileState, r: Request)
    requires !r.CacheLock?
    ensures Step(s, r).opQueue == [] || Step(s, r).oplocks == s.oplocks
    ensures forall w | w in Step(s, r).opQueue :: w in s.opQueue || OplockBroken(s, w.owner, w.asksToWrite)
  {
    hide RemoveOplocks, ReleaseBrlocks, RemoveReference, SetLockRange, DoIo, OplockBroken;
    match r
    case Open(_, _, _) =>
    case OpenInternal(_) =>
    case Close(client, origin) => CloseKeepsOplocks(s, client, origin);
    case LockRange(_, _, _, _, _, _, _) => LockKeepsOplocks(s, r);
    case Io(_, _, _, _, _, _) => IoKeepsOplocks(s, r);
    case Release(origin) => ReleaseKeepsOplocks(s, origin);
    case ClientGone(client) => RemovalKeepsOplocks(s, client);
  }

  lemma CacheLockQueuesNobody(s: FileState, client: ObjectId, mode: bv64)
    ensures forall w | w in SetOplock(s, client, mode).0.opQueue :: w in s.opQueue
  {
  }

  /** Which requests strand a waiter: of all requests, only giving up a writing oplock in
      place for a reading one, under a waiting read. A new waiter is never stranded. */
  lemma StepStrandsIff(s: FileState, r: Request, w: OpWait)
    requires Inv(s) && !Stranded(s, w)
    ensures Stranded(Step(s, r), w) <==> w in s.opQueue && DowngradesUnder(s, r, w)
  {
    var s' := Step(s, r);
    if r.CacheLock? {
      if w in s.opQueue { CacheLockStrandsIff(s, r, w); } else { CacheLockQueuesNobody(s, r.client, r.mode); }
    } else if w in s'.opQueue {
      hide Inv;
      OthersKeepOplocks(s, r);
    }
  }

  ghost predicate NoneStranded(s: FileState) {
    forall w | w in s.opQueue :: OplockBroken(s, w.owner, w.asksToWrite)
  }

  /** At no point of the run does anybody wait for oplocks that would let the request through. */
  ghost predicate NeverStranded(s: FileState, rs: seq<Request>)
    decreases rs
  {
    NoneStranded(s) && (rs == [] || NeverStranded(Step(s, rs[0]), rs[1..]))
  }

  /** No writing oplock is traded for a reading one in place under a waiting read. */
  ghost predicate NoDowngrades(s: FileState, rs: seq<Request>)
    decreases rs
  {
    rs == [] || ((forall w | w in s.opQueue :: !DowngradesUnder(s, rs[0], w)) && NoDowngrades(Step(s, rs[0]), rs[1..]))
  }

  lemma StepStrandsNobodyIff(s: FileState, r: Request)
    requires Inv(s) && NoneStranded(s)
    ensures NoneStranded(Step(s, r)) <==> forall w | w in s.opQueue :: !DowngradesUnder(s, r, w)
  {
    hide Inv, Step, DowngradesUnder, OplockBroken;
    forall w ensures Stranded(Step(s, r), w) <==> w in s.opQueue && DowngradesUnder(s, r, w) {
      StepStrandsIff(s, r, w);
    }
    assert NoneStranded(Step(s, r)) <==> forall w :: !Stranded(Step(s, r), w);
  }

  /** Main result on oplock waiters: a run strands somebody if and only if it downgrades an
      oplock in place under a waiting read. */
  lemma {:induction false} NeverStrandedIff(s: FileState, rs: seq<Request>)
    requires Inv(s) && NoneStranded(s)
    ensures NeverStranded(s, rs) <==> NoDowngrades(s, rs)
    decreases rs
  {
    hide Inv, NoneStranded, Step, DowngradesUnder;
    if rs != [] {
      StepStrandsNobodyIff(s, rs[0]);
      StepKeepsInv(s, rs[0]);
      if NoneStranded(Step(s, rs[0])) {
        NeverStrandedIff(Step(s, rs[0]), rs[1..]);
      }
    }
  }

  /** A run that does it: client 2 waits to read, and client 1 keeps a reading oplock. */
  lemma DowngradeStrandsAReader()
    ensures Stranded(Run(Fresh(0), [CacheLock(1, CACHE_WRITE), Io(9, 2, 7, false, 0, 10), CacheLock(1, CACHE_READ)]),
                     OpWait(9, 2, false, false))
  {
    var lock, io, down := CacheLock(1, CACHE_WRITE), Io(9, 2, 7, false, 0, 10), CacheLock(1, CACHE_READ);
    var s2 := Step(Step(Fresh(0), lock), io);
    assert s2.opQueue == [OpWait(9, 2, false, false)] && s2.oplocks == [Oplock(1, CACHE_WRITE)] && s2.locks == [] by {
      ReaderQueues();
    }
    DowngradeInPlace(s2);
    ThreeSteps(Fresh(0), lock, io, down);
  }

  lemma ReaderQueues()
    ensures var s := Step(Step(Fresh(0), CacheLock(1, CACHE_WRITE)), Io(9, 2, 7, false, 0, 10));
            s.opQueue == [OpWait(9, 2, false, false)] && s.oplocks == [Oplock(1, CACHE_WRITE)] && s.locks == []
  {
    var s1, o := Step(Fresh(0), CacheLock(1, CACHE_WRITE)), Oplock(1, CACHE_WRITE);
    assert s1 == Fresh(0).(oplocks := [o]);
    assert o in s1.oplocks && o.BrokenBy(2, false);
  }

  lemma DowngradeInPlace(s: FileState)
    requires s.opQueue == [OpWait(9, 2, false, false)] && s.oplocks == [Oplock(1, CACHE_WRITE)] && s.locks == []
    ensures Stranded(Step(s, CacheLock(1, CACHE_READ)), OpWait(9, 2, false, false))
  {
    assert s.oplocks[0] in s.oplocks;
    assert Step(s, CacheLock(1, CACHE_READ)).oplocks == [Oplock(1, CACHE_READ)];
  }

  lemma RunFirst(s: FileState, r: Request, rs: seq<Request>)
    ensures Run(s, [r] + rs) == Run(Step(s, r), rs)
  {
    assert ([r] + rs)[1..] == rs;
  }

  lemma ThreeSteps(s: FileState, a: Request, b: Request, c: Request)
    ensures Run(s, [a, b, c]) == Step(Step(Step(s, a), b), c)
  {
    hide Step;
    assert [a, b, c] == [a] + ([b] + ([c] + []));
    RunFirst(s, a, [b] + ([c] + []));
    RunFirst(Step(s, a), b, [c] + []);
    RunFirst(Step(Step(s, a), b), c, []);
  }

  // ---------------------------------------------------------------- locks beside oplocks

  /** The remark in the source says that this never happens. */
  predicate Mixed(s: FileState) { s.locks != [] && s.oplocks != [] }

  /** A client asks for a range lock while only its own oplocks are held. */
  predicate LocksUnderOwn(s: FileState, r: Request) {
    && r.LockRange? && r.start <= r.end && r.flags & RANGE_UNLOCK == 0 && r.flags & RANGE_LOCK != 0
    && s.oplocks != [] && forall o | o in s.oplocks :: o.owner == r.client
  }

  lemma OwnOplocksDoNotBreak(s: FileState, client: ObjectId)
    requires SingleWriterOrReaders(s.oplocks)
    ensures !OplockBroken(s, client, true) <==> forall o | o in s.oplocks :: o.owner == client
  {
    forall o | o in s.oplocks ensures o.BrokenBy(client, true) <==> o.owner != client {
      assert CacheMode(o.mode);
    }
  }

  lemma LockMixesIff(s: FileState, r: Request)
    requires Inv(s) && !Mixed(s) && r.LockRange?
    ensures Mixed(Step(s, r)) <==> LocksUnderOwn(s, r)
  {
    OwnOplocksDoNotBreak(s, r.client);
    RangeRequestKeepsOplocks(s, r.client, r.origin, r.flags, r.mode, r.start, r.end);
    RangeRequestLocks(s, r.client, r.origin, r.flags, r.mode, r.start, r.end);
    hide Inv, SetLockRange, OplockBroken;
  }

  lemma RangeRequestLocks(s: FileState, client: ObjectId, origin: U64, flags: bv32, mode: bv64, start: U64, end: U64)
    ensures var s' := SetLockRange(s, client, origin, flags, mode, start, end).0;
            s.locks == [] ==>
              (s'.locks != [] <==> start <= end && flags & RANGE_UNLOCK == 0 && flags & RANGE_LOCK != 0 && !OplockBroken(s, client, true))
  {
    hide OplockBroken, Broken;
  }

  lemma CacheLockMixesNothing(s: FileState, client: ObjectId, mode: bv64)
    requires !Mixed(s)
    ensures !Mixed(SetOplock(s, client, mode).0)
  {
    if s.oplocks == [] && mode == 0 {
      assert OthersOplocks(s.oplocks, client) == [];
    }
  }

  lemma ReleaseMixesNothing(s: FileState, origin: U64)
    requires !Mixed(s)
    ensures !Mixed(ReleaseBrlocks(s, origin))
  {
    WakeEachQueue(s, Picked(s.locks, OfOrigin(origin)));
    WithoutMembers(s.locks, OfOrigin(origin));
  }

  lemma RemovalMixesNothing(s: FileState, client: ObjectId)
    requires !Mixed(s)
    ensures !Mixed(RemoveOplocks(s, client).0) && !Mixed(RemoveObject(s, client).0)
  {
    WithoutMembers(s.locks, OfObject(client));
  }

  lemma OthersMixNothing(s: FileState, r: Request)
    requires !Mixed(s) && !r.LockRange?
    ensures !Mixed(Step(s, r))
  {
    hide RemoveOplocks, ReleaseBrlocks, RemoveObject, SetOplock, DoIo, Mixed;
    match r
    case Open(_, _, _) => SameLocksMixNothing(s, Step(s, r));
    case OpenInternal(_) => SameLocksMixNothing(s, Step(s, r));
    case Close(client, origin) => CloseMixesNothing(s, client, origin);
    case Io(_, client, origin, writing, start, end) =>
      IoOnlyNotifies(s, client, origin, writing, start, end);
      SameLocksMixNothing(s, Step(s, r));
    case CacheLock(client, mode) => CacheLockMixesNothing(s, client, mode);
    case Release(origin) =>
      ReleaseMixesNothing(s, origin);
      SameLocksMixNothing(ReleaseBrlocks(s, origin), Step(s, r));
    case ClientGone(client) => RemovalMixesNothing(s, client);
  }

  lemma SameLocksMixNothing(s: FileState, t: FileState)
    requires !Mixed(s) && t.locks == s.locks && t.oplocks == s.oplocks
    ensures !Mixed(t)
  {
  }

  lemma CloseMixesNothing(s: FileState, client: ObjectId, origin: U64)
    requires !Mixed(s)
    ensures !Mixed(Step(s, Close(client, origin)))
  {
    hide RemoveOplocks, ReleaseBrlocks;
    var s0 := RemoveOpenOrigin(s, origin);
    ReleaseMixesNothing(s0, origin);
    var s1 := ReleaseBrlocks(s0, origin).(originFlags := s.originFlags - {origin},
                                          objectRefs := s.objectRefs - multiset{client});
    RemovalMixesNothing(s1, client);
  }

  /** Locks and oplocks come to be held together by exactly one request: a range lock that a
      client asks for under its own oplock. */
  lemma StepMixesIff(s: FileState, r: Request)
    requires Inv(s) && !Mixed(s)
    ensures Mixed(Step(s, r)) <==> LocksUnderOwn(s, r)
  {
    hide Inv, Mixed, Step;
    if r.LockRange? {
      LockMixesIff(s, r);
    } else {
      OthersMixNothing(s, r);
    }
  }

  ghost predicate NeverMixed(s: FileState, rs: seq<Request>)
    decreases rs
  {
    !Mixed(s) && (rs == [] || NeverMixed(Step(s, rs[0]), rs[1..]))
  }

  ghost predicate NoneUnderOwn(s: FileState, rs: seq<Request>)
    decreases rs
  {
    rs == [] || (!LocksUnderOwn(s, rs[0]) && NoneUnderOwn(Step(s, rs[0]), rs[1..]))
  }

  /** Main result on mixing: a run keeps locks and oplocks apart, as the remark says, if and
      only if no client asks for a range lock under its own oplock. */
  lemma {:induction false} NeverMixedIff(s: FileState, rs: seq<Request>)
    requires Inv(s) && !Mixed(s)
    ensures NeverMixed(s, rs) <==> NoneUnderOwn(s, rs)
    decreases rs
  {
    hide Inv, Mixed, Step, LocksUnderOwn;
    if rs != [] {
      StepMixesIff(s, rs[0]);
      StepKeepsInv(s, rs[0]);
      if !Mixed(Step(s, rs[0])) {
        NeverMixedIff(Step(s, rs[0]), rs[1..]);
      }
    }
  }

  /** A run that mixes them. */
  lemma OneClientHoldsBoth()
    ensures Mixed(Step(Step(Fresh(0), CacheLock(1, CACHE_WRITE)), LockRange(9, 1, 7, RANGE_LOCK, WRITE_EXCL, 0, 10)))
  {
    var s := Step(Fresh(0), CacheLock(1, CACHE_WRITE));
    assert s.oplocks == [Oplock(1, CACHE_WRITE)];
    StepKeepsInv(Fresh(0), CacheLock(1, CACHE_WRITE));
    StepMixesIff(s, LockRange(9, 1, 7, RANGE_LOCK, WRITE_EXCL, 0, 10));
  }
}
