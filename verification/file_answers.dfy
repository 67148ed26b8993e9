/** What each request against one open file answers and does, told from outside: in bits of the
    protocol, in bytes and in who holds what. */
module FileAnswers {
  import opened VssTypes
  import opened Flocks
  import opened FileStates
  import opened FileRuns

  // ---------------------------------------------------------------- which locks meet

  /** The ranges have a byte in common, or an empty one lies strictly inside the other. */
  ghost predicate Meets(l: Flock, start: U64, end: U64) {
    CommonByte(l, start, end) || EmptyStrictlyInside(l, start, end)
  }

  /** A mode of bit 0 only. */
  predicate PureRead(mode: bv64) { mode & 3 == 1 }

  lemma ModesAreBits(mode: bv64)
    ensures Shared(mode) <==> mode & 1 != 0
    ensures Exclusive(mode) <==> mode & 2 != 0
    ensures PureRead(mode) <==> Shared(mode) && !Exclusive(mode)
  {
  }

  /** Two locks that meet may be held together: both purely shared, or the older one exclusive
      and the newer one shared on the same handle. */
  predicate MayBeBeside(held: Flock, origin: U64, mode: bv64) {
    || (PureRead(held.mode) && PureRead(mode))
    || (held.origin == origin && Exclusive(held.mode) && Shared(mode))
  }

  lemma LockConflictsIff(held: Flock, origin: U64, mode: bv64, start: U64, end: U64)
    ensures held.LockConflicts(origin, mode, start, end) <==> Meets(held, start, end) && !MayBeBeside(held, origin, mode)
  {
    OverlapIsCommonByteUnlessEmptyInside(held, start, end);
    ModesAreBits(held.mode);
    ModesAreBits(mode);
    hide CommonByte, EmptyStrictlyInside, Shared, Exclusive, PureRead;
  }

  /** A held lock keeps an access out: a write unless it is the handle's own and purely
      exclusive, a read unless it is its own or purely shared. */
  predicate KeepsOut(held: Flock, origin: U64, writing: bool) {
    if writing then held.origin != origin || Shared(held.mode) else held.origin != origin && !PureRead(held.mode)
  }

  lemma IoConflictsIff(held: Flock, origin: U64, writing: bool, start: U64, end: U64)
    ensures held.IoConflicts(origin, if writing then 2 else 1, start, end) <==> Meets(held, start, end) && KeepsOut(held, origin, writing)
  {
    OverlapIsCommonByteUnlessEmptyInside(held, start, end);
    ModesAreBits(held.mode);
    ModesAreBits(1);
    ModesAreBits(2);
    assert Shared(1) && !Exclusive(1) && Exclusive(2) && !Shared(2);
    hide CommonByte, EmptyStrictlyInside, Shared, Exclusive, PureRead;
  }

  ghost predicate LockKeptOut(s: FileState, origin: U64, mode: bv64, start: U64, end: U64) {
    exists l | l in s.locks :: Meets(l, start, end) && !MayBeBeside(l, origin, mode)
  }

  ghost predicate IoKeptOut(s: FileState, origin: U64, writing: bool, start: U64, end: U64) {
    exists l | l in s.locks :: Meets(l, start, end) && KeepsOut(l, origin, writing)
  }

  lemma LockKeptOutIff(s: FileState, origin: U64, mode: bv64, start: U64, end: U64)
    ensures LockBlocked(s.locks, origin, mode, start, end) <==> LockKeptOut(s, origin, mode, start, end)
  {
    hide Meets, MayBeBeside;
    forall l: Flock ensures l.LockConflicts(origin, mode, start, end) <==> Meets(l, start, end) && !MayBeBeside(l, origin, mode) {
      LockConflictsIff(l, origin, mode, start, end);
    }
  }

  lemma IoKeptOutIff(s: FileState, origin: U64, writing: bool, start: U64, end: U64)
    ensures IoBlocked(s.locks, origin, if writing then WRITE_EXCL else READ_SHARED, start, end) <==> IoKeptOut(s, origin, writing, start, end)
  {
    hide Meets, KeepsOut;
    assert WRITE_EXCL == 2 && READ_SHARED == 1;
    forall l: Flock ensures l.IoConflicts(origin, if writing then 2 else 1, start, end) <==> Meets(l, start, end) && KeepsOut(l, origin, writing) {
      IoConflictsIff(l, origin, writing, start, end);
    }
  }

  // ---------------------------------------------------------------- who caches what

  /** Somebody else caches the file: to write, or, if that matters, at all. */
  predicate CachedByOthers(s: FileState, client: ObjectId, atAll: bool) {
    exists o | o in s.oplocks :: o.owner != client && (atAll || o.mode & 0x200 != 0)
  }

  lemma BrokenIff(o: Oplock, client: ObjectId, writing: bool)
    requires CacheMode(o.mode)
    ensures o.BrokenBy(client, writing) <==> o.owner != client && (writing || o.mode & 0x200 != 0)
  {
  }

  lemma OplockBrokenIff(s: FileState, client: ObjectId, writing: bool)
    requires Inv(s)
    ensures OplockBroken(s, client, writing) <==> CachedByOthers(s, client, writing)
  {
    hide Admissible, NoLostWakeups, SharingAgrees, CacheMode;
    forall o | o in s.oplocks ensures o.BrokenBy(client, writing) <==> o.owner != client && (writing || o.mode & 0x200 != 0) {
      BrokenIff(o, client, writing);
    }
  }

  /** Exactly the oplocks in the way are told, oldest last, as they stand in the list. */
  lemma {:induction false} BrokenMembers(os: seq<Oplock>, client: ObjectId, writing: bool)
    ensures forall o :: o in Broken(os, client, writing) <==> o in os && o.BrokenBy(client, writing)
    ensures |Broken(os, client, writing)| <= |os|
  {
    if os != [] {
      BrokenMembers(os[1..], client, writing);
      assert forall o :: o in os <==> o == os[0] || o in os[1..];
    }
  }

  /** What the holders of oplocks hear of an access: all that are in its way, nobody else. */
  ghost predicate Told(s: FileState, s': FileState, client: ObjectId, writing: bool) {
    && s' == s.(breaks := s'.breaks) && s.breaks <= s'.breaks
    && forall o :: o in s'.breaks[|s.breaks|..] <==> o in s.oplocks && o.owner != client && (writing || o.mode & 0x200 != 0)
  }

  lemma {:induction false} NobodyBroken(os: seq<Oplock>, client: ObjectId, writing: bool)
    requires forall o | o in os :: !o.BrokenBy(client, writing)
    ensures Broken(os, client, writing) == []
  {
    if os != [] {
      NobodyBroken(os[1..], client, writing);
    }
  }

  lemma NotifiedIsTold(s: FileState, client: ObjectId, writing: bool)
    requires Inv(s)
    ensures Told(s, CheckOplockConflict(s, client, writing).0, client, writing)
    ensures !CachedByOthers(s, client, writing) ==> CheckOplockConflict(s, client, writing).0 == s
  {
    hide Admissible, NoLostWakeups, SharingAgrees, CacheMode, OneClientMixesBoth;
    BrokenMembers(s.oplocks, client, writing);
    forall o | o in s.oplocks ensures o.BrokenBy(client, writing) <==> o.owner != client && (writing || o.mode & 0x200 != 0) {
      BrokenIff(o, client, writing);
    }
    var told := Broken(s.oplocks, client, writing);
    assert (s.breaks + told)[|s.breaks|..] == told;
    if !CachedByOthers(s, client, writing) {
      NobodyBroken(s.oplocks, client, writing);
      assert s.breaks + [] == s.breaks;
    }
  }

  // ---------------------------------------------------------------- range locks

  /** Requests that are malformed: a range that runs backwards, both commands, or neither. */
  lemma MalformedLockAnswers(s: FileState, client: ObjectId, origin: U64, flags: bv32, mode: bv64, start: U64, end: U64)
    requires end < start || flags & 3 == 3 || flags & 3 == 0
    ensures SetLockRange(s, client, origin, flags, mode, start, end) == (s, if end < start then Invalid else BadCmd)
  {
    assert flags & 3 == 3 ==> flags & 1 != 0 && flags & 2 != 0;
    assert flags & 3 == 0 ==> flags & 1 == 0 && flags & 2 == 0;
  }

  /** A request to lock: suspended while somebody else caches the file; else refused, to wait or
      not, when a lock keeps it out; and else granted, in front of the others. */
  lemma LockAnswers(s: FileState, client: ObjectId, origin: U64, flags: bv32, mode: bv64, start: U64, end: U64)
    requires Inv(s) && start <= end && flags & 3 == 1
    ensures var (s', rv) := SetLockRange(s, client, origin, flags, mode, start, end);
            if CachedByOthers(s, client, true) then rv == Retry && Told(s, s', client, true)
            else if LockKeptOut(s, origin, mode, start, end) then rv == (if flags & 8 != 0 then WaitLock else Locked) && s' == s
            else rv == Success && s' == s.(locks := [Flock(client, origin, mode, start, end)] + s.locks)
  {
    assert flags & 1 != 0 && flags & 2 == 0;
    OplockBrokenIff(s, client, true);
    NotifiedIsTold(s, client, true);
    LockKeptOutIff(s, origin, mode, start, end);
    hide Inv, LockKeptOut, CachedByOthers, OplockBroken, Told, LockBlocked, Broken;
  }

  /** A request to unlock: granted exactly when such a lock is held; then no such lock is left,
      all others are, and exactly the waiters are handed back whose ranges meet the freed one. */
  lemma UnlockAnswers(s: FileState, client: ObjectId, origin: U64, flags: bv32, mode: bv64, start: U64, end: U64)
    requires start <= end && flags & 3 == 2
    ensures var (s', rv) := SetLockRange(s, client, origin, flags, mode, start, end);
            && (rv == Success <==> exists l | l in s.locks :: l == Flock(l.owner, origin, mode, start, end))
            && (rv != Success ==> rv == Invalid && s' == s)
            && (forall l :: l in s'.locks <==> l in s.locks && l != Flock(l.owner, origin, mode, start, end))
            && (forall w :: w in s'.brQueue <==> w in s.brQueue && (rv == Success ==> !Meets(RangeOf(w), start, end)))
            && s'.opQueue == s.opQueue && s'.oplocks == s.oplocks
  {
    assert flags & 1 == 0 && flags & 2 != 0;
    var which := Exact(origin, mode, start, end);
    WithoutMembers(s.locks, which);
    forall l ensures which.Selects(l) <==> l == Flock(l.owner, origin, mode, start, end) {
    }
    var picked := Picked(s.locks, which);
    if picked == [] {
      NothingRemoved(s.locks, which);
    } else {
      assert picked[0] in picked;
    }
    QueueMembers(s.brQueue, start, end);
    forall w ensures Reaches(w, start, end) <==> Meets(RangeOf(w), start, end) {
      ReachesIff(w, start, end);
    }
    hide Meets, Reaches, Picked, Without, StillWaiting, Woken;
  }

  function RangeOf(w: BrWait): Flock { Flock(0, w.origin, w.mode, w.start, w.end) }

  lemma ReachesIff(w: BrWait, start: U64, end: U64)
    ensures Reaches(w, start, end) <==> Meets(RangeOf(w), start, end)
  {
    OverlapIsCommonByteUnlessEmptyInside(RangeOf(w), start, end);
    hide CommonByte, EmptyStrictlyInside;
  }

  lemma {:induction false} NothingRemoved(locks: seq<Flock>, which: Which)
    requires Picked(locks, which) == []
    ensures Without(locks, which) == locks
  {
    if locks != [] {
      NothingRemoved(locks[1..], which);
    }
  }

  /** What a granted exclusive lock buys, whoever asked for it: from then on every access of
      another handle inside its range is refused. */
  lemma GrantedLockShields(s: FileState, r: Request, client: ObjectId, origin: U64, writing: bool, start: U64, end: U64)
    requires Inv(s) && r.LockRange? && r.flags & 3 == 1 && r.mode & 2 != 0
    requires SetLockRange(s, r.client, r.origin, r.flags, r.mode, r.start, r.end).1 == Success
    requires origin != r.origin && r.start <= start < end <= r.end
    ensures DoIo(Step(s, r), client, origin, writing, start, end) == (Step(s, r), Locked)
  {
    var l := Flock(r.client, r.origin, r.mode, r.start, r.end);
    LockAnswers(s, r.client, r.origin, r.flags, r.mode, r.start, r.end);
    var s' := Step(s, r);
    hide Inv, SetLockRange, Step, LockKeptOut, CachedByOthers, Told;
    assert s'.locks == [l] + s.locks by { GrantedStep(s, r); }
    assert l in s'.locks && l.Covers(start);
    KeptOutByExclusive(r.mode);
    assert Meets(l, start, end) && KeepsOut(l, origin, writing);
    IoKeptOutIff(s', origin, writing, start, end);
  }

  lemma KeptOutByExclusive(mode: bv64)
    requires mode & 2 != 0
    ensures mode & 3 != 1
  {
  }

  lemma GrantedStep(s: FileState, r: Request)
    requires r.LockRange? && SetLockRange(s, r.client, r.origin, r.flags, r.mode, r.start, r.end).1 == Success
    ensures Step(s, r) == SetLockRange(s, r.client, r.origin, r.flags, r.mode, r.start, r.end).0
  {
    hide SetLockRange;
  }

  // ---------------------------------------------------------------- reads, writes, truncations

  /** An access: refused when a lock keeps it out; else suspended while somebody else caches the
      file to write, or at all if this is a write, and these are told; else let through. */
  lemma IoAnswers(s: FileState, client: ObjectId, origin: U64, writing: bool, start: U64, end: U64)
    requires Inv(s)
    ensures var (s', rv) := DoIo(s, client, origin, writing, start, end);
            if IoKeptOut(s, origin, writing, start, end) then rv == Locked && s' == s
            else if CachedByOthers(s, client, writing) then rv == Retry && Told(s, s', client, writing)
            else rv == Success && s' == s
  {
    IoKeptOutIff(s, origin, writing, start, end);
    OplockBrokenIff(s, client, writing);
    NotifiedIsTold(s, client, writing);
    hide Inv, IoKeptOut, IoBlocked, CachedByOthers, OplockBroken, Told, Broken;
  }

  // ---------------------------------------------------------------- oplocks

  /** Giving an oplock up: nobody else's goes, and who waited for oplocks is handed back, oldest
      first, if there was one to give up. */
  lemma GiveUpAnswers(s: FileState, client: ObjectId)
    ensures var (s', rv) := SetOplock(s, client, 0);
            && rv == Success && s'.locks == s.locks && s'.brQueue == s.brQueue
            && (forall o :: o in s'.oplocks <==> o in s.oplocks && o.owner != client)
            && (if exists o | o in s.oplocks :: o.owner == client
                then s'.opQueue == [] && s'.requeued == s.requeued + OpContexts(s.opQueue)
                else s' == s)
  {
    OthersMembers(s.oplocks, client);
    if !Holds(s.oplocks, client) {
      NoneToRemove(s.oplocks, client);
    }
  }

  /** Asking for an oplock: refused while any range is locked, while somebody else caches the
      file to write, and, if it is to write, while somebody else caches it at all; else the
      client has exactly that one, the others keep theirs, and nobody is woken. */
  lemma OplockAnswers(s: FileState, client: ObjectId, mode: bv64)
    requires Inv(s) && mode != 0
    ensures var (s', rv) := SetOplock(s, client, mode);
            if mode & !0x300 != 0 then rv == Invalid && s' == s
            else if s.locks != [] || CachedByOthers(s, client, mode & 0x200 != 0) then rv == Locked && s' == s
            else && rv == Success && s' == s.(oplocks := s'.oplocks)
                 && forall o :: o in s'.oplocks <==> o == Oplock(client, mode) || (o in s.oplocks && o.owner != client)
  {
    OplockBrokenIff(s, client, mode & 0x200 != 0);
    GrantedMembers(s, client, mode);
    OplockStatus(s, client, mode);
    CacheBits(mode);
    hide *;
  }

  /** The oplocks once `client` is granted `mode`. */
  function GrantedTo(s: FileState, client: ObjectId, mode: bv64): seq<Oplock> {
    if Holds(s.oplocks, client) then SetMode(s.oplocks, client, mode) else [Oplock(client, mode)] + s.oplocks
  }

  lemma OplockStatus(s: FileState, client: ObjectId, mode: bv64)
    requires mode != 0
    ensures SetOplock(s, client, mode) ==
              if mode & !(CACHE_READ | CACHE_WRITE) != 0 then (s, Invalid)
              else if s.locks != [] || OplockBroken(s, client, mode & CACHE_WRITE != 0) then (s, Locked)
              else (s.(oplocks := GrantedTo(s, client, mode)), Success)
  {
    hide OplockBroken, Holds, SetMode;
  }

  lemma CacheBits(mode: bv64)
    ensures mode & !(CACHE_READ | CACHE_WRITE) == mode & !0x300 && mode & CACHE_WRITE == mode & 0x200
  {
    assert CACHE_READ | CACHE_WRITE == 0x300;
  }

  lemma GrantedMembers(s: FileState, client: ObjectId, mode: bv64)
    requires Inv(s)
    ensures forall o :: o in GrantedTo(s, client, mode) <==> o == Oplock(client, mode) || (o in s.oplocks && o.owner != client)
  {
    if Holds(s.oplocks, client) {
      ReplacedMembers(s, client, mode);
    }
    hide Inv, SetMode;
  }

  lemma ReplacedMembers(s: FileState, client: ObjectId, mode: bv64)
    requires Inv(s) && Holds(s.oplocks, client)
    ensures forall o :: o in SetMode(s.oplocks, client, mode) <==> o == Oplock(client, mode) || (o in s.oplocks && o.owner != client)
  {
    hide Admissible, NoLostWakeups, SharingAgrees, OneClientMixesBoth;
    var k := SetModeIndex(s.oplocks, client, mode);
    var os := s.oplocks[k := Oplock(client, mode)];
    hide SetMode, CacheMode;
    forall o ensures o in os <==> o == Oplock(client, mode) || (o in s.oplocks && o.owner != client) {
      if o in os && o != Oplock(client, mode) {
        var i :| 0 <= i < |os| && os[i] == o;
        assert s.oplocks[i] == o;
      }
      if o in s.oplocks && o.owner != client {
        var i :| 0 <= i < |s.oplocks| && s.oplocks[i] == o;
        assert os[i] == o;
      }
      assert os[k] == Oplock(client, mode);
    }
  }

  // ---------------------------------------------------------------- sharing modes

  /** What `a` does, bit by bit, `b` lets others do: reading, writing and deleting are bits 0 to
      2, letting others is 16 bits higher. */
  predicate LetsDo(a: bv32, b: bv32) {
    (a << 16) & 0x7_0000 & !b == 0
  }

  lemma ModeConflictIff(a: bv32, b: bv32)
    ensures ModeConflict(a, b) <==> !LetsDo(a, b) || !LetsDo(b, a)
  {
    LetsDoBits(a, b);
    LetsDoBits(b, a);
    hide LetsDo;
  }

  lemma LetsDoBits(a: bv32, b: bv32)
    ensures LetsDo(a, b) <==>
              && (a & 1 != 0 ==> b & 0x1_0000 != 0)
              && (a & 2 != 0 ==> b & 0x2_0000 != 0)
              && (a & 4 != 0 ==> b & 0x4_0000 != 0)
  {
  }

  /** An open is refused exactly when some handle does not let others do what it wants to, or
      it does not let others do what some handle does. */
  lemma ShareAnswers(s: FileState, flags: bv32)
    ensures AddReference(s, flags).1 == Access
       <==> exists o | o in s.originFlags :: !LetsDo(flags, s.originFlags[o]) || !LetsDo(s.originFlags[o], flags)
    ensures AddReference(s, flags) == if AddReference(s, flags).1 == Access then (s, Access) else (s.(refcount := s.refcount + 1), Success)
  {
    hide ModeConflict, LetsDo;
    forall o | o in s.originFlags
      ensures ModeConflict(s.originFlags[o], flags) <==> !LetsDo(flags, s.originFlags[o]) || !LetsDo(s.originFlags[o], flags)
    {
      ModeConflictIff(s.originFlags[o], flags);
    }
  }

  /** After any run, whatever one handle does every other one lets it do. */
  lemma HandlesLetEachOther(s0: FileState, rs: seq<Request>, a: U64, b: U64)
    requires Initial(s0) && a != b
    ensures var flags := Run(s0, rs).originFlags;
            a in flags && b in flags ==>
              && LetsDo(flags[a], flags[b])
              && (flags[a] & 1 != 0 ==> flags[b] & 0x1_0000 != 0)
              && (flags[a] & 2 != 0 ==> flags[b] & 0x2_0000 != 0)
              && (flags[a] & 4 != 0 ==> flags[b] & 0x4_0000 != 0)
  {
    RunKeepsInv(s0, rs);
    hide Run, ModeConflict, Admissible;
    var flags := Run(s0, rs).originFlags;
    if a in flags && b in flags {
      ModeConflictIff(flags[a], flags[b]);
      LetsDoBits(flags[a], flags[b]);
    }
  }

  // ---------------------------------------------------------------- open, close, release

  /** A client's open that is granted leaves behind all that a close takes away. */
  lemma OpenEffect(s: FileState, client: ObjectId, origin: U64, flags: bv32)
    ensures var s' := Step(s, Open(client, origin, flags));
            if AddReference(s, flags).1 == Access then s' == s
            else && s'.refcount == s.refcount + 1 && s'.objectRefs == s.objectRefs + multiset{client}
                 && s'.originFlags == s.originFlags[origin := flags]
                 && multiset(s'.openOrigins) == multiset(s.openOrigins) + multiset{origin}
                 && s'.accessMode == s.accessMode | flags
                 && s'.locks == s.locks && s'.oplocks == s.oplocks
  {
    ShareAnswers(s, flags);
    hide AddReference;
  }

  /** The locks of one handle, or of one client, are gone, and no others. */
  lemma ReleasedLocks(s: FileState, origin: U64)
    ensures forall l :: l in ReleaseBrlocks(s, origin).locks <==> l in s.locks && l.origin != origin
    ensures forall w :: w in ReleaseBrlocks(s, origin).brQueue <==>
              w in s.brQueue && forall l | l in s.locks && l.origin == origin :: !Meets(RangeOf(w), l.start, l.end)
    ensures var s' := ReleaseBrlocks(s, origin); s' == s.(locks := s'.locks, brQueue := s'.brQueue, requeued := s'.requeued)
  {
    var which := OfOrigin(origin);
    WithoutMembers(s.locks, which);
    WakeEachQueue(s, Picked(s.locks, which));
    forall w: BrWait, l: Flock ensures Reaches(w, l.start, l.end) <==> Meets(RangeOf(w), l.start, l.end) {
      ReachesIff(w, l.start, l.end);
    }
    hide Meets, Reaches, Without, Picked, WakeEach;
  }

  lemma {:induction false} DropFirstCounts(os: seq<U64>, origin: U64)
    ensures multiset(DropFirst(os, origin)) == multiset(os) - multiset{origin}
  {
    if os != [] {
      assert os == [os[0]] + os[1..];
      if os[0] != origin {
        DropFirstCounts(os[1..], origin);
        assert multiset([os[0]] + DropFirst(os[1..], origin)) == multiset{os[0]} + multiset(DropFirst(os[1..], origin));
      }
    }
  }

  /** A close through a handle that has not opened the file does nothing. */
  lemma ForeignHandleClosesNothing(s: FileState, client: ObjectId, origin: U64)
    requires origin != 0 && origin !in s.openOrigins
    ensures Step(s, Close(client, origin)) == s
  {
  }

  /** A close takes away: the handle's locks, waking who waited for them, its modes, one open of
      the client and one reference; and the client's oplock with its last open. */
  lemma CloseEffect(s: FileState, client: ObjectId, origin: U64)
    requires origin in s.openOrigins || origin == 0
    ensures var s' := Step(s, Close(client, origin));
            && (forall l :: l in s'.locks <==> l in s.locks && l.origin != origin)
            && s'.originFlags == s.originFlags - {origin} && s'.accessMode == s.accessMode
            && multiset(s'.openOrigins) == multiset(s.openOrigins) - multiset{origin}
            && s'.objectRefs == s.objectRefs - multiset{client}
            && s'.refcount == (if s.refcount == 0 then 0 else s.refcount - 1)
    ensures var s' := Step(s, Close(client, origin));
            && (forall o :: o in s'.oplocks <==> o in s.oplocks && !(o.owner == client && s.objectRefs[client] == 1))
            && (s.objectRefs[client] == 1 && Holds(s.oplocks, client) ==> s'.opQueue == [])
  {
    var s0 := RemoveOpenOrigin(s, origin);
    ReleasedLocks(s0, origin);
    DropFirstCounts(s.openOrigins, origin);
    var s1 := ReleaseBrlocks(s0, origin).(originFlags := s.originFlags - {origin},
                                          objectRefs := s.objectRefs - multiset{client});
    LastOplock(s1, client);
    hide ReleaseBrlocks, DropFirst, OthersOplocks, Meets, RemoveOplocks, Holds;
  }

  /** There is a reference to take unless the count is down already. */
  lemma ReferenceAnswers(s: FileState, client: ObjectId, origin: U64)
    ensures RemoveReference(s, client, origin).1 == if s.refcount == 0 then Invalid else Success
  {
  }

  lemma LastOplock(s: FileState, client: ObjectId)
    ensures var s' := RemoveOplocks(s, client).0;
            && s' == s.(oplocks := s'.oplocks, opQueue := s'.opQueue, requeued := s'.requeued)
            && (forall o :: o in s'.oplocks <==> o in s.oplocks && o.owner != client)
            && (Holds(s.oplocks, client) ==> s'.opQueue == [])
  {
    OthersMembers(s.oplocks, client);
    hide OthersOplocks;
  }

  predicate Has(mode: bv32, bits: bv32) { mode & bits != 0 }

  ghost predicate Granted(m: map<U64, bv32>, bits: bv32) {
    exists o | o in m :: Has(m[o], bits)
  }

  function Or(a: bv32, b: bv32): bv32 { a | b }

  lemma UnionIsOr(m: map<U64, bv32>) returns (o: U64)
    requires m != map[]
    ensures o in m && UnionOfFlags(m) == Or(m[o], UnionOfFlags(m - {o}))
  {
    o :| o in m && UnionOfFlags(m) == m[o] | UnionOfFlags(m - {o});
  }

  lemma {:induction false} UnionBits(m: map<U64, bv32>, bits: bv32)
    ensures Has(UnionOfFlags(m), bits) <==> Granted(m, bits)
    decreases |m|
  {
    if m == map[] {
      NoBits(bits);
    } else {
      hide Has, UnionOfFlags, Or;
      var o := UnionIsOr(m);
      OrBits(m[o], UnionOfFlags(m - {o}), bits);
      UnionBits(m - {o}, bits);
      assert forall x :: x in m <==> x == o || x in m - {o};
    }
  }

  lemma NoBits(bits: bv32)
    ensures !Has(0, bits)
  {
  }

  lemma OrBits(a: bv32, b: bv32, bits: bv32)
    ensures Has(Or(a, b), bits) <==> Has(a, bits) || Has(b, bits)
  {
    assert (a | b) & bits == (a & bits) | (b & bits) by { OrDistributes(a, b, bits); }
    OrIsZero(a & bits, b & bits);
  }

  lemma OrDistributes(a: bv32, b: bv32, bits: bv32)
    ensures (a | b) & bits == (a & bits) | (b & bits)
  {
  }

  lemma OrIsZero(a: bv32, b: bv32)
    ensures a | b == 0 <==> a == 0 && b == 0
  {
  }

  /** Releasing a handle: its locks and modes go; the file then allows what the handles that are
      left were granted, or everything if none is. */
  lemma ReleaseEffect(s: FileState, origin: U64, bits: bv32)
    requires bits != 0
    ensures var s' := Step(s, Release(origin));
            && (forall l :: l in s'.locks <==> l in s.locks && l.origin != origin)
            && s'.originFlags == s.originFlags - {origin}
            && (Has(s'.accessMode, bits) <==> s'.originFlags == map[] || Granted(s'.originFlags, bits))
            && s'.refcount == s.refcount && s'.objectRefs == s.objectRefs && s'.oplocks == s.oplocks
  {
    ReleasedLocks(s, origin);
    UnionBits(s.originFlags - {origin}, bits);
    AllBits(bits);
    hide ReleaseBrlocks, UnionOfFlags, Meets, Granted, Has;
  }

  lemma AllBits(bits: bv32)
    requires bits != 0
    ensures Has(0xffff_ffff, bits)
  {
  }

  /** The death of a client takes away all it has: locks, oplock and opens; and if it had any of
      these, everybody who waits is handed back. */
  lemma GoneEffect(s: FileState, client: ObjectId)
    ensures var (s', had) := RemoveObject(s, client);
            && (had <==> (exists l | l in s.locks :: l.owner == client) || Holds(s.oplocks, client) || client in s.objectRefs)
            && (forall l :: l in s'.locks <==> l in s.locks && l.owner != client)
            && (forall o :: o in s'.oplocks <==> o in s.oplocks && o.owner != client)
            && s'.objectRefs == s.objectRefs[client := 0] && s'.refcount == s.refcount - s.objectRefs[client]
            && s'.originFlags == s.originFlags && s'.openOrigins == s.openOrigins && s'.accessMode == s.accessMode
            && (if had then s'.brQueue == [] && s'.opQueue == [] else s' == s)
  {
    var which := OfObject(client);
    WithoutMembers(s.locks, which);
    OthersMembers(s.oplocks, client);
    var picked := Picked(s.locks, which);
    if picked == [] {
      NothingRemoved(s.locks, which);
    } else {
      assert picked[0] in picked;
    }
    if !Holds(s.oplocks, client) {
      NoneToRemove(s.oplocks, client);
    }
    hide Picked, Without, OthersOplocks;
    assert client !in s.objectRefs ==> s.objectRefs[client := 0] == s.objectRefs;
  }

  // ---------------------------------------------------------------- in which order

  lemma {:induction false} BrContextsInOrder(q: seq<BrWait>)
    ensures |BrContexts(q)| == |q| && forall i | 0 <= i < |q| :: BrContexts(q)[i] == q[i].context
  {
    if q != [] {
      BrContextsInOrder(q[1..]);
    }
  }

  lemma {:induction false} OpContextsInOrder(q: seq<OpWait>)
    ensures |OpContexts(q)| == |q| && forall i | 0 <= i < |q| :: OpContexts(q)[i] == q[i].context
  {
    if q != [] {
      OpContextsInOrder(q[1..]);
    }
  }

  /** Waking everybody hands back first those who wait for ranges, then those who wait for
      oplocks, each the oldest first. */
  lemma WakeAllInOrder(s: FileState)
    ensures var s', n, b := WakeAll(s), |s.requeued|, |s.brQueue|;
            && s'.brQueue == [] && s'.opQueue == [] && |s'.requeued| == n + b + |s.opQueue|
            && s'.requeued[..n] == s.requeued
            && (forall i | 0 <= i < b :: s'.requeued[n + i] == s.brQueue[i].context)
            && (forall i | 0 <= i < |s.opQueue| :: s'.requeued[n + b + i] == s.opQueue[i].context)
  {
    BrContextsInOrder(s.brQueue);
    OpContextsInOrder(s.opQueue);
    hide BrContexts, OpContexts;
  }

  /** A suspended request is queued last, with what it asked for. */
  lemma SuspendedIsQueuedLast(s: FileState, r: Request)
    requires Inv(s)
    ensures r.LockRange? && r.start <= r.end && r.flags & 3 == 1 && CachedByOthers(s, r.client, true) ==>
              Step(s, r).opQueue == s.opQueue + [OpWait(r.context, r.client, false, true)] && Step(s, r).brQueue == s.brQueue
    ensures r.LockRange? && r.start <= r.end && r.flags & 3 == 1 && !CachedByOthers(s, r.client, true)
              && LockKeptOut(s, r.origin, r.mode, r.start, r.end) ==>
              && Step(s, r).brQueue == s.brQueue + (if r.flags & 8 != 0 then [BrWait(r.context, r.origin, r.mode, r.start, r.end)] else [])
              && Step(s, r).opQueue == s.opQueue
    ensures r.Io? && !IoKeptOut(s, r.origin, r.writing, r.start, r.end) && CachedByOthers(s, r.client, r.writing) ==>
              Step(s, r).opQueue == s.opQueue + [OpWait(r.context, r.client, r.writing, r.writing)] && Step(s, r).brQueue == s.brQueue
  {
    if r.LockRange? && r.start <= r.end && r.flags & 3 == 1 {
      LockAnswers(s, r.client, r.origin, r.flags, r.mode, r.start, r.end);
    } else if r.Io? {
      IoAnswers(s, r.client, r.origin, r.writing, r.start, r.end);
    }
    hide Inv, SetLockRange, DoIo, CachedByOthers, LockKeptOut, IoKeptOut;
  }
}
