/** The open file (`vss_file`): two linked lists that are unlinked in place, two wait queues,
    and the tables of references and sharing modes. Every operation is proved to do to the
    abstract value `View()` what its function in module FileStates says. */
module VssFiles {
  import opened VssTypes
  import opened Flocks
  import opened FileStates
  import opened Chains

  // ---------------------------------------------------------------- removal loops

  /** Half-way through a removal: of the list as it is now, `d[..k]` stays and `d[k..]` is
      still to be looked at; the locks in `freed` have been taken out. */
  ghost predicate Removing(all: seq<Flock>, which: Which, d: seq<Flock>, k: int, freed: seq<Flock>) {
    && 0 <= k <= |d|
    && Without(all, which) == d[..k] + Without(d[k..], which)
    && Picked(all, which) == freed + Picked(d[k..], which)
  }

  lemma RemovingTakes(all: seq<Flock>, which: Which, d: seq<Flock>, k: int, freed: seq<Flock>)
    requires Removing(all, which, d, k, freed) && k < |d| && which.Selects(d[k])
    ensures Removing(all, which, d[..k] + d[k + 1..], k, freed + [d[k]])
  {
    assert d[k..][1..] == d[k + 1..];
    var d' := d[..k] + d[k + 1..];
    assert d'[..k] == d[..k] && d'[k..] == d[k + 1..];
    assert Picked(d[k..], which) == [d[k]] + Picked(d[k + 1..], which);
    assert Without(d[k..], which) == Without(d[k + 1..], which);
  }

  lemma RemovingPasses(all: seq<Flock>, which: Which, d: seq<Flock>, k: int, freed: seq<Flock>)
    requires Removing(all, which, d, k, freed) && k < |d| && !which.Selects(d[k])
    ensures Removing(all, which, d, k + 1, freed)
  {
    assert d[k..][1..] == d[k + 1..];
    assert d[..k + 1] == d[..k] + [d[k]];
    assert Without(d[k..], which) == [d[k]] + Without(d[k + 1..], which);
    assert Picked(d[k..], which) == Picked(d[k + 1..], which);
  }

  lemma RemovingDone(all: seq<Flock>, which: Which, d: seq<Flock>, k: int, freed: seq<Flock>)
    requires Removing(all, which, d, k, freed) && k == |d|
    ensures Without(all, which) == d && Picked(all, which) == freed
  {
    assert d[k..] == [] && d[..k] == d;
  }

  /** Half-way through a release: the waiters for the locks in `freed` have been woken. */
  ghost predicate Releasing(v: FileState, which: Which, d: seq<Flock>, k: int, freed: seq<Flock>,
                            brQueue: seq<BrWait>, requeued: seq<Context>) {
    && Removing(v.locks, which, d, k, freed)
    && WakeEach(v, freed) == v.(brQueue := brQueue, requeued := requeued)
  }

  lemma ReleasingStarts(v: FileState, which: Which)
    ensures Releasing(v, which, v.locks, 0, [], v.brQueue, v.requeued)
  {
    assert v.locks[..0] == [] && v.locks[0..] == v.locks;
  }

  lemma ReleasingTakes(v: FileState, which: Which, d: seq<Flock>, k: int, freed: seq<Flock>,
                       brQueue: seq<BrWait>, requeued: seq<Context>)
    requires Releasing(v, which, d, k, freed, brQueue, requeued) && k < |d| && which.Selects(d[k])
    ensures Releasing(v, which, d[..k] + d[k + 1..], k, freed + [d[k]],
                      StillWaiting(brQueue, d[k].start, d[k].end),
                      requeued + BrContexts(Woken(brQueue, d[k].start, d[k].end)))
  {
    RemovingTakes(v.locks, which, d, k, freed);
    WakeEachAppend(v, freed, d[k]);
  }

  lemma ReleasingPasses(v: FileState, which: Which, d: seq<Flock>, k: int, freed: seq<Flock>,
                        brQueue: seq<BrWait>, requeued: seq<Context>)
    requires Releasing(v, which, d, k, freed, brQueue, requeued) && k < |d| && !which.Selects(d[k])
    ensures Releasing(v, which, d, k + 1, freed, brQueue, requeued)
  {
    RemovingPasses(v.locks, which, d, k, freed);
  }

  lemma ReleasingDone(v: FileState, which: Which, d: seq<Flock>, k: int, freed: seq<Flock>,
                      brQueue: seq<BrWait>, requeued: seq<Context>)
    requires Releasing(v, which, d, k, freed, brQueue, requeued) && k == |d|
    ensures WakeEach(v, Picked(v.locks, which)).(locks := Without(v.locks, which))
         == v.(locks := d, brQueue := brQueue, requeued := requeued)
    ensures Picked(v.locks, which) == freed
  {
    RemovingDone(v.locks, which, d, k, freed);
  }

  /** The same for oplocks, where only the survivors and whether any was taken matter. */
  ghost predicate RemovingOplocks(all: seq<Oplock>, client: ObjectId, d: seq<Oplock>, k: int, removed: bool) {
    && 0 <= k <= |d|
    && OthersOplocks(all, client) == d[..k] + OthersOplocks(d[k..], client)
    && Holds(all, client) == (removed || Holds(d[k..], client))
  }

  lemma HoldsHeadOrTail(os: seq<Oplock>, client: ObjectId)
    requires os != []
    ensures Holds(os, client) <==> os[0].owner == client || Holds(os[1..], client)
  {
    if o :| o in os && o.owner == client {
      assert o == os[0] || o in os[1..];
    }
  }

  lemma RemovingOplocksStep(all: seq<Oplock>, client: ObjectId, d: seq<Oplock>, k: int, removed: bool)
    requires RemovingOplocks(all, client, d, k, removed) && k < |d|
    ensures d[k].owner == client ==> RemovingOplocks(all, client, d[..k] + d[k + 1..], k, true)
    ensures d[k].owner != client ==> RemovingOplocks(all, client, d, k + 1, removed)
  {
    assert d[k..][1..] == d[k + 1..];
    HoldsHeadOrTail(d[k..], client);
    if d[k].owner == client {
      var d' := d[..k] + d[k + 1..];
      assert d'[..k] == d[..k] && d'[k..] == d[k + 1..];
      assert OthersOplocks(d[k..], client) == OthersOplocks(d[k + 1..], client);
    } else {
      assert d[..k + 1] == d[..k] + [d[k]];
      assert OthersOplocks(d[k..], client) == [d[k]] + OthersOplocks(d[k + 1..], client);
    }
  }

  lemma RemovingOplocksDone(all: seq<Oplock>, client: ObjectId, d: seq<Oplock>, k: int, removed: bool)
    requires RemovingOplocks(all, client, d, k, removed) && k == |d|
    ensures OthersOplocks(all, client) == d && Holds(all, client) == removed
  {
    assert d[k..] == [] && d[..k] == d;
  }

  /** A queue that is being rotated, one turn on. */
  lemma FrontAway<T>(q: seq<T>, i: nat, back: seq<T>)
    requires i < |q|
    ensures (q[i..] + back)[0] == q[i] && (q[i..] + back)[1..] == q[i + 1..] + back
    ensures forall x :: q[i + 1..] + back + [x] == q[i + 1..] + (back + [x])
  {
    assert q[i..] + back == [q[i]] + (q[i + 1..] + back);
    forall x ensures q[i + 1..] + back + [x] == q[i + 1..] + (back + [x]) {
    }
  }

  lemma {:induction false} BrokenOneMore(os: seq<Oplock>, k: nat, client: ObjectId, writing: bool)
    requires k < |os|
    ensures Broken(os[..k + 1], client, writing)
         == Broken(os[..k], client, writing) + (if os[k].BrokenBy(client, writing) then [os[k]] else [])
    decreases k
  {
    if k == 0 {
      assert os[..1] == [os[0]] && os[..0] == [] && [os[0]][1..] == [];
    } else {
      BrokenOneMore(os[1..], k - 1, client, writing);
      assert os[..k + 1][1..] == os[1..][..k] && os[..k][1..] == os[1..][..k - 1];
      var h := if os[0].BrokenBy(client, writing) then [os[0]] else [];
      var t := if os[k].BrokenBy(client, writing) then [os[k]] else [];
      assert h + (Broken(os[1..][..k - 1], client, writing) + t) == h + Broken(os[1..][..k - 1], client, writing) + t;
    }
  }

  lemma {:induction false} BrokenFindsConflicts(os: seq<Oplock>, client: ObjectId, writing: bool)
    ensures Broken(os, client, writing) != [] <==> exists o | o in os :: o.BrokenBy(client, writing)
  {
    if os != [] {
      BrokenFindsConflicts(os[1..], client, writing);
      assert forall o :: o in os <==> o == os[0] || o in os[1..];
    }
  }

  lemma {:induction false} SetModeAt(os: seq<Oplock>, client: ObjectId, mode: bv64, k: nat)
    requires k < |os| && os[k].owner == client
    requires forall j | 0 <= j < k :: os[j].owner != client
    ensures SetMode(os, client, mode) == os[k := Oplock(client, mode)]
  {
    if k == 0 {
      assert [Oplock(client, mode)] + os[1..] == os[0 := Oplock(client, mode)];
    } else {
      SetModeAt(os[1..], client, mode, k - 1);
      assert [os[0]] + os[1..][k - 1 := Oplock(client, mode)] == os[k := Oplock(client, mode)];
    }
  }

  lemma {:induction false} DropFirstAt(os: seq<U64>, origin: U64, k: nat)
    requires k <= |os| && (k < |os| ==> os[k] == origin)
    requires forall j | 0 <= j < k :: os[j] != origin
    ensures DropFirst(os, origin) == if k < |os| then os[..k] + os[k + 1..] else os
  {
    if k == 0 {
      assert os != [] ==> os[..0] + os[1..] == os[1..];
    } else {
      DropFirstAt(os[1..], origin, k - 1);
      assert k < |os| ==> [os[0]] + (os[1..][..k - 1] + os[1..][k..]) == os[..k] + os[k + 1..];
      assert [os[0]] + os[1..] == os;
    }
  }

  class VssFile {
    const locks: Chain<Flock>
    const oplocks: Chain<Oplock>
    var brQueue: seq<BrWait>
    var opQueue: seq<OpWait>
    var requeued: seq<Context>
    var breaks: seq<Oplock>
    var refcount: int
    var accessMode: bv32
    var objectRefs: multiset<ObjectId>
    var originFlags: map<U64, bv32>
    var openOrigins: seq<U64>

    ghost predicate Valid()
      reads this, locks, locks.repr, oplocks, oplocks.repr
    {
      locks.Valid() && oplocks.Valid()
    }

    ghost function View(): FileState
      reads this, locks, oplocks
    {
      FileState(locks.contents, oplocks.contents, brQueue, opQueue, requeued, breaks,
                refcount, accessMode, objectRefs, originFlags, openOrigins)
    }

    constructor (flags: bv32)
      ensures Valid() && View() == Fresh(flags)
      ensures fresh(locks) && fresh(oplocks)
    {
      locks := new Chain();
      oplocks := new Chain();
      brQueue, opQueue, requeued, breaks := [], [], [], [];
      refcount, accessMode := 1, flags;
      objectRefs, originFlags, openOrigins := multiset{}, map[], [];
    }

    // -------------------------------------------------------------- byte-range locks

    method CheckLockConflict(origin: U64, mode: bv64, start: U64, end: U64) returns (conflict: bool)
      requires Valid()
      ensures conflict == IoBlocked(View().locks, origin, mode, start, end)
    {
      conflict := false;
      var prev, flp := null, locks.head;
      ghost var k := 0;
      while flp != null
        invariant locks.At(prev, flp, k)
        invariant forall j | 0 <= j < k :: !locks.contents[j].IoConflicts(origin, mode, start, end)
        decreases locks.size - k
      {
        if flp.data.IoConflicts(origin, mode, start, end) {
          assert locks.contents[k] in locks.contents;
          return true;
        }
        var next := locks.Advance(prev, flp, k);
        prev, flp, k := flp, next, k + 1;
      }
    }

    method AddRangeLock(l: Flock) returns (success: bool)
      requires Valid()
      modifies locks
      ensures Valid() && fresh(locks.repr - old(locks.repr))
      ensures (View(), success) == FileStates.AddRangeLock(old(View()), l)
    {
      success := true;
      var prev, flp := null, locks.head;
      ghost var k := 0;
      while flp != null
        invariant locks.At(prev, flp, k)
        invariant forall j | 0 <= j < k :: !locks.contents[j].LockConflicts(l.origin, l.mode, l.start, l.end)
        decreases locks.size - k
        modifies {}
      {
        if flp.data.LockConflicts(l.origin, l.mode, l.start, l.end) {
          assert locks.contents[k] in locks.contents;
          return false;
        }
        var next := locks.Advance(prev, flp, k);
        prev, flp, k := flp, next, k + 1;
      }
      locks.Push(l);
    }

    /** Remove every lock that `which` selects. */
    method UnlinkLocks(which: Which) returns (removed: bool)
      requires locks.Valid()
      modifies locks, locks.repr
      ensures locks.Valid() && locks.repr == old(locks.repr)
      ensures locks.contents == Without(old(locks.contents), which)
      ensures removed == (Picked(old(locks.contents), which) != [])
    {
      hide Without, Picked;
      removed := false;
      var prev, flp := null, locks.head;
      ghost var all, k, freed: seq<Flock> := locks.contents, 0, [];
      assert all[..0] == [] && all[0..] == all;
      while flp != null
        invariant locks.At(prev, flp, k) && locks.repr == old(locks.repr)
        invariant Removing(all, which, locks.contents, k, freed)
        invariant removed == (freed != [])
        decreases locks.size - k
      {
        if which.Selects(flp.data) {
          RemovingTakes(all, which, locks.contents, k, freed);
          freed := freed + [flp.data];
          flp := locks.Unlink(prev, flp, k);
          removed := true;
        } else {
          RemovingPasses(all, which, locks.contents, k, freed);
          var next := locks.Advance(prev, flp, k);
          prev, flp, k := flp, next, k + 1;
        }
      }
      RemovingDone(all, which, locks.contents, k, freed);
    }

    method RemoveRangeLock(origin: U64, mode: bv64, start: U64, end: U64) returns (success: bool)
      requires Valid()
      modifies locks, locks.repr, this`brQueue, this`requeued
      ensures Valid() && locks.repr == old(locks.repr)
      ensures (View(), success) == FileStates.RemoveRangeLock(old(View()), origin, mode, start, end)
    {
      success := UnlinkLocks(Exact(origin, mode, start, end));
      if success {
        WakeRangeLock(start, end);
      }
    }

    method RemoveBrlocks(client: ObjectId) returns (removed: bool)
      requires Valid()
      modifies locks, locks.repr
      ensures Valid() && locks.repr == old(locks.repr)
      ensures (View(), removed) == FileStates.RemoveBrlocks(old(View()), client)
    {
      removed := UnlinkLocks(OfObject(client));
    }

    /** Take every waiter off the front once; those not freed go to the back again. */
    method WakeRangeLock(start: U64, end: U64)
      modifies this`brQueue, this`requeued
      ensures brQueue == StillWaiting(old(brQueue), start, end)
      ensures requeued == old(requeued) + BrContexts(Woken(old(brQueue), start, end))
    {
      var numEntries := |brQueue|;
      ghost var q, i := brQueue, 0;
      assert q[0..] == q && StillWaiting(q[..0], start, end) == [] && BrContexts(Woken(q[..0], start, end)) == [];
      hide StillWaiting, Woken, BrContexts;
      while numEntries > 0
        invariant 0 <= numEntries && 0 <= i && i + numEntries == |q| && q == old(brQueue)
        invariant brQueue == q[i..] + StillWaiting(q[..i], start, end)
        invariant requeued == old(requeued) + BrContexts(Woken(q[..i], start, end))
      {
        WakeOneMore(q, i, start, end);
        var waiter := brQueue[0];
        FrontAway(q, i, StillWaiting(q[..i], start, end));
        brQueue := brQueue[1..];
        if Reaches(waiter, start, end) {
          requeued := requeued + [waiter.context];
        } else {
          brQueue := brQueue + [waiter];
        }
        numEntries, i := numEntries - 1, i + 1;
      }
      assert q[..i] == q;
    }

    /** One turn of the release loop: wake the waiters of the lock under the traversal and
        unlink it, or step over it. */
    method ReleaseTurn(which: Which, prev: Node?<Flock>, flp: Node<Flock>,
                       ghost v: FileState, ghost k: int, ghost freed: seq<Flock>)
      returns (prev': Node?<Flock>, next: Node?<Flock>, took: bool, ghost k': int)
      requires locks.At(prev, flp, k)
      requires Releasing(v, which, locks.contents, k, freed, brQueue, requeued)
      modifies this`brQueue, this`requeued, locks, locks.repr
      ensures locks.At(prev', next, k') && locks.repr == old(locks.repr)
      ensures took == which.Selects(old(flp.data))
      ensures Releasing(v, which, locks.contents, k', if took then freed + [old(flp.data)] else freed, brQueue, requeued)
      ensures locks.size - k' < old(locks.size) - k
    {
      hide Releasing, StillWaiting, Woken, BrContexts;
      var l := flp.data;
      took := which.Selects(l);
      if took {
        ReleasingTakes(v, which, locks.contents, k, freed, brQueue, requeued);
        WakeRangeLock(l.start, l.end);
        next := locks.Unlink(prev, flp, k);
        prev', k' := prev, k;
      } else {
        ReleasingPasses(v, which, locks.contents, k, freed, brQueue, requeued);
        next := locks.Advance(prev, flp, k);
        prev', k' := flp, k + 1;
      }
    }

    method ReleaseLoop(which: Which, ghost v: FileState) returns (removed: bool, ghost freed: seq<Flock>)
      requires locks.Valid() && Releasing(v, which, locks.contents, 0, [], brQueue, requeued)
      modifies locks, locks.repr, this`brQueue, this`requeued
      ensures locks.Valid() && locks.repr == old(locks.repr)
      ensures Releasing(v, which, locks.contents, |locks.contents|, freed, brQueue, requeued)
      ensures removed == (freed != [])
    {
      hide Releasing;
      removed := false;
      var prev, flp := null, locks.head;
      ghost var k := 0;
      freed := [];
      while flp != null
        invariant locks.At(prev, flp, k) && locks.repr == old(locks.repr)
        invariant Releasing(v, which, locks.contents, k, freed, brQueue, requeued)
        invariant removed == (freed != [])
        decreases locks.size - k
      {
        var l, took := flp.data, false;
        prev, flp, took, k := ReleaseTurn(which, prev, flp, v, k, freed);
        if took {
          freed, removed := freed + [l], true;
        }
      }
    }

    method ReleaseBrlocks(origin: U64) returns (removed: bool)
      requires Valid()
      modifies locks, locks.repr, this`brQueue, this`requeued
      ensures Valid() && locks.repr == old(locks.repr)
      ensures View() == FileStates.ReleaseBrlocks(old(View()), origin)
      ensures removed == (Picked(old(locks.contents), OfOrigin(origin)) != [])
    {
      ghost var v, freed := View(), [];
      ReleasingStarts(v, OfOrigin(origin));
      hide Releasing, Without, Picked, WakeEach, locks.Valid;
      removed, freed := ReleaseLoop(OfOrigin(origin), v);
      ReleasingDone(v, OfOrigin(origin), locks.contents, |locks.contents|, freed, brQueue, requeued);
    }

    // -------------------------------------------------------------- oplocks

    method UnlinkOplocks(client: ObjectId) returns (removed: bool)
      requires oplocks.Valid()
      modifies oplocks, oplocks.repr
      ensures oplocks.Valid() && oplocks.repr == old(oplocks.repr)
      ensures oplocks.contents == OthersOplocks(old(oplocks.contents), client)
      ensures removed == Holds(old(oplocks.contents), client)
    {
      removed := false;
      var prev, olp := null, oplocks.head;
      ghost var all, k := oplocks.contents, 0;
      assert RemovingOplocks(all, client, all, 0, false) by {
        assert all[..0] == [] && all[0..] == all;
      }
      hide RemovingOplocks, OthersOplocks, Holds;
      while olp != null
        invariant oplocks.At(prev, olp, k) && oplocks.repr == old(oplocks.repr)
        invariant RemovingOplocks(all, client, oplocks.contents, k, removed)
        decreases oplocks.size - k
      {
        RemovingOplocksStep(all, client, oplocks.contents, k, removed);
        if olp.data.owner == client {
          olp := oplocks.Unlink(prev, olp, k);
          removed := true;
        } else {
          var next := oplocks.Advance(prev, olp, k);
          prev, olp, k := olp, next, k + 1;
        }
      }
      RemovingOplocksDone(all, client, oplocks.contents, k, removed);
    }

    /** Hand every request that waits for oplocks back to the server, oldest first. */
    method DrainOplockQueue()
      modifies this`opQueue, this`requeued
      ensures opQueue == [] && requeued == old(requeued) + OpContexts(old(opQueue))
    {
      while opQueue != []
        invariant requeued + OpContexts(opQueue) == old(requeued) + OpContexts(old(opQueue))
        decreases |opQueue|
      {
        var waiter := opQueue[0];
        assert requeued + ([waiter.context] + OpContexts(opQueue[1..])) == requeued + [waiter.context] + OpContexts(opQueue[1..]);
        opQueue, requeued := opQueue[1..], requeued + [waiter.context];
      }
    }

    method RemoveOplocks(client: ObjectId) returns (removed: bool)
      requires Valid()
      modifies oplocks, oplocks.repr, this`opQueue, this`requeued
      ensures Valid() && oplocks.repr == old(oplocks.repr)
      ensures (View(), removed) == FileStates.RemoveOplocks(old(View()), client)
    {
      removed := UnlinkOplocks(client);
      if removed {
        DrainOplockQueue();
      }
    }

    /** The notification loop: every broken oplock is told, and the caller learns of it. */
    method NotifyBroken(client: ObjectId, writing: bool) returns (notified: bool)
      requires oplocks.Valid()
      modifies this`breaks
      ensures breaks == old(breaks) + Broken(oplocks.contents, client, writing)
      ensures notified == (Broken(oplocks.contents, client, writing) != [])
    {
      notified := false;
      var prev, olp := null, oplocks.head;
      ghost var k, os := 0, oplocks.contents;
      assert Broken(os[..0], client, writing) == [];
      assert oplocks.At(prev, olp, k) && oplocks.Sees(olp, k);
      hide Broken, Oplock.BrokenBy, oplocks.At;
      while olp != null
        invariant oplocks.At(prev, olp, k) && oplocks.Sees(olp, k)
        invariant breaks == old(breaks) + Broken(os[..k], client, writing)
        invariant notified == (Broken(os[..k], client, writing) != [])
        decreases oplocks.size - k
        modifies this`breaks
      {
        BrokenOneMore(os, k, client, writing);
        if olp.data.BrokenBy(client, writing) {
          breaks := breaks + [olp.data];
          notified := true;
        }
        var next := oplocks.Advance(prev, olp, k);
        prev, olp, k := olp, next, k + 1;
      }
      assert os[..k] == os;
    }

    method CheckOplockConflict(client: ObjectId, writing: bool) returns (notified: bool)
      requires Valid()
      modifies this`breaks
      ensures Valid()
      ensures (View(), notified) == FileStates.CheckOplockConflict(old(View()), client, writing)
    {
      notified := NotifyBroken(client, writing);
      BrokenFindsConflicts(oplocks.contents, client, writing);
    }

    /** The conflict scan of `set_oplock`, which notifies nobody. */
    method FindOplockConflict(client: ObjectId, writing: bool) returns (conflict: bool)
      requires Valid()
      ensures conflict == OplockBroken(View(), client, writing)
    {
      conflict := false;
      var prev, olp := null, oplocks.head;
      ghost var k := 0;
      while olp != null
        invariant oplocks.At(prev, olp, k)
        invariant forall j | 0 <= j < k :: !oplocks.contents[j].BrokenBy(client, writing)
        decreases oplocks.size - k
      {
        if olp.data.BrokenBy(client, writing) {
          assert oplocks.contents[k] in oplocks.contents;
          return true;
        }
        var next := oplocks.Advance(prev, olp, k);
        prev, olp, k := olp, next, k + 1;
      }
    }

    /** The first oplock of `client`, if it has one. */
    method FindOplock(client: ObjectId) returns (prev: Node?<Oplock>, olp: Node?<Oplock>, ghost k: nat)
      requires Valid()
      ensures oplocks.At(prev, olp, k)
      ensures forall j | 0 <= j < k :: oplocks.contents[j].owner != client
      ensures olp != null <==> Holds(oplocks.contents, client)
      ensures olp != null ==> oplocks.contents[k].owner == client
    {
      prev, olp, k := null, oplocks.head, 0;
      while olp != null && olp.data.owner != client
        invariant oplocks.At(prev, olp, k)
        invariant forall j | 0 <= j < k :: oplocks.contents[j].owner != client
        decreases oplocks.size - k
      {
        var next := oplocks.Advance(prev, olp, k);
        prev, olp, k := olp, next, k + 1;
      }
      assert olp != null ==> oplocks.contents[k] in oplocks.contents;
    }

    /** Replace the oplock of `client`, or give it one. */
    method GrantOplock(client: ObjectId, mode: bv64)
      requires Valid()
      modifies oplocks, oplocks.repr
      ensures Valid() && fresh(oplocks.repr - old(oplocks.repr))
      ensures oplocks.contents
           == var os := old(oplocks.contents);
              if Holds(os, client) then SetMode(os, client, mode) else [Oplock(client, mode)] + os
    {
      var prev, olp, k := FindOplock(client);
      if olp != null {
        SetModeAt(oplocks.contents, client, mode, k);
        oplocks.Update(prev, olp, Oplock(client, mode), k);
      } else {
        oplocks.Push(Oplock(client, mode));
      }
    }

    method SetOplock(client: ObjectId, mode: bv64) returns (rv: Status)
      requires Valid()
      modifies oplocks, oplocks.repr, this`opQueue, this`requeued
      ensures Valid() && fresh(oplocks.repr - old(oplocks.repr))
      ensures (View(), rv) == FileStates.SetOplock(old(View()), client, mode)
    {
      if mode & !(CACHE_READ | CACHE_WRITE) != 0 {
        return Invalid;
      }
      if mode == 0 {
        var _ := RemoveOplocks(client);
        return Success;
      }
      if locks.head != null {
        return Locked;
      }
      var conflict := FindOplockConflict(client, mode & CACHE_WRITE != 0);
      if conflict {
        return Locked;
      }
      GrantOplock(client, mode);
      rv := Success;
    }

    /** What `client` may cache, and whether somebody waits for it to stop. */
    method GetOplock(client: ObjectId) returns (mode: bv64)
      requires Valid()
      ensures !Holds(View().oplocks, client) ==> mode == 0
      ensures forall k | 0 <= k < |View().oplocks| && View().oplocks[k].owner == client
                && (forall j | 0 <= j < k :: View().oplocks[j].owner != client) ::
                mode == View().oplocks[k].mode | (if View().opQueue != [] then 0x400 else 0)
    {
      mode := 0;
      var prev, olp, k := FindOplock(client);
      if olp != null {
        mode := olp.data.mode;
        if |opQueue| != 0 {
          mode := mode | CACHE_BREAK;
        }
      }
    }

    // -------------------------------------------------------------- requests

    method SetLockRange(client: ObjectId, origin: U64, flags: bv32, mode: bv64, start: U64, end: U64) returns (rv: Status)
      requires Valid()
      modifies locks, locks.repr, this`brQueue, this`requeued, this`breaks
      ensures Valid() && fresh(locks.repr - old(locks.repr))
      ensures (View(), rv) == FileStates.SetLockRange(old(View()), client, origin, flags, mode, start, end)
    {
      if end < start {
        return Invalid;
      }
      if flags & RANGE_UNLOCK != 0 && flags & RANGE_LOCK != 0 {
        return BadCmd;
      }
      if flags & RANGE_UNLOCK != 0 {
        var removed := RemoveRangeLock(origin, mode, start, end);
        rv := if removed then Success else Invalid;
      } else if flags & RANGE_LOCK != 0 {
        var broken := CheckOplockConflict(client, true);
        if broken {
          return Retry;
        }
        var added := AddRangeLock(Flock(client, origin, mode, start, end));
        rv := if added then Success else if flags & RANGE_WAIT != 0 then WaitLock else Locked;
      } else {
        rv := BadCmd;
      }
    }

    method WaitBrlock(context: Context, origin: U64, mode: bv64, start: U64, end: U64)
      modifies this`brQueue
      ensures View() == old(View()).(brQueue := old(brQueue) + [BrWait(context, origin, mode, start, end)])
    {
      brQueue := brQueue + [BrWait(context, origin, mode, start, end)];
    }

    method WaitOplock(context: Context, client: ObjectId, writing: bool, asksToWrite: bool)
      modifies this`opQueue
      ensures View() == old(View()).(opQueue := old(opQueue) + [OpWait(context, client, writing, asksToWrite)])
    {
      opQueue := opQueue + [OpWait(context, client, writing, asksToWrite)];
    }

    method WakeAll()
      modifies this`brQueue, this`opQueue, this`requeued
      ensures View() == FileStates.WakeAll(old(View()))
    {
      var numEntries := |brQueue|;
      while numEntries > 0
        invariant 0 <= numEntries == |brQueue|
        invariant requeued + BrContexts(brQueue) == old(requeued) + BrContexts(old(brQueue))
        invariant opQueue == old(opQueue)
      {
        var waiter := brQueue[0];
        assert requeued + ([waiter.context] + BrContexts(brQueue[1..])) == requeued + [waiter.context] + BrContexts(brQueue[1..]);
        brQueue, requeued := brQueue[1..], requeued + [waiter.context];
        numEntries := numEntries - 1;
      }
      DrainOplockQueue();
    }

    // -------------------------------------------------------------- references

    method AddReference(flags: bv32) returns (rv: Status)
      modifies this`refcount
      ensures (View(), rv) == FileStates.AddReference(old(View()), flags)
    {
      var rest, conflict := originFlags, false;
      while rest != map[] && !conflict
        invariant forall o | o in rest :: o in originFlags && rest[o] == originFlags[o]
        invariant forall o | o in originFlags && o !in rest :: !ModeConflict(originFlags[o], flags)
        invariant conflict ==> exists o | o in originFlags :: ModeConflict(originFlags[o], flags)
        decreases |rest|, !conflict
      {
        var o :| o in rest;
        if ModeConflict(rest[o], flags) {
          conflict := true;
        } else {
          rest := rest - {o};
        }
      }
      if conflict {
        rv := Access;
      } else {
        refcount := refcount + 1;
        rv := Success;
      }
    }

    /** The part of `remove_reference` that forgets what `client` had through `origin`. */
    method Forget(client: ObjectId, origin: U64)
      requires Valid()
      modifies this`brQueue, this`requeued, this`originFlags, this`objectRefs, locks, locks.repr
      ensures Valid() && locks.repr == old(locks.repr)
      ensures View() == FileStates.ReleaseBrlocks(old(View()), origin).(originFlags := old(originFlags) - {origin},
                                                                       objectRefs := old(objectRefs) - multiset{client})
    {
      hide FileStates.ReleaseBrlocks, locks.Valid;
      ghost var released := FileStates.ReleaseBrlocks(View(), origin);
      var _ := ReleaseBrlocks(origin);
      assert View() == released;
      objectRefs := objectRefs - multiset{client};
      originFlags := originFlags - {origin};
    }

    method RemoveReference(client: ObjectId, origin: U64) returns (rv: Status)
      requires Valid()
      modifies this, locks, locks.repr, oplocks, oplocks.repr
      ensures Valid() && locks.repr == old(locks.repr) && oplocks.repr == old(oplocks.repr)
      ensures (View(), rv) == FileStates.RemoveReference(old(View()), client, origin)
    {
      hide FileStates.ReleaseBrlocks, FileStates.RemoveOplocks, locks.Valid;
      var lastOfClient := objectRefs[client] == 1;
      Forget(client, origin);
      if lastOfClient {
        var _ := RemoveOplocks(client);
      }
      if refcount == 0 {
        rv := Invalid;
      } else {
        refcount := refcount - 1;
        rv := Success;
      }
    }

    method AddObject(client: ObjectId)
      modifies this`objectRefs
      ensures View() == FileStates.AddObject(old(View()), client)
    {
      objectRefs := objectRefs[client := objectRefs[client] + 1];
    }

    /** The part of `remove_object` that takes away the references of `client`. */
    method DropReferences(client: ObjectId) returns (dropped: bool)
      modifies this`refcount, this`objectRefs
      ensures dropped == (client in old(objectRefs))
      ensures View() == old(View()).(refcount := old(refcount) - old(objectRefs)[client], objectRefs := old(objectRefs)[client := 0])
    {
      dropped := objectRefs[client] > 0;
      if dropped {
        refcount := refcount - objectRefs[client];
        objectRefs := objectRefs[client := 0];
      } else {
        assert objectRefs[client := 0] == objectRefs;
      }
    }

    /** Everything `client` has on the file goes. */
    method StripObject(client: ObjectId) returns (removed: bool)
      requires Valid()
      modifies this, locks, locks.repr, oplocks, oplocks.repr
      ensures Valid() && locks.repr == old(locks.repr) && oplocks.repr == old(oplocks.repr)
      ensures var (s1, hadOplock) := FileStates.RemoveOplocks(old(View()), client);
              var (s2, hadLock) := FileStates.RemoveBrlocks(s1, client);
              && View() == s2.(refcount := old(refcount) - old(objectRefs)[client], objectRefs := old(objectRefs)[client := 0])
              && removed == (hadOplock || hadLock || client in old(objectRefs))
    {
      hide FileStates.RemoveBrlocks, FileStates.RemoveOplocks, locks.Valid, oplocks.Valid;
      var hadOplock := RemoveOplocks(client);
      var hadLock := RemoveBrlocks(client);
      var hadReferences := DropReferences(client);
      removed := hadOplock || hadLock || hadReferences;
    }

    method RemoveObject(client: ObjectId) returns (removed: bool)
      requires Valid()
      modifies this, locks, locks.repr, oplocks, oplocks.repr
      ensures Valid() && locks.repr == old(locks.repr) && oplocks.repr == old(oplocks.repr)
      ensures (View(), removed) == FileStates.RemoveObject(old(View()), client)
    {
      hide FileStates.RemoveBrlocks, FileStates.RemoveOplocks, FileStates.WakeAll, locks.Valid, oplocks.Valid;
      removed := StripObject(client);
      if removed {
        WakeAll();
      }
    }

    method AddOrigin(origin: U64, flags: bv32)
      modifies this`originFlags, this`accessMode
      ensures View() == FileStates.AddOrigin(old(View()), origin, flags)
    {
      originFlags := originFlags[origin := flags];
      accessMode := accessMode | flags;
    }

    /** Take the union of the modes that are left, one table entry at a time. */
    method RecalculateAccessMode()
      modifies this`accessMode
      ensures accessMode == AccessModeFor(originFlags)
    {
      if originFlags == map[] {
        accessMode := 0xffff_ffff;
        return;
      }
      accessMode := 0;
      var rest := originFlags;
      while rest != map[]
        invariant UnionOfFlags(originFlags) == accessMode | UnionOfFlags(rest)
        decreases |rest|
      {
        var o :| o in rest;
        UnionTakesAny(rest, o);
        accessMode := accessMode | rest[o];
        rest := rest - {o};
      }
    }

    method ReleaseOrigin(origin: U64)
      requires Valid()
      modifies this, locks, locks.repr
      ensures Valid() && locks.repr == old(locks.repr)
      ensures View() == FileStates.ReleaseOrigin(old(View()), origin)
    {
      hide FileStates.ReleaseBrlocks, AccessModeFor;
      var _ := ReleaseBrlocks(origin);
      originFlags := originFlags - {origin};
      RecalculateAccessMode();
    }

    method ValidateOrigin(origin: U64) returns (ok: bool)
      ensures ok == FileStates.ValidateOrigin(View(), origin)
    {
      ok := false;
      for i := 0 to |openOrigins|
        invariant forall j | 0 <= j < i :: openOrigins[j] != origin
      {
        if openOrigins[i] == origin {
          return true;
        }
      }
      if origin == 0 {
        ok := true;
      }
    }

    method AddOpenOrigin(origin: U64)
      modifies this`openOrigins
      ensures View() == FileStates.AddOpenOrigin(old(View()), origin)
    {
      openOrigins := openOrigins + [origin];
    }

    method RemoveOpenOrigin(origin: U64)
      modifies this`openOrigins
      ensures View() == FileStates.RemoveOpenOrigin(old(View()), origin)
    {
      var i := 0;
      while i < |openOrigins| && openOrigins[i] != origin
        invariant 0 <= i <= |openOrigins|
        invariant forall j | 0 <= j < i :: openOrigins[j] != origin
      {
        i := i + 1;
      }
      DropFirstAt(openOrigins, origin, i);
      if i < |openOrigins| {
        openOrigins := openOrigins[..i] + openOrigins[i + 1..];
      }
    }
  }
}
