/** Byte-range locks (`vss_flock`): the conflict rules, and what they mean byte by byte. */
module Flocks {
  import opened VssTypes

  const READ_SHARED: bv64 := 0x1
  const WRITE_EXCL: bv64 := 0x2

  predicate Shared(mode: bv64) { mode & READ_SHARED != 0 }
  predicate Exclusive(mode: bv64) { mode & WRITE_EXCL != 0 }

  /** The two modes a well-behaved client sends: exactly one of the two bits. */
  predicate SingleBit(mode: bv64) { Shared(mode) != Exclusive(mode) }

  /** One lock over the half-open byte range [start, end). */
  datatype Flock = Flock(owner: ObjectId, origin: U64, mode: bv64, start: U64, end: U64)
  {
    predicate Overlaps(start2: U64, end2: U64) {
      !(start2 >= end || start >= end2)
    }

    predicate Matches(origin2: U64, mode2: bv64, start2: U64, end2: U64) {
      origin == origin2 && mode == mode2 && start == start2 && end == end2
    }

    /** Rule for reads and writes against a held lock. */
    predicate IoConflicts(origin2: U64, mode2: bv64, start2: U64, end2: U64) {
      if !Overlaps(start2, end2) then false
      else if origin == origin2 then Shared(mode) && Exclusive(mode2)
      else if Exclusive(mode) then true
      else if Exclusive(mode2) then true
      else !(Shared(mode) && Shared(mode2))
    }

    /** Rule for a new lock against a held lock. */
    predicate LockConflicts(origin2: U64, mode2: bv64, start2: U64, end2: U64) {
      if !Overlaps(start2, end2) then false
      else if origin == origin2 && Exclusive(mode) && Shared(mode2) then false
      else if Exclusive(mode) then true
      else if Exclusive(mode2) then true
      else !(Shared(mode) && Shared(mode2))
    }

    predicate Covers(b: int) { start <= b < end }

    predicate NonEmpty() { start < end }
  }

  // ---------------------------------------------------------------- overlap

  ghost predicate CommonByte(l: Flock, start2: U64, end2: U64) {
    exists b: int :: start2 <= b < end2 && l.Covers(b)
  }

  /** One of the two ranges is empty, or runs backwards, and sits strictly inside the other. */
  ghost predicate EmptyStrictlyInside(l: Flock, start2: U64, end2: U64) {
    || (end2 <= start2 && l.start < end2 && start2 < l.end)
    || (l.end <= l.start && start2 < l.end && l.start < end2)
  }

  /** The overlap test means "some byte in common", except exactly when an empty or backward
      range lies strictly inside the other. */
  lemma OverlapIsCommonByteUnlessEmptyInside(l: Flock, start2: U64, end2: U64)
    ensures (l.Overlaps(start2, end2) <==> CommonByte(l, start2, end2)) <==> !EmptyStrictlyInside(l, start2, end2)
    ensures l.Overlaps(start2, end2) <==> CommonByte(l, start2, end2) || EmptyStrictlyInside(l, start2, end2)
  {
    if l.NonEmpty() && start2 < end2 && l.Overlaps(start2, end2) {
      var b := if l.start < start2 then start2 else l.start;
      assert start2 <= b < end2 && l.Covers(b);
    }
  }

  // ---------------------------------------------------------------- per-byte table

  /** What the lock file looks like at one byte: who covers it, and in which mode. */
  function Cell(locks: seq<Flock>, b: int): multiset<(U64, bv64)> {
    if locks == [] then multiset{}
    else (if locks[0].Covers(b) then multiset{(locks[0].origin, locks[0].mode)} else multiset{}) + Cell(locks[1..], b)
  }

  /** On a byte held in `held` by `holder`: may `who` perform an access of kind `want`?
      A holder may read over its own lock but not write over its own shared lock; anybody
      else needs both sides to be purely shared reads. */
  predicate Forbids(holder: U64, held: bv64, who: U64, want: bv64) {
    if holder == who then Shared(held) && Exclusive(want)
    else !(Shared(held) && Shared(want) && !Exclusive(held) && !Exclusive(want))
  }

  /** The scan of `check_lock_conflict`. */
  predicate IoBlocked(locks: seq<Flock>, origin: U64, mode: bv64, start: U64, end: U64) {
    exists l | l in locks :: l.IoConflicts(origin, mode, start, end)
  }

  /** The scan of `add_range_lock`. */
  predicate LockBlocked(locks: seq<Flock>, origin: U64, mode: bv64, start: U64, end: U64) {
    exists l | l in locks :: l.LockConflicts(origin, mode, start, end)
  }

  ghost predicate ByteBlocked(locks: seq<Flock>, origin: U64, mode: bv64, b: int) {
    exists h | h in Cell(locks, b) :: Forbids(h.0, h.1, origin, mode)
  }

  lemma {:induction false} CellHolders(locks: seq<Flock>, b: int, h: (U64, bv64))
    ensures h in Cell(locks, b) <==> exists l | l in locks :: l.Covers(b) && h == (l.origin, l.mode)
  {
    if locks != [] {
      CellHolders(locks[1..], b, h);
      assert forall l :: l in locks <==> l == locks[0] || l in locks[1..];
    }
  }

  /** A forbidding lock that a byte table would not show: it, or the access, has no bytes. */
  ghost predicate BlockedWithoutBytes(locks: seq<Flock>, origin: U64, mode: bv64, start: U64, end: U64) {
    exists l | l in locks :: EmptyStrictlyInside(l, start, end) && Forbids(l.origin, l.mode, origin, mode)
  }

  /** The list scan answers exactly the question a per-byte table would answer, but for the
      locks and accesses without bytes that lie strictly inside one another. */
  lemma IoBlockedIsPerByte(locks: seq<Flock>, origin: U64, mode: bv64, start: U64, end: U64)
    ensures IoBlocked(locks, origin, mode, start, end)
       <==> || (exists b: int | start <= b < end :: ByteBlocked(locks, origin, mode, b))
            || BlockedWithoutBytes(locks, origin, mode, start, end)
  {
    hide EmptyStrictlyInside;
    forall l | l in locks ensures l.Overlaps(start, end) <==> CommonByte(l, start, end) || EmptyStrictlyInside(l, start, end) {
      OverlapIsCommonByteUnlessEmptyInside(l, start, end);
    }
    if IoBlocked(locks, origin, mode, start, end) {
      var l :| l in locks && l.IoConflicts(origin, mode, start, end);
      if CommonByte(l, start, end) {
        var b: int :| start <= b < end && l.Covers(b);
        CellHolders(locks, b, (l.origin, l.mode));
        assert ByteBlocked(locks, origin, mode, b);
      }
    }
    if b: int :| start <= b < end && ByteBlocked(locks, origin, mode, b) {
      var h :| h in Cell(locks, b) && Forbids(h.0, h.1, origin, mode);
      CellHolders(locks, b, h);
      var l :| l in locks && l.Covers(b) && h == (l.origin, l.mode);
      assert l.IoConflicts(origin, mode, start, end);
    }
  }

  /** An access is refused exactly when one of its two halves is, or when a lock without
      bytes sits just where it is cut: so splitting a request lets nothing else through. */
  lemma IoSplits(locks: seq<Flock>, origin: U64, mode: bv64, start: U64, mid: U64, end: U64)
    requires start <= mid <= end
    ensures IoBlocked(locks, origin, mode, start, end)
       <==> || IoBlocked(locks, origin, mode, start, mid)
            || IoBlocked(locks, origin, mode, mid, end)
            || exists l | l in locks :: l.end <= mid <= l.start && l.IoConflicts(origin, mode, start, end)
  {
    forall l | l in locks
      ensures l.IoConflicts(origin, mode, start, end)
         <==> || l.IoConflicts(origin, mode, start, mid) || l.IoConflicts(origin, mode, mid, end)
              || (l.end <= mid <= l.start && l.IoConflicts(origin, mode, start, end))
    {
      assert l.Overlaps(start, end)
        <==> l.Overlaps(start, mid) || l.Overlaps(mid, end) || (l.end <= mid <= l.start && l.Overlaps(start, end));
    }
  }

  // ---------------------------------------------------------------- reachable lock lists

  /** The list as it can arise: newest first, every lock admitted against all older ones. */
  ghost predicate Admissible(locks: seq<Flock>) {
    locks == [] ||
    (&& Admissible(locks[1..])
     && var n := locks[0];
        forall l | l in locks[1..] :: !l.LockConflicts(n.origin, n.mode, n.start, n.end))
  }

  /** Which locks an unlock, a release or a dying client removes. */
  datatype Which =
    | Exact(origin: U64, mode: bv64, start: U64, end: U64)
    | OfOrigin(origin: U64)
    | OfObject(owner: ObjectId)
  {
    predicate Selects(l: Flock) {
      match this
      case Exact(o, m, s, e) => l.Matches(o, m, s, e)
      case OfOrigin(o) => l.origin == o
      case OfObject(obj) => l.owner == obj
    }
  }

  function Without(locks: seq<Flock>, w: Which): seq<Flock> {
    if locks == [] then []
    else (if w.Selects(locks[0]) then [] else [locks[0]]) + Without(locks[1..], w)
  }

  function Picked(locks: seq<Flock>, w: Which): seq<Flock> {
    if locks == [] then []
    else (if w.Selects(locks[0]) then [locks[0]] else []) + Picked(locks[1..], w)
  }

  lemma {:induction false} WithoutMembers(locks: seq<Flock>, w: Which)
    ensures forall l :: l in Without(locks, w) <==> l in locks && !w.Selects(l)
    ensures forall l :: l in Picked(locks, w) <==> l in locks && w.Selects(l)
    ensures |Without(locks, w)| + |Picked(locks, w)| == |locks|
  {
    if locks != [] {
      WithoutMembers(locks[1..], w);
      assert forall l :: l in locks <==> l == locks[0] || l in locks[1..];
    }
  }

  /** Removing locks gives each byte back exactly the removed holders. */
  lemma {:induction false} RemovalReturnsBytes(locks: seq<Flock>, w: Which, b: int)
    ensures Cell(locks, b) == Cell(Without(locks, w), b) + Cell(Picked(locks, w), b)
  {
    if locks != [] {
      RemovalReturnsBytes(locks[1..], w, b);
      var wo, pi := Without(locks[1..], w), Picked(locks[1..], w);
      if w.Selects(locks[0]) {
        assert ([locks[0]] + pi)[1..] == pi;
        assert Without(locks, w) == wo;
      } else {
        assert ([locks[0]] + wo)[1..] == wo;
        assert Picked(locks, w) == pi;
      }
    }
  }

  lemma {:induction false} WithoutAdmissible(locks: seq<Flock>, w: Which)
    requires Admissible(locks)
    ensures Admissible(Without(locks, w))
  {
    if locks != [] {
      WithoutAdmissible(locks[1..], w);
      WithoutMembers(locks[1..], w);
      var t := Without(locks[1..], w);
      if w.Selects(locks[0]) {
        assert Without(locks, w) == t;
      } else {
        assert ([locks[0]] + t)[1..] == t;
      }
    }
  }

  lemma {:induction false} AdmittedPair(locks: seq<Flock>, i: nat, j: nat)
    requires Admissible(locks) && i < j < |locks|
    ensures !locks[j].LockConflicts(locks[i].origin, locks[i].mode, locks[i].start, locks[i].end)
  {
    if i == 0 {
      assert locks[j] == locks[1..][j - 1];
    } else {
      AdmittedPair(locks[1..], i - 1, j - 1);
    }
  }

  /** Locks of different handles that overlap are both purely shared reads. */
  lemma ForeignOverlapIsReadOnly(locks: seq<Flock>, i: nat, j: nat)
    requires Admissible(locks) && i < |locks| && j < |locks|
    requires locks[i].origin != locks[j].origin && locks[i].Overlaps(locks[j].start, locks[j].end)
    ensures Shared(locks[i].mode) && Shared(locks[j].mode)
    ensures !Exclusive(locks[i].mode) && !Exclusive(locks[j].mode)
  {
    if i < j { AdmittedPair(locks, i, j); } else { AdmittedPair(locks, j, i); }
  }

  /** Two overlapping locks that both carry the exclusive bit: possible exactly on one
      handle, and only when the newer one also carries the shared bit. */
  lemma ExclusiveOverlap(locks: seq<Flock>, newer: nat, older: nat)
    requires Admissible(locks) && newer < older < |locks|
    requires locks[older].Overlaps(locks[newer].start, locks[newer].end)
    requires Exclusive(locks[newer].mode) && Exclusive(locks[older].mode)
    ensures locks[newer].origin == locks[older].origin
    ensures Shared(locks[newer].mode)
    ensures !SingleBit(locks[newer].mode)
  {
    AdmittedPair(locks, newer, older);
  }

  /** The other half: over an exclusive lock another one is granted exactly on the same handle
      and with the shared bit. */
  lemma ExclusiveGrantedIff(held: Flock, n: Flock)
    requires Exclusive(held.mode) && Exclusive(n.mode) && held.Overlaps(n.start, n.end)
    ensures !held.LockConflicts(n.origin, n.mode, n.start, n.end) <==> held.origin == n.origin && Shared(n.mode)
  {
  }

  /** With the modes clients are meant to send, exclusive locks never overlap at all. */
  lemma SingleBitExclusion(locks: seq<Flock>, i: nat, j: nat)
    requires Admissible(locks) && i < |locks| && j < |locks| && i != j
    requires forall l | l in locks :: SingleBit(l.mode)
    requires Exclusive(locks[i].mode) && Exclusive(locks[j].mode)
    ensures !locks[i].Overlaps(locks[j].start, locks[j].end)
  {
    if locks[i].Overlaps(locks[j].start, locks[j].end) {
      if i < j { ExclusiveOverlap(locks, i, j); } else { ExclusiveOverlap(locks, j, i); }
    }
  }

  /** Without that restriction it fails: one handle can lock [0,10) twice with mode 3. */
  lemma TwoBitModeOverlaps()
    ensures var l := Flock(1, 7, 3, 0, 10);
            && Admissible([l, l]) && Exclusive(l.mode) && l.Overlaps(l.start, l.end)
  {
    var l := Flock(1, 7, 3, 0, 10);
    assert [l, l][1..] == [l] && [l][1..] == [];
    assert !l.LockConflicts(l.origin, l.mode, l.start, l.end);
    assert Admissible([l]);
  }

  /** What an exclusive lock buys: while it is held, nobody else reads or writes inside it. */
  lemma ExclusiveLockShieldsRange(locks: seq<Flock>, i: nat, origin: U64, mode: bv64, start: U64, end: U64)
    requires i < |locks| && Exclusive(locks[i].mode)
    requires origin != locks[i].origin && locks[i].Overlaps(start, end)
    ensures IoBlocked(locks, origin, mode, start, end)
  {
    assert locks[i].IoConflicts(origin, mode, start, end);
  }
}
