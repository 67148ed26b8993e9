/** What a cache should hold: the entries oldest first, and how each operation changes them. */
module CacheHistory {
  import opened VssTypes

  /** Expiry switched off (`VPLTIME_INVALID`). */
  const NEVER: U64 := 0xffff_ffff_ffff_ffff

  datatype Item<K, V> = Item(key: K, value: V, stamp: U64)

  /** 64-bit sum, compared with the clock. */
  predicate Expired(stamp: U64, expireAfter: U64, now: U64) {
    expireAfter != NEVER && (stamp + expireAfter) % 0x1_0000_0000_0000_0000 < now
  }

  function Without<K(==), V>(es: seq<Item<K, V>>, key: K): seq<Item<K, V>> {
    if es == [] then []
    else if es[0].key == key then Without(es[1..], key)
    else [es[0]] + Without(es[1..], key)
  }

  ghost predicate Distinct<K, V>(es: seq<Item<K, V>>) {
    forall i, j | 0 <= i < j < |es| :: es[i].key != es[j].key
  }

  /** Stamps never decrease along the queue, and none lies in the future. */
  ghost predicate InOrder<K, V>(es: seq<Item<K, V>>, clock: U64) {
    && (forall i, j | 0 <= i < j < |es| :: es[i].stamp <= es[j].stamp)
    && (forall i | 0 <= i < |es| :: es[i].stamp <= clock)
  }

  /** Replace the key's entry, or make room by dropping the oldest, and append. */
  function Put<K(==), V>(es: seq<Item<K, V>>, limit: nat, x: Item<K, V>): seq<Item<K, V>>
    requires limit > 0 || Without(es, x.key) != []
  {
    var rest := Without(es, x.key);
    (if |rest| + 1 > limit then rest[1..] else rest) + [x]
  }

  /** Drop the oldest entries as long as they are expired. */
  function Purge<K, V>(es: seq<Item<K, V>>, expireAfter: U64, now: U64): seq<Item<K, V>> {
    if es == [] || !Expired(es[0].stamp, expireAfter, now) then es else Purge(es[1..], expireAfter, now)
  }

  // ---------------------------------------------------------------- purging

  /** What ought to have expired, in unbounded arithmetic. */
  predicate Old(stamp: U64, expireAfter: U64, now: U64) {
    expireAfter != NEVER && stamp + expireAfter < now
  }

  function Fresh<K, V>(es: seq<Item<K, V>>, expireAfter: U64, now: U64): seq<Item<K, V>> {
    if es == [] then []
    else if Old(es[0].stamp, expireAfter, now) then Fresh(es[1..], expireAfter, now)
    else [es[0]] + Fresh(es[1..], expireAfter, now)
  }

  lemma {:induction false} FreshIsAll<K, V>(es: seq<Item<K, V>>, expireAfter: U64, now: U64)
    requires InOrder(es, now) && (es != [] ==> !Old(es[0].stamp, expireAfter, now))
    ensures Fresh(es, expireAfter, now) == es
  {
    if |es| > 1 {
      assert es[0].stamp <= es[1].stamp;
      FreshIsAll(es[1..], expireAfter, now);
    } else if |es| == 1 {
      assert Fresh(es[1..], expireAfter, now) == [] && [es[0]] == es;
    }
  }

  lemma {:induction false} PurgeLength<K, V>(es: seq<Item<K, V>>, expireAfter: U64, now: U64)
    ensures |Purge(es, expireAfter, now)| <= |es|
  {
    if es != [] && Expired(es[0].stamp, expireAfter, now) {
      PurgeLength(es[1..], expireAfter, now);
    }
  }

  /** Looking at a prefix only, the purge removes exactly the entries that are old, if and only
      if the oldest entry that is not old does not look expired through a wrapped sum. */
  lemma {:induction false} PurgeRemovesExactlyTheOld<K, V>(es: seq<Item<K, V>>, expireAfter: U64, now: U64)
    requires InOrder(es, now)
    ensures Purge(es, expireAfter, now) == Fresh(es, expireAfter, now)
       <==> var kept := Fresh(es, expireAfter, now); kept == [] || !Expired(kept[0].stamp, expireAfter, now)
  {
    if es != [] {
      if Old(es[0].stamp, expireAfter, now) {
        PurgeRemovesExactlyTheOld(es[1..], expireAfter, now);
      } else {
        FreshIsAll(es, expireAfter, now);
        if Expired(es[0].stamp, expireAfter, now) {
          PurgeLength(es[1..], expireAfter, now);
        }
      }
    }
  }

  /** In particular when the newest stamp can be added to without wrapping around. */
  lemma PurgeIsExactWithoutWrap<K, V>(es: seq<Item<K, V>>, expireAfter: U64, now: U64)
    requires InOrder(es, now) && now + expireAfter < 0x1_0000_0000_0000_0000
    ensures Purge(es, expireAfter, now) == Fresh(es, expireAfter, now)
  {
    PurgeRemovesExactlyTheOld(es, expireAfter, now);
    FreshMembers(es, expireAfter, now);
  }

  lemma {:induction false} FreshMembers<K, V>(es: seq<Item<K, V>>, expireAfter: U64, now: U64)
    ensures forall x | x in Fresh(es, expireAfter, now) :: x in es && !Old(x.stamp, expireAfter, now)
  {
    if es != [] {
      FreshMembers(es[1..], expireAfter, now);
    }
  }

  /** With a time limit close to 2^64 a fresh entry can be thrown away. */
  lemma WrapThrowsAwayFresh()
    ensures var e := 0xffff_ffff_ffff_fffe; var es := [Item("k", 1, 10)];
            InOrder(es, 20) && Fresh(es, e, 20) == es && Purge(es, e, 20) == []
  {
    var e, es := 0xffff_ffff_ffff_fffe, [Item("k", 1, 10)];
    assert es[1..] == [] && Fresh(es[1..], e, 20) == [];
  }

  /** A limit of 0 does not switch caching off: a put that finds another entry to drop leaves
      the cache as full as before, with the new entry in it. */
  lemma ZeroLimitStillCaches<K, V>(es: seq<Item<K, V>>, x: Item<K, V>)
    requires Without(es, x.key) != []
    ensures |Put(es, 0, x)| == |Without(es, x.key)| && x in Put(es, 0, x)
  {
  }

  // ---------------------------------------------------------------- a history of puts

  /** The history with every put of a key but the last left out. */
  function Latest<K(==), V>(puts: seq<Item<K, V>>): seq<Item<K, V>> {
    if puts == [] then []
    else
      var n := |puts| - 1;
      Without(Latest(puts[..n]), puts[n].key) + [puts[n]]
  }

  function LastOf<T>(s: seq<T>, n: nat): seq<T> {
    if |s| <= n then s else s[|s| - n..]
  }

  function PutAll<K(==), V>(limit: nat, puts: seq<Item<K, V>>): seq<Item<K, V>>
    requires limit > 0
  {
    if puts == [] then []
    else
      var n := |puts| - 1;
      Put(PutAll(limit, puts[..n]), limit, puts[n])
  }

  lemma {:induction false} WithoutAppend<K, V>(a: seq<Item<K, V>>, b: seq<Item<K, V>>, key: K)
    ensures Without(a + b, key) == Without(a, key) + Without(b, key)
  {
    if a == [] {
      assert a + b == b;
    } else {
      WithoutAppend(a[1..], b, key);
      assert (a + b)[1..] == a[1..] + b && (a + b)[0] == a[0];
    }
  }

  lemma {:induction false} WithoutAbsent<K, V>(es: seq<Item<K, V>>, key: K)
    requires forall i | 0 <= i < |es| :: es[i].key != key
    ensures Without(es, key) == es
  {
    if es != [] {
      WithoutAbsent(es[1..], key);
    }
  }

  lemma {:induction false} WithoutMembers<K, V>(es: seq<Item<K, V>>, key: K)
    ensures forall x | x in Without(es, key) :: x in es && x.key != key
    ensures forall x | x in es && x.key != key :: x in Without(es, key)
    ensures |Without(es, key)| <= |es|
  {
    if es != [] {
      WithoutMembers(es[1..], key);
      assert forall x :: x in es <==> x == es[0] || x in es[1..];
    }
  }

  /** In a list without repeated keys, leaving a key out takes one entry out. */
  lemma {:induction false} WithoutOne<K, V>(es: seq<Item<K, V>>, i: nat)
    requires Distinct(es) && i < |es|
    ensures Without(es, es[i].key) == es[..i] + es[i + 1..]
  {
    var t := es[1..];
    if i == 0 {
      WithoutAbsent(t, es[0].key);
      assert es[..0] + es[1..] == t;
    } else {
      WithoutOne(t, i - 1);
      assert t[i - 1] == es[i] && es[0].key != es[i].key;
      assert [es[0]] + (t[..i - 1] + t[i..]) == es[..i] + es[i + 1..];
    }
  }

  lemma {:induction false} WithoutDistinct<K, V>(es: seq<Item<K, V>>, key: K)
    requires Distinct(es)
    ensures Distinct(Without(es, key)) && forall x | x in Without(es, key) :: x.key != key
  {
    WithoutMembers(es, key);
    if es != [] {
      var t := Without(es[1..], key);
      WithoutDistinct(es[1..], key);
      WithoutMembers(es[1..], key);
      if es[0].key != key {
        forall x | x in t ensures x.key != es[0].key {
          var j :| 0 <= j < |es[1..]| && es[1..][j] == x;
          assert es[j + 1] == x;
        }
        ConsDistinct(es[0], t);
      }
    }
  }

  lemma ConsDistinct<K, V>(x: Item<K, V>, t: seq<Item<K, V>>)
    requires Distinct(t) && forall y | y in t :: y.key != x.key
    ensures Distinct([x] + t)
  {
    var c := [x] + t;
    forall i, j | 0 <= i < j < |c| ensures c[i].key != c[j].key {
      assert c[j] == t[j - 1] && c[j] in t;
    }
  }

  lemma {:induction false} LatestDistinct<K, V>(puts: seq<Item<K, V>>)
    ensures Distinct(Latest(puts))
  {
    if puts != [] {
      var n := |puts| - 1;
      var w := Without(Latest(puts[..n]), puts[n].key);
      LatestDistinct(puts[..n]);
      WithoutDistinct(Latest(puts[..n]), puts[n].key);
      forall i | 0 <= i < |w| ensures w[i].key != puts[n].key {
        assert w[i] in w;
      }
    }
  }

  /** `q` is what remains of the last `limit` of a list of which `r` remains. */
  ghost predicate EndOf<T>(q: seq<T>, r: seq<T>, limit: nat) {
    && |q| <= |r| && |q| <= limit && q == r[|r| - |q|..]
    && (|q| + 1 < limit ==> |q| == |r|)
  }

  lemma RestWhenKept<K, V>(all: seq<Item<K, V>>, limit: nat, i: nat, m: nat)
    requires Distinct(all) && m <= i < |all| && m == (if |all| <= limit then 0 else |all| - limit)
    ensures EndOf(Without(all[m..], all[i].key), Without(all, all[i].key), limit)
  {
    hide Without, EndOf;
    WithoutOne(all, i);
    KeptDistinct(all, m);
    WithoutOne(all[m..], i - m);
    hide Distinct;
    KeptLoses(all, limit, m, i);
  }

  lemma RestWhenDropped<K, V>(all: seq<Item<K, V>>, limit: nat, i: nat, m: nat)
    requires Distinct(all) && i < m <= |all| && m == (if |all| <= limit then 0 else |all| - limit)
    ensures EndOf(Without(all[m..], all[i].key), Without(all, all[i].key), limit)
  {
    hide Without, EndOf;
    WithoutOne(all, i);
    assert forall j | 0 <= j < |all[m..]| :: all[m..][j].key != all[i].key;
    WithoutAbsent(all[m..], all[i].key);
    hide Distinct;
    DroppedLoses(all, limit, m, i);
  }

  /** Keeping the last `limit` entries and making room for one more put commute. */
  lemma PutOnLast<K, V>(all: seq<Item<K, V>>, limit: nat, x: Item<K, V>)
    requires limit > 0 && Distinct(all)
    ensures Put(LastOf(all, limit), limit, x) == LastOf(Without(all, x.key) + [x], limit)
  {
    var m := if |all| <= limit then 0 else |all| - limit;
    if i :| 0 <= i < |all| && all[i].key == x.key {
      if i >= m { RestWhenKept(all, limit, i, m); } else { RestWhenDropped(all, limit, i, m); }
    } else {
      WithoutAbsent(all, x.key);
      WithoutAbsent(all[m..], x.key);
    }
    assert LastOf(all, limit) == all[m..];
    hide Without, Distinct, LastOf;
    RoomForOne(Without(all, x.key), Without(all[m..], x.key), limit, x);
  }

  lemma KeptDistinct<K, V>(all: seq<Item<K, V>>, m: nat)
    requires Distinct(all) && m <= |all|
    ensures Distinct(all[m..])
  {
  }

  lemma KeptLoses<T>(all: seq<T>, limit: nat, m: nat, i: nat)
    requires m <= i < |all| && m == (if |all| <= limit then 0 else |all| - limit)
    ensures EndOf(all[m..][..i - m] + all[m..][i - m + 1..], all[..i] + all[i + 1..], limit)
  {
    assert all[m..][..i - m] + all[m..][i - m + 1..] == (all[..i] + all[i + 1..])[m..];
  }

  lemma DroppedLoses<T>(all: seq<T>, limit: nat, m: nat, i: nat)
    requires i < m <= |all| && m == (if |all| <= limit then 0 else |all| - limit)
    ensures EndOf(all[m..], all[..i] + all[i + 1..], limit)
  {
    assert all[m..] == (all[..i] + all[i + 1..])[m - 1..];
  }

  /** The rest of what is kept is the end of the rest of everything. */
  lemma RoomForOne<K, V>(rest: seq<Item<K, V>>, keptRest: seq<Item<K, V>>, limit: nat, x: Item<K, V>)
    requires limit > 0 && EndOf(keptRest, rest, limit)
    ensures (if |keptRest| + 1 > limit then keptRest[1..] else keptRest) + [x] == LastOf(rest + [x], limit)
  {
  }

  /** Main result: after any run of puts with a fixed positive limit, the cache holds exactly
      the most recently put distinct keys, up to the limit, each with its latest value. */
  lemma {:induction false} PutsLeaveTheLatest<K, V>(limit: nat, puts: seq<Item<K, V>>)
    requires limit > 0
    ensures PutAll(limit, puts) == LastOf(Latest(puts), limit)
  {
    if puts != [] {
      var n := |puts| - 1;
      PutsLeaveTheLatest(limit, puts[..n]);
      LatestDistinct(puts[..n]);
      PutOnLast(Latest(puts[..n]), limit, puts[n]);
    }
  }

  predicate LastPut<K(==), V>(puts: seq<Item<K, V>>, i: nat)
    requires i < |puts|
  {
    forall j | i < j < |puts| :: puts[j].key != puts[i].key
  }

  lemma LatestStep<K, V>(puts: seq<Item<K, V>>, x: Item<K, V>)
    requires puts != []
    ensures var n := |puts| - 1;
            x in Latest(puts) <==> x == puts[n] || (x in Latest(puts[..n]) && x.key != puts[n].key)
  {
    WithoutMembers(Latest(puts[..|puts| - 1]), puts[|puts| - 1].key);
  }

  lemma LastPutBefore<K, V>(puts: seq<Item<K, V>>, i: nat)
    requires i < |puts| - 1
    ensures LastPut(puts, i) <==> LastPut(puts[..|puts| - 1], i) && puts[|puts| - 1].key != puts[i].key
  {
    assert forall j | i < j < |puts| - 1 :: puts[..|puts| - 1][j] == puts[j];
  }

  /** What the history looks like from the outside: a put is in it exactly when no later put
      has the same key. */
  lemma {:induction false} LatestMeans<K, V>(puts: seq<Item<K, V>>, x: Item<K, V>)
    ensures x in Latest(puts) <==> exists i :: 0 <= i < |puts| && puts[i] == x && LastPut(puts, i)
  {
    if puts != [] {
      hide Latest;
      var n := |puts| - 1;
      var h := puts[..n];
      LatestMeans(h, x);
      LatestStep(puts, x);
      assert puts[n] == x ==> LastPut(puts, n);
      forall i | 0 <= i < n && puts[i] == x ensures LastPut(puts, i) <==> LastPut(h, i) && puts[n].key != x.key {
        LastPutBefore(puts, i);
      }
      hide LastPut;
      if i :| 0 <= i < |puts| && puts[i] == x && LastPut(puts, i) {
        if i < n { assert h[i] == x && LastPut(h, i); }
      }
      if i :| 0 <= i < |h| && h[i] == x && LastPut(h, i) {
        assert puts[i] == x;
      }
    }
  }

  // ---------------------------------------------------------------- any history

  /** What changes a cache. A get changes nothing, or purges. */
  datatype Op<K, V> = Putting(item: Item<K, V>) | Removing(key: K) | Purging(now: U64)

  /** The cache itself, operation by operation. */
  function Held<K(==), V>(limit: nat, expireAfter: U64, ops: seq<Op<K, V>>): seq<Item<K, V>>
    requires limit > 0
  {
    if ops == [] then []
    else
      var n := |ops| - 1;
      var before := Held(limit, expireAfter, ops[..n]);
      match ops[n]
      case Putting(x) => Put(before, limit, x)
      case Removing(key) => Without(before, key)
      case Purging(now) => Purge(before, expireAfter, now)
  }

  /** What it would hold without a limit, and if whatever is old went at every purge. */
  function Live<K(==), V>(expireAfter: U64, ops: seq<Op<K, V>>): seq<Item<K, V>> {
    if ops == [] then []
    else
      var n := |ops| - 1;
      var before := Live(expireAfter, ops[..n]);
      match ops[n]
      case Putting(x) => Without(before, x.key) + [x]
      case Removing(key) => Without(before, key)
      case Purging(now) => Fresh(before, expireAfter, now)
  }

  /** The latest reading of the clock. */
  function ClockAfter<K, V>(ops: seq<Op<K, V>>): U64 {
    if ops == [] then 0
    else match ops[|ops| - 1]
      case Putting(x) => x.stamp
      case Removing(_) => ClockAfter(ops[..|ops| - 1])
      case Purging(now) => now
  }

  /** The clock never runs backwards. */
  ghost predicate Timely<K, V>(ops: seq<Op<K, V>>) {
    ops == [] || (Timely(ops[..|ops| - 1]) && ClockAfter(ops[..|ops| - 1]) <= ClockAfter(ops))
  }

  lemma {:induction false} FreshAppend<K, V>(a: seq<Item<K, V>>, b: seq<Item<K, V>>, expireAfter: U64, now: U64)
    ensures Fresh(a + b, expireAfter, now) == Fresh(a, expireAfter, now) + Fresh(b, expireAfter, now)
    ensures |Fresh(b, expireAfter, now)| <= |b|
  {
    if a == [] {
      assert a + b == b;
      if b != [] { FreshAppend([], b[1..], expireAfter, now); assert [] + b[1..] == b[1..]; }
    } else {
      FreshAppend(a[1..], b, expireAfter, now);
      assert (a + b)[1..] == a[1..] + b && (a + b)[0] == a[0];
    }
  }

  lemma {:induction false} WithoutInOrder<K, V>(es: seq<Item<K, V>>, key: K, clock: U64)
    requires InOrder(es, clock)
    ensures InOrder(Without(es, key), clock)
  {
    if es != [] {
      var t := Without(es[1..], key);
      WithoutInOrder(es[1..], key, clock);
      WithoutMembers(es[1..], key);
      if es[0].key != key {
        ConsInOrder(es, t, clock);
      }
    }
  }

  lemma {:induction false} FreshInOrder<K, V>(es: seq<Item<K, V>>, expireAfter: U64, now: U64, clock: U64)
    requires InOrder(es, clock)
    ensures InOrder(Fresh(es, expireAfter, now), clock)
  {
    if es != [] {
      FreshInOrder(es[1..], expireAfter, now, clock);
      FreshMembers(es[1..], expireAfter, now);
      if !Old(es[0].stamp, expireAfter, now) {
        ConsInOrder(es, Fresh(es[1..], expireAfter, now), clock);
      }
    }
  }

  lemma ConsInOrder<K, V>(es: seq<Item<K, V>>, t: seq<Item<K, V>>, clock: U64)
    requires es != [] && InOrder(es, clock) && InOrder(t, clock) && forall x | x in t :: x in es[1..]
    ensures InOrder([es[0]] + t, clock)
  {
    var c := [es[0]] + t;
    forall j | 0 < j < |c| ensures c[0].stamp <= c[j].stamp {
      assert c[j] in t;
      var k :| 0 <= k < |es[1..]| && es[1..][k] == c[j];
      assert es[k + 1] == c[j];
    }
    forall i, j | 0 <= i < j < |c| ensures c[i].stamp <= c[j].stamp {
      if i > 0 { assert c[i] == t[i - 1] && c[j] == t[j - 1]; }
    }
  }

  lemma {:induction false} LiveInOrder<K, V>(expireAfter: U64, ops: seq<Op<K, V>>)
    requires Timely(ops)
    ensures InOrder(Live(expireAfter, ops), ClockAfter(ops))
  {
    if ops != [] {
      var n := |ops| - 1;
      var before, clock := Live(expireAfter, ops[..n]), ClockAfter(ops[..n]);
      LiveInOrder(expireAfter, ops[..n]);
      match ops[n]
      case Putting(x) => WithoutInOrder(before, x.key, clock);
      case Removing(key) => WithoutInOrder(before, key, clock);
      case Purging(now) => FreshInOrder(before, expireAfter, now, clock);
    }
  }

  /** `q` is the end of `r`. */
  ghost predicate IsEnd<T>(q: seq<T>, r: seq<T>) {
    |q| <= |r| && q == r[|r| - |q|..]
  }

  lemma EndWithout<K, V>(q: seq<Item<K, V>>, r: seq<Item<K, V>>, key: K)
    requires IsEnd(q, r)
    ensures IsEnd(Without(q, key), Without(r, key))
  {
    var p := r[..|r| - |q|];
    assert r == p + q;
    WithoutAppend(p, q, key);
  }

  lemma EndOfEnd<T>(p: seq<T>, q: seq<T>, r: seq<T>)
    requires IsEnd(p, q) && IsEnd(q, r)
    ensures IsEnd(p, r)
  {
  }

  lemma {:induction false} PurgeIsEnd<K, V>(q: seq<Item<K, V>>, expireAfter: U64, now: U64)
    ensures IsEnd(Purge(q, expireAfter, now), q)
  {
    if q != [] && Expired(q[0].stamp, expireAfter, now) {
      PurgeIsEnd(q[1..], expireAfter, now);
    }
  }

  /** A purge removes all that is old, and the oldest of the rest if a sum wraps around. */
  lemma {:induction false} PurgeIsEndOfFresh<K, V>(q: seq<Item<K, V>>, expireAfter: U64, now: U64)
    requires InOrder(q, now)
    ensures IsEnd(Purge(q, expireAfter, now), Fresh(q, expireAfter, now))
  {
    if q != [] && Old(q[0].stamp, expireAfter, now) {
      PurgeIsEndOfFresh(q[1..], expireAfter, now);
    } else {
      FreshIsAll(q, expireAfter, now);
      PurgeIsEnd(q, expireAfter, now);
    }
  }

  lemma EndPurged<K, V>(q: seq<Item<K, V>>, r: seq<Item<K, V>>, expireAfter: U64, now: U64)
    requires IsEnd(q, r) && InOrder(r, now)
    ensures IsEnd(Purge(q, expireAfter, now), Fresh(r, expireAfter, now)) && |Purge(q, expireAfter, now)| <= |q|
  {
    var p := r[..|r| - |q|];
    assert r == p + q;
    FreshAppend(p, q, expireAfter, now);
    var f := Fresh(q, expireAfter, now);
    assert IsEnd(f, Fresh(p, expireAfter, now) + f);
    PurgeIsEndOfFresh(q, expireAfter, now);
    PurgeIsEnd(q, expireAfter, now);
    EndOfEnd(Purge(q, expireAfter, now), f, Fresh(r, expireAfter, now));
  }

  lemma PutOnEnd<K, V>(q: seq<Item<K, V>>, r: seq<Item<K, V>>, limit: nat, x: Item<K, V>)
    requires IsEnd(q, r) && |q| <= limit && limit > 0
    ensures IsEnd(Put(q, limit, x), Without(r, x.key) + [x]) && |Put(q, limit, x)| <= limit
    ensures q == r && |Without(r, x.key) + [x]| <= limit ==> Put(q, limit, x) == Without(r, x.key) + [x]
  {
    EndWithout(q, r, x.key);
    WithoutMembers(q, x.key);
    hide Without, IsEnd;
    var rest, all := Without(q, x.key), Without(r, x.key);
    var kept := if |rest| + 1 > limit then rest[1..] else rest;
    assert q == r ==> rest == all;
    EndShortened(rest, all, if |rest| + 1 > limit then 1 else 0);
    assert kept == rest[if |rest| + 1 > limit then 1 else 0..];
    EndAppended(kept, all, x);
  }

  lemma EndShortened<T>(q: seq<T>, r: seq<T>, n: nat)
    requires IsEnd(q, r) && n <= |q|
    ensures IsEnd(q[n..], r)
  {
  }

  lemma EndAppended<T>(q: seq<T>, r: seq<T>, x: T)
    requires IsEnd(q, r)
    ensures IsEnd(q + [x], r + [x])
  {
  }

  /** Main result on histories: whatever puts, removes, gets and purges come in whatever order,
      the cache holds the most recent of the live entries, never more than the limit. */
  lemma {:induction false} HistoryLeavesTheLatest<K, V>(limit: nat, expireAfter: U64, ops: seq<Op<K, V>>)
    requires limit > 0 && Timely(ops)
    ensures IsEnd(Held(limit, expireAfter, ops), Live(expireAfter, ops)) && |Held(limit, expireAfter, ops)| <= limit
  {
    if ops != [] {
      var n := |ops| - 1;
      var q, r := Held(limit, expireAfter, ops[..n]), Live(expireAfter, ops[..n]);
      HistoryLeavesTheLatest(limit, expireAfter, ops[..n]);
      hide IsEnd, Without, Fresh, Purge, Put;
      match ops[n]
      case Putting(x) => PutOnEnd(q, r, limit, x);
      case Removing(key) =>
        EndWithout(q, r, key);
        WithoutMembers(q, key);
      case Purging(now) =>
        LiveInOrder(expireAfter, ops[..n]);
        LaterClock(r, ClockAfter(ops[..n]), now);
        EndPurged(q, r, expireAfter, now);
    }
  }

  /** Does the operation drop a live entry? A put does if it exceeds the limit, a purge if a
      wrapped sum makes the oldest entry that is not old look expired. */
  predicate DropsLive<K(==), V>(limit: nat, expireAfter: U64, live: seq<Item<K, V>>, op: Op<K, V>) {
    match op
    case Putting(x) => |Without(live, x.key)| + 1 > limit
    case Removing(_) => false
    case Purging(now) => var kept := Fresh(live, expireAfter, now); kept != [] && Expired(kept[0].stamp, expireAfter, now)
  }

  /** Up to every point of the history the cache has held all live entries. */
  ghost predicate HeldAllAlong<K, V>(limit: nat, expireAfter: U64, ops: seq<Op<K, V>>)
    requires limit > 0
  {
    Held(limit, expireAfter, ops) == Live(expireAfter, ops)
    && (ops == [] || HeldAllAlong(limit, expireAfter, ops[..|ops| - 1]))
  }

  ghost predicate NeverDrops<K, V>(limit: nat, expireAfter: U64, ops: seq<Op<K, V>>) {
    ops == [] ||
    (&& NeverDrops(limit, expireAfter, ops[..|ops| - 1])
     && !DropsLive(limit, expireAfter, Live(expireAfter, ops[..|ops| - 1]), ops[|ops| - 1]))
  }

  lemma PutHoldsAllIff<K, V>(r: seq<Item<K, V>>, limit: nat, x: Item<K, V>)
    requires limit > 0
    ensures Put(r, limit, x) == Without(r, x.key) + [x] <==> |Without(r, x.key)| + 1 <= limit
  {
    var rest := Without(r, x.key);
    assert |rest| + 1 > limit ==> |Put(r, limit, x)| == |rest|;
  }

  /** All live entries are held throughout a history if and only if no put exceeds the limit
      and no purge meets a wrapped sum. */
  lemma {:induction false} HeldAllAlongIff<K, V>(limit: nat, expireAfter: U64, ops: seq<Op<K, V>>)
    requires limit > 0 && Timely(ops)
    ensures HeldAllAlong(limit, expireAfter, ops) <==> NeverDrops(limit, expireAfter, ops)
  {
    if ops != [] {
      var n := |ops| - 1;
      var r := Live(expireAfter, ops[..n]);
      HeldAllAlongIff(limit, expireAfter, ops[..n]);
      hide Without, Fresh, Purge, Put, InOrder;
      match ops[n]
      case Putting(x) => PutHoldsAllIff(r, limit, x);
      case Removing(key) =>
      case Purging(now) =>
        LiveInOrder(expireAfter, ops[..n]);
        LaterClock(r, ClockAfter(ops[..n]), now);
        PurgeRemovesExactlyTheOld(r, expireAfter, now);
    }
  }

  lemma LaterClock<K, V>(es: seq<Item<K, V>>, clock: U64, now: U64)
    requires InOrder(es, clock) && clock <= now
    ensures InOrder(es, now)
  {
  }

  /** Does the operation end the life of an entry that was put before? */
  predicate Ends<K(==), V>(op: Op<K, V>, x: Item<K, V>, expireAfter: U64) {
    match op
    case Putting(y) => y.key == x.key
    case Removing(key) => key == x.key
    case Purging(now) => Old(x.stamp, expireAfter, now)
  }

  predicate StillLive<K(==), V>(ops: seq<Op<K, V>>, i: nat, expireAfter: U64)
    requires i < |ops| && ops[i].Putting?
  {
    forall j | i < j < |ops| :: !Ends(ops[j], ops[i].item, expireAfter)
  }

  lemma {:induction false} FreshKeeps<K, V>(es: seq<Item<K, V>>, expireAfter: U64, now: U64, x: Item<K, V>)
    ensures x in Fresh(es, expireAfter, now) <==> x in es && !Old(x.stamp, expireAfter, now)
  {
    if es != [] {
      FreshKeeps(es[1..], expireAfter, now, x);
      assert x in es <==> x == es[0] || x in es[1..];
    }
  }

  lemma LiveStep<K, V>(expireAfter: U64, ops: seq<Op<K, V>>, x: Item<K, V>)
    requires ops != []
    ensures var n := |ops| - 1;
            x in Live(expireAfter, ops) <==>
              ops[n] == Putting(x) || (x in Live(expireAfter, ops[..n]) && !Ends(ops[n], x, expireAfter))
  {
    var n := |ops| - 1;
    var before := Live(expireAfter, ops[..n]);
    match ops[n]
    case Putting(y) => WithoutMembers(before, y.key);
    case Removing(key) => WithoutMembers(before, key);
    case Purging(now) => FreshKeeps(before, expireAfter, now, x);
  }

  lemma StillLiveBefore<K, V>(ops: seq<Op<K, V>>, i: nat, expireAfter: U64)
    requires i < |ops| - 1 && ops[i].Putting?
    ensures StillLive(ops, i, expireAfter)
       <==> StillLive(ops[..|ops| - 1], i, expireAfter) && !Ends(ops[|ops| - 1], ops[i].item, expireAfter)
  {
    hide Ends;
    assert forall j | i < j < |ops| - 1 :: ops[..|ops| - 1][j] == ops[j];
  }

  /** From the outside: an entry is live when it was put, and since then neither its key was
      put again or removed, nor was there a purge at which it was old. */
  lemma {:induction false} LiveMeans<K, V>(expireAfter: U64, ops: seq<Op<K, V>>, x: Item<K, V>)
    ensures x in Live(expireAfter, ops)
       <==> exists i :: 0 <= i < |ops| && ops[i] == Putting(x) && StillLive(ops, i, expireAfter)
  {
    if ops != [] {
      hide Live, Ends;
      var n := |ops| - 1;
      var h := ops[..n];
      LiveMeans(expireAfter, h, x);
      LiveStep(expireAfter, ops, x);
      assert ops[n] == Putting(x) ==> StillLive(ops, n, expireAfter);
      forall i | 0 <= i < n && ops[i] == Putting(x)
        ensures StillLive(ops, i, expireAfter) <==> StillLive(h, i, expireAfter) && !Ends(ops[n], x, expireAfter)
      {
        StillLiveBefore(ops, i, expireAfter);
      }
      hide StillLive;
      if i :| 0 <= i < |ops| && ops[i] == Putting(x) && StillLive(ops, i, expireAfter) {
        if i < n { assert h[i] == Putting(x) && StillLive(h, i, expireAfter); }
      }
      if i :| 0 <= i < |h| && h[i] == Putting(x) && StillLive(h, i, expireAfter) {
        assert ops[i] == Putting(x);
      }
    }
  }
}
