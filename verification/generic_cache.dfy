/** The cache (`genericCache`): a map from keys to stamped values and a queue of keys, oldest
    first, both updated in place. */
module GenericCaches {
  import opened VssTypes
  import opened CacheHistory

  /** Map and queue together stand for the entries `es`: the same keys, each once. */
  ghost predicate Agree<K, V>(data: map<K, (V, U64)>, q: seq<K>, es: seq<Item<K, V>>) {
    && |es| == |q| && Distinct(es)
    && (forall i | 0 <= i < |q| :: es[i].key == q[i] && q[i] in data && data[q[i]] == (es[i].value, es[i].stamp))
    && (forall k | k in data :: k in q)
  }

  lemma AgreeAfterRemoval<K, V>(data: map<K, (V, U64)>, q: seq<K>, es: seq<Item<K, V>>, i: nat)
    requires Agree(data, q, es) && i < |q|
    ensures Agree(data - {q[i]}, q[..i] + q[i + 1..], es[..i] + es[i + 1..])
  {
    var q', es' := q[..i] + q[i + 1..], es[..i] + es[i + 1..];
    assert forall j | 0 <= j < |q'| :: q'[j] == q[if j < i then j else j + 1] && es'[j] == es[if j < i then j else j + 1];
    forall k | k in data - {q[i]} ensures k in q' {
      var j :| 0 <= j < |q| && q[j] == k;
      assert q'[if j < i then j else j - 1] == k;
    }
  }

  lemma AgreeAfterAppend<K, V>(data: map<K, (V, U64)>, q: seq<K>, es: seq<Item<K, V>>, x: Item<K, V>)
    requires Agree(data, q, es) && x.key !in data
    ensures Agree(data[x.key := (x.value, x.stamp)], q + [x.key], es + [x])
  {
    assert forall j | 0 <= j < |q| :: q[j] != x.key;
    assert (q + [x.key])[|q|] == x.key;
  }

  lemma {:induction false} DistinctCount<K>(q: seq<K>)
    requires forall i, j | 0 <= i < j < |q| :: q[i] != q[j]
    ensures |set k | k in q| == |q|
  {
    if q != [] {
      DistinctCount(q[1..]);
      assert (set k | k in q) == {q[0]} + set k | k in q[1..];
    }
  }

  /** The queue is as long as the map is big. */
  lemma AgreeCounts<K, V>(data: map<K, (V, U64)>, q: seq<K>, es: seq<Item<K, V>>)
    requires Agree(data, q, es)
    ensures |data| == |q|
  {
    DistinctCount(q);
    assert data.Keys == set k | k in q;
    assert |data| == |data.Keys|;
  }

  /** The key is in the map exactly when the queue holds it, and then with its entry. */
  lemma AgreeLookUp<K, V>(data: map<K, (V, U64)>, q: seq<K>, es: seq<Item<K, V>>, key: K)
    requires Agree(data, q, es)
    ensures key in data <==> key in q
    ensures key in data ==> Item(key, data[key].0, data[key].1) in es
    ensures key !in data ==> Without(es, key) == es
  {
    if key in data {
      var i :| 0 <= i < |q| && q[i] == key;
      assert es[i] == Item(key, data[key].0, data[key].1);
    } else {
      WithoutAbsent(es, key);
    }
  }

  lemma OrderAfterRemoval<K, V>(es: seq<Item<K, V>>, i: nat, clock: U64)
    requires InOrder(es, clock) && i < |es|
    ensures InOrder(es[..i] + es[i + 1..], clock)
  {
    var w := es[..i] + es[i + 1..];
    assert forall j | 0 <= j < |w| :: w[j] == es[if j < i then j else j + 1];
  }

  class GenericCache<K(==), V> {
    var cacheData: map<K, (V, U64)>
    var rankQ: seq<K>
    var expireAfter: U64
    var cacheLimit: nat
    var clock: U64                     // the latest reading
    ghost var items: seq<Item<K, V>>   // what the cache holds, oldest first

    ghost predicate Valid()
      reads this
    {
      Agree(cacheData, rankQ, items) && InOrder(items, clock)
    }

    constructor (expireAfter: U64, cacheLimit: nat, clock: U64)
      ensures Valid() && items == [] && this.expireAfter == expireAfter && this.cacheLimit == cacheLimit
    {
      cacheData, rankQ, items := map[], [], [];
      this.expireAfter, this.cacheLimit, this.clock := expireAfter, cacheLimit, clock;
    }

    /** The clock never runs backwards. */
    method GetTimeStamp() returns (now: U64)
      requires Valid()
      modifies this`clock
      ensures Valid() && now == clock >= old(clock)
    {
      now := *;
      if now < clock {
        now := clock;
      }
      clock := now;
    }

    /** Take the `i`-th key out of the queue and out of the map. */
    method TakeOut(i: nat)
      requires Valid() && i < |rankQ|
      modifies this`cacheData, this`rankQ, this`items
      ensures Valid() && items == old(items)[..i] + old(items)[i + 1..]
      ensures rankQ == old(rankQ)[..i] + old(rankQ)[i + 1..] && cacheData == old(cacheData) - {old(rankQ)[i]}
    {
      AgreeAfterRemoval(cacheData, rankQ, items, i);
      OrderAfterRemoval(items, i, clock);
      cacheData := cacheData - {rankQ[i]};
      rankQ, items := rankQ[..i] + rankQ[i + 1..], items[..i] + items[i + 1..];
    }

    method RemoveDataUnlocked(key: K)
      requires Valid()
      modifies this`cacheData, this`rankQ, this`items
      ensures Valid() && items == Without(old(items), key) && key !in cacheData
    {
      AgreeLookUp(cacheData, rankQ, items, key);
      hide Without, InOrder;
      if key in cacheData {
        var i := 0;
        while rankQ[i] != key
          invariant 0 <= i < |rankQ| && exists j :: i <= j < |rankQ| && rankQ[j] == key
          decreases |rankQ| - i
        {
          i := i + 1;
        }
        WithoutOne(items, i);
        TakeOut(i);
      }
    }

    method RemoveData(key: K)
      requires Valid()
      modifies this`cacheData, this`rankQ, this`items
      ensures Valid() && items == Without(old(items), key)
    {
      RemoveDataUnlocked(key);
    }

    /** Take the oldest entry out. */
    method DropOldest()
      requires Valid() && rankQ != []
      modifies this`cacheData, this`rankQ, this`items
      ensures Valid() && old(items) != [] && items == old(items)[1..] && |rankQ| == |old(rankQ)| - 1
      ensures cacheData.Keys <= old(cacheData).Keys
    {
      TakeOut(0);
      assert old(items)[..0] + old(items)[1..] == old(items)[1..];
    }

    /** Read the clock, and see whether the oldest entry has expired. */
    method FrontExpired() returns (expired: bool)
      requires Valid() && rankQ != [] && expireAfter != NEVER
      modifies this`clock
      ensures Valid() && clock >= old(clock) && items != []
      ensures expired == Expired(items[0].stamp, expireAfter, clock)
    {
      var now := GetTimeStamp();
      FrontEntry(cacheData, rankQ, items);
      expired := (cacheData[rankQ[0]].1 + expireAfter) % 0x1_0000_0000_0000_0000 < now;
    }

    /** Look at the queue from its oldest end, reading the clock each time, and stop at the
        first entry that has not expired. */
    method RemoveExpiredDataUnlocked()
      requires Valid()
      modifies this`cacheData, this`rankQ, this`clock, this`items
      ensures Valid() && clock >= old(clock)
      ensures items == Purge(old(items), expireAfter, clock)
    {
      if expireAfter == NEVER {
        PurgeStops(items, expireAfter, clock);
        return;
      }
      hide Agree, InOrder, Purge, Expired;
      ghost var all, n := items, 0;
      while rankQ != []
        invariant Valid() && clock >= old(clock) && 0 <= n <= |all| && items == all[n..]
        invariant forall i | 0 <= i < n :: Expired(all[i].stamp, expireAfter, clock)
        decreases |rankQ|
      {
        ghost var before := clock;
        var expired := FrontExpired();
        StillExpired(all, n, expireAfter, before, clock);
        if !expired {
          PurgeSkips(all, n, expireAfter, clock);
          PurgeStops(items, expireAfter, clock);
          return;
        }
        DropOldest();
        n := n + 1;
      }
      NothingQueued(cacheData, rankQ, items);
      PurgeSkips(all, n, expireAfter, clock);
      PurgeStops(items, expireAfter, clock);
    }

    method RemoveExpiredData()
      requires Valid()
      modifies this`cacheData, this`rankQ, this`clock, this`items
      ensures Valid() && clock >= old(clock)
      ensures items == Purge(old(items), expireAfter, clock)
    {
      RemoveExpiredDataUnlocked();
    }

    /** The room for a new entry is made by dropping the oldest, so there must be one, or a
        positive limit: with the limit at 0 the queue of an empty cache has no front. */
    method PutData(key: K, value: V)
      requires Valid() && (cacheLimit > 0 || Without(items, key) != [])
      modifies this`cacheData, this`rankQ, this`clock, this`items
      ensures Valid() && clock >= old(clock)
      ensures items == Put(old(items), cacheLimit, Item(key, value, clock))
    {
      hide Without, InOrder, Agree;
      RemoveDataUnlocked(key);
      MakeRoom();
      var now := GetTimeStamp();
      Append(key, value, now);
    }

    method MakeRoom()
      requires Valid() && (cacheLimit > 0 || items != [])
      modifies this`cacheData, this`rankQ, this`items
      ensures Valid() && cacheData.Keys <= old(cacheData).Keys
      ensures items == if |old(items)| + 1 > cacheLimit then old(items)[1..] else old(items)
    {
      hide InOrder, Agree;
      AgreeCounts(cacheData, rankQ, items);
      NothingQueued(cacheData, rankQ, items);
      if |cacheData| + 1 > cacheLimit {
        DropOldest();
      }
    }

    method Append(key: K, value: V, now: U64)
      requires Valid() && key !in cacheData && now == clock
      modifies this`cacheData, this`rankQ, this`items
      ensures Valid() && items == old(items) + [Item(key, value, now)]
    {
      AgreeAfterAppend(cacheData, rankQ, items, Item(key, value, now));
      hide Agree;
      cacheData, rankQ, items := cacheData[key := (value, now)], rankQ + [key], items + [Item(key, value, now)];
    }

    /** The entry for the key, unless it has expired; one that has is purged, with whatever is
        older. If nothing is found the caller's `current` value is left as it is. */
    method GetData(key: K, current: V) returns (rv: bool, value: V)
      requires Valid()
      modifies this`cacheData, this`rankQ, this`clock, this`items
      ensures Valid() && clock >= old(clock) && (!rv ==> value == current)
      ensures rv ==> items == old(items) && exists x | x in items ::
                x.key == key && x.value == value && !Expired(x.stamp, expireAfter, clock)
      ensures !rv && (forall x | x in old(items) :: x.key != key) ==> items == old(items)
      ensures !rv && (exists x | x in old(items) :: x.key == key) ==> items == Purge(old(items), expireAfter, clock)
      ensures !rv ==> forall x | x in old(items) && x.key == key :: Expired(x.stamp, expireAfter, clock)
    {
      hide Agree, InOrder, Purge, Without, Distinct;
      rv, value := false, current;
      AgreeLookUp(cacheData, rankQ, items, key);
      if key in cacheData {
        ghost var x := Item(key, cacheData[key].0, cacheData[key].1);
        EntriesDistinct(cacheData, rankQ, items);
        OnlyEntry(items, x);
        assert x in items && x.key == key;
        if expireAfter == NEVER {
          return true, cacheData[key].0;
        }
        var now := GetTimeStamp();
        if (cacheData[key].1 + expireAfter) % 0x1_0000_0000_0000_0000 >= now {
          return true, cacheData[key].0;
        }
        RemoveExpiredDataUnlocked();
      } else {
        AbsentKey(cacheData, rankQ, items, key);
      }
    }
  }

  lemma EntriesDistinct<K, V>(data: map<K, (V, U64)>, q: seq<K>, es: seq<Item<K, V>>)
    requires Agree(data, q, es)
    ensures Distinct(es)
  {
  }

  lemma AbsentKey<K, V>(data: map<K, (V, U64)>, q: seq<K>, es: seq<Item<K, V>>, key: K)
    requires Agree(data, q, es) && key !in data
    ensures forall x | x in es :: x.key != key
  {
  }

  lemma OnlyEntry<K, V>(es: seq<Item<K, V>>, x: Item<K, V>)
    requires Distinct(es) && x in es
    ensures forall y | y in es && y.key == x.key :: y == x
  {
    var i :| 0 <= i < |es| && es[i] == x;
    forall y | y in es && y.key == x.key ensures y == x {
      var j :| 0 <= j < |es| && es[j] == y;
    }
  }

  lemma StillExpired<K, V>(es: seq<Item<K, V>>, n: nat, expireAfter: U64, before: U64, now: U64)
    requires n <= |es| && before <= now && forall i | 0 <= i < n :: Expired(es[i].stamp, expireAfter, before)
    ensures forall i | 0 <= i < n :: Expired(es[i].stamp, expireAfter, now)
  {
  }

  lemma FrontEntry<K, V>(data: map<K, (V, U64)>, q: seq<K>, es: seq<Item<K, V>>)
    requires Agree(data, q, es) && q != []
    ensures es != [] && q[0] in data && data[q[0]] == (es[0].value, es[0].stamp)
  {
  }

  lemma NothingQueued<K, V>(data: map<K, (V, U64)>, q: seq<K>, es: seq<Item<K, V>>)
    requires Agree(data, q, es)
    ensures |q| == |es|
  {
  }

  lemma PurgeStops<K, V>(es: seq<Item<K, V>>, expireAfter: U64, now: U64)
    requires es == [] || !Expired(es[0].stamp, expireAfter, now)
    ensures Purge(es, expireAfter, now) == es
  {
  }

  /** Purging a list whose first entries have expired is purging the rest. */
  lemma {:induction false} PurgeSkips<K, V>(es: seq<Item<K, V>>, n: nat, expireAfter: U64, now: U64)
    requires n <= |es| && forall i | 0 <= i < n :: Expired(es[i].stamp, expireAfter, now)
    ensures Purge(es, expireAfter, now) == Purge(es[n..], expireAfter, now)
  {
    if n == 0 {
      assert es[0..] == es;
    } else {
      PurgeSkips(es[1..], n - 1, expireAfter, now);
      assert es[1..][n - 1..] == es[n..];
    }
  }
}
