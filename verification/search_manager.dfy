/** The table of ongoing remote-file searches: a vector of entries that is scanned and updated
    in place, and the map it stands for. */
module SearchTables {
  import opened VssTypes

  type SearchId = U64

  const MAX_INSTANCES := 15

  datatype Instance = Instance(id: SearchId, closed: bool, joined: bool)

  /** How far the teardown of a listed search has come. */
  datatype Mark = Open | Closing | Joined

  type Marks = map<SearchId, Mark>

  function MarkOf(x: Instance): Mark {
    if !x.closed then Open else if !x.joined then Closing else Joined
  }

  /** Step 1 under the lock; `accepted` is the search's own answer to the request. */
  function Close(m: Marks, id: SearchId, accepted: bool): (Marks, bool) {
    if id in m && m[id].Open? && accepted then (m[id := Closing], true) else (m, false)
  }

  /** Step 2 under the lock: the right to join, given out once. */
  function Join(m: Marks, id: SearchId): (Marks, bool) {
    if id in m && m[id].Closing? then (m[id := Joined], true) else (m, false)
  }

  /** Step 3: the entry goes, if it is closed and joined. */
  function Remove(m: Marks, id: SearchId): (Marks, bool) {
    if id in m && m[id].Joined? then (m - {id}, true) else (m, false)
  }

  predicate Usable(m: Marks, id: SearchId) {
    id in m && m[id].Open?
  }

  ghost predicate DistinctIds(list: seq<Instance>) {
    forall i, j | 0 <= i < j < |list| :: list[i].id != list[j].id
  }

  ghost predicate HasId(list: seq<Instance>, id: SearchId) {
    exists i :: 0 <= i < |list| && list[i].id == id
  }

  ghost predicate Marked(list: seq<Instance>, m: Marks) {
    forall i | 0 <= i < |list| :: list[i].id in m && m[list[i].id] == MarkOf(list[i])
  }

  ghost predicate Covers(list: seq<Instance>, m: Marks) {
    forall id | id in m :: HasId(list, id)
  }

  /** `m` is what `list` stands for. */
  ghost predicate Stands(list: seq<Instance>, m: Marks) {
    DistinctIds(list) && |m| == |list| && Marked(list, m) && Covers(list, m)
  }

  /** In the list: a search can be used while it is not closed, and then be closed if it accepts;
      the right to join is given when it is closed and not yet joined, and it can be destroyed
      when it is both. Of an id that is not listed, nothing is granted. */
  lemma ListAnswers(list: seq<Instance>, m: Marks, id: SearchId, accepted: bool)
    requires Stands(list, m)
    ensures Usable(m, id) <==> exists i :: 0 <= i < |list| && list[i].id == id && !list[i].closed
    ensures Close(m, id, accepted).1 <==> accepted && exists i :: 0 <= i < |list| && list[i].id == id && !list[i].closed
    ensures Join(m, id).1 <==> exists i :: 0 <= i < |list| && list[i].id == id && list[i].closed && !list[i].joined
    ensures Remove(m, id).1 <==> exists i :: 0 <= i < |list| && list[i].id == id && list[i].closed && list[i].joined
  {
    if id in m {
      var i :| 0 <= i < |list| && list[i].id == id;
      assert m[id] == MarkOf(list[i]);
    }
  }

  lemma StandsAfterUpdate(list: seq<Instance>, m: Marks, i: nat, x: Instance)
    requires Stands(list, m) && i < |list| && x.id == list[i].id
    ensures Stands(list[i := x], m[x.id := MarkOf(x)])
  {
    UpdateCovers(list, m, i, x);
    UpdateMarked(list, m, i, x);
    hide Covers, HasId, Marked, MarkOf;
    var u := m[x.id := MarkOf(x)];
    assert list[i].id in m by { MarkedIds(list, m, i); }
    assert u.Keys == m.Keys && |u.Keys| == |u| && |m.Keys| == |m|;
  }

  lemma MarkedIds(list: seq<Instance>, m: Marks, i: nat)
    requires Marked(list, m) && i < |list|
    ensures list[i].id in m
  {
  }

  lemma UpdateMarked(list: seq<Instance>, m: Marks, i: nat, x: Instance)
    requires DistinctIds(list) && Marked(list, m) && i < |list| && x.id == list[i].id
    ensures DistinctIds(list[i := x]) && Marked(list[i := x], m[x.id := MarkOf(x)])
  {
    hide MarkOf;
  }

  lemma UpdateCovers(list: seq<Instance>, m: Marks, i: nat, x: Instance)
    requires Covers(list, m) && i < |list| && x.id == list[i].id
    ensures Covers(list[i := x], m[x.id := MarkOf(x)])
  {
    hide MarkOf;
    var l, u := list[i := x], m[x.id := MarkOf(x)];
    assert l[i].id == x.id;
    forall id | id in u && id != x.id ensures HasId(l, id) {
      var j :| 0 <= j < |list| && list[j].id == id;
      assert l[j].id == id;
    }
  }

  lemma StandsAfterAppend(list: seq<Instance>, m: Marks, x: Instance)
    requires Stands(list, m) && x.id !in m
    ensures Stands(list + [x], m[x.id := MarkOf(x)])
  {
    var l, u := list + [x], m[x.id := MarkOf(x)];
    assert l[|list|].id == x.id && HasId(l, x.id);
    assert Covers(l, u) by {
      forall id | id in u && id != x.id ensures HasId(l, id) {
        var j :| 0 <= j < |list| && list[j].id == id;
        assert l[j].id == id;
      }
    }
  }

  lemma StandsAfterRemoval(list: seq<Instance>, m: Marks, i: nat)
    requires Stands(list, m) && i < |list|
    ensures Stands(list[..i] + list[i + 1..], m - {list[i].id})
  {
    RemovalShifts(list, i);
    RemovalMarked(list, m, i);
    RemovalCovers(list, m, i);
    hide Covers, Marked, DistinctIds;
    var u := m - {list[i].id};
    assert u.Keys == m.Keys - {list[i].id} && |u.Keys| == |u| && |m.Keys| == |m|;
  }

  lemma RemovalMarked(list: seq<Instance>, m: Marks, i: nat)
    requires DistinctIds(list) && Marked(list, m) && i < |list|
    ensures Marked(list[..i] + list[i + 1..], m - {list[i].id}) && list[i].id in m
  {
    hide MarkOf;
    RemovalShifts(list, i);
  }

  lemma RemovalCovers(list: seq<Instance>, m: Marks, i: nat)
    requires Covers(list, m) && i < |list|
    ensures Covers(list[..i] + list[i + 1..], m - {list[i].id})
  {
    hide MarkOf;
    var l, u := list[..i] + list[i + 1..], m - {list[i].id};
    forall id | id in u ensures HasId(l, id) {
      var j :| 0 <= j < |list| && list[j].id == id;
      assert l[if j < i then j else j - 1].id == id;
    }
  }

  lemma RemovalShifts(list: seq<Instance>, i: nat)
    requires DistinctIds(list) && i < |list|
    ensures var l := list[..i] + list[i + 1..];
            && (forall j | 0 <= j < |l| :: l[j] == (if j < i then list[j] else list[j + 1]) && l[j].id != list[i].id)
            && DistinctIds(l)
  {
  }

  /** The vector of instances and the last id given out. Each method is one section that
      runs under the mutex. */
  class SearchTable {
    var lastSearchQueueId: SearchId
    var instances: seq<Instance>
    ghost var marks: Marks

    ghost predicate Valid()
      reads this
    {
      && Stands(instances, marks) && |instances| <= MAX_INSTANCES
      && (forall i | 0 <= i < |instances| :: instances[i].joined ==> instances[i].closed)
      && (forall id | id in marks :: id <= lastSearchQueueId)
    }

    constructor (start: SearchId)
      ensures Valid() && marks == map[] && lastSearchQueueId == start
    {
      lastSearchQueueId, instances, marks := start, [], map[];
    }

    /** `converts` tells whether the path to search could be converted, `created` whether the
        search itself could be created; then the id is used up anyway. */
    method Add(converts: bool, created: bool) returns (added: bool, id: SearchId)
      requires Valid() && lastSearchQueueId < 0xffff_ffff_ffff_ffff
      modifies this
      ensures Valid() && added == (|old(instances)| < MAX_INSTANCES && converts && created)
      ensures lastSearchQueueId == if |old(instances)| < MAX_INSTANCES && converts then old(lastSearchQueueId) + 1 else old(lastSearchQueueId)
      ensures if added then marks == old(marks)[id := Open] && id == lastSearchQueueId && id !in old(marks)
              else marks == old(marks) && id == 0
    {
      added, id := false, 0;
      if |instances| < MAX_INSTANCES && converts {
        lastSearchQueueId := lastSearchQueueId + 1;
        if created {
          added, id := true, lastSearchQueueId;
          StandsAfterAppend(instances, marks, Instance(id, false, false));
          instances, marks := instances + [Instance(id, false, false)], marks[id := Open];
        }
      }
    }

    method RequestClose(id: SearchId, accepted: bool) returns (ok: bool)
      requires Valid()
      modifies this`instances, this`marks
      ensures Valid() && (marks, ok) == Close(old(marks), id, accepted)
    {
      for i := 0 to |instances|
        invariant instances == old(instances) && marks == old(marks)
        invariant forall j | 0 <= j < i :: instances[j].id != id
      {
        if instances[i].id == id {
          if !instances[i].closed && accepted {
            var x := Instance(id, true, instances[i].joined);
            StandsAfterUpdate(instances, marks, i, x);
            instances, marks := instances[i := x], marks[id := MarkOf(x)];
            return true;
          }
          return false;
        }
      }
      ok := false;
    }

    method BeginJoin(id: SearchId) returns (ok: bool)
      requires Valid()
      modifies this`instances, this`marks
      ensures Valid() && (marks, ok) == Join(old(marks), id)
    {
      for i := 0 to |instances|
        invariant instances == old(instances) && marks == old(marks)
        invariant forall j | 0 <= j < i :: instances[j].id != id
      {
        if instances[i].id == id {
          if !instances[i].joined && instances[i].closed {
            var x := Instance(id, true, true);
            StandsAfterUpdate(instances, marks, i, x);
            instances, marks := instances[i := x], marks[id := MarkOf(x)];
            return true;
          }
          return false;
        }
      }
      ok := false;
    }

    /** The scan passes over entries that are not closed and joined; with distinct ids that
        makes no difference. */
    method Destroy(id: SearchId) returns (ok: bool)
      requires Valid()
      modifies this`instances, this`marks
      ensures Valid() && (marks, ok) == Remove(old(marks), id)
    {
      for i := 0 to |instances|
        invariant instances == old(instances) && marks == old(marks)
        invariant forall j | 0 <= j < i :: !(instances[j].id == id && instances[j].closed && instances[j].joined)
      {
        if instances[i].id == id && instances[i].closed && instances[i].joined {
          TakeOut(i);
          return true;
        }
      }
      ok := false;
    }

    method TakeOut(i: nat)
      requires Valid() && i < |instances|
      modifies this`instances, this`marks
      ensures Valid() && marks == old(marks) - {old(instances)[i].id}
    {
      StandsAfterRemoval(instances, marks, i);
      marks := marks - {instances[i].id};
      instances := instances[..i] + instances[i + 1..];
    }

    method LookUp(id: SearchId) returns (ok: bool)
      requires Valid()
      ensures ok == Usable(marks, id)
    {
      for i := 0 to |instances|
        invariant forall j | 0 <= j < i :: !(instances[j].id == id && !instances[j].closed && !instances[j].joined)
      {
        if instances[i].id == id && !instances[i].closed && !instances[i].joined {
          return true;
        }
      }
      ok := false;
    }

    /** One scan of the reaper: the first idle search that is not being closed already and
        accepts the request is taken out. `idle` and `accepts` are the clock's and the
        searches' answers. */
    method TakeIdle(idle: set<SearchId>, accepts: set<SearchId>) returns (taken: bool, id: SearchId)
      requires Valid()
      modifies this`instances, this`marks
      ensures Valid()
      ensures taken ==> id in idle && id in accepts && Usable(old(marks), id) && marks == old(marks) - {id}
      ensures !taken ==> marks == old(marks) && forall x | x in idle && x in accepts :: !Usable(marks, x)
    {
      for i := 0 to |instances|
        invariant instances == old(instances) && marks == old(marks)
        invariant forall j | 0 <= j < i ::
          instances[j].closed || instances[j].id !in idle || instances[j].id !in accepts
      {
        if instances[i].id in idle && !instances[i].closed && instances[i].id in accepts {
          id := instances[i].id;
          TakeOut(i);
          return true, id;
        }
      }
      return false, 0;
    }
  }
}

/** Clients tearing searches down in three steps, in competition with each other and with the
    reaper of idle searches. A step is one section under the mutex, or one call on a search
    object made without it. */
module SearchTeardown {
  import opened VssTypes
  import opened SearchTables

  type ClientId = nat

  /** A search object: what was done to it, and how often. A call on a destroyed search is
      a misuse. */
  datatype Search = Search(closes: nat, joins: nat, joinsReturned: nat, destroys: nat, misuses: nat)
  {
    function Used(): Search { if destroys > 0 then this.(misuses := misuses + 1) else this }
  }

  /** A client between the steps of a teardown; it stops at the first error. */
  datatype Phase = MayJoin(id: SearchId) | InJoin(id: SearchId) | MayDestroy(id: SearchId)

  /** The reaper between taking a search out of the table and destroying it. */
  datatype Reaper = Scanning | Took(id: SearchId) | Waits(id: SearchId) | Reaped(id: SearchId)

  datatype State = State(
    last: SearchId, marks: Marks, searches: map<SearchId, Search>, clients: map<ClientId, Phase>, reaper: Reaper)

  datatype Event =
    | Add(converts: bool, created: bool)
    | GetResults(id: SearchId)
    | ClientCloses(client: ClientId, id: SearchId, accepted: bool)
    | ClientJoins(client: ClientId)
    | ClientJoined(client: ClientId, ok: bool)
    | ClientDestroys(client: ClientId)
    | ClientStops(client: ClientId)
    | ReaperTakes(id: SearchId)
    | ReaperJoins
    | ReaperJoined
    | ReaperDestroys

  predicate Enabled(s: State, e: Event) {
    match e
    case Add(_, _) => s.last < 0xffff_ffff_ffff_ffff
    case GetResults(_) => true
    case ClientCloses(client, _, _) => client !in s.clients
    case ClientJoins(client) => client in s.clients && s.clients[client].MayJoin?
    case ClientJoined(client, _) => client in s.clients && s.clients[client].InJoin?
    case ClientDestroys(client) => client in s.clients && s.clients[client].MayDestroy?
    case ClientStops(client) => client in s.clients && !s.clients[client].InJoin?
    case ReaperTakes(id) => s.reaper.Scanning? && Usable(s.marks, id)
    case ReaperJoins => s.reaper.Took?
    case ReaperJoined => s.reaper.Waits?
    case ReaperDestroys => s.reaper.Reaped?
  }

  /** Every id the table, the clients or the reaper hold was given to a search. */
  predicate Known(s: State) {
    && (forall id | id in s.marks :: id in s.searches)
    && (forall c | c in s.clients :: s.clients[c].id in s.searches)
    && (!s.reaper.Scanning? ==> s.reaper.id in s.searches)
  }

  function SetSearch(s: State, id: SearchId, f: Search): State { s.(searches := s.searches[id := f]) }

  function SetClient(s: State, client: ClientId, p: Phase): State { s.(clients := s.clients[client := p]) }

  function Stop(s: State, client: ClientId): State { s.(clients := s.clients - {client}) }

  function DoAdd(s: State, converts: bool, created: bool): State
    requires s.last < 0xffff_ffff_ffff_ffff
  {
    if |s.marks| >= MAX_INSTANCES || !converts then s
    else
      var s' := s.(last := s.last + 1);
      if !created then s'
      else SetSearch(s'.(marks := s.marks[s'.last := Open]), s'.last, Search(0, 0, 0, 0, 0))
  }

  function DoClientCloses(s: State, client: ClientId, id: SearchId, accepted: bool): State
    requires Known(s)
  {
    var (marks, ok) := Close(s.marks, id, accepted);
    if !ok then s
    else
      var f := s.searches[id].Used();
      SetClient(SetSearch(s.(marks := marks), id, f.(closes := f.closes + 1)), client, MayJoin(id))
  }

  function DoClientJoins(s: State, client: ClientId): State
    requires Known(s) && client in s.clients
  {
    var id := s.clients[client].id;
    var (marks, ok) := Join(s.marks, id);
    if !ok then Stop(s, client)
    else
      var f := s.searches[id].Used();
      SetClient(SetSearch(s.(marks := marks), id, f.(joins := f.joins + 1)), client, InJoin(id))
  }

  function DoClientJoined(s: State, client: ClientId, ok: bool): State
    requires Known(s) && client in s.clients
  {
    var id := s.clients[client].id;
    var s' := SetSearch(s, id, s.searches[id].(joinsReturned := s.searches[id].joinsReturned + 1));
    if ok then SetClient(s', client, MayDestroy(id)) else Stop(s', client)
  }

  function DoClientDestroys(s: State, client: ClientId): State
    requires Known(s) && client in s.clients
  {
    var id := s.clients[client].id;
    var (marks, ok) := Remove(s.marks, id);
    if !ok then Stop(s, client)
    else
      var f := s.searches[id].Used();
      Stop(SetSearch(s.(marks := marks), id, f.(destroys := f.destroys + 1)), client)
  }

  /** The reaper asks the search to close, and takes it out of the table for itself; then,
      without the lock, it joins and destroys it whether or not the join succeeded. */
  function DoReaper(s: State, e: Event): State
    requires Known(s) && Enabled(s, e) && (e.ReaperTakes? || e.ReaperJoins? || e.ReaperJoined? || e.ReaperDestroys?)
  {
    var id := if e.ReaperTakes? then e.id else s.reaper.id;
    var f := s.searches[id].Used();
    if e.ReaperTakes? then SetSearch(s.(marks := s.marks - {id}, reaper := Took(id)), id, f.(closes := f.closes + 1))
    else if e.ReaperJoins? then SetSearch(s.(reaper := Waits(id)), id, f.(joins := f.joins + 1))
    else if e.ReaperJoined? then
      SetSearch(s.(reaper := Reaped(id)), id, s.searches[id].(joinsReturned := s.searches[id].joinsReturned + 1))
    else SetSearch(s.(reaper := Scanning), id, f.(destroys := f.destroys + 1))
  }

  function Next(s: State, e: Event): State
    requires Enabled(s, e) && Known(s)
  {
    match e
    case Add(converts, created) => DoAdd(s, converts, created)
    case GetResults(id) => if Usable(s.marks, id) then SetSearch(s, id, s.searches[id].Used()) else s
    case ClientCloses(client, id, accepted) => DoClientCloses(s, client, id, accepted)
    case ClientJoins(client) => DoClientJoins(s, client)
    case ClientJoined(client, ok) => DoClientJoined(s, client, ok)
    case ClientDestroys(client) => DoClientDestroys(s, client)
    case ClientStops(client) => Stop(s, client)
    case ReaperTakes(_) => DoReaper(s, e)
    case ReaperJoins => DoReaper(s, e)
    case ReaperJoined => DoReaper(s, e)
    case ReaperDestroys => DoReaper(s, e)
  }

  // ---------------------------------------------------------------- the invariant

  predicate TakenBy(r: Reaper, id: SearchId) {
    !r.Scanning? && r.id == id
  }

  /** What was done to a search is exactly what its entry, or the reaper, says; a search that
      is in neither place was closed, joined and destroyed once each, in that order. */
  ghost predicate Proper(s: State, id: SearchId)
    requires id in s.searches
  {
    var f := s.searches[id];
    if id in s.marks then
      && !TakenBy(s.reaper, id)
      && (match s.marks[id]
          case Open => f == Search(0, 0, 0, 0, 0)
          case Closing => f == Search(1, 0, 0, 0, 0)
          case Joined => f == Search(1, 1, 0, 0, 0) || f == Search(1, 1, 1, 0, 0))
    else if TakenBy(s.reaper, id) then
      f == (if s.reaper.Took? then Search(1, 0, 0, 0, 0) else if s.reaper.Waits? then Search(1, 1, 0, 0, 0) else Search(1, 1, 1, 0, 0))
    else f == Search(1, 1, 1, 1, 0)
  }

  /** The search a client is working on is where the client thinks it is. */
  predicate InStep(s: State, p: Phase) {
    && p.id in s.marks && p.id in s.searches
    && (match p
        case MayJoin(id) => s.marks[id] == Closing
        case InJoin(id) => s.marks[id] == Joined && s.searches[id].joinsReturned == 0
        case MayDestroy(id) => s.marks[id] == Joined && s.searches[id].joinsReturned == 1)
  }

  ghost predicate Inv(s: State) {
    && Known(s) && |s.marks| <= MAX_INSTANCES
    && (forall id | id in s.searches :: id <= s.last && Proper(s, id))
    && (forall c | c in s.clients :: InStep(s, s.clients[c]))
    && (forall c, d | c in s.clients && d in s.clients && s.clients[c].id == s.clients[d].id :: c == d)
  }

  lemma AddKeepsInv(s: State, converts: bool, created: bool)
    requires Inv(s) && s.last < 0xffff_ffff_ffff_ffff
    ensures Inv(DoAdd(s, converts, created))
  {
    if |s.marks| < MAX_INSTANCES {
      var s1 := s.(last := s.last + 1);
      assert s1.last !in s.searches && s1.last !in s.marks;
      LaterIdsChangeNothing(s, s1);
      if created {
        NewSearchKeepsInv(s1, s1.last);
      }
    }
  }

  lemma LaterIdsChangeNothing(s: State, s1: State)
    requires Inv(s) && s1.last >= s.last && s1 == s.(last := s1.last)
    ensures Inv(s1)
  {
    forall id | id in s.searches ensures id <= s1.last && Proper(s1, id) {
      assert Proper(s, id);
    }
    forall c | c in s.clients ensures InStep(s1, s1.clients[c]) {
      assert InStep(s, s.clients[c]);
    }
  }

  lemma NewSearchKeepsInv(s: State, id: SearchId)
    requires Inv(s) && id !in s.searches && id !in s.marks && id <= s.last && |s.marks| < MAX_INSTANCES
    ensures Inv(SetSearch(s.(marks := s.marks[id := Open]), id, Search(0, 0, 0, 0, 0)))
  {
    var t := SetSearch(s.(marks := s.marks[id := Open]), id, Search(0, 0, 0, 0, 0));
    forall x | x in t.searches ensures x <= t.last && Proper(t, x) {
      assert x != id ==> Proper(s, x);
    }
    forall c | c in t.clients ensures InStep(t, t.clients[c]) {
      assert InStep(s, s.clients[c]);
    }
  }

  /** Nobody but `client` works on the search `id`. */
  ghost predicate OnlyOwner(s: State, client: ClientId, id: SearchId) {
    forall c | c in s.clients && c != client :: s.clients[c].id != id
  }

  /** What a step of one client on one search leaves alone, seen from outside. */
  predicate OnlyTouches(s: State, t: State, id: SearchId) {
    && t.reaper == s.reaper && t.last == s.last && t.searches.Keys == s.searches.Keys && id in t.searches
    && (forall x | x in t.marks && x != id :: x in s.marks && t.marks[x] == s.marks[x])
    && (forall x | x in s.marks && x != id :: x in t.marks)
    && (forall x | x in s.searches && x != id :: t.searches[x] == s.searches[x])
    && |t.marks| <= |s.marks|
  }

  lemma SearchesStayProper(s: State, t: State, id: SearchId)
    requires Inv(s) && OnlyTouches(s, t, id) && Proper(t, id)
    ensures forall x | x in t.searches :: x <= t.last && Proper(t, x)
    ensures forall c | c in s.clients && s.clients[c].id != id :: InStep(t, s.clients[c])
    ensures (forall x | x in t.marks :: x in t.searches) && (!t.reaper.Scanning? ==> t.reaper.id in t.searches)
    ensures |t.marks| <= |s.marks| && t.searches.Keys == s.searches.Keys
  {
    forall x | x in t.searches && x != id ensures Proper(t, x) {
      assert Proper(s, x);
    }
    forall c | c in s.clients && s.clients[c].id != id ensures InStep(t, s.clients[c]) {
      assert InStep(s, s.clients[c]);
    }
  }

  /** The client leaves. */
  lemma OwnerLeaves(s: State, t: State, client: ClientId, id: SearchId)
    requires Inv(s) && OnlyTouches(s, t, id) && Proper(t, id) && OnlyOwner(s, client, id)
    requires t.clients == s.clients - {client}
    ensures Inv(t)
  {
    SearchesStayProper(s, t, id);
    hide Proper, InStep, OnlyTouches;
  }

  /** The client goes on. */
  lemma OwnerGoesOn(s: State, t: State, client: ClientId, p: Phase)
    requires Inv(s) && OnlyTouches(s, t, p.id) && Proper(t, p.id) && OnlyOwner(s, client, p.id)
    requires t.clients == s.clients[client := p] && InStep(t, p)
    ensures Inv(t)
  {
    SearchesStayProper(s, t, p.id);
    hide Proper, InStep, OnlyTouches;
  }

  lemma ClosesKeepsInv(s: State, client: ClientId, id: SearchId, accepted: bool)
    requires Inv(s) && client !in s.clients
    ensures Inv(DoClientCloses(s, client, id, accepted))
  {
    var s' := DoClientCloses(s, client, id, accepted);
    if Close(s.marks, id, accepted).1 {
      assert Proper(s, id);
      NobodyOwnsOpen(s, id);
      hide Inv;
      assert |s'.marks.Keys| == |s'.marks| && s'.marks.Keys == s.marks.Keys;
      OwnerGoesOn(s, s', client, MayJoin(id));
    }
  }

  lemma NobodyOwnsOpen(s: State, id: SearchId)
    requires Inv(s) && id in s.marks && s.marks[id].Open?
    ensures forall c | c in s.clients :: s.clients[c].id != id
  {
    forall c | c in s.clients ensures s.clients[c].id != id {
      assert InStep(s, s.clients[c]);
    }
  }

  lemma JoinsKeepsInv(s: State, client: ClientId)
    requires Inv(s) && client in s.clients && s.clients[client].MayJoin?
    ensures Inv(DoClientJoins(s, client))
  {
    var s', id := DoClientJoins(s, client), s.clients[client].id;
    assert InStep(s, s.clients[client]) && Proper(s, id) && OnlyOwner(s, client, id);
    hide Inv;
    assert |s'.marks.Keys| == |s'.marks| && s'.marks.Keys == s.marks.Keys;
    OwnerGoesOn(s, s', client, InJoin(id));
  }

  lemma JoinedKeepsInv(s: State, client: ClientId, ok: bool)
    requires Inv(s) && client in s.clients && s.clients[client].InJoin?
    ensures Inv(DoClientJoined(s, client, ok))
  {
    var s', id := DoClientJoined(s, client, ok), s.clients[client].id;
    assert InStep(s, s.clients[client]) && Proper(s, id) && OnlyOwner(s, client, id);
    hide Inv;
    if ok {
      OwnerGoesOn(s, s', client, MayDestroy(id));
    } else {
      OwnerLeaves(s, s', client, id);
    }
  }

  lemma DestroysKeepsInv(s: State, client: ClientId)
    requires Inv(s) && client in s.clients && s.clients[client].MayDestroy?
    ensures Inv(DoClientDestroys(s, client))
  {
    var s', id := DoClientDestroys(s, client), s.clients[client].id;
    assert InStep(s, s.clients[client]) && Proper(s, id) && OnlyOwner(s, client, id);
    hide Inv;
    assert |(s.marks - {id}).Keys| == |s.marks - {id}| && (s.marks - {id}).Keys == s.marks.Keys - {id};
    OwnerLeaves(s, s', client, id);
  }

  lemma TakesKeepsInv(s: State, id: SearchId)
    requires Inv(s) && s.reaper.Scanning? && Usable(s.marks, id)
    ensures Inv(DoReaper(s, ReaperTakes(id)))
  {
  }

  lemma ReaperKeepsInv(s: State, e: Event)
    requires Inv(s) && Enabled(s, e) && (e.ReaperJoins? || e.ReaperJoined? || e.ReaperDestroys?)
    ensures Inv(DoReaper(s, e))
  {
    assert Proper(s, s.reaper.id);
    OthersOutliveTheReaper(s, DoReaper(s, e), s.reaper.id);
    ReapedIsProper(s, e);
    hide Proper, InStep;
  }

  lemma ReapedIsProper(s: State, e: Event)
    requires Known(s) && Enabled(s, e) && (e.ReaperJoins? || e.ReaperJoined? || e.ReaperDestroys?) && Proper(s, s.reaper.id)
    requires s.reaper.id !in s.marks
    ensures Proper(DoReaper(s, e), s.reaper.id)
  {
  }

  /** The search in the reaper's hands is nobody else's. */
  lemma OthersOutliveTheReaper(s: State, t: State, id: SearchId)
    requires Inv(s) && TakenBy(s.reaper, id) && (t.reaper.Scanning? || t.reaper.id == id)
    requires t.marks == s.marks && t.clients == s.clients && t.searches.Keys == s.searches.Keys
    requires forall x | x != id && x in s.searches :: t.searches[x] == s.searches[x]
    ensures id !in s.marks
    ensures forall x | x in t.searches && x != id :: Proper(t, x)
    ensures forall c | c in t.clients :: InStep(t, t.clients[c])
  {
    assert Proper(s, id);
    forall x | x in t.searches && x != id ensures Proper(t, x) {
      assert Proper(s, x);
    }
    forall c | c in t.clients ensures InStep(t, t.clients[c]) {
      assert InStep(s, s.clients[c]);
    }
  }

  lemma UseKeepsInv(s: State, id: SearchId)
    requires Inv(s) && Usable(s.marks, id)
    ensures Inv(SetSearch(s, id, s.searches[id].Used()))
  {
    assert Proper(s, id);
    assert SetSearch(s, id, s.searches[id].Used()) == s by {
      assert s.searches[id := s.searches[id]] == s.searches;
    }
  }

  lemma StopKeepsInv(s: State, client: ClientId)
    requires Inv(s) && client in s.clients
    ensures Inv(Stop(s, client))
  {
    var t := Stop(s, client);
    forall id | id in t.searches ensures id <= t.last && Proper(t, id) {
      assert Proper(s, id);
    }
  }

  lemma StepKeepsInv(s: State, e: Event)
    requires Inv(s) && Enabled(s, e)
    ensures Inv(Next(s, e))
  {
    hide Inv, DoAdd, DoClientCloses, DoClientJoins, DoClientJoined, DoClientDestroys, DoReaper, Stop, Known;
    assert Known(s) by { InvKnows(s); }
    match e
    case Add(converts, created) => AddKeepsInv(s, converts, created);
    case GetResults(id) => if Usable(s.marks, id) { UseKeepsInv(s, id); }
    case ClientCloses(client, id, accepted) => ClosesKeepsInv(s, client, id, accepted);
    case ClientJoins(client) => JoinsKeepsInv(s, client);
    case ClientJoined(client, ok) => JoinedKeepsInv(s, client, ok);
    case ClientDestroys(client) => DestroysKeepsInv(s, client);
    case ClientStops(client) => StopKeepsInv(s, client);
    case ReaperTakes(id) => TakesKeepsInv(s, id);
    case ReaperJoins => ReaperKeepsInv(s, e);
    case ReaperJoined => ReaperKeepsInv(s, e);
    case ReaperDestroys => ReaperKeepsInv(s, e);
  }

  lemma InvKnows(s: State)
    requires Inv(s)
    ensures Known(s)
  {
  }

  // ---------------------------------------------------------------- whole runs

  /** `t` is reached from `s` by the events `es`. */
  ghost predicate Reaches(s: State, es: seq<Event>, t: State)
    decreases es
  {
    if es == [] then s == t
    else Enabled(s, es[0]) && Known(s) && Reaches(Next(s, es[0]), es[1..], t)
  }

  lemma {:induction false} RunKeepsInv(s: State, es: seq<Event>, t: State)
    requires Inv(s) && Reaches(s, es, t)
    ensures Inv(t)
    decreases es
  {
    hide Inv, Next;
    if es != [] {
      StepKeepsInv(s, es[0]);
      RunKeepsInv(Next(s, es[0]), es[1..], t);
    }
  }

  function Initial(start: SearchId): State {
    State(start, map[], map[], map[], Scanning)
  }

  /** Main result: however clients and reaper interleave, every search is closed, joined and
      destroyed at most once, destroyed only after a join returned, and never used after; and
      every search ever created is listed, in the reaper's hands, or destroyed. */
  lemma TeardownHasOneOwner(start: SearchId, es: seq<Event>, s: State, id: SearchId)
    requires Reaches(Initial(start), es, s) && id in s.searches
    ensures var f := s.searches[id];
            && f.closes <= 1 && f.joins <= 1 && f.destroys <= 1 && f.misuses == 0
            && f.joins <= f.closes && f.joinsReturned <= f.joins
            && (f.destroys == 1 ==> f.joinsReturned == 1 && id !in s.marks)
            && (id in s.marks || TakenBy(s.reaper, id) || f.destroys == 1)
    ensures |s.marks| <= MAX_INSTANCES
  {
    RunKeepsInv(Initial(start), es, s);
    assert Proper(s, id);
  }

  /** A client whose close succeeded, and that goes on, never runs into an error of its own:
      the join is granted, and after it the entry is there to be removed. */
  lemma TheOwnerGoesThrough(s: State, client: ClientId)
    requires Inv(s) && client in s.clients
    ensures s.clients[client].MayJoin? ==> Join(s.marks, s.clients[client].id).1
    ensures s.clients[client].MayDestroy? ==> Remove(s.marks, s.clients[client].id).1
  {
    assert InStep(s, s.clients[client]);
  }

  /** The other side: once a search is closed and its owner has stopped, after a failed join
      for instance, nobody ever takes it out again, and its place in the table is lost. */
  lemma AbandonedStays(s: State, e: Event, id: SearchId)
    requires Inv(s) && Enabled(s, e)
    requires id in s.marks && !s.marks[id].Open? && forall c | c in s.clients :: s.clients[c].id != id
    ensures var t := Next(s, e);
            && id in t.marks && t.marks[id] == s.marks[id]
            && forall c | c in t.clients :: t.clients[c].id != id
  {
    assert id in s.searches && id <= s.last;
    hide Inv;
  }

  // ---------------------------------------------------------------- what the steps achieve

  /** A search is taken on while fewer than fifteen are listed, its path converts and it can be
      created: under the next id, open, and untouched. Else nothing is listed. */
  lemma AddAnswers(s: State, converts: bool, created: bool)
    requires Inv(s) && s.last < 0xffff_ffff_ffff_ffff
    ensures var t := DoAdd(s, converts, created);
            if |s.marks| < 15 && converts && created
            then && t.last == s.last + 1 && t.last !in s.searches && t.marks == s.marks[t.last := Open]
                 && t.searches == s.searches[t.last := Search(0, 0, 0, 0, 0)]
                 && t.clients == s.clients && t.reaper == s.reaper
            else t == s.(last := if |s.marks| < 15 && converts then s.last + 1 else s.last)
  {
  }

  /** A close changes something exactly when the search is open and accepts it. */
  lemma CloseAnswers(s: State, client: ClientId, id: SearchId, accepted: bool)
    requires Inv(s) && client !in s.clients
    ensures DoClientCloses(s, client, id, accepted) == s <==> !(accepted && id in s.marks && s.marks[id].Open?)
    ensures var t := DoClientCloses(s, client, id, accepted); client in t.clients <==> t != s
  {
  }

  /** A client that goes through with it leaves the search closed, joined and destroyed once,
      out of the table, and everything else as it was. */
  lemma ClientTearsDown(s: State, client: ClientId, id: SearchId)
    requires Inv(s) && client !in s.clients && id in s.marks && s.marks[id].Open?
    ensures var s1 := DoClientCloses(s, client, id, true);
            && Known(s1) && client in s1.clients && s1.clients[client].MayJoin?
            && var s2 := DoClientJoins(s1, client);
               && Known(s2) && client in s2.clients && s2.clients[client].InJoin?
               && var s3 := DoClientJoined(s2, client, true);
                  && Known(s3) && client in s3.clients && s3.clients[client].MayDestroy?
                  && DoClientDestroys(s3, client) == s.(marks := s.marks - {id}, searches := s.searches[id := Search(1, 1, 1, 1, 0)])
  {
    assert Proper(s, id);
    hide Proper, InStep;
    assert s.clients[client := MayJoin(id)][client := InJoin(id)][client := MayDestroy(id)] - {client} == s.clients;
    assert s.marks[id := Closing][id := Joined] - {id} == s.marks - {id};
    LastOneCounts(s.searches, id, Search(1, 0, 0, 0, 0), Search(1, 1, 1, 1, 0));
    LastOneCounts(s.searches, id, Search(1, 1, 0, 0, 0), Search(1, 1, 1, 1, 0));
    LastOneCounts(s.searches, id, Search(1, 1, 1, 0, 0), Search(1, 1, 1, 1, 0));
    LastOneCounts(s.searches, id, Search(1, 0, 0, 0, 0), Search(1, 1, 0, 0, 0));
    LastOneCounts(s.searches, id, Search(1, 1, 0, 0, 0), Search(1, 1, 1, 0, 0));
  }

  lemma LastOneCounts(m: map<SearchId, Search>, id: SearchId, a: Search, b: Search)
    ensures m[id := a][id := b] == m[id := b]
  {
  }

  /** So does the reaper, with an open search of its choice. */
  lemma ReaperTearsDown(s: State, id: SearchId)
    requires Inv(s) && s.reaper.Scanning? && id in s.marks && s.marks[id].Open?
    ensures var s1 := DoReaper(s, ReaperTakes(id));
            && Known(s1) && s1.reaper == Took(id) && id !in s1.marks
            && var s2 := DoReaper(s1, ReaperJoins);
               && Known(s2) && s2.reaper == Waits(id)
               && var s3 := DoReaper(s2, ReaperJoined);
                  && Known(s3) && s3.reaper == Reaped(id)
                  && DoReaper(s3, ReaperDestroys) == s.(marks := s.marks - {id}, searches := s.searches[id := Search(1, 1, 1, 1, 0)])
  {
    assert Proper(s, id);
    hide Proper, InStep;
    LastOneCounts(s.searches, id, Search(1, 0, 0, 0, 0), Search(1, 1, 1, 1, 0));
    LastOneCounts(s.searches, id, Search(1, 1, 0, 0, 0), Search(1, 1, 1, 1, 0));
    LastOneCounts(s.searches, id, Search(1, 1, 1, 0, 0), Search(1, 1, 1, 1, 0));
    LastOneCounts(s.searches, id, Search(1, 0, 0, 0, 0), Search(1, 1, 0, 0, 0));
    LastOneCounts(s.searches, id, Search(1, 1, 0, 0, 0), Search(1, 1, 1, 0, 0));
  }

  /** A join that fails, and any refusal, ends the client's part and touches no search. */
  lemma ErrorsEndIt(s: State, client: ClientId)
    requires Inv(s) && client in s.clients
    ensures s.clients[client].InJoin? ==>
              var t := DoClientJoined(s, client, false); client !in t.clients && t.marks == s.marks
    ensures Stop(s, client).marks == s.marks && Stop(s, client).searches == s.searches && client !in Stop(s, client).clients
  {
  }

  /** Only an open search can be used; using it counts as such on it alone. */
  lemma UseAnswers(s: State, id: SearchId)
    requires Inv(s)
    ensures Next(s, GetResults(id)) == s
    ensures Usable(s.marks, id) <==> id in s.marks && s.marks[id] == Open
  {
    if Usable(s.marks, id) {
      assert Proper(s, id);
      assert s.searches[id := s.searches[id]] == s.searches;
    }
  }

  /** A client may stop wherever it could go on, but not while it waits for a join. */
  lemma StopsBetweenSteps(s: State, client: ClientId)
    ensures Enabled(s, ClientStops(client)) <==> Enabled(s, ClientJoins(client)) || Enabled(s, ClientDestroys(client))
  {
  }
}
