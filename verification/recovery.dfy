/** Recovery of a damaged dataset database across restarts: marker files remember how often
    what has failed, and each activation decides between another restart, a restore from the
    backup, a new empty database and giving up. */
module Recovery {

  datatype Marker = FsckErr1 | FsckErr2 | BackupErr1 | BackupErr2 | OpenErr1 | NoDb | NeedsBackup | NeedsFsck | IsOpen

  type Markers = set<Marker>

  /** The class of what `OpenDB` returns; every class but the schema one counts the database
      as lost. */
  datatype Opening = Opened | SchemaError | OtherError

  /** What the world contributes to one activation: whether the directory can be made, both
      attempts to open, whether a restore succeeds, and whether the opened database can be
      brought up to date. */
  datatype World = World(dirOk: bool, first: Opening, second: Opening, restoreOk: bool, upToDate: bool)

  /** How an activation ends: in service, to be restarted, or given up for good. */
  datatype Outcome = Active | Restart | Failed

  /** What survives a restart. */
  datatype Disk = Disk(markers: Markers, hasBackup: bool)

  const DBASE_ERRORS: Markers := {BackupErr1, BackupErr2, FsckErr1, FsckErr2, OpenErr1}

  predicate ForcesRestore(m: Markers) {
    FsckErr2 in m || BackupErr2 in m
  }

  /** The second attempt is made when the first fails; a schema error alone does not count
      the database as lost, and a restart is pointless after one. */
  function OpenTwice(w: World): (Opening, bool, bool) {
    if w.first.Opened? then (Opened, false, false)
    else (w.second, w.second.OtherError? || (w.first.OtherError? && w.second.SchemaError?), w.second.SchemaError?)
  }

  /** Restoring, by the comment in the source, uses the backup up. */
  function RestoreDb(d: Disk, m: Markers, restoreOk: bool): (Disk, Outcome) {
    if !restoreOk then (d.(markers := m), Failed)
    else
      var cleared := m - DBASE_ERRORS;
      if d.hasBackup then (Disk(cleared + {NeedsBackup}, false), Restart)
      else if NoDb in m then (Disk(cleared, false), Failed)
      else (Disk(cleared + {NoDb}, false), Restart)
  }

  function Activate(d: Disk, w: World): (Disk, Outcome) {
    var m := d.markers - {IsOpen};
    if !w.dirOk then (d.(markers := m), Restart)
    else if ForcesRestore(m) then RestoreDb(d, m, w.restoreOk)
    else
      var (opening, invalid, noRestart) := OpenTwice(w);
      if opening.Opened? then
        var m' := m - {OpenErr1} + {IsOpen};
        if w.upToDate then (d.(markers := m' - {NoDb}), Active) else (d.(markers := m'), Restart)
      else if invalid && !noRestart && OpenErr1 !in m then (d.(markers := m + {OpenErr1}), Restart)
      else if invalid && noRestart then (d.(markers := m), Failed)
      else if invalid then RestoreDb(d, m, w.restoreOk)
      else (d.(markers := m), Restart)   // nothing is open, so bringing it up to date fails
  }

  /** The dataset object during one activation: the marker files it creates and deletes, and
      its flags. */
  class Activation {
    var markers: Markers
    var hasBackup: bool
    var invalid: bool
    var isFailed: bool

    ghost function View(): Disk
      reads this
    {
      Disk(markers, hasBackup)
    }

    constructor (d: Disk)
      ensures View() == d && !invalid && !isFailed
    {
      markers, hasBackup, invalid, isFailed := d.markers, d.hasBackup, false, false;
    }

    /** Try twice to open the database. */
    method TryToOpen(w: World) returns (isOpen: bool, noRestart: bool)
      requires !invalid
      modifies this`markers, this`invalid
      ensures var (opening, lost, pointless) := OpenTwice(w);
              && isOpen == opening.Opened? && invalid == lost && (!isOpen ==> noRestart == pointless)
              && markers == if isOpen then old(markers) - {OpenErr1} + {IsOpen} else old(markers)
    {
      isOpen, noRestart := false, false;
      var i := 0;
      while i < 2 && !isOpen
        invariant 0 <= i <= 2
        invariant !isOpen ==> markers == old(markers)
        invariant i == 0 ==> !isOpen && !invalid && !noRestart
        invariant i == 1 ==> if w.first.Opened? then isOpen && !invalid && markers == old(markers) - {OpenErr1} + {IsOpen}
                             else !isOpen && invalid == w.first.OtherError? && noRestart == w.first.SchemaError?
        invariant i == 2 ==> !w.first.Opened? &&
                             if w.second.Opened? then isOpen && !invalid && markers == old(markers) - {OpenErr1} + {IsOpen}
                             else !isOpen && invalid == (w.second.OtherError? || w.first.OtherError?) && noRestart == w.second.SchemaError?
        decreases 2 - i
      {
        match if i == 0 then w.first else w.second {
          case Opened =>
            markers := markers - {OpenErr1} + {IsOpen};
            invalid, isOpen := false, true;
          case SchemaError => noRestart := true;
          case OtherError => invalid, noRestart := true, false;
        }
        i := i + 1;
      }
    }

    method Restore(restoreOk: bool) returns (o: Outcome)
      modifies this`markers, this`hasBackup, this`isFailed
      ensures (View(), o) == RestoreDb(old(View()), old(markers), restoreOk)
      ensures isFailed == (old(isFailed) || o == Failed)
    {
      var isNewDb := NoDb in markers;
      if !restoreOk {
        isFailed := true;
        return Failed;
      }
      var hadBackup := hasBackup;
      hasBackup := false;
      markers := markers - DBASE_ERRORS;
      if !hadBackup {
        if isNewDb {
          isFailed := true;
          return Failed;
        }
        markers := markers + {NoDb};
      } else {
        markers := markers + {NeedsBackup};
      }
      o := Restart;
    }

    method DbaseActivate(w: World) returns (o: Outcome)
      requires !invalid && !isFailed
      modifies this
      ensures (View(), o) == Activate(old(View()), w)
      ensures isFailed == (o == Failed) && invalid == (o != Active)
    {
      markers := markers - {IsOpen};
      if !w.dirOk {
        invalid := true;
        return Restart;
      }
      if ForcesRestore(markers) {
        invalid := true;
        o := Restore(w.restoreOk);
        return;
      }
      var isOpen, noRestart := TryToOpen(w);
      if invalid && !noRestart && OpenErr1 !in markers {
        markers := markers + {OpenErr1};
        return Restart;
      }
      if invalid {
        if noRestart {
          isFailed := true;
          return Failed;
        }
        o := Restore(w.restoreOk);
        return;
      }
      if !isOpen || !w.upToDate {
        invalid := true;
        return Restart;
      }
      markers := markers - {NoDb};
      o := Active;
    }
  }

  // ---------------------------------------------------------------- what an activation answers

  /** The database gets opened: nothing forces a restore, and one of the two attempts succeeds. */
  predicate Opens(d: Disk, w: World) {
    w.dirOk && FsckErr2 !in d.markers && BackupErr2 !in d.markers && (w.first.Opened? || w.second.Opened?)
  }

  /** It goes into service exactly when it is opened and can be brought up to date; then it is
      marked open, and the first strike and the mark of a missing database are forgotten. */
  lemma ActiveIff(d: Disk, w: World)
    ensures var (d', o) := Activate(d, w);
            && (o == Active <==> Opens(d, w) && w.upToDate)
            && (o == Active ==> d' == Disk(d.markers - {OpenErr1, NoDb} + {IsOpen}, d.hasBackup))
            && (Opens(d, w) && !w.upToDate ==> o == Restart && d' == Disk(d.markers - {OpenErr1} + {IsOpen}, d.hasBackup))
  {
  }

  /** A failure to open is answered by its kind and by what is on record: nothing is done without
      the directory or after two schema errors; a schema error after another one is final; else
      the first strike is recorded, and the second leads to a restore. */
  lemma OpenFailureAnswers(d: Disk, w: World)
    requires FsckErr2 !in d.markers && BackupErr2 !in d.markers && !Opens(d, w)
    ensures var m := d.markers - {IsOpen};
            Activate(d, w) ==
              if !w.dirOk || (w.first.SchemaError? && w.second.SchemaError?) then (Disk(m, d.hasBackup), Restart)
              else if w.second.SchemaError? then (Disk(m, d.hasBackup), Failed)
              else if OpenErr1 !in m then (Disk(m + {OpenErr1}, d.hasBackup), Restart)
              else Restored(d, w.restoreOk)
  {
    RestoresAsSaid(d, w.restoreOk);
  }

  /** What a restore leaves: the backup in place of the database, to be backed up anew; without
      one an empty database, once; and all errors forgotten. */
  function Restored(d: Disk, ok: bool): (Disk, Outcome) {
    var errors := {FsckErr1, FsckErr2, BackupErr1, BackupErr2, OpenErr1, IsOpen};
    if !ok then (Disk(d.markers - {IsOpen}, d.hasBackup), Failed)
    else if d.hasBackup then (Disk(d.markers - errors + {NeedsBackup}, false), Restart)
    else if NoDb !in d.markers then (Disk(d.markers - errors + {NoDb}, false), Restart)
    else (Disk(d.markers - errors, false), Failed)
  }

  /** Two failures of an fsck or of a backup force a restore at once. */
  lemma ForcedRestoreAnswers(d: Disk, w: World)
    requires FsckErr2 in d.markers || BackupErr2 in d.markers
    ensures Activate(d, w) == if w.dirOk then Restored(d, w.restoreOk) else (Disk(d.markers - {IsOpen}, d.hasBackup), Restart)
  {
    RestoresAsSaid(d, w.restoreOk);
  }

  lemma RestoresAsSaid(d: Disk, ok: bool)
    ensures RestoreDb(d, d.markers - {IsOpen}, ok) == Restored(d, ok)
  {
    var errors := {FsckErr1, FsckErr2, BackupErr1, BackupErr2, OpenErr1, IsOpen};
    assert d.markers - {IsOpen} - DBASE_ERRORS == d.markers - errors;
  }

  // ---------------------------------------------------------------- how long it takes

  /** Restarts again and again while the database cannot be opened, in the worlds `ws`. */
  function After(d: Disk, ws: seq<World>): (Disk, Outcome)
    decreases ws
  {
    if ws == [] then (d, Restart)
    else
      var (d1, o) := Activate(d, ws[0]);
      if o == Restart then After(d1, ws[1..]) else (d1, o)
  }

  predicate GivenUp(d: Disk, ws: seq<World>) {
    After(d, ws).1 == Failed
  }

  /** The database cannot be opened, for a reason that counts it as lost; everything else
      the host does succeeds. */
  predicate Lost(w: World) {
    w.dirOk && !w.first.Opened? && w.second.OtherError? && w.restoreOk
  }

  /** The exact number of activations until the dataset gives up: two for each thing still to
      be tried, the backup, the empty database and the end, less one if the first strike is
      already on record. */
  function ActivationsLeft(d: Disk): nat {
    var m := d.markers;
    2 * ((if d.hasBackup then 1 else 0) + (if NoDb in m then 0 else 1) + 1)
      - (if ForcesRestore(m) || OpenErr1 in m then 1 else 0)
  }

  lemma OneActivation(d: Disk, w: World)
    requires Lost(w)
    ensures var (d', o) := Activate(d, w);
            if ActivationsLeft(d) == 1 then o == Failed else o == Restart && ActivationsLeft(d') == ActivationsLeft(d) - 1
  {
  }

  /** Main result: a lost database is given up after exactly that many activations, at most
      six, and not before. */
  lemma {:induction false} RecoveryEnds(d: Disk, ws: seq<World>)
    requires forall w | w in ws :: Lost(w)
    ensures GivenUp(d, ws) <==> |ws| >= ActivationsLeft(d)
    ensures 1 <= ActivationsLeft(d) <= 6
    decreases ws
  {
    if ws != [] {
      assert ws[0] in ws && forall w | w in ws[1..] :: w in ws;
      OneActivation(d, ws[0]);
      RecoveryEnds(Activate(d, ws[0]).0, ws[1..]);
    }
  }

  /** Six is reached: with a backup, and nothing on record. */
  lemma SixIsReached(w: World)
    requires Lost(w)
    ensures !GivenUp(Disk({}, true), [w, w, w, w, w]) && GivenUp(Disk({}, true), [w, w, w, w, w, w])
  {
    RecoveryEnds(Disk({}, true), [w, w, w, w, w]);
    RecoveryEnds(Disk({}, true), [w, w, w, w, w, w]);
  }

  predicate SchemaMismatch(w: World) {
    w.dirOk && w.restoreOk && w.first.SchemaError? && w.second.SchemaError?
  }

  /** Schema errors on both attempts leave everything as it was, so no number of restarts
      leads anywhere, unless the error markers force a restore first. */
  lemma {:induction false} SchemaErrorsNeverEnd(d: Disk, ws: seq<World>)
    requires (forall w | w in ws :: SchemaMismatch(w)) && !ForcesRestore(d.markers)
    ensures After(d, ws).1 == Restart
    decreases ws
  {
    if ws != [] {
      assert ws[0] in ws && forall w | w in ws[1..] :: w in ws;
      SchemaErrorsNeverEnd(Activate(d, ws[0]).0, ws[1..]);
    }
  }

  function Repeat(w: World, n: nat): (ws: seq<World>)
    ensures |ws| == n && forall x | x in ws :: x == w
  {
    seq(n, _ => w)
  }

  /** Exactly when an open that fails in the same way every time is given up at last. */
  lemma RecoveryEndsIff(d: Disk, w: World)
    requires w.dirOk && w.restoreOk && !w.first.Opened? && !w.second.Opened?
    ensures (exists n: nat :: GivenUp(d, Repeat(w, n)))
       <==> !(w.first.SchemaError? && w.second.SchemaError?)
            || (ForcesRestore(d.markers) && !d.hasBackup && NoDb in d.markers)
  {
    hide Repeat;
    if w.second.OtherError? {
      RecoveryEnds(d, Repeat(w, 6));
      assert GivenUp(d, Repeat(w, 6));
    } else if w.first.OtherError? {
      SecondTimeAtTheLatest(d, w);
      assert GivenUp(d, Repeat(w, 2));
    } else if ForcesRestore(d.markers) && !d.hasBackup && NoDb in d.markers {
      var ws := Repeat(w, 1);
      assert ws[0] in ws;
      assert GivenUp(d, ws);
    } else {
      forall n: nat ensures !GivenUp(d, Repeat(w, n)) {
        var ws := Repeat(w, n);
        if ForcesRestore(d.markers) && n > 0 {
          assert ws[0] in ws && forall x | x in ws[1..] :: x in ws;
          SchemaErrorsNeverEnd(Activate(d, w).0, ws[1..]);
        } else if n > 0 {
          SchemaErrorsNeverEnd(d, ws);
        }
      }
    }
  }

  /** After a schema error on the second attempt only, there is no restart. */
  lemma SecondTimeAtTheLatest(d: Disk, w: World)
    requires w.dirOk && w.restoreOk && w.first.OtherError? && w.second.SchemaError?
    ensures GivenUp(d, Repeat(w, 2))
  {
    var ws := Repeat(w, 2);
    assert ws[0] in ws && ws[1..][0] == ws[1] && ws[1] in ws;
    var (d1, o) := Activate(d, w);
    assert o == Failed || Activate(d1, w).1 == Failed;
  }
}
