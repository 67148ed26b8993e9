/** The periodic sync of a managed dataset: one thread that commits, backs up and reaps, a
    backup worker and an fsck worker it starts, and the mini-transactions of everybody else.
    A step is what one thread does between two points where another can interfere: the sync
    thread gives up `sync_mutex` only to wait and to join, but the fsck worker writes its two
    flags without holding it. The wait ends by a broadcast, by its timeout if it has one, or
    for no reason. */
module SyncCoordinator {

  datatype Worker = Absent | Running | Ending | Ended

  /** Where the sync thread is in its loop, in the order of the source. */
  type Pc = n: nat | n <= 19

  const BEGIN: Pc := 0
  const ENTER: Pc := 1
  const TOP: Pc := 2
  const CHECK_WAIT: Pc := 3
  const WAITING: Pc := 4
  const REAP_FSCK: Pc := 5
  const JOINING_FSCK: Pc := 6
  const REAP_BACKUP: Pc := 7
  const JOINING_BACKUP: Pc := 8
  const CHECK_INVALID: Pc := 9
  const SCHEDULE: Pc := 10
  const CHECK_SHUTDOWN: Pc := 11
  const CANCEL_BACKUP: Pc := 12
  const CANCEL_FSCK: Pc := 13
  const CANCELLING_FSCK: Pc := 14
  const SET_DONE: Pc := 15
  const COMMIT: Pc := 16
  const START_BACKUP: Pc := 17
  const LOOP_TEST: Pc := 18
  const STOPPED: Pc := 19

  /** The big transaction. `misfired` is a trace: some commit was made without an open
      transaction, or on an invalid database. */
  datatype Tran = Tran(isOpen: bool, needsCommit: bool, doCommit: bool, misfired: bool)

  /** Backups: wanted, finished, decided on, forced, remembered by the loop, and the worker.
      `overlapped` is a trace: some worker was started while there was one, or an fsck due. */
  datatype Backup = Backup(needed: bool, done: bool, go: bool, force: bool, inProgress: bool, overlapped: bool, worker: Worker)

  /** The fsck: wanted, finished, remembered by the loop, about to clear `needed`. */
  datatype Fsck = Fsck(needed: bool, done: bool, inProgress: bool, clearing: bool, worker: Worker)

  /** The sleep of the sync thread: whether it ends by itself, and whether `per_sync_cond` was
      broadcast since it began. */
  datatype Wait = Wait(timed: bool, signalled: bool)

  datatype State = State(tran: Tran, backup: Backup, fsck: Fsck, wait: Wait, invalid: bool, shutdown: bool, pc: Pc, done: bool)

  datatype Outcome = Fine | Refused | Fatal

  datatype Event =
    | Sync(due: bool, overdue: bool, outcome: Outcome)     // one step of the sync thread
    | MiniTran(beginning: Outcome, fatalInside: bool, trigger: bool)
    | DbError                                              // a fatal error classified elsewhere
    | Shutdown
    | Spurious                                             // a wait may end for no reason
    | BackupEnds(outcome: Outcome, interrupted: bool, tooOld: bool)
    | BackupExits
    | FsckDecides(completed: bool)
    | FsckClears
    | FsckSignals
    | FsckExits

  /** Does the sync thread hold `sync_mutex` here? */
  predicate Locked(pc: Pc) {
    !(pc == BEGIN || pc == ENTER || pc == WAITING || pc == JOINING_FSCK || pc == JOINING_BACKUP || pc == CANCEL_BACKUP || pc == CANCELLING_FSCK || pc == STOPPED)
  }

  predicate Enabled(s: State, e: Event) {
    match e
    case Sync(_, _, _) =>
      && s.pc != STOPPED
      && (s.pc == WAITING ==> s.wait.timed || s.wait.signalled)
      && (s.pc == JOINING_FSCK || s.pc == CANCELLING_FSCK ==> s.fsck.worker == Ended)
      && (s.pc == JOINING_BACKUP || s.pc == CANCEL_BACKUP ==> s.backup.worker == Ended)
    case MiniTran(_, _, _) => !Locked(s.pc)
    case DbError => !Locked(s.pc)
    case Shutdown => !Locked(s.pc)
    case Spurious => s.pc == WAITING
    case BackupEnds(_, _, _) => s.backup.worker == Running && !Locked(s.pc)
    case BackupExits => s.backup.worker == Ending
    case FsckDecides(_) => s.fsck.worker == Running && !s.fsck.clearing
    case FsckClears => s.fsck.worker == Running && s.fsck.clearing
    case FsckSignals => s.fsck.worker == Running && !s.fsck.clearing
    case FsckExits => s.fsck.worker == Ending && !Locked(s.pc)
  }

  // ---------------------------------------------------------------- everybody else

  function Broadcast(s: State, when: bool): State {
    s.(wait := s.wait.(signalled := s.wait.signalled || when))
  }

  /** `mini_trans_start`, some database calls, `mini_trans_end`. Once the database is invalid
      every call reports failure, also one that began a transaction. The sync thread is woken
      by the first change to commit and by the loss of the database. */
  function DoMiniTran(s: State, beginning: Outcome, fatalInside: bool, trigger: bool): State {
    var lost := s.invalid || (!s.tran.isOpen && beginning == Fatal);
    var isOpen := s.tran.isOpen || (!lost && beginning == Fine);
    Broadcast(s, (trigger && !s.tran.needsCommit) || (!s.invalid && (lost || fatalInside)))
      .(tran := s.tran.(isOpen := isOpen, needsCommit := s.tran.needsCommit || trigger), invalid := lost || fatalInside)
  }

  function DoBackupEnds(s: State, outcome: Outcome, interrupted: bool, tooOld: bool): State {
    var lost := s.invalid || outcome == Fatal;
    var good := outcome == Fine && !lost && !interrupted && !s.tran.isOpen && !tooOld;
    Broadcast(s, true)
      .(invalid := lost, backup := s.backup.(needed := s.backup.needed && !good, done := true, worker := Ending))
  }

  // ---------------------------------------------------------------- the sync thread

  /** Going to sleep, for some time or until woken, unless there is something to do already. */
  function Sleep(s: State): State {
    if s.pc == TOP then
      s.(tran := s.tran.(doCommit := s.tran.doCommit || s.tran.needsCommit),
         wait := Wait(s.tran.needsCommit || (s.backup.needed && !s.fsck.needed), false), pc := CHECK_WAIT)
    else if s.pc == CHECK_WAIT && !s.shutdown && !s.invalid
      && !(s.fsck.inProgress && s.fsck.done) && !(s.backup.inProgress && s.backup.done)
    then s.(wait := s.wait.(signalled := false), pc := WAITING)
    else s.(pc := REAP_FSCK)
  }

  /** Joining workers that have reported that they are done. */
  function Reap(s: State): State {
    if s.pc == REAP_FSCK then
      if s.fsck.inProgress && s.fsck.done then s.(fsck := s.fsck.(inProgress := false), pc := JOINING_FSCK)
      else s.(pc := REAP_BACKUP)
    else if s.pc == JOINING_FSCK then s.(fsck := s.fsck.(worker := Absent), pc := REAP_BACKUP)
    else if s.pc == REAP_BACKUP then
      if s.backup.inProgress && s.backup.done then s.(backup := s.backup.(inProgress := false), pc := JOINING_BACKUP)
      else s.(pc := CHECK_INVALID)
    else s.(backup := s.backup.(worker := Absent), pc := CHECK_INVALID)
  }

  /** Is it time for a backup? If so, whatever is pending is committed first. */
  function Plan(s: State, due: bool, overdue: bool): State {
    var needed := s.backup.needed || (s.tran.needsCommit && !s.invalid);
    var force := s.backup.force || overdue;
    if needed && !s.backup.inProgress && !s.fsck.needed then
      s.(backup := s.backup.(needed := needed, force := false, go := due || force),
         tran := if due || force then s.tran.(doCommit := s.tran.needsCommit) else s.tran, pc := CHECK_SHUTDOWN)
    else s.(backup := s.backup.(needed := needed, force := force), pc := CHECK_SHUTDOWN)
  }

  /** Reacting to a lost database, planning, reacting to a shutdown. */
  function Decide(s: State, due: bool, overdue: bool): State {
    if s.pc == CHECK_INVALID then
      if s.invalid && !s.shutdown then s.(tran := s.tran.(needsCommit := false), shutdown := true, pc := TOP)
      else s.(pc := SCHEDULE)
    else if s.pc == SCHEDULE then Plan(s, due, overdue)
    else s.(pc := if !s.shutdown then COMMIT else if s.backup.inProgress then CANCEL_BACKUP else CANCEL_FSCK)
  }

  /** Stopping both workers and forcing out what is pending. */
  function WindUp(s: State): State {
    if s.pc == CANCEL_BACKUP then s.(backup := s.backup.(worker := Absent, inProgress := false), pc := CANCEL_FSCK)
    else if s.pc == CANCEL_FSCK then s.(pc := if s.fsck.inProgress then CANCELLING_FSCK else SET_DONE)
    else if s.pc == CANCELLING_FSCK then s.(fsck := s.fsck.(worker := Absent, inProgress := false), pc := SET_DONE)
    else s.(done := true, tran := s.tran.(doCommit := s.tran.needsCommit), pc := COMMIT)
  }

  /** A commit that the database refuses resets the flags like one that succeeds. */
  function DoCommit(s: State, outcome: Outcome): State {
    if s.tran.doCommit && !s.invalid then
      s.(tran := Tran(false, false, false, s.tran.misfired || !s.tran.isOpen || s.invalid),
         invalid := outcome == Fatal, pc := START_BACKUP)
    else s.(pc := START_BACKUP)
  }

  function DoStartBackup(s: State, outcome: Outcome): State {
    if s.backup.go && !s.shutdown && !s.invalid && !s.fsck.needed then
      if outcome != Fine then s.(backup := s.backup.(done := false), invalid := true, pc := LOOP_TEST)
      else
        s.(backup := s.backup.(done := false, worker := Running, inProgress := true, go := false,
             overlapped := s.backup.overlapped || s.backup.worker != Absent || s.fsck.needed), pc := LOOP_TEST)
    else s.(pc := LOOP_TEST)
  }

  /** Before the loop, without the mutex: start the fsck that is due, then take the mutex. */
  function Begin(s: State, outcome: Outcome): State {
    if s.pc == BEGIN then
      if s.fsck.needed && !s.invalid && outcome == Fine then s.(fsck := s.fsck.(inProgress := true, worker := Running), pc := ENTER)
      else s.(pc := ENTER)
    else s.(pc := TOP)
  }

  function SyncStep(s: State, due: bool, overdue: bool, outcome: Outcome): State {
    if s.pc <= ENTER then Begin(s, outcome)
    else if s.pc <= WAITING then Sleep(s)
    else if s.pc <= JOINING_BACKUP then Reap(s)
    else if s.pc <= CHECK_SHUTDOWN then Decide(s, due, overdue)
    else if s.pc <= SET_DONE then WindUp(s)
    else if s.pc == COMMIT then DoCommit(s, outcome)
    else if s.pc == START_BACKUP then DoStartBackup(s, outcome)
    else s.(pc := if s.done then STOPPED else TOP)
  }

  function Next(s: State, e: Event): State {
    match e
    case Sync(due, overdue, outcome) => SyncStep(s, due, overdue, outcome)
    case MiniTran(beginning, fatalInside, trigger) => DoMiniTran(s, beginning, fatalInside, trigger)
    case DbError => Broadcast(s, !s.invalid).(invalid := true)
    case Shutdown => Broadcast(s, !s.shutdown).(shutdown := true)
    case Spurious => Broadcast(s, true)
    case BackupEnds(outcome, interrupted, tooOld) => DoBackupEnds(s, outcome, interrupted, tooOld)
    case BackupExits => s.(backup := s.backup.(worker := Ended))
    case FsckDecides(completed) =>
      if completed && !s.invalid && !s.shutdown then s.(fsck := s.fsck.(clearing := true)) else s
    case FsckClears => s.(fsck := s.fsck.(needed := false, clearing := false))
    case FsckSignals => s.(fsck := s.fsck.(done := true, worker := Ending))
    case FsckExits => Broadcast(s, true).(fsck := s.fsck.(worker := Ended))
  }

  // ---------------------------------------------------------------- the invariant

  predicate Over(w: Worker) { w.Ending? || w.Ended? }

  /** A worker exists exactly while the loop remembers it or is just joining it. */
  predicate WorkersKnown(s: State) {
    && (s.backup.worker != Absent <==> s.backup.inProgress || s.pc == JOINING_BACKUP)
    && (s.fsck.worker != Absent <==> s.fsck.inProgress || s.pc == JOINING_FSCK)
    && (s.pc == JOINING_BACKUP ==> !s.backup.inProgress && Over(s.backup.worker))
    && (s.pc == JOINING_FSCK ==> !s.fsck.inProgress && Over(s.fsck.worker))
    && (s.pc == CANCEL_BACKUP ==> s.backup.inProgress)
    && (CANCEL_BACKUP <= s.pc <= SET_DONE ==> s.shutdown)
    && (CANCEL_FSCK <= s.pc <= SET_DONE ==> !s.backup.inProgress)
    && (s.pc == CANCELLING_FSCK ==> s.fsck.inProgress)
    && (s.pc == SET_DONE ==> !s.fsck.inProgress)
    && (s.backup.inProgress && s.backup.done ==> Over(s.backup.worker))
    && (s.fsck.inProgress && s.fsck.done ==> Over(s.fsck.worker))
    && (s.fsck.clearing ==> s.fsck.worker == Running)
    && (s.pc == BEGIN ==> !s.fsck.inProgress && !s.fsck.done && !s.backup.inProgress)
  }

  /** What is due to be committed lies in an open transaction, unless the database is lost. */
  predicate CommitsCovered(s: State) {
    && (s.tran.needsCommit ==> s.tran.isOpen || s.invalid)
    && (s.tran.doCommit ==> s.tran.needsCommit || s.invalid)
    && !s.tran.misfired
  }

  /** A backup is decided on, or running, only when none is and no fsck is wanted. */
  predicate BackupsJustified(s: State) {
    && (s.backup.go ==> !s.fsck.needed)
    && (s.backup.go && s.backup.inProgress ==> s.invalid || s.shutdown)
    && (s.backup.go && s.pc != CHECK_SHUTDOWN && s.pc != COMMIT && s.pc != START_BACKUP ==> s.invalid || s.shutdown)
    && (s.backup.worker != Absent ==> !s.fsck.needed)
    && !s.backup.overlapped
  }

  /** Once the loop is to end, both workers are gone and nothing is left to commit. */
  predicate WindsUp(s: State) {
    && (s.done ==> s.shutdown && !s.backup.inProgress && !s.fsck.inProgress && s.pc >= COMMIT)
    && (s.pc == STOPPED ==> s.done)
    && (s.done && s.pc == COMMIT ==> s.tran.doCommit == s.tran.needsCommit)
    && (s.done && (s.pc == START_BACKUP || s.pc == LOOP_TEST) ==> s.invalid || !s.tran.needsCommit)
  }

  /** A worker that has not broadcast yet that it is done. */
  predicate WillSignal(f: Fsck) { f.inProgress && (f.worker.Running? || f.worker.Ending?) }

  /** When the sync thread sleeps and was not woken, there is nothing for it to do: or the fsck
      worker, which works without the mutex, is about to wake it. When nothing but a broadcast
      can end the sleep, there is nothing to do later either. */
  predicate SleepsSoundly(s: State) {
    && (s.pc == WAITING && !s.wait.signalled ==>
          && !s.shutdown && !s.invalid && !(s.backup.inProgress && s.backup.done)
          && (s.fsck.inProgress && s.fsck.done ==> s.fsck.worker.Ending?))
    && (s.pc == CHECK_WAIT || (s.pc == WAITING && !s.wait.signalled) ==>
          s.wait.timed || (!s.tran.needsCommit && (s.backup.needed && !s.fsck.needed ==> WillSignal(s.fsck))))
  }

  predicate Inv(s: State) {
    WorkersKnown(s) && CommitsCovered(s) && BackupsJustified(s) && WindsUp(s) && SleepsSoundly(s)
  }

  /** The thread begins with the flags that activation left: is an fsck due, does the marker
      ask for a backup, is the database lost already? */
  function Start(fsckNeeded: bool, marker: bool, invalid: bool): State {
    State(Tran(false, false, false, false), Backup(marker, false, false, false, false, false, Absent),
          Fsck(fsckNeeded, false, false, false, Absent), Wait(false, false), invalid, false, BEGIN, false)
  }

  lemma BeginKeepsInv(s: State, outcome: Outcome)
    requires Inv(s) && s.pc <= ENTER
    ensures Inv(Begin(s, outcome))
  {
  }

  lemma SleepKeepsInv(s: State)
    requires Inv(s) && TOP <= s.pc <= WAITING
    ensures Inv(Sleep(s))
  {
  }

  lemma ReapKeepsInv(s: State)
    requires Inv(s) && REAP_FSCK <= s.pc <= JOINING_BACKUP
    ensures Inv(Reap(s))
  {
  }

  lemma PlanKeepsInv(s: State, due: bool, overdue: bool)
    requires Inv(s) && s.pc == SCHEDULE
    ensures Inv(Plan(s, due, overdue))
  {
  }

  lemma DecideKeepsInv(s: State, due: bool, overdue: bool)
    requires Inv(s) && CHECK_INVALID <= s.pc <= CHECK_SHUTDOWN
    ensures Inv(Decide(s, due, overdue))
  {
    hide Plan;
    if s.pc == SCHEDULE {
      PlanKeepsInv(s, due, overdue);
    }
  }

  lemma WindUpKeepsInv(s: State)
    requires Inv(s) && CANCEL_BACKUP <= s.pc <= SET_DONE && Enabled(s, Sync(false, false, Fine))
    ensures Inv(WindUp(s))
  {
  }

  lemma CommitKeepsInv(s: State, outcome: Outcome)
    requires Inv(s) && s.pc == COMMIT
    ensures Inv(DoCommit(s, outcome))
  {
  }

  lemma StartBackupKeepsInv(s: State, outcome: Outcome)
    requires Inv(s) && s.pc == START_BACKUP
    ensures Inv(DoStartBackup(s, outcome))
  {
  }

  lemma SyncKeepsInv(s: State, due: bool, overdue: bool, outcome: Outcome)
    requires Inv(s) && Enabled(s, Sync(due, overdue, outcome))
    ensures Inv(SyncStep(s, due, overdue, outcome))
  {
    hide Begin, Sleep, Reap, Decide, WindUp, DoCommit, DoStartBackup;
    if s.pc <= ENTER {
      BeginKeepsInv(s, outcome);
    } else if s.pc <= WAITING {
      SleepKeepsInv(s);
    } else if s.pc <= JOINING_BACKUP {
      ReapKeepsInv(s);
    } else if s.pc <= CHECK_SHUTDOWN {
      DecideKeepsInv(s, due, overdue);
    } else if s.pc <= SET_DONE {
      WindUpKeepsInv(s);
    } else if s.pc == COMMIT {
      CommitKeepsInv(s, outcome);
    } else if s.pc == START_BACKUP {
      StartBackupKeepsInv(s, outcome);
    }
  }

  /** The database refuses to begin a transaction without being lost, and yet the
      mini-transaction asks for a commit. */
  predicate CommitsUncovered(s: State, e: Event) {
    e.MiniTran? && e.beginning == Refused && !s.tran.isOpen && !s.invalid && !e.fatalInside && e.trigger
  }

  lemma OthersKeepInv(s: State, e: Event)
    requires Inv(s) && Enabled(s, e) && !e.Sync? && !CommitsUncovered(s, e)
    ensures Inv(Next(s, e))
  {
  }

  lemma StepKeepsInv(s: State, e: Event)
    requires Inv(s) && Enabled(s, e) && !CommitsUncovered(s, e)
    ensures Inv(Next(s, e))
  {
    hide Inv, SyncStep, DoMiniTran, DoBackupEnds;
    if e.Sync? {
      SyncKeepsInv(s, e.due, e.overdue, e.outcome);
    } else {
      OthersKeepInv(s, e);
    }
  }

  /** Exactly one event breaks the invariant. */
  lemma StepKeepsInvIff(s: State, e: Event)
    requires Inv(s) && Enabled(s, e)
    ensures Inv(Next(s, e)) <==> !CommitsUncovered(s, e)
  {
    if CommitsUncovered(s, e) {
      assert !CommitsCovered(Next(s, e));
      hide CommitsCovered, DoMiniTran;
    } else {
      hide Inv, Next, Enabled;
      StepKeepsInv(s, e);
    }
  }

  /** The events can happen in that order, and every commit asked for has a transaction. */
  predicate Possible(s: State, es: seq<Event>)
    decreases es
  {
    es == [] || (Enabled(s, es[0]) && !CommitsUncovered(s, es[0]) && Possible(Next(s, es[0]), es[1..]))
  }

  function Run(s: State, es: seq<Event>): State
    decreases es
  {
    if es == [] then s else Run(Next(s, es[0]), es[1..])
  }

  lemma {:induction false} RunKeepsInv(s: State, es: seq<Event>)
    requires Inv(s) && Possible(s, es)
    ensures Inv(Run(s, es))
    decreases es
  {
    if es != [] {
      StepKeepsInv(s, es[0]);
      RunKeepsInv(Next(s, es[0]), es[1..]);
    }
  }

  // ---------------------------------------------------------------- main results

  lemma StartSatisfiesInv(fsckNeeded: bool, marker: bool, invalid: bool)
    ensures Inv(Start(fsckNeeded, marker, invalid))
  {
  }

  /** Under every interleaving: no second backup worker, no backup while an fsck is due, no
      commit without an open transaction or on an invalid database, and a stopped sync thread
      has left no worker behind. */
  lemma SyncIsSafe(fsckNeeded: bool, marker: bool, invalid: bool, es: seq<Event>)
    requires Possible(Start(fsckNeeded, marker, invalid), es)
    ensures var s := Run(Start(fsckNeeded, marker, invalid), es);
            && !s.backup.overlapped && !s.tran.misfired
            && (s.backup.worker == Running ==> !s.fsck.needed)
            && (s.pc == STOPPED ==> s.backup.worker == Absent && s.fsck.worker == Absent)
  {
    StartSatisfiesInv(fsckNeeded, marker, invalid);
    RunKeepsInv(Start(fsckNeeded, marker, invalid), es);
  }

  lemma RunFirst(s: State, e: Event, es: seq<Event>)
    ensures Run(s, [e] + es) == Run(Next(s, e), es)
  {
    assert ([e] + es)[1..] == es;
  }

  /** Without that, a commit finds no open transaction: it is asked for while the sync thread
      sleeps, and made on the same pass because a backup is due. */
  lemma UncoveredCommitMisfires(es: seq<Event>)
    requires var sync := Sync(false, false, Fine);
             es == [sync, sync, sync, sync, MiniTran(Refused, false, true), sync, sync, sync, sync, Sync(true, false, Fine), sync, sync]
    ensures Run(Start(false, false, false), es).tran.misfired
  {
    var sync := Sync(false, false, Fine);
    var s0 := Start(false, false, false);
    FallsAsleep(s0, es);
    WakesUncovered(s0.(pc := WAITING), es[4..]);
  }

  /** From the beginning to the first sleep, with nothing due. */
  lemma FallsAsleep(s: State, es: seq<Event>)
    requires s == Start(false, false, false) && |es| >= 4 && forall i | 0 <= i < 4 :: es[i] == Sync(false, false, Fine)
    ensures Run(s, es) == Run(s.(pc := WAITING), es[4..])
  {
    var sync := Sync(false, false, Fine);
    assert Next(s, sync) == s.(pc := ENTER) && Next(s.(pc := ENTER), sync) == s.(pc := TOP);
    assert Next(s.(pc := TOP), sync) == s.(pc := CHECK_WAIT) && Next(s.(pc := CHECK_WAIT), sync) == s.(pc := WAITING);
    hide Next;
    assert [sync] + es[1..] == es && [sync] + es[2..] == es[1..] && [sync] + es[3..] == es[2..] && [sync] + es[4..] == es[3..];
    RunFirst(s, sync, es[1..]);
    RunFirst(s.(pc := ENTER), sync, es[2..]);
    RunFirst(s.(pc := TOP), sync, es[3..]);
    RunFirst(s.(pc := CHECK_WAIT), sync, es[4..]);
  }

  lemma WakesUncovered(s: State, es: seq<Event>)
    requires var sync := Sync(false, false, Fine);
             es == [MiniTran(Refused, false, true), sync, sync, sync, sync, Sync(true, false, Fine), sync, sync]
    requires s == Start(false, false, false).(pc := WAITING)
    ensures Run(s, es).tran.misfired
  {
    var s1 := Next(s, es[0]);
    assert s1.tran.needsCommit && !s1.tran.isOpen && !s1.invalid && s1.wait.signalled && s1.pc == WAITING;
    hide Next;
    assert [es[0]] + es[1..] == es;
    RunFirst(s, es[0], es[1..]);
    QuietPass(s1, es[1..]);
    assert es[1..][4..] == es[5..];
    CommitsUncoveredNow(s1.(pc := SCHEDULE), es[5..]);
  }

  /** Waking up with nothing to reap. */
  lemma QuietPass(s: State, es: seq<Event>)
    requires s.pc == WAITING && !s.invalid && !s.backup.inProgress && !s.fsck.inProgress
    requires |es| >= 4 && forall i | 0 <= i < 4 :: es[i] == Sync(false, false, Fine)
    ensures Run(s, es) == Run(s.(pc := SCHEDULE), es[4..])
  {
    var sync := Sync(false, false, Fine);
    assert Next(s, sync) == s.(pc := REAP_FSCK) && Next(s.(pc := REAP_FSCK), sync) == s.(pc := REAP_BACKUP);
    assert Next(s.(pc := REAP_BACKUP), sync) == s.(pc := CHECK_INVALID) && Next(s.(pc := CHECK_INVALID), sync) == s.(pc := SCHEDULE);
    hide Next;
    assert [sync] + es[1..] == es && [sync] + es[2..] == es[1..] && [sync] + es[3..] == es[2..] && [sync] + es[4..] == es[3..];
    RunFirst(s, sync, es[1..]);
    RunFirst(s.(pc := REAP_FSCK), sync, es[2..]);
    RunFirst(s.(pc := REAP_BACKUP), sync, es[3..]);
    RunFirst(s.(pc := CHECK_INVALID), sync, es[4..]);
  }

  lemma CommitsUncoveredNow(s: State, es: seq<Event>)
    requires es == [Sync(true, false, Fine), Sync(false, false, Fine), Sync(false, false, Fine)]
    requires s.pc == SCHEDULE && s.tran.needsCommit && !s.tran.isOpen && !s.invalid && !s.shutdown
    requires !s.backup.inProgress && !s.fsck.needed
    ensures Run(s, es).tran.misfired
  {
    var s1 := Next(s, es[0]);
    var s2 := Next(s1, es[1]);
    RunFirst(s, es[0], es[1..]);
    RunFirst(s1, es[1], es[2..]);
    RunFirst(s2, es[2], []);
    assert [es[0]] + es[1..] == es && [es[1]] + es[2..] == es[1..] && [es[2]] + [] == es[2..];
    assert s2.pc == COMMIT && s2.tran.doCommit;
  }

  /** Further passes after this one, once the database is lost or a shutdown is wanted. */
  function PassesLeft(s: State): nat {
    if s.done || (s.shutdown && s.pc <= SET_DONE) then 0
    else if s.shutdown || s.pc <= CHECK_INVALID then 1
    else 2
  }

  function StepsLeft(s: State): nat {
    20 * PassesLeft(s) + STOPPED - s.pc
  }

  /** The step that ends the loop leaves nothing to commit, unless the database is lost. */
  lemma StopsWithNothingPending(s: State, e: Event)
    requires Inv(s) && Enabled(s, e) && s.pc != STOPPED && Next(s, e).pc == STOPPED
    ensures s.shutdown && (s.invalid || !Next(s, e).tran.needsCommit)
    ensures Next(s, e).backup.worker == Absent && Next(s, e).fsck.worker == Absent
  {
    hide BackupsJustified, CommitsCovered;
    if e.Sync? {
      OnlyTheTestStops(s, e.due, e.overdue, e.outcome);
    }
  }

  lemma OnlyTheTestStops(s: State, due: bool, overdue: bool, outcome: Outcome)
    requires s.pc != STOPPED
    ensures SyncStep(s, due, overdue, outcome).pc == STOPPED ==> s.pc == LOOP_TEST && s.done
  {
  }

  /** From then on every step of the sync thread brings it closer to stopping, at most two
      passes later, and nobody else can push it back. */
  lemma SyncWindsDown(s: State, e: Event)
    requires Inv(s) && Enabled(s, e) && (s.invalid || s.shutdown)
    ensures Next(s, e).invalid || Next(s, e).shutdown
    ensures e.Sync? ==> StepsLeft(Next(s, e)) < StepsLeft(s)
    ensures !e.Sync? ==> StepsLeft(Next(s, e)) <= StepsLeft(s)
  {
    hide WorkersKnown, CommitsCovered, BackupsJustified;
    if e.Sync? {
      SyncStepsDown(s, e.due, e.overdue, e.outcome);
    }
  }

  lemma SyncStepsDown(s: State, due: bool, overdue: bool, outcome: Outcome)
    requires WindsUp(s) && s.pc != STOPPED && (s.invalid || s.shutdown)
    ensures var t := SyncStep(s, due, overdue, outcome); (t.invalid || t.shutdown) && StepsLeft(t) < StepsLeft(s)
  {
  }

  /** Asleep until woken, and rightly so: nothing to stop for, to commit, to reap or to back up. */
  predicate Resting(s: State) {
    && s.pc == WAITING && !s.wait.timed && !s.wait.signalled
    && !s.shutdown && !s.invalid && !s.tran.needsCommit
    && !(s.backup.inProgress && s.backup.done) && !(s.fsck.inProgress && s.fsck.done)
    && !(s.backup.needed && !s.fsck.needed)
  }

  /** No wake-up is missed: after any run, a sync thread that sleeps without a timeout and was
      not woken has no shutdown, no lost database and nothing to commit to react to; and if
      there is a worker to reap or a backup to make, the fsck worker has yet to wake it. */
  lemma NoWakeUpIsMissed(fsckNeeded: bool, marker: bool, invalid: bool, es: seq<Event>)
    requires Possible(Start(fsckNeeded, marker, invalid), es)
    ensures var s := Run(Start(fsckNeeded, marker, invalid), es);
            s.pc == WAITING && !s.wait.timed && !s.wait.signalled ==>
              && !s.shutdown && !s.invalid && !s.tran.needsCommit && !(s.backup.inProgress && s.backup.done)
              && (s.fsck.inProgress && s.fsck.done ==> Enabled(s, FsckExits) && Next(s, FsckExits).wait.signalled)
              && (s.backup.needed && !s.fsck.needed ==> WillSignal(s.fsck))
  {
    StartSatisfiesInv(fsckNeeded, marker, invalid);
    RunKeepsInv(Start(fsckNeeded, marker, invalid), es);
  }

  /** How far the workers are from being joined. */
  function WorkerSteps(s: State): nat {
    (match s.backup.worker case Running => 2 case Ending => 1 case _ => 0)
    + (match s.fsck.worker case Running => if s.fsck.clearing then 3 else 2 case Ending => 1 case _ => 0)
  }

  /** It is never stuck: unless it has stopped or rests, it can go on, or the worker that is to
      wake it or that it is joining can, and comes nearer to its end. */
  lemma NeverStuck(s: State) returns (e: Event)
    requires Inv(s) && s.pc != STOPPED && !Resting(s)
    ensures Enabled(s, e) && (e.Sync? || WorkerSteps(Next(s, e)) < WorkerSteps(s))
    ensures e.BackupEnds? || e.BackupExits? ==> s.pc == JOINING_BACKUP || s.pc == CANCEL_BACKUP
    ensures e.FsckClears? || e.FsckSignals? || e.FsckExits? ==> s.pc == JOINING_FSCK || s.pc == CANCELLING_FSCK || s.pc == WAITING
    ensures !e.MiniTran? && !e.DbError? && !e.Shutdown? && !e.Spurious? && !e.FsckDecides?
  {
    e := Sync(false, false, Fine);
    if s.pc == JOINING_BACKUP || s.pc == CANCEL_BACKUP {
      if s.backup.worker.Running? { e := BackupEnds(Fine, true, false); }
      if s.backup.worker.Ending? { e := BackupExits; }
    } else if s.pc == JOINING_FSCK || s.pc == CANCELLING_FSCK || (s.pc == WAITING && !s.wait.timed && !s.wait.signalled) {
      if s.fsck.worker.Running? { e := if s.fsck.clearing then FsckClears else FsckSignals; }
      if s.fsck.worker.Ending? { e := FsckExits; }
    }
  }

  // ---------------------------------------------------------------- pending changes are committed

  /** A change that is to be committed, on a database that is not lost. */
  predicate Pending(s: State) { s.tran.needsCommit && !s.invalid }

  /** A mini-transaction that asks for a commit leaves one pending, in an open transaction. */
  lemma TriggerIsPending(s: State, beginning: Outcome, fatalInside: bool)
    requires Inv(s) && !s.invalid && !fatalInside && beginning == Fine
    ensures var t := Next(s, MiniTran(beginning, fatalInside, true)); Pending(t) && t.tran.isOpen
    ensures s.pc == WAITING ==> Enabled(Next(s, MiniTran(beginning, fatalInside, true)), Sync(false, false, Fine))
  {
  }

  /** The pass of the loop that commits it is under way. */
  predicate Scheduled(s: State) {
    s.invalid || (s.tran.needsCommit && s.tran.doCommit && TOP < s.pc <= COMMIT)
  }

  /** The loop schedules whatever is pending when it comes to the top. */
  lemma TopSchedules(s: State, due: bool, overdue: bool, outcome: Outcome)
    requires s.pc == TOP && Pending(s)
    ensures Scheduled(SyncStep(s, due, overdue, outcome))
  {
  }

  /** And carries it through. */
  lemma ScheduledIsCommitted(s: State, e: Event)
    requires Inv(s) && Enabled(s, e) && Scheduled(s)
    ensures if e.Sync? && s.pc == COMMIT then !Pending(Next(s, e)) else Scheduled(Next(s, e))
  {
    hide WorkersKnown, BackupsJustified, WindsUp, SleepsSoundly;
    if e.Sync? {
      ScheduledStep(s, e.due, e.overdue, e.outcome);
    }
  }

  lemma ScheduledStep(s: State, due: bool, overdue: bool, outcome: Outcome)
    requires Scheduled(s) && s.pc != STOPPED
    ensures var t := SyncStep(s, due, overdue, outcome); if s.pc == COMMIT then !Pending(t) else Scheduled(t)
  {
  }

  /** No event of the run is the step that commits. */
  predicate BeforeCommit(s: State, es: seq<Event>)
    decreases es
  {
    es == [] || (!(es[0].Sync? && s.pc == COMMIT) && BeforeCommit(Next(s, es[0]), es[1..]))
  }

  lemma {:induction false} StaysScheduled(s: State, es: seq<Event>)
    requires Inv(s) && Possible(s, es) && Scheduled(s) && BeforeCommit(s, es)
    ensures Scheduled(Run(s, es))
    decreases es
  {
    hide Inv, Next, Enabled, Scheduled, CommitsUncovered;
    if es != [] {
      StepKeepsInv(s, es[0]);
      ScheduledIsCommitted(s, es[0]);
      StaysScheduled(Next(s, es[0]), es[1..]);
    }
  }

  /** Main result on one pass: along every run from the top of the loop with a change pending,
      the first step that commits leaves nothing pending, and after it nothing to commit but on
      a lost database. */
  lemma PassCommits(s: State, first: Event, es: seq<Event>, last: Event)
    requires Inv(s) && s.pc == TOP && Pending(s) && first.Sync?
    requires Enabled(s, first) && Possible(Next(s, first), es) && BeforeCommit(Next(s, first), es)
    requires var t := Run(Next(s, first), es); t.pc == COMMIT && Enabled(t, last) && last.Sync?
    ensures var t := Next(Run(Next(s, first), es), last); t.pc == START_BACKUP && (t.invalid || !t.tran.needsCommit)
  {
    TopSchedules(s, first.due, first.overdue, first.outcome);
    assert !CommitsUncovered(s, first);
    StepKeepsInv(s, first);
    StaysScheduled(Next(s, first), es);
    RunKeepsInv(Next(s, first), es);
    ScheduledIsCommitted(Run(Next(s, first), es), last);
    CommitGoesOn(Run(Next(s, first), es), last.outcome);
    hide Inv, DoCommit, Run, Possible;
  }

  lemma CommitGoesOn(s: State, outcome: Outcome)
    requires s.pc == COMMIT
    ensures DoCommit(s, outcome).pc == START_BACKUP
  {
  }

  /** Steps of the sync thread until what is pending is committed: to the end of this pass if it
      is scheduled or will be, else to the end of the next. */
  function CommitSteps(s: State): nat {
    if !Pending(s) then 0
    else if s.pc <= TOP || (s.pc <= COMMIT && s.tran.doCommit) then START_BACKUP - s.pc
    else START_BACKUP + STOPPED - s.pc
  }

  /** While a change is pending every step of the sync thread brings its commit nearer, at most
      two passes away, and nobody else puts it off. */
  lemma CommitComesNearer(s: State, e: Event)
    requires Inv(s) && Enabled(s, e) && Pending(s)
    ensures e.Sync? ==> CommitSteps(Next(s, e)) < CommitSteps(s)
    ensures !e.Sync? ==> CommitSteps(Next(s, e)) <= CommitSteps(s)
    ensures 0 < CommitSteps(s) < 36
  {
    hide WorkersKnown, BackupsJustified, SleepsSoundly;
    if e.Sync? {
      CommitStepsFall(s, e.due, e.overdue, e.outcome);
    }
  }

  lemma CommitStepsFall(s: State, due: bool, overdue: bool, outcome: Outcome)
    requires WindsUp(s) && CommitsCovered(s) && s.pc != STOPPED && Pending(s)
    ensures CommitSteps(SyncStep(s, due, overdue, outcome)) < CommitSteps(s)
  {
  }

  /** How many of the events are steps of the sync thread. */
  function SyncSteps(es: seq<Event>): nat {
    if es == [] then 0 else (if es[0].Sync? then 1 else 0) + SyncSteps(es[1..])
  }

  /** At some point of the run nothing is pending. */
  predicate SettledOnce(s: State, es: seq<Event>)
    decreases es
  {
    !Pending(s) || (es != [] && SettledOnce(Next(s, es[0]), es[1..]))
  }

  /** Main result: whatever else happens, once the sync thread has made that many steps what was
      pending has been committed, or the database is lost. */
  lemma {:induction false} PendingIsCommitted(s: State, es: seq<Event>)
    requires Inv(s) && Possible(s, es) && SyncSteps(es) >= CommitSteps(s)
    ensures SettledOnce(s, es)
    decreases es
  {
    hide Inv, Next, Enabled, Pending, CommitsUncovered, CommitSteps;
    if Pending(s) {
      if es == [] {
        StillPending(s);
      } else {
        CommitComesNearer(s, es[0]);
        StepKeepsInv(s, es[0]);
        PendingIsCommitted(Next(s, es[0]), es[1..]);
      }
    }
  }

  lemma StillPending(s: State)
    requires Pending(s)
    ensures Inv(s) ==> CommitSteps(s) > 0
  {
  }

  // ---------------------------------------------------------------- backups are made, and of what

  /** What is backed up has been committed; and a worker that was done when the loop looked has
      been reaped. */
  predicate BackupsClean(s: State) {
    && (s.pc == CHECK_SHUTDOWN || s.pc == COMMIT ==>
          (s.backup.go && !s.shutdown && !s.invalid ==> s.tran.doCommit == s.tran.needsCommit))
    && (s.pc == START_BACKUP ==> (s.backup.go && !s.shutdown && !s.invalid ==> !s.tran.needsCommit))
    && (CHECK_INVALID <= s.pc <= CHECK_SHUTDOWN ==> !(s.backup.inProgress && s.backup.done))
  }

  lemma StepKeepsClean(s: State, e: Event)
    requires Inv(s) && Enabled(s, e) && BackupsClean(s)
    ensures BackupsClean(Next(s, e))
  {
    hide CommitsCovered, WindsUp, SleepsSoundly;
    if e.Sync? {
      SyncKeepsClean(s, e.due, e.overdue, e.outcome);
    }
  }

  lemma SyncKeepsClean(s: State, due: bool, overdue: bool, outcome: Outcome)
    requires WorkersKnown(s) && BackupsJustified(s) && BackupsClean(s) && s.pc != STOPPED
    ensures BackupsClean(SyncStep(s, due, overdue, outcome))
  {
    hide Begin, Sleep, Reap, Decide, WindUp, DoCommit, DoStartBackup;
    if s.pc < REAP_FSCK {
      SleepKeepsClean(s, outcome);
    } else if s.pc <= JOINING_BACKUP {
      ReapKeepsClean(s);
    } else if s.pc <= CHECK_SHUTDOWN {
      DecideKeepsClean(s, due, overdue);
    } else if s.pc <= SET_DONE {
      WindUpKeepsClean(s);
    } else {
      LastKeepClean(s, outcome);
    }
  }

  lemma SleepKeepsClean(s: State, outcome: Outcome)
    requires BackupsClean(s) && s.pc < REAP_FSCK
    ensures s.pc <= ENTER ==> BackupsClean(Begin(s, outcome))
    ensures s.pc > ENTER ==> BackupsClean(Sleep(s))
  {
  }

  lemma ReapKeepsClean(s: State)
    requires WorkersKnown(s) && BackupsClean(s) && REAP_FSCK <= s.pc <= JOINING_BACKUP
    ensures BackupsClean(Reap(s))
  {
  }

  lemma DecideKeepsClean(s: State, due: bool, overdue: bool)
    requires BackupsJustified(s) && BackupsClean(s) && CHECK_INVALID <= s.pc <= CHECK_SHUTDOWN
    ensures BackupsClean(Decide(s, due, overdue))
  {
    if s.pc == SCHEDULE {
      PlanKeepsClean(s, due, overdue);
    }
    hide Plan;
  }

  lemma PlanKeepsClean(s: State, due: bool, overdue: bool)
    requires BackupsJustified(s) && BackupsClean(s) && s.pc == SCHEDULE
    ensures BackupsClean(Plan(s, due, overdue))
  {
  }

  lemma WindUpKeepsClean(s: State)
    requires WorkersKnown(s) && BackupsClean(s) && CANCEL_BACKUP <= s.pc <= SET_DONE
    ensures BackupsClean(WindUp(s))
  {
  }

  lemma LastKeepClean(s: State, outcome: Outcome)
    requires BackupsJustified(s) && BackupsClean(s)
    ensures s.pc == COMMIT ==> BackupsClean(DoCommit(s, outcome))
    ensures s.pc == START_BACKUP ==> BackupsClean(DoStartBackup(s, outcome))
    ensures s.pc == LOOP_TEST ==> BackupsClean(s.(pc := if s.done then STOPPED else TOP))
  {
  }

  lemma {:induction false} RunKeepsClean(s: State, es: seq<Event>)
    requires Inv(s) && BackupsClean(s) && Possible(s, es)
    ensures BackupsClean(Run(s, es))
    decreases es
  {
    hide Inv, Next, Enabled, BackupsClean, CommitsUncovered;
    if es != [] {
      StepKeepsInv(s, es[0]);
      StepKeepsClean(s, es[0]);
      RunKeepsClean(Next(s, es[0]), es[1..]);
    }
  }

  /** After any run, a step that starts a backup finds everything committed. */
  lemma BackupIsOfCommittedData(fsckNeeded: bool, marker: bool, invalid: bool, es: seq<Event>, e: Event)
    requires Possible(Start(fsckNeeded, marker, invalid), es) && Enabled(Run(Start(fsckNeeded, marker, invalid), es), e)
    ensures var s := Run(Start(fsckNeeded, marker, invalid), es);
            s.backup.worker == Absent && Next(s, e).backup.worker == Running ==> !s.tran.needsCommit && !s.invalid && !s.fsck.needed
  {
    var s0 := Start(fsckNeeded, marker, invalid);
    StartSatisfiesInv(fsckNeeded, marker, invalid);
    RunKeepsInv(s0, es);
    RunKeepsClean(s0, es);
    hide Run, Possible;
    var s := Run(s0, es);
    if s.backup.worker == Absent && Next(s, e).backup.worker == Running {
      StartsOnlyThere(s, e);
    }
  }

  lemma StartsOnlyThere(s: State, e: Event)
    requires Enabled(s, e) && s.backup.worker == Absent && Next(s, e).backup.worker == Running
    ensures e.Sync? && s.pc == START_BACKUP && s.backup.go && !s.shutdown && !s.invalid && !s.fsck.needed
  {
    hide Next, Enabled, SyncStep;
    if e.Sync? {
      NextOfSync(s, e);
      SyncStartsOnlyThere(s, e.due, e.overdue, e.outcome);
    } else {
      OthersStartNoBackup(s, e);
    }
  }

  lemma NextOfSync(s: State, e: Event)
    requires e.Sync?
    ensures Next(s, e) == SyncStep(s, e.due, e.overdue, e.outcome)
  {
  }

  lemma OthersStartNoBackup(s: State, e: Event)
    requires Enabled(s, e) && !e.Sync? && s.backup.worker == Absent
    ensures Next(s, e).backup.worker == Absent
  {
  }

  lemma SyncStartsOnlyThere(s: State, due: bool, overdue: bool, outcome: Outcome)
    requires s.backup.worker == Absent && SyncStep(s, due, overdue, outcome).backup.worker == Running
    ensures s.pc == START_BACKUP && s.backup.go && !s.shutdown && !s.invalid && !s.fsck.needed
  {
    FirstPhasesStartNone(s, outcome);
    ReapStartsNone(s);
    DecideStartsNone(s, due, overdue);
    LastPhasesStartNone(s, outcome);
    hide Begin, Sleep, Reap, Decide, WindUp, DoCommit;
  }

  lemma FirstPhasesStartNone(s: State, outcome: Outcome)
    requires s.backup.worker == Absent
    ensures Begin(s, outcome).backup.worker == Sleep(s).backup.worker == Absent
  {
  }

  lemma ReapStartsNone(s: State)
    requires s.backup.worker == Absent
    ensures Reap(s).backup.worker == Absent
  {
  }

  lemma DecideStartsNone(s: State, due: bool, overdue: bool)
    requires s.backup.worker == Absent
    ensures Decide(s, due, overdue).backup.worker == Absent
  {
    PlanStartsNone(s, due, overdue);
    hide Plan;
  }

  lemma PlanStartsNone(s: State, due: bool, overdue: bool)
    requires s.backup.worker == Absent
    ensures Plan(s, due, overdue).backup.worker == Absent
  {
  }

  lemma LastPhasesStartNone(s: State, outcome: Outcome)
    requires s.backup.worker == Absent
    ensures WindUp(s).backup.worker == DoCommit(s, outcome).backup.worker == Absent
  {
  }

  /** A change that is pending when the loop plans makes a backup wanted. */
  lemma PendingWantsBackup(s: State, due: bool, overdue: bool)
    requires Pending(s)
    ensures Plan(s, due, overdue).backup.needed
  {
  }

  /** A backup is decided on. */
  predicate Chosen(s: State) {
    s.invalid || s.shutdown || (s.backup.go && !s.fsck.needed && CHECK_SHUTDOWN <= s.pc <= START_BACKUP)
  }

  /** It is when one is wanted, is due or overdue, none is being made and no fsck stands before it. */
  lemma DueBackupIsChosen(s: State, due: bool, overdue: bool, outcome: Outcome)
    requires s.pc == SCHEDULE && (s.backup.needed || Pending(s)) && !s.backup.inProgress && !s.fsck.needed
    requires due || overdue || s.backup.force
    ensures Chosen(SyncStep(s, due, overdue, outcome))
  {
  }

  /** And then it is started, unless the database is lost or a shutdown is wanted first. */
  lemma ChosenIsStarted(s: State, e: Event)
    requires Inv(s) && Enabled(s, e) && Chosen(s)
    ensures if e.Sync? && s.pc == START_BACKUP then Next(s, e).invalid || Next(s, e).shutdown || Next(s, e).backup.worker == Running
            else Chosen(Next(s, e))
  {
    hide WorkersKnown, CommitsCovered, WindsUp, SleepsSoundly;
    if e.Sync? {
      ChosenStep(s, e.due, e.overdue, e.outcome);
    }
  }

  lemma ChosenStep(s: State, due: bool, overdue: bool, outcome: Outcome)
    requires Chosen(s) && s.pc != STOPPED
    ensures var t := SyncStep(s, due, overdue, outcome);
            if s.pc == START_BACKUP then t.invalid || t.shutdown || t.backup.worker == Running else Chosen(t)
  {
  }

  /** A backup stops being wanted exactly when one ends well: complete, undisturbed, on a sound
      database with no transaction open, and not older than the last commit. */
  lemma BackupDoneIff(s: State, outcome: Outcome, interrupted: bool, tooOld: bool)
    requires s.backup.needed
    ensures var t := Next(s, BackupEnds(outcome, interrupted, tooOld));
            && t.backup.done && t.backup.worker == Ending && t.wait.signalled
            && (!t.backup.needed <==> outcome == Fine && !s.invalid && !interrupted && !tooOld && !s.tran.isOpen)
            && (t.invalid <==> s.invalid || outcome == Fatal)
  {
  }

  /** Of all events only such an end, and the end of an fsck, change what is wanted. */
  lemma FsckDoneIff(s: State, e: Event)
    requires Inv(s) && Enabled(s, e) && s.fsck.needed
    ensures !Next(s, e).fsck.needed <==> e.FsckClears?
  {
    hide Inv, SyncStep;
    if e.Sync? {
      SyncKeepsFsckNeeded(s, e.due, e.overdue, e.outcome);
    }
  }

  lemma SyncKeepsFsckNeeded(s: State, due: bool, overdue: bool, outcome: Outcome)
    ensures SyncStep(s, due, overdue, outcome).fsck.needed == s.fsck.needed
  {
    FirstPhasesKeepFsckNeeded(s, outcome);
    LastPhasesKeepFsckNeeded(s, due, overdue, outcome);
    hide Begin, Sleep, Reap, Decide, WindUp, DoCommit, DoStartBackup;
  }

  lemma FirstPhasesKeepFsckNeeded(s: State, outcome: Outcome)
    ensures Begin(s, outcome).fsck.needed == Sleep(s).fsck.needed == Reap(s).fsck.needed == s.fsck.needed
  {
  }

  lemma LastPhasesKeepFsckNeeded(s: State, due: bool, overdue: bool, outcome: Outcome)
    ensures Decide(s, due, overdue).fsck.needed == WindUp(s).fsck.needed == s.fsck.needed
    ensures DoCommit(s, outcome).fsck.needed == DoStartBackup(s, outcome).fsck.needed == s.fsck.needed
  {
    PlanKeepsFsckNeeded(s, due, overdue);
    EndKeepsFsckNeeded(s, outcome);
    hide Plan, DoCommit, DoStartBackup;
  }

  lemma PlanKeepsFsckNeeded(s: State, due: bool, overdue: bool)
    ensures Plan(s, due, overdue).fsck.needed == s.fsck.needed
  {
  }

  lemma EndKeepsFsckNeeded(s: State, outcome: Outcome)
    ensures DoCommit(s, outcome).fsck.needed == DoStartBackup(s, outcome).fsck.needed == s.fsck.needed
  {
  }

  // ---------------------------------------------------------------- who may act, and what it does

  /** The sync thread goes on unless it has stopped, is asleep with nothing to end that, or joins
      a worker that has not ended. */
  lemma SyncMayGoIff(s: State, due: bool, overdue: bool, outcome: Outcome)
    ensures Enabled(s, Sync(due, overdue, outcome))
       <==> && s.pc != STOPPED
            && (s.pc == WAITING ==> s.wait.timed || s.wait.signalled)
            && (s.pc in {JOINING_FSCK, CANCELLING_FSCK} ==> s.fsck.worker == Ended)
            && (s.pc in {JOINING_BACKUP, CANCEL_BACKUP} ==> s.backup.worker == Ended)
  {
  }

  /** Where the sync thread works on its flags nobody else holds the mutex; it gives it up before
      the loop, in the wait, in the four joins, and at the end. */
  lemma MutexExcludes(s: State, e: Event)
    ensures Enabled(s, e) && s.pc !in {BEGIN, ENTER, WAITING, JOINING_FSCK, JOINING_BACKUP, CANCEL_BACKUP, CANCELLING_FSCK, STOPPED} ==>
              e.Sync? || e.BackupExits? || e.FsckDecides? || e.FsckClears? || e.FsckSignals?
    ensures s.pc in {BEGIN, ENTER, WAITING, JOINING_FSCK, JOINING_BACKUP, CANCEL_BACKUP, CANCELLING_FSCK, STOPPED} ==>
              && (e.MiniTran? || e.DbError? || e.Shutdown? ==> Enabled(s, e))
              && (e.BackupEnds? ==> (Enabled(s, e) <==> s.backup.worker == Running))
              && (e.FsckExits? ==> (Enabled(s, e) <==> s.fsck.worker == Ending))
    ensures e.Spurious? ==> (Enabled(s, e) <==> s.pc == WAITING)
  {
  }

  /** A worker runs, then has reported that it is done, and then ends. */
  lemma WorkersMayGo(s: State, completed: bool)
    ensures Enabled(s, BackupExits) <==> s.backup.worker == Ending
    ensures Enabled(s, FsckDecides(completed)) <==> s.fsck.worker == Running && !s.fsck.clearing
    ensures Enabled(s, FsckClears) <==> s.fsck.worker == Running && s.fsck.clearing
    ensures Enabled(s, FsckSignals) <==> s.fsck.worker == Running && !s.fsck.clearing
  {
  }

  lemma MiniTranAnswers(s: State, beginning: Outcome, fatalInside: bool, trigger: bool)
    ensures var t := Next(s, MiniTran(beginning, fatalInside, trigger));
            && (t.invalid <==> s.invalid || fatalInside || (!s.tran.isOpen && beginning == Fatal))
            && (t.tran.isOpen <==> s.tran.isOpen || (!s.invalid && beginning == Fine))
            && (t.tran.needsCommit <==> s.tran.needsCommit || trigger)
            && (t.wait.signalled <==> s.wait.signalled || (trigger && !s.tran.needsCommit) || (t.invalid && !s.invalid))
            && t.tran.doCommit == s.tran.doCommit && t.pc == s.pc && t.shutdown == s.shutdown && t.backup == s.backup && t.fsck == s.fsck
  {
  }

  /** An error, a shutdown and each end of a worker set their flag, and wake the sync thread, the
      first two only if they are news. */
  lemma SignalsAnswer(s: State)
    ensures Next(s, DbError) == s.(invalid := true, wait := s.wait.(signalled := s.wait.signalled || !s.invalid))
    ensures Next(s, Shutdown) == s.(shutdown := true, wait := s.wait.(signalled := s.wait.signalled || !s.shutdown))
    ensures Next(s, Spurious) == s.(wait := s.wait.(signalled := true))
    ensures Next(s, BackupExits) == s.(backup := s.backup.(worker := Ended))
    ensures Next(s, FsckSignals) == s.(fsck := s.fsck.(done := true, worker := Ending))
    ensures Next(s, FsckExits) == s.(fsck := s.fsck.(worker := Ended), wait := s.wait.(signalled := true))
  {
  }

  /** An fsck that completes on a sound database, with no shutdown wanted, is no longer due; any
      other leaves everything as it was. */
  lemma FsckAnswers(s: State, completed: bool)
    ensures var t := Next(s, FsckDecides(completed));
            if completed && !s.invalid && !s.shutdown then t == s.(fsck := s.fsck.(clearing := true)) else t == s
    ensures Next(s, FsckClears) == s.(fsck := s.fsck.(needed := false, clearing := false))
  {
  }

  /** At activation nothing is open, wanted or running but what the flags say. */
  lemma StartAnswers(fsckNeeded: bool, marker: bool, invalid: bool)
    ensures var s := Start(fsckNeeded, marker, invalid);
            && !s.tran.isOpen && !s.tran.needsCommit && !s.tran.doCommit && !s.shutdown && !s.done
            && s.invalid == invalid && s.backup.needed == marker && s.fsck.needed == fsckNeeded
            && !s.backup.done && !s.backup.go && !s.backup.force && !s.backup.inProgress && s.backup.worker == Absent
            && !s.fsck.done && !s.fsck.inProgress && !s.fsck.clearing && s.fsck.worker == Absent && s.pc == BEGIN
  {
  }

  /** Before the loop the fsck that is due is started, if the database is sound and it can be. */
  lemma BeginAnswers(s: State, outcome: Outcome)
    requires s.pc == BEGIN
    ensures var t := SyncStep(s, false, false, outcome);
            && t.pc == ENTER
            && (if s.fsck.needed && !s.invalid && outcome == Fine
                then t.fsck == s.fsck.(inProgress := true, worker := Running) else t.fsck == s.fsck)
            && t == s.(fsck := t.fsck, pc := ENTER)
  {
  }

  /** The sleep has a timeout when something is pending, or a backup is wanted that no fsck stands
      before; and it begins unless there is a shutdown, a lost database or a worker to reap. */
  lemma SleepAnswers(s: State)
    ensures s.pc == TOP ==>
              var t := Sleep(s);
              && (t.wait.timed <==> s.tran.needsCommit || (s.backup.needed && !s.fsck.needed))
              && (t.tran.doCommit <==> s.tran.doCommit || s.tran.needsCommit)
              && t == s.(tran := s.tran.(doCommit := t.tran.doCommit), wait := Wait(t.wait.timed, false), pc := CHECK_WAIT)
    ensures s.pc == CHECK_WAIT ==>
              if s.shutdown || s.invalid || (s.fsck.inProgress && s.fsck.done) || (s.backup.inProgress && s.backup.done)
              then Sleep(s) == s.(pc := REAP_FSCK)
              else Sleep(s) == s.(wait := Wait(s.wait.timed, false), pc := WAITING)
    ensures s.pc == WAITING ==> Sleep(s) == s.(pc := REAP_FSCK)
  {
  }

  /** A worker that has reported is joined, then forgotten; one that has not is left alone. */
  lemma ReapAnswers(s: State)
    ensures s.pc == REAP_FSCK ==>
              Reap(s) == if s.fsck.inProgress && s.fsck.done then s.(fsck := s.fsck.(inProgress := false), pc := JOINING_FSCK)
                         else s.(pc := REAP_BACKUP)
    ensures s.pc == JOINING_FSCK ==> Reap(s) == s.(fsck := s.fsck.(worker := Absent), pc := REAP_BACKUP)
    ensures s.pc == REAP_BACKUP ==>
              Reap(s) == if s.backup.inProgress && s.backup.done then s.(backup := s.backup.(inProgress := false), pc := JOINING_BACKUP)
                         else s.(pc := CHECK_INVALID)
    ensures s.pc == JOINING_BACKUP ==> Reap(s) == s.(backup := s.backup.(worker := Absent), pc := CHECK_INVALID)
  {
  }

  /** When the loop finds the database lost, what was pending is rolled back and a shutdown is
      wanted; the loop begins again to see to it. */
  lemma LossAnswers(s: State, due: bool, overdue: bool)
    requires s.pc == CHECK_INVALID
    ensures Decide(s, due, overdue) ==
              if s.invalid && !s.shutdown then s.(tran := s.tran.(needsCommit := false), shutdown := true, pc := TOP)
              else s.(pc := SCHEDULE)
  {
  }

  /** A backup is planned when one is wanted, or something pending wants one, none is being made,
      and no fsck stands before it; overdue ones are remembered until then. */
  lemma PlanAnswers(s: State, due: bool, overdue: bool)
    requires s.pc == SCHEDULE
    ensures var t, wanted := Plan(s, due, overdue), s.backup.needed || Pending(s);
            && t.pc == CHECK_SHUTDOWN && t.backup.needed == wanted
            && (if wanted && !s.backup.inProgress && !s.fsck.needed
                then && (t.backup.go <==> due || overdue || s.backup.force) && !t.backup.force
                     && t.tran == (if t.backup.go then s.tran.(doCommit := s.tran.needsCommit) else s.tran)
                else && t.backup.go == s.backup.go && (t.backup.force <==> s.backup.force || overdue) && t.tran == s.tran)
            && t == s.(tran := t.tran, backup := s.backup.(needed := wanted, go := t.backup.go, force := t.backup.force), pc := CHECK_SHUTDOWN)
  {
  }

  /** A shutdown stops the workers that are there, and has everything committed that is pending. */
  lemma WindUpAnswers(s: State, due: bool, overdue: bool)
    ensures s.pc == CHECK_SHUTDOWN ==>
              Decide(s, due, overdue) == s.(pc := if s.shutdown then (if s.backup.inProgress then CANCEL_BACKUP else CANCEL_FSCK) else COMMIT)
    ensures s.pc == CANCEL_BACKUP ==> WindUp(s) == s.(backup := s.backup.(worker := Absent, inProgress := false), pc := CANCEL_FSCK)
    ensures s.pc == CANCEL_FSCK ==> WindUp(s) == s.(pc := if s.fsck.inProgress then CANCELLING_FSCK else SET_DONE)
    ensures s.pc == CANCELLING_FSCK ==> WindUp(s) == s.(fsck := s.fsck.(worker := Absent, inProgress := false), pc := SET_DONE)
    ensures s.pc == SET_DONE ==> WindUp(s) == s.(done := true, tran := s.tran.(doCommit := s.tran.needsCommit), pc := COMMIT)
  {
  }

  /** A commit that is scheduled on a sound database closes the transaction, also when the
      database refuses it; and it may lose the database. */
  lemma CommitAnswers(s: State, outcome: Outcome)
    ensures var t := DoCommit(s, outcome);
            if s.tran.doCommit && !s.invalid
            then && !t.tran.isOpen && !t.tran.needsCommit && !t.tran.doCommit && (t.invalid <==> outcome == Fatal)
                 && t == s.(tran := t.tran, invalid := t.invalid, pc := START_BACKUP)
            else t == s.(pc := START_BACKUP)
  {
  }

  /** A backup that is decided on starts, unless a shutdown is wanted, the database is lost or an
      fsck has become due; if it cannot be started the database counts as lost. */
  lemma StartBackupAnswers(s: State, outcome: Outcome)
    ensures var t := DoStartBackup(s, outcome);
            if !s.backup.go || s.shutdown || s.invalid || s.fsck.needed then t == s.(pc := LOOP_TEST)
            else if outcome == Fine
            then && t.backup.worker == Running && t.backup.inProgress && !t.backup.go && !t.backup.done && !t.invalid
                 && (t.backup.overlapped <==> s.backup.overlapped || s.backup.worker != Absent)
                 && t.backup.needed == s.backup.needed && t.tran == s.tran && t.fsck == s.fsck && t.pc == LOOP_TEST
            else t == s.(backup := s.backup.(done := false), invalid := true, pc := LOOP_TEST)
  {
  }
}
