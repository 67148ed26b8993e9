# Verified models of the storage node and the build generator

This project models the parts of the storage node (`sw_x/storageNode/src`) and of the Makefile
generator (`sw_x/make/makegen.py`) whose correctness rests on state kept over many calls, and
proves properties of the models with Dafny 4.11. `dafny verify dfyconfig.toml` checks all of it.

What is modelled, and in which files:

- The open file and its locks (`vss_file.cpp`). `vss_flock.dfy` has the conflict rules and
  what they mean byte by byte; `file_state.dfy` the file as a value, with what each operation
  does to it; `file_runs.dfy` whole runs of requests; `file_answers.dfy` what each request
  answers and does, told from outside; `chains.dfy` the linked list; and `vss_file.dfy` the
  class with its lists, queues and tables, proved to do what `file_state.dfy` says.
- The managed dataset (`managed_dataset.cpp`). `namespace.dfy` has the component tree;
  `dataset_tables.dfy` the tables of open handles as a value; `dataset_runs.dfy`,
  `dataset_references.dfy` and `dataset_waiters.dfy` whole runs, with the lock state of every
  file inside; `dataset_answers.dfy` what each request answers and does, in names and in what
  is open; `managed_dataset.dfy` the class, proved to do what `dataset_tables.dfy` says;
  `sync_coordinator.dfy` the periodic sync with its workers; `recovery.dfy` the recovery from a
  lost database; `path_names.dfy` the normal form of names, which every operation of the
  dataset applies first.
- The dependency graph of the build (`makegen.py`): `build_graph.dfy`, `cycle_check.dfy`,
  `traversal.dfy` and `sort_deps.dfy`.
- The teardown of remote-file searches (`rf_search_manager.cpp`): `search_manager.dfy`.
- A client connection (`vss_client.cpp`): `request_framing.dfy` and `send_queue.dfy`, with the
  format of messages in `bytes.dfy`.
- The cache (`generic_cache.hpp`): `cache_history.dfy` and `generic_cache.dfy`.
- Byte ranges over HTTP (`HttpSvc_Sn_MediaFileSender.cpp`): `media_sender.dfy`, after sections
  14.16 and 19.2 of RFC 2616.
- The echo service (`echoSvc.cpp`): `echo_queue.dfy`.

Objects that one thread at a time changes are classes whose methods follow the source's loops
and in-place updates; each is proved against a function on a value, and the results over whole
runs are proved about those functions. Protocols of several threads are state machines whose
steps are the sections between two points where another thread can come in.

Where the source and its own remarks differ, the model follows the source:

- Locks and oplocks are said never to mix (`vss_file.cpp:779-785`); one client can hold both
  (`FileRuns.OneClientHoldsBoth`), so what holds always is that they have one owner.
  `FileRuns.StepMixesIff` and `FileRuns.NeverMixedIff` say exactly when they are kept apart.
- `sortDeps` takes the types to include; it looks at the type of the target through which a
  dependency is found (`makegen.py:109`, `SortingDeps.ToolAmongLibraries`).
  `SortingDeps.FilterIsByTypeIff` says when that is the same.
- `sortDeps` is said to keep siblings in the order of their declaration (`makegen.py:102`); it
  lists them backwards (`SortingDeps.SiblingsComeBackwards`), but for those that others lead to
  (`SortingDeps.DeclaredOrderIff`), and the caller that needs their order reverses the list.
- A directory is said to conflict with what is open below it (`managed_dataset.cpp:2286-2289`);
  any open name that begins like the directory's does (`DatasetRuns.NeighbourBlocksRename`,
  `DatasetTables.DirectoryConflictIff`).
- A cache limit of 0 is said to switch caching off (`generic_cache.hpp:54`); a put then still
  leaves its entry (`CacheHistory.ZeroLimitStillCaches`), or takes the front of an empty queue,
  so the model asks for a positive limit or another entry.
- A replaced oplock wakes nobody (`vss_file.cpp:1166-1176`); `FileRuns.StepStrandsIff` and
  `FileRuns.NeverStrandedIff` say exactly who is left waiting, and when.
- A lock request that waits for oplocks is queued as if it were no write
  (`vss_cmdproc.cpp:1930`), although it asks like one when it is retried; what the retry asks
  is kept beside it.
- `close_file` does not ask whether the client has the file open, so any client can take a
  reference away (`FileRuns.ForeignCloseTakesAReference`);
  `DatasetReferences.AllFairIffConserved` says what depends on that.
- Normalising a path is meant to leave no trailing NULs; slashes taken off can lay some bare
  (`PathNames.NulBeforeTheLastSlash`, `PathNames.IdempotentIff`).
- After a disconnect reading stops, but goes on once a header or request that was being looked
  at is found good (`vss_client.cpp:451` and `507`).
- Byte ranges that are empty and strictly inside another count as overlapping
  (`Flocks.OverlapIsCommonByteUnlessEmptyInside`).

What the world contributes is a parameter or a free choice, with these assumptions:

- The database gives no content path to two components and refuses to move the root; it may
  fail on any create, delete or move. The allocator hands out no live object. Fewer than 2^32
  handles are open.
- No commit is asked for when `BeginTransaction` fails without the database being lost;
  `SyncCoordinator.StepKeepsInvIff` says that this is exactly what is needed.
- `Restore` uses the backup up, as the comment at `managed_dataset.cpp:374` says.
- What sessions answer about the k-th header and body of a connection does not depend on how
  the bytes were delivered.
- Reads and data writes of the media sender make progress or fail, the file does not change,
  and a range that converts lies inside it. Fewer than 2^64 search ids are given out.
- The clock of the cache never runs backwards.

## Model

| member | source | states |
|---|---|---|
| `Flocks.OverlapIsCommonByteUnlessEmptyInside` | sw_x/storageNode/src/vss_file.cpp:53-57 | the overlap test means a byte in common, if and only if no empty or backward range lies strictly inside the other |
| `Flocks.IoBlockedIsPerByte` | sw_x/storageNode/src/vss_file.cpp:735-755 | the list scan refuses an access exactly when some byte of it is held by a forbidding lock in the per-byte table, or a forbidding lock without bytes lies strictly inside it, or it inside the lock |
| `Flocks.IoSplits` | sw_x/storageNode/src/vss_file.cpp:735-755 | an access is refused exactly when one of its two halves is, or a forbidding lock without bytes sits where it is cut |
| `Flocks.RemovalReturnsBytes` | sw_x/storageNode/src/vss_file.cpp:851-885 | a removal gives each byte back exactly the removed holders |
| `Flocks.WithoutAdmissible` | sw_x/storageNode/src/vss_file.cpp:1008-1043 | what a removal leaves is still a list that could have been built by additions |
| `Flocks.ForeignOverlapIsReadOnly` | sw_x/storageNode/src/vss_file.cpp:112-136 | in a reachable list, overlapping locks of different handles are both purely shared reads |
| `Flocks.ExclusiveOverlap` | sw_x/storageNode/src/vss_file.cpp:112-136 | two overlapping exclusive locks: only on one handle, and only if the newer carries both bits |
| `Flocks.ExclusiveGrantedIff` | sw_x/storageNode/src/vss_file.cpp:112-136 | over an exclusive lock another is granted exactly on the same handle and with the shared bit |
| `Flocks.SingleBitExclusion` | sw_x/storageNode/src/vss_file.cpp:112-136 | with single-bit modes no two exclusive locks overlap, even on one handle |
| `Flocks.TwoBitModeOverlaps` | sw_x/storageNode/src/vss_file.cpp:114-125 | the counterexample with a two-bit mode |
| `Flocks.ExclusiveLockShieldsRange` | sw_x/storageNode/src/vss_file.cpp:78-104 | while an exclusive lock is held, no other handle reads or writes inside it |
| `FileRuns.SurvivorsStillBlocked` | sw_x/storageNode/src/vss_file.cpp:923-963 | a waiter that survives the wake-up of the removed locks is still kept out by a lock that was not removed |
| `FileRuns.UnlockKeepsInv` | sw_x/storageNode/src/vss_file.cpp:851-885 | unlocking a range keeps the invariant, no waiter forgotten |
| `FileRuns.ReleaseKeepsInv` | sw_x/storageNode/src/vss_file.cpp:968-1003 | releasing all locks of a handle keeps the invariant |
| `FileRuns.RemoveOplocksKeepsInv` | sw_x/storageNode/src/vss_file.cpp:1048-1101 | dropping a client's oplocks keeps it: whoever still waits for oplocks has a foreign one held |
| `FileRuns.SetOplockKeepsInv` | sw_x/storageNode/src/vss_file.cpp:1106-1195 | a writing oplock is alone on the file, and oplocks and range locks have one owner |
| `FileRuns.LockKeepsInv` | sw_x/storageNode/src/vss_file.cpp:757-812 | a lock request, granted, refused or suspended, keeps it; a suspended one has a lock or oplock in its way |
| `FileRuns.OpenKeepsInv` | sw_x/storageNode/src/vss_file.cpp:409-446 | a granted open agrees with the sharing modes of every other handle |
| `FileRuns.ConflictIsSymmetric` | sw_x/storageNode/src/vss_file.cpp:354-407 | the sharing check does not depend on who came first |
| `FileRuns.CloseKeepsInv` | sw_x/storageNode/src/vss_file.cpp:448-506 | closing keeps it |
| `FileRuns.ClientGoneKeepsInv` | sw_x/storageNode/src/vss_file.cpp:555-602 | the death of a client keeps it |
| `FileRuns.StepKeepsInv` | sw_x/storageNode/src/vss_file.cpp:275-279 | every request, handled as one step, keeps it |
| `FileRuns.RunKeepsInv` | sw_x/storageNode/src/vss_file.cpp:275-279 | every run keeps it |
| `FileRuns.NobodyWaitsForNothing` | sw_x/storageNode/src/vss_file.cpp:816-1101 | after any run, every range waiter is kept out by a held lock, and every oplock waiter has a foreign oplock held that breaks its request if that asks to write; at worst a read is left behind reading oplocks; with no lock left nobody waits |
| `FileRuns.LocksExcludeEachOther` | sw_x/storageNode/src/vss_file.cpp:112-203 | after any run: foreign overlaps are shared reads, a writing oplock is the only one, locks and oplocks have one owner |
| `FileRuns.WakeSplitsQueue` | sw_x/storageNode/src/vss_file.cpp:945-961 | a wake-up sends each waiter to exactly one side, none lost or doubled |
| `FileRuns.WakeKeepsOrder` | sw_x/storageNode/src/vss_file.cpp:945-961 | both sides of a wake-up keep the order of the queue |
| `FileRuns.StepLosesNobody` | sw_x/storageNode/src/vss_file.cpp:890-1101 | a step accounts for each suspended request exactly once: queued, or handed back |
| `FileRuns.RunLosesNobody` | sw_x/storageNode/src/vss_file.cpp:890-1352 | over any run each suspension ends in a queue or is handed back, once |
| `FileRuns.StepConservesReferences` | sw_x/storageNode/src/vss_file.cpp:409-602 | what one request does to the references that no client accounts for, exactly |
| `FileRuns.ForeignCloseTakesAReference` | sw_x/storageNode/src/vss_file.cpp:448-506 | the counterexample to one reference an open: a close by a client that does not have the file open |
| `FileRuns.RunConservesReferences` | sw_x/storageNode/src/vss_file.cpp:409-602 | the reference count is the clients' opens plus the balance of the others |
| `FileRuns.ClientGoneDropsOnlyItsOwn` | sw_x/storageNode/src/vss_file.cpp:555-602 | a dying client takes exactly its own references; the file stays referenced exactly when others remain |
| `FileRuns.StepStrandsIff` | sw_x/storageNode/src/vss_file.cpp:890-1195 | of all requests, exactly an oplock downgraded in place strands a waiter, and exactly the reads it kept out |
| `FileRuns.NeverStrandedIff` | sw_x/storageNode/src/vss_file.cpp:890-1352 | a run strands nobody at any point if and only if it downgrades no oplock in place under a waiting read |
| `FileRuns.DowngradeStrandsAReader` | sw_x/storageNode/src/vss_file.cpp:1166-1176 | a run of three requests that strands a read |
| `FileRuns.OneClientHoldsBoth` | sw_x/storageNode/src/vss_file.cpp:779-812 | a run of two requests after which one client holds an oplock and a range lock |
| `FileRuns.StepMixesIff` | sw_x/storageNode/src/vss_file.cpp:757-812 | locks and oplocks come to be held together by exactly one request: a range lock asked for under only its client's own oplocks |
| `FileRuns.NeverMixedIff` | sw_x/storageNode/src/vss_file.cpp:757-812 | a run keeps locks and oplocks apart if and only if it has no such request |
| `FileAnswers.LockConflictsIff` | sw_x/storageNode/src/vss_file.cpp:112-136 | which locks may be held together: purely shared ones, or a shared one over an exclusive one on the same handle; else none that meet |
| `FileAnswers.IoConflictsIff` | sw_x/storageNode/src/vss_file.cpp:78-104 | which accesses a lock keeps out: all of others but reads of a purely shared one, and writes over the own shared one |
| `FileAnswers.MalformedLockAnswers` | sw_x/storageNode/src/vss_file.cpp:771-779 | a range that runs backwards, both commands or neither are refused, and nothing changes |
| `FileAnswers.LockAnswers` | sw_x/storageNode/src/vss_file.cpp:757-849 | suspended exactly while somebody else caches the file, who is told; else refused, to wait or not by bit 3, exactly when a lock keeps it out; else granted, in front of the others |
| `FileAnswers.UnlockAnswers` | sw_x/storageNode/src/vss_file.cpp:851-963 | granted exactly when such a lock is held; then none is left, all others are, and exactly the waiters whose ranges meet it are handed back |
| `FileAnswers.GrantedLockShields` | sw_x/storageNode/src/vss_file.cpp:78-104 | after an exclusive lock is granted, every access of another handle inside its range is refused |
| `FileAnswers.GiveUpAnswers` | sw_x/storageNode/src/vss_file.cpp:1048-1128 | giving an oplock up takes the client's only, and hands back who waits for oplocks exactly if it had one |
| `FileAnswers.OplockAnswers` | sw_x/storageNode/src/vss_file.cpp:1106-1195 | refused for other bits, while a range is locked, and while others cache in a way that cannot be shared; else the client has exactly that one and all others theirs |
| `FileAnswers.ModeConflictIff` | sw_x/storageNode/src/vss_file.cpp:354-407 | two opens agree exactly when each lets others do, 16 bits higher, what the other does |
| `FileAnswers.ShareAnswers` | sw_x/storageNode/src/vss_file.cpp:409-446 | an open is refused exactly when some handle disagrees; else one more reference |
| `FileAnswers.HandlesLetEachOther` | sw_x/storageNode/src/vss_file.cpp:354-446 | after any run, whatever a handle reads, writes or deletes every other handle shares |
| `FileAnswers.OpenEffect` | sw_x/storageNode/src/vss_file.cpp:409-446 | what an open leaves behind: a reference, an open of the client, the modes of the handle |
| `FileAnswers.ForeignHandleClosesNothing` | sw_x/storageNode/src/vss_file.cpp:662-686 | a close through a handle that has not opened the file does nothing |
| `FileAnswers.CloseEffect` | sw_x/storageNode/src/vss_file.cpp:448-506 | a close takes the handle's locks and modes, one open and one reference, and the client's oplock with its last open |
| `FileAnswers.ReleaseEffect` | sw_x/storageNode/src/vss_file.cpp:630-660 | a release takes the handle's locks and modes; the file then allows what is left was granted, or all |
| `FileAnswers.GoneEffect` | sw_x/storageNode/src/vss_file.cpp:555-602 | a dying client loses its locks, oplock and opens, others nothing, and everybody is handed back exactly if it had something |
| `FileAnswers.WakeAllInOrder` | sw_x/storageNode/src/vss_file.cpp:1319-1352 | first those who wait for ranges, then those who wait for oplocks, each the oldest first |
| `FileAnswers.SuspendedIsQueuedLast` | sw_x/storageNode/src/vss_file.cpp:890-912 | a suspended request is queued last, with what it asked for |
| `Chains.Chain.Push` | sw_x/storageNode/src/vss_file.cpp:838-846 | a new node at the front, the rest as it was |
| `Chains.Chain.Unlink` | sw_x/storageNode/src/vss_file.cpp:861-869 | unlinking through the predecessor's pointer removes exactly that entry |
| `Chains.Chain.Update` | sw_x/storageNode/src/vss_file.cpp:1172-1176 | changing a node in place leaves links and other entries alone |
| `VssFiles.VssFile.constructor` | sw_x/storageNode/src/vss_file.cpp:228-270 | a new file has one reference and nothing else |
| `VssFiles.VssFile.CheckLockConflict` | sw_x/storageNode/src/vss_file.cpp:735-755 | the scan answers whether any lock forbids the access |
| `VssFiles.VssFile.AddRangeLock` | sw_x/storageNode/src/vss_file.cpp:816-849 | the lock is added in front exactly when no lock conflicts |
| `VssFiles.VssFile.RemoveRangeLock` | sw_x/storageNode/src/vss_file.cpp:851-885 | all exactly matching locks go, and their waiters are woken |
| `VssFiles.VssFile.RemoveBrlocks` | sw_x/storageNode/src/vss_file.cpp:1008-1043 | all locks of a client go, and nobody is woken |
| `VssFiles.VssFile.WakeRangeLock` | sw_x/storageNode/src/vss_file.cpp:923-963 | rotating the queue once is the order-preserving split of it |
| `VssFiles.VssFile.ReleaseBrlocks` | sw_x/storageNode/src/vss_file.cpp:968-1003 | all locks of a handle go, each waking its waiters in turn |
| `VssFiles.VssFile.RemoveOplocks` | sw_x/storageNode/src/vss_file.cpp:1048-1101 | a client's oplocks go, and if there were any the whole oplock queue is handed back |
| `VssFiles.VssFile.CheckOplockConflict` | sw_x/storageNode/src/vss_file.cpp:1245-1269 | every broken oplock is notified, and the answer tells whether there was one |
| `VssFiles.VssFile.SetOplock` | sw_x/storageNode/src/vss_file.cpp:1106-1195 | the new state and the answer for every mode, conflict and prior oplock |
| `VssFiles.VssFile.GetOplock` | sw_x/storageNode/src/vss_file.cpp:1200-1234 | the client's mode, with the break bit exactly when somebody waits |
| `VssFiles.VssFile.SetLockRange` | sw_x/storageNode/src/vss_file.cpp:757-812 | the new state and the answer for every combination of flags |
| `VssFiles.VssFile.WaitBrlock` | sw_x/storageNode/src/vss_file.cpp:890-912 | the request is queued last |
| `VssFiles.VssFile.WaitOplock` | sw_x/storageNode/src/vss_file.cpp:1294-1313 | the request is queued last |
| `VssFiles.VssFile.WakeAll` | sw_x/storageNode/src/vss_file.cpp:1319-1352 | both queues are handed back, oldest first |
| `VssFiles.VssFile.AddReference` | sw_x/storageNode/src/vss_file.cpp:409-446 | one more reference, unless some handle's sharing mode conflicts |
| `VssFiles.VssFile.RemoveReference` | sw_x/storageNode/src/vss_file.cpp:448-506 | locks, modes and one reference go; the oplocks too with the client's last reference |
| `VssFiles.VssFile.AddObject` | sw_x/storageNode/src/vss_file.cpp:521-550 | one more open for the client |
| `VssFiles.VssFile.RemoveObject` | sw_x/storageNode/src/vss_file.cpp:555-602 | everything the client had goes, and all waiters are woken if there was anything |
| `VssFiles.VssFile.AddOrigin` | sw_x/storageNode/src/vss_file.cpp:605-627 | the handle's modes are set and joined to the file's |
| `VssFiles.VssFile.RecalculateAccessMode` | sw_x/storageNode/src/vss_file.cpp:646-657 | the union of the modes that are left, in whatever order it is taken |
| `VssFiles.VssFile.ReleaseOrigin` | sw_x/storageNode/src/vss_file.cpp:630-660 | the handle's locks and modes go and the file's mode is recalculated |
| `VssFiles.VssFile.ValidateOrigin` | sw_x/storageNode/src/vss_file.cpp:662-686 | whether the handle has the file open, 0 always passing |
| `VssFiles.VssFile.RemoveOpenOrigin` | sw_x/storageNode/src/vss_file.cpp:698-713 | the first occurrence of the handle goes |
| `PathNames.NormalizePath` | sw_x/storageNode/src/managed_dataset.cpp:150-172 | the loops end and return the non-empty segments joined by single slashes |
| `PathNames.NormalizedAlikeIff` | sw_x/storageNode/src/managed_dataset.cpp:150-172 | two paths normalise alike exactly when their segments agree |
| `PathNames.IdempotentIff` | sw_x/storageNode/src/managed_dataset.cpp:150-172 | normalising twice is normalising once if and only if, the NULs at the end of the path and then the slashes before them taken off, no NUL is last |
| `PathNames.NulBeforeTheLastSlash` | sw_x/storageNode/src/managed_dataset.cpp:150-172 | a path that normalises differently the second time |
| `PathNames.TidyIff` | sw_x/storageNode/src/managed_dataset.cpp:150-172 | the result has no slash at its ends and no two in a row, and such a path is left alone |
| `PathNames.TakenOut` | sw_x/storageNode/src/managed_dataset.cpp:150-172 | a NUL or slash taken from the end, or a slash from the beginning, makes no difference |
| `PathNames.OneOfTwoTakenOut` | sw_x/storageNode/src/managed_dataset.cpp:150-172 | nor does one of two slashes in a row |
| `PathNames.IdempotentWithoutNul` | sw_x/storageNode/src/managed_dataset.cpp:150-172 | so always on paths without NULs |
| `PathNames.SegmentsOfJoin` | sw_x/storageNode/src/managed_dataset.cpp:150-172 | joining segments and splitting again gives them back |
| `Namespace.OnlyDirectoriesHaveContents` | sw_x/storageNode/src/managed_dataset.cpp:2541-2552 | in a tree grown by the parent checks only directories have anything under them |
| `Namespace.AddedKeepsClosed` | sw_x/storageNode/src/managed_dataset.cpp:2697-2709 | an entry created after the parent check keeps the tree closed |
| `Namespace.RemovedKeepsClosed` | sw_x/storageNode/src/managed_dataset.cpp:2214-2228 | removing a file or an empty directory keeps the tree closed |
| `Namespace.MoveIsARenaming` | sw_x/storageNode/src/managed_dataset.cpp:1862-1903 | after the checks made, a move renames entries one to one: none lost, overwritten or changed |
| `Namespace.MoveKeepsClosed` | sw_x/storageNode/src/managed_dataset.cpp:1862-1903 | a move keeps the tree closed |
| `Namespace.MoveKeepsContentsDistinct` | sw_x/storageNode/src/managed_dataset.cpp:1862-1903 | a move keeps content paths distinct |
| `DatasetRuns.OneHandlePerComponent` | sw_x/storageNode/src/managed_dataset.cpp:1937-1952 | at most one live handle goes by a component, which answers the question in the source |
| `FileAnswers.IoAnswers` | sw_x/storageNode/src/managed_dataset.cpp:2973-3100 | an access is refused exactly when a lock keeps it out; else suspended exactly while others cache to write, or at all if it is a write, and these are told |
| `DatasetAnswers.OpenRefusals` | sw_x/storageNode/src/managed_dataset.cpp:2649-2763 | which opens are refused outright, and with which answer |
| `DatasetAnswers.OpenMakes` | sw_x/storageNode/src/managed_dataset.cpp:2697-2903 | a missing file is made and opened under a new handle, with the content path and id that nobody has |
| `DatasetAnswers.OpenFirst` | sw_x/storageNode/src/managed_dataset.cpp:2806-2903 | a file nobody has open: not to be written if read-only, else a new handle, and the answer whether it was there |
| `DatasetAnswers.OpenAgain` | sw_x/storageNode/src/managed_dataset.cpp:2906-2930 | a file that is open: its handle with one more reference, unless read-only or not shared |
| `DatasetAnswers.CloseAnswers` | sw_x/storageNode/src/managed_dataset.cpp:3218-3280 | a close takes one reference, and with the last one the handle, its id and its content path |
| `DatasetAnswers.GoneAnswers` | sw_x/storageNode/src/managed_dataset.cpp:3305-3347 | after the death of a client exactly the handles others have open are left, with their ids and content paths |
| `DatasetAnswers.RemoveDirectoryAnswers` | sw_x/storageNode/src/managed_dataset.cpp:2144-2236 | a directory goes exactly if nothing is below it |
| `DatasetAnswers.RemoveFileAnswers` | sw_x/storageNode/src/managed_dataset.cpp:2144-2393 | a file goes exactly if whoever has it open may delete it, or, as a target, has it open once; an open one loses its name and stays open |
| `DatasetAnswers.FileConflictIff` | sw_x/storageNode/src/managed_dataset.cpp:2262-2284 | a file conflicts with a rename exactly when it is open so that it may not be deleted |
| `DatasetAnswers.RenameRefusals` | sw_x/storageNode/src/managed_dataset.cpp:1780-1890 | which renames are refused before anything changes, and with which answer |
| `DatasetAnswers.NothingReplacedWithoutLeave` | sw_x/storageNode/src/managed_dataset.cpp:1867-1880 | without leave to replace an existing target is never touched, and the answer is no success |
| `DatasetAnswers.ReplacingGoesThrough` | sw_x/storageNode/src/managed_dataset.cpp:1870-1910 | with leave, and nothing in the way, the source takes the place of the target |
| `DatasetAnswers.RenameMoves` | sw_x/storageNode/src/managed_dataset.cpp:1894-1912 | a rename that goes through moves what is at or below the source, drops the target, and leaves everything else |
| `DatasetAnswers.RenameKeepsOthers` | sw_x/storageNode/src/managed_dataset.cpp:1780-1956 | whatever the answer, entries outside the source and a replaceable target keep name and value |
| `DatasetAnswers.FailedRename` | sw_x/storageNode/src/managed_dataset.cpp:1870-1912 | a failed rename changes the tree only if the target was removed and the move then failed |
| `DatasetAnswers.RenameAnswersHandles` | sw_x/storageNode/src/managed_dataset.cpp:1915-1952 | the source's handle goes by the new name, the replaced target's by none, all others as before |
| `DatasetAnswers.MakeDirectoryAnswers` | sw_x/storageNode/src/managed_dataset.cpp:2526-2584 | the answer for every parent, name and failure |
| `DatasetAnswers.ResizeAnswers` | sw_x/storageNode/src/managed_dataset.cpp:2395-2434 | the open's answer, or what locks and oplocks on the rest of the file say |
| `DatasetRuns.OpenNeverFindsPending` | sw_x/storageNode/src/managed_dataset.cpp:2915-2923 | the branch for a tabled handle that is delete-pending is unreachable |
| `DatasetRuns.ReopenFindsTheHandle` | sw_x/storageNode/src/managed_dataset.cpp:2906-2930 | opening the component of a live handle finds that handle |
| `DatasetRuns.FirstFreeIsFree` | sw_x/storageNode/src/managed_dataset.cpp:2888-2903 | counting up, wrapping around, ends at an unused id while fewer than 2^32 are in use |
| `DatasetRuns.OpenKeepsInv` | sw_x/storageNode/src/managed_dataset.cpp:2649-2970 | opening keeps tables, tree and lock state coherent, in every branch |
| `DatasetRuns.CloseKeepsInv` | sw_x/storageNode/src/managed_dataset.cpp:3218-3280 | closing keeps it, and fails only for a handle that does not have the file open |
| `DatasetRuns.ReleaseKeepsInv` | sw_x/storageNode/src/managed_dataset.cpp:3305-3347 | the death of a client keeps it |
| `DatasetRuns.RemoveKeepsInv` | sw_x/storageNode/src/managed_dataset.cpp:2314-2393 | removing keeps it, whether the component is open or not |
| `DatasetRuns.MoveKeepsNames` | sw_x/storageNode/src/managed_dataset.cpp:1915-1952 | the names of open handles follow a rename |
| `DatasetRuns.RemovedTargetIsFree` | sw_x/storageNode/src/managed_dataset.cpp:1865-1880 | removing the target of a replacing rename leaves nothing in the way of the move |
| `DatasetRuns.RenameKeepsInv` | sw_x/storageNode/src/managed_dataset.cpp:1780-1956 | renaming keeps it, in every branch |
| `DatasetTables.DirectoryConflictIff` | sw_x/storageNode/src/managed_dataset.cpp:2286-2308 | a directory conflicts when something is open below it, if and only if something is or no other open name begins like it |
| `DatasetRuns.NeighbourBlocksRename` | sw_x/storageNode/src/managed_dataset.cpp:2286-2308 | renaming the directory a is refused while the file ab is open |
| `DatasetRuns.MakeDirectoryKeepsInv` | sw_x/storageNode/src/managed_dataset.cpp:2526-2584 | making a directory keeps it |
| `DatasetRuns.SetSizeKeepsInv` | sw_x/storageNode/src/managed_dataset.cpp:2395-2434 | resizing by name opens, truncates and closes, whatever the answer, and keeps it |
| `DatasetRuns.OnFileKeepsInv` | sw_x/storageNode/src/managed_dataset.cpp:3200-3216 | lock, I/O and release requests through a file id keep it |
| `DatasetRuns.StepKeepsInv` | sw_x/storageNode/src/managed_dataset.cpp:2144-3347 | every request keeps it |
| `DatasetRuns.RunKeepsInv` | sw_x/storageNode/src/managed_dataset.cpp:2144-3347 | every run keeps it |
| `DatasetRuns.TablesStayCoherent` | sw_x/storageNode/src/managed_dataset.cpp:2806-3347 | after any run: file ids unique, handles tabled under their own path or delete-pending and absent, one live handle a component, every handle referenced |
| `DatasetRuns.LocksStayCoherent` | sw_x/storageNode/src/managed_dataset.cpp:2806-3347 | after any run the lock state of every open file is coherent |
| `DatasetRuns.DeletedFileStaysOpen` | sw_x/storageNode/src/managed_dataset.cpp:2357-2378 | a deleted open file stays as it was under its id, and its name opens another handle |
| `DatasetRuns.ReleaseDropsExactlyItsOwn` | sw_x/storageNode/src/managed_dataset.cpp:3305-3347 | exactly the handles nobody else has open are freed, deleted ones included |
| `DatasetReferences.FairIffConserved` | sw_x/storageNode/src/managed_dataset.cpp:3218-3347 | a request leaves every reference with a client, and takes no handle from a client that still has it open, if and only if it is no close by a client that does not have the file open |
| `DatasetReferences.AllFairIffConserved` | sw_x/storageNode/src/managed_dataset.cpp:3218-3347 | the same for whole runs |
| `DatasetReferences.ReferencesAreConserved` | sw_x/storageNode/src/managed_dataset.cpp:3218-3347 | from activation on, references stay in order if and only if clients close only what they have open; then a file has as many references as its clients have opens, and at least one |
| `DatasetWaiters.StepLosesNobody` | sw_x/storageNode/src/managed_dataset.cpp:2144-3347 | every request of a dataset accounts for each suspended request exactly once |
| `DatasetWaiters.GoneClientSplitsFiles` | sw_x/storageNode/src/managed_dataset.cpp:3305-3347 | what a dying client leaves waiting stays with the files that stay open, or is handed back by those that close |
| `DatasetWaiters.EverySuspensionIsAccountedFor` | sw_x/storageNode/src/managed_dataset.cpp:2144-3347 | over any run each suspension ends in the queue of an open file or is handed back, by an open file or one that is gone, once |
| `DatasetWaiters.NobodyWaitsForAClosedFile` | sw_x/storageNode/src/managed_dataset.cpp:3218-3347 | when nothing is open any more, every suspended request has been handed back |
| `ManagedDatasets.RemoveObjectIsIdempotent` | sw_x/storageNode/src/managed_dataset.cpp:3321-3343 | visiting a handle again after the restart of the scan changes nothing |
| `ManagedDatasets.ManagedDataset.constructor` | sw_x/storageNode/src/managed_dataset.cpp:241-250 | nothing is open |
| `ManagedDatasets.ManagedDataset.ProbeFileId` | sw_x/storageNode/src/managed_dataset.cpp:2888-2903 | the probing loop ends at the first free id |
| `ManagedDatasets.ManagedDataset.OpenContent` | sw_x/storageNode/src/managed_dataset.cpp:2806-2930 | finding or making the handle for a content path |
| `ManagedDatasets.ManagedDataset.OpenFile` | sw_x/storageNode/src/managed_dataset.cpp:2649-2970 | open_file does what the specification says and keeps the invariant |
| `ManagedDatasets.ManagedDataset.CloseFile` | sw_x/storageNode/src/managed_dataset.cpp:3218-3280 | close_file likewise |
| `ManagedDatasets.ManagedDataset.ObjectRelease` | sw_x/storageNode/src/managed_dataset.cpp:3305-3347 | the restarting scan ends, and releases every handle exactly as if each had been visited once |
| `ManagedDatasets.ManagedDataset.CheckRemoveAllowed` | sw_x/storageNode/src/managed_dataset.cpp:2144-2236 | whether a removal is allowed, and the handle it would hit |
| `ManagedDatasets.ManagedDataset.RemoveFile` | sw_x/storageNode/src/managed_dataset.cpp:2314-2393 | remove_iw likewise |
| `ManagedDatasets.ManagedDataset.CheckOpenConflict` | sw_x/storageNode/src/managed_dataset.cpp:2238-2312 | the scan finds a conflict exactly when there is one, though for a file it stops at the first match |
| `ManagedDatasets.ManagedDataset.RenameOpenHandles` | sw_x/storageNode/src/managed_dataset.cpp:1936-1952 | the scan renames every open handle with the old name |
| `ManagedDatasets.ManagedDataset.RenameFile` | sw_x/storageNode/src/managed_dataset.cpp:1780-1956 | rename_iw likewise |
| `ManagedDatasets.ManagedDataset.MakeDirectory` | sw_x/storageNode/src/managed_dataset.cpp:2526-2584 | make_directory_iw likewise |
| `ManagedDatasets.ManagedDataset.TruncateFile` | sw_x/storageNode/src/managed_dataset.cpp:3071-3117 | the locks and oplocks a truncation meets, and its answer |
| `ManagedDatasets.ManagedDataset.SetSize` | sw_x/storageNode/src/managed_dataset.cpp:2395-2434 | set_size_iw likewise |
| `DatasetRuns.ClientOpenKeepsInv` | sw_x/storageNode/src/vss_cmdproc.cpp:1452-1466 | an open tied to a client keeps the invariant |
| `DatasetAnswers.ClientOpenEffect` | sw_x/storageNode/src/vss_cmdproc.cpp:1452-1466 | what the handler adds for the client once the file is open |
| `ManagedDatasets.ManagedDataset.ClientOpen` | sw_x/storageNode/src/vss_cmdproc.cpp:1452-1466 | the handler's open likewise |
| `ManagedDatasets.ManagedDataset.ClientClose` | sw_x/storageNode/src/vss_cmdproc.cpp:2038-2049 | the handler's close likewise |
| `DatasetAnswers.ClientCloseAnswers` | sw_x/storageNode/src/vss_cmdproc.cpp:2038-2049 | a close by id hits the one open file that has it, and fails for no other reason than that there is none or the handle does not have it open |
| `BuildGraph.OrderedMeansAcyclic` | sw_x/make/makegen.py:398-402 | a graph that can be listed dependencies first has no cycle |
| `BuildGraph.ReturnIsCycle` | sw_x/make/makegen.py:385-389 | a chain that comes back to a name it holds ends in a cycle |
| `CycleCheck.CircularDepFinder.FindCircularDep` | sw_x/make/makegen.py:385-397 | raises with a chain that ends in a cycle, or finishes the target with the chain restored |
| `CycleCheck.CircularDepFinder.CheckAll` | sw_x/make/makegen.py:398-402 | ends, and raises if and only if the graph has a cycle |
| `Traversal.SortedIsComplete` | sw_x/make/makegen.py:121-131 | a list sorted that way that holds the start's dependencies holds everything reached |
| `Traversal.Visitor.Rec` | sw_x/make/makegen.py:121-131 | every dependency of the target is left, after all it depends on |
| `Traversal.Visitor.Traverse` | sw_x/make/makegen.py:116-120 | the targets visited are exactly those reached through targets that do not stop it |
| `Traversal.TraverseDeps` | sw_x/make/makegen.py:116-120 | one call for each reached target of the right type, dependencies first, siblings as declared, and the start last |
| `Traversal.GetTransitiveDeps` | sw_x/make/makegen.py:133-141 | exactly the reached targets, each once, each non-stop one before all it depends on, siblings backwards |
| `SortingDeps.Sorter.Rec` | sw_x/make/makegen.py:100-110 | the same for the reversed recursion |
| `SortingDeps.SortDeps` | sw_x/make/makegen.py:93-98 | finds exactly the reached targets, each once, after all it depends on, siblings backwards, and lists those found through a target of an included type |
| `SortingDeps.DeclaredOrderIff` | sw_x/make/makegen.py:102-110 | of two dependencies the one declared first is listed first if and only if the other leads to it |
| `SortingDeps.SiblingsComeBackwards` | sw_x/make/makegen.py:102-110 | two dependencies that need nothing are listed the other way round |
| `SortingDeps.SortAllDeps` | sw_x/make/makegen.py:93-98 | with all types, exactly the reached targets, each once and after all it depends on |
| `SortingDeps.KeptMembers` | sw_x/make/makegen.py:108-110 | what is listed depends on the type of the target it was found through, not on its own |
| `SortingDeps.FilterIsByType` | sw_x/make/makegen.py:93-110 | on every graph only included types are listed, in order, if no dependency looked at leads from an included type to another or back |
| `SortingDeps.FilterIsByTypeIff` | sw_x/make/makegen.py:93-110 | exactly when: if a dependency looked at leads from an included type to another or back, every list is wrong under some order of declarations, and the given one if those that can find one target agree |
| `SortingDeps.MixedEdgeMisleads` | sw_x/make/makegen.py:100-110 | such a dependency, and the order of declarations that makes it the one followed |
| `SortingDeps.ToolAmongLibraries` | sw_x/make/makegen.py:100-110 | the counterexample: a library's tool among the libraries |
| `Traversal.NextSibling` | sw_x/make/makegen.py:102-110 | a visit keeps the order of siblings, but for those that earlier ones need |
| `Traversal.SiblingsSwapIff` | sw_x/make/makegen.py:102-131 | a sibling comes before one visited earlier exactly when that leads to it |
| `SortingDeps.CheckThenSort` | sw_x/make/makegen.py:385-402 | check and traversals together: either a cycle is reported or both orders are right, on every graph |
| `SyncCoordinator.StepKeepsInv` | sw_x/storageNode/src/managed_dataset.cpp:3651-3859 | every step of any thread keeps the invariant |
| `SyncCoordinator.StepKeepsInvIff` | sw_x/storageNode/src/managed_dataset.cpp:2012-2064 | exactly one event breaks it: a transaction is refused, the database is not lost, and a commit is asked for all the same |
| `SyncCoordinator.UncoveredCommitMisfires` | sw_x/storageNode/src/managed_dataset.cpp:3826-3833 | a run in which that leads to a commit without a transaction |
| `SyncCoordinator.RunKeepsInv` | sw_x/storageNode/src/managed_dataset.cpp:3651-3859 | every interleaving keeps it |
| `SyncCoordinator.OthersKeepInv` | sw_x/storageNode/src/managed_dataset.cpp:2012-2064 | mini-transactions, worker steps, errors and shutdown keep it |
| `SyncCoordinator.CommitKeepsInv` | sw_x/storageNode/src/managed_dataset.cpp:3826-3833 | a commit finds an open transaction and a valid database |
| `SyncCoordinator.StartBackupKeepsInv` | sw_x/storageNode/src/managed_dataset.cpp:3837-3855 | a backup starts only with no worker and no fsck due |
| `SyncCoordinator.SyncIsSafe` | sw_x/storageNode/src/managed_dataset.cpp:3651-3859 | never two backup workers, no backup while an fsck is due, no commit without transaction or on a lost database, no worker left at the end |
| `SyncCoordinator.StopsWithNothingPending` | sw_x/storageNode/src/managed_dataset.cpp:3807-3859 | the loop ends with nothing to commit or the database lost, and both workers reaped |
| `SyncCoordinator.SyncWindsDown` | sw_x/storageNode/src/managed_dataset.cpp:3754-3859 | after a shutdown or loss every step of the sync thread brings the end nearer, at most two further passes away |
| `SyncCoordinator.NeverStuck` | sw_x/storageNode/src/managed_dataset.cpp:3620-3859 | unless it has stopped, or sleeps with nothing to do, the sync thread can go on, or the worker that is to wake it or that it joins can |
| `SyncCoordinator.NoWakeUpIsMissed` | sw_x/storageNode/src/managed_dataset.cpp:3715-3727 | asleep without a timeout and not woken, it has no shutdown, lost database or change to commit to react to, and no worker to reap whose broadcast is not still to come |
| `SyncCoordinator.TriggerIsPending` | sw_x/storageNode/src/managed_dataset.cpp:2044-2064 | a mini-transaction that asks for a commit leaves one pending, and a sleeping sync thread awake |
| `SyncCoordinator.PassCommits` | sw_x/storageNode/src/managed_dataset.cpp:3703-3833 | along every run from the top of the loop with a change pending, the first commit leaves nothing pending, or the database is lost |
| `SyncCoordinator.CommitComesNearer` | sw_x/storageNode/src/managed_dataset.cpp:3703-3859 | while a change is pending every step of the sync thread brings its commit nearer, at most two passes away |
| `SyncCoordinator.PendingIsCommitted` | sw_x/storageNode/src/managed_dataset.cpp:3703-3859 | after that many steps it has been committed, or the database lost, whatever else happens |
| `SyncCoordinator.BackupIsOfCommittedData` | sw_x/storageNode/src/managed_dataset.cpp:3791-3855 | a backup starts only with everything committed, on a sound database with no fsck due |
| `SyncCoordinator.PendingWantsBackup` | sw_x/storageNode/src/managed_dataset.cpp:3773-3781 | a pending change makes a backup wanted |
| `SyncCoordinator.DueBackupIsChosen` | sw_x/storageNode/src/managed_dataset.cpp:3783-3804 | a backup that is wanted and due, or overdue, is decided on |
| `SyncCoordinator.ChosenIsStarted` | sw_x/storageNode/src/managed_dataset.cpp:3805-3859 | and started, unless the database is lost or a shutdown wanted first |
| `SyncCoordinator.BackupDoneIff` | sw_x/storageNode/src/managed_dataset.cpp:3470-3530 | a backup stops being wanted exactly when one ends well |
| `SyncCoordinator.FsckDoneIff` | sw_x/storageNode/src/managed_dataset.cpp:808-842 | and an fsck exactly when one completes |
| `SyncCoordinator.MutexExcludes` | sw_x/storageNode/src/managed_dataset.cpp:3620-3859 | where the sync thread holds the mutex only the workers' steps without it can come in, and where it does not everybody can |
| `SyncCoordinator.SyncMayGoIff` | sw_x/storageNode/src/managed_dataset.cpp:3715-3727 | exactly when the sync thread can go on |
| `SyncCoordinator.MiniTranAnswers` | sw_x/storageNode/src/managed_dataset.cpp:2012-2064 | what a mini-transaction does to transaction and database, and whom it wakes |
| `SyncCoordinator.SleepAnswers` | sw_x/storageNode/src/managed_dataset.cpp:3694-3728 | what the top of the loop schedules, whether the sleep has a timeout, and whether it begins |
| `SyncCoordinator.LossAnswers` | sw_x/storageNode/src/managed_dataset.cpp:3754-3770 | a lost database is rolled back and leads to a shutdown |
| `SyncCoordinator.PlanAnswers` | sw_x/storageNode/src/managed_dataset.cpp:3772-3804 | when a backup is decided on, what is committed first, and which overdue ones are remembered |
| `Recovery.Activation.TryToOpen` | sw_x/storageNode/src/managed_dataset.cpp:271-324 | the loop of two attempts |
| `Recovery.Activation.Restore` | sw_x/storageNode/src/managed_dataset.cpp:336-378 | what a restore does to markers and backup, and when it gives up |
| `Recovery.Activation.DbaseActivate` | sw_x/storageNode/src/managed_dataset.cpp:241-452 | markers, backup and outcome of one activation |
| `Recovery.ActiveIff` | sw_x/storageNode/src/managed_dataset.cpp:241-452 | in service exactly when opened and brought up to date, with these markers |
| `Recovery.OpenFailureAnswers` | sw_x/storageNode/src/managed_dataset.cpp:281-378 | what each kind of failure to open leads to, given what is on record |
| `Recovery.ForcedRestoreAnswers` | sw_x/storageNode/src/managed_dataset.cpp:265-378 | two failed fscks or backups force a restore, and what that leaves |
| `Recovery.OneActivation` | sw_x/storageNode/src/managed_dataset.cpp:241-378 | each failing activation uses up one of those left |
| `Recovery.RecoveryEnds` | sw_x/storageNode/src/managed_dataset.cpp:241-378 | a database that stays lost is given up after exactly the computed number of activations, at most six |
| `Recovery.SixIsReached` | sw_x/storageNode/src/managed_dataset.cpp:241-378 | six is reached |
| `Recovery.SchemaErrorsNeverEnd` | sw_x/storageNode/src/managed_dataset.cpp:296-303 | schema errors on both attempts lead nowhere, however often one restarts |
| `Recovery.RecoveryEndsIff` | sw_x/storageNode/src/managed_dataset.cpp:241-378 | exactly which constant failures are given up at last |
| `SearchTables.SearchTable.Add` | sw_x/storageNode/src/rf_search_manager.cpp:126-215 | a fresh id, never given before, while fewer than fifteen are listed and the path converts; it is used up also when the search cannot be created |
| `SearchTables.SearchTable.RequestClose` | sw_x/storageNode/src/rf_search_manager.cpp:219-250 | the scan closes the entry once, if the search accepts |
| `SearchTables.SearchTable.BeginJoin` | sw_x/storageNode/src/rf_search_manager.cpp:254-285 | the right to join is given out once, to a closed entry |
| `SearchTables.SearchTable.Destroy` | sw_x/storageNode/src/rf_search_manager.cpp:296-325 | a closed and joined entry is taken out |
| `SearchTables.SearchTable.LookUp` | sw_x/storageNode/src/rf_search_manager.cpp:572-587 | an entry can be used until it is being closed |
| `SearchTables.SearchTable.TakeIdle` | sw_x/storageNode/src/rf_search_manager.cpp:370-413 | the reaper's scan takes out one idle search, or there was none to take |
| `SearchTables.ListAnswers` | sw_x/storageNode/src/rf_search_manager.cpp:219-325 | what is granted, read off the list: use and close while not closed, a join once closed, a destroy once joined |
| `SearchTeardown.StepKeepsInv` | sw_x/storageNode/src/rf_search_manager.cpp:219-443 | every step of clients and reaper keeps the record of each search right |
| `SearchTeardown.RunKeepsInv` | sw_x/storageNode/src/rf_search_manager.cpp:219-443 | every interleaving keeps it |
| `SearchTeardown.TeardownHasOneOwner` | sw_x/storageNode/src/rf_search_manager.cpp:219-443 | each search is closed, joined and destroyed at most once, destroyed only after a join returned, never used after, and none is lost sight of |
| `SearchTeardown.TheOwnerGoesThrough` | sw_x/storageNode/src/rf_search_manager.cpp:254-325 | the client whose close succeeded is granted the join and finds the entry to destroy |
| `SearchTeardown.AbandonedStays` | sw_x/storageNode/src/rf_search_manager.cpp:254-325 | a search whose owner stopped after an error is never taken out again |
| `SearchTeardown.AddAnswers` | sw_x/storageNode/src/rf_search_manager.cpp:126-215 | when a search is taken on, and as what |
| `SearchTeardown.CloseAnswers` | sw_x/storageNode/src/rf_search_manager.cpp:219-250 | a close changes something exactly when the search is open and accepts it |
| `SearchTeardown.ClientTearsDown` | sw_x/storageNode/src/rf_search_manager.cpp:219-325 | a client that goes through with it leaves the search closed, joined and destroyed once, and all else as it was |
| `SearchTeardown.ReaperTearsDown` | sw_x/storageNode/src/rf_search_manager.cpp:370-443 | so does the reaper |
| `RequestFraming.ParseServed` | sw_x/storageNode/src/vss_client.cpp:271-324 | parsing the bytes of served requests gives them back, and goes on behind them |
| `RequestFraming.ParseInvertsRaw` | sw_x/storageNode/src/vss_client.cpp:271-324 | whole good requests parse back to themselves |
| `RequestFraming.Connection.constructor` | sw_x/storageNode/src/vss_client.cpp:90-119 | nothing is received |
| `RequestFraming.Connection.ReceiveBuffer` | sw_x/storageNode/src/vss_client.cpp:225-269 | the window lies inside the header, or a body of exactly the announced length; none if memory is needed and missing |
| `RequestFraming.Connection.DoReceive` | sw_x/storageNode/src/vss_client.cpp:170-223 | any piece of the stream keeps the record right |
| `RequestFraming.Connection.Disconnect` | sw_x/storageNode/src/vss_client.cpp:140-168 | nothing is lost of the record, whatever is going on; reading stops |
| `RequestFraming.Connection.HandleReceived` | sw_x/storageNode/src/vss_client.cpp:271-324 | a complete header goes to verification, a complete body to the server |
| `RequestFraming.Connection.VerifyIncomingHeader` | sw_x/storageNode/src/vss_client.cpp:332-462 | a header is refused, served without a body, or lets its body in, and then reading goes on |
| `RequestFraming.AcceptedIff` | sw_x/storageNode/src/vss_client.cpp:402-430 | a header gets through exactly when authentic and announcing two megabytes at most, byte by byte |
| `RequestFraming.Connection.VerifyRequest` | sw_x/storageNode/src/vss_client.cpp:464-512 | reading goes on only after an intact body |
| `RequestFraming.Connection.HandedSoFar` | sw_x/storageNode/src/vss_client.cpp:271-324 | the server has been given exactly the parse of the bytes received |
| `RequestFraming.PiecesDoNotMatter` | sw_x/storageNode/src/vss_client.cpp:170-324 | what the server is given depends on the bytes, not on the pieces |
| `SendQueues.SendQueue.PutResponse` | sw_x/storageNode/src/vss_client.cpp:575-602 | a response is queued behind everything accepted, unless disconnected |
| `SendQueues.SendQueue.StartSend` | sw_x/storageNode/src/vss_client.cpp:514-524 | the rest of the first response is what is sent next |
| `SendQueues.SendQueue.FinishSend` | sw_x/storageNode/src/vss_client.cpp:525-573 | the accepted bytes move from unsent to sent, and whether to disconnect |
| `SendQueues.SendQueue.GiveUp` | sw_x/storageNode/src/vss_client.cpp:140-168 | nothing more is queued, sent or received, and the objects are released; what was queued stays |
| `SendQueues.StepConserves` | sw_x/storageNode/src/vss_client.cpp:514-602 | no step of any thread loses, doubles or reorders a byte |
| `SendQueues.EndFailsIff` | sw_x/storageNode/src/vss_client.cpp:525-573 | exactly when a send ends the connection |
| `SendQueues.EndMoves` | sw_x/storageNode/src/vss_client.cpp:525-545 | exactly the bytes the socket took move, and a response taken whole leaves the queue |
| `SendQueues.PutAnswers` | sw_x/storageNode/src/vss_client.cpp:575-602 | a response counts as one answer unless unsolicited, and sets the sender to work while connected |
| `SendQueues.ConnectionAnswers` | sw_x/storageNode/src/vss_client.cpp:140-168 | which objects are associated, and whether it receives, after each event |
| `SendQueues.NothingLostOrReordered` | sw_x/storageNode/src/vss_client.cpp:514-602 | after any sequence of puts, partial sends and disconnects, what was sent, followed by what is left in the queue, is everything put while connected, in order |
| `CacheHistory.PurgeRemovesExactlyTheOld` | sw_x/storageNode/src/generic_cache.hpp:125-139 | looking only at a prefix, expiry removes exactly the old entries if and only if no wrapped sum makes the oldest fresh one look expired |
| `CacheHistory.PurgeIsExactWithoutWrap` | sw_x/storageNode/src/generic_cache.hpp:125-139 | so whenever clock plus limit fits 64 bits |
| `CacheHistory.WrapThrowsAwayFresh` | sw_x/storageNode/src/generic_cache.hpp:125-139 | the counterexample with a limit near 2^64 |
| `CacheHistory.ZeroLimitStillCaches` | sw_x/storageNode/src/generic_cache.hpp:162-182 | with the limit at 0 a put still leaves its entry, in place of another |
| `CacheHistory.PutsLeaveTheLatest` | sw_x/storageNode/src/generic_cache.hpp:162-182 | after any run of puts the cache holds the most recently put distinct keys up to the limit, with their latest values |
| `CacheHistory.LatestMeans` | sw_x/storageNode/src/generic_cache.hpp:162-182 | an entry is the latest exactly when no later put has its key |
| `CacheHistory.HistoryLeavesTheLatest` | sw_x/storageNode/src/generic_cache.hpp:106-214 | after any history of puts, removes, gets and purges the cache holds the most recent live entries, never more than the limit |
| `CacheHistory.HeldAllAlongIff` | sw_x/storageNode/src/generic_cache.hpp:106-214 | it holds all live entries throughout if and only if no put exceeds the limit and no purge meets a wrapped sum |
| `CacheHistory.LiveMeans` | sw_x/storageNode/src/generic_cache.hpp:106-214 | an entry is live exactly when it was put, and since then its key neither put again nor removed, and no purge found it old |
| `GenericCaches.GenericCache.RemoveDataUnlocked` | sw_x/storageNode/src/generic_cache.hpp:106-121 | map and queue lose exactly the key |
| `GenericCaches.GenericCache.RemoveExpiredDataUnlocked` | sw_x/storageNode/src/generic_cache.hpp:125-139 | the loop drops the longest expired prefix, with the clock read each time |
| `GenericCaches.GenericCache.PutData` | sw_x/storageNode/src/generic_cache.hpp:162-182 | the key's entry is replaced, or the oldest makes room, and the new one is last |
| `GenericCaches.GenericCache.GetData` | sw_x/storageNode/src/generic_cache.hpp:186-214 | the value if present and not expired, else the caller's; an expired entry is purged with whatever is older |
| `MediaSender.CopyRange` | sw_x/storageNode/src/HttpSvc_Sn_MediaFileSender.cpp:284-308 | the copying loop ends and writes the slice, or a beginning of it if, and only if, a read or write fails |
| `MediaSender.SendWholeFile` | sw_x/storageNode/src/HttpSvc_Sn_MediaFileSender.cpp:146-222 | the announced length is the file's, and the body is the file, or a beginning of it exactly when a read or write failed, which is then the answer |
| `MediaSender.SendSingleRange` | sw_x/storageNode/src/HttpSvc_Sn_MediaFileSender.cpp:224-317 | the announced length is the slice's, and the body is the slice, or a beginning of it exactly when a read or write failed, which is then the answer |
| `MediaSender.Prepare` | sw_x/storageNode/src/HttpSvc_Sn_MediaFileSender.cpp:339-372 | headers and total length of the parts; no range that fails to convert gets through |
| `MediaSender.SendMultipleRanges` | sw_x/storageNode/src/HttpSvc_Sn_MediaFileSender.cpp:319-454 | the length announced is that of all headers, slices and the footer if and only if this fits 64 bits; what is written is a beginning of them, or all, if no text was cut short, and else less; an error is answered exactly when a range does not convert, a read or a write fails |
| `MediaSender.ContentRangeIdentifies` | sw_x/storageNode/src/HttpSvc_Sn_MediaFileSender.cpp:253-256 | from its Content-Range a client can tell which bytes of how many it has |
| `MediaSender.ContentRangeReads` | sw_x/storageNode/src/HttpSvc_Sn_MediaFileSender.cpp:253-256 | a client that reads unit, first, last and size gets what was sent |
| `MediaSender.PartAt` | sw_x/storageNode/src/HttpSvc_Sn_MediaFileSender.cpp:350-372 | each part stands where the lengths of those before it say, its header, then its slice |
| `MediaSender.PartLooksRight` | sw_x/storageNode/src/HttpSvc_Sn_MediaFileSender.cpp:350-366 | a part header, as an example of section 19.2 of RFC 2616 |
| `MediaSender.FooterLooksRight` | sw_x/storageNode/src/HttpSvc_Sn_MediaFileSender.cpp:374-380 | and the closing delimiter |
| `EchoQueue.ReceiveKeepsInv` | sw_x/storageNode/src/echoSvc.cpp:575-606 | queueing a buffer, and waiting above the upper mark, keeps the invariant |
| `EchoQueue.EnterKeepsInv` | sw_x/storageNode/src/echoSvc.cpp:125-180 | crediting, signalling and taking the next buffer keeps it |
| `EchoQueue.StepKeepsInv` | sw_x/storageNode/src/echoSvc.cpp:125-251 | every step of either thread keeps it |
| `EchoQueue.RunKeepsInv` | sw_x/storageNode/src/echoSvc.cpp:125-251 | every interleaving keeps it |
| `EchoQueue.EchoIsFaithful` | sw_x/storageNode/src/echoSvc.cpp:125-251 | the counter is exact and bounded, what is sent back is a prefix of what was read, and while there is a writer the rest is in hand or queued |
| `EchoQueue.NobodySleepsForever` | sw_x/storageNode/src/echoSvc.cpp:147-160 | reader and writer never sleep at once, and no signal is missed |
| `EchoQueue.ReaderResumesAtTheLowerMark` | sw_x/storageNode/src/echoSvc.cpp:594-602 | the reader goes on only at the lower mark, and is woken below it |
| `EchoQueue.ReceiveAnswers` | sw_x/storageNode/src/echoSvc.cpp:575-606 | what becomes of what is read, and when the reader waits |
| `EchoQueue.ReaderWakeAnswers` | sw_x/storageNode/src/echoSvc.cpp:594-602 | a woken reader goes back to sleep exactly above the lower mark, while there is a writer |
| `EchoQueue.EnterAnswers` | sw_x/storageNode/src/echoSvc.cpp:125-180 | the writer takes the oldest buffer, leaves, or sleeps, and whom it wakes |
| `EchoQueue.WriteAnswers` | sw_x/storageNode/src/echoSvc.cpp:181-215 | what a write sends back, and what follows |
| `EchoQueue.StopAnswers` | sw_x/storageNode/src/echoSvc.cpp:216-251 | a thread that stops wakes the other |
| `Bytes.DataLengthBytes` | sw_x/gvm_core/internal/vssi/src/vss_comm.h:292-295 | the announced length byte by byte, most significant first, at offset 24 |

## Left out

- FileRuns.NobodyWaitsForNothing: does not say of a waiting read that a held oplock keeps it out, because a downgrade in place can strand it; `FileRuns.NeverStrandedIff` says when.
- SearchTables.SearchTable.Add: does not model the scan of virtual folders and the rewriting of the path, only whether the conversion fails.
- GenericCaches.GenericCache.PutData: does not model a put into an empty cache with the limit at 0, because the source takes the front of an empty queue, which is undefined.
- The handles of `ManagedDatasets.ManagedDataset` hold the state of a file as a value, not a `VssFile` object: that two names lead to one object in memory is captured by handle identities only.
- Mutexes inside one open file: a dataset has one server thread, so each operation is one step.
- Out-of-memory, but for the receiving side of a connection, and mutex failures. Of the destructor of `vss_file` only that it hands back all that wait.
- The bytes of files in a dataset, their lengths, times and attributes other than read-only, and the version numbers of components.
- Case folding: names reach the tables already folded, as `utf8_upper` and the database do it.
- The database itself, SQLite, the host's files, sockets and threads.
- The truncation inside `open_file`, which looks at no locks.
- Reading the BUILD files: a name that stays undefined stops the generator, so the graphs here have all names defined.
- Makefile text, lint checks of allowed dependencies.
- The contents of fsck, of a backup, and the times at which either is due.
- `StopManager` of the search manager, and how long its reaper sleeps.
- The test modes of the echo service other than when the threads stop, and its command message.
- Resetting limits of the cache while it is in use.
- HTTP request handling, dispatching, JSON, transcoding and process launching.
