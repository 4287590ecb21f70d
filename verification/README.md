# VCF Doctor: models and proofs

VCF Doctor collects inventory, events and tasks from vCenters, keeps tiered
snapshots, diffs them, and serves the result from several workers over one
PostgreSQL database. This project models the parts of its backend (and one
parser of its frontend) whose promises only mean something over whole runs, and
proves those promises, or states exactly when they hold.

`dafny verify dfyconfig.toml` checks everything.

## How it is organised

| files | subject |
|---|---|
| `Gaps`, `Capture`, `CaptureSafety`, `CaptureService`, `IsoTime` | event capture: the gap table, the bisecting fetch, the checkpoint, stored timestamps |
| `Retention`, `RetentionRuns` | tiered retention of snapshots, applied again and again |
| `LoginLimiter`, `LimiterRuns`, `LimiterService` | the login limiter |
| `ScanLocks`, `LeaderJobs`, `LeaderService` | scan locks and reconciliation; the scheduler leader and its jobs |
| `EventStream`, `StreamReader`, `StreamRoundTrip` | the incremental event-stream parser of the assistant, and the stream the server writes for it |
| `Vault` | key rotation and plaintext migration of stored secrets |
| `ChangeLog` | the persisted change log, its coverage markers, and recovery of what predates it |
| `ProxyCache` | the cached list of trusted proxies |
| `Normalizer` | the memoised parent walk |
| `HistoryReader` | paging through a vCenter history collector |
| `SnapshotDiff`, `DiffMeaning` | the semantic diff of two snapshots, and what it means for the resources |
| `Basics` | optional values, extrema of finite sets, counting |

Where the program changes tables or fields in place, a class does so here, with
the program's loops, and each method is proved to take the class's state where a
function says; theorems about runs are then about that function. Where several
processes interleave, each database step is one action of a state machine and
the theorems are about every execution. Time is in integer microseconds. The
vCenter, the collectors, the clock and the retention in force are arbitrary at
every step.

## What is not as promised

Seven promises do not hold without a condition. In each case the code is
modelled as it is, a lemma gives an input, and another lemma or clause gives the
exact condition.

* *Daily retention.* `docs/RETENTION_EVENTS.md:12-13` promises for each local day
  the snapshot nearest its midnight. Since the hourly tier has run before, a day
  can end with another snapshot or with none (`RetentionRuns.DayCanVanish`). Over
  any run it ends with the promised one exactly when that was also the first of
  its hour mark (`RetentionRuns.DailyPromiseExactly`, and
  `RetentionRuns.RegularRunsKeepDays` for passes at most 23 hours apart).
* *Event capture.* Nothing up to the checkpoint is missing as long as events
  become visible within the overlap, or only after retention would have expired
  them (`CaptureSafety.CheckpointIsComplete`); for any lag in between something
  can be missed, and for good (`CaptureSafety.LongerLagLoses`). Tasks are asked
  for by their start though their rows carry their completion, so one that began
  before the first cutoff is missed (`CaptureSafety.LongTaskIsMissed`,
  `CaptureSafety.StoredByStartExactly`); and a reply without task history counts
  as complete, so the tasks of its window can be missed
  (`CaptureSafety.TasklessLoses`), and by `CaptureSafety.CheckpointIsComplete` no
  others.
* *Event stream.* The CR LF replacement runs over the unread rest again with each
  chunk, so a cut can decide whether a listener hears the last event
  (`StreamReader.CutDecidesTheEnd`). The blocks are independent of the cutting
  exactly when none can be completed after the first CR CR LF
  (`EventStream.BlocksAreIndependentExactly`); the parse with its unread rest
  exactly when there is no CR CR LF (`EventStream.ChunkingIsIrrelevantExactly`).
* *Leader's jobs.* A deletion that stops after removing the job leaves an enabled
  schedule without one, and reconciliation does not notice
  (`LeaderJobs.StoppedDeletionLosesTheJob`, `LeaderJobs.JobsFollowSchedulesExactly`).
* *Change feed.* A transition in the window is told nowhere exactly when it is too
  late to be recovered (after the log's effective start, or in a window that does
  not reach behind that) and its scan failed between saving the snapshot and
  saving the diff, or when the log began at that very snapshot and the window
  does too (`ChangeLog.EachTransitionIsTold`).
* *Vault.* A value is sealed twice exactly when some first migration meets a token
  that is not sealed under its worker's current key
  (`Vault.RunSealsTwiceExactly`): at startup a token under neither key
  (`Vault.StartupSealsTwiceExactly`, `Vault.ForeignTokenIsSealedTwice`), and later
  a rotated one met by a worker that still holds the old key
  (`Vault.OlderWorkerSealsTwice`).
* *History pages.* A page whose entries all decode to nothing ends the reading as
  complete (`HistoryReader.NullPageHidesTheRest`,
  `HistoryReader.OneNullHidesTheRest`). Complete means all exactly when nothing
  readable follows the first such page (`HistoryReader.CompleteIsAllExactly`).

Three guarantees stop at a boundary, again with inputs on one side and a theorem
on the other. The final status of a scan's run is overwritten when the scan or a
reconciliation pass loses its lock before its process
(`ScanLocks.ScanLosesLock`, `ScanLocks.PassLosesLock`), or by the scan itself
when it finished as 'ok' and could not read that back
(`ScanLocks.UnreadFinishIsOverwritten`); the steps of the model allow no other
cause (`ScanLocks.FinishOverwritesExactly`, `ScanLocks.OverwritesHaveACause`). Two
workers hold scan jobs between the end of a lock session and its owner's next
check (`LeaderJobs.TwoWorkersHoldJobs`), and only then
(`LeaderJobs.JobsWithoutLock`). Of two overlapping saves the cache may keep the
older (`ProxyCache.OverlappingSavesDiffer`); right after a save it agrees with the
database exactly when the last write wrote the same list
(`ProxyCache.SaveAgreesExactly`, `ProxyCache.LoneSaveAgrees`), and then until the
next save or reset (`ProxyCache.AgreementLasts`).

## Model

| member | source | states |
|---|---|---|
| CaptureSafety.CheckpointIsComplete | backend/app/events/service.py:34-40 | over any run of scans, whatever the collectors answer or raise and however clock and retention move, every visible event and task from the highest cutoff up to the checkpoint less the lag is stored, by creation and start, for any lag up to the overlap and for any beyond what retention reaches back; a task is missed only if some reply covered its start without task history |
| CaptureSafety.LongerLagLoses | backend/app/events/service.py:124-173 | for every lag above the overlap up to the longest retention there is a run of two complete scans, with a retention of 1 to 8760 hours, that leaves an event out, and no later run of scans that read truthfully stores it |
| CaptureSafety.LostForGood | backend/app/events/service.py:124-173 | from any database whose gaps lie in the next window, an event behind that window that is not stored stays out over every run whose snapshots do not step behind the checkpoint and whose replies name it only when asked about its time |
| CaptureSafety.NeverBrought | backend/app/events/service.py:34-40 | whatever the checkpoint and the gaps, no scan asks about what lies before its cutoff: over any run, what no later window brings is never stored |
| CaptureSafety.StoredByStartExactly | backend/app/collectors/vsphere/events.py:575-583 | over the whole history of a connection, what the checkpoint has passed is stored if and only if it was created, or started, at or after the cutoffs, whatever later time its row would carry |
| CaptureSafety.LongTaskIsMissed | backend/app/collectors/vsphere/events.py:231-239 | a task begun just before the first cutoff and completed after it is not stored by a complete scan that passes its completion |
| CaptureSafety.TasklessLoses | backend/app/collectors/vsphere/events.py:598-606 | a task in a window answered completely without task history is passed by the checkpoint, and no later truthful scan stores it |
| CaptureSafety.NothingIsForgotten | backend/app/events/service.py:124-173 | from any database, an event or a task (unless a reply without task history covers its start) that is stored, in a recorded gap or still ahead of the window stays so over every run whose snapshots do not step behind the checkpoint, also when leaves resolve gaps before a later leaf raises |
| CaptureSafety.OneHealthyScanRepairs | backend/app/events/service.py:124-173 | one scan answered completely clears every gap, moves the checkpoint and stores everything accounted for that retention still covers, tasks too where their history was read |
| CaptureSafety.RetryLoopIsIdle | backend/app/events/service.py:136-153 | over every run with non-decreasing snapshot times no scan reads a gap separately, since its window contains them all, and the queries of each scan are linear in its window |
| CaptureSafety.CheckpointMoves | backend/app/events/service.py:154-173 | the checkpoint moves to the end of the window exactly when the window was read completely |
| CaptureSafety.CaptureFrame | backend/app/events/service.py:124-173 | a capture keeps the gap table valid, other connections' gaps and every stored event unchanged |
| CaptureSafety.CompleteStores | backend/app/events/service.py:159-164 | a complete capture stores each visible event of its window, and each task whose history was read |
| CaptureSafety.OutsideWindowKept | backend/app/events/service.py:138-158 | an event in a gap outside the window ends up stored or still in a gap, whatever the readings do |
| CaptureSafety.RetryAccounts | backend/app/events/service.py:138-152 | after the retry loop a covered, visible event is still covered or among the rows brought back |
| CaptureSafety.AfterRetryAccounts | backend/app/events/service.py:141-152 | a retry that raises half way loses nothing: the whole gap is recorded again |
| CaptureSafety.RaisedRetryRecords | backend/app/events/service.py:149-152 | a retry that raises records the whole gap again, with the first 500 characters of the message |
| CaptureSafety.IdleStep | backend/app/events/service.py:136-140 | gaps stay ahead of the next window's start from scan to scan |
| CaptureSafety.UpsertAdds | backend/app/events/store.py:98-123 | upserting keeps every stored event and adds exactly the ids of the batch |
| CaptureSafety.FirstRowWins | backend/app/events/store.py:98-123 | of several new rows with one id the first is stored |
| CaptureSafety.StoredWasReplied | backend/app/events/service.py:105-173 | each event a capture adds was in a reply, is not older than the retention in force, and is stored as the reply gave it but for the connection and blank names |
| CaptureSafety.WindowIsClamped | backend/app/events/service.py:34-40 | the window starts at the point between the retention cutoff and the snapshot closest to one minute before the checkpoint, without a checkpoint at the cutoff |
| Capture.Enrich | backend/app/events/service.py:105-121 | fills in blank names and types from the snapshot where it knows the resource, and overwrites nothing but the connection |
| Capture.ReplyDecides | backend/app/events/service.py:43-102 | what the fields of a reply decide: raised changes nothing; complete without error, or a list below 20,000, leaves no gap inside the window; an error, or the cap in a window of a second or less, leaves one gap over the window with that text; each on this one query |
| Capture.CappedIsHalved | backend/app/events/service.py:58-102 | a capped reply is never complete on its own: a wider window is asked again in two halves that meet in its middle, left first, and is complete exactly when both are |
| Capture.RowsWereReplied | backend/app/events/service.py:51-102 | every row a window returns was in a reply to a window inside it |
| Capture.FlagFollows | backend/app/events/store.py:226-233 | when the replies agree on whether task history is unavailable, the connection's flag is what they say |
| Capture.FlagsElsewhere | backend/app/events/service.py:59-61 | no other connection's flag changes |
| Capture.FetchCalls | backend/app/events/service.py:51-102 | bisection terminates after a number of queries linear in the window over half the minimum window |
| Capture.FetchFrame | backend/app/events/service.py:51-102 | a window changes its connection's gaps only, and coverage only between its ends |
| Capture.FetchAccounts | backend/app/events/service.py:51-102 | on return every visible event of the window, and every task whose history was read, is in the rows or in a recorded gap; a complete window has them all in the rows; the collectors owe rows by what their replies say in their own fields |
| Capture.FetchKeepsEarlier | backend/app/events/service.py:51-102 | a later window never erases a gap that starts before it |
| Capture.FailedLeavesRecorded | backend/app/events/service.py:51-102 | each leaf at which bisection gave up lies inside one recorded gap, and the window is complete exactly when there is none |
| CaptureService.FetchWindow | backend/app/events/service.py:51-102 | the recursion over the mutable tables does to them, to the collector and to the result what the function does |
| CaptureService.RetryGaps | backend/app/events/service.py:136-153 | the retry loop reads each gap outside the window once, in order of start, and keeps only the rows of readings that returned |
| CaptureService.CaptureEvents | backend/app/events/service.py:124-173 | one capture has the specified effect on all tables and returns the number of new events |
| CaptureService.Enrich | backend/app/events/service.py:105-121 | the loop keeps, in order, the enriched rows that are not older than the cutoff |
| CaptureService.EventStore.UpsertEvents | backend/app/events/store.py:98-123 | inserts what is new and counts the growth of the table |
| CaptureService.EventStore.RecordIncompleteInterval | backend/app/events/store.py:236-271 | the read-merge-delete loop ends and leaves one row for everything it touched |
| CaptureService.EventStore.PruneIncompleteIntervals | backend/app/events/store.py:285-298 | delete, then trim, in place |
| Gaps.RecordExact | backend/app/events/store.py:236-271 | recording covers exactly what was covered and the new interval, in one row, and touches no other connection |
| Gaps.RecordValid | backend/app/events/store.py:236-271 | recording keeps rows keyed, non-empty, pairwise disjoint and not touching |
| Gaps.AbsorbShape | backend/app/events/store.py:249-263 | the merge deletes only rows its final interval contains, and nothing left overlaps that |
| Gaps.AbsorbAddsNothingElse | backend/app/events/store.py:249-263 | every instant of the merged interval was covered before or is new |
| Gaps.RecordKeepsSpans | backend/app/events/store.py:236-271 | whatever lay inside one row still does after recording |
| Gaps.RecordRow | backend/app/events/store.py:236-271 | recording adds one row under the next key, with the error and one attempt more than the most of the rows it replaced |
| Gaps.ResolveExact | backend/app/events/store.py:274-282 | resolving deletes exactly the connection's rows inside the range |
| Gaps.ResolveValid | backend/app/events/store.py:274-282 | resolving keeps the table valid |
| Gaps.ResolveOutside | backend/app/events/store.py:274-282 | resolving covers nothing new and uncovers nothing outside its range |
| Gaps.PruneValid | backend/app/events/store.py:285-298 | pruning keeps the table valid |
| Gaps.PruneExact | backend/app/events/store.py:285-298 | pruning leaves exactly the coverage at or after the cutoff, and other connections alone |
| Gaps.PruneKeeps | backend/app/events/store.py:285-298 | a row not past the cutoff stays, and only its start moves |
| IsoTime.IsoOrder | backend/app/events/store.py:71-74 | two stored timestamps compare as text the way their instants do, with or without microseconds on either side |
| IsoTime.JsonOrder | backend/app/snapshots/store.py:837-840 | so do two markers stored as JSON, whose greater one is kept |
| IsoTime.IsoRoundTrip | backend/app/events/store.py:71-79 | a stored timestamp is read back as the datetime it was written from |
| IsoTime.IsoLayout | backend/app/events/store.py:71-74 | the separators, the optional fraction and the zero offset are where ISO 8601 has them |
| Retention.SelectRetentionVictims | backend/app/snapshots/store.py:574-608 | for distinct ids in any order the one-pass loop names, once each, exactly the snapshots the rule does not keep; every snapshot at or past the daily age, and none that is recent |
| Retention.KeptExactly | backend/app/snapshots/store.py:574-608 | the rule in ages and distances: all recent snapshots stay, then the nearest to each hour mark, then the nearest to each local midnight, nothing older |
| Retention.SurvivorsByAge | backend/app/snapshots/store.py:574-608 | nothing at or past the daily age survives and everything recent does |
| Retention.TurnIsSound | backend/app/snapshots/store.py:590-607 | one turn of the loop keeps its table the best of each group and its victims exact |
| Retention.AddSecond | backend/app/snapshots/store.py:601-607 | a new member of a group competes with the group's best alone |
| Retention.NearestMarkIsNearest | backend/app/snapshots/store.py:561-565 | no hour mark is closer, and of two equally close ones it is the later |
| RetentionRuns.RerunRemovesNothing | backend/app/snapshots/store.py:611-641 | applying retention again at once removes nothing |
| RetentionRuns.HourlySurvivorsBounded | backend/app/snapshots/store.py:574-608 | at most 24 per day of the hourly tier and one more survive in it |
| RetentionRuns.HourlyTierIsPathIndependent | backend/app/snapshots/store.py:611-641 | however passes and arrivals interleave, an hour mark whose snapshots are all hourly ends with the survivor a single pass over every snapshot ever taken would choose |
| RetentionRuns.FirstOfMarkSurvives | backend/app/snapshots/store.py:611-641 | the first snapshot of its mark outlives every pass until the daily tier |
| RetentionRuns.StoreByAge | backend/app/snapshots/store.py:611-641 | after any passes nothing is left at or past the daily age at the last, and nothing taken that is still recent is gone |
| RetentionRuns.FirstOfDaySurvives | backend/app/snapshots/store.py:611-641 | the snapshot nearest its local midnight outlives every pass until the daily age if it is also the first of its hour mark, or if no pass found it hourly |
| RetentionRuns.OthersOfMarkGo | backend/app/snapshots/store.py:611-641 | a snapshot that is not the first of its mark is gone after any pass that finds its whole mark hourly |
| RetentionRuns.DailyPromiseExactly | backend/app/snapshots/store.py:611-641 | over any run of passes and arrivals, a day ends with its promised snapshot, and with it alone, if and only if that snapshot was the first of its hour mark, once some pass found the mark hourly and the last finds the day daily |
| RetentionRuns.RegularPassesSeeMarks | backend/app/snapshots/store.py:611-641 | when passes are at most 23 hours apart and snapshots reach the pass after them, some pass finds each mark hourly as a whole |
| RetentionRuns.RegularRunsKeepDays | backend/app/snapshots/store.py:611-641 | in such a run a daily day keeps its promised snapshot if and only if that was the first of its hour mark or the policy has no hourly tier |
| RetentionRuns.DayCanVanish | backend/app/snapshots/store.py:574-608 | two snapshots around midnight of which the hourly tier takes a day's only one |
| LimiterRuns.CeilingHolds | backend/app/auth.py:470-498 | in any run at most 30 admitted, never forgiven attempts fall in any minute across all addresses, and the window table always holds exactly the live unforgiven stamps |
| LimiterRuns.BackoffHolds | backend/app/auth.py:414-449 | in any run two consecutive admitted attempts of one address are at least the backoff of the first apart and the second counts one more; it starts at one exactly after a success of the address in between or more than the entry lifetime |
| LimiterRuns.EmptyTablesAreFair | backend/app/auth.py:389-411 | the empty tables satisfy the invariants every run keeps |
| LimiterRuns.StepKeepsWindow | backend/app/auth.py:461-498 | each begin, check and finish keeps the window table and the ceiling |
| LimiterRuns.StepIs | backend/app/auth.py:461-498 | a check or a refused attempt sweeps and counts nothing; an admitted one is remembered with its stamp and finishes once, a success forgiving it |
| LimiterRuns.StepKeepsSane | backend/app/auth.py:389-498 | each step keeps the window, the ceiling, and this: every entry is the latest attempt of its address with no success since, and each such attempt within the entry lifetime has its entry |
| LimiterRuns.NoneEvicted | backend/app/auth.py:444-449 | the ceiling bounds such entries by 480, so eviction removes none in any run |
| LimiterRuns.SuccessForgives | backend/app/auth.py:487-498 | a success clears the address's own wait, gives back one stamp of its attempt and touches nothing else |
| LoginLimiter.RefusalIsExact | backend/app/auth.py:405-430 | a refused client, left alone, is refused at every instant before the unrounded wait ends and admitted from then on; the announced wait rounds it up to a second |
| LoginLimiter.WaitExactly | backend/app/auth.py:405-430 | from the rows: an attempt is admitted exactly when neither the address (five or more failures: 1 s doubled up to 60 s after the last) nor the window (thirty rows younger than a minute) holds it back, and the wait is the time left rounded up to seconds |
| LoginLimiter.AdmittedExactly | backend/app/auth.py:470-484 | so it is whichever of the two is later |
| LoginLimiter.SweepKeeps | backend/app/auth.py:389-402 | a sweep leaves exactly the addresses of the last quarter of an hour and, of the rows younger than a minute, the thirty newest |
| LoginLimiter.YoungestGoes | backend/app/auth.py:487-498 | success gives back the youngest row of its stamp and no other |
| LoginLimiter.FreshestKeeps | backend/app/auth.py:444-449 | eviction keeps exactly the addresses with fewer than the limit failed or counted later |
| LoginLimiter.BackoffDoubles | backend/app/auth.py:414-425 | the backoff starts at a second and doubles with each failure up to a minute |
| LoginLimiter.JustCountedIsKept | backend/app/auth.py:433-449 | the address just counted is never evicted, its count is one more, and at most 10,000 addresses are kept |
| LoginLimiter.SweepStamps | backend/app/auth.py:389-402 | within the limit a sweep removes exactly the stamps that left the window |
| LoginLimiter.FreshestBounded | backend/app/auth.py:444-449 | eviction keeps at most so many addresses |
| LimiterService.LoginTables.BeginAttempt | backend/app/auth.py:470-484 | sweep, wait, then reserve: a step of the run machine that keeps its invariants; admitted exactly when the rows of the address and of the window allow it; after it no minute holds more than 30 unforgiven attempts |
| LimiterService.LoginTables.CountFailure | backend/app/auth.py:433-449 | insert, upsert, sweep and evict, statement by statement |
| LimiterService.LoginTables.FinishAttempt | backend/app/auth.py:487-498 | a step of the run machine: success clears the address's wait and gives back one stamp, failure changes neither table |
| ScanLocks.OneLiveScan | backend/app/scheduler.py:247-267 | in every interleaving of scans, failures, crashes, lost locks and reconciliations at most one scan of a connection is live among those that still hold their lock; while no lock was lost, its run is 'running', or 'ok' by its own finish that could not be read back |
| ScanLocks.FinalStatusStays | backend/app/snapshots/store.py:275-284 | as long as no lock is lost before its process, no reconciliation or other scan overwrites a final status; a scan turns its own 'ok' into 'error' when it could not read that back, and nothing else changes |
| ScanLocks.UpdateEndsOnlyTheDead | backend/app/snapshots/store.py:287-309 | reconciliation ends every 'running' run of the connection it locked, and none of a live scan unless that scan or the pass lost its lock |
| ScanLocks.PassLeavesOnlyBusy | backend/app/snapshots/store.py:287-309 | when a pass ends, a run older than it that is still 'running' is on a connection it found locked |
| ScanLocks.StepLocks | backend/app/db.py:237-256 | a lock is held exactly by the session whose phase says so and that did not lose it, after every step |
| ScanLocks.StepInv | backend/app/scheduler.py:258-309 | every step, a lost lock included, keeps locks, runs, passes and ids consistent |
| ScanLocks.StatusMoves | backend/app/snapshots/store.py:275-309 | only its own session's finish and the update of a 'running' run of the connection change a run's status |
| ScanLocks.RunsAreBorn | backend/app/scheduler.py:258-272 | a run is born running by the scan that got the lock, or skipped by one that found it held, which changes nothing else |
| ScanLocks.StatusHasACause | backend/app/snapshots/store.py:260-309 | in any execution ok was written by the finish of the scan at work on the run, error by its error handler, interrupted by a pass on its connection while it was running, and skipped is the run of a scan that found the lock held |
| ScanLocks.SkippedStays | backend/app/scheduler.py:261-266 | a skipped run stays skipped |
| ScanLocks.FailuresAreHandled | backend/app/scheduler.py:270-309 | a scan at work may fail at any moment; its error handler ends the same run as error; a finish ends the scan unless it wrote ok and could not read that back |
| ScanLocks.SessionsProceed | backend/app/scheduler.py:258-309 | a busy session always has a step of its own that brings it nearer to idle, whatever locks others hold |
| ScanLocks.LocksAre | backend/app/db.py:237-256 | a free lock is taken by whoever tries, a held one never; ending the block, a crash and a lost session give it up |
| ScanLocks.FinishOverwritesExactly | backend/app/scheduler.py:258-306 | a finish overwrites a final status if and only if, while the scan was at work, a pass had ended its run, or the scan had written 'ok' itself and could not read that back |
| ScanLocks.OverwritesHaveACause | backend/app/db.py:237-256 | a final status is overwritten only by such a finish; and if a pass had ended the run, the scan or the pass had lost its lock on the connection before |
| ScanLocks.ScanLosesLock | backend/app/db.py:237-256 | a run from the start: a live scan's lock is lost, a pass ends its run, and the scan overwrites that status |
| ScanLocks.PassLosesLock | backend/app/snapshots/store.py:287-309 | a run from the start: a pass loses its lock before the update and ends the run of a scan that began meanwhile and holds its lock |
| ScanLocks.UnreadFinishIsOverwritten | backend/app/snapshots/store.py:275-284 | a run from the start: a scan writes 'ok', cannot read its run back, and its error handler writes 'error' |
| LeaderJobs.EachCheckFollows | backend/app/scheduler.py:421-450 | in any run of edits, deletions, lock losses, takeovers and restarts: after a worker's check it holds the lock and its jobs are the enabled stored schedules less the missed ones, each at its floored interval, or it holds none; a takeover misses none |
| LeaderJobs.JobsFollowSchedulesExactly | backend/app/scheduler.py:392-412 | reconciliation yields exactly the enabled schedules at their floored intervals if and only if no unchanged enabled schedule had lost its job |
| LeaderJobs.MissingMeansRemoved | backend/app/scheduler.py:385-389 | an enabled entry without a job had its job removed earlier in the run |
| LeaderJobs.StoppedDeletionLosesTheJob | backend/app/api/router.py:485-490 | a deletion cut off after removing the job leaves the schedule enabled and, after the next check, without a job |
| LeaderJobs.WorkersStayValid | backend/app/scheduler.py:346-450 | in any run a worker that does not lead holds no job, every job has an enabled entry at its floored interval, and the lock's holder leads |
| LeaderJobs.JobsWithoutLock | backend/app/db.py:259-311 | a worker that leads without the lock lost its session and has not checked or restarted since |
| LeaderJobs.TwoWorkersHoldJobs | backend/app/scheduler.py:421-450 | until then two workers can hold the same job |
| LeaderJobs.JobStartsInTime | backend/app/scheduler.py:366-371 | with a last run a job starts at the later of one interval after it and five seconds from now, so an overdue one in five seconds; without one exactly one interval from now |
| LeaderJobs.RescheduleExactly | backend/app/scheduler.py:346-382 | rescheduling recreates or removes one connection's job from its stored schedule, remembers what it was made from, stores the first run, and changes nothing else, and nothing at all on a worker that does not lead |
| LeaderJobs.JobsAreKeptOrTimed | backend/app/scheduler.py:392-450 | a check leaves a job as it was or times it anew from the stored schedule; a takeover times all anew |
| LeaderJobs.JobsWereTimed | backend/app/scheduler.py:346-450 | every job in any run was timed when its worker last picked its schedule up, so a takeover or an edit postpones a due scan by five seconds at most |
| LeaderJobs.NoJobOnceGone | backend/app/scheduler.py:392-412 | after the leader's check a deleted connection has no job, and gets none until it is saved again |
| LeaderJobs.OneMorePickedUp | backend/app/scheduler.py:409-412 | picking the changed schedules up one by one amounts to the pointwise definition, in any order |
| LeaderService.Scheduler.ReconcileJobs | backend/app/scheduler.py:392-412 | both loops over the job table, the state and the stored next runs |
| LeaderService.Scheduler.Reschedule | backend/app/scheduler.py:346-382 | replaces one connection's job, entry and stored next run; nothing on a worker that does not lead |
| LeaderService.Scheduler.DropScanJobs | backend/app/scheduler.py:415-418 | removes the jobs of every entry, then the entries |
| LeaderService.Scheduler.TakeLeadership | backend/app/scheduler.py:421-450 | drop on a lost session, compete, clear, reconcile |
| EventStream.ChunkingIsIrrelevantExactly | frontend/src/api/assistant.ts:61-72 | any two ways of cutting a stream into chunks parse alike, the unread rest included, if and only if the stream has no CR CR LF |
| EventStream.ChunksParseAsWhole | frontend/src/api/assistant.ts:61-72 | without CR CR LF any chunks parse like the whole text at once |
| EventStream.BlocksReassemble | frontend/src/api/assistant.ts:66-71 | blocks with their blank lines and then the rest are the text; no block contains an earlier blank line and the rest none |
| EventStream.CutMatters | frontend/src/api/assistant.ts:64-65 | cutting right after a CR CR LF always changes the parse, if only in the unread rest |
| EventStream.CutChangesBlocksExactly | frontend/src/api/assistant.ts:61-72 | cutting right after a CR CR LF changes the blocks if and only if with or without the cut some block is completed after it |
| EventStream.BlocksAreIndependentExactly | frontend/src/api/assistant.ts:61-72 | the blocks, all that a listener can hear, are independent of the cutting if and only if no block can be completed after the first CR CR LF |
| EventStream.ParsesSilently | frontend/src/api/assistant.ts:61-72 | any chunks of such a stream give the blocks of the whole text at once |
| EventStream.CrlfTwice | frontend/src/api/assistant.ts:65 | replacing again after more text arrived is as good as replacing once |
| EventStream.SplitEarly | frontend/src/api/assistant.ts:67-71 | taking complete blocks off early changes neither the blocks nor the rest |
| StreamReader.StreamAssistant | frontend/src/api/assistant.ts:33-76 | the listener hears the events of the complete blocks, then one error if none was done or error; hence at least one of these always; and the events of the whole text at once when no block can be completed after a CR CR LF |
| StreamReader.CutDecidesTheEnd | frontend/src/api/assistant.ts:61-76 | one body cut in two ways: the listener hears that the stream broke off, or it hears done |
| StreamReader.LinesRejoin | frontend/src/api/assistant.ts:42 | the lines of a block joined again are the block |
| StreamReader.Reader.Read | frontend/src/api/assistant.ts:64-71 | the inner loop hands over exactly the blocks the text completes, in order, and keeps the rest |
| StreamReader.Reader.Dispatch | frontend/src/api/assistant.ts:39-59 | the last event name and all data lines decide one event at most |
| StreamRoundTrip.WrittenIsHeard | backend/app/assistant/router.py:85-113 | however the stream of any messages, with pings between them, is cut into chunks, and with either line end, the listener hears exactly the events written, in order; and one error more if none was done or error |
| StreamRoundTrip.UnfinishedIsNotHeard | frontend/src/api/assistant.ts:61-76 | a message cut off before its blank line is not heard |
| StreamRoundTrip.AbsentFields | frontend/src/api/assistant.ts:47-58 | what each event name makes of data with fields missing; other names are ignored |
| StreamRoundTrip.NoData | frontend/src/api/assistant.ts:46 | a block without data is not heard |
| Vault.RekeyPreserves | backend/app/vault.py:339-428 | rotation keeps every plaintext, makes whatever either key opened open under the current one, and leaves the other rows as they were |
| Vault.RekeyIsIdempotent | backend/app/vault.py:339-428 | rotating again rewrites nothing and reports the same rows unreadable |
| Vault.RekeyExactly | backend/app/vault.py:361-372 | row by row: a token of the previous key is sealed anew with its plaintext, everything else stays; reported are tokens of neither key and text that looks like one |
| Vault.MigrateExactly | backend/app/vault.py:243-291 | row by row: the first run seals everything but tokens of the current key and an empty assistant key, later runs only what does not look like a token; what is sealed keeps what it held |
| Vault.NothingInTheClear | backend/app/vault.py:243-291 | after a first migration no secret is in the clear, and each reads back as entered |
| Vault.DecryptExactly | backend/app/vault.py:209-218 | plaintext is read as it is unless it looks like a token; a token opens under its own key only |
| Vault.WorkersNeverSealTwice | backend/app/vault.py:243-291 | once rotated, no serialised mix of rotations, migrations with a stale marker and saves by workers with the same current key seals a value twice |
| Vault.WorkersPreserve | backend/app/vault.py:243-291 | and each row no save replaces keeps its meaning throughout |
| Vault.RunSealsTwiceExactly | backend/app/vault.py:231-291 | over any run of workers with any keys, no value is ever sealed twice if and only if no first migration meets a token that is not sealed under its worker's current key |
| Vault.OlderWorkerSealsTwice | backend/app/vault.py:231-291 | a worker that still holds the old key and migrates after the rotation seals a rotated token again; workers with the new key cannot read it, and another rotation gives them the token only |
| Vault.StaleFirstRunIsHarmless | backend/app/vault.py:243-291 | a second first migration rewrites nothing |
| Vault.StartupSealsTwiceExactly | backend/app/vault.py:466-478 | rotation and first migration seal twice if and only if some row is sealed under neither key |
| Vault.ForeignTokenIsSealedTwice | backend/app/vault.py:231-240 | without the previous key a leftover token is taken for plaintext |
| Vault.SecretStore.Rekey | backend/app/vault.py:339-428 | moves exactly the rows it should, counts the rows changed and the unreadable ones, and records the outcome when asked or when there is one |
| Vault.SecretStore.MigratePlaintext | backend/app/vault.py:243-291 | encrypts exactly the rows that need it, counts the rows changed and sets the marker on the first run |
| Vault.SecretStore.Moved | backend/app/vault.py:361-372 | one stored value: leave, lose or seal anew |
| ChangeLog.CoverageIsTrue | backend/app/snapshots/store.py:811-820 | from an empty log, over any order of scans, failed scans, empty diffs, prunes and deletions, every diff saved at or after the effective start is fully in the log |
| ChangeLog.EachTransitionIsTold | backend/app/api/router.py:210-247 | each snapshot in the window with an older one is recovered or logged with all its rows if and only if it is early enough to be recovered (not after the log's effective start, in a window that reaches behind that), or lies after the log's start with its diff not cut off, or is the target of the diff that started the log; where no prune reaches the window, both only when the log was started by a diff whose source was gone |
| ChangeLog.RecoveredExactly | backend/app/api/router.py:227-247 | recovery yields exactly the pairs whose newer snapshot is in the window and not after the log's start |
| ChangeLog.StepKeepsLog | backend/app/snapshots/store.py:661-716 | each scan, failed scan, prune and deletion keeps log, markers and snapshots consistent |
| ChangeLog.StepExactly | backend/app/snapshots/store.py:661-716 | what a scan, a failed scan, a prune and a deletion do to snapshots, rows and markers, row by row |
| ChangeLog.LogHoldsExactly | backend/app/snapshots/store.py:868-876 | over any order of these the log holds exactly the rows of the saved diffs that no prune has reached |
| ChangeLog.PreLogPairs | backend/app/api/router.py:210-247 | the backward loop returns the consecutive pairs newest first and stops at the first one before the window |
| ChangeLog.Connection.SaveChanges | backend/app/snapshots/store.py:661-716 | rows and first marker together; the marker is set once, also by an empty diff |
| ChangeLog.Connection.PruneChanges | backend/app/snapshots/store.py:868-876 | rows before the boundary go and the boundary only moves forward |
| ChangeLog.Connection.Snap | backend/app/scheduler.py:277-300 | snapshot first, then its diff against the previous one, unless the scan fails between |
| ProxyCache.SavesAreNotUndone | backend/app/proxies.py:55-62 | in every interleaving of cold reads, refreshes, saves and resets, until another save or a reset the cache holds the saved list or one read from the database after the save was remembered |
| ProxyCache.ReadsReplaceOnlyOlder | backend/app/proxies.py:55-62 | a read replaces the cached list only if it began, and so read, after that list was put there |
| ProxyCache.OneRefreshAtATime | backend/app/proxies.py:75-82 | at most one background refresh is in flight |
| ProxyCache.StepInv | backend/app/proxies.py:137-181 | every step keeps generations, times and the refresh flag consistent |
| ProxyCache.AskDecides | backend/app/proxies.py:137-166 | a request waits exactly when the cache is empty and it may; a refresh starts exactly when the list is missing or old, none is in flight and the request does not wait |
| ProxyCache.ReadsAndSaves | backend/app/proxies.py:45-82 | a read gets what is stored, or nobody when the database fails, and is remembered exactly if nothing was since it began; a save is stored at once and remembered always; a reset empties the cache |
| ProxyCache.ThreadsProceed | backend/app/proxies.py:75-82 | nothing others do holds a thread up, so every refresh ends and clears its flag |
| ProxyCache.AnswersAreStored | backend/app/proxies.py:137-166 | in any interleaving an answer is a list saved or read from the database, or nobody |
| ProxyCache.CacheOrigin | backend/app/proxies.py:137-181 | the cached list was written to or read from the database by the step whose time it carries |
| ProxyCache.SaveAgreesExactly | backend/app/proxies.py:177-181 | right after a save is remembered, the cache holds the stored list if and only if the last write to the database wrote the list saved |
| ProxyCache.LoneSaveAgrees | backend/app/proxies.py:177-181 | so it does when no other save wrote between this save's write and its remember step |
| ProxyCache.AgreementLasts | backend/app/proxies.py:55-82 | and goes on doing so until another save or a reset, over all refreshes that can read the database |
| ProxyCache.OverlappingSavesDiffer | backend/app/proxies.py:177-181 | two overlapping saves can leave the cache behind the database |
| Normalizer.Normalizer.DatacenterOf | backend/app/collectors/vsphere/normalize.py:382-400 | after any earlier calls the memoised walk answers like the plain one, for missing parents and cycles too, and every cached answer stays right |
| Normalizer.PlainWalkAnswers | backend/app/collectors/vsphere/normalize.py:382-400 | the plain walk, which stops at the first repeated node, finds the datacenter the parent links lead to, or none if they lead to none |
| HistoryReader.ReadPages | backend/app/collectors/vsphere/events.py:487-503 | the paging loop over the collector returns what the reading function says, page length and all |
| HistoryReader.ReadExactly | backend/app/collectors/vsphere/events.py:487-503 | a reading succeeds if and only if every entry before its stop decodes, and then it returns what is readable there, in order, each entry once, complete exactly when it did not stop at the cap; otherwise it fails with the error of the first entry that does not decode |
| HistoryReader.CompleteIsAllExactly | backend/app/collectors/vsphere/events.py:487-503 | a complete reading returned all that is readable if and only if nothing readable follows the first page, as the code pages, whose entries all decode to nothing |
| HistoryReader.CompleteWithoutNulls | backend/app/collectors/vsphere/events.py:487-503 | without such entries a reading is complete if and only if what is readable is below the cap, and then it returned all; otherwise a prefix |
| HistoryReader.NullPageHidesTheRest | backend/app/collectors/vsphere/events.py:493-501 | a history on which the reading returns nothing and calls that complete although an item follows |
| HistoryReader.OneNullHidesTheRest | backend/app/collectors/vsphere/events.py:487-503 | one item short of the cap a single such entry hides what follows |
| HistoryReader.Drain | backend/app/collectors/vsphere/events.py:506-561 | re-registering and re-reading returns what the draining function says |
| HistoryReader.DrainSucceedsExactly | backend/app/collectors/vsphere/events.py:506-561 | draining succeeds if and only if, up to where paging stops, every entry can be decoded and at most eight types are unknown; it reads at most nine times, and its result is that of one reading from the start |
| HistoryReader.Types.Register | backend/app/collectors/vsphere/events.py:426-456 | true exactly when a placeholder serves the type |
| SnapshotDiff.Diff | backend/app/diff/engine.py:411-464 | the list returned has exactly the changes at or above the threshold, most significant first, then by type, name and id |
| SnapshotDiff.OutputIsTheOne | backend/app/diff/engine.py:456-464 | no other list has these changes in that order |
| SnapshotDiff.Compare | backend/app/diff/engine.py:424-454 | the three passes produce exactly the specified changes |
| SnapshotDiff.SwapMirrors | backend/app/diff/engine.py:411-464 | swapping the snapshots swaps added with removed and keeps modified ids and keys with old and new exchanged |
| SnapshotDiff.OrderIsIrrelevant | backend/app/diagnostics/checks/_common.py:74-93 | with distinct ids and cluster names the diff does not depend on the order of the resources |
| SnapshotDiff.OutputIgnoresOrder | backend/app/diff/engine.py:411-464 | nor does the list returned |
| SnapshotDiff.ClassifiedOnce | backend/app/diff/engine.py:427-446 | an id is classified once, unless its type changed; then it is removed as the one and added as the other |
| SnapshotDiff.ChangesExactly | backend/app/diff/engine.py:358-395 | a property is in the changes exactly when it is tracked and reported, with its value on either side; usage comes with free space |
| SnapshotDiff.DiffProperties | backend/app/diff/engine.py:358-385 | the loop with its skips and the free-space band |
| DiffMeaning.AddedIs | backend/app/diff/engine.py:435-455 | a resource is added exactly when its id is new or stood for another type |
| DiffMeaning.RemovedIs | backend/app/diff/engine.py:435-455 | removed exactly when its id is gone or stands for another type |
| DiffMeaning.ModifiedIs | backend/app/diff/engine.py:443-455 | modified exactly when it kept both and some tracked property is reported |
| DiffMeaning.ChangeHasResource | backend/app/diff/engine.py:420-455 | there are no other changes; of resources with one id the last counts |
| DiffMeaning.ReportedIs | backend/app/diff/engine.py:366-381 | a property is reported exactly when its values differ up to list order, not both are nothing, none is missing where collectors may fail, and free space really moved |
| DiffMeaning.PropertiesAre | backend/app/diff/engine.py:340-395 | with its value before and after, and free space with its usage |
| DiffMeaning.ValueOfIs | backend/app/diff/engine.py:221-230 | what is compared: the name, a host's shown cluster, a cluster's members, else the property |
| DiffMeaning.MembersAre | backend/app/diagnostics/checks/_common.py:44-86 | the members of a cluster are the hosts it lists and those whose first membership, else parent, else named cluster it is |
| DiffMeaning.UsageIs | backend/app/diagnostics/checks/_common.py:89-98 | usage is known when capacity and free space are, and is the used share between 0 and 100, to a tenth |
| DiffMeaning.RoundsToTenth | backend/app/diagnostics/checks/_common.py:98 | to the nearest tenth, of two the even one |
| DiffMeaning.MovedIs | backend/app/diff/engine.py:207-218 | free space moved when usage became known or unknown, by five points or more, or across 85 or 95 |
| DiffMeaning.TrackedIs | backend/app/diff/engine.py:24-82 | tracked are the name and the table's properties of the type |
| DiffMeaning.SignificanceIs | backend/app/diff/engine.py:252-255 | a property is as significant as the table says; free space is high from 95 percent on |
| DiffMeaning.ChangeSignificanceIs | backend/app/diff/engine.py:233-249 | a modification is as significant as its most significant property; a removal by type; an addition low |
| DiffMeaning.OutputHas | backend/app/diff/engine.py:456-457 | the list has exactly what is as significant as asked or more |
| DiffMeaning.OutputOrder | backend/app/diff/engine.py:458-460 | most significant first, then by type, name and id |

## Left out

- SQL, connection pools, threads, real clocks: a transaction is one atomic step; timestamps are integers, and the limiter's floating-point seconds are integer microseconds.
- The database's collation: TEXT columns are taken to compare by character code.
- Storage calls that fail, and processes that crash, between two steps of one capture.
- Pruning of stored events by age and by row cap: that an event "was stored" is what is proved.
- `updated_at` and `last_error` upkeep of gaps beyond the text recorded; the count that resolving and pruning return.
- Mapping and classification of events and tasks; JSON decoding of stream data, which is a parameter (text that is not JSON included) and never yields a null document.
- Real cryptography and the choice of nonces: sealed values are ideal tokens that open under their own key alone.
- Workers with different settings: the floor on scan intervals is any positive number, the same for all.
- Time zone rules: the start of an instant's local day is a parameter of retention.
- Counting an outcome without reserving an attempt (`record_login`), which no endpoint of the application calls.
- Startup backfill of old change logs, pausing of leftover fixture schedules, refresh of the stored next run after a scan, and database failures inside the leader's own jobs.
- Identity filtering of recovered against logged changes for one overlapping pair, the 500-row limit of the feed, and a snapshot deleted while the feed reads it.
- Scans skipped for an unreadable password; what a scan collects.
- Diff summaries, and the exception that skips one odd property; numbers are reals, so the rounding of floats and Python's equality across number types are not captured.
- The VM counting passes and snapshot trees of the normaliser; the rest of the inventory model.
- A history collector that returns fewer entries than asked for before its end.
- The environment variable that overrides the stored proxies, and the parsing of what operators enter.
- HTTP, the assistant's request, the user interface, and the foreign libraries behind the collectors (XML pre-scan and SOAP hooks are represented by the entries they drop).
