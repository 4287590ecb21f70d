/** The scan jobs of one worker and the stored schedules they follow
    (backend/app/scheduler.py). Any worker may change the schedules at any
    time; only the leader holds jobs, and it re-reads rather than being told. */
module LeaderJobs {
  import opened Basics

  type Minutes = m: int | 1 <= m witness 5

  /** The configured floor, any positive number and the same for all workers. */
  const MIN_INTERVAL_MINUTES: Minutes
  const MINUTE := 60_000_000
  const FIVE_SECONDS := 5_000_000

  datatype Schedule = Schedule(intervalMinutes: int, enabled: bool, lastRun: Option<int>, nextRun: Option<int>)

  /** An interval job: its period and its first run. */
  datatype Job = Job(minutes: int, start: int)

  /** What the leader compares: the interval and whether it is enabled. */
  datatype Wanted = Wanted(intervalMinutes: int, enabled: bool)

  /** The stored connections and schedules, shared by all workers. */
  datatype Stored = Stored(connections: set<string>, schedules: map<string, Schedule>)

  /** One worker: whether it leads, its jobs, and what it has jobs for. */
  datatype Worker = Worker(leader: bool, jobs: map<string, Job>, state: map<string, Wanted>)

  datatype Both = Both(worker: Worker, stored: Stored)

  function Idle(): Worker { Worker(false, map[], map[]) }

  function WantedOf(st: Stored, c: string): Wanted {
    if c in st.schedules then Wanted(st.schedules[c].intervalMinutes, st.schedules[c].enabled) else Wanted(0, false)
  }

  function Floored(interval: int): int { Max(interval, MIN_INTERVAL_MINUTES) }

  /** A job resumes where the last run left off, though not within five
      seconds; without a last run it waits one interval. */
  function JobFor(s: Schedule, now: int): Job {
    var minutes := Floored(s.intervalMinutes);
    Job(minutes, if s.lastRun.Some? then Max(s.lastRun.value + minutes * MINUTE, now + FIVE_SECONDS) else now + minutes * MINUTE)
  }

  /** When a job is due: one interval after the last run, the interval being at
      least the floor; not within five seconds, though, and one interval from
      now if there was no run. */
  predicate TimedAt(job: Job, s: Schedule, now: int) {
    && (job.minutes == s.intervalMinutes || job.minutes == MIN_INTERVAL_MINUTES)
    && job.minutes >= s.intervalMinutes && job.minutes >= MIN_INTERVAL_MINUTES
    && match s.lastRun
       case None => job.start == now + job.minutes * 60_000_000
       case Some(last) =>
         && last + job.minutes * 60_000_000 <= job.start && now + 5_000_000 <= job.start
         && (job.start == last + job.minutes * 60_000_000 || job.start == now + 5_000_000)
  }

  /** A job resumes where the last run left off: an overdue one starts in five
      seconds, and none later than one interval from now if the last run is not
      in the future. */
  lemma JobStartsInTime(s: Schedule, now: int)
    ensures var job := JobFor(s, now);
            && TimedAt(job, s, now)
            && now + 5_000_000 <= job.start
            && (s.lastRun.Some? && s.lastRun.value + job.minutes * 60_000_000 <= now ==> job.start == now + 5_000_000)
            && ((s.lastRun.Some? ==> s.lastRun.value <= now) ==> job.start <= now + job.minutes * 60_000_000)
  {
    assert Floored(s.intervalMinutes) * MINUTE >= MIN_INTERVAL_MINUTES * MINUTE;
  }

  function NextRunSet(st: Stored, c: string, nextRun: Option<int>): Stored {
    if c in st.schedules then st.(schedules := st.schedules[c := st.schedules[c].(nextRun := nextRun)]) else st
  }

  // ---- the operations ----------------------------------------------------

  /** Removing a job does not tell the state. */
  function RemoveJob(w: Worker, c: string): Worker { w.(jobs := w.jobs - {c}) }

  /** Recreate a connection's job from its stored schedule. */
  function Reschedule(b: Both, c: string, now: int): Both {
    var wanted := WantedOf(b.stored, c);
    var removed := RemoveJob(b.worker, c).(state := b.worker.state[c := wanted]);
    if !b.worker.leader then b
    else if !wanted.enabled then Both(removed, NextRunSet(b.stored, c, None))
    else
      var job := JobFor(b.stored.schedules[c], now);
      Both(removed.(jobs := removed.jobs[c := job]), NextRunSet(b.stored, c, Some(job.start)))
  }

  function Drop(w: Worker): Worker { w.(jobs := w.jobs - w.state.Keys, state := map[]) }

  predicate Changed(b: Both, c: string) {
    c !in b.worker.state || b.worker.state[c] != WantedOf(b.stored, c)
  }

  function StateAfter(b: Both, done: set<string>): map<string, Wanted> {
    map c | c in b.stored.connections && (c in done || c in b.worker.state) ::
      if c in done then WantedOf(b.stored, c) else b.worker.state[c]
  }

  function JobsAfter(b: Both, done: set<string>, now: int): map<string, Job> {
    map c | c in b.stored.connections && (if c in done && Changed(b, c) then WantedOf(b.stored, c).enabled else c in b.worker.jobs) ::
      if c in done && Changed(b, c) then JobFor(b.stored.schedules[c], now) else b.worker.jobs[c]
  }

  function ScheduleAfter(b: Both, done: set<string>, now: int, c: string): Schedule
    requires c in b.stored.schedules
  {
    var s := b.stored.schedules[c];
    if c in b.stored.connections && c in done && Changed(b, c)
    then s.(nextRun := if s.enabled then Some(JobFor(s, now).start) else None) else s
  }

  /** Jobs of connections that are gone have been dropped, and the changed
      schedules among `done` have been picked up. */
  function ReconciledIn(b: Both, done: set<string>, now: int): Both {
    Both(b.worker.(jobs := JobsAfter(b, done, now), state := StateAfter(b, done)),
         b.stored.(schedules := map c | c in b.stored.schedules :: ScheduleAfter(b, done, now, c)))
  }

  /** Bring the leader's jobs back in line with the stored schedules. */
  function Reconcile(b: Both, now: int): Both {
    if b.worker.leader then ReconciledIn(b, b.stored.connections, now) else b
  }

  /** `lockAlive`: this worker's lock session still holds the lock;
      `acquired`: the lock could be taken now. */
  function TakeLeadership(b: Both, lockAlive: bool, acquired: bool, now: int): Both {
    var w := if b.worker.leader && !lockAlive then Drop(b.worker).(leader := false) else b.worker;
    if w.leader then Reconcile(b.(worker := w), now)
    else if acquired then Reconcile(b.(worker := Worker(true, w.jobs, map[])), now)
    else b.(worker := w)
  }

  // ---- picking schedules up one by one -----------------------------------

  lemma NothingPickedUp(b: Both, now: int)
    ensures ReconciledIn(b, {}, now).stored == b.stored
  {
    assert (map c | c in b.stored.schedules :: ScheduleAfter(b, {}, now, c)) == b.stored.schedules;
  }

  /** Rescheduling a connection whose schedule changed, and leaving alone one
      whose schedule did not, deals with one connection more. */
  lemma OneMorePickedUp(b: Both, done: set<string>, c: string, now: int)
    requires b.worker.leader && c in b.stored.connections && c !in done
    ensures var r := ReconciledIn(b, done, now);
            && Changed(r, c) == Changed(b, c)
            && (if Changed(b, c) then Reschedule(r, c, now) else r) == ReconciledIn(b, done + {c}, now)
  {
    StatePickedUp(b, done, c, now);
    JobsPickedUp(b, done, c, now);
    SchedulesPickedUp(b, done, c, now);
  }

  lemma StatePickedUp(b: Both, done: set<string>, c: string, now: int)
    requires b.worker.leader && c in b.stored.connections && c !in done
    ensures var r := ReconciledIn(b, done, now);
            && Changed(r, c) == Changed(b, c)
            && (if Changed(b, c) then Reschedule(r, c, now) else r).worker.state == StateAfter(b, done + {c})
  {
    var r := ReconciledIn(b, done, now);
    assert WantedOf(r.stored, c) == WantedOf(b.stored, c);
  }

  lemma JobsPickedUp(b: Both, done: set<string>, c: string, now: int)
    requires b.worker.leader && c in b.stored.connections && c !in done
    ensures var r := ReconciledIn(b, done, now);
            (if Changed(b, c) then Reschedule(r, c, now) else r).worker.jobs == JobsAfter(b, done + {c}, now)
  {
    var r := ReconciledIn(b, done, now);
    assert c in b.stored.schedules ==> ScheduleAfter(b, done, now, c) == b.stored.schedules[c];
  }

  lemma SchedulesPickedUp(b: Both, done: set<string>, c: string, now: int)
    requires b.worker.leader && c in b.stored.connections && c !in done
    ensures var r := ReconciledIn(b, done, now);
            (if Changed(b, c) then Reschedule(r, c, now) else r).stored == ReconciledIn(b, done + {c}, now).stored
  {
    var r, r' := ReconciledIn(b, done, now), ReconciledIn(b, done + {c}, now);
    var next := if Changed(b, c) then Reschedule(r, c, now) else r;
    assert c in b.stored.schedules ==> r.stored.schedules[c] == b.stored.schedules[c];
    assert next.stored.schedules.Keys == r'.stored.schedules.Keys;
    forall d | d in b.stored.schedules ensures next.stored.schedules[d] == r'.stored.schedules[d] {
      if d != c {
        assert ScheduleAfter(b, done + {c}, now, d) == ScheduleAfter(b, done, now, d);
      }
    }
  }

  // ---- one worker --------------------------------------------------------

  /** Every job has an enabled entry in the state, at its floored interval, and
      a worker that is not the leader holds nothing. */
  ghost predicate Valid(w: Worker) {
    && w.jobs.Keys <= w.state.Keys
    && (forall c :: c in w.jobs ==> w.state[c].enabled && w.jobs[c].minutes == Floored(w.state[c].intervalMinutes))
    && (!w.leader ==> w.state == map[])
  }

  lemma RescheduleValid(b: Both, c: string, now: int)
    requires Valid(b.worker)
    ensures Valid(Reschedule(b, c, now).worker)
  {
  }

  lemma ReconcileValid(b: Both, now: int)
    requires Valid(b.worker)
    ensures Valid(Reconcile(b, now).worker)
  {
  }

  lemma TakeLeadershipValid(b: Both, lockAlive: bool, acquired: bool, now: int)
    requires Valid(b.worker)
    ensures Valid(TakeLeadership(b, lockAlive, acquired, now).worker)
  {
    if b.worker.leader && !lockAlive {
      assert Drop(b.worker).jobs == map[];
      ReconcileValid(b.(worker := Worker(true, map[], map[])), now);
    } else if b.worker.leader {
      ReconcileValid(b, now);
    } else {
      ReconcileValid(b.(worker := Worker(true, b.worker.jobs, map[])), now);
    }
  }

  /** The connections whose stored schedule is enabled. */
  function Enabled(st: Stored): set<string> { set c | c in st.connections && WantedOf(st, c).enabled }

  /** Enabled schedules the state has right although their job is gone. */
  function Missed(b: Both): set<string> {
    set c | c in Enabled(b.stored) && !Changed(b, c) && c !in b.worker.jobs
  }

  /** Reconciliation makes the leader's jobs the enabled stored schedules at
      their floored intervals, less those it missed. It misses exactly the
      unchanged schedules whose job was removed behind the state's back: a
      deletion that stops between removing the job and deleting the connection
      leaves the schedule without a job. */
  lemma JobsFollowSchedulesExactly(b: Both, now: int)
    requires Valid(b.worker) && b.worker.leader
    ensures var after := Reconcile(b, now);
            && after.worker.jobs.Keys == Enabled(b.stored) - Missed(b)
            && (after.worker.jobs.Keys == Enabled(b.stored) <==> Missed(b) == {})
            && after.worker.state == (map c | c in b.stored.connections :: WantedOf(b.stored, c))
            && (forall c :: c in after.worker.jobs ==>
                  c in b.stored.schedules && after.worker.jobs[c].minutes == Floored(b.stored.schedules[c].intervalMinutes))
            && Enabled(after.stored) == Enabled(b.stored)
  {
    var after := Reconcile(b, now);
    forall c ensures c in after.worker.jobs <==> c in Enabled(b.stored) - Missed(b) {
    }
    assert Missed(b) <= Enabled(b.stored);
    forall c ensures WantedOf(after.stored, c) == WantedOf(b.stored, c) {
    }
  }

  // ---- what one reschedule does ------------------------------------------

  /** A leader's job is recreated from the stored schedule, or removed when that
      is off or gone; what it was made from is remembered, and its first run is
      stored as the schedule's next. Nothing else changes, and nothing at all on
      a worker that does not lead. */
  lemma RescheduleExactly(b: Both, c: string, now: int)
    ensures var b' := Reschedule(b, c, now);
            var on := c in b.stored.schedules && b.stored.schedules[c].enabled;
            if !b.worker.leader then b' == b
            else
              && b'.worker.leader && b'.stored.connections == b.stored.connections
              && b'.worker.jobs - {c} == b.worker.jobs - {c} && b'.worker.state - {c} == b.worker.state - {c}
              && b'.stored.schedules - {c} == b.stored.schedules - {c}
              && (c in b'.worker.jobs <==> on) && (on ==> TimedAt(b'.worker.jobs[c], b.stored.schedules[c], now))
              && c in b'.worker.state && b'.worker.state[c].enabled == on
              && b'.worker.state[c].intervalMinutes == (if c in b.stored.schedules then b.stored.schedules[c].intervalMinutes else 0)
              && (c in b'.stored.schedules <==> c in b.stored.schedules)
              && (c in b.stored.schedules ==>
                    b'.stored.schedules[c] ==
                    b.stored.schedules[c].(nextRun := if on then Some(b'.worker.jobs[c].start) else None))
  {
    if c in b.stored.schedules {
      JobStartsInTime(b.stored.schedules[c], now);
    }
  }

  /** A check leaves each job as it was, or recreates it from the stored
      schedule; on a takeover it recreates them all. */
  lemma JobsAreKeptOrTimed(b: Both, lockAlive: bool, acquired: bool, now: int, c: string)
    requires Valid(b.worker)
    ensures var w := TakeLeadership(b, lockAlive, acquired, now).worker;
            c in w.jobs ==>
              && c in b.stored.schedules && b.stored.schedules[c].enabled
              && (TimedAt(w.jobs[c], b.stored.schedules[c], now) || (lockAlive && c in b.worker.jobs && w.jobs[c] == b.worker.jobs[c]))
  {
    if c in b.stored.schedules {
      JobStartsInTime(b.stored.schedules[c], now);
    }
  }

  // ---- many workers ------------------------------------------------------

  type Id = nat

  /** All workers, what is stored, and whose session holds the lock. */
  datatype System = System(stored: Stored, workers: map<Id, Worker>, lock: Option<Id>)

  function WorkerOf(s: System, i: Id): Worker { if i in s.workers then s.workers[i] else Idle() }

  datatype Action =
    | Save(c: string, schedule: Schedule)
    | Told(i: Id, c: string, now: int)
    | Remove(i: Id, c: string)
    | Delete(c: string)
    | SessionEnds
    | Tick(i: Id, now: int)
    | Restart(i: Id)

  function With(s: System, i: Id, b: Both): System { s.(stored := b.stored, workers := s.workers[i := b.worker]) }

  /** Edits and deletions are served by any worker: the stored rows change in
      one step, the serving worker's jobs in another, and either may be missing. */
  function Next(s: System, a: Action): System {
    match a
    case Save(c, schedule) =>
      s.(stored := Stored(s.stored.connections + {c}, s.stored.schedules[c := schedule]))
    case Told(i, c, now) => With(s, i, Reschedule(Both(WorkerOf(s, i), s.stored), c, now))
    case Remove(i, c) => With(s, i, Both(RemoveJob(WorkerOf(s, i), c), s.stored))
    case Delete(c) => s.(stored := Stored(s.stored.connections - {c}, s.stored.schedules - {c}))
    case SessionEnds => s.(lock := None)
    case Tick(i, now) =>
      var alive, free := s.lock == Some(i), s.lock.None?;
      With(s, i, TakeLeadership(Both(WorkerOf(s, i), s.stored), alive, free || alive, now))
        .(lock := if free then Some(i) else s.lock)
    case Restart(i) =>
      s.(workers := s.workers[i := Idle()], lock := if s.lock == Some(i) then None else s.lock)
  }

  function Start(): System { System(Stored({}, map[]), map[], None) }

  ghost predicate Inv(s: System) {
    && (forall i :: Valid(WorkerOf(s, i)))
    && (s.lock.Some? ==> WorkerOf(s, s.lock.value).leader)
  }

  /** The worker a step changes, if any. */
  predicate Moves(a: Action, i: Id) {
    match a
    case Told(j, _, _) => i == j
    case Remove(j, _) => i == j
    case Tick(j, _) => i == j
    case Restart(j) => i == j
    case _ => false
  }

  lemma OthersStay(s: System, a: Action, i: Id)
    requires !Moves(a, i)
    ensures WorkerOf(Next(s, a), i) == WorkerOf(s, i)
  {
  }

  lemma MovedValid(s: System, a: Action, i: Id)
    requires Inv(s) && Moves(a, i)
    ensures Valid(WorkerOf(Next(s, a), i))
  {
    var b := Both(WorkerOf(s, i), s.stored);
    match a
    case Told(_, c, now) => RescheduleValid(b, c, now);
    case Remove(_, _) =>
    case Tick(_, now) => TakeLeadershipValid(b, s.lock == Some(i), s.lock.None? || s.lock == Some(i), now);
    case Restart(_) =>
    case _ =>
  }

  lemma StepInv(s: System, a: Action)
    requires Inv(s)
    ensures Inv(Next(s, a))
  {
    forall i ensures Valid(WorkerOf(Next(s, a), i)) {
      if Moves(a, i) {
        MovedValid(s, a, i);
      } else {
        OthersStay(s, a, i);
      }
    }
  }

  ghost predicate Execution(states: seq<System>, actions: seq<Action>) {
    && |states| == |actions| + 1 && states[0] == Start()
    && forall k :: 0 <= k < |actions| ==> states[k + 1] == Next(states[k], actions[k])
  }

  /** In any run a worker that does not lead holds no job, and every job has an
      entry in the state. */
  lemma {:induction false} WorkersStayValid(states: seq<System>, actions: seq<Action>, k: nat)
    requires Execution(states, actions) && k < |states|
    ensures Inv(states[k])
    decreases k
  {
    if k > 0 {
      WorkersStayValid(states, actions, k - 1);
      StepInv(states[k - 1], actions[k - 1]);
    }
  }

  /** In any run, over any edits, deletions, lock losses and takeovers: after a
      worker's check it either holds the lock and its jobs are the enabled
      stored schedules less the missed ones, each at its floored interval, or it
      holds no job at all. A takeover misses none. */
  lemma EachCheckFollows(states: seq<System>, actions: seq<Action>, k: nat)
    requires Execution(states, actions) && k < |actions| && actions[k].Tick?
    ensures var i := actions[k].i;
            var before, w, st := WorkerOf(states[k], i), WorkerOf(states[k + 1], i), states[k].stored;
            var missed := Missed(Both(before, st));
            && (if states[k + 1].lock != Some(i) then w.jobs == map[]
                else if states[k].lock == Some(i) then w.jobs.Keys == Enabled(st) - missed
                else w.jobs.Keys == Enabled(st))
            && (forall c :: c in w.jobs ==> c in st.schedules && w.jobs[c].minutes == Floored(st.schedules[c].intervalMinutes))
  {
    WorkersStayValid(states, actions, k);
    var i, now := actions[k].i, actions[k].now;
    var before, st := WorkerOf(states[k], i), states[k].stored;
    if states[k + 1].lock == Some(i) {
      if states[k].lock == Some(i) {
        JobsFollowSchedulesExactly(Both(before, st), now);
      } else {
        assert before.leader ==> Drop(before).jobs == map[];
        JobsFollowSchedulesExactly(Both(Worker(true, map[], map[]), st), now);
      }
    } else {
      assert before.leader ==> Drop(before).jobs == map[];
    }
  }

  /** Every job in any run was timed when its worker last picked its schedule
      up, from the schedule stored then. So a takeover or an edit never
      postpones a due scan by more than five seconds. */
  lemma {:induction false} JobsWereTimed(states: seq<System>, actions: seq<Action>, k: nat, i: Id, c: string)
    returns (m: nat, now: int)
    requires Execution(states, actions) && k < |states| && c in WorkerOf(states[k], i).jobs
    ensures m < k && (actions[m] == Told(i, c, now) || actions[m] == Tick(i, now))
    ensures var st := states[m].stored;
            c in st.schedules && st.schedules[c].enabled && TimedAt(WorkerOf(states[k], i).jobs[c], st.schedules[c], now)
    decreases k
  {
    var s, a := states[k - 1], actions[k - 1];
    WorkersStayValid(states, actions, k - 1);
    if SameJob(WorkerOf(s, i), WorkerOf(states[k], i), c) {
      m, now := JobsWereTimed(states, actions, k - 1, i, c);
    } else {
      now := NewJobTimed(s, a, i, c);
      m := k - 1;
    }
  }

  predicate SameJob(w: Worker, w': Worker, c: string) { c in w.jobs && c in w'.jobs && w'.jobs[c] == w.jobs[c] }

  lemma NewJobTimed(s: System, a: Action, i: Id, c: string) returns (now: int)
    requires Inv(s) && c in WorkerOf(Next(s, a), i).jobs && !SameJob(WorkerOf(s, i), WorkerOf(Next(s, a), i), c)
    ensures a == Told(i, c, now) || a == Tick(i, now)
    ensures c in s.stored.schedules && s.stored.schedules[c].enabled
    ensures TimedAt(WorkerOf(Next(s, a), i).jobs[c], s.stored.schedules[c], now)
  {
    if !Moves(a, i) {
      OthersStay(s, a, i);
    }
    var b := Both(WorkerOf(s, i), s.stored);
    match a
    case Told(_, d, at) =>
      RescheduleExactly(b, d, at);
      now := at;
    case Tick(_, at) =>
      JobsAreKeptOrTimed(b, s.lock == Some(i), s.lock.None? || s.lock == Some(i), at, c);
      now := at;
    case _ =>
      now := 0;
  }

  /** In any run an enabled entry without a job had its job removed. */
  lemma {:induction false} MissingMeansRemoved(states: seq<System>, actions: seq<Action>, k: nat, i: Id, c: string)
    returns (m: nat)
    requires Execution(states, actions) && k < |states|
    requires var w := WorkerOf(states[k], i); c in w.state && w.state[c].enabled && c !in w.jobs
    ensures m < k && actions[m] == Remove(i, c)
    decreases k
  {
    WorkersStayValid(states, actions, k - 1);
    var s, a := states[k - 1], actions[k - 1];
    if a == Remove(i, c) {
      m := k - 1;
    } else {
      MissingWasMissing(s, a, i, c);
      m := MissingMeansRemoved(states, actions, k - 1, i, c);
    }
  }

  lemma MissingWasMissing(s: System, a: Action, i: Id, c: string)
    requires Inv(s) && a != Remove(i, c)
    requires var w := WorkerOf(Next(s, a), i); c in w.state && w.state[c].enabled && c !in w.jobs
    ensures var w := WorkerOf(s, i); c in w.state && w.state[c].enabled && c !in w.jobs
  {
    if !Moves(a, i) {
      OthersStay(s, a, i);
    }
  }

  /** A connection that was deleted and not saved again has no schedule, and no
      job on any worker that has checked or was told since. */
  lemma {:induction false} DeletedIsGone(states: seq<System>, actions: seq<Action>, m: nat, k: nat, c: string)
    requires Execution(states, actions) && m < k < |states| && actions[m] == Delete(c)
    requires forall j :: m < j < k ==> !(actions[j].Save? && actions[j].c == c)
    ensures c !in states[k].stored.connections && c !in states[k].stored.schedules
    decreases k
  {
    if k > m + 1 {
      DeletedIsGone(states, actions, m, k - 1, c);
      StoredMoves(states[k - 1], actions[k - 1], c);
    }
  }

  /** What is stored for a connection changes when it is saved or deleted; but for
      its next run, which the leader sets. */
  lemma StoredMoves(s: System, a: Action, c: string)
    ensures var st, st' := s.stored, Next(s, a).stored;
            if a.Save? && a.c == c then c in st'.connections && c in st'.schedules && st'.schedules[c] == a.schedule
            else if a == Delete(c) then c !in st'.connections && c !in st'.schedules
            else
              && (c in st'.connections <==> c in st.connections) && (c in st'.schedules <==> c in st.schedules)
              && (c in st.schedules ==>
                    exists next :: st'.schedules[c] == st.schedules[c].(nextRun := next))
  {
    var st, st' := s.stored, Next(s, a).stored;
    if c in st.schedules && c in st'.schedules && !(a.Save? && a.c == c) {
      assert st'.schedules[c] == st.schedules[c].(nextRun := st'.schedules[c].nextRun);
    }
  }

  lemma {:induction false} NoJobOnceGone(states: seq<System>, actions: seq<Action>, m: nat, j: nat, k: nat, i: Id, c: string)
    requires Execution(states, actions) && m < j < k < |states| && actions[m] == Delete(c)
    requires forall x :: m < x < k ==> !(actions[x].Save? && actions[x].c == c)
    requires (exists now :: actions[j] == Tick(i, now) || actions[j] == Told(i, c, now)) && WorkerOf(states[j], i).leader
    ensures c !in WorkerOf(states[k], i).jobs
    decreases k
  {
    DeletedIsGone(states, actions, m, k - 1, c);
    WorkersStayValid(states, actions, k - 1);
    if j == k - 1 {
      JobGoes(states[j], actions[j], i, c);
    } else {
      NoJobOnceGone(states, actions, m, j, k - 1, i, c);
      NoNewJob(states[k - 1], actions[k - 1], i, c);
    }
  }

  lemma NoNewJob(s: System, a: Action, i: Id, c: string)
    requires Inv(s) && c !in s.stored.schedules && c !in WorkerOf(s, i).jobs
    ensures c !in WorkerOf(Next(s, a), i).jobs
  {
    if c in WorkerOf(Next(s, a), i).jobs {
      var now := NewJobTimed(s, a, i, c);
    }
  }

  lemma JobGoes(s: System, a: Action, i: Id, c: string)
    requires Inv(s) && WorkerOf(s, i).leader && c !in s.stored.connections && c !in s.stored.schedules
    requires exists now :: a == Tick(i, now) || a == Told(i, c, now)
    ensures c !in WorkerOf(Next(s, a), i).jobs
  {
  }

  /** In any run a worker that holds jobs without the lock has lost its session
      and has not checked or restarted since: so two workers hold jobs only
      between the end of a session and its owner's next check. */
  lemma {:induction false} JobsWithoutLock(states: seq<System>, actions: seq<Action>, k: nat, i: Id) returns (m: nat)
    requires Execution(states, actions) && k < |states|
    requires WorkerOf(states[k], i).leader && states[k].lock != Some(i)
    ensures m < k && actions[m] == SessionEnds && states[m].lock == Some(i)
    ensures forall j :: m < j < k ==> !(actions[j].Tick? && actions[j].i == i) && actions[j] != Restart(i)
    decreases k
  {
    var s, a := states[k - 1], actions[k - 1];
    LeaderWasLeader(s, a, i);
    if s.lock == Some(i) {
      m := k - 1;
    } else {
      m := JobsWithoutLock(states, actions, k - 1, i);
    }
  }

  lemma LeaderWasLeader(s: System, a: Action, i: Id)
    requires WorkerOf(Next(s, a), i).leader && Next(s, a).lock != Some(i)
    ensures WorkerOf(s, i).leader && !(a.Tick? && a.i == i) && a != Restart(i)
    ensures s.lock == Some(i) ==> a == SessionEnds
  {
    if !Moves(a, i) {
      OthersStay(s, a, i);
    }
  }

  /** A deletion that stops after removing the job: the schedule stays enabled,
      and the leader's next check does not bring its job back. */
  lemma StoppedDeletionLosesTheJob(c: string, schedule: Schedule, now: int)
    requires schedule.enabled
    ensures var saved := Next(Start(), Save(c, schedule));
            var removed := Next(Next(saved, Tick(0, now)), Remove(0, c));
            var s := Next(removed, Tick(0, now));
            s.lock == Some(0) && c in Enabled(s.stored) && WorkerOf(s, 0).jobs == map[]
  {
    var s1 := Next(Start(), Save(c, schedule));
    var s2 := Next(s1, Tick(0, now));
    JobsFollowSchedulesExactly(Both(Worker(true, map[], map[]), s1.stored), now);
    assert s2.lock == Some(0) && WorkerOf(s2, 0).leader;
    assert WorkerOf(s2, 0).state.Keys == {c} && WorkerOf(s2, 0).state[c] == WantedOf(s1.stored, c);
    assert WantedOf(s2.stored, c) == WantedOf(s1.stored, c) && s2.stored.connections == {c};
    var s3 := Next(s2, Remove(0, c));
    StepInv(Start(), Save(c, schedule));
    StepInv(s1, Tick(0, now));
    StepInv(s2, Remove(0, c));
    JobsFollowSchedulesExactly(Both(WorkerOf(s3, 0), s3.stored), now);
    assert c in Missed(Both(WorkerOf(s3, 0), s3.stored));
    assert Enabled(s3.stored) == {c};
  }

  /** When the lock's session ends, its owner still holds its jobs while
      another worker takes over. */
  lemma TwoWorkersHoldJobs(c: string, schedule: Schedule, now: int)
    requires schedule.enabled
    ensures var saved := Next(Start(), Save(c, schedule));
            var s := Next(Next(Next(saved, Tick(0, now)), SessionEnds), Tick(1, now));
            c in WorkerOf(s, 0).jobs && c in WorkerOf(s, 1).jobs && s.lock == Some(1)
  {
    var s1 := Next(Start(), Save(c, schedule));
    var s2 := Next(s1, Tick(0, now));
    JobsFollowSchedulesExactly(Both(Worker(true, map[], map[]), s1.stored), now);
    assert s2.stored.connections == {c} && WantedOf(s2.stored, c) == WantedOf(s1.stored, c);
    assert c in Enabled(s1.stored) && c in Enabled(s2.stored);
    JobsFollowSchedulesExactly(Both(Worker(true, map[], map[]), s2.stored), now);
  }
}
