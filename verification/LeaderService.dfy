/** A worker's scheduling as it runs: its jobs and its record of them changed in
    place, against tables shared with the other workers
    (backend/app/scheduler.py). Every method is proved to do exactly what its
    function in `LeaderJobs` says. */
module LeaderService {
  import opened Basics
  import L = LeaderJobs

  class Store {
    var connections: set<string>
    var schedules: map<string, L.Schedule>

    constructor ()
      ensures State() == L.Stored({}, map[])
    {
      connections, schedules := {}, map[];
    }

    function State(): L.Stored
      reads this
    {
      L.Stored(connections, schedules)
    }

    /** Writes the next run only; nothing else of a schedule changes. */
    method SetNextRun(c: string, nextRun: Option<int>)
      modifies this`schedules
      ensures State() == L.NextRunSet(old(State()), c, nextRun)
    {
      if c in schedules {
        schedules := schedules[c := schedules[c].(nextRun := nextRun)];
      }
    }
  }

  class Scheduler {
    var leader: bool
    var jobs: map<string, L.Job>
    var scheduledState: map<string, L.Wanted>

    constructor ()
      ensures State() == L.Idle()
    {
      leader, jobs, scheduledState := false, map[], map[];
    }

    function State(): L.Worker
      reads this
    {
      L.Worker(leader, jobs, scheduledState)
    }

    function With(store: Store): L.Both
      reads this, store
    {
      L.Both(State(), store.State())
    }

    method RemoveJob(c: string)
      modifies this`jobs
      ensures State() == L.RemoveJob(old(State()), c)
    {
      if c in jobs {
        jobs := jobs - {c};
      }
    }

    method Reschedule(store: Store, c: string, now: int)
      modifies this, store`schedules
      ensures With(store) == L.Reschedule(old(With(store)), c, now)
    {
      if !leader {
        return;
      }
      var stored := store.schedules;
      RemoveJob(c);
      if c !in stored || !stored[c].enabled {
        scheduledState := scheduledState[c := L.Wanted(if c in stored then stored[c].intervalMinutes else 0, false)];
        store.SetNextRun(c, None);
        return;
      }
      scheduledState := scheduledState[c := L.Wanted(stored[c].intervalMinutes, stored[c].enabled)];
      var minutes := Max(stored[c].intervalMinutes, L.MIN_INTERVAL_MINUTES);
      var start := now + minutes * L.MINUTE;
      if stored[c].lastRun.Some? {
        start := Max(stored[c].lastRun.value + minutes * L.MINUTE, now + L.FIVE_SECONDS);
      }
      jobs := jobs[c := L.Job(minutes, start)];
      store.SetNextRun(c, Some(start));
    }

    method DropScanJobs()
      modifies this`jobs, this`scheduledState
      ensures State() == L.Drop(old(State()))
    {
      var todo := scheduledState.Keys;
      while todo != {}
        invariant todo <= scheduledState.Keys
        invariant jobs == old(jobs) - (scheduledState.Keys - todo)
        modifies this`jobs
        decreases todo
      {
        var c :| c in todo;
        RemoveJob(c);
        todo := todo - {c};
      }
      scheduledState := map[];
    }

    /** Drop what belongs to connections that are gone. */
    method Forget(connections: set<string>)
      modifies this`jobs, this`scheduledState
      ensures jobs == old(jobs) - (old(scheduledState).Keys - connections)
      ensures scheduledState == old(scheduledState) - (old(scheduledState).Keys - connections)
    {
      var gone := scheduledState.Keys - connections;
      var todo := gone;
      while todo != {}
        invariant todo <= gone
        invariant jobs == old(jobs) - (gone - todo)
        invariant scheduledState == old(scheduledState) - (gone - todo)
        decreases todo
      {
        var c :| c in todo;
        RemoveJob(c);
        scheduledState := scheduledState - {c};
        todo := todo - {c};
      }
    }

    method ReconcileJobs(store: Store, now: int)
      requires L.Valid(State())
      modifies this, store`schedules
      ensures With(store) == L.Reconcile(old(With(store)), now)
    {
      if !leader {
        return;
      }
      ghost var b := With(store);
      var connections := store.connections;
      Forget(connections);
      L.NothingPickedUp(b, now);
      assert With(store) == L.ReconciledIn(b, {}, now);
      var todo := connections;
      while todo != {}
        invariant todo <= connections
        invariant With(store) == L.ReconciledIn(b, connections - todo, now)
        decreases todo
      {
        var c :| c in todo;
        L.OneMorePickedUp(b, connections - todo, c, now);
        var wanted := L.WantedOf(store.State(), c);
        if c !in scheduledState || scheduledState[c] != wanted {
          Reschedule(store, c, now);
        }
        assert connections - (todo - {c}) == (connections - todo) + {c};
        todo := todo - {c};
      }
      assert connections - todo == connections;
    }

    /** `lockAlive`: whether this worker's lock session still holds the lock;
        `acquired`: whether the lock could be taken now. */
    method TakeLeadership(store: Store, lockAlive: bool, acquired: bool, now: int)
      requires L.Valid(State())
      modifies this, store`schedules
      ensures With(store) == L.TakeLeadership(old(With(store)), lockAlive, acquired, now)
      ensures L.Valid(State())
    {
      L.TakeLeadershipValid(With(store), lockAlive, acquired, now);
      if leader && !lockAlive {
        leader := false;
        DropScanJobs();
      }
      if !leader {
        if !acquired {
          return;
        }
        leader := true;
        scheduledState := map[];
      }
      ReconcileJobs(store, now);
    }
  }
}
