/** Event capture as it runs: tables updated in place, a collector that counts
    its calls, and the loops of backend/app/events/store.py and service.py.
    Every method is proved to do exactly what its function in `Capture` says. */
module CaptureService {
  import opened Basics
  import opened Gaps
  import Capture
  import opened CaptureSafety

  type Event = Capture.Event

  /** The vCenter as one scan sees it. */
  class VCenter {
    const answers: Capture.Collector
    var calls: nat

    constructor (answers: Capture.Collector)
      ensures this.answers == answers && calls == 0
    {
      this.answers, calls := answers, 0;
    }

    method CollectEvents(since: int, until: int) returns (reply: Capture.Reply)
      modifies this
      ensures calls == old(calls) + 1
      ensures reply == answers(old(calls), since, until)
    {
      reply := answers(calls, since, until);
      calls := calls + 1;
    }
  }

  class EventStore {
    var gaps: set<Gap>
    var nextGapId: nat
    var events: map<string, Event>
    var checkpoints: map<string, int>
    var taskHistoryUnavailable: map<string, bool>

    constructor ()
      ensures State() == Fresh()
    {
      gaps, nextGapId, events := {}, 0, map[];
      checkpoints, taskHistoryUnavailable := map[], map[];
    }

    function State(): Capture.Db
      reads this
    {
      Capture.Db(GapTable(gaps, nextGapId), events, checkpoints, taskHistoryUnavailable)
    }

    method RecordIncompleteInterval(c: string, since: int, until: int, error: string)
      modifies this
      ensures State() == old(State()).(gaps := Record(old(State()).gaps, c, since, until, error))
    {
      var start, end, attempts: nat := since, until, 0;
      var overlaps := Overlaps(gaps, c, start, end);
      while overlaps != {}
        invariant overlaps == Overlaps(gaps, c, start, end)
        invariant Absorb(gaps, c, start, end, attempts) == Absorb(old(gaps), c, since, until, 0)
        invariant State() == old(State()).(gaps := GapTable(gaps, old(nextGapId)))
        decreases |gaps|
      {
        start, end, attempts := LeastSince(start, overlaps), GreatestUntil(end, overlaps), MostAttempts(attempts, overlaps);
        SubsetSize(gaps - overlaps, gaps);
        gaps := gaps - overlaps;
        overlaps := Overlaps(gaps, c, start, end);
      }
      gaps := gaps + {Gap(nextGapId, c, start, end, attempts + 1, error)};
      nextGapId := nextGapId + 1;
    }

    method ResolveIncompleteRange(c: string, since: int, until: int)
      modifies this
      ensures State() == old(State()).(gaps := Resolve(old(State()).gaps, c, since, until))
    {
      gaps := Resolve(GapTable(gaps, nextGapId), c, since, until).rows;
    }

    method PruneIncompleteIntervals(c: string, before: int)
      modifies this
      ensures State() == old(State()).(gaps := Prune(old(State()).gaps, c, before))
    {
      gaps := (set g | g in gaps && !(g.connection == c && g.until < before));
      gaps := (set g | g in gaps :: Trim(g, c, before));
    }

    method SetTaskHistoryUnavailable(c: string, unavailable: bool)
      modifies this
      ensures State() == old(State()).(taskHistoryUnavailable := old(taskHistoryUnavailable)[c := unavailable])
    {
      taskHistoryUnavailable := taskHistoryUnavailable[c := unavailable];
    }

    method SetCaptureCheckpoint(c: string, end: int)
      modifies this
      ensures State() == old(State()).(checkpoints := old(checkpoints)[c := end])
    {
      checkpoints := checkpoints[c := end];
    }

    /** Returns how many rows were new: the growth of the table. */
    method UpsertEvents(rows: seq<Event>) returns (inserted: nat)
      modifies this
      ensures State() == old(State()).(events := Capture.Upsert(old(events), rows))
      ensures inserted == |events| - |old(events)|
    {
      inserted := 0;
      for i := 0 to |rows|
        invariant Capture.Upsert(events, rows[i..]) == Capture.Upsert(old(events), rows)
        invariant State() == old(State()).(events := events)
        invariant inserted == |events| - |old(events)|
      {
        assert rows[i..][1..] == rows[i + 1..];
        if rows[i].id !in events {
          events := events[rows[i].id := rows[i]];
          inserted := inserted + 1;
        }
      }
    }
  }

  method FetchWindow(store: EventStore, vcenter: VCenter, c: string, since: int,
                     until: int) returns (outcome: Capture.Outcome)
    modifies store, vcenter
    ensures Capture.Fetch(store.State(), vcenter.calls, outcome) ==
            Capture.FetchWindow(old(store.State()), c, vcenter.answers, old(vcenter.calls), since, until)
    decreases if since < until then until - since else 0
  {
    var raw := vcenter.CollectEvents(since, until);
    if raw.Raises? {
      return Capture.Raised(raw.message);
    }
    var (rows, complete) := Capture.Result(raw);
    if raw.Batch? && raw.taskHistoryUnavailable.Some? {
      store.SetTaskHistoryUnavailable(c, raw.taskHistoryUnavailable.value);
    }
    var error := Capture.ErrorOf(raw);
    if error != "" {
      store.RecordIncompleteInterval(c, since, until, error);
      return Capture.Returned(rows, false);
    }
    if complete {
      store.ResolveIncompleteRange(c, since, until);
      return Capture.Returned(rows, true);
    }
    if until - since <= Capture.MIN_WINDOW {
      store.RecordIncompleteInterval(c, since, until, Capture.CAP_ERROR);
      return Capture.Returned(rows, false);
    }
    var midpoint := Capture.Midpoint(since, until);
    var left := FetchWindow(store, vcenter, c, since, midpoint);
    if left.Raised? {
      return left;
    }
    var right := FetchWindow(store, vcenter, c, midpoint, until);
    if right.Raised? {
      return right;
    }
    return Capture.Returned(left.rows + right.rows, left.complete && right.complete);
  }

  /** Enrich every row, then keep those at or after the cutoff. */
  method Enrich(rows: seq<Event>, c: string, names: Capture.Names, cutoff: int) returns (kept: seq<Event>)
    ensures kept == Capture.Kept(rows, c, names, cutoff)
  {
    kept := [];
    for i := 0 to |rows|
      invariant kept + Capture.Kept(rows[i..], c, names, cutoff) == Capture.Kept(rows, c, names, cutoff)
    {
      assert rows[i..][1..] == rows[i + 1..];
      var e := Capture.Enrich(rows[i], c, names);
      ghost var before, rest := kept, Capture.Kept(rows[i + 1..], c, names, cutoff);
      if e.time >= cutoff {
        kept := kept + [e];
        assert kept + rest == before + ([e] + rest);
      } else {
        assert [] + rest == rest;
      }
    }
  }

  /** Read one recorded gap again. The rows of a reading that raised are
      dropped and the gap is recorded again. */
  method RetryGap(store: EventStore, vcenter: VCenter, c: string, g: Gap) returns (rows: seq<Event>)
    modifies store, vcenter
    ensures var f := Capture.FetchWindow(old(store.State()), c, vcenter.answers, old(vcenter.calls), g.since, g.until);
            && store.State() == AfterRetry(f, c, g)
            && vcenter.calls == f.calls
            && rows == RowsOf(f.outcome)
  {
    var outcome := FetchWindow(store, vcenter, c, g.since, g.until);
    match outcome
    case Raised(message) =>
      store.RecordIncompleteInterval(c, g.since, g.until, Capture.Truncate(message));
      rows := [];
    case Returned(retried, complete) =>
      rows := retried;
      if complete {
        store.ResolveIncompleteRange(c, g.since, g.until);
      }
  }

  method RetryGaps(store: EventStore, vcenter: VCenter, c: string, todo: seq<Gap>, since: int, until: int)
    returns (retryRows: seq<Event>)
    modifies store, vcenter
    ensures Capture.Retry(store.State(), vcenter.calls, retryRows) ==
            Capture.RetryGaps(old(store.State()), c, vcenter.answers, old(vcenter.calls), todo, since, until)
  {
    retryRows := [];
    ghost var whole := Capture.RetryGaps(store.State(), c, vcenter.answers, vcenter.calls, todo, since, until);
    for i := 0 to |todo|
      invariant var rest := Capture.RetryGaps(store.State(), c, vcenter.answers, vcenter.calls, todo[i..], since, until);
                whole == rest.(rows := retryRows + rest.rows)
    {
      RetryHead(store.State(), c, vcenter.answers, vcenter.calls, todo[i..], since, until);
      assert todo[i..][0] == todo[i] && todo[i..][1..] == todo[i + 1..];
      if !(since <= todo[i].since && todo[i].until <= until) {
        var rows := RetryGap(store, vcenter, c, todo[i]);
        retryRows := retryRows + rows;
      }
    }
    assert todo[|todo|..] == [];
  }

  /** One scan's capture. `vcenter` is the collector made for this scan. */
  method CaptureEvents(store: EventStore, vcenter: VCenter, c: string, until: int, hours: nat, names: Capture.Names)
    returns (inserted: nat)
    requires Valid(store.State().gaps) && vcenter.calls == 0
    modifies store, vcenter
    ensures store.State() == Capture.CaptureEvents(old(store.State()), c, vcenter.answers, until, hours, names).db
    ensures Valid(store.State().gaps)
    ensures inserted == |store.events| - |old(store.events)|
  {
    CaptureFrame(store.State(), c, vcenter.answers, until, hours, names);
    RetriedFacts(store.State(), c, vcenter.answers, until, hours);
    ghost var before := store.State();
    var since := Capture.WindowStart(store.State(), c, until, hours);
    var cutoff := Capture.Cutoff(until, hours);
    Capture.PruneKeyed(before.gaps, c, cutoff);
    store.PruneIncompleteIntervals(c, cutoff);
    var todo := Capture.BySince(Capture.OfConnection(store.gaps, c));
    var retryRows := RetryGaps(store, vcenter, c, todo, since, until);
    assert Capture.Retry(store.State(), vcenter.calls, retryRows) == Capture.Retried(before, c, vcenter.answers, until, hours);
    WindowNotEmpty(before, c, until, hours);
    Capture.FetchFrame(store.State(), c, vcenter.answers, vcenter.calls, since, until);
    var outcome := FetchWindow(store, vcenter, c, since, until);
    if outcome.Raised? {
      var retried := Enrich(retryRows, c, names, cutoff);
      inserted := store.UpsertEvents(retried);
      return;
    }
    var kept := Enrich(retryRows + outcome.rows, c, names, cutoff);
    inserted := store.UpsertEvents(kept);
    if outcome.complete {
      store.ResolveIncompleteRange(c, since, until);
      store.SetCaptureCheckpoint(c, until);
    }
  }
}
