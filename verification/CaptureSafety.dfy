/** What capture guarantees over whole runs of scans: nothing at or before the
    checkpoint is missing, nothing accounted for is forgotten, and a healthy
    scan repairs what bad ones left. */
module CaptureSafety {
  import opened Basics
  import opened Gaps
  import opened Capture

  // ---- storing rows ------------------------------------------------------

  lemma {:induction false} KeptHas(rows: seq<Event>, c: string, names: Names, cutoff: int, o: Occurrence)
    requires HasRow(rows, o) && cutoff <= o.time
    ensures HasRow(Kept(rows, c, names, cutoff), o)
    decreases |rows|
  {
    var i :| 0 <= i < |rows| && IsRowOf(rows[i], o);
    var first := if rows[0].time >= cutoff then [Enrich(rows[0], c, names)] else [];
    var rest := Kept(rows[1..], c, names, cutoff);
    if i == 0 {
      assert IsRowOf(first[0], o);
    } else {
      assert rows[1..][i - 1] == rows[i];
      KeptHas(rows[1..], c, names, cutoff, o);
    }
    HasRowConcat(first, rest, o);
  }

  ghost predicate HasId(rows: seq<Event>, id: string) {
    exists i :: 0 <= i < |rows| && rows[i].id == id
  }

  lemma HasIdTail(rows: seq<Event>, id: string)
    requires rows != []
    ensures HasId(rows, id) <==> rows[0].id == id || HasId(rows[1..], id)
  {
    if i :| 1 <= i < |rows| && rows[i].id == id {
      assert rows[1..][i - 1].id == id;
    }
    if HasId(rows[1..], id) {
      var j :| 0 <= j < |rows[1..]| && rows[1..][j].id == id;
      assert rows[j + 1].id == id;
    }
  }

  /** Upserting keeps what is there and adds every id of the batch. */
  lemma {:induction false} UpsertAdds(events: map<string, Event>, rows: seq<Event>, id: string)
    ensures var after := Upsert(events, rows);
            && (id in after <==> id in events || HasId(rows, id))
            && (id in events ==> after[id] == events[id])
    decreases |rows|
  {
    if rows != [] {
      HasIdTail(rows, id);
      UpsertAdds(if rows[0].id in events then events else events[rows[0].id := rows[0]], rows[1..], id);
    }
  }

  /** Of several new rows with one id the first is stored. */
  lemma {:induction false} FirstRowWins(events: map<string, Event>, rows: seq<Event>, i: nat)
    requires i < |rows| && rows[i].id !in events
    requires forall j :: 0 <= j < i ==> rows[j].id != rows[i].id
    ensures var after := Upsert(events, rows); rows[i].id in after && after[rows[i].id] == rows[i]
    decreases |rows|
  {
    var events' := if rows[0].id in events then events else events[rows[0].id := rows[0]];
    if i == 0 {
      UpsertAdds(events', rows[1..], rows[0].id);
    } else {
      assert rows[1..][i - 1] == rows[i];
      FirstRowWins(events', rows[1..], i - 1);
    }
  }

  lemma RowStored(events: map<string, Event>, rows: seq<Event>, c: string, names: Names, cutoff: int, o: Occurrence)
    ensures o.id in events ==> o.id in Upsert(events, Kept(rows, c, names, cutoff))
    ensures HasRow(rows, o) && cutoff <= o.time ==> o.id in Upsert(events, Kept(rows, c, names, cutoff))
  {
    var kept := Kept(rows, c, names, cutoff);
    UpsertAdds(events, kept, o.id);
    if HasRow(rows, o) && cutoff <= o.time {
      KeptHas(rows, c, names, cutoff, o);
      var i :| 0 <= i < |kept| && IsRowOf(kept[i], o);
    }
  }

  // ---- retrying recorded gaps --------------------------------------------

  ghost predicate Intervals(todo: seq<Gap>) { forall g :: g in todo ==> g.since <= g.until }

  /** The table after one gap has been read again. */
  function AfterRetry(f: Fetch, c: string, g: Gap): Db {
    match f.outcome
    case Raised(message) => f.db.(gaps := Record(f.db.gaps, c, g.since, g.until, Truncate(message)))
    case Returned(_, complete) => if complete then f.db.(gaps := Resolve(f.db.gaps, c, g.since, g.until)) else f.db
  }

  function RowsOf(outcome: Outcome): seq<Event> {
    if outcome.Raised? then [] else outcome.rows
  }

  /** The retries do the first gap, unless the capture window contains it,
      and then the others. */
  lemma RetryHead(db: Db, c: string, collect: Collector, calls: nat, todo: seq<Gap>, since: int, until: int)
    requires todo != []
    ensures RetryGaps(db, c, collect, calls, todo, since, until) ==
            if since <= todo[0].since && todo[0].until <= until
            then RetryGaps(db, c, collect, calls, todo[1..], since, until)
            else
              var f := FetchWindow(db, c, collect, calls, todo[0].since, todo[0].until);
              var rest := RetryGaps(AfterRetry(f, c, todo[0]), c, collect, f.calls, todo[1..], since, until);
              rest.(rows := RowsOf(f.outcome) + rest.rows)
  {
    var f := FetchWindow(db, c, collect, calls, todo[0].since, todo[0].until);
    var rest := RetryGaps(AfterRetry(f, c, todo[0]), c, collect, f.calls, todo[1..], since, until);
    assert [] + rest.rows == rest.rows;
  }

  lemma AfterRetryFrame(db: Db, c: string, collect: Collector, calls: nat, g: Gap)
    requires Valid(db.gaps) && g.since <= g.until
    ensures var db' := AfterRetry(FetchWindow(db, c, collect, calls, g.since, g.until), c, g);
            Valid(db'.gaps) && SameElsewhere(db, db', c)
            && SameCoverOutside(db.gaps.rows, db'.gaps.rows, c, g.since, g.until)
  {
    var f := FetchWindow(db, c, collect, calls, g.since, g.until);
    FetchFrame(db, c, collect, calls, g.since, g.until);
    if f.outcome.Raised? {
      RecordValid(f.db.gaps, c, g.since, g.until, Truncate(f.outcome.message));
      RecordExact(f.db.gaps, c, g.since, g.until, Truncate(f.outcome.message));
    } else {
      ResolveValid(f.db.gaps, c, g.since, g.until);
      ResolveOutside(f.db.gaps, c, g.since, g.until);
    }
  }

  /** A retry that raises records the whole gap again, with the first five hundred
      characters of what was raised. */
  lemma RaisedRetryRecords(db: Db, c: string, collect: Collector, calls: nat, g: Gap) returns (h: Gap)
    requires Valid(db.gaps) && g.since <= g.until
    requires FetchWindow(db, c, collect, calls, g.since, g.until).outcome.Raised?
    ensures var f := FetchWindow(db, c, collect, calls, g.since, g.until);
            var message := f.outcome.message;
            && h in AfterRetry(f, c, g).gaps.rows && h.connection == c && h.since <= g.since && g.until <= h.until
            && h.error == if |message| > 500 then message[..500] else message
  {
    FetchFrame(db, c, collect, calls, g.since, g.until);
    var f := FetchWindow(db, c, collect, calls, g.since, g.until);
    h := RecordRow(f.db.gaps, c, g.since, g.until, Truncate(f.outcome.message));
  }

  /** Reading a gap again loses no visible occurrence: leaves that resolve part
      of it before a later leaf raises do so in vain, the whole is recorded again. */
  lemma AfterRetryAccounts(db: Db, c: string, collect: Collector, calls: nat, g: Gap,
                           world: iset<Occurrence>, horizon: int, o: Occurrence)
    requires Valid(db.gaps) && g.since <= g.until
    requires Honest(collect, world, horizon) && o in world && o.time <= horizon
    requires Covered(db.gaps.rows, c, o.time) && (o.task ==> !Taskless(db, c, collect, calls, g.since, g.until, o.time))
    ensures var f := FetchWindow(db, c, collect, calls, g.since, g.until);
            || Covered(AfterRetry(f, c, g).gaps.rows, c, o.time)
            || (f.outcome.Returned? && HasRow(f.outcome.rows, o))
  {
    var f := FetchWindow(db, c, collect, calls, g.since, g.until);
    FetchFrame(db, c, collect, calls, g.since, g.until);
    if f.outcome.Raised? {
      RecordExact(f.db.gaps, c, g.since, g.until, Truncate(f.outcome.message));
    } else {
      ResolveOutside(f.db.gaps, c, g.since, g.until);
      if g.since <= o.time <= g.until {
        FetchAccounts(db, c, collect, calls, g.since, g.until, world, horizon, o);
      }
    }
  }

  lemma {:induction false} RetryFrame(db: Db, c: string, collect: Collector, calls: nat, todo: seq<Gap>, since: int,
                                      until: int)
    requires Valid(db.gaps) && Intervals(todo)
    ensures var r := RetryGaps(db, c, collect, calls, todo, since, until);
            Valid(r.db.gaps) && SameElsewhere(db, r.db, c)
    decreases |todo|
  {
    if todo != [] {
      var g, rest := todo[0], todo[1..];
      if since <= g.since && g.until <= until {
        RetryFrame(db, c, collect, calls, rest, since, until);
      } else {
        var f := FetchWindow(db, c, collect, calls, g.since, g.until);
        AfterRetryFrame(db, c, collect, calls, g);
        RetryFrame(AfterRetry(f, c, g), c, collect, f.calls, rest, since, until);
      }
    }
  }

  /** The instant lies in a window that the retries found answered without task
      history. */
  predicate RetryTaskless(db: Db, c: string, collect: Collector, calls: nat, todo: seq<Gap>, since: int, until: int, t: int)
    decreases |todo|
  {
    if todo == [] then false
    else if since <= todo[0].since && todo[0].until <= until then
      RetryTaskless(db, c, collect, calls, todo[1..], since, until, t)
    else
      var f := FetchWindow(db, c, collect, calls, todo[0].since, todo[0].until);
      || Taskless(db, c, collect, calls, todo[0].since, todo[0].until, t)
      || RetryTaskless(AfterRetry(f, c, todo[0]), c, collect, f.calls, todo[1..], since, until, t)
  }

  /** After the retries a covered, visible occurrence is still covered or is
      among the rows they brought back. */
  lemma {:induction false} RetryAccounts(db: Db, c: string, collect: Collector, calls: nat, todo: seq<Gap>,
                                         since: int, until: int,
                                         world: iset<Occurrence>, horizon: int, o: Occurrence)
    requires Valid(db.gaps) && Intervals(todo)
    requires Honest(collect, world, horizon) && o in world && o.time <= horizon
    requires Covered(db.gaps.rows, c, o.time)
    requires o.task ==> !RetryTaskless(db, c, collect, calls, todo, since, until, o.time)
    ensures var r := RetryGaps(db, c, collect, calls, todo, since, until);
            Covered(r.db.gaps.rows, c, o.time) || HasRow(r.rows, o)
    decreases |todo|
  {
    if todo != [] {
      var g, tail := todo[0], todo[1..];
      if since <= g.since && g.until <= until {
        RetryAccounts(db, c, collect, calls, tail, since, until, world, horizon, o);
      } else {
        var f := FetchWindow(db, c, collect, calls, g.since, g.until);
        var db' := AfterRetry(f, c, g);
        AfterRetryFrame(db, c, collect, calls, g);
        AfterRetryAccounts(db, c, collect, calls, g, world, horizon, o);
        var rest := RetryGaps(db', c, collect, f.calls, tail, since, until);
        if Covered(db'.gaps.rows, c, o.time) {
          RetryAccounts(db', c, collect, f.calls, tail, since, until, world, horizon, o);
        }
        if f.outcome.Returned? {
          HasRowConcat(f.outcome.rows, rest.rows, o);
        }
      }
    }
  }

  lemma RetriedFacts(db: Db, c: string, collect: Collector, until: int, hours: nat)
    requires Valid(db.gaps)
    ensures var r := Retried(db, c, collect, until, hours);
            Valid(r.db.gaps) && SameElsewhere(db, r.db, c)
  {
    var cutoff := Cutoff(until, hours);
    PruneKeyed(db.gaps, c, cutoff);
    PruneValid(db.gaps, c, cutoff);
    PruneExact(db.gaps, c, cutoff);
    var pruned := db.(gaps := Prune(db.gaps, c, cutoff));
    RetryFrame(pruned, c, collect, 0, BySince(OfConnection(pruned.gaps.rows, c)), WindowStart(db, c, until, hours), until);
  }

  predicate RetriedTaskless(db: Db, c: string, collect: Collector, until: int, hours: nat, t: int)
    requires Keyed(db.gaps)
  {
    PruneKeyed(db.gaps, c, Cutoff(until, hours));
    var pruned := db.(gaps := Prune(db.gaps, c, Cutoff(until, hours)));
    RetryTaskless(pruned, c, collect, 0, BySince(OfConnection(pruned.gaps.rows, c)), WindowStart(db, c, until, hours), until, t)
  }

  lemma RetriedAccounts(db: Db, c: string, collect: Collector, until: int, hours: nat,
                        world: iset<Occurrence>, horizon: int, o: Occurrence)
    requires Valid(db.gaps)
    requires Honest(collect, world, horizon) && o in world && o.time <= horizon
    requires Cutoff(until, hours) <= o.time && Covered(db.gaps.rows, c, o.time)
    requires o.task ==> !RetriedTaskless(db, c, collect, until, hours, o.time)
    ensures var r := Retried(db, c, collect, until, hours);
            Covered(r.db.gaps.rows, c, o.time) || HasRow(r.rows, o)
  {
    var cutoff := Cutoff(until, hours);
    PruneKeyed(db.gaps, c, cutoff);
    PruneValid(db.gaps, c, cutoff);
    PruneExact(db.gaps, c, cutoff);
    var pruned := db.(gaps := Prune(db.gaps, c, cutoff));
    RetryAccounts(pruned, c, collect, 0, BySince(OfConnection(pruned.gaps.rows, c)), WindowStart(db, c, until, hours), until,
                  world, horizon, o);
  }

  // ---- one capture -------------------------------------------------------

  lemma WindowNotEmpty(db: Db, c: string, until: int, hours: nat)
    ensures Cutoff(until, hours) <= WindowStart(db, c, until, hours) <= until
  {
  }

  /** A capture keeps the gap table valid, never deletes or rewrites a stored
      event, and leaves the other connections' gaps and checkpoints alone.
      The checkpoint either stays or moves to the end of the window. */
  lemma CaptureFrame(db: Db, c: string, collect: Collector, until: int, hours: nat, names: Names)
    requires Valid(db.gaps)
    ensures var db' := CaptureEvents(db, c, collect, until, hours, names).db;
            && Valid(db'.gaps)
            && (forall g: Gap :: g.connection != c ==> (g in db'.gaps.rows <==> g in db.gaps.rows))
            && (forall id :: id in db.events ==> id in db'.events && db'.events[id] == db.events[id])
            && (db'.checkpoints == db.checkpoints || db'.checkpoints == db.checkpoints[c := until])
  {
    var cutoff := Cutoff(until, hours);
    var since := WindowStart(db, c, until, hours);
    RetriedFacts(db, c, collect, until, hours);
    var retry := Retried(db, c, collect, until, hours);
    FetchFrame(retry.db, c, collect, retry.calls, since, until);
    var f := FetchWindow(retry.db, c, collect, retry.calls, since, until);
    var rows := Kept(if f.outcome.Raised? then retry.rows else retry.rows + f.outcome.rows, c, names, cutoff);
    forall id | id in db.events ensures id in Upsert(db.events, rows) && Upsert(db.events, rows)[id] == db.events[id] {
      UpsertAdds(db.events, rows, id);
    }
    if f.outcome.Returned? {
      ResolveValid(f.db.gaps, c, since, until);
    }
  }

  /** Whether the capture window was read completely. */
  predicate Completes(db: Db, c: string, collect: Collector, until: int, hours: nat)
    requires Keyed(db.gaps)
  {
    var retry := Retried(db, c, collect, until, hours);
    var outcome := FetchWindow(retry.db, c, collect, retry.calls, WindowStart(db, c, until, hours), until).outcome;
    outcome.Returned? && outcome.complete
  }

  /** The checkpoint moves exactly when the window was read completely. */
  lemma CheckpointMoves(db: Db, c: string, collect: Collector, until: int, hours: nat, names: Names)
    requires Valid(db.gaps)
    ensures CaptureEvents(db, c, collect, until, hours, names).db.checkpoints ==
            if Completes(db, c, collect, until, hours) then db.checkpoints[c := until] else db.checkpoints
  {
    RetriedFacts(db, c, collect, until, hours);
    var retry := Retried(db, c, collect, until, hours);
    WindowNotEmpty(db, c, until, hours);
    FetchFrame(retry.db, c, collect, retry.calls, WindowStart(db, c, until, hours), until);
  }

  /** The instant lies in a window of the capture that was answered without task
      history. */
  predicate CaptureTaskless(db: Db, c: string, collect: Collector, until: int, hours: nat, t: int)
    requires Keyed(db.gaps)
  {
    var retry := Retried(db, c, collect, until, hours);
    || RetriedTaskless(db, c, collect, until, hours, t)
    || Taskless(retry.db, c, collect, retry.calls, WindowStart(db, c, until, hours), until, t)
  }

  /** A complete capture stores every visible occurrence of its window, save for
      tasks started where a reply came without task history. */
  lemma CompleteStores(db: Db, c: string, collect: Collector, until: int, hours: nat, names: Names,
                       world: iset<Occurrence>, horizon: int, o: Occurrence)
    requires Valid(db.gaps) && Completes(db, c, collect, until, hours)
    requires Honest(collect, world, horizon) && o in world
    requires WindowStart(db, c, until, hours) <= o.time <= until && o.time <= horizon
    requires o.task ==> !CaptureTaskless(db, c, collect, until, hours, o.time)
    ensures Stored(CaptureEvents(db, c, collect, until, hours, names).db, o)
  {
    var since := WindowStart(db, c, until, hours);
    RetriedFacts(db, c, collect, until, hours);
    var retry := Retried(db, c, collect, until, hours);
    FetchAccounts(retry.db, c, collect, retry.calls, since, until, world, horizon, o);
    var f := FetchWindow(retry.db, c, collect, retry.calls, since, until);
    HasRowConcat(retry.rows, f.outcome.rows, o);
    RowStored(f.db.events, retry.rows + f.outcome.rows, c, names, Cutoff(until, hours), o);
  }

  lemma AfterWindow(db: Db, c: string, collect: Collector, calls: nat, since: int, until: int, t: int)
    requires Valid(db.gaps) && since <= until && t < since
    requires Covered(db.gaps.rows, c, t)
    ensures var f := FetchWindow(db, c, collect, calls, since, until);
            && Covered(f.db.gaps.rows, c, t)
            && Covered(Resolve(f.db.gaps, c, since, until).rows, c, t)
  {
    FetchFrame(db, c, collect, calls, since, until);
    ResolveOutside(FetchWindow(db, c, collect, calls, since, until).db.gaps, c, since, until);
  }

  /** An occurrence in a recorded gap outside the capture window stays
      accounted for: it is stored now, or still in a gap. */
  lemma OutsideWindowKept(db: Db, c: string, collect: Collector, until: int, hours: nat, names: Names,
                          world: iset<Occurrence>, horizon: int, o: Occurrence)
    requires Valid(db.gaps)
    requires Honest(collect, world, horizon) && o in world && o.time <= horizon
    requires Cutoff(until, hours) <= o.time < WindowStart(db, c, until, hours)
    requires Covered(db.gaps.rows, c, o.time)
    requires o.task ==> !CaptureTaskless(db, c, collect, until, hours, o.time)
    ensures var db' := CaptureEvents(db, c, collect, until, hours, names).db;
            Stored(db', o) || Covered(db'.gaps.rows, c, o.time)
  {
    var cutoff := Cutoff(until, hours);
    var since := WindowStart(db, c, until, hours);
    RetriedFacts(db, c, collect, until, hours);
    RetriedAccounts(db, c, collect, until, hours, world, horizon, o);
    var retry := Retried(db, c, collect, until, hours);
    if HasRow(retry.rows, o) {
      RetryRowsStored(db, c, collect, until, hours, names, o);
    } else {
      AfterWindow(retry.db, c, collect, retry.calls, since, until, o.time);
    }
  }

  /** Whatever the capture window does, the rows of the retries are stored. */
  lemma RetryRowsStored(db: Db, c: string, collect: Collector, until: int, hours: nat, names: Names, o: Occurrence)
    requires Keyed(db.gaps) && Cutoff(until, hours) <= o.time
    requires HasRow(Retried(db, c, collect, until, hours).rows, o)
    ensures Stored(CaptureEvents(db, c, collect, until, hours, names).db, o)
  {
    var cutoff := Cutoff(until, hours);
    var retry := Retried(db, c, collect, until, hours);
    var f := FetchWindow(retry.db, c, collect, retry.calls, WindowStart(db, c, until, hours), until);
    if f.outcome.Raised? {
      RowStored(f.db.events, retry.rows, c, names, cutoff, o);
    } else {
      HasRowConcat(retry.rows, f.outcome.rows, o);
      RowStored(f.db.events, retry.rows + f.outcome.rows, c, names, cutoff, o);
    }
  }

  // ---- the window, and where stored events come from ---------------------

  /** The window starts at the point between the retention cutoff and the
      snapshot that is closest to one minute before the checkpoint; without a
      checkpoint, at the cutoff. */
  lemma WindowIsClamped(db: Db, c: string, until: int, hours: nat, t: int)
    requires until - hours * 3_600_000_000 <= t <= until
    ensures var since := WindowStart(db, c, until, hours);
            && until - hours * 3_600_000_000 <= since <= until
            && (c !in db.checkpoints ==> since == until - hours * 3_600_000_000)
            && (c in db.checkpoints ==>
                  var wanted := db.checkpoints[c] - 60_000_000;
                  (wanted <= since <= t) || (t <= since <= wanted) || since == wanted)
  {
  }

  /** The row as it is stored: what the snapshot knows fills in what is blank. */
  predicate StoredAs(s: Event, e: Event, c: string, names: Names) {
    var known := e.resourceId.Some? && e.resourceId.value != "" && e.resourceId.value in names;
    && s.id == e.id && s.time == e.time && s.connection == c && s.body == e.body && s.resourceId == e.resourceId
    && s.resourceName == (if known && (e.resourceName == None || e.resourceName == Some(""))
                          then Some(names[e.resourceId.value].0) else e.resourceName)
    && s.resourceType == (if known && (e.resourceType == None || e.resourceType == Some(""))
                          then Some(names[e.resourceId.value].1) else e.resourceType)
  }

  lemma {:induction false} KeptFrom(rows: seq<Event>, c: string, names: Names, cutoff: int, s: Event) returns (e: Event)
    requires s in Kept(rows, c, names, cutoff)
    ensures e in rows && cutoff <= e.time && StoredAs(s, e, c, names)
    decreases |rows|
  {
    if s in Kept(rows[1..], c, names, cutoff) {
      e := KeptFrom(rows[1..], c, names, cutoff, s);
    } else {
      e := rows[0];
    }
  }

  lemma {:induction false} UpsertFrom(events: map<string, Event>, rows: seq<Event>, id: string)
    requires id in Upsert(events, rows) && id !in events
    ensures Upsert(events, rows)[id] in rows && Upsert(events, rows)[id].id == id
    decreases |rows|
  {
    if rows[0].id == id {
      UpsertAdds(events[id := rows[0]], rows[1..], id);
    } else {
      UpsertFrom(if rows[0].id in events then events else events[rows[0].id := rows[0]], rows[1..], id);
    }
  }

  lemma {:induction false} RetryRowsWereReplied(db: Db, c: string, collect: Collector, calls: nat, todo: seq<Gap>, since: int,
                                                until: int, e: Event) returns (n: nat, a: int, b: int)
    requires Intervals(todo) && e in RetryGaps(db, c, collect, calls, todo, since, until).rows
    ensures e in RowsIn(collect(n, a, b)) && a <= b
    decreases |todo|
  {
    var g, tail := todo[0], todo[1..];
    if since <= g.since && g.until <= until {
      n, a, b := RetryRowsWereReplied(db, c, collect, calls, tail, since, until, e);
    } else {
      var f := FetchWindow(db, c, collect, calls, g.since, g.until);
      RetryHead(db, c, collect, calls, todo, since, until);
      if e in RowsOf(f.outcome) {
        n, a, b := RowsWereReplied(db, c, collect, calls, g.since, g.until, e);
      } else {
        n, a, b := RetryRowsWereReplied(AfterRetry(f, c, g), c, collect, f.calls, tail, since, until, e);
      }
    }
  }

  lemma ReadRowsWereReplied(db: Db, c: string, collect: Collector, until: int, hours: nat, e: Event)
    returns (n: nat, a: int, b: int)
    requires Valid(db.gaps)
    requires var retry := Retried(db, c, collect, until, hours);
             var f := FetchWindow(retry.db, c, collect, retry.calls, WindowStart(db, c, until, hours), until);
             e in retry.rows || e in RowsOf(f.outcome)
    ensures e in RowsIn(collect(n, a, b)) && a <= b
  {
    var retry := Retried(db, c, collect, until, hours);
    WindowNotEmpty(db, c, until, hours);
    if e in retry.rows {
      PruneKeyed(db.gaps, c, Cutoff(until, hours));
      PruneValid(db.gaps, c, Cutoff(until, hours));
      var pruned := db.(gaps := Prune(db.gaps, c, Cutoff(until, hours)));
      var todo := BySince(OfConnection(pruned.gaps.rows, c));
      n, a, b := RetryRowsWereReplied(pruned, c, collect, 0, todo, WindowStart(db, c, until, hours), until, e);
    } else {
      n, a, b := RowsWereReplied(retry.db, c, collect, retry.calls, WindowStart(db, c, until, hours), until, e);
    }
  }

  /** An event that a capture stores was in a reply, is not older than the
      retention in force, and is stored as the reply gave it, with its
      connection and with blank names and types filled in. */
  lemma StoredWasReplied(db: Db, c: string, collect: Collector, until: int, hours: nat, names: Names, id: string)
    returns (e: Event, n: nat, a: int, b: int)
    requires Valid(db.gaps)
    requires id in CaptureEvents(db, c, collect, until, hours, names).db.events && id !in db.events
    ensures e in RowsIn(collect(n, a, b)) && a <= b && e.id == id && until - hours * 3_600_000_000 <= e.time
    ensures StoredAs(CaptureEvents(db, c, collect, until, hours, names).db.events[id], e, c, names)
  {
    RetriedFacts(db, c, collect, until, hours);
    WindowNotEmpty(db, c, until, hours);
    var retry := Retried(db, c, collect, until, hours);
    FetchFrame(retry.db, c, collect, retry.calls, WindowStart(db, c, until, hours), until);
    var f := FetchWindow(retry.db, c, collect, retry.calls, WindowStart(db, c, until, hours), until);
    var rows := if f.outcome.Raised? then retry.rows else retry.rows + f.outcome.rows;
    var kept := Kept(rows, c, names, Cutoff(until, hours));
    UpsertFrom(db.events, kept, id);
    e := KeptFrom(rows, c, names, Cutoff(until, hours), Upsert(db.events, kept)[id]);
    n, a, b := ReadRowsWereReplied(db, c, collect, until, hours, e);
  }

  // ---- runs --------------------------------------------------------------

  /** One scan's capture: the collector, the snapshot's time and names, and
      the retention in force. */
  datatype Scan = Scan(collect: Collector, until: int, hours: nat, names: Names)

  ghost function Step(db: Db, c: string, s: Scan): (db': Db)
    requires Valid(db.gaps)
    ensures Valid(db'.gaps)
  {
    CaptureFrame(db, c, s.collect, s.until, s.hours, s.names);
    CaptureEvents(db, c, s.collect, s.until, s.hours, s.names).db
  }

  ghost function Run(db: Db, c: string, scans: seq<Scan>): (db': Db)
    requires Valid(db.gaps)
    ensures Valid(db'.gaps)
    decreases |scans|
  {
    if scans == [] then db else Run(Step(db, c, scans[0]), c, scans[1..])
  }

  ghost predicate StepTaskless(db: Db, c: string, s: Scan, t: int)
    requires Valid(db.gaps)
  {
    CaptureTaskless(db, c, s.collect, s.until, s.hours, t)
  }

  /** Some reply of the run covered the instant without task history. */
  ghost predicate RunTaskless(db: Db, c: string, scans: seq<Scan>, t: int)
    requires Valid(db.gaps)
    decreases |scans|
  {
    scans != [] && (StepTaskless(db, c, scans[0], t) || RunTaskless(Step(db, c, scans[0]), c, scans[1..], t))
  }

  /** The events of the world, and the tasks no such reply hides. */
  ghost function Reached(db: Db, c: string, scans: seq<Scan>, world: iset<Occurrence>): iset<Occurrence>
    requires Valid(db.gaps)
  {
    iset o | o in world && (o.task ==> !RunTaskless(db, c, scans, o.time))
  }

  /** Every scan's collector is honest about what was visible `lag` after it
      happened, and no scan's retention reaches past the floor. */
  ghost predicate Fair(scans: seq<Scan>, world: iset<Occurrence>, lag: nat, floor: int) {
    forall s :: s in scans ==> Honest(s.collect, world, s.until - lag) && Cutoff(s.until, s.hours) <= floor
  }

  /** Everything from the floor up to the checkpoint, less the lag, is stored. */
  ghost predicate CompleteToCheckpoint(db: Db, c: string, world: iset<Occurrence>, lag: nat, floor: int) {
    c in db.checkpoints ==>
      forall o :: o in world && floor <= o.time <= db.checkpoints[c] - lag ==> Stored(db, o)
  }

  lemma StepKeepsComplete(db: Db, c: string, s: Scan, world: iset<Occurrence>, lag: nat, floor: int)
    requires Valid(db.gaps) && (lag <= OVERLAP + 1 || s.hours * HOUR < lag)
    requires Honest(s.collect, world, s.until - lag) && Cutoff(s.until, s.hours) <= floor
    requires forall o :: o in world && o.task ==> !StepTaskless(db, c, s, o.time)
    requires CompleteToCheckpoint(db, c, world, lag, floor)
    ensures CompleteToCheckpoint(Step(db, c, s), c, world, lag, floor)
  {
    var db' := Step(db, c, s);
    CaptureFrame(db, c, s.collect, s.until, s.hours, s.names);
    CheckpointMoves(db, c, s.collect, s.until, s.hours, s.names);
    if Completes(db, c, s.collect, s.until, s.hours) {
      forall o | o in world && floor <= o.time <= s.until - lag ensures Stored(db', o) {
        if WindowStart(db, c, s.until, s.hours) <= o.time {
          CompleteStores(db, c, s.collect, s.until, s.hours, s.names, world, s.until - lag, o);
        }
      }
    }
  }

  lemma {:induction false} RunKeepsComplete(db: Db, c: string, scans: seq<Scan>, world: iset<Occurrence>, lag: nat, floor: int)
    requires Valid(db.gaps)
    requires lag <= OVERLAP + 1 || forall s :: s in scans ==> s.hours * HOUR < lag
    requires Fair(scans, world, lag, floor)
    requires forall o :: o in world && o.task ==> !RunTaskless(db, c, scans, o.time)
    requires CompleteToCheckpoint(db, c, world, lag, floor)
    ensures CompleteToCheckpoint(Run(db, c, scans), c, world, lag, floor)
    decreases |scans|
  {
    if scans != [] {
      assert scans[0] in scans;
      StepKeepsComplete(db, c, scans[0], world, lag, floor);
      RunKeepsComplete(Step(db, c, scans[0]), c, scans[1..], world, lag, floor);
    }
  }

  /** Over any run, for instance from a fresh connection, whatever the
      collectors answer and however the clock and the retention move: every
      occurrence from the highest cutoff up to the checkpoint is stored, as long
      as nothing becomes visible later than the overlap, or only after retention
      has expired it. A task can be missed only if it started in a window that
      some reply of the run answered without task history. */
  lemma CheckpointIsComplete(db: Db, c: string, scans: seq<Scan>, world: iset<Occurrence>, lag: nat, floor: int)
    requires Valid(db.gaps)
    requires lag <= 60_000_001 || forall s :: s in scans ==> s.hours * 3_600_000_000 < lag
    requires Fair(scans, world, lag, floor)
    requires CompleteToCheckpoint(db, c, world, lag, floor)
    ensures CompleteToCheckpoint(Run(db, c, scans), c, Reached(db, c, scans, world), lag, floor)
  {
    var reached := Reached(db, c, scans, world);
    RunKeepsComplete(db, c, scans, reached, lag, floor);
  }

  /** An empty database with no checkpoint. */
  function Fresh(): (db: Db)
    ensures Valid(db.gaps)
  {
    Db(GapTable({}, 0), map[], map[], map[])
  }

  function CollectorOf(e: Event): Collector {
    (n: nat, since: int, until: int) =>
      if since <= e.time <= until then Batch([e], true, None, None) else Batch([], true, None, None)
  }

  /** Nothing is asked of a collector about what was not visible yet. */
  lemma HonestBefore(collect: Collector, o: Occurrence, horizon: int)
    requires horizon < o.time
    ensures Honest(collect, iset{o}, horizon)
  {
  }

  lemma HonestCollector(e: Event, horizon: int)
    ensures Honest(CollectorOf(e), iset{Occurrence(e.id, e.time, false)}, horizon)
  {
    assert [e][0] == e;
  }

  lemma FairTwo(a: Scan, b: Scan, world: iset<Occurrence>, lag: nat, floor: int)
    requires Honest(a.collect, world, a.until - lag) && Cutoff(a.until, a.hours) <= floor
    requires Honest(b.collect, world, b.until - lag) && Cutoff(b.until, b.hours) <= floor
    ensures Fair([a, b], world, lag, floor)
  {
  }

  /** The overlap is exactly as long as it must be: for any larger lag that
      retention allows for there is a run of two complete scans that leaves an
      occurrence out, and no later scan stores it. */
  lemma LongerLagLoses(c: string, lag: nat)
    returns (scans: seq<Scan>, world: iset<Occurrence>, floor: int, o: Occurrence, db: Db)
    requires 60_000_001 < lag <= 8760 * 3_600_000_000
    ensures forall s :: s in scans ==> 1 <= s.hours <= 8760
    ensures Fair(scans, world, lag, floor) && NeverBehind(Fresh(), c, scans)
    ensures db == Run(Fresh(), c, scans) && o in world
    ensures !o.task && !CompleteToCheckpoint(db, c, world, lag, floor)
    ensures forall more :: NeverBehind(db, c, more) && TruthfulScans(more, o) ==> !Stored(Run(db, c, more), o)
  {
    var t := -OVERLAP - 1;
    var e := Event("late", c, t, "", None, None, None);
    var hours := CoveringHours(lag);
    o := Occurrence("late", t, false);
    scans, world, floor := TwoScans(e, lag, hours), iset{o}, t;
    TwoScansAreFair(c, e, lag, hours, o);
    db := LastTwo(c, e, lag, hours);
    LeftOut(db, c, lag, o);
  }

  lemma CoveringHours(lag: nat) returns (hours: nat)
    requires 0 < lag <= MAX_RETENTION_HOURS * HOUR
    ensures lag <= hours * HOUR && 1 <= hours <= MAX_RETENTION_HOURS
  {
    hours := (lag + HOUR - 1) / HOUR;
  }

  /** A scan that finds nothing, and one too early by the overlap. */
  function TwoScans(e: Event, lag: nat, hours: nat): seq<Scan> {
    [Scan(NothingFound(), 0, hours, map[]), Scan(CollectorOf(e), e.time + lag, hours, map[])]
  }

  lemma TwoScansAreFair(c: string, e: Event, lag: nat, hours: nat, o: Occurrence)
    requires OVERLAP + 1 < lag <= hours * HOUR && e.time == -OVERLAP - 1 && o == Occurrence(e.id, e.time, false) && 1 <= hours
    ensures Fair(TwoScans(e, lag, hours), iset{o}, lag, e.time)
    ensures NeverBehind(Fresh(), c, TwoScans(e, lag, hours))
    ensures forall s :: s in TwoScans(e, lag, hours) ==> s.hours == hours
  {
    HonestBefore(NothingFound(), o, 0 - lag);
    HonestCollector(e, e.time);
    FairTwo(TwoScans(e, lag, hours)[0], TwoScans(e, lag, hours)[1], iset{o}, lag, e.time);
  }

  lemma LeftOut(db: Db, c: string, lag: nat, o: Occurrence)
    requires Valid(db.gaps) && db.gaps.rows == {} && db.events == map[] && db.checkpoints == map[c := o.time + lag]
    requires lag > OVERLAP + 1
    ensures !CompleteToCheckpoint(db, c, iset{o}, lag, o.time)
    ensures forall more :: NeverBehind(db, c, more) && TruthfulScans(more, o) ==> !Stored(Run(db, c, more), o)
  {
    assert !Stored(db, o) && o.time <= db.checkpoints[c] - lag;
    forall more | NeverBehind(db, c, more) && TruthfulScans(more, o) ensures !Stored(Run(db, c, more), o) {
      LostForGood(db, c, more, o.time + lag, o);
    }
  }

  function NothingFound(): Collector { (n: nat, since: int, until: int) => Batch([], true, None, None) }

  /** A complete scan that finds nothing moves the checkpoint and no more. */
  lemma QuietScan(db: Db, c: string, s: Scan)
    requires db.gaps.rows == {}
    requires var raw := s.collect(0, WindowStart(db, c, s.until, s.hours), s.until); raw == Batch([], true, None, None)
    ensures Step(db, c, s) == db.(checkpoints := db.checkpoints[c := s.until])
  {
    var pruned := Prune(db.gaps, c, Cutoff(s.until, s.hours));
    assert pruned == db.gaps;
    assert OfConnection(pruned.rows, c) == {};
    assert Retried(db, c, s.collect, s.until, s.hours) == Retry(db, 0, []);
    assert Resolve(db.gaps, c, WindowStart(db, c, s.until, s.hours), s.until) == db.gaps;
  }

  lemma RunTwo(db: Db, c: string, a: Scan, b: Scan)
    requires Valid(db.gaps)
    ensures Run(db, c, [a, b]) == Step(Step(db, c, a), c, b)
  {
    var db1 := Step(db, c, a);
    assert [a, b][1..] == [b] && [b][1..] == [];
    assert Run(db1, c, [b]) == Run(Step(db1, c, b), c, []);
  }

  lemma FirstIsQuiet(c: string, hours: nat)
    ensures Step(Fresh(), c, Scan(NothingFound(), 0, hours, map[])) == Fresh().(checkpoints := map[c := 0])
  {
    QuietScan(Fresh(), c, Scan(NothingFound(), 0, hours, map[]));
  }

  lemma LastTwo(c: string, e: Event, lag: nat, hours: nat) returns (db: Db)
    requires OVERLAP + 1 < lag <= hours * HOUR && e.time == -OVERLAP - 1
    ensures db == Run(Fresh(), c, TwoScans(e, lag, hours))
    ensures db.checkpoints == map[c := e.time + lag] && db.events == map[] && db.gaps.rows == {}
  {
    var scans := TwoScans(e, lag, hours);
    RunTwo(Fresh(), c, scans[0], scans[1]);
    FirstIsQuiet(c, hours);
    var db1 := Fresh().(checkpoints := map[c := 0]);
    assert WindowStart(db1, c, e.time + lag, hours) == -OVERLAP;
    QuietScan(db1, c, scans[1]);
    db := db1.(checkpoints := map[c := e.time + lag]);
  }

  // ---- what the window has passed ----------------------------------------

  /** A reply mentions the occurrence only if its time is in the window asked. */
  ghost predicate Truthful(collect: Collector, o: Occurrence) {
    forall n: nat, since: int, until: int ::
      HasId(RowsIn(collect(n, since, until)), o.id) ==> since <= o.time <= until
  }

  /** No window that starts at `from` or later is answered with the occurrence. */
  ghost predicate Unanswered(collect: Collector, from: int, o: Occurrence) {
    forall n: nat, since: int, until: int ::
      from <= since ==> !HasId(RowsIn(collect(n, since, until)), o.id)
  }

  ghost predicate TruthfulScans(scans: seq<Scan>, o: Occurrence) { forall s :: s in scans ==> Truthful(s.collect, o) }

  lemma HasIdConcat(a: seq<Event>, b: seq<Event>, id: string)
    ensures HasId(a + b, id) ==> HasId(a, id) || HasId(b, id)
  {
    if i :| 0 <= i < |a + b| && (a + b)[i].id == id {
      if i < |a| {
        assert a[i].id == id;
      } else {
        assert b[i - |a|].id == id;
      }
    }
  }

  lemma {:induction false} FetchMisses(db: Db, c: string, collect: Collector, calls: nat, since: int, until: int,
                                       from: int, o: Occurrence)
    requires Unanswered(collect, from, o) && from <= since
    ensures !HasId(RowsOf(FetchWindow(db, c, collect, calls, since, until).outcome), o.id)
    decreases if since < until then until - since else 0
  {
    var raw := collect(calls, since, until);
    if Splits(raw, since, until) {
      var midpoint := Midpoint(since, until);
      var flagged := FlagTasks(db, c, raw);
      FetchMisses(flagged, c, collect, calls + 1, since, midpoint, from, o);
      var left := FetchWindow(flagged, c, collect, calls + 1, since, midpoint);
      if left.outcome.Returned? {
        FetchMisses(left.db, c, collect, left.calls, midpoint, until, from, o);
        var right := FetchWindow(left.db, c, collect, left.calls, midpoint, until);
        assert FetchWindow(db, c, collect, calls, since, until) == Join(left, right);
        JoinMisses(left, right, o);
      }
    } else {
      assert !HasId(RowsIn(raw), o.id);
    }
  }

  lemma JoinMisses(left: Fetch, right: Fetch, o: Occurrence)
    requires left.outcome.Returned? && !HasId(left.outcome.rows, o.id) && !HasId(RowsOf(right.outcome), o.id)
    ensures !HasId(RowsOf(Join(left, right).outcome), o.id)
  {
    HasIdConcat(left.outcome.rows, RowsOf(right.outcome), o.id);
  }

  lemma {:induction false} KeptHasId(rows: seq<Event>, c: string, names: Names, cutoff: int, id: string)
    requires HasId(Kept(rows, c, names, cutoff), id)
    ensures HasId(rows, id)
    decreases |rows|
  {
    if rows != [] {
      var first := if rows[0].time >= cutoff then [Enrich(rows[0], c, names)] else [];
      HasIdConcat(first, Kept(rows[1..], c, names, cutoff), id);
      if HasId(first, id) {
        assert rows[0].id == id;
      } else {
        KeptHasId(rows[1..], c, names, cutoff, id);
      }
      HasIdTail(rows, id);
    }
  }

  /** A scan whose readings do not bring the occurrence does not store it. */
  lemma NotBrought(db: Db, c: string, s: Scan, o: Occurrence)
    requires Valid(db.gaps) && !Stored(db, o)
    requires !HasId(Retried(db, c, s.collect, s.until, s.hours).rows, o.id)
    requires Unanswered(s.collect, WindowStart(db, c, s.until, s.hours), o)
    ensures !Stored(Step(db, c, s), o)
  {
    RetriedFacts(db, c, s.collect, s.until, s.hours);
    var retry := Retried(db, c, s.collect, s.until, s.hours);
    var since := WindowStart(db, c, s.until, s.hours);
    WindowNotEmpty(db, c, s.until, s.hours);
    FetchFrame(retry.db, c, s.collect, retry.calls, since, s.until);
    FetchMisses(retry.db, c, s.collect, retry.calls, since, s.until, since, o);
    var outcome := FetchWindow(retry.db, c, s.collect, retry.calls, since, s.until).outcome;
    var rows := if outcome.Raised? then retry.rows else retry.rows + outcome.rows;
    var kept := Kept(rows, c, s.names, Cutoff(s.until, s.hours));
    HasIdConcat(retry.rows, RowsOf(outcome), o.id);
    assert !HasId(rows, o.id);
    if HasId(kept, o.id) {
      KeptHasId(rows, c, s.names, Cutoff(s.until, s.hours), o.id);
    }
    UpsertAdds(db.events, kept, o.id);
  }

  lemma StepLeavesOut(db: Db, c: string, s: Scan, last: int, o: Occurrence)
    requires Valid(db.gaps) && GapsAhead(db, c, last) && last <= s.until
    requires c in db.checkpoints && db.checkpoints[c] <= s.until && o.time < db.checkpoints[c] - OVERLAP
    requires Truthful(s.collect, o) && !Stored(db, o)
    ensures !Stored(Step(db, c, s), o)
  {
    IdleStep(db, c, s, last);
    NotBrought(db, c, s, o);
  }

  /** An occurrence that is not stored, in no gap and behind the window is never
      stored by any later scan. */
  lemma {:induction false} LostForGood(db: Db, c: string, scans: seq<Scan>, last: int, o: Occurrence)
    requires Valid(db.gaps) && GapsAhead(db, c, last) && NeverBehind(db, c, scans) && TruthfulScans(scans, o)
    requires scans != [] ==> last <= scans[0].until
    requires c in db.checkpoints && o.time < db.checkpoints[c] - OVERLAP && !Stored(db, o)
    ensures !Stored(Run(db, c, scans), o)
    decreases |scans|
  {
    if scans != [] {
      var s := scans[0];
      assert s in scans;
      StepLeavesOut(db, c, s, last, o);
      IdleStep(db, c, s, last);
      CheckpointMoves(db, c, s.collect, s.until, s.hours, s.names);
      NeverBehindTail(db, c, scans);
      assert forall t :: t in scans[1..] ==> t in scans;
      LostForGood(Step(db, c, s), c, scans[1..], s.until, o);
    }
  }

  // ---- what retention never asks for -------------------------------------

  lemma {:induction false} RetryMisses(db: Db, c: string, collect: Collector, calls: nat, todo: seq<Gap>, since: int,
                                       until: int, from: int, o: Occurrence)
    requires Unanswered(collect, from, o) && forall g :: g in todo ==> from <= g.since
    ensures !HasId(RetryGaps(db, c, collect, calls, todo, since, until).rows, o.id)
    decreases |todo|
  {
    if todo != [] {
      var g, tail := todo[0], todo[1..];
      assert g in todo && forall h :: h in tail ==> h in todo;
      if since <= g.since && g.until <= until {
        RetryMisses(db, c, collect, calls, tail, since, until, from, o);
      } else {
        var f := FetchWindow(db, c, collect, calls, g.since, g.until);
        FetchMisses(db, c, collect, calls, g.since, g.until, from, o);
        RetryMisses(AfterRetry(f, c, g), c, collect, f.calls, tail, since, until, from, o);
        RetryHead(db, c, collect, calls, todo, since, until);
        HasIdConcat(RowsOf(f.outcome), RetryGaps(AfterRetry(f, c, g), c, collect, f.calls, tail, since, until).rows, o.id);
      }
    }
  }

  lemma StepMisses(db: Db, c: string, s: Scan, o: Occurrence)
    requires Valid(db.gaps) && !Stored(db, o) && Unanswered(s.collect, Cutoff(s.until, s.hours), o)
    ensures !Stored(Step(db, c, s), o)
  {
    var cutoff, since := Cutoff(s.until, s.hours), WindowStart(db, c, s.until, s.hours);
    PruneKeyed(db.gaps, c, cutoff);
    PruneValid(db.gaps, c, cutoff);
    var pruned := db.(gaps := Prune(db.gaps, c, cutoff));
    forall g | g in pruned.gaps.rows && g.connection == c ensures cutoff <= g.since {
      var h := PruneRow(db.gaps, c, cutoff, g);
    }
    RetryMisses(pruned, c, s.collect, 0, BySince(OfConnection(pruned.gaps.rows, c)), since, s.until, cutoff, o);
    WindowNotEmpty(db, c, s.until, s.hours);
    NotBrought(db, c, s, o);
  }

  /** Whatever the checkpoint and the gaps, no scan asks about what lies before
      its retention cutoff; what no later window brings is never stored. */
  lemma {:induction false} NeverBrought(db: Db, c: string, scans: seq<Scan>, o: Occurrence)
    requires Valid(db.gaps) && !Stored(db, o)
    requires forall s :: s in scans ==> Unanswered(s.collect, Cutoff(s.until, s.hours), o)
    ensures !Stored(Run(db, c, scans), o)
    decreases |scans|
  {
    if scans != [] {
      assert scans[0] in scans && forall s :: s in scans[1..] ==> s in scans;
      StepMisses(db, c, scans[0], o);
      NeverBrought(Step(db, c, scans[0]), c, scans[1..], o);
    }
  }

  /** Over the whole history of a connection, an occurrence the checkpoint has
      passed is stored exactly when its time is not before the cutoffs, whatever
      later time its row would carry. So a task that began before the first
      cutoff stays out, however late it completed. */
  lemma StoredByStartExactly(c: string, scans: seq<Scan>, world: iset<Occurrence>, lag: nat, floor: int, o: Occurrence)
    requires lag <= OVERLAP + 1 || forall s :: s in scans ==> s.hours * HOUR < lag
    requires Fair(scans, world, lag, floor) && TruthfulScans(scans, o)
    requires o in Reached(Fresh(), c, scans, world)
    requires var db := Run(Fresh(), c, scans); c in db.checkpoints && o.time <= db.checkpoints[c] - lag
    requires floor <= o.time || forall s :: s in scans ==> o.time < Cutoff(s.until, s.hours)
    ensures Stored(Run(Fresh(), c, scans), o) <==> floor <= o.time
  {
    if floor <= o.time {
      CheckpointIsComplete(Fresh(), c, scans, world, lag, floor);
    } else {
      NeverBrought(Fresh(), c, scans, o);
    }
  }

  /** A task begun just before the first cutoff and completed after it: the scan
      is complete, the checkpoint passes the completion, retention covers it,
      and the task is not stored. */
  lemma LongTaskIsMissed(c: string, until: int, hours: nat) returns (s: Scan, o: Occurrence, row: Event)
    requires 1 <= hours <= MAX_RETENTION_HOURS
    ensures s.until == until && s.hours == hours && Healthy(s.collect) && Truthful(s.collect, o)
    ensures IsRowOf(row, o) && o.task && Honest(s.collect, iset{o}, until)
    ensures forall n: nat, a: int, b: int :: a <= o.time <= b ==> RowsIn(s.collect(n, a, b)) == [row]
    ensures Step(Fresh(), c, s).checkpoints == map[c := until] && Cutoff(until, hours) <= row.time < until
    ensures !Stored(Step(Fresh(), c, s), o)
  {
    var cutoff := Cutoff(until, hours);
    o := Occurrence("task", cutoff - 1, true);
    row := Event("task", c, cutoff, "", None, None, None);
    var collect: Collector := (n: nat, a: int, b: int) =>
      Batch(if a <= cutoff - 1 <= b then [row] else [], true, None, None);
    s := Scan(collect, until, hours, map[]);
    assert [row][0] == row;
    HealthyScanClears(Fresh(), c, s);
    CheckpointMoves(Fresh(), c, collect, until, hours, map[]);
    StepMisses(Fresh(), c, s, o);
  }

  /** Replies without task history count as complete. A task they cover is
      passed by the checkpoint, and no later scan stores it. */
  lemma TasklessLoses(c: string, until: int, hours: nat) returns (s: Scan, o: Occurrence)
    requires 1 <= hours <= MAX_RETENTION_HOURS
    ensures s.until == until && s.hours == hours && o.task && Honest(s.collect, iset{o}, until)
    ensures var db := Step(Fresh(), c, s);
            && db.checkpoints == map[c := until] && Cutoff(until, hours) <= o.time < until
            && StepTaskless(Fresh(), c, s, o.time)
            && forall more :: NeverBehind(db, c, more) && TruthfulScans(more, o) ==> !Stored(Run(db, c, more), o)
  {
    var cutoff := Cutoff(until, hours);
    o := Occurrence("task", cutoff, true);
    s := Scan((n: nat, a: int, b: int) => Batch([], true, Some(true), None), until, hours, map[]);
    HealthyScanClears(Fresh(), c, s);
    CheckpointMoves(Fresh(), c, s.collect, until, hours, map[]);
    StepMisses(Fresh(), c, s, o);
    var db := Step(Fresh(), c, s);
    assert forall g :: g in db.gaps.rows && g.connection == c ==> g in OfConnection(db.gaps.rows, c);
    forall more | NeverBehind(db, c, more) && TruthfulScans(more, o) ensures !Stored(Run(db, c, more), o) {
      LostForGood(db, c, more, until, o);
    }
  }

  // ---- nothing is forgotten ----------------------------------------------

  /** Stored, in a recorded gap, or still ahead of the next window's start. */
  ghost predicate Accounted(db: Db, c: string, o: Occurrence) {
    || Stored(db, o)
    || Covered(db.gaps.rows, c, o.time)
    || c !in db.checkpoints
    || db.checkpoints[c] - OVERLAP <= o.time
  }

  lemma StepForgetsNothing(db: Db, c: string, s: Scan, world: iset<Occurrence>, lag: nat, o: Occurrence)
    requires Valid(db.gaps) && lag <= OVERLAP + 1
    requires Honest(s.collect, world, s.until - lag)
    requires c in db.checkpoints ==> db.checkpoints[c] <= s.until
    requires o in world && Cutoff(s.until, s.hours) <= o.time && Accounted(db, c, o)
    requires o.task ==> !StepTaskless(db, c, s, o.time)
    ensures Accounted(Step(db, c, s), c, o)
  {
    CaptureFrame(db, c, s.collect, s.until, s.hours, s.names);
    CheckpointMoves(db, c, s.collect, s.until, s.hours, s.names);
    var since := WindowStart(db, c, s.until, s.hours);
    if !Stored(db, o) {
      if c in db.checkpoints && o.time < db.checkpoints[c] - OVERLAP {
        OutsideWindowKept(db, c, s.collect, s.until, s.hours, s.names, world, s.until - lag, o);
      } else if Completes(db, c, s.collect, s.until, s.hours) && o.time <= s.until - lag {
        CompleteStores(db, c, s.collect, s.until, s.hours, s.names, world, s.until - lag, o);
      }
    }
  }

  /** From any database at all, over any run whose snapshots never step behind
      the checkpoint: an occurrence that retention has not reached and that is
      accounted for stays accounted for, unless it is a task and a reply without
      task history covered its start. In particular leaves that resolve
      gaps before a later leaf raises, so that their rows are dropped, lose
      nothing. */
  lemma {:induction false} NothingIsForgotten(db: Db, c: string, scans: seq<Scan>, world: iset<Occurrence>, lag: nat,
                                              floor: int, o: Occurrence)
    requires Valid(db.gaps) && lag <= 60_000_001
    requires Fair(scans, world, lag, floor) && NeverBehind(db, c, scans)
    requires o in Reached(db, c, scans, world) && floor <= o.time && Accounted(db, c, o)
    ensures Accounted(Run(db, c, scans), c, o)
    decreases |scans|
  {
    if scans != [] {
      assert scans[0] in scans;
      StepForgetsNothing(db, c, scans[0], world, lag, o);
      NeverBehindTail(db, c, scans);
      NothingIsForgotten(Step(db, c, scans[0]), c, scans[1..], world, lag, floor, o);
    }
  }

  /** Snapshot times do not decrease and start at or after the checkpoint. */
  ghost predicate NeverBehind(db: Db, c: string, scans: seq<Scan>) {
    && (forall i, j :: 0 <= i < j < |scans| ==> scans[i].until <= scans[j].until)
    && (c in db.checkpoints && scans != [] ==> db.checkpoints[c] <= scans[0].until)
  }

  lemma NeverBehindTail(db: Db, c: string, scans: seq<Scan>)
    requires Valid(db.gaps) && scans != [] && NeverBehind(db, c, scans)
    ensures NeverBehind(Step(db, c, scans[0]), c, scans[1..])
  {
    var s := scans[0];
    CaptureFrame(db, c, s.collect, s.until, s.hours, s.names);
    if |scans| > 1 {
      assert scans[1..][0] == scans[1];
    }
  }

  // ---- repair ------------------------------------------------------------

  ghost predicate Healthy(collect: Collector) {
    forall n: nat, since: int, until: int :: CompleteReply(collect(n, since, until))
  }

  lemma HealthyFetch(db: Db, c: string, collect: Collector, calls: nat, since: int, until: int)
    requires Healthy(collect)
    ensures var f := FetchWindow(db, c, collect, calls, since, until);
            && f.outcome.Returned? && f.outcome.complete
            && f.calls == calls + 1
            && f.db.gaps == Resolve(db.gaps, c, since, until)
  {
    assert CompleteReply(collect(calls, since, until));
  }

  /** Each recorded gap is either left to the capture window or still to do. */
  ghost predicate Remaining(rows: set<Gap>, c: string, todo: seq<Gap>, since: int, until: int) {
    forall g :: g in rows && g.connection == c ==> (since <= g.since && g.until <= until) || g in todo
  }

  lemma {:induction false} HealthyRetry(db: Db, c: string, collect: Collector, calls: nat, todo: seq<Gap>,
                                        since: int, until: int)
    requires Healthy(collect) && Valid(db.gaps) && Intervals(todo)
    requires Remaining(db.gaps.rows, c, todo, since, until)
    ensures Remaining(RetryGaps(db, c, collect, calls, todo, since, until).db.gaps.rows, c, [], since, until)
    decreases |todo|
  {
    if todo != [] {
      var g, rest := todo[0], todo[1..];
      if since <= g.since && g.until <= until {
        HealthyRetry(db, c, collect, calls, rest, since, until);
      } else {
        HealthyFetch(db, c, collect, calls, g.since, g.until);
        AfterRetryFrame(db, c, collect, calls, g);
        var f := FetchWindow(db, c, collect, calls, g.since, g.until);
        HealthyRetry(AfterRetry(f, c, g), c, collect, f.calls, rest, since, until);
      }
    }
  }

  lemma HealthyScanClears(db: Db, c: string, s: Scan)
    requires Valid(db.gaps) && Healthy(s.collect)
    ensures OfConnection(Step(db, c, s).gaps.rows, c) == {} && Completes(db, c, s.collect, s.until, s.hours)
  {
    var cutoff, since := Cutoff(s.until, s.hours), WindowStart(db, c, s.until, s.hours);
    PruneKeyed(db.gaps, c, cutoff);
    PruneValid(db.gaps, c, cutoff);
    var pruned := db.(gaps := Prune(db.gaps, c, cutoff));
    var todo := BySince(OfConnection(pruned.gaps.rows, c));
    HealthyRetry(pruned, c, s.collect, 0, todo, since, s.until);
    var retry := Retried(db, c, s.collect, s.until, s.hours);
    HealthyFetch(retry.db, c, s.collect, retry.calls, since, s.until);
    assert Remaining(retry.db.gaps.rows, c, [], since, s.until);
    assert Step(db, c, s).gaps == Resolve(Resolve(retry.db.gaps, c, since, s.until), c, since, s.until);
  }

  lemma HealthyScanStores(db: Db, c: string, s: Scan, world: iset<Occurrence>, lag: nat, o: Occurrence)
    requires Valid(db.gaps) && Healthy(s.collect)
    requires Honest(s.collect, world, s.until - lag) && o in world
    requires c in db.checkpoints ==> db.checkpoints[c] <= s.until
    requires Accounted(db, c, o) && Cutoff(s.until, s.hours) <= o.time <= s.until - lag
    requires o.task ==> !StepTaskless(db, c, s, o.time)
    ensures Stored(Step(db, c, s), o)
  {
    HealthyScanClears(db, c, s);
    var db' := Step(db, c, s);
    if Stored(db, o) {
      CaptureFrame(db, c, s.collect, s.until, s.hours, s.names);
    } else if WindowStart(db, c, s.until, s.hours) <= o.time {
      CompleteStores(db, c, s.collect, s.until, s.hours, s.names, world, s.until - lag, o);
    } else {
      OutsideWindowKept(db, c, s.collect, s.until, s.hours, s.names, world, s.until - lag, o);
      assert forall g :: g in db'.gaps.rows && g.connection == c ==> g in OfConnection(db'.gaps.rows, c);
    }
  }

  /** One scan in which every answer is complete repairs everything earlier
      scans left behind: no gap remains, the checkpoint is the snapshot's time,
      and each visible occurrence retention still covers is stored. */
  lemma OneHealthyScanRepairs(db: Db, c: string, s: Scan, world: iset<Occurrence>, lag: nat)
    requires Valid(db.gaps) && Healthy(s.collect)
    requires Honest(s.collect, world, s.until - lag)
    requires c in db.checkpoints ==> db.checkpoints[c] <= s.until
    ensures OfConnection(Step(db, c, s).gaps.rows, c) == {}
    ensures Step(db, c, s).checkpoints == db.checkpoints[c := s.until]
    ensures forall o ::
              (o in world && Accounted(db, c, o) && Cutoff(s.until, s.hours) <= o.time <= s.until - lag
               && (o.task ==> !StepTaskless(db, c, s, o.time))) ==> Stored(Step(db, c, s), o)
  {
    HealthyScanClears(db, c, s);
    CheckpointMoves(db, c, s.collect, s.until, s.hours, s.names);
    forall o | o in world && Accounted(db, c, o) && Cutoff(s.until, s.hours) <= o.time <= s.until - lag
        && (o.task ==> !StepTaskless(db, c, s, o.time))
      ensures Stored(Step(db, c, s), o)
    {
      HealthyScanStores(db, c, s, world, lag, o);
    }
  }

  // ---- the retry loop ----------------------------------------------------

  /** Every recorded gap lies inside the next capture window: it ends no later
      than the last snapshot and starts no earlier than the overlap. */
  ghost predicate GapsAhead(db: Db, c: string, last: int) {
    forall g :: g in db.gaps.rows && g.connection == c ==>
      g.until <= last && (c in db.checkpoints ==> db.checkpoints[c] - OVERLAP <= g.since)
  }

  ghost predicate Within(rows: set<Gap>, c: string, since: int, until: int) {
    forall g :: g in rows && g.connection == c ==> since <= g.since && g.until <= until
  }

  lemma RecordWithin(t: GapTable, c: string, since: int, until: int, error: string, lo: int, hi: int)
    requires WellFormed(t.rows) && lo <= since <= until <= hi && Within(t.rows, c, lo, hi)
    ensures Within(Record(t, c, since, until, error).rows, c, lo, hi)
  {
    AbsorbShape(t.rows, c, since, until, 0);
    var m := Absorb(t.rows, c, since, until, 0);
    AbsorbHull(t.rows, c, since, until, 0, lo, hi);
  }

  lemma {:induction false} AbsorbHull(rows: set<Gap>, c: string, since: int, until: int, attempts: nat, lo: int,
                                      hi: int)
    requires lo <= since && until <= hi && Within(rows, c, lo, hi)
    ensures var m := Absorb(rows, c, since, until, attempts); lo <= m.since && m.until <= hi
    decreases |rows|
  {
    var overlaps := Overlaps(rows, c, since, until);
    if overlaps != {} {
      SubsetSize(rows - overlaps, rows);
      AbsorbHull(rows - overlaps, c, LeastSince(since, overlaps), GreatestUntil(until, overlaps),
                 MostAttempts(attempts, overlaps), lo, hi);
    }
  }

  lemma {:induction false} FetchWithin(db: Db, c: string, collect: Collector, calls: nat, since: int, until: int,
                                       lo: int, hi: int)
    requires Valid(db.gaps) && lo <= since <= until <= hi && Within(db.gaps.rows, c, lo, hi)
    ensures Within(FetchWindow(db, c, collect, calls, since, until).db.gaps.rows, c, lo, hi)
    decreases if since < until then until - since else 0
  {
    var raw := collect(calls, since, until);
    if Splits(raw, since, until) {
      var midpoint := Midpoint(since, until);
      var flagged := FlagTasks(db, c, raw);
      FetchWithin(flagged, c, collect, calls + 1, since, midpoint, lo, hi);
      FetchFrame(flagged, c, collect, calls + 1, since, midpoint);
      var left := FetchWindow(flagged, c, collect, calls + 1, since, midpoint);
      if !left.outcome.Raised? {
        FetchWithin(left.db, c, collect, left.calls, midpoint, until, lo, hi);
      }
    } else if !raw.Raises? && !CompleteReply(raw) {
      RecordWithin(db.gaps, c, since, until, if ErrorOf(raw) != "" then ErrorOf(raw) else CAP_ERROR, lo, hi);
    }
  }

  lemma {:induction false} RetryNothing(db: Db, c: string, collect: Collector, calls: nat, todo: seq<Gap>,
                                        since: int, until: int)
    requires forall g :: g in todo ==> since <= g.since && g.until <= until
    ensures RetryGaps(db, c, collect, calls, todo, since, until) == Retry(db, calls, [])
    decreases |todo|
  {
    if todo != [] {
      RetryNothing(db, c, collect, calls, todo[1..], since, until);
    }
  }

  lemma IdleStep(db: Db, c: string, s: Scan, last: int)
    requires Valid(db.gaps) && GapsAhead(db, c, last) && last <= s.until
    requires c in db.checkpoints ==> db.checkpoints[c] <= s.until
    ensures var r := Retried(db, c, s.collect, s.until, s.hours);
            && r.calls == 0 && r.rows == []
            && GapsAhead(Step(db, c, s), c, s.until)
  {
    var cutoff, since := Cutoff(s.until, s.hours), WindowStart(db, c, s.until, s.hours);
    PruneKeyed(db.gaps, c, cutoff);
    PruneValid(db.gaps, c, cutoff);
    var pruned := db.(gaps := Prune(db.gaps, c, cutoff));
    forall g | g in pruned.gaps.rows && g.connection == c ensures since <= g.since && g.until <= s.until {
      var h := PruneRow(db.gaps, c, cutoff, g);
    }
    var todo := BySince(OfConnection(pruned.gaps.rows, c));
    RetryNothing(pruned, c, s.collect, 0, todo, since, s.until);
    FetchWithin(pruned, c, s.collect, 0, since, s.until, since, s.until);
    CheckpointMoves(db, c, s.collect, s.until, s.hours, s.names);
    var f := FetchWindow(pruned, c, s.collect, 0, since, s.until);
    if Completes(db, c, s.collect, s.until, s.hours) {
      assert OfConnection(Step(db, c, s).gaps.rows, c) == {};
      assert forall g :: g in Step(db, c, s).gaps.rows && g.connection == c ==> g in OfConnection(Step(db, c, s).gaps.rows, c);
    } else {
      assert Step(db, c, s).gaps == f.db.gaps;
    }
  }

  /** The scan reads no gap separately, and its calls are linear in the width
      of its window. */
  ghost predicate ReadsOnlyItsWindow(db: Db, c: string, s: Scan)
    requires Valid(db.gaps)
  {
    var width := s.until - WindowStart(db, c, s.until, s.hours);
    && Retried(db, c, s.collect, s.until, s.hours).calls == 0
    && (500_000 <= width ==> (CaptureEvents(db, c, s.collect, s.until, s.hours, s.names).calls + 1) * 250_000 <= width)
  }

  lemma IdleReadsWindow(db: Db, c: string, s: Scan, last: int)
    requires Valid(db.gaps) && GapsAhead(db, c, last) && last <= s.until
    requires c in db.checkpoints ==> db.checkpoints[c] <= s.until
    ensures ReadsOnlyItsWindow(db, c, s)
  {
    IdleStep(db, c, s, last);
    var retry := Retried(db, c, s.collect, s.until, s.hours);
    FetchCalls(retry.db, c, s.collect, 0, WindowStart(db, c, s.until, s.hours), s.until);
  }

  /** Every scan of the run reads its window only. */
  ghost predicate AllReadOnlyTheirWindows(db: Db, c: string, scans: seq<Scan>)
    requires Valid(db.gaps)
    decreases |scans|
  {
    scans == [] || (ReadsOnlyItsWindow(db, c, scans[0]) && AllReadOnlyTheirWindows(Step(db, c, scans[0]), c, scans[1..]))
  }

  /** In any run from a connection without gaps whose snapshot times do not
      decrease, no scan ever reads a gap separately: the capture window already
      contains every one of them. */
  lemma {:induction false} RetryLoopIsIdle(db: Db, c: string, scans: seq<Scan>, last: int)
    requires Valid(db.gaps) && GapsAhead(db, c, last) && NeverBehind(db, c, scans)
    requires scans != [] ==> last <= scans[0].until
    ensures AllReadOnlyTheirWindows(db, c, scans)
    decreases |scans|
  {
    if scans != [] {
      var s := scans[0];
      IdleReadsWindow(db, c, s, last);
      assert GapsAhead(Step(db, c, s), c, s.until) by { IdleStep(db, c, s, last); }
      NeverBehindTail(db, c, scans);
      RetryLoopIsIdle(Step(db, c, s), c, scans[1..], s.until);
    }
  }
}
