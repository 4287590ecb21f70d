/** Event capture as functions of the database state
    (backend/app/events/service.py over backend/app/events/store.py).

    The vCenter is an oracle: the n-th call of a collector over a window
    answers as it likes, by raising or with a batch. Collectors that answer
    with a bare list are covered by `Rows`. */
module Capture {
  import opened Basics
  import opened Gaps

  /** One event; `body` stands for the fields capture never looks at. */
  datatype Event = Event(id: string, connection: string, time: int, body: string,
                         resourceId: Option<string>, resourceName: Option<string>, resourceType: Option<string>)

  datatype Reply =
    | Raises(message: string)
    | Batch(events: seq<Event>, complete: bool, taskHistoryUnavailable: Option<bool>, error: Option<string>)
    | Rows(rows: seq<Event>)

  /** Call number, start and end of the window. */
  type Collector = (nat, int, int) -> Reply

  datatype Db = Db(
    gaps: GapTable,
    events: map<string, Event>,
    checkpoints: map<string, int>,
    taskHistoryUnavailable: map<string, bool>)

  datatype Outcome = Raised(message: string) | Returned(rows: seq<Event>, complete: bool)

  datatype Fetch = Fetch(db: Db, calls: nat, outcome: Outcome)

  const MAX_ITEMS := 20_000
  const HOUR := 3_600_000_000
  const OVERLAP := 60_000_000
  const MIN_WINDOW := 1_000_000
  const MAX_RETENTION_HOURS := 8760

  function Result(raw: Reply): (seq<Event>, bool)
    requires !raw.Raises?
  {
    match raw
    case Batch(events, complete, _, _) => (events, complete)
    case Rows(rows) => (rows, |rows| < MAX_ITEMS)
  }

  /** An empty error text counts as no error. */
  function ErrorOf(raw: Reply): (error: string) {
    if raw.Batch? && raw.error.Some? then raw.error.value else ""
  }

  /** Halving a duration rounds a half microsecond to the even neighbour. */
  function Half(d: int): int {
    if d % 2 == 0 then d / 2 else if (d / 2) % 2 == 0 then d / 2 else d / 2 + 1
  }

  function FlagTasks(db: Db, c: string, raw: Reply): Db {
    if raw.Batch? && raw.taskHistoryUnavailable.Some?
    then db.(taskHistoryUnavailable := db.taskHistoryUnavailable[c := raw.taskHistoryUnavailable.value])
    else db
  }

  const CAP_ERROR := "capture limit of 20000 reached in minimum window"

  /** A window is split when its batch was capped and it is wide enough. */
  predicate Splits(raw: Reply, since: int, until: int) {
    !raw.Raises? && ErrorOf(raw) == "" && !Result(raw).1 && until - since > MIN_WINDOW
  }

  function Midpoint(since: int, until: int): (m: int)
    requires until - since > MIN_WINDOW
    ensures since + MIN_WINDOW / 2 <= m <= until - MIN_WINDOW / 2
  {
    since + Half(until - since)
  }

  /** What a window that is not split does. */
  function Leaf(db: Db, c: string, raw: Reply, calls: nat, since: int, until: int): Fetch {
    if raw.Raises? then Fetch(db, calls, Raised(raw.message))
    else
      var (rows, complete) := Result(raw);
      var flagged := FlagTasks(db, c, raw);
      if ErrorOf(raw) != "" then
        Fetch(flagged.(gaps := Record(flagged.gaps, c, since, until, ErrorOf(raw))), calls, Returned(rows, false))
      else if complete then
        Fetch(flagged.(gaps := Resolve(flagged.gaps, c, since, until)), calls, Returned(rows, true))
      else
        Fetch(flagged.(gaps := Record(flagged.gaps, c, since, until, CAP_ERROR)), calls, Returned(rows, false))
  }

  function Join(left: Fetch, right: Fetch): Fetch
    requires left.outcome.Returned?
  {
    if right.outcome.Raised? then right
    else
      right.(outcome := Returned(left.outcome.rows + right.outcome.rows, left.outcome.complete && right.outcome.complete))
  }

  function FetchWindow(db: Db, c: string, collect: Collector, calls: nat, since: int, until: int): Fetch
    decreases if since < until then until - since else 0
  {
    var raw := collect(calls, since, until);
    if Splits(raw, since, until) then
      var midpoint := Midpoint(since, until);
      var left := FetchWindow(FlagTasks(db, c, raw), c, collect, calls + 1, since, midpoint);
      if left.outcome.Raised? then left
      else Join(left, FetchWindow(left.db, c, collect, left.calls, midpoint, until))
    else
      Leaf(db, c, raw, calls + 1, since, until)
  }

  // ---- storing -----------------------------------------------------------

  /** What the snapshot knows about a resource id: its name and type. */
  type Names = map<string, (string, string)>

  function Blank(s: Option<string>): bool { s.None? || s.value == "" }

  /** Fills in what is blank from what the snapshot knows about the resource,
      and overwrites nothing but the connection. */
  function Enrich(e: Event, c: string, names: Names): (r: Event)
    ensures r.id == e.id && r.time == e.time && r.connection == c && r.body == e.body && r.resourceId == e.resourceId
    ensures !Blank(e.resourceName) ==> r.resourceName == e.resourceName
    ensures !Blank(e.resourceType) ==> r.resourceType == e.resourceType
    ensures Blank(e.resourceId) || e.resourceId.value !in names ==>
              r.resourceName == e.resourceName && r.resourceType == e.resourceType
    ensures !Blank(e.resourceId) && e.resourceId.value in names ==>
              var (name, kind) := names[e.resourceId.value];
              && (Blank(e.resourceName) ==> r.resourceName == Some(name))
              && (Blank(e.resourceType) ==> r.resourceType == Some(kind))
  {
    var owned := e.(connection := c);
    if Blank(e.resourceId) || e.resourceId.value !in names then owned
    else
      var (name, kind) := names[e.resourceId.value];
      owned.(resourceName := if Blank(e.resourceName) then Some(name) else e.resourceName,
             resourceType := if Blank(e.resourceType) then Some(kind) else e.resourceType)
  }

  /** The rows capture stores: enriched, and not older than the cutoff. */
  function Kept(rows: seq<Event>, c: string, names: Names, cutoff: int): seq<Event> {
    if rows == [] then []
    else
      var e := Enrich(rows[0], c, names);
      (if e.time >= cutoff then [e] else []) + Kept(rows[1..], c, names, cutoff)
  }

  /** Insert, ignoring ids already present. */
  function Upsert(events: map<string, Event>, rows: seq<Event>): map<string, Event>
    decreases |rows|
  {
    if rows == [] then events
    else Upsert(if rows[0].id in events then events else events[rows[0].id := rows[0]], rows[1..])
  }

  // ---- one capture -------------------------------------------------------

  function Cutoff(until: int, hours: nat): int { until - hours * HOUR }

  function WindowStart(db: Db, c: string, until: int, hours: nat): int {
    var cutoff := Cutoff(until, hours);
    var since := if c in db.checkpoints then db.checkpoints[c] - OVERLAP else cutoff;
    Max(Min(since, until), cutoff)
  }

  function OfConnection(rows: set<Gap>, c: string): set<Gap> {
    set g | g in rows && g.connection == c
  }

  predicate NoLater(g: Gap, h: Gap) {
    g.since < h.since || (g.since == h.since && g.id <= h.id)
  }

  lemma {:induction false} EarliestExists(rows: set<Gap>)
    requires rows != {}
    ensures exists g :: g in rows && forall h :: h in rows ==> NoLater(g, h)
    decreases |rows|
  {
    var x := Inhabited(rows);
    var rest := rows - {x};
    if rest != {} {
      EarliestExists(rest);
      var g :| g in rest && forall h :: h in rest ==> NoLater(g, h);
      var w := if NoLater(x, g) then x else g;
      assert w in rows;
      forall h | h in rows ensures NoLater(w, h) {
        assert h == x || h in rest;
      }
    } else {
      assert rows == {x};
    }
  }

  /** Rows in order of their start (their ids tell apart equal starts). */
  function BySince(rows: set<Gap>): (r: seq<Gap>)
    requires forall g, h :: g in rows && h in rows && g.id == h.id ==> g == h
    ensures forall g :: g in r <==> g in rows
    ensures |r| == |rows|
    decreases |rows|
  {
    if rows == {} then []
    else
      EarliestExists(rows);
      var g :| g in rows && forall h :: h in rows ==> NoLater(g, h);
      SubsetSize(rows - {g}, rows);
      [g] + BySince(rows - {g})
  }

  lemma BySinceHead(rows: set<Gap>)
    requires rows != {} && forall g, h :: g in rows && h in rows && g.id == h.id ==> g == h
    ensures var r := BySince(rows);
            |r| > 0 && r[0] in rows && r == [r[0]] + BySince(rows - {r[0]}) && forall h :: h in rows ==> r[0].since <= h.since
  {
  }

  ghost predicate Ordered(r: seq<Gap>) { forall i, j :: 0 <= i < j < |r| ==> r[i].since <= r[j].since }

  lemma OrderedHead(g: Gap, tail: seq<Gap>)
    requires Ordered(tail) && forall h :: h in tail ==> g.since <= h.since
    ensures Ordered([g] + tail)
  {
  }

  lemma {:induction false} BySinceOrdered(rows: set<Gap>)
    requires forall g, h :: g in rows && h in rows && g.id == h.id ==> g == h
    ensures Ordered(BySince(rows))
    decreases |rows|
  {
    if rows != {} {
      BySinceHead(rows);
      var first := BySince(rows)[0];
      SubsetSize(rows - {first}, rows);
      BySinceOrdered(rows - {first});
      OrderedHead(first, BySince(rows - {first}));
    }
  }

  function Truncate(s: string): string { if |s| <= 500 then s else s[..500] }

  datatype Retry = Retry(db: Db, calls: nat, rows: seq<Event>)

  /** Read again every recorded gap the capture window does not contain. */
  function RetryGaps(db: Db, c: string, collect: Collector, calls: nat, todo: seq<Gap>, since: int, until: int): Retry
    decreases |todo|
  {
    if todo == [] then Retry(db, calls, [])
    else if since <= todo[0].since && todo[0].until <= until then
      RetryGaps(db, c, collect, calls, todo[1..], since, until)
    else
      var f := FetchWindow(db, c, collect, calls, todo[0].since, todo[0].until);
      match f.outcome
      case Raised(message) =>
        var db' := f.db.(gaps := Record(f.db.gaps, c, todo[0].since, todo[0].until, Truncate(message)));
        RetryGaps(db', c, collect, f.calls, todo[1..], since, until)
      case Returned(rows, complete) =>
        var db' := if complete then f.db.(gaps := Resolve(f.db.gaps, c, todo[0].since, todo[0].until)) else f.db;
        var rest := RetryGaps(db', c, collect, f.calls, todo[1..], since, until);
        Retry(rest.db, rest.calls, rows + rest.rows)
  }

  /** The database after the retries, with the rows they brought back. */
  function Retried(db: Db, c: string, collect: Collector, until: int, hours: nat): Retry
    requires Keyed(db.gaps)
  {
    PruneKeyed(db.gaps, c, Cutoff(until, hours));
    var pruned := db.(gaps := Prune(db.gaps, c, Cutoff(until, hours)));
    RetryGaps(pruned, c, collect, 0, BySince(OfConnection(pruned.gaps.rows, c)), WindowStart(db, c, until, hours), until)
  }

  function CaptureEvents(db: Db, c: string, collect: Collector, until: int, hours: nat, names: Names): Fetch
    requires Keyed(db.gaps)
  {
    var cutoff := Cutoff(until, hours);
    var since := WindowStart(db, c, until, hours);
    var retry := Retried(db, c, collect, until, hours);
    var f := FetchWindow(retry.db, c, collect, retry.calls, since, until);
    match f.outcome
    case Raised(_) =>
      f.(db := f.db.(events := Upsert(f.db.events, Kept(retry.rows, c, names, cutoff))))
    case Returned(rows, complete) =>
      var stored := f.db.(events := Upsert(f.db.events, Kept(retry.rows + rows, c, names, cutoff)));
      f.(db := if complete
               then stored.(gaps := Resolve(stored.gaps, c, since, until), checkpoints := stored.checkpoints[c := until])
               else stored)
  }

  lemma PruneKeyed(t: GapTable, c: string, cutoff: int)
    requires Keyed(t)
    ensures Keyed(Prune(t, c, cutoff))
  {
    var t' := Prune(t, c, cutoff);
    forall g, h | g in t'.rows && h in t'.rows && g.id == h.id ensures g == h {
      var g0 := PruneRow(t, c, cutoff, g);
      var h0 := PruneRow(t, c, cutoff, h);
    }
  }

  // ---- one window --------------------------------------------------------

  /** Bisection asks few questions: none of its windows is narrower than half
      the minimum, so the calls are linear in the width. */
  lemma {:induction false} FetchCalls(db: Db, c: string, collect: Collector, calls: nat, since: int, until: int)
    ensures var f := FetchWindow(db, c, collect, calls, since, until);
            && calls < f.calls
            && (until - since <= MIN_WINDOW ==> f.calls == calls + 1)
            && (500_000 <= until - since ==> (f.calls - calls + 1) * 250_000 <= until - since)
    decreases if since < until then until - since else 0
  {
    var raw := collect(calls, since, until);
    if Splits(raw, since, until) {
      var midpoint := Midpoint(since, until);
      var flagged := FlagTasks(db, c, raw);
      FetchCalls(flagged, c, collect, calls + 1, since, midpoint);
      var left := FetchWindow(flagged, c, collect, calls + 1, since, midpoint);
      if !left.outcome.Raised? {
        FetchCalls(left.db, c, collect, left.calls, midpoint, until);
      }
    }
  }

  /** The tables a window never touches. */
  ghost predicate SameElsewhere(db: Db, db': Db, c: string) {
    && db'.events == db.events
    && db'.checkpoints == db.checkpoints
    && (forall g: Gap :: g.connection != c ==> (g in db'.gaps.rows <==> g in db.gaps.rows))
  }

  ghost predicate SameCoverOutside(rows: set<Gap>, rows': set<Gap>, c: string, since: int, until: int) {
    forall t :: t < since || until < t ==> (Covered(rows', c, t) <==> Covered(rows, c, t))
  }

  lemma LeafResolves(db: Db, c: string, raw: Reply, calls: nat, since: int, until: int)
    requires CompleteReply(raw)
    ensures Leaf(db, c, raw, calls, since, until).db == FlagTasks(db, c, raw).(gaps := Resolve(db.gaps, c, since, until))
  {
  }

  lemma LeafRecords(db: Db, c: string, raw: Reply, calls: nat, since: int, until: int) returns (error: string)
    requires !raw.Raises? && !CompleteReply(raw)
    ensures Leaf(db, c, raw, calls, since, until).db == FlagTasks(db, c, raw).(gaps := Record(db.gaps, c, since, until, error))
  {
    error := if ErrorOf(raw) != "" then ErrorOf(raw) else CAP_ERROR;
  }

  lemma LeafFrame(db: Db, c: string, raw: Reply, calls: nat, since: int, until: int)
    requires since <= until && Valid(db.gaps)
    ensures var f := Leaf(db, c, raw, calls, since, until);
            && Valid(f.db.gaps)
            && SameElsewhere(db, f.db, c)
            && SameCoverOutside(db.gaps.rows, f.db.gaps.rows, c, since, until)
  {
    if CompleteReply(raw) {
      LeafResolves(db, c, raw, calls, since, until);
      ResolveValid(db.gaps, c, since, until);
      ResolveOutside(db.gaps, c, since, until);
    } else if !raw.Raises? {
      var error := LeafRecords(db, c, raw, calls, since, until);
      RecordValid(db.gaps, c, since, until, error);
      RecordExact(db.gaps, c, since, until, error);
    }
  }

  /** A window changes nothing but its connection's gaps, keeps the table
      valid, and changes coverage only between its two ends. */
  lemma {:induction false} FetchFrame(db: Db, c: string, collect: Collector, calls: nat, since: int, until: int)
    requires since <= until && Valid(db.gaps)
    ensures var f := FetchWindow(db, c, collect, calls, since, until);
            && Valid(f.db.gaps)
            && SameElsewhere(db, f.db, c)
            && SameCoverOutside(db.gaps.rows, f.db.gaps.rows, c, since, until)
    decreases if since < until then until - since else 0
  {
    var raw := collect(calls, since, until);
    if Splits(raw, since, until) {
      var midpoint := Midpoint(since, until);
      var flagged := FlagTasks(db, c, raw);
      FetchFrame(flagged, c, collect, calls + 1, since, midpoint);
      var left := FetchWindow(flagged, c, collect, calls + 1, since, midpoint);
      if !left.outcome.Raised? {
        FetchFrame(left.db, c, collect, left.calls, midpoint, until);
      }
    } else {
      LeafFrame(db, c, raw, calls + 1, since, until);
    }
  }

  // ---- what the vCenter did ----------------------------------------------

  /** Something that happened in the vCenter. Its time is the one windows are
      asked by: when an event was created, when a task started. The row may
      carry a later one, for a task that completed is stamped with that. */
  datatype Occurrence = Occurrence(id: string, time: int, task: bool)

  predicate IsRowOf(e: Event, o: Occurrence) { e.id == o.id && o.time <= e.time }

  ghost predicate HasRow(rows: seq<Event>, o: Occurrence) {
    exists i :: 0 <= i < |rows| && IsRowOf(rows[i], o)
  }

  ghost predicate Stored(db: Db, o: Occurrence) { o.id in db.events }

  /** The reply is about events alone: the task history could not be read. */
  predicate EventsOnly(raw: Reply) { raw.Batch? && raw.taskHistoryUnavailable == Some(true) }

  /** Whether a reply owes the occurrence: when it says that it is complete and
      without error, or is a bare list below the cap. One about events alone
      owes no task; raised, capped and erroneous replies may hold anything. */
  predicate Owes(raw: Reply, o: Occurrence) { CompleteReply(raw) && !(o.task && EventsOnly(raw)) }

  ghost predicate Answers(collect: Collector, n: nat, since: int, until: int, o: Occurrence) {
    var raw := collect(n, since, until);
    since <= o.time <= until && Owes(raw, o) ==> HasRow(RowsIn(raw), o)
  }

  /** A collector answers for every occurrence that was visible, that is, not
      later than the horizon. */
  ghost predicate Honest(collect: Collector, world: iset<Occurrence>, horizon: int) {
    forall n: nat, since: int, until: int, o: Occurrence ::
      o in world && o.time <= horizon ==> Answers(collect, n, since, until, o)
  }

  predicate CompleteReply(raw: Reply) {
    match raw
    case Raises(_) => false
    case Batch(_, complete, _, error) => complete && (error == None || error == Some(""))
    case Rows(rows) => |rows| < 20_000
  }

  function RowsIn(raw: Reply): seq<Event> {
    match raw
    case Raises(_) => []
    case Batch(events, _, _, _) => events
    case Rows(rows) => rows
  }

  /** The instant lies in a window that was answered completely, but without
      task history. */
  predicate Taskless(db: Db, c: string, collect: Collector, calls: nat, since: int, until: int, t: int)
    decreases if since < until then until - since else 0
  {
    var raw := collect(calls, since, until);
    if Splits(raw, since, until) then
      var midpoint := Midpoint(since, until);
      var left := FetchWindow(FlagTasks(db, c, raw), c, collect, calls + 1, since, midpoint);
      || Taskless(FlagTasks(db, c, raw), c, collect, calls + 1, since, midpoint, t)
      || (left.outcome.Returned? && Taskless(left.db, c, collect, left.calls, midpoint, until, t))
    else CompleteReply(raw) && EventsOnly(raw) && since <= t <= until
  }

  /** The occurrence is in the rows or inside a recorded gap, and in the rows if
      the window is complete. */
  ghost predicate AccountsFor(f: Fetch, c: string, o: Occurrence) {
    && f.outcome.Returned?
    && (HasRow(f.outcome.rows, o) || Covered(f.db.gaps.rows, c, o.time))
    && (f.outcome.complete ==> HasRow(f.outcome.rows, o))
  }

  lemma JoinAccounts(left: Fetch, right: Fetch, c: string, o: Occurrence)
    requires left.outcome.Returned? && right.outcome.Returned?
    requires AccountsFor(right, c, o) ||
             (AccountsFor(left, c, o) && (Covered(left.db.gaps.rows, c, o.time) ==> Covered(right.db.gaps.rows, c, o.time)))
    ensures AccountsFor(Join(left, right), c, o)
  {
    HasRowConcat(left.outcome.rows, right.outcome.rows, o);
  }

  lemma LeafAccounts(db: Db, c: string, raw: Reply, calls: nat, since: int, until: int, o: Occurrence)
    requires since <= o.time <= until && Valid(db.gaps)
    requires CompleteReply(raw) ==> HasRow(RowsIn(raw), o)
    requires !raw.Raises?
    ensures AccountsFor(Leaf(db, c, raw, calls, since, until), c, o)
  {
    if !CompleteReply(raw) {
      RecordExact(db.gaps, c, since, until, if ErrorOf(raw) != "" then ErrorOf(raw) else CAP_ERROR);
    }
  }

  /** A window that returns accounts for every visible occurrence in it, save
      for tasks started where a reply came without task history: it is in the
      rows or inside a recorded gap. If the window reports itself complete, all
      of them are in the rows. */
  lemma {:induction false} FetchAccounts(db: Db, c: string, collect: Collector, calls: nat, since: int, until: int,
                                         world: iset<Occurrence>, horizon: int, o: Occurrence)
    requires since <= until && Valid(db.gaps)
    requires Honest(collect, world, horizon)
    requires o in world && since <= o.time <= until && o.time <= horizon
    requires o.task ==> !Taskless(db, c, collect, calls, since, until, o.time)
    requires FetchWindow(db, c, collect, calls, since, until).outcome.Returned?
    ensures AccountsFor(FetchWindow(db, c, collect, calls, since, until), c, o)
    decreases if since < until then until - since else 0
  {
    var raw := collect(calls, since, until);
    if Splits(raw, since, until) {
      var flagged := FlagTasks(db, c, raw);
      var midpoint := Midpoint(since, until);
      var left := FetchWindow(flagged, c, collect, calls + 1, since, midpoint);
      var right := FetchWindow(left.db, c, collect, left.calls, midpoint, until);
      assert FetchWindow(db, c, collect, calls, since, until) == Join(left, right);
      HalvesFrame(flagged, c, collect, calls + 1, since, midpoint, until, o.time);
      if o.time < midpoint {
        FetchAccounts(flagged, c, collect, calls + 1, since, midpoint, world, horizon, o);
      } else {
        FetchAccounts(left.db, c, collect, left.calls, midpoint, until, world, horizon, o);
      }
      JoinAccounts(left, right, c, o);
    } else {
      assert Answers(collect, calls, since, until, o);
      LeafAccounts(db, c, raw, calls + 1, since, until, o);
    }
  }

  /** The right half uncovers nothing before it. */
  lemma HalvesFrame(db: Db, c: string, collect: Collector, calls: nat, since: int, midpoint: int, until: int, t: int)
    requires since <= midpoint <= until && Valid(db.gaps)
    ensures var left := FetchWindow(db, c, collect, calls, since, midpoint);
            var right := FetchWindow(left.db, c, collect, left.calls, midpoint, until);
            && Valid(left.db.gaps)
            && (t < midpoint && Covered(left.db.gaps.rows, c, t) ==> Covered(right.db.gaps.rows, c, t))
  {
    FetchFrame(db, c, collect, calls, since, midpoint);
    var left := FetchWindow(db, c, collect, calls, since, midpoint);
    FetchFrame(left.db, c, collect, left.calls, midpoint, until);
  }

  lemma HasRowConcat(a: seq<Event>, b: seq<Event>, o: Occurrence)
    ensures HasRow(a + b, o) <==> HasRow(a, o) || HasRow(b, o)
  {
    if HasRow(a, o) {
      var i :| 0 <= i < |a| && IsRowOf(a[i], o);
      assert (a + b)[i] == a[i];
    }
    if HasRow(b, o) {
      var i :| 0 <= i < |b| && IsRowOf(b[i], o);
      assert (a + b)[|a| + i] == b[i];
    }
    if HasRow(a + b, o) {
      var i :| 0 <= i < |a + b| && IsRowOf((a + b)[i], o);
      if i < |a| {
        assert a[i] == (a + b)[i];
      } else {
        assert b[i - |a|] == (a + b)[i];
      }
    }
  }

  // ---- what one reply decides --------------------------------------------

  /** Given up: the rows are kept, and one gap holds the whole window. */
  ghost predicate GivenUp(f: Fetch, c: string, calls: nat, rows: seq<Event>, since: int, until: int, error: string) {
    && f.calls == calls + 1 && f.outcome == Returned(rows, false)
    && exists g :: g in f.db.gaps.rows && g.connection == c && g.since <= since && until <= g.until && g.error == error
  }

  /** Settled: no gap inside the window is left. */
  ghost predicate Settled(f: Fetch, c: string, calls: nat, rows: seq<Event>, since: int, until: int) {
    && f.calls == calls + 1 && f.outcome == Returned(rows, true)
    && forall g :: g in f.db.gaps.rows && g.connection == c ==> g.since < since || until < g.until
  }

  /** Asked again in two halves that meet at m, the left one first. */
  ghost predicate Halved(f: Fetch, db: Db, c: string, collect: Collector, calls: nat, since: int, m: int, until: int) {
    var left := FetchWindow(db, c, collect, calls + 1, since, m);
    var right := FetchWindow(left.db, c, collect, left.calls, m, until);
    && since + 500_000 <= m <= until - 500_000
    && (2 * m == since + until || ((m - since) % 2 == 0 && -1 <= 2 * m - since - until <= 1))
    && (match left.outcome
        case Raised(_) => f == left
        case Returned(rows, complete) =>
          f.db == right.db && f.calls == right.calls &&
          match right.outcome
          case Raised(message) => f.outcome == Raised(message)
          case Returned(more, all) => f.outcome == Returned(rows + more, complete && all))
  }

  /** A reply that hit the cap: it says so itself, or is as long as that. */
  predicate Capped(raw: Reply) {
    match raw
    case Raises(_) => false
    case Batch(_, complete, _, error) => !complete && (error == None || error == Some(""))
    case Rows(rows) => |rows| >= 20_000
  }

  /** What the fields of a reply decide, unless it is asked again: a window that
      raises changes nothing; one that says it is complete, or a list below the
      cap, is settled; one with an error is given up, and so is a capped one
      that is a second or less. */
  lemma ReplyDecides(db: Db, c: string, collect: Collector, calls: nat, since: int, until: int)
    requires since <= until && Valid(db.gaps)
    ensures var raw, f := collect(calls, since, until), FetchWindow(db, c, collect, calls, since, until);
            && (raw.Raises? ==> f == Fetch(db, calls + 1, Raised(raw.message)))
            && (CompleteReply(raw) ==> Settled(f, c, calls, RowsIn(raw), since, until))
            && (raw.Batch? && raw.error.Some? && raw.error.value != "" ==>
                  GivenUp(f, c, calls, raw.events, since, until, raw.error.value))
            && (Capped(raw) && until - since <= 1_000_000 ==>
                  GivenUp(f, c, calls, RowsIn(raw), since, until, "capture limit of 20000 reached in minimum window"))
  {
    var raw := collect(calls, since, until);
    if !raw.Raises? && !CompleteReply(raw) {
      var error := if ErrorOf(raw) != "" then ErrorOf(raw) else CAP_ERROR;
      var g := RecordRow(db.gaps, c, since, until, error);
      assert g in Record(db.gaps, c, since, until, error).rows;
    }
  }

  /** A capped reply is never complete on its own: a wider window is asked again
      in halves. */
  lemma CappedIsHalved(db: Db, c: string, collect: Collector, calls: nat, since: int, until: int) returns (flagged: Db, m: int)
    requires Capped(collect(calls, since, until)) && until - since > 1_000_000
    ensures var raw := collect(calls, since, until);
            && Flags(db, flagged, c, if raw.Batch? then raw.taskHistoryUnavailable else None)
            && Halved(FetchWindow(db, c, collect, calls, since, until), flagged, c, collect, calls, since, m, until)
  {
    flagged, m := FlagTasks(db, c, collect(calls, since, until)), Midpoint(since, until);
    HalfRoundsToEven(until - since);
  }

  /** The flag of the connection is what the reply says, if it says anything. */
  ghost predicate Flags(db: Db, db': Db, c: string, unavailable: Option<bool>) {
    match unavailable
    case None => db' == db
    case Some(b) => db' == db.(taskHistoryUnavailable := db.taskHistoryUnavailable[c := b])
  }

  /** Half of an odd duration is an even neighbour. */
  lemma HalfRoundsToEven(d: int)
    ensures 2 * Half(d) == d || (Half(d) % 2 == 0 && -1 <= 2 * Half(d) - d <= 1)
  {
  }

  /** Other connections' flags are left alone. */
  lemma {:induction false} FlagsElsewhere(db: Db, c: string, collect: Collector, calls: nat, since: int, until: int)
    ensures var db' := FetchWindow(db, c, collect, calls, since, until).db;
            db'.taskHistoryUnavailable - {c} == db.taskHistoryUnavailable - {c}
    decreases if since < until then until - since else 0
  {
    var raw := collect(calls, since, until);
    if Splits(raw, since, until) {
      var flagged, m := FlagTasks(db, c, raw), Midpoint(since, until);
      FlagsElsewhere(flagged, c, collect, calls + 1, since, m);
      var left := FetchWindow(flagged, c, collect, calls + 1, since, m);
      if left.outcome.Returned? {
        FlagsElsewhere(left.db, c, collect, left.calls, m, until);
      }
    }
  }

  /** When every reply says whether task history is unavailable, and they agree,
      the connection's flag is what they say. */
  lemma {:induction false} FlagFollows(db: Db, c: string, collect: Collector, calls: nat, since: int, until: int, b: bool)
    requires forall n: nat, x: int, y: int :: collect(n, x, y).Batch? && collect(n, x, y).taskHistoryUnavailable == Some(b)
    ensures var flags := FetchWindow(db, c, collect, calls, since, until).db.taskHistoryUnavailable;
            c in flags && flags[c] == b
    decreases if since < until then until - since else 0
  {
    var raw := collect(calls, since, until);
    if Splits(raw, since, until) {
      var flagged, m := FlagTasks(db, c, raw), Midpoint(since, until);
      FlagFollows(flagged, c, collect, calls + 1, since, m, b);
      var left := FetchWindow(flagged, c, collect, calls + 1, since, m);
      if left.outcome.Returned? {
        FlagFollows(left.db, c, collect, left.calls, m, until, b);
      }
    }
  }

  /** Every row a window returns was in a reply to a window inside it. */
  lemma {:induction false} RowsWereReplied(db: Db, c: string, collect: Collector, calls: nat, since: int, until: int, e: Event)
    returns (n: nat, a: int, b: int)
    requires var outcome := FetchWindow(db, c, collect, calls, since, until).outcome; outcome.Returned? && e in outcome.rows
    requires since <= until
    ensures e in RowsIn(collect(n, a, b)) && since <= a <= b <= until
    decreases if since < until then until - since else 0
  {
    n, a, b := calls, since, until;
    var raw := collect(calls, since, until);
    if Splits(raw, since, until) {
      var flagged, m := FlagTasks(db, c, raw), Midpoint(since, until);
      var left := FetchWindow(flagged, c, collect, calls + 1, since, m);
      if e in left.outcome.rows {
        n, a, b := RowsWereReplied(flagged, c, collect, calls + 1, since, m, e);
      } else {
        n, a, b := RowsWereReplied(left.db, c, collect, left.calls, m, until, e);
      }
    }
  }

  // ---- leaves ------------------------------------------------------------

  datatype Span = Span(since: int, until: int)

  /** The windows at which bisection gave up, in the order they were read.
      Empty when the window raised. */
  function FailedLeaves(db: Db, c: string, collect: Collector, calls: nat, since: int, until: int): seq<Span>
    decreases if since < until then until - since else 0
  {
    var raw := collect(calls, since, until);
    if Splits(raw, since, until) then
      var midpoint := Midpoint(since, until);
      var left := FetchWindow(FlagTasks(db, c, raw), c, collect, calls + 1, since, midpoint);
      FailedLeaves(FlagTasks(db, c, raw), c, collect, calls + 1, since, midpoint) +
      (if left.outcome.Raised? then [] else FailedLeaves(left.db, c, collect, left.calls, midpoint, until))
    else if raw.Raises? || CompleteReply(raw) then []
    else [Span(since, until)]
  }

  ghost predicate InsideOneGap(rows: set<Gap>, c: string, s: Span) {
    exists g :: g in rows && g.connection == c && g.since <= s.since && s.until <= g.until
  }

  lemma LeafKeepsEarlier(db: Db, c: string, raw: Reply, calls: nat, since: int, until: int, s: Span)
    requires since <= until && Valid(db.gaps)
    requires s.since < since && InsideOneGap(db.gaps.rows, c, s)
    ensures InsideOneGap(Leaf(db, c, raw, calls, since, until).db.gaps.rows, c, s)
  {
    var g :| g in db.gaps.rows && g.connection == c && g.since <= s.since && s.until <= g.until;
    if !raw.Raises? {
      if CompleteReply(raw) {
        assert g in Resolve(db.gaps, c, since, until).rows;
      } else {
        RecordKeepsSpans(db.gaps, c, since, until, if ErrorOf(raw) != "" then ErrorOf(raw) else CAP_ERROR, g);
      }
    }
  }

  /** A later window never erases a gap that starts before it. */
  lemma {:induction false} FetchKeepsEarlier(db: Db, c: string, collect: Collector, calls: nat, since: int,
                                             until: int, s: Span)
    requires since <= until && Valid(db.gaps)
    requires s.since < since && InsideOneGap(db.gaps.rows, c, s)
    ensures InsideOneGap(FetchWindow(db, c, collect, calls, since, until).db.gaps.rows, c, s)
    decreases if since < until then until - since else 0
  {
    var raw := collect(calls, since, until);
    if Splits(raw, since, until) {
      var flagged := FlagTasks(db, c, raw);
      var midpoint := Midpoint(since, until);
      FetchKeepsEarlier(flagged, c, collect, calls + 1, since, midpoint, s);
      FetchFrame(flagged, c, collect, calls + 1, since, midpoint);
      var left := FetchWindow(flagged, c, collect, calls + 1, since, midpoint);
      if !left.outcome.Raised? {
        FetchKeepsEarlier(left.db, c, collect, left.calls, midpoint, until, s);
      }
    } else {
      LeafKeepsEarlier(db, c, raw, calls + 1, since, until, s);
    }
  }

  lemma LeafRecorded(db: Db, c: string, raw: Reply, calls: nat, since: int, until: int)
    requires since <= until && Valid(db.gaps) && !raw.Raises?
    ensures var f := Leaf(db, c, raw, calls, since, until);
            && f.outcome.complete == CompleteReply(raw)
            && (!f.outcome.complete ==> InsideOneGap(f.db.gaps.rows, c, Span(since, until)))
  {
    if !CompleteReply(raw) {
      RecordExact(db.gaps, c, since, until, if ErrorOf(raw) != "" then ErrorOf(raw) else CAP_ERROR);
    }
  }

  /** On return, each leaf at which bisection gave up lies inside one recorded
      gap, whatever the leaves read after it did; and a window is complete
      exactly when there is no such leaf. */
  lemma {:induction false} FailedLeavesRecorded(db: Db, c: string, collect: Collector, calls: nat, since: int,
                                                until: int)
    requires since <= until && Valid(db.gaps)
    requires FetchWindow(db, c, collect, calls, since, until).outcome.Returned?
    ensures var f := FetchWindow(db, c, collect, calls, since, until);
            var leaves := FailedLeaves(db, c, collect, calls, since, until);
            && (forall s :: s in leaves ==> since <= s.since && s.until <= until && InsideOneGap(f.db.gaps.rows, c, s))
            && (forall s :: s in leaves && since < until ==> s.since < until)
            && (f.outcome.complete <==> leaves == [])
    decreases if since < until then until - since else 0
  {
    var raw := collect(calls, since, until);
    if Splits(raw, since, until) {
      var flagged := FlagTasks(db, c, raw);
      var midpoint := Midpoint(since, until);
      var left := FetchWindow(flagged, c, collect, calls + 1, since, midpoint);
      FailedLeavesRecorded(flagged, c, collect, calls + 1, since, midpoint);
      FetchFrame(flagged, c, collect, calls + 1, since, midpoint);
      FailedLeavesRecorded(left.db, c, collect, left.calls, midpoint, until);
      forall s | s in FailedLeaves(flagged, c, collect, calls + 1, since, midpoint)
        ensures InsideOneGap(FetchWindow(db, c, collect, calls, since, until).db.gaps.rows, c, s)
      {
        FetchKeepsEarlier(left.db, c, collect, left.calls, midpoint, until, s);
      }
    } else {
      LeafRecorded(db, c, raw, calls + 1, since, until);
    }
  }
}
