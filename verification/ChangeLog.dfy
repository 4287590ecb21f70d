/** The persisted change log of one connection, its two coverage markers, and
    the feed that recovers what predates it (backend/app/snapshots/store.py,
    backend/app/scheduler.py, backend/app/api/router.py). Instants are integer
    microseconds; the diff itself is a parameter of each scan. */
module ChangeLog {
  import opened Basics

  datatype Snapshot = Snapshot(id: nat, created: int)

  /** A stored change of the diff from one snapshot to another. */
  datatype Row = Row(fromId: nat, toId: nat, observed: int, change: string)

  /** One scan's diff, whether or not it found anything. */
  datatype Diff = Diff(fromId: nat, toId: nat, observed: int, changes: set<string>)

  function RowsOf(d: Diff): set<Row> { set c | c in d.changes :: Row(d.fromId, d.toId, d.observed, c) }

  /** The oldest instant the log still covers, given its two markers. */
  function Effective(since: int, retained: Option<int>): int {
    Max(since, if retained.Some? then retained.value else since)
  }

  // ---- what is retained --------------------------------------------------

  /** A diff observed at or after the last prune is still fully logged. */
  ghost predicate Retained(rows: set<Row>, saved: seq<Diff>, retained: Option<int>) {
    forall d :: d in saved && (retained.Some? ==> retained.value <= d.observed) ==> RowsOf(d) <= rows
  }

  // ---- how the log and the snapshots fit together ------------------------

  /** Snapshots in order of creation, none newer than the clock. */
  ghost predicate Ascending(s: seq<Snapshot>, nextId: nat, clock: int) {
    && (forall i, j :: 0 <= i < j < |s| ==> s[i].created < s[j].created && s[i].id != s[j].id)
    && (forall x :: x in s ==> x.id < nextId && x.created <= clock)
  }

  ghost predicate HasDiffTo(saved: seq<Diff>, s: Snapshot) {
    exists d :: d in saved && d.toId == s.id && d.observed == s.created
  }

  /** The log began at or before its first diff and strictly before the later
      ones; a diff to a surviving snapshot was observed when that was taken;
      and none was saved by a scan that was cut off. */
  ghost predicate DiffsFollow(snapshots: seq<Snapshot>, saved: seq<Diff>, since: Option<int>, cut: set<nat>,
                              nextId: nat, clock: int) {
    && (since.None? <==> saved == [])
    && (saved != [] ==> since.value <= saved[0].observed)
    && (forall k :: 0 < k < |saved| ==> since.value < saved[k].observed)
    && (forall d :: d in saved ==> d.toId < nextId && d.toId !in cut && d.observed <= clock)
    && (forall id :: id in cut ==> id < nextId)
    && (forall d, s :: d in saved && s in snapshots && d.toId == s.id ==> d.observed == s.created)
  }

  /** Each surviving snapshot after the log began that still has an older one
      has its diff, unless its scan was cut off. */
  ghost predicate NoneSkipped(snapshots: seq<Snapshot>, saved: seq<Diff>, since: Option<int>, cut: set<nat>) {
    since.Some? ==> forall s, t :: s in snapshots && t in snapshots && t.created < s.created && since.value < s.created ==>
      HasDiffTo(saved, s) || s.id in cut
  }

  ghost predicate Fits(snapshots: seq<Snapshot>, saved: seq<Diff>, since: Option<int>, cut: set<nat>, nextId: nat,
                       clock: int) {
    && Ascending(snapshots, nextId, clock)
    && DiffsFollow(snapshots, saved, since, cut, nextId, clock)
    && NoneSkipped(snapshots, saved, since, cut)
  }

  lemma AscendingLast(snapshots: seq<Snapshot>, nextId: nat, clock: int, created: int)
    requires Ascending(snapshots, nextId, clock) && clock < created
    ensures Ascending(snapshots + [Snapshot(nextId, created)], nextId + 1, created)
    ensures forall x :: x in snapshots ==> x.created <= snapshots[|snapshots| - 1].created
  {
    var snapshots' := snapshots + [Snapshot(nextId, created)];
    forall i, j | 0 <= i < j < |snapshots'|
      ensures snapshots'[i].created < snapshots'[j].created && snapshots'[i].id != snapshots'[j].id
    {
      assert snapshots'[i] in snapshots;
    }
  }

  lemma ScanFollows(snapshots: seq<Snapshot>, saved: seq<Diff>, since: Option<int>, cut: set<nat>, nextId: nat,
                    clock: int,
                    created: int, d: Diff, start: int)
    requires Fits(snapshots, saved, since, cut, nextId, clock) && clock < created && snapshots != []
    requires d.toId == nextId && d.observed == created
    requires start == snapshots[|snapshots| - 1].created || start == created
    ensures DiffsFollow(snapshots + [Snapshot(nextId, created)], saved + [d], if since.Some? then since else Some(start),
                        cut, nextId + 1, created)
  {
    assert snapshots[|snapshots| - 1] in snapshots;
    assert forall e :: e in saved + [d] ==> e in saved || e == d;
    if saved != [] {
      assert saved[0] in saved;
    }
  }

  lemma ScanFits(snapshots: seq<Snapshot>, saved: seq<Diff>, since: Option<int>, cut: set<nat>, nextId: nat, clock: int,
                 created: int, d: Diff, start: int)
    requires Fits(snapshots, saved, since, cut, nextId, clock) && clock < created && snapshots != []
    requires d.toId == nextId && d.observed == created
    requires start == snapshots[|snapshots| - 1].created || start == created
    ensures Fits(snapshots + [Snapshot(nextId, created)], saved + [d], if since.Some? then since else Some(start),
                 cut, nextId + 1, created)
  {
    var snapshots', saved' := snapshots + [Snapshot(nextId, created)], saved + [d];
    var since' := if since.Some? then since else Some(start);
    AscendingLast(snapshots, nextId, clock, created);
    ScanFollows(snapshots, saved, since, cut, nextId, clock, created, d, start);
    forall s, t | s in snapshots' && t in snapshots' && t.created < s.created && since'.value < s.created
      ensures HasDiffTo(saved', s) || s.id in cut
    {
      if s in snapshots {
        SkipsNoOld(snapshots, saved, since, cut, d, s, t);
      } else {
        assert d in saved';
      }
    }
  }

  lemma SkipsNoOld(snapshots: seq<Snapshot>, saved: seq<Diff>, since: Option<int>, cut: set<nat>, d: Diff,
                   s: Snapshot, t: Snapshot)
    requires NoneSkipped(snapshots, saved, since, cut) && s in snapshots && t in snapshots && t.created < s.created
    requires since.Some? && since.value < s.created
    ensures HasDiffTo(saved + [d], s) || s.id in cut
  {
    if s.id !in cut {
      var e :| e in saved && e.toId == s.id && e.observed == s.created;
      assert e in saved + [d];
    }
  }

  /** A snapshot without a diff: the first one, or one whose scan was cut off. */
  lemma SnapshotFits(snapshots: seq<Snapshot>, saved: seq<Diff>, since: Option<int>, cut: set<nat>, nextId: nat,
                     clock: int,
                     created: int, cut': set<nat>)
    requires Fits(snapshots, saved, since, cut, nextId, clock) && clock < created
    requires cut' == cut + {nextId} || (cut' == cut && snapshots == [])
    ensures Fits(snapshots + [Snapshot(nextId, created)], saved, since, cut', nextId + 1, created)
  {
    var snapshots' := snapshots + [Snapshot(nextId, created)];
    AscendingLast(snapshots, nextId, clock, created);
    forall s, t | since.Some? && s in snapshots' && t in snapshots' && t.created < s.created && since.value < s.created
      ensures HasDiffTo(saved, s) || s.id in cut'
    {
      if s in snapshots {
        assert t in snapshots;
      }
    }
  }

  /** Those whose id is not in the set. */
  function Without(s: seq<Snapshot>, ids: set<nat>): seq<Snapshot> {
    if s == [] then []
    else
      var n := |s| - 1;
      Without(s[..n], ids) + (if s[n].id in ids then [] else [s[n]])
  }

  lemma {:induction false} WithoutHas(s: seq<Snapshot>, ids: set<nat>, x: Snapshot)
    ensures x in Without(s, ids) <==> x in s && x.id !in ids
    decreases |s|
  {
    if s != [] {
      var n := |s| - 1;
      WithoutHas(s[..n], ids, x);
      assert s == s[..n] + [s[n]];
    }
  }

  lemma {:induction false} WithoutKeepsOrder(s: seq<Snapshot>, ids: set<nat>)
    requires forall i, j :: 0 <= i < j < |s| ==> s[i].created < s[j].created && s[i].id != s[j].id
    ensures var r := Without(s, ids); forall i, j :: 0 <= i < j < |r| ==> r[i].created < r[j].created && r[i].id != r[j].id
    decreases |s|
  {
    if s != [] {
      var n := |s| - 1;
      WithoutKeepsOrder(s[..n], ids);
      var left := Without(s[..n], ids);
      forall i | 0 <= i < |left| ensures left[i].created < s[n].created && left[i].id != s[n].id {
        WithoutHas(s[..n], ids, left[i]);
        var j :| 0 <= j < n && s[..n][j] == left[i];
      }
    }
  }

  lemma DeleteFits(s: seq<Snapshot>, saved: seq<Diff>, since: Option<int>, cut: set<nat>, nextId: nat, clock: int,
                   ids: set<nat>)
    requires Fits(s, saved, since, cut, nextId, clock)
    ensures Fits(Without(s, ids), saved, since, cut, nextId, clock)
    ensures forall x :: x in Without(s, ids) <==> x in s && x.id !in ids
  {
    WithoutKeepsOrder(s, ids);
    forall x ensures x in Without(s, ids) <==> x in s && x.id !in ids {
      WithoutHas(s, ids, x);
    }
  }

  // ---- the connection ----------------------------------------------------

  /** One connection's snapshots, log and markers; `saved` is every diff ever
      saved, in order, `cut` the snapshots whose scan stopped before saving its
      diff, and `clock` the latest scan's time. */
  datatype Log = Log(snapshots: seq<Snapshot>, rows: set<Row>, since: Option<int>, retained: Option<int>, nextId: nat,
                     saved: seq<Diff>, cut: set<nat>, clock: int)

  ghost predicate Valid(l: Log) {
    Retained(l.rows, l.saved, l.retained) && Fits(l.snapshots, l.saved, l.since, l.cut, l.nextId, l.clock)
  }

  ghost function Saved(l: Log, d: Diff, source: Option<int>): Log {
    l.(rows := l.rows + RowsOf(d),
       since := if l.since.Some? then l.since else Some(if source.Some? then source.value else d.observed),
       saved := l.saved + [d])
  }

  ghost function Pruned(l: Log, before: int): Log {
    l.(retained := Some(if l.retained.Some? then Max(l.retained.value, before) else before),
       rows := (set r | r in l.rows && before <= r.observed))
  }

  ghost function Snapped(l: Log, created: int): Log {
    l.(snapshots := l.snapshots + [Snapshot(l.nextId, created)], nextId := l.nextId + 1, clock := created)
  }

  ghost function Scanned(l: Log, created: int, changes: set<string>, sourceGone: bool): Log {
    if l.snapshots == [] then Snapped(l, created)
    else
      var last := l.snapshots[|l.snapshots| - 1];
      Saved(Snapped(l, created), Diff(last.id, l.nextId, created, changes), if sourceGone then None else Some(last.created))
  }

  /** What happens to a connection's log. `Cut` is a scan that fails after it
      saved its snapshot and before it saved its diff. */
  datatype Step =
    | Scan(created: int, changes: set<string>, sourceGone: bool)
    | Cut(created: int)
    | Prune(before: int)
    | Delete(ids: set<nat>)

  ghost function Next(l: Log, step: Step): Log {
    match step
    case Scan(created, changes, sourceGone) => Scanned(l, created, changes, sourceGone)
    case Cut(created) => Snapped(l, created).(cut := l.cut + {l.nextId})
    case Prune(before) => Pruned(l, before)
    case Delete(ids) => l.(snapshots := Without(l.snapshots, ids))
  }

  /** Scans come in order of time; prunes and deletions whenever. */
  ghost predicate Enabled(l: Log, step: Step) { step.Scan? || step.Cut? ==> l.clock < step.created }

  lemma SavedRetained(l: Log, d: Diff, source: Option<int>)
    requires Retained(l.rows, l.saved, l.retained)
    ensures var l' := Saved(l, d, source); Retained(l'.rows, l'.saved, l'.retained)
  {
  }

  lemma PrunedRetained(l: Log, before: int)
    requires Retained(l.rows, l.saved, l.retained)
    ensures var l' := Pruned(l, before); Retained(l'.rows, l'.saved, l'.retained)
  {
  }

  lemma ScanKeepsLog(l: Log, created: int, changes: set<string>, sourceGone: bool)
    requires Valid(l) && l.clock < created && l.snapshots != []
    ensures Valid(Scanned(l, created, changes, sourceGone))
  {
    var last := l.snapshots[|l.snapshots| - 1];
    var d, source := Diff(last.id, l.nextId, created, changes), if sourceGone then None else Some(last.created);
    var start := if sourceGone then created else last.created;
    var l' := Scanned(l, created, changes, sourceGone);
    assert Retained(l'.rows, l'.saved, l'.retained) by {
      SavedRetained(l, d, source);
    }
    assert l'.saved == l.saved + [d] && l'.snapshots == l.snapshots + [Snapshot(l.nextId, created)];
    assert l'.since == if l.since.Some? then l.since else Some(start);
    ScanFits(l.snapshots, l.saved, l.since, l.cut, l.nextId, l.clock, created, d, start);
  }

  /** Every step keeps the log valid: what it claims to cover is there. */
  lemma StepKeepsLog(l: Log, step: Step)
    requires Valid(l) && Enabled(l, step)
    ensures Valid(Next(l, step))
  {
    match step
    case Scan(created, changes, sourceGone) =>
      if l.snapshots == [] {
        SnapshotFits(l.snapshots, l.saved, l.since, l.cut, l.nextId, l.clock, created, l.cut);
      } else {
        ScanKeepsLog(l, created, changes, sourceGone);
      }
    case Cut(created) =>
      SnapshotFits(l.snapshots, l.saved, l.since, l.cut, l.nextId, l.clock, created, l.cut + {l.nextId});
    case Prune(before) => PrunedRetained(l, before);
    case Delete(ids) => DeleteFits(l.snapshots, l.saved, l.since, l.cut, l.nextId, l.clock, ids);
  }

  // ---- what the log holds ------------------------------------------------

  /** What each step does to the tables, row by row. */
  lemma StepExactly(l: Log, step: Step)
    ensures var l' := Next(l, step);
            match step
            case Scan(created, changes, sourceGone) =>
              && l'.snapshots == l.snapshots + [Snapshot(l.nextId, created)] && l'.retained == l.retained && l'.cut == l.cut
              && (l.snapshots == [] ==> l'.saved == l.saved && l'.rows == l.rows && l'.since == l.since)
              && (l.snapshots != [] ==>
                    var last := l.snapshots[|l.snapshots| - 1];
                    && l'.saved == l.saved + [Diff(last.id, l.nextId, created, changes)]
                    && (l.since.Some? ==> l'.since == l.since)
                    && (l.since.None? ==> l'.since == Some(if sourceGone then created else last.created))
                    && (forall r :: r in l'.rows <==>
                          r in l.rows || (r.fromId == last.id && r.toId == l.nextId && r.observed == created && r.change in changes)))
            case Cut(created) =>
              && l'.snapshots == l.snapshots + [Snapshot(l.nextId, created)] && l'.cut == l.cut + {l.nextId}
              && l'.saved == l.saved && l'.rows == l.rows && l'.since == l.since && l'.retained == l.retained
            case Prune(before) =>
              && l'.retained.Some? && before <= l'.retained.value
              && (l.retained.Some? ==> l.retained.value <= l'.retained.value)
              && (l'.retained.value == before || l'.retained == l.retained)
              && (forall r :: r in l'.rows <==> r in l.rows && before <= r.observed)
              && l'.snapshots == l.snapshots && l'.saved == l.saved && l'.since == l.since && l'.cut == l.cut
            case Delete(ids) =>
              && (forall s :: s in l'.snapshots <==> s in l.snapshots && s.id !in ids)
              && l'.rows == l.rows && l'.saved == l.saved && l'.since == l.since && l'.retained == l.retained && l'.cut == l.cut
  {
    if step.Delete? {
      forall s ensures s in Next(l, step).snapshots <==> s in l.snapshots && s.id !in step.ids {
        WithoutHas(l.snapshots, step.ids, s);
      }
    }
  }

  /** A row of a saved diff. */
  ghost predicate OfDiff(saved: seq<Diff>, r: Row) {
    exists d :: d in saved && r.fromId == d.fromId && r.toId == d.toId && r.observed == d.observed && r.change in d.changes
  }

  /** The log holds the rows of all saved diffs from the last prune on, and no
      others. */
  ghost predicate HoldsExactly(l: Log) {
    forall r :: r in l.rows <==> OfDiff(l.saved, r) && (l.retained.Some? ==> l.retained.value <= r.observed)
  }

  lemma OneMoreDiff(saved: seq<Diff>, d: Diff, r: Row)
    ensures OfDiff(saved + [d], r) <==>
            OfDiff(saved, r) || (r.fromId == d.fromId && r.toId == d.toId && r.observed == d.observed && r.change in d.changes)
  {
    assert d in saved + [d];
    assert forall x :: x in saved ==> x in saved + [d];
  }

  lemma StepHolds(l: Log, step: Step)
    requires HoldsExactly(l)
    requires (step.Scan? || step.Cut?) && l.retained.Some? ==> l.retained.value <= step.created
    ensures HoldsExactly(Next(l, step))
  {
    StepExactly(l, step);
    if step.Scan? && l.snapshots != [] {
      var d := Diff(l.snapshots[|l.snapshots| - 1].id, l.nextId, step.created, step.changes);
      forall r ensures OfDiff(l.saved + [d], r) <==>
        OfDiff(l.saved, r) || (r.fromId == d.fromId && r.toId == d.toId && r.observed == d.observed && r.change in d.changes)
      {
        OneMoreDiff(l.saved, d, r);
      }
    }
  }

  ghost predicate Possible(l: Log, steps: seq<Step>)
    decreases |steps|
  {
    steps == [] || (Enabled(l, steps[0]) && Possible(Next(l, steps[0]), steps[1..]))
  }

  ghost function Run(l: Log, steps: seq<Step>): Log
    decreases |steps|
  {
    if steps == [] then l else Run(Next(l, steps[0]), steps[1..])
  }

  /** A connection that may have been scanned before there was a log. */
  function Unlogged(older: seq<Snapshot>, nextId: nat, clock: int): Log { Log(older, {}, None, None, nextId, [], {},
                    clock) }

  /** From an empty log, over any order of scans, failed scans, empty diffs,
      prunes under growing or shrinking policies and deletions: every diff saved at or after
      the effective start is still fully in the log. */
  lemma {:induction false} CoverageIsTrue(l: Log, steps: seq<Step>)
    requires Valid(l) && Possible(l, steps)
    ensures Valid(Run(l, steps))
    ensures var l' := Run(l, steps);
            forall d :: d in l'.saved && Effective(l'.since.value, l'.retained) <= d.observed ==> RowsOf(d) <= l'.rows
    decreases |steps|
  {
    if steps != [] {
      StepKeepsLog(l, steps[0]);
      CoverageIsTrue(Next(l, steps[0]), steps[1..]);
    }
  }

  /** No snapshot is older than what was pruned before it was taken. */
  ghost predicate InOrder(l: Log, steps: seq<Step>)
    decreases |steps|
  {
    steps == [] || (((steps[0].Scan? || steps[0].Cut?) && l.retained.Some? ==> l.retained.value <= steps[0].created) &&
                    InOrder(Next(l, steps[0]), steps[1..]))
  }

  /** Over any order of scans, failed scans, prunes and deletions the log holds
      exactly the rows of the saved diffs that no prune has reached. */
  lemma {:induction false} LogHoldsExactly(l: Log, steps: seq<Step>)
    requires HoldsExactly(l) && InOrder(l, steps)
    ensures HoldsExactly(Run(l, steps))
    decreases |steps|
  {
    if steps != [] {
      StepHolds(l, steps[0]);
      LogHoldsExactly(Next(l, steps[0]), steps[1..]);
    }
  }

  class Connection {
    var snapshots: seq<Snapshot>
    var rows: set<Row>
    var logSince: Option<int>
    var retainedSince: Option<int>
    var nextId: nat
    ghost var saved: seq<Diff>
    ghost var cut: set<nat>
    ghost var clock: int

    constructor (older: seq<Snapshot>, nextId: nat, ghost clock: int)
      ensures State() == Unlogged(older, nextId, clock)
    {
      snapshots, this.nextId, this.clock := older, nextId, clock;
      rows, logSince, retainedSince, saved, cut := {}, None, None, [], {};
    }

    ghost function State(): Log
      reads this
    {
      Log(snapshots, rows, logSince, retainedSince, nextId, saved, cut, clock)
    }

    /** Persist one scan's diff. `source` is when the snapshot it was taken from
        was created, or None if that was deleted meanwhile. An empty diff still
        marks where the log begins. */
    method SaveChanges(fromId: nat, toId: nat, observed: int, changes: set<string>, source: Option<int>)
      modifies this`rows, this`logSince, this`saved
      ensures State() == Saved(old(State()), Diff(fromId, toId, observed, changes), source)
    {
      if logSince.None? {
        logSince := Some(if source.Some? then source.value else observed);
      }
      rows := rows + (set c | c in changes :: Row(fromId, toId, observed, c));
      saved := saved + [Diff(fromId, toId, observed, changes)];
    }

    /** Expire change rows; the boundary commits with them and only ever moves
        forward. */
    method PruneChanges(before: int)
      modifies this`rows, this`retainedSince
      ensures State() == Next(old(State()), Prune(before))
    {
      retainedSince := Some(if retainedSince.Some? then Max(retainedSince.value, before) else before);
      rows := (set r | r in rows && !(r.observed < before));
    }

    /** The part of a scan that snapshots and logs; `fails` when it stops
        between the two. */
    method Snap(created: int, changes: set<string>, sourceGone: bool, fails: bool)
      modifies this
      ensures State() == Next(old(State()), if fails then Cut(created) else Scan(created, changes, sourceGone))
    {
      var id := nextId;
      var previous := if snapshots == [] then None else Some(snapshots[|snapshots| - 1]);
      snapshots := snapshots + [Snapshot(id, created)];
      nextId, clock := nextId + 1, created;
      if fails {
        cut := cut + {id};
        return;
      }
      if previous.Some? {
        SaveChanges(previous.value.id, id, created, changes, if sourceGone then None else Some(previous.value.created));
      }
    }

    /** Retention or an operator deletes snapshots; the log outlives them. */
    method DeleteSnapshots(ids: set<nat>)
      modifies this`snapshots
      ensures State() == Next(old(State()), Delete(ids))
    {
      snapshots := Without(snapshots, ids);
    }
  }

  /** The consecutive pairs the feed recovers by diffing, newest first. */
  method PreLogPairs(snapshots: seq<Snapshot>, start: int, since: int) returns (pairs: seq<Pair>)
    requires forall i, j :: 0 <= i < j < |snapshots| ==> snapshots[i].created < snapshots[j].created
    ensures start <= since ==> pairs == []
    ensures start > since ==> exists n :: NewestUpTo(snapshots, start, n) && RecoveredFrom(snapshots, n, since, pairs)
  {
    pairs := [];
    if start <= since {
      return;
    }
    var n := |snapshots|;
    while n > 0 && snapshots[n - 1].created > start
      invariant 0 <= n <= |snapshots|
      invariant forall i :: n <= i < |snapshots| ==> snapshots[i].created > start
    {
      n := n - 1;
    }
    var k := n - 1;
    while k > 0 && !(snapshots[k].created < since)
      invariant k <= n - 1 && if n > 0 then 0 <= k else k == -1
      invariant |pairs| == n - 1 - k
      invariant forall j :: 0 <= j < |pairs| ==> pairs[j] == PairAt(snapshots, n - 1 - j) && since <= pairs[j].newer.created
    {
      pairs := pairs + [PairAt(snapshots, k)];
      k := k - 1;
    }
    assert NewestUpTo(snapshots, start, n);
    assert RecoveredFrom(snapshots, n, since, pairs);
  }

  /** A consecutive pair whose diff the feed recovers. */
  datatype Pair = Pair(older: Snapshot, newer: Snapshot)

  function PairAt(snapshots: seq<Snapshot>, i: int): Pair
    requires 0 < i < |snapshots|
  {
    Pair(snapshots[i - 1], snapshots[i])
  }

  /** The first n snapshots are those not after the log's start. */
  ghost predicate NewestUpTo(snapshots: seq<Snapshot>, start: int, n: int) {
    && 0 <= n <= |snapshots|
    && (forall i :: 0 <= i < n ==> snapshots[i].created <= start)
    && (forall i :: n <= i < |snapshots| ==> snapshots[i].created > start)
  }

  /** The pairs below n, newest first, as long as the newer one is in the
      window. */
  ghost predicate RecoveredFrom(snapshots: seq<Snapshot>, n: int, since: int, pairs: seq<Pair>)
    requires 0 <= n <= |snapshots|
  {
    && |pairs| <= Max(n - 1, 0)
    && (forall j :: 0 <= j < |pairs| ==> pairs[j] == PairAt(snapshots, n - 1 - j) && since <= pairs[j].newer.created)
    && (|pairs| < n - 1 ==> snapshots[n - 1 - |pairs|].created < since)
  }

  // ---- together they cover the window ------------------------------------

  ghost predicate Recovered(pairs: seq<Pair>, s: Snapshot) { exists p :: p in pairs && p.newer == s }

  /** A recovered pair's newer half is in the window and not after the start. */
  lemma RecoveredInside(snapshots: seq<Snapshot>, start: int, since: int, n: int, pairs: seq<Pair>, p: Pair)
    requires NewestUpTo(snapshots, start, n) && RecoveredFrom(snapshots, n, since, pairs) && p in pairs
    ensures since <= p.newer.created <= start
  {
    var j :| 0 <= j < |pairs| && pairs[j] == p;
    assert p.newer == snapshots[n - 1 - j];
  }

  /** A snapshot with an older one is the newer half of a recovered pair
      exactly when it is in the window and not after the log's start. */
  lemma RecoveredExactly(snapshots: seq<Snapshot>, nextId: nat, clock: int, start: int, since: int, n: int,
                         pairs: seq<Pair>, i: int)
    requires Ascending(snapshots, nextId, clock) && 0 < i < |snapshots|
    requires NewestUpTo(snapshots, start, n) && RecoveredFrom(snapshots, n, since, pairs)
    ensures Recovered(pairs, snapshots[i]) <==> since <= snapshots[i].created <= start
  {
    var s := snapshots[i];
    if p :| p in pairs && p.newer == s {
      RecoveredInside(snapshots, start, since, n, pairs, p);
    }
    if since <= s.created <= start {
      var j := n - 1 - i;
      if |pairs| < n - 1 {
        OlderThan(snapshots, nextId, clock, n - 1 - |pairs|, since);
      }
      assert pairs[j].newer == s && pairs[j] in pairs;
    }
  }

  lemma OlderThan(snapshots: seq<Snapshot>, nextId: nat, clock: int, low: int, since: int)
    requires Ascending(snapshots, nextId, clock) && 0 <= low < |snapshots| && snapshots[low].created < since
    ensures forall i :: 0 <= i <= low ==> snapshots[i].created < since
  {
  }

  /** The diff to the snapshot was saved, and all its rows are still there. */
  ghost predicate Logged(l: Log, s: Snapshot) {
    HasDiffTo(l.saved, s) && forall d :: d in l.saved && d.toId == s.id ==> RowsOf(d) <= l.rows
  }

  /** The transition to a snapshot of the window that has an older one is told,
      recovered or logged with all its rows, exactly when the window reaches
      behind the effective start and the snapshot is not after that; or it is
      after the log's start and its scan was not cut off; or the log was started
      by the diff to it. So what is missed is a snapshot too late to be recovered
      whose scan was cut off, or the very snapshot the log started from, at the
      very first instant of the window. Where no prune has reached the window, and none does when it is
      a day long and diffs are kept for a day at least, a transition is told
      twice only when the log was started by a diff to it whose source had been
      deleted. */
  lemma EachTransitionIsTold(l: Log, since: int, n: int, pairs: seq<Pair>, i: int)
    requires Valid(l) && l.since.Some?
    requires 0 < i < |l.snapshots| && since <= l.snapshots[i].created
    requires var start := Effective(l.since.value, l.retained);
             if start <= since then pairs == []
             else NewestUpTo(l.snapshots, start, n) && RecoveredFrom(l.snapshots, n, since, pairs)
    ensures var s, start := l.snapshots[i], Effective(l.since.value, l.retained);
            && (Recovered(pairs, s) || Logged(l, s) <==>
                  || (since < start && s.created <= start)
                  || (l.since.value < s.created && s.id !in l.cut)
                  || (l.since.value == s.created && l.saved[0].toId == s.id))
            && (Recovered(pairs, s) && HasDiffTo(l.saved, s) && (l.retained.Some? ==> l.retained.value <= since) ==>
                  l.saved[0].toId == s.id && l.since.value == l.saved[0].observed)
  {
    var s := l.snapshots[i];
    var start := Effective(l.since.value, l.retained);
    assert l.snapshots[0] in l.snapshots && s in l.snapshots && l.snapshots[0].created < s.created;
    assert l.saved[0] in l.saved;
    if HasDiffTo(l.saved, s) {
      var d :| d in l.saved && d.toId == s.id && d.observed == s.created;
      var k :| 0 <= k < |l.saved| && l.saved[k] == d;
      assert s.created == l.since.value ==> k == 0;
    }
    if start > since {
      RecoveredExactly(l.snapshots, l.nextId, l.clock, start, since, n, pairs, i);
    }
  }
}
