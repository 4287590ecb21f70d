/** Retention applied again and again as snapshots arrive and age. */
module RetentionRuns {
  import opened Basics
  import opened Retention

  /** Applying the rule again at the same time removes nothing. */
  lemma RerunRemovesNothing(rows: set<Snapshot>, p: Policy, at: int, day: DayMark)
    ensures Survivors(Survivors(rows, p, at, day), p, at, day) == Survivors(rows, p, at, day)
  {
    var once := Survivors(rows, p, at, day);
    forall s | s in once ensures Kept(once, s, p, at, day) {
      assert Kept(rows, s, p, at, day);
    }
  }

  // ---- how many hourly snapshots survive ---------------------------------

  lemma {:induction false} InjectiveIntoRange(s: set<Snapshot>, f: Snapshot -> int, lo: int, hi: int)
    requires lo <= hi + 1
    requires forall x :: x in s ==> lo <= f(x) <= hi
    requires forall x, y :: x in s && y in s && f(x) == f(y) ==> x == y
    ensures |s| <= hi - lo + 1
    decreases hi - lo + 1
  {
    if hi < lo {
      assert s == {};
    } else if x :| x in s && f(x) == hi {
      InjectiveIntoRange(s - {x}, f, lo, hi - 1);
    } else {
      InjectiveIntoRange(s, f, lo, hi - 1);
    }
  }

  function MarkIndex(t: int): int { NearestMark(t) / HOUR }

  lemma MarkIndexOf(t: int)
    ensures NearestMark(t) == MarkIndex(t) * HOUR
    ensures MarkIndex(t) == (t + HOUR / 2) / HOUR
  {
  }

  /** At most one snapshot an hour survives the hourly tier, plus one for the
      tier's two half-open ends. */
  lemma HourlySurvivorsBounded(rows: set<Snapshot>, p: Policy, at: int, day: DayMark)
    requires Ordered(p)
    ensures |set s | s in Survivors(rows, p, at, day) && TierOf(s.created, p, at) == Hourly|
            <= 24 * (p.hourlyDays - p.recentDays) + 1
  {
    var hourly := set s | s in Survivors(rows, p, at, day) && TierOf(s.created, p, at) == Hourly;
    var first, last := at - p.hourlyDays * DAY, at - p.recentDays * DAY;
    MarkIndexOf(first);
    MarkIndexOf(last);
    assert last + HOUR / 2 == first + HOUR / 2 + 24 * (p.hourlyDays - p.recentDays) * HOUR;
    assert MarkIndex(last) == MarkIndex(first) + 24 * (p.hourlyDays - p.recentDays);
    forall s | s in hourly ensures MarkIndex(first) <= MarkIndex(s.created) <= MarkIndex(last) {
      MarkIndexOf(s.created);
      assert first + HOUR / 2 <= s.created + HOUR / 2 <= last + HOUR / 2;
    }
    forall s, t | s in hourly && t in hourly && MarkIndex(s.created) == MarkIndex(t.created) ensures s == t {
      MarkIndexOf(s.created);
      MarkIndexOf(t.created);
      assert SameGroup(s, t, p, at, day) && SameGroup(t, s, p, at, day);
      PrecedesTotal(s, t, NearestMark(s.created));
    }
    InjectiveIntoRange(hourly, (s: Snapshot) => MarkIndex(s.created), MarkIndex(first), MarkIndex(last));
  }

  // ---- the hourly tier does not depend on when it ran --------------------

  /** Snapshots that arrived since the last pass, and the pass's time. */
  datatype Pass = Pass(arrived: set<Snapshot>, at: int)

  /** What is left after all passes. */
  ghost function Store(passes: seq<Pass>, p: Policy, day: DayMark): set<Snapshot>
    decreases |passes|
  {
    if passes == [] then {}
    else
      var last := passes[|passes| - 1];
      Survivors(Store(passes[..|passes| - 1], p, day) + last.arrived, p, last.at, day)
  }

  /** Every snapshot ever taken. */
  ghost function Taken(passes: seq<Pass>): set<Snapshot>
    decreases |passes|
  {
    if passes == [] then {} else Taken(passes[..|passes| - 1]) + passes[|passes| - 1].arrived
  }

  ghost predicate Ascending(passes: seq<Pass>) {
    forall i, j :: 0 <= i < j < |passes| ==> passes[i].at <= passes[j].at
  }

  lemma {:induction false} StoreWasTaken(passes: seq<Pass>, p: Policy, day: DayMark)
    ensures Store(passes, p, day) <= Taken(passes)
    decreases |passes|
  {
    if passes != [] {
      StoreWasTaken(passes[..|passes| - 1], p, day);
    }
  }

  /** After any passes nothing is left that had reached the daily age by the last
      one, and nothing is gone that was taken and is still recent. */
  lemma {:induction false} StoreByAge(passes: seq<Pass>, p: Policy, day: DayMark, s: Snapshot)
    requires Ordered(p) && Ascending(passes) && passes != []
    ensures s in Store(passes, p, day) ==> passes[|passes| - 1].at - s.created < p.dailyDays * 86_400_000_000
    ensures s in Taken(passes) && passes[|passes| - 1].at - s.created < p.recentDays * 86_400_000_000 ==> s in Store(passes, p, day)
    decreases |passes|
  {
    var n := |passes| - 1;
    if n > 0 {
      var before := passes[..n];
      assert before[n - 1] == passes[n - 1] && passes[n - 1].at <= passes[n].at;
      StoreByAge(before, p, day, s);
      assert s in Taken(before) && passes[n].at - s.created < p.recentDays * 86_400_000_000 ==> s in Store(before, p, day);
    }
    assert n == 0 ==> passes[..n] == [];
    var rows := Store(passes[..n], p, day) + passes[n].arrived;
    if s in rows {
      SurvivorsByAge(rows, p, passes[n].at, day, s);
    } else {
      assert s !in Taken(passes[..n]) || !(passes[n].at - s.created < p.recentDays * 86_400_000_000);
      assert s !in passes[n].arrived;
    }
  }

  /** First among all taken snapshots of its hour mark. */
  ghost predicate FirstOfMark(all: set<Snapshot>, s: Snapshot) {
    forall t :: t in all && t != s && NearestMark(t.created) == NearestMark(s.created) ==>
      Precedes(s, t, NearestMark(s.created))
  }

  /** The first of its mark is never removed before the daily tier reaches it. */
  lemma {:induction false} FirstOfMarkSurvives(passes: seq<Pass>, p: Policy, day: DayMark, s: Snapshot, now: int)
    requires Ordered(p) && s in Taken(passes) && FirstOfMark(Taken(passes), s)
    requires forall i :: 0 <= i < |passes| ==> passes[i].at <= now
    requires now - s.created < p.hourlyDays * DAY
    ensures s in Store(passes, p, day)
    decreases |passes|
  {
    var n := |passes| - 1;
    var earlier, last := passes[..n], passes[n];
    if s in Taken(earlier) {
      FirstOfMarkSurvives(earlier, p, day, s, now);
    }
    StoreWasTaken(earlier, p, day);
    assert last.at <= now;
    assert p.hourlyDays * DAY <= p.dailyDays * DAY;
    assert TierOf(s.created, p, last.at) == Recent || TierOf(s.created, p, last.at) == Hourly;
    assert s in Store(earlier, p, day) + last.arrived;
    assert Kept(Store(earlier, p, day) + last.arrived, s, p, last.at, day);
  }

  lemma {:induction false} FirstExists(group: set<Snapshot>, mark: int) returns (s: Snapshot)
    requires group != {}
    ensures s in group && forall t :: t in group && t != s ==> Precedes(s, t, mark)
    decreases |group|
  {
    var x := Inhabited(group);
    var rest := group - {x};
    if rest == {} {
      s := x;
      assert group == {x};
    } else {
      var y := FirstExists(rest, mark);
      PrecedesTotal(x, y, mark);
      s := if Precedes(x, y, mark) then x else y;
      forall t | t in group && t != s ensures Precedes(s, t, mark) {
        if s == x && t != y {
          PrecedesTransitive(x, y, t, mark);
        }
      }
    }
  }

  /** The snapshots of one hour mark. */
  ghost function OfMark(rows: set<Snapshot>, mark: int): set<Snapshot> {
    set s | s in rows && NearestMark(s.created) == mark
  }

  /** However the passes were spread over time, an hour mark all of whose
      snapshots are in the hourly tier ends with the survivor that a single
      pass over every snapshot ever taken would choose. */
  lemma HourlyTierIsPathIndependent(passes: seq<Pass>, p: Policy, day: DayMark, mark: int)
    requires Ordered(p) && passes != [] && Ascending(passes)
    requires forall s :: s in OfMark(Taken(passes), mark) ==> TierOf(s.created, p, passes[|passes| - 1].at) == Hourly
    ensures OfMark(Store(passes, p, day), mark) == OfMark(Survivors(Taken(passes), p, passes[|passes| - 1].at, day), mark)
  {
    var n := |passes| - 1;
    var last, all := passes[n], Taken(passes);
    StoreWasTaken(passes, p, day);
    var group := OfMark(all, mark);
    if group == {} {
      assert forall s :: s in OfMark(Store(passes, p, day), mark) ==> s in group;
      assert forall s :: s in OfMark(Survivors(all, p, last.at, day), mark) ==> s in group;
    } else {
      var s := FirstExists(group, mark);
      assert FirstOfMark(all, s);
      FirstOfMarkSurvives(passes, p, day, s, last.at);
      OnlyFirst(all, all, s, p, last.at, day, mark);
      StoreWasTaken(passes[..n], p, day);
      OnlyFirst(Store(passes[..n], p, day) + last.arrived, all, s, p, last.at, day, mark);
    }
  }

  /** Of a mark whose snapshots are all hourly, a pass over rows that still
      have its first keeps the first and nothing else. */
  lemma OnlyFirst(rows: set<Snapshot>, all: set<Snapshot>, s: Snapshot, p: Policy, at: int, day: DayMark, mark: int)
    requires rows <= all && s in rows && FirstOfMark(all, s) && NearestMark(s.created) == mark
    requires forall t :: t in OfMark(all, mark) ==> TierOf(t.created, p, at) == Hourly
    ensures OfMark(Survivors(rows, p, at, day), mark) == {s}
  {
    assert s in OfMark(all, mark);
    assert Kept(rows, s, p, at, day);
    forall t | t in OfMark(Survivors(rows, p, at, day), mark) ensures t == s {
      assert t in OfMark(all, mark);
      if t != s {
        assert SameGroup(t, s, p, at, day);
        PrecedesTotal(s, t, mark);
      }
    }
  }

  // ---- the daily tier does -----------------------------------------------

  /** First among all taken snapshots of its local day. */
  ghost predicate FirstOfDay(all: set<Snapshot>, s: Snapshot, day: DayMark) {
    forall t :: t in all && t != s && day(t.created) == day(s.created) ==> Precedes(s, t, day(s.created))
  }

  /** No pass so far finds it in the hourly tier. */
  ghost predicate NeverHourly(passes: seq<Pass>, p: Policy, s: Snapshot) {
    forall i :: 0 <= i < |passes| ==> TierOf(s.created, p, passes[i].at) != Hourly
  }

  lemma KeptAsFirst(rows: set<Snapshot>, all: set<Snapshot>, s: Snapshot, p: Policy, at: int, day: DayMark)
    requires Ordered(p) && rows <= all && FirstOfDay(all, s, day)
    requires FirstOfMark(all, s) || TierOf(s.created, p, at) != Hourly
    requires at - s.created < p.dailyDays * DAY
    ensures Kept(rows, s, p, at, day)
  {
    assert p.recentDays * DAY <= p.hourlyDays * DAY <= p.dailyDays * DAY;
  }

  /** The first of its day is never removed before the daily age, if it is also
      the first of its hour mark or the hourly tier never sees it. */
  lemma {:induction false} FirstOfDaySurvives(passes: seq<Pass>, p: Policy, day: DayMark, s: Snapshot, now: int)
    requires Ordered(p) && s in Taken(passes) && FirstOfDay(Taken(passes), s, day)
    requires FirstOfMark(Taken(passes), s) || NeverHourly(passes, p, s)
    requires forall i :: 0 <= i < |passes| ==> passes[i].at <= now
    requires now - s.created < p.dailyDays * DAY
    ensures s in Store(passes, p, day)
    decreases |passes|
  {
    var n := |passes| - 1;
    var earlier, last := passes[..n], passes[n];
    if s in Taken(earlier) {
      FirstOfDaySurvives(earlier, p, day, s, now);
    }
    StoreWasTaken(earlier, p, day);
    assert last.at <= now;
    KeptAsFirst(Store(earlier, p, day) + last.arrived, Taken(passes), s, p, last.at, day);
  }

  /** Pass i finds every snapshot of the mark in the hourly tier, and none of
      them arrives later. */
  ghost predicate SeenWhole(passes: seq<Pass>, i: nat, mark: int, p: Policy) {
    i < |passes| && forall s :: s in OfMark(Taken(passes), mark) ==>
      && s in Taken(passes[..i + 1]) && TierOf(s.created, p, passes[i].at) == Hourly
      && forall j :: i < j < |passes| ==> s !in passes[j].arrived
  }

  lemma {:induction false} TakenGrows(passes: seq<Pass>, n: nat)
    requires n <= |passes|
    ensures Taken(passes[..n]) <= Taken(passes)
    decreases |passes|
  {
    if n < |passes| {
      var m := |passes| - 1;
      TakenGrows(passes[..m], n);
      assert passes[..m][..n] == passes[..n];
    } else {
      assert passes[..n] == passes;
    }
  }

  lemma {:induction false} GoneStaysGone(passes: seq<Pass>, n: nat, p: Policy, day: DayMark, s: Snapshot)
    requires n <= |passes| && s !in Store(passes[..n], p, day)
    requires forall j :: n <= j < |passes| ==> s !in passes[j].arrived
    ensures s !in Store(passes, p, day)
    decreases |passes|
  {
    if n < |passes| {
      var m := |passes| - 1;
      assert passes[..m][..n] == passes[..n];
      GoneStaysGone(passes[..m], n, p, day, s);
    } else {
      assert passes[..n] == passes;
    }
  }

  /** A snapshot that is not the first of its mark is gone after a pass that
      finds the whole mark in the hourly tier. */
  lemma OthersOfMarkGo(passes: seq<Pass>, i: nat, p: Policy, day: DayMark, s: Snapshot)
    requires Ordered(p) && Ascending(passes) && s in Taken(passes) && !FirstOfMark(Taken(passes), s)
    requires SeenWhole(passes, i, NearestMark(s.created), p)
    ensures s !in Store(passes, p, day)
  {
    var mark := NearestMark(s.created);
    var sofar := passes[..i + 1];
    TakenGrows(passes, i + 1);
    assert OfMark(Taken(sofar), mark) == OfMark(Taken(passes), mark);
    HourlyTierIsPathIndependent(sofar, p, day, mark);
    var t :| t in Taken(passes) && t != s && NearestMark(t.created) == mark && !Precedes(s, t, mark);
    assert s in OfMark(Taken(passes), mark) && t in OfMark(Taken(passes), mark);
    assert SameGroup(s, t, p, passes[i].at, day);
    assert !Kept(Taken(sofar), s, p, passes[i].at, day);
    assert s !in OfMark(Store(sofar, p, day), mark);
    GoneStaysGone(passes, i + 1, p, day, s);
  }

  /** The snapshots of one local day. */
  ghost function OfDay(rows: set<Snapshot>, d: int, day: DayMark): set<Snapshot> {
    set s | s in rows && day(s.created) == d
  }

  lemma OnlyFirstOfDay(rows: set<Snapshot>, all: set<Snapshot>, s: Snapshot, p: Policy, at: int, day: DayMark)
    requires rows <= all && s in rows && FirstOfDay(all, s, day)
    requires forall t :: t in OfDay(all, day(s.created), day) ==> TierOf(t.created, p, at) == Daily
    ensures OfDay(Survivors(rows, p, at, day), day(s.created), day) == {s}
  {
    var d := day(s.created);
    assert s in OfDay(all, d, day);
    assert Kept(rows, s, p, at, day);
    forall t | t in OfDay(Survivors(rows, p, at, day), d, day) ensures t == s {
      assert t in OfDay(all, d, day);
      if t != s {
        assert SameGroup(t, s, p, at, day);
        PrecedesTotal(s, t, d);
      }
    }
  }

  /** Over any run, let s be the snapshot nearest the midnight its day began
      with, among all ever taken, and let some pass have seen its whole hour
      mark in the hourly tier. The day ends with s, and with s alone once it is
      wholly in the daily tier, exactly when s was also the nearest to its hour
      mark; otherwise s is lost. */
  lemma DailyPromiseExactly(passes: seq<Pass>, p: Policy, day: DayMark, s: Snapshot, i: nat)
    requires Ordered(p) && Ascending(passes) && s in Taken(passes) && FirstOfDay(Taken(passes), s, day)
    requires SeenWhole(passes, i, NearestMark(s.created), p)
    requires forall t :: t in OfDay(Taken(passes), day(s.created), day) ==> TierOf(t.created, p, passes[|passes| - 1].at) == Daily
    ensures s in Store(passes, p, day) <==> FirstOfMark(Taken(passes), s)
    ensures OfDay(Store(passes, p, day), day(s.created), day) == {s} <==> FirstOfMark(Taken(passes), s)
  {
    if FirstOfMark(Taken(passes), s) {
      FirstOfBothIsAlone(passes, p, day, s);
    } else {
      OthersOfMarkGo(passes, i, p, day, s);
      assert s !in OfDay(Store(passes, p, day), day(s.created), day);
    }
  }

  lemma FirstOfBothIsAlone(passes: seq<Pass>, p: Policy, day: DayMark, s: Snapshot)
    requires Ordered(p) && Ascending(passes) && s in Taken(passes) && FirstOfDay(Taken(passes), s, day)
    requires FirstOfMark(Taken(passes), s)
    requires forall t :: t in OfDay(Taken(passes), day(s.created), day) ==> TierOf(t.created, p, passes[|passes| - 1].at) == Daily
    ensures OfDay(Store(passes, p, day), day(s.created), day) == {s} && s in Store(passes, p, day)
  {
    var n := |passes| - 1;
    var last := passes[n];
    assert s in OfDay(Taken(passes), day(s.created), day);
    FirstOfDaySurvives(passes, p, day, s, last.at);
    StoreWasTaken(passes[..n], p, day);
    OnlyFirstOfDay(Store(passes[..n], p, day) + last.arrived, Taken(passes), s, p, last.at, day);
  }

  // ---- when a mark is seen whole -----------------------------------------

  /** A snapshot arrives at the first pass after it was taken. */
  ghost predicate Timely(passes: seq<Pass>) {
    forall j, s :: 0 <= j < |passes| && s in passes[j].arrived ==>
      s.created <= passes[j].at && (j > 0 ==> passes[j - 1].at < s.created)
  }

  lemma {:induction false} TakenArrived(passes: seq<Pass>, s: Snapshot) returns (j: nat)
    requires s in Taken(passes)
    ensures j < |passes| && s in passes[j].arrived && s in Taken(passes[..j + 1])
    decreases |passes|
  {
    var n := |passes| - 1;
    if s in passes[n].arrived {
      j := n;
      assert passes[..n + 1] == passes;
    } else {
      j := TakenArrived(passes[..n], s);
      assert passes[..n][..j + 1] == passes[..j + 1];
    }
  }

  lemma {:induction false} FirstPassFrom(passes: seq<Pass>, t: int) returns (i: nat)
    requires passes != [] && t <= passes[|passes| - 1].at
    ensures i < |passes| && t <= passes[i].at && (i > 0 ==> passes[i - 1].at < t)
    decreases |passes|
  {
    var n := |passes| - 1;
    if n > 0 && t <= passes[n - 1].at {
      i := FirstPassFrom(passes[..n], t);
    } else {
      i := n;
    }
  }

  /** From half an hour after the mark entered the hourly tier until half an
      hour before it begins to leave. */
  lemma HourlyWhen(s: Snapshot, p: Policy, at: int, k: int)
    requires NearestMark(s.created) == k * HOUR
    requires k * HOUR + HOUR / 2 + p.recentDays * DAY <= at < k * HOUR - HOUR / 2 + p.hourlyDays * DAY
    requires p.hourlyDays <= p.dailyDays
    ensures s.created < k * HOUR + HOUR / 2 && TierOf(s.created, p, at) == Hourly
  {
    MarkIndexOf(s.created);
    assert p.hourlyDays * DAY <= p.dailyDays * DAY;
  }

  /** Passes no more than 23 hours apart see every mark whole while it is in the
      hourly tier, if there is one. */
  lemma RegularPassesSeeMarks(passes: seq<Pass>, p: Policy, k: int) returns (i: nat)
    requires Ordered(p) && p.recentDays < p.hourlyDays
    requires Ascending(passes) && Timely(passes) && passes != []
    requires forall j :: 0 < j < |passes| ==> passes[j].at - passes[j - 1].at <= 23 * HOUR
    requires passes[0].at <= k * HOUR + HOUR / 2 + p.recentDays * DAY <= passes[|passes| - 1].at
    ensures SeenWhole(passes, i, k * HOUR, p)
  {
    var mark := k * HOUR;
    var from := mark + HOUR / 2 + p.recentDays * DAY;
    i := FirstPassFrom(passes, from);
    assert passes[i].at < from + 23 * HOUR;
    assert p.hourlyDays * DAY - p.recentDays * DAY >= DAY;
    forall s | s in OfMark(Taken(passes), mark)
      ensures s in Taken(passes[..i + 1]) && TierOf(s.created, p, passes[i].at) == Hourly
      ensures forall j :: i < j < |passes| ==> s !in passes[j].arrived
    {
      HourlyWhen(s, p, passes[i].at, k);
      forall j | i < j < |passes| ensures s !in passes[j].arrived {
        assert passes[i].at <= passes[j - 1].at;
      }
      var j := TakenArrived(passes, s);
      TakenGrows(passes[..i + 1], j + 1);
      assert passes[..i + 1][..j + 1] == passes[..j + 1];
    }
  }

  lemma HourlyTierBehind(s: Snapshot, p: Policy, first: int, last: int, k: int)
    requires NearestMark(s.created) == k * HOUR && p.recentDays < p.hourlyDays
    requires first <= s.created + p.recentDays * DAY && TierOf(s.created, p, last) == Daily
    ensures first <= k * HOUR + HOUR / 2 + p.recentDays * DAY <= last
  {
    MarkIndexOf(s.created);
    assert p.recentDays * DAY + DAY <= p.hourlyDays * DAY;
  }

  /** In a run whose passes come at least every 23 hours, from the time s is
      recent, the snapshot nearest the midnight its day began with is what is
      left of its day exactly when it is also nearest its hour mark, or there
      is no hourly tier. */
  lemma RegularRunsKeepDays(passes: seq<Pass>, p: Policy, day: DayMark, s: Snapshot)
    requires Ordered(p) && Ascending(passes) && Timely(passes)
    requires forall j :: 0 < j < |passes| ==> passes[j].at - passes[j - 1].at <= 23 * HOUR
    requires s in Taken(passes) && FirstOfDay(Taken(passes), s, day)
    requires passes[0].at <= s.created + p.recentDays * DAY
    requires forall t :: t in OfDay(Taken(passes), day(s.created), day) ==> TierOf(t.created, p, passes[|passes| - 1].at) == Daily
    ensures s in Store(passes, p, day) <==> FirstOfMark(Taken(passes), s) || p.recentDays == p.hourlyDays
  {
    var last := passes[|passes| - 1].at;
    assert s in OfDay(Taken(passes), day(s.created), day);
    if p.recentDays == p.hourlyDays {
      FirstOfDaySurvives(passes, p, day, s, last);
    } else {
      var k := MarkIndex(s.created);
      MarkIndexOf(s.created);
      HourlyTierBehind(s, p, passes[0].at, last, k);
      var i := RegularPassesSeeMarks(passes, p, k);
      DailyPromiseExactly(passes, p, day, s, i);
    }
  }

  /** The hourly tier can take a day's only snapshot: ten to midnight loses to
      five past, whose day already has one, and the day ends with none. */
  lemma DayCanVanish() returns (rows: set<Snapshot>, p: Policy, day: DayMark, first: int, second: int, lost: Snapshot)
    ensures Ordered(p)
    ensures forall s :: s in rows ==> TierOf(s.created, p, first) == Hourly && TierOf(s.created, p, second) == Daily
    ensures lost in Survivors(rows, p, second, day)
    ensures forall s :: s in Survivors(Survivors(rows, p, first, day), p, second, day) ==> day(s.created) != day(lost.created)
  {
    var minute := 60_000_000;
    var a := Snapshot("a", DAY - 10 * minute);
    var b := Snapshot("b", DAY + 5 * minute);
    rows, p, day := {a, b}, Policy(1, 2, 9), (t: int) => t - t % DAY;
    first, second, lost := 2 * DAY + DAY / 2, 4 * DAY, a;
    assert NearestMark(a.created) == DAY && NearestMark(b.created) == DAY;
    assert SameGroup(a, b, p, first, day);
    assert Precedes(b, a, DAY) && !Precedes(a, b, DAY);
    assert !Kept(rows, a, p, first, day);
    assert day(a.created) == 0 && day(b.created) == DAY;
    assert !SameGroup(a, b, p, second, day);
  }
}
