/** The limiter over whole runs: password checks begin, end and are refused in
    any order, on any number of workers, with a clock that never steps back. */
module LimiterRuns {
  import opened Basics
  import opened LoginLimiter

  /** An admitted attempt. `streak` is the failure count its address reached,
      `afterSuccess` whether a success of the address had finished since its
      attempt before. */
  datatype Attempt = Attempt(ip: string, stamp: int, streak: nat, finished: bool, forgiven: bool, afterSuccess: bool)

  /** `succeeded`: the addresses a success of which finished since their latest
      attempt began. */
  datatype System = System(tables: Tables, history: seq<Attempt>, succeeded: set<string>, clock: int)

  datatype Action =
    | Begin(ip: string, now: int)
    | Check(ip: string, now: int)
    | Finish(attempt: nat, success: bool)

  /** Each admitted attempt finishes at most once, at any later time. */
  predicate Enabled(s: System, a: Action) {
    match a
    case Begin(_, now) => s.clock <= now
    case Check(_, now) => s.clock <= now
    case Finish(k, _) => k < |s.history| && !s.history[k].finished
  }

  function Next(s: System, a: Action): System
    requires Enabled(s, a)
  {
    match a
    case Begin(ip, now) =>
      var begun := BeginAttempt(s.tables, ip, now);
      var swept := Sweep(s.tables, now);
      var streak := if ip in swept.failures then swept.failures[ip].failures + 1 else 1;
      if begun.wait != 0 then s.(tables := begun.tables, clock := now)
      else System(begun.tables, s.history + [Attempt(ip, now, streak, false, false, ip in s.succeeded)], s.succeeded - {ip}, now)
    case Check(ip, now) => s.(tables := LoginBlocked(s.tables, ip, now).0, clock := now)
    case Finish(k, success) =>
      var h := s.history[k];
      System(FinishAttempt(s.tables, h.ip, h.stamp, success), Finished(s.history, k, success),
             if success then s.succeeded + {h.ip} else s.succeeded, s.clock)
  }

  function Start(clock: int): System { System(Tables(map[], [], 0, 0), [], {}, clock) }

  ghost predicate Possible(s: System, actions: seq<Action>)
    decreases |actions|
  {
    actions == [] || (Enabled(s, actions[0]) && Possible(Next(s, actions[0]), actions[1..]))
  }

  ghost function Run(s: System, actions: seq<Action>): System
    requires Possible(s, actions)
    decreases |actions|
  {
    if actions == [] then s else Run(Next(s, actions[0]), actions[1..])
  }

  /** What a run of the limiter remembers beside the tables. A check sweeps and
      counts nothing; so does an attempt that is refused. An admitted one is
      remembered with its stamp and the count its address reached, and can then
      finish; a success forgives it, and either way it finishes once. */
  lemma StepIs(s: System, a: Action)
    requires Enabled(s, a)
    ensures var s' := Next(s, a);
            match a
            case Check(ip, now) => s' == s.(tables := Sweep(s.tables, now), clock := now)
            case Begin(ip, now) =>
              var begun := BeginAttempt(s.tables, ip, now);
              var n := |s.history|;
              && s'.tables == begun.tables && s'.clock == now
              && (begun.wait != 0 ==> s'.tables == Sweep(s.tables, now) && s'.history == s.history && s'.succeeded == s.succeeded)
              && (begun.wait == 0 ==>
                    && |s'.history| == n + 1 && s'.history[..n] == s.history && s'.succeeded == s.succeeded - {ip}
                    && s'.history[n].ip == ip && s'.history[n].stamp == now && !s'.history[n].forgiven
                    && (s'.history[n].afterSuccess <==> ip in s.succeeded)
                    && (forall success :: Enabled(s', Finish(n, success))))
            case Finish(k, success) =>
              && s'.clock == s.clock && |s'.history| == |s.history|
              && (forall i :: 0 <= i < |s.history| && i != k ==> s'.history[i] == s.history[i])
              && s'.history[k].finished && (s'.history[k].forgiven <==> success)
              && s'.history[k].ip == s.history[k].ip && s'.history[k].stamp == s.history[k].stamp
              && s'.succeeded == (if success then s.succeeded + {s.history[k].ip} else s.succeeded)
              && (!success ==> s'.tables == s.tables)
              && (forall again :: !Enabled(s', Finish(k, again)))
  {
  }

  // ---- stamps ------------------------------------------------------------

  /** The stamps of the attempts not forgiven. */
  function Unforgiven(history: seq<Attempt>): seq<int> {
    if history == [] then []
    else
      var n := |history| - 1;
      Unforgiven(history[..n]) + (if history[n].forgiven then [] else [history[n].stamp])
  }

  /** Those in the window that starts at t. */
  function InWindow(stamps: seq<int>, t: int): seq<int> {
    if stamps == [] then []
    else
      var n := |stamps| - 1;
      InWindow(stamps[..n], t) + (if t <= stamps[n] < t + 60_000_000 then [stamps[n]] else [])
  }

  lemma {:induction false} InWindowCounts(stamps: seq<int>, t: int, x: int)
    ensures Count(InWindow(stamps, t), x) == if t <= x < t + GLOBAL_WINDOW then Count(stamps, x) else 0
    decreases |stamps|
  {
    if stamps != [] {
      var n := |stamps| - 1;
      InWindowCounts(stamps[..n], t, x);
      assert stamps == stamps[..n] + [stamps[n]];
      CountLast(stamps[..n], stamps[n], x);
      CountLast(InWindow(stamps[..n], t), stamps[n], x);
      assert InWindow(stamps[..n], t) + [] == InWindow(stamps[..n], t);
    }
  }

  lemma UnforgivenLast(history: seq<Attempt>, x: int)
    requires history != []
    ensures var h := history[|history| - 1];
            Count(Unforgiven(history), x) ==
            Count(Unforgiven(history[..|history| - 1]), x) + (if !h.forgiven && h.stamp == x then 1 else 0)
  {
    var h, rest := history[|history| - 1], Unforgiven(history[..|history| - 1]);
    CountLast(rest, h.stamp, x);
    assert rest + [] == rest;
  }

  /** Attempt k finishes. */
  function Finished(history: seq<Attempt>, k: nat, success: bool): seq<Attempt>
    requires k < |history|
  {
    history[k := history[k].(finished := true, forgiven := success)]
  }

  lemma {:induction false} UnforgivenConcat(a: seq<Attempt>, b: seq<Attempt>)
    ensures Unforgiven(a + b) == Unforgiven(a) + Unforgiven(b)
    decreases |b|
  {
    if b == [] {
      assert a + b == a;
    } else {
      var n := |b| - 1;
      UnforgivenConcat(a, b[..n]);
      assert (a + b)[..|a + b| - 1] == a + b[..n];
    }
  }

  lemma AroundOne(a: seq<Attempt>, h: Attempt, b: seq<Attempt>, x: int)
    ensures Count(Unforgiven(a + [h] + b), x) ==
            Count(Unforgiven(a), x) + (if !h.forgiven && h.stamp == x then 1 else 0) + Count(Unforgiven(b), x)
  {
    UnforgivenConcat(a + [h], b);
    CountConcat(Unforgiven(a + [h]), Unforgiven(b), x);
    UnforgivenLast(a + [h], x);
    assert (a + [h])[..|a|] == a;
  }

  lemma UnforgivenAfter(history: seq<Attempt>, k: nat, success: bool, x: int)
    requires k < |history| && !history[k].forgiven
    ensures Count(Unforgiven(Finished(history, k, success)), x) + (if success && x == history[k].stamp then 1 else 0) ==
            Count(Unforgiven(history), x)
  {
    var a, b := history[..k], history[k + 1..];
    var h := history[k];
    assert history == a + [h] + b;
    assert Finished(history, k, success) == a + [h.(finished := true, forgiven := success)] + b;
    AroundOne(a, h, b, x);
    AroundOne(a, h.(finished := true, forgiven := success), b, x);
  }

  lemma {:induction false} RemovalCounts(rows: seq<Stamp>, stamp: int, x: int)
    ensures var before, after := Count(Ats(rows), x), Count(Ats(WithoutYoungest(rows, stamp)), x);
            after == if x == stamp && before > 0 then before - 1 else before
    decreases |rows|
  {
    if rows != [] {
      var n := |rows| - 1;
      AtsLast(rows);
      CountLast(Ats(rows[..n]), rows[n].at, x);
      if rows[n].at != stamp {
        RemovalCounts(rows[..n], stamp, x);
        var rest := WithoutYoungest(rows[..n], stamp);
        AtsLast(rest + [rows[n]]);
        assert (rest + [rows[n]])[..|rest|] == rest;
        CountLast(Ats(rest), rows[n].at, x);
      }
    }
  }

  /** A success clears the address's own wait, gives back one stamp of its
      attempt, and leaves every other address and stamp alone. */
  lemma SuccessForgives(t: Tables, ip: string, stamp: int, now: int, x: int)
    ensures var t' := FinishAttempt(t, ip, stamp, true);
            var before := Count(Ats(t.window), x);
            && IpWait(t', ip, now) == 0
            && (forall q :: q != ip ==> IpWait(t', q, now) == IpWait(t, q, now))
            && Count(Ats(t'.window), x) == (if x == stamp && before > 0 then before - 1 else before)
  {
    RemovalCounts(t.window, stamp, x);
  }

  lemma {:induction false} AtsLast(rows: seq<Stamp>)
    requires rows != []
    ensures Ats(rows) == Ats(rows[..|rows| - 1]) + [rows[|rows| - 1].at]
  {
    var before := rows[..|rows| - 1];
    assert forall i :: 0 <= i < |before| ==> before[i] == rows[i];
  }

  lemma AscendsLast(rest: seq<Stamp>, r: Stamp)
    requires Ascends(rest) && forall q :: q in rest ==> q.id < r.id
    ensures Ascends(rest + [r])
  {
  }

  lemma {:induction false} RemovalIsSublist(rows: seq<Stamp>, stamp: int)
    requires Ascends(rows)
    ensures Sublist(WithoutYoungest(rows, stamp), rows) && Ascends(WithoutYoungest(rows, stamp))
    decreases |rows|
  {
    if rows != [] {
      var n := |rows| - 1;
      RemovalIsSublist(rows[..n], stamp);
      var rest := WithoutYoungest(rows[..n], stamp);
      forall r | r in rows[..n] ensures r in rows && r.id < rows[n].id {
        var i :| 0 <= i < n && rows[i] == r;
      }
      assert forall r :: r in rest ==> r in rows[..n];
      AscendsLast(rest, rows[n]);
    }
  }

  // ---- the ceiling -------------------------------------------------------

  /** The window table holds exactly the live, unforgiven stamps. */
  ghost predicate WindowMatches(s: System) {
    forall x :: Count(Ats(s.tables.window), x) ==
                if s.clock - x < GLOBAL_WINDOW then Count(Unforgiven(s.history), x) else 0
  }

  ghost predicate WindowInv(s: System) {
    && IdsAscend(s.tables)
    && |s.tables.window| <= GLOBAL_LIMIT
    && WindowMatches(s)
    && (forall h :: h in s.history ==> h.stamp <= s.clock && (h.forgiven ==> h.finished))
  }

  /** No minute holds more than thirty admitted attempts that were not forgiven. */
  ghost predicate Ceiling(s: System) {
    forall t: int :: |InWindow(Unforgiven(s.history), t)| <= 30
  }

  lemma SweptMatches(s: System, now: int)
    requires WindowInv(s) && s.clock <= now
    ensures WindowInv(s.(tables := Sweep(s.tables, now), clock := now))
  {
    SweepFacts(s.tables, now);
    forall x ensures Count(Ats(Sweep(s.tables, now).window), x) ==
                     if now - x < GLOBAL_WINDOW then Count(Unforgiven(s.history), x) else 0
    {
      SweepStamps(s.tables, now, x);
    }
  }

  lemma AdmittedHasRoom(t: Tables, ip: string, now: int)
    requires forall r :: r in t.window ==> now - r.at < GLOBAL_WINDOW
    requires Wait(t, ip, now) == 0
    ensures |t.window| < GLOBAL_LIMIT
  {
    assert t.window != [] ==> now - OldestAt(t.window) < GLOBAL_WINDOW by {
      if t.window != [] {
        var i :| 0 <= i < |t.window| && t.window[i].at == OldestAt(t.window);
        assert t.window[i] in t.window;
      }
    }
  }

  /** Counting right after a sweep adds one row and removes none. */
  lemma CountAddsOne(t: Tables, ip: string, now: int)
    requires |t.window| < GLOBAL_LIMIT
    requires forall r :: r in t.window ==> now - r.at < GLOBAL_WINDOW
    ensures CountFailure(t, ip, now).window == t.window + [Stamp(t.nextId, now)]
    ensures CountFailure(t, ip, now).nextId == t.nextId + 1
  {
    var rows := t.window + [Stamp(t.nextId, now)];
    forall i | 0 <= i < |rows| ensures InNewest(rows, rows[i], GLOBAL_LIMIT) && now - rows[i].at < GLOBAL_WINDOW {
      AllNewest(rows, i, GLOBAL_LIMIT);
      assert i < |t.window| ==> rows[i] in t.window;
    }
    LiveAll(rows, rows, now);
  }

  lemma BeginKeepsWindow(s: System, ip: string, now: int)
    requires WindowInv(s) && Ceiling(s) && s.clock <= now
    ensures WindowInv(Next(s, Begin(ip, now))) && Ceiling(Next(s, Begin(ip, now)))
  {
    var swept := s.(tables := Sweep(s.tables, now), clock := now);
    SweptMatches(s, now);
    SweepFacts(s.tables, now);
    var s' := Next(s, Begin(ip, now));
    if BeginAttempt(s.tables, ip, now).wait == 0 {
      var w := swept.tables.window;
      AdmittedHasRoom(swept.tables, ip, now);
      CountAddsOne(swept.tables, ip, now);
      AdmittedMatches(swept, s', s'.history[|s.history|], now);
      forall t: int ensures |InWindow(Unforgiven(s'.history), t)| <= GLOBAL_LIMIT {
        AdmittedUnderCeiling(swept, s'.history, now, t);
      }
    } else {
      assert s' == swept;
    }
  }

  lemma OneMoreRow(rows: seq<Stamp>, r: Stamp, x: int)
    ensures Count(Ats(rows + [r]), x) == Count(Ats(rows), x) + (if r.at == x then 1 else 0)
  {
    AtsLast(rows + [r]);
    assert (rows + [r])[..|rows|] == rows;
    CountLast(Ats(rows), r.at, x);
  }

  lemma AdmittedCounts(rows: seq<Stamp>, r: Stamp, history: seq<Attempt>, h: Attempt, x: int)
    requires r.at == h.stamp && !h.forgiven
    requires Count(Ats(rows), x) == if h.stamp - x < GLOBAL_WINDOW then Count(Unforgiven(history), x) else 0
    ensures Count(Ats(rows + [r]), x) == if h.stamp - x < GLOBAL_WINDOW then Count(Unforgiven(history + [h]), x) else 0
  {
    UnforgivenLast(history + [h], x);
    assert (history + [h])[..|history|] == history;
    OneMoreRow(rows, r, x);
  }

  lemma AdmittedMatches(swept: System, s': System, h: Attempt, now: int)
    requires WindowInv(swept) && swept.clock == now == s'.clock == h.stamp && |swept.tables.window| < GLOBAL_LIMIT
    requires s'.tables.window == swept.tables.window + [Stamp(swept.tables.nextId, now)]
    requires s'.tables.nextId == swept.tables.nextId + 1
    requires s'.history == swept.history + [h] && !h.forgiven
    ensures WindowInv(s')
  {
    var r := Stamp(swept.tables.nextId, now);
    forall x ensures Count(Ats(s'.tables.window), x) ==
                     if now - x < GLOBAL_WINDOW then Count(Unforgiven(s'.history), x) else 0
    {
      AdmittedCounts(swept.tables.window, r, swept.history, h, x);
    }
    assert WindowMatches(s');
    AscendsLast(swept.tables.window, r);
  }

  lemma AdmittedUnderCeiling(swept: System, history': seq<Attempt>, now: int, t: int)
    requires WindowInv(swept) && Ceiling(swept) && swept.clock == now && |swept.tables.window| < GLOBAL_LIMIT
    requires |history'| == |swept.history| + 1 && history'[..|swept.history|] == swept.history
    requires history'[|swept.history|].stamp == now && !history'[|swept.history|].forgiven
    ensures |InWindow(Unforgiven(history'), t)| <= GLOBAL_LIMIT
  {
    var before := Unforgiven(swept.history);
    assert Unforgiven(history') == before + [now];
    assert (before + [now])[..|before|] == before;
    if t <= now < t + GLOBAL_WINDOW {
      forall x ensures Count(InWindow(before, t), x) <= Count(Ats(swept.tables.window), x) {
        InWindowCounts(before, t, x);
      }
      FewerCounts(InWindow(before, t), Ats(swept.tables.window));
    } else {
      assert InWindow(before, t) + [] == InWindow(before, t);
    }
  }

  lemma FinishMatches(s: System, k: nat, success: bool)
    requires WindowInv(s) && Enabled(s, Finish(k, success))
    requires s.history[k] in s.history
    ensures WindowMatches(Next(s, Finish(k, success)))
  {
    var s' := Next(s, Finish(k, success));
    var h := s.history[k];
    forall x ensures Count(Ats(s'.tables.window), x) ==
                     if s.clock - x < GLOBAL_WINDOW then Count(Unforgiven(s'.history), x) else 0
    {
      UnforgivenAfter(s.history, k, success, x);
      RemovalCounts(s.tables.window, h.stamp, x);
    }
  }

  lemma FinishUnderCeiling(s: System, k: nat, success: bool, t: int)
    requires Ceiling(s) && Enabled(s, Finish(k, success)) && !s.history[k].forgiven
    ensures |InWindow(Unforgiven(Next(s, Finish(k, success)).history), t)| <= GLOBAL_LIMIT
  {
    var before, after := Unforgiven(s.history), Unforgiven(Next(s, Finish(k, success)).history);
    forall x ensures Count(InWindow(after, t), x) <= Count(InWindow(before, t), x) {
      UnforgivenAfter(s.history, k, success, x);
      InWindowCounts(after, t, x);
      InWindowCounts(before, t, x);
    }
    FewerCounts(InWindow(after, t), InWindow(before, t));
  }

  lemma FinishKeepsWindow(s: System, k: nat, success: bool)
    requires WindowInv(s) && Ceiling(s) && Enabled(s, Finish(k, success))
    ensures WindowInv(Next(s, Finish(k, success))) && Ceiling(Next(s, Finish(k, success)))
  {
    var s' := Next(s, Finish(k, success));
    assert s.history[k] in s.history;
    RemovalIsSublist(s.tables.window, s.history[k].stamp);
    forall i | 0 <= i < |s'.tables.window| ensures s'.tables.window[i].id < s'.tables.nextId {
      assert s'.tables.window[i] in s.tables.window;
    }
    FinishMatches(s, k, success);
    forall t: int ensures |InWindow(Unforgiven(s'.history), t)| <= GLOBAL_LIMIT {
      FinishUnderCeiling(s, k, success, t);
    }
  }

  lemma StepKeepsWindow(s: System, a: Action)
    requires WindowInv(s) && Ceiling(s) && Enabled(s, a)
    ensures WindowInv(Next(s, a)) && Ceiling(Next(s, a))
  {
    match a
    case Begin(ip, now) => BeginKeepsWindow(s, ip, now);
    case Check(ip, now) => SweptMatches(s, now);
    case Finish(k, success) => FinishKeepsWindow(s, k, success);
  }

  /** In any run, at most thirty admitted and never forgiven attempts fall in any
      minute, across all addresses and workers, and the window
      table always equals the live unforgiven stamps. */
  lemma {:induction false} CeilingHolds(s: System, actions: seq<Action>)
    requires WindowInv(s) && Ceiling(s) && Possible(s, actions)
    ensures WindowInv(Run(s, actions)) && Ceiling(Run(s, actions))
    decreases |actions|
  {
    if actions != [] {
      StepKeepsWindow(s, actions[0]);
      CeilingHolds(Next(s, actions[0]), actions[1..]);
    }
  }

  // ---- the backoff -------------------------------------------------------

  /** k is the latest admitted attempt of the address. */
  ghost predicate Latest(history: seq<Attempt>, ip: string, k: int) {
    0 <= k < |history| && history[k].ip == ip && forall j :: k < j < |history| ==> history[j].ip != ip
  }

  /** The entry is the stamp and the streak of the address's latest attempt,
      which was not forgiven. */
  ghost predicate Recalls(history: seq<Attempt>, ip: string, e: Entry) {
    exists k :: Latest(history, ip, k) && RecallsAt(history[k], e)
  }

  predicate RecallsAt(h: Attempt, e: Entry) { e.last == h.stamp && e.failures == h.streak && !h.forgiven }

  /** The attempt still counts against its address. */
  ghost predicate Standing(s: System, ip: string, k: int) {
    Latest(s.history, ip, k) && ip !in s.succeeded && s.clock - s.history[k].stamp <= ENTRY_TTL
  }

  /** Every entry is the latest attempt of its address, with no success since;
      and each such attempt of the last ENTRY_TTL has its entry. */
  ghost predicate EntryInv(s: System) {
    && EntriesOld(s.tables, s.clock)
    && (forall ip :: ip in s.tables.failures ==> ip !in s.succeeded && Recalls(s.history, ip, s.tables.failures[ip]))
    && (forall ip, k :: Standing(s, ip, k) ==> ip in s.tables.failures)
  }

  ghost predicate Sane(s: System) { WindowInv(s) && Ceiling(s) && EntryInv(s) }

  // ---- no address is ever evicted ----------------------------------------

  /** How many unforgiven attempts have their stamp in the interval. */
  function CountIn(history: seq<Attempt>, lo: int, hi: int): nat {
    if history == [] then 0
    else
      var h := history[|history| - 1];
      CountIn(history[..|history| - 1], lo, hi) + (if !h.forgiven && lo <= h.stamp < hi then 1 else 0)
  }

  lemma {:induction false} CountSplits(history: seq<Attempt>, lo: int, mid: int, hi: int)
    requires lo <= mid <= hi
    ensures CountIn(history, lo, mid) + CountIn(history, mid, hi) == CountIn(history, lo, hi)
    decreases |history|
  {
    if history != [] {
      CountSplits(history[..|history| - 1], lo, mid, hi);
    }
  }

  lemma {:induction false} CountIsWindow(history: seq<Attempt>, t: int)
    ensures CountIn(history, t, t + GLOBAL_WINDOW) == |InWindow(Unforgiven(history), t)|
    decreases |history|
  {
    if history != [] {
      var n := |history| - 1;
      CountIsWindow(history[..n], t);
      var before := Unforgiven(history[..n]);
      if !history[n].forgiven {
        assert (before + [history[n].stamp])[..|before|] == before;
      } else {
        assert before + [] == before;
      }
    }
  }

  /** The ceiling bounds any stretch of windows. */
  lemma {:induction false} CountBounded(s: System, lo: int, k: nat)
    requires Ceiling(s)
    ensures CountIn(s.history, lo, lo + k * GLOBAL_WINDOW) <= k * GLOBAL_LIMIT
    decreases k
  {
    if k == 0 {
      CountSplits(s.history, lo, lo, lo);
    } else {
      var mid := lo + (k - 1) * GLOBAL_WINDOW;
      CountBounded(s, lo, k - 1);
      CountSplits(s.history, lo, mid, mid + GLOBAL_WINDOW);
      CountIsWindow(s.history, mid);
    }
  }

  ghost predicate HasUnforgiven(history: seq<Attempt>, ip: string, lo: int, hi: int) {
    exists k :: 0 <= k < |history| && history[k].ip == ip && !history[k].forgiven && lo <= history[k].stamp < hi
  }

  lemma {:induction false} AddressesBounded(history: seq<Attempt>, ips: set<string>, lo: int, hi: int)
    requires forall ip :: ip in ips ==> HasUnforgiven(history, ip, lo, hi)
    ensures |ips| <= CountIn(history, lo, hi)
    decreases |history|
  {
    if history == [] {
      assert forall ip :: !HasUnforgiven(history, ip, lo, hi);
      assert ips == {};
    } else {
      var n := |history| - 1;
      var h := history[n];
      var others := if !h.forgiven && lo <= h.stamp < hi then ips - {h.ip} else ips;
      forall ip | ip in others ensures HasUnforgiven(history[..n], ip, lo, hi) {
        var k :| 0 <= k < |history| && history[k].ip == ip && !history[k].forgiven && lo <= history[k].stamp < hi;
        assert k < n;
        assert history[..n][k] == history[k];
      }
      AddressesBounded(history[..n], others, lo, hi);
    }
  }

  /** Within the bound nothing is evicted. */
  lemma FreshestAll(failures: map<string, Entry>, n: nat)
    requires |failures| <= n
    ensures Freshest(failures, n) == failures
  {
    forall ip | ip in failures ensures |set q | q in failures && Fresher(failures[q], failures[ip])| < n {
      var fresher := set q | q in failures && Fresher(failures[q], failures[ip]);
      SubsetSize(fresher, failures.Keys - {ip});
    }
  }

  /** Entries of unforgiven attempts of the last ENTRY_TTL are far fewer than the
      table may hold: sixteen windows of attempts at most. */
  lemma NoneEvicted(s: System, failures: map<string, Entry>)
    requires Ceiling(s)
    requires forall ip :: ip in failures ==> HasUnforgiven(s.history, ip, s.clock - ENTRY_TTL, s.clock + 1)
    ensures |failures| <= 16 * GLOBAL_LIMIT && Freshest(failures, MAX_TRACKED) == failures
  {
    var lo := s.clock - ENTRY_TTL;
    AddressesBounded(s.history, failures.Keys, lo, s.clock + 1);
    CountBounded(s, lo, 16);
    CountSplits(s.history, lo, s.clock + 1, lo + 16 * GLOBAL_WINDOW);
    FreshestAll(failures, MAX_TRACKED);
  }

  // ---- entries -----------------------------------------------------------

  lemma LatestIsOne(history: seq<Attempt>, ip: string, i: int, k: int)
    requires Latest(history, ip, i) && Latest(history, ip, k)
    ensures i == k
  {
  }

  /** A sweep keeps an entry exactly while its attempt stands. */
  lemma SweepKeepsStanding(s: System, now: int)
    requires EntryInv(s) && s.clock <= now
    ensures EntryInv(s.(tables := Sweep(s.tables, now), clock := now))
    ensures forall ip :: ip in Sweep(s.tables, now).failures ==> now - Sweep(s.tables, now).failures[ip].last <= ENTRY_TTL
  {
    var s' := s.(tables := Sweep(s.tables, now), clock := now);
    forall ip, k | Standing(s', ip, k) ensures ip in s'.tables.failures {
      assert Standing(s, ip, k);
      var j :| Latest(s.history, ip, j) && RecallsAt(s.history[j], s.tables.failures[ip]);
      LatestIsOne(s.history, ip, j, k);
    }
  }

  lemma OtherAddressRecalls(history: seq<Attempt>, h: Attempt, ip: string, e: Entry)
    requires Recalls(history, ip, e) && h.ip != ip
    ensures Recalls(history + [h], ip, e)
  {
    var k :| Latest(history, ip, k) && RecallsAt(history[k], e);
    assert Latest(history + [h], ip, k);
  }

  lemma RecalledUnforgiven(history: seq<Attempt>, ip: string, e: Entry, lo: int, hi: int)
    requires Recalls(history, ip, e) && lo <= e.last < hi
    ensures HasUnforgiven(history, ip, lo, hi)
  {
    var k :| Latest(history, ip, k) && RecallsAt(history[k], e);
  }

  lemma NewAttemptRecalls(history: seq<Attempt>, h: Attempt, e: Entry)
    requires RecallsAt(h, e)
    ensures Recalls(history + [h], h.ip, e)
  {
    assert Latest(history + [h], h.ip, |history|);
  }

  /** Counting after a sweep adds or replaces the address's entry and, as none
      is evicted, touches no other. */
  lemma CountTouchesOne(swept: System, s': System, h: Attempt, now: int)
    requires EntryInv(swept) && swept.clock == now == s'.clock == h.stamp && Ceiling(s')
    requires forall ip :: ip in swept.tables.failures ==> now - swept.tables.failures[ip].last <= ENTRY_TTL
    requires s'.history == swept.history + [h] && !h.forgiven
    requires h.streak == if h.ip in swept.tables.failures then swept.tables.failures[h.ip].failures + 1 else 1
    ensures CountFailure(swept.tables, h.ip, now).failures == Counted(swept.tables, h.ip, now).failures
    ensures forall ip :: ip in Counted(swept.tables, h.ip, now).failures ==>
              Recalls(s'.history, ip, Counted(swept.tables, h.ip, now).failures[ip])
  {
    var counted := Counted(swept.tables, h.ip, now).failures;
    forall ip | ip in counted
      ensures Recalls(s'.history, ip, counted[ip]) && HasUnforgiven(s'.history, ip, now - ENTRY_TTL, now + 1)
    {
      if ip == h.ip {
        NewAttemptRecalls(swept.history, h, counted[ip]);
      } else {
        OtherAddressRecalls(swept.history, h, ip, counted[ip]);
      }
      RecalledUnforgiven(s'.history, ip, counted[ip], now - ENTRY_TTL, now + 1);
    }
    assert Unexpired(counted, now) == counted;
    NoneEvicted(s', counted);
  }

  lemma StandingBefore(swept: System, s': System, h: Attempt, ip: string, k: int)
    requires s'.history == swept.history + [h] && s'.succeeded == swept.succeeded - {h.ip} && s'.clock == swept.clock
    requires ip != h.ip && Standing(s', ip, k)
    ensures Standing(swept, ip, k)
  {
    forall j | k < j < |swept.history| ensures swept.history[j].ip != ip {
      assert s'.history[j].ip != ip;
    }
  }

  lemma BeginKeepsEntries(s: System, ip: string, now: int)
    requires EntryInv(s) && s.clock <= now && Ceiling(Next(s, Begin(ip, now)))
    ensures EntryInv(Next(s, Begin(ip, now)))
  {
    var swept := s.(tables := Sweep(s.tables, now), clock := now);
    SweepKeepsStanding(s, now);
    var s' := Next(s, Begin(ip, now));
    if BeginAttempt(s.tables, ip, now).wait == 0 {
      var h := s'.history[|s.history|];
      JustCountedIsKept(swept.tables, ip, now);
      CountTouchesOne(swept, s', h, now);
      forall q, k | Standing(s', q, k) ensures q in s'.tables.failures {
        if q != ip {
          StandingBefore(swept, s', h, q, k);
        }
      }
    } else {
      assert s' == swept;
    }
  }

  lemma FinishKeepsLatest(history: seq<Attempt>, k: nat, success: bool, ip: string, m: int)
    requires k < |history|
    ensures Latest(Finished(history, k, success), ip, m) <==> Latest(history, ip, m)
  {
    var history' := Finished(history, k, success);
    assert forall j :: 0 <= j < |history| ==> history'[j].ip == history[j].ip;
  }

  lemma FinishKeepsEntries(s: System, k: nat, success: bool)
    requires EntryInv(s) && Enabled(s, Finish(k, success)) && !s.history[k].forgiven
    ensures EntryInv(Next(s, Finish(k, success)))
  {
    var s' := Next(s, Finish(k, success));
    forall ip | ip in s'.tables.failures ensures Recalls(s'.history, ip, s'.tables.failures[ip]) {
      var m :| Latest(s.history, ip, m) && RecallsAt(s.history[m], s.tables.failures[ip]);
      FinishKeepsLatest(s.history, k, success, ip, m);
      assert RecallsAt(s'.history[m], s'.tables.failures[ip]);
    }
    forall ip, m | Standing(s', ip, m) ensures ip in s'.tables.failures {
      FinishKeepsLatest(s.history, k, success, ip, m);
      assert Standing(s, ip, m);
    }
  }

  // ---- how far attempts are apart ----------------------------------------

  /** Attempts i and j are consecutive for one address. */
  ghost predicate Consecutive(history: seq<Attempt>, i: int, j: int) {
    0 <= i < j < |history| && history[i].ip == history[j].ip
    && forall m :: i < m < j ==> history[m].ip != history[j].ip
  }

  /** The first attempt of an address. */
  ghost predicate Foremost(history: seq<Attempt>, j: int) {
    0 <= j < |history| && forall m :: 0 <= m < j ==> history[m].ip != history[j].ip
  }

  /** An attempt starts its address's count anew after a success of the address
      or more than ENTRY_TTL; otherwise it continues the count, and comes at
      least the backoff of the count before it later. */
  predicate Apart(a: Attempt, b: Attempt) {
    if b.afterSuccess || b.stamp - a.stamp > 900_000_000 then b.streak == 1
    else b.streak == a.streak + 1 && (a.streak >= 5 ==> b.stamp >= a.stamp + Backoff(a.streak))
  }

  ghost predicate Spaced(history: seq<Attempt>) {
    && (forall i, j :: Consecutive(history, i, j) ==> Apart(history[i], history[j]))
    && (forall j :: Foremost(history, j) ==> history[j].streak == 1)
  }

  lemma SameAddresses(a: seq<Attempt>, b: seq<Attempt>, i: int, j: int)
    requires Consecutive(a, i, j) && j < |b| <= |a|
    requires forall m :: 0 <= m < |b| ==> a[m].ip == b[m].ip
    ensures Consecutive(b, i, j)
  {
    forall m | i < m < j ensures b[m].ip != b[j].ip {
      assert a[m].ip != a[j].ip;
    }
  }

  lemma SameForemost(a: seq<Attempt>, b: seq<Attempt>, j: int)
    requires Foremost(a, j) && j < |b| <= |a|
    requires forall m :: 0 <= m < |b| ==> a[m].ip == b[m].ip
    ensures Foremost(b, j)
  {
    forall m | 0 <= m < j ensures b[m].ip != b[j].ip {
      assert a[m].ip != a[j].ip;
    }
  }

  lemma AdmittedApart(s: System, ip: string, now: int, i: nat)
    requires EntryInv(s) && s.clock <= now && BeginAttempt(s.tables, ip, now).wait == 0
    requires Latest(s.history, ip, i)
    ensures var h' := Next(s, Begin(ip, now)).history; Apart(h'[i], h'[|s.history|])
  {
    if ip in s.tables.failures {
      var k :| Latest(s.history, ip, k) && RecallsAt(s.history[k], s.tables.failures[ip]);
      LatestIsOne(s.history, ip, k, i);
    } else {
      assert !Standing(s, ip, i);
    }
  }

  lemma AdmittedForemost(s: System, ip: string, now: int)
    requires EntryInv(s) && s.clock <= now && BeginAttempt(s.tables, ip, now).wait == 0
    requires forall m :: 0 <= m < |s.history| ==> s.history[m].ip != ip
    ensures Next(s, Begin(ip, now)).history[|s.history|].streak == 1
  {
    assert forall k :: !Latest(s.history, ip, k);
  }

  lemma BeginKeepsSpacing(s: System, ip: string, now: int)
    requires EntryInv(s) && Spaced(s.history) && s.clock <= now
    ensures Spaced(Next(s, Begin(ip, now)).history)
  {
    var h' := Next(s, Begin(ip, now)).history;
    var n := |s.history|;
    forall i, j | Consecutive(h', i, j) ensures Apart(h'[i], h'[j]) {
      if j < n {
        SameAddresses(h', s.history, i, j);
      } else {
        forall m | i < m < n ensures s.history[m].ip != ip {
          assert h'[m].ip != h'[j].ip;
        }
        AdmittedApart(s, ip, now, i);
      }
    }
    forall j | Foremost(h', j) ensures h'[j].streak == 1 {
      if j < n {
        SameForemost(h', s.history, j);
      } else {
        forall m | 0 <= m < n ensures s.history[m].ip != ip {
          assert h'[m].ip != h'[j].ip;
        }
        AdmittedForemost(s, ip, now);
      }
    }
  }

  lemma FinishKeepsSpacing(s: System, k: nat, success: bool)
    requires Spaced(s.history) && Enabled(s, Finish(k, success))
    ensures Spaced(Next(s, Finish(k, success)).history)
  {
    var h' := Next(s, Finish(k, success)).history;
    forall i, j | Consecutive(h', i, j) ensures Consecutive(s.history, i, j) {
      SameAddresses(h', s.history, i, j);
    }
    forall j | Foremost(h', j) ensures Foremost(s.history, j) {
      SameForemost(h', s.history, j);
    }
  }

  lemma StepKeepsSane(s: System, a: Action)
    requires Sane(s) && Enabled(s, a)
    ensures Sane(Next(s, a))
  {
    StepKeepsWindow(s, a);
    match a
    case Begin(ip, now) => BeginKeepsEntries(s, ip, now);
    case Check(_, now) => SweepKeepsStanding(s, now);
    case Finish(k, success) =>
      assert s.history[k] in s.history;
      FinishKeepsEntries(s, k, success);
  }

  /** In any run, two consecutive admitted attempts of one address are at least
      the backoff of the first one's count apart, and the second counts one
      more; unless a success of the address finished in between or more than
      ENTRY_TTL passed, and then the second starts at one. No address is ever
      evicted. */
  lemma {:induction false} BackoffHolds(s: System, actions: seq<Action>)
    requires Sane(s) && Spaced(s.history) && Possible(s, actions)
    ensures Sane(Run(s, actions)) && Spaced(Run(s, actions).history)
    decreases |actions|
  {
    if actions != [] {
      var a := actions[0];
      StepKeepsSane(s, a);
      match a {
        case Begin(ip, now) => BeginKeepsSpacing(s, ip, now);
        case Check(_, _) =>
        case Finish(k, success) => FinishKeepsSpacing(s, k, success);
      }
      BackoffHolds(Next(s, a), actions[1..]);
    }
  }

  lemma EmptyTablesAreFair(clock: int)
    ensures Sane(Start(clock)) && Spaced(Start(clock).history)
  {
    forall t: int ensures |InWindow(Unforgiven(Start(clock).history), t)| <= GLOBAL_LIMIT {
      assert InWindow([], t) == [];
    }
  }
}
