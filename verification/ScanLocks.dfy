/** Scans and reconciliation by many processes under per-connection advisory
    locks, as a state machine over their database steps
    (backend/app/scheduler.py, backend/app/snapshots/store.py,
    backend/app/db.py). A lock ends with its session: when the process crashes
    or an error leaves the block that holds it, and also when the database
    session alone is lost. */
module ScanLocks {
  import opened Basics

  datatype Status = Running | Ok | Failed | Interrupted | Skipped

  datatype ScanRun = ScanRun(connection: string, status: Status)

  /** Where a session stands in `run_scan` or in a reconciliation pass. A scan
      that is failing is in its error handler. A pass
      remembers the connections still to visit, those it found locked, and the
      first run id newer than the pass. */
  datatype Phase =
    | Idle
    | Locked(connection: string)
    | Scanning(connection: string, run: nat, failing: bool)
    | Finished(connection: string)
    | Visiting(todo: set<string>, busy: set<string>, bound: nat)
    | Holding(connection: string, todo: set<string>, busy: set<string>, bound: nat)
    | Updated(connection: string, todo: set<string>, busy: set<string>, bound: nat)

  type Session = nat

  /** `lost` holds the sessions that go on without the lock they took. */
  datatype State = State(
    phases: map<Session, Phase>,
    locks: map<string, Session>,
    lost: set<Session>,
    runs: map<nat, ScanRun>,
    nextRun: nat)

  function PhaseOf(st: State, s: Session): Phase { if s in st.phases then st.phases[s] else Idle }

  function Held(p: Phase): Option<string> {
    match p
    case Locked(c) => Some(c)
    case Scanning(c, _, _) => Some(c)
    case Finished(c) => Some(c)
    case Holding(c, _, _, _) => Some(c)
    case Updated(c, _, _, _) => Some(c)
    case _ => None
  }

  /** Finishing a run writes its status and reads the run back. When it writes
      'ok' and the reading fails, the scan goes on to its error handler, as it
      does after any error before (`Fail`); an error there, or outside, ends the
      block like a crash. */
  datatype Action =
    | TryScan(s: Session, connection: string)
    | CreateRun(s: Session)
    | Fail(s: Session)
    | FinishRun(s: Session, readBack: bool)
    | EndScan(s: Session)
    | StartPass(s: Session)
    | TryVisit(s: Session, connection: string)
    | UpdateRuns(s: Session)
    | EndVisit(s: Session)
    | EndPass(s: Session)
    | Crash(s: Session)
    | LoseLock(s: Session)

  predicate Enabled(st: State, a: Action) {
    var p := PhaseOf(st, a.s);
    match a
    case TryScan(_, _) => p.Idle?
    case CreateRun(_) => p.Locked?
    case Fail(_) => p.Scanning? && !p.failing
    case FinishRun(_, _) => p.Scanning?
    case EndScan(_) => p.Finished?
    case StartPass(_) => p.Idle?
    case TryVisit(_, c) => p.Visiting? && c in p.todo
    case UpdateRuns(_) => p.Holding?
    case EndVisit(_) => p.Updated?
    case EndPass(_) => p.Visiting? && p.todo == {}
    case Crash(_) => true
    case LoseLock(s) => Held(p).Some? && s !in st.lost
  }

  function To(st: State, s: Session, p: Phase): State { st.(phases := st.phases[s := p]) }

  function Release(st: State, s: Session, p: Phase): State {
    if Held(p).None? then st
    else st.(locks := if s in st.lost then st.locks else st.locks - {Held(p).value}, lost := st.lost - {s})
  }

  /** Connections with a run in 'running'. */
  function Stuck(st: State): set<string> {
    set r | r in st.runs && st.runs[r].status == Running :: st.runs[r].connection
  }

  /** UPDATE ... WHERE status = 'running' AND connection_id = c. */
  function Interrupt(runs: map<nat, ScanRun>, c: string): map<nat, ScanRun> {
    map r | r in runs :: if runs[r].status == Running && runs[r].connection == c then runs[r].(status := Interrupted) else runs[r]
  }

  function Next(st: State, a: Action): State
    requires Enabled(st, a)
  {
    var p := PhaseOf(st, a.s);
    match a
    case TryScan(s, c) =>
      if c in st.locks then
        st.(runs := st.runs[st.nextRun := ScanRun(c, Skipped)], nextRun := st.nextRun + 1)
      else To(st, s, Locked(c)).(locks := st.locks[c := s])
    case CreateRun(s) =>
      To(st, s, Scanning(p.connection, st.nextRun, false))
        .(runs := st.runs[st.nextRun := ScanRun(p.connection, Running)], nextRun := st.nextRun + 1)
    case Fail(s) => To(st, s, p.(failing := true))
    case FinishRun(s, readBack) =>
      var left := To(st, s, if p.failing || readBack then Finished(p.connection) else p.(failing := true));
      if p.run !in st.runs then left
      else left.(runs := st.runs[p.run := st.runs[p.run].(status := if p.failing then Failed else Ok)])
    case EndScan(s) => Release(To(st, s, Idle), s, p)
    case StartPass(s) => To(st, s, Visiting(Stuck(st), {}, st.nextRun))
    case TryVisit(s, c) =>
      if c in st.locks then To(st, s, Visiting(p.todo - {c}, p.busy + {c}, p.bound))
      else To(st, s, Holding(c, p.todo - {c}, p.busy, p.bound)).(locks := st.locks[c := s])
    case UpdateRuns(s) => To(st, s, Updated(p.connection, p.todo, p.busy, p.bound)).(runs := Interrupt(st.runs, p.connection))
    case EndVisit(s) => Release(To(st, s, Visiting(p.todo, p.busy, p.bound)), s, p)
    case EndPass(s) => To(st, s, Idle)
    case Crash(s) => Release(To(st, s, Idle), s, p)
    case LoseLock(s) => st.(locks := st.locks - {Held(p).value}, lost := st.lost + {s})
  }

  // ---- the invariant -----------------------------------------------------

  ghost predicate LocksMatch(st: State) {
    && (forall c :: c in st.locks ==> Held(PhaseOf(st, st.locks[c])) == Some(c) && st.locks[c] !in st.lost)
    && (forall s :: Held(PhaseOf(st, s)).Some? && s !in st.lost ==>
          var c := Held(PhaseOf(st, s)).value; c in st.locks && st.locks[c] == s)
    && (forall s :: s in st.lost ==> Held(PhaseOf(st, s)).Some?)
  }

  /** Each scanning session has a run of its own, of its connection, that is not
      a skipped one. */
  ghost predicate RunsOwned(st: State) {
    && (forall s :: PhaseOf(st, s).Scanning? ==>
          var p := PhaseOf(st, s);
          p.run in st.runs && st.runs[p.run].connection == p.connection && st.runs[p.run].status != Skipped)
    && (forall s, t :: PhaseOf(st, s).Scanning? && PhaseOf(st, t).Scanning? && PhaseOf(st, s).run == PhaseOf(st, t).run ==> s == t)
  }

  /** What a pass still has to look at: a run older than the pass that is still
      'running' is on a connection not yet visited, or found locked, or about
      to be updated. */
  predicate Pending(p: Phase, c: string) {
    || (p.Visiting? && (c in p.todo || c in p.busy))
    || (p.Holding? && (c == p.connection || c in p.todo || c in p.busy))
    || (p.Updated? && (c in p.todo || c in p.busy))
  }

  predicate InPass(p: Phase) { p.Visiting? || p.Holding? || p.Updated? }

  ghost predicate PassesCover(st: State) {
    forall s, r :: InPass(PhaseOf(st, s)) && r in st.runs && r < PhaseOf(st, s).bound && st.runs[r].status == Running
      ==> Pending(PhaseOf(st, s), st.runs[r].connection)
  }

  ghost predicate IdsFresh(st: State) {
    && (forall r :: r in st.runs ==> r < st.nextRun)
    && (forall s :: InPass(PhaseOf(st, s)) ==> PhaseOf(st, s).bound <= st.nextRun)
  }

  ghost predicate Inv(st: State) {
    LocksMatch(st) && RunsOwned(st) && PassesCover(st) && IdsFresh(st)
  }

  function Start(): State { State(map[], map[], {}, map[], 0) }

  lemma StartInv()
    ensures Inv(Start())
  {
  }

  /** A step moves one session. */
  lemma OthersStay(st: State, a: Action, s: Session)
    requires Enabled(st, a) && s != a.s
    ensures PhaseOf(Next(st, a), s) == PhaseOf(st, s)
  {
  }

  /** The lock table follows the session that moved from one phase to the next:
      it takes a free lock, gives up the one it held, loses it, or changes
      nothing. */
  predicate LocksFollow(st: State, st': State, s: Session, p: Phase, p': Phase) {
    if Held(p) == Held(p') then
      || (st'.locks == st.locks && st'.lost == st.lost)
      || (Held(p).Some? && s !in st.lost && st'.locks == st.locks - {Held(p).value} && st'.lost == st.lost + {s})
    else if Held(p).Some? then
      && Held(p').None? && st'.lost == st.lost - {s}
      && st'.locks == if s in st.lost then st.locks else st.locks - {Held(p).value}
    else
      Held(p').value !in st.locks && st'.locks == st.locks[Held(p').value := s] && st'.lost == st.lost
  }

  lemma StepFollows(st: State, a: Action)
    requires Enabled(st, a)
    ensures LocksFollow(st, Next(st, a), a.s, PhaseOf(st, a.s), PhaseOf(Next(st, a), a.s))
  {
  }

  lemma LocksCarry(st: State, st': State, s: Session)
    requires LocksMatch(st) && forall t :: t != s ==> PhaseOf(st', t) == PhaseOf(st, t)
    requires LocksFollow(st, st', s, PhaseOf(st, s), PhaseOf(st', s))
    ensures LocksMatch(st')
  {
  }

  lemma StepLocks(st: State, a: Action)
    requires LocksMatch(st) && Enabled(st, a)
    ensures LocksMatch(Next(st, a))
  {
    forall t | t != a.s ensures PhaseOf(Next(st, a), t) == PhaseOf(st, t) {
      OthersStay(st, a, t);
    }
    StepFollows(st, a);
    LocksCarry(st, Next(st, a), a.s);
  }

  lemma StepIds(st: State, a: Action)
    requires IdsFresh(st) && Enabled(st, a)
    ensures IdsFresh(Next(st, a))
  {
    var st' := Next(st, a);
    forall s | InPass(PhaseOf(st', s)) ensures PhaseOf(st', s).bound <= st'.nextRun {
      if s != a.s {
        OthersStay(st, a, s);
      }
    }
  }

  /** A run keeps its connection, and only its own session's finish and the
      update of a 'running' run of the connection change its status. */
  lemma StatusMoves(st: State, a: Action, r: nat)
    requires Enabled(st, a) && r in st.runs && IdsFresh(st)
    ensures r in Next(st, a).runs && Next(st, a).runs[r].connection == st.runs[r].connection
    ensures Next(st, a).runs[r] != st.runs[r] ==>
              var p := PhaseOf(st, a.s);
              || (a.FinishRun? && p.run == r && Next(st, a).runs[r].status == (if p.failing then Failed else Ok))
              || (a.UpdateRuns? && st.runs[r] == ScanRun(p.connection, Running) && Next(st, a).runs[r].status == Interrupted)
  {
  }

  predicate SameScan(p: Phase, p': Phase) {
    p.Scanning? && p'.Scanning? && p.connection == p'.connection && p.run == p'.run
  }

  /** A scanning session was scanning that run before, or has just created it. */
  lemma ScanningFrom(st: State, a: Action, s: Session)
    requires Enabled(st, a) && PhaseOf(Next(st, a), s).Scanning?
    ensures SameScan(PhaseOf(st, s), PhaseOf(Next(st, a), s)) ||
            (a == CreateRun(s) && PhaseOf(Next(st, a), s).run == st.nextRun &&
             st.nextRun in Next(st, a).runs &&
             Next(st, a).runs[st.nextRun] == ScanRun(PhaseOf(Next(st, a), s).connection, Running))
  {
    if s != a.s {
      OthersStay(st, a, s);
    }
  }

  lemma StepRuns(st: State, a: Action)
    requires Inv(st) && Enabled(st, a)
    ensures RunsOwned(Next(st, a))
  {
    var st' := Next(st, a);
    forall s | PhaseOf(st', s).Scanning?
      ensures var p := PhaseOf(st', s);
              p.run in st'.runs && st'.runs[p.run].connection == p.connection && st'.runs[p.run].status != Skipped
      ensures SameScan(PhaseOf(st, s), PhaseOf(st', s)) || (a == CreateRun(s) && PhaseOf(st', s).run == st.nextRun)
    {
      ScanningFrom(st, a, s);
      if SameScan(PhaseOf(st, s), PhaseOf(st', s)) {
        StatusMoves(st, a, PhaseOf(st, s).run);
      }
    }
  }

  lemma StepPasses(st: State, a: Action)
    requires Inv(st) && Enabled(st, a)
    ensures PassesCover(Next(st, a))
  {
    var st' := Next(st, a);
    forall s, r | InPass(PhaseOf(st', s)) && r in st'.runs && r < PhaseOf(st', s).bound && st'.runs[r].status == Running
      ensures Pending(PhaseOf(st', s), st'.runs[r].connection)
    {
      if a.StartPass? && s == a.s {
        assert st'.runs[r].connection in Stuck(st);
      } else {
        if s != a.s {
          OthersStay(st, a, s);
        }
        assert InPass(PhaseOf(st, s)) && PhaseOf(st, s).bound == PhaseOf(st', s).bound;
        assert r in st.runs && st.runs[r] == st'.runs[r];
      }
    }
  }

  /** Every step keeps the invariant. */
  lemma StepInv(st: State, a: Action)
    requires Inv(st) && Enabled(st, a)
    ensures Inv(Next(st, a))
  {
    StepLocks(st, a);
    StepIds(st, a);
    StepRuns(st, a);
    StepPasses(st, a);
  }

  // ---- nothing gets stuck ------------------------------------------------

  /** The steps a scan or a visit of a pass has left at most. */
  function StepsLeft(p: Phase): nat {
    match p
    case Idle => 0
    case Locked(_) => 5
    case Scanning(_, _, failing) => if failing then 2 else 3
    case Finished(_) => 1
    case Visiting(todo, _, _) => 3 * |todo| + 1
    case Holding(_, todo, _, _) => 3 * |todo| + 3
    case Updated(_, todo, _, _) => 3 * |todo| + 2
  }

  /** A busy session always has a step of its own that brings it nearer to idle,
      whatever the others hold: a pass passes over the connections it finds
      locked. An idle one can scan any connection or start a pass. */
  lemma SessionsProceed(st: State, s: Session, c: string) returns (a: Action)
    ensures Enabled(st, a) && a.s == s
    ensures PhaseOf(st, s) == Idle ==> a == TryScan(s, c) && Enabled(st, StartPass(s))
    ensures PhaseOf(st, s) != Idle ==> StepsLeft(PhaseOf(Next(st, a), s)) < StepsLeft(PhaseOf(st, s))
    ensures StepsLeft(PhaseOf(Next(st, a), s)) == 0 ==> PhaseOf(Next(st, a), s) == Idle
  {
    match PhaseOf(st, s)
    case Idle => a := TryScan(s, c);
    case Locked(_) => a := CreateRun(s);
    case Scanning(_, _, _) => a := FinishRun(s, true);
    case Finished(_) => a := EndScan(s);
    case Visiting(todo, _, _) =>
      if todo == {} {
        a := EndPass(s);
      } else {
        var d := Inhabited(todo);
        a := TryVisit(s, d);
        assert |todo - {d}| == |todo| - 1;
      }
    case Holding(_, _, _, _) => a := UpdateRuns(s);
    case Updated(_, _, _, _) => a := EndVisit(s);
  }

  /** A scan at work may fail at any moment, once; then it is in its error handler,
      with the same run, which ends it as 'error'. A finish ends the scan, unless
      it wrote 'ok' and could not read that back: then it has failed, too. */
  lemma FailuresAreHandled(st: State, s: Session, readBack: bool)
    requires PhaseOf(st, s).Scanning?
    ensures var p := PhaseOf(st, s);
            && (Enabled(st, Fail(s)) <==> !p.failing) && Enabled(st, FinishRun(s, readBack))
            && (!p.failing ==>
                  Next(st, Fail(s)) == st.(phases := st.phases[s := Scanning(p.connection, p.run, true)]))
            && PhaseOf(Next(st, FinishRun(s, readBack)), s) ==
                 (if !p.failing && !readBack then Scanning(p.connection, p.run, true) else Finished(p.connection))
            && (p.run in st.runs ==>
                  Next(st, FinishRun(s, readBack)).runs ==
                  st.runs[p.run := ScanRun(st.runs[p.run].connection, if p.failing then Failed else Ok)])
  {
  }

  /** Locks: a free one is taken by whoever tries, a held one is not; ending a scan
      or a visit, and a crash, give it up. */
  lemma LocksAre(st: State, a: Action)
    requires LocksMatch(st) && Enabled(st, a)
    ensures var st' := Next(st, a);
            match a
            case TryScan(s, c) =>
              if c in st.locks then st'.locks == st.locks && PhaseOf(st', s) == Idle
              else st'.locks == st.locks[c := s] && PhaseOf(st', s) == Locked(c) && st'.runs == st.runs
            case TryVisit(s, c) =>
              st'.runs == st.runs &&
              if c in st.locks then st'.locks == st.locks && PhaseOf(st', s).Visiting? && c in PhaseOf(st', s).busy
              else st'.locks == st.locks[c := s] && PhaseOf(st', s).Holding? && PhaseOf(st', s).connection == c
            case EndScan(s) => s !in st'.locks.Values && s !in st'.lost && PhaseOf(st', s) == Idle
            case EndVisit(s) => s !in st'.locks.Values && s !in st'.lost && PhaseOf(st', s).Visiting?
            case Crash(s) => s !in st'.locks.Values && s !in st'.lost && PhaseOf(st', s) == Idle && st'.runs == st.runs
            case LoseLock(s) => s !in st'.locks.Values && s in st'.lost && st'.phases == st.phases && st'.runs == st.runs
            case _ => st'.locks == st.locks && st'.lost == st.lost
  {
  }

  // ---- executions --------------------------------------------------------

  ghost predicate Execution(states: seq<State>, actions: seq<Action>) {
    && |states| == |actions| + 1 && states[0] == Start()
    && forall i :: 0 <= i < |actions| ==> Enabled(states[i], actions[i]) && states[i + 1] == Next(states[i], actions[i])
  }

  lemma {:induction false} InvHolds(states: seq<State>, actions: seq<Action>, i: nat)
    requires Execution(states, actions) && i < |states|
    ensures Inv(states[i])
    decreases i
  {
    if i == 0 {
      StartInv();
    } else {
      InvHolds(states, actions, i - 1);
      StepInv(states[i - 1], actions[i - 1]);
    }
  }

  // ---- where each status comes from --------------------------------------

  /** A run is born 'running' by the scan that got its connection's lock, or
      'skipped' by one that found it held; and finding it held does nothing else. */
  lemma RunsAreBorn(st: State, a: Action, r: nat)
    requires Enabled(st, a) && r !in st.runs && r in Next(st, a).runs
    ensures r == st.nextRun
    ensures || (a.CreateRun? && PhaseOf(st, a.s).Locked? && Next(st, a).runs[r] == ScanRun(PhaseOf(st, a.s).connection, Running))
            || (a.TryScan? && a.connection in st.locks && Next(st, a).runs[r] == ScanRun(a.connection, Skipped)
                && Next(st, a).locks == st.locks && Next(st, a).phases == st.phases)
  {
  }

  /** And each of them does create one. */
  lemma RunsAreCreated(st: State, a: Action)
    requires IdsFresh(st) && Enabled(st, a)
    ensures (a.CreateRun? || (a.TryScan? && a.connection in st.locks)) <==> st.nextRun in Next(st, a).runs
  {
  }

  /** How a run came to its status, step k being the one that wrote it. */
  ghost predicate Wrote(states: seq<State>, actions: seq<Action>, k: nat, r: nat, status: Status)
    requires k < |actions| && k < |states|
  {
    var st, a := states[k], actions[k];
    var p := PhaseOf(st, a.s);
    match status
    case Running => a.CreateRun? && st.nextRun == r
    case Ok => a.FinishRun? && p.Scanning? && p.run == r && !p.failing
    case Failed => a.FinishRun? && p.Scanning? && p.run == r && p.failing
    case Interrupted => a.UpdateRuns? && p.Holding? && r in st.runs && st.runs[r] == ScanRun(p.connection, Running)
    case Skipped => a.TryScan? && a.connection in st.locks && st.nextRun == r
  }

  /** In any execution: 'ok' was written by a finish of the scan at work on the
      run, 'error' by one in its error handler, 'interrupted' by a pass on its
      connection while it was 'running'; and 'skipped' is the run of a scan that
      found its connection's lock held. */
  lemma {:induction false} StatusHasACause(states: seq<State>, actions: seq<Action>, i: nat, r: nat) returns (k: nat)
    requires Execution(states, actions) && i < |states| && r in states[i].runs
    ensures k < i && Wrote(states, actions, k, r, states[i].runs[r].status)
    decreases i
  {
    InvHolds(states, actions, i - 1);
    var st, a := states[i - 1], actions[i - 1];
    if r !in st.runs {
      RunsAreBorn(st, a, r);
      k := i - 1;
    } else if st.runs[r] == states[i].runs[r] {
      k := StatusHasACause(states, actions, i - 1, r);
    } else {
      StatusMoves(st, a, r);
      k := i - 1;
    }
  }

  lemma SkippedStep(states: seq<State>, actions: seq<Action>, i: nat, r: nat)
    requires Execution(states, actions) && i < |actions| && r in states[i].runs && states[i].runs[r].status == Skipped
    ensures r in states[i + 1].runs && states[i + 1].runs[r] == states[i].runs[r]
  {
    InvHolds(states, actions, i);
    StatusMoves(states[i], actions[i], r);
  }

  /** A skipped run stays skipped. */
  lemma {:induction false} SkippedStays(states: seq<State>, actions: seq<Action>, i: nat, j: nat, r: nat)
    requires Execution(states, actions) && i <= j < |states|
    requires r in states[i].runs && states[i].runs[r].status == Skipped
    ensures r in states[j].runs && states[j].runs[r] == states[i].runs[r]
    decreases j
  {
    if i < j {
      SkippedStays(states, actions, i, j - 1, r);
      SkippedStep(states, actions, j - 1, r);
    }
  }

  // ---- without lost locks ------------------------------------------------

  /** No session loses its lock while its process lives. */
  ghost predicate LossFree(actions: seq<Action>, n: nat) {
    forall k :: 0 <= k < n && k < |actions| ==> !actions[k].LoseLock?
  }

  /** The run of a live scan is 'running', or 'ok' by the scan's own finish that
      could not be read back. */
  predicate RunsOn(st: State, p: Phase) {
    p.Scanning? && p.run in st.runs && (st.runs[p.run].status == Running || (p.failing && st.runs[p.run].status == Ok))
  }

  ghost predicate LiveRunsRun(st: State) {
    forall s :: PhaseOf(st, s).Scanning? ==> RunsOn(st, PhaseOf(st, s))
  }

  /** While no lock is lost, no step of another session touches a live run. */
  lemma OthersLiveRun(st: State, a: Action, s: Session)
    requires Inv(st) && Enabled(st, a) && s != a.s && PhaseOf(st, s).Scanning? && s !in st.lost && a.s !in st.lost
    ensures var r := PhaseOf(st, s).run; r in Next(st, a).runs && Next(st, a).runs[r] == st.runs[r]
  {
    var p := PhaseOf(st, s);
    StatusMoves(st, a, p.run);
    assert st.locks[p.connection] == s;
    assert a.UpdateRuns? ==> st.locks[PhaseOf(st, a.s).connection] == a.s;
  }

  lemma StepStaysClean(st: State, a: Action)
    requires Inv(st) && st.lost == {} && LiveRunsRun(st) && Enabled(st, a) && !a.LoseLock?
    ensures Next(st, a).lost == {} && LiveRunsRun(Next(st, a))
  {
    var st' := Next(st, a);
    forall s | PhaseOf(st', s).Scanning? ensures RunsOn(st', PhaseOf(st', s)) {
      if s != a.s {
        OthersStay(st, a, s);
        OthersLiveRun(st, a, s);
      }
    }
  }

  lemma {:induction false} StaysClean(states: seq<State>, actions: seq<Action>, i: nat)
    requires Execution(states, actions) && i < |states| && LossFree(actions, i)
    ensures states[i].lost == {} && LiveRunsRun(states[i])
    decreases i
  {
    if i > 0 {
      StaysClean(states, actions, i - 1);
      InvHolds(states, actions, i - 1);
      StepStaysClean(states[i - 1], actions[i - 1]);
    }
  }

  /** At every moment at most one scan of a connection is live among those that
      still hold their lock; and if no lock was lost before its process, its run
      is 'running', or 'ok' by its own unread finish: no reconciliation has
      ended it. */
  lemma OneLiveScan(states: seq<State>, actions: seq<Action>, i: nat, s: Session, t: Session)
    requires Execution(states, actions) && i < |states|
    requires PhaseOf(states[i], s).Scanning? && PhaseOf(states[i], t).Scanning?
    requires PhaseOf(states[i], s).connection == PhaseOf(states[i], t).connection
    requires s !in states[i].lost && t !in states[i].lost
    ensures s == t
    ensures LossFree(actions, i) ==> RunsOn(states[i], PhaseOf(states[i], s))
  {
    InvHolds(states, actions, i);
    var c := PhaseOf(states[i], s).connection;
    assert states[i].locks[c] == s && states[i].locks[c] == t;
    if LossFree(actions, i) {
      StaysClean(states, actions, i);
    }
  }

  /** The update of a pass ends every 'running' run of its connection. A run it
      ends belongs to a session that is gone, unless the lock of that session or
      of the pass was lost. */
  lemma UpdateEndsOnlyTheDead(states: seq<State>, actions: seq<Action>, i: nat, r: nat)
    requires Execution(states, actions) && i < |actions| && actions[i].UpdateRuns? && r in states[i].runs
    ensures var c := PhaseOf(states[i], actions[i].s).connection;
            && (states[i + 1].runs[r].connection == c ==> states[i + 1].runs[r].status != Running)
            && (states[i + 1].runs[r] != states[i].runs[r] ==>
                  forall s :: PhaseOf(states[i], s).Scanning? && PhaseOf(states[i], s).run == r ==>
                    s in states[i].lost || actions[i].s in states[i].lost)
            && (LossFree(actions, i) ==> states[i].lost == {})
  {
    InvHolds(states, actions, i);
    var st, a := states[i], actions[i];
    if st.runs[r] != states[i + 1].runs[r] {
      forall s | PhaseOf(st, s).Scanning? && PhaseOf(st, s).run == r ensures s in st.lost || a.s in st.lost {
        if s !in st.lost && a.s !in st.lost {
          OthersLiveRun(st, a, s);
        }
      }
    }
    if LossFree(actions, i) {
      StaysClean(states, actions, i);
    }
  }

  /** When a pass ends, a run that was there when it began and is still
      'running' is on a connection the pass found locked; so every run a crash
      left behind is ended by the next pass that gets its lock. */
  lemma PassLeavesOnlyBusy(states: seq<State>, actions: seq<Action>, i: nat, r: nat)
    requires Execution(states, actions) && i < |actions| && actions[i].EndPass?
    requires var p := PhaseOf(states[i], actions[i].s); r < p.bound && r in states[i].runs && states[i].runs[r].status == Running
    ensures states[i].runs[r].connection in PhaseOf(states[i], actions[i].s).busy
  {
    InvHolds(states, actions, i);
  }

  // ---- when a final status is overwritten --------------------------------

  /** A scan finishes its run as 'ok' but cannot read it back. */
  ghost predicate FinishesUnread(states: seq<State>, actions: seq<Action>, k: nat, s: Session, r: nat)
    requires k < |actions| && k < |states|
  {
    var p := PhaseOf(states[k], s);
    actions[k] == FinishRun(s, false) && p.Scanning? && p.run == r && !p.failing
  }

  /** A pass ends the run of a scan that is still at work. */
  ghost predicate EndsLive(states: seq<State>, actions: seq<Action>, k: nat, s: Session, r: nat)
    requires k < |actions| && k < |states|
  {
    && actions[k].UpdateRuns? && Enabled(states[k], actions[k])
    && PhaseOf(states[k], s).Scanning? && PhaseOf(states[k], s).run == r
    && PhaseOf(states[k], s).connection == PhaseOf(states[k], actions[k].s).connection
  }

  lemma {:induction false} NotRunningAgain(states: seq<State>, actions: seq<Action>, i: nat, j: nat, r: nat)
    requires Execution(states, actions) && i <= j < |states|
    requires r in states[i].runs && states[i].runs[r].status != Running
    ensures r in states[j].runs && states[j].runs[r].status != Running
    decreases j
  {
    if i < j {
      NotRunningAgain(states, actions, i, j - 1, r);
      InvHolds(states, actions, j - 1);
      StatusMoves(states[j - 1], actions[j - 1], r);
    }
  }

  /** A scan at work whose run is not 'running' was ended by a pass, or has
      finished without reading that back. */
  lemma {:induction false} EndedBefore(states: seq<State>, actions: seq<Action>, i: nat, s: Session) returns (k: nat)
    requires Execution(states, actions) && i < |states| && PhaseOf(states[i], s).Scanning?
    requires var r := PhaseOf(states[i], s).run; r in states[i].runs && states[i].runs[r].status != Running
    ensures k < i
    ensures var r := PhaseOf(states[i], s).run;
            EndsLive(states, actions, k, s, r) || FinishesUnread(states, actions, k, s, r)
    decreases i
  {
    var r := PhaseOf(states[i], s).run;
    InvHolds(states, actions, i - 1);
    var st, a := states[i - 1], actions[i - 1];
    WasScanning(st, a, s);
    StatusMoves(st, a, r);
    if st.runs[r].status != Running {
      k := EndedBefore(states, actions, i - 1, s);
    } else {
      k := i - 1;
    }
  }

  lemma WasScanning(st: State, a: Action, s: Session)
    requires Inv(st) && Enabled(st, a) && PhaseOf(Next(st, a), s).Scanning?
    requires var r := PhaseOf(Next(st, a), s).run; r in Next(st, a).runs && Next(st, a).runs[r].status != Running
    ensures SameScan(PhaseOf(st, s), PhaseOf(Next(st, a), s))
    ensures a.FinishRun? && PhaseOf(st, a.s).run == PhaseOf(st, s).run ==>
              a == FinishRun(s, false) && !PhaseOf(st, s).failing
  {
    ScanningFrom(st, a, s);
  }

  /** Finishing a scan overwrites a final status exactly when, while it was at
      work, a pass had ended its run, or it had finished the run itself already
      and could not read that back. */
  lemma FinishOverwritesExactly(states: seq<State>, actions: seq<Action>, i: nat)
    requires Execution(states, actions) && i < |actions| && actions[i].FinishRun?
    ensures var s := actions[i].s;
            var r := PhaseOf(states[i], s).run;
            && r in states[i].runs
            && (states[i].runs[r].status != Running <==>
                exists k: nat :: k < i && (EndsLive(states, actions, k, s, r) || FinishesUnread(states, actions, k, s, r)))
  {
    InvHolds(states, actions, i);
    var s := actions[i].s;
    var r := PhaseOf(states[i], s).run;
    if states[i].runs[r].status != Running {
      var k := EndedBefore(states, actions, i, s);
    }
    if k: nat :| k < i && (EndsLive(states, actions, k, s, r) || FinishesUnread(states, actions, k, s, r)) {
      InvHolds(states, actions, k);
      assert r in states[k].runs && states[k + 1].runs[r].status != Running;
      NotRunningAgain(states, actions, k + 1, i, r);
    }
  }

  lemma LostBefore(st: State, a: Action, t: Session)
    requires Inv(st) && Enabled(st, a) && t in Next(st, a).lost && t !in st.lost
    ensures a == LoseLock(t) && PhaseOf(Next(st, a), t) == PhaseOf(st, t)
  {
  }

  lemma StillLost(st: State, a: Action, t: Session)
    requires Inv(st) && Enabled(st, a) && t in Next(st, a).lost && t in st.lost
    ensures Held(PhaseOf(Next(st, a), t)) == Held(PhaseOf(st, t))
  {
    if t != a.s {
      OthersStay(st, a, t);
    } else {
      StepFollows(st, a);
    }
  }

  lemma {:induction false} LostBy(states: seq<State>, actions: seq<Action>, k: nat, t: Session) returns (j: nat)
    requires Execution(states, actions) && k < |states| && t in states[k].lost
    ensures j < k && actions[j] == LoseLock(t) && Held(PhaseOf(states[j], t)) == Held(PhaseOf(states[k], t))
    decreases k
  {
    InvHolds(states, actions, k - 1);
    if t in states[k - 1].lost {
      StillLost(states[k - 1], actions[k - 1], t);
      j := LostBy(states, actions, k - 1, t);
    } else {
      LostBefore(states[k - 1], actions[k - 1], t);
      j := k - 1;
    }
  }

  lemma TwoHolders(st: State, s: Session, t: Session)
    requires LocksMatch(st) && s != t && Held(PhaseOf(st, s)).Some? && Held(PhaseOf(st, s)) == Held(PhaseOf(st, t))
    ensures s in st.lost || t in st.lost
  {
  }

  /** So a final status is overwritten only by the finish of a scan: of one that
      had finished before and could not read that back, or of one whose run a
      pass ended at work; and then, before that, the scan or the pass had lost
      its lock on the connection. */
  lemma OverwritesHaveACause(states: seq<State>, actions: seq<Action>, i: nat, r: nat) returns (k: nat, j: nat)
    requires Execution(states, actions) && i < |actions|
    requires r in states[i].runs && states[i].runs[r].status != Running && states[i + 1].runs[r] != states[i].runs[r]
    ensures actions[i].FinishRun? && PhaseOf(states[i], actions[i].s).run == r && k < i
    ensures || FinishesUnread(states, actions, k, actions[i].s, r)
            || (EndsLive(states, actions, k, actions[i].s, r) && j < k &&
                (actions[j] == LoseLock(actions[i].s) || actions[j] == LoseLock(actions[k].s)) &&
                Held(PhaseOf(states[j], actions[j].s)) == Some(states[i].runs[r].connection))
  {
    InvHolds(states, actions, i);
    StatusMoves(states[i], actions[i], r);
    var s := actions[i].s;
    k := EndedBefore(states, actions, i, s);
    j := 0;
    if EndsLive(states, actions, k, s, r) {
      InvHolds(states, actions, k);
      var t := actions[k].s;
      SameConnection(states, actions, k, i, r);
      TwoHolders(states[k], s, t);
      j := LostBy(states, actions, k, if s in states[k].lost then s else t);
    }
  }

  lemma {:induction false} SameConnection(states: seq<State>, actions: seq<Action>, i: nat, j: nat, r: nat)
    requires Execution(states, actions) && i <= j < |states| && r in states[i].runs
    ensures r in states[j].runs && states[j].runs[r].connection == states[i].runs[r].connection
    decreases j
  {
    if i < j {
      SameConnection(states, actions, i, j - 1, r);
      InvHolds(states, actions, j - 1);
      StatusMoves(states[j - 1], actions[j - 1], r);
    }
  }

  /** Nothing happens to a final status, or the scan that finished it as 'ok' and
      could not read that back finishes it as 'error'. */
  ghost predicate KeptOrRefinished(states: seq<State>, actions: seq<Action>, i: nat, j: nat, r: nat)
    requires i < |states| && j < |states| && j <= |actions| && r in states[i].runs && r in states[j].runs
  {
    var before, after := states[i].runs[r], states[j].runs[r];
    || after == before
    || (before.status == Ok && after == before.(status := Failed) &&
        exists k: nat, s :: k < j && FinishesUnread(states, actions, k, s, r))
  }

  lemma FinalStep(states: seq<State>, actions: seq<Action>, i: nat, r: nat)
    requires Execution(states, actions) && i < |actions| && LossFree(actions, i + 1)
    requires r in states[i].runs && states[i].runs[r].status != Running
    ensures r in states[i + 1].runs && KeptOrRefinished(states, actions, i, i + 1, r)
  {
    InvHolds(states, actions, i);
    StaysClean(states, actions, i);
    StatusMoves(states[i], actions[i], r);
    if states[i + 1].runs[r] != states[i].runs[r] {
      assert RunsOn(states[i], PhaseOf(states[i], actions[i].s));
      var k, l := OverwritesHaveACause(states, actions, i, r);
    }
  }

  /** As long as no lock is lost before its process, no reconciliation or other
      scan overwrites a final status, and the scan itself does only once, when
      it could not read back the 'ok' it wrote. */
  lemma {:induction false} FinalStatusStays(states: seq<State>, actions: seq<Action>, i: nat, j: nat, r: nat)
    requires Execution(states, actions) && i <= j < |states| && LossFree(actions, j)
    requires r in states[i].runs && states[i].runs[r].status != Running
    ensures r in states[j].runs && KeptOrRefinished(states, actions, i, j, r)
    decreases j
  {
    if i < j {
      FinalStatusStays(states, actions, i, j - 1, r);
      FinalStep(states, actions, j - 1, r);
    }
  }

  // ---- inputs ------------------------------------------------------------

  /** One more step of an execution. */
  lemma Extend(states: seq<State>, actions: seq<Action>, a: Action) returns (states': seq<State>, actions': seq<Action>)
    requires Execution(states, actions) && Enabled(states[|actions|], a)
    ensures Execution(states', actions') && actions' == actions + [a]
    ensures states' == states + [Next(states[|actions|], a)]
  {
    states', actions' := states + [Next(states[|actions|], a)], actions + [a];
  }

  /** A scan at work, and a pass at work on the run of a crashed scan. */
  function AtWork(c: string): State {
    State(map[0 := Scanning(c, 0, false)], map[c := 0], {}, map[0 := ScanRun(c, Running)], 1)
  }

  function PassAtWork(c: string): State {
    State(map[0 := Idle, 1 := Holding(c, {}, {}, 1)], map[c := 1], {}, map[0 := ScanRun(c, Running)], 1)
  }

  lemma ReachesAtWork(c: string) returns (states: seq<State>, actions: seq<Action>)
    ensures Execution(states, actions) && actions == [TryScan(0, c), CreateRun(0)] && states[2] == AtWork(c)
  {
    states, actions := Extend([Start()], [], TryScan(0, c));
    assert states[1].phases == map[0 := Locked(c)];
    states, actions := Extend(states, actions, CreateRun(0));
  }

  lemma ReachesPassAtWork(c: string) returns (states: seq<State>, actions: seq<Action>)
    ensures Execution(states, actions)
    ensures actions == [TryScan(0, c), CreateRun(0), Crash(0), StartPass(1), TryVisit(1, c)] && states[5] == PassAtWork(c)
  {
    states, actions := ReachesAtWork(c);
    states, actions := Extend(states, actions, Crash(0));
    assert states[3].locks == map[] && states[3].runs[0].connection == c;
    assert Stuck(states[3]) == {c};
    states, actions := Extend(states, actions, StartPass(1));
    assert states[4].phases == map[0 := Idle, 1 := Visiting({c}, {}, 1)];
    assert {c} - {c} == {};
    states, actions := Extend(states, actions, TryVisit(1, c));
  }

  /** A scan whose lock was lost, and a pass that visits its connection. */
  function PassOverScan(c: string): State {
    State(map[0 := Scanning(c, 0, false), 1 := Holding(c, {}, {}, 1)], map[c := 1], {0}, map[0 := ScanRun(c, Running)], 1)
  }

  lemma ReachesPassOverScan(c: string) returns (states: seq<State>, actions: seq<Action>)
    ensures Execution(states, actions)
    ensures actions == [TryScan(0, c), CreateRun(0), LoseLock(0), StartPass(1), TryVisit(1, c)] && states[5] == PassOverScan(c)
  {
    states, actions := ReachesAtWork(c);
    states, actions := Extend(states, actions, LoseLock(0));
    assert states[3].locks == map[] && states[3].runs[0].connection == c;
    assert Stuck(states[3]) == {c};
    states, actions := Extend(states, actions, StartPass(1));
    assert {c} - {c} == {};
    states, actions := Extend(states, actions, TryVisit(1, c));
  }

  /** A scan's lock is lost, a pass ends its run, and the scan overwrites that. */
  lemma ScanLosesLock(c: string) returns (states: seq<State>, actions: seq<Action>)
    ensures Execution(states, actions) && |actions| == 7 && actions[2] == LoseLock(0) && actions[6] == FinishRun(0, true)
    ensures 0 in states[6].runs && states[6].runs[0].status == Interrupted
    ensures 0 in states[7].runs && states[7].runs[0].status == Ok
  {
    states, actions := ReachesPassOverScan(c);
    states, actions := Extend(states, actions, UpdateRuns(1));
    assert states[6].runs[0] == ScanRun(c, Interrupted);
    states, actions := Extend(states, actions, FinishRun(0, true));
  }

  /** A pass whose lock was lost, and a scan that began meanwhile. */
  function ScanUnderPass(c: string): State {
    State(map[0 := Idle, 1 := Holding(c, {}, {}, 1), 2 := Scanning(c, 1, false)], map[c := 2], {1},
          map[0 := ScanRun(c, Running), 1 := ScanRun(c, Running)], 2)
  }

  lemma ReachesScanUnderPass(c: string) returns (states: seq<State>, actions: seq<Action>)
    ensures Execution(states, actions) && |actions| == 8 && actions[5] == LoseLock(1) && states[8] == ScanUnderPass(c)
  {
    states, actions := ReachesPassAtWork(c);
    states, actions := Extend(states, actions, LoseLock(1));
    assert states[6].locks == map[] && states[6].lost == {1};
    states, actions := Extend(states, actions, TryScan(2, c));
    assert PhaseOf(states[7], 2) == Locked(c);
    states, actions := Extend(states, actions, CreateRun(2));
  }

  /** Or the pass's lock is lost between taking it and the update: it ends the
      run of a scan that began meanwhile and holds its lock. */
  lemma PassLosesLock(c: string) returns (states: seq<State>, actions: seq<Action>)
    ensures Execution(states, actions) && |actions| == 10 && actions[5] == LoseLock(1) && actions[9] == FinishRun(2, true)
    ensures PhaseOf(states[9], 2).Scanning? && states[9].lost == {1}
    ensures 1 in states[9].runs && states[9].runs[1].status == Interrupted
    ensures 1 in states[10].runs && states[10].runs[1].status == Ok
  {
    states, actions := ReachesScanUnderPass(c);
    states, actions := Extend(states, actions, UpdateRuns(1));
    states, actions := Extend(states, actions, FinishRun(2, true));
  }

  /** Or no lock is lost at all: a scan finishes as 'ok', cannot read that back,
      and finishes as 'error'. */
  lemma UnreadFinishIsOverwritten(c: string) returns (states: seq<State>, actions: seq<Action>)
    ensures Execution(states, actions)
    ensures actions == [TryScan(0, c), CreateRun(0), FinishRun(0, false), FinishRun(0, true)]
    ensures 0 in states[3].runs && states[3].runs[0].status == Ok
    ensures 0 in states[4].runs && states[4].runs[0].status == Failed
  {
    states, actions := ReachesAtWork(c);
    states, actions := Extend(states, actions, FinishRun(0, false));
    states, actions := Extend(states, actions, FinishRun(0, true));
  }
}
