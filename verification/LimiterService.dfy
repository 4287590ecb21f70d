/** The limiter as it runs: two tables changed in place, one statement at a
    time, under one lock (backend/app/auth.py). The history of attempts is kept
    beside the tables to say what they mean. */
module LimiterService {
  import L = LoginLimiter
  import R = LimiterRuns

  class LoginTables {
    var failures: map<string, L.Entry>
    var window: seq<L.Stamp>
    var nextId: nat
    var nextSeq: nat
    ghost var history: seq<R.Attempt>
    ghost var succeeded: set<string>
    ghost var clock: int

    constructor (ghost clock: int)
      ensures Valid() && System() == R.Start(clock)
    {
      failures, window, nextId, nextSeq := map[], [], 0, 0;
      history, succeeded, this.clock := [], {}, clock;
      new;
      R.EmptyTablesAreFair(clock);
    }

    function State(): L.Tables
      reads this
    {
      L.Tables(failures, window, nextId, nextSeq)
    }

    ghost function System(): R.System
      reads this
    {
      R.System(State(), history, succeeded, clock)
    }

    /** The window table holds the live unforgiven stamps, no minute holds more
        than the limit of them, every entry is its address's latest attempt, and
        attempts of one address are apart. */
    ghost predicate Valid()
      reads this
    {
      R.Sane(System()) && R.Spaced(history)
    }

    method Sweep(now: int)
      modifies this`failures, this`window
      ensures State() == L.Sweep(old(State()), now)
    {
      failures := L.Unexpired(failures, now);
      window := L.Live(window, window, now);
    }

    method CountFailure(ip: string, now: int)
      modifies this`failures, this`window, this`nextId, this`nextSeq
      ensures State() == L.CountFailure(old(State()), ip, now)
    {
      window := window + [L.Stamp(nextId, now)];
      nextId := nextId + 1;
      var before := if ip in failures then failures[ip].failures else 0;
      failures := failures[ip := L.Entry(before + 1, now, nextSeq)];
      nextSeq := nextSeq + 1;
      assert State() == L.Counted(old(State()), ip, now);
      Sweep(now);
      failures := L.Freshest(failures, L.MAX_TRACKED);
    }

    /** How long the client must wait; nothing is counted. */
    method LoginBlocked(ip: string, now: int) returns (wait: int)
      requires Valid() && clock <= now
      modifies this
      ensures Valid() && System() == R.Next(old(System()), R.Check(ip, now))
      ensures wait == L.Wait(State(), ip, now)
    {
      R.StepKeepsSane(System(), R.Check(ip, now));
      Sweep(now);
      wait := L.Wait(State(), ip, now);
      clock := now;
    }

    /** A non-zero wait means refused; otherwise the attempt is already counted,
        and with it no minute holds more than the limit of unforgiven ones. */
    method BeginAttempt(ip: string, now: int) returns (wait: int, stamp: int)
      requires Valid() && clock <= now
      modifies this
      ensures Valid() && System() == R.Next(old(System()), R.Begin(ip, now))
      ensures L.Begun(State(), wait, stamp) == L.BeginAttempt(old(State()), ip, now)
      ensures forall t: int :: |R.InWindow(R.Unforgiven(history), t)| <= 30
      ensures wait == 0 <==> |history| == |old(history)| + 1
      ensures forall a, w :: L.AddressFree(old(State()), ip, now, a) && L.WindowFree(old(State()), now, w) ==>
                (wait == 0 <==> a <= now && w <= now)
    {
      L.AdmittedExactly(State(), ip, now);
      R.StepKeepsSane(System(), R.Begin(ip, now));
      R.BeginKeepsSpacing(System(), ip, now);
      ghost var next := R.Next(System(), R.Begin(ip, now));
      Sweep(now);
      wait, stamp := L.Wait(State(), ip, now), 0;
      if wait == 0 {
        CountFailure(ip, now);
        stamp := now;
      }
      history, succeeded, clock := next.history, next.succeeded, now;
    }

    /** Finishes attempt k. A success clears its address's wait and gives back
        one stamp; a failure changes neither table. */
    method FinishAttempt(ip: string, stamp: int, success: bool, ghost k: nat)
      requires Valid() && R.Enabled(System(), R.Finish(k, success))
      requires history[k].ip == ip && history[k].stamp == stamp
      modifies this
      ensures Valid() && System() == R.Next(old(System()), R.Finish(k, success))
      ensures !success ==> State() == old(State())
      ensures success ==> forall now :: L.IpWait(State(), ip, now) == 0
    {
      R.StepKeepsSane(System(), R.Finish(k, success));
      R.FinishKeepsSpacing(System(), k, success);
      ghost var next := R.Next(System(), R.Finish(k, success));
      history, succeeded := next.history, next.succeeded;
      if !success {
        return;
      }
      failures := failures - {ip};
      window := L.WithoutYoungest(window, stamp);
    }
  }
}
