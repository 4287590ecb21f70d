/** The login limiter (backend/app/auth.py): a failure count per address and a
    deployment-wide window, both shared by every worker under one lock.

    Instants are integer microseconds; announced waits are whole seconds. */
module LoginLimiter {
  import opened Basics

  const SECOND := 1_000_000
  const BACKOFF_AFTER := 5
  const BACKOFF_MAX := 60
  const MAX_TRACKED := 10_000
  const ENTRY_TTL := 900_000_000
  const GLOBAL_LIMIT := 30
  const GLOBAL_WINDOW := 60_000_000

  /** A row of login_failures. */
  datatype Entry = Entry(failures: nat, last: int, updatedSeq: nat)

  /** A row of login_failure_window. */
  datatype Stamp = Stamp(id: nat, at: int)

  /** The two tables and their identity columns. */
  datatype Tables = Tables(failures: map<string, Entry>, window: seq<Stamp>, nextId: nat, nextSeq: nat)

  // ---- the statements ----------------------------------------------------

  predicate Newer(q: Stamp, r: Stamp) { q.at > r.at || (q.at == r.at && q.id > r.id) }

  /** Among the `n` newest rows of the window table. */
  predicate InNewest(rows: seq<Stamp>, r: Stamp, n: nat) {
    |set j | 0 <= j < |rows| && Newer(rows[j], r)| < n
  }

  function Live(rows: seq<Stamp>, all: seq<Stamp>, now: int): seq<Stamp> {
    if rows == [] then []
    else
      (if now - rows[0].at >= GLOBAL_WINDOW || !InNewest(all, rows[0], GLOBAL_LIMIT) then [] else [rows[0]])
      + Live(rows[1..], all, now)
  }

  function Unexpired(failures: map<string, Entry>, now: int): map<string, Entry> {
    map ip | ip in failures && !(now - failures[ip].last > ENTRY_TTL) :: failures[ip]
  }

  function Sweep(t: Tables, now: int): Tables {
    t.(failures := Unexpired(t.failures, now), window := Live(t.window, t.window, now))
  }

  function OldestAt(rows: seq<Stamp>): (m: int)
    requires rows != []
    ensures exists i :: 0 <= i < |rows| && rows[i].at == m
    ensures forall i :: 0 <= i < |rows| ==> m <= rows[i].at
  {
    if |rows| == 1 then rows[0].at
    else
      assert forall i :: 1 <= i < |rows| ==> rows[i] == rows[1..][i - 1];
      var m := OldestAt(rows[1..]);
      if rows[0].at < m then rows[0].at else m
  }

  function GlobalWait(t: Tables, now: int): int {
    if |t.window| < GLOBAL_LIMIT then 0 else OldestAt(t.window) + GLOBAL_WINDOW - now
  }

  function Pow2(n: nat): (p: nat)
    ensures p >= 1
  {
    if n == 0 then 1 else 2 * Pow2(n - 1)
  }

  /** How long an address waits after that many failures. */
  function Backoff(failures: nat): (wait: nat)
    requires failures >= BACKOFF_AFTER
    ensures SECOND <= wait <= BACKOFF_MAX * SECOND
  {
    var exp := Min(failures - BACKOFF_AFTER, 10);
    Min(Pow2(exp), BACKOFF_MAX) * SECOND
  }

  lemma {:induction false} Pow2Grows(m: nat, n: nat)
    requires m <= n
    ensures Pow2(m) <= Pow2(n)
    decreases n
  {
    if m < n {
      Pow2Grows(m, n - 1);
    }
  }

  /** The first wait is a second, and each failure doubles it up to a minute. */
  lemma BackoffDoubles(failures: nat)
    requires failures >= BACKOFF_AFTER
    ensures Backoff(5) == 1_000_000
    ensures Backoff(failures + 1) == Min(2 * Backoff(failures), 60_000_000)
  {
    assert Pow2(3) == 8;
    assert Pow2(6) == 64 by { assert Pow2(6) == 8 * Pow2(3); }
    var exp := failures - BACKOFF_AFTER;
    if exp >= 6 {
      Pow2Grows(6, Min(exp, 10));
      Pow2Grows(6, Min(exp + 1, 10));
    }
  }

  function IpWait(t: Tables, ip: string, now: int): int {
    if ip !in t.failures || t.failures[ip].failures < BACKOFF_AFTER then 0
    else t.failures[ip].last + Backoff(t.failures[ip].failures) - now
  }

  /** The wait before rounding; not positive when the client may try. */
  function Remaining(t: Tables, ip: string, now: int): int {
    Max(IpWait(t, ip, now), GlobalWait(t, now))
  }

  function CeilSeconds(x: int): int { if x > 0 then (x + SECOND - 1) / SECOND else 0 }

  function Wait(t: Tables, ip: string, now: int): (wait: int)
    ensures wait >= 0 && (wait == 0 <==> Remaining(t, ip, now) <= 0)
  {
    CeilSeconds(Remaining(t, ip, now))
  }

  predicate Fresher(a: Entry, b: Entry) { a.last > b.last || (a.last == b.last && a.updatedSeq > b.updatedSeq) }

  /** Only the `n` most recently updated addresses. */
  function Freshest(failures: map<string, Entry>, n: nat): map<string, Entry> {
    map ip | ip in failures && |set q | q in failures && Fresher(failures[q], failures[ip])| < n :: failures[ip]
  }

  /** One more failure of the address, and one more row of the window. */
  function Counted(t: Tables, ip: string, now: int): Tables {
    var failures := if ip in t.failures then t.failures[ip].failures + 1 else 1;
    Tables(t.failures[ip := Entry(failures, now, t.nextSeq)], t.window + [Stamp(t.nextId, now)], t.nextId + 1, t.nextSeq + 1)
  }

  function CountFailure(t: Tables, ip: string, now: int): Tables {
    var swept := Sweep(Counted(t, ip, now), now);
    swept.(failures := Freshest(swept.failures, MAX_TRACKED))
  }

  // ---- the operations ----------------------------------------------------

  datatype Begun = Begun(tables: Tables, wait: int, stamp: int)

  function BeginAttempt(t: Tables, ip: string, now: int): Begun {
    var swept := Sweep(t, now);
    var wait := Wait(swept, ip, now);
    if wait != 0 then Begun(swept, wait, 0) else Begun(CountFailure(swept, ip, now), 0, now)
  }

  /** Without the youngest row of that stamp; rows are in id order. */
  function WithoutYoungest(rows: seq<Stamp>, stamp: int): seq<Stamp> {
    if rows == [] then []
    else
      var n := |rows| - 1;
      if rows[n].at == stamp then rows[..n] else WithoutYoungest(rows[..n], stamp) + [rows[n]]
  }

  function FinishAttempt(t: Tables, ip: string, stamp: int, success: bool): Tables {
    if !success then t
    else t.(failures := t.failures - {ip}, window := WithoutYoungest(t.window, stamp))
  }

  function LoginBlocked(t: Tables, ip: string, now: int): (Tables, int) {
    (Sweep(t, now), Wait(Sweep(t, now), ip, now))
  }

  // ---- sweeping ----------------------------------------------------------

  /** Rows in the order they were inserted. */
  ghost predicate Ascends(rows: seq<Stamp>) {
    forall i, j :: 0 <= i < j < |rows| ==> rows[i].id < rows[j].id
  }

  /** `id` is a key drawn from the identity column. */
  ghost predicate IdsAscend(t: Tables) {
    Ascends(t.window) && forall i :: 0 <= i < |t.window| ==> t.window[i].id < t.nextId
  }

  lemma {:induction false} BelowSize(s: set<int>, n: nat)
    requires forall x :: x in s ==> 0 <= x < n
    ensures |s| <= n
    decreases n
  {
    if s != {} {
      var x := Inhabited(s);
      BelowSize(s - {n - 1}, n - 1);
    }
  }

  /** A table within the limit has no row outside its newest. */
  lemma AllNewest(rows: seq<Stamp>, i: nat, n: nat)
    requires i < |rows| <= n
    ensures InNewest(rows, rows[i], n)
  {
    var newer := set j | 0 <= j < |rows| && Newer(rows[j], rows[i]);
    assert i !in newer;
    BelowSize(newer + {i}, |rows|);
  }

  /** The stamps of a table. */
  function Ats(rows: seq<Stamp>): (s: seq<int>)
    ensures |s| == |rows|
    ensures forall i :: 0 <= i < |rows| ==> s[i] == rows[i].at
  {
    if rows == [] then [] else [rows[0].at] + Ats(rows[1..])
  }

  /** While the table is within the limit, sweeping removes exactly the stamps
      that have left the window. */
  lemma {:induction false} LiveStamps(rows: seq<Stamp>, all: seq<Stamp>, now: int, x: int)
    requires forall r :: r in rows ==> InNewest(all, r, GLOBAL_LIMIT)
    ensures Count(Ats(Live(rows, all, now)), x) == if now - x < GLOBAL_WINDOW then Count(Ats(rows), x) else 0
    decreases |rows|
  {
    if rows != [] {
      var r, more := rows[0], rows[1..];
      var rest := Live(more, all, now);
      LiveStamps(more, all, now, x);
      AtsHead(r, more, x);
      AtsHead(r, rest, x);
      assert rows == [r] + more;
      assert Live(rows, all, now) == if now - r.at < GLOBAL_WINDOW then [r] + rest else rest;
    }
  }

  lemma AtsHead(r: Stamp, rows: seq<Stamp>, x: int)
    ensures Count(Ats([r] + rows), x) == (if r.at == x then 1 else 0) + Count(Ats(rows), x)
  {
    assert ([r] + rows)[1..] == rows;
    assert Ats([r] + rows) == [r.at] + Ats(rows);
    CountHead(r.at, Ats(rows), x);
  }

  ghost predicate Sublist(a: seq<Stamp>, b: seq<Stamp>) {
    |a| <= |b| && forall r :: r in a ==> r in b
  }

  lemma AscendsHead(r: Stamp, rest: seq<Stamp>)
    requires Ascends(rest) && forall q :: q in rest ==> r.id < q.id
    ensures Ascends([r] + rest)
  {
  }

  lemma {:induction false} LiveIsSublist(rows: seq<Stamp>, all: seq<Stamp>, now: int)
    ensures Sublist(Live(rows, all, now), rows)
    ensures forall r :: r in Live(rows, all, now) ==> now - r.at < GLOBAL_WINDOW
    decreases |rows|
  {
    if rows != [] {
      LiveIsSublist(rows[1..], all, now);
      assert rows == [rows[0]] + rows[1..];
    }
  }

  lemma {:induction false} LiveAscends(rows: seq<Stamp>, all: seq<Stamp>, now: int)
    requires Ascends(rows)
    ensures Ascends(Live(rows, all, now))
    decreases |rows|
  {
    if rows != [] {
      var rest := Live(rows[1..], all, now);
      LiveAscends(rows[1..], all, now);
      LiveIsSublist(rows[1..], all, now);
      forall q | q in rest ensures rows[0].id < q.id {
        assert q in rows[1..];
      }
      AscendsHead(rows[0], rest);
      assert [] + rest == rest;
    }
  }

  lemma SweepFacts(t: Tables, now: int)
    requires IdsAscend(t)
    ensures var s := Sweep(t, now);
            && IdsAscend(s) && Sublist(s.window, t.window)
            && (forall r :: r in s.window ==> now - r.at < GLOBAL_WINDOW)
  {
    LiveIsSublist(t.window, t.window, now);
    LiveAscends(t.window, t.window, now);
    var s := Sweep(t, now);
    forall i | 0 <= i < |s.window| ensures s.window[i].id < t.nextId {
      assert s.window[i] in t.window;
    }
  }

  lemma SweepStamps(t: Tables, now: int, x: int)
    requires |t.window| <= 30
    ensures Count(Ats(Sweep(t, now).window), x) == if now - x < 60_000_000 then Count(Ats(t.window), x) else 0
  {
    forall r | r in t.window ensures InNewest(t.window, r, GLOBAL_LIMIT) {
      var i :| 0 <= i < |t.window| && t.window[i] == r;
      AllNewest(t.window, i, GLOBAL_LIMIT);
    }
    LiveStamps(t.window, t.window, now, x);
  }

  /** Nothing has left the window: sweeping keeps the table as it is. */
  lemma {:induction false} LiveAll(rows: seq<Stamp>, all: seq<Stamp>, now: int)
    requires forall i :: 0 <= i < |rows| ==> InNewest(all, rows[i], GLOBAL_LIMIT) && now - rows[i].at < GLOBAL_WINDOW
    ensures Live(rows, all, now) == rows
    decreases |rows|
  {
    if rows != [] {
      assert forall i :: 0 <= i < |rows[1..]| ==> rows[1..][i] == rows[i + 1];
      LiveAll(rows[1..], all, now);
      assert rows == [rows[0]] + rows[1..];
    }
  }

  /** What a sweep leaves: the addresses that failed within a quarter of an hour,
      and of the rows younger than a minute those with fewer than thirty newer. */
  lemma SweepKeeps(t: Tables, now: int, ip: string, r: Stamp)
    ensures ip in Sweep(t, now).failures <==> ip in t.failures && now - t.failures[ip].last <= 900_000_000
    ensures ip in Sweep(t, now).failures ==> Sweep(t, now).failures[ip] == t.failures[ip]
    ensures r in Sweep(t, now).window <==>
            r in t.window && now - r.at < 60_000_000
            && |set j | 0 <= j < |t.window| && (t.window[j].at > r.at || (t.window[j].at == r.at && t.window[j].id > r.id))| < 30
    ensures Sweep(t, now).nextId == t.nextId && Sweep(t, now).nextSeq == t.nextSeq
  {
    LiveHas(t.window, t.window, now, r);
    assert (set j | 0 <= j < |t.window| && Newer(t.window[j], r)) ==
           set j | 0 <= j < |t.window| && (t.window[j].at > r.at || (t.window[j].at == r.at && t.window[j].id > r.id));
  }

  lemma {:induction false} LiveHas(rows: seq<Stamp>, all: seq<Stamp>, now: int, r: Stamp)
    ensures r in Live(rows, all, now) <==> r in rows && now - r.at < GLOBAL_WINDOW && InNewest(all, r, GLOBAL_LIMIT)
    decreases |rows|
  {
    if rows != [] {
      LiveHas(rows[1..], all, now, r);
      assert rows == [rows[0]] + rows[1..];
    }
  }

  /** Success gives back the youngest row of its stamp and no other. */
  lemma {:induction false} YoungestGoes(rows: seq<Stamp>, stamp: int, r: Stamp)
    requires Ascends(rows)
    ensures r in WithoutYoungest(rows, stamp) <==>
            r in rows && (r.at == stamp ==> exists q :: q in rows && q.at == stamp && q.id > r.id)
    decreases |rows|
  {
    if rows != [] {
      var n := |rows| - 1;
      var front, last := rows[..n], rows[n];
      YoungestGoes(front, stamp, r);
      assert rows == front + [last] && forall q :: q in front ==> q.id < last.id;
      assert last in rows && forall q :: q in rows <==> q in front || q == last;
    }
  }

  /** Eviction keeps the addresses with fewer than n that failed later, or at the
      same instant but were counted later. */
  lemma FreshestKeeps(failures: map<string, Entry>, n: nat, ip: string)
    ensures ip in Freshest(failures, n) <==>
            ip in failures &&
            |set q | q in failures && (failures[q].last > failures[ip].last ||
                       (failures[q].last == failures[ip].last && failures[q].updatedSeq > failures[ip].updatedSeq))| < n
    ensures ip in Freshest(failures, n) ==> Freshest(failures, n)[ip] == failures[ip]
  {
    if ip in failures {
      assert (set q | q in failures && Fresher(failures[q], failures[ip])) ==
             set q | q in failures && (failures[q].last > failures[ip].last ||
               (failures[q].last == failures[ip].last && failures[q].updatedSeq > failures[ip].updatedSeq));
    }
  }

  /** What counting does: one more failure of the address, as of now, and one more
      row of the window, also as of now, under the next keys. */
  lemma CountedIs(t: Tables, ip: string, now: int)
    ensures var t' := Counted(t, ip, now);
            && t'.window == t.window + [Stamp(t.nextId, now)] && t.nextId < t'.nextId && t.nextSeq < t'.nextSeq
            && ip in t'.failures && t'.failures[ip].last == now && t'.failures[ip].updatedSeq == t.nextSeq
            && t'.failures[ip].failures == (if ip in t.failures then t.failures[ip].failures + 1 else 1)
            && t'.failures - {ip} == t.failures - {ip}
  {
  }

  // ---- a refusal is exact ------------------------------------------------

  /** Left alone, an address's wait runs out when it said it would. */
  lemma IpWaitLater(t: Tables, ip: string, now: int, later: int)
    requires now <= later
    ensures IpWait(Sweep(t, later), ip, later) > 0 <==> later < now + IpWait(t, ip, now)
  {
  }

  /** And so does the wait for the window. */
  lemma GlobalWaitLater(t: Tables, now: int, later: int)
    requires IdsAscend(t) && |t.window| <= GLOBAL_LIMIT && now <= later
    ensures GlobalWait(Sweep(t, later), later) > 0 <==> later < now + GlobalWait(t, now)
  {
    LiveShorter(t.window, t.window, later);
    if |t.window| == GLOBAL_LIMIT {
      if later < OldestAt(t.window) + GLOBAL_WINDOW {
        forall i | 0 <= i < |t.window| ensures InNewest(t.window, t.window[i], GLOBAL_LIMIT) {
          AllNewest(t.window, i, GLOBAL_LIMIT);
        }
        LiveAll(t.window, t.window, later);
      } else {
        FewerLive(t, later);
      }
    }
  }

  /** A refusal announces the wait rounded up to a second. Left alone, the same
      client is refused at every instant before the unrounded wait has passed,
      and admitted at every instant from then on. */
  lemma RefusalIsExact(t: Tables, ip: string, now: int, later: int)
    requires IdsAscend(t) && |t.window| <= GLOBAL_LIMIT && now <= later
    requires BeginAttempt(t, ip, now).wait != 0
    ensures var refused := BeginAttempt(t, ip, now);
            var remaining := Remaining(refused.tables, ip, now);
            && (refused.wait - 1) * SECOND < remaining <= refused.wait * SECOND
            && (BeginAttempt(refused.tables, ip, later).wait != 0 <==> later < now + remaining)
  {
    var s := Sweep(t, now);
    SweepFacts(t, now);
    LiveShorter(t.window, t.window, now);
    IpWaitLater(s, ip, now, later);
    GlobalWaitLater(s, now, later);
  }

  // ---- how long a client waits, in terms of the rows ---------------------

  /** The instant from which the address may try, as its row has it: after fewer
      than five failures, or when the last is more than a quarter of an hour ago,
      at once; else one second after the last, doubled with each failure beyond
      the fifth up to a minute. */
  ghost predicate AddressFree(t: Tables, ip: string, now: int, from: int) {
    if ip !in t.failures || now - t.failures[ip].last > 900_000_000 || t.failures[ip].failures < 5 then from == now
    else
      var k := t.failures[ip].failures - 5;
      from == t.failures[ip].last + (if k >= 6 then 60 else Pow2(k)) * 1_000_000
  }

  /** The instant from which the window may take an attempt: at once, unless all
      of thirty rows are younger than a minute; else when the oldest is a minute
      old. */
  ghost predicate WindowFree(t: Tables, now: int, from: int) {
    if |t.window| == 30 && forall i :: 0 <= i < 30 ==> now - t.window[i].at < 60_000_000
    then
      && (exists i :: 0 <= i < 30 && from == t.window[i].at + 60_000_000)
      && (forall i :: 0 <= i < 30 ==> from <= t.window[i].at + 60_000_000)
    else from == now
  }

  lemma PowersOfTwo(k: nat)
    ensures Pow2(0) == 1 && Pow2(1) == 2 && Pow2(2) == 4 && Pow2(3) == 8 && Pow2(4) == 16 && Pow2(5) == 32
    ensures k >= 6 ==> Pow2(k) >= 64
  {
    assert Pow2(4) == 2 * Pow2(3) && Pow2(3) == 2 * Pow2(2) && Pow2(2) == 2 * Pow2(1) && Pow2(1) == 2 * Pow2(0);
    assert Pow2(6) == 2 * Pow2(5) && Pow2(5) == 2 * Pow2(4);
    if k >= 6 {
      Pow2Grows(6, k);
    }
  }

  lemma AddressWait(t: Tables, ip: string, now: int, from: int)
    requires AddressFree(t, ip, now, from)
    ensures IpWait(Sweep(t, now), ip, now) == from - now
  {
    if ip in t.failures && t.failures[ip].failures >= 5 {
      var k := t.failures[ip].failures - 5;
      PowersOfTwo(k);
      PowersOfTwo(Min(k, 10));
      if k <= 5 {
        Pow2Grows(k, 5);
      }
    }
  }

  lemma WindowWait(t: Tables, now: int, from: int)
    requires |t.window| <= 30 && WindowFree(t, now, from)
    ensures GlobalWait(Sweep(t, now), now) == from - now
  {
    forall i | 0 <= i < |t.window| ensures InNewest(t.window, t.window[i], GLOBAL_LIMIT) {
      AllNewest(t.window, i, GLOBAL_LIMIT);
    }
    if forall i :: 0 <= i < |t.window| ==> now - t.window[i].at < 60_000_000 {
      LiveAll(t.window, t.window, now);
    } else {
      var i :| 0 <= i < |t.window| && !(now - t.window[i].at < 60_000_000);
      LiveDrops(t.window, t.window, now, i);
    }
  }

  /** An attempt is admitted exactly from the instant on at which both the address
      and the window are free; before that the announced wait is the time left,
      rounded up to whole seconds. */
  lemma WaitExactly(t: Tables, ip: string, now: int, address: int, window: int)
    requires |t.window| <= 30 && AddressFree(t, ip, now, address) && WindowFree(t, now, window)
    ensures var begun := BeginAttempt(t, ip, now);
            var from := if address <= window then window else address;
            && (begun.wait == 0 <==> from <= now)
            && (now < from ==> (begun.wait - 1) * 1_000_000 < from - now <= begun.wait * 1_000_000)
            && begun.stamp == (if begun.wait == 0 then now else 0)
            && LoginBlocked(t, ip, now).1 == begun.wait
  {
    AddressWait(t, ip, now, address);
    WindowWait(t, now, window);
  }

  lemma AdmittedExactly(t: Tables, ip: string, now: int)
    requires |t.window| <= 30
    ensures forall a, w :: AddressFree(t, ip, now, a) && WindowFree(t, now, w) ==>
              (BeginAttempt(t, ip, now).wait == 0 <==> a <= now && w <= now)
  {
    forall a, w | AddressFree(t, ip, now, a) && WindowFree(t, now, w)
      ensures BeginAttempt(t, ip, now).wait == 0 <==> a <= now && w <= now
    {
      WaitExactly(t, ip, now, a, w);
    }
  }

  /** Once the oldest stamp has left the window the table is below the limit. */
  lemma FewerLive(t: Tables, later: int)
    requires IdsAscend(t) && t.window != [] && OldestAt(t.window) + GLOBAL_WINDOW <= later
    ensures |Sweep(t, later).window| < |t.window|
  {
    var i :| 0 <= i < |t.window| && t.window[i].at == OldestAt(t.window);
    LiveDrops(t.window, t.window, later, i);
  }

  lemma {:induction false} LiveDrops(rows: seq<Stamp>, all: seq<Stamp>, now: int, i: nat)
    requires i < |rows| && now - rows[i].at >= GLOBAL_WINDOW
    ensures |Live(rows, all, now)| < |rows|
    decreases |rows|
  {
    LiveShorter(rows[1..], all, now);
    if i > 0 {
      LiveDrops(rows[1..], all, now, i - 1);
    }
  }

  lemma {:induction false} LiveShorter(rows: seq<Stamp>, all: seq<Stamp>, now: int)
    ensures |Live(rows, all, now)| <= |rows|
    decreases |rows|
  {
    if rows != [] {
      LiveShorter(rows[1..], all, now);
    }
  }

  /** At most `n` addresses are kept. */
  lemma FreshestBounded(failures: map<string, Entry>, n: nat)
    requires SeqsDistinct(failures)
    ensures |Freshest(failures, n)| <= n
  {
    var kept := Freshest(failures, n).Keys;
    if kept != {} {
      var x := StalestOf(failures, kept);
      var fresher := set q | q in failures && Fresher(failures[q], failures[x]);
      SubsetSize(kept - {x}, fresher);
    }
  }

  ghost predicate SeqsDistinct(failures: map<string, Entry>) {
    forall a, b :: a in failures && b in failures && failures[a].updatedSeq == failures[b].updatedSeq ==> a == b
  }

  lemma {:induction false} StalestOf(failures: map<string, Entry>, ips: set<string>) returns (x: string)
    requires ips != {} && ips <= failures.Keys && SeqsDistinct(failures)
    ensures x in ips && forall q :: q in ips && q != x ==> Fresher(failures[q], failures[x])
    decreases |ips|
  {
    var y := Inhabited(ips);
    var rest := ips - {y};
    if rest == {} {
      x := y;
      assert ips == {y};
    } else {
      var z := StalestOf(failures, rest);
      assert failures[y].updatedSeq != failures[z].updatedSeq;
      x := if Fresher(failures[z], failures[y]) then y else z;
    }
  }

  lemma CountedOld(t: Tables, ip: string, now: int)
    requires EntriesOld(t, now)
    ensures EntriesOld(Counted(t, ip, now), now)
  {
  }

  /** Nothing is fresher than what was counted last. */
  lemma NoneFresher(t: Tables, ip: string, now: int)
    requires EntriesOld(t, now)
    ensures var counted := Counted(t, ip, now).failures;
            forall q :: q in counted ==> !Fresher(counted[q], counted[ip])
  {
  }

  /** The address just counted is never the one evicted, and the table stays
      within its bound. */
  lemma JustCountedIsKept(t: Tables, ip: string, now: int)
    requires EntriesOld(t, now)
    ensures var t' := CountFailure(t, ip, now);
            && ip in t'.failures && t'.failures[ip].last == now
            && t'.failures[ip].failures == (if ip in t.failures then t.failures[ip].failures + 1 else 1)
            && |t'.failures| <= 10_000
            && EntriesOld(t', now)
  {
    CountedOld(t, ip, now);
    NoneFresher(t, ip, now);
    var live := Sweep(Counted(t, ip, now), now).failures;
    assert (set q | q in live && Fresher(live[q], live[ip])) == {};
    FreshestBounded(live, MAX_TRACKED);
  }

  /** Entries are not from the future and carry distinct sequence numbers. */
  ghost predicate EntriesOld(t: Tables, now: int) {
    && SeqsDistinct(t.failures)
    && forall ip :: ip in t.failures ==> t.failures[ip].last <= now && t.failures[ip].updatedSeq < t.nextSeq
  }
}
