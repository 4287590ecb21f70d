/** Tiered retention of scheduled snapshots (backend/app/snapshots/store.py).

    Instants are integer microseconds since the epoch. The start of the local
    calendar day an instant falls in is a parameter, since the timezone rules
    are outside the program. */
module Retention {
  import opened Text

  const HOUR := 3_600_000_000
  const DAY := 86_400_000_000

  datatype Snapshot = Snapshot(id: string, created: int)

  datatype Policy = Policy(recentDays: int, hourlyDays: int, dailyDays: int)

  /** What the settings API accepts. */
  predicate Ordered(p: Policy) { 1 <= p.recentDays <= p.hourlyDays <= p.dailyDays }

  /** The starting midnight of an instant's local day. */
  type DayMark = int -> int

  // ---- marks -------------------------------------------------------------

  function Abs(x: int): int { if x < 0 then -x else x }

  /** The hour mark closest to t; a half-way tie rounds up. */
  function NearestMark(t: int): int {
    var whole, rem := t / HOUR, t % HOUR;
    if rem * 2 >= HOUR then whole * HOUR + HOUR else whole * HOUR
  }

  /** No hour mark is closer, and of two equally close ones it is the later. */
  lemma NearestMarkIsNearest(t: int, k: int)
    ensures NearestMark(t) % 3_600_000_000 == 0 && -1_800_000_000 < NearestMark(t) - t <= 1_800_000_000
    ensures Abs(t - NearestMark(t)) <= Abs(t - k * HOUR)
    ensures Abs(t - NearestMark(t)) == Abs(t - k * HOUR) ==> k * HOUR <= NearestMark(t)
  {
    var whole, rem := t / HOUR, t % HOUR;
    assert t == whole * HOUR + rem;
    if k <= whole {
      assert k * HOUR <= whole * HOUR;
    } else {
      assert k * HOUR >= (whole + 1) * HOUR;
    }
  }

  // ---- the rule ----------------------------------------------------------

  datatype Tier = Recent | Hourly | Daily | Expired

  function TierOf(created: int, p: Policy, at: int): Tier {
    var age := at - created;
    if age < p.recentDays * DAY then Recent
    else if age >= p.dailyDays * DAY then Expired
    else if age < p.hourlyDays * DAY then Hourly
    else Daily
  }

  /** The tiers that keep one snapshot per mark. */
  predicate Grouped(created: int, p: Policy, at: int) {
    TierOf(created, p, at) == Hourly || TierOf(created, p, at) == Daily
  }

  /** A group: its tier and its mark. */
  datatype Key = Key(tier: Tier, mark: int)

  function KeyOf(created: int, p: Policy, at: int, day: DayMark): Key {
    var tier := TierOf(created, p, at);
    Key(tier, if tier == Hourly then NearestMark(created) else day(created))
  }

  /** Closer to the mark; then older; then the smaller id. */
  predicate Precedes(a: Snapshot, b: Snapshot, mark: int) {
    var da, db := Abs(a.created - mark), Abs(b.created - mark);
    da < db || (da == db && (a.created < b.created || (a.created == b.created && LexLess(a.id, b.id))))
  }

  lemma PrecedesTotal(a: Snapshot, b: Snapshot, mark: int)
    ensures a != b ==> Precedes(a, b, mark) || Precedes(b, a, mark)
    ensures !(Precedes(a, b, mark) && Precedes(b, a, mark))
  {
    LexTotal(a.id, b.id);
  }

  lemma PrecedesTransitive(a: Snapshot, b: Snapshot, c: Snapshot, mark: int)
    requires Precedes(a, b, mark) && Precedes(b, c, mark)
    ensures Precedes(a, c, mark)
  {
    if a.created == b.created == c.created {
      LexTransitive(a.id, b.id, c.id);
    }
  }

  predicate SameGroup(a: Snapshot, b: Snapshot, p: Policy, at: int, day: DayMark) {
    && Grouped(a.created, p, at) && Grouped(b.created, p, at)
    && KeyOf(a.created, p, at, day) == KeyOf(b.created, p, at, day)
  }

  /** The declarative rule: recent snapshots are kept, and of each group the
      one that precedes all others. */
  ghost predicate Kept(rows: set<Snapshot>, s: Snapshot, p: Policy, at: int, day: DayMark) {
    || TierOf(s.created, p, at) == Recent
    || (Grouped(s.created, p, at) &&
        forall t :: t in rows && t != s && SameGroup(s, t, p, at, day) ==>
          Precedes(s, t, KeyOf(s.created, p, at, day).mark))
  }

  ghost function Survivors(rows: set<Snapshot>, p: Policy, at: int, day: DayMark): set<Snapshot> {
    set s | s in rows && Kept(rows, s, p, at, day)
  }

  // ---- the rule in terms of ages and distances ---------------------------

  function Distance(a: int, b: int): int { if a <= b then b - a else a - b }

  /** Closer to the mark; then older; then the smaller id. */
  predicate Nearer(s: Snapshot, t: Snapshot, mark: int) {
    if Distance(s.created, mark) != Distance(t.created, mark) then Distance(s.created, mark) < Distance(t.created, mark)
    else if s.created != t.created then s.created < t.created
    else LexLess(s.id, t.id)
  }

  predicate AgeIn(s: Snapshot, at: int, from: int, to: int) {
    from * 86_400_000_000 <= at - s.created < to * 86_400_000_000
  }

  /** What stays: everything younger than the recent days; then, up to the hourly
      days, the snapshot nearest its hour mark; then, up to the daily days, the
      one nearest the midnight its local day began with; and nothing older. */
  ghost predicate Stays(rows: set<Snapshot>, s: Snapshot, p: Policy, at: int, day: DayMark) {
    || at - s.created < p.recentDays * 86_400_000_000
    || (AgeIn(s, at, p.recentDays, p.hourlyDays) &&
        forall t ::
          (t in rows && t != s && AgeIn(t, at, p.recentDays, p.hourlyDays) && NearestMark(t.created) == NearestMark(s.created))
          ==> Nearer(s, t, NearestMark(s.created)))
    || (AgeIn(s, at, p.hourlyDays, p.dailyDays) &&
        forall t ::
          (t in rows && t != s && AgeIn(t, at, p.hourlyDays, p.dailyDays) && day(t.created) == day(s.created))
          ==> Nearer(s, t, day(s.created)))
  }

  lemma NearerPrecedes(s: Snapshot, t: Snapshot, mark: int)
    ensures Precedes(s, t, mark) <==> Nearer(s, t, mark)
  {
  }

  lemma TierIsAge(s: Snapshot, p: Policy, at: int)
    requires Ordered(p)
    ensures TierOf(s.created, p, at) == Recent <==> at - s.created < p.recentDays * 86_400_000_000
    ensures TierOf(s.created, p, at) == Hourly <==> AgeIn(s, at, p.recentDays, p.hourlyDays)
    ensures TierOf(s.created, p, at) == Daily <==> AgeIn(s, at, p.hourlyDays, p.dailyDays)
    ensures TierOf(s.created, p, at) == Expired <==> p.dailyDays * 86_400_000_000 <= at - s.created
  {
  }

  /** The rule keeps exactly what stays. */
  lemma KeptExactly(rows: set<Snapshot>, s: Snapshot, p: Policy, at: int, day: DayMark)
    requires 1 <= p.recentDays <= p.hourlyDays <= p.dailyDays
    ensures Kept(rows, s, p, at, day) <==> Stays(rows, s, p, at, day)
  {
    TierIsAge(s, p, at);
    forall t ensures SameGroup(s, t, p, at, day) <==>
      || (AgeIn(s, at, p.recentDays, p.hourlyDays) && AgeIn(t, at, p.recentDays, p.hourlyDays) &&
          NearestMark(t.created) == NearestMark(s.created))
      || (AgeIn(s, at, p.hourlyDays, p.dailyDays) && AgeIn(t, at, p.hourlyDays, p.dailyDays) && day(t.created) == day(s.created))
    {
      TierIsAge(t, p, at);
    }
    var mark := KeyOf(s.created, p, at, day).mark;
    forall t ensures Precedes(s, t, mark) <==> Nearer(s, t, mark) {
      NearerPrecedes(s, t, mark);
    }
  }

  /** Nothing at or past the daily age survives, and everything younger than the
      recent days does. */
  lemma SurvivorsByAge(rows: set<Snapshot>, p: Policy, at: int, day: DayMark, s: Snapshot)
    requires 1 <= p.recentDays <= p.hourlyDays <= p.dailyDays && s in rows
    ensures s in Survivors(rows, p, at, day) ==> at - s.created < p.dailyDays * 86_400_000_000
    ensures at - s.created < p.recentDays * 86_400_000_000 ==> s in Survivors(rows, p, at, day)
    ensures s in Survivors(rows, p, at, day) <==> Stays(rows, s, p, at, day)
  {
    KeptExactly(rows, s, p, at, day);
  }

  // ---- the one-pass selection --------------------------------------------

  ghost predicate DistinctIds(rows: seq<Snapshot>) {
    forall i, j :: 0 <= i < j < |rows| ==> rows[i].id != rows[j].id
  }

  ghost function Elements(rows: seq<Snapshot>): set<Snapshot> { set s | s in rows }

  /** What the dictionary of the loop holds for a group. */
  datatype Candidate = Candidate(distance: int, created: int, id: string)

  predicate Less(a: Candidate, b: Candidate) {
    a.distance < b.distance || (a.distance == b.distance &&
      (a.created < b.created || (a.created == b.created && LexLess(a.id, b.id))))
  }

  function CandidateOf(s: Snapshot, mark: int): Candidate {
    Candidate(Abs(s.created - mark), s.created, s.id)
  }

  /** `best` holds, for each group seen so far, the snapshot the rule keeps. */
  ghost predicate BestOf(best: map<Key, Candidate>, seen: set<Snapshot>, p: Policy, at: int, day: DayMark) {
    && (forall k :: k in best ==> exists s :: s in seen && IsBest(best, seen, s, k, p, at, day))
    && (forall s :: s in seen && Grouped(s.created, p, at) ==> KeyOf(s.created, p, at, day) in best)
  }

  ghost predicate IsBest(best: map<Key, Candidate>, seen: set<Snapshot>, s: Snapshot, k: Key, p: Policy, at: int,
                         day: DayMark) {
    && k in best && Grouped(s.created, p, at) && KeyOf(s.created, p, at, day) == k
    && best[k] == CandidateOf(s, k.mark) && Kept(seen, s, p, at, day)
  }

  ghost predicate IdKey(seen: set<Snapshot>) {
    forall a, b :: a in seen && b in seen && a.id == b.id ==> a == b
  }

  /** The list names exactly the snapshots the rule does not keep, once each. */
  ghost predicate ExactVictims(victims: seq<string>, seen: set<Snapshot>, p: Policy, at: int, day: DayMark) {
    && (forall s :: s in seen ==> (s.id in victims <==> !Kept(seen, s, p, at, day)))
    && (forall id :: id in victims ==> exists s :: s in seen && s.id == id)
    && (forall i, j :: 0 <= i < j < |victims| ==> victims[i] != victims[j])
  }

  /** What the loop carries from one row to the next. */
  datatype Sofar = Sofar(best: map<Key, Candidate>, victims: seq<string>)

  function Turn(f: Sofar, s: Snapshot, p: Policy, at: int, day: DayMark): Sofar {
    var tier := TierOf(s.created, p, at);
    if tier == Recent then f
    else if tier == Expired then f.(victims := f.victims + [s.id])
    else
      var k := KeyOf(s.created, p, at, day);
      var c := CandidateOf(s, k.mark);
      if k !in f.best then f.(best := f.best[k := c])
      else if Less(c, f.best[k]) then Sofar(f.best[k := c], f.victims + [f.best[k].id])
      else f.(victims := f.victims + [s.id])
  }

  ghost predicate Sound(f: Sofar, seen: set<Snapshot>, p: Policy, at: int, day: DayMark) {
    BestOf(f.best, seen, p, at, day) && ExactVictims(f.victims, seen, p, at, day)
  }

  /** The victims of one pass are exactly the snapshots the rule does not keep,
      each named once, in whatever order the rows come. */
  method SelectRetentionVictims(rows: seq<Snapshot>, p: Policy, at: int, day: DayMark) returns (victims: seq<string>)
    requires DistinctIds(rows)
    ensures ExactVictims(victims, Elements(rows), p, at, day)
    ensures Ordered(p) ==>
              forall s :: s in rows ==>
                && (s.id in victims <==> !Stays(Elements(rows), s, p, at, day))
                && (at - s.created >= p.dailyDays * 86_400_000_000 ==> s.id in victims)
                && (at - s.created < p.recentDays * 86_400_000_000 ==> s.id !in victims)
  {
    var best: map<Key, Candidate> := map[];
    victims := [];
    for n := 0 to |rows|
      invariant Sound(Sofar(best, victims), Elements(rows[..n]), p, at, day)
    {
      var s := rows[n];
      NextElement(rows, n);
      TurnIsSound(Sofar(best, victims), Elements(rows[..n]), s, p, at, day);
      ghost var turned := Turn(Sofar(best, victims), s, p, at, day);
      best, victims := Consider(best, victims, s, p, at, day);
      assert Sofar(best, victims) == turned;
    }
    assert rows[..|rows|] == rows;
    ghost var all := Elements(rows);
    forall s | Ordered(p) && s in rows ensures s in all && (Kept(all, s, p, at, day) <==> Stays(all, s, p, at, day)) {
      KeptExactly(all, s, p, at, day);
    }
  }

  /** The body of the loop. */
  method Consider(best0: map<Key, Candidate>, victims0: seq<string>, s: Snapshot, p: Policy, at: int, day: DayMark)
    returns (best: map<Key, Candidate>, victims: seq<string>)
    ensures Sofar(best, victims) == Turn(Sofar(best0, victims0), s, p, at, day)
  {
    best, victims := best0, victims0;
    var age := at - s.created;
    if age < p.recentDays * DAY {
      return;
    }
    if age >= p.dailyDays * DAY {
      victims := victims + [s.id];
      return;
    }
    var hourly := age < p.hourlyDays * DAY;
    var mark := if hourly then NearestMark(s.created) else day(s.created);
    var key := Key(if hourly then Hourly else Daily, mark);
    var candidate := Candidate(Abs(s.created - mark), s.created, s.id);
    if key !in best {
      best := best[key := candidate];
    } else {
      var current := best[key];
      if Less(candidate, current) {
        victims := victims + [current.id];
        best := best[key := candidate];
      } else {
        victims := victims + [s.id];
      }
    }
  }

  lemma TurnIsSound(f: Sofar, seen: set<Snapshot>, s: Snapshot, p: Policy, at: int, day: DayMark)
    requires Sound(f, seen, p, at, day) && FreshId(seen, s) && IdKey(seen)
    ensures Sound(Turn(f, s, p, at, day), seen + {s}, p, at, day)
  {
    if Grouped(s.created, p, at) {
      AddGrouped(f.best, f.victims, seen, s, p, at, day);
      assert f.victims + [] == f.victims;
    } else {
      AddUngrouped(f.best, seen, s, p, at, day);
      if TierOf(s.created, p, at) == Recent {
        NoVictim(f.victims, seen, s, p, at, day);
      } else {
        NewVictim(f.victims, seen, s, s, p, at, day);
      }
    }
  }

  lemma NextElement(rows: seq<Snapshot>, n: nat)
    requires DistinctIds(rows) && n < |rows|
    ensures Elements(rows[..n + 1]) == Elements(rows[..n]) + {rows[n]}
    ensures FreshId(Elements(rows[..n]), rows[n]) && IdKey(Elements(rows[..n]))
  {
    assert rows[..n + 1] == rows[..n] + [rows[n]];
  }

  lemma NoVictim(victims: seq<string>, seen: set<Snapshot>, s: Snapshot, p: Policy, at: int, day: DayMark)
    requires ExactVictims(victims, seen, p, at, day) && FreshId(seen, s)
    requires forall t :: t in seen ==> Kept(seen + {s}, t, p, at, day) == Kept(seen, t, p, at, day)
    requires Kept(seen + {s}, s, p, at, day)
    ensures ExactVictims(victims, seen + {s}, p, at, day)
  {
    forall id | id in victims ensures exists t :: t in seen + {s} && t.id == id {
      var t :| t in seen && t.id == id;
      assert t in seen + {s};
    }
  }

  /** Appending the one snapshot that is no longer kept, old or new. */
  lemma NewVictim(victims: seq<string>, seen: set<Snapshot>, s: Snapshot, x: Snapshot, p: Policy, at: int, day: DayMark)
    requires ExactVictims(victims, seen, p, at, day) && FreshId(seen, s) && IdKey(seen)
    requires x in seen + {s} && !Kept(seen + {s}, x, p, at, day)
    requires x == s || (Kept(seen, x, p, at, day) && Kept(seen + {s}, s, p, at, day))
    requires forall t :: t in seen && t != x ==> Kept(seen + {s}, t, p, at, day) == Kept(seen, t, p, at, day)
    ensures ExactVictims(victims + [x.id], seen + {s}, p, at, day)
  {
    var victims' := victims + [x.id];
    assert x.id !in victims;
    forall t | t in seen + {s} ensures t.id in victims' <==> !Kept(seen + {s}, t, p, at, day) {
      assert t.id == x.id <==> t == x;
    }
    forall id | id in victims' ensures exists t :: t in seen + {s} && t.id == id {
      if id in victims {
        var t :| t in seen && t.id == id;
        assert t in seen + {s};
      }
    }
  }

  lemma HolderOf(best: map<Key, Candidate>, seen: set<Snapshot>, key: Key, p: Policy, at: int,
                 day: DayMark) returns (b: Snapshot)
    requires BestOf(best, seen, p, at, day) && key in best
    ensures b in seen && IsBest(best, seen, b, key, p, at, day)
  {
    b :| b in seen && IsBest(best, seen, b, key, p, at, day);
  }

  ghost predicate FreshId(seen: set<Snapshot>, s: Snapshot) { forall t :: t in seen ==> t.id != s.id }

  /** A snapshot of another group changes nothing for t. */
  lemma KeptElsewhere(seen: set<Snapshot>, s: Snapshot, t: Snapshot, p: Policy, at: int, day: DayMark)
    requires !SameGroup(t, s, p, at, day)
    ensures Kept(seen + {s}, t, p, at, day) == Kept(seen, t, p, at, day)
  {
  }

  lemma AddUngrouped(best: map<Key, Candidate>, seen: set<Snapshot>, s: Snapshot, p: Policy, at: int, day: DayMark)
    requires BestOf(best, seen, p, at, day) && !Grouped(s.created, p, at)
    ensures BestOf(best, seen + {s}, p, at, day)
    ensures forall t :: t in seen ==> Kept(seen + {s}, t, p, at, day) == Kept(seen, t, p, at, day)
  {
    forall t | t in seen ensures Kept(seen + {s}, t, p, at, day) == Kept(seen, t, p, at, day) {
      KeptElsewhere(seen, s, t, p, at, day);
    }
    forall k | k in best ensures exists t :: t in seen + {s} && IsBest(best, seen + {s}, t, k, p, at, day) {
      var b := HolderOf(best, seen, k, p, at, day);
      assert IsBest(best, seen + {s}, b, k, p, at, day);
    }
  }

  lemma AddFirst(best: map<Key, Candidate>, seen: set<Snapshot>, s: Snapshot, p: Policy, at: int, day: DayMark)
    requires BestOf(best, seen, p, at, day) && Grouped(s.created, p, at) && KeyOf(s.created, p, at, day) !in best
    ensures var k := KeyOf(s.created, p, at, day); BestOf(best[k := CandidateOf(s, k.mark)], seen + {s}, p, at, day)
    ensures forall t :: t in seen ==> Kept(seen + {s}, t, p, at, day) == Kept(seen, t, p, at, day)
    ensures Kept(seen + {s}, s, p, at, day)
  {
    var k0 := KeyOf(s.created, p, at, day);
    var best' := best[k0 := CandidateOf(s, k0.mark)];
    forall t | t in seen ensures Kept(seen + {s}, t, p, at, day) == Kept(seen, t, p, at, day) {
      KeptElsewhere(seen, s, t, p, at, day);
    }
    forall k | k in best' ensures exists t :: t in seen + {s} && IsBest(best', seen + {s}, t, k, p, at, day) {
      if k == k0 {
        assert IsBest(best', seen + {s}, s, k, p, at, day);
      } else {
        var b := HolderOf(best, seen, k, p, at, day);
        assert IsBest(best', seen + {s}, b, k, p, at, day);
      }
    }
  }

  /** Another member of a group is kept after s came exactly if it was before,
      unless it was the group's best. */
  lemma OthersKept(seen: set<Snapshot>, s: Snapshot, b: Snapshot, t: Snapshot, p: Policy, at: int, day: DayMark)
    requires b in seen && Kept(seen, b, p, at, day) && SameGroup(b, s, p, at, day)
    requires t in seen && t != b
    ensures Kept(seen + {s}, t, p, at, day) == Kept(seen, t, p, at, day)
  {
    if SameGroup(t, s, p, at, day) {
      assert SameGroup(b, t, p, at, day) && SameGroup(t, b, p, at, day);
      PrecedesTotal(b, t, KeyOf(s.created, p, at, day).mark);
    } else {
      KeptElsewhere(seen, s, t, p, at, day);
    }
  }

  /** A new member of a group competes with the group's best alone. */
  lemma AddSecond(seen: set<Snapshot>, s: Snapshot, b: Snapshot, p: Policy, at: int, day: DayMark)
    requires b in seen && Kept(seen, b, p, at, day) && SameGroup(b, s, p, at, day) && FreshId(seen, s)
    ensures var wins := Precedes(s, b, KeyOf(s.created, p, at, day).mark);
            && Kept(seen + {s}, s, p, at, day) == wins
            && Kept(seen + {s}, b, p, at, day) == !wins
  {
    var mark := KeyOf(s.created, p, at, day).mark;
    PrecedesTotal(s, b, mark);
    assert SameGroup(s, b, p, at, day);
    if Precedes(s, b, mark) {
      forall t | t in seen && t != b && SameGroup(s, t, p, at, day) ensures Precedes(s, t, mark) {
        assert SameGroup(b, t, p, at, day);
        PrecedesTransitive(s, b, t, mark);
      }
    }
  }

  /** The group's entry then is the winner's. */
  lemma BestOfSecond(best: map<Key, Candidate>, seen: set<Snapshot>, s: Snapshot, w: Snapshot, p: Policy, at: int,
                     day: DayMark)
    requires BestOf(best, seen, p, at, day) && Grouped(s.created, p, at) && FreshId(seen, s)
    requires var k := KeyOf(s.created, p, at, day); k in best
    requires w in seen + {s} && Grouped(w.created, p, at) && KeyOf(w.created, p, at, day) == KeyOf(s.created, p, at, day)
    requires Kept(seen + {s}, w, p, at, day)
    ensures var k := KeyOf(s.created, p, at, day); BestOf(best[k := CandidateOf(w, k.mark)], seen + {s}, p, at, day)
  {
    var k0 := KeyOf(s.created, p, at, day);
    var best' := best[k0 := CandidateOf(w, k0.mark)];
    forall k | k in best' ensures exists t :: t in seen + {s} && IsBest(best', seen + {s}, t, k, p, at, day) {
      if k == k0 {
        assert IsBest(best', seen + {s}, w, k, p, at, day);
      } else {
        var h := HolderOf(best, seen, k, p, at, day);
        KeptElsewhere(seen, s, h, p, at, day);
        assert IsBest(best', seen + {s}, h, k, p, at, day);
      }
    }
  }

  /** One turn of the loop on a snapshot of a grouped tier. */
  lemma AddGrouped(best: map<Key, Candidate>, victims: seq<string>, seen: set<Snapshot>, s: Snapshot,
                   p: Policy, at: int, day: DayMark)
    requires BestOf(best, seen, p, at, day) && ExactVictims(victims, seen, p, at, day)
    requires Grouped(s.created, p, at) && FreshId(seen, s) && IdKey(seen)
    ensures var k := KeyOf(s.created, p, at, day);
            var c := CandidateOf(s, k.mark);
            var loser := if k !in best then [] else if Less(c, best[k]) then [best[k].id] else [s.id];
            && BestOf(if k in best && !Less(c, best[k]) then best else best[k := c], seen + {s}, p, at, day)
            && ExactVictims(victims + loser, seen + {s}, p, at, day)
  {
    var k := KeyOf(s.created, p, at, day);
    if k !in best {
      AddFirst(best, seen, s, p, at, day);
      NoVictim(victims, seen, s, p, at, day);
      assert victims + [] == victims;
    } else {
      var b := HolderOf(best, seen, k, p, at, day);
      AddSecond(seen, s, b, p, at, day);
      forall t | t in seen && t != b ensures Kept(seen + {s}, t, p, at, day) == Kept(seen, t, p, at, day) {
        OthersKept(seen, s, b, t, p, at, day);
      }
      var w, x := if Precedes(s, b, k.mark) then s else b, if Precedes(s, b, k.mark) then b else s;
      assert best[k := best[k]] == best;
      BestOfSecond(best, seen, s, w, p, at, day);
      NewVictim(victims, seen, s, x, p, at, day);
    }
  }
}
