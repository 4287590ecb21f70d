/** The table of intervals event capture could not read
    (event_incomplete_intervals in backend/app/events/store.py).

    Instants are integer microseconds. A gap is a closed interval; two gaps of
    one connection that share an instant are merged when the later one is
    recorded. */
module Gaps {
  import opened Basics

  /** One row. `attempts` counts how often reading the interval failed. */
  datatype Gap = Gap(id: nat, connection: string, since: int, until: int, attempts: nat, error: string)

  /** The rows, and the next value of the identity column. */
  datatype GapTable = GapTable(rows: set<Gap>, nextId: nat)

  predicate Contains(g: Gap, c: string, t: int) {
    g.connection == c && g.since <= t <= g.until
  }

  ghost predicate Covered(rows: set<Gap>, c: string, t: int) {
    exists g :: g in rows && Contains(g, c, t)
  }

  /** Every row is a non-empty interval. */
  ghost predicate WellFormed(rows: set<Gap>) {
    forall g :: g in rows ==> g.since <= g.until
  }

  /** The rows of one connection are pairwise disjoint. */
  ghost predicate Separated(rows: set<Gap>, c: string) {
    forall g, h :: g in rows && h in rows && g.connection == c && h.connection == c && g != h
      ==> g.until < h.since || h.until < g.since
  }

  /** `id` is a key of the table. */
  ghost predicate Keyed(t: GapTable) {
    && (forall g :: g in t.rows ==> g.id < t.nextId)
    && (forall g, h :: g in t.rows && h in t.rows && g.id == h.id ==> g == h)
  }

  ghost predicate Valid(t: GapTable) {
    Keyed(t) && WellFormed(t.rows) && forall c :: Separated(t.rows, c)
  }

  // ---- recording ---------------------------------------------------------

  function Overlaps(rows: set<Gap>, c: string, since: int, until: int): set<Gap> {
    set g | g in rows && g.connection == c && g.since <= until && g.until >= since
  }

  function LeastSince(start: int, rows: set<Gap>): (m: int)
    ensures m <= start && (forall g :: g in rows ==> m <= g.since)
    ensures m == start || exists g :: g in rows && m == g.since
  {
    var all := {start} + (set g | g in rows :: g.since);
    assert forall g :: g in rows ==> g.since in all;
    Least(all)
  }

  function GreatestUntil(end: int, rows: set<Gap>): (m: int)
    ensures end <= m && (forall g :: g in rows ==> g.until <= m)
    ensures m == end || exists g :: g in rows && m == g.until
  {
    var all := {end} + (set g | g in rows :: g.until);
    assert forall g :: g in rows ==> g.until in all;
    Greatest(all)
  }

  function MostAttempts(attempts: nat, rows: set<Gap>): (m: nat)
    ensures attempts <= m && (forall g :: g in rows ==> g.attempts <= m)
    ensures m == attempts || exists g :: g in rows && m == g.attempts
  {
    var all := {attempts as int} + (set g | g in rows :: g.attempts as int);
    assert forall g :: g in rows ==> g.attempts as int in all;
    Greatest(all)
  }

  datatype Merge = Merge(rest: set<Gap>, since: int, until: int, attempts: nat)

  /** Read, widen, delete, and read again until nothing overlaps. */
  function Absorb(rows: set<Gap>, c: string, since: int, until: int, attempts: nat): Merge
    decreases |rows|
  {
    var overlaps := Overlaps(rows, c, since, until);
    if overlaps == {} then Merge(rows, since, until, attempts)
    else
      SubsetSize(rows - overlaps, rows);
      Absorb(rows - overlaps, c, LeastSince(since, overlaps), GreatestUntil(until, overlaps),
             MostAttempts(attempts, overlaps))
  }

  function Record(t: GapTable, c: string, since: int, until: int, error: string): GapTable {
    var m := Absorb(t.rows, c, since, until, 0);
    GapTable(m.rest + {Gap(t.nextId, c, m.since, m.until, m.attempts + 1, error)}, t.nextId + 1)
  }

  function Resolve(t: GapTable, c: string, since: int, until: int): GapTable {
    GapTable((set g | g in t.rows && !(g.connection == c && g.since >= since && g.until <= until)), t.nextId)
  }

  function Trim(g: Gap, c: string, cutoff: int): Gap {
    if g.connection == c && g.since < cutoff then g.(since := cutoff) else g
  }

  function Prune(t: GapTable, c: string, cutoff: int): GapTable {
    GapTable((set g | g in t.rows && !(g.connection == c && g.until < cutoff) :: Trim(g, c, cutoff)), t.nextId)
  }

  // ---- what recording does -----------------------------------------------

  /** The merge loop only deletes rows of its own connection that the final
      interval contains, and nothing left over touches that interval. */
  lemma {:induction false} AbsorbShape(rows: set<Gap>, c: string, since: int, until: int, attempts: nat)
    requires WellFormed(rows) && since <= until
    ensures var m := Absorb(rows, c, since, until, attempts);
            && m.rest <= rows
            && m.since <= since && until <= m.until
            && Overlaps(m.rest, c, m.since, m.until) == {}
            && (forall g :: g in rows && g !in m.rest ==> g.connection == c && m.since <= g.since && g.until <= m.until)
    decreases |rows|
  {
    var overlaps := Overlaps(rows, c, since, until);
    if overlaps != {} {
      SubsetSize(rows - overlaps, rows);
      AbsorbShape(rows - overlaps, c, LeastSince(since, overlaps), GreatestUntil(until, overlaps),
                  MostAttempts(attempts, overlaps));
    }
  }

  /** Every instant of the merged interval was covered before, or is new. */
  lemma {:induction false} AbsorbAddsNothingElse(rows: set<Gap>, c: string, since: int, until: int, attempts: nat,
                                                 t: int)
    requires WellFormed(rows) && since <= until
    requires var m := Absorb(rows, c, since, until, attempts); m.since <= t <= m.until
    ensures since <= t <= until || Covered(rows, c, t)
    decreases |rows|
  {
    var overlaps := Overlaps(rows, c, since, until);
    if overlaps != {} {
      SubsetSize(rows - overlaps, rows);
      var lo, hi := LeastSince(since, overlaps), GreatestUntil(until, overlaps);
      AbsorbAddsNothingElse(rows - overlaps, c, lo, hi, MostAttempts(attempts, overlaps), t);
      if lo <= t < since {
        var g :| g in overlaps && lo == g.since;
        assert Contains(g, c, t);
      } else if until < t <= hi {
        var g :| g in overlaps && hi == g.until;
        assert Contains(g, c, t);
      } else if !(since <= t <= until) {
        var g :| g in rows - overlaps && Contains(g, c, t);
        assert g in rows;
      }
    }
  }

  /** The most attempts of the rows that are gone, or the number given. */
  ghost predicate MostOf(most: nat, attempts: nat, rows: set<Gap>, left: set<Gap>) {
    && attempts <= most
    && (forall h :: h in rows && h !in left ==> h.attempts <= most)
    && (most == attempts || exists h :: h in rows && h !in left && h.attempts == most)
  }

  /** The merge counts the most attempts of the rows it deletes. */
  lemma {:induction false} AbsorbAttempts(rows: set<Gap>, c: string, since: int, until: int, attempts: nat)
    ensures var m := Absorb(rows, c, since, until, attempts); m.rest <= rows && MostOf(m.attempts, attempts, rows, m.rest)
    decreases |rows|
  {
    var overlaps := Overlaps(rows, c, since, until);
    if overlaps != {} {
      SubsetSize(rows - overlaps, rows);
      var most := MostAttempts(attempts, overlaps);
      AbsorbAttempts(rows - overlaps, c, LeastSince(since, overlaps), GreatestUntil(until, overlaps), most);
    }
  }

  /** Recording an interval adds exactly that interval to what is covered,
      leaves other connections' rows alone, and one row holds all of it. */
  lemma RecordExact(t: GapTable, c: string, since: int, until: int, error: string)
    requires WellFormed(t.rows) && since <= until
    ensures var t' := Record(t, c, since, until, error);
            && (forall x :: Covered(t'.rows, c, x) <==> Covered(t.rows, c, x) || since <= x <= until)
            && (forall g: Gap :: g.connection != c ==> (g in t'.rows <==> g in t.rows))
            && (exists g :: g in t'.rows && g.connection == c && g.since <= since && until <= g.until)
  {
    AbsorbShape(t.rows, c, since, until, 0);
    var m := Absorb(t.rows, c, since, until, 0);
    var t' := Record(t, c, since, until, error);
    var added := Gap(t.nextId, c, m.since, m.until, m.attempts + 1, error);
    assert added in t'.rows;
    forall x ensures Covered(t'.rows, c, x) <==> Covered(t.rows, c, x) || since <= x <= until {
      if Covered(t.rows, c, x) {
        var g :| g in t.rows && Contains(g, c, x);
        assert g in m.rest || Contains(added, c, x);
      }
      if since <= x <= until {
        assert Contains(added, c, x);
      }
      if Covered(t'.rows, c, x) {
        var g :| g in t'.rows && Contains(g, c, x);
        if g == added {
          AbsorbAddsNothingElse(t.rows, c, since, until, 0, x);
        } else {
          assert g in t.rows;
        }
      }
    }
  }

  /** One row is added, under the next key: it holds the interval and the error,
      and counts one attempt more than the most of the rows it replaced. */
  lemma RecordRow(t: GapTable, c: string, since: int, until: int, error: string) returns (g: Gap)
    requires Valid(t) && since <= until
    ensures var t' := Record(t, c, since, until, error);
            && t'.nextId == t.nextId + 1 && g in t'.rows && g !in t.rows
            && (forall h :: h in t'.rows ==> h == g || h in t.rows)
            && g.id == t.nextId && g.connection == c && g.since <= since && until <= g.until && g.error == error
            && 1 <= g.attempts && MostOf(g.attempts - 1, 0, t.rows, t'.rows)
  {
    AbsorbShape(t.rows, c, since, until, 0);
    AbsorbAttempts(t.rows, c, since, until, 0);
    var m := Absorb(t.rows, c, since, until, 0);
    g := Gap(t.nextId, c, m.since, m.until, m.attempts + 1, error);
    assert g !in t.rows;
    AddedElsewhere(t.rows, m.rest, g, m.attempts);
  }

  lemma AddedElsewhere(rows: set<Gap>, rest: set<Gap>, g: Gap, most: nat)
    requires g !in rows && MostOf(most, 0, rows, rest)
    ensures MostOf(most, 0, rows, rest + {g})
  {
  }

  /** A recorded row only ever grows: whatever lay inside one row still does. */
  lemma RecordKeepsSpans(t: GapTable, c: string, since: int, until: int, error: string, g: Gap)
    requires WellFormed(t.rows) && since <= until && g in t.rows
    ensures exists h :: h in Record(t, c, since, until, error).rows
              && h.connection == g.connection && h.since <= g.since && g.until <= h.until
  {
    AbsorbShape(t.rows, c, since, until, 0);
    var m := Absorb(t.rows, c, since, until, 0);
    var t' := Record(t, c, since, until, error);
    var added := Gap(t.nextId, c, m.since, m.until, m.attempts + 1, error);
    assert added in t'.rows;
    if g in m.rest {
      assert g in t'.rows;
    }
  }

  /** A row of another connection, or one nothing of which overlaps the new
      interval, is separated from it. */
  lemma AddSeparated(rows: set<Gap>, added: Gap, d: string)
    requires Separated(rows, d) && Overlaps(rows, added.connection, added.since, added.until) == {}
    ensures Separated(rows + {added}, d)
  {
    forall g | g in rows && g.connection == added.connection ensures g.until < added.since || added.until < g.since {
      assert g !in Overlaps(rows, added.connection, added.since, added.until);
    }
  }

  /** Recording keeps the table valid: keyed, well formed, and each
      connection's intervals pairwise disjoint. */
  lemma RecordValid(t: GapTable, c: string, since: int, until: int, error: string)
    requires Valid(t) && since <= until
    ensures Valid(Record(t, c, since, until, error))
  {
    AbsorbShape(t.rows, c, since, until, 0);
    var m := Absorb(t.rows, c, since, until, 0);
    var added := Gap(t.nextId, c, m.since, m.until, m.attempts + 1, error);
    forall d ensures Separated(m.rest + {added}, d) {
      assert Separated(t.rows, d);
      AddSeparated(m.rest, added, d);
    }
  }

  lemma ResolveValid(t: GapTable, c: string, since: int, until: int)
    requires Valid(t)
    ensures Valid(Resolve(t, c, since, until))
  {
    forall d ensures Separated(Resolve(t, c, since, until).rows, d) {
      assert Separated(t.rows, d);
    }
  }

  /** Resolving deletes the connection's rows inside the range and no other. */
  lemma ResolveExact(t: GapTable, c: string, since: int, until: int, g: Gap)
    ensures g in Resolve(t, c, since, until).rows <==>
            g in t.rows && (g.connection == c ==> g.since < since || until < g.until)
    ensures Resolve(t, c, since, until).nextId == t.nextId
  {
  }

  /** Resolving a range uncovers nothing outside it. */
  lemma ResolveOutside(t: GapTable, c: string, since: int, until: int)
    ensures forall x :: Covered(Resolve(t, c, since, until).rows, c, x) ==> Covered(t.rows, c, x)
    ensures forall x :: x < since || until < x ==>
              (Covered(t.rows, c, x) ==> Covered(Resolve(t, c, since, until).rows, c, x))
  {
    var t' := Resolve(t, c, since, until);
    forall x | (x < since || until < x) && Covered(t.rows, c, x) ensures Covered(t'.rows, c, x) {
      var g :| g in t.rows && Contains(g, c, x);
      assert g in t'.rows;
    }
  }

  lemma PruneRow(t: GapTable, c: string, cutoff: int, g: Gap) returns (h: Gap)
    requires g in Prune(t, c, cutoff).rows
    ensures h in t.rows && g == Trim(h, c, cutoff) && !(h.connection == c && h.until < cutoff)
  {
    h :| h in t.rows && g == Trim(h, c, cutoff) && !(h.connection == c && h.until < cutoff);
  }

  /** Pruning keeps a row that is not past the cutoff, and moves its start alone. */
  lemma PruneKeeps(t: GapTable, c: string, cutoff: int, h: Gap)
    requires h in t.rows && (h.connection == c ==> cutoff <= h.until)
    ensures var since := if h.connection == c && h.since < cutoff then cutoff else h.since;
            Gap(h.id, h.connection, since, h.until, h.attempts, h.error) in Prune(t, c, cutoff).rows
    ensures Prune(t, c, cutoff).nextId == t.nextId
  {
    assert Trim(h, c, cutoff) in Prune(t, c, cutoff).rows;
  }

  lemma PruneValid(t: GapTable, c: string, cutoff: int)
    requires Valid(t)
    ensures Valid(Prune(t, c, cutoff))
  {
    var t' := Prune(t, c, cutoff);
    forall g, h | g in t'.rows && h in t'.rows && g.connection == h.connection && g != h
      ensures g.until < h.since || h.until < g.since
    {
      var g0 := PruneRow(t, c, cutoff, g);
      var h0 := PruneRow(t, c, cutoff, h);
      assert Separated(t.rows, g.connection);
    }
  }

  /** Pruning trims one connection's coverage to the part at or after the
      cutoff and leaves every other connection's rows alone. */
  lemma PruneExact(t: GapTable, c: string, cutoff: int)
    ensures var t' := Prune(t, c, cutoff);
            && (forall x :: Covered(t'.rows, c, x) <==> Covered(t.rows, c, x) && cutoff <= x)
            && (forall g: Gap :: g.connection != c ==> (g in t'.rows <==> g in t.rows))
            && (forall g :: g in t'.rows && g.connection == c ==> cutoff <= g.since)
  {
    var t' := Prune(t, c, cutoff);
    forall x ensures Covered(t'.rows, c, x) <==> Covered(t.rows, c, x) && cutoff <= x {
      if Covered(t.rows, c, x) && cutoff <= x {
        var g :| g in t.rows && Contains(g, c, x);
        assert Trim(g, c, cutoff) in t'.rows;
        assert Contains(Trim(g, c, cutoff), c, x);
      }
      if Covered(t'.rows, c, x) {
        var g :| g in t'.rows && Contains(g, c, x);
        var h := PruneRow(t, c, cutoff, g);
        assert Contains(h, c, x);
      }
    }
    forall g: Gap | g.connection != c ensures g in t'.rows <==> g in t.rows {
      if g in t.rows {
        assert Trim(g, c, cutoff) in t'.rows;
      }
      if g in t'.rows {
        var h := PruneRow(t, c, cutoff, g);
      }
    }
  }
}
