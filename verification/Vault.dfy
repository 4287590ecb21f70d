/** Secrets at rest: rotating them to a new key and encrypting legacy plaintext
    (backend/app/vault.py).

    Encryption is ideal: a sealed value opens under its own key only, and no
    plaintext passes for one. What is sealed is itself a stored value, so that
    sealing twice is visible. */
module Vault {
  import opened Basics

  type Key = nat

  datatype Secret = Raw(text: string) | Sealed(key: Key, plain: Secret, nonce: nat)

  const PREFIX := "enc1:"

  predicate IsEncrypted(s: Secret) { s.Sealed? || PREFIX <= s.text }

  /** Opened by the current key: not merely prefixed. */
  predicate Genuine(current: Key, s: Secret) { s.Sealed? && s.key == current }

  function OpenWith(key: Key, s: Secret): Option<Secret> {
    if s.Sealed? && s.key == key then Some(s.plain) else None
  }

  /** What a read returns; None when the value cannot be read. */
  function Decrypt(current: Key, s: Secret): Option<Secret> {
    if !IsEncrypted(s) then Some(s) else OpenWith(current, s)
  }

  predicate Twice(s: Secret) { s.Sealed? && s.plain.Sealed? }

  // ---- one row -----------------------------------------------------------

  /** The rotation moves a row the current key cannot open and the previous
      one can. */
  predicate Moves(current: Key, previous: Key, s: Secret) {
    IsEncrypted(s) && !Genuine(current, s) && OpenWith(previous, s).Some?
  }

  predicate Unreadable(current: Key, previous: Key, s: Secret) {
    IsEncrypted(s) && !Genuine(current, s) && OpenWith(previous, s).None?
  }

  /** A row after the rotation; the nonce is the cipher's choice. */
  predicate RekeyedRow(current: Key, previous: Key, s: Secret, s': Secret) {
    if Moves(current, previous, s) then s'.Sealed? && s'.key == current && s'.plain == s.plain
    else s' == s
  }

  predicate NeedsEncrypting(current: Key, firstRun: bool, s: Secret) {
    if firstRun then !Genuine(current, s) else !IsEncrypted(s)
  }

  /** A row the migration seals keeps what it held as its plaintext. */
  predicate SealedOrSame(sealed: bool, current: Key, s: Secret, s': Secret) {
    if sealed then s'.Sealed? && s'.key == current && s'.plain == s else s' == s
  }

  // ---- the tables --------------------------------------------------------

  /** Where a secret is stored: a connection's password, or the assistant key. */
  datatype Slot = Password(id: int) | ApiKey

  type Rows = map<Slot, Secret>

  /** An empty assistant key is left alone by both passes. */
  predicate Skipped(slot: Slot, s: Secret) { slot.ApiKey? && s == Raw("") }

  predicate Encrypts(slot: Slot, s: Secret, current: Key, firstRun: bool) {
    !Skipped(slot, s) && NeedsEncrypting(current, firstRun, s)
  }

  ghost predicate Rekeyed(rows: Rows, rows': Rows, current: Key, previous: Key) {
    rows'.Keys == rows.Keys && forall x :: x in rows ==> RekeyedRow(current, previous, rows[x], rows'[x])
  }

  ghost predicate Migrated(rows: Rows, rows': Rows, current: Key, firstRun: bool) {
    && rows'.Keys == rows.Keys
    && forall x :: x in rows ==> SealedOrSame(Encrypts(x, rows[x], current, firstRun), current, rows[x], rows'[x])
  }

  function Moving(rows: Rows, current: Key, previous: Key): set<Slot> {
    set x | x in rows && Moves(current, previous, rows[x])
  }

  function Lost(rows: Rows, current: Key, previous: Key): set<Slot> {
    set x | x in rows && Unreadable(current, previous, rows[x])
  }

  /** The rotation has dealt with the rows in `done` and not with the others. */
  ghost predicate RekeyedIn(rows: Rows, rows': Rows, done: set<Slot>, current: Key, previous: Key) {
    && rows'.Keys == rows.Keys
    && forall x :: x in rows ==> if x in done then RekeyedRow(current, previous, rows[x], rows'[x]) else rows'[x] == rows[x]
  }

  ghost function MovingIn(rows: Rows, done: set<Slot>, current: Key, previous: Key): set<Slot> {
    Moving(rows, current, previous) * done
  }

  ghost function LostIn(rows: Rows, done: set<Slot>, current: Key, previous: Key): set<Slot> {
    Lost(rows, current, previous) * done
  }

  lemma OneFewer(all: set<Slot>, todo: set<Slot>, x: Slot)
    requires todo <= all && x in todo
    ensures all - (todo - {x}) == (all - todo) + {x}
  {
  }

  lemma OneMoreRow(rows: Rows, done: set<Slot>, x: Slot, current: Key, previous: Key)
    requires x in rows && x !in done
    ensures |MovingIn(rows, done + {x}, current, previous)| ==
            |MovingIn(rows, done, current, previous)| + (if Moves(current, previous, rows[x]) then 1 else 0)
    ensures |LostIn(rows, done + {x}, current, previous)| ==
            |LostIn(rows, done, current, previous)| + (if Unreadable(current, previous, rows[x]) then 1 else 0)
  {
    var moving, lost := MovingIn(rows, done, current, previous), LostIn(rows, done, current, previous);
    assert MovingIn(rows, done + {x}, current, previous) == if Moves(current, previous, rows[x]) then moving + {x} else moving;
    assert LostIn(rows, done + {x}, current, previous) == if Unreadable(current, previous, rows[x]) then lost + {x} else lost;
  }

  lemma OneMoreRekeyed(rows: Rows, rows': Rows, done: set<Slot>, x: Slot, s': Secret, current: Key, previous: Key)
    requires RekeyedIn(rows, rows', done, current, previous) && x in rows && x !in done
    requires RekeyedRow(current, previous, rows[x], s')
    ensures RekeyedIn(rows, rows'[x := s'], done + {x}, current, previous)
  {
  }

  lemma AllRekeyed(rows: Rows, rows': Rows, done: set<Slot>, current: Key, previous: Key)
    requires RekeyedIn(rows, rows', done, current, previous) && done == rows.Keys
    ensures Rekeyed(rows, rows', current, previous)
    ensures MovingIn(rows, done, current, previous) == Moving(rows, current, previous)
    ensures LostIn(rows, done, current, previous) == Lost(rows, current, previous)
  {
  }

  /** The rows the migration encrypts. */
  function Plain(rows: Rows, current: Key, firstRun: bool): set<Slot> {
    set x | x in rows && Encrypts(x, rows[x], current, firstRun)
  }

  ghost function PlainIn(rows: Rows, done: set<Slot>, current: Key, firstRun: bool): set<Slot> {
    Plain(rows, current, firstRun) * done
  }

  /** The migration has dealt with the rows in `done` and not with the others. */
  ghost predicate MigratedIn(rows: Rows, rows': Rows, done: set<Slot>, current: Key, firstRun: bool) {
    && rows'.Keys == rows.Keys
    && forall x :: x in rows ==>
         if x in done then SealedOrSame(Encrypts(x, rows[x], current, firstRun), current, rows[x], rows'[x])
         else rows'[x] == rows[x]
  }

  lemma OneMorePlain(rows: Rows, done: set<Slot>, x: Slot, current: Key, firstRun: bool)
    requires x in rows && x !in done
    ensures |PlainIn(rows, done + {x}, current, firstRun)| ==
            |PlainIn(rows, done, current, firstRun)| + (if Encrypts(x, rows[x], current, firstRun) then 1 else 0)
  {
    var plain := PlainIn(rows, done, current, firstRun);
    assert PlainIn(rows, done + {x}, current, firstRun) == if Encrypts(x, rows[x], current, firstRun) then plain + {x} else plain;
  }

  lemma OneMoreMigrated(rows: Rows, rows': Rows, done: set<Slot>, x: Slot, s': Secret, current: Key, firstRun: bool)
    requires MigratedIn(rows, rows', done, current, firstRun) && x in rows && x !in done
    requires SealedOrSame(Encrypts(x, rows[x], current, firstRun), current, rows[x], s')
    ensures MigratedIn(rows, rows'[x := s'], done + {x}, current, firstRun)
  {
  }

  lemma AllPlain(rows: Rows, rows': Rows, done: set<Slot>, current: Key, firstRun: bool)
    requires MigratedIn(rows, rows', done, current, firstRun) && done == rows.Keys
    ensures Migrated(rows, rows', current, firstRun)
    ensures PlainIn(rows, done, current, firstRun) == Plain(rows, current, firstRun)
  {
  }

  datatype RekeyOutcome = RekeyOutcome(source: string, rewritten: nat, unreadable: nat)

  class SecretStore {
    var rows: Rows
    var migrated: bool
    var lastRekey: Option<RekeyOutcome>
    var nonces: nat

    constructor (rows: Rows)
      ensures this.rows == rows && !migrated && lastRekey == None
    {
      this.rows, migrated, lastRekey, nonces := rows, false, None, 0;
    }

    method Encrypt(current: Key, plain: Secret) returns (s: Secret)
      modifies this`nonces
      ensures s.Sealed? && s.key == current && s.plain == plain
    {
      s := Sealed(current, plain, nonces);
      nonces := nonces + 1;
    }

    /** The value sealed anew under the current key, or None to leave it. */
    method Moved(current: Key, previous: Key, stored: Secret) returns (value: Option<Secret>, lost: bool)
      modifies this`nonces
      ensures value.Some? <==> Moves(current, previous, stored)
      ensures lost <==> Unreadable(current, previous, stored)
      ensures value.Some? ==> RekeyedRow(current, previous, stored, value.value)
    {
      if !IsEncrypted(stored) || Genuine(current, stored) {
        return None, false;
      }
      var plain := OpenWith(previous, stored);
      if plain.None? {
        return None, true;
      }
      var sealed := Encrypt(current, plain.value);
      return Some(sealed), false;
    }

    method RekeyRow(current: Key, previous: Key, x: Slot) returns (moved: bool, lost: bool)
      requires x in rows
      modifies this`rows, this`nonces
      ensures x in rows && rows == old(rows)[x := rows[x]]
      ensures RekeyedRow(current, previous, old(rows)[x], rows[x])
      ensures moved == Moves(current, previous, old(rows)[x])
      ensures lost == Unreadable(current, previous, old(rows)[x])
    {
      var value;
      value, lost := Moved(current, previous, rows[x]);
      moved := value.Some?;
      if moved {
        rows := rows[x := value.value];
      }
    }

    /** One transaction: every row the previous key opens and the current one
        does not is sealed anew, and the counts are exact. The outcome is
        recorded when asked for, or when there is something to tell. */
    method Rekey(current: Key, previous: Key, source: string, alwaysRecord: bool) returns (outcome: RekeyOutcome)
      modifies this
      ensures Rekeyed(old(rows), rows, current, previous)
      ensures outcome.rewritten == |Moving(old(rows), current, previous)|
      ensures outcome.unreadable == |Lost(old(rows), current, previous)|
      ensures lastRekey == if alwaysRecord || outcome.rewritten > 0 || outcome.unreadable > 0 then Some(outcome) else old(lastRekey)
      ensures outcome.source == source && migrated == old(migrated)
      ensures outcome.rewritten == |set x | x in rows && rows[x] != old(rows)[x]|
    {
      var rewritten, unreadable := RekeyRows(current, previous);
      forall x | x in rows ensures x in Moving(old(rows), current, previous) <==> rows[x] != old(rows)[x] {
        RekeyExactly(old(rows), rows, current, previous, x);
      }
      assert Moving(old(rows), current, previous) == set x | x in rows && rows[x] != old(rows)[x];
      outcome := RekeyOutcome(source, rewritten, unreadable);
      if alwaysRecord || rewritten > 0 || unreadable > 0 {
        lastRekey := Some(outcome);
      }
    }

    method RekeyRows(current: Key, previous: Key) returns (rewritten: nat, unreadable: nat)
      modifies this`rows, this`nonces
      ensures Rekeyed(old(rows), rows, current, previous)
      ensures rewritten == |Moving(old(rows), current, previous)|
      ensures unreadable == |Lost(old(rows), current, previous)|
    {
      ghost var before := rows;
      var todo := rows.Keys;
      rewritten, unreadable := 0, 0;
      ghost var all := rows.Keys;
      while todo != {}
        invariant todo <= all
        invariant RekeyedIn(before, rows, all - todo, current, previous)
        invariant rewritten == |MovingIn(before, all - todo, current, previous)|
        invariant unreadable == |LostIn(before, all - todo, current, previous)|
        decreases todo
      {
        var x :| x in todo;
        ghost var rows0 := rows;
        var moved, lost := RekeyRow(current, previous, x);
        OneMoreRow(before, all - todo, x, current, previous);
        OneMoreRekeyed(before, rows0, all - todo, x, rows[x], current, previous);
        OneFewer(all, todo, x);
        todo := todo - {x};
        if lost {
          unreadable := unreadable + 1;
        }
        if moved {
          rewritten := rewritten + 1;
        }
      }
      AllRekeyed(before, rows, all - todo, current, previous);
    }

    /** One transaction. `firstRun` was read before it began and may be stale. */
    method MigratePlaintext(current: Key, firstRun: bool) returns (rewritten: nat)
      modifies this
      ensures Migrated(old(rows), rows, current, firstRun)
      ensures rewritten == |Plain(old(rows), current, firstRun)|
      ensures migrated == (old(migrated) || firstRun) && lastRekey == old(lastRekey)
      ensures rewritten == |set x | x in rows && rows[x] != old(rows)[x]|
    {
      rewritten := MigrateRows(current, firstRun);
      forall x | x in rows ensures x in Plain(old(rows), current, firstRun) <==> rows[x] != old(rows)[x] {
        MigrateExactly(old(rows), rows, current, firstRun, x);
      }
      assert Plain(old(rows), current, firstRun) == set x | x in rows && rows[x] != old(rows)[x];
      if firstRun {
        migrated := true;
      }
    }

    method MigrateRow(current: Key, firstRun: bool, x: Slot) returns (sealed: bool)
      requires x in rows
      modifies this`rows, this`nonces
      ensures x in rows && rows == old(rows)[x := rows[x]]
      ensures sealed == Encrypts(x, old(rows)[x], current, firstRun)
      ensures SealedOrSame(sealed, current, old(rows)[x], rows[x])
    {
      var s := rows[x];
      sealed := !Skipped(x, s) && NeedsEncrypting(current, firstRun, s);
      if sealed {
        var value := Encrypt(current, s);
        rows := rows[x := value];
      }
    }

    method MigrateRows(current: Key, firstRun: bool) returns (rewritten: nat)
      modifies this`rows, this`nonces
      ensures Migrated(old(rows), rows, current, firstRun)
      ensures rewritten == |Plain(old(rows), current, firstRun)|
    {
      ghost var before, all := rows, rows.Keys;
      var todo := rows.Keys;
      rewritten := 0;
      while todo != {}
        invariant todo <= all
        invariant MigratedIn(before, rows, all - todo, current, firstRun)
        invariant rewritten == |PlainIn(before, all - todo, current, firstRun)|
        decreases todo
      {
        var x :| x in todo;
        ghost var rows0, done := rows, all - todo;
        var sealed := MigrateRow(current, firstRun, x);
        assert x !in done && rows0[x] == before[x];
        OneMorePlain(before, done, x, current, firstRun);
        OneMoreMigrated(before, rows0, done, x, rows[x], current, firstRun);
        OneFewer(all, todo, x);
        todo := todo - {x};
        assert all - todo == done + {x};
        if sealed {
          rewritten := rewritten + 1;
        }
      }
      AllPlain(before, rows, all - todo, current, firstRun);
    }
  }

  // ---- rotation ----------------------------------------------------------

  /** What the operator entered, as far as either key can tell. */
  function Meaning(current: Key, previous: Key, s: Secret): Secret {
    if Genuine(current, s) || OpenWith(previous, s).Some? then s.plain else s
  }

  /** Rotation preserves every row's plaintext and leaves nothing readable
      behind under the previous key: what either key opened, the current one
      opens now. Rows neither key opens are exactly as they were. */
  lemma RekeyPreserves(rows: Rows, rows': Rows, current: Key, previous: Key, x: Slot)
    requires Rekeyed(rows, rows', current, previous) && x in rows
    ensures Meaning(current, previous, rows'[x]) == Meaning(current, previous, rows[x])
    ensures OpenWith(previous, rows[x]).Some? || Genuine(current, rows[x]) ==>
              Decrypt(current, rows'[x]) == Some(rows[x].plain)
    ensures Genuine(current, rows[x]) || Unreadable(current, previous, rows[x]) || !IsEncrypted(rows[x]) ==> rows'[x] == rows[x]
    ensures Twice(rows'[x]) <==> Twice(rows[x])
  {
  }

  /** Rotation row by row: a token of the previous key, when that is another one,
      is sealed anew under the current key, and everything else stays: plaintext,
      tokens of the current key, and tokens of neither. Those of neither, and
      text that merely looks like a token, are what it reports as unreadable. */
  lemma RekeyExactly(rows: Rows, rows': Rows, current: Key, previous: Key, x: Slot)
    requires Rekeyed(rows, rows', current, previous) && x in rows
    ensures match rows[x]
            case Raw(_) => rows'[x] == rows[x]
            case Sealed(key, plain, _) =>
              if key == previous != current then rows'[x].Sealed? && rows'[x].key == current && rows'[x].plain == plain
              else rows'[x] == rows[x]
    ensures x in Lost(rows, current, previous) <==>
            match rows[x]
            case Raw(text) => |text| >= 5 && text[..5] == "enc1:"
            case Sealed(key, _, _) => key != current && key != previous
    ensures x in Moving(rows, current, previous) <==> rows'[x] != rows[x]
  {
  }

  /** Migration row by row. The first run seals everything that is not a token of
      the current key, later runs only what does not look like a token; an empty
      assistant key stays empty. What is sealed keeps what it held. */
  lemma MigrateExactly(rows: Rows, rows': Rows, current: Key, firstRun: bool, x: Slot)
    requires Migrated(rows, rows', current, firstRun) && x in rows
    ensures match rows[x]
            case Raw(text) =>
              if (x == ApiKey && text == "") || (!firstRun && |text| >= 5 && text[..5] == "enc1:") then rows'[x] == rows[x]
              else rows'[x].Sealed? && rows'[x].key == current && rows'[x].plain == Raw(text)
            case Sealed(key, _, _) =>
              if key == current || !firstRun then rows'[x] == rows[x]
              else rows'[x].Sealed? && rows'[x].key == current && rows'[x].plain == rows[x]
    ensures x in Plain(rows, current, firstRun) <==> rows'[x] != rows[x]
  {
    if rows'[x].Sealed? && rows[x].Sealed? {
      NotItsOwnPlain(rows'[x]);
    }
  }

  function Depth(s: Secret): nat { if s.Raw? then 0 else Depth(s.plain) + 1 }

  lemma NotItsOwnPlain(s: Secret)
    requires s.Sealed?
    ensures s != s.plain
  {
    assert Depth(s) == Depth(s.plain) + 1;
  }

  /** After a first migration nothing is left in the clear but an empty assistant
      key, and what the operator entered can be read with the current key. */
  lemma NothingInTheClear(rows: Rows, rows': Rows, current: Key, x: Slot)
    requires Migrated(rows, rows', current, true) && x in rows
    ensures rows'[x].Sealed? || (x == ApiKey && rows[x] == rows'[x] == Raw(""))
    ensures rows[x].Raw? && rows[x].text != "" ==> Decrypt(current, rows'[x]) == Some(rows[x])
    ensures rows[x] == Raw("") && x == ApiKey ==> Decrypt(current, rows'[x]) == Some(Raw(""))
  {
  }

  /** A read gives plaintext back as it is, unless it looks like a token; a token
      opens under its own key only. */
  lemma DecryptExactly(current: Key, s: Secret)
    ensures Decrypt(current, s) ==
            match s
            case Raw(text) => if |text| >= 5 && text[..5] == "enc1:" then None else Some(s)
            case Sealed(key, plain, _) => if key == current then Some(plain) else None
  {
  }

  /** Rotating again changes nothing, moves nothing and finds the same rows
      unreadable. */
  lemma RekeyIsIdempotent(a: Rows, b: Rows, c: Rows, current: Key, previous: Key)
    requires Rekeyed(a, b, current, previous) && Rekeyed(b, c, current, previous)
    ensures c == b && Moving(b, current, previous) == {}
    ensures Lost(b, current, previous) == Lost(a, current, previous)
  {
    assert forall x :: x in b ==> !Moves(current, previous, b[x]);
    assert forall x :: x in b ==> (Unreadable(current, previous, b[x]) <==> Unreadable(current, previous, a[x]));
  }

  // ---- any number of workers ---------------------------------------------

  /** What workers do to the rows, one transaction at a time, each with the key
      it holds as its current one. `Migrate(_, true)` may be stale; a save seals
      what the operator typed. */
  datatype Op =
    | Rotate(current: Key, previous: Key)
    | Migrate(current: Key, firstRun: bool)
    | Save(current: Key, slot: Slot, text: string)

  ghost predicate Transaction(rows: Rows, op: Op, rows': Rows) {
    match op
    case Rotate(current, previous) => Rekeyed(rows, rows', current, previous)
    case Migrate(current, firstRun) => Migrated(rows, rows', current, firstRun)
    case Save(current, slot, text) => exists n :: rows' == rows[slot := Sealed(current, Raw(text), n)]
  }

  /** States before, between and after the transactions. */
  ghost predicate Run(states: seq<Rows>, ops: seq<Op>) {
    && |states| == |ops| + 1
    && forall i :: 0 <= i < |ops| ==> Transaction(states[i], ops[i], states[i + 1])
  }

  ghost predicate NeverTwice(rows: Rows) { forall x :: x in rows ==> !Twice(rows[x]) }

  /** A first migration meets a token of another key. */
  ghost predicate Mistakes(rows: Rows, op: Op) {
    op.Migrate? && op.firstRun && exists x :: x in rows && rows[x].Sealed? && rows[x].key != op.current
  }

  lemma StepSealsTwice(rows: Rows, op: Op, rows': Rows)
    requires Transaction(rows, op, rows') && NeverTwice(rows)
    ensures NeverTwice(rows') <==> !Mistakes(rows, op)
  {
    if Mistakes(rows, op) {
      var x :| x in rows && rows[x].Sealed? && rows[x].key != op.current;
      assert Twice(rows'[x]);
    }
  }

  /** Over any run of workers with any keys, no value is ever sealed twice
      exactly when no first migration, stale or not, meets a token of a key that
      is not its worker's current one. */
  lemma {:induction false} RunSealsTwiceExactly(states: seq<Rows>, ops: seq<Op>, n: nat)
    requires Run(states, ops) && n <= |ops| && NeverTwice(states[0])
    ensures (forall j :: 0 <= j <= n ==> NeverTwice(states[j])) <==> (forall j :: 0 <= j < n ==> !Mistakes(states[j], ops[j]))
    decreases n
  {
    if n > 0 {
      RunSealsTwiceExactly(states, ops, n - 1);
      assert Transaction(states[n - 1], ops[n - 1], states[n]);
      if NeverTwice(states[n - 1]) {
        StepSealsTwice(states[n - 1], ops[n - 1], states[n]);
      }
    }
  }

  /** Every sealed row is sealed under the current key. */
  ghost predicate Rotated(rows: Rows, current: Key) {
    forall x :: x in rows && rows[x].Sealed? ==> rows[x].key == current
  }

  /** All workers hold the same current key. */
  predicate SameKey(ops: seq<Op>, current: Key) { forall i :: 0 <= i < |ops| ==> ops[i].current == current }

  /** Once rotated, rows stay rotated and are never sealed twice, whichever
      transactions of workers with that key follow and however stale their
      reading of the marker. */
  lemma {:induction false} WorkersNeverSealTwice(states: seq<Rows>, ops: seq<Op>, current: Key, i: nat)
    requires Run(states, ops) && SameKey(ops, current) && i < |states|
    requires NeverTwice(states[0]) && Rotated(states[0], current)
    ensures NeverTwice(states[i]) && Rotated(states[i], current)
    decreases i
  {
    if i > 0 {
      WorkersNeverSealTwice(states, ops, current, i - 1);
      assert Transaction(states[i - 1], ops[i - 1], states[i]);
      StepSealsTwice(states[i - 1], ops[i - 1], states[i]);
    }
  }

  /** And a row no save replaces keeps its meaning throughout. */
  lemma {:induction false} WorkersPreserve(states: seq<Rows>, ops: seq<Op>, current: Key, previous: Key, i: nat, x: Slot)
    requires Run(states, ops) && SameKey(ops, current) && i < |states|
    requires NeverTwice(states[0]) && Rotated(states[0], current) && x in states[0]
    requires forall j :: 0 <= j < i ==> !(ops[j].Save? && ops[j].slot == x)
    ensures x in states[i] && Meaning(current, previous, states[i][x]) == Meaning(current, previous, states[0][x])
    decreases i
  {
    if i > 0 {
      WorkersPreserve(states, ops, current, previous, i - 1, x);
      WorkersNeverSealTwice(states, ops, current, i - 1);
      assert Transaction(states[i - 1], ops[i - 1], states[i]);
    }
  }

  /** A worker that still holds the old key and runs a first migration after the
      rotation seals the rotated token again, under the old key: the workers
      with the new key can no longer read it, and rotating once more only gives
      them back the token. */
  lemma OlderWorkerSealsTwice(current: Key, older: Key) returns (states: seq<Rows>, ops: seq<Op>, x: Slot)
    requires current != older
    ensures Run(states, ops) && |ops| == 2 && NeverTwice(states[0]) && Rotated(states[0], current) && x in states[0]
    ensures ops == [Migrate(older, true), Rotate(current, older)]
    ensures x in states[1] && Twice(states[1][x]) && Decrypt(current, states[1][x]) == None
    ensures x in states[2] && Decrypt(current, states[2][x]) == Some(states[0][x])
  {
    x := Password(1);
    var token := Sealed(current, Raw("pw"), 0);
    var again := Sealed(older, token, 1);
    ops := [Migrate(older, true), Rotate(current, older)];
    states := [map[x := token], map[x := again], map[x := Sealed(current, token, 2)]];
    assert Transaction(states[0], ops[0], states[1]) && Transaction(states[1], ops[1], states[2]);
  }

  /** A second first migration, by a worker that read the marker too early,
      rewrites nothing. */
  lemma StaleFirstRunIsHarmless(a: Rows, b: Rows, c: Rows, current: Key)
    requires Migrated(a, b, current, true) && Migrated(b, c, current, true)
    ensures c == b
    ensures forall x :: x in b && !Skipped(x, b[x]) ==> Genuine(current, b[x])
  {
    assert forall x :: x in b && !Skipped(x, b[x]) ==> Genuine(current, b[x]);
  }

  /** Startup on a database that was never migrated rotates first and then
      encrypts. It seals a value twice exactly when some row is sealed under a
      key that is neither the current nor the previous one. */
  lemma StartupSealsTwiceExactly(a: Rows, b: Rows, c: Rows, current: Key, previous: Key)
    requires NeverTwice(a) && Rekeyed(a, b, current, previous) && Migrated(b, c, current, true)
    ensures NeverTwice(c) <==> forall x :: x in a && a[x].Sealed? ==> a[x].key == current || a[x].key == previous
  {
    if x :| x in a && a[x].Sealed? && a[x].key != current && a[x].key != previous {
      assert b[x] == a[x] && Twice(c[x]);
    }
  }

  /** Without a previous key the migration alone decides: a leftover token of
      another key is taken for plaintext. */
  lemma ForeignTokenIsSealedTwice(current: Key, other: Key) returns (a: Rows, c: Rows)
    requires current != other
    ensures NeverTwice(a) && Migrated(a, c, current, true) && !NeverTwice(c)
    ensures forall x :: x in a ==> Decrypt(current, c[x]) == Some(a[x]) && a[x].Sealed?
  {
    var token := Sealed(other, Raw("pw"), 0);
    a := map[Password(1) := token];
    c := map[Password(1) := Sealed(current, token, 1)];
    assert Twice(c[Password(1)]);
  }
}
