/** Reading a vCenter history collector page by page, and again from the start
    when a page names a managed object type the client does not know
    (backend/app/collectors/vsphere/events.py). */
module HistoryReader {
  import opened Basics

  const PAGE_SIZE := 1000
  const MAX_ITEMS := 20_000
  const MAX_PLACEHOLDER_TYPES := 8

  /** One entry of the vCenter's history, as the client meets it: an item, an
      item of unknown class that is dropped and counted before it is decoded,
      one that decodes to nothing, one that refers to a managed object type, or
      one that cannot be decoded whatever is known. */
  datatype Entry =
    | Item(id: nat)
    | Unknown(id: nat)
    | Null
    | Reference(id: nat, typeName: string)
    | Corrupt(error: Option<string>)

  /** What is readable once every referenced type is known. */
  function Readable(history: seq<Entry>): seq<nat> {
    if history == [] then []
    else
      var last := history[|history| - 1];
      Readable(history[..|history| - 1]) + (if last.Item? || last.Reference? then [last.id] else [])
  }

  predicate HasUnknown(page: seq<Entry>) { exists i :: 0 <= i < |page| && page[i].Unknown? }

  /** A page fails on the first reference to a type that is not known. */
  predicate Fails(e: Entry, known: set<string>) { e.Corrupt? || (e.Reference? && e.typeName !in known) }

  /** The type the error names, if it names one. */
  function Named(e: Entry): Option<string>
    requires e.Corrupt? || e.Reference?
  {
    if e.Corrupt? then e.error else Some(e.typeName)
  }

  function FirstFailure(page: seq<Entry>, known: set<string>): (i: int)
    ensures -1 <= i < |page|
    ensures i >= 0 ==> Fails(page[i], known)
    ensures forall k :: 0 <= k < (if i < 0 then |page| else i) ==> !Fails(page[k], known)
  {
    if page == [] then -1
    else
      var i := FirstFailure(page[..|page| - 1], known);
      if i >= 0 then i else if Fails(page[|page| - 1], known) then |page| - 1 else -1
  }

  lemma {:induction false} ReadableConcat(a: seq<Entry>, b: seq<Entry>)
    ensures Readable(a + b) == Readable(a) + Readable(b)
    decreases |b|
  {
    if b == [] {
      assert a + b == a;
    } else {
      var n := |b| - 1;
      ReadableConcat(a, b[..n]);
      assert (a + b)[..|a + b| - 1] == a + b[..n];
    }
  }

  lemma {:induction false} ReadableShorter(a: seq<Entry>)
    ensures |Readable(a)| <= |a|
    decreases |a|
  {
    if a != [] {
      ReadableShorter(a[..|a| - 1]);
    }
  }

  lemma {:induction false} ReadableSize(a: seq<Entry>)
    ensures |Readable(a)| <= |a|
    ensures Readable(a) == [] <==> forall i :: 0 <= i < |a| ==> a[i].Unknown? || a[i].Null? || a[i].Corrupt?
    decreases |a|
  {
    if a != [] {
      var n := |a| - 1;
      ReadableSize(a[..n]);
      assert forall i :: 0 <= i < n ==> a[..n][i] == a[i];
    }
  }

  datatype Page = Page(items: seq<nat>, dropped: bool) | KeyError(typeName: Option<string>)

  /** The server-side collector: a position in a fixed history. */
  class HistoryCollector {
    const history: seq<Entry>
    var pos: nat

    constructor (history: seq<Entry>)
      ensures this.history == history && pos == 0
    {
      this.history, pos := history, 0;
    }

    method RewindCollector()
      modifies this
      ensures pos == 0
    {
      pos := 0;
    }

    /** The next `n` entries, or the error of the first unknown type. */
    method ReadNext(n: nat, known: set<string>) returns (page: Page)
      requires pos <= |history|
      modifies this
      ensures pos == NextPos(history, old(pos), n)
      ensures page == PageAt(history, old(pos), n, known)
    {
      var end := NextPos(history, pos, n);
      page := PageAt(history, pos, n, known);
      pos := end;
    }
  }

  function NextPos(history: seq<Entry>, pos: nat, n: nat): (end: nat)
    requires pos <= |history|
    ensures pos <= end <= |history| && end <= pos + n
    ensures end == |history| || end == pos + n
  {
    if pos + n <= |history| then pos + n else |history|
  }

  function PageAt(history: seq<Entry>, pos: nat, n: nat, known: set<string>): Page
    requires pos <= |history|
  {
    var raw := history[pos..NextPos(history, pos, n)];
    var failure := FirstFailure(raw, known);
    if failure >= 0 then KeyError(Named(raw[failure])) else Page(Readable(raw), HasUnknown(raw))
  }

  predicate AllNull(history: seq<Entry>, from: nat, to: nat) {
    from <= to <= |history| && forall i :: from <= i < to ==> history[i].Null?
  }

  datatype Batch = Batch(items: seq<nat>, complete: bool)

  datatype Reading = Done(batch: Batch) | Failed(typeName: Option<string>)

  /** How many entries the next page asks for. */
  function PageLength(count: nat): (n: nat)
    requires count < MAX_ITEMS
    ensures 0 < n <= PAGE_SIZE && count + n <= MAX_ITEMS
  {
    Min(PAGE_SIZE, MAX_ITEMS - count)
  }

  lemma PageRead(history: seq<Entry>, pos: nat, n: nat, known: set<string>)
    requires pos <= |history|
    ensures var page := PageAt(history, pos, n, known);
            var end := NextPos(history, pos, n);
            && (page.Page? <==> forall i :: pos <= i < end ==> !Fails(history[i], known))
            && (page.Page? ==>
                  && page.items == Readable(history[pos..end]) && |page.items| <= n
                  && (page.items == [] && !page.dropped <==> AllNull(history, pos, end)))
            && (page.KeyError? ==> FailsFirst(history, pos, end, known, page.typeName))
  {
    var end := NextPos(history, pos, n);
    var raw := history[pos..end];
    assert forall i :: pos <= i < end ==> raw[i - pos] == history[i];
    ReadableSize(raw);
    var k := FirstFailure(raw, known);
    if k >= 0 {
      assert history[pos + k] == raw[k];
      assert FirstFailing(history, pos, pos + k, known);
    }
  }

  predicate FirstFailing(history: seq<Entry>, from: nat, i: nat, known: set<string>) {
    from <= i < |history| && Fails(history[i], known) && forall j :: from <= j < i ==> !Fails(history[j], known)
  }

  /** The first entry that cannot be decoded, before `to`, has that error. */
  ghost predicate FailsFirst(history: seq<Entry>, from: nat, to: nat, known: set<string>, typeName: Option<string>) {
    exists i: nat :: i < to && FirstFailing(history, from, i, known) && typeName == Named(history[i])
  }

  /** The reading loop, from a position and with what has been read so far. */
  function ReadFrom(history: seq<Entry>, pos: nat, out: seq<nat>, known: set<string>): Reading
    requires pos <= |history| && |out| <= MAX_ITEMS
    decreases |history| - pos
  {
    if |out| == MAX_ITEMS then Done(Batch(out, false))
    else
      var n := PageLength(|out|);
      PageRead(history, pos, n, known);
      match PageAt(history, pos, n, known)
      case KeyError(typeName) => Failed(typeName)
      case Page(items, dropped) =>
        if items == [] && !dropped then Done(Batch(out, true))
        else ReadFrom(history, NextPos(history, pos, n), out + items, known)
  }

  /** One reading of the whole window. */
  function ReadWindow(history: seq<Entry>, known: set<string>): Reading { ReadFrom(history, 0, [], known) }

  /** Rewind and page through up to MAX_ITEMS. */
  method ReadPages(collector: HistoryCollector, known: set<string>) returns (r: Reading)
    modifies collector
    ensures r == ReadWindow(collector.history, known)
  {
    ghost var history := collector.history;
    var out: seq<nat> := [];
    collector.RewindCollector();
    while |out| < MAX_ITEMS
      invariant collector.pos <= |history| && |out| <= MAX_ITEMS
      invariant ReadFrom(history, collector.pos, out, known) == ReadWindow(history, known)
      decreases |history| - collector.pos
    {
      var n := if PAGE_SIZE < MAX_ITEMS - |out| then PAGE_SIZE else MAX_ITEMS - |out|;
      PageRead(history, collector.pos, n, known);
      var page := collector.ReadNext(n, known);
      if page.KeyError? {
        return Failed(page.typeName);
      }
      if page.items == [] {
        if page.dropped {
          assert out + page.items == out;
          continue;
        }
        return Done(Batch(out, true));
      }
      out := out + page.items;
    }
    return Done(Batch(out, false));
  }

  // ---- what a reading returns --------------------------------------------

  /** Where paging stops: at the cap, or at the first page, as the code pages,
      whose entries all decode to nothing (the end of the history is one). */
  datatype Stop = Capped(pos: nat) | Empty(pos: nat)

  function StopFrom(history: seq<Entry>, pos: nat, count: nat): (stop: Stop)
    requires pos <= |history| && count <= MAX_ITEMS
    ensures pos <= stop.pos <= |history|
    decreases |history| - pos
  {
    if count == MAX_ITEMS then Capped(pos)
    else
      var end := NextPos(history, pos, PageLength(count));
      ReadableShorter(history[pos..end]);
      if AllNull(history, pos, end) then Empty(pos)
      else StopFrom(history, end, count + |Readable(history[pos..end])|)
  }

  function StopOf(history: seq<Entry>): (stop: Stop)
    ensures stop.pos <= |history|
  {
    StopFrom(history, 0, 0)
  }

  /** Nothing between the two positions stands in the way of a reading. */
  ghost predicate Clear(history: seq<Entry>, from: nat, to: nat, known: set<string>) {
    forall i :: from <= i < to && i < |history| ==> !Fails(history[i], known)
  }

  /** One page further. */
  lemma NextPage(history: seq<Entry>, pos: nat, n: nat)
    requires pos <= |history|
    ensures var end := NextPos(history, pos, n);
            && Readable(history[..end]) == Readable(history[..pos]) + Readable(history[pos..end])
            && |Readable(history[pos..end])| <= n
  {
    var end := NextPos(history, pos, n);
    assert history[..end] == history[..pos] + history[pos..end];
    ReadableConcat(history[..pos], history[pos..end]);
    ReadableShorter(history[pos..end]);
  }

  lemma FailsLater(history: seq<Entry>, from: nat, mid: nat, to: nat, known: set<string>, typeName: Option<string>)
    requires from <= mid && Clear(history, from, mid, known) && FailsFirst(history, mid, to, known, typeName)
    ensures FailsFirst(history, from, to, known, typeName)
  {
    var i: nat :| i < to && FirstFailing(history, mid, i, known) && typeName == Named(history[i]);
    assert FirstFailing(history, from, i, known);
  }

  lemma FailsFarther(history: seq<Entry>, from: nat, mid: nat, to: nat, known: set<string>, typeName: Option<string>)
    requires mid <= to && FailsFirst(history, from, mid, known, typeName)
    ensures FailsFirst(history, from, to, known, typeName) && !Clear(history, from, to, known)
  {
    var i: nat :| i < mid && FirstFailing(history, from, i, known) && typeName == Named(history[i]);
    assert Fails(history[i], known);
  }

  lemma ClearSplits(history: seq<Entry>, from: nat, mid: nat, to: nat, known: set<string>)
    requires from <= mid <= to
    ensures Clear(history, from, to, known) <==> Clear(history, from, mid, known) && Clear(history, mid, to, known)
  {
  }

  /** One turn of the loop. */
  lemma ReadStep(history: seq<Entry>, pos: nat, out: seq<nat>, known: set<string>)
    requires pos <= |history| && |out| < MAX_ITEMS
    ensures var n := PageLength(|out|);
            var end := NextPos(history, pos, n);
            var r := ReadFrom(history, pos, out, known);
            && |Readable(history[pos..end])| <= n
            && (!Clear(history, pos, end, known) ==> r.Failed? && FailsFirst(history, pos, end, known, r.typeName))
            && (Clear(history, pos, end, known) ==>
                  r == if AllNull(history, pos, end) then Done(Batch(out, true))
                       else ReadFrom(history, end, out + Readable(history[pos..end]), known))
  {
    PageRead(history, pos, PageLength(|out|), known);
    ReadableShorter(history[pos..NextPos(history, pos, PageLength(|out|))]);
  }

  /** The loop from here reads up to the stop, or fails at the first entry
      before it that cannot be decoded. */
  ghost predicate ReadsTo(r: Reading, history: seq<Entry>, pos: nat, stop: Stop, known: set<string>) {
    && stop.pos <= |history|
    && (r.Done? <==> Clear(history, pos, stop.pos, known))
    && (r.Done? ==> r.batch == Batch(Readable(history[..stop.pos]), stop.Empty?))
    && (r.Failed? ==> FailsFirst(history, pos, stop.pos, known, r.typeName))
  }

  lemma ReadsOn(r: Reading, history: seq<Entry>, pos: nat, end: nat, stop: Stop, known: set<string>)
    requires pos <= end <= stop.pos && Clear(history, pos, end, known) && ReadsTo(r, history, end, stop, known)
    ensures ReadsTo(r, history, pos, stop, known)
  {
    ClearSplits(history, pos, end, stop.pos, known);
    if r.Failed? {
      FailsLater(history, pos, end, stop.pos, known, r.typeName);
    }
  }

  lemma StopStep(history: seq<Entry>, pos: nat, out: seq<nat>)
    requires pos <= |history| && |out| < MAX_ITEMS
    ensures var end := NextPos(history, pos, PageLength(|out|));
            var more := out + Readable(history[pos..end]);
            && |more| <= MAX_ITEMS
            && (!AllNull(history, pos, end) ==> StopFrom(history, pos, |out|) == StopFrom(history, end, |more|))
  {
    var end := NextPos(history, pos, PageLength(|out|));
    ReadableShorter(history[pos..end]);
    assert |out + Readable(history[pos..end])| == |out| + |Readable(history[pos..end])|;
  }

  lemma {:induction false} ReadsUpToStop(history: seq<Entry>, pos: nat, out: seq<nat>, known: set<string>)
    requires pos <= |history| && |out| <= MAX_ITEMS && out == Readable(history[..pos])
    ensures ReadsTo(ReadFrom(history, pos, out, known), history, pos, StopFrom(history, pos, |out|), known)
    decreases |history| - pos
  {
    if |out| < MAX_ITEMS {
      var n := PageLength(|out|);
      var end := NextPos(history, pos, n);
      ReadStep(history, pos, out, known);
      var r, stop := ReadFrom(history, pos, out, known), StopFrom(history, pos, |out|);
      if AllNull(history, pos, end) {
        assert Clear(history, pos, end, known);
      } else {
        var more := out + Readable(history[pos..end]);
        StopStep(history, pos, out);
        if Clear(history, pos, end, known) {
          NextPage(history, pos, n);
          ReadsUpToStop(history, end, more, known);
          assert r == ReadFrom(history, end, more, known);
          ReadsOn(r, history, pos, end, stop, known);
        } else {
          FailsFarther(history, pos, end, stop.pos, known, r.typeName);
        }
      }
    }
  }

  /** A reading succeeds exactly when everything before the stop can be decoded,
      and then it returns what is readable there, in order, each entry once;
      otherwise it fails with the error of the first entry that cannot. Which
      types happen to be known makes no other difference. */
  lemma ReadExactly(history: seq<Entry>, known: set<string>)
    ensures var stop, r := StopOf(history), ReadWindow(history, known);
            && (r.Done? <==> Clear(history, 0, stop.pos, known))
            && (r.Done? ==> r.batch == Batch(Readable(history[..stop.pos]), stop.Empty?))
            && (r.Failed? ==> FailsFirst(history, 0, stop.pos, known, r.typeName))
  {
    assert history[..0] == [];
    ReadsUpToStop(history, 0, [], known);
  }

  // ---- what complete means -----------------------------------------------

  predicate IsReadable(e: Entry) { e.Item? || e.Reference? }

  lemma NothingReadableFrom(history: seq<Entry>, p: nat)
    requires p <= |history|
    ensures Readable(history[p..]) == [] <==> NothingFollows(history, p)
  {
    var rest := history[p..];
    ReadableSize(rest);
    assert forall i :: p <= i < |history| ==> history[i] == rest[i - p];
    assert forall j :: 0 <= j < |rest| ==> rest[j] == history[p + j];
  }

  lemma ReadableSplit(history: seq<Entry>, p: nat)
    requires p <= |history|
    ensures Readable(history) == Readable(history[..p]) + Readable(history[p..])
  {
    assert history == history[..p] + history[p..];
    ReadableConcat(history[..p], history[p..]);
  }

  lemma AppendsNothing(a: seq<nat>, b: seq<nat>)
    ensures a == a + b <==> b == []
  {
    if b != [] {
      assert |a + b| > |a|;
    }
  }

  /** A reading that calls itself complete returned all that is readable exactly
      when nothing readable follows the first page, as the code pages, whose
      entries all decode to nothing. */
  lemma CompleteIsAllExactly(history: seq<Entry>, known: set<string>)
    requires var r := ReadWindow(history, known); r.Done? && r.batch.complete
    ensures ReadWindow(history, known).batch.items == Readable(history) <==> NothingFollows(history, StopOf(history).pos)
  {
    var p := StopOf(history).pos;
    ReadExactly(history, known);
    ReadableSplit(history, p);
    NothingReadableFrom(history, p);
    AppendsNothing(Readable(history[..p]), Readable(history[p..]));
  }

  ghost predicate NothingFollows(history: seq<Entry>, p: nat) {
    forall i :: p <= i < |history| ==> !IsReadable(history[i])
  }

  /** Where paging stops, and how much is readable before, without such entries. */
  ghost predicate AtEndOrCap(history: seq<Entry>, stop: Stop) {
    && stop.pos <= |history|
    && (stop.Empty? ==> stop.pos == |history| && |Readable(history[..stop.pos])| < MAX_ITEMS)
    && (stop.Capped? ==> |Readable(history[..stop.pos])| == MAX_ITEMS)
  }

  lemma {:induction false} StopsAtEnd(history: seq<Entry>, pos: nat, out: seq<nat>)
    requires pos <= |history| && |out| <= MAX_ITEMS && out == Readable(history[..pos])
    requires forall i :: 0 <= i < |history| ==> !history[i].Null?
    ensures AtEndOrCap(history, StopFrom(history, pos, |out|))
    decreases |history| - pos
  {
    if |out| < MAX_ITEMS {
      var end := NextPos(history, pos, PageLength(|out|));
      StopStep(history, pos, out);
      if pos < end {
        assert !history[pos].Null?;
        NextPage(history, pos, PageLength(|out|));
        StopsAtEnd(history, end, out + Readable(history[pos..end]));
      }
    }
  }

  /** Without entries that decode to nothing complete means complete, and a
      reading is complete exactly when what is readable is below the cap. */
  lemma CompleteWithoutNulls(history: seq<Entry>, known: set<string>)
    requires ReadWindow(history, known).Done?
    requires forall i :: 0 <= i < |history| ==> !history[i].Null?
    ensures var batch := ReadWindow(history, known).batch;
            && (batch.complete ==> batch.items == Readable(history))
            && (batch.complete <==> |Readable(history)| < 20_000)
            && batch.items <= Readable(history)
  {
    ReadExactly(history, known);
    assert history[..0] == [];
    StopsAtEnd(history, 0, []);
    var p := StopOf(history).pos;
    ReadableSplit(history, p);
    assert history[..|history|] == history;
  }

  /** A full page of entries that decode to nothing ends the reading early, and
      the reading calls itself complete. */
  lemma NullPageHidesTheRest(id: nat, known: set<string>)
    ensures var history := seq(1000, i => Null) + [Item(id)];
            ReadWindow(history, known) == Done(Batch([], true)) && Readable(history) == [id]
  {
    var nulls := seq(PAGE_SIZE, i => Null);
    var history := nulls + [Item(id)];
    assert NextPos(history, 0, PAGE_SIZE) == PAGE_SIZE;
    assert AllNull(history, 0, NextPos(history, 0, PAGE_SIZE));
    assert StopOf(history) == Empty(0);
    ReadExactly(history, known);
    assert history[..0] == [];
    ReadableSize(nulls);
    assert history[..|history| - 1] == nulls;
  }

  lemma PageOfItems(history: seq<Entry>, id: nat, pos: nat)
    requires 0 < pos && pos + PAGE_SIZE <= MAX_ITEMS <= |history|
    requires forall i :: 0 < i < MAX_ITEMS ==> history[i] == Item(id)
    ensures !AllNull(history, pos, pos + PAGE_SIZE) && |Readable(history[pos..pos + PAGE_SIZE])| == PAGE_SIZE
  {
    AllItems(history[pos..pos + PAGE_SIZE], id);
    assert history[pos] == Item(id);
  }

  lemma {:induction false} ItemsOnly(history: seq<Entry>, id: nat, k: nat)
    requires 0 < k <= 20 && |history| >= MAX_ITEMS
    requires forall i :: 0 < i < MAX_ITEMS ==> history[i] == Item(id)
    ensures StopFrom(history, PAGE_SIZE * k, PAGE_SIZE * k - 1) == StopFrom(history, MAX_ITEMS, MAX_ITEMS - 1)
    decreases 20 - k
  {
    if k < 20 {
      var pos := PAGE_SIZE * k;
      assert NextPos(history, pos, PageLength(pos - 1)) == pos + PAGE_SIZE;
      PageOfItems(history, id, pos);
      ItemsOnly(history, id, k + 1);
    }
  }

  lemma {:induction false} AllItems(page: seq<Entry>, id: nat)
    requires forall i :: 0 <= i < |page| ==> page[i] == Item(id)
    ensures |Readable(page)| == |page|
    decreases |page|
  {
    if page != [] {
      AllItems(page[..|page| - 1], id);
    }
  }

  lemma NullThenItems(page: seq<Entry>, id: nat)
    requires page != [] && page[0].Null? && forall i :: 0 < i < |page| ==> page[i] == Item(id)
    ensures |Readable(page)| == |page| - 1
  {
    ReadableSplit(page, 1);
    AllItems(page[1..], id);
    assert page[..1] == [Null] && [Null][..0] == [];
  }

  lemma FirstPageOfItems(history: seq<Entry>, id: nat)
    requires |history| >= MAX_ITEMS && history[0].Null?
    requires forall i :: 0 < i < MAX_ITEMS ==> history[i] == Item(id)
    ensures StopOf(history) == StopFrom(history, MAX_ITEMS, MAX_ITEMS - 1)
  {
    assert NextPos(history, 0, PageLength(0)) == PAGE_SIZE;
    NullThenItems(history[0..PAGE_SIZE], id);
    assert history[1] == Item(id);
    ItemsOnly(history, id, 1);
  }

  /** One item short of the cap a page is a single entry, and one that decodes
      to nothing hides the rest. */
  lemma OneNullHidesTheRest(history: seq<Entry>, id: nat, last: nat, known: set<string>)
    requires history == [Null] + seq(19_999, i => Item(id)) + [Null, Item(last)]
    ensures var r := ReadWindow(history, known);
            && r.Done? && r.batch.complete
            && Readable(history) == r.batch.items + [last]
  {
    FirstPageOfItems(history, id);
    assert AllNull(history, MAX_ITEMS, NextPos(history, MAX_ITEMS, PageLength(MAX_ITEMS - 1)));
    assert StopOf(history) == Empty(MAX_ITEMS);
    ReadExactly(history, known);
    ReadableSplit(history, MAX_ITEMS);
    var tail := history[MAX_ITEMS..];
    assert tail == [Null, Item(last)] && tail[..1] == [Null] && [Null][..0] == [];
  }

  // ---- surviving unknown types -------------------------------------------

  /** The client's type registry: types it defines itself, and placeholders. */
  class Types {
    const native: set<string>
    var placeholders: set<string>

    constructor (native: set<string>)
      ensures this.native == native && placeholders == {}
    {
      this.native, placeholders := native, {};
    }

    /** True when a placeholder serves the type. */
    method Register(name: string) returns (served: bool)
      modifies this
      ensures served <==> name in old(placeholders) || name !in native
      ensures placeholders == old(placeholders) + (if served then {name} else {})
    {
      if name in placeholders {
        return true;
      }
      if name in native {
        return false;
      }
      placeholders := placeholders + {name};
      return true;
    }
  }

  datatype Drained = Drained(reading: Reading, placeholders: set<string>, readings: nat)

  /** Read, register a placeholder for the type the error names, and start over:
      not for an error that names none, a name that came up before, a type the
      client defines itself, or one type too many. */
  function DrainFrom(history: seq<Entry>, native: set<string>, placeholders: set<string>, registered: set<string>): Drained
    requires |registered| <= MAX_PLACEHOLDER_TYPES
    decreases MAX_PLACEHOLDER_TYPES - |registered|
  {
    var r := ReadWindow(history, native + placeholders);
    if r.Done? || r.typeName.None? || r.typeName.value in registered || |registered| == MAX_PLACEHOLDER_TYPES
       || (r.typeName.value !in placeholders && r.typeName.value in native)
    then Drained(r, placeholders, 1)
    else
      var rest := DrainFrom(history, native, placeholders + {r.typeName.value}, registered + {r.typeName.value});
      rest.(readings := rest.readings + 1)
  }

  /** Read the whole collector, surviving types the client does not know. */
  method Drain(collector: HistoryCollector, types: Types) returns (r: Reading, readings: nat)
    modifies collector, types
    ensures Drained(r, types.placeholders, readings) == DrainFrom(collector.history, types.native, old(types.placeholders), {})
  {
    var registered: set<string> := {};
    readings := 0;
    ghost var whole := DrainFrom(collector.history, types.native, types.placeholders, {});
    while true
      invariant |registered| <= MAX_PLACEHOLDER_TYPES
      invariant var rest := DrainFrom(collector.history, types.native, types.placeholders, registered);
                whole == rest.(readings := rest.readings + readings)
      decreases MAX_PLACEHOLDER_TYPES - |registered|
    {
      r := ReadPages(collector, types.native + types.placeholders);
      readings := readings + 1;
      if r.Done? || r.typeName.None? || r.typeName.value in registered || |registered| >= MAX_PLACEHOLDER_TYPES {
        return;
      }
      var served := types.Register(r.typeName.value);
      if !served {
        return;
      }
      registered := registered + {r.typeName.value};
    }
  }

  // ---- when draining succeeds --------------------------------------------

  /** The types referred to that the client does not know yet. */
  function Strange(history: seq<Entry>, known: set<string>): set<string> {
    set i | 0 <= i < |history| && history[i].Reference? && history[i].typeName !in known :: history[i].typeName
  }

  ghost predicate Decodable(history: seq<Entry>) { forall i :: 0 <= i < |history| ==> !history[i].Corrupt? }

  lemma ClearExactly(history: seq<Entry>, p: nat, known: set<string>)
    requires p <= |history|
    ensures Clear(history, 0, p, known) <==> Decodable(history[..p]) && Strange(history[..p], known) == {}
  {
    var h := history[..p];
    forall i | 0 <= i < p
      ensures Fails(history[i], known) <==> h[i].Corrupt? || (h[i].Reference? && h[i].typeName in Strange(h, known))
    {
      assert h[i] == history[i];
    }
    assert forall t :: t in Strange(h, known) ==> exists i :: 0 <= i < p && h[i].Reference? && h[i].typeName == t;
  }

  lemma OneLessStrange(h: seq<Entry>, known: set<string>, t: string)
    requires t in Strange(h, known)
    ensures |Strange(h, known + {t})| == |Strange(h, known)| - 1
  {
    assert Strange(h, known + {t}) == Strange(h, known) - {t};
  }

  /** A reading succeeds exactly when nothing before the stop is corrupt or
      strange; if nothing is corrupt, the error names a strange type. */
  lemma ReadOutcome(history: seq<Entry>, known: set<string>)
    ensures var h, r := history[..StopOf(history).pos], ReadWindow(history, known);
            && (r.Done? <==> Decodable(h) && Strange(h, known) == {})
            && (r.Done? ==> r.batch == Batch(Readable(h), StopOf(history).Empty?))
            && (r.Failed? && Decodable(h) ==> r.typeName.Some? && r.typeName.value in Strange(h, known))
  {
    var p := StopOf(history).pos;
    var h := history[..p];
    ReadExactly(history, known);
    ClearExactly(history, p, known);
    if ReadWindow(history, known).Failed? && Decodable(h) {
      var t := ReadWindow(history, known).typeName;
      var i: nat :| i < p && FirstFailing(history, 0, i, known) && t == Named(history[i]);
      assert h[i] == history[i];
    }
  }

  lemma {:induction false} DrainsExactly(history: seq<Entry>, native: set<string>, placeholders: set<string>, registered: set<string>)
    requires |registered| <= MAX_PLACEHOLDER_TYPES && registered <= placeholders
    ensures var h, d := history[..StopOf(history).pos], DrainFrom(history, native, placeholders, registered);
            var strange := |Strange(h, native + placeholders)|;
            && (d.reading.Done? <==> Decodable(h) && strange + |registered| <= MAX_PLACEHOLDER_TYPES)
            && d.readings + |registered| <= MAX_PLACEHOLDER_TYPES + 1
            && (d.reading.Done? ==> d.readings == strange + 1 && d.reading.batch == Batch(Readable(h), StopOf(history).Empty?))
    decreases MAX_PLACEHOLDER_TYPES - |registered|
  {
    var known := native + placeholders;
    var h := history[..StopOf(history).pos];
    var r := ReadWindow(history, known);
    ReadOutcome(history, known);
    if r.Failed? && r.typeName.Some? {
      var t := r.typeName.value;
      if t in Strange(h, known) {
        OneLessStrange(h, known, t);
      }
      if t !in registered && |registered| < MAX_PLACEHOLDER_TYPES && (t in placeholders || t !in native) {
        DrainsExactly(history, native, placeholders + {t}, registered + {t});
        assert native + (placeholders + {t}) == known + {t};
      }
    }
  }

  /** Draining reads at most nine times. It succeeds exactly when, up to where
      paging stops, every entry can be decoded and at most eight types are
      unknown, whatever was registered before; and then its result is that of
      one reading from the start. */
  lemma DrainSucceedsExactly(history: seq<Entry>, native: set<string>, placeholders: set<string>)
    ensures var h, d := history[..StopOf(history).pos], DrainFrom(history, native, placeholders, {});
            && (d.reading.Done? <==> Decodable(h) && |Strange(h, native + placeholders)| <= 8)
            && d.readings <= 9
            && (d.reading.Done? ==> d.reading.batch == Batch(Readable(h), StopOf(history).Empty?))
  {
    DrainsExactly(history, native, placeholders, {});
  }
}
