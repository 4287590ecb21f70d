/** The read loop of the assistant's stream and the dispatch of its blocks
    (frontend/src/api/assistant.ts). */
module StreamReader {
  import opened Basics
  import opened EventStream

  datatype Event =
    | Delta(text: string)
    | Done(stopReason: string, findings: int, changes: int, resources: int, events: int)
    | Error(message: string)

  /** What a block's data decodes to. Data that is not JSON decodes to its own
      text; absent fields are None. */
  datatype Data = Data(text: Option<string>, stopReason: Option<string>, message: Option<string>, evidence: map<string, int>)

  type Decoder = string -> Data

  const STREAM_ENDED := Error("Stream ended before completion")

  // ---- dispatching one block ---------------------------------------------

  predicate IsSpace(c: char) {
    || 9 <= c as int <= 13 || c == ' ' || c as int == 160 || c as int == 0x1680 || 0x2000 <= c as int <= 0x200A
    || c as int == 0x2028 || c as int == 0x2029 || c as int == 0x202F || c as int == 0x205F || c as int == 0x3000
    || c as int == 0xFEFF
  }

  function TrimLeft(s: string): string { if s != [] && IsSpace(s[0]) then TrimLeft(s[1..]) else s }

  function TrimRight(s: string): string {
    if s != [] && IsSpace(s[|s| - 1]) then TrimRight(s[..|s| - 1]) else s
  }

  function Trim(s: string): string { TrimRight(TrimLeft(s)) }

  function Lines(s: string): (r: seq<string>)
    ensures r != []
    decreases |s|
  {
    if s == [] then [""]
    else
      var rest := Lines(s[1..]);
      if s[0] == '\n' then [""] + rest else [[s[0]] + rest[0]] + rest[1..]
  }

  predicate StartsWith(s: string, prefix: string) { prefix <= s }

  /** One leading space of a value is dropped. */
  function Value(s: string): string { if s != [] && s[0] == ' ' then s[1..] else s }

  /** The fields of a block: the last event name and all data lines. */
  datatype Fields = Fields(event: string, data: seq<string>)

  function FieldsOf(lines: seq<string>): Fields {
    if lines == [] then Fields("message", [])
    else
      var line, before := lines[|lines| - 1], FieldsOf(lines[..|lines| - 1]);
      if StartsWith(line, "event:") then before.(event := Trim(line[6..]))
      else if StartsWith(line, "data:") then before.(data := before.data + [Value(line[5..])])
      else before
  }

  function JoinLines(lines: seq<string>): string {
    if lines == [] then "" else if |lines| == 1 then lines[0] else lines[0] + "\n" + JoinLines(lines[1..])
  }

  /** The lines of a text, joined again, are the text; none spans two lines. */
  lemma {:induction false} LinesRejoin(s: string)
    ensures JoinLines(Lines(s)) == s
    ensures forall line :: line in Lines(s) ==> '\n' !in line
    decreases |s|
  {
    if s != [] {
      LinesRejoin(s[1..]);
      var rest := Lines(s[1..]);
      assert s == [s[0]] + s[1..];
      if s[0] == '\n' {
        assert ([""] + rest)[1..] == rest;
        assert "" + "\n" + s[1..] == s;
      } else if |rest| > 1 {
        var head := [s[0]] + rest[0];
        assert ([head] + rest[1..])[1..] == rest[1..];
        assert head + "\n" + JoinLines(rest[1..]) == [s[0]] + (rest[0] + "\n" + JoinLines(rest[1..]));
      }
    }
  }

  function OrElse(o: Option<string>, d: string): string { if o.Some? then o.value else d }

  function CountOf(evidence: map<string, int>, key: string): int { if key in evidence then evidence[key] else 0 }

  function EventOf(name: string, data: Data): Option<Event> {
    if name == "delta" then Some(Delta(OrElse(data.text, "")))
    else if name == "done" then
      Some(Done(OrElse(data.stopReason, "end_turn"), CountOf(data.evidence, "findings"), CountOf(data.evidence, "changes"),
                CountOf(data.evidence, "resources"), CountOf(data.evidence, "events")))
    else if name == "error" then Some(Error(OrElse(data.message, "Assistant error")))
    else None
  }

  /** The event of a block, if it has data and a known name. */
  function Dispatched(block: string, decode: Decoder): Option<Event> {
    var f := FieldsOf(Lines(block));
    if f.data == [] then None else EventOf(f.event, decode(JoinLines(f.data)))
  }

  /** The events of a sequence of blocks; blank blocks are skipped. */
  function EventsOf(blocks: seq<string>, decode: Decoder): seq<Event> {
    if blocks == [] then []
    else
      var block := blocks[|blocks| - 1];
      EventsOf(blocks[..|blocks| - 1], decode) +
      (if Trim(block) != "" && Dispatched(block, decode).Some? then [Dispatched(block, decode).value] else [])
  }

  ghost predicate HasDone(events: seq<Event>) { exists e :: e in events && e.Done? }

  ghost predicate HasError(events: seq<Event>) { exists e :: e in events && e.Error? }

  ghost predicate HasTerminal(events: seq<Event>) { HasDone(events) || HasError(events) }

  lemma OneMore(events: seq<Event>, e: Event)
    ensures HasDone(events + [e]) <==> HasDone(events) || e.Done?
    ensures HasError(events + [e]) <==> HasError(events) || e.Error?
  {
    assert e in events + [e];
    assert forall x :: x in events ==> x in events + [e];
  }

  /** All events of a stream: those of its complete blocks, and one error at
      the end unless one of them said done or error. */
  ghost function Emitted(blocks: seq<string>, decode: Decoder): seq<Event> {
    var events := EventsOf(blocks, decode);
    if HasTerminal(events) then events else events + [STREAM_ENDED]
  }

  ghost function Split(taken: seq<string>, buffer: string): Parsed {
    Parsed(taken + Blocks(buffer), Rest(buffer))
  }

  lemma SplitFirst(taken: seq<string>, buffer: string)
    requires IndexOf(buffer) >= 0
    ensures var i := IndexOf(buffer); Split(taken, buffer) == Split(taken + [buffer[..i]], buffer[i + 2..])
  {
    var i := IndexOf(buffer);
    var more := Blocks(buffer[i + 2..]);
    assert taken + ([buffer[..i]] + more) == taken + [buffer[..i]] + more;
  }

  // ---- reading -----------------------------------------------------------

  class Reader {
    const decode: Decoder
    var buffer: string
    var sawDone: bool
    var sawError: bool
    var events: seq<Event>
    ghost var taken: seq<string>

    constructor (decode: Decoder)
      ensures this.decode == decode && Valid() && Parse([]) == Parsed(taken, buffer)
    {
      this.decode := decode;
      buffer, sawDone, sawError, events, taken := "", false, false, [], [];
    }

    /** Events and flags are those of the blocks taken so far. */
    ghost predicate Valid()
      reads this
    {
      && events == EventsOf(taken, decode)
      && sawDone == HasDone(events)
      && sawError == HasError(events)
    }

    method Dispatch(block: string)
      modifies this`events, this`sawDone, this`sawError
      ensures var e := Dispatched(block, decode);
              && events == old(events) + (if e.Some? then [e.value] else [])
              && sawDone == (old(sawDone) || (e.Some? && e.value.Done?))
              && sawError == (old(sawError) || (e.Some? && e.value.Error?))
    {
      var event := "message";
      var dataLines: seq<string> := [];
      var lines := Lines(block);
      for i := 0 to |lines|
        invariant Fields(event, dataLines) == FieldsOf(lines[..i])
      {
        assert lines[..i + 1][..i] == lines[..i];
        var line := lines[i];
        if StartsWith(line, "event:") {
          event := Trim(line[6..]);
        } else if StartsWith(line, "data:") {
          dataLines := dataLines + [Value(line[5..])];
        }
      }
      assert lines[..|lines|] == lines;
      if |dataLines| == 0 {
        return;
      }
      var data := decode(JoinLines(dataLines));
      if event == "delta" {
        events := events + [Delta(OrElse(data.text, ""))];
      } else if event == "done" {
        sawDone := true;
        var ev := data.evidence;
        events := events + [Done(OrElse(data.stopReason, "end_turn"), CountOf(ev, "findings"), CountOf(ev, "changes"),
                                 CountOf(ev, "resources"), CountOf(ev, "events"))];
      } else if event == "error" {
        sawError := true;
        events := events + [Error(OrElse(data.message, "Assistant error"))];
      }
    }

    /** Hand one complete block to the listener, unless it is blank. */
    method Take(block: string)
      requires Valid()
      modifies this`events, this`sawDone, this`sawError, this`taken
      ensures Valid() && taken == old(taken) + [block]
    {
      if Trim(block) != "" {
        Dispatch(block);
        if Dispatched(block, decode).Some? {
          OneMore(old(events), Dispatched(block, decode).value);
        }
      }
      taken := taken + [block];
      assert taken[..|taken| - 1] == old(taken);
    }

    method Read(chunk: string)
      requires Valid()
      modifies this
      ensures Valid()
      ensures Parsed(taken, buffer) == Feed(Parsed(old(taken), old(buffer)), chunk)
    {
      buffer := buffer + chunk;
      buffer := Crlf(buffer);
      var idx := IndexOf(buffer);
      while idx >= 0
        invariant Valid() && idx == IndexOf(buffer)
        invariant Split(taken, buffer) == Feed(Parsed(old(taken), old(buffer)), chunk)
        decreases |buffer|
      {
        var block := buffer[..idx];
        SplitFirst(taken, buffer);
        buffer := buffer[idx + 2..];
        Take(block);
        idx := IndexOf(buffer);
      }
    }

    method Finish()
      requires Valid()
      modifies this`events
      ensures events == Emitted(taken, decode)
    {
      if !sawDone && !sawError {
        events := events + [STREAM_ENDED];
      }
    }
  }

  /** Reads a whole body. Whatever the chunks, a listener hears done or error
      at least once; and if no block can be completed after a CR CR LF it hears
      exactly the events of the body parsed at once. */
  method StreamAssistant(chunks: seq<string>, decode: Decoder) returns (events: seq<Event>)
    ensures events == Emitted(Parse(chunks).blocks, decode)
    ensures HasTerminal(events)
    ensures Silent(Join(chunks)) ==> events == Emitted(ParseWhole(Join(chunks)).blocks, decode)
  {
    var reader := new Reader(decode);
    ghost var start := Parsed([], "");
    for i := 0 to |chunks|
      invariant reader.Valid() && reader.decode == decode && fresh(reader)
      invariant FeedAll(Parsed(reader.taken, reader.buffer), chunks[i..]) == Parse(chunks)
    {
      assert chunks[i..][1..] == chunks[i + 1..];
      reader.Read(chunks[i]);
    }
    assert chunks[|chunks|..] == [];
    reader.Finish();
    events := reader.events;
    OneMore(EventsOf(reader.taken, decode), STREAM_ENDED);
    if Silent(Join(chunks)) {
      ParsesSilently(Join(chunks), chunks);
    }
  }

  // ---- a cut that is heard -----------------------------------------------

  lemma {:induction false} LinesOfOne(s: string)
    requires '\n' !in s
    ensures Lines(s) == [s]
    decreases |s|
  {
    if s != [] {
      LinesOfOne(s[1..]);
      assert s == [s[0]] + s[1..];
    }
  }

  lemma {:induction false} LinesOfTwo(a: string, b: string)
    requires '\n' !in a && '\n' !in b
    ensures Lines(a + "\n" + b) == [a, b]
    decreases |a|
  {
    var s := a + "\n" + b;
    if a == [] {
      assert s[1..] == b;
      LinesOfOne(b);
    } else {
      assert s[1..] == a[1..] + "\n" + b;
      LinesOfTwo(a[1..], b);
      assert a == [a[0]] + a[1..];
    }
  }

  lemma TrimsToItself(s: string)
    requires s != [] && !IsSpace(s[0]) && !IsSpace(s[|s| - 1])
    ensures Trim(s) == s
  {
  }

  lemma DoneBlock(first: string, second: string, decode: Decoder)
    requires first == "event:done" && second == "data:"
    ensures var e := Dispatched(first + "\n" + second, decode); e.Some? && e.value.Done?
  {
    LinesOfTwo(first, second);
    assert [first, second][..1] == [first] && [first][..0] == [];
    var name := first[6..];
    assert name == "done";
    TrimsToItself(name);
    assert second[0] == 'd' && second[5..] == "";
    assert FieldsOf([first]) == Fields(name, []);
    assert FieldsOf([first, second]) == Fields(name, [""]);
  }

  /** A body that ends in a line feed and CR CR LF: read at once its block stays
      unfinished; read with an empty chunk after it, the end is a blank line. */
  lemma {:induction false} CutFinishesBlock(block: string)
    requires block != [] && block[|block| - 1] != '\n' && block[|block| - 1] != '\r'
    requires IndexOf(block) == -1 && !HasCrLf(block)
    ensures var body := block + "\n" + "\r\r\n";
            && Join([body]) == body && Join([body, ""]) == body
            && Parse([body]).blocks == [] && Parse([body, ""]).blocks == [block]
  {
    var x := block + "\n";
    var body, u := x + "\r\r\n", x + "\r\n";
    JoinOne(body);
    JoinPair(body, "");
    assert body + "" == body && u + "" == u;
    forall i ensures !CrLfAt(x, i) {
      assert CrLfAt(x, i) ==> CrLfAt(block, i);
    }
    AfterCrCrLf(x);
    CrlfFixed(x);
    NoBlankIn(block);
    ParseOne(body);
    ParseTwo(body, "");
    CrlfConcat(x, "\r\n");
    CrlfOfCrLf();
    assert Crlf(u) == block + "\n\n";
    AtEnd(block);
  }

  lemma NoBlankIn(block: string)
    requires block != [] && block[|block| - 1] != '\n' && IndexOf(block) == -1
    ensures var u := block + "\n" + "\r\n"; Blocks(u) == [] && Rest(u) == u
  {
    var u := block + "\n" + "\r\n";
    forall k ensures !BlankLineAt(u, k) {
      assert BlankLineAt(u, k) ==> BlankLineAt(block, k);
    }
  }

  lemma AtEnd(block: string)
    requires block != [] && block[|block| - 1] != '\n' && IndexOf(block) == -1
    ensures Blocks(block + "\n\n") == [block] && Rest(block + "\n\n") == ""
  {
    var s := block + "\n\n";
    assert BlankLineAt(s, |block|);
    forall k ensures BlankLineAt(s, k) ==> k >= |block| {
      assert BlankLineAt(s, k) && k < |block| ==> BlankLineAt(block, k) || k == |block| - 1;
    }
    BlocksFrom(s, |block|);
    assert s[..|block|] == block && s[|block| + 2..] == "";
    assert Blocks("") == [];
  }

  /** One body, cut in two ways: the listener hears that the stream broke off,
      or it hears done. */
  lemma CutDecidesTheEnd(decode: Decoder) returns (body: string, done: Event)
    ensures Join([body]) == body && Join([body, ""]) == body && done.Done?
    ensures Emitted(Parse([body]).blocks, decode) == [STREAM_ENDED]
    ensures Emitted(Parse([body, ""]).blocks, decode) == [done]
  {
    var first, second := "event:done", "data:";
    var block := first + "\n" + second;
    body := block + "\n" + "\r\r\n";
    DoneBlock(first, second, decode);
    done := Dispatched(block, decode).value;
    assert forall k :: !BlankLineAt(block, k) && !CrLfAt(block, k);
    CutFinishesBlock(block);
    TrimsToItself(block);
    EmittedOne(block, decode);
  }

  lemma EmittedOne(block: string, decode: Decoder)
    requires Trim(block) == block != "" && Dispatched(block, decode).Some? && Dispatched(block, decode).value.Done?
    ensures Emitted([block], decode) == [Dispatched(block, decode).value]
    ensures Emitted([], decode) == [STREAM_ENDED]
  {
    var done := Dispatched(block, decode).value;
    assert [block][..0] == [];
    assert EventsOf([block], decode) == [done] && done in [done];
    assert EventsOf([], decode) == [];
  }
}
