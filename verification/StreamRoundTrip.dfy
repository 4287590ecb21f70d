/** The stream as the server writes it (backend/app/assistant/router.py) and as
    the reader hears it: whatever the chunks, the listener hears exactly the
    events that were written, in order.

    Each message is an event field and a data field on lines of their own, or a
    comment to keep the connection open, and ends with a blank line; lines end
    in LF or in CR LF. */
module StreamRoundTrip {
  import opened Basics
  import opened EventStream
  import opened StreamReader

  datatype Message = Say(event: Event) | Ping(comment: string)

  /** JSON text of a message's data: it decodes to what was encoded, and has no
      line end in it. */
  type Encoder = Data -> string

  ghost predicate Inverse(encode: Encoder, decode: Decoder) {
    forall d: Data :: decode(encode(d)) == d && OneLine(encode(d))
  }

  predicate OneLine(s: string) { '\n' !in s && '\r' !in s }

  predicate LineEnd(eol: string) { eol == "\n" || eol == "\r\n" }

  predicate Pings(messages: seq<Message>) { forall m :: m in messages && m.Ping? ==> OneLine(m.comment) }

  function NameOf(e: Event): string {
    match e
    case Delta(_) => "delta"
    case Done(_, _, _, _, _) => "done"
    case Error(_) => "error"
  }

  function DataOf(e: Event): Data {
    match e
    case Delta(text) => Data(Some(text), None, None, map[])
    case Done(stop, findings, changes, resources, events) =>
      Data(None, Some(stop), None,
           map["findings" := findings, "changes" := changes, "resources" := resources, "events" := events])
    case Error(message) => Data(None, None, Some(message), map[])
  }

  /** The lines of a message, without the blank one. */
  function Body(m: Message, encode: Encoder, eol: string): string {
    match m
    case Say(e) => "event: " + NameOf(e) + eol + ("data: " + encode(DataOf(e)))
    case Ping(comment) => ": " + comment
  }

  function Written(messages: seq<Message>, encode: Encoder, eol: string): string {
    if messages == [] then "" else Body(messages[0], encode, eol) + (eol + eol) + Written(messages[1..], encode, eol)
  }

  function Said(messages: seq<Message>): seq<Event> {
    if messages == [] then []
    else (if messages[0].Say? then [messages[0].event] else []) + Said(messages[1..])
  }

  function Bodies(messages: seq<Message>, encode: Encoder): seq<string> {
    if messages == [] then [] else [Body(messages[0], encode, "\n")] + Bodies(messages[1..], encode)
  }

  // ---- line ends ---------------------------------------------------------

  /** Every CR is followed by an LF. */
  ghost predicate Paired(s: string) { forall i :: 0 <= i < |s| && s[i] == '\r' ==> i + 1 < |s| && s[i + 1] == '\n' }

  lemma PairedConcat(a: string, b: string)
    requires Paired(a) && Paired(b)
    ensures Paired(a + b) && Crlf(a + b) == Crlf(a) + Crlf(b)
  {
    forall i | 0 <= i < |a + b| && (a + b)[i] == '\r' ensures i + 1 < |a + b| && (a + b)[i + 1] == '\n' {
      if i < |a| {
        assert a[i] == '\r';
      } else {
        assert b[i - |a|] == '\r';
      }
    }
    CrlfConcat(a, b);
  }

  lemma OneLinePaired(s: string)
    requires OneLine(s)
    ensures Paired(s) && Crlf(s) == s
  {
    assert !HasCrLf(s);
    CrlfFixed(s);
  }

  lemma LineEndPaired(eol: string)
    requires LineEnd(eol)
    ensures Paired(eol) && Crlf(eol) == "\n" && Paired(eol + eol) && Crlf(eol + eol) == "\n\n"
  {
    if eol == "\n" {
      CrlfFixed(eol);
    } else {
      CrlfOfCrLf();
    }
    PairedConcat(eol, eol);
  }

  lemma NameOneLine(e: Event)
    ensures OneLine("event: " + NameOf(e))
  {
  }

  lemma BodyLineEnds(m: Message, encode: Encoder, decode: Decoder, eol: string)
    requires Inverse(encode, decode) && LineEnd(eol) && (m.Ping? ==> OneLine(m.comment))
    ensures Paired(Body(m, encode, eol)) && Crlf(Body(m, encode, eol)) == Body(m, encode, "\n")
  {
    match m
    case Say(e) =>
      var first, second := "event: " + NameOf(e), "data: " + encode(DataOf(e));
      assert decode(encode(DataOf(e))) == DataOf(e);
      NameOneLine(e);
      OneLinePaired(first);
      OneLinePaired(second);
      LineEndPaired(eol);
      PairedConcat(first, eol);
      PairedConcat(first + eol, second);
    case Ping(comment) => OneLinePaired(": " + comment);
  }

  lemma {:induction false} WrittenLineEnds(messages: seq<Message>, encode: Encoder, decode: Decoder, eol: string)
    requires Inverse(encode, decode) && LineEnd(eol) && Pings(messages)
    ensures Paired(Written(messages, encode, eol)) && Crlf(Written(messages, encode, eol)) == Written(messages, encode, "\n")
    decreases |messages|
  {
    if messages != [] {
      assert messages[0] in messages && forall m :: m in messages[1..] ==> m in messages;
      var body, rest := Body(messages[0], encode, eol), Written(messages[1..], encode, eol);
      BodyLineEnds(messages[0], encode, decode, eol);
      LineEndPaired(eol);
      WrittenLineEnds(messages[1..], encode, decode, eol);
      PairedConcat(body, eol + eol);
      PairedConcat(body + (eol + eol), rest);
    }
  }

  // ---- blocks ------------------------------------------------------------

  lemma BodyHasNoBlankLine(m: Message, encode: Encoder, decode: Decoder)
    requires Inverse(encode, decode) && (m.Ping? ==> OneLine(m.comment))
    ensures IndexOf(Body(m, encode, "\n") + "\n\n") == |Body(m, encode, "\n")|
  {
    var body := Body(m, encode, "\n");
    var s := body + "\n\n";
    assert BlankLineAt(s, |body|);
    match m
    case Say(e) =>
      var first, second := "event: " + NameOf(e), "data: " + encode(DataOf(e));
      assert decode(encode(DataOf(e))) == DataOf(e);
      NameOneLine(e);
      OneLineFeed(first, second);
    case Ping(comment) => OneLineFeed("", body);
  }

  /** In two lines, the second not empty, no LF is followed by another one. */
  lemma OneLineFeed(first: string, second: string)
    requires OneLine(first) && OneLine(second) && second != []
    ensures IndexOf(first + "\n" + second + "\n\n") == |first + "\n" + second|
    ensures first == "" ==> IndexOf(second + "\n\n") == |second|
  {
    var body := first + "\n" + second;
    var s := body + "\n\n";
    assert BlankLineAt(s, |body|);
    forall k | 0 <= k < |body| ensures !BlankLineAt(s, k) {
      if k < |first| {
        assert s[k] == first[k];
      } else if k == |first| {
        assert s[k + 1] == second[0];
      } else {
        assert s[k] == second[k - |first| - 1];
      }
    }
    var t := second + "\n\n";
    assert BlankLineAt(t, |second|);
    forall k | 0 <= k < |second| ensures !BlankLineAt(t, k) {
      assert t[k] == second[k];
    }
  }

  lemma {:induction false} WrittenBlocks(messages: seq<Message>, encode: Encoder, decode: Decoder)
    requires Inverse(encode, decode) && Pings(messages)
    ensures Blocks(Written(messages, encode, "\n")) == Bodies(messages, encode)
    decreases |messages|
  {
    if messages != [] {
      assert messages[0] in messages && forall m :: m in messages[1..] ==> m in messages;
      var body, rest := Body(messages[0], encode, "\n"), Written(messages[1..], encode, "\n");
      WrittenBlocks(messages[1..], encode, decode);
      BodyHasNoBlankLine(messages[0], encode, decode);
      assert "\n" + "\n" == "\n\n";
      FirstBlock(body + "\n\n", rest);
      assert (body + "\n\n")[..|body|] == body;
    }
  }

  // ---- dispatch ----------------------------------------------------------

  lemma TrimDropsOne(s: string)
    requires s != [] && !IsSpace(s[0]) && !IsSpace(s[|s| - 1])
    ensures Trim(" " + s) == s
  {
    assert (" " + s)[1..] == s;
    assert TrimLeft(" " + s) == TrimLeft(s);
    TrimsToItself(s);
  }

  lemma {:induction false} RightKeepsHead(s: string)
    requires s != [] && !IsSpace(s[0])
    ensures TrimRight(s) != []
    decreases |s|
  {
    if |s| > 1 {
      RightKeepsHead(s[..|s| - 1]);
    }
  }

  lemma AfterPrefix(prefix: string, s: string)
    ensures StartsWith(prefix + s, prefix) && (prefix + s)[|prefix|..] == s
  {
  }

  lemma EventLine(name: string, rest: string)
    requires name == " " + rest && Trim(name) == rest
    ensures FieldsOf(["event:" + name]) == Fields(rest, [])
  {
    var line := "event:" + name;
    var lines: seq<string> := [line];
    AfterPrefix("event:", name);
    assert lines[..0] == [];
  }

  lemma DataLine(first: string, text: string, f: Fields)
    requires FieldsOf([first]) == f
    ensures FieldsOf([first, "data:" + (" " + text)]) == Fields(f.event, f.data + [text])
  {
    var line := "data:" + (" " + text);
    var lines: seq<string> := [first, line];
    AfterPrefix("data:", " " + text);
    assert lines[..1] == [first];
    assert line[0] == 'd' && !StartsWith(line, "event:");
    assert (" " + text)[1..] == text;
  }

  lemma TwoFieldsDispatch(block: string, first: string, name: string, text: string, decode: Decoder)
    requires OneLine(first) && OneLine(text) && block == first + "\n" + ("data:" + (" " + text))
    requires FieldsOf([first]) == Fields(name, [])
    ensures Dispatched(block, decode) == EventOf(name, decode(text))
  {
    LinesOfTwo(first, "data:" + (" " + text));
    DataLine(first, text, Fields(name, []));
    assert [] + [text] == [text];
  }

  lemma SpaceAfter(prefix: string, s: string)
    ensures prefix + " " + s == prefix + (" " + s)
  {
  }

  predicate Bare(s: string) { s != [] && !IsSpace(s[0]) && !IsSpace(s[|s| - 1]) && OneLine(s) }

  /** A block of an event field and a data field. */
  lemma TwoFields(first: string, name: string, second: string, text: string, decode: Decoder)
    requires Bare(name) && OneLine(text)
    requires first == "event:" + (" " + name) && second == "data:" + (" " + text)
    ensures var block := first + "\n" + second;
            Trim(block) != "" && Dispatched(block, decode) == EventOf(name, decode(text))
  {
    var block := first + "\n" + second;
    TrimDropsOne(name);
    EventLine(" " + name, name);
    TwoFieldsDispatch(block, first, name, text, decode);
    assert block[0] == 'e';
    NotBlank(block);
  }

  lemma NotBlank(block: string)
    requires block != [] && !IsSpace(block[0])
    ensures Trim(block) != ""
  {
    assert TrimLeft(block) == block;
    RightKeepsHead(block);
  }

  lemma Comment(comment: string, decode: Decoder)
    requires OneLine(comment)
    ensures Dispatched(": " + comment, decode) == None
  {
    var line := ": " + comment;
    LinesOfOne(line);
    var lines: seq<string> := [line];
    assert lines[..0] == [] && line[0] == ':';
    assert FieldsOf(lines) == Fields("message", []);
  }

  /** The event of a message's data is the event that was written. */
  lemma EventBack(e: Event)
    ensures EventOf(NameOf(e), DataOf(e)) == Some(e)
  {
  }

  lemma SayHeard(e: Event, text: string, decode: Decoder)
    requires OneLine(text) && decode(text) == DataOf(e)
    ensures var block := "event: " + NameOf(e) + "\n" + ("data: " + text);
            Trim(block) != "" && Dispatched(block, decode) == Some(e)
  {
    NameBare(e);
    SpaceAfter("event:", NameOf(e));
    SpaceAfter("data:", text);
    assert "event:" + " " == "event: " && "data:" + " " == "data: ";
    TwoFields("event: " + NameOf(e), NameOf(e), "data: " + text, text, decode);
    EventBack(e);
  }

  lemma NameBare(e: Event)
    ensures Bare(NameOf(e))
  {
  }

  lemma MessageHeard(m: Message, encode: Encoder, decode: Decoder)
    requires Inverse(encode, decode) && (m.Ping? ==> OneLine(m.comment))
    ensures EventsOf([Body(m, encode, "\n")], decode) == if m.Say? then [m.event] else []
  {
    var body := Body(m, encode, "\n");
    assert [body][..0] == [] && EventsOf([], decode) == [];
    match m
    case Say(e) =>
      assert decode(encode(DataOf(e))) == DataOf(e);
      SayHeard(e, encode(DataOf(e)), decode);
    case Ping(comment) => Comment(comment, decode);
  }

  lemma {:induction false} EventsConcat(a: seq<string>, b: seq<string>, decode: Decoder)
    ensures EventsOf(a + b, decode) == EventsOf(a, decode) + EventsOf(b, decode)
    decreases |b|
  {
    if b == [] {
      assert a + b == a;
    } else {
      var n := |b| - 1;
      assert (a + b)[..|a + b| - 1] == a + b[..n];
      EventsConcat(a, b[..n], decode);
    }
  }

  lemma {:induction false} BodiesHeard(messages: seq<Message>, encode: Encoder, decode: Decoder)
    requires Inverse(encode, decode) && Pings(messages)
    ensures EventsOf(Bodies(messages, encode), decode) == Said(messages)
    decreases |messages|
  {
    if messages != [] {
      assert messages[0] in messages && forall m :: m in messages[1..] ==> m in messages;
      MessageHeard(messages[0], encode, decode);
      BodiesHeard(messages[1..], encode, decode);
      EventsConcat([Body(messages[0], encode, "\n")], Bodies(messages[1..], encode), decode);
    }
  }

  // ---- the whole stream --------------------------------------------------

  /** However the written stream is cut into chunks, the listener hears exactly
      the events that were written, in order; followed by one error if none of
      them was done or error, as when the server stopped half way. */
  lemma WrittenIsHeard(messages: seq<Message>, chunks: seq<string>, encode: Encoder, decode: Decoder, eol: string)
    requires Inverse(encode, decode) && LineEnd(eol) && Pings(messages)
    requires Join(chunks) == Written(messages, encode, eol)
    ensures Emitted(Parse(chunks).blocks, decode) ==
            if exists e :: e in Said(messages) && (e.Done? || e.Error?) then Said(messages)
            else Said(messages) + [Error("Stream ended before completion")]
  {
    var s := Written(messages, encode, eol);
    WrittenLineEnds(messages, encode, decode, eol);
    assert !HasCrCrLf(s);
    ChunksParseAsWhole(chunks);
    WrittenBlocks(messages, encode, decode);
    BodiesHeard(messages, encode, decode);
  }

  /** A message cut off before its blank line is not heard. */
  lemma UnfinishedIsNotHeard(messages: seq<Message>, tail: string, chunks: seq<string>, encode: Encoder, decode: Decoder,
                             eol: string)
    requires Inverse(encode, decode) && LineEnd(eol) && Pings(messages)
    requires OneLine(tail) && Join(chunks) == Written(messages, encode, eol) + tail
    ensures EventsOf(Parse(chunks).blocks, decode) == Said(messages)
  {
    var s := Written(messages, encode, eol);
    WrittenLineEnds(messages, encode, decode, eol);
    OneLinePaired(tail);
    PairedConcat(s, tail);
    assert !HasCrCrLf(s + tail);
    ChunksParseAsWhole(chunks);
    WrittenBlocks(messages, encode, decode);
    BodiesHeard(messages, encode, decode);
    TailIsRest(messages, encode, decode, tail);
  }

  lemma {:induction false} TailIsRest(messages: seq<Message>, encode: Encoder, decode: Decoder, tail: string)
    requires Inverse(encode, decode) && Pings(messages) && OneLine(tail)
    ensures Blocks(Written(messages, encode, "\n") + tail) == Bodies(messages, encode)
    decreases |messages|
  {
    if messages == [] {
      assert "" + tail == tail;
      assert forall k :: !BlankLineAt(tail, k);
    } else {
      assert messages[0] in messages && forall m :: m in messages[1..] ==> m in messages;
      var body, rest := Body(messages[0], encode, "\n"), Written(messages[1..], encode, "\n");
      TailIsRest(messages[1..], encode, decode, tail);
      BodyHasNoBlankLine(messages[0], encode, decode);
      assert "\n" + "\n" == "\n\n";
      FirstBlock(body + "\n\n", rest + tail);
      assert (body + "\n\n")[..|body|] == body;
      Associate(body + "\n\n", rest, tail);
    }
  }

  /** A block with a name and no data is not heard, whatever the name. */
  lemma NoData(name: string, decode: Decoder)
    requires OneLine(name)
    ensures Dispatched("event:" + name, decode) == None
  {
    var line := "event:" + name;
    var lines: seq<string> := [line];
    LinesOfOne(line);
    AfterPrefix("event:", name);
    assert lines[..0] == [];
    assert FieldsOf(lines) == Fields(Trim(name), []);
  }

  /** What is trimmed off: the white space and line terminators of ECMAScript. */
  lemma SpacesAre(c: char)
    ensures IsSpace(c) <==>
            c as int in {0x9, 0xA, 0xB, 0xC, 0xD, 0x20, 0xA0, 0x1680, 0x2000, 0x2001, 0x2002, 0x2003, 0x2004, 0x2005, 0x2006,
                         0x2007, 0x2008, 0x2009, 0x200A, 0x2028, 0x2029, 0x202F, 0x205F, 0x3000, 0xFEFF}
  {
  }

  // ---- absent fields -----------------------------------------------------

  /** What each name makes of data with fields missing. */
  lemma AbsentFields(d: Data)
    ensures d.text == None ==> EventOf("delta", d) == Some(Delta(""))
    ensures d.message == None ==> EventOf("error", d) == Some(Error("Assistant error"))
    ensures d.stopReason == None && d.evidence == map[] ==> EventOf("done", d) == Some(Done("end_turn", 0, 0, 0, 0))
    ensures forall name :: name != "delta" && name != "done" && name != "error" ==> EventOf(name, d) == None
  {
  }
}
