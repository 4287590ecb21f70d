/** The assistant's event stream, parsed by hand from a chunked body
    (frontend/src/api/assistant.ts; a subset of section 9.2.6 of the WHATWG
    HTML Living Standard). Chunks are decoded text; JSON decoding is a
    parameter. */
module EventStream {
  // ---- text --------------------------------------------------------------

  /** One pass of replacing CR LF by LF. */
  function Crlf(s: string): (r: string)
    ensures |r| <= |s|
    decreases |s|
  {
    if |s| < 2 then s
    else if s[0] == '\r' && s[1] == '\n' then "\n" + Crlf(s[2..])
    else [s[0]] + Crlf(s[1..])
  }

  predicate BlankLineAt(s: string, i: int) { 0 <= i && i + 1 < |s| && s[i] == '\n' && s[i + 1] == '\n' }

  /** The first blank line, or -1. */
  function IndexOf(s: string): (i: int)
    ensures -1 <= i < |s|
    ensures i >= 0 ==> BlankLineAt(s, i)
    ensures forall k :: BlankLineAt(s, k) ==> 0 <= i <= k
    decreases |s|
  {
    if |s| < 2 then -1
    else if s[0] == '\n' && s[1] == '\n' then 0
    else
      var i := IndexOf(s[1..]);
      assert forall k :: BlankLineAt(s, k) ==> k > 0 && BlankLineAt(s[1..], k - 1);
      if i < 0 then -1 else i + 1
  }

  /** The complete blocks of a text. */
  function Blocks(s: string): seq<string>
    decreases |s|
  {
    var i := IndexOf(s);
    if i < 0 then [] else [s[..i]] + Blocks(s[i + 2..])
  }

  /** What follows the last complete block. */
  function Rest(s: string): string
    decreases |s|
  {
    var i := IndexOf(s);
    if i < 0 then s else Rest(s[i + 2..])
  }

  // ---- parsing chunk by chunk --------------------------------------------

  datatype Parsed = Parsed(blocks: seq<string>, buffer: string)

  function Feed(p: Parsed, chunk: string): Parsed {
    var text := Crlf(p.buffer + chunk);
    Parsed(p.blocks + Blocks(text), Rest(text))
  }

  function FeedAll(p: Parsed, chunks: seq<string>): Parsed
    decreases |chunks|
  {
    if chunks == [] then p else FeedAll(Feed(p, chunks[0]), chunks[1..])
  }

  function Parse(chunks: seq<string>): Parsed { FeedAll(Parsed([], ""), chunks) }

  function Join(chunks: seq<string>): string {
    if chunks == [] then "" else chunks[0] + Join(chunks[1..])
  }

  /** The text parsed at once. */
  function ParseWhole(s: string): Parsed { Parsed(Blocks(Crlf(s)), Rest(Crlf(s))) }

  predicate CrLfAt(s: string, i: int) { 0 <= i && i + 1 < |s| && s[i] == '\r' && s[i + 1] == '\n' }

  predicate CrCrLfAt(s: string, i: int) { 0 <= i && i + 2 < |s| && s[i] == '\r' && CrLfAt(s, i + 1) }

  ghost predicate HasCrLf(s: string) { exists i :: CrLfAt(s, i) }

  ghost predicate HasCrCrLf(s: string) { exists i :: CrCrLfAt(s, i) }

  // ---- one pass of CR LF replacement -------------------------------------

  lemma Associate<T>(a: seq<T>, b: seq<T>, c: seq<T>)
    ensures a + b + c == a + (b + c)
  {
  }

  lemma CrlfPair(s: string)
    ensures Crlf("\r\n" + s) == "\n" + Crlf(s)
  {
    assert ("\r\n" + s)[2..] == s;
  }

  lemma CrlfSkip(c: char, s: string)
    requires c != '\r' || s == [] || s[0] != '\n'
    ensures Crlf([c] + s) == [c] + Crlf(s)
  {
    assert ([c] + s)[1..] == s;
    if s == [] {
      assert Crlf([c] + s) == [c] + s;
    }
  }

  lemma ConcatPair(t: string, b: string)
    requires Crlf(t + b) == Crlf(t) + Crlf(b)
    ensures Crlf("\r\n" + t + b) == Crlf("\r\n" + t) + Crlf(b)
  {
    calc {
      Crlf("\r\n" + t + b);
      { Associate("\r\n", t, b); CrlfPair(t + b); }
      "\n" + (Crlf(t) + Crlf(b));
      { Associate("\n", Crlf(t), Crlf(b)); CrlfPair(t); }
      Crlf("\r\n" + t) + Crlf(b);
    }
  }

  lemma ConcatSkip(c: char, t: string, b: string)
    requires Crlf(t + b) == Crlf(t) + Crlf(b)
    requires c != '\r' || t + b == [] || (t + b)[0] != '\n'
    requires c != '\r' || t == [] || t[0] != '\n'
    ensures Crlf([c] + t + b) == Crlf([c] + t) + Crlf(b)
  {
    calc {
      Crlf([c] + t + b);
      { Associate([c], t, b); CrlfSkip(c, t + b); }
      [c] + (Crlf(t) + Crlf(b));
      { Associate([c], Crlf(t), Crlf(b)); CrlfSkip(c, t); }
      Crlf([c] + t) + Crlf(b);
    }
  }

  /** Except where one piece ends in CR and the next begins with LF, a pass
      over both is a pass over each. */
  lemma {:induction false} CrlfConcat(a: string, b: string)
    requires a == [] || b == [] || a[|a| - 1] != '\r' || b[0] != '\n'
    ensures Crlf(a + b) == Crlf(a) + Crlf(b)
    decreases |a|
  {
    if a == [] {
      assert a + b == b;
    } else if |a| >= 2 && a[0] == '\r' && a[1] == '\n' {
      var t := a[2..];
      assert a == "\r\n" + t;
      CrlfConcat(t, b);
      ConcatPair(t, b);
    } else {
      var t := a[1..];
      assert a == [a[0]] + t;
      CrlfConcat(t, b);
      ConcatSkip(a[0], t, b);
    }
  }

  lemma NoneInPart(a: string, b: string, c: string)
    ensures !HasCrLf(a + b + c) ==> !HasCrLf(b)
    ensures !HasCrCrLf(a + b + c) ==> !HasCrCrLf(b)
  {
    forall i ensures CrLfAt(b, i) ==> CrLfAt(a + b + c, |a| + i) {
    }
    forall i ensures CrCrLfAt(b, i) ==> CrCrLfAt(a + b + c, |a| + i) {
    }
  }

  lemma CrlfStart(s: string)
    ensures Crlf(s) != [] && Crlf(s)[0] == '\n' ==> s != [] && (s[0] == '\n' || CrLfAt(s, 0))
  {
  }

  lemma TwicePair(t: string, y: string)
    requires Crlf(Crlf(t) + y) == Crlf(t + y)
    ensures Crlf(Crlf("\r\n" + t) + y) == Crlf("\r\n" + t + y)
  {
    calc {
      Crlf(Crlf("\r\n" + t) + y);
      { CrlfPair(t); Associate("\n", Crlf(t), y); }
      Crlf("\n" + (Crlf(t) + y));
      { CrlfSkip('\n', Crlf(t) + y); }
      "\n" + Crlf(t + y);
      { CrlfPair(t + y); Associate("\r\n", t, y); }
      Crlf("\r\n" + t + y);
    }
  }

  lemma TwiceSkip(c: char, t: string, y: string)
    requires Crlf(Crlf(t) + y) == Crlf(t + y)
    requires c != '\r' || t + y == [] || (t + y)[0] != '\n'
    requires c != '\r' || Crlf(t) + y == [] || (Crlf(t) + y)[0] != '\n'
    requires c != '\r' || t == [] || t[0] != '\n'
    ensures Crlf(Crlf([c] + t) + y) == Crlf([c] + t + y)
  {
    calc {
      Crlf(Crlf([c] + t) + y);
      { CrlfSkip(c, t); }
      Crlf([c] + Crlf(t) + y);
      { Associate([c], Crlf(t), y); }
      Crlf([c] + (Crlf(t) + y));
      { CrlfSkip(c, Crlf(t) + y); }
      [c] + Crlf(t + y);
      { CrlfSkip(c, t + y); }
      Crlf([c] + (t + y));
      { Associate([c], t, y); }
      Crlf([c] + t + y);
    }
  }

  /** Without CR CR LF, a second pass over what one pass produced and the text
      that follows is as good as one pass over all. */
  lemma {:induction false} CrlfTwice(p: string, y: string)
    requires !HasCrCrLf(p)
    ensures Crlf(Crlf(p) + y) == Crlf(p + y)
    decreases |p|
  {
    if |p| < 2 {
    } else if p[0] == '\r' && p[1] == '\n' {
      var t := p[2..];
      assert p == "\r\n" + t && "\r\n" + t + "" == p;
      NoneInPart("\r\n", t, "");
      CrlfTwice(t, y);
      TwicePair(t, y);
    } else {
      var t := p[1..];
      assert p == [p[0]] + t && [p[0]] + t + "" == p;
      NoneInPart([p[0]], t, "");
      CrlfTwice(t, y);
      CrlfStart(t);
      CrlfNotEmpty(t);
      assert !CrCrLfAt(p, 0);
      TwiceSkip(p[0], t, y);
    }
  }

  lemma CrlfNotEmpty(s: string)
    requires s != []
    ensures Crlf(s) != []
  {
  }

  lemma NoneWithHead(c: char, s: string)
    requires !HasCrLf(s) && (c != '\r' || s == [] || s[0] != '\n')
    ensures !HasCrLf([c] + s)
  {
    forall i ensures !CrLfAt([c] + s, i) {
      assert i > 0 && CrLfAt([c] + s, i) ==> CrLfAt(s, i - 1);
    }
  }

  /** Without CR CR LF one pass leaves no CR LF behind. */
  lemma {:induction false} NoCrLfLeft(p: string)
    requires !HasCrCrLf(p)
    ensures !HasCrLf(Crlf(p))
    decreases |p|
  {
    if |p| < 2 {
    } else if p[0] == '\r' && p[1] == '\n' {
      var t := p[2..];
      assert p == "\r\n" + t && "\r\n" + t + "" == p;
      NoneInPart("\r\n", t, "");
      NoCrLfLeft(t);
      CrlfPair(t);
      NoneWithHead('\n', Crlf(t));
    } else {
      var t := p[1..];
      assert p == [p[0]] + t && [p[0]] + t + "" == p;
      NoneInPart([p[0]], t, "");
      NoCrLfLeft(t);
      CrlfSkip(p[0], t);
      CrlfStart(t);
      assert !CrCrLfAt(p, 0);
      NoneWithHead(p[0], Crlf(t));
    }
  }

  lemma {:induction false} CrlfFixed(u: string)
    requires !HasCrLf(u)
    ensures Crlf(u) == u
    decreases |u|
  {
    if |u| >= 2 {
      var t := u[1..];
      assert u == [u[0]] + t && [u[0]] + t + "" == u;
      assert !CrLfAt(u, 0);
      NoneInPart([u[0]], t, "");
      CrlfFixed(t);
      CrlfSkip(u[0], t);
    }
  }

  // ---- splitting ---------------------------------------------------------

  lemma FirstBlankLine(b: string, w: string)
    requires |b| >= 2 && BlankLineAt(b, |b| - 2) && IndexOf(b) == |b| - 2
    ensures IndexOf(b + w) == |b| - 2
  {
    assert BlankLineAt(b + w, |b| - 2);
    assert forall k :: BlankLineAt(b + w, k) && k < |b| - 2 ==> BlankLineAt(b, k);
  }

  /** A text that has a blank line is its first block, that line and the rest. */
  lemma FirstBlock(b: string, w: string)
    requires |b| >= 2 && IndexOf(b) == |b| - 2
    ensures Blocks(b + w) == [b[..|b| - 2]] + Blocks(w)
    ensures Rest(b + w) == Rest(w)
  {
    FirstBlankLine(b, w);
    assert (b + w)[..|b| - 2] == b[..|b| - 2] && (b + w)[|b|..] == w;
  }

  lemma UpToBlankLine(u: string, i: nat)
    requires IndexOf(u) == i
    ensures i + 2 <= |u| && IndexOf(u[..i + 2]) == i
  {
    var b := u[..i + 2];
    assert BlankLineAt(b, i);
    assert forall k :: BlankLineAt(b, k) ==> BlankLineAt(u, k);
  }

  /** Blocks, each followed by the blank line that ended it. */
  function Glued(blocks: seq<string>): string {
    if blocks == [] then "" else blocks[0] + "\n\n" + Glued(blocks[1..])
  }

  lemma GluedHead(block: string, blocks: seq<string>)
    ensures Glued([block] + blocks) == block + "\n\n" + Glued(blocks)
  {
    assert ([block] + blocks)[1..] == blocks;
  }

  /** The text up to and with its first blank line, and what follows. */
  lemma {:induction false} AtBlankLine(s: string, i: nat)
    requires IndexOf(s) == i
    ensures i + 2 <= |s| && s == s[..i] + "\n\n" + s[i + 2..]
    ensures IndexOf(s[..i] + "\n\n") == i
  {
    UpToBlankLine(s, i);
    assert s[..i + 2] == s[..i] + "\n\n" && s == s[..i + 2] + s[i + 2..];
  }

  lemma {:induction false} BlocksFrom(s: string, i: nat)
    requires IndexOf(s) == i && i + 2 <= |s|
    ensures Blocks(s) == [s[..i]] + Blocks(s[i + 2..]) && Rest(s) == Rest(s[i + 2..])
  {
  }

  /** Nothing of a text is lost or made up: its blocks with their blank lines,
      and then the rest, are the text. No block contains an earlier blank line,
      and the rest contains none. */
  lemma {:induction false} BlocksReassemble(s: string)
    ensures Glued(Blocks(s)) + Rest(s) == s
    ensures forall b :: b in Blocks(s) ==> IndexOf(b + "\n\n") == |b|
    ensures IndexOf(Rest(s)) == -1
    decreases |s|
  {
    var i := IndexOf(s);
    if i >= 0 {
      AtBlankLine(s, i);
      BlocksFrom(s, i);
      BlocksReassemble(s[i + 2..]);
      ReassembleStep(s, s[..i], s[i + 2..]);
    }
  }

  lemma ReassembleStep(s: string, b: string, w: string)
    requires s == b + "\n\n" + w && Blocks(s) == [b] + Blocks(w) && Rest(s) == Rest(w)
    requires Glued(Blocks(w)) + Rest(w) == w
    ensures Glued(Blocks(s)) + Rest(s) == s
  {
    GluedHead(b, Blocks(w));
    Associate(b + "\n\n", Glued(Blocks(w)), Rest(w));
  }

  lemma CrlfAfterBlock(b: string, t: string, y: string)
    requires |b| >= 2 && IndexOf(b) == |b| - 2 && !HasCrLf(b)
    ensures Crlf(b + t + y) == b + Crlf(t + y)
  {
    assert b + t + y == b + (t + y);
    CrlfConcat(b, t + y);
    CrlfFixed(b);
  }

  lemma SplitStep(b: string, t: string, y: string, whole: seq<string>, more: seq<string>)
    requires |b| >= 2 && IndexOf(b) == |b| - 2 && !HasCrLf(b)
    requires whole == Blocks(Crlf(t + y)) == Blocks(t) + more
    ensures Blocks(Crlf(b + t + y)) == Blocks(b + t) + more
    ensures Rest(Crlf(b + t + y)) == Rest(Crlf(t + y))
    ensures Rest(b + t) == Rest(t)
  {
    var first := [b[..|b| - 2]];
    FirstBlock(b, t);
    calc {
      Blocks(Crlf(b + t + y));
      { CrlfAfterBlock(b, t, y); FirstBlock(b, Crlf(t + y)); }
      first + (Blocks(t) + more);
      { Associate(first, Blocks(t), more); }
      Blocks(b + t) + more;
    }
    CrlfAfterBlock(b, t, y);
    FirstBlock(b, Crlf(t + y));
  }

  /** A text that has a blank line is its first block with that line, and the
      rest; neither has a CR LF that the whole has not. */
  lemma CutAtBlankLine(u: string) returns (b: string, t: string)
    requires IndexOf(u) >= 0 && !HasCrLf(u)
    ensures u == b + t && |t| < |u| && |b| >= 2 && IndexOf(b) == |b| - 2
    ensures !HasCrLf(b) && !HasCrLf(t)
  {
    var i := IndexOf(u);
    UpToBlankLine(u, i);
    b, t := u[..i + 2], u[i + 2..];
    assert u == b + t && "" + b + t == u && b + t + "" == u;
    NoneInPart("", b, t);
    NoneInPart(b, t, "");
  }

  /** Taking the complete blocks off early changes neither the blocks nor what
      is left, as long as the text taken had no CR LF. */
  lemma {:induction false} SplitEarly(u: string, y: string)
    requires !HasCrLf(u)
    ensures Blocks(Crlf(u + y)) == Blocks(u) + Blocks(Crlf(Rest(u) + y))
    ensures Rest(Crlf(u + y)) == Rest(Crlf(Rest(u) + y))
    decreases |u|
  {
    if IndexOf(u) >= 0 {
      var b, t := CutAtBlankLine(u);
      SplitEarly(t, y);
      SplitStep(b, t, y, Blocks(Crlf(t + y)), Blocks(Crlf(Rest(t) + y)));
    }
  }

  /** A chunk takes the parse of a prefix without CR CR LF to the parse of the
      longer prefix. */
  lemma FeedExtends(p: string, y: string)
    requires !HasCrCrLf(p)
    ensures Feed(ParseWhole(p), y) == ParseWhole(p + y)
  {
    NoCrLfLeft(p);
    CrlfTwice(p, y);
    SplitEarly(Crlf(p), y);
  }

  lemma {:induction false} FeedAllExtends(p: string, chunks: seq<string>)
    requires !HasCrCrLf(p + Join(chunks))
    ensures FeedAll(ParseWhole(p), chunks) == ParseWhole(p + Join(chunks))
    decreases |chunks|
  {
    if chunks == [] {
      assert p + Join(chunks) == p;
    } else {
      assert p + Join(chunks) == (p + chunks[0]) + Join(chunks[1..]);
      assert "" + (p + chunks[0]) + Join(chunks[1..]) == p + Join(chunks);
      NoneInPart("", p + chunks[0], Join(chunks[1..]));
      assert "" + p + chunks[0] == p + chunks[0];
      NoneInPart("", p, chunks[0]);
      FeedExtends(p, chunks[0]);
      FeedAllExtends(p + chunks[0], chunks[1..]);
    }
  }

  /** Any way of cutting a stream without CR CR LF parses like the whole. */
  lemma ChunksParseAsWhole(chunks: seq<string>)
    requires !HasCrCrLf(Join(chunks))
    ensures Parse(chunks) == ParseWhole(Join(chunks))
  {
    assert ParseWhole("") == Parsed([], "");
    assert "" + Join(chunks) == Join(chunks);
    FeedAllExtends("", chunks);
  }

  // ---- and with CR CR LF the cut matters ---------------------------------

  function Weight(blocks: seq<string>): nat {
    if blocks == [] then 0 else |blocks[0]| + 2 + Weight(blocks[1..])
  }

  lemma WeightHead(block: string, blocks: seq<string>)
    ensures Weight([block] + blocks) == |block| + 2 + Weight(blocks)
  {
    assert ([block] + blocks)[1..] == blocks;
  }

  lemma {:induction false} WeightOf(s: string)
    ensures Weight(Blocks(s)) + |Rest(s)| == |s|
    decreases |s|
  {
    var i := IndexOf(s);
    if i >= 0 {
      var w := s[i + 2..];
      WeightOf(w);
      UpToBlankLine(s, i);
      BlocksFrom(s, i);
      WeightHead(s[..i], Blocks(w));
    }
  }

  lemma {:induction false} WeightConcat(a: seq<string>, b: seq<string>)
    ensures Weight(a + b) == Weight(a) + Weight(b)
    decreases |a|
  {
    if a == [] {
      assert a + b == b;
    } else {
      WeightConcat(a[1..], b);
      assert (a + b)[1..] == a[1..] + b;
    }
  }

  predicate EndsInCrLf(s: string) { |s| >= 2 && s[|s| - 2] == '\r' && s[|s| - 1] == '\n' }

  lemma {:induction false} RestKeepsEnd(s: string)
    requires EndsInCrLf(s)
    ensures EndsInCrLf(Rest(s))
    decreases |s|
  {
    var i := IndexOf(s);
    if i >= 0 {
      RestKeepsEnd(s[i + 2..]);
    }
  }

  lemma CrlfOfCrLf()
    ensures Crlf("\r\n") == "\n"
  {
    assert "\r\n" + "" == "\r\n" && "\n" + "" == "\n";
    CrlfPair("");
  }

  lemma CrlfShortens(s: string)
    requires EndsInCrLf(s)
    ensures |Crlf(s)| < |s|
  {
    var n := |s| - 2;
    assert s == s[..n] + "\r\n";
    CrlfConcat(s[..n], "\r\n");
    CrlfOfCrLf();
  }

  lemma AfterCrCrLf(x: string)
    ensures Crlf(x + "\r\r\n") == Crlf(x) + "\r\n"
  {
    assert x + "\r\r\n" == (x + "\r") + "\r\n";
    CrlfConcat(x + "\r", "\r\n");
    CrlfConcat(x, "\r");
    CrlfOfCrLf();
    assert (Crlf(x) + "\r") + "\n" == Crlf(x) + "\r\n";
  }

  lemma ParseOne(s: string)
    ensures Parse([s]) == ParseWhole(s)
  {
    assert "" + s == s && [s][1..] == [];
    assert [] + Blocks(Crlf(s)) == Blocks(Crlf(s));
    assert FeedAll(Parsed([], ""), [s]) == FeedAll(Feed(Parsed([], ""), s), []);
  }

  lemma ParseTwo(p: string, q: string)
    ensures Parse([p, q]) == Feed(ParseWhole(p), q)
  {
    ParseOne(p);
    assert [p, q][1..] == [q] && [q][1..] == [] && [p][1..] == [];
    assert FeedAll(Parsed([], ""), [p, q]) == FeedAll(Feed(Parsed([], ""), p), [q]);
    assert FeedAll(Parsed([], ""), [p]) == FeedAll(Feed(Parsed([], ""), p), []);
    assert FeedAll(ParseWhole(p), [q]) == FeedAll(Feed(ParseWhole(p), q), []);
  }

  /** Cutting right after a CR CR LF gives another parse than not cutting:
      the second pass shortens what the first one left. */
  lemma CutMatters(x: string, q: string)
    ensures Parse([x + "\r\r\n", q]) != Parse([x + "\r\r\n" + q])
  {
    var p := x + "\r\r\n";
    var u := Crlf(p);
    AfterCrCrLf(x);
    RestKeepsEnd(u);
    CrlfShortens(Rest(u));
    CrlfConcat(p, q);
    CrlfConcat(Rest(u), q);
    ParseOne(p + q);
    ParseTwo(p, q);
    WeightOf(Crlf(p + q));
    WeightOf(u);
    WeightOf(Crlf(Rest(u) + q));
    WeightConcat(Blocks(u), Blocks(Crlf(Rest(u) + q)));
  }

  lemma JoinOne(s: string)
    ensures Join([s]) == s
  {
    assert [s][1..] == [] && s + "" == s;
  }

  /** The parse of a stream is independent of how it was cut into chunks
      exactly when the stream has no CR CR LF. */
  lemma ChunkingIsIrrelevantExactly(s: string)
    ensures (forall a, b :: Join(a) == s && Join(b) == s ==> Parse(a) == Parse(b)) <==> !HasCrCrLf(s)
  {
    if HasCrCrLf(s) {
      var i :| CrCrLfAt(s, i);
      var x, q := s[..i], s[i + 3..];
      var p := x + "\r\r\n";
      assert s == p + q;
      CutMatters(x, q);
      JoinOne(s);
      JoinOne(q);
      assert [p, q][1..] == [q];
      assert Join([p, q]) == s;
    } else {
      forall a, b | Join(a) == s && Join(b) == s ensures Parse(a) == Parse(b) {
        ChunksParseAsWhole(a);
        ChunksParseAsWhole(b);
      }
    }
  }

  // ---- what reaches the listener: the blocks -----------------------------

  /** Blocks can be taken off before more text comes. */
  lemma {:induction false} BlocksSplit(u: string, w: string)
    ensures Blocks(u + w) == Blocks(u) + Blocks(Rest(u) + w)
    ensures Rest(u + w) == Rest(Rest(u) + w)
    decreases |u|
  {
    var i := IndexOf(u);
    if i >= 0 {
      UpToBlankLine(u, i);
      var b, t := u[..i + 2], u[i + 2..];
      assert u == b + t && u + w == b + (t + w);
      FirstBlock(b, t);
      FirstBlock(b, t + w);
      BlocksSplit(t, w);
      Associate([b[..i]], Blocks(t), Blocks(Rest(t) + w));
    }
  }

  lemma {:induction false} CrlfDiffers(r: string) returns (k: nat)
    requires HasCrLf(r)
    ensures k < |r| && k < |Crlf(r)| && Crlf(r)[k] != r[k] && |Crlf(r)| < |r|
    decreases |r|
  {
    if CrLfAt(r, 0) {
      k := 0;
      assert r == "\r\n" + r[2..];
      CrlfPair(r[2..]);
    } else {
      var i :| CrLfAt(r, i);
      var t := r[1..];
      assert CrLfAt(t, i - 1) && r == [r[0]] + t;
      CrlfSkip(r[0], t);
      var j := CrlfDiffers(t);
      k := j + 1;
    }
  }

  /** If the rest becomes a block, the blocks differ with and without a second
      pass over the rest. */
  lemma NoCommonBlocks(rest: string, y: string)
    requires HasCrLf(rest) && IndexOf(rest) == -1 && IndexOf(rest + y) >= 0
    ensures Blocks(rest + y) != Blocks(Crlf(rest) + y)
  {
    var k := CrlfDiffers(rest);
    var one, two := Glued(Blocks(rest + y)), Glued(Blocks(Crlf(rest) + y));
    GluedCovers(rest, y);
    BlocksReassemble(Crlf(rest) + y);
    assert k < |two| ==> two[k] == (two + Rest(Crlf(rest) + y))[k] == Crlf(rest)[k];
    assert one != two;
  }

  lemma GluedCovers(rest: string, y: string)
    requires IndexOf(rest) == -1 && IndexOf(rest + y) >= 0
    ensures var g := Glued(Blocks(rest + y)); |g| > |rest| && forall k :: 0 <= k < |rest| ==> g[k] == rest[k]
  {
    var j := IndexOf(rest + y);
    var g := Glued(Blocks(rest + y));
    assert j + 1 < |rest| ==> BlankLineAt(rest, j);
    UpToBlankLine(rest + y, j);
    BlocksReassemble(rest + y);
    BlocksFrom(rest + y, j);
    GluedHead((rest + y)[..j], Blocks((rest + y)[j + 2..]));
    forall k | 0 <= k < |rest| ensures g[k] == rest[k] {
      assert g[k] == (g + Rest(rest + y))[k];
    }
  }

  lemma CrCrLfRest(x: string)
    ensures var rest := Rest(Crlf(x + "\r\r\n")); EndsInCrLf(rest) && HasCrLf(rest) && IndexOf(rest) == -1
  {
    var u := Crlf(x + "\r\r\n");
    AfterCrCrLf(x);
    RestKeepsEnd(u);
    BlocksReassemble(u);
    assert CrLfAt(Rest(u), |Rest(u)| - 2);
  }

  lemma ParsePair(x: string, q: string)
    ensures var p := x + "\r\r\n";
            var rest := Rest(Crlf(p));
            && Parse([p, q]) == Parsed(Blocks(Crlf(p)) + Blocks(Crlf(rest) + Crlf(q)), Rest(Crlf(rest) + Crlf(q)))
            && Crlf(rest + q) == Crlf(rest) + Crlf(q)
  {
    var p := x + "\r\r\n";
    CrCrLfRest(x);
    ParseTwo(p, q);
    CrlfConcat(Rest(Crlf(p)), q);
  }

  lemma ParseJoined(x: string, q: string)
    ensures var p := x + "\r\r\n";
            var rest := Rest(Crlf(p));
            && Parse([p + q]) == Parsed(Blocks(Crlf(p)) + Blocks(rest + Crlf(q)), Rest(rest + Crlf(q)))
            && Parse([p]).blocks == Blocks(Crlf(p))
  {
    var p := x + "\r\r\n";
    ParseOne(p);
    ParseOne(p + q);
    CrlfConcat(p, q);
    BlocksSplit(Crlf(p), Crlf(q));
  }

  /** Cutting right after a CR CR LF changes the blocks exactly when, in either
      parse, some block is completed after it. */
  lemma CutChangesBlocksExactly(x: string, q: string)
    ensures var p := x + "\r\r\n";
            var cut, whole, before := Parse([p, q]).blocks, Parse([p + q]).blocks, Parse([p]).blocks;
            cut != whole <==> cut != before || whole != before
  {
    var p := x + "\r\r\n";
    var rest, y := Rest(Crlf(p)), Crlf(q);
    ParsePair(x, q);
    ParseJoined(x, q);
    CrCrLfRest(x);
    var more, fewer := Blocks(Crlf(rest) + y), Blocks(rest + y);
    SameTail(Blocks(Crlf(p)), more, fewer);
    SameTail(Blocks(Crlf(p)), more, []);
    SameTail(Blocks(Crlf(p)), fewer, []);
    if IndexOf(rest + y) >= 0 {
      NoCommonBlocks(rest, y);
    }
    assert Blocks(Crlf(p)) + [] == Blocks(Crlf(p));
  }

  lemma SameTail<T>(a: seq<T>, b: seq<T>, c: seq<T>)
    ensures a + b == a + c <==> b == c
  {
    if a + b == a + c {
      assert b == (a + b)[|a|..] && c == (a + c)[|a|..];
    }
  }

  // ---- and over every way of cutting -------------------------------------

  function Before(c: char, s: string): string { if c == '\r' && s != [] && s[0] == '\n' then s else [c] + s }

  /** All passes of replacing CR LF at once: no CR is left before an LF. */
  function Deep(s: string): string { if s == [] then "" else Before(s[0], Deep(s[1..])) }

  lemma DeepHead(c: char, s: string)
    ensures Deep([c] + s) == Before(c, Deep(s))
  {
    assert ([c] + s)[1..] == s;
  }

  lemma DeepPair(s: string)
    ensures Deep("\r\n" + s) == Before('\n', Deep(s))
  {
    assert "\r\n" + s == ['\r'] + (['\n'] + s);
    DeepHead('\r', ['\n'] + s);
    DeepHead('\n', s);
  }

  lemma {:induction false} DeepTail(a: string, x: string, y: string)
    requires Deep(x) == Deep(y)
    ensures Deep(a + x) == Deep(a + y)
    decreases |a|
  {
    if a == [] {
      assert a + x == x && a + y == y;
    } else {
      DeepTail(a[1..], x, y);
      assert a + x == [a[0]] + (a[1..] + x) && a + y == [a[0]] + (a[1..] + y);
      DeepHead(a[0], a[1..] + x);
      DeepHead(a[0], a[1..] + y);
    }
  }

  /** A pass changes nothing of what all passes would come to. */
  lemma {:induction false} DeepOfCrlf(t: string, y: string)
    ensures Deep(Crlf(t) + y) == Deep(t + y)
    decreases |t|
  {
    if |t| < 2 {
    } else if t[0] == '\r' && t[1] == '\n' {
      var v := t[2..];
      assert t == "\r\n" + v && t + y == "\r\n" + (v + y);
      CrlfPair(v);
      assert Crlf(t) + y == ['\n'] + (Crlf(v) + y);
      DeepOfCrlf(v, y);
      DeepHead('\n', Crlf(v) + y);
      DeepPair(v + y);
    } else {
      var v := t[1..];
      assert t == [t[0]] + v && t + y == [t[0]] + (v + y);
      CrlfSkip(t[0], v);
      assert Crlf(t) + y == [t[0]] + (Crlf(v) + y);
      DeepOfCrlf(v, y);
      DeepHead(t[0], Crlf(v) + y);
      DeepHead(t[0], v + y);
    }
  }

  lemma BlankLineBehind(c: char, s: string)
    requires IndexOf(s) >= 0
    ensures IndexOf([c] + s) >= 0
  {
    assert BlankLineAt([c] + s, IndexOf(s) + 1);
  }

  lemma BlankLineFollowed(s: string, w: string)
    requires IndexOf(s) >= 0
    ensures IndexOf(s + w) >= 0
  {
    assert BlankLineAt(s + w, IndexOf(s));
  }

  /** A blank line stays one. */
  lemma {:induction false} DeepKeepsBlankLine(s: string)
    requires IndexOf(s) >= 0
    ensures IndexOf(Deep(s)) >= 0
    decreases |s|
  {
    var t := s[1..];
    assert s == [s[0]] + t;
    DeepHead(s[0], t);
    if BlankLineAt(s, 0) {
      assert t == ['\n'] + t[1..];
      DeepHead('\n', t[1..]);
      assert BlankLineAt(Deep(s), 0);
    } else {
      assert BlankLineAt(t, IndexOf(s) - 1);
      DeepKeepsBlankLine(t);
      BlankLineBehind(s[0], Deep(t));
    }
  }

  lemma {:induction false} DeepFixed(s: string)
    requires !HasCrLf(s)
    ensures Deep(s) == s
    decreases |s|
  {
    if s != [] {
      var t := s[1..];
      assert s == [s[0]] + t && [s[0]] + t + "" == s;
      NoneInPart([s[0]], t, "");
      DeepFixed(t);
      assert !CrLfAt(s, 0);
    }
  }

  /** Where not even all passes make a blank line, no chunking completes one. */
  lemma {:induction false} StaysSilent(p: Parsed, chunks: seq<string>)
    requires IndexOf(Deep(p.buffer + Join(chunks))) == -1
    ensures FeedAll(p, chunks).blocks == p.blocks
    decreases |chunks|
  {
    if chunks != [] {
      var more := Join(chunks[1..]);
      var text := Crlf(p.buffer + chunks[0]);
      Associate(p.buffer, chunks[0], more);
      DeepOfCrlf(p.buffer + chunks[0], more);
      NoBlankLineYet(text, more);
      StaysSilent(Feed(p, chunks[0]), chunks[1..]);
    }
  }

  lemma NoBlankLineYet(text: string, more: string)
    requires IndexOf(Deep(text + more)) == -1
    ensures IndexOf(text) == -1 && Blocks(text) == [] && Rest(text) == text
  {
    if IndexOf(text) >= 0 {
      BlankLineFollowed(text, more);
      DeepKeepsBlankLine(text + more);
    }
  }

  /** The first CR CR LF, or -1. */
  function CrCrLfIndex(s: string): (i: int)
    ensures -1 <= i < |s|
    ensures i >= 0 ==> CrCrLfAt(s, i)
    ensures forall k :: CrCrLfAt(s, k) ==> 0 <= i <= k
    decreases |s|
  {
    if |s| < 3 then -1
    else if CrCrLfAt(s, 0) then 0
    else
      var i := CrCrLfIndex(s[1..]);
      assert forall k :: CrCrLfAt(s, k) ==> k > 0 && CrCrLfAt(s[1..], k - 1);
      if i < 0 then -1 else i + 1
  }

  /** No block can be completed after the first CR CR LF, whatever the chunks. */
  predicate Silent(s: string) {
    var i := CrCrLfIndex(s);
    i < 0 || IndexOf(Deep(Rest(Crlf(s[..i + 3])) + s[i + 3..])) < 0
  }

  /** What is parsed once the first CR CR LF has been read. */
  lemma PastCrCrLf(p: string, q: string, more: string)
    requires p != [] && p[|p| - 1] == '\n' && IndexOf(Deep(Rest(Crlf(p)) + (q + more))) == -1
    ensures ParseWhole(p + q) == Parsed(Blocks(Crlf(p)), Rest(Crlf(p)) + Crlf(q))
    ensures IndexOf(Deep(Rest(Crlf(p)) + Crlf(q) + more)) == -1
  {
    var rest := Rest(Crlf(p));
    CrlfConcat(p, q);
    BlocksSplit(Crlf(p), Crlf(q));
    DeepOfCrlf(q, more);
    DeepTail(rest, Crlf(q) + more, q + more);
    Associate(rest, Crlf(q), more);
    NoBlankLineYet(rest + Crlf(q), more);
    assert Blocks(Crlf(p)) + [] == Blocks(Crlf(p));
  }

  /** The chunk that brings the end of the first CR CR LF. */
  lemma Crosses(p: string, q: string, z: string, y: string, more: string)
    requires z + y + more == p + q && |z| < |p| <= |z + y| && !HasCrCrLf(z)
    requires p[|p| - 1] == '\n' && IndexOf(Deep(Rest(Crlf(p)) + q)) == -1
    ensures var parsed := Feed(ParseWhole(z), y);
            parsed.blocks == Blocks(Crlf(p)) && IndexOf(Deep(parsed.buffer + more)) == -1
  {
    var q1 := (z + y)[|p|..];
    assert z + y == p + q1 by { assert (z + y)[..|p|] == (z + y + more)[..|p|] == (p + q)[..|p|] == p; }
    assert q == q1 + more by { assert (p + q)[|p|..] == q && (p + (q1 + more))[|p|..] == q1 + more; Associate(p, q1, more); }
    FeedExtends(z, y);
    PastCrCrLf(p, q1, more);
  }

  lemma {:induction false} CrossingIsSilent(p: string, q: string, z: string, chunks: seq<string>)
    requires z + Join(chunks) == p + q && |z| < |p| && !HasCrCrLf(p[..|p| - 1])
    requires p[|p| - 1] == '\n' && IndexOf(Deep(Rest(Crlf(p)) + q)) == -1
    ensures FeedAll(ParseWhole(z), chunks).blocks == Blocks(Crlf(p))
    decreases |chunks|
  {
    assert chunks == [] ==> z + Join(chunks) == z;
    var y, more := chunks[0], Join(chunks[1..]);
    Associate(z, y, more);
    NoneBefore(p, q, z, y + more);
    if |z + y| < |p| {
      FeedExtends(z, y);
      CrossingIsSilent(p, q, z + y, chunks[1..]);
    } else {
      Crosses(p, q, z, y, more);
      StaysSilent(Feed(ParseWhole(z), y), chunks[1..]);
    }
  }

  lemma NoneBefore(p: string, q: string, z: string, w: string)
    requires z + w == p + q && |z| < |p| && !HasCrCrLf(p[..|p| - 1])
    ensures !HasCrCrLf(z)
  {
    assert z == (p + q)[..|z|] == p[..|z|];
    forall k ensures !CrCrLfAt(z, k) {
      assert CrCrLfAt(z, k) ==> CrCrLfAt(p[..|p| - 1], k);
    }
  }

  function Empties(n: nat): seq<string> { if n == 0 then [] else [""] + Empties(n - 1) }

  lemma {:induction false} BlocksGrow(p: Parsed, chunks: seq<string>)
    ensures |p.blocks| <= |FeedAll(p, chunks).blocks|
    decreases |chunks|
  {
    if chunks != [] {
      BlocksGrow(Feed(p, chunks[0]), chunks[1..]);
    }
  }

  /** Enough empty chunks make the passes that complete a block. */
  lemma EmptiesComplete(p: Parsed, n: nat)
    requires IndexOf(p.buffer) == -1 && IndexOf(Deep(p.buffer)) >= 0 && |p.buffer| <= n
    ensures |p.blocks| < |FeedAll(p, Empties(n)).blocks|
    decreases n
  {
    if !HasCrLf(p.buffer) {
      DeepFixed(p.buffer);
    }
    var k := CrlfDiffers(p.buffer);
    var text := Crlf(p.buffer);
    assert p.buffer + "" == p.buffer && Empties(n)[0] == "" && Empties(n)[1..] == Empties(n - 1);
    DeepOfCrlf(p.buffer, "");
    assert text + "" == text;
    if IndexOf(text) >= 0 {
      BlocksGrow(Feed(p, ""), Empties(n - 1));
    } else {
      assert p.blocks + [] == p.blocks;
      EmptiesComplete(Feed(p, ""), n - 1);
    }
  }

  lemma {:induction false} JoinEmpties(n: nat)
    ensures Join(Empties(n)) == ""
    decreases n
  {
    if n > 0 {
      JoinEmpties(n - 1);
      assert Empties(n)[1..] == Empties(n - 1);
    }
  }

  /** Two ways of cutting that complete different blocks. */
  lemma SpeaksTwoWays(s: string) returns (a: seq<string>, b: seq<string>)
    requires !Silent(s)
    ensures Join(a) == s && Join(b) == s && Parse(a).blocks != Parse(b).blocks
  {
    var i := CrCrLfIndex(s);
    var x, p, q := s[..i], s[..i + 3], s[i + 3..];
    assert p == x + "\r\r\n" && s == p + q;
    var rest := Rest(Crlf(p));
    JoinOne(s);
    JoinPair(p, q);
    ParsePair(x, q);
    ParseJoined(x, q);
    CutChangesBlocksExactly(x, q);
    a := [s];
    if Parse([p, q]).blocks != Parse([s]).blocks {
      b := [p, q];
    } else {
      var text := Crlf(rest + q);
      DeepOfCrlf(rest + q, "");
      assert text + "" == text && rest + q + "" == rest + q;
      SameTail(Blocks(Crlf(p)), Blocks(text), []);
      assert Blocks(Crlf(p)) + [] == Blocks(Crlf(p));
      assert IndexOf(text) == -1;
      b := [p, q] + Empties(|text|);
      AfterPair(p, q, |text|);
      EmptiesComplete(Parse([p, q]), |text|);
    }
  }

  lemma JoinPair(p: string, q: string)
    ensures Join([p, q]) == p + q
  {
    assert [p, q][1..] == [q];
    JoinOne(q);
  }

  lemma AfterPair(p: string, q: string, n: nat)
    ensures Join([p, q] + Empties(n)) == p + q
    ensures Parse([p, q] + Empties(n)) == FeedAll(Parse([p, q]), Empties(n))
  {
    var chunks := [p, q] + Empties(n);
    assert chunks[1..] == [q] + Empties(n) && ([q] + Empties(n))[1..] == Empties(n);
    JoinEmpties(n);
    assert q + "" == q;
    ParseOne(p);
    ParseTwo(p, q);
    assert FeedAll(Parsed([], ""), chunks) == FeedAll(Feed(Parsed([], ""), p), chunks[1..]);
    assert FeedAll(Parsed([], ""), [p]) == FeedAll(Feed(Parsed([], ""), p), []);
  }

  /** The blocks of a stream, and so all a listener can hear, are independent of
      how it was cut exactly when no block can be completed after its first
      CR CR LF. */
  lemma BlocksAreIndependentExactly(s: string)
    ensures (forall a, b :: Join(a) == s && Join(b) == s ==> Parse(a).blocks == Parse(b).blocks) <==> Silent(s)
  {
    if !Silent(s) {
      var a, b := SpeaksTwoWays(s);
    } else {
      forall a, b | Join(a) == s && Join(b) == s ensures Parse(a).blocks == Parse(b).blocks {
        ParsesSilently(s, a);
        ParsesSilently(s, b);
      }
    }
  }

  lemma AtFirstCrCrLf(s: string) returns (p: string, q: string)
    requires HasCrCrLf(s) && Silent(s)
    ensures s == p + q && p != [] && p[|p| - 1] == '\n' && !HasCrCrLf(p[..|p| - 1])
    ensures IndexOf(Deep(Rest(Crlf(p)) + q)) == -1
  {
    var i := CrCrLfIndex(s);
    p, q := s[..i + 3], s[i + 3..];
    var t := p[..|p| - 1];
    forall k ensures !CrCrLfAt(t, k) {
      assert CrCrLfAt(t, k) ==> CrCrLfAt(s, k);
    }
  }

  lemma ParsesSilently(s: string, chunks: seq<string>)
    requires Join(chunks) == s && Silent(s)
    ensures Parse(chunks).blocks == ParseWhole(s).blocks
  {
    if HasCrCrLf(s) {
      var p, q := AtFirstCrCrLf(s);
      SilentFrom(p, q, chunks);
      JoinOne(s);
      SilentFrom(p, q, [s]);
      ParseOne(s);
    } else {
      ChunksParseAsWhole(chunks);
    }
  }

  lemma SilentFrom(p: string, q: string, chunks: seq<string>)
    requires Join(chunks) == p + q && p != [] && p[|p| - 1] == '\n' && !HasCrCrLf(p[..|p| - 1])
    requires IndexOf(Deep(Rest(Crlf(p)) + q)) == -1
    ensures Parse(chunks).blocks == Blocks(Crlf(p))
  {
    assert "" + Join(chunks) == p + q;
    assert ParseWhole("") == Parsed([], "");
    CrossingIsSilent(p, q, "", chunks);
  }
}
