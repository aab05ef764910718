/** The parser as it runs: one pass over the lines, advancing past what each key line takes with it. */
module TaskParser {
  import opened Wrappers
  import opened TaskText
  import opened TaskSyntax

  /** The lines of a block scalar, up to the first that is neither blank nor indented. */
  method ReadBlockScalar(lines: seq<Line>, from: nat) returns (text: string, next: nat)
    requires from <= |lines|
    ensures next == from + BlockRun(lines[from..]) && next <= |lines|
    ensures forall l <- lines[from..next] :: InBlock(l)
    ensures text == JoinWith(Popped(Body(lines[from..next])), "\n")
  {
    hide Blank, Indented;
    var body: seq<string> := [];
    next := from;
    while next < |lines| && InBlock(lines[next])
      invariant from <= next <= |lines|
      invariant BlockRun(lines[from..]) == next - from + BlockRun(lines[next..])
      invariant forall l <- lines[from..next] :: InBlock(l)
      invariant body == Body(lines[from..next])
    {
      assert lines[from..next + 1] == lines[from..next] + [lines[next]];
      assert lines[next..][1..] == lines[next + 1..];
      body := body + [Dedent(lines[next])];
      next := next + 1;
    }
    ghost var whole := body;
    while body != [] && body[|body| - 1] == ""
      invariant Popped(body) == Popped(whole)
    {
      body := body[..|body| - 1];
    }
    text := JoinWith(body, "\n");
  }

  /** The entries of a block sequence, blank lines and comments between them included. */
  method ReadBlockSequence(lines: seq<Line>, from: nat) returns (entries: seq<string>, next: nat)
    requires from <= |lines|
    ensures next == from + SequenceRun(lines[from..]) && next <= |lines|
    ensures entries == Entries(lines[from..next])
  {
    hide Blank, Inert, ParseEntry, Entries, Unquote;
    entries := [];
    NoEntriesYet(lines, from);
    next := from;
    while next < |lines| && InSequence(lines[next])
      invariant from <= next <= |lines|
      invariant SequenceRun(lines[from..]) == next - from + SequenceRun(lines[next..])
      invariant entries == Entries(lines[from..next])
    {
      OneEntryMore(lines, from, next);
      assert lines[next..][1..] == lines[next + 1..];
      if !Inert(lines[next]) {
        var entry := ParseEntry(lines[next]);
        if entry.Some? {
          entries := entries + [Unquote(entry.value)];
        }
      }
      next := next + 1;
    }
  }

  lemma NoEntriesYet(lines: seq<Line>, from: nat)
    requires from <= |lines|
    ensures Entries(lines[from..from]) == []
  {
  }

  lemma OneEntryMore(lines: seq<Line>, from: nat, next: nat)
    requires from <= next < |lines|
    ensures Entries(lines[from..next + 1]) == Entries(lines[from..next])
      + (if !Inert(lines[next]) && ListItem(lines[next]) then [Unquote(ParseEntry(lines[next]).value)] else [])
  {
    hide Inert, ParseEntry, Unquote;
    assert lines[from..next + 1][..next - from] == lines[from..next];
    assert lines[from..next + 1][next - from] == lines[next];
  }

  /** A key's value, and the line after it. */
  method ReadValue(raw: string, lines: seq<Line>, i: nat) returns (content: Content, next: nat, unterminated: bool)
    requires i < |lines|
    ensures (content, next - i - 1, unterminated) == Value(raw, lines[i + 1..])
    ensures i < next <= |lines|
  {
    hide Blank, Inert, ParseEntry, InBlock, InSequence, FlowEntries;
    next, unterminated := i + 1, false;
    if raw == "|" {
      var text;
      text, next := ReadBlockScalar(lines, i + 1);
      assert lines[i + 1..][..next - i - 1] == lines[i + 1..next];
      content := BlockScalar(text);
    } else if StartsWith(raw, "[") {
      unterminated := raw[|raw| - 1] != ']';
      content := Flow(FlowEntries(raw));
    } else if raw == "" {
      var entries, after := ReadBlockSequence(lines, i + 1);
      assert lines[i + 1..][..after - i - 1] == lines[i + 1..after];
      if entries != [] {
        content, next := BlockSeq(entries), after;
      } else {
        content := Scalar("");
      }
    } else {
      content := Scalar(Unquote(raw));
    }
  }

  method ParseLines(lines: seq<Line>) returns (p: Parsed)
    ensures p == Parse(lines)
  {
    hide Blank, Inert, ParseEntry, ParseKey, Value, Opens, Step, Head, OpensItem;
    var items: seq<Item> := [];
    var errors: seq<(nat, Problem)> := [];
    ghost var done: seq<Token> := [];
    var i := 0;
    assert lines[0..] == lines;
    while i < |lines|
      invariant 0 <= i <= |lines| && Length(done) == i
      invariant Tokens(lines, false) == done + Tokens(lines[i..], items != [])
      invariant Build(done) == Parsed(items, errors)
      decreases |lines| - i
    {
      ghost var t := Head(lines[i..], items != []);
      TokensAdvance(lines, i, items != [], done);
      var next;
      items, errors, next := Round(lines, i, items, errors);
      done := done + [t];
      i := next;
    }
    assert done + [] == done;
    p := Parsed(items, errors);
  }

  /** One round of the loop: the line at `i` and whatever it takes with it. */
  method Round(lines: seq<Line>, i: nat, items: seq<Item>, errors: seq<(nat, Problem)>)
    returns (grown: seq<Item>, told: seq<(nat, Problem)>, next: nat)
    requires i < |lines|
    ensures var t := Head(lines[i..], items != []);
            && next == i + t.size && next <= |lines|
            && Parsed(grown, told) == Step(Parsed(items, errors), t, i)
            && ((grown != []) <==> items != [] || OpensItem(t.shape))
  {
    hide Blank, Inert, ParseEntry, ParseKey, Value, Recorded;
    grown, told, next := items, errors, i + 1;
    var line := lines[i];
    assert lines[i..][1..] == lines[i + 1..];
    if Inert(line) {
      return;
    }
    if StartsWith(line, "- ") {
      grown := grown + [Item(map[], i, i)];
    } else if !StartsWith(line, "  ") {
      told := told + [(i, NotAnItem)];
      return;
    }
    var parsed := ParseKey(line);
    if parsed.None? {
      told := told + [(i, NotAKey)];
      return;
    }
    if grown == [] {
      told := told + [(i, OutsideItem)];
      return;
    }
    grown, told, next := TakeValue(lines, i, grown, told, parsed.value.0, parsed.value.1);
  }

  /** The value of the key on line `i` goes into the last item. */
  method TakeValue(
    lines: seq<Line>, i: nat, items: seq<Item>, errors: seq<(nat, Problem)>, key: string, raw: string)
    returns (grown: seq<Item>, told: seq<(nat, Problem)>, next: nat)
    requires i < |lines| && items != []
    ensures var v := Value(raw, lines[i + 1..]);
            && next == i + 1 + v.1
            && Parsed(grown, told) == Recorded(Parsed(items, errors), key, v.0, v.2, i, 1 + v.1)
            && grown != []
  {
    hide Value;
    grown, told := items, errors;
    var current := grown[|grown| - 1];
    if key in current.fields {
      told := told + [(i, Duplicate)];
    }
    var content, unterminated;
    content, next, unterminated := ReadValue(raw, lines, i);
    if unterminated {
      told := told + [(i, Unterminated)];
    }
    var field := Field(content, i, next - 1);
    grown := grown[..|grown| - 1]
      + [Item(current.fields[key := field], current.startLine, MaxOf(current.endLine, field.endLine))];
  }

  lemma {:induction false} TokensAdvance(lines: seq<Line>, i: nat, inside: bool, done: seq<Token>)
    requires i < |lines| && Tokens(lines, false) == done + Tokens(lines[i..], inside) && Length(done) == i
    ensures var t := Head(lines[i..], inside);
            && i + t.size <= |lines|
            && Tokens(lines, false) == (done + [t]) + Tokens(lines[i + t.size..], inside || OpensItem(t.shape))
            && Length(done + [t]) == i + t.size
            && Build(done + [t]) == Step(Build(done), t, i)
  {
    hide Head, Step;
    var t := Head(lines[i..], inside);
    assert lines[i..][t.size..] == lines[i + t.size..];
    var rest := Tokens(lines[i + t.size..], inside || OpensItem(t.shape));
    assert done + ([t] + rest) == (done + [t]) + rest;
    assert (done + [t])[..|done|] == done;
  }
}
