/** Which lines of a document the parser reports, and for what. */
module TaskErrors {
  import opened Wrappers
  import opened TaskText
  import opened TaskSyntax
  import opened TaskTokens

  /** The line neither opens an item nor is indented as a field. */
  predicate Astray(line: Line) {
    !Inert(line) && !StartsWith(line, "- ") && !StartsWith(line, "  ")
  }

  /** The line stands where a key line must, whether or not it is one. */
  predicate Expected(line: Line) {
    !Inert(line) && (StartsWith(line, "- ") || StartsWith(line, "  "))
  }

  /** The value after the colon opens a list that is not closed on the line. */
  predicate OpenList(raw: string) {
    raw != "" && raw[0] == '[' && raw[|raw| - 1] != ']'
  }

  /** What is wrong with a line that a round begins on, after what was parsed before it. */
  predicate Wrong(line: Line, before: Parsed, problem: Problem) {
    match problem
    case NotAnItem => Astray(line)
    case NotAKey => Expected(line) && ParseKey(line) == None
    case OutsideItem =>
      Expected(line) && ParseKey(line) != None && !StartsWith(line, "- ") && before.items == []
    case Duplicate =>
      Expected(line) && ParseKey(line) != None && !StartsWith(line, "- ") && before.items != []
      && ParseKey(line).value.0 in before.items[|before.items| - 1].fields
    case Unterminated =>
      Expected(line) && ParseKey(line) != None && (StartsWith(line, "- ") || before.items != [])
      && OpenList(ParseKey(line).value.1)
  }

  lemma RecordedErrors(
    q: Parsed, key: string, content: Content, unterminated: bool, at: nat, size: nat, e: (nat, Problem))
    requires q.items != []
    ensures e in Recorded(q, key, content, unterminated, at, size).errors <==>
      || e in q.errors
      || (e == (at, Duplicate) && key in q.items[|q.items| - 1].fields)
      || (e == (at, Unterminated) && unterminated)
  {
  }

  lemma OpenListIff(raw: string, rest: seq<Line>)
    ensures Value(raw, rest).2 <==> OpenList(raw)
  {
    hide Body, Popped, Entries, FlowEntries, Unquote;
    assert raw != "" ==> (StartsWith(raw, "[") <==> raw[0] == '[');
  }

  /** A round reports its own line for what is wrong with it, and keeps what was reported before. */
  lemma StepErrors(p: Parsed, lines: seq<Line>, at: nat, e: (nat, Problem))
    requires lines != []
    ensures e in Step(p, Head(lines, p.items != []), at).errors <==>
      e in p.errors || (e.0 == at && Wrong(lines[0], p, e.1))
  {
    hide Inert, Value, ParseKey, Recorded, OpenList;
    var line := lines[0];
    var t := Head(lines, p.items != []);
    var parsed := ParseKey(line);
    if t.shape.Entry? {
      OpenListIff(parsed.value.1, lines[1..]);
      var q := if Opens(line) then OpenedAt(p, at) else p;
      RecordedErrors(q, t.shape.key, t.shape.content, t.shape.unterminated, at, t.size, e);
    } else if parsed.Some? && !Inert(line) && (Opens(line) || StartsWith(line, "  ")) {
      NothingToFail(p, at, e);
    }
  }

  lemma NothingToFail(p: Parsed, at: nat, e: (nat, Problem))
    ensures e in Fail(p, at, OutsideItem).errors <==> e in p.errors || e == (at, OutsideItem)
  {
  }

  /** Round `n` begins on line `at`, after what the rounds before it parsed. */
  ghost predicate Begins(lines: seq<Line>, n: nat, at: nat) {
    n < |Tokens(lines, false)| && Length(Tokens(lines, false)[..n]) == at < |lines|
  }

  lemma TokenIs(lines: seq<Line>, n: nat)
    requires n < |Tokens(lines, false)|
    ensures var front := Tokens(lines, false)[..n];
            && Length(front) < |lines|
            && Tokens(lines, false)[n] == Head(lines[Length(front)..], Build(front).items != [])
  {
    hide Head, Build, Length, Tokens;
    var all := Tokens(lines, false);
    var front, back := all[..n], all[n..];
    assert all == front + back;
    TokensSplit(lines, false, front, back);
    ItemsAreOpeners(front);
    FirstToken(lines[Length(front)..], Opened(front), back);
  }

  lemma FirstToken(lines: seq<Line>, inside: bool, tokens: seq<Token>)
    requires Tokens(lines, inside) == tokens && tokens != []
    ensures lines != [] && tokens[0] == Head(lines, inside)
  {
    hide Head;
  }

  lemma {:induction false} ErrorsOfPrefix(lines: seq<Line>, m: nat, at: nat, problem: Problem)
    requires m <= |Tokens(lines, false)|
    ensures (at, problem) in Build(Tokens(lines, false)[..m]).errors <==>
      exists n :: 0 <= n < m && Begins(lines, n, at) && Wrong(lines[at], Build(Tokens(lines, false)[..n]), problem)
  {
    hide Head, Step, Wrong, Tokens, Length;
    var all := Tokens(lines, false);
    if m == 0 {
      assert all[..0] == [];
    } else {
      hide Build;
      var front := all[..m - 1];
      ErrorsOfPrefix(lines, m - 1, at, problem);
      assert all[..m] == front + [all[m - 1]];
      BuildSnoc(front, all[m - 1]);
      TokenIs(lines, m - 1);
      StepErrors(Build(front), lines[Length(front)..], Length(front), (at, problem));
    }
  }

  /**
   * Everything that is reported is wrong, and everything that is wrong is reported: a line is named
   * with a problem exactly when some round of the parser begins on it and the problem is there.
   */
  lemma ErrorsMean(lines: seq<Line>, at: nat, problem: Problem)
    ensures (at, problem) in Parse(lines).errors <==>
      exists n :: 0 <= n < |Tokens(lines, false)| && Begins(lines, n, at)
                  && Wrong(lines[at], Build(Tokens(lines, false)[..n]), problem)
  {
    hide Build, Tokens, Begins, Wrong;
    var all := Tokens(lines, false);
    ErrorsOfPrefix(lines, |all|, at, problem);
    assert all[..|all|] == all;
  }
}
