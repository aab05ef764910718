/** The task document as a sequence of tokens, and the items the parser builds from them. */
module TaskSyntax {
  import opened Wrappers
  import opened TaskText

  datatype Content =
    | Scalar(text: string)
    | Flow(list: seq<string>)
    | BlockSeq(list: seq<string>)
    | BlockScalar(text: string)

  datatype Shape =
    | Skip
    | BadIndent
    | BadKey(opens: bool)
    | Outside
    | Entry(opens: bool, key: string, content: Content, unterminated: bool)

  /** What the parser takes off the front of the document in one round, and how many lines that is. */
  datatype Token = Token(shape: Shape, size: nat)

  // --------------------------------------------------------------------- runs

  predicate InBlock(l: Line) {
    Blank(l) || Indented(l)
  }

  predicate InSequence(l: Line) {
    Inert(l) || ListItem(l)
  }

  function BlockRun(lines: seq<Line>): (n: nat)
    ensures n <= |lines|
  {
    if lines == [] || !InBlock(lines[0]) then 0 else 1 + BlockRun(lines[1..])
  }

  function SequenceRun(lines: seq<Line>): (n: nat)
    ensures n <= |lines|
  {
    if lines == [] || !InSequence(lines[0]) then 0 else 1 + SequenceRun(lines[1..])
  }

  function Body(lines: seq<Line>): seq<string>
    requires forall l <- lines :: InBlock(l)
  {
    if lines == [] then []
    else
      assert lines[|lines| - 1] in lines;
      Body(lines[..|lines| - 1]) + [Dedent(lines[|lines| - 1])]
  }

  function Dedent(l: Line): string
    requires InBlock(l)
  {
    if Blank(l) then "" else l[4..]
  }

  /** Trailing blank lines are not part of the text. */
  function Popped(body: seq<string>): seq<string> {
    if body != [] && body[|body| - 1] == "" then Popped(body[..|body| - 1]) else body
  }

  function Entries(lines: seq<Line>): seq<string> {
    if lines == [] then []
    else
      var last := lines[|lines| - 1];
      Entries(lines[..|lines| - 1]) + (if !Inert(last) && ListItem(last) then [Unquote(ParseEntry(last).value)] else [])
  }

  lemma {:induction false} BlockRunIsRun(lines: seq<Line>)
    ensures forall l <- lines[..BlockRun(lines)] :: InBlock(l)
  {
    hide InBlock;
    if lines != [] && InBlock(lines[0]) {
      BlockRunIsRun(lines[1..]);
      assert lines[..BlockRun(lines)] == [lines[0]] + lines[1..][..BlockRun(lines[1..])];
    }
  }

  // ------------------------------------------------------------------- tokens

  /** A value, how many of the lines after it belong to it, and whether its bracket is missing. */
  function Value(raw: string, rest: seq<Line>): (v: (Content, nat, bool))
    ensures v.1 <= |rest|
  {
    if raw == "|" then
      BlockRunIsRun(rest);
      (BlockScalar(JoinWith(Popped(Body(rest[..BlockRun(rest)])), "\n")), BlockRun(rest), false)
    else if StartsWith(raw, "[") then (Flow(FlowEntries(raw)), 0, raw[|raw| - 1] != ']')
    else if raw == "" then
      var entries := Entries(rest[..SequenceRun(rest)]);
      if entries != [] then (BlockSeq(entries), SequenceRun(rest), false) else (Scalar(""), 0, false)
    else (Scalar(Unquote(raw)), 0, false)
  }

  function Opens(line: Line): bool {
    StartsWith(line, "- ")
  }

  function Head(lines: seq<Line>, inside: bool): (t: Token)
    requires lines != []
    ensures 1 <= t.size <= |lines|
  {
    var line := lines[0];
    if Inert(line) then Token(Skip, 1)
    else if !Opens(line) && !StartsWith(line, "  ") then Token(BadIndent, 1)
    else
      var parsed := ParseKey(line);
      if parsed.None? then Token(BadKey(Opens(line)), 1)
      else if !Opens(line) && !inside then Token(Outside, 1)
      else
        var v := Value(parsed.value.1, lines[1..]);
        Token(Entry(Opens(line), parsed.value.0, v.0, v.2), 1 + v.1)
  }

  predicate OpensItem(shape: Shape) {
    (shape.BadKey? || shape.Entry?) && shape.opens
  }

  function Tokens(lines: seq<Line>, inside: bool): seq<Token>
    decreases |lines|
  {
    if lines == [] then []
    else
      var t := Head(lines, inside);
      [t] + Tokens(lines[t.size..], inside || OpensItem(t.shape))
  }

  function Length(tokens: seq<Token>): nat {
    if tokens == [] then 0 else Length(tokens[..|tokens| - 1]) + tokens[|tokens| - 1].size
  }

  // -------------------------------------------------------------------- items

  datatype Field = Field(content: Content, keyLine: nat, endLine: int)
  datatype Item = Item(fields: map<string, Field>, startLine: nat, endLine: int)
  datatype Problem = NotAnItem | NotAKey | OutsideItem | Duplicate | Unterminated
  datatype Parsed = Parsed(items: seq<Item>, errors: seq<(nat, Problem)>)

  function Fail(p: Parsed, at: nat, problem: Problem): Parsed {
    p.(errors := p.errors + [(at, problem)])
  }

  function OpenedAt(p: Parsed, at: nat): Parsed {
    p.(items := p.items + [Item(map[], at, at)])
  }

  function MaxOf(a: int, b: int): int {
    if a < b then b else a
  }

  function Filled(p: Parsed, key: string, field: Field): Parsed
    requires p.items != []
  {
    var last := p.items[|p.items| - 1];
    var item := Item(last.fields[key := field], last.startLine, MaxOf(last.endLine, field.endLine));
    p.(items := p.items[..|p.items| - 1] + [item])
  }

  /** A field goes into the current item; a key seen before and a missing bracket are still errors. */
  function Recorded(q: Parsed, key: string, content: Content, unterminated: bool, at: nat, size: nat): Parsed
    requires q.items != []
  {
    var dup := if key in q.items[|q.items| - 1].fields then Fail(q, at, Duplicate) else q;
    var flow := if unterminated then Fail(dup, at, Unterminated) else dup;
    Filled(flow, key, Field(content, at, at + size - 1))
  }

  /** What one token, starting at line `at`, does to what has been parsed so far. */
  function Step(p: Parsed, t: Token, at: nat): Parsed {
    match t.shape
    case Skip => p
    case BadIndent => Fail(p, at, NotAnItem)
    case BadKey(opens) => Fail(if opens then OpenedAt(p, at) else p, at, NotAKey)
    case Outside => Fail(p, at, OutsideItem)
    case Entry(opens, key, content, unterminated) =>
      var q := if opens then OpenedAt(p, at) else p;
      if q.items == [] then Fail(q, at, OutsideItem)
      else Recorded(q, key, content, unterminated, at, t.size)
  }

  function Build(tokens: seq<Token>): Parsed {
    if tokens == [] then Parsed([], [])
    else
      var front := tokens[..|tokens| - 1];
      Step(Build(front), tokens[|tokens| - 1], Length(front))
  }

  /** What parsing a document's lines comes to. */
  function Parse(lines: seq<Line>): Parsed {
    Build(Tokens(lines, false))
  }

  /** An item as its fields' contents, without where they stand. */
  function View(item: Item): map<string, Content> {
    map k | k in item.fields :: item.fields[k].content
  }

  function Views(p: Parsed): seq<map<string, Content>> {
    seq(|p.items|, i requires 0 <= i < |p.items| => View(p.items[i]))
  }

  predicate Clean(p: Parsed) {
    p.errors == []
  }
}
