/** Documents as people write them, and what the parser makes of them: every value comes back, however it is spelled. */
module TaskDocuments {
  import opened Wrappers
  import opened TaskText
  import opened TaskSyntax
  import opened TaskTokens
  import opened TaskSurgery

  // ------------------------------------------------------------------- writing

  /** A value as it stands in the document: bare, or between quotation marks of either kind. */
  datatype Spelling = Bare | Quotes | Apostrophes

  datatype Spelled = Spelled(value: string, how: Spelling)

  /** Each quotation mark behind a backslash. */
  function Escaped(v: string): string {
    if v == "" then "" else (if v[0] == '"' then "\\\"" else [v[0]]) + Escaped(v[1..])
  }

  function Spell(s: Spelled): string {
    match s.how
    case Bare => s.value
    case Quotes => "\"" + Escaped(s.value) + "\""
    case Apostrophes => "'" + s.value + "'"
  }

  /** No quotation mark stands behind a backslash. */
  predicate Unescapable(v: string) {
    forall i :: 0 <= i < |v| - 1 ==> !(v[i] == '\\' && v[i + 1] == '"')
  }

  /** The text stands between two quotation marks of one kind. */
  predicate BetweenMarks(v: string) {
    |v| >= 2 && v[0] == v[|v| - 1] && (v[0] == '"' || v[0] == '\'')
  }

  /** On one line; bare, with nothing to trim and no quotation marks around it; between single ones, with no escapes. */
  predicate Spellable(s: Spelled) {
    && OneLine(s.value)
    && (s.how.Bare? ==> Trimmed(s.value) && !BetweenMarks(s.value))
    && (s.how.Apostrophes? ==> Unescapable(s.value))
  }

  /** What a field is given. */
  datatype Given =
    | GivenScalar(scalar: Spelled)
    | GivenList(entries: seq<Spelled>)
    | GivenSequence(entries: seq<Spelled>, between: seq<Line>)
    | GivenText(text: seq<string>)

  /** A field in its place: on its item's first line, or below it. */
  datatype Put = Put(opens: bool, key: string, given: Given)

  /** What stands in a list has no comma in it and is something, if only quotation marks; lines between the entries of a
      sequence are blank or comments; a text ends with something to read. */
  predicate Writes(g: Given) {
    match g
    case GivenScalar(s) =>
      Spellable(s) && (s.how.Bare? && s.value != "" ==> s.value[0] != '[' && s.value != "|")
    case GivenList(entries) => forall s <- entries :: Spellable(s) && ',' !in s.value && Spell(s) != ""
    case GivenSequence(entries, between) =>
      entries != [] && (forall s <- entries :: Spellable(s)) && forall l <- between :: Inert(l)
    case GivenText(text) =>
      (text != [] ==> text[|text| - 1] != "") && forall l <- text :: l == "" || !Blank("    " + l)
  }

  function Texts(entries: seq<Spelled>): seq<string> {
    seq(|entries|, i requires 0 <= i < |entries| => Spell(entries[i]))
  }

  function Values(entries: seq<Spelled>): seq<string> {
    seq(|entries|, i requires 0 <= i < |entries| => entries[i].value)
  }

  /** What stands after the colon. */
  function Beside(g: Given): string {
    match g
    case GivenScalar(s) => Spell(s)
    case GivenList(entries) => RenderList(Texts(entries))
    case GivenSequence(_, _) => ""
    case GivenText(_) => "|"
  }

  function EntryLines(texts: seq<string>, between: seq<Line>): seq<Line> {
    if texts == [] then []
    else EntryLines(texts[..|texts| - 1], between) + ["    - " + texts[|texts| - 1]] + between
  }

  /** A blank line stands for an empty one. */
  function TextLines(text: seq<string>): seq<Line> {
    if text == [] then []
    else TextLines(text[..|text| - 1]) + [if text[|text| - 1] == "" then "" else "    " + text[|text| - 1]]
  }

  /** What stands on the lines below. */
  function Under(g: Given): seq<Line> {
    match g
    case GivenScalar(_) => []
    case GivenList(_) => []
    case GivenSequence(entries, between) => EntryLines(Texts(entries), between)
    case GivenText(text) => TextLines(text)
  }

  function KeyLineOf(p: Put): Line {
    (if p.opens then "- " else "  ") + p.key + ":" + (if Beside(p.given) == "" then "" else " " + Beside(p.given))
  }

  function Document(puts: seq<Put>): seq<Line> {
    if puts == [] then [] else [KeyLineOf(puts[0])] + Under(puts[0].given) + Document(puts[1..])
  }

  // ------------------------------------------------------------------- meaning

  function Meaning(g: Given): Content {
    match g
    case GivenScalar(s) => Scalar(s.value)
    case GivenList(entries) => Flow(NonEmpty(Values(entries)))
    case GivenSequence(entries, _) => BlockSeq(Values(entries))
    case GivenText(text) => BlockScalar(JoinWith(text, "\n"))
  }

  /** The items the fields add up to, each field in the item opened last. */
  function Items(puts: seq<Put>): seq<map<string, Content>> {
    if puts == [] then []
    else
      var last := puts[|puts| - 1];
      var before := Items(puts[..|puts| - 1]);
      if last.opens || before == [] then before + [map[last.key := Meaning(last.given)]]
      else before[|before| - 1 := before[|before| - 1][last.key := Meaning(last.given)]]
  }

  /** The first field opens an item, and no item is given a key twice. */
  predicate WellPut(puts: seq<Put>) {
    puts == [] ||
    var last := puts[|puts| - 1];
    var front := puts[..|puts| - 1];
    && WellPut(front) && KeyName(last.key) && Writes(last.given)
    && (last.opens || (Items(front) != [] && last.key !in Items(front)[|Items(front)| - 1]))
  }

  // -------------------------------------------------------------------- values

  lemma StartsEscape(s: string)
    ensures StartsWith(s, "\\\"") <==> |s| >= 2 && s[0] == '\\' && s[1] == '"'
  {
    if |s| >= 2 {
      assert s[..2] == [s[0], s[1]];
    }
  }

  lemma {:induction false} EscapedReads(v: string)
    ensures Unescape(Escaped(v)) == v
    ensures Escaped(v) != "" ==> Escaped(v)[0] != '"'
  {
    if v != "" {
      EscapedReads(v[1..]);
      var rest := Escaped(v[1..]);
      assert v == [v[0]] + v[1..];
      if v[0] == '"' {
        assert Escaped(v) == "\\\"" + rest && Escaped(v)[2..] == rest;
      } else {
        assert Escaped(v) == [v[0]] + rest && Escaped(v)[1..] == rest;
        StartsEscape(Escaped(v));
      }
    }
  }

  lemma {:induction false} UnescapableReads(v: string)
    requires Unescapable(v)
    ensures Unescape(v) == v
  {
    if v != "" {
      StartsEscape(v);
      assert forall i :: 0 <= i < |v[1..]| ==> v[1..][i] == v[i + 1];
      UnescapableReads(v[1..]);
      assert v == [v[0]] + v[1..];
    }
  }

  lemma {:induction false} EscapedKeeps(v: string)
    ensures OneLine(v) ==> OneLine(Escaped(v))
    ensures ',' !in v ==> ',' !in Escaped(v)
  {
    if v != "" {
      EscapedKeeps(v[1..]);
      assert v == [v[0]] + v[1..];
    }
  }

  /** However it is spelled, the value is what is read. */
  lemma SpelledReads(s: Spelled)
    requires Spellable(s)
    ensures Unquote(Spell(s)) == s.value && Trimmed(Spell(s)) && OneLine(Spell(s))
    ensures ',' !in s.value ==> ',' !in Spell(s)
    ensures Spell(s) == "" <==> s.how.Bare? && s.value == ""
  {
    hide Unescape, Escaped;
    TrimTrimmed(Spell(s));
    match s.how {
      case Bare =>
      case Quotes =>
        EscapedReads(s.value);
        EscapedKeeps(s.value);
        assert Spell(s)[1..|Spell(s)| - 1] == Escaped(s.value);
      case Apostrophes =>
        UnescapableReads(s.value);
        assert Spell(s)[1..|Spell(s)| - 1] == s.value;
    }
  }

  lemma EntriesSpell(entries: seq<Spelled>)
    requires forall s <- entries :: Spellable(s) && ',' !in s.value && Spell(s) != ""
    ensures ReadsEach(Texts(entries), Values(entries))
  {
    hide Spell, Spellable, Unquote, Trimmed, OneLine;
    forall i | 0 <= i < |entries|
      ensures EntryText(Texts(entries)[i]) && Unquote(Texts(entries)[i]) == Values(entries)[i]
    {
      assert entries[i] in entries;
      SpelledReads(entries[i]);
    }
  }

  // ----------------------------------------------------------- block sequences

  lemma EntryLineReads(text: string)
    requires OneLine(text)
    ensures ParseEntry("    - " + text) == Some(text) && !Inert("    - " + text)
  {
    var line := "    - " + text;
    assert line[..6] == "    - " && line[6..] == text && line[4] == '-';
    TrimAfterSpaces(line, 4);
    assert TrimStart(line) == line[4..];
    TrimEndKeepsFirst(line[4..]);
  }

  lemma {:induction false} BetweenReads(lines: seq<Line>, between: seq<Line>)
    requires forall l <- between :: Inert(l)
    ensures Entries(lines + between) == Entries(lines)
    decreases |between|
  {
    hide Inert, Unquote;
    if between == [] {
      assert lines + between == lines;
    } else {
      var front, last := between[..|between| - 1], between[|between| - 1];
      assert last in between && forall l <- front :: l in between;
      assert (lines + between)[..|lines + between| - 1] == lines + front;
      BetweenReads(lines, front);
    }
  }

  lemma EntryReads(lines: seq<Line>, s: Spelled)
    requires Spellable(s)
    ensures Entries(lines + ["    - " + Spell(s)]) == Entries(lines) + [s.value]
    ensures InSequence("    - " + Spell(s))
  {
    hide Spell, Spellable, Unquote, Trimmed, OneLine, Inert;
    SpelledReads(s);
    EntryLineReads(Spell(s));
    var all := lines + ["    - " + Spell(s)];
    assert all[..|all| - 1] == lines;
  }

  lemma {:induction false} SequenceReads(entries: seq<Spelled>, between: seq<Line>)
    requires (forall s <- entries :: Spellable(s)) && forall l <- between :: Inert(l)
    ensures Entries(EntryLines(Texts(entries), between)) == Values(entries)
    ensures forall l <- EntryLines(Texts(entries), between) :: InSequence(l)
    decreases |entries|
  {
    hide Spell, Spellable, Inert, Entries, ListItem;
    if entries == [] {
      NoLines();
    } else {
      var front, last := entries[..|entries| - 1], entries[|entries| - 1];
      assert last in entries && forall s <- front :: s in entries;
      SequenceReads(front, between);
      assert Texts(entries)[..|entries| - 1] == Texts(front);
      var before := EntryLines(Texts(front), between);
      EntryReads(before, last);
      BetweenReads(before + ["    - " + Spell(last)], between);
      assert Values(entries) == Values(front) + [last.value];
    }
  }

  lemma NoLines()
    ensures Entries([]) == []
  {
  }

  lemma {:induction false} SequenceRunThrough(body: seq<Line>, rest: seq<Line>)
    requires forall l <- body :: InSequence(l)
    requires rest != [] ==> !InSequence(rest[0])
    ensures SequenceRun(body + rest) == |body|
  {
    hide InSequence;
    if body == [] {
      assert body + rest == rest;
    } else {
      assert body[0] in body && forall l <- body[1..] :: l in body;
      assert (body + rest)[1..] == body[1..] + rest;
      SequenceRunThrough(body[1..], rest);
    }
  }

  // --------------------------------------------------------------- block texts

  lemma LineReads(l: string)
    requires l == "" || !Blank("    " + l)
    ensures var line := if l == "" then "" else "    " + l; InBlock(line) && Dedent(line) == l
  {
    if l != "" {
      assert ("    " + l)[..4] == "    " && ("    " + l)[4..] == l;
    }
  }

  lemma BodySnoc(lines: seq<Line>, l: Line)
    requires (forall m <- lines :: InBlock(m)) && InBlock(l)
    ensures forall m <- lines + [l] :: InBlock(m)
    ensures Body(lines + [l]) == Body(lines) + [Dedent(l)]
  {
    hide InBlock, Dedent;
    var all := lines + [l];
    assert all[..|all| - 1] == lines;
  }

  lemma {:induction false} TextReads(text: seq<string>)
    requires forall l <- text :: l == "" || !Blank("    " + l)
    ensures (forall l <- TextLines(text) :: InBlock(l)) && Body(TextLines(text)) == text
  {
    hide Blank, InBlock, Dedent, Body;
    if text == [] {
      NoBody();
    } else {
      var front, last := text[..|text| - 1], text[|text| - 1];
      assert text == front + [last];
      assert last in text && forall l <- front :: l in text;
      TextReads(front);
      LineReads(last);
      BodySnoc(TextLines(front), if last == "" then "" else "    " + last);
    }
  }

  lemma NoBody()
    ensures Body([]) == []
  {
  }

  lemma RunsEnd(after: seq<Line>)
    requires after != [] ==> Hard(after[0])
    ensures after != [] ==> !InBlock(after[0]) && !InSequence(after[0])
    ensures BlockRun(after) == 0 && SequenceRun(after) == 0
  {
    if after != [] {
      HardEndsRuns(after[0]);
    }
  }

  lemma ScalarReads(s: Spelled, after: seq<Line>)
    requires Writes(GivenScalar(s)) && (after != [] ==> Hard(after[0]))
    ensures Value(Spell(s), after) == (Scalar(s.value), 0, false)
  {
    hide Unquote, FlowEntries, Hard, InBlock, InSequence, OneLine, Trimmed, Quoted, Body, Popped;
    RunsEnd(after);
    SpelledReads(s);
    assert Spell(s) == "" ==> Entries(after[..0]) == [];
  }

  lemma ListGivenReads(entries: seq<Spelled>, after: seq<Line>)
    requires Writes(GivenList(entries))
    ensures Value(RenderList(Texts(entries)), after) == (Flow(NonEmpty(Values(entries))), 0, false)
  {
    hide Unquote, FlowEntries, OneLine, Trimmed, Spell, Spellable, ReadsEach, EntryText;
    EntriesSpell(entries);
    SpelledListReads(Texts(entries), Values(entries));
    TextsAreEntries(entries);
    RenderedListShape(Texts(entries));
  }

  lemma TextsAreEntries(entries: seq<Spelled>)
    requires ReadsEach(Texts(entries), Values(entries))
    ensures forall t <- Texts(entries) :: EntryText(t)
  {
    hide Unquote, EntryText;
    forall t | t in Texts(entries)
      ensures EntryText(t)
    {
      var i :| 0 <= i < |Texts(entries)| && Texts(entries)[i] == t;
    }
  }

  lemma SequenceGivenReads(entries: seq<Spelled>, between: seq<Line>, after: seq<Line>)
    requires Writes(GivenSequence(entries, between)) && (after != [] ==> Hard(after[0]))
    ensures var lines := EntryLines(Texts(entries), between);
            Value("", lines + after) == (BlockSeq(Values(entries)), |lines|, false)
  {
    hide Hard, InSequence, Spellable, Spell, Inert, EntryLines;
    RunsEnd(after);
    SequenceReads(entries, between);
    var lines := EntryLines(Texts(entries), between);
    SequenceRunThrough(lines, after);
    assert (lines + after)[..|lines|] == lines;
  }

  lemma TextGivenReads(text: seq<string>, after: seq<Line>)
    requires Writes(GivenText(text)) && (after != [] ==> Hard(after[0]))
    ensures Value("|", TextLines(text) + after) == (BlockScalar(JoinWith(text, "\n")), |TextLines(text)|, false)
  {
    hide Hard, InBlock, Blank, TextLines;
    RunsEnd(after);
    TextReads(text);
    BlockRunThrough(TextLines(text), after);
    assert (TextLines(text) + after)[..|TextLines(text)|] == TextLines(text);
  }

  /** A given value is read as what it means, and its lines taken with it. */
  lemma GivenReads(g: Given, after: seq<Line>)
    requires Writes(g) && (after != [] ==> Hard(after[0]))
    ensures Value(Beside(g), Under(g) + after) == (Meaning(g), |Under(g)|, false)
  {
    hide Hard, Spell, Writes, Value, EntryLines, TextLines;
    match g {
      case GivenScalar(s) =>
        assert [] + after == after;
        ScalarReads(s, after);
      case GivenList(entries) =>
        assert [] + after == after;
        ListGivenReads(entries, after);
      case GivenSequence(entries, between) => SequenceGivenReads(entries, between, after);
      case GivenText(text) => TextGivenReads(text, after);
    }
  }

  lemma BesideShape(g: Given)
    requires Writes(g)
    ensures OneLine(Beside(g)) && Trimmed(Beside(g))
  {
    hide OneLine, Trimmed, Spell, Spellable, ReadsEach, EntryText, RenderList;
    match g {
      case GivenScalar(s) => SpelledReads(s);
      case GivenList(entries) =>
        EntriesSpell(entries);
        TextsAreEntries(entries);
        RenderedListShape(Texts(entries));
      case GivenSequence(_, _) => BareShape();
      case GivenText(_) => BareShape();
    }
  }

  lemma BareShape()
    ensures OneLine("") && Trimmed("") && OneLine("|") && Trimmed("|")
  {
  }

  lemma KeyParses(lead: string, key: string, tail: string)
    requires KeyName(key) && (lead == "- " || lead == "  ")
    requires tail == ":" || (|tail| > 1 && tail[0] == ':' && tail[1] == ' ' && OneLine(tail[1..]))
    ensures ParseKey(lead + key + tail) == Some((key, Trim(tail[1..])))
  {
    hide OneLine, KeyName, Trim, Hard, Inert;
    var line := lead + key + tail;
    LeadIsHard(lead, key, tail);
    NameParts(key, tail);
    assert line[2..] == key + tail;
    assert (key + tail)[..|key|] == key && (key + tail)[|key| + 1..] == tail[1..];
    NothingToTrim();
  }

  lemma NothingToTrim()
    ensures Trim("") == ""
  {
  }

  function Tail(value: string): string {
    ":" + (if value == "" then "" else " " + value)
  }

  lemma TailReads(value: string)
    requires OneLine(value) && Trimmed(value)
    ensures var tail := Tail(value);
            (tail == ":" || (|tail| > 1 && tail[0] == ':' && tail[1] == ' ' && OneLine(tail[1..])))
            && Trim(tail[1..]) == value
  {
    hide OneLine, Trim, Trimmed;
    var tail := Tail(value);
    NothingToTrim();
    if value == "" {
      assert tail == ":" && tail[1..] == "";
    } else {
      assert tail == ":" + (" " + value) && tail[1..] == " " + value;
      LedValueTrims(value);
      LedIsOneLine(value);
    }
  }

  /** A key line says its key and what stands beside it, and ends every block above it. */
  lemma KeyLineReads(p: Put)
    requires KeyName(p.key) && Writes(p.given)
    ensures ParseKey(KeyLineOf(p)) == Some((p.key, Beside(p.given)))
    ensures Hard(KeyLineOf(p)) && (Opens(KeyLineOf(p)) <==> p.opens) && (!p.opens ==> StartsWith(KeyLineOf(p), "  "))
  {
    hide OneLine, Trimmed, Beside, Writes, KeyName, Trim, Hard, ParseKey;
    var value := Beside(p.given);
    var lead := if p.opens then "- " else "  ";
    BesideShape(p.given);
    TailReads(value);
    assert KeyLineOf(p) == lead + p.key + Tail(value);
    LeadIsHard(lead, p.key, Tail(value));
    KeyParses(lead, p.key, Tail(value));
  }

  lemma LedIsOneLine(value: string)
    requires OneLine(value)
    ensures OneLine(" " + value)
  {
  }

  lemma NameParts(key: string, tail: string)
    requires KeyName(key) && tail != "" && tail[0] == ':'
    ensures NameLength(key + tail) == |key| && |key| > 0 && NameStart((key + tail)[0])
  {
    NameLengthOf(key, tail);
  }

  lemma LeadIsHard(lead: string, key: string, tail: string)
    requires KeyName(key) && (lead == "- " || lead == "  ")
    ensures var line := lead + key + tail;
            Hard(line) && (Opens(line) <==> lead == "- ") && (lead == "  " ==> StartsWith(line, "  "))
            && StartsWith(line, lead)
  {
    var line := lead + key + tail;
    assert line[..2] == lead && line[2] == key[0];
    assert !Indented(line) by {
      assert key[0] != ' ';
    }
    if lead == "  " {
      RenderedIsHard(key, tail);
    } else {
      assert TrimStart(line) == line;
      TrimEndKeepsFirst(line);
    }
  }

  lemma DocumentStartsHard(puts: seq<Put>)
    requires puts != [] ==> KeyName(puts[0].key) && Writes(puts[0].given)
    ensures Document(puts) != [] ==> puts != [] && Hard(Document(puts)[0])
  {
    hide Hard, Writes, KeyLineOf, Under;
    if puts != [] {
      KeyLineReads(puts[0]);
    }
  }

  function TokenOf(p: Put): Token {
    Token(Entry(p.opens, p.key, Meaning(p.given), false), 1 + |Under(p.given)|)
  }

  function TokensOf(puts: seq<Put>): seq<Token> {
    if puts == [] then [] else [TokenOf(puts[0])] + TokensOf(puts[1..])
  }

  lemma HeadReads(p: Put, after: seq<Line>, inside: bool)
    requires KeyName(p.key) && Writes(p.given) && (p.opens || inside) && (after != [] ==> Hard(after[0]))
    ensures var lines := [KeyLineOf(p)] + Under(p.given) + after;
            Head(lines, inside) == TokenOf(p) && lines[TokenOf(p).size..] == after
  {
    hide ParseKey, Value, KeyLineOf, Under, Beside, Writes, Meaning, KeyName, Indented;
    KeyLineReads(p);
    GivenReads(p.given, after);
    var lines := [KeyLineOf(p)] + Under(p.given) + after;
    assert lines[0] == KeyLineOf(p) && lines[1..] == Under(p.given) + after;
  }

  lemma {:induction false} DocumentTokens(puts: seq<Put>, inside: bool)
    requires forall p <- puts :: KeyName(p.key) && Writes(p.given)
    requires puts == [] || puts[0].opens || inside
    ensures Tokens(Document(puts), inside) == TokensOf(puts)
  {
    hide Head, KeyLineOf, Under, Writes, KeyName, Meaning;
    if puts != [] {
      assert puts[0] in puts && forall p <- puts[1..] :: p in puts;
      DocumentStartsHard(puts[1..]);
      HeadReads(puts[0], Document(puts[1..]), inside);
      DocumentTokens(puts[1..], true);
    }
  }

  lemma {:induction false} TokensSnoc(puts: seq<Put>, last: Put)
    ensures TokensOf(puts + [last]) == TokensOf(puts) + [TokenOf(last)]
  {
    hide Meaning, Under;
    if puts == [] {
      assert puts + [last] == [last] && [last][1..] == [];
    } else {
      assert (puts + [last])[1..] == puts[1..] + [last];
      TokensSnoc(puts[1..], last);
    }
  }

  lemma {:induction false} WellPutEach(puts: seq<Put>)
    requires WellPut(puts)
    ensures forall p <- puts :: KeyName(p.key) && Writes(p.given)
    ensures puts != [] ==> puts[0].opens
    ensures (Items(puts) == [] <==> puts == [])
  {
    hide Writes, KeyName, Meaning;
    if puts != [] {
      WellPutEach(puts[..|puts| - 1]);
      assert puts == puts[..|puts| - 1] + [puts[|puts| - 1]];
    }
  }

  // -------------------------------------------------------------------- items

  /** One more field, recorded without an error, in the item it belongs to. */
  lemma FieldBuilds(p: Parsed, put: Put, at: nat)
    requires Clean(p) && (put.opens || (p.items != [] && put.key !in p.items[|p.items| - 1].fields))
    ensures var q := Step(p, TokenOf(put), at);
            && Clean(q)
            && (if put.opens then Views(q) == Views(p) + [map[put.key := Meaning(put.given)]]
                else Views(q) == Views(p)[|p.items| - 1 := Views(p)[|p.items| - 1][put.key := Meaning(put.given)]])
  {
    hide Meaning, Under;
    var q := Step(p, TokenOf(put), at);
    var o := if put.opens then OpenedAt(p, at) else p;
    var last := o.items[|o.items| - 1];
    var field := Field(Meaning(put.given), at, at + TokenOf(put).size - 1);
    assert q.items == o.items[..|o.items| - 1]
                      + [Item(last.fields[put.key := field], last.startLine, MaxOf(last.endLine, field.endLine))];
    assert View(q.items[|q.items| - 1]) == View(last)[put.key := Meaning(put.given)];
    if put.opens {
      assert View(last) == map[];
    }
  }

  lemma {:induction false} DocumentBuilds(puts: seq<Put>)
    requires WellPut(puts)
    ensures Clean(Build(TokensOf(puts))) && Views(Build(TokensOf(puts))) == Items(puts)
  {
    hide Writes, KeyName, Meaning, Step, TokenOf, Length;
    if puts == [] {
      assert Views(Parsed([], [])) == [];
    } else {
      var front, last := puts[..|puts| - 1], puts[|puts| - 1];
      assert puts == front + [last];
      DocumentBuilds(front);
      TokensSnoc(front, last);
      BuildSnoc(TokensOf(front), TokenOf(last));
      FieldBuilds(Build(TokensOf(front)), last, Length(TokensOf(front)));
      WellPutEach(front);
    }
  }

  /**
   * What is written is what is read. Any items with any values, on the opening line or below it,
   * bare or quoted, in lists, in block sequences and as block texts: the document parses without
   * an error to exactly those items and those values.
   */
  lemma DocumentReads(puts: seq<Put>)
    requires WellPut(puts)
    ensures Clean(Parse(Document(puts))) && Views(Parse(Document(puts))) == Items(puts)
  {
    hide Writes, KeyName, Meaning, TokenOf, Tokens, Build, Clean, Views, WellPut, Items;
    WellPutEach(puts);
    DocumentTokens(puts, false);
    DocumentBuilds(puts);
  }

  lemma TwoFieldsRead(id: string, key: string, g: Given)
    requires KeyName(key) && key != "id" && Writes(GivenScalar(Spelled(id, Bare))) && id != "" && Writes(g)
    ensures var lines := ["- id: " + id, KeyLineOf(Put(false, key, g))] + Under(g);
            Views(Parse(lines)) == [map["id" := Scalar(id), key := Meaning(g)]]
  {
    var opener, second := Put(true, "id", GivenScalar(Spelled(id, Bare))), Put(false, key, g);
    hide Parse, KeyName, Writes, Meaning, Under, KeyLineOf, Document, Views;
    TwoPut(id, key, g);
    DocumentReads([opener, second]);
    TwoLines(id, second);
  }

  lemma TwoPut(id: string, key: string, g: Given)
    requires KeyName(key) && key != "id" && Writes(GivenScalar(Spelled(id, Bare))) && Writes(g)
    ensures var puts := [Put(true, "id", GivenScalar(Spelled(id, Bare))), Put(false, key, g)];
            WellPut(puts) && Items(puts) == [map["id" := Scalar(id), key := Meaning(g)]]
  {
    hide KeyName, Writes;
    var opener, second := Put(true, "id", GivenScalar(Spelled(id, Bare))), Put(false, key, g);
    var puts := [opener, second];
    assert KeyName("id") by { IdIsKey(); }
    assert puts[..1] == [opener] && [opener][..0] == [];
    assert Items([]) == [];
    assert Items([opener]) == [map["id" := Scalar(id)]];
    assert WellPut([opener]);
    assert map["id" := Scalar(id)][key := Meaning(g)] == map["id" := Scalar(id), key := Meaning(g)];
  }

  lemma IdIsKey()
    ensures KeyName("id")
  {
  }

  lemma TwoLines(id: string, second: Put)
    requires id != ""
    ensures Document([Put(true, "id", GivenScalar(Spelled(id, Bare))), second])
         == ["- id: " + id, KeyLineOf(second)] + Under(second.given)
  {
    var opener := Put(true, "id", GivenScalar(Spelled(id, Bare)));
    assert KeyLineOf(opener) == "- id: " + id;
    hide KeyLineOf, Under;
    assert [opener, second][1..] == [second] && [second][1..] == [];
    assert Document([second]) == [KeyLineOf(second)] + Under(second.given);
    assert Under(opener.given) == [] by { NothingUnder(id); }
  }

  lemma NothingUnder(id: string)
    ensures Under(GivenScalar(Spelled(id, Bare))) == []
  {
  }

  function InQuotes(v: string): string {
    "\"" + Escaped(v) + "\""
  }

  lemma QuotedScalarIs(key: string, v: string)
    requires OneLine(v)
    ensures var g := GivenScalar(Spelled(v, Quotes));
            && Writes(g) && Under(g) == [] && Meaning(g) == Scalar(v)
            && KeyLineOf(Put(false, key, g)) == "  " + key + ": " + InQuotes(v)
  {
    hide OneLine, Escaped;
  }

  lemma OneOf(v: string)
    ensures Texts([Spelled(v, Quotes)]) == [InQuotes(v)] && Values([Spelled(v, Quotes)]) == [v]
    ensures v != "" ==> NonEmpty([v]) == [v]
    ensures RenderList([InQuotes(v)]) == "[" + InQuotes(v) + "]"
    ensures EntryLines([InQuotes(v)], []) == ["    - " + InQuotes(v)]
  {
    hide Escaped;
    assert [v][1..] == [] && NonEmpty([]) == [];
    assert [InQuotes(v)][..0] == [];
  }

  lemma QuotedListIs(key: string, v: string)
    requires OneLine(v) && v != "" && ',' !in v
    ensures var g := GivenList([Spelled(v, Quotes)]);
            && Writes(g) && Under(g) == [] && Meaning(g) == Flow([v])
            && KeyLineOf(Put(false, key, g)) == "  " + key + ": [" + InQuotes(v) + "]"
  {
    hide OneLine, Escaped, NonEmpty, RenderList, Texts, Values;
    OneOf(v);
    assert "  " + key + ": " + ("[" + InQuotes(v) + "]") == "  " + key + ": [" + InQuotes(v) + "]";
  }

  lemma QuotedSequenceIs(key: string, v: string)
    requires OneLine(v)
    ensures var g := GivenSequence([Spelled(v, Quotes)], []);
            && Writes(g) && Under(g) == ["    - " + InQuotes(v)] && Meaning(g) == BlockSeq([v])
            && KeyLineOf(Put(false, key, g)) == "  " + key + ":"
  {
    hide OneLine, Escaped, EntryLines, Texts, Values;
    OneOf(v);
  }

  /** In particular any text on one line, between double quotation marks with its own behind backslashes, as a value. */
  lemma QuotedValueReads(id: string, key: string, v: string)
    requires KeyName(key) && key != "id" && OneLine(v) && Writes(GivenScalar(Spelled(id, Bare))) && id != ""
    ensures Views(Parse(["- id: " + id, "  " + key + ": " + ("\"" + Escaped(v) + "\"")]))
         == [map["id" := Scalar(id), key := Scalar(v)]]
  {
    hide Parse, Escaped, KeyName, OneLine, Views, Writes, Under, Meaning, KeyLineOf;
    QuotedScalarIs(key, v);
    TwoFieldsRead(id, key, GivenScalar(Spelled(v, Quotes)));
    assert ["- id: " + id, "  " + key + ": " + InQuotes(v)] + [] == ["- id: " + id, "  " + key + ": " + InQuotes(v)];
  }

  /** As an entry of a list, when it is not empty and no comma is in it. */
  lemma QuotedEntryReads(id: string, key: string, v: string)
    requires KeyName(key) && key != "id" && OneLine(v) && Writes(GivenScalar(Spelled(id, Bare))) && id != ""
    requires v != "" && ',' !in v
    ensures Views(Parse(["- id: " + id, "  " + key + ": [" + ("\"" + Escaped(v) + "\"") + "]"]))
         == [map["id" := Scalar(id), key := Flow([v])]]
  {
    hide Parse, Escaped, KeyName, OneLine, Views, Writes, Under, Meaning, KeyLineOf;
    QuotedListIs(key, v);
    TwoFieldsRead(id, key, GivenList([Spelled(v, Quotes)]));
    var line := "  " + key + ": [" + InQuotes(v) + "]";
    assert ["- id: " + id, line] + [] == ["- id: " + id, line];
  }

  /** As an entry of a block sequence, whatever is in it. */
  lemma QuotedItemReads(id: string, key: string, v: string)
    requires KeyName(key) && key != "id" && OneLine(v) && Writes(GivenScalar(Spelled(id, Bare))) && id != ""
    ensures Views(Parse(["- id: " + id, "  " + key + ":", "    - " + ("\"" + Escaped(v) + "\"")]))
         == [map["id" := Scalar(id), key := BlockSeq([v])]]
  {
    hide Parse, Escaped, KeyName, OneLine, Views, Writes, Under, Meaning, KeyLineOf;
    QuotedSequenceIs(key, v);
    TwoFieldsRead(id, key, GivenSequence([Spelled(v, Quotes)], []));
    var line := "  " + key + ":";
    assert ["- id: " + id, line] + ["    - " + InQuotes(v)] == ["- id: " + id, line, "    - " + InQuotes(v)];
  }
}
