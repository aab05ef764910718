/** Small documents at which an edit does what the tracker's own comments deny. */
module TaskWitnesses {
  import opened Wrappers
  import opened TaskText
  import opened TaskSyntax
  import opened TaskTokens
  import opened TaskSurgery

  /** A field on the line that opens its item. */
  function RenderOpener(key: string, value: string): Line {
    "- " + key + ": " + value
  }

  lemma OpenerParses(key: string, value: string)
    requires KeyName(key) && OneLine(value) && Trimmed(value) && value != ""
    ensures ParseKey(RenderOpener(key, value)) == Some((key, value))
    ensures !Inert(RenderOpener(key, value)) && Opens(RenderOpener(key, value))
  {
    hide Trimmed, Trim;
    var line := RenderOpener(key, value);
    OpenerIsHard(line);
    assert line == "- " + key + (": " + value);
    assert line[2..] == key + (": " + value);
    NameLengthOf(key, ": " + value);
    assert line[2..][..|key|] == key;
    assert line[2..][|key| + 1..] == " " + value;
    LedValueTrims(value);
    assert OneLine(" " + value);
  }

  lemma OpenerIsHard(line: Line)
    requires StartsWith(line, "- ")
    ensures !Inert(line) && Opens(line)
  {
    assert line[0] == '-' && TrimStart(line) == line;
    TrimEndKeepsFirst(line);
  }

  lemma OpenerIsOneToken(key: string, value: string, rest: seq<Line>)
    requires KeyName(key) && PlainScalar(value)
    ensures Tokens([RenderOpener(key, value)] + rest, false)
         == [Token(Entry(true, key, Scalar(value), false), 1)] + Tokens(rest, true)
  {
    hide ParseKey, Inert, Opens, Unquote, FlowEntries, RenderOpener, OneLine, KeyName;
    OpenerParses(key, value);
    PlainUnquotes(value);
    var lines := [RenderOpener(key, value)] + rest;
    assert lines[0] == RenderOpener(key, value) && lines[1..] == rest;
  }

  /** A task whose first line gives a field other than its id. */
  lemma TwoLinesParse(key: string, value: string, id: string)
    requires KeyName(key) && key != "id" && PlainScalar(value) && PlainScalar(id)
    ensures Parse([RenderOpener(key, value), RenderKey("id", id)]) == Parsed(
      [Item(map[key := Field(Scalar(value), 0, 0)]["id" := Field(Scalar(id), 1, 1)], 0, 1)], [])
  {
    hide RenderOpener, RenderKey, PlainScalar, Tokens, KeyName, Build, Step;
    var opener, second := RenderOpener(key, value), RenderKey("id", id);
    assert KeyName("id") by { IdIsAName(); }
    ScalarIsWritable("id", id);
    OpenerIsOneToken(key, value, [second]);
    WritableIsOneToken("id", id, []);
    var t, u := Token(Entry(true, key, Scalar(value), false), 1), Token(Entry(false, "id", Scalar(id), false), 1);
    NoTokens();
    assert [opener] + [second] == [opener, second] && [second] + [] == [second];
    assert Tokens([opener, second], false) == [t] + ([u] + []) == [t, u];
    TwoTokensBuild(key, value, id);
  }

  lemma TwoTokensBuild(key: string, value: string, id: string)
    requires key != "id"
    ensures Build([Token(Entry(true, key, Scalar(value), false), 1), Token(Entry(false, "id", Scalar(id), false), 1)])
         == Parsed([Item(map[key := Field(Scalar(value), 0, 0)]["id" := Field(Scalar(id), 1, 1)], 0, 1)], [])
  {
    hide Build, Length;
    var t, u := Token(Entry(true, key, Scalar(value), false), 1), Token(Entry(false, "id", Scalar(id), false), 1);
    OpenerBuilds(key, value);
    BuildSnoc([t], u);
    assert [t] + [u] == [t, u];
  }

  lemma OpenerBuilds(key: string, value: string)
    ensures var t := Token(Entry(true, key, Scalar(value), false), 1);
            Build([t]) == Parsed([Item(map[key := Field(Scalar(value), 0, 0)], 0, 0)], []) && Length([t]) == 1
  {
    hide Build, Length, Tokens;
    var t := Token(Entry(true, key, Scalar(value), false), 1);
    NoTokens();
    BuildSnoc([], t);
    assert [] + [t] == [t];
    OpenerSteps(t, key, value);
  }

  lemma OpenerSteps(t: Token, key: string, value: string)
    requires t == Token(Entry(true, key, Scalar(value), false), 1)
    ensures Step(Parsed([], []), t, 0) == Parsed([Item(map[key := Field(Scalar(value), 0, 0)], 0, 0)], [])
  {
    assert [] + [Item(map[], 0, 0)] == [Item(map[], 0, 0)];
    assert map[][key := Field(Scalar(value), 0, 0)] == map[key := Field(Scalar(value), 0, 0)];
  }

  lemma IdIsAName()
    ensures KeyName("id")
  {
  }

  lemma NoTokens()
    ensures Tokens([], true) == [] && Build([]) == Parsed([], []) && Length([]) == 0
  {
  }

  /**
   * Setting a field of a task that opens with that very field destroys the task, although it reports success:
   * whatever the names and values, the document no longer parses.
   */
  lemma OpeningFieldLost(key: string, value: string, id: string, next: string, anchor: int)
    requires KeyName(key) && key != "id" && PlainScalar(value) && PlainScalar(id) && PlainScalar(next)
    requires 0 <= anchor < 2
    ensures var lines := [RenderOpener(key, value), RenderKey("id", id)];
            && Clean(Parse(lines)) && |Parse(lines).items| == 1 && IdOf(Parse(lines).items[0]) == id
            && OnItemLine(Parse(lines).items[0], key) && Standing(lines, Parse(lines).items[0])
            && Parse(lines).items[0].startLine == 0
            && var edited := ScalarSet(lines, Parse(lines).items[0], key, next, anchor);
               edited.Some? && !Clean(Parse(edited.value))
  {
    hide RenderOpener, RenderKey, PlainScalar, Tokens, KeyName, Build, Clean;
    var lines := [RenderOpener(key, value), RenderKey("id", id)];
    TwoLinesParse(key, value, id);
    assert Clean(Parse(lines)) by { IsClean(Parse(lines)); }
    var edited := lines[0 := RenderKey(key, next)];
    assert ScalarSet(lines, Parse(lines).items[0], key, next, anchor) == Some(edited);
    ScalarIsWritable(key, next);
    assert edited == [RenderKey(key, next)] + [lines[1]];
    OutsideFirst(key, next, [lines[1]]);
    OutsideFails([], Tokens(edited, false));
    assert [] + Tokens(edited, false) == Tokens(edited, false);
  }

  lemma IsClean(p: Parsed)
    requires p.errors == []
    ensures Clean(p)
  {
  }

  lemma StatusFirstText()
    ensures RenderOpener("status", "open") == "- status: open" && RenderKey("id", "T1") == "  id: T1"
    ensures RenderKey("status", "done") == "  status: done"
  {
  }

  lemma StatusFirstPlain()
    ensures KeyName("status") && PlainScalar("open") && PlainScalar("T1") && PlainScalar("done")
  {
  }

  /** One such document: a task written with its status first, marked done. */
  lemma StatusFirst()
    ensures var lines := ["- status: open", "  id: T1"];
            && Clean(Parse(lines)) && |Parse(lines).items| == 1 && IdOf(Parse(lines).items[0]) == "T1"
            && Standing(lines, Parse(lines).items[0]) && Parse(lines).items[0].startLine == 0
            && ScalarSet(lines, Parse(lines).items[0], "status", "done", 0) == Some(["  status: done", "  id: T1"])
            && !Clean(Parse(["  status: done", "  id: T1"]))
  {
    hide Parse, Clean, RenderOpener, RenderKey, PlainScalar, KeyName, IdOf;
    StatusFirstText();
    StatusFirstPlain();
    OpeningFieldLost("status", "open", "T1", "done", 0);
    TwoLinesParse("status", "open", "T1");
    assert ["- status: open", "  id: T1"][0 := "  status: done"] == ["  status: done", "  id: T1"];
  }

  // ------------------------------------------------------- a comment read as notes

  /** A comment indented as deep as a block, on the line after a task. */
  lemma CommentedParse(id: string, comment: Line)
    requires PlainScalar(id) && Indented(comment) && Comment(comment)
    ensures Parse([RenderOpener("id", id), comment]) == Parsed([Item(map["id" := Field(Scalar(id), 0, 0)], 0, 0)], [])
  {
    hide RenderOpener, PlainScalar, Tokens, KeyName, Comment, Build, Length;
    var opener := RenderOpener("id", id);
    assert KeyName("id") by { IdIsAName(); }
    OpenerIsOneToken("id", id, [comment]);
    var t, u := Token(Entry(true, "id", Scalar(id), false), 1), Token(Skip, 1);
    OneSkip(comment);
    assert [opener] + [comment] == [opener, comment];
    assert Tokens([opener, comment], false) == [t] + [u] == [t, u];
    OpenerBuilds("id", id);
    BuildSnoc([t], u);
    assert [t] + [u] == [t, u];
  }

  lemma OneSkip(comment: Line)
    requires Comment(comment)
    ensures Tokens([comment], true) == [Token(Skip, 1)]
  {
    hide Comment;
    NoTokens();
    assert Head([comment], true) == Token(Skip, 1);
    assert [comment][1..] == [];
  }

  /** The task's first note takes the comment in: the document changes to notes with another text than was written. */
  lemma CommentBecomesNotes(id: string, comment: Line, text: string)
    requires PlainScalar(id) && Indented(comment) && Comment(comment)
    ensures var lines := [RenderOpener("id", id), comment];
            var item := Item(map["id" := Field(Scalar(id), 0, 0)], 0, 0);
            var alone := Indent(SplitAt(text, '\n'));
            && Clean(Parse(lines)) && Parse(lines).items == [item] && Standing(lines, item)
            && Below(lines, item) == [comment] && NoteAppended(lines, item, text).Some?
            && (forall l <- alone :: InBlock(l))
            && !Changed(lines, NoteAppended(lines, item, text).value, 0, "notes", BlockScalar(TextOf(alone)))
  {
    hide RenderOpener, PlainScalar, Parse, TextOf, Indent, SplitAt, Changed, Comment;
    var lines := [RenderOpener("id", id), comment];
    CommentedParse(id, comment);
    CommentIsWords(comment);
    NoteAsWrittenIff(lines, 0, text);
    assert lines[1..] == [comment];
    OneInBlock(comment);
    assert comment in [comment];
  }

  lemma CommentIsWords(comment: Line)
    requires Comment(comment)
    ensures !Blank(comment)
  {
    TrimEndKeepsFirst(TrimStart(comment));
  }

  lemma OneInBlock(comment: Line)
    requires Indented(comment)
    ensures BlockRun([comment]) == 1 && [comment][..1] == [comment]
  {
    assert BlockRun([]) == 0;
  }
}
