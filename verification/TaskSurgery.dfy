/** Edits made by line surgery, and what they do to the parse of the document. */
module TaskSurgery {
  import opened Wrappers
  import opened TaskText
  import opened TaskSyntax
  import opened TaskTokens
  import Sequences

  // --------------------------------------------------------------- the edits

  function IdOf(item: Item): string {
    if "id" in item.fields && item.fields["id"].content.Scalar? then item.fields["id"].content.text else ""
  }

  const SCALAR_ORDER := ["id", "title", "milestone", "status", "owner", "estimate",
                         "risk", "started_at", "blocked_at", "done_at"]

  /** The position of a name in the canonical order, or -1. */
  function OrderOf(key: string): int {
    IndexIn(SCALAR_ORDER, key, 0)
  }

  function IndexIn(names: seq<string>, key: string, from: nat): (i: int)
    requires from <= |names|
    ensures -1 <= i < |names|
    decreases |names| - from
  {
    if from == |names| then -1 else if names[from] == key then from else IndexIn(names, key, from + 1)
  }

  /** A canonical key the new one goes after. */
  predicate Precedes(k: string, key: string) {
    OrderOf(k) != -1 && (OrderOf(key) == -1 || OrderOf(k) < OrderOf(key))
  }

  /** The line a new scalar goes after: the last one of any canonical key that precedes it. */
  ghost predicate Anchor(item: Item, key: string, at: int) {
    && item.startLine <= at
    && (at == item.startLine || exists k :: k in item.fields && Precedes(k, key) && item.fields[k].endLine == at)
    && forall k <- item.fields :: Precedes(k, key) ==> item.fields[k].endLine <= at
  }

  function Spliced(lines: seq<Line>, from: int, until: int, put: seq<Line>): seq<Line>
    requires 0 <= from <= until <= |lines|
  {
    lines[..from] + put + lines[until..]
  }

  predicate OnItemLine(item: Item, key: string) {
    key in item.fields && item.fields[key].keyLine == item.startLine
  }

  // --------------------------------------------------------- what they promise

  /** The document parses without errors to the same items, with exactly that field of that item changed. */
  ghost predicate Changed(lines: seq<Line>, edited: seq<Line>, j: nat, key: string, content: Content) {
    && j < |Parse(lines).items| && Clean(Parse(edited))
    && Views(Parse(edited)) == Views(Parse(lines))[j := View(Parse(lines).items[j])[key := content]]
  }

  lemma DifferIsChanged(lines: seq<Line>, edited: seq<Line>, j: nat, key: string, content: Content)
    requires Differ(Parse(lines), Parse(edited), j, key, content)
    ensures Changed(lines, edited, j, key, content)
  {
    hide View, Parse;
    var p, q := Parse(lines), Parse(edited);
    assert |Views(q)| == |Views(p)|;
    assert forall i :: 0 <= i < |q.items| ==> Views(q)[i] == View(q.items[i]);
  }

  /** The keys on the lines that open items. */
  function Opening(lines: seq<Line>): seq<string> {
    OpenKeys(Tokens(lines, false))
  }

  // ------------------------------------------------------------- token surgery

  /** The tokens of the document split around one of them. */
  lemma {:induction false} Around(lines: seq<Line>, n: nat) returns (a: seq<Token>, b: seq<Token>)
    requires n < |Tokens(lines, false)|
    ensures Tokens(lines, false) == a + [Tokens(lines, false)[n]] + b
    ensures a == Tokens(lines, false)[..n] && |a| == n
    ensures a + [Tokens(lines, false)[n]] == Tokens(lines, false)[..n + 1]
    ensures Length(a) + Tokens(lines, false)[n].size == Length(Tokens(lines, false)[..n + 1]) <= |lines|
  {
    var tokens := Tokens(lines, false);
    a, b := tokens[..n], tokens[n + 1..];
    assert tokens == (a + [tokens[n]]) + b;
    TokensSplit(lines, false, a + [tokens[n]], b);
    BuildSnoc(a, tokens[n]);
  }

  /** One rendered line put in after a field. */
  lemma LineInserted(lines: seq<Line>, j: nat, key: string, value: string, n: nat)
    requires Clean(Parse(lines)) && j < |Parse(lines).items| && key !in Parse(lines).items[j].fields
    requires n < |Tokens(lines, false)| && |Build(Tokens(lines, false)[..n + 1]).items| == j + 1
    requires Writable(key, value)
    ensures Length(Tokens(lines, false)[..n + 1]) <= |lines|
    ensures var p := Length(Tokens(lines, false)[..n + 1]);
            && Differ(Parse(lines), Parse(Spliced(lines, p, p, [RenderKey(key, value)])), j, key, ReadAs(value))
            && Opening(Spliced(lines, p, p, [RenderKey(key, value)])) == Opening(lines)
  {
    hide Tokens, Build, Clean, Differ, Hard, Writable, Length, ReadAs;
    var tokens := Tokens(lines, false);
    var a, b := Around(lines, n);
    var front := a + [tokens[n]];
    var p := Length(front);
    var line := RenderKey(key, value);
    var y := [line] + lines[p..];
    WritableIsHard(key, value);
    TokensSplit(lines, false, front, b);
    PrefixKept(lines, false, front, b, y);
    ItemsAreOpeners(front);
    WritableIsOneToken(key, value, lines[p..]);
    var t := Token(Entry(false, key, ReadAs(value), false), 1);
    assert Spliced(lines, p, p, [line]) == lines[..p] + y;
    assert front + ([t] + b) == front + [t] + b;
    InsertDiffers(front, t, b, j, key, ReadAs(value));
    OpenKeysAround(front, t, b);
  }

  /** A value that fills one line and reads back from it. */
  predicate Writable(key: string, value: string) {
    KeyName(key) && OneLine(value) && Trimmed(value) && value != "" && value != "|"
    && (value[0] == '[' ==> value[|value| - 1] == ']')
  }

  function ReadAs(value: string): Content
    requires value != ""
  {
    if value[0] == '[' then Flow(FlowEntries(value)) else Scalar(Unquote(value))
  }

  lemma WritableIsHard(key: string, value: string)
    requires Writable(key, value)
    ensures Hard(RenderKey(key, value)) && value != ""
  {
    RenderedKeyParses(key, value);
  }

  lemma {:induction false} WritableIsOneToken(key: string, value: string, rest: seq<Line>)
    requires Writable(key, value)
    ensures value != ""
    ensures Tokens([RenderKey(key, value)] + rest, true)
         == [Token(Entry(false, key, ReadAs(value), false), 1)] + Tokens(rest, true)
  {
    hide Tokens, ParseKey, FlowEntries, Unquote, OneLine, Trimmed, KeyName;
    RenderedKeyParses(key, value);
    OneToken(RenderKey(key, value), rest, key, value);
    assert StartsWith(value, "[") <==> value[0] == '[';
  }

  /** The lines of one field exchanged for one rendered line. */
  lemma FieldReplaced(lines: seq<Line>, j: nat, key: string, value: string, n: nat)
    requires Clean(Parse(lines)) && j < |Parse(lines).items|
    requires n < |Tokens(lines, false)| && |Build(Tokens(lines, false)[..n + 1]).items| == j + 1
    requires Tokens(lines, false)[n].shape.Entry? && Tokens(lines, false)[n].shape.key == key
    requires !Tokens(lines, false)[n].shape.opens && Writable(key, value)
    ensures Length(Tokens(lines, false)[..n]) <= Length(Tokens(lines, false)[..n + 1]) <= |lines|
    ensures var q, e := Length(Tokens(lines, false)[..n]), Length(Tokens(lines, false)[..n + 1]);
            && Differ(Parse(lines), Parse(Spliced(lines, q, e, [RenderKey(key, value)])), j, key, ReadAs(value))
            && Opening(Spliced(lines, q, e, [RenderKey(key, value)])) == Opening(lines)
  {
    hide Tokens, Build, Clean, Differ, Hard, Writable, Length, ReadAs, OpensItem;
    var tokens := Tokens(lines, false);
    var a, b := Around(lines, n);
    var q, e := Length(a), Length(a + [tokens[n]]);
    var line := RenderKey(key, value);
    var y := [line] + lines[e..];
    WritableIsHard(key, value);
    assert tokens == a + ([tokens[n]] + b);
    PrefixKept(lines, false, a, [tokens[n]] + b, y);
    TokensSplit(lines, false, a + [tokens[n]], b);
    OpenedBefore(a, tokens[n]);
    WritableIsOneToken(key, value, lines[e..]);
    var u := Token(Entry(false, key, ReadAs(value), false), 1);
    assert Spliced(lines, q, e, [line]) == lines[..q] + y;
    assert a + ([u] + b) == a + [u] + b;
    ReplaceDiffers(a, tokens[n], u, b, j, false, key, ReadAs(value));
    SameOpening(a, tokens[n], u, b);
  }

  lemma SameOpening(a: seq<Token>, t: Token, u: Token, b: seq<Token>)
    requires t.shape.Entry? && !t.shape.opens && u.shape.Entry? && !u.shape.opens
    ensures OpenKeys(a + [t] + b) == OpenKeys(a + [u] + b)
  {
    OpenKeysAround(a, t, b);
    OpenKeysAround(a, u, b);
  }

  /** An entry on a line of its own belongs to an item opened before it. */
  lemma OpenedBefore(a: seq<Token>, t: Token)
    requires Build(a + [t]).items != [] && t.shape.Entry? && !t.shape.opens
    ensures Opened(a) && Opened(a + [t])
  {
    hide Step;
    BuildSnoc(a, t);
    StepFails(Build(a), t, Length(a));
    ItemsAreOpeners(a);
    ItemsAreOpeners(a + [t]);
  }

  /** Written over the line that opens its item, the field takes the item with it. */
  lemma OpenerOverwritten(lines: seq<Line>, j: nat, key: string, value: string, n: nat)
    requires Clean(Parse(lines)) && j < |Parse(lines).items|
    requires n < |Tokens(lines, false)| && OpensItem(Tokens(lines, false)[n].shape) && Writable(key, value)
    ensures Length(Tokens(lines, false)[..n]) <= Length(Tokens(lines, false)[..n + 1]) <= |lines|
    ensures var q, e := Length(Tokens(lines, false)[..n]), Length(Tokens(lines, false)[..n + 1]);
            var edited := Parse(Spliced(lines, q, e, [RenderKey(key, value)]));
            !Clean(edited) || |edited.items| < |Parse(lines).items|
  {
    hide Tokens, Clean, Hard, Writable, Length, ReadAs, Step;
    var tokens := Tokens(lines, false);
    var a, b := Around(lines, n);
    var q, e := Length(a), Length(a + [tokens[n]]);
    var line := RenderKey(key, value);
    var y := [line] + lines[e..];
    WritableIsHard(key, value);
    assert tokens == a + ([tokens[n]] + b);
    PrefixKept(lines, false, a, [tokens[n]] + b, y);
    TokensSplit(lines, false, a + [tokens[n]], b);
    assert Opened(a + [tokens[n]]) by { assert tokens[n] in a + [tokens[n]]; }
    assert Spliced(lines, q, e, [line]) == lines[..q] + y;
    if Opened(a) {
      WritableIsOneToken(key, value, lines[e..]);
      var u := Token(Entry(false, key, ReadAs(value), false), 1);
      assert a + ([u] + b) == a + [u] + b;
      OneOpenerFewer(a, tokens[n], u, b);
    } else {
      OutsideFirst(key, value, lines[e..]);
      OutsideFails(a, Tokens(y, false));
    }
  }

  lemma OneOpenerFewer(a: seq<Token>, t: Token, u: Token, b: seq<Token>)
    requires OpensItem(t.shape) && !OpensItem(u.shape)
    ensures |Build(a + [u] + b).items| + 1 == |Build(a + [t] + b).items|
  {
    ItemsAreOpeners(a + [t] + b);
    ItemsAreOpeners(a + [u] + b);
    OpenersAcross(a + [t], b);
    OpenersAcross(a + [u], b);
    OpenersAcross(a, [t]);
    OpenersAcross(a, [u]);
    assert [t][..0] == [] && [u][..0] == [];
  }

  lemma OutsideFirst(key: string, value: string, rest: seq<Line>)
    requires Writable(key, value)
    ensures var tokens := Tokens([RenderKey(key, value)] + rest, false);
            tokens != [] && tokens[0] == Token(Outside, 1)
  {
    hide ParseKey, OneLine, Trimmed, KeyName;
    RenderedKeyParses(key, value);
    assert ([RenderKey(key, value)] + rest)[0] == RenderKey(key, value);
  }

  lemma ErrorsStay(a: seq<Token>, b: seq<Token>)
    ensures Clean(Build(a + b)) ==> Clean(Build(a))
  {
    if Clean(Build(a + b)) {
      ErrorsGrow(a, b);
    }
  }

  lemma {:induction false} OutsideFails(a: seq<Token>, rest: seq<Token>)
    requires rest != [] && rest[0] == Token(Outside, 1)
    ensures !Clean(Build(a + rest))
  {
    BuildSnoc(a, rest[0]);
    assert a + rest == (a + [rest[0]]) + rest[1..];
    ErrorsStay(a + [rest[0]], rest[1..]);
  }

  // ------------------------------------------------------------------- lists

  /** The document after `setFlowList`, or None when it dies. */
  function FlowListSet(lines: seq<Line>, item: Item, key: string, values: seq<string>): Option<seq<Line>>
    requires Standing(lines, item)
  {
    var line := RenderKey(key, RenderList(values));
    if key !in item.fields then Some(Spliced(lines, item.endLine + 1, item.endLine + 1, [line]))
    else if item.fields[key].content.BlockSeq? then None
    else Some(Spliced(lines, item.fields[key].keyLine, item.fields[key].endLine + 1, [line]))
  }

  /** The item's lines lie within the document. */
  predicate Standing(lines: seq<Line>, item: Item) {
    && 0 <= item.startLine <= item.endLine < |lines|
    && forall k <- item.fields :: item.startLine <= item.fields[k].keyLine <= item.fields[k].endLine < |lines|
  }

  lemma ItemsStand(lines: seq<Line>, j: nat)
    requires j < |Parse(lines).items|
    ensures Standing(lines, Parse(lines).items[j])
  {
    hide Tokens, Build;
    var tokens := Tokens(lines, false);
    var item := Build(tokens).items[j];
    TokensAreSized(lines, false);
    assert tokens + [] == tokens;
    TokensSplit(lines, false, tokens, []);
    StartsBefore(tokens, j);
    forall k <- item.fields
      ensures item.startLine <= item.fields[k].keyLine <= item.fields[k].endLine < |lines|
    {
      var n := FieldWasGiven(tokens, j, k);
      var a, b := Around(lines, n);
      assert tokens[n] in tokens;
    }
  }

  lemma ListIsWritable(key: string, values: seq<string>)
    requires KeyName(key) && forall v <- values :: PlainEntry(v)
    ensures Writable(key, RenderList(values)) && ReadAs(RenderList(values)) == Flow(values)
  {
    hide KeyName, PlainEntry, FlowEntries;
    PlainIsText(values);
    RenderedListShape(values);
    ListReads(values);
  }

  /**
   * Setting a list changes exactly that field, unless the field stands on the line that opens its item;
   * then it never does.
   */
  lemma FlowListCommutes(lines: seq<Line>, j: nat, key: string, values: seq<string>)
    requires Clean(Parse(lines)) && j < |Parse(lines).items|
    requires KeyName(key) && forall v <- values :: PlainEntry(v)
    ensures Standing(lines, Parse(lines).items[j])
    ensures var item := Parse(lines).items[j];
            var edited := FlowListSet(lines, item, key, values);
            edited.Some? ==>
              && (Changed(lines, edited.value, j, key, Flow(values)) <==> !OnItemLine(item, key))
              && (!OnItemLine(item, key) ==> Opening(edited.value) == Opening(lines))
  {
    hide Tokens, Build, Writable, Differ, Clean, ReadAs, Standing, Opening;
    ItemsStand(lines, j);
    ListIsWritable(key, values);
    TokensAreSized(lines, false);
    var tokens, item := Tokens(lines, false), Parse(lines).items[j];
    if key !in item.fields {
      var last := ItemEndsWithField(tokens, j);
      var n := FieldWasGiven(tokens, j, last);
      LineInserted(lines, j, key, RenderList(values), n);
      DifferIsChanged(lines, FlowListSet(lines, item, key, values).value, j, key, Flow(values));
    } else if !item.fields[key].content.BlockSeq? {
      var n := FieldWasGiven(tokens, j, key);
      FieldOverwritten(lines, j, key, RenderList(values), n);
    }
  }

  /** Both cases of writing one line over a field. */
  lemma FieldOverwritten(lines: seq<Line>, j: nat, key: string, value: string, n: nat)
    requires Clean(Parse(lines)) && j < |Parse(lines).items| && Gave(Tokens(lines, false), n, j, key)
    requires Writable(key, value)
    ensures var field := Parse(lines).items[j].fields[key];
            && 0 <= field.keyLine <= field.endLine + 1 <= |lines|
            && var edited := Spliced(lines, field.keyLine, field.endLine + 1, [RenderKey(key, value)]);
               && (Changed(lines, edited, j, key, ReadAs(value)) <==> !OnItemLine(Parse(lines).items[j], key))
               && (!OnItemLine(Parse(lines).items[j], key) ==> Opening(edited) == Opening(lines))
  {
    hide Tokens, Build, Writable, Differ, Clean, ReadAs, Opening, Changed;
    var tokens, item := Tokens(lines, false), Parse(lines).items[j];
    var a, b := Around(lines, n);
    var field := item.fields[key];
    WritableIsHard(key, value);
    var edited := Spliced(lines, field.keyLine, field.endLine + 1, [RenderKey(key, value)]);
    if tokens[n].shape.opens {
      OpenerOverwritten(lines, j, key, value, n);
      LengthsDiffer(lines, edited, j, key, ReadAs(value));
    } else {
      FieldReplaced(lines, j, key, value, n);
      DifferIsChanged(lines, edited, j, key, ReadAs(value));
    }
  }

  lemma LengthsDiffer(lines: seq<Line>, edited: seq<Line>, j: nat, key: string, content: Content)
    requires !Clean(Parse(edited)) || |Parse(edited).items| < |Parse(lines).items|
    ensures !Changed(lines, edited, j, key, content)
  {
    hide Parse, View;
    assert |Views(Parse(edited))| == |Parse(edited).items|;
    assert |Views(Parse(lines))| == |Parse(lines).items|;
  }

  // ----------------------------------------------------------------- scalars

  /** The document after `setScalar` with the anchor the loop found, or None when it dies. */
  function ScalarSet(lines: seq<Line>, item: Item, key: string, value: string, anchor: int): Option<seq<Line>>
    requires Standing(lines, item) && item.startLine <= anchor < |lines|
  {
    var line := RenderKey(key, value);
    if key !in item.fields then Some(Spliced(lines, anchor + 1, anchor + 1, [line]))
    else if !item.fields[key].content.Scalar? then None
    else Some(lines[item.fields[key].keyLine := line])
  }

  lemma ScalarIsWritable(key: string, value: string)
    requires KeyName(key) && PlainScalar(value)
    ensures Writable(key, value) && ReadAs(value) == Scalar(value)
  {
    hide KeyName, OneLine;
    PlainUnquotes(value);
  }

  /** A scalar takes one line. */
  lemma {:induction false} ScalarsAreSingle(lines: seq<Line>, inside: bool, n: nat)
    requires n < |Tokens(lines, inside)|
    requires Tokens(lines, inside)[n].shape.Entry? && Tokens(lines, inside)[n].shape.content.Scalar?
    ensures Tokens(lines, inside)[n].size == 1
    decreases n
  {
    hide Head;
    var t := Head(lines, inside);
    if n > 0 {
      ScalarsAreSingle(lines[t.size..], inside || OpensItem(t.shape), n - 1);
    } else {
      ScalarHeadIsSingle(lines, inside);
    }
  }

  lemma ScalarHeadIsSingle(lines: seq<Line>, inside: bool)
    requires lines != []
    requires Head(lines, inside).shape.Entry? && Head(lines, inside).shape.content.Scalar?
    ensures Head(lines, inside).size == 1
  {
    hide ParseKey, Inert, Body, Popped, Entries, FlowEntries, Unquote;
  }

  lemma AnchorIsAField(item: Item, key: string, anchor: int) returns (k: string)
    requires Anchor(item, key, anchor) && "id" in item.fields && key !in item.fields
    requires item.startLine <= item.fields["id"].endLine
    ensures k in item.fields && item.fields[k].endLine == anchor
  {
    IdComesFirst(key);
    if anchor == item.startLine {
      k := "id";
    } else {
      k :| k in item.fields && Precedes(k, key) && item.fields[k].endLine == anchor;
    }
  }

  lemma IdComesFirst(key: string)
    requires key != "id"
    ensures Precedes("id", key)
  {
    assert SCALAR_ORDER[0] == "id";
    assert IndexIn(SCALAR_ORDER, key, 0) == IndexIn(SCALAR_ORDER, key, 1);
    NotBefore(key, 1);
  }

  lemma {:induction false} NotBefore(key: string, from: nat)
    requires from <= |SCALAR_ORDER|
    ensures IndexIn(SCALAR_ORDER, key, from) == -1 || IndexIn(SCALAR_ORDER, key, from) >= from
    decreases |SCALAR_ORDER| - from
  {
    if from < |SCALAR_ORDER| && SCALAR_ORDER[from] != key {
      NotBefore(key, from + 1);
    }
  }

  lemma ScalarInserted(lines: seq<Line>, j: nat, key: string, value: string, anchor: int)
    requires Clean(Parse(lines)) && j < |Parse(lines).items| && "id" in Parse(lines).items[j].fields
    requires Writable(key, value) && Anchor(Parse(lines).items[j], key, anchor)
    requires key !in Parse(lines).items[j].fields
    ensures 0 <= anchor + 1 <= |lines|
    ensures Changed(lines, Spliced(lines, anchor + 1, anchor + 1, [RenderKey(key, value)]), j, key, ReadAs(value))
  {
    hide Tokens, Build, Writable, Differ, Clean, ReadAs, Precedes, Anchor;
    TokensAreSized(lines, false);
    WritableIsHard(key, value);
    var tokens, item := Tokens(lines, false), Parse(lines).items[j];
    ItemsStand(lines, j);
    var k := AnchorIsAField(item, key, anchor);
    var n := FieldWasGiven(tokens, j, k);
    LineInserted(lines, j, key, value, n);
    DifferIsChanged(lines, Spliced(lines, anchor + 1, anchor + 1, [RenderKey(key, value)]), j, key, ReadAs(value));
  }

  lemma ScalarOverwritten(lines: seq<Line>, j: nat, key: string, value: string)
    requires Clean(Parse(lines)) && j < |Parse(lines).items| && key in Parse(lines).items[j].fields
    requires Writable(key, value) && Parse(lines).items[j].fields[key].content.Scalar?
    ensures var at := Parse(lines).items[j].fields[key].keyLine;
            && value != "" && at < |lines|
            && (Changed(lines, lines[at := RenderKey(key, value)], j, key, ReadAs(value))
                <==> !OnItemLine(Parse(lines).items[j], key))
  {
    hide Parse, Writable, Clean, ReadAs, Changed, OnItemLine;
    WritableIsHard(key, value);
    var at := Parse(lines).items[j].fields[key].keyLine;
    var n := ScalarFieldIsSingle(lines, j, key);
    FieldOverwritten(lines, j, key, value, n);
    assert lines[at := RenderKey(key, value)] == Spliced(lines, at, at + 1, [RenderKey(key, value)]);
  }

  lemma ScalarFieldIsSingle(lines: seq<Line>, j: nat, key: string) returns (n: nat)
    requires j < |Parse(lines).items| && key in Parse(lines).items[j].fields
    requires Parse(lines).items[j].fields[key].content.Scalar?
    ensures Gave(Tokens(lines, false), n, j, key)
    ensures Parse(lines).items[j].fields[key].endLine == Parse(lines).items[j].fields[key].keyLine
  {
    hide Tokens, Build;
    var tokens := Tokens(lines, false);
    TokensAreSized(lines, false);
    n := FieldWasGiven(tokens, j, key);
    ScalarsAreSingle(lines, false, n);
    BuildSnoc(tokens[..n], tokens[n]);
    assert tokens[..n] + [tokens[n]] == tokens[..n + 1];
  }

  /**
   * Setting a scalar, put in after the canonical keys before it or written over the one there is, changes
   * exactly that field, unless the field stands on the line that opens its item; then it never does.
   */
  lemma ScalarCommutes(lines: seq<Line>, j: nat, key: string, value: string, anchor: int)
    requires Clean(Parse(lines)) && j < |Parse(lines).items| && "id" in Parse(lines).items[j].fields
    requires KeyName(key) && PlainScalar(value) && Anchor(Parse(lines).items[j], key, anchor)
    ensures Standing(lines, Parse(lines).items[j]) && anchor < |lines|
    ensures var item := Parse(lines).items[j];
            var edited := ScalarSet(lines, item, key, value, anchor);
            edited.Some? ==> (Changed(lines, edited.value, j, key, Scalar(value)) <==> !OnItemLine(item, key))
  {
    hide Tokens, Build, Writable, Clean, ReadAs, Changed, Precedes, PlainScalar, KeyName, Parse;
    ItemsStand(lines, j);
    ScalarIsWritable(key, value);
    var item := Parse(lines).items[j];
    AnchorStands(lines, item, key, anchor);
    if key !in item.fields {
      ScalarInserted(lines, j, key, value, anchor);
    } else if item.fields[key].content.Scalar? {
      ScalarOverwritten(lines, j, key, value);
    }
  }

  lemma AnchorStands(lines: seq<Line>, item: Item, key: string, anchor: int)
    requires Standing(lines, item) && Anchor(item, key, anchor)
    ensures anchor < |lines|
  {
  }

  // ------------------------------------------------------------------- notes

  function Indent(parts: seq<string>): seq<Line> {
    if parts == [] then [] else ["    " + parts[0]] + Indent(parts[1..])
  }

  const NOTES: Line := "  notes: |"

  /** The document after `appendNote`, or None when it dies. */
  function NoteAppended(lines: seq<Line>, item: Item, text: string): Option<seq<Line>>
    requires Standing(lines, item)
  {
    var body := Indent(SplitAt(text, '\n'));
    if "notes" !in item.fields then Some(Spliced(lines, item.endLine + 1, item.endLine + 1, [NOTES] + body))
    else if !item.fields["notes"].content.BlockScalar? then None
    else Some(Spliced(lines, item.fields["notes"].endLine + 1, item.fields["notes"].endLine + 1, body))
  }

  lemma {:induction false} IndentIsBlock(parts: seq<string>)
    ensures |Indent(parts)| == |parts| && forall l <- Indent(parts) :: Indented(l)
  {
    if parts != [] {
      IndentIsBlock(parts[1..]);
      assert ("    " + parts[0])[..4] == "    ";
    }
  }

  lemma {:induction false} BlockRunThrough(body: seq<Line>, rest: seq<Line>)
    requires forall l <- body :: InBlock(l)
    ensures BlockRun(body + rest) == |body| + BlockRun(rest)
  {
    hide InBlock;
    if body == [] {
      assert body + rest == rest;
    } else {
      assert body[0] in body && forall l <- body[1..] :: l in body;
      assert (body + rest)[1..] == body[1..] + rest;
      BlockRunThrough(body[1..], rest);
    }
  }

  lemma {:induction false} BlockRunStops(lines: seq<Line>)
    ensures BlockRun(lines[BlockRun(lines)..]) == 0
  {
    hide InBlock;
    if lines != [] && InBlock(lines[0]) {
      BlockRunStops(lines[1..]);
      assert lines[1..][BlockRun(lines[1..])..] == lines[BlockRun(lines)..];
    } else {
      assert lines[0..] == lines;
    }
  }

  /** The text of a block whose lines these are. */
  function TextOf(body: seq<Line>): string
    requires forall l <- body :: InBlock(l)
  {
    JoinWith(Popped(Body(body)), "\n")
  }

  /** A key line whose value is a block, and the block after it. */
  lemma BlockHead(line: Line, body: seq<Line>, rest: seq<Line>, inside: bool, key: string)
    requires ParseKey(line) == Some((key, "|")) && !Inert(line) && (Opens(line) || (StartsWith(line, "  ") && inside))
    requires (forall l <- body :: InBlock(l)) && BlockRun(rest) == 0
    ensures Head([line] + body + rest, inside)
         == Token(Entry(Opens(line), key, BlockScalar(TextOf(body)), false), 1 + |body|)
  {
    hide ParseKey, Inert, InBlock, Body, Popped, Opens;
    var all := [line] + body + rest;
    assert all[0] == line && all[1..] == body + rest;
    BlockRunThrough(body, rest);
    assert (body + rest)[..|body|] == body;
  }

  lemma KeyLineIsHard(line: Line)
    requires ParseKey(line).Some? && !Inert(line)
    ensures Hard(line) && (Opens(line) || StartsWith(line, "  "))
  {
    if Indented(line) {
      IndentedIsNoKey(line);
    }
  }

  lemma IndentedIsNoKey(line: Line)
    requires Indented(line)
    ensures ParseKey(line) == None
  {
    assert line[..4] == "    ";
    assert line[2..][0] == line[..4][2] == ' ';
  }

  /** The lines of a block-scalar token: its key line, and the block under it. */
  lemma BlockTokenLines(lines: seq<Line>, inside: bool)
    requires lines != [] && Head(lines, inside).shape.Entry? && Head(lines, inside).shape.content.BlockScalar?
    ensures var t := Head(lines, inside);
            && ParseKey(lines[0]) == Some((t.shape.key, "|")) && !Inert(lines[0])
            && t.shape.opens == Opens(lines[0]) && (Opens(lines[0]) || (StartsWith(lines[0], "  ") && inside))
            && (forall l <- lines[1..t.size] :: InBlock(l)) && BlockRun(lines[t.size..]) == 0
            && t.shape.content == BlockScalar(TextOf(lines[1..t.size]))
  {
    hide ParseKey, Inert, InBlock, Body, Popped, Entries, FlowEntries, Unquote, Opens;
    var rest := lines[1..];
    BlockRunIsRun(rest);
    BlockRunStops(rest);
    var t := Head(lines, inside);
    assert lines[1..t.size] == rest[..BlockRun(rest)];
    assert lines[t.size..] == rest[BlockRun(rest)..];
  }

  /** The text of a body and more lines under it begins with the text of the body. */
  lemma {:induction false} PoppedGrows(a: seq<string>, b: seq<string>)
    ensures Popped(a) <= Popped(a + b)
    decreases |b|
  {
    if b == [] {
      assert a + b == a;
    } else if b[|b| - 1] == "" {
      assert (a + b)[..|a + b| - 1] == a + b[..|b| - 1];
      PoppedGrows(a, b[..|b| - 1]);
    } else {
      PoppedIsPrefix(a);
    }
  }

  lemma {:induction false} PoppedIsPrefix(a: seq<string>)
    ensures Popped(a) <= a
  {
    if a != [] && a[|a| - 1] == "" {
      PoppedIsPrefix(a[..|a| - 1]);
    }
  }

  lemma {:induction false} JoinGrows(a: seq<string>, b: seq<string>)
    requires a <= b
    ensures JoinWith(a, "\n") <= JoinWith(b, "\n")
  {
    if |a| > 1 {
      assert a[1..] <= b[1..] && a[0] == b[0];
      JoinGrows(a[1..], b[1..]);
    }
  }

  lemma {:induction false} BodyAcross(a: seq<Line>, b: seq<Line>)
    requires (forall l <- a :: InBlock(l)) && forall l <- b :: InBlock(l)
    ensures forall l <- a + b :: InBlock(l)
    ensures Body(a + b) == Body(a) + Body(b)
    decreases |b|
  {
    hide InBlock, Dedent;
    if b == [] {
      assert a + b == a;
    } else {
      var front, last := b[..|b| - 1], b[|b| - 1];
      assert a + b == (a + front) + [last] && (a + b)[..|a + b| - 1] == a + front;
      assert last in b && forall l <- front :: l in b;
      BodyAcross(a, front);
      Sequences.Associative(Body(a), Body(front), [Dedent(last)]);
    }
  }

  /** What a note's lines come to in a block: a line of white space only is a blank one. */
  function Written(parts: seq<string>): seq<string> {
    if parts == [] then []
    else Written(parts[..|parts| - 1]) + [if Blank("    " + parts[|parts| - 1]) then "" else parts[|parts| - 1]]
  }

  lemma {:induction false} IndentSnoc(parts: seq<string>)
    requires parts != []
    ensures Indent(parts) == Indent(parts[..|parts| - 1]) + ["    " + parts[|parts| - 1]]
  {
    if |parts| > 1 {
      IndentSnoc(parts[1..]);
      assert parts[1..][..|parts| - 2] == parts[..|parts| - 1][1..];
    }
  }

  lemma {:induction false} BodyOfIndent(parts: seq<string>)
    ensures forall l <- Indent(parts) :: InBlock(l)
    ensures Body(Indent(parts)) == Written(parts)
    decreases |parts|
  {
    hide Blank;
    IndentIsBlock(parts);
    if parts != [] {
      var front, last := parts[..|parts| - 1], parts[|parts| - 1];
      IndentSnoc(parts);
      BodyOfIndent(front);
      assert Indent(parts)[..|Indent(parts)| - 1] == Indent(front);
      assert ("    " + last)[4..] == last;
    }
  }

  /** The block's lines in the document, without the key line above them. */
  function BlockLines(lines: seq<Line>, field: Field): seq<Line>
    requires field.keyLine <= field.endLine < |lines|
  {
    lines[field.keyLine + 1..field.endLine + 1]
  }

  /** The text `appendNote` leaves when there are notes already. */
  function Extended(body: seq<Line>, text: string): string
    requires forall l <- body :: InBlock(l)
  {
    JoinWith(Popped(Body(body) + Written(SplitAt(text, '\n'))), "\n")
  }

  predicate IsBlock(t: Token) {
    t.shape.Entry? && t.shape.content.BlockScalar? && t.size >= 1
  }

  /** The token with the block's lines and more under them. */
  function Lengthened(t: Token, under: seq<Line>): Token
    requires IsBlock(t) && forall l <- under :: InBlock(l)
  {
    Token(Entry(t.shape.opens, t.shape.key, BlockScalar(TextOf(under)), false), 1 + |under|)
  }

  /** Lines put at the end of a block at the head of the document lengthen it and leave the rest alone. */
  lemma HeadLengthens(rest: seq<Line>, inside: bool, t: Token, b: seq<Token>, body: seq<Line>)
    requires Tokens(rest, inside) == [t] + b && IsBlock(t) && forall l <- body :: InBlock(l)
    ensures t.size <= |rest| && Hard(rest[0]) && (forall l <- rest[1..t.size] + body :: InBlock(l))
    ensures t.shape.content == BlockScalar(TextOf(rest[1..t.size]))
    ensures Tokens(rest[..t.size] + body + rest[t.size..], inside) == [Lengthened(t, rest[1..t.size] + body)] + b
  {
    hide Head, Hard, Inert, InBlock, ParseKey, Opens, Body, Popped, Tokens;
    FirstToken(rest, inside, t, b);
    BlockTokenLines(rest, inside);
    KeyLineIsHard(rest[0]);
    var under := rest[1..t.size] + body;
    var y := [rest[0]] + under + rest[t.size..];
    assert rest[..t.size] + body + rest[t.size..] == y;
    BlockHead(rest[0], under, rest[t.size..], inside, t.shape.key);
    assert y[1 + |under|..] == rest[t.size..];
    HeadThen(y, inside, Lengthened(t, under), b);
  }

  /** The same in the middle of a document; `q` is the line the token stands on and `under` its lines below that. */
  lemma NoteLengthens(lines: seq<Line>, a: seq<Token>, t: Token, b: seq<Token>, body: seq<Line>)
    returns (q: nat, under: seq<Line>)
    requires Tokens(lines, false) == a + [t] + b && IsBlock(t) && forall l <- body :: InBlock(l)
    ensures q == Length(a) && q + t.size <= |lines| && under == lines[q + 1..q + t.size]
    ensures forall l <- under + body :: InBlock(l)
    ensures forall l <- under :: InBlock(l)
    ensures t.shape.content == BlockScalar(TextOf(under))
    ensures Tokens(Spliced(lines, q + t.size, q + t.size, body), false) == a + [Lengthened(t, under + body)] + b
  {
    hide Head, Hard, Inert, InBlock, ParseKey, Opens, Length, Tokens, TextOf;
    assert a + [t] + b == a + ([t] + b);
    TokensSplit(lines, false, a, [t] + b);
    var rest := lines[Length(a)..];
    q := Length(a);
    HeadLengthens(rest, Opened(a), t, b, body);
    under := rest[1..t.size];
    assert under == lines[q + 1..q + t.size];
    assert forall l <- under :: l in under + body;
    var y := rest[..t.size] + body + rest[t.size..];
    PrefixKept(lines, false, a, [t] + b, y);
    assert Spliced(lines, q + t.size, q + t.size, body) == lines[..q] + y;
    assert a + ([Lengthened(t, under + body)] + b) == a + [Lengthened(t, under + body)] + b;
  }

  lemma FirstToken(lines: seq<Line>, inside: bool, t: Token, b: seq<Token>)
    requires Tokens(lines, inside) == [t] + b
    ensures lines != [] && Head(lines, inside) == t && Tokens(lines[t.size..], inside || OpensItem(t.shape)) == b
  {
    hide Head;
    assert ([t] + b)[0] == t && ([t] + b)[1..] == b;
  }

  /** Appending to notes extends their text and nothing else, wherever the notes stand. */
  lemma NoteExtends(lines: seq<Line>, j: nat, text: string)
    requires Clean(Parse(lines)) && j < |Parse(lines).items| && "notes" in Parse(lines).items[j].fields
    requires Parse(lines).items[j].fields["notes"].content.BlockScalar?
    ensures Standing(lines, Parse(lines).items[j])
    ensures var item := Parse(lines).items[j];
            var under := BlockLines(lines, item.fields["notes"]);
            && NoteAppended(lines, item, text).Some?
            && (forall l <- under :: InBlock(l))
            && Changed(lines, NoteAppended(lines, item, text).value, j, "notes", BlockScalar(Extended(under, text)))
            && item.fields["notes"].content.text <= Extended(under, text)
  {
    hide Tokens, Build, Clean, Differ, InBlock, Body, Popped, Length, Indent, SplitAt;
    ItemsStand(lines, j);
    TokensAreSized(lines, false);
    var tokens, item := Tokens(lines, false), Parse(lines).items[j];
    var parts := SplitAt(text, '\n');
    var body := Indent(parts);
    BodyOfIndent(parts);
    var n := FieldWasGiven(tokens, j, "notes");
    var a, b := Around(lines, n);
    var t := tokens[n];
    assert t in tokens;
    var q, under := NoteLengthens(lines, a, t, b, body);
    assert under == BlockLines(lines, item.fields["notes"]);
    BodyAcross(under, body);
    PoppedGrows(Body(under), Written(parts));
    JoinGrows(Popped(Body(under)), Popped(Body(under) + Written(parts)));
    var u := Lengthened(t, under + body);
    assert u.shape == Entry(t.shape.opens, "notes", BlockScalar(Extended(under, text)), false);
    ReplaceDiffers(a, t, u, b, j, t.shape.opens, "notes", BlockScalar(Extended(under, text)));
    DifferIsChanged(lines, NoteAppended(lines, item, text).value, j, "notes", BlockScalar(Extended(under, text)));
  }

  /** The lines a new block of notes would run on through were all being skipped. */
  lemma {:induction false} SwallowedAreSkips(a: seq<Token>, m: seq<Line>) returns (s: seq<Token>)
    requires Clean(Build(a + Tokens(m, true)))
    ensures AllSkips(s) && Tokens(m, true) == s + Tokens(m[BlockRun(m)..], true)
    decreases |m|
  {
    hide Build, Clean;
    if m == [] || !InBlock(m[0]) {
      s := [];
      assert m[0..] == m && s + Tokens(m, true) == Tokens(m, true);
    } else {
      var t, rest := Head(m, true), Tokens(m[1..], true);
      InBlockIsSkipped(a, m);
      assert a + ([t] + rest) == (a + [t]) + rest;
      var more := SwallowedAreSkips(a + [t], m[1..]);
      s := [t] + more;
      assert m[1..][BlockRun(m[1..])..] == m[BlockRun(m)..];
      assert [t] + (more + Tokens(m[BlockRun(m)..], true)) == s + Tokens(m[BlockRun(m)..], true);
    }
  }

  lemma InBlockIsSkipped(a: seq<Token>, m: seq<Line>)
    requires m != [] && InBlock(m[0]) && Clean(Build(a + Tokens(m, true)))
    ensures Head(m, true) == Token(Skip, 1)
  {
    hide Build, Step;
    var t := Head(m, true);
    var rest := Tokens(m[t.size..], true || OpensItem(t.shape));
    assert a + ([t] + rest) == (a + [t]) + rest;
    ErrorsGrow(a + [t], rest);
    if !Inert(m[0]) {
      IndentedHead(m);
      BadKeyFails(a, t);
    }
  }

  lemma IndentedHead(m: seq<Line>)
    requires m != [] && Indented(m[0]) && !Inert(m[0])
    ensures Head(m, true) == Token(BadKey(false), 1)
  {
    hide Inert;
    IndentedIsNoKey(m[0]);
    assert m[0][..4] == "    ";
    assert m[0][0] == m[0][..4][0] == ' ' && m[0][1] == m[0][..4][1] == ' ';
  }

  lemma BadKeyFails(a: seq<Token>, t: Token)
    requires t == Token(BadKey(false), 1)
    ensures !Clean(Build(a + [t]))
  {
    BuildSnoc(a, t);
  }

  lemma {:induction false} NotesLine()
    ensures ParseKey(NOTES) == Some(("notes", "|")) && !Inert(NOTES) && Hard(NOTES)
    ensures StartsWith(NOTES, "  ") && !Opens(NOTES)
  {
    hide ParseKey, Inert, Indented;
    assert RenderKey("notes", "|") == NOTES;
    RenderedKeyParses("notes", "|");
  }

  /** What is put into a document when a task has no notes yet, and the tokens that makes. */
  lemma NotesPut(
    lines: seq<Line>, front: seq<Token>, b: seq<Token>, body: seq<Line>) returns (s: seq<Token>, rest: seq<Token>)
    requires Tokens(lines, false) == front + b && Opened(front) && Clean(Parse(lines))
    requires forall l <- body :: InBlock(l)
    ensures var p := Length(front);
            && p <= |lines| && b == s + rest && AllSkips(s)
            && var under := body + lines[p..][..BlockRun(lines[p..])];
               && (forall l <- under :: InBlock(l))
               && Tokens(Spliced(lines, p, p, [NOTES] + body), false)
                    == front + [Token(Entry(false, "notes", BlockScalar(TextOf(under)), false), 1 + |under|)] + rest
  {
    hide Head, Hard, Inert, InBlock, ParseKey, Opens, Length, Tokens, TextOf, Build, Clean, Opened;
    TokensSplit(lines, false, front, b);
    var p, after := Length(front), lines[Length(front)..];
    var w := BlockRun(after);
    s := SwallowedAreSkips(front, after);
    rest := Tokens(after[w..], true);
    BlockRunIsRun(after);
    BlockRunStops(after);
    var under := body + after[..w];
    NotesLine();
    BlockHead(NOTES, under, after[w..], true, "notes");
    var y := [NOTES] + under + after[w..];
    assert y == [NOTES] + body + after;
    PrefixKept(lines, false, front, b, y);
    var t := Token(Entry(false, "notes", BlockScalar(TextOf(under)), false), 1 + |under|);
    assert y[1 + |under|..] == after[w..];
    HeadThen(y, true, t, rest);
    assert Spliced(lines, p, p, [NOTES] + body) == lines[..p] + y;
    assert front + ([t] + rest) == front + [t] + rest;
  }

  /** The lines below the item that new notes would run on through: blank ones, and deeply indented comments. */
  function Below(lines: seq<Line>, item: Item): seq<Line>
    requires Standing(lines, item)
  {
    lines[item.endLine + 1..][..BlockRun(lines[item.endLine + 1..])]
  }

  /**
   * A first note adds the notes and changes nothing else; its text is what was written, followed by any
   * comment below the item that is indented as far as the block.
   */
  lemma NoteBegins(lines: seq<Line>, j: nat, text: string)
    requires Clean(Parse(lines)) && j < |Parse(lines).items| && "notes" !in Parse(lines).items[j].fields
    ensures Standing(lines, Parse(lines).items[j])
    ensures var item := Parse(lines).items[j];
            var under := Indent(SplitAt(text, '\n')) + Below(lines, item);
            && NoteAppended(lines, item, text).Some?
            && (forall l <- under :: InBlock(l))
            && Changed(lines, NoteAppended(lines, item, text).value, j, "notes", BlockScalar(TextOf(under)))
  {
    hide Tokens, Build, Clean, Differ, InBlock, TextOf, Length, Indent, SplitAt, Opened, BlockRun, Body, Written, View;
    ItemsStand(lines, j);
    TokensAreSized(lines, false);
    var tokens, item := Tokens(lines, false), Parse(lines).items[j];
    var parts := SplitAt(text, '\n');
    BodyOfIndent(parts);
    var last := ItemEndsWithField(tokens, j);
    var n := FieldWasGiven(tokens, j, last);
    var a, b := Around(lines, n);
    var front := a + [tokens[n]];
    ItemsAreOpeners(front);
    BuildSnoc(a, tokens[n]);
    EntryPresent(Build(a), tokens[n], Length(a));
    var s, rest := NotesPut(lines, front, b, Indent(parts));
    var under := Indent(parts) + Below(lines, item);
    NotesDiffer(front, s, rest, j, last, BlockScalar(TextOf(under)), 1 + |under|);
    var edited := NoteAppended(lines, item, text).value;
    ViewsChange(lines, edited, Build(front + rest), j, "notes", BlockScalar(TextOf(under)));
  }

  lemma {:induction false} BlanksArePopped(a: seq<string>, b: seq<string>)
    requires forall s <- b :: s == ""
    ensures Popped(a + b) == Popped(a)
    decreases |b|
  {
    if b == [] {
      assert a + b == a;
    } else {
      var front := b[..|b| - 1];
      assert (a + b)[..|a + b| - 1] == a + front && b[|b| - 1] in b;
      forall s | s in front
        ensures s == ""
      {
        assert s in b;
      }
      BlanksArePopped(a, front);
    }
  }

  lemma {:induction false} WordsAreKept(a: seq<string>, b: seq<string>)
    requires exists s :: s in b && s != ""
    ensures |Popped(a + b)| > |a| && Popped(a + b)[|Popped(a + b)| - 1] != ""
    decreases |b|
  {
    if b[|b| - 1] == "" {
      assert (a + b)[..|a + b| - 1] == a + b[..|b| - 1];
      assert b == b[..|b| - 1] + [b[|b| - 1]];
      WordsAreKept(a, b[..|b| - 1]);
    }
  }

  lemma {:induction false} JoinLonger(a: seq<string>, b: seq<string>)
    requires a <= b && |a| < |b| && b[|b| - 1] != ""
    ensures |JoinWith(a, "\n")| < |JoinWith(b, "\n")|
  {
    if |a| > 1 {
      assert a[1..] <= b[1..] && a[0] == b[0];
      JoinLonger(a[1..], b[1..]);
    } else if |b| > 1 {
      JoinHasLast(b);
    }
  }

  lemma {:induction false} JoinHasLast(parts: seq<string>)
    requires |parts| > 1
    ensures |JoinWith(parts, "\n")| > |parts[0]|
  {
  }

  lemma {:induction false} BodyWords(below: seq<Line>)
    requires forall l <- below :: InBlock(l)
    ensures (forall s <- Body(below) :: s == "") <==> (forall l <- below :: Blank(l))
  {
    hide Blank, Indented;
    if below != [] {
      var front, last := below[..|below| - 1], below[|below| - 1];
      assert last in below && forall l <- front :: l in below;
      assert below == front + [last];
      BodyWords(front);
      DedentedWords(last);
      assert Body(below) == Body(front) + [Dedent(last)];
      assert (forall l <- below :: Blank(l)) <==> (forall l <- front :: Blank(l)) && Blank(last);
      assert (forall s <- Body(below) :: s == "") <==> (forall s <- Body(front) :: s == "") && Dedent(last) == "" by {
        LastToo(Body(front), Dedent(last));
      }
    }
  }

  lemma LastToo(front: seq<string>, last: string)
    ensures (forall s <- front + [last] :: s == "") <==> (forall s <- front :: s == "") && last == ""
  {
    if forall s <- front + [last] :: s == "" {
      assert last in front + [last];
      assert forall s <- front :: s in front + [last];
    }
  }

  lemma DedentedWords(l: Line)
    requires InBlock(l)
    ensures Dedent(l) == "" <==> Blank(l)
  {
    if Indented(l) && |l| == 4 {
      assert l == "    ";
      TrimAfterSpaces(l, 4);
    }
  }

  /** More lines under a text leave it alone exactly when every one of them is blank. */
  lemma TextAlone(body: seq<Line>, below: seq<Line>)
    requires (forall l <- body :: InBlock(l)) && (forall l <- below :: InBlock(l))
    ensures forall l <- body + below :: InBlock(l)
    ensures TextOf(body + below) == TextOf(body) <==> forall l <- below :: Blank(l)
  {
    hide Body, Popped, Blank, InBlock;
    BodyAcross(body, below);
    BodyWords(below);
    if forall l <- below :: Blank(l) {
      BlanksArePopped(Body(body), Body(below));
    } else {
      WordsAreKept(Body(body), Body(below));
      PoppedIsPrefix(Body(body));
      PoppedGrows(Body(body), Body(below));
      JoinLonger(Popped(Body(body)), Popped(Body(body) + Body(below)));
    }
  }

  lemma ChangedToOne(lines: seq<Line>, edited: seq<Line>, j: nat, key: string, one: Content, other: Content)
    requires Changed(lines, edited, j, key, one) && Changed(lines, edited, j, key, other)
    ensures one == other
  {
    hide Parse, View, Clean;
    var view := View(Parse(lines).items[j]);
    assert |Views(Parse(lines))| == |Parse(lines).items|;
    assert Views(Parse(lines))[j := view[key := one]][j] == Views(Parse(lines))[j := view[key := other]][j];
    assert view[key := one][key] == view[key := other][key];
  }

  /** The text of a first note is the one written, exactly when nothing below the item but blank lines is taken in. */
  lemma NoteAsWrittenIff(lines: seq<Line>, j: nat, text: string)
    requires Clean(Parse(lines)) && j < |Parse(lines).items| && "notes" !in Parse(lines).items[j].fields
    ensures Standing(lines, Parse(lines).items[j])
    ensures var item := Parse(lines).items[j];
            var alone := Indent(SplitAt(text, '\n'));
            && NoteAppended(lines, item, text).Some? && (forall l <- alone :: InBlock(l))
            && (Changed(lines, NoteAppended(lines, item, text).value, j, "notes", BlockScalar(TextOf(alone)))
                <==> forall l <- Below(lines, item) :: Blank(l))
  {
    hide Parse, TextOf, InBlock, Indent, SplitAt, Blank, NoteAppended, BlockRun;
    NoteBegins(lines, j, text);
    var item := Parse(lines).items[j];
    BodyOfIndent(SplitAt(text, '\n'));
    BlockRunIsRun(lines[item.endLine + 1..]);
    TextAlone(Indent(SplitAt(text, '\n')), Below(lines, item));
    var alone := Indent(SplitAt(text, '\n'));
    var edited := NoteAppended(lines, item, text).value;
    if Changed(lines, edited, j, "notes", BlockScalar(TextOf(alone))) {
      ChangedToOne(lines, edited, j, "notes", BlockScalar(TextOf(alone)),
                   BlockScalar(TextOf(alone + Below(lines, item))));
    }
  }

  lemma NotesDiffer(
    front: seq<Token>, s: seq<Token>, rest: seq<Token>, j: nat, last: string, content: Content, size: nat)
    requires AllSkips(s) && Clean(Build(front + (s + rest))) && |Build(front).items| == j + 1
    requires j < |Build(front + (s + rest)).items| && "notes" !in Build(front + (s + rest)).items[j].fields
    requires last in Build(front).items[j].fields
    ensures Views(Build(front + rest)) == Views(Build(front + (s + rest))) && Clean(Build(front + rest))
    ensures Differ(
      Build(front + rest), Build(front + [Token(Entry(false, "notes", content, false), size)] + rest),
      j, "notes", content)
  {
    hide Differ, Step;
    assert front + (s + rest) == front + s + rest;
    SkipsDropOut(front, s, rest, j, last);
    SameViewsSameKeys(Build(front + rest), Build(front + s + rest), j, "notes");
    InsertDiffers(front, Token(Entry(false, "notes", content, false), size), rest, j, "notes", content);
  }

  lemma SameViewsSameKeys(p: Parsed, q: Parsed, j: nat, key: string)
    requires Views(p) == Views(q) && j < |q.items|
    ensures j < |p.items| && (key in p.items[j].fields <==> key in q.items[j].fields)
  {
    assert |Views(p)| == |p.items| && |Views(q)| == |q.items|;
    assert Views(p)[j] == Views(q)[j];
    KeysOfView(p.items[j], key);
    KeysOfView(q.items[j], key);
  }

  lemma ViewsChange(lines: seq<Line>, edited: seq<Line>, p: Parsed, j: nat, key: string, content: Content)
    requires Views(p) == Views(Parse(lines)) && Differ(p, Parse(edited), j, key, content)
    ensures Changed(lines, edited, j, key, content)
  {
    hide View, Parse;
    var o, q := Parse(lines), Parse(edited);
    assert |Views(q)| == |q.items| == |p.items| == |Views(p)| == |o.items|;
    assert Views(p)[j] == View(p.items[j]) && Views(o)[j] == View(o.items[j]);
    assert forall i :: 0 <= i < |q.items| ==> Views(q)[i] == View(q.items[i]) && Views(p)[i] == View(p.items[i]);
  }
}
