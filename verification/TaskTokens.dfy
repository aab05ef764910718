/** How tokens and items respond when lines are put in or taken out between them. */
module TaskTokens {
  import opened Wrappers
  import opened TaskText
  import opened TaskSyntax
  import Sequences

  /** A line no block and no sequence runs on through. */
  predicate Hard(l: Line) {
    !Inert(l) && !Indented(l)
  }

  lemma HardEndsRuns(l: Line)
    requires Hard(l)
    ensures !InBlock(l) && !InSequence(l)
  {
    if ListItem(l) {
      ListItemIsIndented(l);
    }
  }

  lemma ListItemIsIndented(l: Line)
    requires ListItem(l)
    ensures Indented(l)
  {
    assert l[..6] == "    - ";
    assert l[..4] == l[..6][..4];
  }

  // --------------------------------------------------------------- run lemmas

  lemma {:induction false} BlockRunKept(r: seq<Line>, q: nat, y: seq<Line>)
    requires q <= |r| && y != [] && Hard(y[0])
    ensures BlockRun(r[..q] + y) == if BlockRun(r) <= q then BlockRun(r) else q
  {
    hide InBlock, Hard;
    var s := r[..q] + y;
    if q == 0 {
      assert s == y;
      HardEndsRuns(y[0]);
    } else if InBlock(r[0]) {
      assert s[1..] == r[1..][..q - 1] + y;
      BlockRunKept(r[1..], q - 1, y);
    }
  }

  lemma {:induction false} SequenceRunKept(r: seq<Line>, q: nat, y: seq<Line>)
    requires q <= |r| && y != [] && Hard(y[0])
    ensures SequenceRun(r[..q] + y) == if SequenceRun(r) <= q then SequenceRun(r) else q
  {
    hide InSequence, Hard;
    var s := r[..q] + y;
    if q == 0 {
      assert s == y;
      HardEndsRuns(y[0]);
    } else if InSequence(r[0]) {
      assert s[1..] == r[1..][..q - 1] + y;
      SequenceRunKept(r[1..], q - 1, y);
    }
  }

  lemma {:induction false} FewerEntries(lines: seq<Line>, n: nat)
    requires n <= |lines| && Entries(lines) == []
    ensures Entries(lines[..n]) == []
    decreases |lines|
  {
    if n < |lines| {
      FewerEntries(lines[..|lines| - 1], n);
      assert lines[..|lines| - 1][..n] == lines[..n];
    } else {
      assert lines[..n] == lines;
    }
  }

  /** A value is read the same when what follows it is cut off and a hard line put there instead. */
  lemma ValueKept(raw: string, r: seq<Line>, q: nat, y: seq<Line>)
    requires q <= |r| && y != [] && Hard(y[0]) && Value(raw, r).1 <= q
    ensures Value(raw, r[..q] + y) == Value(raw, r)
  {
    hide InBlock, InSequence, Hard, Body, Popped, FlowEntries;
    var s := r[..q] + y;
    BlockRunKept(r, q, y);
    SequenceRunKept(r, q, y);
    if raw == "|" {
      assert s[..BlockRun(r)] == r[..BlockRun(r)];
    } else if raw == "" {
      if SequenceRun(r) <= q {
        assert s[..SequenceRun(r)] == r[..SequenceRun(r)];
      } else {
        assert Entries(r[..SequenceRun(r)]) == [];
        FewerEntries(r[..SequenceRun(r)], q);
        assert r[..SequenceRun(r)][..q] == r[..q] == s[..q];
      }
    }
  }

  lemma HeadKept(lines: seq<Line>, inside: bool, p: nat, y: seq<Line>)
    requires lines != [] && y != [] && Hard(y[0])
    requires Head(lines, inside).size <= p <= |lines|
    ensures Head(lines[..p] + y, inside) == Head(lines, inside)
  {
    hide Inert, Value, ParseKey, Hard;
    assert (lines[..p] + y)[0] == lines[0];
    assert (lines[..p] + y)[1..] == lines[1..][..p - 1] + y;
    var parsed := ParseKey(lines[0]);
    if parsed.Some? && Value(parsed.value.1, lines[1..]).1 <= p - 1 {
      ValueKept(parsed.value.1, lines[1..], p - 1, y);
    }
  }

  // ------------------------------------------------------------- token lemmas

  lemma {:induction false} LengthAcross(a: seq<Token>, b: seq<Token>)
    ensures Length(a + b) == Length(a) + Length(b)
  {
    if b == [] {
      assert a + b == a;
    } else {
      assert (a + b)[..|a + b| - 1] == a + b[..|b| - 1];
      LengthAcross(a, b[..|b| - 1]);
    }
  }

  predicate Opened(tokens: seq<Token>) {
    exists t <- tokens :: OpensItem(t.shape)
  }

  lemma LengthCons(t: Token, rest: seq<Token>)
    ensures Length([t] + rest) == t.size + Length(rest)
  {
    LengthAcross([t], rest);
    assert [t][..0] == [];
    assert Length([t]) == Length([]) + t.size;
  }

  lemma TokensUnroll(lines: seq<Line>, inside: bool, a: seq<Token>, b: seq<Token>)
    requires Tokens(lines, inside) == a + b && a != []
    ensures lines != [] && a[0] == Head(lines, inside) && a == [a[0]] + a[1..]
    ensures Tokens(lines[a[0].size..], inside || OpensItem(a[0].shape)) == a[1..] + b
    ensures Length(a) == a[0].size + Length(a[1..])
    ensures Opened(a) <==> OpensItem(a[0].shape) || Opened(a[1..])
  {
    hide Head;
    assert (a + b)[0] == a[0] && (a + b)[1..] == a[1..] + b;
    assert a == [a[0]] + a[1..];
    LengthCons(a[0], a[1..]);
  }

  /** The tokens after a prefix of them are the tokens of the lines after it. */
  lemma {:induction false} TokensSplit(lines: seq<Line>, inside: bool, a: seq<Token>, b: seq<Token>)
    requires Tokens(lines, inside) == a + b
    ensures Length(a) <= |lines| && Tokens(lines[Length(a)..], inside || Opened(a)) == b
    decreases |a|
  {
    hide Head;
    if a == [] {
      assert a + b == b && lines[0..] == lines;
    } else {
      hide Length, Opened, Tokens;
      TokensUnroll(lines, inside, a, b);
      var size := a[0].size;
      TokensSplit(lines[size..], inside || OpensItem(a[0].shape), a[1..], b);
      assert lines[size..][Length(a[1..])..] == lines[Length(a)..];
    }
  }

  lemma HeadThen(cut: seq<Line>, inside: bool, t: Token, rest: seq<Token>)
    requires cut != [] && Head(cut, inside) == t && Tokens(cut[t.size..], inside || OpensItem(t.shape)) == rest
    ensures Tokens(cut, inside) == [t] + rest
  {
  }

  /** The tokens before a cut stay what they were when a hard line follows the cut. */
  lemma {:induction false} PrefixKept(lines: seq<Line>, inside: bool, a: seq<Token>, b: seq<Token>, y: seq<Line>)
    requires Tokens(lines, inside) == a + b && y != [] && Hard(y[0])
    ensures Length(a) <= |lines|
    ensures Tokens(lines[..Length(a)] + y, inside) == a + Tokens(y, inside || Opened(a))
    decreases |a|
  {
    TokensSplit(lines, inside, a, b);
    if a == [] {
      assert lines[..0] + y == y;
    } else {
      PrefixKeptOn(lines, inside, a, b, y);
    }
  }

  lemma {:induction false} PrefixKeptOn(lines: seq<Line>, inside: bool, a: seq<Token>, b: seq<Token>, y: seq<Line>)
    requires Tokens(lines, inside) == a + b && y != [] && Hard(y[0]) && a != []
    requires Length(a) <= |lines|
    ensures Tokens(lines[..Length(a)] + y, inside) == a + Tokens(y, inside || Opened(a))
    decreases |a|, 0
  {
    hide Head, Hard, Length, Opened, Tokens;
    TokensUnroll(lines, inside, a, b);
    var t, p := a[0], Length(a);
    var within := inside || OpensItem(t.shape);
    PrefixKept(lines[t.size..], within, a[1..], b, y);
    HeadKept(lines, inside, p, y);
    var cut := lines[..p] + y;
    assert cut[t.size..] == lines[t.size..][..Length(a[1..])] + y;
    HeadThen(cut, inside, t, a[1..] + Tokens(y, inside || Opened(a)));
    Sequences.Associative([t], a[1..], Tokens(y, inside || Opened(a)));
  }

  /** A hard line of its own in front of other lines is one token of its own. */
  lemma OneToken(line: Line, rest: seq<Line>, key: string, value: string)
    requires ParseKey(line) == Some((key, value)) && value != "" && value != "|"
    requires Hard(line) && StartsWith(line, "  ") && !Opens(line)
    ensures var v := Value(value, rest);
            v.1 == 0 && Tokens([line] + rest, true) == [Token(Entry(false, key, v.0, v.2), 1)] + Tokens(rest, true)
  {
    hide ParseKey, FlowEntries;
    var all := [line] + rest;
    assert all[0] == line && all[1..] == rest;
  }

  // --------------------------------------------------------------- item lemmas

  lemma {:induction false} ErrorsGrow(a: seq<Token>, b: seq<Token>)
    requires Clean(Build(a + b))
    ensures Clean(Build(a))
    decreases |b|
  {
    if b == [] {
      assert a + b == a;
    } else {
      var front := a + b[..|b| - 1];
      assert (a + b)[..|a + b| - 1] == front;
      StepFails(Build(front), b[|b| - 1], Length(front));
      ErrorsGrow(a, b[..|b| - 1]);
    }
  }

  lemma RecordedShape(q: Parsed, key: string, content: Content, unterminated: bool, at: nat, size: nat)
    requires q.items != []
    ensures Clean(Recorded(q, key, content, unterminated, at, size))
      <==> Clean(q) && key !in q.items[|q.items| - 1].fields && !unterminated
    ensures |Recorded(q, key, content, unterminated, at, size).items| == |q.items|
  {
  }

  lemma StepFails(p: Parsed, t: Token, at: nat)
    ensures Clean(Step(p, t, at)) ==> Clean(p)
    ensures |Step(p, t, at).items| == |p.items| + (if OpensItem(t.shape) then 1 else 0)
  {
    hide Recorded;
    match t.shape
    case Entry(opens, key, content, unterminated) =>
      var q := if opens then OpenedAt(p, at) else p;
      if q.items != [] {
        RecordedShape(q, key, content, unterminated, at, t.size);
      }
    case _ =>
  }

  /** The same items, but for `key` of item `j`, which the second has with `content`. */
  ghost predicate Differ(p: Parsed, q: Parsed, j: nat, key: string, content: Content) {
    && Clean(p) && Clean(q) && |p.items| == |q.items| && j < |p.items|
    && (forall i :: 0 <= i < |p.items| && i != j ==> View(p.items[i]) == View(q.items[i]))
    && View(q.items[j]) == View(p.items[j])[key := content]
  }

  lemma KeysOfView(item: Item, key: string)
    ensures key in View(item) <==> key in item.fields
    ensures key in item.fields ==> View(item)[key] == item.fields[key].content
  {
  }

  lemma ViewFilled(item: Item, key: string, field: Field, start: nat, end: int)
    ensures View(Item(item.fields[key := field], start, end)) == View(item)[key := field.content]
  {
  }

  lemma OpenDiffers(p: Parsed, q: Parsed, j: nat, key: string, content: Content, at: nat, there: nat)
    requires Differ(p, q, j, key, content)
    ensures Differ(OpenedAt(p, at), OpenedAt(q, there), j, key, content)
  {
    hide View;
    EmptyViews(at, there);
  }

  lemma RecordedItems(q: Parsed, key: string, content: Content, unterminated: bool, at: nat, size: nat)
    requires q.items != []
    ensures var r, last := Recorded(q, key, content, unterminated, at, size).items, |q.items| - 1;
            && |r| == |q.items| && (forall i :: 0 <= i < last ==> r[i] == q.items[i])
            && r[last] == Item(q.items[last].fields[key := Field(content, at, at + size - 1)],
                               q.items[last].startLine, MaxOf(q.items[last].endLine, at + size - 1))
  {
  }

  lemma RecordDiffers(
    p: Parsed, q: Parsed, j: nat, key: string, content: Content, k: string, c: Content,
    at: nat, there: nat, size: nat)
    requires Differ(p, q, j, key, content) && k !in p.items[|p.items| - 1].fields
    requires j == |p.items| - 1 ==> k != key
    ensures Differ(Recorded(p, k, c, false, at, size), Recorded(q, k, c, false, there, size), j, key, content)
  {
    hide View, Recorded;
    var last := |p.items| - 1;
    var x, y := p.items[last], q.items[last];
    KeysOfView(x, k);
    KeysOfView(y, k);
    RecordedShape(p, k, c, false, at, size);
    RecordedShape(q, k, c, false, there, size);
    RecordedItems(p, k, c, false, at, size);
    RecordedItems(q, k, c, false, there, size);
    ViewFilled(x, k, Field(c, at, at + size - 1), x.startLine, MaxOf(x.endLine, at + size - 1));
    ViewFilled(y, k, Field(c, there, there + size - 1), y.startLine, MaxOf(y.endLine, there + size - 1));
    if last == j {
      assert View(x)[key := content][k := c] == View(x)[k := c][key := content];
    }
  }

  /** A token that neither names the key again in that item nor fails keeps the difference as it is. */
  lemma {:induction false} StepDiffers(
    p: Parsed, q: Parsed, j: nat, key: string, content: Content, t: Token, at: nat, there: nat)
    requires Differ(p, q, j, key, content) && Clean(Step(p, t, at))
    requires t.shape.Entry? && !t.shape.opens && j == |p.items| - 1 ==> t.shape.key != key
    ensures Differ(Step(p, t, at), Step(q, t, there), j, key, content)
  {
    hide View, Recorded;
    match t.shape
    case Entry(opens, k, c, unterminated) =>
      var p', q' := if opens then OpenedAt(p, at) else p, if opens then OpenedAt(q, there) else q;
      RecordedShape(p', k, c, unterminated, at, t.size);
      if opens {
        OpenDiffers(p, q, j, key, content, at, there);
      }
      RecordDiffers(p', q', j, key, content, k, c, at, there, t.size);
    case _ =>
  }

  lemma EmptyViews(at: nat, there: nat)
    ensures View(Item(map[], at, at)) == map[] == View(Item(map[], there, there))
  {
  }

  /** A key an item has, it keeps. */
  lemma StepKeepsKeys(p: Parsed, t: Token, at: nat, i: nat, key: string)
    requires i < |p.items| && key in p.items[i].fields
    ensures i < |Step(p, t, at).items| && key in Step(p, t, at).items[i].fields
  {
    hide Recorded;
    match t.shape
    case Entry(opens, k, content, unterminated) =>
      var q := if opens then OpenedAt(p, at) else p;
      if q.items != [] {
        RecordedItems(q, k, content, unterminated, at, t.size);
      }
    case _ =>
  }

  lemma {:induction false} KeysStay(a: seq<Token>, b: seq<Token>, i: nat, key: string)
    requires i < |Build(a).items| && key in Build(a).items[i].fields
    ensures i < |Build(a + b).items| && key in Build(a + b).items[i].fields
    decreases |b|
  {
    hide Step;
    if b == [] {
      assert a + b == a;
    } else {
      var front := a + b[..|b| - 1];
      assert (a + b)[..|a + b| - 1] == front;
      KeysStay(a, b[..|b| - 1], i, key);
      StepKeepsKeys(Build(front), b[|b| - 1], Length(front), i, key);
    }
  }

  lemma EntryAdds(p: Parsed, t: Token, at: nat)
    requires t.shape.Entry? && !t.shape.opens && p.items != []
    ensures |Step(p, t, at).items| == |p.items| && t.shape.key in Step(p, t, at).items[|p.items| - 1].fields
    ensures t.shape.key in p.items[|p.items| - 1].fields ==> !Clean(Step(p, t, at))
  {
  }

  lemma BuildSnoc(a: seq<Token>, t: Token)
    ensures Build(a + [t]) == Step(Build(a), t, Length(a))
    ensures Length(a + [t]) == Length(a) + t.size
  {
    assert (a + [t])[..|a|] == a;
  }

  lemma DifferShape(p: Parsed, q: Parsed, j: nat, key: string, content: Content)
    requires Differ(p, q, j, key, content)
    ensures |p.items| == |q.items| && j < |p.items|
  {
  }

  /** Either the item has the key already, or it never gets it. */
  ghost predicate Settled(x: seq<Token>, b: seq<Token>, j: nat, key: string) {
    && j < |Build(x).items| && j < |Build(x + b).items|
    && (key in Build(x).items[j].fields || key !in Build(x + b).items[j].fields)
  }

  /** Whichever it is, no later token of an error-free document names that key of that item. */
  lemma SettledStep(x: seq<Token>, front: seq<Token>, u: Token, j: nat, key: string)
    requires Settled(x, front + [u], j, key) && Clean(Build(x + (front + [u])))
    ensures Settled(x, front, j, key) && Clean(Build(x + front))
    ensures u.shape.Entry? && !u.shape.opens && j == |Build(x + front).items| - 1 ==> u.shape.key != key
  {
    hide Step;
    assert x + (front + [u]) == (x + front) + [u];
    BuildSnoc(x + front, u);
    StepFails(Build(x + front), u, Length(x + front));
    ItemsStay(x, front, j);
    if key in Build(x).items[j].fields {
      KeysStay(x, front, j, key);
    }
    if key in Build(x + front).items[j].fields {
      StepKeepsKeys(Build(x + front), u, Length(x + front), j, key);
    }
    if u.shape.Entry? && !u.shape.opens && j == |Build(x + front).items| - 1 {
      EntryAdds(Build(x + front), u, Length(x + front));
    }
  }

  lemma {:induction false} ItemsStay(a: seq<Token>, b: seq<Token>, j: nat)
    requires j < |Build(a).items|
    ensures j < |Build(a + b).items|
    decreases |b|
  {
    hide Step;
    if b == [] {
      assert a + b == a;
    } else {
      var front := a + b[..|b| - 1];
      assert a + b == front + [b[|b| - 1]];
      ItemsStay(a, b[..|b| - 1], j);
      BuildSnoc(front, b[|b| - 1]);
      StepFails(Build(front), b[|b| - 1], Length(front));
    }
  }

  /** A difference in one settled field is carried, alone, through all the tokens that follow. */
  lemma {:induction false} Carried(x: seq<Token>, y: seq<Token>, b: seq<Token>, j: nat, key: string, content: Content)
    requires Differ(Build(x), Build(y), j, key, content)
    requires Clean(Build(x + b)) && Settled(x, b, j, key)
    ensures Differ(Build(x + b), Build(y + b), j, key, content)
    decreases |b|
  {
    hide Step, Differ, Settled, Clean, Build, Length;
    if b == [] {
      assert x + b == x && y + b == y;
    } else {
      var front, u := b[..|b| - 1], b[|b| - 1];
      assert b == front + [u];
      Sequences.Associative(x, front, [u]);
      Sequences.Associative(y, front, [u]);
      SettledStep(x, front, u, j, key);
      Carried(x, y, front, j, key, content);
      DifferShape(Build(x + front), Build(y + front), j, key, content);
      BuildSnoc(x + front, u);
      BuildSnoc(y + front, u);
      StepDiffers(Build(x + front), Build(y + front), j, key, content, u, Length(x + front), Length(y + front));
    }
  }

  /** One more entry among the tokens is one more field of its item, and nothing else. */
  lemma InsertDiffers(a: seq<Token>, t: Token, b: seq<Token>, j: nat, key: string, content: Content)
    requires t.shape == Entry(false, key, content, false)
    requires Clean(Build(a + b)) && |Build(a).items| == j + 1
    requires j < |Build(a + b).items| && key !in Build(a + b).items[j].fields
    ensures Differ(Build(a + b), Build(a + [t] + b), j, key, content)
  {
    hide Step, Differ;
    BuildSnoc(a, t);
    ErrorsGrow(a, b);
    if key in Build(a).items[j].fields {
      KeysStay(a, b, j, key);
    }
    InsertsHere(Build(a), t, Length(a), key, content);
    Carried(a, a + [t], b, j, key, content);
  }

  lemma InsertsHere(p: Parsed, t: Token, at: nat, key: string, content: Content)
    requires t.shape == Entry(false, key, content, false) && Clean(p) && p.items != []
    requires key !in p.items[|p.items| - 1].fields
    ensures Differ(p, Step(p, t, at), |p.items| - 1, key, content)
  {
    hide View;
    var last := p.items[|p.items| - 1];
    ViewFilled(last, key, Field(content, at, at + t.size - 1), last.startLine, MaxOf(last.endLine, at + t.size - 1));
  }

  /** An entry exchanged for another of the same key exchanges that field's content, and nothing else. */
  lemma ReplaceDiffers(
    a: seq<Token>, t: Token, u: Token, b: seq<Token>, j: nat, opens: bool, key: string, content: Content)
    requires t.shape.Entry? && t.shape.opens == opens && t.shape.key == key
    requires u.shape == Entry(opens, key, content, false)
    requires Clean(Build(a + [t] + b)) && |Build(a + [t]).items| == j + 1
    ensures Differ(Build(a + [t] + b), Build(a + [u] + b), j, key, content)
  {
    hide Step, Differ;
    BuildSnoc(a, t);
    BuildSnoc(a, u);
    ErrorsGrow(a + [t], b);
    ReplacesHere(Build(a), t, u, Length(a), opens, key, content);
    EntryPresent(Build(a), t, Length(a));
    ItemsStay(a + [t], b, j);
    Carried(a + [t], a + [u], b, j, key, content);
  }

  lemma {:induction false} ReplacesHere(
    p: Parsed, t: Token, u: Token, at: nat, opens: bool, key: string, content: Content)
    requires t.shape.Entry? && t.shape.opens == opens && t.shape.key == key
    requires u.shape == Entry(opens, key, content, false)
    requires Clean(Step(p, t, at)) && Step(p, t, at).items != []
    ensures Differ(Step(p, t, at), Step(p, u, at), |Step(p, t, at).items| - 1, key, content)
  {
    hide View;
    var q := if opens then OpenedAt(p, at) else p;
    if q.items != [] {
      var last := q.items[|q.items| - 1];
      var f, g := Field(t.shape.content, at, at + t.size - 1), Field(content, at, at + u.size - 1);
      ViewFilled(last, key, f, last.startLine, MaxOf(last.endLine, f.endLine));
      ViewFilled(last, key, g, last.startLine, MaxOf(last.endLine, g.endLine));
      assert View(last)[key := f.content][key := content] == View(last)[key := content];
    }
  }

  lemma EntryPresent(p: Parsed, t: Token, at: nat)
    requires t.shape.Entry? && Step(p, t, at).items != []
    ensures t.shape.key in Step(p, t, at).items[|Step(p, t, at).items| - 1].fields
  {
  }

  // ------------------------------------------------- skipped lines, and openers

  predicate AllSkips(s: seq<Token>) {
    forall t <- s :: t.shape.Skip?
  }

  lemma {:induction false} SkipsBuildNothing(a: seq<Token>, s: seq<Token>)
    requires AllSkips(s)
    ensures Build(a + s) == Build(a)
    decreases |s|
  {
    if s == [] {
      assert a + s == a;
    } else {
      var front := s[..|s| - 1];
      assert a + s == (a + front) + [s[|s| - 1]] && s[|s| - 1] in s && forall t <- front :: t in s;
      SkipsBuildNothing(a, front);
      BuildSnoc(a + front, s[|s| - 1]);
    }
  }

  /** Skipped lines can be taken out: every field stays as it was. */
  lemma SkipsDropOut(a: seq<Token>, s: seq<Token>, b: seq<Token>, j: nat, key: string)
    requires AllSkips(s) && Clean(Build(a + s + b))
    requires j < |Build(a).items| && key in Build(a).items[j].fields
    ensures Views(Build(a + b)) == Views(Build(a + s + b)) && Clean(Build(a + b))
  {
    SkipsBuildNothing(a, s);
    var content := Build(a).items[j].fields[key].content;
    ErrorsGrow(a + s, b);
    KeysStay(a + s, b, j, key);
    KeysStay(a, [], j, key);
    assert View(Build(a).items[j])[key := content] == View(Build(a).items[j]);
    Carried(a + s, a, b, j, key, content);
    KeyContentStays(a + s, b, j, key);
    var p, q := Build(a + s + b), Build(a + b);
    assert View(p.items[j])[key := content] == View(p.items[j]);
    assert forall i :: 0 <= i < |p.items| ==> View(p.items[i]) == View(q.items[i]);
  }

  /** In an error-free document a field given is never given again. */
  lemma {:induction false} KeyContentStays(a: seq<Token>, b: seq<Token>, j: nat, key: string)
    requires Clean(Build(a + b)) && j < |Build(a).items| && key in Build(a).items[j].fields
    ensures j < |Build(a + b).items| && key in Build(a + b).items[j].fields
    ensures Build(a + b).items[j].fields[key] == Build(a).items[j].fields[key]
    decreases |b|
  {
    hide Step;
    if b == [] {
      assert a + b == a;
    } else {
      var front, u := b[..|b| - 1], b[|b| - 1];
      assert a + b == (a + front) + [u] && b == front + [u];
      KeysStay(a, b, j, key);
      SettledStep(a, front, u, j, key);
      KeyContentStays(a, front, j, key);
      BuildSnoc(a + front, u);
      NotOwn(Build(a + front), u, Length(a + front), j, key);
    }
  }

  lemma NotOwn(p: Parsed, t: Token, at: nat, j: nat, key: string)
    requires j < |p.items| && key in p.items[j].fields
    requires t.shape.Entry? && !t.shape.opens && j == |p.items| - 1 ==> t.shape.key != key
    ensures j < |Step(p, t, at).items| && key in Step(p, t, at).items[j].fields
    ensures Step(p, t, at).items[j].fields[key] == p.items[j].fields[key]
  {
    hide Recorded;
    match t.shape
    case Entry(opens, k, content, unterminated) =>
      var q := if opens then OpenedAt(p, at) else p;
      RecordedItems(q, k, content, unterminated, at, t.size);
    case _ =>
  }

  function Openers(tokens: seq<Token>): nat {
    if tokens == [] then 0
    else Openers(tokens[..|tokens| - 1]) + (if OpensItem(tokens[|tokens| - 1].shape) then 1 else 0)
  }

  /** There are as many items as lines that open one. */
  lemma {:induction false} ItemsAreOpeners(tokens: seq<Token>)
    ensures |Build(tokens).items| == Openers(tokens)
    ensures Opened(tokens) <==> Build(tokens).items != []
    decreases |tokens|
  {
    hide Step;
    if tokens != [] {
      var front, last := tokens[..|tokens| - 1], tokens[|tokens| - 1];
      assert tokens == front + [last];
      ItemsAreOpeners(front);
      StepFails(Build(front), last, Length(front));
    }
  }

  lemma {:induction false} OpenersAcross(a: seq<Token>, b: seq<Token>)
    ensures Openers(a + b) == Openers(a) + Openers(b)
    decreases |b|
  {
    if b == [] {
      assert a + b == a;
    } else {
      assert (a + b)[..|a + b| - 1] == a + b[..|b| - 1];
      OpenersAcross(a, b[..|b| - 1]);
    }
  }

  // -------------------------------------------------- where a field came from

  /** Token `n` is the one that gave item `j` its field. */
  ghost predicate Gave(tokens: seq<Token>, n: nat, j: nat, key: string) {
    && n < |tokens| && tokens[n].shape.Entry? && tokens[n].shape.key == key
    && |Build(tokens[..n + 1]).items| == j + 1
    && j < |Build(tokens).items| && key in Build(tokens).items[j].fields
    && var item := Build(tokens).items[j];
       && item.fields[key] == Field(tokens[n].shape.content, Length(tokens[..n]), Length(tokens[..n + 1]) - 1)
       && (tokens[n].shape.opens <==> item.fields[key].keyLine == item.startLine)
       && item.startLine <= item.fields[key].keyLine
  }

  predicate Sized(tokens: seq<Token>) {
    forall t <- tokens :: t.size >= 1
  }

  lemma {:induction false} TokensAreSized(lines: seq<Line>, inside: bool)
    ensures Sized(Tokens(lines, inside))
    decreases |lines|
  {
    hide Head;
    if lines != [] {
      var t := Head(lines, inside);
      TokensAreSized(lines[t.size..], inside || OpensItem(t.shape));
    }
  }

  ghost predicate Before(item: Item, at: int) {
    item.startLine <= item.endLine < at
  }

  lemma {:induction false} StepBefore(p: Parsed, t: Token, at: nat, i: nat)
    requires t.size >= 1 && i < |Step(p, t, at).items|
    requires i < |p.items| ==> Before(p.items[i], at)
    ensures Before(Step(p, t, at).items[i], at + t.size)
  {
    hide Recorded;
    match t.shape
    case Entry(opens, key, content, unterminated) =>
      var q := if opens then OpenedAt(p, at) else p;
      if q.items != [] {
        RecordedShape(q, key, content, unterminated, at, t.size);
        assert Before(q.items[i], at + 1);
        RecordedBefore(q, key, content, unterminated, at, t.size, i);
      }
    case _ =>
  }

  lemma RecordedBefore(q: Parsed, key: string, content: Content, unterminated: bool, at: nat, size: nat, i: nat)
    requires size >= 1 && i < |q.items| && Before(q.items[i], at + 1)
    ensures i < |Recorded(q, key, content, unterminated, at, size).items|
    ensures Before(Recorded(q, key, content, unterminated, at, size).items[i], at + size)
  {
  }

  /** Every item begins, and so far ends, before the end of what has been read. */
  lemma {:induction false} StartsBefore(tokens: seq<Token>, i: nat)
    requires Sized(tokens) && i < |Build(tokens).items|
    ensures Before(Build(tokens).items[i], Length(tokens))
    decreases |tokens|
  {
    hide Step, Before;
    if tokens != [] {
      var front, last := tokens[..|tokens| - 1], tokens[|tokens| - 1];
      assert last in tokens && forall t <- front :: t in tokens;
      if i < |Build(front).items| {
        StartsBefore(front, i);
      }
      StepBefore(Build(front), last, Length(front), i);
    }
  }

  /** A field after a step is the step's own or was there before. */
  ghost predicate StepsOwn(p: Parsed, t: Token, at: nat, j: nat, key: string)
    requires j < |Step(p, t, at).items| && key in Step(p, t, at).items[j].fields
  {
    var item := Step(p, t, at).items[j];
    && t.shape.Entry? && t.shape.key == key && j == |Step(p, t, at).items| - 1
    && item.fields[key] == Field(t.shape.content, at, at + t.size - 1)
    && if t.shape.opens then item.startLine == at else j < |p.items| && item.startLine == p.items[j].startLine
  }

  lemma StepField(p: Parsed, t: Token, at: nat, j: nat, key: string)
    requires j < |Step(p, t, at).items| && key in Step(p, t, at).items[j].fields && !StepsOwn(p, t, at, j, key)
    ensures j < |p.items| && key in p.items[j].fields
    ensures Step(p, t, at).items[j].fields[key] == p.items[j].fields[key]
    ensures Step(p, t, at).items[j].startLine == p.items[j].startLine
  {
    hide Recorded;
    match t.shape
    case Entry(opens, k, content, unterminated) =>
      var q := if opens then OpenedAt(p, at) else p;
      if q.items != [] {
        RecordedItems(q, k, content, unterminated, at, t.size);
      }
    case _ =>
  }

  lemma {:induction false} FieldWasGiven(tokens: seq<Token>, j: nat, key: string) returns (n: nat)
    requires Sized(tokens) && j < |Build(tokens).items| && key in Build(tokens).items[j].fields
    ensures Gave(tokens, n, j, key)
    decreases |tokens|
  {
    hide Step;
    var front, last := tokens[..|tokens| - 1], tokens[|tokens| - 1];
    var p := Build(front);
    assert last in tokens && forall t <- front :: t in tokens;
    if StepsOwn(p, last, Length(front), j, key) {
      n := |tokens| - 1;
      assert tokens[..n + 1] == tokens;
      if !last.shape.opens {
        StartsBefore(front, j);
      }
    } else {
      StepField(p, last, Length(front), j, key);
      n := FieldWasGiven(front, j, key);
      assert tokens[..n + 1] == front[..n + 1] && tokens[..n] == front[..n];
    }
  }

  lemma StepEnd(p: Parsed, t: Token, at: nat, j: nat) returns (key: string)
    requires j < |Step(p, t, at).items| && Clean(Step(p, t, at)) && t.size >= 1
    requires j < |p.items| ==> Before(p.items[j], at)
    ensures var item := Step(p, t, at).items[j];
            || (j < |p.items| && item == p.items[j])
            || (key in item.fields && item.fields[key].endLine == item.endLine)
  {
    hide Recorded;
    key := if t.shape.Entry? then t.shape.key else "";
    if t.shape.Entry? {
      var q := if t.shape.opens then OpenedAt(p, at) else p;
      StepFails(p, t, at);
      if q.items != [] {
        RecordedEnd(q, t, at, j);
      }
    }
  }

  /** A field is recorded in the last item, and ends it there. */
  lemma RecordedEnd(q: Parsed, t: Token, at: nat, j: nat)
    requires t.shape.Entry? && t.size >= 1 && j < |q.items|
    requires j == |q.items| - 1 ==> q.items[j].endLine <= at
    ensures var after := Recorded(q, t.shape.key, t.shape.content, t.shape.unterminated, at, t.size);
            && |after.items| == |q.items|
            && (j < |q.items| - 1 ==> after.items[j] == q.items[j])
            && (j == |q.items| - 1 ==>
                 && t.shape.key in after.items[j].fields
                 && after.items[j].fields[t.shape.key].endLine == after.items[j].endLine)
  {
  }

  /** An item of an error-free document ends where one of its fields does. */
  lemma {:induction false} ItemEndsWithField(tokens: seq<Token>, j: nat) returns (key: string)
    requires Sized(tokens) && Clean(Build(tokens)) && j < |Build(tokens).items|
    ensures var item := Build(tokens).items[j];
            key in item.fields && item.fields[key].endLine == item.endLine
    decreases |tokens|
  {
    hide Step;
    var front, last := tokens[..|tokens| - 1], tokens[|tokens| - 1];
    assert last in tokens && forall t <- front :: t in tokens;
    StepFails(Build(front), last, Length(front));
    if j < |Build(front).items| {
      StartsBefore(front, j);
    }
    key := StepEnd(Build(front), last, Length(front), j);
    if j < |Build(front).items| && Build(tokens).items[j] == Build(front).items[j] {
      key := ItemEndsWithField(front, j);
    }
  }

  // --------------------------------------------------- the key an item opens with

  /** The keys that stand on the lines opening items, in order. */
  function OpenKeys(tokens: seq<Token>): seq<string> {
    if tokens == [] then []
    else
      var shape := tokens[|tokens| - 1].shape;
      OpenKeys(tokens[..|tokens| - 1]) + (if shape.Entry? && shape.opens then [shape.key] else [])
  }

  lemma {:induction false} OpenKeysAcross(a: seq<Token>, b: seq<Token>)
    ensures OpenKeys(a + b) == OpenKeys(a) + OpenKeys(b)
    decreases |b|
  {
    if b == [] {
      assert a + b == a;
    } else {
      assert (a + b)[..|a + b| - 1] == a + b[..|b| - 1];
      OpenKeysAcross(a, b[..|b| - 1]);
    }
  }

  /** A token that opens nothing can come, go or change without any opening key changing. */
  lemma OpenKeysAround(a: seq<Token>, t: Token, b: seq<Token>)
    requires !OpensItem(t.shape)
    ensures OpenKeys(a + [t] + b) == OpenKeys(a + b)
  {
    OpenKeysAcross(a + [t], b);
    OpenKeysAcross(a, [t]);
    OpenKeysAcross(a, b);
    assert [t][..0] == [];
    assert OpenKeys([t]) == [];
  }

  ghost predicate OpensWith(item: Item, key: string) {
    && key in item.fields && item.fields[key].keyLine == item.startLine
    && forall k <- item.fields :: k != key ==> item.startLine < item.fields[k].keyLine
  }

  lemma StepOpensWith(p: Parsed, t: Token, at: nat, i: nat, key: string)
    requires Clean(Step(p, t, at)) && i < |p.items| && OpensWith(p.items[i], key) && Before(p.items[i], at)
    ensures i < |Step(p, t, at).items| && OpensWith(Step(p, t, at).items[i], key)
  {
    hide Recorded;
    match t.shape
    case Entry(opens, k, content, unterminated) =>
      var q := if opens then OpenedAt(p, at) else p;
      RecordedShape(q, k, content, unterminated, at, t.size);
      RecordedItems(q, k, content, unterminated, at, t.size);
    case _ =>
  }

  lemma NewOpensWith(p: Parsed, t: Token, at: nat)
    requires Clean(Step(p, t, at)) && OpensItem(t.shape)
    ensures t.shape.Entry? && |Step(p, t, at).items| == |p.items| + 1
    ensures OpensWith(Step(p, t, at).items[|p.items|], t.shape.key)
  {
  }

  /** In an error-free document each item stands on its opening key, and on no other. */
  lemma {:induction false} ItemsOpenWith(tokens: seq<Token>, i: nat)
    requires Sized(tokens) && Clean(Build(tokens)) && i < |Build(tokens).items|
    ensures |OpenKeys(tokens)| == |Build(tokens).items|
    ensures OpensWith(Build(tokens).items[i], OpenKeys(tokens)[i])
    decreases |tokens|
  {
    hide Step, OpensWith, Before;
    var front, last := tokens[..|tokens| - 1], tokens[|tokens| - 1];
    assert last in tokens && forall t <- front :: t in tokens;
    var p, at := Build(front), Length(front);
    StepFails(p, last, at);
    if OpensItem(last.shape) {
      NewOpensWith(p, last, at);
    }
    if i < |p.items| {
      ItemsOpenWith(front, i);
      StartsBefore(front, i);
      StepOpensWith(p, last, at, i, OpenKeys(front)[i]);
    } else if front != [] && p.items != [] {
      ItemsOpenWith(front, 0);
    } else {
      NoItemsNoKeys(front);
    }
  }

  lemma {:induction false} NoItemsNoKeys(tokens: seq<Token>)
    requires Build(tokens).items == []
    ensures OpenKeys(tokens) == []
    decreases |tokens|
  {
    hide Step;
    if tokens != [] {
      var front, last := tokens[..|tokens| - 1], tokens[|tokens| - 1];
      StepFails(Build(front), last, Length(front));
      NoItemsNoKeys(front);
    }
  }
}
