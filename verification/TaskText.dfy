/** The string operations the task tracker's parser is written with. */
module TaskText {
  import opened Wrappers
  import opened Base32Spec

  type Line = string

  predicate StartsWith(s: string, prefix: string) {
    prefix <= s
  }

  function TrimStart(s: string): (r: string)
    ensures r == "" || !Space(r[0])
    ensures |r| <= |s|
  {
    if s != "" && Space(s[0]) then TrimStart(s[1..]) else s
  }

  function TrimEnd(s: string): (r: string)
    ensures r == "" || !Space(r[|r| - 1])
    ensures r <= s
  {
    if s != "" && Space(s[|s| - 1]) then TrimEnd(s[..|s| - 1]) else s
  }

  function Trim(s: string): string {
    TrimEnd(TrimStart(s))
  }

  /** Nothing to trim. */
  predicate Trimmed(s: string) {
    s == "" || (!Space(s[0]) && !Space(s[|s| - 1]))
  }

  lemma TrimTrimmed(s: string)
    requires Trimmed(s)
    ensures Trim(s) == s
  {
  }

  lemma {:induction false} TrimAfterSpaces(s: string, n: nat)
    requires n <= |s| && (forall i :: 0 <= i < n ==> Space(s[i]))
    ensures TrimStart(s) == TrimStart(s[n..])
  {
    if n > 0 {
      TrimAfterSpaces(s[1..], n - 1);
      assert s[1..][n - 1..] == s[n..];
    } else {
      assert s[0..] == s;
    }
  }

  predicate Blank(l: Line) {
    Trim(l) == ""
  }

  predicate Comment(l: Line) {
    StartsWith(TrimStart(l), "#")
  }

  predicate Inert(l: Line) {
    Blank(l) || Comment(l)
  }

  /** Four spaces of indentation: the body of a block. */
  predicate Indented(l: Line) {
    StartsWith(l, "    ")
  }

  /** What `.` does not match. */
  predicate Terminator(c: char) {
    var u := c as int;
    u == 10 || u == 13 || u == 0x2028 || u == 0x2029
  }

  predicate OneLine(s: string) {
    forall c <- s :: !Terminator(c)
  }

  predicate NameStart(c: char) {
    'A' <= c <= 'Z' || 'a' <= c <= 'z' || c == '_'
  }

  predicate NameChar(c: char) {
    NameStart(c) || '0' <= c <= '9'
  }

  predicate KeyName(key: string) {
    key != "" && NameStart(key[0]) && forall c <- key :: NameChar(c)
  }

  function NameLength(s: string): (n: nat)
    ensures n <= |s| && (forall i :: 0 <= i < n ==> NameChar(s[i]))
    ensures n < |s| ==> !NameChar(s[n])
  {
    if s != "" && NameChar(s[0]) then 1 + NameLength(s[1..]) else 0
  }

  lemma {:induction false} NameLengthOf(key: string, rest: string)
    requires (forall c <- key :: NameChar(c)) && (rest == "" || !NameChar(rest[0]))
    ensures NameLength(key + rest) == |key|
  {
    if key == "" {
      assert key + rest == rest;
    } else {
      assert key[0] in key && forall c <- key[1..] :: c in key;
      assert (key + rest)[1..] == key[1..] + rest;
      NameLengthOf(key[1..], rest);
    }
  }

  /** A key line's name and the text after its colon, trimmed; None for any other line. */
  function ParseKey(line: Line): Option<(string, string)> {
    if !StartsWith(line, "- ") && !StartsWith(line, "  ") then None
    else
      var body := line[2..];
      var n := NameLength(body);
      if n == 0 || !NameStart(body[0]) || n == |body| || body[n] != ':' then None
      else
        var rest := body[n + 1..];
        if rest == "" then Some((body[..n], ""))
        else if rest[0] != ' ' || !OneLine(rest) then None
        else Some((body[..n], Trim(rest)))
  }

  /** A list item's text; None for any other line. */
  function ParseEntry(line: Line): Option<string> {
    if StartsWith(line, "    - ") && OneLine(line[6..]) then Some(line[6..]) else None
  }

  predicate ListItem(l: Line) {
    ParseEntry(l).Some?
  }

  function Unescape(s: string): string
    decreases |s|
  {
    if s == "" then ""
    else if StartsWith(s, "\\\"") then "\"" + Unescape(s[2..])
    else [s[0]] + Unescape(s[1..])
  }

  predicate Quoted(s: string) {
    |s| >= 2 && ((s[0] == '"' && s[|s| - 1] == '"') || (s[0] == '\'' && s[|s| - 1] == '\''))
  }

  function Unquote(raw: string): string {
    var s := Trim(raw);
    if Quoted(s) then Unescape(s[1..|s| - 1]) else s
  }

  function SplitAt(s: string, c: char): (parts: seq<string>)
    ensures parts != []
  {
    if s == "" then [""]
    else
      var rest := SplitAt(s[1..], c);
      if s[0] == c then [""] + rest else [[s[0]] + rest[0]] + rest[1..]
  }

  function JoinWith(parts: seq<string>, separator: string): string {
    if parts == [] then ""
    else if |parts| == 1 then parts[0]
    else parts[0] + separator + JoinWith(parts[1..], separator)
  }

  function UnquoteAll(parts: seq<string>): seq<string> {
    if parts == [] then []
    else
      var first := Unquote(parts[0]);
      (if first == "" then [] else [first]) + UnquoteAll(parts[1..])
  }

  /** The entries between the brackets; a missing closing bracket is another's error. */
  function FlowEntries(raw: string): seq<string>
    requires StartsWith(raw, "[")
  {
    var inner := Trim(if raw[|raw| - 1] == ']' && |raw| >= 2 then raw[1..|raw| - 1] else raw[1..]);
    if inner == "" then [] else UnquoteAll(SplitAt(inner, ','))
  }

  // ----------------------------------------------------------------- rendering

  /** A list value that comes back as it was written. */
  predicate PlainEntry(v: string) {
    v != "" && Trimmed(v) && OneLine(v) && ',' !in v && !Quoted(v)
  }

  /** A scalar value that comes back as it was written. */
  predicate PlainScalar(v: string) {
    v != "" && Trimmed(v) && OneLine(v) && v[0] != '[' && v != "|" && !Quoted(v)
  }

  function RenderList(values: seq<string>): string {
    "[" + JoinWith(values, ", ") + "]"
  }

  function RenderKey(key: string, value: string): Line {
    "  " + key + ": " + value
  }

  lemma PlainUnquotes(v: string)
    requires PlainEntry(v) || PlainScalar(v)
    ensures Unquote(v) == v
  {
    TrimTrimmed(v);
  }

  lemma LedValueTrims(value: string)
    requires Trimmed(value)
    ensures Trim(" " + value) == value
  {
    TrimAfterSpaces(" " + value, 1);
    assert (" " + value)[1..] == value;
    TrimTrimmed(value);
  }

  /** A rendered key line parses as the key and the value it was made from. */
  lemma RenderedKeyParses(key: string, value: string)
    requires KeyName(key) && OneLine(value) && Trimmed(value) && value != ""
    ensures ParseKey(RenderKey(key, value)) == Some((key, value))
    ensures !Inert(RenderKey(key, value)) && !Indented(RenderKey(key, value))
    ensures StartsWith(RenderKey(key, value), "  ") && !StartsWith(RenderKey(key, value), "- ")
  {
    hide Inert, Indented, Trim, Trimmed;
    var line := RenderKey(key, value);
    RenderedIsHard(key, ": " + value);
    assert line == "  " + key + (": " + value);
    assert line[2..] == key + (": " + value);
    NameLengthOf(key, ": " + value);
    assert line[2..][..|key|] == key;
    assert line[2..][|key| + 1..] == " " + value;
    LedValueTrims(value);
    assert OneLine(" " + value);
  }

  /** A line that begins with two spaces and a name ends every block above it. */
  lemma RenderedIsHard(key: string, rest: string)
    requires KeyName(key)
    ensures !Inert("  " + key + rest) && !Indented("  " + key + rest)
    ensures StartsWith("  " + key + rest, "  ") && !StartsWith("  " + key + rest, "- ")
  {
    var line := "  " + key + rest;
    assert line[2..] == key + rest && line[2] == key[0] && !Space(key[0]) && key[0] != '#';
    TrimAfterSpaces(line, 2);
    assert TrimStart(line) == line[2..];
    TrimEndKeepsFirst(line[2..]);
  }

  lemma {:induction false} TrimEndKeepsFirst(s: string)
    requires s != "" && !Space(s[0])
    ensures TrimEnd(s) != ""
  {
    if Space(s[|s| - 1]) {
      TrimEndKeepsFirst(s[..|s| - 1]);
    }
  }

  /** Text that can stand between two commas of a list. */
  predicate EntryText(text: string) {
    text != "" && Trimmed(text) && OneLine(text) && ',' !in text
  }

  /** Each text is read as the value in its place. */
  predicate ReadsEach(texts: seq<string>, values: seq<string>) {
    |texts| == |values| && forall i :: 0 <= i < |texts| ==> EntryText(texts[i]) && Unquote(texts[i]) == values[i]
  }

  /** An empty value does not count as one. */
  function NonEmpty(values: seq<string>): seq<string> {
    if values == [] then [] else (if values[0] == "" then [] else [values[0]]) + NonEmpty(values[1..])
  }

  lemma OneEntry(text: string, lead: string, rest: seq<string>)
    requires Trimmed(text) && (lead == "" || lead == " ")
    ensures UnquoteAll([lead + text] + rest) == (if Unquote(text) == "" then [] else [Unquote(text)]) + UnquoteAll(rest)
  {
    hide Unquote;
    UnquoteLed(text, lead);
    assert ([lead + text] + rest)[1..] == rest;
  }

  lemma JoinUnfolds(values: seq<string>, lead: string)
    requires |values| > 1
    ensures lead + JoinWith(values, ", ") == (lead + values[0]) + "," + (" " + JoinWith(values[1..], ", "))
  {
  }

  /** The first of the entries may have one space before it, as every one after a comma does. */
  lemma {:induction false} EntriesRead(texts: seq<string>, values: seq<string>, lead: string)
    requires texts != [] && ReadsEach(texts, values) && (lead == "" || lead == " ")
    ensures UnquoteAll(SplitAt(lead + JoinWith(texts, ", "), ',')) == NonEmpty(values)
    decreases |texts|
  {
    hide UnquoteAll, SplitAt, Unquote, Trimmed, OneLine;
    var first := texts[0];
    if |texts| == 1 {
      SplitNone(lead + first, ',');
      OneEntry(first, lead, []);
      assert [lead + first] + [] == [lead + first];
      NoEntries();
      assert values[1..] == [] && NonEmpty([]) == [];
    } else {
      var rest := " " + JoinWith(texts[1..], ", ");
      JoinUnfolds(texts, lead);
      SplitOnce(lead + first, rest, ',');
      assert (lead + first) + [','] + rest == (lead + first) + "," + rest;
      OneEntry(first, lead, SplitAt(rest, ','));
      EntriesRead(texts[1..], values[1..], " ");
    }
  }

  lemma NoEntries()
    ensures UnquoteAll([]) == []
  {
  }

  lemma UnquoteLed(text: string, lead: string)
    requires Trimmed(text) && (lead == "" || lead == " ")
    ensures Unquote(lead + text) == Unquote(text)
  {
    TrimAfterSpaces(lead + text, |lead|);
    assert (lead + text)[|lead|..] == text;
  }

  lemma {:induction false} JoinedShape(texts: seq<string>)
    requires texts != [] && forall t <- texts :: EntryText(t)
    ensures var s := JoinWith(texts, ", "); s != "" && Trimmed(s) && OneLine(s)
  {
    assert texts[0] in texts && forall t <- texts[1..] :: t in texts;
    if |texts| > 1 {
      JoinedShape(texts[1..]);
    }
  }

  lemma RenderedListShape(texts: seq<string>)
    requires forall t <- texts :: EntryText(t)
    ensures var s := RenderList(texts);
            |s| >= 2 && s[0] == '[' && s[|s| - 1] == ']' && s[1..|s| - 1] == JoinWith(texts, ", ")
            && OneLine(s) && Trimmed(s) && s != "|"
    ensures texts != [] ==> JoinWith(texts, ", ") != "" && Trimmed(JoinWith(texts, ", "))
  {
    hide EntryText;
    if texts != [] {
      JoinedShape(texts);
    }
  }

  /** A list of entries reads back as the values they spell. */
  lemma SpelledListReads(texts: seq<string>, values: seq<string>)
    requires ReadsEach(texts, values)
    ensures StartsWith(RenderList(texts), "[") && FlowEntries(RenderList(texts)) == NonEmpty(values)
  {
    hide EntryText, RenderList, UnquoteAll, SplitAt, JoinWith, Unquote;
    RenderedListShape(texts);
    var joined := JoinWith(texts, ", ");
    if texts != [] {
      TrimTrimmed(joined);
      EntriesRead(texts, values, "");
      assert "" + joined == joined;
    } else {
      assert joined == "" by { JoinNone(); }
      assert Trim("") == "";
    }
  }

  lemma PlainIsText(values: seq<string>)
    requires forall v <- values :: PlainEntry(v)
    ensures forall v <- values :: EntryText(v)
  {
  }

  lemma PlainReadsEach(values: seq<string>)
    requires forall v <- values :: PlainEntry(v)
    ensures ReadsEach(values, values)
  {
    hide Unquote, Quoted, OneLine, Trimmed;
    forall i | 0 <= i < |values|
      ensures EntryText(values[i]) && Unquote(values[i]) == values[i]
    {
      assert values[i] in values;
      PlainUnquotes(values[i]);
    }
  }

  lemma {:induction false} AllNonEmpty(values: seq<string>)
    requires forall v <- values :: v != ""
    ensures NonEmpty(values) == values
  {
    if values != [] {
      assert values[0] in values && forall v <- values[1..] :: v in values;
      AllNonEmpty(values[1..]);
    }
  }

  /** A rendered list reads back as the list. */
  lemma ListReads(values: seq<string>)
    requires forall v <- values :: PlainEntry(v)
    ensures StartsWith(RenderList(values), "[") && FlowEntries(RenderList(values)) == values
  {
    hide ReadsEach, RenderList, FlowEntries;
    PlainReadsEach(values);
    SpelledListReads(values, values);
    AllNonEmpty(values);
  }

  lemma JoinNone()
    ensures JoinWith([], ", ") == ""
  {
  }

  /** Splitting a joined text gives the parts back, when none of them contains the separator. */
  lemma {:induction false} JoinSplits(parts: seq<string>, c: char)
    requires parts != [] && forall p <- parts :: c !in p
    ensures SplitAt(JoinWith(parts, [c]), c) == parts
  {
    hide SplitAt;
    assert parts[0] in parts && forall p <- parts[1..] :: p in parts;
    if |parts| == 1 {
      SplitNone(parts[0], c);
      assert parts == [parts[0]];
    } else {
      SplitOnce(parts[0], JoinWith(parts[1..], [c]), c);
      JoinSplits(parts[1..], c);
    }
  }

  lemma {:induction false} SplitNone(v: string, c: char)
    requires c !in v
    ensures SplitAt(v, c) == [v]
  {
    if v != "" {
      assert v[0] in v && [v[0]] + v[1..] == v;
      SplitNone(v[1..], c);
    }
  }

  lemma {:induction false} SplitOnce(v: string, rest: string, c: char)
    requires c !in v
    ensures SplitAt(v + [c] + rest, c) == [v] + SplitAt(rest, c)
  {
    var s := v + [c] + rest;
    if v == "" {
      assert s[0] == c && s[1..] == rest;
    } else {
      assert v[0] in v && s[0] != c && [v[0]] + v[1..] == v;
      assert s[1..] == v[1..] + [c] + rest;
      SplitOnce(v[1..], rest, c);
    }
  }
}
