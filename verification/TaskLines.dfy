/** What the parser's string operations and line forms mean, character by character. */
module TaskLines {
  import opened Wrappers
  import opened Base32Spec
  import opened TaskText

  /** White space and line terminators as ECMAScript lists them. */
  predicate White(c: char) {
    c as int in {0x9, 0xa, 0xb, 0xc, 0xd, 0x20, 0xa0, 0x1680, 0x2000, 0x2001, 0x2002, 0x2003, 0x2004, 0x2005, 0x2006,
                 0x2007, 0x2008, 0x2009, 0x200a, 0x2028, 0x2029, 0x202f, 0x205f, 0x3000, 0xfeff}
  }

  predicate AllWhite(s: string) {
    forall c <- s :: White(c)
  }

  lemma SpaceIs(c: char)
    ensures Space(c) <==> White(c)
  {
  }

  lemma {:induction false} TrimStartMeans(s: string) returns (before: string)
    ensures s == before + TrimStart(s) && AllWhite(before)
  {
    hide White;
    if s != "" && Space(s[0]) {
      SpaceIs(s[0]);
      before := TrimStartMeans(s[1..]);
      assert s == [s[0]] + s[1..] && [s[0]] + (before + TrimStart(s)) == [s[0]] + before + TrimStart(s);
      before := [s[0]] + before;
    } else {
      before := "";
    }
  }

  lemma {:induction false} TrimEndMeans(s: string) returns (after: string)
    ensures s == TrimEnd(s) + after && AllWhite(after)
  {
    hide White;
    if s != "" && Space(s[|s| - 1]) {
      SpaceIs(s[|s| - 1]);
      after := TrimEndMeans(s[..|s| - 1]);
      assert s == s[..|s| - 1] + [s[|s| - 1]];
      assert TrimEnd(s) + after + [s[|s| - 1]] == TrimEnd(s) + (after + [s[|s| - 1]]);
      after := after + [s[|s| - 1]];
    } else {
      after := "";
    }
  }

  /** Trimming takes off white space at both ends and nothing else, all of it. */
  lemma TrimMeans(s: string) returns (before: string, after: string)
    ensures s == before + Trim(s) + after && AllWhite(before) && AllWhite(after)
    ensures Trim(s) != "" ==> !White(Trim(s)[0]) && !White(Trim(s)[|Trim(s)| - 1])
  {
    hide White, AllWhite;
    before := TrimStartMeans(s);
    after := TrimEndMeans(TrimStart(s));
    assert before + (Trim(s) + after) == before + Trim(s) + after;
    if Trim(s) != "" {
      SpaceIs(Trim(s)[0]);
      SpaceIs(Trim(s)[|Trim(s)| - 1]);
      assert Trim(s)[0] == TrimStart(s)[0];
    }
  }

  /** A line feed, a carriage return, or one of the two Unicode separators. */
  lemma OneLineIff(s: string)
    ensures OneLine(s) <==> forall c <- s :: c as int !in {0xa, 0xd, 0x2028, 0x2029}
  {
  }

  predicate Letter(c: char) {
    65 <= c as int <= 90 || 97 <= c as int <= 122 || c as int == 95
  }

  predicate Digit(c: char) {
    48 <= c as int <= 57
  }

  /** A letter or an underscore, then any of those and digits. */
  lemma KeyNameIff(key: string)
    ensures KeyName(key) <==> key != "" && Letter(key[0]) && forall c <- key :: Letter(c) || Digit(c)
  {
  }

  /** A key line is two characters of indentation or an opening, a name, a colon, and nothing more or a space and the
      rest of one line. */
  lemma KeyLineParts(line: Line) returns (key: string, rest: string)
    requires ParseKey(line).Some?
    ensures line == "- " + key + ":" + rest || line == "  " + key + ":" + rest
    ensures KeyName(key) && (rest == "" || (rest[0] == ' ' && OneLine(rest)))
    ensures ParseKey(line) == Some((key, Trim(rest)))
  {
    hide OneLine, Trim;
    var body := line[2..];
    var n := NameLength(body);
    key, rest := body[..n], body[n + 1..];
    assert body == key + ":" + rest;
    assert line == line[..2] + body;
    assert line[..2] + (key + ":" + rest) == line[..2] + key + ":" + rest;
    NothingToTrim();
  }

  lemma NothingToTrim()
    ensures Trim("") == ""
  {
  }

  /** And every such line is one. */
  lemma KeyLineParses(lead: string, key: string, rest: string)
    requires (lead == "- " || lead == "  ") && KeyName(key) && (rest == "" || (rest[0] == ' ' && OneLine(rest)))
    ensures ParseKey(lead + key + ":" + rest) == Some((key, Trim(rest)))
  {
    hide OneLine, Trim;
    var line := lead + key + ":" + rest;
    var body := key + (":" + rest);
    assert line[2..] == body && line[..2] == lead;
    NameLengthOf(key, ":" + rest);
    assert body[..|key|] == key && body[|key| + 1..] == rest && body[|key|] == ':';
    NothingToTrim();
  }

  /** A list item is four spaces, a dash, a space and the rest of one line. */
  lemma ListItemIff(line: Line, text: string)
    ensures ParseEntry(line) == Some(text) <==> line == "    - " + text && OneLine(text)
  {
    hide OneLine;
    if StartsWith(line, "    - ") {
      assert line == "    - " + line[6..];
    }
    assert ("    - " + text)[6..] == text;
  }

  lemma {:induction false} WhiteTrims(s: string)
    requires AllWhite(s)
    ensures TrimStart(s) == ""
  {
    hide White;
    if s != "" {
      assert s[0] in s && forall c <- s[1..] :: c in s;
      SpaceIs(s[0]);
      WhiteTrims(s[1..]);
    }
  }

  lemma BlankIff(l: Line)
    ensures Blank(l) <==> AllWhite(l)
  {
    hide White;
    var before, after := TrimMeans(l);
    if AllWhite(l) {
      WhiteTrims(l);
    }
  }

  lemma CommentAt(l: Line, n: nat)
    requires n < |l| && l[n] == '#' && AllWhite(l[..n])
    ensures Comment(l)
  {
    hide White;
    forall i | 0 <= i < n
      ensures Space(l[i])
    {
      assert l[i] in l[..n];
      SpaceIs(l[i]);
    }
    TrimAfterSpaces(l, n);
    assert l[n..][0] == '#';
  }

  lemma CommentFound(l: Line) returns (n: nat)
    requires Comment(l)
    ensures n < |l| && l[n] == '#' && AllWhite(l[..n])
  {
    hide White;
    var lead := TrimStartMeans(l);
    n := |lead|;
    assert l[..n] == lead && l[n] == TrimStart(l)[0];
  }

  /** A blank line is white space throughout, and a comment white space up to a number sign. */
  lemma InertIff(l: Line)
    ensures Blank(l) <==> AllWhite(l)
    ensures Comment(l) <==> exists n: nat :: n < |l| && l[n] == '#' && AllWhite(l[..n])
  {
    hide Blank, Comment, AllWhite;
    BlankIff(l);
    if Comment(l) {
      var n := CommentFound(l);
    }
    if n: nat :| n < |l| && l[n] == '#' && AllWhite(l[..n]) {
      CommentAt(l, n);
    }
  }
}
