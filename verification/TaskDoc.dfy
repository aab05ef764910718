/** The task document in memory and on disk, edited by splicing its lines. */
module TaskDoc {
  import opened Wrappers
  import opened TaskText
  import opened TaskSyntax
  import opened TaskSurgery
  import TaskParser

  /** The first item of that id. */
  function FindTask(items: seq<Item>, id: string): (j: Option<nat>)
    ensures j.Some? ==> j.value < |items| && IdOf(items[j.value]) == id
    ensures j.Some? ==> forall i :: 0 <= i < j.value ==> IdOf(items[i]) != id
    ensures j.None? ==> forall i :: 0 <= i < |items| ==> IdOf(items[i]) != id
  {
    if items == [] then None
    else if IdOf(items[0]) == id then Some(0)
    else
      var rest := FindTask(items[1..], id);
      if rest.Some? then Some(rest.value + 1) else None
  }

  class Doc {
    var file: string
    var lines: seq<Line>
    var parsed: Parsed

    /** What is in memory is what is on disk, parsed. */
    ghost predicate Loaded()
      reads this
    {
      lines == SplitAt(file, '\n') && parsed == Parse(lines)
    }

    constructor (file: string)
      ensures this.file == file && Loaded()
    {
      this.file := file;
      lines := SplitAt(file, '\n');
      new;
      parsed := TaskParser.ParseLines(lines);
    }

    method Save()
      modifies this`file
      ensures file == JoinWith(lines, "\n")
    {
      file := JoinWith(lines, "\n");
    }

    /** Read again; false when the file no longer parses. */
    method Reload() returns (ok: bool)
      modifies this`lines, this`parsed
      ensures Loaded() && (ok <==> Clean(parsed))
    {
      lines := SplitAt(file, '\n');
      parsed := TaskParser.ParseLines(lines);
      ok := parsed.errors == [];
    }

    method RequireTask(id: string) returns (found: Option<nat>)
      ensures found == FindTask(parsed.items, id)
    {
      hide FindTask, IdOf;
      var i := 0;
      while i < |parsed.items|
        invariant 0 <= i <= |parsed.items|
        invariant forall k :: 0 <= k < i ==> IdOf(parsed.items[k]) != id
      {
        if IdOf(parsed.items[i]) == id {
          return Some(i);
        }
        i := i + 1;
      }
      found := None;
    }

    /** False when the command dies; then nothing has been edited. */
    method SetScalar(id: string, key: string, value: string) returns (ok: bool)
      requires Loaded()
      modifies this`lines
      ensures var j := FindTask(parsed.items, id);
              if j.None? then !ok && lines == old(lines)
              else
                && Standing(old(lines), parsed.items[j.value])
                && exists anchor ::
                     && Anchor(parsed.items[j.value], key, anchor) && anchor < |old(lines)|
                     && var edited := ScalarSet(old(lines), parsed.items[j.value], key, value, anchor);
                        ok == edited.Some? && lines == if ok then edited.value else old(lines)
    {
      var j := RequireTask(id);
      if j.None? {
        return false;
      }
      hide Parse, Anchor, FindTask, RenderKey;
      ItemsStand(lines, j.value);
      var item := parsed.items[j.value];
      var anchor := FindAnchor(item, key);
      AnchorStands(lines, item, key, anchor);
      if key in item.fields {
        if !item.fields[key].content.Scalar? {
          return false;
        }
        lines := lines[item.fields[key].keyLine := RenderKey(key, value)];
        return true;
      }
      lines := lines[..anchor + 1] + [RenderKey(key, value)] + lines[anchor + 1..];
      ok := true;
    }

    /** The latest line any canonical key that sorts before this one ends on. */
    method FindAnchor(item: Item, key: string) returns (anchor: int)
      requires item.startLine <= item.endLine
      ensures Anchor(item, key, anchor)
    {
      anchor := item.startLine;
      var left := item.fields.Keys;
      while left != {}
        invariant left <= item.fields.Keys && item.startLine <= anchor
        invariant anchor == item.startLine
          || exists k :: k in item.fields && Precedes(k, key) && item.fields[k].endLine == anchor
        invariant forall k <- item.fields :: k !in left && Precedes(k, key) ==> item.fields[k].endLine <= anchor
        decreases |left|
      {
        var k :| k in left;
        if OrderOf(k) != -1 && (OrderOf(key) == -1 || OrderOf(k) < OrderOf(key)) {
          anchor := MaxOf(anchor, item.fields[k].endLine);
        }
        left := left - {k};
      }
    }

    method SetFlowList(id: string, key: string, values: seq<string>) returns (ok: bool)
      requires Loaded()
      modifies this`lines
      ensures var j := FindTask(parsed.items, id);
              if j.None? then !ok && lines == old(lines)
              else
                && Standing(old(lines), parsed.items[j.value])
                && var edited := FlowListSet(old(lines), parsed.items[j.value], key, values);
                   ok == edited.Some? && lines == if ok then edited.value else old(lines)
    {
      var j := RequireTask(id);
      if j.None? {
        return false;
      }
      ItemsStand(lines, j.value);
      var item := parsed.items[j.value];
      var rendered := "  " + key + ": " + "[" + JoinWith(values, ", ") + "]";
      assert rendered == RenderKey(key, RenderList(values));
      if key in item.fields {
        var existing := item.fields[key];
        if existing.content.BlockSeq? {
          return false;
        }
        lines := lines[..existing.keyLine] + [rendered] + lines[existing.endLine + 1..];
        return true;
      }
      lines := lines[..item.endLine + 1] + [rendered] + lines[item.endLine + 1..];
      ok := true;
    }

    method AppendNote(id: string, text: string) returns (ok: bool)
      requires Loaded()
      modifies this`lines
      ensures var j := FindTask(parsed.items, id);
              if j.None? then !ok && lines == old(lines)
              else
                && Standing(old(lines), parsed.items[j.value])
                && var edited := NoteAppended(old(lines), parsed.items[j.value], text);
                   ok == edited.Some? && lines == if ok then edited.value else old(lines)
    {
      var j := RequireTask(id);
      if j.None? {
        return false;
      }
      ItemsStand(lines, j.value);
      var item := parsed.items[j.value];
      var body := Indent(SplitAt(text, '\n'));
      if "notes" in item.fields {
        var notes := item.fields["notes"];
        if !notes.content.BlockScalar? {
          return false;
        }
        lines := lines[..notes.endLine + 1] + body + lines[notes.endLine + 1..];
        return true;
      }
      lines := lines[..item.endLine + 1] + ([NOTES] + body) + lines[item.endLine + 1..];
      ok := true;
    }
  }

  /** Saving and reading back gives the same lines, since none of them has a line break in it. */
  lemma SavedLinesRead(lines: seq<Line>)
    requires lines != [] && forall l <- lines :: '\n' !in l
    ensures SplitAt(JoinWith(lines, "\n"), '\n') == lines
  {
    JoinSplits(lines, '\n');
  }
}
