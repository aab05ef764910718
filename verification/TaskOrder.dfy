/** Where line surgery puts a scalar that an item does not have yet. */
module TaskOrder {
  import opened Wrappers
  import opened TaskText
  import opened TaskSyntax
  import opened TaskSurgery

  /** The canonical order of scalar keys. */
  const CANONICAL := ["id", "title", "milestone", "status", "owner", "estimate", "risk", "started_at", "blocked_at",
                      "done_at"]

  /** Both are canonical and `k` comes first, or only `k` is canonical. */
  ghost predicate ComesBefore(k: string, key: string) {
    exists i :: 0 <= i < 10 && CANONICAL[i] == k && key !in CANONICAL[..i + 1]
  }

  lemma {:induction false} IndexInMeans(names: seq<string>, key: string, from: nat)
    requires from <= |names|
    ensures var i := IndexIn(names, key, from);
            if i == -1 then key !in names[from..] else from <= i && names[i] == key && key !in names[from..i]
    decreases |names| - from
  {
    if from < |names| && names[from] != key {
      IndexInMeans(names, key, from + 1);
      assert names[from..] == [names[from]] + names[from + 1..];
      var i := IndexIn(names, key, from + 1);
      if i != -1 {
        assert names[from..i] == [names[from]] + names[from + 1..i];
      }
    }
  }

  lemma OrderMeans(key: string)
    ensures OrderOf(key) == -1 <==> key !in CANONICAL
    ensures OrderOf(key) != -1 ==>
      0 <= OrderOf(key) < 10 && CANONICAL[OrderOf(key)] == key && key !in CANONICAL[..OrderOf(key)]
  {
    assert CANONICAL == SCALAR_ORDER;
    IndexInMeans(SCALAR_ORDER, key, 0);
    assert SCALAR_ORDER[0..] == SCALAR_ORDER;
  }

  lemma PrecedesIff(k: string, key: string)
    ensures Precedes(k, key) <==> ComesBefore(k, key)
  {
    hide OrderOf;
    OrderMeans(k);
    OrderMeans(key);
    var i, j := OrderOf(k), OrderOf(key);
    PrefixWithin(key, i + 1, if j == -1 then 10 else j);
    if ComesBefore(k, key) {
      var m :| 0 <= m < 10 && CANONICAL[m] == k && key !in CANONICAL[..m + 1];
      PrefixHolds(m, i);
      PrefixHolds(j, m + 1);
    }
  }

  /** The item's canonical keys stand in their order. */
  ghost predicate InOrder(item: Item) {
    forall k, l :: k in item.fields && l in item.fields && ComesBefore(k, l) && l in CANONICAL ==>
      item.fields[k].endLine < item.fields[l].keyLine
  }

  /**
   * A scalar the item lacks goes in where the order wants it: no line below the anchor belongs to
   * a key that comes before it, and when the item's keys stand in order no line above it belongs
   * to one that comes after, save on the opening line.
   */
  lemma AnchorKeepsOrder(item: Item, key: string, at: int)
    requires Anchor(item, key, at) && key !in item.fields
    ensures item.startLine <= at
    ensures forall k <- item.fields :: ComesBefore(k, key) ==> item.fields[k].endLine <= at
    ensures InOrder(item) ==> forall k <- item.fields ::
      ComesBefore(key, k) && k in CANONICAL && item.fields[k].keyLine > item.startLine ==> at < item.fields[k].keyLine
  {
    hide ComesBefore, Precedes;
    forall k, l
      ensures Precedes(k, l) <==> ComesBefore(k, l)
    {
      PrecedesIff(k, l);
    }
    if InOrder(item) && at != item.startLine {
      var p :| p in item.fields && Precedes(p, key) && item.fields[p].endLine == at;
      forall k | k in item.fields && ComesBefore(key, k) && k in CANONICAL
        ensures at < item.fields[k].keyLine
      {
        BeforeIsTransitive(p, key, k);
      }
    }
  }

  lemma BeforeIsTransitive(p: string, key: string, k: string)
    requires ComesBefore(p, key) && ComesBefore(key, k)
    ensures ComesBefore(p, k)
  {
    var i :| 0 <= i < 10 && CANONICAL[i] == p && key !in CANONICAL[..i + 1];
    var j :| 0 <= j < 10 && CANONICAL[j] == key && k !in CANONICAL[..j + 1];
    PrefixHolds(j, i + 1);
    PrefixWithin(k, i + 1, j + 1);
  }

  lemma PrefixHolds(j: int, n: int)
    ensures 0 <= j < n <= 10 ==> CANONICAL[j] in CANONICAL[..n]
  {
    if 0 <= j < n <= 10 {
      assert CANONICAL[..n][j] == CANONICAL[j];
    }
  }

  lemma PrefixWithin(k: string, m: int, n: int)
    ensures 0 <= m <= n <= 10 && k in CANONICAL[..m] ==> k in CANONICAL[..n]
  {
    if 0 <= m <= n <= 10 {
      assert CANONICAL[..n] == CANONICAL[..m] + CANONICAL[m..n];
    }
  }

  /** When an edit dies: over a key that is there in another form than the edit can write. */
  lemma EditsDieIff(lines: seq<string>, item: Item, key: string, value: string, values: seq<string>, at: int)
    requires Standing(lines, item) && item.startLine <= at < |lines|
    ensures ScalarSet(lines, item, key, value, at) == None <==>
      key in item.fields && !item.fields[key].content.Scalar?
    ensures FlowListSet(lines, item, key, values) == None <==>
      key in item.fields && item.fields[key].content.BlockSeq?
    ensures NoteAppended(lines, item, value) == None <==>
      "notes" in item.fields && !item.fields["notes"].content.BlockScalar?
  {
    hide Spliced, RenderKey, RenderList, Indent, SplitAt;
  }
}
