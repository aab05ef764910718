/** The command that derives `blocks` from `depends_on`, one edited and re-read task at a time. */
module TaskSync {
  import opened Wrappers
  import opened TaskText
  import opened TaskSyntax
  import opened TaskTokens
  import opened TaskSurgery
  import opened TaskDoc
  import opened TaskSyncSpec
  import opened TextOrder
  import Sorting

  /** Ids that can be told apart, and written in a list; `blocks` on no line that opens an item. */
  ghost predicate Syncable(lines: seq<Line>) {
    && Clean(Parse(lines)) && DistinctIds(Views(Parse(lines)))
    && (forall i :: 0 <= i < |Views(Parse(lines))| ==> PlainEntry(IdIn(Views(Parse(lines))[i])))
    && "blocks" !in Opening(lines)
    && SingleLines(lines)
  }

  /** What splitting a file by line yields. */
  predicate SingleLines(lines: seq<Line>) {
    lines != [] && forall l <- lines :: '\n' !in l
  }

  lemma IdsAgree(item: Item)
    ensures IdOf(item) == IdIn(View(item))
    ensures ListIn(View(item), "blocks") == FieldList(item, "blocks")
    ensures ListIn(View(item), "depends_on") == FieldList(item, "depends_on")
  {
    KeysOfView(item, "id");
    KeysOfView(item, "blocks");
    KeysOfView(item, "depends_on");
  }

  function FieldList(item: Item, key: string): seq<string> {
    if key in item.fields && (item.fields[key].content.Flow? || item.fields[key].content.BlockSeq?)
    then item.fields[key].content.list else []
  }

  lemma ViewsAt(p: Parsed, i: nat)
    requires i < |p.items|
    ensures |Views(p)| == |p.items| && Views(p)[i] == View(p.items[i])
    ensures IdIn(Views(p)[i]) == IdOf(p.items[i])
  {
    IdsAgree(p.items[i]);
  }

  /** With distinct ids the task found by an id is the one that has it. */
  lemma FoundIs(p: Parsed, i: nat)
    requires i < |p.items| && DistinctIds(Views(p))
    ensures FindTask(p.items, IdOf(p.items[i])) == Some(i)
  {
    var j := FindTask(p.items, IdOf(p.items[i]));
    ViewsAt(p, i);
    if j.Some? {
      ViewsAt(p, j.value);
    }
  }

  // ------------------------------------------------------------- the inversion

  /** Each known id with who depends on it so far, and how many dependencies name no task. */
  ghost predicate Gathered(wanted: map<string, seq<string>>, views: seq<Shown>, all: seq<Shown>) {
    && (forall id :: id in wanted <==> Known(all, id))
    && forall id <- wanted :: wanted[id] == Dependents(views, id)
  }

  /** Every id with nobody depending on it. */
  method NobodyYet(p: Parsed) returns (wanted: map<string, seq<string>>)
    ensures forall id :: id in wanted <==> exists k :: 0 <= k < |p.items| && IdOf(p.items[k]) == id
    ensures forall id <- wanted :: wanted[id] == []
  {
    hide IdOf;
    wanted := map[];
    var i := 0;
    while i < |p.items|
      invariant 0 <= i <= |p.items|
      invariant forall id :: id in wanted <==> exists k :: 0 <= k < i && IdOf(p.items[k]) == id
      invariant forall id <- wanted :: wanted[id] == []
    {
      wanted := wanted[IdOf(p.items[i]) := []];
      i := i + 1;
    }
  }

  method Invert(p: Parsed) returns (wanted: map<string, seq<string>>, dangling: nat)
    ensures Gathered(wanted, Views(p), Views(p)) && dangling == Dangling(Views(p), Views(p))
  {
    hide IdOf, View, Dependents, Dangling, Known;
    ghost var views := Views(p);
    dangling := 0;
    wanted := NobodyYet(p);
    assert views[..0] == [];
    NoneGathered(p, wanted);
    var i := 0;
    while i < |p.items|
      invariant 0 <= i <= |p.items| == |views|
      invariant Gathered(wanted, views[..i], views)
      invariant dangling == Dangling(views[..i], views)
    {
      wanted, dangling := InvertOne(p, i, wanted, dangling);
      assert views[..i + 1][..i] == views[..i];
      i := i + 1;
    }
    assert views[..i] == views;
  }

  lemma NoneGathered(p: Parsed, wanted: map<string, seq<string>>)
    requires forall id :: id in wanted <==> exists k :: 0 <= k < |p.items| && IdOf(p.items[k]) == id
    requires forall id <- wanted :: wanted[id] == []
    ensures Gathered(wanted, [], Views(p)) && Dangling([], Views(p)) == 0
  {
    forall id
      ensures id in wanted <==> Known(Views(p), id)
    {
      forall k | 0 <= k < |p.items|
        ensures IdIn(Views(p)[k]) == IdOf(p.items[k])
      {
        ViewsAt(p, k);
      }
      if id in wanted {
        var k :| 0 <= k < |p.items| && IdOf(p.items[k]) == id;
        assert IdIn(Views(p)[k]) == id;
      }
    }
  }

  /** The dependencies of one task. */
  method InvertOne(p: Parsed, i: nat, before: map<string, seq<string>>, dangled: nat)
    returns (wanted: map<string, seq<string>>, dangling: nat)
    requires i < |p.items| && Gathered(before, Views(p)[..i], Views(p)) && dangled == Dangling(Views(p)[..i], Views(p))
    ensures Gathered(wanted, Views(p)[..i + 1], Views(p)) && dangling == Dangling(Views(p)[..i + 1], Views(p))
  {
    hide IdIn, ListIn, View, Views, Copies, Missing, Known, FieldList;
    ViewsAt(p, i);
    IdsAgree(p.items[i]);
    var id, list := IdOf(p.items[i]), FieldList(p.items[i], "depends_on");
    wanted, dangling := Push(id, list, before, dangled, Views(p));
    GatheredNext(before, wanted, Views(p), i);
  }

  method Push(id: string, list: seq<string>, before: map<string, seq<string>>, dangled: nat, ghost all: seq<Shown>)
    returns (wanted: map<string, seq<string>>, dangling: nat)
    requires forall d :: d in before <==> Known(all, d)
    ensures wanted.Keys == before.Keys && forall d <- wanted :: wanted[d] == before[d] + Copies(list, d, id)
    ensures dangling == dangled + Missing(list, all)
  {
    hide Known, Copies, Missing;
    wanted, dangling := before, dangled;
    NonePushed(before, id, all);
    var k := 0;
    while k < |list|
      invariant 0 <= k <= |list|
      invariant Pushed(before, wanted, list[..k], id)
      invariant dangling == dangled + Missing(list[..k], all)
    {
      var d := list[k];
      MissingNext(list, k, all);
      PushedNext(before, wanted, list, k, id);
      if d !in wanted {
        dangling := dangling + 1;
      } else {
        wanted := wanted[d := wanted[d] + [id]];
      }
      k := k + 1;
    }
    assert list[..k] == list;
  }

  /** Each id that is known has been given one more dependent for every entry naming it. */
  ghost predicate Pushed(
    before: map<string, seq<string>>, wanted: map<string, seq<string>>, list: seq<string>, id: string)
  {
    wanted.Keys == before.Keys && forall d <- wanted :: wanted[d] == before[d] + Copies(list, d, id)
  }

  lemma NonePushed(before: map<string, seq<string>>, id: string, all: seq<Shown>)
    ensures Pushed(before, before, [], id) && Missing([], all) == 0
  {
  }

  lemma {:induction false} MissingNext(list: seq<string>, k: nat, all: seq<Shown>)
    requires k < |list|
    ensures Missing(list[..k + 1], all) == Missing(list[..k], all) + (if Known(all, list[k]) then 0 else 1)
  {
    hide Known;
    assert list[..k + 1][..k] == list[..k];
  }

  lemma {:induction false} CopiesNext(list: seq<string>, k: nat, d: string, id: string)
    requires k < |list|
    ensures Copies(list[..k + 1], d, id) == Copies(list[..k], d, id) + (if list[k] == d then [id] else [])
  {
    assert list[..k + 1][..k] == list[..k];
  }

  lemma {:induction false} PushedNext(
    before: map<string, seq<string>>, wanted: map<string, seq<string>>, list: seq<string>, k: nat, id: string)
    requires k < |list| && Pushed(before, wanted, list[..k], id)
    ensures var d := list[k];
            Pushed(before, if d in wanted then wanted[d := wanted[d] + [id]] else wanted, list[..k + 1], id)
  {
    hide Copies;
    var d := list[k];
    var next := if d in wanted then wanted[d := wanted[d] + [id]] else wanted;
    forall x <- next
      ensures next[x] == before[x] + Copies(list[..k + 1], x, id)
    {
      CopiesNext(list, k, x, id);
    }
  }

  lemma {:induction false} GatheredNext(
    before: map<string, seq<string>>, wanted: map<string, seq<string>>, views: seq<Shown>, i: nat)
    requires i < |views| && Gathered(before, views[..i], views) && wanted.Keys == before.Keys
    requires forall d <- wanted :: wanted[d] == before[d] + Copies(ListIn(views[i], "depends_on"), d, IdIn(views[i]))
    ensures Gathered(wanted, views[..i + 1], views)
    ensures Dangling(views[..i + 1], views)
      == Dangling(views[..i], views) + Missing(ListIn(views[i], "depends_on"), views)
  {
    hide Known, Copies, Missing, IdIn, ListIn, Dependents, Dangling;
    DanglingNext(views, i);
    forall d <- wanted
      ensures wanted[d] == Dependents(views[..i + 1], d)
    {
      DependentsNext(views, i, d);
    }
  }

  lemma DependentsNext(views: seq<Shown>, i: nat, d: string)
    requires i < |views|
    ensures Dependents(views[..i + 1], d)
      == Dependents(views[..i], d) + Copies(ListIn(views[i], "depends_on"), d, IdIn(views[i]))
  {
    hide Copies, IdIn, ListIn;
    assert views[..i + 1][..i] == views[..i] && views[..i + 1][i] == views[i];
  }

  lemma {:induction false} DanglingNext(views: seq<Shown>, i: nat)
    requires i < |views|
    ensures Dangling(views[..i + 1], views)
      == Dangling(views[..i], views) + Missing(ListIn(views[i], "depends_on"), views)
  {
    hide Missing, ListIn;
    assert views[..i + 1][..i] == views[..i] && views[..i + 1][i] == views[i];
  }

  // ---------------------------------------------------------------- the command

  /** Task `i` can be rewritten, or need not be. */
  ghost predicate Rewritable(views: seq<Shown>, i: nat)
    requires i < |views|
  {
    UpToDate(views, views[i]) || !("blocks" in views[i] && views[i]["blocks"].BlockSeq?)
  }

  /** What editing one task comes to, in memory and, re-read, on disk. */
  lemma OneTaskSynced(lines: seq<Line>, views: seq<Shown>, i: nat, edited: seq<Line>)
    requires i < |views| && Clean(Parse(lines)) && Views(Parse(lines)) == SyncedTo(views, i)
    requires |Parse(lines).items| == |views| && Changed(lines, edited, i, "blocks", Flow(Wanted(views, IdIn(views[i]))))
    requires !UpToDate(views, views[i])
    ensures Clean(Parse(edited)) && Views(Parse(edited)) == SyncedTo(views, i + 1)
  {
    hide Parse, UpToDate, Wanted;
    ViewsAt(Parse(lines), i);
    assert View(Parse(lines).items[i]) == views[i];
  }

  lemma AlreadySynced(views: seq<Shown>, i: nat)
    requires i < |views| && UpToDate(views, views[i])
    ensures SyncedTo(views, i + 1) == SyncedTo(views, i)
  {
    hide UpToDate;
  }

  /** Every entry that a sync writes is the id of a task, and can be written. */
  lemma WantedIsPlain(views: seq<Shown>, id: string)
    requires forall i :: 0 <= i < |views| ==> PlainEntry(IdIn(views[i]))
    ensures forall v <- Wanted(views, id) :: PlainEntry(v)
  {
    hide PlainEntry, IdIn, ListIn;
    Sorting.SortMembers(TextLess, Dependents(views, id));
    forall v <- Wanted(views, id)
      ensures PlainEntry(v)
    {
      DependentsHold(views, id, v);
      var i :| 0 <= i < |views| && IdIn(views[i]) == v && id in ListIn(views[i], "depends_on");
    }
  }

  /** A task whose `blocks` must change is edited to what it should be, when its list can be rewritten. */
  lemma EditIsChange(lines: seq<Line>, views: seq<Shown>, i: nat)
    requires Clean(Parse(lines)) && i < |Parse(lines).items| && "blocks" !in Opening(lines)
    requires forall k :: 0 <= k < |views| ==> PlainEntry(IdIn(views[k]))
    ensures Standing(lines, Parse(lines).items[i])
    ensures var next := Wanted(views, IdIn(Views(Parse(lines))[i]));
            var edited := FlowListSet(lines, Parse(lines).items[i], "blocks", next);
            && (edited.None? <==> "blocks" in Views(Parse(lines))[i] && Views(Parse(lines))[i]["blocks"].BlockSeq?)
            && (edited.Some? ==>
                 && Changed(lines, edited.value, i, "blocks", Flow(next))
                 && Opening(edited.value) == Opening(lines))
  {
    hide Changed, Wanted, PlainEntry, Tokens, Build, Standing;
    var item := Parse(lines).items[i];
    var next := Wanted(views, IdIn(Views(Parse(lines))[i]));
    ViewsAt(Parse(lines), i);
    KeysOfView(item, "blocks");
    WantedIsPlain(views, IdIn(Views(Parse(lines))[i]));
    assert KeyName("blocks");
    FlowListCommutes(lines, i, "blocks", next);
    TokensAreSized(lines, false);
    ItemsOpenWith(Tokens(lines, false), i);
    assert Opening(lines)[i] in Opening(lines);
  }

  /** The first `n` tasks are up to date on disk, and nothing else about the document has changed. */
  ghost predicate Progress(lines: seq<Line>, views: seq<Shown>, n: nat)
    requires n <= |views|
  {
    && Clean(Parse(lines)) && |Parse(lines).items| == |views| && Views(Parse(lines)) == SyncedTo(views, n)
    && "blocks" !in Opening(lines) && DistinctIds(views)
    && (forall i :: 0 <= i < |views| ==> PlainEntry(IdIn(views[i])))
    && SingleLines(lines)
  }

  lemma SyncedToSize(views: seq<Shown>, n: nat)
    requires n <= |views|
    ensures |SyncedTo(views, n)| == |views|
  {
  }

  lemma SyncedIdSame(views: seq<Shown>, n: nat, i: nat)
    requires n <= |views| && i < |views|
    ensures |SyncedTo(views, n)| == |views| && IdIn(SyncedTo(views, n)[i]) == IdIn(views[i])
  {
    hide Wanted, UpToDate;
  }

  lemma {:induction false} SyncedIdsDistinct(views: seq<Shown>, n: nat)
    requires n <= |views| && DistinctIds(views)
    ensures |SyncedTo(views, n)| == |views| && DistinctIds(SyncedTo(views, n))
  {
    hide SyncedTo, IdIn;
    var synced := SyncedTo(views, n);
    SyncedToSize(views, n);
    forall i | 0 <= i < |views|
      ensures IdIn(synced[i]) == IdIn(views[i])
    {
      SyncedIdSame(views, n, i);
    }
  }

  /** The task to be brought up to date next, as the document now has it. */
  lemma NextTask(lines: seq<Line>, views: seq<Shown>, i: nat)
    requires i < |views| && Progress(lines, views, i)
    ensures var items := Parse(lines).items;
            && i < |items| && View(items[i]) == views[i] && Views(Parse(lines))[i] == views[i]
            && FindTask(items, IdIn(views[i])) == Some(i)
            && FieldList(items[i], "blocks") == ListIn(views[i], "blocks")
  {
    hide Parse, View, IdIn, ListIn, PlainEntry, Opening;
    SyncedIdsDistinct(views, i);
    ViewsAt(Parse(lines), i);
    IdsAgree(Parse(lines).items[i]);
    FoundIs(Parse(lines), i);
  }

  lemma EditedLines(lines: seq<Line>, item: Item, values: seq<string>)
    requires Standing(lines, item) && (forall v <- values :: PlainEntry(v))
    requires forall l <- lines :: '\n' !in l
    requires FlowListSet(lines, item, "blocks", values).Some?
    ensures var edited := FlowListSet(lines, item, "blocks", values).value;
            edited != [] && forall l <- edited :: '\n' !in l
  {
    hide PlainEntry;
    PlainIsText(values);
    RenderedListShape(values);
    var line := RenderKey("blocks", RenderList(values));
    assert '\n' !in "  blocks: " && line == "  blocks: " + RenderList(values);
    assert '\n' in RenderList(values) ==> Terminator('\n');
    var edited := FlowListSet(lines, item, "blocks", values).value;
    assert line in edited;
    assert forall l <- edited :: l in lines || l == line;
  }

  lemma {:induction false} ProgressMade(lines: seq<Line>, views: seq<Shown>, i: nat)
    requires i < |views| && Progress(lines, views, i) && !UpToDate(views, views[i])
    ensures i < |Parse(lines).items| && Standing(lines, Parse(lines).items[i])
    ensures var next := Wanted(views, IdIn(views[i]));
            var edited := FlowListSet(lines, Parse(lines).items[i], "blocks", next);
            && (edited.Some? <==> Rewritable(views, i))
            && (edited.Some? ==> Progress(edited.value, views, i + 1))
  {
    hide Wanted, UpToDate, Parse, Standing, PlainEntry, IdIn, View, FlowListSet, Opening, Changed;
    NextTask(lines, views, i);
    EditIsChange(lines, views, i);
    var next := Wanted(views, IdIn(views[i]));
    var edited := FlowListSet(lines, Parse(lines).items[i], "blocks", next);
    if edited.Some? {
      WantedIsPlain(views, IdIn(views[i]));
      EditedLines(lines, Parse(lines).items[i], next);
      OneTaskSynced(lines, views, i, edited.value);
      ViewsSize(Parse(edited.value), SyncedTo(views, i + 1));
    }
  }

  lemma ViewsSize(p: Parsed, views: seq<Shown>)
    requires Views(p) == views
    ensures |p.items| == |views|
  {
    assert |Views(p)| == |p.items|;
  }

  method SyncTask(doc: Doc, ghost views: seq<Shown>, ghost i: nat, id: string, dependents: seq<string>)
    returns (done: bool, edited: bool)
    requires i < |views| && doc.Loaded() && Progress(doc.lines, views, i)
    requires id == IdIn(views[i]) && dependents == Dependents(views, id)
    modifies doc
    ensures done <==> Rewritable(views, i)
    ensures doc.Loaded() && Progress(doc.lines, views, if done then i + 1 else i)
    ensures edited <==> done && !UpToDate(views, views[i])
    ensures !edited ==> doc.lines == old(doc.lines) && doc.file == old(doc.file)
  {
    hide Parse, View, Progress, Dependents, IdIn, ListIn, Standing, FlowListSet;
    NextTask(doc.lines, views, i);
    var j := doc.RequireTask(id);
    var current := FieldList(doc.parsed.items[j.value], "blocks");
    var next := Sorting.Sort(TextLess, dependents);
    edited := false;
    if current == next {
      ProgressUnchanged(doc.lines, views, i);
      return true, false;
    }
    ProgressMade(doc.lines, views, i);
    done := doc.SetFlowList(id, "blocks", next);
    if !done {
      return false, false;
    }
    ProgressReads(doc.lines, views, i + 1);
    doc.Save();
    var clean := doc.Reload();
    edited := true;
  }

  lemma {:induction false} ProgressUnchanged(lines: seq<Line>, views: seq<Shown>, i: nat)
    requires i < |views| && Progress(lines, views, i) && UpToDate(views, views[i])
    ensures Progress(lines, views, i + 1)
  {
    hide UpToDate, Parse, Opening, PlainEntry;
    AlreadySynced(views, i);
  }

  /** What was saved reads back as it was written. */
  lemma ProgressReads(lines: seq<Line>, views: seq<Shown>, n: nat)
    requires n <= |views| && Progress(lines, views, n)
    ensures SplitAt(JoinWith(lines, "\n"), '\n') == lines
  {
    hide Parse, SplitAt, JoinWith, PlainEntry, Opening;
    SavedLinesRead(lines);
  }

  function Ids(p: Parsed): (ids: seq<string>)
    ensures |ids| == |p.items| && forall i :: 0 <= i < |ids| ==> ids[i] == IdOf(p.items[i])
  {
    seq(|p.items|, i requires 0 <= i < |p.items| => IdOf(p.items[i]))
  }

  lemma SyncStarts(lines: seq<Line>, views: seq<Shown>)
    requires Syncable(lines) && views == Views(Parse(lines))
    ensures Progress(lines, views, 0)
  {
    hide Parse, PlainEntry, Opening, SingleLines;
    assert |views| == |Parse(lines).items|;
    assert SyncedTo(views, 0) == views;
  }

  /** A task's id is one of those gathered, with who depends on it. */
  lemma GatheredOf(wanted: map<string, seq<string>>, views: seq<Shown>, i: nat)
    requires i < |views| && Gathered(wanted, views, views)
    ensures IdIn(views[i]) in wanted && wanted[IdIn(views[i])] == Dependents(views, IdIn(views[i]))
  {
    hide IdIn, Dependents;
    assert Known(views, IdIn(views[i]));
  }

  /** The loop over the tasks; `at` is the task it stopped at. */
  method SyncEach(doc: Doc, ghost views: seq<Shown>, order: seq<string>, wanted: map<string, seq<string>>)
    returns (ok: bool, changed: nat, ghost at: nat)
    requires doc.Loaded() && Progress(doc.lines, views, 0) && Gathered(wanted, views, views)
    requires |order| == |views| && forall i :: 0 <= i < |views| ==> IdIn(views[i]) == order[i]
    modifies doc
    ensures at <= |views| && (ok <==> at == |views|) && (!ok ==> !Rewritable(views, at))
    ensures forall k :: 0 <= k < at ==> Rewritable(views, k)
    ensures doc.Loaded() && Progress(doc.lines, views, at) && changed == Stale(views, at)
    ensures changed == 0 ==> doc.lines == old(doc.lines) && doc.file == old(doc.file)
  {
    hide Parse, Views, Dependents, Dangling, UpToDate, PlainEntry, IdIn, ListIn;
    hide Gathered, Progress, Rewritable, SplitAt;
    changed, at := 0, 0;
    var i := 0;
    while i < |order|
      invariant 0 <= i <= |order| && at == i
      invariant Progress(doc.lines, views, i) && doc.Loaded()
      invariant forall k :: 0 <= k < i ==> Rewritable(views, k)
      invariant changed == Stale(views, i)
      invariant changed == 0 ==> doc.lines == old(doc.lines) && doc.file == old(doc.file)
    {
      GatheredOf(wanted, views, i);
      var done, edited := SyncTask(doc, views, i, order[i], wanted[order[i]]);
      if !done {
        return false, changed, i;
      }
      if edited {
        changed := changed + 1;
      }
      i := i + 1;
      at := i;
    }
    ok := true;
  }

  /**
   * Brings every task's `blocks` up to date, saving and re-reading after each edit. False when it dies:
   * over a dangling reference it was not told to pass over, or over a block sequence it would have to rewrite;
   * the tasks before that one have then been brought up to date. Counts exactly the tasks that were not.
   */
  method SyncBlocks(doc: Doc, force: bool) returns (ok: bool, changed: nat)
    requires doc.Loaded() && Syncable(doc.lines)
    modifies doc
    ensures var views := old(Views(doc.parsed));
            && (ok <==>
                 && (Dangling(views, views) == 0 || force)
                 && forall i :: 0 <= i < |views| ==> Rewritable(views, i))
            && (ok ==> Views(doc.parsed) == Synced(views) && changed == Stale(views, |views|))
            && (!ok ==> exists n: nat :: SyncedUpTo(doc.parsed, views, n, changed))
    ensures doc.Loaded() && Syncable(doc.lines)
    ensures changed == 0 ==> doc.lines == old(doc.lines) && doc.file == old(doc.file)
  {
    hide Parse, Views, Dependents, Dangling, UpToDate, PlainEntry, IdIn, ListIn, SplitAt;
    hide Gathered, Progress, Rewritable, Syncable, SyncedTo;
    ghost var views := Views(doc.parsed);
    var order := Ids(doc.parsed);
    OrderOfIds(doc.parsed);
    var wanted, dangling := Invert(doc.parsed);
    SyncStarts(doc.lines, views);
    ghost var at := 0;
    if dangling != 0 && !force {
      ok, changed := false, 0;
    } else {
      ok, changed, at := SyncEach(doc, views, order, wanted);
    }
    ProgressIs(doc.lines, views, at);
    assert SyncedUpTo(doc.parsed, views, at, changed);
  }

  /** The first `n` tasks have been brought up to date, `changed` of which were not. */
  ghost predicate SyncedUpTo(p: Parsed, views: seq<Shown>, n: nat, changed: nat) {
    n <= |views| && Views(p) == SyncedTo(views, n) && changed == Stale(views, n)
  }

  /** A sync that ran to its end, run again: it succeeds as well, and writes nothing. */
  method SyncTwice(doc: Doc, force: bool) returns (ok: bool, again: bool, changed: nat, ghost synced: string)
    requires doc.Loaded() && Syncable(doc.lines)
    modifies doc
    ensures ok ==> again && changed == 0 && doc.file == synced
    ensures ok ==> Views(doc.parsed) == Synced(old(Views(doc.parsed)))
  {
    hide Parse, Views, Dependents, Dangling, UpToDate, IdIn, ListIn, Rewritable, Syncable, SyncedTo;
    ghost var views := Views(doc.parsed);
    ok, changed := SyncBlocks(doc, force);
    synced := doc.file;
    again := false;
    if ok {
      SyncedDangling(views);
      forall i | 0 <= i < |Synced(views)|
        ensures UpToDate(Synced(views), Synced(views)[i]) && Rewritable(Synced(views), i)
      {
        SyncedSize(views);
        SyncedIsUpToDate(views, i);
        UpToDateIsRewritable(Synced(views), i);
      }
      NoneStale(Synced(views), |Synced(views)|);
      again, changed := SyncBlocks(doc, force);
    }
  }

  lemma OrderOfIds(p: Parsed)
    ensures |Views(p)| == |p.items| && forall i :: 0 <= i < |p.items| ==> IdIn(Views(p)[i]) == IdOf(p.items[i])
  {
    assert |Views(p)| == |p.items|;
    forall i | 0 <= i < |p.items|
      ensures IdIn(Views(p)[i]) == IdOf(p.items[i])
    {
      ViewsAt(p, i);
    }
  }

  lemma UpToDateIsRewritable(views: seq<Shown>, i: nat)
    requires i < |views|
    ensures UpToDate(views, views[i]) ==> Rewritable(views, i)
  {
  }

  /** Wherever a sync stops, the document can be synced again. */
  lemma ProgressIs(lines: seq<Line>, views: seq<Shown>, n: nat)
    requires n <= |views| && Progress(lines, views, n)
    ensures Syncable(lines) && Views(Parse(lines)) == SyncedTo(views, n)
  {
    hide Parse, Opening, PlainEntry, SingleLines, SyncedTo;
    SyncedIdsDistinct(views, n);
    forall i | 0 <= i < |views|
      ensures IdIn(SyncedTo(views, n)[i]) == IdIn(views[i])
    {
      SyncedIdSame(views, n, i);
    }
  }
}
