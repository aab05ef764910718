/** `blocks` as the inverse of `depends_on`, stated on what the document parses to. */
module TaskSyncSpec {
  import opened TaskSyntax
  import opened TextOrder
  import Sorting

  type Shown = map<string, Content>

  function ListIn(view: Shown, key: string): seq<string> {
    if key in view && (view[key].Flow? || view[key].BlockSeq?) then view[key].list else []
  }

  function IdIn(view: Shown): string {
    if "id" in view && view["id"].Scalar? then view["id"].text else ""
  }

  predicate DistinctIds(views: seq<Shown>) {
    forall i, j :: 0 <= i < j < |views| ==> IdIn(views[i]) != IdIn(views[j])
  }

  predicate Known(views: seq<Shown>, id: string) {
    exists i :: 0 <= i < |views| && IdIn(views[i]) == id
  }

  /** As many copies of `dependent` as the list names `id`. */
  function Copies(list: seq<string>, id: string, dependent: string): seq<string> {
    if list == [] then []
    else Copies(list[..|list| - 1], id, dependent) + (if list[|list| - 1] == id then [dependent] else [])
  }

  /** Who depends on `id`, in document order. */
  function Dependents(views: seq<Shown>, id: string): seq<string> {
    if views == [] then []
    else
      var last := views[|views| - 1];
      Dependents(views[..|views| - 1], id) + Copies(ListIn(last, "depends_on"), id, IdIn(last))
  }

  /** What a task's `blocks` should be. */
  function Wanted(views: seq<Shown>, id: string): seq<string> {
    Sorting.Sort(TextLess, Dependents(views, id))
  }

  predicate UpToDate(views: seq<Shown>, view: Shown) {
    ListIn(view, "blocks") == Wanted(views, IdIn(view))
  }

  function SyncedOne(views: seq<Shown>, view: Shown): Shown {
    if UpToDate(views, view) then view else view["blocks" := Flow(Wanted(views, IdIn(view)))]
  }

  /** The document once the first `n` tasks have been brought up to date. */
  function SyncedTo(views: seq<Shown>, n: nat): seq<Shown>
    requires n <= |views|
  {
    seq(|views|, i requires 0 <= i < |views| => if i < n then SyncedOne(views, views[i]) else views[i])
  }

  function Synced(views: seq<Shown>): seq<Shown> {
    SyncedTo(views, |views|)
  }

  /** Dependencies that name no task. */
  function Dangling(views: seq<Shown>, all: seq<Shown>): nat {
    if views == [] then 0
    else
      Dangling(views[..|views| - 1], all) + Missing(ListIn(views[|views| - 1], "depends_on"), all)
  }

  function Missing(list: seq<string>, all: seq<Shown>): nat {
    if list == [] then 0
    else Missing(list[..|list| - 1], all) + (if Known(all, list[|list| - 1]) then 0 else 1)
  }

  // ------------------------------------------------------------- what it means

  /** `b` depends on `a`, by the ids the document gives. */
  predicate DependsOn(views: seq<Shown>, b: string, a: string) {
    exists i :: 0 <= i < |views| && IdIn(views[i]) == b && a in ListIn(views[i], "depends_on")
  }

  predicate Blocks(views: seq<Shown>, a: string, b: string) {
    exists i :: 0 <= i < |views| && IdIn(views[i]) == a && b in ListIn(views[i], "blocks")
  }

  lemma {:induction false} CopiesHold(list: seq<string>, id: string, dependent: string, x: string)
    ensures x in Copies(list, id, dependent) <==> x == dependent && id in list
  {
    if list != [] {
      CopiesHold(list[..|list| - 1], id, dependent, x);
      assert list == list[..|list| - 1] + [list[|list| - 1]];
    }
  }

  lemma DependsOnSnoc(views: seq<Shown>, b: string, a: string)
    requires views != []
    ensures DependsOn(views, b, a) <==>
      DependsOn(views[..|views| - 1], b, a)
      || (IdIn(views[|views| - 1]) == b && a in ListIn(views[|views| - 1], "depends_on"))
  {
    hide IdIn, ListIn;
    var front := views[..|views| - 1];
    assert forall i :: 0 <= i < |front| ==> front[i] == views[i];
    if DependsOn(front, b, a) {
      var i :| 0 <= i < |front| && IdIn(front[i]) == b && a in ListIn(front[i], "depends_on");
      assert IdIn(views[i]) == b;
    }
    if IdIn(views[|views| - 1]) == b && a in ListIn(views[|views| - 1], "depends_on") {
      assert DependsOn(views, b, a);
    }
  }

  lemma {:induction false} DependentsHold(views: seq<Shown>, id: string, x: string)
    ensures x in Dependents(views, id) <==> DependsOn(views, x, id)
  {
    hide IdIn, ListIn, Copies;
    if views != [] {
      var last := views[|views| - 1];
      DependentsHold(views[..|views| - 1], id, x);
      CopiesHold(ListIn(last, "depends_on"), id, IdIn(last), x);
      DependsOnSnoc(views, x, id);
    }
  }

  lemma SyncedKeeps(views: seq<Shown>, i: nat)
    requires i < |views|
    ensures IdIn(Synced(views)[i]) == IdIn(views[i])
    ensures ListIn(Synced(views)[i], "blocks") == Wanted(views, IdIn(views[i]))
    ensures forall key :: key != "blocks" ==>
      (key in Synced(views)[i] <==> key in views[i]) && (key in views[i] ==> Synced(views)[i][key] == views[i][key])
  {
    hide Wanted;
  }

  /** The same tasks depending on the same tasks. */
  ghost predicate SameEdges(views: seq<Shown>, others: seq<Shown>) {
    |views| == |others| && forall i :: 0 <= i < |views| ==>
      IdIn(views[i]) == IdIn(others[i]) && ListIn(views[i], "depends_on") == ListIn(others[i], "depends_on")
  }

  lemma {:induction false} SyncedSameEdges(views: seq<Shown>)
    ensures SameEdges(views, Synced(views))
  {
    hide IdIn, Synced;
    assert |Synced(views)| == |views| by { SyncedSize(views); }
    forall i | 0 <= i < |views|
      ensures IdIn(views[i]) == IdIn(Synced(views)[i])
      ensures ListIn(views[i], "depends_on") == ListIn(Synced(views)[i], "depends_on")
    {
      SyncedKeeps(views, i);
    }
  }

  lemma SyncedSize(views: seq<Shown>)
    ensures |Synced(views)| == |views|
  {
  }

  lemma SameDepends(views: seq<Shown>, others: seq<Shown>, b: string, a: string)
    requires SameEdges(views, others)
    ensures DependsOn(views, b, a) <==> DependsOn(others, b, a)
  {
    hide IdIn, ListIn;
  }

  lemma SyncedDepends(views: seq<Shown>, b: string, a: string)
    ensures DependsOn(Synced(views), b, a) <==> DependsOn(views, b, a)
  {
    hide Synced, DependsOn, SameEdges;
    SyncedSameEdges(views);
    SameDepends(views, Synced(views), b, a);
  }

  /** After a sync `blocks` is exactly the inverse of `depends_on`, over the tasks there are. */
  lemma SyncedIsInverse(views: seq<Shown>, a: string, b: string)
    ensures Known(views, a) ==> (Blocks(Synced(views), a, b) <==> DependsOn(Synced(views), b, a))
  {
    SyncedDepends(views, b, a);
    DependentsHold(views, a, b);
    Sorting.SortMembers(TextLess, Dependents(views, a));
    forall i | 0 <= i < |views|
      ensures IdIn(Synced(views)[i]) == IdIn(views[i])
      ensures ListIn(Synced(views)[i], "blocks") == Wanted(views, IdIn(views[i]))
    {
      SyncedKeeps(views, i);
    }
    if Known(views, a) {
      var i :| 0 <= i < |views| && IdIn(views[i]) == a;
      assert b in ListIn(Synced(views)[i], "blocks") <==> DependsOn(views, b, a);
    }
  }

  /** What the validator asks of every task: both directions, and only of tasks there are. */
  ghost predicate Symmetric(views: seq<Shown>) {
    forall i :: 0 <= i < |views| ==>
      && (forall d <- ListIn(views[i], "depends_on") :: Known(views, d) && Blocks(views, d, IdIn(views[i])))
      && (forall b <- ListIn(views[i], "blocks") :: Known(views, b) && DependsOn(views, b, IdIn(views[i])))
  }

  /** Those checks find nothing if and only if `blocks` is the inverse of `depends_on`. */
  lemma SymmetricIff(views: seq<Shown>)
    ensures Symmetric(views) <==> forall a, b :: DependsOn(views, b, a) <==> Blocks(views, a, b)
  {
    hide IdIn, ListIn;
    if Symmetric(views) {
      forall a, b
        ensures DependsOn(views, b, a) <==> Blocks(views, a, b)
      {
        if DependsOn(views, b, a) {
          var i :| 0 <= i < |views| && IdIn(views[i]) == b && a in ListIn(views[i], "depends_on");
          assert Blocks(views, a, IdIn(views[i]));
        }
        if Blocks(views, a, b) {
          var i :| 0 <= i < |views| && IdIn(views[i]) == a && b in ListIn(views[i], "blocks");
          assert DependsOn(views, b, IdIn(views[i]));
        }
      }
    }
    if forall a, b :: DependsOn(views, b, a) <==> Blocks(views, a, b) {
      forall i | 0 <= i < |views|
        ensures forall d <- ListIn(views[i], "depends_on") :: Known(views, d) && Blocks(views, d, IdIn(views[i]))
        ensures forall b <- ListIn(views[i], "blocks") :: Known(views, b) && DependsOn(views, b, IdIn(views[i]))
      {
        forall d <- ListIn(views[i], "depends_on")
          ensures Known(views, d) && Blocks(views, d, IdIn(views[i]))
        {
          assert DependsOn(views, IdIn(views[i]), d);
        }
        forall b <- ListIn(views[i], "blocks")
          ensures Known(views, b) && DependsOn(views, b, IdIn(views[i]))
        {
          assert Blocks(views, IdIn(views[i]), b);
        }
      }
    }
  }

  lemma {:induction false} NothingMissing(list: seq<string>, all: seq<Shown>)
    requires Missing(list, all) == 0
    ensures forall d <- list :: Known(all, d)
  {
    if list != [] {
      NothingMissing(list[..|list| - 1], all);
      assert list == list[..|list| - 1] + [list[|list| - 1]];
    }
  }

  lemma {:induction false} NothingDangles(views: seq<Shown>, all: seq<Shown>)
    requires Dangling(views, all) == 0
    ensures forall i, d :: 0 <= i < |views| && d in ListIn(views[i], "depends_on") ==> Known(all, d)
  {
    if views != [] {
      var front := views[..|views| - 1];
      NothingDangles(front, all);
      NothingMissing(ListIn(views[|views| - 1], "depends_on"), all);
      assert forall i :: 0 <= i < |front| ==> front[i] == views[i];
    }
  }

  lemma SyncedKnows(views: seq<Shown>, id: string)
    ensures Known(Synced(views), id) <==> Known(views, id)
  {
    forall i | 0 <= i < |views|
      ensures IdIn(Synced(views)[i]) == IdIn(views[i])
    {
      SyncedKeeps(views, i);
    }
    if Known(views, id) {
      var i :| 0 <= i < |views| && IdIn(views[i]) == id;
      assert IdIn(Synced(views)[i]) == id;
    }
  }

  /** With nothing dangling, the validator's symmetry checks then find nothing to report. */
  lemma {:induction false} SyncedIsSymmetric(views: seq<Shown>)
    requires Dangling(views, views) == 0
    ensures Symmetric(Synced(views))
  {
    hide Synced, IdIn, Wanted;
    var synced := Synced(views);
    SyncedSize(views);
    NothingDangles(views, views);
    forall i | 0 <= i < |synced|
      ensures forall d <- ListIn(synced[i], "depends_on") :: Known(synced, d) && Blocks(synced, d, IdIn(synced[i]))
      ensures forall b <- ListIn(synced[i], "blocks") :: Known(synced, b) && DependsOn(synced, b, IdIn(synced[i]))
    {
      SyncedKeeps(views, i);
      assert ListIn(synced[i], "depends_on") == ListIn(views[i], "depends_on");
      forall d <- ListIn(synced[i], "depends_on")
        ensures Known(synced, d) && Blocks(synced, d, IdIn(synced[i]))
      {
        SyncedKnows(views, d);
        SyncedIsInverse(views, d, IdIn(synced[i]));
        assert DependsOn(synced, IdIn(synced[i]), d);
      }
      forall b <- ListIn(synced[i], "blocks")
        ensures Known(synced, b) && DependsOn(synced, b, IdIn(synced[i]))
      {
        assert Blocks(synced, IdIn(synced[i]), b);
        assert Known(views, IdIn(views[i]));
        SyncedIsInverse(views, IdIn(synced[i]), b);
      }
    }
  }

  lemma {:induction false} SameDependents(views: seq<Shown>, others: seq<Shown>, id: string)
    requires SameEdges(views, others)
    ensures Dependents(views, id) == Dependents(others, id)
  {
    hide IdIn, ListIn, Copies;
    if views != [] {
      SameDependents(views[..|views| - 1], others[..|others| - 1], id);
    }
  }

  /** How many of the first `n` tasks are not up to date. */
  function Stale(views: seq<Shown>, n: nat): nat
    requires n <= |views|
  {
    if n == 0 then 0 else Stale(views, n - 1) + (if UpToDate(views, views[n - 1]) then 0 else 1)
  }

  lemma {:induction false} StaleCounts(views: seq<Shown>, n: nat)
    requires n <= |views|
    ensures Stale(views, n) == |set i: nat | i < n && !UpToDate(views, views[i])|
  {
    hide UpToDate;
    var stale := set i: nat | i < n && !UpToDate(views, views[i]);
    if n == 0 {
      assert stale == {};
    } else {
      StaleCounts(views, n - 1);
      var before := set i: nat | i < n - 1 && !UpToDate(views, views[i]);
      assert stale == before + if UpToDate(views, views[n - 1]) then {} else {n - 1};
    }
  }

  lemma {:induction false} NoneStale(views: seq<Shown>, n: nat)
    requires n <= |views|
    ensures Stale(views, n) == 0 <==> forall i :: 0 <= i < n ==> UpToDate(views, views[i])
  {
    hide UpToDate;
    if n > 0 {
      NoneStale(views, n - 1);
    }
  }

  lemma {:induction false} SameMissing(list: seq<string>, views: seq<Shown>, others: seq<Shown>)
    requires forall id :: Known(views, id) <==> Known(others, id)
    ensures Missing(list, views) == Missing(list, others)
  {
    hide Known;
    if list != [] {
      SameMissing(list[..|list| - 1], views, others);
    }
  }

  lemma {:induction false} SameDangling(views: seq<Shown>, others: seq<Shown>, all: seq<Shown>, every: seq<Shown>)
    requires SameEdges(views, others) && forall id :: Known(all, id) <==> Known(every, id)
    ensures Dangling(views, all) == Dangling(others, every)
  {
    hide IdIn, ListIn, Known, Missing;
    if views != [] {
      SameDangling(views[..|views| - 1], others[..|others| - 1], all, every);
      SameMissing(ListIn(views[|views| - 1], "depends_on"), all, every);
    }
  }

  /** A sync leaves the dependencies that name no task as they were. */
  lemma {:induction false} SyncedDangling(views: seq<Shown>)
    ensures Dangling(Synced(views), Synced(views)) == Dangling(views, views)
  {
    hide Synced, Known, SameEdges, Dangling;
    forall id
      ensures Known(views, id) <==> Known(Synced(views), id)
    {
      SyncedKnows(views, id);
    }
    SyncedSameEdges(views);
    SameDangling(views, Synced(views), views, Synced(views));
  }

  /** A second sync would change nothing: every task is up to date after the first. */
  lemma SyncedIsUpToDate(views: seq<Shown>, i: nat)
    requires i < |views|
    ensures UpToDate(Synced(views), Synced(views)[i])
  {
    SyncedSameEdges(views);
    SyncedKeeps(views, i);
    SameDependents(views, Synced(views), IdIn(views[i]));
  }
}
