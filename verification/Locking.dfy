/** The canonical lock order, and why transactions that follow it never deadlock. */
module Locking {
  import opened RateSpec
  import opened TextOrder
  import Listings
  import Sorting

  // ---------------------------------------------------------- one total order

  lemma RankedIsStrict()
    ensures Sorting.StrictOrder(RankedLess)
  {
    forall a: Ranked, b: Ranked, c: Ranked | RankedLess(a, b)
      ensures !RankedLess(b, a) && (RankedLess(a, c) || RankedLess(c, b))
    {
      TextLessTotal(a.rank, b.rank);
      TextLessTotal(a.rank, c.rank);
      if TextLess(c.rank, a.rank) {
        TextLessTransitive(c.rank, a.rank, b.rank);
      }
    }
  }

  /** Two buckets rank the same only when they are the same bucket. */
  lemma RankInjective(a: Key, b: Key)
    requires Rank(a) == Rank(b)
    ensures a == b
  {
    var x, y := Rank(a), Rank(b);
    assert x[0] == DimensionIndex(a.dimension)[0] && y[0] == DimensionIndex(b.dimension)[0];
    assert x[2] == PathName(a.path)[0] && y[2] == PathName(b.path)[0];
    assert x[3] == PathName(a.path)[1] && y[3] == PathName(b.path)[1];
    assert a.path == b.path;
    var skip := 3 + |PathName(a.path)|;
    assert x[skip..] == a.digest && y[skip..] == b.digest;
  }

  // -------------------------------------------------- the order is a listing

  lemma {:induction false} LockOrderEntries(keys: seq<Key>, k: nat)
    requires k < |LockOrder(keys)|
    ensures LockOrder(keys)[k] < |keys|
    ensures Sorting.Sort(RankedLess, RankedOf(keys))[k]
         == Ranked(Rank(keys[LockOrder(keys)[k]]), LockOrder(keys)[k])
  {
    var entries := RankedOf(keys);
    var sorted := Sorting.Sort(RankedLess, entries);
    Sorting.SortMembers(RankedLess, entries);
    assert sorted[k] in entries;
  }

  lemma {:induction false} SortedDistinct(keys: seq<Key>)
    ensures var s := Sorting.Sort(RankedLess, RankedOf(keys));
            forall i, j :: 0 <= i < j < |s| ==> s[i] != s[j]
  {
    var entries := RankedOf(keys);
    Listings.DistinctByCount(entries);
    Listings.CountByDistinct(Sorting.Sort(RankedLess, entries));
  }

  lemma LockOrderCovers(keys: seq<Key>, i: int)
    ensures i in LockOrder(keys) <==> 0 <= i < |keys|
  {
    var entries, order := RankedOf(keys), LockOrder(keys);
    var sorted := Sorting.Sort(RankedLess, entries);
    if i in order {
      var k :| 0 <= k < |order| && order[k] == i;
      LockOrderEntries(keys, k);
    }
    if 0 <= i < |keys| {
      Sorting.SortMembers(RankedLess, entries);
      assert entries[i] in entries;
      var k :| 0 <= k < |sorted| && sorted[k] == entries[i];
      assert order[k] == i;
    }
  }

  lemma LockOrderDistinct(keys: seq<Key>, j: nat, k: nat)
    requires j < k < |LockOrder(keys)|
    ensures LockOrder(keys)[j] != LockOrder(keys)[k]
  {
    SortedDistinct(keys);
    LockOrderEntries(keys, j);
    LockOrderEntries(keys, k);
  }

  /** Every bucket is visited exactly once. */
  lemma LockOrderVisitsEach(keys: seq<Key>)
    ensures |LockOrder(keys)| == |keys|
    ensures forall i :: i in LockOrder(keys) <==> 0 <= i < |keys|
    ensures forall j, k :: 0 <= j < k < |LockOrder(keys)| ==> LockOrder(keys)[j] != LockOrder(keys)[k]
  {
    assert |LockOrder(keys)| == |keys|;
    forall i
      ensures i in LockOrder(keys) <==> 0 <= i < |keys|
    {
      LockOrderCovers(keys, i);
    }
    forall j, k | 0 <= j < k < |LockOrder(keys)|
      ensures LockOrder(keys)[j] != LockOrder(keys)[k]
    {
      LockOrderDistinct(keys, j, k);
    }
  }

  /** Ranks never go down along the order. */
  lemma LockOrderAscends(keys: seq<Key>, j: nat, k: nat)
    requires j < k < |LockOrder(keys)|
    ensures LockOrder(keys)[j] < |keys| && LockOrder(keys)[k] < |keys|
    ensures !TextLess(Rank(keys[LockOrder(keys)[k]]), Rank(keys[LockOrder(keys)[j]]))
  {
    RankedIsStrict();
    Sorting.SortOrdered(RankedLess, RankedOf(keys));
    LockOrderEntries(keys, j);
    LockOrderEntries(keys, k);
    var sorted := Sorting.Sort(RankedLess, RankedOf(keys));
    assert !RankedLess(sorted[k], sorted[j]);
  }

  /** The keys a transaction locks, in the order it locks them. */
  function Locks(keys: seq<Key>): (locks: seq<Key>)
    ensures |locks| == |keys|
  {
    LockOrderVisitsEach(keys);
    seq(|keys|, k requires 0 <= k < |keys| => assert LockOrder(keys)[k] in LockOrder(keys); keys[LockOrder(keys)[k]])
  }

  // ------------------------------------------------------- concurrent runs

  /** A transaction: what it locks in turn, and how many of those locks it has. */
  datatype Transaction = Transaction(locks: seq<Key>, held: nat)

  predicate WellFormed(tx: Transaction) {
    tx.held <= |tx.locks|
  }

  predicate Holds(tx: Transaction, key: Key)
    requires WellFormed(tx)
  {
    exists k :: 0 <= k < tx.held && tx.locks[k] == key
  }

  ghost predicate Consistent(open: map<nat, Transaction>) {
    && (forall i <- open :: WellFormed(open[i]))
    && (forall i <- open, j <- open, key ::
          i != j && Holds(open[i], key) ==> !Holds(open[j], key))
  }

  predicate Free(open: map<nat, Transaction>, key: Key, i: nat)
    requires forall j <- open :: WellFormed(open[j])
  {
    forall j <- open :: j != i ==> !Holds(open[j], key)
  }

  /** A transaction can commit once it has every lock, and go on once its next lock is free. */
  predicate CanStep(open: map<nat, Transaction>, i: nat)
    requires i in open && WellFormed(open[i]) && forall j <- open :: WellFormed(open[j])
  {
    open[i].held == |open[i].locks| || Free(open, open[i].locks[open[i].held], i)
  }

  datatype Move = Begin(i: nat, keys: seq<Key>) | Go(i: nat)

  /** One move; a move that is not possible changes nothing. */
  function Next(open: map<nat, Transaction>, m: Move): map<nat, Transaction>
    requires forall j <- open :: WellFormed(open[j])
  {
    if m.Begin? then
      if m.i in open then open else open[m.i := Transaction(Locks(m.keys), 0)]
    else if m.i !in open || !CanStep(open, m.i) then open
    else if open[m.i].held == |open[m.i].locks| then open - {m.i}
    else open[m.i := open[m.i].(held := open[m.i].held + 1)]
  }

  ghost predicate AscendingLocks(open: map<nat, Transaction>) {
    forall i <- open, j, k :: 0 <= j < k < |open[i].locks| ==>
      !TextLess(Rank(open[i].locks[k]), Rank(open[i].locks[j]))
  }

  lemma NextConsistent(open: map<nat, Transaction>, m: Move)
    requires Consistent(open)
    ensures Consistent(Next(open, m))
  {
    var next := Next(open, m);
    forall i <- next, j <- next, key | i != j && Holds(next[i], key)
      ensures !Holds(next[j], key)
    {
      if m.Go? && m.i in open && next != open {
        assert i != m.i ==> Holds(open[i], key);
      }
    }
  }

  lemma NextAscending(open: map<nat, Transaction>, m: Move)
    requires Consistent(open) && AscendingLocks(open)
    ensures AscendingLocks(Next(open, m))
  {
    if m.Begin? && m.i !in open {
      var locks := Locks(m.keys);
      forall j, k | 0 <= j < k < |locks|
        ensures !TextLess(Rank(locks[k]), Rank(locks[j]))
      {
        LockOrderVisitsEach(m.keys);
        LockOrderAscends(m.keys, j, k);
      }
    }
  }

  ghost function After(open: map<nat, Transaction>, moves: seq<Move>): map<nat, Transaction>
    requires Consistent(open)
    ensures Consistent(After(open, moves))
  {
    if moves == [] then open
    else
      var last := moves[|moves| - 1];
      var before := After(open, moves[..|moves| - 1]);
      NextConsistent(before, last);
      Next(before, last)
  }

  /** The next lock of a transaction that cannot step is held by another, whose own next lock ranks higher. */
  lemma Climbs(open: map<nat, Transaction>, i: nat) returns (j: nat)
    requires Consistent(open) && AscendingLocks(open)
    requires i in open && !CanStep(open, i)
    ensures j in open && WellFormed(open[i]) && WellFormed(open[j])
    ensures open[i].held < |open[i].locks|
    ensures CanStep(open, j) || (open[j].held < |open[j].locks|
      && TextLess(Rank(open[i].locks[open[i].held]), Rank(open[j].locks[open[j].held])))
  {
    var wanted := open[i].locks[open[i].held];
    j :| j in open && j != i && Holds(open[j], wanted);
    if !CanStep(open, j) {
      var k :| 0 <= k < open[j].held && open[j].locks[k] == wanted;
      var next := open[j].locks[open[j].held];
      assert !TextLess(Rank(next), Rank(wanted));
      TextLessTotal(Rank(wanted), Rank(next));
      if Rank(next) == Rank(wanted) {
        RankInjective(next, wanted);
      }
    }
  }

  /** Following the chain upwards through the transactions not yet tried reaches one that can step. */
  lemma {:induction false} ChainEnds(open: map<nat, Transaction>, i: nat, untried: set<nat>) returns (free: nat)
    requires Consistent(open) && AscendingLocks(open)
    requires i in open && i !in untried && untried <= open.Keys
    requires forall j <- open :: j !in untried && j != i ==>
      CanStep(open, i) || (open[i].held < |open[i].locks| && open[j].held < |open[j].locks|
        && TextLess(Rank(open[j].locks[open[j].held]), Rank(open[i].locks[open[i].held])))
    ensures free in open && CanStep(open, free)
    decreases |untried|
  {
    if CanStep(open, i) {
      return i;
    }
    var j := Climbs(open, i);
    if CanStep(open, j) {
      return j;
    }
    var here, up := Rank(open[i].locks[open[i].held]), Rank(open[j].locks[open[j].held]);
    TextLessTotal(here, up);
    assert j in untried;
    forall m <- open | m !in untried - {j} && m != j
      ensures open[m].held < |open[m].locks| && TextLess(Rank(open[m].locks[open[m].held]), up)
    {
      if m != i {
        TextLessTransitive(Rank(open[m].locks[open[m].held]), here, up);
      }
    }
    free := ChainEnds(open, j, untried - {j});
  }

  /** After any moves of any transactions over any bucket lists, as long as one is open some one can step. */
  lemma {:induction false} SomeTransactionCanStep(moves: seq<Move>)
    ensures var open := After(map[], moves);
            open != map[] ==> exists i <- open :: CanStep(open, i)
  {
    var open := After(map[], moves);
    RunAscending(moves);
    if open != map[] {
      var i :| i in open;
      var free := ChainEnds(open, i, open.Keys - {i});
    }
  }

  lemma {:induction false} RunAscending(moves: seq<Move>)
    ensures AscendingLocks(After(map[], moves))
  {
    if moves != [] {
      RunAscending(moves[..|moves| - 1]);
      NextAscending(After(map[], moves[..|moves| - 1]), moves[|moves| - 1]);
    }
  }

  // -------------------------------------------------- and without the order

  /** Two transactions that take the same two locks in opposite orders can stop each other for good. */
  lemma CallerOrderDeadlocks(a: Key, b: Key)
    requires a != b
    ensures var open := map[0 := Transaction([a, b], 1), 1 := Transaction([b, a], 1)];
            Consistent(open) && forall i <- open :: !CanStep(open, i)
  {
    var first, second := Transaction([a, b], 1), Transaction([b, a], 1);
    assert first.locks[0] == a && second.locks[0] == b;
    assert Holds(first, a) && Holds(second, b);
    var open := map[0 := first, 1 := second];
    assert !Free(open, b, 0) && !Free(open, a, 1) by {
      assert 0 in open && 1 in open;
    }
    assert first.locks[1] == b && second.locks[1] == a;
  }

  /**
   * The sweep deletes rows in whatever order it meets them. When that is not the canonical one, it and a
   * transaction that counts against two of the same rows can stop each other for good.
   */
  lemma SweepDeadlocks(a: Key, b: Key) returns (met: seq<Key>)
    requires a != b
    ensures Listings.Lists(met, {a, b})
    ensures var open := map[0 := Transaction(Locks([a, b]), 1), 1 := Transaction(met, 1)];
            Consistent(open) && forall i <- open :: !CanStep(open, i)
  {
    hide Consistent, CanStep, LockOrder;
    var locks := Locks([a, b]);
    BothLocked(a, b);
    met := [locks[1], locks[0]];
    assert locks == [locks[0], locks[1]];
    CallerOrderDeadlocks(locks[0], locks[1]);
  }

  lemma BothLocked(a: Key, b: Key)
    requires a != b
    ensures var locks := Locks([a, b]); (locks[0] == a && locks[1] == b) || (locks[0] == b && locks[1] == a)
  {
    LockOrderVisitsEach([a, b]);
    var order := LockOrder([a, b]);
    assert order[0] in order && order[1] in order;
    assert order[0] != order[1];
  }
}
