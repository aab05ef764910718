/** What the moves of the counting transactions are, and that all of them can finish. */
module LockingProgress {
  import opened Locking

  /** A transaction begins with no lock and waits for each of its keys; then it gets them one by one, in turn, each once
      nobody else holds it; with all of them it commits and lets go. */
  lemma {:induction false} MovesMean(open: map<nat, Transaction>, m: Move)
    requires Consistent(open)
    ensures var next := Next(open, m);
            && (forall i <- open :: i != m.i ==> i in next && next[i] == open[i])
            && (forall i <- next :: i != m.i ==> i in open)
            && (m.Begin? && m.i !in open ==>
                  m.i in next && next[m.i].held == 0 && next[m.i].locks == Locks(m.keys))
            && (m.Begin? && m.i in open ==> next == open)
            && (m.Go? && m.i !in open ==> next == open)
            && (m.Go? && m.i in open ==>
                  var tx := open[m.i];
                  if tx.held == |tx.locks| then m.i !in next
                  else if exists j <- open, k :: j != m.i && 0 <= k < open[j].held
                                                 && open[j].locks[k] == tx.locks[tx.held]
                  then next == open
                  else m.i in next && next[m.i] == Transaction(tx.locks, tx.held + 1))
  {
    if m.Go? && m.i in open {
      var tx := open[m.i];
      if tx.held < |tx.locks| && Free(open, tx.locks[tx.held], m.i) {
        forall j <- open, k | j != m.i && 0 <= k < open[j].held
          ensures open[j].locks[k] != tx.locks[tx.held]
        {
          assert !Holds(open[j], tx.locks[tx.held]);
        }
      } else if tx.held < |tx.locks| {
        var j :| j in open && j != m.i && Holds(open[j], tx.locks[tx.held]);
        var k :| 0 <= k < open[j].held && open[j].locks[k] == tx.locks[tx.held];
      }
    }
  }

  /** The moves these transactions have left: one for each lock they lack, and one to commit. */
  function Remaining(open: map<nat, Transaction>, ids: seq<nat>): nat
    requires forall i <- open :: WellFormed(open[i])
  {
    if ids == [] then 0
    else
      var last := ids[|ids| - 1];
      Remaining(open, ids[..|ids| - 1]) + (if last in open then |open[last].locks| - open[last].held + 1 else 0)
  }

  lemma {:induction false} OthersRemain(
    open: map<nat, Transaction>, next: map<nat, Transaction>, ids: seq<nat>, i: nat)
    requires (forall j <- open :: WellFormed(open[j])) && forall j <- next :: WellFormed(next[j])
    requires i !in ids && forall j <- ids :: (j in open <==> j in next) && (j in open ==> next[j] == open[j])
    ensures Remaining(next, ids) == Remaining(open, ids)
  {
    if ids != [] {
      var front := ids[..|ids| - 1];
      assert ids[|ids| - 1] in ids && forall j <- front :: j in ids;
      OthersRemain(open, next, front, i);
    }
  }

  /** A move that is possible uses up one. */
  lemma {:induction false} GoingCounts(open: map<nat, Transaction>, i: nat, ids: seq<nat>)
    requires Consistent(open) && i in open && CanStep(open, i) && i in ids
    requires forall j, k :: 0 <= j < k < |ids| ==> ids[j] != ids[k]
    ensures Consistent(Next(open, Go(i))) && Remaining(Next(open, Go(i)), ids) == Remaining(open, ids) - 1
  {
    NextConsistent(open, Go(i));
    var next := Next(open, Go(i));
    var front, last := ids[..|ids| - 1], ids[|ids| - 1];
    assert ids == front + [last];
    if last == i {
      assert i !in front;
      OthersRemain(open, next, front, i);
    } else {
      assert i in front;
      GoingCounts(open, i, front);
    }
  }

  lemma AfterSnoc(moves: seq<Move>, m: Move)
    ensures After(map[], moves + [m]) == Next(After(map[], moves), m)
  {
    assert (moves + [m])[..|moves|] == moves;
  }

  lemma NothingRemains(ids: seq<nat>)
    ensures Remaining(map[], ids) == 0
  {
    if ids != [] {
      NothingRemains(ids[..|ids| - 1]);
    }
  }

  /**
   * However the transactions have got where they are, there is an order in which every one of
   * them gets each of its remaining locks, once, and commits.
   */
  lemma {:induction false} EverybodyCommits(moves: seq<Move>, ids: seq<nat>) returns (more: seq<Move>)
    requires forall i <- After(map[], moves) :: i in ids
    requires forall j, k :: 0 <= j < k < |ids| ==> ids[j] != ids[k]
    ensures After(map[], moves + more) == map[]
    ensures (forall m <- more :: m.Go?) && |more| == Remaining(After(map[], moves), ids)
    decreases Remaining(After(map[], moves), ids)
  {
    hide CanStep, Next, After, Holds;
    var open := After(map[], moves);
    if open == map[] {
      NothingRemains(ids);
      more := [];
      assert moves + more == moves;
    } else {
      SomeTransactionCanStep(moves);
      var i :| i in open && CanStep(open, i);
      GoingCounts(open, i, ids);
      AfterSnoc(moves, Go(i));
      StillListed(open, i, ids);
      var rest := EverybodyCommits(moves + [Go(i)], ids);
      more := [Go(i)] + rest;
      assert moves + more == (moves + [Go(i)]) + rest;
    }
  }

  lemma StillListed(open: map<nat, Transaction>, i: nat, ids: seq<nat>)
    requires Consistent(open) && i in open && forall j <- open :: j in ids
    ensures forall j <- Next(open, Go(i)) :: j in ids
  {
  }
}
