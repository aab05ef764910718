/** The counter table as its statements change it, and the three calls of the policy. */
module RateLimiter {
  import opened Wrappers
  import opened RateSpec
  import opened Locking
  import opened TextOrder
  import Bytes

  /** The rows of `auth_rate_limits` one tenant sees. */
  class Counters {
    var rows: Table
    /** Whether the database answers; a call it does not answer is rolled back. */
    var reachable: bool

    constructor ()
      ensures rows == map[] && reachable
    {
      rows, reachable := map[], true;
    }

    method CountOne(b: Bucket, now: int) returns (c: Counted)
      modifies this`rows
      ensures rows == Attempted(old(rows), b, now) && c == Judged(old(rows), b, now)
    {
      if b.key !in rows {
        rows := rows[b.key := Row(1, now, now + b.rule.windowMs)];
        c := Counted(Window(b.key.dimension, 1, now + b.rule.windowMs), true);
        return;
      }
      var l := rows[b.key];
      if l.expiresAt <= now || l.attempts < b.rule.limit {
        var lapsed := l.expiresAt <= now;
        var updated := Row(
          if lapsed then 1 else l.attempts + 1,
          if lapsed then now else l.startedAt,
          if lapsed then now + b.rule.windowMs else l.expiresAt);
        rows := rows[b.key := updated];
        return Counted(Window(b.key.dimension, updated.attempts, updated.expiresAt), true);
      }
      assert rows[b.key := l] == rows;
      c := Counted(Window(b.key.dimension, l.attempts, l.expiresAt), false);
    }

    /** One transaction: every bucket counted in lock order, the results in the caller's order. */
    method CountAuthAttempts(buckets: seq<Bucket>, at: seq<int>) returns (windows: Option<seq<Counted>>)
      requires |at| == |buckets|
      modifies this`rows
      ensures Ordering(LockOrder(KeysOf(buckets)), |buckets|)
      ensures windows.Some? <==> reachable && Countable(buckets)
      ensures windows.None? ==> rows == old(rows)
      ensures windows.Some? ==>
        && rows == Stepped(old(rows), buckets, LockOrder(KeysOf(buckets)), at, |buckets|)
        && Filled(windows.value, old(rows), buckets, LockOrder(KeysOf(buckets)), at, |buckets|)
    {
      hide LockOrder, Filled, Stepped;
      LockOrderIsOrdering(KeysOf(buckets));
      var i := 0;
      while i < |buckets|
        invariant 0 <= i <= |buckets|
        invariant forall b <- buckets[..i] :: KeyShape(b.key) && RuleHolds(b.rule)
      {
        if !KeyShape(buckets[i].key) || !RuleHolds(buckets[i].rule) {
          return None;
        }
        i := i + 1;
      }
      if !reachable {
        return None;
      }
      var results := CountInOrder(buckets, LockOrder(KeysOf(buckets)), at);
      windows := Some(results);
    }

    method CountInOrder(buckets: seq<Bucket>, order: seq<nat>, at: seq<int>) returns (windows: seq<Counted>)
      requires Ordering(order, |buckets|) && |at| == |order|
      modifies this`rows
      ensures rows == Stepped(old(rows), buckets, order, at, |order|)
      ensures |windows| == |buckets| && Filled(windows, old(rows), buckets, order, at, |order|)
    {
      hide Judged, Attempted, Filled, Stepped, Nth;
      var results := new Counted[|buckets|];
      NoneFilled(results[..], rows, buckets, order, at);
      var k := 0;
      while k < |order|
        invariant 0 <= k <= |order|
        invariant rows == Stepped(old(rows), buckets, order, at, k)
        invariant Filled(results[..], old(rows), buckets, order, at, k)
      {
        ghost var before := results[..];
        SteppedNext(old(rows), buckets, order, at, k);
        var c := CountOne(buckets[order[k]], at[k]);
        results[order[k]] := c;
        FilledNext(before, old(rows), buckets, order, at, k);
        assert results[..] == before[order[k] := c];
        k := k + 1;
      }
      windows := results[..];
    }

    /** The live windows among these buckets; a bucket without one is absent. */
    method ReadAuthRateLimits(keys: seq<Key>, at: seq<int>) returns (live: Option<seq<Window>>)
      requires |at| == |keys|
      ensures Ordering(LockOrder(keys), |keys|)
      ensures live == if reachable && (forall key <- keys :: KeyShape(key))
                      then Some(Found(rows, keys, LockOrder(keys), at, |keys|)) else None
    {
      LockOrderIsOrdering(keys);
      var i := 0;
      while i < |keys|
        invariant 0 <= i <= |keys|
        invariant forall key <- keys[..i] :: KeyShape(key)
      {
        if !KeyShape(keys[i]) {
          return None;
        }
        i := i + 1;
      }
      if !reachable {
        return None;
      }
      var order := LockOrder(keys);
      var found: seq<Window> := [];
      var k := 0;
      while k < |order|
        invariant 0 <= k <= |order|
        invariant found == Found(rows, keys, order, at, k)
      {
        var key := keys[order[k]];
        if key in rows && rows[key].expiresAt > at[k] {
          found := found + [Window(key.dimension, rows[key].attempts, rows[key].expiresAt)];
        }
        k := k + 1;
      }
      live := Some(found);
    }

    /** True when there was a row to delete, live or not; None when the store could not be asked. */
    method ClearAuthRateLimit(key: Key) returns (had: Option<bool>)
      modifies this`rows
      ensures had == if reachable && KeyShape(key) then Some(key in old(rows)) else None
      ensures rows == if had.Some? then Cleared(old(rows), key) else old(rows)
    {
      if !KeyShape(key) || !reachable {
        return None;
      }
      had := Some(key in rows);
      rows := rows - {key};
    }

    method PruneAuthRateLimits(now: int) returns (deleted: Option<nat>)
      modifies this`rows
      ensures rows == if reachable then Pruned(old(rows), now) else old(rows)
      ensures deleted == if reachable then Some(|old(rows)| - |Pruned(old(rows), now)|) else None
    {
      if !reachable {
        return None;
      }
      var dead := set key | key in rows && rows[key].expiresAt <= now;
      PrunedSize(rows, dead, now);
      rows := rows - dead;
      deleted := Some(|dead|);
    }

    // -------------------------------------------------------------- the policy

    method CheckAuthRateLimit(attempt: Attempt, rules: Rules, digest: string -> string, at: seq<int>)
      returns (d: Decision)
      requires |at| == 2
      ensures d == Check(rows, attempt, rules, digest, at, reachable)
    {
      var buckets := BucketsFor(attempt, rules, digest);
      var keys := KeysOf(buckets);
      AccountFirst(buckets[0].key, buckets[1].key);
      assert keys == [buckets[0].key, buckets[1].key];
      var live := ReadAuthRateLimits(keys, at);
      if live.None? {
        return UNAVAILABLE;
      }
      FoundTwice(rows, keys, at);
      var counters: seq<Counter> := [];
      var refusedBy: Option<Dimension> := None;
      var i := 0;
      while i < |buckets|
        invariant 0 <= i <= 2
        invariant counters == Gathered(rows, buckets, at, i)
        invariant refusedBy == FirstSpent(rows, buckets, at, i)
      {
        var b := buckets[i];
        FindsItsOwn(rows, keys, at, i);
        var window := FindWindow(live.value, b.key.dimension);
        if window.Some? {
          counters := counters + [Counter(b.key.dimension, b.rule.limit, window.value.attempts, window.value.endsAt)];
          if refusedBy.None? && window.value.attempts >= b.rule.limit {
            refusedBy := Some(b.key.dimension);
          }
        }
        i := i + 1;
      }
      CheckAssembles(rows, attempt, rules, digest, at, at[1]);
      d := Conclude(refusedBy, counters, at[1]);
    }

    method RecordAuthAttempt(attempt: Attempt, rules: Rules, digest: string -> string, at: seq<int>)
      returns (d: Decision)
      requires |at| == 2
      modifies this`rows
      ensures (rows, d) == Record(old(rows), attempt, rules, digest, at, reachable)
    {
      var buckets := BucketsFor(attempt, rules, digest);
      AccountFirst(buckets[0].key, buckets[1].key);
      assert KeysOf(buckets) == [buckets[0].key, buckets[1].key];
      var windows := CountAuthAttempts(buckets, at);
      assert Countable(buckets) <==> forall b <- buckets :: KeyShape(b.key) && RuleHolds(b.rule);
      if windows.None? {
        return UNAVAILABLE;
      }
      CountedTwice(old(rows), buckets, at);
      ghost var order := LockOrder(KeysOf(buckets));
      assert windows.value[order[0]] == Nth(old(rows), buckets, order, at, 0);
      assert windows.value[order[1]] == Nth(old(rows), buckets, order, at, 1);
      var counters: seq<Counter> := [];
      var i := 0;
      while i < |buckets|
        invariant 0 <= i <= 2
        invariant |counters| == i
        invariant forall j :: 0 <= j < i ==> counters[j] == Reported(buckets[j], windows.value[j])
      {
        counters := counters + [Reported(buckets[i], windows.value[i])];
        i := i + 1;
      }
      var refused: Option<Dimension> := None;
      i := 0;
      while i < |windows.value| && refused.None?
        invariant 0 <= i <= 2
        invariant refused == if i > 0 && !windows.value[0].counted then Some(Account)
                             else if i > 1 && !windows.value[1].counted then Some(Address)
                             else None
      {
        if !windows.value[i].counted {
          refused := Some(windows.value[i].window.dimension);
        }
        i := i + 1;
      }
      RecordAssembles(old(rows), attempt, rules, digest, at, windows.value, counters, at[1]);
      d := Conclude(refused, counters, at[1]);
    }

    method Conclude(refused: Option<Dimension>, counters: seq<Counter>, now: int) returns (d: Decision)
      ensures d == Concluded(refused, counters, now)
    {
      var retryAt: Option<int> := None;
      if refused.Some? {
        var release := ReleaseOf(counters, refused.value, now);
        retryAt := Some(release);
      }
      d := Decision(refused.None?, if refused.None? then None else Some(Spent(refused.value)), retryAt, counters);
    }

    /** After a success: the account's bucket for this path, never the address's. */
    method ResetAuthRateLimit(attempt: Attempt, digest: string -> string) returns (had: Option<bool>)
      modifies this`rows
      ensures had == if reachable && KeyShape(ResetKey(attempt, digest))
                     then Some(ResetKey(attempt, digest) in old(rows)) else None
      ensures rows == if had.Some? then Cleared(old(rows), ResetKey(attempt, digest)) else old(rows)
    {
      had := ClearAuthRateLimit(Key(Account, attempt.path, digest(attempt.account)));
    }
  }

  // ------------------------------------------------------------ specification

  /** Each of the positions below `n`, once. */
  ghost predicate Ordering(order: seq<nat>, n: nat) {
    && |order| == n
    && (forall j :: 0 <= j < n ==> order[j] < n)
    && (forall i, j :: 0 <= i < j < n ==> order[i] != order[j])
  }

  lemma {:induction false} LockOrderIsOrdering(keys: seq<Key>)
    ensures Ordering(LockOrder(keys), |keys|)
  {
    LockOrderVisitsEach(keys);
    var order := LockOrder(keys);
    forall j | 0 <= j < |order|
      ensures order[j] < |keys|
    {
      assert order[j] in order;
    }
  }

  /** The first `k` statements have each left their answer at their bucket's own position. */
  ghost predicate Filled(
    windows: seq<Counted>, t: Table, buckets: seq<Bucket>, order: seq<nat>, at: seq<int>, k: nat)
    requires Ordering(order, |buckets|) && k <= |order| == |at|
  {
    |windows| == |buckets| && forall j :: 0 <= j < k ==> windows[order[j]] == Nth(t, buckets, order, at, j)
  }

  lemma {:induction false} FilledNext(
    windows: seq<Counted>, t: Table, buckets: seq<Bucket>, order: seq<nat>, at: seq<int>, k: nat)
    requires Ordering(order, |buckets|) && k < |order| == |at|
    requires Filled(windows, t, buckets, order, at, k)
    ensures Filled(windows[order[k] := Nth(t, buckets, order, at, k)], t, buckets, order, at, k + 1)
  {
    hide Nth;
  }

  lemma NoneFilled(windows: seq<Counted>, t: Table, buckets: seq<Bucket>, order: seq<nat>, at: seq<int>)
    requires Ordering(order, |buckets|) && |order| == |at| && |windows| == |buckets|
    ensures Stepped(t, buckets, order, at, 0) == t && Filled(windows, t, buckets, order, at, 0)
  {
  }

  lemma SteppedNext(t: Table, buckets: seq<Bucket>, order: seq<nat>, at: seq<int>, k: nat)
    requires Ordering(order, |buckets|) && k < |order| == |at|
    ensures var before, b := Stepped(t, buckets, order, at, k), buckets[order[k]];
            && Stepped(t, buckets, order, at, k + 1) == Attempted(before, b, at[k])
            && Nth(t, buckets, order, at, k) == Judged(before, b, at[k])
  {
    hide Attempted, Judged;
  }

  /** What the `k`-th statement of the transaction answers. */
  ghost function Nth(t: Table, buckets: seq<Bucket>, order: seq<nat>, at: seq<int>, k: nat): Counted
    requires Ordering(order, |buckets|) && k < |order| == |at|
  {
    Judged(Stepped(t, buckets, order, at, k), buckets[order[k]], at[k])
  }

  lemma PrunedSize(t: Table, dead: set<Key>, now: int)
    requires forall key :: key in dead <==> key in t && t[key].expiresAt <= now
    ensures t - dead == Pruned(t, now) && |dead| == |t| - |Pruned(t, now)|
  {
    var kept := t - dead;
    assert kept.Keys == t.Keys - dead;
    assert dead <= t.Keys;
    assert |t.Keys - dead| == |t.Keys| - |dead|;
    assert |kept.Keys| == |kept| && |t.Keys| == |t|;
    assert forall key :: key in Pruned(t, now) <==> key in kept;
  }

  ghost function Gathered(t: Table, buckets: seq<Bucket>, at: seq<int>, i: nat): seq<Counter>
    requires |buckets| == 2 == |at| && i <= 2
  {
    if i == 0 then [] else Gathered(t, buckets, at, i - 1) + Consulted(t, buckets[i - 1], at[i - 1])
  }

  ghost function FirstSpent(t: Table, buckets: seq<Bucket>, at: seq<int>, i: nat): Option<Dimension>
    requires |buckets| == 2 == |at| && i <= 2
  {
    if i == 0 then None
    else
      var before := FirstSpent(t, buckets, at, i - 1);
      if before.Some? || HasRoom(t, buckets[i - 1], at[i - 1]) then before
      else Some(buckets[i - 1].key.dimension)
  }

  /** The account's bucket is locked before the address's. */
  lemma AccountFirst(account: Key, address: Key)
    requires account.dimension == Account && address.dimension == Address
    ensures LockOrder([account, address]) == [0, 1]
  {
    var keys := [account, address];
    var order := LockOrder(keys);
    LockOrderVisitsEach(keys);
    LockOrderAscends(keys, 0, 1);
    assert order[0] in order && order[1] in order;
    var low, high := Bytes.Codes(Rank(account)), Bytes.Codes(Rank(address));
    assert Rank(account)[0] == '0' && Rank(address)[0] == '1';
    assert low[0] < high[0];
    assert TextLess(Rank(account), Rank(address));
  }

  lemma FoundTwice(t: Table, keys: seq<Key>, at: seq<int>)
    requires |keys| == 2 == |at| && LockOrder(keys) == [0, 1]
    ensures Found(t, keys, [0, 1], at, 2) == Seen(t, keys[0], at[0]) + Seen(t, keys[1], at[1])
  {
    assert Found(t, keys, [0, 1], at, 1) == Seen(t, keys[0], at[0]);
  }

  lemma CountedTwice(t: Table, buckets: seq<Bucket>, at: seq<int>)
    requires |buckets| == 2 == |at|
    ensures Nth(t, buckets, [0, 1], at, 0) == Judged(t, buckets[0], at[0])
    ensures Nth(t, buckets, [0, 1], at, 1) == Judged(Attempted(t, buckets[0], at[0]), buckets[1], at[1])
    ensures Stepped(t, buckets, [0, 1], at, 2) == Attempted(Attempted(t, buckets[0], at[0]), buckets[1], at[1])
  {
    assert Stepped(t, buckets, [0, 1], at, 1) == Attempted(t, buckets[0], at[0]);
  }

  ghost function Seen(t: Table, key: Key, now: int): seq<Window> {
    if Live(t, key, now) then [Window(key.dimension, t[key].attempts, t[key].expiresAt)] else []
  }

  ghost function FirstOf(live: seq<Window>, dimension: Dimension): Option<Window> {
    if live == [] then None
    else if live[0].dimension == dimension then Some(live[0])
    else FirstOf(live[1..], dimension)
  }

  ghost function FirstRelease(counters: seq<Counter>, refused: Dimension, otherwise: int): int {
    if counters == [] then otherwise
    else if counters[0].dimension == refused then counters[0].endsAt
    else FirstRelease(counters[1..], refused, otherwise)
  }

  /** `Array.find` by dimension. */
  method FindWindow(live: seq<Window>, dimension: Dimension) returns (window: Option<Window>)
    ensures window == FirstOf(live, dimension)
  {
    var i := 0;
    while i < |live|
      invariant 0 <= i <= |live|
      invariant FirstOf(live, dimension) == FirstOf(live[i..], dimension)
    {
      if live[i].dimension == dimension {
        return Some(live[i]);
      }
      i := i + 1;
    }
    window := None;
  }

  /** When the counter of the refusing dimension releases; `otherwise` if it is not there. */
  method ReleaseOf(counters: seq<Counter>, refused: Dimension, otherwise: int) returns (release: int)
    ensures release == FirstRelease(counters, refused, otherwise)
  {
    var i := 0;
    while i < |counters|
      invariant 0 <= i <= |counters|
      invariant FirstRelease(counters, refused, otherwise) == FirstRelease(counters[i..], refused, otherwise)
    {
      if counters[i].dimension == refused {
        return counters[i].endsAt;
      }
      i := i + 1;
    }
    release := otherwise;
  }

  /** Looking a dimension up in what a read found shows that dimension's own bucket. */
  lemma FindsItsOwn(t: Table, keys: seq<Key>, at: seq<int>, i: nat)
    requires |keys| == 2 == |at| && i < 2
    requires keys[0].dimension == Account && keys[1].dimension == Address
    ensures FirstOf(Seen(t, keys[0], at[0]) + Seen(t, keys[1], at[1]), keys[i].dimension)
      == if Live(t, keys[i], at[i])
         then Some(Window(keys[i].dimension, t[keys[i]].attempts, t[keys[i]].expiresAt)) else None
  {
    var first, second := Seen(t, keys[0], at[0]), Seen(t, keys[1], at[1]);
    if first == [] {
      assert first + second == second;
    } else {
      assert (first + second)[1..] == second;
    }
  }

  /** The loop over the two buckets arrives at the check's decision. */
  lemma CheckAssembles(t: Table, attempt: Attempt, rules: Rules, digest: string -> string, at: seq<int>, otherwise: int)
    requires |at| == 2
    requires forall b <- BucketsFor(attempt, rules, digest) :: KeyShape(b.key)
    ensures var bs := BucketsFor(attempt, rules, digest);
            var spent, counters := FirstSpent(t, bs, at, 2), Gathered(t, bs, at, 2);
            Check(t, attempt, rules, digest, at, true) == Concluded(spent, counters, otherwise)
  {
    var bs := BucketsFor(attempt, rules, digest);
    assert bs[0] in bs && bs[1] in bs;
    var first, second := Consulted(t, bs[0], at[0]), Consulted(t, bs[1], at[1]);
    assert Gathered(t, bs, at, 1) == first;
    assert Gathered(t, bs, at, 2) == first + second;
    assert FirstSpent(t, bs, at, 1) == if HasRoom(t, bs[0], at[0]) then None else Some(Account);
    assert FirstSpent(t, bs, at, 2)
        == if !HasRoom(t, bs[0], at[0]) then Some(Account)
           else if !HasRoom(t, bs[1], at[1]) then Some(Address) else None;
    FirstOfTwo(first, second, otherwise);
  }

  lemma FirstOfTwo(first: seq<Counter>, second: seq<Counter>, otherwise: int)
    requires |first| <= 1 && |second| <= 1
    requires forall c <- first :: c.dimension == Account
    requires forall c <- second :: c.dimension == Address
    ensures FirstRelease(first + second, Account, otherwise) == if first == [] then otherwise else first[0].endsAt
    ensures FirstRelease(first + second, Address, otherwise) == if second == [] then otherwise else second[0].endsAt
  {
    assert second != [] ==> second[1..] == [];
    assert FirstRelease(second, Address, otherwise) == if second == [] then otherwise else second[0].endsAt;
    if first == [] {
      assert first + second == second;
      assert FirstRelease(second, Account, otherwise) == otherwise;
    } else {
      assert (first + second)[1..] == second;
    }
  }

  ghost function Concluded(spent: Option<Dimension>, counters: seq<Counter>, otherwise: int): Decision {
    match spent
    case None => Decision(true, None, None, counters)
    case Some(d) => Decision(false, Some(Spent(d)), Some(FirstRelease(counters, d, otherwise)), counters)
  }

  /** The results of the counting transaction, and the record's decision drawn from them. */
  lemma RecordAssembles(
    t: Table, attempt: Attempt, rules: Rules, digest: string -> string, at: seq<int>,
    windows: seq<Counted>, counters: seq<Counter>, otherwise: int)
    requires |at| == 2 && |windows| == 2 == |counters|
    requires Countable(BucketsFor(attempt, rules, digest))
    requires var bs := BucketsFor(attempt, rules, digest);
             windows[0] == Judged(t, bs[0], at[0])
             && windows[1] == Judged(Attempted(t, bs[0], at[0]), bs[1], at[1])
             && forall j :: 0 <= j < 2 ==> counters[j] == Reported(bs[j], windows[j])
    ensures var spent := if !windows[0].counted then Some(Account)
                         else if !windows[1].counted then Some(Address) else None;
            Record(t, attempt, rules, digest, at, true).1 == Concluded(spent, counters, otherwise)
  {
    assert counters == [counters[0]] + [counters[1]];
    FirstOfTwo([counters[0]], [counters[1]], otherwise);
    var bs := BucketsFor(attempt, rules, digest);
    assert counters[0] == CounterOf(t, bs[0], at[0]);
    assert counters[1] == CounterOf(Attempted(t, bs[0], at[0]), bs[1], at[1]);
  }

  function Reported(b: Bucket, c: Counted): Counter {
    Counter(b.key.dimension, b.rule.limit, c.window.attempts, c.window.endsAt)
  }
}
