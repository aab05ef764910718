/** What a check and a record tell their caller, read off the rows of the table. */
module RateDecisions {
  import opened Wrappers
  import opened RateSpec

  function AccountKey(attempt: Attempt, digest: string -> string): Key {
    Key(Account, attempt.path, digest(attempt.account))
  }

  function AddressKey(attempt: Attempt, digest: string -> string): Key {
    Key(Address, attempt.path, digest(attempt.address))
  }

  /** Sixty-four lower-case hexadecimal digits. */
  predicate Sound(key: Key) {
    |key.digest| == 64 && forall c <- key.digest :: c in "0123456789abcdef"
  }

  /** Positive, and within the 32 bits the statements cast to. */
  predicate Applies(rule: Rule) {
    1 <= rule.limit < 0x8000_0000 && 1 <= rule.windowMs < 0x8000_0000
  }

  predicate Running(t: Table, key: Key, now: int) {
    key in t && now < t[key].expiresAt
  }

  /** The row is live and has used the whole limit. */
  predicate UsedUp(t: Table, key: Key, rule: Rule, now: int) {
    Running(t, key, now) && t[key].attempts >= rule.limit
  }

  lemma SoundIff(key: Key)
    ensures KeyShape(key) <==> Sound(key)
  {
    assert forall c: char :: Hex(c) <==> c in "0123456789abcdef";
  }

  /**
   * The account's dimension is named whenever its row is used up, the address's only when the
   * account's is not; the caller may come back when that row's window ends.
   */
  ghost predicate DecidesBy(
    d: Decision, t: Table, account: Key, address: Key, rules: Rules, first: int, second: int)
  {
    var byAccount, byAddress := UsedUp(t, account, rules.account, first), UsedUp(t, address, rules.address, second);
    && d.allowed == (!byAccount && !byAddress)
    && (d.refusedBy == Some(Spent(Account)) <==> byAccount)
    && (d.refusedBy == Some(Spent(Address)) <==> !byAccount && byAddress)
    && (d.refusedBy == None <==> d.allowed)
    && (byAccount ==> d.retryAt == Some(t[account].expiresAt))
    && (!byAccount && byAddress ==> d.retryAt == Some(t[address].expiresAt))
    && (d.allowed ==> d.retryAt == None)
  }

  lemma CheckMeans(t: Table, attempt: Attempt, rules: Rules, digest: string -> string, at: seq<int>)
    requires |at| == 2 && Sound(AccountKey(attempt, digest)) && Sound(AddressKey(attempt, digest))
    ensures var d := Check(t, attempt, rules, digest, at, true);
            var account, address := AccountKey(attempt, digest), AddressKey(attempt, digest);
            && DecidesBy(d, t, account, address, rules, at[0], at[1])
            && d.counters ==
                 (if Running(t, account, at[0])
                  then [Counter(Account, rules.account.limit, t[account].attempts, t[account].expiresAt)] else [])
                 + (if Running(t, address, at[1])
                    then [Counter(Address, rules.address.limit, t[address].attempts, t[address].expiresAt)] else [])
  {
    SoundIff(AccountKey(attempt, digest));
    SoundIff(AddressKey(attempt, digest));
  }

  /** The row an attempt leaves: one more while the window runs and has room, the same once it is used up, and a
      new window when none runs. */
  ghost predicate CountedOnce(t: Table, after: Table, key: Key, rule: Rule, now: int) {
    && key in after
    && after[key] ==
         if !Running(t, key, now) then Row(1, now, now + rule.windowMs)
         else if UsedUp(t, key, rule, now) then t[key]
         else Row(t[key].attempts + 1, t[key].startedAt, t[key].expiresAt)
  }

  /** A record counts against both rows whatever either says, and reports them as it leaves them. */
  lemma RecordMeans(t: Table, attempt: Attempt, rules: Rules, digest: string -> string, at: seq<int>)
    requires |at| == 2 && Sound(AccountKey(attempt, digest)) && Sound(AddressKey(attempt, digest))
    requires Applies(rules.account) && Applies(rules.address)
    ensures var (after, d) := Record(t, attempt, rules, digest, at, true);
            var account, address := AccountKey(attempt, digest), AddressKey(attempt, digest);
            && DecidesBy(d, t, account, address, rules, at[0], at[1])
            && CountedOnce(t, after, account, rules.account, at[0])
            && CountedOnce(t, after, address, rules.address, at[1])
            && after.Keys == t.Keys + {account, address}
            && (forall key :: key in t && key != account && key != address ==> after[key] == t[key])
            && d.counters ==
                 [Counter(Account, rules.account.limit, after[account].attempts, after[account].expiresAt),
                  Counter(Address, rules.address.limit, after[address].attempts, after[address].expiresAt)]
  {
    SoundIff(AccountKey(attempt, digest));
    SoundIff(AddressKey(attempt, digest));
    var bs := BucketsFor(attempt, rules, digest);
    assert Countable(bs) by {
      assert forall b <- bs :: b == bs[0] || b == bs[1];
    }
    assert bs[0].key == AccountKey(attempt, digest) && bs[1].key == AddressKey(attempt, digest);
  }

  /** An answer that names no row: exactly when the store cannot be reached or would refuse the statement. */
  lemma UnavailableIff(
    t: Table, attempt: Attempt, rules: Rules, digest: string -> string, at: seq<int>, up: bool)
    requires |at| == 2
    ensures var keys := Sound(AccountKey(attempt, digest)) && Sound(AddressKey(attempt, digest));
            var applied := Applies(rules.account) && Applies(rules.address);
            var none := Decision(false, Some(StoreUnavailable), None, []);
            && (Check(t, attempt, rules, digest, at, up) == none <==> !up || !keys)
            && (Record(t, attempt, rules, digest, at, up) == (t, none) <==> !up || !keys || !applied)
  {
    SoundIff(AccountKey(attempt, digest));
    SoundIff(AddressKey(attempt, digest));
    var bs := BucketsFor(attempt, rules, digest);
    var both := KeyShape(bs[0].key) && KeyShape(bs[1].key) && RuleHolds(bs[0].rule) && RuleHolds(bs[1].rule);
    assert Countable(bs) <==> both by {
      assert forall b <- bs :: b == bs[0] || b == bs[1];
      assert bs[0] in bs && bs[1] in bs;
    }
  }

  // -------------------------------------------------------------- statements

  /** The answer of one counting statement: the row as it is left, and whether there was room. */
  lemma CountMeans(t: Table, b: Bucket, now: int)
    ensures var after := Attempted(t, b, now);
            && CountedOnce(t, after, b.key, b.rule, now)
            && after.Keys == t.Keys + {b.key} && (forall key <- t :: key != b.key ==> after[key] == t[key])
            && Judged(t, b, now) == Counted(
                 Window(b.key.dimension, after[b.key].attempts, after[b.key].expiresAt), !UsedUp(t, b.key, b.rule, now))
  {
  }

  /** The positions of the buckets, each once. */
  ghost predicate Positions(order: seq<nat>, buckets: seq<Bucket>, at: seq<int>) {
    && |order| == |buckets| == |at|
    && (forall j :: 0 <= j < |order| ==> order[j] < |buckets|)
    && (forall i, j :: 0 <= i < j < |order| ==> order[i] != order[j])
  }

  ghost predicate DifferentKeys(buckets: seq<Bucket>) {
    forall i, j :: 0 <= i < j < |buckets| ==> buckets[i].key != buckets[j].key
  }

  lemma PositionsDiffer(order: seq<nat>, buckets: seq<Bucket>, at: seq<int>, i: nat, j: nat)
    requires Positions(order, buckets, at) && DifferentKeys(buckets) && i < j < |order|
    ensures order[i] < |buckets| && order[j] < |buckets| && buckets[order[i]].key != buckets[order[j]].key
  {
    assert order[i] < order[j] || order[j] < order[i];
  }

  /**
   * A transaction over different buckets, in whatever order it takes them: every bucket's row is
   * counted once at its own statement's instant, each statement answers for its own row, and no
   * other row changes.
   */
  lemma {:induction false} TransactionMeans(t: Table, buckets: seq<Bucket>, order: seq<nat>, at: seq<int>, k: nat)
    requires Positions(order, buckets, at) && DifferentKeys(buckets) && k <= |order|
    ensures var after := Stepped(t, buckets, order, at, k);
            && (forall j :: 0 <= j < k ==>
                  CountedOnce(t, after, buckets[order[j]].key, buckets[order[j]].rule, at[j]))
            && (forall key :: key in after <==> key in t || Touches(buckets, order, k, key))
            && (forall key <- t :: !Touches(buckets, order, k, key) ==> after[key] == t[key])
    ensures k < |order| ==>
      Judged(Stepped(t, buckets, order, at, k), buckets[order[k]], at[k]) == Judged(t, buckets[order[k]], at[k])
  {
    hide CountedOnce, DifferentKeys, Judged, Attempted, Touches;
    if k > 0 {
      TransactionMeans(t, buckets, order, at, k - 1);
      var before, after := Stepped(t, buckets, order, at, k - 1), Stepped(t, buckets, order, at, k);
      var b := buckets[order[k - 1]];
      CountMeans(before, b, at[k - 1]);
      Untouched(buckets, order, at, k - 1);
      forall j | 0 <= j < k - 1
        ensures CountedOnce(t, after, buckets[order[j]].key, buckets[order[j]].rule, at[j])
      {
        PositionsDiffer(order, buckets, at, j, k - 1);
        IsTouched(buckets, order, j, k - 1);
        SameRow(t, before, after, buckets[order[j]], at[j]);
      }
      FirstCount(t, before, after, b, at[k - 1]);
      forall key
        ensures Touches(buckets, order, k, key) <==> Touches(buckets, order, k - 1, key) || key == b.key
      {
        TouchesSnoc(buckets, order, k - 1, key);
      }
    } else {
      TouchesNone(buckets, order);
    }
    if k < |order| {
      Untouched(buckets, order, at, k);
      SameJudged(t, Stepped(t, buckets, order, at, k), buckets[order[k]], at[k]);
    }
  }

  /** One of the first `k` statements is about this row. */
  predicate Touches(buckets: seq<Bucket>, order: seq<nat>, k: nat, key: Key)
    requires k <= |order| && forall j :: 0 <= j < |order| ==> order[j] < |buckets|
  {
    exists j :: 0 <= j < k && buckets[order[j]].key == key
  }

  lemma IsTouched(buckets: seq<Bucket>, order: seq<nat>, j: nat, k: nat)
    requires j < k <= |order| && forall j :: 0 <= j < |order| ==> order[j] < |buckets|
    ensures Touches(buckets, order, k, buckets[order[j]].key)
  {
  }

  lemma TouchesNone(buckets: seq<Bucket>, order: seq<nat>)
    requires forall j :: 0 <= j < |order| ==> order[j] < |buckets|
    ensures forall key :: !Touches(buckets, order, 0, key)
  {
  }

  lemma TouchesSnoc(buckets: seq<Bucket>, order: seq<nat>, k: nat, key: Key)
    requires k < |order| && forall j :: 0 <= j < |order| ==> order[j] < |buckets|
    ensures Touches(buckets, order, k + 1, key) <==> Touches(buckets, order, k, key) || key == buckets[order[k]].key
  {
  }

  lemma Untouched(buckets: seq<Bucket>, order: seq<nat>, at: seq<int>, k: nat)
    requires Positions(order, buckets, at) && DifferentKeys(buckets) && k < |order|
    ensures !Touches(buckets, order, k, buckets[order[k]].key)
  {
    hide DifferentKeys;
    if Touches(buckets, order, k, buckets[order[k]].key) {
      var j :| 0 <= j < k && buckets[order[j]].key == buckets[order[k]].key;
      PositionsDiffer(order, buckets, at, j, k);
    }
  }

  lemma SameRow(t: Table, before: Table, after: Table, b: Bucket, now: int)
    requires CountedOnce(t, before, b.key, b.rule, now) && b.key in after && after[b.key] == before[b.key]
    ensures CountedOnce(t, after, b.key, b.rule, now)
  {
  }

  lemma FirstCount(t: Table, before: Table, after: Table, b: Bucket, now: int)
    requires CountedOnce(before, after, b.key, b.rule, now)
    requires b.key in before <==> b.key in t
    requires b.key in t ==> before[b.key] == t[b.key]
    ensures CountedOnce(t, after, b.key, b.rule, now)
  {
  }

  lemma SameJudged(t: Table, u: Table, b: Bucket, now: int)
    requires b.key in t <==> b.key in u
    requires b.key in t ==> u[b.key] == t[b.key]
    ensures Judged(u, b, now) == Judged(t, b, now)
  {
  }

  /** The statements of a read, before the `k`-th, that find their row live. */
  function Finding(t: Table, keys: seq<Key>, order: seq<nat>, at: seq<int>, k: nat): set<nat>
    requires k <= |order| == |at| && forall j :: 0 <= j < |order| ==> order[j] < |keys|
  {
    set i: nat | i < k && Running(t, keys[order[i]], at[i])
  }

  /** What a read finds: one window for each live row, in the order of its statements, and nothing for the others. */
  lemma {:induction false} ReadMeans(t: Table, keys: seq<Key>, order: seq<nat>, at: seq<int>, k: nat, j: nat)
    returns (place: nat)
    requires k <= |order| == |at| && (forall j :: 0 <= j < |order| ==> order[j] < |keys|) && j < k
    ensures |Found(t, keys, order, at, k)| == |Finding(t, keys, order, at, k)|
    ensures Running(t, keys[order[j]], at[j]) ==>
      && place == |Finding(t, keys, order, at, j)| < |Found(t, keys, order, at, k)|
      && Found(t, keys, order, at, k)[place]
           == Window(keys[order[j]].dimension, t[keys[order[j]]].attempts, t[keys[order[j]]].expiresAt)
  {
    hide Finding;
    FoundCount(t, keys, order, at, k);
    FoundCount(t, keys, order, at, j);
    place := |Found(t, keys, order, at, j)|;
    FoundGrows(t, keys, order, at, j + 1, k);
  }

  lemma FindingSnoc(t: Table, keys: seq<Key>, order: seq<nat>, at: seq<int>, k: nat)
    requires k < |order| == |at| && forall j :: 0 <= j < |order| ==> order[j] < |keys|
    ensures k !in Finding(t, keys, order, at, k)
    ensures Finding(t, keys, order, at, k + 1)
      == Finding(t, keys, order, at, k) + if Running(t, keys[order[k]], at[k]) then {k} else {}
  {
  }

  lemma {:induction false} FoundCount(t: Table, keys: seq<Key>, order: seq<nat>, at: seq<int>, k: nat)
    requires k <= |order| == |at| && forall j :: 0 <= j < |order| ==> order[j] < |keys|
    ensures |Found(t, keys, order, at, k)| == |Finding(t, keys, order, at, k)|
  {
    if k == 0 {
      assert Finding(t, keys, order, at, 0) == {};
    } else {
      hide Finding;
      FoundCount(t, keys, order, at, k - 1);
      FindingSnoc(t, keys, order, at, k - 1);
    }
  }

  lemma {:induction false} FoundGrows(t: Table, keys: seq<Key>, order: seq<nat>, at: seq<int>, j: nat, k: nat)
    requires j <= k <= |order| == |at| && forall j :: 0 <= j < |order| ==> order[j] < |keys|
    ensures Found(t, keys, order, at, j) <= Found(t, keys, order, at, k)
    decreases k
  {
    if j < k {
      FoundGrows(t, keys, order, at, j, k - 1);
    }
  }
}
