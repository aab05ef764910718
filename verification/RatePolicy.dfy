/** Runs of the limiter as the authentication routes drive it. */
module RatePolicy {
  import opened RateSpec
  import opened RateBounds

  datatype Step =
    | Recorded(attempt: Attempt, rules: Rules, at: seq<int>, up: bool)
    | Checked(attempt: Attempt, rules: Rules, at: seq<int>, up: bool)
    | Succeeded(attempt: Attempt, now: int, up: bool)
    | Swept(now: int, up: bool)

  predicate Valid(s: Step) {
    s.Recorded? || s.Checked? ==> |s.at| == 2 && s.at[0] <= s.at[1]
  }

  /** The instant a step begins, and the one it ends at. */
  function Begins(s: Step): int
    requires Valid(s)
  {
    if s.Recorded? || s.Checked? then s.at[0] else s.now
  }

  function Ends(s: Step): int
    requires Valid(s)
  {
    if s.Recorded? || s.Checked? then s.at[1] else s.now
  }

  predicate InOrder(run: seq<Step>, from: int) {
    run == [] || (Valid(run[0]) && from <= Begins(run[0]) && InOrder(run[1..], Ends(run[0])))
  }

  function Taken(t: Table, s: Step, digest: string -> string): Table
    requires Valid(s)
  {
    match s
    case Recorded(attempt, rules, at, up) => Record(t, attempt, rules, digest, at, up).0
    case Checked(_, _, _, _) => t
    case Succeeded(attempt, _, up) =>
      if up && KeyShape(ResetKey(attempt, digest)) then Cleared(t, ResetKey(attempt, digest)) else t
    case Swept(now, up) => if up then Pruned(t, now) else t
  }

  /** What the step tells its caller; a sweep and a success are not decisions. */
  function Told(t: Table, s: Step, digest: string -> string): seq<Decision>
    requires Valid(s)
  {
    match s
    case Recorded(attempt, rules, at, up) => [Record(t, attempt, rules, digest, at, up).1]
    case Checked(attempt, rules, at, up) => [Check(t, attempt, rules, digest, at, up)]
    case Succeeded(_, _, _) => []
    case Swept(_, _) => []
  }

  function Decisions(t: Table, run: seq<Step>, from: int, digest: string -> string): seq<Decision>
    requires InOrder(run, from)
    decreases |run|
  {
    if run == [] then []
    else Told(t, run[0], digest) + Decisions(Taken(t, run[0], digest), run[1..], Ends(run[0]), digest)
  }

  // ------------------------------------------------------ pruning is invisible

  /** The same live windows; the two tables may keep different dead rows. */
  ghost predicate Alike(t: Table, u: Table, now: int) {
    forall key :: (Live(t, key, now) <==> Live(u, key, now)) && (Live(t, key, now) ==> t[key] == u[key])
  }

  lemma AlikeLater(t: Table, u: Table, now: int, later: int)
    requires Alike(t, u, now) && now <= later
    ensures Alike(t, u, later)
  {
    forall key
      ensures (Live(t, key, later) <==> Live(u, key, later)) && (Live(t, key, later) ==> t[key] == u[key])
    {
      assert Live(t, key, later) ==> Live(t, key, now);
      assert Live(u, key, later) ==> Live(u, key, now);
    }
  }

  lemma AttemptAlike(t: Table, u: Table, b: Bucket, now: int)
    requires Alike(t, u, now)
    ensures RowAfter(t, b, now) == RowAfter(u, b, now)
    ensures HasRoom(t, b, now) <==> HasRoom(u, b, now)
    ensures Alike(Attempted(t, b, now), Attempted(u, b, now), now)
  {
    var t', u' := Attempted(t, b, now), Attempted(u, b, now);
    forall key
      ensures (Live(t', key, now) <==> Live(u', key, now)) && (Live(t', key, now) ==> t'[key] == u'[key])
    {
      assert Live(t, key, now) <==> Live(u, key, now);
    }
  }

  lemma RecordAlike(
    t: Table, u: Table, attempt: Attempt, rules: Rules, digest: string -> string, at: seq<int>, up: bool)
    requires |at| == 2 && at[0] <= at[1] && Alike(t, u, at[0])
    ensures Record(t, attempt, rules, digest, at, up).1 == Record(u, attempt, rules, digest, at, up).1
    ensures Alike(Record(t, attempt, rules, digest, at, up).0, Record(u, attempt, rules, digest, at, up).0, at[1])
  {
    hide Alike, RowAfter, HasRoom, Attempted, KeyShape, RuleHolds;
    AlikeLater(t, u, at[0], at[1]);
    var bs := BucketsFor(attempt, rules, digest);
    AttemptAlike(t, u, bs[0], at[0]);
    var t', u' := Attempted(t, bs[0], at[0]), Attempted(u, bs[0], at[0]);
    AlikeLater(t', u', at[0], at[1]);
    AttemptAlike(t', u', bs[1], at[1]);
  }

  lemma ConsultedAlike(t: Table, u: Table, b: Bucket, now: int)
    requires Alike(t, u, now)
    ensures Consulted(t, b, now) == Consulted(u, b, now)
    ensures HasRoom(t, b, now) <==> HasRoom(u, b, now)
    ensures !HasRoom(t, b, now) ==> b.key in t && b.key in u && t[b.key] == u[b.key]
  {
    assert Live(t, b.key, now) <==> Live(u, b.key, now);
  }

  lemma CheckAlike(t: Table, u: Table, attempt: Attempt, rules: Rules, digest: string -> string, at: seq<int>, up: bool)
    requires |at| == 2 && at[0] <= at[1] && Alike(t, u, at[0])
    ensures Check(t, attempt, rules, digest, at, up) == Check(u, attempt, rules, digest, at, up)
  {
    hide Alike, Consulted, HasRoom, KeyShape;
    AlikeLater(t, u, at[0], at[1]);
    var bs := BucketsFor(attempt, rules, digest);
    ConsultedAlike(t, u, bs[0], at[0]);
    ConsultedAlike(t, u, bs[1], at[1]);
  }

  lemma ClearAlike(t: Table, u: Table, key: Key, now: int)
    requires Alike(t, u, now)
    ensures Alike(Cleared(t, key), Cleared(u, key), now)
  {
    var t', u' := Cleared(t, key), Cleared(u, key);
    forall k
      ensures (Live(t', k, now) <==> Live(u', k, now)) && (Live(t', k, now) ==> t'[k] == u'[k])
    {
      assert Live(t, k, now) <==> Live(u, k, now);
    }
  }

  lemma PruneAlike(t: Table, u: Table, now: int)
    requires Alike(t, u, now)
    ensures Alike(Pruned(t, now), u, now)
  {
    forall key
      ensures Live(Pruned(t, now), key, now) <==> Live(t, key, now)
    {
    }
    forall key
      ensures (Live(Pruned(t, now), key, now) <==> Live(u, key, now))
        && (Live(Pruned(t, now), key, now) ==> Pruned(t, now)[key] == u[key])
    {
      assert Live(t, key, now) <==> Live(u, key, now);
    }
  }

  /** One step other than a sweep tells both stores' callers the same and leaves them alike. */
  lemma {:induction false} StepAlike(t: Table, u: Table, s: Step, digest: string -> string)
    requires Valid(s) && Alike(t, u, Begins(s)) && !s.Swept?
    ensures Told(t, s, digest) == Told(u, s, digest)
    ensures Alike(Taken(t, s, digest), Taken(u, s, digest), Ends(s))
  {
    hide Alike, Record, Check, Cleared, KeyShape;
    match s
    case Recorded(attempt, rules, at, up) => RecordAlike(t, u, attempt, rules, digest, at, up);
    case Checked(attempt, rules, at, up) =>
      CheckAlike(t, u, attempt, rules, digest, at, up);
      AlikeLater(t, u, at[0], at[1]);
    case Succeeded(attempt, now, up) => ClearAlike(t, u, ResetKey(attempt, digest), now);
  }

  function Unswept(run: seq<Step>): seq<Step> {
    if run == [] then []
    else (if run[0].Swept? then [] else [run[0]]) + Unswept(run[1..])
  }

  lemma {:induction false} UnsweptInOrder(run: seq<Step>, from: int, earlier: int)
    requires InOrder(run, from) && earlier <= from
    ensures InOrder(Unswept(run), earlier)
    decreases |run|
  {
    if run != [] {
      if run[0].Swept? {
        UnsweptInOrder(run[1..], Ends(run[0]), earlier);
        assert Unswept(run) == Unswept(run[1..]);
      } else {
        UnsweptInOrder(run[1..], Ends(run[0]), Ends(run[0]));
        assert Unswept(run)[1..] == Unswept(run[1..]);
      }
    }
  }

  /** Every check and every record answers as it would have had nothing ever been pruned. */
  lemma {:induction false} PruningIsInvisible(
    t: Table, u: Table, run: seq<Step>, from: int, earlier: int, digest: string -> string)
    requires Alike(t, u, from) && InOrder(run, from) && earlier <= from
    ensures InOrder(Unswept(run), earlier)
    ensures Decisions(t, run, from, digest) == Decisions(u, Unswept(run), earlier, digest)
    decreases |run|
  {
    hide Alike, Told, Taken, Valid, Begins, Ends;
    UnsweptInOrder(run, from, earlier);
    if run != [] {
      var s, next := run[0], Taken(t, run[0], digest);
      AlikeLater(t, u, from, Begins(s));
      if s.Swept? {
        SweptAlike(t, u, s, digest);
        PruningIsInvisible(next, u, run[1..], Ends(s), earlier, digest);
        assert Unswept(run) == Unswept(run[1..]);
      } else {
        StepAlike(t, u, s, digest);
        PruningIsInvisible(next, Taken(u, s, digest), run[1..], Ends(s), Ends(s), digest);
        assert Unswept(run)[0] == s && Unswept(run)[1..] == Unswept(run[1..]);
      }
    }
  }

  lemma SweptAlike(t: Table, u: Table, s: Step, digest: string -> string)
    requires Valid(s) && Alike(t, u, Begins(s)) && s.Swept?
    ensures Alike(Taken(t, s, digest), u, Ends(s)) && Told(t, s, digest) == []
    ensures Begins(s) == Ends(s)
  {
    hide Alike;
    PruneAlike(t, u, s.now);
  }

  // ---------------------------------------------------------- check and record

  /** A check refuses just when recording at the same instants would, for the same reason and as long. */
  lemma CheckForetellsRecord(
    t: Table, attempt: Attempt, rules: Rules, digest: string -> string, at: seq<int>, up: bool)
    requires |at| == 2 && RuleHolds(rules.account) && RuleHolds(rules.address)
    ensures var c, r := Check(t, attempt, rules, digest, at, up), Record(t, attempt, rules, digest, at, up).1;
            c.allowed == r.allowed && c.refusedBy == r.refusedBy && c.retryAt == r.retryAt
  {
    var bs := BucketsFor(attempt, rules, digest);
    assert bs[0].key != bs[1].key;
    assert Countable(bs) <==> KeyShape(bs[0].key) && KeyShape(bs[1].key) by {
      assert bs[0] in bs && bs[1] in bs;
    }
  }

  /** With a rule the counter would refuse to apply, only the record notices. */
  lemma CheckForetellsRecordIff(
    t: Table, attempt: Attempt, rules: Rules, digest: string -> string, at: seq<int>)
    requires |at| == 2
    requires forall b <- BucketsFor(attempt, rules, digest) :: KeyShape(b.key)
    ensures Check(t, attempt, rules, digest, at, true).refusedBy
      == Record(t, attempt, rules, digest, at, true).1.refusedBy
      <==> RuleHolds(rules.account) && RuleHolds(rules.address)
  {
    var bs := BucketsFor(attempt, rules, digest);
    assert bs[0] in bs && bs[1] in bs;
    if RuleHolds(rules.account) && RuleHolds(rules.address) {
      CheckForetellsRecord(t, attempt, rules, digest, at, true);
    } else {
      assert !Countable(bs);
    }
  }

  // ------------------------------------------------------------- guessing rate

  /** The statements a step runs. */
  function Expand(s: Step, digest: string -> string): seq<Statement>
    requires Valid(s)
  {
    match s
    case Recorded(attempt, rules, at, up) =>
      var bs := BucketsFor(attempt, rules, digest);
      if up && Countable(bs) then [Count(bs[0], at[0]), Count(bs[1], at[1])] else []
    case Checked(attempt, rules, at, up) =>
      var bs := BucketsFor(attempt, rules, digest);
      if up && KeyShape(bs[0].key) && KeyShape(bs[1].key) then [Look(bs[0], at[0]), Look(bs[1], at[1])] else []
    case Succeeded(attempt, now, up) =>
      if up && KeyShape(ResetKey(attempt, digest)) then [Clear(ResetKey(attempt, digest), now)] else []
    case Swept(now, up) => if up then [Prune(now)] else []
  }

  function Statements(run: seq<Step>, from: int, digest: string -> string): seq<Statement>
    requires InOrder(run, from)
    decreases |run|
  {
    if run == [] then [] else Expand(run[0], digest) + Statements(run[1..], Ends(run[0]), digest)
  }

  function RunAll(t: Table, run: seq<Statement>): Table
    decreases |run|
  {
    if run == [] then t else RunAll(Run(t, run[0]), run[1..])
  }

  /** A step does to the table what its statements do. */
  lemma ExpandIsTaken(t: Table, s: Step, digest: string -> string)
    requires Valid(s)
    ensures RunAll(t, Expand(s, digest)) == Taken(t, s, digest)
  {
    var e := Expand(s, digest);
    if (s.Recorded? || s.Checked?) && e != [] {
      assert e == [e[0]] + [e[1]];
      assert RunAll(Run(t, e[0]), e[1..]) == Run(Run(t, e[0]), e[1]);
    }
  }

  lemma {:induction false} StatementsClocked(run: seq<Step>, from: int, digest: string -> string)
    requires InOrder(run, from)
    ensures Clocked(Statements(run, from, digest), from)
    decreases |run|
  {
    if run != [] {
      var e, rest := Expand(run[0], digest), Statements(run[1..], Ends(run[0]), digest);
      StatementsClocked(run[1..], Ends(run[0]), digest);
      ClockedEarlier(rest, Ends(run[0]), from);
      if |e| == 0 {
        assert e + rest == rest;
      } else if |e| == 1 {
        assert (e + rest)[1..] == rest;
      } else {
        assert (e + rest)[1..] == [e[1]] + rest;
        assert ([e[1]] + rest)[1..] == rest;
      }
    }
  }

  lemma ClockedEarlier(run: seq<Statement>, from: int, earlier: int)
    requires Clocked(run, from) && earlier <= from
    ensures Clocked(run, earlier)
  {
  }

  ghost predicate AddressRule(run: seq<Step>, key: Key, rule: Rule, digest: string -> string) {
    forall s <- run :: s.Recorded? && Key(Address, s.attempt.path, digest(s.attempt.address)) == key ==>
      s.rules.address == rule
  }

  lemma {:induction false} ClearsAcross(first: seq<Statement>, rest: seq<Statement>, key: Key, a: int, b: int)
    ensures Clears(first + rest, key, a, b) == Clears(first, key, a, b) + Clears(rest, key, a, b)
    ensures forall rule :: OneRule(first, key, rule) && OneRule(rest, key, rule) ==> OneRule(first + rest, key, rule)
  {
    if first == [] {
      assert first + rest == rest;
    } else {
      assert (first + rest)[1..] == first[1..] + rest;
      ClearsAcross(first[1..], rest, key, a, b);
    }
  }

  lemma AddressStep(s: Step, digest: string -> string, key: Key, rule: Rule, a: int, b: int)
    requires Valid(s) && key.dimension == Address && AddressRule([s], key, rule, digest)
    ensures Clears(Expand(s, digest), key, a, b) == 0 && OneRule(Expand(s, digest), key, rule)
  {
    assert s in [s];
    var e := Expand(s, digest);
    if |e| == 2 {
      assert e == [e[0]] + [e[1]];
      ClearsAcross([e[0]], [e[1]], key, a, b);
    }
  }

  lemma AccountStep(s: Step, digest: string -> string, key: Key, rule: Rule, a: int, b: int)
    requires Valid(s) && key.dimension == Account && AccountRule([s], key, rule, digest)
    ensures Clears(Expand(s, digest), key, a, b) <= Successes([s], key, digest, a, b)
    ensures OneRule(Expand(s, digest), key, rule)
  {
    assert s in [s];
    var e := Expand(s, digest);
    if |e| == 2 {
      assert e == [e[0]] + [e[1]];
      ClearsAcross([e[0]], [e[1]], key, a, b);
    }
  }

  lemma {:induction false} AddressNeverCleared(
    run: seq<Step>, from: int, digest: string -> string, key: Key, rule: Rule, a: int, b: int)
    requires InOrder(run, from) && key.dimension == Address && AddressRule(run, key, rule, digest)
    ensures Clears(Statements(run, from, digest), key, a, b) == 0
    ensures OneRule(Statements(run, from, digest), key, rule)
    decreases |run|
  {
    hide Expand, Ends, Begins, Valid;
    if run != [] {
      var e, rest := Expand(run[0], digest), Statements(run[1..], Ends(run[0]), digest);
      assert run[0] in run && forall s <- run[1..] :: s in run;
      AddressNeverCleared(run[1..], Ends(run[0]), digest, key, rule, a, b);
      ClearsAcross(e, rest, key, a, b);
      AddressStep(run[0], digest, key, rule, a, b);
    }
  }

  /** Whichever routes are used and whatever succeeds, an address passes no more than this in any span. */
  lemma AddressBound(
    run: seq<Step>, from: int, digest: string -> string, key: Key, rule: Rule, a: int, b: int)
    requires InOrder(run, from) && a < b && RuleHolds(rule)
    requires key.dimension == Address && AddressRule(run, key, rule, digest)
    ensures Passed(map[], Statements(run, from, digest), key, a, b) <= Most(b - a, rule)
  {
    StatementsClocked(run, from, digest);
    AddressNeverCleared(run, from, digest, key, rule, a, b);
    SpanBound(map[], Statements(run, from, digest), key, rule, from, a, b);
  }

  predicate Names(s: Step, key: Key, digest: string -> string) {
    s.Recorded? && key == Key(key.dimension, s.attempt.path,
      digest(if key.dimension == Account then s.attempt.account else s.attempt.address))
  }

  function CountedAt(s: Step, key: Key): int
    requires Valid(s) && s.Recorded?
  {
    if key.dimension == Account then s.at[0] else s.at[1]
  }

  /** Attempts naming `key` that were let through in the span. */
  function LetThrough(
    t: Table, run: seq<Step>, from: int, digest: string -> string, key: Key, a: int, b: int): nat
    requires InOrder(run, from)
    decreases |run|
  {
    if run == [] then 0
    else
      var s := run[0];
      (if Names(s, key, digest) && a <= CountedAt(s, key) < b && Told(t, s, digest)[0].allowed then 1 else 0)
      + LetThrough(Taken(t, s, digest), run[1..], Ends(s), digest, key, a, b)
  }

  lemma {:induction false} PassedAcross(
    t: Table, first: seq<Statement>, rest: seq<Statement>, key: Key, a: int, b: int)
    ensures Passed(t, first + rest, key, a, b)
      == Passed(t, first, key, a, b) + Passed(RunAll(t, first), rest, key, a, b)
    decreases |first|
  {
    if first == [] {
      assert first + rest == rest;
    } else {
      assert (first + rest)[1..] == first[1..] + rest;
      PassedAcross(Run(t, first[0]), first[1..], rest, key, a, b);
    }
  }

  lemma AllowedIsPassed(t: Table, s: Step, digest: string -> string, key: Key, a: int, b: int)
    requires Valid(s) && Names(s, key, digest) && a <= CountedAt(s, key) < b && Told(t, s, digest)[0].allowed
    ensures Passed(t, Expand(s, digest), key, a, b) >= 1
  {
    var e := Expand(s, digest);
    assert e == [e[0]] + [e[1]];
    PassedAcross(t, [e[0]], [e[1]], key, a, b);
    assert Passed(t, [e[0]], key, a, b) == if CountsHere(t, e[0], key, a, b) then 1 else 0;
    assert Passed(RunAll(t, [e[0]]), [e[1]], key, a, b)
        == if CountsHere(RunAll(t, [e[0]]), e[1], key, a, b) then 1 else 0;
    assert RunAll(t, [e[0]]) == Run(t, e[0]);
  }

  lemma {:induction false} LetThroughIsPassed(
    t: Table, run: seq<Step>, from: int, digest: string -> string, key: Key, a: int, b: int)
    requires InOrder(run, from)
    ensures LetThrough(t, run, from, digest, key, a, b) <= Passed(t, Statements(run, from, digest), key, a, b)
    decreases |run|
  {
    hide Taken, Told, Expand, Passed, Valid;
    if run != [] {
      var s := run[0];
      LetThroughIsPassed(Taken(t, s, digest), run[1..], Ends(s), digest, key, a, b);
      PassedAcross(t, Expand(s, digest), Statements(run[1..], Ends(s), digest), key, a, b);
      ExpandIsTaken(t, s, digest);
      if s.Recorded? && Names(s, key, digest) && a <= CountedAt(s, key) < b {
        ToldOnce(t, s, digest);
        if Told(t, s, digest)[0].allowed {
          AllowedIsPassed(t, s, digest, key, a, b);
        }
      }
    }
  }

  lemma ToldOnce(t: Table, s: Step, digest: string -> string)
    requires Valid(s) && s.Recorded?
    ensures |Told(t, s, digest)| == 1
  {
  }

  /** The published promise, for requests one after the other: an address is let through no more often than this. */
  lemma AddressLetThrough(
    run: seq<Step>, from: int, digest: string -> string, key: Key, rule: Rule, a: int, b: int)
    requires InOrder(run, from) && a < b && RuleHolds(rule)
    requires key.dimension == Address && AddressRule(run, key, rule, digest)
    ensures LetThrough(map[], run, from, digest, key, a, b) <= Most(b - a, rule)
  {
    LetThroughIsPassed(map[], run, from, digest, key, a, b);
    AddressBound(run, from, digest, key, rule, a, b);
  }

  ghost predicate AccountRule(run: seq<Step>, key: Key, rule: Rule, digest: string -> string) {
    forall s <- run :: s.Recorded? && Key(Account, s.attempt.path, digest(s.attempt.account)) == key ==>
      s.rules.account == rule
  }

  /** Successes of the account on the path within the span. */
  function Successes(run: seq<Step>, key: Key, digest: string -> string, a: int, b: int): nat {
    if run == [] then 0
    else (if run[0].Succeeded? && ResetKey(run[0].attempt, digest) == key && a <= run[0].now < b then 1 else 0)
         + Successes(run[1..], key, digest, a, b)
  }

  lemma {:induction false} AccountClearedBySuccess(
    run: seq<Step>, from: int, digest: string -> string, key: Key, rule: Rule, a: int, b: int)
    requires InOrder(run, from) && key.dimension == Account && AccountRule(run, key, rule, digest)
    ensures Clears(Statements(run, from, digest), key, a, b) <= Successes(run, key, digest, a, b)
    ensures OneRule(Statements(run, from, digest), key, rule)
    decreases |run|
  {
    hide Expand, Ends, Begins, Valid;
    if run != [] {
      var e, rest := Expand(run[0], digest), Statements(run[1..], Ends(run[0]), digest);
      assert run[0] in run && forall s <- run[1..] :: s in run;
      AccountClearedBySuccess(run[1..], Ends(run[0]), digest, key, rule, a, b);
      ClearsAcross(e, rest, key, a, b);
      AccountStep(run[0], digest, key, rule, a, b);
    }
  }

  /** An account is let through no more often than its successes pay for, for requests one after the other. */
  lemma AccountLetThrough(
    run: seq<Step>, from: int, digest: string -> string, key: Key, rule: Rule, a: int, b: int)
    requires InOrder(run, from) && a < b && RuleHolds(rule)
    requires key.dimension == Account && AccountRule(run, key, rule, digest)
    ensures LetThrough(map[], run, from, digest, key, a, b)
      <= Most(b - a, rule) + rule.limit * Successes(run, key, digest, a, b)
  {
    var statements := Statements(run, from, digest);
    LetThroughIsPassed(map[], run, from, digest, key, a, b);
    StatementsClocked(run, from, digest);
    AccountClearedBySuccess(run, from, digest, key, rule, a, b);
    SpanBound(map[], statements, key, rule, from, a, b);
    TimesMonotone(rule.limit, Clears(statements, key, a, b), Successes(run, key, digest, a, b));
  }
}
