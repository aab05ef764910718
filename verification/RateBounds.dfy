/** How many attempts a bucket can pass, and what pruning and checking do not change. */
module RateBounds {
  import opened RateSpec

  // -------------------------------------------------------- statements in turn

  datatype Statement =
    | Count(bucket: Bucket, now: int)
    | Look(bucket: Bucket, now: int)
    | Clear(key: Key, now: int)
    | Prune(now: int)

  function Run(t: Table, s: Statement): Table {
    match s
    case Count(b, now) => Attempted(t, b, now)
    case Look(_, _) => t
    case Clear(key, _) => Cleared(t, key)
    case Prune(now) => Pruned(t, now)
  }

  /** Instants never go back. */
  predicate Clocked(run: seq<Statement>, from: int) {
    run == [] || (from <= run[0].now && Clocked(run[1..], run[0].now))
  }

  predicate OneRule(run: seq<Statement>, key: Key, rule: Rule) {
    forall s <- run :: s.Count? && s.bucket.key == key ==> s.bucket.rule == rule
  }

  predicate CountsHere(t: Table, s: Statement, key: Key, from: int, until: int) {
    s.Count? && s.bucket.key == key && from <= s.now < until && HasRoom(t, s.bucket, s.now)
  }

  /** Attempts counted against `key` in the half-open span. */
  function Passed(t: Table, run: seq<Statement>, key: Key, from: int, until: int): nat
    decreases |run|
  {
    if run == [] then 0
    else (if CountsHere(t, run[0], key, from, until) then 1 else 0)
         + Passed(Run(t, run[0]), run[1..], key, from, until)
  }

  function Clears(run: seq<Statement>, key: Key, from: int, until: int): nat {
    if run == [] then 0
    else (if Here(run[0], key, from, until) then 1 else 0)
         + Clears(run[1..], key, from, until)
  }

  // ------------------------------------------------------------------- budgets

  /** How many windows can open in a stretch of that length: its quotient by the window, rounded up. */
  function Windows(length: int, rule: Rule): nat
    requires RuleHolds(rule)
  {
    if length <= 0 then 0 else (length + rule.windowMs - 1) / rule.windowMs
  }

  lemma {:induction false} QuotientIs(x: int, w: int, q: int, r: int)
    requires 0 <= r < w && x == w * q + r
    ensures x / w == q
  {
    var d := q - x / w;
    assert w * d == x % w - r;
    assert d > 0 ==> w * d >= w;
    assert d < 0 ==> w * d <= -w;
  }

  lemma {:induction false} WindowsStep(length: int, rule: Rule)
    requires RuleHolds(rule) && length > 0
    ensures Windows(length, rule) == 1 + Windows(length - rule.windowMs, rule)
  {
    var w, x := rule.windowMs, length + rule.windowMs - 1;
    if length <= w {
      QuotientIs(x, w, 1, length - 1);
    } else {
      var q, r := (x - w) / w, (x - w) % w;
      assert w * (q + 1) == w * q + w;
      QuotientIs(x, w, q + 1, r);
    }
  }

  lemma {:induction false} WindowsMonotone(shorter: int, longer: int, rule: Rule)
    requires RuleHolds(rule) && shorter <= longer
    ensures Windows(shorter, rule) <= Windows(longer, rule)
    decreases if longer > 0 then longer else 0
  {
    if shorter > 0 {
      WindowsStep(shorter, rule);
      WindowsStep(longer, rule);
      WindowsMonotone(shorter - rule.windowMs, longer - rule.windowMs, rule);
    }
  }

  ghost predicate Lawful(t: Table, key: Key, rule: Rule, now: int) {
    key in t ==>
      && 1 <= t[key].attempts <= rule.limit
      && t[key].expiresAt == t[key].startedAt + rule.windowMs
      && t[key].startedAt <= now
  }

  /** The most that can still be counted from `now` until `until` without a clear. */
  function Budget(t: Table, key: Key, rule: Rule, now: int, until: int): int
    requires RuleHolds(rule)
  {
    if Live(t, key, now)
    then rule.limit - t[key].attempts + rule.limit * Windows(until - t[key].expiresAt, rule)
    else rule.limit * Windows(until - now, rule)
  }

  lemma TimesMonotone(limit: int, a: int, b: int)
    requires 0 <= limit && a <= b
    ensures limit * a <= limit * b
  {
  }

  /** Waiting never adds to the budget. */
  lemma {:induction false} BudgetWaits(t: Table, key: Key, rule: Rule, now: int, later: int, until: int)
    requires RuleHolds(rule) && Lawful(t, key, rule, now) && now <= later
    ensures 0 <= Budget(t, key, rule, later, until) <= Budget(t, key, rule, now, until)
  {
    var stop := if Live(t, key, now) then t[key].expiresAt else now;
    if !Live(t, key, later) {
      WindowsMonotone(until - later, until - stop, rule);
      TimesMonotone(rule.limit, Windows(until - later, rule), Windows(until - stop, rule));
    }
    TimesMonotone(rule.limit, 0, Windows(until - later, rule));
    TimesMonotone(rule.limit, 0, Windows(until - stop, rule));
  }

  /** A counted attempt pays for itself out of the budget; one that is not leaves it alone. */
  lemma {:induction false} CountPays(t: Table, b: Bucket, now: int, until: int)
    requires RuleHolds(b.rule) && Lawful(t, b.key, b.rule, now) && now < until
    ensures Lawful(Attempted(t, b, now), b.key, b.rule, now)
    ensures Budget(Attempted(t, b, now), b.key, b.rule, now, until) + (if HasRoom(t, b, now) then 1 else 0)
      <= Budget(t, b.key, b.rule, now, until)
  {
    WindowsStep(until - now, b.rule);
  }

  /** A clear is worth at most one more limit. */
  lemma {:induction false} ClearCosts(t: Table, key: Key, rule: Rule, now: int, until: int)
    requires RuleHolds(rule) && Lawful(t, key, rule, now)
    ensures Budget(Cleared(t, key), key, rule, now, until) <= Budget(t, key, rule, now, until) + rule.limit
  {
    if Live(t, key, now) {
      var e := t[key].expiresAt;
      WindowsMonotone(until - now, until - e + rule.windowMs, rule);
      if until - e + rule.windowMs > 0 {
        WindowsStep(until - e + rule.windowMs, rule);
      }
      TimesMonotone(rule.limit, Windows(until - now, rule), Windows(until - e, rule) + 1);
    }
  }

  lemma RunLawful(t: Table, s: Statement, key: Key, rule: Rule, now: int)
    requires RuleHolds(rule) && Lawful(t, key, rule, now) && now <= s.now
    requires s.Count? && s.bucket.key == key ==> s.bucket.rule == rule
    ensures Lawful(Run(t, s), key, rule, s.now)
  {
  }

  function Here(s: Statement, key: Key, from: int, until: int): bool {
    s.Clear? && s.key == key && from <= s.now < until
  }

  /** What one statement inside the span counts comes out of the budget, up to the price of a clear. */
  lemma {:induction false} StepWithin(t: Table, s: Statement, key: Key, rule: Rule, from: int, until: int)
    requires RuleHolds(rule) && Lawful(t, key, rule, s.now) && from <= s.now < until
    requires s.Count? && s.bucket.key == key ==> s.bucket.rule == rule
    ensures (if CountsHere(t, s, key, from, until) then 1 else 0) + Budget(Run(t, s), key, rule, s.now, until)
      <= Budget(t, key, rule, s.now, until) + (if Here(s, key, from, until) then rule.limit else 0)
  {
    if s.Count? && s.bucket.key == key {
      CountPays(t, s.bucket, s.now, until);
    } else if s.Clear? && s.key == key {
      ClearCosts(t, key, rule, s.now, until);
    }
  }

  /** Inside the span, the budget at its start and the clears pay for everything counted. */
  lemma {:induction false} SpanWithin(
    t: Table, run: seq<Statement>, key: Key, rule: Rule, from: int, now: int, until: int)
    requires RuleHolds(rule) && Lawful(t, key, rule, now) && OneRule(run, key, rule)
    requires from <= now && Clocked(run, now)
    ensures Passed(t, run, key, from, until)
      <= Budget(t, key, rule, now, until) + rule.limit * Clears(run, key, from, until)
    decreases |run|
  {
    hide Run, Budget, CountsHere, RuleHolds;
    if run == [] {
      BudgetWaits(t, key, rule, now, now, until);
    } else {
      var s, next := run[0], Run(t, run[0]);
      var clears := Clears(run[1..], key, from, until);
      OneRuleSplits(run, key, rule);
      RunLawful(t, s, key, rule, now);
      SpanWithin(next, run[1..], key, rule, from, s.now, until);
      BudgetWaits(t, key, rule, now, s.now, until);
      if s.now >= until {
        NothingAfter(t, run, key, from, s.now, until);
      } else {
        StepWithin(t, s, key, rule, from, until);
        assert rule.limit * (clears + 1) == rule.limit * clears + rule.limit;
      }
    }
  }

  lemma OneRuleSplits(run: seq<Statement>, key: Key, rule: Rule)
    requires OneRule(run, key, rule) && run != []
    ensures run[0].Count? && run[0].bucket.key == key ==> run[0].bucket.rule == rule
    ensures OneRule(run[1..], key, rule)
  {
    assert run[0] in run && forall e <- run[1..] :: e in run;
  }

  lemma {:induction false} NothingAfter(
    t: Table, run: seq<Statement>, key: Key, from: int, now: int, until: int)
    requires until <= now && Clocked(run, now)
    ensures Passed(t, run, key, from, until) == 0 == Clears(run, key, from, until)
    decreases |run|
  {
    if run != [] {
      NothingAfter(Run(t, run[0]), run[1..], key, from, run[0].now, until);
    }
  }

  /**
   * The most a bucket can count in a span of that length without a clear: a limit for every window that can
   * open in it, and one less for a window that opened before it, unless that window costs one of the others.
   */
  function Most(length: int, rule: Rule): int
    requires RuleHolds(rule) && length > 0
  {
    if (length - 1) % rule.windowMs == 0 then Windows(length, rule) * rule.limit
    else (Windows(length, rule) + 1) * rule.limit - 1
  }

  lemma {:induction false} MostCovers(length: int, rule: Rule)
    requires RuleHolds(rule) && length > 0
    ensures rule.limit * Windows(length, rule) <= Most(length, rule)
    ensures rule.limit - 1 + rule.limit * Windows(length - 1, rule) <= Most(length, rule)
  {
    hide Windows;
    var all, after, limit := Windows(length, rule), Windows(length - 1, rule), rule.limit;
    if (length - 1) % rule.windowMs == 0 {
      WindowsAligned(length, rule);
      assert limit * all == limit * after + limit;
    } else {
      WindowsMonotone(length - 1, length, rule);
      TimesMonotone(limit, after, all);
      assert (all + 1) * limit == limit * all + limit;
    }
  }

  lemma {:induction false} WindowsAligned(length: int, rule: Rule)
    requires RuleHolds(rule) && length > 0 && (length - 1) % rule.windowMs == 0
    ensures Windows(length, rule) == Windows(length - 1, rule) + 1
    ensures (Windows(length, rule) - 1) * rule.windowMs == length - 1
  {
    var w, q := rule.windowMs, (length - 1) / rule.windowMs;
    assert length - 1 == w * q;
    QuotientIs(length - 1 + w - 1, w, q, w - 1);
    assert w * (q + 1) == w * q + w;
    QuotientIs(length + w - 1, w, q + 1, 0);
    assert length == 1 ==> q == 0 by {
      QuotientIs(0, w, 0, 0);
    }
  }

  /** A limiter's life from any lawful table: statements before the span count for nothing in it. */
  lemma {:induction false} SpanBound(
    t: Table, run: seq<Statement>, key: Key, rule: Rule, start: int, from: int, until: int)
    requires RuleHolds(rule) && Lawful(t, key, rule, start) && OneRule(run, key, rule)
    requires Clocked(run, start) && from < until
    ensures Passed(t, run, key, from, until)
      <= Most(until - from, rule) + rule.limit * Clears(run, key, from, until)
    decreases |run|
  {
    hide Most, Passed;
    if run != [] && run[0].now < from {
      OneRuleSplits(run, key, rule);
      RunLawful(t, run[0], key, rule, start);
      SpanBound(Run(t, run[0]), run[1..], key, rule, run[0].now, from, until);
      Earlier(t, run, key, from, until);
    } else {
      var now := if start < from then from else start;
      SpanWithin(t, run, key, rule, from, now, until);
      BudgetCovered(t, key, rule, from, now, until);
    }
  }

  lemma Earlier(t: Table, run: seq<Statement>, key: Key, from: int, until: int)
    requires run != [] && run[0].now < from
    ensures Passed(t, run, key, from, until) == Passed(Run(t, run[0]), run[1..], key, from, until)
    ensures Clears(run, key, from, until) == Clears(run[1..], key, from, until)
  {
  }

  /** What is left at the start of the span, or later, is within the most it can count. */
  lemma {:induction false} BudgetCovered(t: Table, key: Key, rule: Rule, from: int, now: int, until: int)
    requires RuleHolds(rule) && Lawful(t, key, rule, now) && from <= now && from < until
    ensures Budget(t, key, rule, now, until) <= Most(until - from, rule)
  {
    hide Windows, Most;
    MostCovers(until - from, rule);
    WindowsMonotone(until - now, until - from, rule);
    TimesMonotone(rule.limit, Windows(until - now, rule), Windows(until - from, rule));
    if Live(t, key, now) {
      WindowsMonotone(until - t[key].expiresAt, until - from - 1, rule);
      TimesMonotone(rule.limit, Windows(until - t[key].expiresAt, rule), Windows(until - from - 1, rule));
    }
  }

  // ------------------------------------------------------- the bound is reached

  function Repeat(b: Bucket, now: int, n: nat): (run: seq<Statement>)
    ensures |run| == n
    ensures forall s <- run :: s == Count(b, now)
  {
    if n == 0 then [] else [Count(b, now)] + Repeat(b, now, n - 1)
  }

  /** Attempts at one instant are all counted while the live window has room for them. */
  lemma {:induction false} RepeatPasses(
    t: Table, b: Bucket, now: int, n: nat, rest: seq<Statement>, from: int, until: int)
    requires from <= now < until && Live(t, b.key, now) && t[b.key].attempts + n <= b.rule.limit
    ensures Passed(t, Repeat(b, now, n) + rest, b.key, from, until)
      == n + Passed(Filled(t, b.key, n), rest, b.key, from, until)
    decreases n
  {
    var run := Repeat(b, now, n) + rest;
    if n == 0 {
      assert run == rest;
      assert Filled(t, b.key, 0) == t;
    } else {
      var next := Attempted(t, b, now);
      assert run[0] == Count(b, now) && run[1..] == Repeat(b, now, n - 1) + rest;
      assert CountsHere(t, run[0], b.key, from, until);
      AttemptFills(t, b, now, n - 1);
      hide Attempted, Filled, HasRoom, CountsHere;
      RepeatPasses(next, b, now, n - 1, rest, from, until);
    }
  }

  function Filled(t: Table, key: Key, n: nat): Table
    requires key in t
  {
    t[key := t[key].(attempts := t[key].attempts + n)]
  }

  lemma AttemptFills(t: Table, b: Bucket, now: int, more: nat)
    requires Live(t, b.key, now) && t[b.key].attempts < b.rule.limit
    ensures Live(Attempted(t, b, now), b.key, now)
    ensures Attempted(t, b, now)[b.key].attempts == t[b.key].attempts + 1
    ensures Filled(Attempted(t, b, now), b.key, more) == Filled(t, b.key, more + 1)
  {
  }

  /** Whole windows one after the other, each spent at the instant it opens. */
  function Bursts(b: Bucket, at: int, windows: nat): seq<Statement>
    requires RuleHolds(b.rule)
    decreases windows
  {
    if windows == 0 then []
    else [Count(b, at)] + (Repeat(b, at, b.rule.limit - 1) + Bursts(b, at + b.rule.windowMs, windows - 1))
  }

  lemma {:induction false} BurstsPass(t: Table, b: Bucket, at: int, windows: nat, from: int, until: int)
    requires RuleHolds(b.rule) && !Live(t, b.key, at) && from <= at
    requires windows > 0 ==> at + (windows - 1) * b.rule.windowMs < until
    ensures Passed(t, Bursts(b, at, windows), b.key, from, until) == windows * b.rule.limit
    decreases windows
  {
    if windows > 0 {
      hide Bursts, RuleHolds, HasRoom, Passed, Live, Attempted, Filled;
      var w, limit := b.rule.windowMs, b.rule.limit;
      OneBurst(t, b, at, windows, from, until);
      assert at < until && (windows > 1 ==> at + w + (windows - 2) * w < until) by {
        OneFewer(windows, w);
      }
      var spent := Filled(Attempted(t, b, at), b.key, limit - 1);
      BurstsPass(spent, b, at + w, windows - 1, from, until);
      OneFewer(windows, limit);
    }
  }

  lemma OneFewer(n: nat, w: int)
    requires n > 0 && w >= 0
    ensures n * w == w + (n - 1) * w && (n - 1) * w >= 0
    ensures n > 1 ==> (n - 1) * w == w + (n - 2) * w
  {
  }

  /** The first window counts a whole limit, and is over when the next one opens. */
  lemma OneBurst(t: Table, b: Bucket, at: int, windows: nat, from: int, until: int)
    requires RuleHolds(b.rule) && !Live(t, b.key, at) && from <= at < until && windows > 0
    ensures b.key in Attempted(t, b, at)
    ensures var spent := Filled(Attempted(t, b, at), b.key, b.rule.limit - 1);
            && !Live(spent, b.key, at + b.rule.windowMs)
            && Passed(t, Bursts(b, at, windows), b.key, from, until)
                 == b.rule.limit + Passed(spent, Bursts(b, at + b.rule.windowMs, windows - 1), b.key, from, until)
  {
    var limit := b.rule.limit;
    var begun, rest := Attempted(t, b, at), Bursts(b, at + b.rule.windowMs, windows - 1);
    assert Bursts(b, at, windows)[0] == Count(b, at);
    assert Bursts(b, at, windows)[1..] == Repeat(b, at, limit - 1) + rest;
    assert CountsHere(t, Count(b, at), b.key, from, until);
    hide Passed, Bursts, Repeat;
    RepeatPasses(begun, b, at, limit - 1, rest, from, until);
    PassedFirst(t, Bursts(b, at, windows), b.key, from, until);
  }

  lemma PassedFirst(t: Table, run: seq<Statement>, key: Key, from: int, until: int)
    requires run != [] && CountsHere(t, run[0], key, from, until)
    ensures Passed(t, run, key, from, until) == 1 + Passed(Run(t, run[0]), run[1..], key, from, until)
  {
  }

  /** One attempt opens a window; the rest of its limit is spent just before it ends, then window after window. */
  function Straddle(b: Bucket, windows: nat): seq<Statement>
    requires RuleHolds(b.rule)
  {
    [Count(b, 0)] + (Repeat(b, b.rule.windowMs - 1, b.rule.limit - 1) + Bursts(b, b.rule.windowMs, windows))
  }

  lemma {:induction false} WindowsFit(length: int, rule: Rule)
    requires RuleHolds(rule) && length > 0 && (length - 1) % rule.windowMs != 0
    ensures Windows(length, rule) >= 1 && (Windows(length, rule) - 1) * rule.windowMs < length - 1
  {
    var w := rule.windowMs;
    var k := Windows(length, rule);
    assert k == (length + w - 1) / w;
    assert k * w <= length + w - 1;
    if (k - 1) * w == length - 1 {
      assert length - 1 == w * (k - 1) + 0;
      QuotientIs(length - 1, w, k - 1, 0);
    }
  }

  /** A run that counts the most there is in a span of that length, and where the span starts. */
  function Peak(b: Bucket, length: int): (seq<Statement>, int)
    requires RuleHolds(b.rule) && length > 0
  {
    var windows := Windows(length, b.rule);
    if (length - 1) % b.rule.windowMs == 0 then (Bursts(b, 0, windows), 0)
    else (Straddle(b, windows), b.rule.windowMs - 1)
  }

  /** No smaller bound holds: for every rule, in a span of every length, a run without clears meets it exactly. */
  lemma BoundIsReached(b: Bucket, length: int)
    requires RuleHolds(b.rule) && length > 0
    ensures var (run, from) := Peak(b, length);
            Passed(map[], run, b.key, from, from + length) == Most(length, b.rule)
  {
    hide Windows, Passed, Bursts, Repeat, Attempted, Filled, Straddle;
    var w, limit, k := b.rule.windowMs, b.rule.limit, Windows(length, b.rule);
    if (length - 1) % w == 0 {
      WindowsAligned(length, b.rule);
      BurstsPass(map[], b, 0, k, 0, length);
    } else {
      StraddleMeets(b, length);
    }
  }

  lemma StraddleMeets(b: Bucket, length: int)
    requires RuleHolds(b.rule) && length > 0 && (length - 1) % b.rule.windowMs != 0
    ensures var from := b.rule.windowMs - 1;
            Passed(map[], Straddle(b, Windows(length, b.rule)), b.key, from, from + length) == Most(length, b.rule)
  {
    hide Windows, Passed, Bursts, Repeat, Attempted, Filled, Live, Straddle;
    var w, limit, k := b.rule.windowMs, b.rule.limit, Windows(length, b.rule);
    assert w >= 2;
    WindowsFit(length, b.rule);
    StraddleStarts(b, k, w - 1, w - 1 + length);
    var spent := Filled(Attempted(map[], b, 0), b.key, limit - 1);
    OneFewer(k, w);
    BurstsPass(spent, b, w, k, w - 1, w - 1 + length);
    OneFewer(k + 1, limit);
  }

  /** Before the whole windows, a limit less one is counted in the span, from a window that began before it. */
  lemma StraddleStarts(b: Bucket, windows: nat, from: int, until: int)
    requires RuleHolds(b.rule) && b.rule.windowMs >= 2 && from == b.rule.windowMs - 1 && from < until
    ensures b.key in Attempted(map[], b, 0)
    ensures var spent := Filled(Attempted(map[], b, 0), b.key, b.rule.limit - 1);
            && !Live(spent, b.key, b.rule.windowMs)
            && Passed(map[], Straddle(b, windows), b.key, from, until)
                 == b.rule.limit - 1 + Passed(spent, Bursts(b, b.rule.windowMs, windows), b.key, from, until)
  {
    hide Bursts, Repeat;
    var rest := Bursts(b, b.rule.windowMs, windows);
    assert Straddle(b, windows)[0] == Count(b, 0) && !CountsHere(map[], Count(b, 0), b.key, from, until);
    assert Straddle(b, windows)[1..] == Repeat(b, from, b.rule.limit - 1) + rest;
    RepeatPasses(Attempted(map[], b, 0), b, from, b.rule.limit - 1, rest, from, until);
  }
}
