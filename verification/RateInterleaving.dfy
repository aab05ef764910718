/** Requests whose counting statements interleave, and how many of them are let through. */
module RateInterleaving {
  import opened RateSpec
  import opened Wrappers
  import opened RateBounds
  import opened RatePolicy
  import opened Listings

  /** A statement and the request whose transaction runs it. */
  datatype Tagged = Tagged(request: nat, statement: Statement)

  function Plain(run: seq<Tagged>): (s: seq<Statement>)
    ensures |s| == |run| && forall i :: 0 <= i < |run| ==> s[i] == run[i].statement
  {
    seq(|run|, i requires 0 <= i < |run| => run[i].statement)
  }

  /** The table once the first `n` statements have run, whoever's they are. */
  function TableAt(t: Table, run: seq<Statement>, n: nat): Table
    requires n <= |run|
    decreases n
  {
    if n == 0 then t else TableAt(Run(t, run[0]), run[1..], n - 1)
  }

  /** Statement `i` counted its attempt. */
  predicate Counts(t: Table, run: seq<Tagged>, i: nat)
    requires i < |run| && run[i].statement.Count?
  {
    HasRoom(TableAt(t, Plain(run), i), run[i].statement.bucket, run[i].statement.now)
  }

  /** A request is let through when every attempt it recorded was counted. */
  ghost predicate Allowed(t: Table, run: seq<Tagged>, request: nat) {
    forall i :: 0 <= i < |run| && run[i].request == request && run[i].statement.Count? ==> Counts(t, run, i)
  }

  /** Statement `i` records an attempt against `key` within the span. */
  predicate Records(run: seq<Tagged>, i: nat, key: Key, a: int, b: int)
    requires i < |run|
  {
    var s := run[i].statement;
    s.Count? && s.bucket.key == key && a <= s.now < b
  }

  /** The requests that recorded an attempt against `key` within the span and were let through. */
  ghost function LetIn(t: Table, run: seq<Tagged>, key: Key, a: int, b: int): set<nat> {
    set i: nat | i < |run| && Records(run, i, key, a, b) && Allowed(t, run, run[i].request) :: run[i].request
  }

  /** The positions, from `base` on, of the statements that count against `key` within the span. */
  ghost function Hits(t: Table, run: seq<Statement>, key: Key, a: int, b: int, base: nat): set<nat>
    decreases |run|
  {
    if run == [] then {}
    else (if CountsHere(t, run[0], key, a, b) then {base} else {})
         + Hits(Run(t, run[0]), run[1..], key, a, b, base + 1)
  }

  lemma {:induction false} HitsAreCounted(t: Table, run: seq<Statement>, key: Key, a: int, b: int, base: nat)
    ensures forall i :: i in Hits(t, run, key, a, b, base) ==> i >= base
    ensures |Hits(t, run, key, a, b, base)| == Passed(t, run, key, a, b)
    decreases |run|
  {
    hide CountsHere, Run;
    if run != [] {
      HitsAreCounted(Run(t, run[0]), run[1..], key, a, b, base + 1);
    }
  }

  lemma {:induction false} HitAt(t: Table, run: seq<Statement>, key: Key, a: int, b: int, base: nat, n: nat)
    requires n < |run| && CountsHere(TableAt(t, run, n), run[n], key, a, b)
    ensures base + n in Hits(t, run, key, a, b, base)
    decreases n
  {
    hide CountsHere, Run;
    if n > 0 {
      HitAt(Run(t, run[0]), run[1..], key, a, b, base + 1, n - 1);
    }
  }

  function RequestAt(run: seq<Tagged>, i: nat): nat {
    if i < |run| then run[i].request else 0
  }

  /** No more requests are let through than attempts are counted. */
  lemma {:induction false} LetInIsPassed(t: Table, run: seq<Tagged>, key: Key, a: int, b: int)
    ensures |LetIn(t, run, key, a, b)| <= Passed(t, Plain(run), key, a, b)
  {
    hide TableAt, HasRoom, Hits;
    var hits := Hits(t, Plain(run), key, a, b, 0);
    HitsAreCounted(t, Plain(run), key, a, b, 0);
    var f := (i: nat) => RequestAt(run, i);
    forall r | r in LetIn(t, run, key, a, b)
      ensures exists i :: i in hits && f(i) == r
    {
      var i: nat :| i < |run| && Records(run, i, key, a, b) && Allowed(t, run, run[i].request) && run[i].request == r;
      assert Counts(t, run, i);
      HitAt(t, Plain(run), key, a, b, 0, i);
      assert i in hits && f(i) == r;
    }
    ImageIsNoLarger(hits, LetIn(t, run, key, a, b), f);
  }

  /**
   * However the statements of different requests interleave, no more requests against one bucket are let
   * through in a span than its windows and the clears within it pay for.
   */
  lemma InterleavedBound(
    t: Table, run: seq<Tagged>, key: Key, rule: Rule, start: int, a: int, b: int)
    requires RuleHolds(rule) && Lawful(t, key, rule, start) && OneRule(Plain(run), key, rule)
    requires Clocked(Plain(run), start) && a < b
    ensures |LetIn(t, run, key, a, b)|
      <= Most(b - a, rule) + rule.limit * Clears(Plain(run), key, a, b)
  {
    LetInIsPassed(t, run, key, a, b);
    SpanBound(t, Plain(run), key, rule, start, a, b);
  }

  lemma {:induction false} NeverCleared(run: seq<Statement>, key: Key, a: int, b: int)
    requires forall s <- run :: s.Clear? ==> s.key.dimension == Account
    requires key.dimension == Address
    ensures Clears(run, key, a, b) == 0
  {
    if run != [] {
      assert run[0] in run && forall s <- run[1..] :: s in run;
      NeverCleared(run[1..], key, a, b);
    }
  }

  /** Nothing clears an address, so no interleaving of any requests lets it through more often than this. */
  lemma InterleavedAddressBound(run: seq<Tagged>, key: Key, rule: Rule, start: int, a: int, b: int)
    requires key.dimension == Address && RuleHolds(rule) && OneRule(Plain(run), key, rule)
    requires forall s <- Plain(run) :: s.Clear? ==> s.key.dimension == Account
    requires Clocked(Plain(run), start) && a < b
    ensures |LetIn(map[], run, key, a, b)| <= Most(b - a, rule)
  {
    NeverCleared(Plain(run), key, a, b);
    InterleavedBound(map[], run, key, rule, start, a, b);
  }

  // ------------------------------------------------------ pruning is invisible

  /** What a statement tells the request that runs it; a sweep tells nobody anything. */
  datatype Answer =
    | Judgement(counted: Counted)
    | Sight(found: seq<Counter>, room: bool)
    | Reset(present: bool, live: bool)

  function AnswerTo(t: Table, s: Statement): Option<Answer> {
    match s
    case Count(b, now) => Some(Judgement(Judged(t, b, now)))
    case Look(b, now) => Some(Sight(Consulted(t, b, now), HasRoom(t, b, now)))
    case Clear(key, now) => Some(Reset(key in t, Live(t, key, now)))
    case Prune(_) => None
  }

  /** The answers in turn, each with the request it is given to. */
  function Answers(t: Table, run: seq<Tagged>): seq<(nat, Answer)>
    decreases |run|
  {
    if run == [] then []
    else
      var answer := AnswerTo(t, run[0].statement);
      (if answer.Some? then [(run[0].request, answer.value)] else []) + Answers(Run(t, run[0].statement), run[1..])
  }

  function Unpruned(run: seq<Tagged>): seq<Tagged> {
    if run == [] then []
    else (if run[0].statement.Prune? then [] else [run[0]]) + Unpruned(run[1..])
  }

  /** The same, except that a reset of a window already over may or may not have found its row. */
  predicate SameAnswer(x: (nat, Answer), y: (nat, Answer)) {
    x == y || (x.0 == y.0 && x.1.Reset? && y.1.Reset? && !x.1.live && !y.1.live)
  }

  ghost predicate SameAnswers(xs: seq<(nat, Answer)>, ys: seq<(nat, Answer)>) {
    |xs| == |ys| && forall i :: 0 <= i < |xs| ==> SameAnswer(xs[i], ys[i])
  }

  lemma StatementAlike(t: Table, u: Table, s: Statement, request: nat)
    requires Alike(t, u, s.now) && !s.Prune?
    ensures Alike(Run(t, s), Run(u, s), s.now)
    ensures AnswerTo(t, s).Some? && AnswerTo(u, s).Some?
    ensures SameAnswer((request, AnswerTo(t, s).value), (request, AnswerTo(u, s).value))
  {
    hide Alike, Attempted, Cleared, Consulted, HasRoom, RowAfter;
    match s
    case Count(b, now) => AttemptAlike(t, u, b, now);
    case Look(b, now) => ConsultedAlike(t, u, b, now);
    case Clear(key, now) =>
      ClearAlike(t, u, key, now);
      LiveAlike(t, u, key, now);
  }

  lemma LiveAlike(t: Table, u: Table, key: Key, now: int)
    requires Alike(t, u, now)
    ensures Live(t, key, now) <==> Live(u, key, now)
    ensures Live(t, key, now) ==> key in t && key in u
  {
  }

  /**
   * With sweeps anywhere among the statements of any requests, between the two of one record or among those of
   * another, every statement answers as it would have had nothing ever been pruned; only a reset may have found
   * a row whose window was over.
   */
  lemma {:induction false} SweepsAreInvisible(t: Table, u: Table, run: seq<Tagged>, from: int)
    requires Alike(t, u, from) && Clocked(Plain(run), from)
    ensures SameAnswers(Answers(t, run), Answers(u, Unpruned(run)))
    decreases |run|
  {
    hide Alike, Run, AnswerTo, SameAnswer;
    if run != [] {
      var s, rest := run[0].statement, run[1..];
      assert Plain(run)[0] == s && Plain(run)[1..] == Plain(rest);
      AlikeLater(t, u, from, s.now);
      if s.Prune? {
        PruneAlone(t, u, s);
        SweepsAreInvisible(Run(t, s), u, rest, s.now);
        assert Unpruned(run) == Unpruned(rest) && Answers(t, run) == Answers(Run(t, s), rest);
      } else {
        StatementAlike(t, u, s, run[0].request);
        SweepsAreInvisible(Run(t, s), Run(u, s), rest, s.now);
        assert Unpruned(run)[0] == run[0] && Unpruned(run)[1..] == Unpruned(rest);
      }
    }
  }

  lemma PruneAlone(t: Table, u: Table, s: Statement)
    requires s.Prune? && Alike(t, u, s.now)
    ensures Alike(Run(t, s), u, s.now) && AnswerTo(t, s).None?
  {
    hide Alike, Pruned;
    PruneAlike(t, u, s.now);
  }
}
