/** What the authentication rate limiter's statements and decisions mean, as functions of the table. */
module RateSpec {
  import opened Wrappers
  import opened TextOrder
  import Sorting

  /** The statements cast limits and windows to a 32-bit integer. */
  const INT4_MAX := 2147483647

  datatype Dimension = Account | Address
  datatype Path = Login | TwoFactor | PasswordReset | TokenExchange
  datatype Key = Key(dimension: Dimension, path: Path, digest: string)
  datatype Rule = Rule(limit: int, windowMs: int)
  datatype Bucket = Bucket(key: Key, rule: Rule)
  datatype Row = Row(attempts: int, startedAt: int, expiresAt: int)
  type Table = map<Key, Row>

  datatype Window = Window(dimension: Dimension, attempts: int, endsAt: int)
  datatype Counted = Counted(window: Window, counted: bool)

  predicate Hex(c: char) {
    '0' <= c <= '9' || 'a' <= c <= 'f'
  }

  predicate KeyShape(key: Key) {
    |key.digest| == 64 && forall c <- key.digest :: Hex(c)
  }

  predicate RuleHolds(rule: Rule) {
    1 <= rule.limit <= INT4_MAX && 1 <= rule.windowMs <= INT4_MAX
  }

  predicate Countable(buckets: seq<Bucket>) {
    forall b <- buckets :: KeyShape(b.key) && RuleHolds(b.rule)
  }

  predicate Live(t: Table, key: Key, now: int) {
    key in t && now < t[key].expiresAt
  }

  // --------------------------------------------------------------- statements

  /** Whether the counting statement has room for one more attempt. */
  predicate HasRoom(t: Table, b: Bucket, now: int) {
    Live(t, b.key, now) ==> t[b.key].attempts < b.rule.limit
  }

  /** The row an attempt leaves behind, whether or not it was counted. */
  function RowAfter(t: Table, b: Bucket, now: int): Row {
    if !Live(t, b.key, now) then Row(1, now, now + b.rule.windowMs)
    else if HasRoom(t, b, now) then t[b.key].(attempts := t[b.key].attempts + 1)
    else t[b.key]
  }

  function Attempted(t: Table, b: Bucket, now: int): Table {
    t[b.key := RowAfter(t, b, now)]
  }

  function Judged(t: Table, b: Bucket, now: int): Counted {
    var row := RowAfter(t, b, now);
    Counted(Window(b.key.dimension, row.attempts, row.expiresAt), HasRoom(t, b, now))
  }

  function Cleared(t: Table, key: Key): Table {
    t - {key}
  }

  function Pruned(t: Table, now: int): Table {
    map key | key in t && Live(t, key, now) :: t[key]
  }

  // --------------------------------------------------------------- lock order

  function PathName(path: Path): string {
    match path
    case Login => "login"
    case TwoFactor => "two-factor"
    case PasswordReset => "password-reset"
    case TokenExchange => "token-exchange"
  }

  function DimensionIndex(dimension: Dimension): string {
    if dimension == Account then "0" else "1"
  }

  /** The text buckets are compared by. */
  function Rank(key: Key): string {
    DimensionIndex(key.dimension) + ":" + PathName(key.path) + ":" + key.digest
  }

  datatype Ranked = Ranked(rank: string, index: nat)

  predicate RankedLess(a: Ranked, b: Ranked) {
    TextLess(a.rank, b.rank)
  }

  function RankedOf(keys: seq<Key>): seq<Ranked> {
    seq(|keys|, i requires 0 <= i < |keys| => Ranked(Rank(keys[i]), i))
  }

  function Indices(ranked: seq<Ranked>): seq<nat> {
    seq(|ranked|, i requires 0 <= i < |ranked| => ranked[i].index)
  }

  function LockOrder(keys: seq<Key>): seq<nat> {
    Indices(Sorting.Sort(RankedLess, RankedOf(keys)))
  }

  function KeysOf(buckets: seq<Bucket>): seq<Key> {
    seq(|buckets|, i requires 0 <= i < |buckets| => buckets[i].key)
  }

  /** The table once the first `k` statements of a transaction have run. */
  function Stepped(t: Table, buckets: seq<Bucket>, order: seq<nat>, at: seq<int>, k: nat): Table
    requires k <= |order| == |at| && forall j :: 0 <= j < |order| ==> order[j] < |buckets|
  {
    if k == 0 then t else Attempted(Stepped(t, buckets, order, at, k - 1), buckets[order[k - 1]], at[k - 1])
  }

  /** The live windows a read finds, in the order its statements run. */
  function Found(t: Table, keys: seq<Key>, order: seq<nat>, at: seq<int>, k: nat): seq<Window>
    requires k <= |order| == |at| && forall j :: 0 <= j < |order| ==> order[j] < |keys|
  {
    if k == 0 then []
    else
      var key := keys[order[k - 1]];
      var before := Found(t, keys, order, at, k - 1);
      if Live(t, key, at[k - 1])
      then before + [Window(key.dimension, t[key].attempts, t[key].expiresAt)]
      else before
  }

  // ---------------------------------------------------------------- decisions

  datatype Attempt = Attempt(path: Path, account: string, address: string)
  datatype Rules = Rules(account: Rule, address: Rule)
  datatype Refusal = Spent(dimension: Dimension) | StoreUnavailable
  datatype Counter = Counter(dimension: Dimension, limit: int, attempts: int, endsAt: int)
  datatype Decision = Decision(
    allowed: bool, refusedBy: Option<Refusal>, retryAt: Option<int>, counters: seq<Counter>)

  const UNAVAILABLE := Decision(false, Some(StoreUnavailable), None, [])

  /** `digest` stands for the SHA-256 of the normalised text, in lower-case hex. */
  function BucketsFor(attempt: Attempt, rules: Rules, digest: string -> string): (buckets: seq<Bucket>)
    ensures |buckets| == 2
  {
    [Bucket(Key(Account, attempt.path, digest(attempt.account)), rules.account),
     Bucket(Key(Address, attempt.path, digest(attempt.address)), rules.address)]
  }

  /** What a look at one bucket shows: nothing at all when it has no live window. */
  function Consulted(t: Table, b: Bucket, now: int): seq<Counter> {
    if Live(t, b.key, now)
    then [Counter(b.key.dimension, b.rule.limit, t[b.key].attempts, t[b.key].expiresAt)]
    else []
  }

  /** The first bucket without room decides; both counters are reported. */
  function Decide(account: bool, address: bool, accountEnds: int, addressEnds: int, counters: seq<Counter>)
    : Decision
  {
    if !account then Decision(false, Some(Spent(Account)), Some(accountEnds), counters)
    else if !address then Decision(false, Some(Spent(Address)), Some(addressEnds), counters)
    else Decision(true, None, None, counters)
  }

  /** A check: both buckets looked at, account first, and neither touched. */
  function Check(t: Table, attempt: Attempt, rules: Rules, digest: string -> string, at: seq<int>, up: bool)
    : Decision
    requires |at| == 2
  {
    var bs := BucketsFor(attempt, rules, digest);
    if !up || !KeyShape(bs[0].key) || !KeyShape(bs[1].key) then UNAVAILABLE
    else
      Decide(
        HasRoom(t, bs[0], at[0]), HasRoom(t, bs[1], at[1]),
        if bs[0].key in t then t[bs[0].key].expiresAt else at[0],
        if bs[1].key in t then t[bs[1].key].expiresAt else at[1],
        Consulted(t, bs[0], at[0]) + Consulted(t, bs[1], at[1]))
  }

  function CounterOf(t: Table, b: Bucket, now: int): Counter {
    var row := RowAfter(t, b, now);
    Counter(b.key.dimension, b.rule.limit, row.attempts, row.expiresAt)
  }

  /** A recorded attempt: both buckets counted, account first, whatever either says. */
  function Record(t: Table, attempt: Attempt, rules: Rules, digest: string -> string, at: seq<int>, up: bool)
    : (r: (Table, Decision))
    requires |at| == 2
  {
    var bs := BucketsFor(attempt, rules, digest);
    if !up || !Countable(bs) then (t, UNAVAILABLE)
    else
      var mid := Attempted(t, bs[0], at[0]);
      var end := Attempted(mid, bs[1], at[1]);
      var first, second := CounterOf(t, bs[0], at[0]), CounterOf(mid, bs[1], at[1]);
      (end, Decide(HasRoom(t, bs[0], at[0]), HasRoom(mid, bs[1], at[1]),
                   first.endsAt, second.endsAt, [first, second]))
  }

  function ResetKey(attempt: Attempt, digest: string -> string): Key {
    Key(Account, attempt.path, digest(attempt.account))
  }
}
