/** Runs that show what the clock hypotheses are for: an envelope executed twice, and a store full of two. */
module ReplayWitnesses {
  import opened Wrappers
  import opened Bytes
  import opened Listings
  import opened Canonical
  import opened NonceFile
  import opened NonceSpec
  import opened VerifySpec
  import opened StoreSoundness
  import opened ReplayRuns
  import opened StoreHistory

  /** A host in a world where every signature verifies and every operation is known. */
  const HOST: Bytes := [72]

  const SITE := Site(
    World(_ => Some(Zeros(SIGNATURE_SIZE)), (public, message, signature) => true, name => true, (name, args) => true),
    HOST)

  const KEYS := [AcceptedKey([], Zeros(PUBLIC_KEY_SIZE))]

  function Zeros(n: nat): (b: Bytes)
    ensures |b| == n
  {
    seq(n, _ => 48)
  }

  /** A nonce of one hex digit throughout. */
  function Nonce(digit: byte): (nonce: Bytes)
    ensures |nonce| == 2 * NONCE_BYTES && nonce[0] == digit
  {
    seq(2 * NONCE_BYTES, _ => digit)
  }

  /** Issued at `issued` milliseconds, dead five minutes later. */
  function Envelope300(digit: byte, issued: int): Envelope {
    Envelope([], map[], Nonce(digit), issued, issued + 300_000, HOST, [48], [])
  }

  /** No fault; every clock the store reads as given. */
  function Clock(loadAt: int, fullAt: int): Io {
    Io(NoFault, loadAt, fullAt, Appends, 0, Rewrites)
  }

  /** Judged at the instant it was issued. */
  function Judged(e: Envelope, io: Io, order: seq<Bytes>): Event {
    Verified(Call(e, KEYS, e.issuedAt * NANOS, io, order))
  }

  lemma Reaching(digit: byte, issued: int)
    requires IsHex(digit) && 0 < issued < 1_000_000_000
    ensures var e := Envelope300(digit, issued);
            Precheck(SITE.w, e, KEYS, HOST, e.issuedAt * NANOS) == None && CheckCatalogue(SITE.w, e) == Accepted
  {
    hide CanonicalBytes;
    var e := Envelope300(digit, issued);
    var signature := Zeros(SIGNATURE_SIZE);
    assert SITE.w.decode(e.signature) == Some(signature);
    assert KEYS[0].public == Zeros(PUBLIC_KEY_SIZE) && |KEYS[0].public| == PUBLIC_KEY_SIZE;
    assert SignedUnder(SITE.w, e, KEYS, signature);
    PrecheckPasses(SITE.w, e, KEYS, HOST, e.issuedAt * NANOS);
  }

  /** A first presentation to a store with room is recorded and accepted. */
  lemma Recorded(s: Store, digit: byte, issued: int, io: Io, order: seq<Bytes>)
    requires IsHex(digit) && 0 < issued < 1_000_000_000
    requires s.loaded || s.disk.None?
    requires Nonce(digit) !in s.seen && |s.seen| < s.limit && s.appends + 1 < PRUNE_EVERY
    requires io == Clock(io.loadAt, io.fullAt)
    requires Lists(order, Prune(s.seen[Nonce(digit) := (issued + 300_000) * NANOS], 0).Keys)
    ensures var ev := Judged(Envelope300(digit, issued), io, order);
            && Enabled(s, ev) && Whole(ev)
            && Step(SITE, s, ev) == Record(s.(loaded := true), Nonce(digit), (issued + 300_000) * NANOS)
            && VerdictOf(SITE, s, ev.call) == Accepted
            && Reaches(SITE, ev.call)
  {
    hide CanonicalBytes, RecordText, Precheck, CheckCatalogue;
    Reaching(digit, issued);
    var e := Envelope300(digit, issued);
    ExpiryIsNear(SITE.w, e, KEYS, HOST, issued * NANOS);
  }

  lemma OneKey(nonce: Bytes, expiry: int)
    requires expiry > 0
    ensures Lists([nonce], Prune(map[][nonce := expiry], 0).Keys)
  {
  }

  /** The first record ever written is the only one its file gives back, so a late enough load drops it. */
  lemma LateLoad(s: Store, nonce: Bytes, millis: int, io: Io)
    requires !s.loaded && s.seen == map[] && s.disk == Some([] + RecordText(nonce, millis))
    requires NonceShaped(nonce) && Breakless(nonce) && nonce != [] && IsInt64(millis) && io == Clock(millis * NANOS, 0)
    ensures Sound(s) && Held(s, nonce, millis * NANOS) && Load(s, io).0.seen == map[] && Load(s, io).1
  {
    hide RecordText, RawLines, Recall, Readable, Storable;
    EmptyRecalls();
    ShapedIsStorable(nonce, millis);
    assert millis * NANOS / NANOS == millis;
    RecordAppended([], nonce, millis * NANOS);
    LoadSound(s, io);
    NoFaultLoads(s, io);
  }

  const ISSUED := 1_000_000

  const DIES := (ISSUED + 300_000) * NANOS

  const AGAIN := Envelope300(65, ISSUED)
  const NEW := Store(MAX_REMEMBERED_NONCES, None, map[], 0, false)
  const HELD := Record(NEW.(loaded := true), Nonce(65), DIES)

  const ONCE := Judged(AGAIN, Clock(0, 0), [Nonce(65)])
  const TWICE := Judged(AGAIN, Clock(DIES, 0), [Nonce(65)])

  lemma AcceptedOnce()
    ensures Sound(NEW) && Enabled(NEW, ONCE) && Whole(ONCE) && Step(SITE, NEW, ONCE) == HELD
    ensures VerdictOf(SITE, NEW, ONCE.call) == Accepted
  {
    hide RecordText, Step, Whole, Enabled, Lists, VerdictOf;
    EmptyRecalls();
    OneKey(Nonce(65), DIES);
    Recorded(NEW, 65, ISSUED, Clock(0, 0), [Nonce(65)]);
  }

  lemma AcceptedAgain()
    ensures Enabled(Restart(HELD), TWICE) && Whole(TWICE) && VerdictOf(SITE, Restart(HELD), TWICE.call) == Accepted
    ensures Reaches(SITE, TWICE.call) && LoadPrunes(Restart(HELD), TWICE.call.io) == {DIES}
  {
    hide RecordText, CanonicalBytes, RawLines, Recall, Readable, Precheck, CheckCatalogue, Storable, Load, VerdictOf;
    var s := Restart(HELD);
    OneKey(Nonce(65), DIES);
    Reaching(65, ISSUED);
    ExpiryIsNear(SITE.w, AGAIN, KEYS, HOST, ISSUED * NANOS);
    LateLoad(s, Nonce(65), ISSUED + 300_000, Clock(DIES, 0));
    HeldNonceAcceptedIff(SITE, s, TWICE.call);
  }

  /**
   * With clocks out of order an envelope is executed twice: accepted and recorded, and accepted again by the
   * next process, whose loading prune reads a clock at the expiry although it judges before it.
   */
  lemma ExecutedTwice() returns (states: seq<Store>, events: seq<Event>)
    ensures Run(SITE, states, events) && |events| == 3 && states[0] == NEW
    ensures AcceptedAt(SITE, states, events, 0) && AcceptedAt(SITE, states, events, 2)
    ensures events[0].call.e == events[2].call.e && !ClockOrdered(SITE, states, events)
  {
    hide WholeAppend, RecordText, VerdictOf, Sound, HELD, Reaches, LoadPrunes, Verify, CallFits;
    AcceptedOnce();
    AcceptedAgain();
    states := [NEW, HELD, Restart(HELD), Step(SITE, Restart(HELD), TWICE)];
    events := [ONCE, Crash, TWICE];
    assert DIES in LoadPrunes(states[2], events[2].call.io) && DIES > events[2].call.now;
  }

  const EARLY := 1_000_000
  const LATER := 5_000_000
  const LAST := 9_000_000

  /** At its bound with every entry live by the clock it prunes at, the store is full. */
  lemma RefusedForRoom(s: Store, digit: byte, issued: int, io: Io, order: seq<Bytes>)
    requires IsHex(digit) && 0 < issued < 1_000_000_000
    requires s.loaded && Nonce(digit) !in s.seen && |s.seen| >= s.limit
    requires forall n :: n in s.seen ==> s.seen[n] > io.fullAt
    requires io == Clock(io.loadAt, io.fullAt)
    requires Lists(order, Prune(s.seen[Nonce(digit) := (issued + 300_000) * NANOS], 0).Keys)
    ensures var ev := Judged(Envelope300(digit, issued), io, order);
            && Enabled(s, ev) && Whole(ev) && Step(SITE, s, ev) == s && Reaches(SITE, ev.call)
            && VerdictOf(SITE, s, ev.call) == Refused(CannotRuleOutReplay(Full))
  {
    hide CanonicalBytes, RecordText, Precheck, CheckCatalogue;
    Reaching(digit, issued);
    var e := Envelope300(digit, issued);
    ExpiryIsNear(SITE.w, e, KEYS, HOST, issued * NANOS);
    assert Prune(s.seen, io.fullAt) == s.seen;
  }

  /** `order` is every key of the map. */
  lemma AllKept(seen: map<Bytes, int>, order: seq<Bytes>)
    requires Lists(order, seen.Keys) && forall n :: n in seen ==> seen[n] > 0
    ensures Lists(order, Prune(seen, 0).Keys)
  {
    assert Prune(seen, 0) == seen;
  }

  // The run: two envelopes recorded, a third refused, by a store clock that reads 1100 s throughout.

  const SLOW := Clock(0, 1_100_000 * NANOS)

  function Dies(issued: int): int {
    (issued + 300_000) * NANOS
  }

  const FIRST := Judged(Envelope300(65, EARLY), SLOW, [Nonce(65)])
  const SECOND := Judged(Envelope300(66, LATER), SLOW, [Nonce(65), Nonce(66)])
  const THIRD := Judged(Envelope300(67, LAST), SLOW, [Nonce(65), Nonce(66), Nonce(67)])

  const EMPTY := Store(2, None, map[], 0, true)
  const HELD_ONE := Record(EMPTY, Nonce(65), Dies(EARLY))
  const HELD_TWO := Record(HELD_ONE, Nonce(66), Dies(LATER))

  lemma FirstRecorded()
    ensures Enabled(EMPTY, FIRST) && Whole(FIRST) && Step(SITE, EMPTY, FIRST) == HELD_ONE
  {
    hide RecordText, Step, Whole, Enabled, Lists;
    OneKey(Nonce(65), Dies(EARLY));
    Recorded(EMPTY, 65, EARLY, SLOW, [Nonce(65)]);
  }

  lemma SecondRecorded()
    ensures Enabled(HELD_ONE, SECOND) && Whole(SECOND) && Step(SITE, HELD_ONE, SECOND) == HELD_TWO
    ensures Reaches(SITE, SECOND.call)
  {
    hide RecordText, Step, Whole, Enabled, Lists, Reaches, VerdictOf, Zeros, Envelope300;
    var both := map[][Nonce(65) := Dies(EARLY)][Nonce(66) := Dies(LATER)];
    HeldOne();
    TwoKeys(Nonce(65), Nonce(66), Dies(EARLY), Dies(LATER));
    AllKept(both, [Nonce(65), Nonce(66)]);
    Recorded(HELD_ONE, 66, LATER, SLOW, [Nonce(65), Nonce(66)]);
  }

  lemma HeldOne()
    ensures HELD_ONE.seen == map[][Nonce(65) := Dies(EARLY)] && Nonce(66) !in HELD_ONE.seen && |HELD_ONE.seen| == 1
  {
    assert Nonce(65)[0] != Nonce(66)[0];
  }

  lemma HeldTwo()
    ensures HELD_TWO.seen == map[][Nonce(65) := Dies(EARLY)][Nonce(66) := Dies(LATER)]
    ensures Nonce(67) !in HELD_TWO.seen && |HELD_TWO.seen| == 2
  {
    HeldOne();
    assert Nonce(67)[0] != Nonce(66)[0] && Nonce(67)[0] != Nonce(65)[0];
  }

  lemma ThirdRefused()
    ensures Enabled(HELD_TWO, THIRD) && Whole(THIRD) && Step(SITE, HELD_TWO, THIRD) == HELD_TWO
    ensures VerdictOf(SITE, HELD_TWO, THIRD.call) == Refused(CannotRuleOutReplay(Full))
  {
    hide RecordText, Step, Whole, Enabled, Lists, VerdictOf, Zeros, Envelope300;
    var both := map[][Nonce(65) := Dies(EARLY)][Nonce(66) := Dies(LATER)];
    HeldTwo();
    ThreeKeys(Nonce(65), Nonce(66), Nonce(67), Dies(EARLY), Dies(LATER), Dies(LAST));
    AllKept(both[Nonce(67) := Dies(LAST)], [Nonce(65), Nonce(66), Nonce(67)]);
    RefusedForRoom(HELD_TWO, 67, LAST, SLOW, [Nonce(65), Nonce(66), Nonce(67)]);
  }

  /**
   * A store of two refuses for want of room although no 330 s hold two envelopes: they were judged at 1000 s,
   * 5000 s and 9000 s, and both of the first two are live by a store clock that reads 1100 s.
   */
  lemma FullWithoutFlood() returns (states: seq<Store>, events: seq<Event>)
    ensures Run(SITE, states, events) && |events| == 3 && states[0] == EMPTY && Recalled(states[0].disk) == map[]
    ensures FullAt(SITE, states, events, 2) && Calm(SITE, states, events)
    ensures !NoneAhead(SITE, states, events, 2, events[2].call.io.fullAt)
  {
    hide Step, Whole, Enabled, Reaches, VerdictOf, Calm, NoneAhead, HELD_ONE, HELD_TWO, Recalled, Intact;
    EmptyRecalls();
    FirstRecorded();
    SecondRecorded();
    ThirdRefused();
    states := [EMPTY, HELD_ONE, HELD_TWO, HELD_TWO];
    events := [FIRST, SECOND, THIRD];
    EmptyIsSound();
    FarApart(states, events);
  }

  lemma EmptyIsSound()
    ensures Sound(EMPTY)
  {
    EmptyRecalls();
  }

  lemma TwoKeys(a: Bytes, b: Bytes, x: int, y: int)
    requires a != b
    ensures Lists([a, b], map[][a := x][b := y].Keys)
  {
  }

  lemma ThreeKeys(a: Bytes, b: Bytes, c: Bytes, x: int, y: int, z: int)
    requires a != b && b != c && a != c
    ensures Lists([a, b, c], map[][a := x][b := y][c := z].Keys)
  {
  }

  /** Judgements further apart than the replay span never share one. */
  lemma {:induction false} FarApart(states: seq<Store>, events: seq<Event>)
    requires Run(SITE, states, events) && |events| == 3 && states[0].limit == 2
    requires forall k :: 0 <= k < 3 ==> Calls(events[k])
    requires Reaches(SITE, events[1].call)
    requires events[0].call.now == EARLY * NANOS && events[1].call.now == LATER * NANOS
    requires events[2].call.now == LAST * NANOS && events[2].call.io.fullAt == 1_100_000 * NANOS
    ensures Calm(SITE, states, events)
    ensures !NoneAhead(SITE, states, events, 2, events[2].call.io.fullAt)
  {
    hide Run, Reaches;
    assert PassedAfter(SITE, states, events, 1, events[2].call.io.fullAt);
    forall at: int
      ensures |SpanNonces(SITE, states, events, 3, at)| < 2
    {
      AtMostOne(SpanNonces(SITE, states, events, 3, at));
    }
  }

  lemma AtMostOne<T(!new)>(s: set<T>)
    requires forall x, y :: x in s && y in s ==> x == y
    ensures |s| <= 1
  {
    if s != {} {
      var x :| x in s;
      assert s == {x};
    }
  }
}
