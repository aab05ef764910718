/**
 * Runs of one host's replay store: verifications at arbitrary instants, crashes
 * between them, crashes between the file operations inside one, restarts, and health
 * probes, which ask how many nonces are remembered and so may load the file.
 */
module ReplayRuns {
  import opened Wrappers
  import opened Bytes
  import opened Canonical
  import opened NonceFile
  import opened NonceSpec
  import opened VerifySpec
  import opened StoreSoundness

  /** What is fixed over a run: this host's identity and the world it verifies in. */
  datatype Site = Site(w: World, hostId: Bytes)

  datatype Call = Call(e: Envelope, keys: seq<AcceptedKey>, now: int, io: Io, order: seq<Bytes>)

  datatype Event =
    | Verified(call: Call)
    | Interrupted(call: Call, point: Interruption)
    | Sized(io: Io)
    | Crash

  /** The event presents an envelope. */
  predicate Calls(ev: Event) {
    ev.Verified? || ev.Interrupted?
  }

  function Expiry(call: Call): int {
    call.e.expiresAt * NANOS
  }

  /** The call gets past signature, target and freshness to the store. */
  ghost predicate Reaches(site: Site, call: Call)
    requires IsInt64(call.e.issuedAt) && IsInt64(call.e.expiresAt)
  {
    Precheck(site.w, call.e, call.keys, site.hostId, call.now) == None
  }

  ghost predicate CallFits(s: Store, call: Call) {
    && IsInt64(call.e.issuedAt) && IsInt64(call.e.expiresAt)
    && OrderFits(s, call.e.nonce, Expiry(call), call.io, call.order)
  }

  /** A crash tears no record: it leaves the whole of it or nothing. */
  ghost predicate Whole(ev: Event) {
    match ev
    case Crash => true
    case Sized(_) => true
    case Verified(call) => WholeAppend(call.io.append, RecordText(call.e.nonce, Expiry(call) / NANOS))
    case Interrupted(call, point) =>
      var record := RecordText(call.e.nonce, Expiry(call) / NANOS);
      && WholeAppend(call.io.append, record)
      && (point.DuringAppend? ==> WholeAppend(AppendFails(Some(point.written)), record))
  }

  ghost predicate Enabled(s: Store, ev: Event) {
    Calls(ev) ==> CallFits(s, ev.call)
  }

  ghost function VerdictOf(site: Site, s: Store, call: Call): Verdict
    requires CallFits(s, call)
  {
    Verify(site.w, s, call.e, call.keys, site.hostId, call.now, call.io, call.order).1
  }

  ghost function Step(site: Site, s: Store, ev: Event): Store
    requires Enabled(s, ev)
  {
    match ev
    case Crash => Restart(s)
    case Sized(io) => Load(s, io).0
    case Verified(call) => Verify(site.w, s, call.e, call.keys, site.hostId, call.now, call.io, call.order).0
    case Interrupted(call, point) =>
      if Reaches(site, call)
      then Restart(s.(disk := CrashDisk(s, call.e.nonce, Expiry(call), call.io, call.order, point)))
      else Restart(s)
  }

  ghost predicate Run(site: Site, states: seq<Store>, events: seq<Event>) {
    && |states| == |events| + 1
    && Sound(states[0])
    && forall i :: 0 <= i < |events| ==>
         Enabled(states[i], events[i]) && Whole(events[i]) && states[i + 1] == Step(site, states[i], events[i])
  }

  /** Event `i` returned the operation to its caller. */
  ghost predicate AcceptedAt(site: Site, states: seq<Store>, events: seq<Event>, i: nat)
    requires Run(site, states, events) && i < |events|
  {
    events[i].Verified? && VerdictOf(site, states[i], events[i].call) == Accepted
  }

  // ------------------------------------------------------------------ pruning

  /** The instant a first load prunes at. */
  function LoadPrunes(s: Store, io: Io): set<int> {
    if !s.loaded && s.disk.Some? && Load(s, io).1 then {io.loadAt} else {}
  }

  /** Every instant a loaded store may prune at while it admits a nonce. */
  function AdmitPrunes(l: Store, io: Io): set<int> {
    (if |l.seen| >= l.limit then {io.fullAt} else {}) + (if l.appends + 1 >= PRUNE_EVERY then {io.pruneAt} else {})
  }

  /** Every instant at which a call that reaches the store may prune the map. */
  function StorePrunes(s: Store, io: Io): set<int> {
    LoadPrunes(s, io) + (if Load(s, io).1 then AdmitPrunes(Load(s, io).0, io) else {})
  }

  ghost function PrunesAt(site: Site, s: Store, ev: Event): set<int>
    requires Enabled(s, ev)
  {
    if ev.Sized? then LoadPrunes(s, ev.io)
    else if Calls(ev) && Reaches(site, ev.call) then StorePrunes(s, ev.call.io)
    else {}
  }

  // ---------------------------------------------------------------- one event

  lemma {:induction false} ShapedIsStorable(nonce: Bytes, stamp: int)
    requires NonceShaped(nonce) && IsInt64(stamp)
    ensures Storable(nonce, stamp * NANOS)
  {
    assert Pow10(19) == 10_000_000_000_000_000_000 by {
      assert Pow10(10) == 10_000_000_000;
    }
    DigitsWithin(if stamp < 0 then -stamp else stamp, 19);
    assert stamp * NANOS / NANOS == stamp && stamp * NANOS % NANOS == 0;
  }

  lemma {:induction false} ReachingIsStorable(site: Site, call: Call)
    requires IsInt64(call.e.issuedAt) && IsInt64(call.e.expiresAt) && Reaches(site, call)
    ensures Storable(call.e.nonce, Expiry(call))
  {
    ExpiryIsNear(site.w, call.e, call.keys, site.hostId, call.now);
    ShapedIsStorable(call.e.nonce, call.e.expiresAt);
  }

  /** Every event keeps the map a faithful cache of the file. */
  lemma {:induction false} StepSound(site: Site, s: Store, ev: Event)
    requires Sound(s) && Enabled(s, ev) && Whole(ev)
    ensures Sound(Step(site, s, ev)) && Step(site, s, ev).limit == s.limit
  {
    hide Intact, Recalled, Storable, WholeAppend, Load, CrashDisk, Precheck;
    if ev.Sized? {
      LoadSound(s, ev.io);
    } else if Calls(ev) && Reaches(site, ev.call) {
      var call := ev.call;
      ReachingIsStorable(site, call);
      RememberSound(s, call.e.nonce, Expiry(call), call.io, call.order);
      if ev.Interrupted? {
        CrashSound(s, call.e.nonce, Expiry(call), call.io, call.order, ev.point);
      }
    }
  }

  lemma {:induction false} RunSound(site: Site, states: seq<Store>, events: seq<Event>, i: nat)
    requires Run(site, states, events) && i < |states|
    ensures Sound(states[i]) && states[i].limit == states[0].limit
  {
    hide Step, Sound, Whole, Enabled;
    if i > 0 {
      RunSound(site, states, events, i - 1);
      StepSound(site, states[i - 1], events[i - 1]);
    }
  }

  /** Any run goes on with a crash, with a health probe, or with a call whose writes are whole. */
  lemma {:induction false} RunGoesOn(site: Site, states: seq<Store>, events: seq<Event>, ev: Event)
    requires Run(site, states, events) && Enabled(states[|events|], ev)
    requires Calls(ev) ==> Whole(ev)
    ensures Run(site, states + [Step(site, states[|events|], ev)], events + [ev])
  {
    hide Step, Enabled, Sound, Calls;
    var next, all := states + [Step(site, states[|events|], ev)], events + [ev];
    assert Whole(ev) by {
      ProbeIsWhole(ev);
    }
    forall i | 0 <= i < |all|
      ensures Enabled(next[i], all[i]) && Whole(all[i]) && next[i + 1] == Step(site, next[i], all[i])
    {
      assert next[i] == states[i];
    }
  }

  lemma ProbeIsWhole(ev: Event)
    requires Calls(ev) ==> Whole(ev)
    ensures Whole(ev)
  {
  }

  /** The nonce would be recalled with this expiry, and is in the map if it is loaded. */
  ghost predicate Held(s: Store, nonce: Bytes, expiry: int) {
    && nonce in Recalled(s.disk) && Recalled(s.disk)[nonce] == expiry
    && (s.loaded ==> nonce in s.seen && s.seen[nonce] == expiry)
  }

  ghost predicate PrunedOut(instants: set<int>, expiry: int) {
    exists p :: p in instants && p >= expiry
  }

  lemma {:induction false} LoadHolds(s: Store, io: Io, nonce: Bytes, expiry: int)
    requires Sound(s) && Held(s, nonce, expiry)
    ensures Held(Load(s, io).0, nonce, expiry) || PrunedOut(LoadPrunes(s, io), expiry)
    ensures PrunedOut(LoadPrunes(s, io), expiry) ==> !s.loaded && Load(s, io).1 && expiry <= io.loadAt
  {
    LoadSound(s, io);
    hide RawLines, Recall, Readable;
    var (l, ok) := Load(s, io);
    if !s.loaded && ok {
      assert s.disk.Some? by {
        EmptyRecalls();
      }
      assert io.loadAt in LoadPrunes(s, io);
    }
  }

  lemma {:induction false} AdmitHolds(l: Store, call: Call, out: Outcome, nonce: Bytes, expiry: int)
    requires Sound(l) && l.loaded && Held(l, nonce, expiry) && call.e.nonce != nonce
    requires Admitted(l, call.e.nonce, Expiry(call), call.io, out)
    ensures Held(out.after, nonce, expiry) || PrunedOut(AdmitPrunes(l, call.io), expiry)
  {
    hide RawLines, Recall, Readable, Storable, Intact;
    var room := MakeRoom(l, call.io);
    if nonce !in room.seen {
      assert call.io.fullAt in AdmitPrunes(l, call.io);
    } else if nonce !in out.after.seen {
      assert call.io.pruneAt in AdmitPrunes(l, call.io);
    }
  }

  /** A held nonce stays held unless this event prunes at or after its expiry. */
  lemma {:induction false} StepHolds(site: Site, s: Store, ev: Event, nonce: Bytes, expiry: int)
    requires Sound(s) && Enabled(s, ev) && Whole(ev) && Held(s, nonce, expiry)
    ensures Held(Step(site, s, ev), nonce, expiry) || PrunedOut(PrunesAt(site, s, ev), expiry)
  {
    hide Intact, Recalled, Storable, WholeAppend, Load, CrashDisk, Precheck, LoadPrunes, Admitted, RecordText;
    if ev.Sized? {
      LoadHolds(s, ev.io, nonce, expiry);
    } else if Calls(ev) && Reaches(site, ev.call) {
      var call := ev.call;
      var (l, ok) := Load(s, call.io);
      ReachingIsStorable(site, call);
      LoadSound(s, call.io);
      LoadHolds(s, call.io, nonce, expiry);
      RememberSound(s, call.e.nonce, Expiry(call), call.io, call.order);
      var out := Remember(s, call.e.nonce, Expiry(call), call.io, call.order);
      if Held(l, nonce, expiry) {
        if ok && call.e.nonce !in l.seen {
          AdmitHolds(l, call, out, nonce, expiry);
          assert AdmitPrunes(l, call.io) <= PrunesAt(site, s, ev);
        }
        if ev.Interrupted? {
          CrashSound(s, call.e.nonce, Expiry(call), call.io, call.order, ev.point);
        }
      }
    }
  }

  /** The call gets to the store, and the store finds its nonce new. */
  ghost predicate FindsNew(site: Site, s: Store, call: Call)
    requires CallFits(s, call)
  {
    Reaches(site, call) && Remember(s, call.e.nonce, Expiry(call), call.io, call.order).answer == Fresh
  }

  /** Accepted means new to the store, and then known to the catalogue with arguments it accepts. */
  lemma AcceptedIffNew(site: Site, s: Store, call: Call)
    requires CallFits(s, call)
    ensures VerdictOf(site, s, call) == Accepted <==>
              && FindsNew(site, s, call)
              && site.w.knows(call.e.operation) && site.w.acceptsArguments(call.e.operation, call.e.arguments)
    ensures FindsNew(site, s, call) && !site.w.knows(call.e.operation) ==>
              VerdictOf(site, s, call) == Refused(UnknownOperation)
    ensures FindsNew(site, s, call) && site.w.knows(call.e.operation)
            && !site.w.acceptsArguments(call.e.operation, call.e.arguments) ==>
              VerdictOf(site, s, call) == Refused(BadArguments)
  {
    hide Verify, Remember, Precheck;
    VerdictMeans(site.w, s, call.e, call.keys, site.hostId, call.now, call.io, call.order);
  }

  lemma NewSteps(site: Site, s: Store, call: Call)
    requires CallFits(s, call) && FindsNew(site, s, call)
    ensures Step(site, s, Verified(call)) == Remember(s, call.e.nonce, Expiry(call), call.io, call.order).after
    ensures call.now < Expiry(call)
  {
    hide Remember, CanonicalBytes, SignedUnder;
    ExpiryIsNear(site.w, call.e, call.keys, site.hostId, call.now);
  }

  /** A nonce found new is held when its call returns, whatever the catalogue said, unless the call itself pruned
      past its expiry. */
  lemma {:induction false} NewIsHeld(site: Site, s: Store, call: Call)
    requires Sound(s) && CallFits(s, call) && Whole(Verified(call))
    requires FindsNew(site, s, call)
    ensures var t := Step(site, s, Verified(call));
            Held(t, call.e.nonce, Expiry(call)) || PrunedOut(PrunesAt(site, s, Verified(call)), Expiry(call))
    ensures Reaches(site, call) && call.now < Expiry(call)
    ensures Load(s, call.io).1 && call.e.nonce !in Load(s, call.io).0.seen
  {
    hide Intact, Recalled, Storable, WholeAppend, Load, LoadPrunes, RecordText, Reaches, Step, Remember;
    NewSteps(site, s, call);
    var (l, ok) := Load(s, call.io);
    ReachingIsStorable(site, call);
    LoadSound(s, call.io);
    RememberSound(s, call.e.nonce, Expiry(call), call.io, call.order);
    var t := Step(site, s, Verified(call));
    if call.e.nonce !in t.seen {
      assert call.io.pruneAt in AdmitPrunes(l, call.io);
      assert AdmitPrunes(l, call.io) <= PrunesAt(site, s, Verified(call));
    }
  }

  // ------------------------------------------------------------- main results

  /** Some prune between the two events, before the second one's nonce check, read a
      clock at or past `expiry`. */
  ghost predicate PrunedBetween(site: Site, states: seq<Store>, events: seq<Event>, i: nat, j: nat, expiry: int)
    requires Run(site, states, events) && i < j < |events| && events[j].Verified?
  {
    || (exists k :: i <= k < j && PrunedOut(PrunesAt(site, states[k], events[k]), expiry))
    || PrunedOut(LoadPrunes(states[j], events[j].call.io), expiry)
  }

  lemma {:induction false} HeldUntil(
    site: Site, states: seq<Store>, events: seq<Event>, i: nat, k: nat, nonce: Bytes, expiry: int)
    requires Run(site, states, events) && i < k <= |events|
    requires Held(states[i + 1], nonce, expiry)
    ensures Held(states[k], nonce, expiry)
         || exists m :: i <= m < k && PrunedOut(PrunesAt(site, states[m], events[m]), expiry)
    decreases k
  {
    hide Held, PrunesAt, Step, Sound, Whole, Enabled, PrunedOut;
    if k > i + 1 {
      HeldUntil(site, states, events, i, k - 1, nonce, expiry);
      if Held(states[k - 1], nonce, expiry) {
        RunSound(site, states, events, k - 1);
        StepHolds(site, states[k - 1], events[k - 1], nonce, expiry);
      }
    }
  }

  /** Event `i` presented a nonce that the store found new. */
  ghost predicate NewAt(site: Site, states: seq<Store>, events: seq<Event>, i: nat)
    requires Run(site, states, events) && i < |events|
  {
    events[i].Verified? && FindsNew(site, states[i], events[i].call)
  }

  /** What each acceptance of a run rests on, and what the catalogue turns away: only after the nonce was found
      new, which uses it up. */
  lemma {:induction false} AcceptedAtIff(site: Site, states: seq<Store>, events: seq<Event>, i: nat)
    requires Run(site, states, events) && i < |events|
    ensures AcceptedAt(site, states, events, i) <==>
              && NewAt(site, states, events, i)
              && site.w.knows(events[i].call.e.operation)
              && site.w.acceptsArguments(events[i].call.e.operation, events[i].call.e.arguments)
    ensures NewAt(site, states, events, i) && !AcceptedAt(site, states, events, i) ==>
              VerdictOf(site, states[i], events[i].call)
              == Refused(if site.w.knows(events[i].call.e.operation) then BadArguments else UnknownOperation)
  {
    hide VerdictOf, FindsNew, Step;
    if events[i].Verified? {
      AcceptedIffNew(site, states[i], events[i].call);
    }
  }

  /**
   * In every run, if one nonce with one expiry is found new twice then some prune between
   * the two calls read a clock past that expiry although the second verification was
   * still judged before it.
   */
  lemma {:induction false} NewTwiceOnlyPastALatePrune(
    site: Site, states: seq<Store>, events: seq<Event>, i: nat, j: nat)
    requires Run(site, states, events) && i < j < |events|
    requires NewAt(site, states, events, i) && NewAt(site, states, events, j)
    requires events[i].call.e.nonce == events[j].call.e.nonce
    requires events[i].call.e.expiresAt == events[j].call.e.expiresAt
    ensures events[j].call.now < Expiry(events[j].call)
    ensures PrunedBetween(site, states, events, i, j, Expiry(events[j].call))
  {
    hide Recalled, Intact, FindsNew, PrunesAt, LoadPrunes, Step, Sound;
    var nonce, expiry := events[j].call.e.nonce, Expiry(events[j].call);
    RunSound(site, states, events, i);
    RunSound(site, states, events, j);
    NewIsHeld(site, states[i], events[i].call);
    NewIsHeld(site, states[j], events[j].call);
    assert events[i] == Verified(events[i].call);
    if Held(states[i + 1], nonce, expiry) {
      HeldUntil(site, states, events, i, j, nonce, expiry);
      if Held(states[j], nonce, expiry) {
        LoadHolds(states[j], events[j].call.io, nonce, expiry);
        LoadSound(states[j], events[j].call.io);
      }
    }
  }

  /** So in particular when it is accepted twice. */
  lemma {:induction false} TwiceOnlyPastALatePrune(site: Site, states: seq<Store>, events: seq<Event>, i: nat, j: nat)
    requires Run(site, states, events) && i < j < |events|
    requires AcceptedAt(site, states, events, i) && AcceptedAt(site, states, events, j)
    requires events[i].call.e.nonce == events[j].call.e.nonce
    requires events[i].call.e.expiresAt == events[j].call.e.expiresAt
    ensures events[j].call.now < Expiry(events[j].call)
    ensures PrunedBetween(site, states, events, i, j, Expiry(events[j].call))
  {
    hide Run, AcceptedAt, NewAt, PrunedBetween;
    AcceptedAtIff(site, states, events, i);
    AcceptedAtIff(site, states, events, j);
    NewTwiceOnlyPastALatePrune(site, states, events, i, j);
  }

  /** No prune reads an instant later than the `now` of a verification whose nonce
      check comes after it. */
  ghost predicate ClockOrdered(site: Site, states: seq<Store>, events: seq<Event>)
    requires Run(site, states, events)
  {
    forall j :: 0 <= j < |events| && events[j].Verified? ==>
      && (forall p :: p in LoadPrunes(states[j], events[j].call.io) ==> p <= events[j].call.now)
      && (forall k, p :: 0 <= k < j && p in PrunesAt(site, states[k], events[k]) ==> p <= events[j].call.now)
  }

  /** Under ordered clocks a nonce is found new once: an envelope refused for its operation or its arguments uses
      its nonce up like an accepted one. */
  lemma {:induction false} NonceSpentOnce(site: Site, states: seq<Store>, events: seq<Event>, i: nat, j: nat)
    requires Run(site, states, events) && ClockOrdered(site, states, events) && i < j < |events|
    requires events[i].Verified? && events[j].Verified?
    requires events[i].call.e.nonce == events[j].call.e.nonce
    requires events[i].call.e.expiresAt == events[j].call.e.expiresAt
    ensures !(NewAt(site, states, events, i) && NewAt(site, states, events, j))
  {
    if NewAt(site, states, events, i) && NewAt(site, states, events, j) {
      NewTwiceOnlyPastALatePrune(site, states, events, i, j);
    }
  }

  /** And so no envelope is executed twice, although the store forgets. */
  lemma {:induction false} NeverExecutedTwice(site: Site, states: seq<Store>, events: seq<Event>, i: nat, j: nat)
    requires Run(site, states, events) && ClockOrdered(site, states, events) && i < j < |events|
    requires events[i].Verified? && events[j].Verified?
    requires events[i].call.e.nonce == events[j].call.e.nonce
    requires events[i].call.e.expiresAt == events[j].call.e.expiresAt
    ensures !(AcceptedAt(site, states, events, i) && AcceptedAt(site, states, events, j))
  {
    hide Run, ClockOrdered, AcceptedAt, NewAt;
    NonceSpentOnce(site, states, events, i, j);
    AcceptedAtIff(site, states, events, i);
    AcceptedAtIff(site, states, events, j);
  }

  /**
   * What the loading prune forgets, exactly. When the store holds an envelope's nonce,
   * presenting it again (signed, fresh at `now`, operation known, no fault, room to
   * spare) is accepted if and only if this process has yet to load the file and its
   * loading prune reads a clock at or past the expiry.
   */
  lemma {:induction false} HeldNonceAcceptedIff(site: Site, s: Store, call: Call)
    requires Sound(s) && CallFits(s, call) && Whole(Verified(call)) && Reaches(site, call)
    requires Held(s, call.e.nonce, Expiry(call))
    requires call.io.load.NoFault? && call.io.append.Appends?
    requires |Load(s, call.io).0.seen| < s.limit
    requires site.w.knows(call.e.operation) && site.w.acceptsArguments(call.e.operation, call.e.arguments)
    ensures VerdictOf(site, s, call) == Accepted <==> !s.loaded && Expiry(call) <= call.io.loadAt
  {
    hide RawLines, Recall, Readable;
    ExpiryIsNear(site.w, call.e, call.keys, site.hostId, call.now);
    ReachingIsStorable(site, call);
    LoadSound(s, call.io);
    NoFaultLoads(s, call.io);
  }

  lemma {:induction false} NoFaultLoads(s: Store, io: Io)
    requires Sound(s) && io.load.NoFault?
    ensures Load(s, io).1
  {
  }
}
