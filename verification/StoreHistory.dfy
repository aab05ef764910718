/** Where a run's remembered nonces came from, where its forgotten ones went, and how
    few envelopes it takes for the store never to be full. */
module StoreHistory {
  import opened Wrappers
  import opened Bytes
  import opened Listings
  import opened NonceFile
  import opened NonceSpec
  import opened VerifySpec
  import opened StoreSoundness
  import opened ReplayRuns

  const REPLAY_SPAN := MAX_FUTURE_SKEW + MAX_VALIDITY

  // ---------------------------------------------------------- forgotten nonces

  /** Event `k` returned the store's write error for this nonce. */
  ghost predicate FailedAt(site: Site, states: seq<Store>, events: seq<Event>, k: nat, nonce: Bytes)
    requires Run(site, states, events) && k < |events|
  {
    && events[k].Verified? && events[k].call.e.nonce == nonce
    && VerdictOf(site, states[k], events[k].call) == Refused(CannotRuleOutReplay(Unwritable))
  }

  /** Some earlier prune reached this record's expiry, or some earlier call that
      presented the nonce returned an error. */
  ghost predicate Excused(site: Site, states: seq<Store>, events: seq<Event>, t: nat, nonce: Bytes, expiry: int)
    requires Run(site, states, events) && t <= |events|
  {
    exists k :: 0 <= k < t && (PrunedOut(PrunesAt(site, states[k], events[k]), expiry)
                               || FailedAt(site, states, events, k, nonce))
  }

  ghost predicate Missing(s: Store, nonce: Bytes) {
    nonce in Recalled(s.disk) && nonce !in s.seen
  }

  lemma {:induction false} MissingAfterLoad(s: Store, io: Io, nonce: Bytes)
    requires Sound(s) && !s.loaded && Load(s, io).1 && Missing(Load(s, io).0, nonce)
    ensures PrunedOut(LoadPrunes(s, io), Recalled(s.disk)[nonce])
  {
    LoadSound(s, io);
    hide RawLines, Recall, Readable, Storable;
    if s.disk.None? {
      EmptyRecalls();
    }
    assert io.loadAt in LoadPrunes(s, io);
  }

  lemma {:induction false} MissingAfterAdmit(l: Store, call: Call, out: Outcome, nonce: Bytes)
    requires Sound(l) && l.loaded && Admitted(l, call.e.nonce, Expiry(call), call.io, out)
    requires Missing(out.after, nonce)
    ensures var expiry := Recalled(out.after.disk)[nonce];
            || (Missing(l, nonce) && Recalled(l.disk)[nonce] == expiry)
            || PrunedOut(AdmitPrunes(l, call.io), expiry)
            || (nonce == call.e.nonce && out.answer == Unwritable)
  {
    hide RawLines, Recall, Readable, Storable, Intact;
    var room := MakeRoom(l, call.io);
    if nonce in l.seen && nonce !in room.seen {
      assert call.io.fullAt in AdmitPrunes(l, call.io);
    }
    if out.answer == Fresh && nonce in room.seen[call.e.nonce := Expiry(call)] {
      assert call.io.pruneAt in AdmitPrunes(l, call.io);
    }
  }

  lemma {:induction false} MissingAfterStep(site: Site, s: Store, call: Call, nonce: Bytes)
    requires Sound(s) && CallFits(s, call) && Whole(Verified(call)) && Step(site, s, Verified(call)).loaded
    requires Missing(Step(site, s, Verified(call)), nonce)
    ensures var expiry := Recalled(Step(site, s, Verified(call)).disk)[nonce];
            || (s.loaded && Missing(s, nonce) && Recalled(s.disk)[nonce] == expiry)
            || PrunedOut(PrunesAt(site, s, Verified(call)), expiry)
            || (call.e.nonce == nonce && VerdictOf(site, s, call) == Refused(CannotRuleOutReplay(Unwritable)))
  {
    hide Intact, Recalled, Storable, WholeAppend, Load, LoadPrunes, AdmitPrunes, RecordText, Admitted, Precheck;
    if Reaches(site, call) {
      var (l, ok) := Load(s, call.io);
      ReachingIsStorable(site, call);
      LoadSound(s, call.io);
      RememberSound(s, call.e.nonce, Expiry(call), call.io, call.order);
      var out := Remember(s, call.e.nonce, Expiry(call), call.io, call.order);
      assert LoadPrunes(s, call.io) <= PrunesAt(site, s, Verified(call));
      if ok && !s.loaded && Missing(l, nonce) {
        MissingAfterLoad(s, call.io, nonce);
      }
      if ok && call.e.nonce !in l.seen {
        MissingAfterAdmit(l, call, out, nonce);
        assert AdmitPrunes(l, call.io) <= PrunesAt(site, s, Verified(call));
      }
    }
  }

  lemma {:induction false} MissingAfterSize(site: Site, s: Store, io: Io, nonce: Bytes)
    requires Sound(s) && Step(site, s, Sized(io)).loaded && Missing(Step(site, s, Sized(io)), nonce)
    ensures var expiry := Recalled(Step(site, s, Sized(io)).disk)[nonce];
            || (s.loaded && Missing(s, nonce) && Recalled(s.disk)[nonce] == expiry)
            || PrunedOut(PrunesAt(site, s, Sized(io)), expiry)
  {
    hide Recalled, Load, LoadPrunes, Intact;
    LoadSound(s, io);
    if !s.loaded {
      MissingAfterLoad(s, io, nonce);
    }
  }

  /**
   * In every reachable loaded state the map agrees with the last record of each nonce
   * it holds, and a record whose nonce it does not hold either expired by some prune
   * or was left by a call that returned an error.
   */
  lemma {:induction false} CacheIsFaithful(site: Site, states: seq<Store>, events: seq<Event>, t: nat)
    requires Run(site, states, events) && t <= |events| && !states[0].loaded && states[t].loaded
    ensures Within(states[t].seen, Recalled(states[t].disk))
    ensures forall nonce :: Missing(states[t], nonce) ==>
              Excused(site, states, events, t, nonce, Recalled(states[t].disk)[nonce])
  {
    RunSound(site, states, events, t);
    RunSound(site, states, events, t - 1);
    var s, ev := states[t - 1], events[t - 1];
    assert ev.Verified? || ev.Sized?;
    if s.loaded {
      CacheIsFaithful(site, states, events, t - 1);
    }
    forall nonce | Missing(states[t], nonce)
      ensures Excused(site, states, events, t, nonce, Recalled(states[t].disk)[nonce])
    {
      hide Recalled, Missing, Step, VerdictOf, PrunesAt, Sound, Whole, Enabled;
      if ev.Sized? {
        MissingAfterSize(site, s, ev.io, nonce);
      } else {
        MissingAfterStep(site, s, ev.call, nonce);
      }
      var expiry := Recalled(states[t].disk)[nonce];
      if !PrunedOut(PrunesAt(site, s, ev), expiry) && !FailedAt(site, states, events, t - 1, nonce) {
        assert Excused(site, states, events, t - 1, nonce, expiry);
      }
    }
  }

  // ----------------------------------------------------------------- capacity

  /** Event `k` carried this nonce and expiry past signature, target and freshness. */
  ghost predicate Presented(site: Site, states: seq<Store>, events: seq<Event>, k: nat, nonce: Bytes, expiry: int)
    requires Run(site, states, events) && k < |events|
  {
    Calls(events[k]) && Reaches(site, events[k].call)
    && events[k].call.e.nonce == nonce && Expiry(events[k].call) == expiry
  }

  /** A record is one the file already held, or this event's own. */
  lemma {:induction false} StepRecalls(site: Site, s: Store, ev: Event, nonce: Bytes)
    requires Sound(s) && Enabled(s, ev) && Whole(ev)
    requires nonce in Recalled(Step(site, s, ev).disk)
    ensures var expiry := Recalled(Step(site, s, ev).disk)[nonce];
            || (nonce in Recalled(s.disk) && Recalled(s.disk)[nonce] == expiry)
            || (Calls(ev) && Reaches(site, ev.call) && ev.call.e.nonce == nonce && Expiry(ev.call) == expiry)
  {
    hide Intact, Recalled, Storable, WholeAppend, Load, CrashDisk, RecordText, Precheck;
    if ev.Sized? {
      LoadSound(s, ev.io);
    } else if Calls(ev) && Reaches(site, ev.call) {
      var call := ev.call;
      ReachingIsStorable(site, call);
      LoadSound(s, call.io);
      RememberSound(s, call.e.nonce, Expiry(call), call.io, call.order);
      if ev.Interrupted? {
        CrashSound(s, call.e.nonce, Expiry(call), call.io, call.order, ev.point);
      }
    }
  }

  /** Every recorded nonce belongs to a signed, correctly addressed, fresh envelope. */
  lemma {:induction false} RecordsArePresented(
    site: Site, states: seq<Store>, events: seq<Event>, t: nat, nonce: Bytes)
    requires Run(site, states, events) && t <= |events| && Recalled(states[0].disk) == map[]
    requires nonce in Recalled(states[t].disk)
    ensures exists k :: 0 <= k < t && Presented(site, states, events, k, nonce, Recalled(states[t].disk)[nonce])
  {
    hide Recalled, Sound, Whole, Enabled, Step, Reaches;
    if t > 0 {
      RunSound(site, states, events, t - 1);
      StepRecalls(site, states[t - 1], events[t - 1], nonce);
      var expiry := Recalled(states[t].disk)[nonce];
      if !Presented(site, states, events, t - 1, nonce, expiry) {
        RecordsArePresented(site, states, events, t - 1, nonce);
      }
    }
  }

  /** Event `k` passed the checks before the store at an instant after `since`. */
  ghost predicate PassedAfter(site: Site, states: seq<Store>, events: seq<Event>, k: nat, since: int)
    requires Run(site, states, events) && k < |events|
  {
    Calls(events[k]) && Reaches(site, events[k].call) && events[k].call.now > since
  }

  function NonceOf(events: seq<Event>, k: nat): Bytes {
    if k < |events| && Calls(events[k]) then events[k].call.e.nonce else []
  }

  /** The nonces of the events before `j` that passed them at an instant after `since`, each counted once. */
  ghost function PassingNonces(site: Site, states: seq<Store>, events: seq<Event>, j: nat, since: int): set<Bytes>
    requires Run(site, states, events) && j <= |events|
  {
    set k: nat | k < j && PassedAfter(site, states, events, k, since) :: NonceOf(events, k)
  }

  /** Event `j` was refused because the store was full. */
  ghost predicate FullAt(site: Site, states: seq<Store>, events: seq<Event>, j: nat)
    requires Run(site, states, events) && j < |events|
  {
    events[j].Verified? && VerdictOf(site, states[j], events[j].call) == Refused(CannotRuleOutReplay(Full))
  }

  /** Event `k` passed them at an instant of the replay span that ends at `at`. */
  ghost predicate PassedWithin(site: Site, states: seq<Store>, events: seq<Event>, k: nat, at: int)
    requires Run(site, states, events) && k < |events|
  {
    PassedAfter(site, states, events, k, at - REPLAY_SPAN) && events[k].call.now <= at
  }

  /** The nonces that the first `j` events passed them with in the replay span that ends at `at`. */
  ghost function SpanNonces(site: Site, states: seq<Store>, events: seq<Event>, j: nat, at: int): set<Bytes>
    requires Run(site, states, events) && j <= |events|
  {
    set k: nat | k < j && PassedWithin(site, states, events, k, at) :: NonceOf(events, k)
  }

  /** No envelope that passed them before event `j` was judged at an instant later than `at`. */
  ghost predicate NoneAhead(site: Site, states: seq<Store>, events: seq<Event>, j: nat, at: int)
    requires Run(site, states, events) && j <= |events|
  {
    forall k :: 0 <= k < j ==> !PassedAfter(site, states, events, k, at)
  }

  /** What the store remembers: its map, or its file's records when it has yet to load them. */
  ghost function Remembered(s: Store): map<Bytes, int> {
    if s.loaded then s.seen else Recalled(s.disk)
  }

  /** Loading and pruning to make room dropped nothing that was live at the instants they read. */
  ghost predicate NothingLiveDropped(s: Store, t: Store, io: Io) {
    && t.disk == s.disk && t.loaded
    && forall n :: n in Remembered(s) && Remembered(s)[n] > io.fullAt && (s.loaded || Remembered(s)[n] > io.loadAt)
         ==> n in t.seen && t.seen[n] == Remembered(s)[n]
  }

  /**
   * The store refuses for want of room only when envelopes with at least `limit` different nonces
   * passed signature, target and freshness at instants after the one it pruned at less 330 s; and
   * the refusal forgets no nonce that is still live, whether or not the store had loaded.
   */
  lemma {:induction false} FullNeedsEnvelopes(site: Site, states: seq<Store>, events: seq<Event>, j: nat)
    requires Run(site, states, events) && j < |events| && Recalled(states[0].disk) == map[]
    requires FullAt(site, states, events, j)
    ensures |PassingNonces(site, states, events, j, events[j].call.io.fullAt - REPLAY_SPAN)| >= states[0].limit
    ensures NothingLiveDropped(states[j], states[j + 1], events[j].call.io)
  {
    hide Run, FullAt, Recalled, PassingNonces;
    FullStoreAt(site, states, events, j);
    KeptAreFew(site, states, events, j, states[j + 1].seen, events[j].call.io.fullAt);
  }

  /** When none of them was judged at a later instant than it pruned at, they all fall in one span of 330 s. */
  lemma {:induction false} FullOnlyUnderFlood(site: Site, states: seq<Store>, events: seq<Event>, j: nat)
    requires Run(site, states, events) && j < |events| && Recalled(states[0].disk) == map[]
    requires FullAt(site, states, events, j) && NoneAhead(site, states, events, j, events[j].call.io.fullAt)
    ensures |SpanNonces(site, states, events, j, events[j].call.io.fullAt)| >= states[0].limit
    ensures NothingLiveDropped(states[j], states[j + 1], events[j].call.io)
  {
    hide Run, VerdictOf, Recalled, NothingLiveDropped, PassedAfter;
    FullNeedsEnvelopes(site, states, events, j);
    var at := events[j].call.io.fullAt;
    SpanIsPassing(site, states, events, j, at);
  }

  lemma {:induction false} SpanIsPassing(site: Site, states: seq<Store>, events: seq<Event>, j: nat, at: int)
    requires Run(site, states, events) && j <= |events| && NoneAhead(site, states, events, j, at)
    ensures SpanNonces(site, states, events, j, at) == PassingNonces(site, states, events, j, at - REPLAY_SPAN)
  {
    hide Run, Reaches;
    forall k: nat | k < j && PassedAfter(site, states, events, k, at - REPLAY_SPAN)
      ensures PassedWithin(site, states, events, k, at)
    {
      assert !PassedAfter(site, states, events, k, at);
    }
  }

  /** No 330 s hold envelopes of as many as `limit` different nonces that pass the checks before the store. */
  ghost predicate Calm(site: Site, states: seq<Store>, events: seq<Event>)
    requires Run(site, states, events)
  {
    forall at: int :: |SpanNonces(site, states, events, |events|, at)| < states[0].limit
  }

  /** The capacity is enough: without a flood, and with ordered clocks, no call is ever refused for want of room. */
  lemma {:induction false} CalmIsNeverFull(site: Site, states: seq<Store>, events: seq<Event>, j: nat)
    requires Run(site, states, events) && j < |events| && Recalled(states[0].disk) == map[]
    requires Calm(site, states, events)
    requires events[j].Verified? ==> NoneAhead(site, states, events, j, events[j].call.io.fullAt)
    ensures !FullAt(site, states, events, j)
  {
    hide Run, Recalled, NoneAhead, PassedWithin, NothingLiveDropped;
    if FullAt(site, states, events, j) {
      var at := events[j].call.io.fullAt;
      FullOnlyUnderFlood(site, states, events, j);
      SubsetIsNoLarger(SpanNonces(site, states, events, j, at), SpanNonces(site, states, events, |events|, at));
    }
  }

  lemma {:induction false} KeptAreFew(
    site: Site, states: seq<Store>, events: seq<Event>, j: nat, kept: map<Bytes, int>, fullAt: int)
    requires Run(site, states, events) && j < |events| && Recalled(states[0].disk) == map[]
    requires Within(kept, Recalled(states[j].disk)) && forall n :: n in kept ==> kept[n] > fullAt
    ensures |kept| <= |PassingNonces(site, states, events, j, fullAt - REPLAY_SPAN)|
  {
    hide Recalled, Run, PassingNonces;
    forall nonce | nonce in kept.Keys
      ensures nonce in PassingNonces(site, states, events, j, fullAt - REPLAY_SPAN)
    {
      KeptIsPresented(site, states, events, j, nonce, fullAt);
    }
    SubsetIsNoLarger(kept.Keys, PassingNonces(site, states, events, j, fullAt - REPLAY_SPAN));
  }

  lemma {:induction false} KeptIsPresented(
    site: Site, states: seq<Store>, events: seq<Event>, j: nat, nonce: Bytes, fullAt: int)
    requires Run(site, states, events) && j < |events| && Recalled(states[0].disk) == map[]
    requires nonce in Recalled(states[j].disk) && Recalled(states[j].disk)[nonce] > fullAt
    ensures nonce in PassingNonces(site, states, events, j, fullAt - REPLAY_SPAN)
  {
    hide Recalled, Sound, Whole, Step, Precheck;
    RecordsArePresented(site, states, events, j, nonce);
    var i :| 0 <= i < j && Presented(site, states, events, i, nonce, Recalled(states[j].disk)[nonce]);
    var c := events[i].call;
    ExpiryIsNear(site.w, c.e, c.keys, site.hostId, c.now);
    assert PassedAfter(site, states, events, i, fullAt - REPLAY_SPAN) && NonceOf(events, i) == nonce;
  }

  lemma {:induction false} FullStoreAt(site: Site, states: seq<Store>, events: seq<Event>, j: nat)
    requires Run(site, states, events) && j < |events| && FullAt(site, states, events, j)
    ensures |states| == |events| + 1 && events[j].Verified?
    ensures var s, t, fullAt := states[j], states[j + 1], events[j].call.io.fullAt;
            && t.disk == s.disk && |t.seen| >= states[0].limit
            && Within(t.seen, Recalled(s.disk))
            && (forall n :: n in t.seen ==> t.seen[n] > fullAt)
            && t.loaded
            && t.seen == Prune(if s.loaded then s.seen else Prune(Recalled(s.disk), events[j].call.io.loadAt), fullAt)
  {
    hide Recalled, Sound, Remember, Load, OrderFits;
    RunSound(site, states, events, j);
    assert events[j] == Verified(events[j].call);
    FullStore(site, states[j], events[j].call);
  }

  lemma {:induction false} FullStore(site: Site, s: Store, call: Call)
    requires Sound(s) && CallFits(s, call) && Whole(Verified(call)) && Reaches(site, call)
    requires VerdictOf(site, s, call) == Refused(CannotRuleOutReplay(Full))
    ensures var t := Step(site, s, Verified(call));
            && t.disk == s.disk && |t.seen| >= s.limit
            && Within(t.seen, Recalled(s.disk))
            && (forall n :: n in t.seen ==> t.seen[n] > call.io.fullAt)
            && t.loaded
            && t.seen == Prune(if s.loaded then s.seen else Prune(Recalled(s.disk), call.io.loadAt), call.io.fullAt)
  {
    hide Intact, Recalled, Storable, Load, RecordText;
    ReachingIsStorable(site, call);
    LoadSound(s, call.io);
    RememberSound(s, call.e.nonce, Expiry(call), call.io, call.order);
  }

  // ------------------------------------------------------------- torn records

  /**
   * Whole appends are needed too: over a file that ends in a torn fragment, a nonce
   * accepted and recorded without error is unknown to every process started later,
   * until the file is next rewritten. (A read that fails inside a line may misread it
   * as anything; that load is an error.)
   */
  lemma {:induction false} TornTailForgetsAccepted(site: Site, s: Store, call: Call, later: Io)
    requires CallFits(s, call) && s.loaded && !Terminated(Text(s.disk))
    requires call.e.nonce !in Recalled(s.disk)
    requires VerdictOf(site, s, call) == Accepted && s.appends + 1 < PRUNE_EVERY
    ensures !CutsLine(later) ==> call.e.nonce !in Load(Restart(Step(site, s, Verified(call))), later).0.seen
  {
    hide RawLines, Recall, Readable, Terminated;
    ExpiryIsNear(site.w, call.e, call.keys, site.hostId, call.now);
    assert Expiry(call) / NANOS == call.e.expiresAt;
    assert Step(site, s, Verified(call)).disk == Some(Text(s.disk) + RecordText(call.e.nonce, call.e.expiresAt));
    TornTailForgets(Text(s.disk), call.e.nonce, call.e.expiresAt, s.limit, later);
  }

  lemma {:induction false} TornTailForgets(file: Bytes, nonce: Bytes, millis: int, limit: nat, later: Io)
    requires nonce != [] && Breakless(nonce) && IsInt64(millis)
    requires !Terminated(file) && nonce !in Recall(RawLines(file))
    ensures !CutsLine(later) ==>
      nonce !in Load(Store(limit, Some(file + RecordText(nonce, millis)), map[], 0, false), later).0.seen
  {
    hide RawLines, Recall, Readable, RecordText, Terminated, Load;
    AppendSurvivesIffTerminated(file, nonce, millis);
    LoadsRecorded(file + RecordText(nonce, millis), limit, later);
  }

  /** The read fails after part of a line. */
  predicate CutsLine(io: Io) {
    io.load.ReadFailsAfter? && io.load.more > 0
  }

  /** A process that has just started learns of no nonce its file would not give back. */
  lemma LoadsRecorded(file: Bytes, limit: nat, io: Io)
    ensures !CutsLine(io) ==>
      Load(Store(limit, Some(file), map[], 0, false), io).0.seen.Keys <= Recalled(Some(file)).Keys
  {
    hide RawLines, Recall, Readable, Scanned;
    WholeLinesWithin(RawLines(file), io);
  }

  lemma WholeLinesWithin(lines: seq<Bytes>, io: Io)
    ensures !CutsLine(io) ==> Recall(Scanned(lines, io.load).0).Keys <= Recall(lines).Keys
  {
    hide Recall, Readable;
    var stop := Readable(lines);
    RecallPrefix(lines, stop);
    if io.load.ReadFailsAfter? && io.load.lines <= stop && io.load.lines < |lines| {
      RecallPrefix(lines, io.load.lines);
      assert lines[..io.load.lines] + [] == lines[..io.load.lines];
    }
  }
}
