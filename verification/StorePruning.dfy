/** What one call leaves in the map, the counter and the file, nonce by nonce; and how far
    the file of a run can outgrow the map it was last rewritten from. */
module StorePruning {
  import opened Wrappers
  import opened Bytes
  import opened Listings
  import opened NonceFile
  import opened NonceSpec
  import opened VerifySpec
  import opened StoreSoundness
  import opened ReplayRuns

  // ---------------------------------------------------------------- one call

  /** Remembered by the loaded store, and not dropped to make room. */
  predicate Kept(l: Store, io: Io, n: Bytes) {
    n in l.seen && (|l.seen| < l.limit || l.seen[n] > io.fullAt)
  }

  /** The map holds exactly the nonces kept, with their expiries. */
  ghost predicate HoldsKept(l: Store, io: Io, seen: map<Bytes, int>) {
    && (forall n :: n in seen <==> Kept(l, io, n))
    && (forall n :: n in seen ==> seen[n] == l.seen[n])
  }

  /** The map holds exactly the nonces kept and the new one. */
  ghost predicate HoldsNew(l: Store, io: Io, nonce: Bytes, expiry: int, seen: map<Bytes, int>) {
    && (forall n :: n in seen <==> n == nonce || Kept(l, io, n))
    && (forall n :: n in seen ==> seen[n] == if n == nonce then expiry else l.seen[n])
  }

  /** Of the nonces kept and the new one, exactly those that outlive the prune. */
  ghost predicate HoldsLive(l: Store, io: Io, nonce: Bytes, expiry: int, seen: map<Bytes, int>) {
    && (forall n :: n in seen <==>
          if n == nonce then expiry > io.pruneAt else Kept(l, io, n) && l.seen[n] > io.pruneAt)
    && (forall n :: n in seen ==> seen[n] == if n == nonce then expiry else l.seen[n])
  }

  /** The longest stretch of a line that was read: so many bytes, the whole of it, or what the buffer holds. */
  predicate Fits(line: Bytes, more: nat, p: nat) {
    p <= more && p <= |line| && p < 4096 && (p == more || p == |line| || p == 4095)
  }

  /**
   * What a process learns from the file, once: every record when it is read to the end, less
   * those expired by then; the records before a line of 4096 bytes or more, which stops the scan;
   * and, when the read fails, the records before that and what was read of the line it failed in,
   * taken for a record. Only the first makes the store a loaded one.
   */
  lemma {:induction false} LoadMeans(s: Store, io: Io, k: nat, p: nat)
    requires !s.loaded && s.disk.Some? && k <= |RawLines(s.disk.value)|
    requires forall i :: 0 <= i < k ==> |RawLines(s.disk.value)[i]| < 4096
    requires k < |RawLines(s.disk.value)| ==> |RawLines(s.disk.value)[k]| >= 4096
    requires io.load.ReadFailsAfter? && io.load.lines < |RawLines(s.disk.value)| ==>
               Fits(RawLines(s.disk.value)[io.load.lines], io.load.more, p)
    ensures var lines := RawLines(s.disk.value);
            var (l, ok) := Load(s, io);
            && l == s.(seen := l.seen, loaded := l.loaded) && l.loaded == ok
            && match io.load
               case OpenFails => !ok && l.seen == s.seen
               case NoFault =>
                 var all := s.seen + Recall(lines[..k]);
                 && (ok <==> k == |lines|)
                 && if ok then (forall n :: n in l.seen <==> n in all && all[n] > io.loadAt)
                               && (forall n :: n in l.seen ==> l.seen[n] == all[n])
                    else l.seen == all
               case ReadFailsAfter(n, _) =>
                 && !ok
                 && l.seen == s.seen + Recall(if k < n || n == |lines| then lines[..k]
                                              else if p == 0 then lines[..n] else lines[..n] + [lines[n][..p]])
  {
    hide RawLines, Recall;
    var lines := RawLines(s.disk.value);
    ReadableIs(lines, k);
    assert lines[..|lines|] == lines;
    if io.load.ReadFailsAfter? && io.load.lines <= k && io.load.lines < |lines| && p == 0 {
      assert lines[..io.load.lines] + [] == lines[..io.load.lines];
    }
  }

  lemma {:induction false} ReadableIs(lines: seq<Bytes>, k: nat)
    requires k <= |lines| && (forall i :: 0 <= i < k ==> |lines[i]| < 4096)
    requires k < |lines| ==> |lines[k]| >= 4096
    ensures Readable(lines) == k
  {
  }

  /** At the bound, and still at it once the nonces that have expired are not counted. */
  ghost predicate NoRoom(l: Store, io: Io) {
    |l.seen| >= l.limit && |set n | n in l.seen && l.seen[n] > io.fullAt| >= l.limit
  }

  /** Which answer a call gives, from what it loads. */
  lemma {:induction false} AnswerMeans(s: Store, nonce: Bytes, expiry: int, io: Io, order: seq<Bytes>)
    requires OrderFits(s, nonce, expiry, io, order)
    ensures var (l, ok) := Load(s, io);
            var answer := Remember(s, nonce, expiry, io, order).answer;
            if nonce == [] || (exists c :: c in nonce && c in {32, 9, 10, 13}) then answer == Malformed
            else if !ok then answer == Unreadable
            else if nonce in l.seen then answer == Replayed
            else if NoRoom(l, io) then answer == Full
            else if io.append.AppendFails? then answer == Unwritable
            else answer == Fresh
  {
    hide Load, Render, RecordText;
    if c :| c in nonce && c in {32, 9, 10, 13} {
      var i :| 0 <= i < |nonce| && nonce[i] == c;
      assert IsBreak(nonce[i]);
    } else {
      forall i | 0 <= i < |nonce|
        ensures !IsBreak(nonce[i])
      {
        assert nonce[i] in nonce;
      }
    }
    var l := Load(s, io).0;
    assert Prune(l.seen, io.fullAt).Keys == set n | n in l.seen && l.seen[n] > io.fullAt;
  }

  /** What a refusal leaves: the map as loaded, but for what was pruned to make room, and the file as it was, but
      for what a failed append left in it. */
  lemma {:induction false} RefusalLeaves(s: Store, nonce: Bytes, expiry: int, io: Io, order: seq<Bytes>)
    requires Sound(s) && Storable(nonce, expiry) && OrderFits(s, nonce, expiry, io, order)
    requires WholeAppend(io.append, RecordText(nonce, expiry / NANOS))
    ensures var l := Load(s, io).0;
            var Outcome(t, answer) := Remember(s, nonce, expiry, io, order);
            && answer != Malformed
            && (answer in {Unreadable, Replayed} ==> t == l)
            && (answer in {Full, Unwritable} ==>
                  t == l.(seen := t.seen, disk := t.disk) && HoldsKept(l, io, t.seen) && t.loaded)
            && (answer != Fresh ==> t.appends == s.appends)
            && (answer !in {Fresh, Unwritable} ==> t.disk == s.disk)
            && (answer == Unwritable ==>
                  Recalled(t.disk) == if io.append.written.None? || io.append.written.value == 0
                                      then Recalled(s.disk) else Recalled(s.disk)[nonce := expiry])
  {
    hide Recalled, Intact, RecordText, RecordLine, Load, Render;
    LoadSound(s, io);
    WholeAppendRecalls(s.disk, nonce, expiry, io.append);
  }

  lemma RoomHolds(l: Store, io: Io, nonce: Bytes, expiry: int)
    ensures var admitted := MakeRoom(l, io).seen[nonce := expiry];
            HoldsNew(l, io, nonce, expiry, admitted) && HoldsLive(l, io, nonce, expiry, Prune(admitted, io.pruneAt))
    ensures var room := MakeRoom(l, io); room == l.(seen := room.seen)
  {
  }

  /**
   * A new nonce. From the 256th append on the map is pruned, and unless the rewrite fails
   * the file is left with just the map's records and the counter starts again; a rewrite
   * that fails keeps the counter, so that the next call tries again. Before the 256th
   * nothing is pruned and the file gains one record.
   */
  lemma {:induction false} NewNonceSettles(
    s: Store, nonce: Bytes, expiry: int, io: Io, order: seq<Bytes>)
    requires Sound(s) && Storable(nonce, expiry) && OrderFits(s, nonce, expiry, io, order)
    requires WholeAppend(io.append, RecordText(nonce, expiry / NANOS))
    requires Remember(s, nonce, expiry, io, order).answer == Fresh
    ensures var l := Load(s, io).0;
            var t := Remember(s, nonce, expiry, io, order).after;
            var pruned, rewritten := l.appends + 1 >= 256, l.appends + 1 >= 256 && io.rewrite.Rewrites?;
            && t.loaded && t.limit == s.limit
            && (if pruned then HoldsLive(l, io, nonce, expiry, t.seen) else HoldsNew(l, io, nonce, expiry, t.seen))
            && t.appends == (if rewritten then 0 else s.appends + 1)
            && Recalled(t.disk) == (if rewritten then t.seen else Recalled(s.disk)[nonce := expiry])
  {
    hide Recalled, Intact, RecordText, Storable, Load, Render, MakeRoom, Prune, HoldsNew, HoldsLive, AppendTo;
    hide OrderFits;
    LoadSound(s, io);
    var l := Load(s, io).0;
    var room := MakeRoom(l, io);
    RoomHolds(l, io, nonce, expiry);
    NewIsSettled(s, nonce, expiry, io, order);
    RoomIsSound(l, io);
    var recorded := Record(room, nonce, expiry);
    RecordedRecalls(room, nonce, expiry);
    if l.appends + 1 >= 256 && io.rewrite.Rewrites? {
      PrunedIsStorable(recorded, io.pruneAt);
      RewriteRecalls(Prune(recorded.seen, io.pruneAt), order);
    }
  }

  lemma RoomIsSound(l: Store, io: Io)
    requires Sound(l) && l.loaded
    ensures Sound(MakeRoom(l, io)) && MakeRoom(l, io).loaded && MakeRoom(l, io).disk == l.disk
  {
    hide Recalled, Intact, Storable;
  }

  lemma NewIsSettled(s: Store, nonce: Bytes, expiry: int, io: Io, order: seq<Bytes>)
    requires OrderFits(s, nonce, expiry, io, order) && Remember(s, nonce, expiry, io, order).answer == Fresh
    ensures var recorded := Record(MakeRoom(Load(s, io).0, io), nonce, expiry);
            && Load(s, io).1 && io.append.Appends?
            && Lists(order, Prune(recorded.seen, io.pruneAt).Keys)
            && Remember(s, nonce, expiry, io, order).after == Settle(recorded, io, order)
  {
    hide RecordText, Load, MakeRoom, Prune, Settle;
  }

  lemma RecordedRecalls(room: Store, nonce: Bytes, expiry: int)
    requires Sound(room) && room.loaded && Storable(nonce, expiry)
    ensures var recorded := Record(room, nonce, expiry);
            && Sound(recorded) && Recalled(recorded.disk) == Recalled(room.disk)[nonce := expiry]
  {
    hide Recalled, Intact, RecordText, Storable;
    AppendsWhole(RecordText(nonce, expiry / NANOS));
    WholeAppendRecalls(room.disk, nonce, expiry, Appends);
    var recorded := Record(room, nonce, expiry);
    assert recorded.disk == AppendTo(room.disk, RecordText(nonce, expiry / NANOS), Appends);
  }

  lemma PrunedIsStorable(s: Store, at: int)
    requires Sound(s) && s.loaded
    ensures AllStorable(Prune(s.seen, at))
  {
    hide Recalled, Intact, Storable;
  }

  /** What a crash leaves of a call, by the file operations it got through: nothing before the append, then so much of
      the record, then all of it, and at the end what the call itself would have left. */
  lemma {:induction false} CrashLeaves(
    s: Store, nonce: Bytes, expiry: int, io: Io, order: seq<Bytes>, point: Interruption)
    requires OrderFits(s, nonce, expiry, io, order)
    ensures var disk := CrashDisk(s, nonce, expiry, io, order, point);
            var Outcome(after, answer) := Remember(s, nonce, expiry, io, order);
            var record := RecordText(nonce, expiry / NANOS);
            && (point.BeforeAppend? ==> disk == s.disk)
            && (answer == Fresh && point.DuringAppend? ==>
                  exists torn :: torn <= record && Text(disk) == Text(s.disk) + torn
                                 && (|torn| == point.written || (torn == record && |record| < point.written)))
            && (answer == Fresh && point.AfterAppend? ==> Text(disk) == Text(s.disk) + record)
            && (point.AfterRewrite? || (answer != Fresh && !point.BeforeAppend?) ==> disk == after.disk)
  {
    hide Remember, RecordText, OrderFits;
    var record := RecordText(nonce, expiry / NANOS);
    if point.DuringAppend? {
      assert Take(record, point.written) <= record;
    }
  }

  // ------------------------------------------------------- lines of the file

  function Lines(disk: Option<Bytes>): nat {
    |RawLines(Text(disk))|
  }

  lemma NoLines()
    ensures RawLines([]) == []
  {
  }

  lemma RecordAddsALine(file: Bytes, nonce: Bytes, expiry: int)
    requires Terminated(file) && Storable(nonce, expiry)
    ensures Lines(Some(file + RecordText(nonce, expiry / NANOS))) == Lines(Some(file)) + 1
  {
    hide RawLines, RecordText, RecordLine, Recall;
    AppendRecalls(file, nonce, expiry / NANOS);
  }

  lemma {:induction false} RenderedLines(seen: map<Bytes, int>, order: seq<Bytes>)
    requires forall i :: 0 <= i < |order| ==> order[i] in seen
    requires AllStorable(seen)
    ensures Lines(Some(Render(seen, order))) == |order|
  {
    hide RawLines, RecordText, Storable;
    if order == [] {
      NoLines();
    } else {
      var front, last := order[..|order| - 1], order[|order| - 1];
      RenderedLines(seen, front);
      RenderRecalls(seen, front);
      RecordAddsALine(Render(seen, front), last, seen[last]);
    }
  }

  lemma {:induction false} RecalledIsSmall(lines: seq<Bytes>)
    ensures |Recall(lines)| <= |lines|
  {
    hide ParseRecord, DropReturn;
    if lines != [] {
      var front, last := lines[..|lines| - 1], lines[|lines| - 1];
      RecalledIsSmall(front);
      match ParseRecord(DropReturn(last)) {
        case None =>
        case Some((nonce, millis)) =>
          assert Recall(lines).Keys == Recall(front).Keys + {nonce};
      }
    }
  }

  /** A failed append that wrote something wrote a whole record, unless it tore one. */
  predicate LeavesRecord(fault: AppendFault) {
    fault.Appends? || (fault.written.Some? && fault.written.value > 0)
  }

  lemma AppendsWhole(record: Bytes)
    ensures WholeAppend(Appends, record)
  {
  }

  lemma AppendLines(disk: Option<Bytes>, nonce: Bytes, expiry: int, fault: AppendFault)
    requires Intact(disk) && Storable(nonce, expiry)
    requires WholeAppend(fault, RecordText(nonce, expiry / NANOS))
    ensures Lines(AppendTo(disk, RecordText(nonce, expiry / NANOS), fault))
         == Lines(disk) + if LeavesRecord(fault) then 1 else 0
  {
    hide RawLines, RecordText, RecordLine, Storable, Readable;
    var file, record := Text(disk), RecordText(nonce, expiry / NANOS);
    RecordAddsALine(file, nonce, expiry);
    assert file + record[..0] == file && record[..|record|] == record;
  }

  /** The lines a call adds to the file, or leaves of it. */
  lemma {:induction false} CallLines(s: Store, nonce: Bytes, expiry: int, io: Io, order: seq<Bytes>)
    requires Sound(s) && Storable(nonce, expiry) && OrderFits(s, nonce, expiry, io, order)
    requires WholeAppend(io.append, RecordText(nonce, expiry / NANOS))
    ensures var Outcome(t, answer) := Remember(s, nonce, expiry, io, order);
            && (answer == Fresh && t.appends == 0 ==> Lines(t.disk) == |t.seen| <= Lines(s.disk) + 1)
            && (answer == Fresh && t.appends > 0 ==> Lines(t.disk) == Lines(s.disk) + 1)
            && (answer == Unwritable ==>
                  Lines(t.disk) == Lines(s.disk) + if LeavesRecord(io.append) then 1 else 0)
            && (answer !in {Fresh, Unwritable} ==> t.disk == s.disk)
  {
    hide Recalled, Intact, RecordText, Storable, Load, Render, Lines;
    LoadSound(s, io);
    var l := Load(s, io).0;
    var room := MakeRoom(l, io);
    AppendLines(s.disk, nonce, expiry, io.append);
    WholeAppendRecalls(s.disk, nonce, expiry, Appends);
    var recorded := Record(room, nonce, expiry);
    assert recorded.disk == AppendTo(s.disk, RecordText(nonce, expiry / NANOS), Appends);
    if Remember(s, nonce, expiry, io, order).answer == Fresh && l.appends + 1 >= 256 && io.rewrite.Rewrites? {
      assert Sound(recorded);
      var live := Prune(recorded.seen, io.pruneAt);
      RenderedLines(live, order);
      ListingLength(order, live.Keys);
      FewerThanLines(recorded.disk, live);
    }
  }

  lemma FewerThanLines(disk: Option<Bytes>, seen: map<Bytes, int>)
    requires Within(seen, Recalled(disk))
    ensures |seen| <= Lines(disk)
  {
    RecalledIsSmall(RawLines(Text(disk)));
    hide RawLines, Recall;
    SubsetIsNoLarger(seen.Keys, Recalled(disk).Keys);
  }

  // -------------------------------------------------------------- one event

  /** The instants an event prunes at: that of a load that succeeds on a file, and once loaded that of making room at
      the bound and that of the 256th append. */
  lemma {:induction false} PrunesAtIff(site: Site, s: Store, ev: Event, at: int)
    requires Enabled(s, ev)
    ensures at in PrunesAt(site, s, ev) <==>
      && (ev.Sized? || (Calls(ev) && Reaches(site, ev.call)))
      && var io := if ev.Sized? then ev.io else ev.call.io;
         var (l, ok) := Load(s, io);
         && ok
         && (|| (at == io.loadAt && !s.loaded && s.disk.Some?)
             || (at == io.fullAt && !ev.Sized? && |l.seen| >= l.limit)
             || (at == io.pruneAt && !ev.Sized? && l.appends >= 255))
  {
    hide Load, Precheck;
  }

  /** A process that dies inside a call forgets its map and its count, and leaves of the call's record what its file
      operations had written by then; a record once appended is not lost. */
  lemma {:induction false} CrashedCallLeaves(site: Site, s: Store, call: Call, point: Interruption)
    requires Sound(s) && Enabled(s, Interrupted(call, point)) && Whole(Interrupted(call, point))
    ensures var t := Step(site, s, Interrupted(call, point));
            && t == Store(s.limit, t.disk, map[], 0, false)
            && (!Reaches(site, call) || point.BeforeAppend? ==> t.disk == s.disk)
            && (FindsNew(site, s, call) && (point.AfterAppend? || (point.DuringAppend? && point.written > 0)) ==>
                  Recalled(t.disk) == Recalled(s.disk)[call.e.nonce := Expiry(call)])
            && (FindsNew(site, s, call) && point.DuringAppend? && point.written == 0 ==>
                  Recalled(t.disk) == Recalled(s.disk))
            && (point.AfterRewrite? ==> t.disk == Step(site, s, Verified(call)).disk)
  {
    hide Recalled, Intact, Storable, Load, Remember, Precheck, OrderFits, WholeAppend, RecordText, AppendTo;
    if Reaches(site, call) {
      var nonce, expiry := call.e.nonce, Expiry(call);
      ReachingIsStorable(site, call);
      if FindsNew(site, s, call) {
        AppendsWhole(RecordText(nonce, expiry / NANOS));
        WholeAppendRecalls(s.disk, nonce, expiry, Appends);
        AppendedWhole(s.disk, nonce, expiry);
        if point.DuringAppend? {
          WholeAppendRecalls(s.disk, nonce, expiry, AppendFails(Some(point.written)));
          AppendedInPart(s.disk, nonce, expiry, point.written);
        }
      }
    }
  }

  lemma AppendedWhole(disk: Option<Bytes>, nonce: Bytes, expiry: int)
    ensures AppendTo(disk, RecordText(nonce, expiry / NANOS), Appends)
         == Some(Text(disk) + RecordText(nonce, expiry / NANOS))
  {
  }

  lemma AppendedInPart(disk: Option<Bytes>, nonce: Bytes, expiry: int, n: nat)
    ensures AppendTo(disk, RecordText(nonce, expiry / NANOS), AppendFails(Some(n)))
         == Some(Text(disk) + Take(RecordText(nonce, expiry / NANOS), n))
  {
  }

  // -------------------------------------------------------------------- runs

  /** The map last rewritten into the file, or the file the run began with; and since then the processes ended
      before their next rewrite, and the appends that failed. */
  datatype Ledger = Ledger(base: nat, restarts: nat, failed: nat)

  /** Event `k` pruned the map and rewrote the file: its nonce was new, and the counter starts again. */
  ghost predicate RewroteAt(site: Site, states: seq<Store>, events: seq<Event>, k: nat)
    requires Run(site, states, events) && k < |events|
  {
    NewAt(site, states, events, k) && states[k + 1].appends == 0
  }

  /** Event `k` was refused because the append failed. */
  ghost predicate UnwrittenAt(site: Site, states: seq<Store>, events: seq<Event>, k: nat)
    requires Run(site, states, events) && k < |events|
  {
    events[k].Verified? && VerdictOf(site, states[k], events[k].call) == Refused(CannotRuleOutReplay(Unwritable))
  }

  ghost function LedgerAt(site: Site, states: seq<Store>, events: seq<Event>, n: nat): Ledger
    requires Run(site, states, events) && n <= |events|
  {
    if n == 0 then Ledger(Lines(states[0].disk), 0, 0)
    else
      var so := LedgerAt(site, states, events, n - 1);
      if RewroteAt(site, states, events, n - 1) then Ledger(|states[n].seen|, 0, 0)
      else if UnwrittenAt(site, states, events, n - 1) then so.(failed := so.failed + 1)
      else if events[n - 1].Crash? || events[n - 1].Interrupted? then so.(restarts := so.restarts + 1)
      else so
  }

  /** No rewrite of the first `n` events would fail. */
  predicate Rewriting(events: seq<Event>, n: nat)
    requires n <= |events|
  {
    forall k :: 0 <= k < n && Calls(events[k]) ==> events[k].call.io.rewrite.Rewrites?
  }

  lemma {:induction false} VerifiedLines(site: Site, s: Store, call: Call)
    requires Sound(s) && Enabled(s, Verified(call)) && Whole(Verified(call))
    ensures var t := Step(site, s, Verified(call));
            if FindsNew(site, s, call) then
              && t.appends == (if s.appends + 1 >= 256 && call.io.rewrite.Rewrites? then 0 else s.appends + 1)
              && Lines(t.disk) == if t.appends == 0 then |t.seen| else Lines(s.disk) + 1
            else
              && t.appends == s.appends
              && if VerdictOf(site, s, call) == Refused(CannotRuleOutReplay(Unwritable))
                 then Lines(t.disk) <= Lines(s.disk) + 1 else t.disk == s.disk
  {
    hide Recalled, Intact, Storable, Load, Lines, Remember, Precheck, OrderFits, WholeAppend, RecordText;
    hide HoldsKept, HoldsNew, HoldsLive;
    VerdictMeans(site.w, s, call.e, call.keys, site.hostId, call.now, call.io, call.order);
    if Reaches(site, call) {
      ReachingIsStorable(site, call);
      LoadSound(s, call.io);
      CallLines(s, call.e.nonce, Expiry(call), call.io, call.order);
      if FindsNew(site, s, call) {
        NewNonceSettles(s, call.e.nonce, Expiry(call), call.io, call.order);
      } else {
        RefusalLeaves(s, call.e.nonce, Expiry(call), call.io, call.order);
      }
    }
  }

  lemma {:induction false} InterruptedLines(site: Site, s: Store, call: Call, point: Interruption)
    requires Sound(s) && Enabled(s, Interrupted(call, point)) && Whole(Interrupted(call, point))
    ensures var t := Step(site, s, Interrupted(call, point));
            Lines(t.disk) <= Lines(s.disk) + 1 && t.appends == 0
  {
    hide Recalled, Intact, Storable, Load, Lines, Remember, Precheck, OrderFits, WholeAppend, RecordText;
    if Reaches(site, call) {
      var nonce, expiry := call.e.nonce, Expiry(call);
      ReachingIsStorable(site, call);
      CallLines(s, nonce, expiry, call.io, call.order);
      AppendsWhole(RecordText(nonce, expiry / NANOS));
      AppendLines(s.disk, nonce, expiry, Appends);
      if point.DuringAppend? {
        AppendLines(s.disk, nonce, expiry, AppendFails(Some(point.written)));
      }
    }
  }

  /**
   * The file tracks the map: while rewrites succeed it has fewer than 256 lines more than the
   * map it was last rewritten from, but for the appends that failed and for each process that
   * ended before its 256th append, whose count was only in memory.
   */
  lemma {:induction false} FileTracksMap(site: Site, states: seq<Store>, events: seq<Event>, n: nat)
    requires Run(site, states, events) && n <= |events|
    requires states[0].appends < 256 && Rewriting(events, n)
    ensures states[n].appends < 256
    ensures var since := LedgerAt(site, states, events, n);
            && Lines(states[n].disk) <= since.base + states[n].appends + 256 * since.restarts + since.failed
            && (since.restarts == 0 && since.failed == 0 ==> Lines(states[n].disk) < since.base + 256)
  {
    hide Lines, FindsNew, VerdictOf, Step, Sound, Whole, Enabled;
    if n > 0 {
      var k := n - 1;
      FileTracksMap(site, states, events, k);
      RunSound(site, states, events, k);
      match events[k] {
        case Verified(call) => VerifiedLines(site, states[k], call);
        case Interrupted(call, point) => InterruptedLines(site, states[k], call, point);
        case Sized(io) => SizedLines(site, states[k], io);
        case Crash => CrashLines(site, states[k]);
      }
    }
  }

  lemma SizedLines(site: Site, s: Store, io: Io)
    requires Sound(s)
    ensures Step(site, s, Sized(io)).disk == s.disk && Step(site, s, Sized(io)).appends == s.appends
  {
    hide Load, Sound;
    LoadSound(s, io);
  }

  lemma CrashLines(site: Site, s: Store)
    ensures Step(site, s, Crash).disk == s.disk && Step(site, s, Crash).appends == 0
  {
  }

  /** How many nonces the first `n` events found new. */
  ghost function NewCount(site: Site, states: seq<Store>, events: seq<Event>, n: nat): nat
    requires Run(site, states, events) && n <= |events|
  {
    if n == 0 then 0
    else NewCount(site, states, events, n - 1) + if NewAt(site, states, events, n - 1) then 1 else 0
  }

  /**
   * Nothing leaves the file of processes that never get to their 256th append: every record
   * stays, however long expired, and every new nonce adds a line. The bound on the store is a
   * bound on the map; the file's is only as good as the processes are long-lived.
   */
  lemma {:induction false} ShortLivedNeverRewrite(site: Site, states: seq<Store>, events: seq<Event>, n: nat)
    requires Run(site, states, events) && n <= |events|
    requires forall k :: 0 <= k < n ==> states[k].appends + 1 < 256
    ensures Recalled(states[0].disk).Keys <= Recalled(states[n].disk).Keys
    ensures Lines(states[n].disk) >= Lines(states[0].disk) + NewCount(site, states, events, n)
  {
    hide Lines, Recalled, FindsNew, Step, Sound, Whole, Enabled;
    if n > 0 {
      var k := n - 1;
      ShortLivedNeverRewrite(site, states, events, k);
      RunSound(site, states, events, k);
      match events[k] {
        case Verified(call) => VerifiedKeeps(site, states[k], call);
        case Interrupted(call, point) => InterruptedKeeps(site, states[k], call, point);
        case Sized(io) => SizedLines(site, states[k], io);
        case Crash => CrashLines(site, states[k]);
      }
    }
  }

  lemma {:induction false} VerifiedKeeps(site: Site, s: Store, call: Call)
    requires Sound(s) && Enabled(s, Verified(call)) && Whole(Verified(call)) && s.appends + 1 < 256
    ensures var t := Step(site, s, Verified(call));
            && Recalled(s.disk).Keys <= Recalled(t.disk).Keys
            && Lines(t.disk) >= Lines(s.disk) + if FindsNew(site, s, call) then 1 else 0
  {
    hide Recalled, Intact, Storable, Load, Lines, Remember, Precheck, OrderFits, WholeAppend, RecordText;
    hide HoldsKept, HoldsNew, HoldsLive;
    if Reaches(site, call) {
      ReachingIsStorable(site, call);
      LoadSound(s, call.io);
      CallLines(s, call.e.nonce, Expiry(call), call.io, call.order);
      if FindsNew(site, s, call) {
        NewNonceSettles(s, call.e.nonce, Expiry(call), call.io, call.order);
      } else {
        RefusalLeaves(s, call.e.nonce, Expiry(call), call.io, call.order);
      }
    }
  }

  lemma {:induction false} InterruptedKeeps(site: Site, s: Store, call: Call, point: Interruption)
    requires Sound(s) && Enabled(s, Interrupted(call, point)) && Whole(Interrupted(call, point))
    requires s.appends + 1 < 256
    ensures var t := Step(site, s, Interrupted(call, point));
            Recalled(s.disk).Keys <= Recalled(t.disk).Keys && Lines(t.disk) >= Lines(s.disk)
  {
    hide Recalled, Intact, Storable, Load, Lines, Remember, Precheck, OrderFits, WholeAppend, RecordText;
    hide HoldsKept, HoldsNew, HoldsLive;
    if Reaches(site, call) {
      var nonce, expiry := call.e.nonce, Expiry(call);
      ReachingIsStorable(site, call);
      VerifiedKeeps(site, s, call);
      AppendsWhole(RecordText(nonce, expiry / NANOS));
      AppendLines(s.disk, nonce, expiry, Appends);
      WholeAppendRecalls(s.disk, nonce, expiry, Appends);
      if point.DuringAppend? {
        AppendLines(s.disk, nonce, expiry, AppendFails(Some(point.written)));
        WholeAppendRecalls(s.disk, nonce, expiry, AppendFails(Some(point.written)));
      }
    }
  }
}
