/** The map is a faithful cache of the file: what one call does to the records a
    later scan would recall, and to the map that mirrors them. */
module StoreSoundness {
  import opened Wrappers
  import opened Bytes
  import opened Listings
  import opened NonceFile
  import opened NonceSpec

  /** A nonce and expiry the file can carry on one line without loss. */
  predicate Storable(nonce: Bytes, expiry: int) {
    && nonce != [] && Breakless(nonce)
    && expiry % NANOS == 0 && IsInt64(expiry / NANOS)
    && |RecordLine(nonce, expiry / NANOS)| < LINE_LIMIT
  }

  ghost predicate AllStorable(held: map<Bytes, int>) {
    forall n :: n in held ==> Storable(n, held[n])
  }

  /** `a` agrees with `b` wherever it is defined. */
  ghost predicate Within(a: map<Bytes, int>, b: map<Bytes, int>) {
    forall n :: n in a ==> n in b && a[n] == b[n]
  }

  /** The file is whole, and a loaded map holds nothing the file would not give back. */
  ghost predicate Sound(s: Store) {
    && Intact(s.disk)
    && AllStorable(Recalled(s.disk))
    && (if s.loaded then Within(s.seen, Recalled(s.disk)) else s.seen.Keys <= Recalled(s.disk).Keys)
  }

  /** A record is appended whole or not at all. */
  predicate WholeAppend(fault: AppendFault, record: Bytes) {
    match fault
    case AppendFails(Some(n)) => n == 0 || n >= |record|
    case _ => true
  }

  // ----------------------------------------------------------------- reading

  lemma {:induction false} RecallPrefix(lines: seq<Bytes>, n: nat)
    requires n <= |lines|
    ensures Recall(lines[..n]).Keys <= Recall(lines).Keys
  {
    if n < |lines| {
      var front := lines[..|lines| - 1];
      RecallPrefix(front, n);
      assert front[..n] == lines[..n];
    } else {
      assert lines[..n] == lines;
    }
  }

  /** Loading changes neither the file nor soundness, and a first load that succeeds
      leaves exactly the file's unexpired records. */
  lemma {:induction false} LoadSound(s: Store, io: Io)
    requires Sound(s)
    ensures var (l, ok) := Load(s, io);
            && Sound(l) && l.disk == s.disk && l.limit == s.limit && l.appends == s.appends
            && (ok <==> l.loaded)
            && (s.loaded ==> l == s)
            && (ok && !s.loaded ==> l.seen == Prune(Recalled(s.disk), io.loadAt))
            && (ok && !s.loaded && s.disk.None? ==> l.seen == map[])
  {
    hide RawLines, Recall, Readable, Storable;
    if !s.loaded && !io.load.OpenFails? {
      if s.disk.Some? {
        ScanWithin(s.disk, s.seen, io.load);
      } else {
        EmptyRecalls();
      }
    }
  }

  /** A scan adds only recorded nonces, and a complete one yields the records. */
  lemma ScanWithin(disk: Option<Bytes>, seen: map<Bytes, int>, fault: LoadFault)
    requires disk.Some? && seen.Keys <= Recalled(disk).Keys
    requires forall line <- RawLines(disk.value) :: Honest(line)
    ensures var (handed, complete) := Scanned(RawLines(disk.value), fault);
            var merged := Merge(seen, Recall(handed));
            && merged.Keys <= Recalled(disk).Keys
            && (complete ==> merged == Recalled(disk))
  {
    hide RawLines, Recall, Readable, Honest, Fragment;
    var lines := RawLines(disk.value);
    var (handed, complete) := Scanned(lines, fault);
    HandedWithin(lines, fault);
    if complete {
      assert lines[..|lines|] == lines;
      assert Merge(seen, Recall(lines)) == Recall(lines);
    }
  }

  /** What is handed over of an honest file names only its nonces, a line cut short included. */
  lemma HandedWithin(lines: seq<Bytes>, fault: LoadFault)
    requires forall line <- lines :: Honest(line)
    ensures Recall(Scanned(lines, fault).0).Keys <= Recall(lines).Keys
  {
    hide Recall, Readable, Honest, Fragment;
    var stop := Readable(lines);
    RecallPrefix(lines, stop);
    if fault.ReadFailsAfter? && fault.lines <= stop && fault.lines < |lines| {
      FragmentWithin(lines, fault.lines, fault.more);
    }
  }

  lemma FragmentWithin(lines: seq<Bytes>, n: nat, more: nat)
    requires n < |lines| && Honest(lines[n])
    ensures Recall(lines[..n] + Fragment(lines[n], more)).Keys <= Recall(lines).Keys
  {
    hide Recall, Honest, ParseRecord, DropReturn;
    RecallPrefix(lines, n);
    RecallPrefix(lines, n + 1);
    var part := Fragment(lines[n], more);
    assert lines[..n + 1] == lines[..n] + [lines[n]];
    RecallSnoc(lines[..n], lines[n]);
    if part == [] {
      assert lines[..n] + part == lines[..n];
    } else {
      RecallSnoc(lines[..n], part[0]);
      PartKeys(lines[n], |part[0]|);
      assert part[0] == lines[n][..|part[0]|] && part == [part[0]];
    }
  }

  lemma PartKeys(line: Bytes, p: nat)
    requires p <= |line| && Honest(line)
    ensures ParseRecord(DropReturn(line[..p])).Some? ==>
      && ParseRecord(DropReturn(line)).Some?
      && ParseRecord(DropReturn(line)).value.0 == ParseRecord(DropReturn(line[..p])).value.0
  {
    hide ParseRecord, DropReturn;
    assert line[..|line|] == line;
    assert ReadPart(line, p) == ParseRecord(DropReturn(line[..p]));
    assert ReadPart(line, |line|) == ParseRecord(DropReturn(line));
  }

  lemma EmptyRecalls()
    ensures Recalled(Some([])) == map[] && Intact(Some([]))
    ensures Recalled(None) == map[]
  {
    assert RawLines([]) == [];
  }

  // ----------------------------------------------------------------- writing

  lemma {:induction false} RecordAppended(file: Bytes, nonce: Bytes, expiry: int)
    requires Intact(Some(file)) && Storable(nonce, expiry)
    ensures Intact(Some(file + RecordText(nonce, expiry / NANOS)))
    ensures Recalled(Some(file + RecordText(nonce, expiry / NANOS))) == Recalled(Some(file))[nonce := expiry]
  {
    hide RawLines, Recall, Readable, Honest, RecordLine, RecordText;
    var millis := expiry / NANOS;
    assert millis * NANOS == expiry;
    AppendRecalls(file, nonce, millis);
    var lines, line := RawLines(file), RecordLine(nonce, millis);
    OneReadable(line);
    ReadableConcat(lines, [line]);
    RecordIsHonest(nonce, millis);
    forall l <- lines + [line]
      ensures Honest(l)
    {
      assert l in lines || l == line;
    }
  }

  lemma OneReadable(line: Bytes)
    requires |line| < LINE_LIMIT
    ensures Readable([line]) == 1
  {
  }

  /** A whole append leaves the text with the record after it, or as it was. */
  lemma WholeAppendText(disk: Option<Bytes>, record: Bytes, fault: AppendFault)
    requires WholeAppend(fault, record) && record != []
    ensures var after := AppendTo(disk, record, fault);
            Text(after) == if fault.Appends? || (fault.written.Some? && fault.written.value > 0)
                           then Text(disk) + record else Text(disk)
  {
    assert Text(disk) + record[..0] == Text(disk) && record[..|record|] == record;
  }

  lemma SameText(disk: Option<Bytes>, other: Option<Bytes>)
    requires Text(disk) == Text(other)
    ensures Intact(disk) <==> Intact(other)
    ensures Recalled(disk) == Recalled(other)
  {
    hide RawLines, Recall, Readable, Honest;
  }

  lemma RecordIsSomething(nonce: Bytes, millis: int)
    ensures RecordText(nonce, millis) != []
  {
  }

  lemma WholeAppendRecalls(disk: Option<Bytes>, nonce: Bytes, expiry: int, fault: AppendFault)
    requires Intact(disk) && Storable(nonce, expiry)
    requires WholeAppend(fault, RecordText(nonce, expiry / NANOS))
    ensures var after := AppendTo(disk, RecordText(nonce, expiry / NANOS), fault);
            && Intact(after)
            && Recalled(after) == if fault.Appends? || (fault.written.Some? && fault.written.value > 0)
                                  then Recalled(disk)[nonce := expiry] else Recalled(disk)
  {
    hide Recalled, Intact, RecordText, Storable, AppendTo, WholeAppend;
    var file, record := Text(disk), RecordText(nonce, expiry / NANOS);
    RecordIsSomething(nonce, expiry / NANOS);
    WholeAppendText(disk, record, fault);
    SameText(disk, Some(file));
    RecordAppended(file, nonce, expiry);
    if fault.Appends? || (fault.written.Some? && fault.written.value > 0) {
      SameText(AppendTo(disk, record, fault), Some(file + record));
    } else {
      SameText(AppendTo(disk, record, fault), Some(file));
    }
  }

  lemma RestrictSnoc(seen: map<Bytes, int>, front: seq<Bytes>, last: Bytes)
    requires last in seen && forall i :: 0 <= i < |front| ==> front[i] in seen
    ensures (map n | n in front :: seen[n])[last := seen[last]] == map n | n in front + [last] :: seen[n]
  {
  }

  /** A rewritten file recalls exactly the map it was written from. */
  lemma {:induction false} RenderRecalls(seen: map<Bytes, int>, order: seq<Bytes>)
    requires forall i :: 0 <= i < |order| ==> order[i] in seen
    requires AllStorable(seen)
    ensures Recalled(Some(Render(seen, order))) == map n | n in order :: seen[n]
    ensures Intact(Some(Render(seen, order)))
  {
    hide Recalled, Intact, RecordText, Storable;
    if order == [] {
      EmptyRecalls();
    } else {
      var front, last := order[..|order| - 1], order[|order| - 1];
      RenderRecalls(seen, front);
      RecordAppended(Render(seen, front), last, seen[last]);
      RestrictSnoc(seen, front, last);
      assert order == front + [last];
    }
  }

  lemma {:induction false} RewriteRecalls(seen: map<Bytes, int>, order: seq<Bytes>)
    requires Lists(order, seen.Keys) && AllStorable(seen)
    ensures Recalled(Some(Render(seen, order))) == seen
    ensures Intact(Some(Render(seen, order)))
  {
    hide Recalled, Intact, Storable;
    RenderRecalls(seen, order);
    var m := map n | n in order :: seen[n];
    assert m.Keys == seen.Keys;
    assert m == seen;
  }

  lemma {:induction false} SettleSound(s: Store, io: Io, order: seq<Bytes>)
    requires Sound(s) && s.loaded
    requires Lists(order, Prune(s.seen, io.pruneAt).Keys)
    ensures var t := Settle(s, io, order);
            && Sound(t) && t.loaded && t.limit == s.limit
            && (t.seen == s.seen || (s.appends >= PRUNE_EVERY && t.seen == Prune(s.seen, io.pruneAt)))
            && (Recalled(t.disk) == Recalled(s.disk) || Recalled(t.disk) == t.seen)
  {
    if s.appends >= PRUNE_EVERY && io.rewrite.Rewrites? {
      RewriteRecalls(Prune(s.seen, io.pruneAt), order);
    }
  }

  /** What a call that got past the nonce check may leave. */
  ghost predicate Admitted(l: Store, nonce: Bytes, expiry: int, io: Io, out: Outcome) {
    var room := MakeRoom(l, io);
    var before := Recalled(l.disk);
    var admitted := room.seen[nonce := expiry];
    match out.answer
    case Full => out.after == room
    case Unwritable =>
      && out.after == room.(disk := out.after.disk)
      && (Recalled(out.after.disk) == before || Recalled(out.after.disk) == before[nonce := expiry])
    case Fresh =>
      && out.after.loaded
      && (out.after.seen == admitted
          || (l.appends + 1 >= PRUNE_EVERY && out.after.seen == Prune(admitted, io.pruneAt)))
      && (Recalled(out.after.disk) == before[nonce := expiry] || Recalled(out.after.disk) == out.after.seen)
    case _ => false
  }

  lemma {:induction false} AdmitSound(l: Store, nonce: Bytes, expiry: int, io: Io, order: seq<Bytes>)
    requires Sound(l) && l.loaded && nonce !in l.seen && Storable(nonce, expiry)
    requires Lists(order, Prune(MakeRoom(l, io).seen[nonce := expiry], io.pruneAt).Keys)
    requires WholeAppend(io.append, RecordText(nonce, expiry / NANOS))
    ensures var out := Admit(l, nonce, expiry, io, order);
            && Sound(out.after) && out.after.limit == l.limit && Admitted(l, nonce, expiry, io, out)
  {
    hide Recalled, Intact, RecordText, Storable;
    var room := MakeRoom(l, io);
    assert Sound(room);
    WholeAppendRecalls(room.disk, nonce, expiry, io.append);
    if |room.seen| < room.limit && io.append.Appends? {
      var recorded := Record(room, nonce, expiry);
      assert recorded.disk == AppendTo(room.disk, RecordText(nonce, expiry / NANOS), Appends);
      assert Sound(recorded);
      SettleSound(recorded, io, order);
    } else if |room.seen| < room.limit {
      var failed := room.(disk := AppendTo(room.disk, RecordText(nonce, expiry / NANOS), io.append));
      assert Within(failed.seen, Recalled(failed.disk));
      assert Sound(failed);
    }
  }

  /** One call, seen through the records a scan would recall. */
  lemma {:induction false} RememberSound(s: Store, nonce: Bytes, expiry: int, io: Io, order: seq<Bytes>)
    requires Sound(s) && Storable(nonce, expiry) && OrderFits(s, nonce, expiry, io, order)
    requires WholeAppend(io.append, RecordText(nonce, expiry / NANOS))
    ensures var (l, ok) := Load(s, io);
            var out := Remember(s, nonce, expiry, io, order);
            && Sound(out.after) && out.after.limit == s.limit
            && (if ok && nonce !in l.seen
                then Admitted(l, nonce, expiry, io, out)
                else out.after == l && out.answer in {Unreadable, Replayed})
  {
    LoadSound(s, io);
    var (l, ok) := Load(s, io);
    if ok && nonce !in l.seen {
      AdmitSound(l, nonce, expiry, io, order);
    }
  }

  /** A restart leaves a sound store whatever the crash interrupted. */
  lemma {:induction false} CrashSound(
    s: Store, nonce: Bytes, expiry: int, io: Io, order: seq<Bytes>, point: Interruption)
    requires Sound(s) && Storable(nonce, expiry) && OrderFits(s, nonce, expiry, io, order)
    requires WholeAppend(io.append, RecordText(nonce, expiry / NANOS))
    requires point.DuringAppend? ==> WholeAppend(AppendFails(Some(point.written)), RecordText(nonce, expiry / NANOS))
    ensures var disk := CrashDisk(s, nonce, expiry, io, order, point);
            var out := Remember(s, nonce, expiry, io, order);
            && Sound(Restart(s.(disk := disk)))
            && (Recalled(disk) == Recalled(s.disk) || Recalled(disk) == Recalled(s.disk)[nonce := expiry]
                || Recalled(disk) == Recalled(out.after.disk))
            && (out.answer != Fresh ==>
                  Recalled(disk) == Recalled(s.disk) || Recalled(disk) == Recalled(out.after.disk))
  {
    hide Recalled, Intact, RecordText, Storable, Remember, Load, Admitted, OrderFits;
    RememberSound(s, nonce, expiry, io, order);
    WholeAppendRecalls(s.disk, nonce, expiry, Appends);
    if point.DuringAppend? {
      WholeAppendRecalls(s.disk, nonce, expiry, AppendFails(Some(point.written)));
    }
  }

  /** Restarting and loading at any later instant forgets no nonce that is still live. */
  lemma ReloadKeepsLive(s: Store, io: Io)
    requires Sound(s) && s.loaded && io.load.NoFault?
    ensures var (l, ok) := Load(Restart(s), io);
            && ok
            && forall n :: n in s.seen && s.seen[n] > io.loadAt ==> n in l.seen && l.seen[n] == s.seen[n]
  {
    assert Sound(Restart(s));
    LoadSound(Restart(s), io);
    var (l, ok) := Load(Restart(s), io);
    assert ok;
  }
}
