/** The persistent, bounded replay store: a map kept in memory and mirrored to an
    append-only file that is rewritten when pruned. */
module NonceStore {
  import opened Wrappers
  import opened Bytes
  import opened NonceFile
  import opened Listings
  import opened NonceSpec

  class Disk {
    var file: Option<Bytes>

    constructor ()
      ensures file == None
    {
      file := None;
    }
  }

  class FileNonceStore {
    const disk: Disk
    var limit: nat
    var seen: map<Bytes, int>
    var appends: nat
    var loaded: bool

    ghost function State(): Store
      reads this, disk
    {
      Store(limit, disk.file, seen, appends, loaded)
    }

    /** A fresh process: nothing in memory, the file untouched. */
    constructor (disk: Disk)
      ensures this.disk == disk
      ensures State() == Store(10_000, disk.file, map[], 0, false)
    {
      this.disk := disk;
      limit := MAX_REMEMBERED_NONCES;
      seen := map[];
      appends := 0;
      loaded := false;
    }

    /** A bound of zero or less is ignored rather than read as "unlimited". */
    method WithLimit(bound: int)
      modifies this`limit
      ensures State() == old(State()).(limit := if bound > 0 then bound else old(limit))
    {
      if bound > 0 {
        limit := bound;
      }
    }

    /** Drops every expired entry, visiting the map in no particular order. */
    method PruneSeen(now: int)
      modifies this`seen
      ensures seen == NonceSpec.Prune(old(seen), now)
    {
      var pending := seen.Keys;
      while pending != {}
        invariant pending <= seen.Keys
        invariant forall n :: n in seen ==> n in old(seen) && seen[n] == old(seen)[n]
        invariant forall n :: n in old(seen) ==> n in seen || old(seen)[n] <= now
        invariant forall n :: n in seen && n !in pending ==> seen[n] > now
        decreases |pending|
      {
        var nonce :| nonce in pending;
        pending := pending - {nonce};
        if seen[nonce] <= now {
          seen := seen - {nonce};
        }
      }
    }

    /**
     * Scans into the map until a line does not fit or the read fails; what was read of the line it fails in
     * is handed over as if it were one.
     */
    method Scan(lines: seq<Bytes>, fault: LoadFault) returns (complete: bool)
      requires !fault.OpenFails?
      modifies this`seen
      ensures complete == Scanned(lines, fault).1
      ensures seen == Merge(old(seen), Recall(Scanned(lines, fault).0))
    {
      hide Recall, Readable, Merge, Absorb, Fragment;
      NothingRecalled(seen);
      assert lines[..0] == [];
      var line := 0;
      while line < |lines|
        invariant line <= Readable(lines) && (fault.ReadFailsAfter? ==> line <= fault.lines)
        invariant seen == Merge(old(seen), Recall(lines[..line]))
      {
        if fault.ReadFailsAfter? && fault.lines == line {
          TakeFragment(lines[..line], lines[line], fault.more, old(seen));
          return false;
        }
        if |lines[line]| >= LINE_LIMIT {
          return false;
        }
        OneLineMore(old(seen), lines, line);
        TakeRecord(lines[line]);
        line := line + 1;
      }
      complete := !fault.ReadFailsAfter?;
    }

    /** One line handed over by the scanner. */
    method TakeRecord(text: Bytes)
      modifies this`seen
      ensures seen == Absorb(old(seen), text)
    {
      var parsed := ParseRecord(DropReturn(text));
      if parsed.Some? {
        seen := seen[parsed.value.0 := parsed.value.1 * NANOS];
      }
    }

    /** The line the read failed in. */
    method TakeFragment(ghost before: seq<Bytes>, line: Bytes, more: nat, ghost held: map<Bytes, int>)
      requires seen == Merge(held, Recall(before))
      modifies this`seen
      ensures seen == Merge(held, Recall(before + Fragment(line, more)))
    {
      hide Recall, Merge, Absorb;
      var part := Fragment(line, more);
      if part != [] {
        MergeAbsorb(held, Recall(before), part[0]);
        RecallSnoc(before, part[0]);
        assert part == [part[0]];
        TakeRecord(part[0]);
      } else {
        assert before + part == before;
      }
    }

    method LoadFile(io: Io) returns (ok: bool)
      modifies this`seen, this`loaded
      ensures (State(), ok) == Load(old(State()), io)
    {
      if loaded {
        return true;
      }
      if io.load.OpenFails? {
        return false;
      }
      if disk.file.None? {
        loaded := true;
        return true;
      }
      ok := Scan(RawLines(disk.file.value), io.load);
      if ok {
        PruneSeen(io.loadAt);
        loaded := true;
      }
    }

    method Append(nonce: Bytes, expiresAt: int, fault: AppendFault) returns (ok: bool)
      modifies disk
      ensures ok <==> fault.Appends?
      ensures disk.file == AppendTo(old(disk.file), RecordText(nonce, expiresAt / NANOS), fault)
    {
      match fault {
        case AppendFails(None) =>
          ok := false;
        case AppendFails(Some(n)) =>
          disk.file := Some(Text(disk.file) + Take(RecordText(nonce, expiresAt / NANOS), n));
          ok := false;
        case Appends =>
          disk.file := Some(Text(disk.file) + RecordText(nonce, expiresAt / NANOS));
          ok := true;
      }
    }

    /**
     * Write-to-temporary then rename: whichever operation fails, the file is as it was; when none does, it
     * holds the map. The writer is buffered, so a write that fails past the last record fails the flush.
     */
    method Rewrite(fault: RewriteFault) returns (ok: bool, ghost order: seq<Bytes>)
      modifies disk
      ensures ok <==> fault.Rewrites?
      ensures Lists(order, seen.Keys)
      ensures disk.file == if ok then Some(Render(seen, order)) else old(disk.file)
    {
      hide RecordText, Render;
      order := ListOf(seen.Keys);
      if fault.NoDirectory? || fault.NoTemporary? {
        return false, order;
      }
      var temporary := [];
      ghost var written: seq<Bytes> := [];
      var pending := seen.Keys;
      NothingRendered(seen);
      while pending != {}
        invariant pending <= seen.Keys && disk.file == old(disk.file)
        invariant Lists(written, seen.Keys - pending)
        invariant forall i :: 0 <= i < |written| ==> written[i] in seen.Keys - pending
        invariant temporary == Render(seen, written)
        decreases |pending|
      {
        if fault.NotWritten? && |seen.Keys - pending| == fault.after {
          return false, order;
        }
        var nonce :| nonce in pending;
        RenderSnoc(seen, written, nonce);
        pending := pending - {nonce};
        temporary := temporary + RecordText(nonce, seen[nonce] / NANOS);
        written := written + [nonce];
      }
      order := written;
      if fault.NotWritten? || fault.NotFlushed? || fault.NotRestricted? || fault.NotSynced? || fault.NotClosed? {
        return false, order;
      }
      if fault.NotRenamed? {
        return false, order;
      }
      disk.file := Some(temporary);
      ok := true;
    }

    /** The prune and rewrite that are due once enough appends have passed. */
    method SettleAppends(io: Io) returns (ghost order: seq<Bytes>)
      modifies this`seen, this`appends, disk
      ensures Lists(order, Prune(old(seen), io.pruneAt).Keys)
      ensures State() == Settle(old(State()), io, order)
    {
      order := ListOf(Prune(seen, io.pruneAt).Keys);
      if appends >= PRUNE_EVERY {
        var ok;
        PruneSeen(io.pruneAt);
        ok, order := Rewrite(io.rewrite);
        if ok {
          appends := 0;
        }
      }
    }

    /** Records in memory, appends, and rolls back if that failed. */
    method RecordNonce(nonce: Bytes, expiresAt: int, io: Io) returns (ok: bool, ghost order: seq<Bytes>)
      requires nonce !in seen
      modifies this`seen, this`appends, disk
      ensures ok == io.append.Appends?
      ensures Lists(order, Prune(old(seen)[nonce := expiresAt], io.pruneAt).Keys)
      ensures State() == if ok then Settle(Record(old(State()), nonce, expiresAt), io, order)
                         else old(State()).(
                           disk := AppendTo(old(disk.file), RecordText(nonce, expiresAt / NANOS), io.append))
    {
      order := ListOf(Prune(seen[nonce := expiresAt], io.pruneAt).Keys);
      seen := seen[nonce := expiresAt];
      ok := Append(nonce, expiresAt, io.append);
      if !ok {
        seen := seen - {nonce};
        assert seen == old(seen);
        return;
      }
      appends := appends + 1;
      assert State() == Record(old(State()), nonce, expiresAt);
      order := SettleAppends(io);
    }

    /** How many nonces are remembered, or None when the file cannot be read; the first probe may load it. */
    method Size(io: Io) returns (size: Option<nat>)
      modifies this`seen, this`loaded
      ensures State() == Load(old(State()), io).0
      ensures size == if Load(old(State()), io).1 then Some(|seen|) else None
    {
      var ok := LoadFile(io);
      if !ok {
        return None;
      }
      size := Some(|seen|);
    }

    /** Refuses rather than forgetting a live nonce when pruning makes no room. */
    method AdmitNonce(nonce: Bytes, expiresAt: int, io: Io) returns (answer: Answer, ghost order: seq<Bytes>)
      requires nonce !in seen
      modifies this`seen, this`appends, disk
      ensures Lists(order, Prune(MakeRoom(old(State()), io).seen[nonce := expiresAt], io.pruneAt).Keys)
      ensures Admit(old(State()), nonce, expiresAt, io, order) == Outcome(State(), answer)
    {
      if |seen| >= limit {
        PruneSeen(io.fullAt);
      }
      assert State() == MakeRoom(old(State()), io);
      if |seen| >= limit {
        order := ListOf(Prune(seen[nonce := expiresAt], io.pruneAt).Keys);
        return Full, order;
      }
      var ok;
      ok, order := RecordNonce(nonce, expiresAt, io);
      answer := if ok then Fresh else Unwritable;
    }

    /** Check and record in one call: a nonce already present is refused, expired or not. */
    method Remember(nonce: Bytes, expiresAt: int, io: Io) returns (answer: Answer, ghost order: seq<Bytes>)
      modifies this`seen, this`appends, this`loaded, disk
      ensures OrderFits(old(State()), nonce, expiresAt, io, order)
      ensures NonceSpec.Remember(old(State()), nonce, expiresAt, io, order) == Outcome(State(), answer)
    {
      order := ListOf(Prune(MakeRoom(Load(State(), io).0, io).seen[nonce := expiresAt], io.pruneAt).Keys);
      if nonce == [] || !Breakless(nonce) {
        return Malformed, order;
      }
      var ok := LoadFile(io);
      if !ok {
        return Unreadable, order;
      }
      if nonce in seen {
        return Replayed, order;
      }
      answer, order := AdmitNonce(nonce, expiresAt, io);
    }
  }

  lemma NothingRecalled(seen: map<Bytes, int>)
    ensures Merge(seen, Recall([])) == seen
  {
  }

  lemma OneLineMore(seen: map<Bytes, int>, lines: seq<Bytes>, n: nat)
    requires n < |lines|
    ensures Merge(seen, Recall(lines[..n + 1])) == Absorb(Merge(seen, Recall(lines[..n])), lines[n])
  {
    hide Absorb, Recall;
    MergeAbsorb(seen, Recall(lines[..n]), lines[n]);
    RecallSnoc(lines[..n], lines[n]);
    assert lines[..n + 1] == lines[..n] + [lines[n]];
  }

  lemma NothingRendered(seen: map<Bytes, int>)
    ensures Render(seen, []) == []
  {
  }

  lemma RenderSnoc(seen: map<Bytes, int>, order: seq<Bytes>, nonce: Bytes)
    requires nonce in seen && forall i :: 0 <= i < |order| ==> order[i] in seen
    ensures Render(seen, order + [nonce]) == Render(seen, order) + RecordText(nonce, seen[nonce] / NANOS)
  {
    hide RecordText;
    assert (order + [nonce])[..|order|] == order;
  }
}
