/**
 * Rotation of the instruction signing key: three files, changed by ordered renames,
 * writes and removals, and which keys they make acceptable at an instant. Keys are
 * numbered in the order they were generated; instants are milliseconds.
 */
module RotationSpec {
  import opened Wrappers

  const MIN_OVERLAP_MS := 300_000

  /** The stamp file's content: a positive instant, or anything else. */
  datatype Stamp = At(millis: int) | Unreadable

  /** `minted` counts the keys ever generated; key `n` is the n-th of them. */
  datatype Files = Files(current: Option<nat>, previous: Option<nat>, stamp: Option<Stamp>, minted: nat)

  datatype Refusal = OverlapTooShort | NoCurrentKey | BadStamp | OverlapOpen

  /** How far a rotation or a pruning got before the process died. */
  datatype Progress = Nothing | Renamed | Written | Finished

  // -------------------------------------------------------------------- reads

  /** When the outgoing key stops being accepted, or None when there is no stamp. */
  function OverlapEnd(f: Files, overlapMs: int): Result<Option<int>, Refusal> {
    match f.stamp
    case None => Ok(None)
    case Some(Unreadable) => Err(BadStamp)
    case Some(At(millis)) => if millis <= 0 then Err(BadStamp) else Ok(Some(millis + overlapMs))
  }

  predicate Open(end: Option<int>, now: int) {
    end.Some? && now < end.value
  }

  /** acceptedInstructionKeys: the current key, and the previous one while the overlap
      is open and its file is there. */
  function Accepted(f: Files, now: int, overlapMs: int): Result<seq<nat>, Refusal> {
    if f.current.None? then Err(NoCurrentKey)
    else
      match OverlapEnd(f, overlapMs)
      case Err(why) => Err(why)
      case Ok(end) =>
        if f.previous.Some? && Open(end, now) then Ok([f.current.value, f.previous.value])
        else Ok([f.current.value])
  }

  // ------------------------------------------------------------------- writes

  function RotationRefusal(f: Files, now: int, overlapMs: int): Option<Refusal> {
    if overlapMs < MIN_OVERLAP_MS then Some(OverlapTooShort)
    else if f.current.None? then Some(NoCurrentKey)
    else if f.previous.None? then None
    else
      match OverlapEnd(f, overlapMs)
      case Err(why) => Some(why)
      case Ok(end) => if Open(end, now) then Some(OverlapOpen) else None
  }

  /** rotateInstructionKey up to some file operation. */
  function Rotate(f: Files, now: int, overlapMs: int, upTo: Progress): Files {
    if RotationRefusal(f, now, overlapMs).Some? || upTo.Nothing? then f
    else
      var renamed := f.(previous := f.current, current := None);
      if upTo.Renamed? then renamed
      else
        var written := renamed.(current := Some(f.minted + 1), minted := f.minted + 1);
        if upTo.Written? then written else written.(stamp := Some(At(now)))
  }

  function PruneRefusal(f: Files, now: int, overlapMs: int, force: bool): Option<Refusal> {
    match OverlapEnd(f, overlapMs)
    case Err(why) => Some(why)
    case Ok(end) => if Open(end, now) && !force then Some(OverlapOpen) else None
  }

  /** pruneRetiredKey up to some file operation; `Renamed` is after the first removal. */
  function PruneRetired(f: Files, now: int, overlapMs: int, force: bool, upTo: Progress): Files {
    if f.previous.None? || PruneRefusal(f, now, overlapMs, force).Some? || upTo.Nothing? then f
    else if upTo.Renamed? then f.(previous := None)
    else f.(previous := None, stamp := None)
  }

  /** Starting the application generates a signing key when there is none. */
  function Boot(f: Files): Files {
    if f.current.Some? then f else f.(current := Some(f.minted + 1), minted := f.minted + 1)
  }

  datatype Event =
    | Rotating(now: int, overlapMs: int, upTo: Progress)
    | Pruning(now: int, overlapMs: int, force: bool, upTo: Progress)
    | Booting

  function Step(f: Files, ev: Event): Files {
    match ev
    case Rotating(now, overlapMs, upTo) => Rotate(f, now, overlapMs, upTo)
    case Pruning(now, overlapMs, force, upTo) => PruneRetired(f, now, overlapMs, force, upTo)
    case Booting => Boot(f)
  }

  function Replay(f: Files, events: seq<Event>): Files {
    if events == [] then f else Step(Replay(f, events[..|events| - 1]), events[|events| - 1])
  }

  // ------------------------------------------------------- at most two, adjacent

  /** The current file holds the newest key; the previous file the one before it. */
  predicate Adjacent(f: Files) {
    && (f.current.Some? ==> f.current.value == f.minted > 0)
    && (f.previous.Some? ==> f.previous.value > 0
                             && f.previous.value + (if f.current.Some? then 1 else 0) == f.minted)
  }

  lemma {:induction false} ReplayAdjacent(f: Files, events: seq<Event>)
    requires Adjacent(f)
    ensures Adjacent(Replay(f, events))
  {
    if events != [] {
      ReplayAdjacent(f, events[..|events| - 1]);
    }
  }

  /**
   * In every state, also after a crash between any two file operations, whatever the
   * clocks, overlaps and forced prunings were: at most two keys are accepted, the
   * newest always, and no key older than its immediate predecessor.
   */
  lemma {:induction false} NeverOlderThanPredecessor(f: Files, events: seq<Event>, now: int, overlapMs: int)
    requires Adjacent(f)
    ensures var g := Replay(f, events);
            var accepted := Accepted(g, now, overlapMs);
            && (g.current.None? ==> accepted == Err(NoCurrentKey))
            && (accepted.Ok? ==>
                  || accepted.value == [g.minted]
                  || accepted.value == [g.minted, g.minted - 1])
  {
    ReplayAdjacent(f, events);
  }

  /**
   * A rotation that dies before the stamp leaves the outgoing key unaccepted: with no
   * current file nothing is accepted, and with the new key written the outgoing one is
   * accepted only if some earlier stamp, left behind without its key, is still open.
   */
  lemma {:induction false} HalfRotationClosesOverlap(f: Files, now: int, overlapMs: int, upTo: Progress, later: int)
    requires Adjacent(f) && RotationRefusal(f, now, overlapMs).None? && later >= now
    requires upTo.Renamed? || upTo.Written?
    ensures var accepted := Accepted(Rotate(f, now, overlapMs, upTo), later, overlapMs);
            if upTo.Renamed? then accepted == Err(NoCurrentKey)
            else accepted.Ok? ==>
              (f.minted in accepted.value <==>
                 f.previous.None? && f.stamp.Some? && f.stamp.value.At?
                 && later < f.stamp.value.millis + overlapMs)
  {
  }

  const EMPTY := Files(None, None, None, 0)

  /** From a first start: a rotation that dies before the stamp, and at once only the new key is accepted. */
  lemma HalfRotationOrphans()
    ensures Accepted(Replay(EMPTY, [Booting]), 1, MIN_OVERLAP_MS) == Ok([1])
    ensures Accepted(Replay(EMPTY, [Booting, Rotating(1, MIN_OVERLAP_MS, Written)]), 1, MIN_OVERLAP_MS) == Ok([2])
  {
    ReplaySnoc(EMPTY, [], Booting);
    ReplaySnoc(EMPTY, [Booting], Rotating(1, MIN_OVERLAP_MS, Written));
  }

  /**
   * And one that opens an overlap it never stamped: a forced pruning dies between its two removals, and the
   * stamp it leaves behind admits the outgoing key of the next half rotation.
   */
  lemma StaleStampReadmits()
    ensures var files := Replay(EMPTY, [
              Booting, Rotating(1, MIN_OVERLAP_MS, Finished), Pruning(2, MIN_OVERLAP_MS, true, Renamed),
              Rotating(3, MIN_OVERLAP_MS, Written)]);
            files.stamp == Some(At(1)) && Accepted(files, 3, MIN_OVERLAP_MS) == Ok([3, 2])
  {
    var first, second := Rotating(1, MIN_OVERLAP_MS, Finished), Pruning(2, MIN_OVERLAP_MS, true, Renamed);
    ReplaySnoc(EMPTY, [], Booting);
    ReplaySnoc(EMPTY, [Booting], first);
    ReplaySnoc(EMPTY, [Booting, first], second);
    ReplaySnoc(EMPTY, [Booting, first, second], Rotating(3, MIN_OVERLAP_MS, Written));
    assert [] + [Booting] == [Booting] && [Booting] + [first] == [Booting, first];
    assert [Booting, first] + [second] == [Booting, first, second];
    assert [Booting, first, second] + [Rotating(3, MIN_OVERLAP_MS, Written)]
      == [Booting, first, second, Rotating(3, MIN_OVERLAP_MS, Written)];
  }

  lemma ReplaySnoc(f: Files, events: seq<Event>, ev: Event)
    ensures Replay(f, events + [ev]) == Step(Replay(f, events), ev)
  {
    assert (events + [ev])[..|events|] == events;
  }

  // ------------------------------------------------------- envelopes in flight

  /** Only finished, unforced steps, at instants that never go back, with overlaps no
      shorter than an envelope may live. */
  ghost predicate Orderly(events: seq<Event>, since: int) {
    forall i :: 0 <= i < |events| ==>
      match events[i]
      case Booting => true
      case Rotating(now, overlapMs, upTo) =>
        upTo.Finished? && since <= now && NotAfter(now, events[i + 1..])
      case Pruning(now, overlapMs, force, upTo) =>
        upTo.Finished? && !force && overlapMs >= MIN_OVERLAP_MS && since <= now && NotAfter(now, events[i + 1..])
  }

  ghost predicate NotAfter(now: int, events: seq<Event>) {
    forall i :: 0 <= i < |events| ==> events[i].Booting? || now <= events[i].now
  }

  /** No rotation or pruning has been left half done. */
  predicate Settled(f: Files) {
    && f.current.Some?
    && (f.previous.Some? <==> f.stamp.Some?)
    && (f.stamp.Some? ==> f.stamp.value.At? && f.stamp.value.millis > 0)
  }

  /** Where the key an envelope was signed with at `signedAt` has gone. */
  predicate StillServes(f: Files, key: nat, signedAt: int) {
    || f.current == Some(key)
    || (f.previous == Some(key) && f.stamp.Some? && f.stamp.value.At? && f.stamp.value.millis >= signedAt)
  }

  /** A finished step keeps the key serving, or happens after the envelope is dead. */
  lemma {:induction false} StepServes(f: Files, ev: Event, key: nat, signedAt: int)
    requires Settled(f) && StillServes(f, key, signedAt) && signedAt > 0
    requires ev.Rotating? ==> ev.upTo.Finished? && ev.now >= signedAt
    requires ev.Pruning? ==> ev.upTo.Finished? && !ev.force && ev.overlapMs >= MIN_OVERLAP_MS
    ensures Settled(Step(f, ev))
    ensures StillServes(Step(f, ev), key, signedAt) || (!ev.Booting? && ev.now >= signedAt + MIN_OVERLAP_MS)
  {
  }

  lemma {:induction false} ReplayServes(f: Files, events: seq<Event>, key: nat, signedAt: int)
    requires Settled(f) && f.current == Some(key) && signedAt > 0 && Orderly(events, signedAt)
    ensures Settled(Replay(f, events))
    ensures || StillServes(Replay(f, events), key, signedAt)
            || exists i :: 0 <= i < |events| && !events[i].Booting? && events[i].now >= signedAt + MIN_OVERLAP_MS
  {
    if events != [] {
      var front, last := events[..|events| - 1], events[|events| - 1];
      assert Orderly(front, signedAt) by {
        forall i | 0 <= i < |front| && !front[i].Booting?
          ensures NotAfter(front[i].now, front[i + 1..])
        {
          assert events[i] == front[i];
          assert front[i + 1..] == events[i + 1..][..|front| - i - 1];
        }
      }
      ReplayServes(f, front, key, signedAt);
      assert events[|events| - 1] == last;
      if StillServes(Replay(f, front), key, signedAt) {
        StepServes(Replay(f, front), last, key, signedAt);
      } else {
        var i :| 0 <= i < |front| && !front[i].Booting? && front[i].now >= signedAt + MIN_OVERLAP_MS;
        assert events[i] == front[i];
      }
    }
  }

  /**
   * Across any sequence of finished, unforced rotations and prunings, the key that
   * was current when an envelope was signed is accepted at every later instant at
   * which an envelope of at most MIN_OVERLAP_MS is still alive.
   */
  lemma {:induction false} InFlightKeyAccepted(
    f: Files, events: seq<Event>, key: nat, signedAt: int, now: int, overlapMs: int)
    requires Settled(f) && f.current == Some(key) && signedAt > 0
    requires Orderly(events, signedAt) && signedAt <= now < signedAt + MIN_OVERLAP_MS
    requires forall i :: 0 <= i < |events| ==> events[i].Booting? || events[i].now <= now
    requires overlapMs >= MIN_OVERLAP_MS
    ensures var accepted := Accepted(Replay(f, events), now, overlapMs);
            accepted.Ok? && key in accepted.value
  {
    ReplayServes(f, events, key, signedAt);
  }

  /** A reader whose overlap is shorter than an envelope's life loses live envelopes. */
  lemma {:induction false} ShortReadOverlapOrphans(f: Files, rotatedAt: int, overlapMs: int, readOverlapMs: int)
    requires Settled(f) && Adjacent(f) && rotatedAt > 0
    requires RotationRefusal(f, rotatedAt, overlapMs).None?
    requires 0 <= readOverlapMs < MIN_OVERLAP_MS
    ensures var g := Rotate(f, rotatedAt, overlapMs, Finished);
            var now := rotatedAt + readOverlapMs;
            && rotatedAt <= now < rotatedAt + MIN_OVERLAP_MS
            && Accepted(g, now, readOverlapMs) == Ok([f.minted + 1])
  {
  }
}
