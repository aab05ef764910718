/** What rotating, pruning and reading the signing keys come to, read off the three files. */
module RotationOutcomes {
  import opened Wrappers
  import opened RotationSpec

  /** The stamp file holds no positive instant. */
  predicate Garbled(f: Files) {
    f.stamp.Some? && (f.stamp.value.Unreadable? || f.stamp.value.millis <= 0)
  }

  /** The stamp says the outgoing key is still to be accepted. */
  predicate Overlapping(f: Files, now: int, overlapMs: int) {
    f.stamp.Some? && f.stamp.value.At? && f.stamp.value.millis > 0 && now < f.stamp.value.millis + overlapMs
  }

  /** The newest key first, and the outgoing one for as long as the stamp gives it. */
  lemma AcceptedMeans(f: Files, now: int, overlapMs: int)
    ensures Accepted(f, now, overlapMs) ==
      if f.current.None? then Err(NoCurrentKey)
      else if Garbled(f) then Err(BadStamp)
      else if f.previous.Some? && Overlapping(f, now, overlapMs) then Ok([f.current.value, f.previous.value])
      else Ok([f.current.value])
  {
  }

  /** A rotation is refused for an overlap under five minutes, without a key to retire, and while an outgoing key is
      still accepted or nobody can tell; otherwise its steps leave the old key, then the new one, then the stamp. */
  lemma RotationMeans(f: Files, now: int, overlapMs: int, upTo: Progress)
    ensures var refusal := RotationRefusal(f, now, overlapMs);
            && (refusal == Some(OverlapTooShort) <==> overlapMs < 300_000)
            && (refusal == Some(NoCurrentKey) <==> overlapMs >= 300_000 && f.current.None?)
            && (refusal == Some(BadStamp) <==>
                  overlapMs >= 300_000 && f.current.Some? && f.previous.Some? && Garbled(f))
            && (refusal == Some(OverlapOpen) <==>
                  overlapMs >= 300_000 && f.current.Some? && f.previous.Some? && Overlapping(f, now, overlapMs))
            && (refusal == None <==> overlapMs >= 300_000 && f.current.Some?
                                     && (f.previous.Some? ==> !Garbled(f) && !Overlapping(f, now, overlapMs)))
            && Rotate(f, now, overlapMs, upTo) ==
                 if refusal.Some? then f
                 else match upTo
                      case Nothing => f
                      case Renamed => Files(None, f.current, f.stamp, f.minted)
                      case Written => Files(Some(f.minted + 1), f.current, f.stamp, f.minted + 1)
                      case Finished => Files(Some(f.minted + 1), f.current, Some(At(now)), f.minted + 1)
  {
  }

  /** An outgoing key is removed once its overlap has ended, or by force; never when nobody can tell. */
  lemma PruningMeans(f: Files, now: int, overlapMs: int, force: bool, upTo: Progress)
    ensures var refusal := PruneRefusal(f, now, overlapMs, force);
            && (refusal == Some(BadStamp) <==> Garbled(f))
            && (refusal == Some(OverlapOpen) <==> Overlapping(f, now, overlapMs) && !force)
            && (refusal == None <==> !Garbled(f) && (Overlapping(f, now, overlapMs) ==> force))
            && PruneRetired(f, now, overlapMs, force, upTo) ==
                 if f.previous.None? || refusal.Some? then f
                 else match upTo
                      case Nothing => f
                      case Renamed => Files(f.current, None, f.stamp, f.minted)
                      case _ => Files(f.current, None, None, f.minted)
  {
  }

  lemma BootMeans(f: Files)
    ensures Boot(f) == if f.current.Some? then f else Files(Some(f.minted + 1), f.previous, f.stamp, f.minted + 1)
  {
  }

  /** Nothing is rotated, pruned or started in between. */
  lemma {:induction false} BootsKeep(f: Files, events: seq<Event>)
    requires f.current.Some? && forall ev <- events :: ev.Booting?
    ensures Replay(f, events) == f
  {
    if events != [] {
      var front := events[..|events| - 1];
      assert events[|events| - 1] in events && forall ev <- front :: ev in events;
      BootsKeep(f, front);
    }
  }

  /**
   * The overlap is as long as it was asked to be, and no longer: from a rotation on, however often
   * the application starts, both keys are accepted until the overlap ends and only the new one from
   * then on; and then the next rotation is allowed, and so is removing the old key.
   */
  lemma {:induction false} OverlapOpensAndCloses(
    f: Files, rotatedAt: int, overlapMs: int, events: seq<Event>, now: int)
    requires Settled(f) && rotatedAt > 0 && RotationRefusal(f, rotatedAt, overlapMs).None?
    requires forall ev <- events :: ev.Booting?
    ensures var g := Replay(Rotate(f, rotatedAt, overlapMs, Finished), events);
            var newest, outgoing := f.minted + 1, f.current.value;
            && Accepted(g, now, overlapMs) == Ok(if now < rotatedAt + overlapMs then [newest, outgoing] else [newest])
            && (RotationRefusal(g, now, overlapMs).None? <==> now >= rotatedAt + overlapMs)
            && (PruneRefusal(g, now, overlapMs, false).None? <==> now >= rotatedAt + overlapMs)
            && (now >= rotatedAt + overlapMs ==>
                  PruneRetired(g, now, overlapMs, false, Finished) == Files(Some(newest), None, None, newest))
  {
    hide Accepted, RotationRefusal, PruneRefusal, PruneRetired, Rotate;
    RotationMeans(f, rotatedAt, overlapMs, Finished);
    var rotated := Rotate(f, rotatedAt, overlapMs, Finished);
    BootsKeep(rotated, events);
    AcceptedMeans(rotated, now, overlapMs);
    RotationMeans(rotated, now, overlapMs, Finished);
    PruningMeans(rotated, now, overlapMs, false, Finished);
  }

  /** One more event keeps a sequence orderly exactly when it is finished and unforced, with no less than the five
      minutes of overlap, and at no earlier instant than any before it. */
  lemma {:induction false} OrderlyIff(events: seq<Event>, ev: Event, since: int)
    ensures Orderly([], since)
    ensures Orderly(events + [ev], since) <==>
      && Orderly(events, since)
      && (ev.Booting?
          || (&& ev.upTo.Finished? && since <= ev.now
              && (ev.Pruning? ==> !ev.force && ev.overlapMs >= 300_000)
              && forall e <- events :: e.Booting? || e.now <= ev.now))
  {
    var all := events + [ev];
    forall i | 0 <= i < |events|
      ensures all[i] == events[i]
      ensures !events[i].Booting? ==>
        (NotAfter(events[i].now, all[i + 1..]) <==>
           NotAfter(events[i].now, events[i + 1..]) && (ev.Booting? || events[i].now <= ev.now))
    {
      assert all[i + 1..] == events[i + 1..] + [ev];
      if !events[i].Booting? {
        NotAfterIff(events[i].now, events[i + 1..], ev);
      }
    }
    assert all[|events|] == ev && all[|events| + 1..] == [];
  }

  lemma NotAfterIff(now: int, events: seq<Event>, ev: Event)
    ensures NotAfter(now, events + [ev]) <==> NotAfter(now, events) && (ev.Booting? || now <= ev.now)
  {
    var all := events + [ev];
    assert all[|events|] == ev && forall i :: 0 <= i < |events| ==> all[i] == events[i];
  }
}
