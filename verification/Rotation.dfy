/** The secrets directory as the rotation code changes it, one file operation at a time. */
module Rotation {
  import opened Wrappers
  import opened RotationSpec

  class SecretsDir {
    var current: Option<nat>
    var previous: Option<nat>
    var stamp: Option<Stamp>
    var minted: nat

    ghost function State(): Files
      reads this
    {
      Files(current, previous, stamp, minted)
    }

    constructor ()
      ensures State() == Files(None, None, None, 0) && Adjacent(State())
    {
      current, previous, stamp, minted := None, None, None, 0;
    }

    method GenerateCurrent()
      modifies this`current, this`minted
      ensures State() == old(State()).(current := Some(old(minted) + 1), minted := old(minted) + 1)
    {
      minted := minted + 1;
      current := Some(minted);
    }

    /** False when the key is missing and this start may not generate one. */
    method LoadSecrets(generateIfMissing: bool) returns (ok: bool)
      modifies this`current, this`minted
      ensures ok <==> old(current).Some? || generateIfMissing
      ensures State() == if ok then Boot(old(State())) else old(State())
    {
      if current.None? {
        if !generateIfMissing {
          return false;
        }
        GenerateCurrent();
      }
      ok := true;
    }

    method RotationState(overlapMs: int) returns (end: Result<Option<int>, Refusal>)
      ensures end == OverlapEnd(State(), overlapMs)
    {
      if stamp.None? {
        return Ok(None);
      }
      if stamp.value.Unreadable? || stamp.value.millis <= 0 {
        return Err(BadStamp);
      }
      end := Ok(Some(stamp.value.millis + overlapMs));
    }

    method AcceptedInstructionKeys(now: int, overlapMs: int) returns (keys: Result<seq<nat>, Refusal>)
      ensures keys == Accepted(State(), now, overlapMs)
    {
      if current.None? {
        return Err(NoCurrentKey);
      }
      var accepted := [current.value];
      var end := RotationState(overlapMs);
      if end.Err? {
        return Err(end.error);
      }
      if previous.Some? && end.value.Some? && now < end.value.value {
        accepted := accepted + [previous.value];
        assert accepted == [current.value, previous.value];
      }
      keys := Ok(accepted);
    }

    /** Outgoing key first, then the new one, the stamp last; dies after `upTo`. */
    method RotateInstructionKey(now: int, overlapMs: int, upTo: Progress) returns (refusal: Option<Refusal>)
      modifies this
      ensures refusal == RotationRefusal(old(State()), now, overlapMs)
      ensures State() == Rotate(old(State()), now, overlapMs, upTo)
    {
      if overlapMs < MIN_OVERLAP_MS {
        return Some(OverlapTooShort);
      }
      if current.None? {
        return Some(NoCurrentKey);
      }
      if previous.Some? {
        var end := RotationState(overlapMs);
        if end.Err? {
          return Some(end.error);
        }
        if end.value.Some? && now < end.value.value {
          return Some(OverlapOpen);
        }
      }
      refusal := None;
      if upTo.Nothing? {
        return;
      }
      current, previous := None, current;
      if upTo.Renamed? {
        return;
      }
      GenerateCurrent();
      if upTo.Written? {
        return;
      }
      stamp := Some(At(now));
    }

    method PruneRetiredKey(now: int, overlapMs: int, force: bool, upTo: Progress)
      returns (removed: Result<bool, Refusal>)
      modifies this`previous, this`stamp
      ensures State() == PruneRetired(old(State()), now, overlapMs, force, upTo)
      ensures removed == if old(previous).None? then Ok(false)
                         else match PruneRefusal(old(State()), now, overlapMs, force)
                              case Some(why) => Err(why)
                              case None => Ok(true)
    {
      if previous.None? {
        return Ok(false);
      }
      var end := RotationState(overlapMs);
      if end.Err? {
        return Err(end.error);
      }
      if end.value.Some? && now < end.value.value && !force {
        return Err(OverlapOpen);
      }
      removed := Ok(true);
      if upTo.Nothing? {
        return;
      }
      previous := None;
      if upTo.Renamed? {
        return;
      }
      stamp := None;
    }
  }
}
