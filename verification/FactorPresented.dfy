/** What a presented code comes to: read by one transaction, judged, and redeemed by another. */
module FactorPresented {
  import opened Wrappers
  import opened FactorSpec
  import opened FactorRequests
  import FO = FactorOutcomes
  import Totp

  predicate Belongs(ev: Event, r: nat) {
    (ev.ReadConfirmed? || ev.ReadPending? || ev.Write?) && ev.r == r
  }

  lemma OthersKeepReading(env: Env, s: Requests, ev: Event, r: nat)
    requires r in s.readings && !Belongs(ev, r)
    ensures r in Next(env, s, ev).readings && Next(env, s, ev).readings[r] == s.readings[r]
  {
    hide TxOf, Do;
  }

  lemma {:induction false} ReadingStays(env: Env, run: seq<Event>, i: nat, j: nat, r: nat, reading: Reading)
    requires i <= j <= |run| && r in After(env, run, i).readings && After(env, run, i).readings[r] == reading
    requires forall k :: i <= k < j ==> !Belongs(run[k], r)
    ensures r in After(env, run, j).readings && After(env, run, j).readings[r] == reading
    decreases j
  {
    hide Next, Belongs;
    if i < j {
      ReadingStays(env, run, i, j - 1, r, reading);
      OthersKeepReading(env, After(env, run, j - 1), run[j - 1], r);
    }
  }

  /** A code that the secret answers with at some step of the window. */
  ghost predicate ComesFrom(env: Env, secret: Secret, presented: string, atMs: int, step: int) {
    && secret.periodSeconds >= 1 && step >= 0
    && var centre := Totp.StepAt(atMs, secret.periodSeconds);
       && centre - env.window <= step <= centre + env.window
       && Totp.CodeOf(env.keyed(secret)(step), secret.digits) == Totp.NormaliseCode(presented)
  }

  /** The factor stands for the earliest step the code comes from, or for a recovery code when it comes from none. */
  ghost predicate StandsFor(env: Env, secret: Secret, presented: string, atMs: int, factor: Presented) {
    match factor
    case Totp(step) =>
      ComesFrom(env, secret, presented, atMs, step)
      && forall earlier :: earlier < step ==> !ComesFrom(env, secret, presented, atMs, earlier)
    case RecoveryCode(digest) =>
      digest == env.digestOf(presented) && forall step :: !ComesFrom(env, secret, presented, atMs, step)
  }

  lemma ComesFromIsMatch(env: Env, secret: Secret, presented: string, atMs: int, step: int)
    requires secret.periodSeconds >= 1
    ensures ComesFrom(env, secret, presented, atMs, step) <==>
      Totp.Matches(env.keyed(secret), Totp.NormaliseCode(presented), secret.digits,
                   Totp.StepAt(atMs, secret.periodSeconds), env.window, step)
  {
    hide Totp.CodeOf, Totp.NormaliseCode;
  }

  lemma FactorStandsFor(env: Env, secret: Secret, presented: string, atMs: int)
    ensures StandsFor(env, secret, presented, atMs, FactorOf(env, secret, presented, atMs))
  {
    hide ComesFrom, Totp.Matches;
    if secret.periodSeconds >= 1 {
      forall step
        ensures ComesFrom(env, secret, presented, atMs, step) ==> Judge(env, secret, presented, atMs).Some?
      {
        ComesFromIsMatch(env, secret, presented, atMs, step);
        if ComesFrom(env, secret, presented, atMs, step) {
          MatchHasLeast(env, secret, presented, atMs, step);
        }
      }
      forall step
        ensures LeastMatch(env, secret, presented, atMs, step) ==>
          StandsFor(env, secret, presented, atMs, Presented.Totp(step))
      {
        ComesFromIsMatch(env, secret, presented, atMs, step);
        forall earlier
          ensures ComesFrom(env, secret, presented, atMs, earlier) ==>
            Totp.Matches(env.keyed(secret), Totp.NormaliseCode(presented), secret.digits,
                         Totp.StepAt(atMs, secret.periodSeconds), env.window, earlier)
        {
          ComesFromIsMatch(env, secret, presented, atMs, earlier);
        }
      }
    } else {
      NoPeriodNoCode(env, secret, presented, atMs);
    }
  }

  lemma NoPeriodNoCode(env: Env, secret: Secret, presented: string, atMs: int)
    requires secret.periodSeconds < 1
    ensures Judge(env, secret, presented, atMs) == None
    ensures forall step :: !ComesFrom(env, secret, presented, atMs, step)
  {
  }

  /** The rows before event `j`. */
  ghost function RowsAt(env: Env, run: seq<Event>, j: nat): Factors
    requires j <= |run|
  {
    After(env, run, j).rows
  }

  /**
   * A request that read a confirmed secret behind a live challenge, whatever else commits before it
   * writes: if the challenge is still live and its user still enrolled, the code is accepted exactly
   * when the factor it stands for under the secret that was read is a good one by then, a step later
   * than the last or a recovery code not yet used.
   */
  lemma {:induction false} PresentedIsAcceptedIff(
    env: Env, run: seq<Event>, i: nat, j: nat, r: nat, user: User, challenge: Digest, presented: string, atMs: int,
    readAt: int, codes: seq<Digest>, writtenAt: int) returns (factor: Presented)
    requires i < j < |run|
    requires run[i] == ReadConfirmed(r, challenge, presented, atMs, readAt) && run[j] == Write(r, codes, writtenAt)
    requires forall k :: i < k < j ==> !Belongs(run[k], r)
    requires FO.Holds(RowsAt(env, run, i), challenge, user, readAt)
    requires user in RowsAt(env, run, i).enrolments && RowsAt(env, run, i).enrolments[user].confirmed
    requires FO.Holds(RowsAt(env, run, j), challenge, user, writtenAt)
    requires user in RowsAt(env, run, j).enrolments && RowsAt(env, run, j).enrolments[user].confirmed
    ensures StandsFor(env, RowsAt(env, run, i).enrolments[user].secret, presented, atMs, factor)
    ensures Presents(env, run, j)
    ensures AnswerAt(env, run, j).Redeemed? <==>
      FO.Good(RowsAt(env, run, j), user, factor) && (factor.Totp? ==> factor.step > 0)
    ensures AnswerAt(env, run, j).Redeemed? ==> AnswerAt(env, run, j).user == user
    ensures RowsAt(env, run, j + 1) == Do(RowsAt(env, run, j), Redeem(challenge, factor, writtenAt)).0
  {
    hide FactorOf, Do, StandsFor, FO.UsesUp, FO.OthersUntouched;
    var secret := RowsAt(env, run, i).enrolments[user].secret;
    factor := FactorOf(env, secret, presented, atMs);
    FactorStandsFor(env, secret, presented, atMs);
    var reading := Verifying(After(env, run, i).tick, user, secret, challenge, presented, atMs);
    assert After(env, run, i + 1) == Next(env, After(env, run, i), run[i]);
    assert After(env, run, i + 1).readings[r] == reading;
    ReadingStays(env, run, i + 1, j, r, reading);
    FO.RedeemMeans(RowsAt(env, run, j), challenge, factor, writtenAt, user);
    assert Do(RowsAt(env, run, j), Redeem(challenge, factor, writtenAt)).1 == AnswerAt(env, run, j) by {
      RedeemIs(RowsAt(env, run, j), challenge, factor, writtenAt);
    }
    assert After(env, run, j + 1) == Next(env, After(env, run, j), run[j]);
  }

  lemma RedeemIs(f: Factors, challenge: Digest, factor: Presented, now: int)
    ensures Do(f, Redeem(challenge, factor, now)) == RedeemedChallenge(f, challenge, factor, now)
  {
  }

  /** An enrolment likewise: the pending secret becomes the confirmed one exactly when the code comes from some step of
      the secret that was read, the earliest of them past the epoch's, and no two recovery codes are the same. */
  lemma {:induction false} PendingIsConfirmedIff(
    env: Env, run: seq<Event>, i: nat, j: nat, r: nat, user: User, subject: Subject, presented: string, atMs: int,
    readAt: int, codes: seq<Digest>, writtenAt: int) returns (factor: Presented)
    requires i < j < |run|
    requires run[i] == ReadPending(r, subject, presented, atMs, readAt) && run[j] == Write(r, codes, writtenAt)
    requires forall k :: i < k < j ==> !Belongs(run[k], r)
    requires FO.Acts(RowsAt(env, run, i), subject, user, readAt)
    requires user in RowsAt(env, run, i).enrolments && !RowsAt(env, run, i).enrolments[user].confirmed
    requires FO.Acts(RowsAt(env, run, j), subject, user, writtenAt)
    requires user in RowsAt(env, run, j).enrolments && !RowsAt(env, run, j).enrolments[user].confirmed
    ensures StandsFor(env, RowsAt(env, run, i).enrolments[user].secret, presented, atMs, factor)
    ensures user in RowsAt(env, run, j + 1).enrolments
    ensures RowsAt(env, run, j + 1).enrolments[user].confirmed <==>
      factor.Totp? && factor.step > 0 && forall a, b :: 0 <= a < b < |codes| ==> codes[a] != codes[b]
    ensures RowsAt(env, run, j + 1).enrolments[user].secret == RowsAt(env, run, j).enrolments[user].secret
  {
    hide Judge, Do, StandsFor, FO.UsesUp, FO.OthersUntouched;
    var secret := RowsAt(env, run, i).enrolments[user].secret;
    factor := FactorOf(env, secret, presented, atMs);
    FactorStandsFor(env, secret, presented, atMs);
    var reading := Confirming(After(env, run, i).tick, user, secret, subject, presented, atMs);
    assert After(env, run, i + 1) == Next(env, After(env, run, i), run[i]);
    assert After(env, run, i + 1).readings[r] == reading;
    ReadingStays(env, run, i + 1, j, r, reading);
    assert After(env, run, j + 1) == Next(env, After(env, run, j), run[j]);
    if factor.Totp? {
      FO.ConfirmMeans(RowsAt(env, run, j), subject, factor.step, codes, writtenAt, user);
    }
  }
}
