/** The second-factor tables as their transactions change them. */
module TwoFactor {
  import opened Wrappers
  import opened FactorSpec
  import opened FactorRequests
  import FactorRuns
  import Totp

  class TwoFactorStore {
    var challenges: map<Digest, Challenge>
    var enrolments: map<User, Enrolment>
    var codes: map<(User, Digest), bool>

    ghost function State(): Factors
      reads this
    {
      Factors(challenges, enrolments, codes)
    }

    constructor ()
      ensures State() == EMPTY
    {
      challenges, enrolments, codes := map[], map[], map[];
    }

    method StartChallenge(user: User, digest: Digest, expires: int, now: int, member: bool) returns (answer: Answer)
      modifies this`challenges
      ensures (State(), answer) == StartedChallenge(old(State()), user, digest, expires, now, member)
    {
      if !member || digest in challenges || expires <= now {
        return Failed;
      }
      challenges := challenges[digest := Challenge(user, expires, false)];
      answer := Started;
    }

    method FindLiveChallenge(digest: Digest, now: int) returns (found: Option<User>)
      ensures found == Resolved(State(), ByChallenge(digest), now)
    {
      if digest !in challenges || challenges[digest].consumed || challenges[digest].expires <= now {
        return None;
      }
      found := Some(challenges[digest].user);
    }

    method ResolveSubject(subject: Subject, now: int) returns (user: Option<User>)
      ensures user == Resolved(State(), subject, now)
    {
      match subject
      case Self(acting) => user := Some(acting);
      case ByChallenge(digest) => user := FindLiveChallenge(digest, now);
    }

    method StartEnrolment(subject: Subject, secret: Secret, now: int, member: bool) returns (answer: Answer)
      modifies this`enrolments
      ensures (State(), answer) == StartedEnrolment(old(State()), subject, secret, now, member)
    {
      var user := ResolveSubject(subject, now);
      if user.None? {
        return Refused(NoLiveChallenge);
      }
      if subject.ByChallenge? && user.value in enrolments && enrolments[user.value].confirmed {
        return Refused(AlreadyEnrolled);
      }
      if !member {
        return Refused(NotAMember);
      }
      if !Storable(secret) {
        return Failed;
      }
      enrolments := enrolments[user.value := Enrolment(secret, false, None)];
      answer := Enrolling(user.value);
    }

    /** The codes go in one by one; the second of two equal ones undoes the whole transaction. */
    method ConfirmEnrolment(subject: Subject, step: int, issued: seq<Digest>, now: int) returns (answer: Answer)
      modifies this
      ensures (State(), answer) == ConfirmedEnrolment(old(State()), subject, step, issued, now)
    {
      var user := ResolveSubject(subject, now);
      if user.None? {
        return Refused(NoLiveChallenge);
      }
      if user.value !in enrolments || enrolments[user.value].confirmed {
        return Refused(NoPendingEnrolment);
      }
      if step <= 0 {
        return Failed;
      }
      var before := (enrolments, codes);
      enrolments := enrolments[user.value := enrolments[user.value].(confirmed := true, lastStep := Some(step))];
      codes := DeletedCodes(codes, user.value);
      var i := 0;
      while i < |issued|
        invariant 0 <= i <= |issued|
        invariant codes == WithCodes(WithoutCodes(old(codes), user.value), user.value, issued[..i])
        invariant Distinct(issued[..i])
        invariant challenges == old(challenges) && enrolments == old(enrolments)[user.value :=
          old(enrolments)[user.value].(confirmed := true, lastStep := Some(step))]
      {
        ghost var kept := WithoutCodes(old(codes), user.value);
        FactorRuns.WithCodesHas(kept, user.value, issued[..i], user.value, issued[i]);
        OneMore(kept, user.value, issued, i);
        if (user.value, issued[i]) in codes {
          enrolments, codes := before.0, before.1;
          assert !Distinct(issued);
          return Failed;
        }
        codes := codes[(user.value, issued[i]) := false];
        i := i + 1;
      }
      assert issued[..i] == issued;
      if subject.ByChallenge? {
        challenges := challenges[subject.digest := challenges[subject.digest].(consumed := true)];
        return Confirmed(user.value, Some(subject.digest));
      }
      answer := Confirmed(user.value, None);
    }

    /** One guarded update; true when it found its row. */
    method SpendFactor(user: User, factor: Presented) returns (spent: bool)
      requires user in enrolments && enrolments[user].confirmed
      modifies this`enrolments, this`codes
      ensures spent <==> Spendable(old(State()), user, factor)
      ensures State() == if spent then Spend(old(State()), user, factor) else old(State())
    {
      match factor
      case Totp(step) =>
        var row := enrolments[user];
        spent := row.lastStep.None? || row.lastStep.value < step;
        if spent {
          enrolments := enrolments[user := row.(lastStep := Some(step))];
        }
      case RecoveryCode(digest) =>
        spent := (user, digest) in codes && !codes[(user, digest)];
        if spent {
          codes := codes[(user, digest) := true];
        }
    }

    method RedeemChallenge(digest: Digest, factor: Presented, now: int) returns (answer: Answer)
      modifies this
      ensures (State(), answer) == RedeemedChallenge(old(State()), digest, factor, now)
    {
      var user := FindLiveChallenge(digest, now);
      if user.None? {
        return Refused(NoLiveChallenge);
      }
      if user.value !in enrolments || !enrolments[user.value].confirmed {
        return Refused(NotEnrolled);
      }
      var before := (enrolments, codes);
      var spent := SpendFactor(user.value, factor);
      if !spent {
        return Refused(FactorRejected);
      }
      if factor.Totp? && factor.step <= 0 {
        enrolments, codes := before.0, before.1;
        return Failed;
      }
      challenges := challenges[digest := challenges[digest].(consumed := true)];
      var left := set c | c in codes && c.0 == user.value && !codes[c];
      answer := Redeemed(user.value, |left|);
    }

    method ClearSecondFactor(actor: User, target: User, permitted: bool, member: bool) returns (answer: Answer)
      modifies this`enrolments, this`codes
      ensures (State(), answer) == ClearedFactor(old(State()), actor, target, permitted, member)
    {
      if actor == target || !permitted {
        return Failed;
      }
      if !member {
        return Removed(0);
      }
      answer := Removed(if target in enrolments then 1 else 0);
      enrolments := enrolments - {target};
      codes := DeletedCodes(codes, target);
    }

    /** The confirmed enrolment behind a live challenge. */
    method FindConfirmedEnrolment(digest: Digest, now: int) returns (found: Option<Enrolment>)
      ensures found == Behind(State(), digest, now)
    {
      var user := FindLiveChallenge(digest, now);
      if user.None? || user.value !in enrolments || !enrolments[user.value].confirmed {
        return None;
      }
      found := Some(enrolments[user.value]);
    }

    /** One transaction of some request. */
    method Perform(tx: Transaction) returns (answer: Answer)
      modifies this
      ensures (State(), answer) == Do(old(State()), tx)
    {
      match tx
      case StartChallenge(user, digest, expires, now, member) =>
        answer := StartChallenge(user, digest, expires, now, member);
      case StartEnrolment(subject, secret, now, member) =>
        answer := StartEnrolment(subject, secret, now, member);
      case ConfirmEnrolment(subject, step, issued, now) =>
        answer := ConfirmEnrolment(subject, step, issued, now);
      case Redeem(digest, factor, now) =>
        answer := RedeemChallenge(digest, factor, now);
      case ClearFactor(actor, target, permitted, member) =>
        answer := ClearSecondFactor(actor, target, permitted, member);
    }

    /** What other requests commit meanwhile. */
    method PerformAll(txs: seq<Transaction>)
      modifies this
      ensures State() == DoAll(old(State()), txs)
    {
      var i := 0;
      while i < |txs|
        invariant 0 <= i <= |txs| && State() == DoAll(old(State()), txs[..i])
      {
        assert txs[..i + 1][..i] == txs[..i];
        var answer := Perform(txs[i]);
        i := i + 1;
      }
      assert txs[..i] == txs;
    }

    /**
     * Presenting a second factor, in two transactions: the code is judged against the secret the first one
     * read, then other requests commit `between`, then the second one spends what the code stands for.
     * `keyed` opens a sealed secret, `digestOf` hashes a code.
     */
    method VerifySecondFactor(
      digest: Digest, presented: string, atMs: int, read: int, now: int, window: nat,
      keyed: Secret -> Totp.Mac, digestOf: string -> Digest, between: seq<Transaction>) returns (answer: Answer)
      requires StoresOnlyStorable(State())
      modifies this
      ensures Behind(old(State()), digest, read).None? ==>
        State() == old(State())
        && answer == Refused(if LiveChallenge(old(State()), digest, read) then NotEnrolled else NoLiveChallenge)
      ensures Behind(old(State()), digest, read).Some? ==>
        var secret := Behind(old(State()), digest, read).value.secret;
        var factor := FactorOf(Env(keyed, digestOf, window), secret, presented, atMs);
        (State(), answer) == RedeemedChallenge(DoAll(old(State()), between), digest, factor, now)
    {
      var enrolment := FindConfirmedEnrolment(digest, read);
      if enrolment.None? {
        var challenge := FindLiveChallenge(digest, read);
        return Refused(if challenge.None? then NoLiveChallenge else NotEnrolled);
      }
      hide RedeemedChallenge, DoAll, Totp.Matches, Totp.CodeOf;
      var secret := enrolment.value.secret;
      var step := Totp.VerifyTotp(keyed(secret), presented, secret.digits, secret.periodSeconds, atMs, window);
      JudgedAs(Env(keyed, digestOf, window), secret, presented, atMs, step.value);
      var factor := if step.value.Some? then Presented.Totp(step.value.value) else RecoveryCode(digestOf(presented));
      PerformAll(between);
      answer := RedeemChallenge(digest, factor, now);
    }
  }

  // ------------------------------------------------------------ specification

  function DeletedCodes(codes: map<(User, Digest), bool>, user: User): (kept: map<(User, Digest), bool>)
    ensures kept == WithoutCodes(codes, user)
  {
    var gone := set c | c in codes && c.0 == user;
    codes - gone
  }

  lemma OneMore(codes: map<(User, Digest), bool>, user: User, issued: seq<Digest>, i: nat)
    requires i < |issued| && Distinct(issued[..i])
    ensures WithCodes(codes, user, issued[..i + 1]) == WithCodes(codes, user, issued[..i])[(user, issued[i]) := false]
    ensures issued[i] !in issued[..i] ==> Distinct(issued[..i + 1])
    ensures issued[i] in issued[..i] ==> !Distinct(issued)
  {
    assert issued[..i + 1][..i] == issued[..i];
    if issued[i] in issued[..i] {
      var j :| 0 <= j < i && issued[j] == issued[i];
    }
  }

  /** What the transactions leave, one after the other. */
  function DoAll(f: Factors, txs: seq<Transaction>): Factors {
    if txs == [] then f else Do(DoAll(f, txs[..|txs| - 1]), txs[|txs| - 1]).0
  }

  /** The loop's answer is the judgement. */
  lemma JudgedAs(env: Env, secret: Secret, presented: string, atMs: int, matched: Option<int>)
    requires secret.periodSeconds >= 1
    requires matched.Some? ==> LeastMatch(env, secret, presented, atMs, matched.value)
    requires matched.None? ==> forall step ::
      !Totp.Matches(env.keyed(secret), Totp.NormaliseCode(presented), secret.digits,
                    Totp.StepAt(atMs, secret.periodSeconds), env.window, step)
    ensures Judge(env, secret, presented, atMs) == matched
  {
    hide Totp.CodeOf, Totp.StepAt, Totp.NormaliseCode;
    var judged := Judge(env, secret, presented, atMs);
    if matched.Some? && judged.Some? {
      assert !(judged.value < matched.value) && !(matched.value < judged.value);
    }
  }
}
