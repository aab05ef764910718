/** What each second-factor transaction answers and leaves, read off the rows; and what a run owes to the holder of a
    factor it has issued. */
module FactorOutcomes {
  import opened Wrappers
  import opened FactorSpec
  import opened FactorRuns

  // ------------------------------------------------------------- one transaction

  /** The challenge has a row for this user, unused and unexpired. */
  predicate Holds(f: Factors, challenge: Digest, user: User, now: int) {
    && challenge in f.challenges && f.challenges[challenge].user == user
    && !f.challenges[challenge].consumed && now < f.challenges[challenge].expires
  }

  /** The user's own session, or a live challenge of theirs. */
  predicate Acts(f: Factors, subject: Subject, user: User, now: int) {
    subject == Self(user) || (subject.ByChallenge? && Holds(f, subject.digest, user, now))
  }

  /** Only this challenge's row differs, and only in being used. */
  ghost predicate UsesUp(before: map<Digest, Challenge>, after: map<Digest, Challenge>, challenge: Digest) {
    && challenge in before && after.Keys == before.Keys
    && after[challenge] == Challenge(before[challenge].user, before[challenge].expires, true)
    && forall d <- before :: d != challenge ==> after[d] == before[d]
  }

  /** Every row of everybody else, as it was. */
  ghost predicate OthersUntouched(f: Factors, g: Factors, user: User) {
    && (forall u <- g.enrolments :: u != user ==> u in f.enrolments)
    && (forall u <- f.enrolments :: u != user ==> u in g.enrolments && g.enrolments[u] == f.enrolments[u])
    && (forall c: (User, Digest) :: c.0 != user ==> (c in f.codes <==> c in g.codes))
    && (forall c <- f.codes :: c.0 != user ==> g.codes[c] == f.codes[c])
  }

  /** A challenge is written for a member, under a digest not yet used, to end later than now; or nothing is. */
  lemma {:induction false} StartMeans(
    f: Factors, user: User, digest: Digest, expires: int, now: int, member: bool)
    ensures var (g, answer) := Do(f, StartChallenge(user, digest, expires, now, member));
            if member && digest !in f.challenges && now < expires then
              && answer == Started && g.enrolments == f.enrolments && g.codes == f.codes
              && g.challenges.Keys == f.challenges.Keys + {digest}
              && g.challenges[digest] == Challenge(user, expires, false)
              && forall d <- f.challenges :: g.challenges[d] == f.challenges[d]
            else g == f && answer == Failed
  {
  }

  /** A new secret, pending until it is confirmed, for whoever acts; a challenge is not enough to replace a confirmed
      one. */
  lemma {:induction false} EnrolMeans(f: Factors, subject: Subject, secret: Secret, now: int, member: bool, user: User)
    requires Acts(f, subject, user, now)
    ensures var (g, answer) := Do(f, StartEnrolment(subject, secret, now, member));
            var confirmed := user in f.enrolments && f.enrolments[user].confirmed;
            if subject.ByChallenge? && confirmed then g == f && answer == Refused(AlreadyEnrolled)
            else if !member then g == f && answer == Refused(NotAMember)
            else if !(6 <= secret.digits <= 8 && 15 <= secret.periodSeconds <= 120) then g == f && answer == Failed
            else
              && answer == Enrolling(user) && g.challenges == f.challenges && g.codes == f.codes
              && user in g.enrolments && g.enrolments[user] == Enrolment(secret, false, None)
              && OthersUntouched(f, g, user)
  {
  }

  /** The pending secret is confirmed at its step; the user's codes are the ones issued, all of them unused, and no
      others; the challenge that paid for it is used up. */
  lemma {:induction false} ConfirmMeans(
    f: Factors, subject: Subject, step: int, codes: seq<Digest>, now: int, user: User)
    requires Acts(f, subject, user, now)
    ensures var (g, answer) := Do(f, ConfirmEnrolment(subject, step, codes, now));
            if !(user in f.enrolments && !f.enrolments[user].confirmed)
            then g == f && answer == Refused(NoPendingEnrolment)
            else if step <= 0 || (exists i, j :: 0 <= i < j < |codes| && codes[i] == codes[j])
            then g == f && answer == Failed
            else
              && answer == Confirmed(user, if subject.ByChallenge? then Some(subject.digest) else None)
              && user in g.enrolments
              && g.enrolments[user] == Enrolment(f.enrolments[user].secret, true, Some(step))
              && (forall digest :: (user, digest) in g.codes <==> digest in codes)
              && (forall digest <- codes :: !g.codes[(user, digest)])
              && OthersUntouched(f, g, user)
              && if subject.ByChallenge? then UsesUp(f.challenges, g.challenges, subject.digest)
                 else g.challenges == f.challenges
  {
    IssuedAre(f.codes, user, codes);
  }

  lemma IssuedAre(codes: map<(User, Digest), bool>, user: User, issued: seq<Digest>)
    ensures var after := WithCodes(WithoutCodes(codes, user), user, issued);
            && (forall digest :: (user, digest) in after <==> digest in issued)
            && (forall digest <- issued :: !after[(user, digest)])
            && (forall c: (User, Digest) :: c.0 != user ==> (c in codes <==> c in after))
            && (forall c <- codes :: c.0 != user ==> after[c] == codes[c])
  {
    var after := WithCodes(WithoutCodes(codes, user), user, issued);
    forall c: (User, Digest)
      ensures c in after <==> if c.0 == user then c.1 in issued else c in codes
      ensures c in after ==> after[c] == if c.0 == user then false else codes[c]
    {
      WithCodesHas(WithoutCodes(codes, user), user, issued, c.0, c.1);
      assert c == (c.0, c.1);
    }
  }

  /** Nobody acts through a challenge that is not live. */
  lemma {:induction false} DeadChallengeMeans(f: Factors, digest: Digest, now: int)
    requires forall user :: !Holds(f, digest, user, now)
    ensures forall secret, member ::
      Do(f, StartEnrolment(ByChallenge(digest), secret, now, member)) == (f, Refused(NoLiveChallenge))
    ensures forall step, codes ::
      Do(f, ConfirmEnrolment(ByChallenge(digest), step, codes, now)) == (f, Refused(NoLiveChallenge))
    ensures forall factor :: Do(f, Redeem(digest, factor, now)) == (f, Refused(NoLiveChallenge))
  {
    if digest in f.challenges {
      assert !Holds(f, digest, f.challenges[digest].user, now);
    }
  }

  /** The codes of the user that have not been used. */
  function Left(f: Factors, user: User): set<(User, Digest)> {
    set c | c in f.codes && c.0 == user && !f.codes[c]
  }

  /** A factor that would be accepted: a later step than the last, or a code of the user's that has not been used. */
  predicate Good(f: Factors, user: User, factor: Presented) {
    match factor
    case Totp(step) =>
      user in f.enrolments && (f.enrolments[user].lastStep.Some? ==> step > f.enrolments[user].lastStep.value)
    case RecoveryCode(digest) => (user, digest) in f.codes && f.codes[(user, digest)] == false
  }

  /** Whether a factor is accepted, for whom, and what is left of it. */
  lemma {:induction false} RedeemMeans(f: Factors, challenge: Digest, factor: Presented, now: int, user: User)
    requires Holds(f, challenge, user, now)
    ensures var (g, answer) := Do(f, Redeem(challenge, factor, now));
            if !(user in f.enrolments && f.enrolments[user].confirmed) then g == f && answer == Refused(NotEnrolled)
            else if !Good(f, user, factor) then g == f && answer == Refused(FactorRejected)
            else if factor.Totp? && factor.step <= 0 then g == f && answer == Failed
            else
              && answer.Redeemed? && answer.user == user
              && answer.left == |Left(f, user)| - (if factor.RecoveryCode? then 1 else 0)
              && UsesUp(f.challenges, g.challenges, challenge) && OthersUntouched(f, g, user)
              && user in g.enrolments && g.codes.Keys == f.codes.Keys
              && match factor
                 case Totp(step) =>
                   g.codes == f.codes && g.enrolments[user] == Enrolment(f.enrolments[user].secret, true, Some(step))
                 case RecoveryCode(digest) =>
                   && g.enrolments == f.enrolments && g.codes[(user, digest)] == true
                   && forall c <- f.codes :: c != (user, digest) ==> g.codes[c] == f.codes[c]
  {
    var (g, answer) := Do(f, Redeem(challenge, factor, now));
    if answer.Redeemed? {
      assert answer.left == |Left(g, user)|;
      if factor.RecoveryCode? {
        assert Left(g, user) == Left(f, user) - {(user, factor.digest)};
      } else {
        assert Left(g, user) == Left(f, user);
      }
    }
  }

  /** The guarded updates find their row exactly for a good factor of somebody enrolled; a code has no such guard. */
  lemma SpendableIff(f: Factors, user: User, factor: Presented)
    requires user in f.enrolments
    ensures Spendable(f, user, factor) <==>
      Good(f, user, factor) && (factor.Totp? ==> f.enrolments[user].confirmed)
  {
  }

  /** Somebody with the permission, other than the member concerned, removes the enrolment and its codes; nobody else
      changes a row. */
  lemma {:induction false} ClearMeans(f: Factors, actor: User, subject: User, permitted: bool, member: bool)
    ensures var (g, answer) := Do(f, ClearFactor(actor, subject, permitted, member));
            if !permitted || actor == subject then g == f && answer == Failed
            else if !member then g == f && answer == Removed(0)
            else
              && answer == Removed(if subject in f.enrolments then 1 else 0)
              && g.challenges == f.challenges && OthersUntouched(f, g, subject)
              && subject !in g.enrolments && forall digest :: (subject, digest) !in g.codes
  {
  }

  // --------------------------------------------------------------------- runs

  /** A code once issued stays good until it is used, issued again, or its secret replaced. */
  lemma {:induction false} IssuedIsGood(run: seq<Transaction>, k: nat, n: nat, user: User, digest: Digest)
    requires n <= |run| && Issued(run, k, n, user, digest)
    ensures user in At(run, n).enrolments && At(run, n).enrolments[user].confirmed
    ensures Good(At(run, n), user, RecoveryCode(digest))
    decreases n
  {
    if n == k + 1 {
      ConfirmationIssues(run, k, user, digest);
    } else {
      assert Issued(run, k, n - 1, user, digest);
      IssuedIsGood(run, k, n - 1, user, digest);
      assert !Replaces(run, n - 1, user) && !Confirms(run, n - 1, user) && !SpendsCode(run, n - 1, user, digest);
      StaysGood(run, n - 1, user, digest);
    }
  }

  lemma StaysGood(run: seq<Transaction>, i: nat, user: User, digest: Digest)
    requires i < |run|
    requires user in At(run, i).enrolments && At(run, i).enrolments[user].confirmed
    requires Good(At(run, i), user, RecoveryCode(digest))
    requires !Replaces(run, i, user) && !Confirms(run, i, user) && !SpendsCode(run, i, user, digest)
    ensures user in At(run, i + 1).enrolments && At(run, i + 1).enrolments[user].confirmed
    ensures Good(At(run, i + 1), user, RecoveryCode(digest))
  {
    var f, tx := At(run, i), run[i];
    if tx.ConfirmEnrolment? && Said(run, i).Confirmed? {
      WithCodesHas(WithoutCodes(f.codes, Said(run, i).user), Said(run, i).user, tx.codes, user, digest);
    }
  }

  /**
   * Every code that was issued is accepted, with any live challenge of its owner's, if nothing has
   * happened to it since: one fewer is left, and the same code is then refused to every challenge.
   */
  lemma {:induction false} IssuedCodeIsAccepted(
    run: seq<Transaction>, k: nat, n: nat, user: User, digest: Digest, challenge: Digest, now: int)
    requires n <= |run| && Issued(run, k, n, user, digest) && Holds(At(run, n), challenge, user, now)
    ensures var f := At(run, n);
            var (g, answer) := Do(f, Redeem(challenge, RecoveryCode(digest), now));
            && answer.Redeemed? && answer.user == user && answer.left == |Left(f, user)| - 1
            && UsesUp(f.challenges, g.challenges, challenge)
            && forall other, later :: Holds(g, other, user, later) ==>
                 Do(g, Redeem(other, RecoveryCode(digest), later)) == (g, Refused(FactorRejected))
  {
    hide Do, UsesUp, OthersUntouched, Issued;
    var f := At(run, n);
    IssuedIsGood(run, k, n, user, digest);
    RedeemMeans(f, challenge, RecoveryCode(digest), now, user);
    var g := Do(f, Redeem(challenge, RecoveryCode(digest), now)).0;
    forall other, later | Holds(g, other, user, later)
      ensures Do(g, Redeem(other, RecoveryCode(digest), later)) == (g, Refused(FactorRejected))
    {
      RedeemMeans(g, other, RecoveryCode(digest), later, user);
    }
  }

  lemma SpentStays(run: seq<Transaction>, i: nat, user: User, digest: Digest)
    requires i < |run| && !Good(At(run, i), user, RecoveryCode(digest))
    requires !(Confirms(run, i, user) && digest in run[i].codes)
    ensures !Good(At(run, i + 1), user, RecoveryCode(digest))
  {
    var f, tx := At(run, i), run[i];
    if tx.ConfirmEnrolment? && Said(run, i).Confirmed? {
      WithCodesHas(WithoutCodes(f.codes, Said(run, i).user), Said(run, i).user, tx.codes, user, digest);
    }
  }

  /** However the run goes on, until the code is issued again it is refused. */
  lemma {:induction false} SpentCodeIsRefused(
    run: seq<Transaction>, i: nat, j: nat, user: User, digest: Digest, challenge: Digest, now: int)
    requires i < j <= |run| && SpendsCode(run, i, user, digest) && Holds(At(run, j), challenge, user, now)
    requires forall k :: i < k < j ==> !(Confirms(run, k, user) && digest in run[k].codes)
    ensures var f := At(run, j);
            var confirmed := user in f.enrolments && f.enrolments[user].confirmed;
            Do(f, Redeem(challenge, RecoveryCode(digest), now))
            == (f, Refused(if confirmed then FactorRejected else NotEnrolled))
  {
    hide Do, UsesUp, OthersUntouched;
    SpentIsNotGood(run, i, j, user, digest);
    RedeemMeans(At(run, j), challenge, RecoveryCode(digest), now, user);
  }

  lemma {:induction false} SpentIsNotGood(run: seq<Transaction>, i: nat, j: nat, user: User, digest: Digest)
    requires i < j <= |run| && SpendsCode(run, i, user, digest)
    requires forall k :: i < k < j ==> !(Confirms(run, k, user) && digest in run[k].codes)
    ensures !Good(At(run, j), user, RecoveryCode(digest))
    decreases j
  {
    if j > i + 1 {
      SpentIsNotGood(run, i, j - 1, user, digest);
      SpentStays(run, j - 1, user, digest);
    }
  }

  /** Since event `i` accepted this step for the user, nothing has replaced the secret and no step was accepted. */
  ghost predicate LastAccepted(run: seq<Transaction>, i: nat, n: nat, user: User, step: int)
    requires n <= |run|
  {
    && i < n && Accepted(run, i, user) == Some(step) && Undisturbed(run, user, i + 1, n)
    && forall k :: i < k < n ==> Accepted(run, k, user).None?
  }

  lemma {:induction false} LastStepIs(run: seq<Transaction>, i: nat, n: nat, user: User, step: int)
    requires n <= |run| && LastAccepted(run, i, n, user, step)
    ensures user in At(run, n).enrolments && At(run, n).enrolments[user].confirmed
    ensures At(run, n).enrolments[user].lastStep == Some(step)
    decreases n
  {
    if n > i + 1 {
      LastStepIs(run, i, n - 1, user, step);
      assert !Replaces(run, n - 1, user) && Accepted(run, n - 1, user).None?;
      StepStays(run, n - 1, user);
    }
  }

  lemma StepStays(run: seq<Transaction>, i: nat, user: User)
    requires i < |run| && Enrolled(At(run, i), user) && !Replaces(run, i, user) && Accepted(run, i, user).None?
    ensures Enrolled(At(run, i + 1), user)
    ensures At(run, i + 1).enrolments[user] == At(run, i).enrolments[user]
  {
    hide WithCodes, WithoutCodes, CodesLeft;
  }

  /** A step is accepted, with a live challenge, if and only if it is later than the last one accepted. */
  lemma {:induction false} LaterStepIsAccepted(
    run: seq<Transaction>, i: nat, n: nat, user: User, last: int, step: int, challenge: Digest, now: int)
    requires n <= |run| && LastAccepted(run, i, n, user, last) && Holds(At(run, n), challenge, user, now)
    ensures var f := At(run, n);
            var (g, answer) := Do(f, Redeem(challenge, Presented.Totp(step), now));
            && (answer.Redeemed? <==> step > last)
            && (step > last ==>
                  answer.user == user && answer.left == |Left(f, user)|
                  && UsesUp(f.challenges, g.challenges, challenge))
            && (step <= last ==> (g, answer) == (f, Refused(FactorRejected)))
  {
    hide Do, UsesUp, OthersUntouched, LastAccepted;
    LastStepIs(run, i, n, user, last);
    PositiveStep(run, i, n, user, last);
    RedeemMeans(At(run, n), challenge, Presented.Totp(step), now, user);
  }

  lemma PositiveStep(run: seq<Transaction>, i: nat, n: nat, user: User, step: int)
    requires n <= |run| && LastAccepted(run, i, n, user, step)
    ensures step > 0
  {
  }

  /** The last step in the row of anybody enrolled is one that was accepted, and the last that was. */
  lemma {:induction false} LastStepWasAccepted(run: seq<Transaction>, n: nat, user: User) returns (i: nat, step: int)
    requires n <= |run| && user in At(run, n).enrolments && At(run, n).enrolments[user].confirmed
    ensures At(run, n).enrolments[user].lastStep == Some(step) && LastAccepted(run, i, n, user, step)
    decreases n
  {
    if Accepted(run, n - 1, user).Some? {
      i := n - 1;
      step := Accepted(run, n - 1, user).value;
    } else {
      EnrolledStays(run, n - 1, user);
      i, step := LastStepWasAccepted(run, n - 1, user);
      assert Undisturbed(run, user, i + 1, n);
    }
  }

  lemma EnrolledStays(run: seq<Transaction>, i: nat, user: User)
    requires i < |run| && Enrolled(At(run, i + 1), user) && Accepted(run, i, user).None?
    ensures Enrolled(At(run, i), user) && !Replaces(run, i, user)
    ensures At(run, i).enrolments[user] == At(run, i + 1).enrolments[user]
  {
    hide WithCodes, WithoutCodes, CodesLeft;
  }
}
