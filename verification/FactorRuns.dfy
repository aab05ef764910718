/** What holds over every run of second-factor transactions, in whatever order requests interleave them. */
module FactorRuns {
  import opened FactorSpec

  // ------------------------------------------------------ a challenge is spent once

  lemma ConsumedOnce(f: Factors, tx: Transaction, challenge: Digest)
    ensures challenge in f.challenges && f.challenges[challenge].consumed ==>
      var g := Do(f, tx).0; challenge in g.challenges && g.challenges[challenge].consumed
  {
  }

  lemma {:induction false} ConsumedStays(run: seq<Transaction>, i: nat, j: nat, challenge: Digest)
    requires i <= j <= |run|
    requires challenge in At(run, i).challenges && At(run, i).challenges[challenge].consumed
    ensures challenge in At(run, j).challenges && At(run, j).challenges[challenge].consumed
    decreases j
  {
    if i < j {
      ConsumedStays(run, i, j - 1, challenge);
      ConsumedOnce(At(run, j - 1), run[j - 1], challenge);
    }
  }

  lemma SpendingConsumes(run: seq<Transaction>, i: nat, challenge: Digest)
    requires i < |run| && Spends(run, i, challenge)
    ensures LiveChallenge(At(run, i), challenge, run[i].now)
    ensures challenge in At(run, i + 1).challenges && At(run, i + 1).challenges[challenge].consumed
  {
  }

  /** A challenge yields at most one redemption or confirmation, and that one while it was live. */
  lemma {:induction false} ChallengeSpentOnce(run: seq<Transaction>, i: nat, j: nat, challenge: Digest)
    requires i < |run| && j < |run| && Spends(run, i, challenge) && Spends(run, j, challenge)
    ensures i == j
    ensures LiveChallenge(At(run, i), challenge, run[i].now)
  {
    SpendingConsumes(run, i, challenge);
    SpendingConsumes(run, j, challenge);
    if i < j {
      ConsumedStays(run, i + 1, j, challenge);
    } else if j < i {
      ConsumedStays(run, j + 1, i, challenge);
    }
  }

  // ----------------------------------------------------- accepted steps increase

  ghost predicate AtLeast(f: Factors, user: User, step: int) {
    user in f.enrolments && f.enrolments[user].confirmed
    && f.enrolments[user].lastStep.Some? && f.enrolments[user].lastStep.value >= step
  }

  lemma AcceptedIsRecorded(run: seq<Transaction>, i: nat, user: User)
    requires i < |run| && Accepted(run, i, user).Some?
    ensures AtLeast(At(run, i + 1), user, Accepted(run, i, user).value)
  {
  }

  lemma StepKeepsAtLeast(run: seq<Transaction>, i: nat, user: User, step: int)
    requires i < |run| && AtLeast(At(run, i), user, step) && !Replaces(run, i, user)
    ensures AtLeast(At(run, i + 1), user, step)
    ensures Accepted(run, i, user).Some? ==> Accepted(run, i, user).value > step
  {
  }

  lemma {:induction false} AtLeastStays(run: seq<Transaction>, i: nat, j: nat, user: User, step: int)
    requires i <= j <= |run| && AtLeast(At(run, i), user, step) && Undisturbed(run, user, i, j)
    ensures AtLeast(At(run, j), user, step)
    decreases j
  {
    if i < j {
      AtLeastStays(run, i, j - 1, user, step);
      StepKeepsAtLeast(run, j - 1, user, step);
    }
  }

  /** While one secret stands, every step accepted after another is greater, the confirming step included. */
  lemma AcceptedStepsIncrease(run: seq<Transaction>, i: nat, j: nat, user: User)
    requires i < j < |run| && Accepted(run, i, user).Some? && Accepted(run, j, user).Some?
    requires Undisturbed(run, user, i, j)
    ensures Accepted(run, i, user).value < Accepted(run, j, user).value
  {
    AcceptedIsRecorded(run, i, user);
    AtLeastStays(run, i + 1, j, user, Accepted(run, i, user).value);
    StepKeepsAtLeast(run, j, user, Accepted(run, i, user).value);
  }

  // --------------------------------------------------- recovery codes, spent once

  predicate SpendsCode(run: seq<Transaction>, i: nat, user: User, digest: Digest)
    requires i < |run|
  {
    Redeems(run, i, user) && run[i].factor == RecoveryCode(digest)
  }

  /** Since `k` issued the code, nothing has replaced the secret, confirmed again or spent the code. */
  ghost predicate Issued(run: seq<Transaction>, k: nat, n: nat, user: User, digest: Digest)
    requires n <= |run|
  {
    && k < n && Confirms(run, k, user) && digest in run[k].codes
    && Undisturbed(run, user, k + 1, n)
    && forall i :: k < i < n ==> !Confirms(run, i, user) && !SpendsCode(run, i, user, digest)
  }

  lemma {:induction false} WithCodesHas(
    codes: map<(User, Digest), bool>, user: User, issued: seq<Digest>, other: User, digest: Digest)
    ensures (other, digest) in WithCodes(codes, user, issued)
      <==> (other, digest) in codes || (other == user && digest in issued)
    ensures other == user && digest in issued ==> !WithCodes(codes, user, issued)[(other, digest)]
    ensures (other, digest) in codes && !(other == user && digest in issued) ==>
      WithCodes(codes, user, issued)[(other, digest)] == codes[(other, digest)]
  {
    if issued != [] {
      WithCodesHas(codes, user, issued[..|issued| - 1], other, digest);
      assert issued == issued[..|issued| - 1] + [issued[|issued| - 1]];
    }
  }

  /** A confirmation leaves exactly the codes it issued. */
  lemma ConfirmationIssues(run: seq<Transaction>, k: nat, user: User, digest: Digest)
    requires k < |run| && Confirms(run, k, user)
    ensures Unspent(At(run, k + 1), user, digest) <==> digest in run[k].codes
  {
    var f := At(run, k);
    WithCodesHas(WithoutCodes(f.codes, user), user, run[k].codes, user, digest);
  }

  /** A transaction that is neither of these leaves the user's codes, or takes one away. */
  lemma OthersIssueNothing(run: seq<Transaction>, i: nat, user: User, digest: Digest)
    requires i < |run| && !Confirms(run, i, user)
    requires Unspent(At(run, i + 1), user, digest) && Enrolled(At(run, i + 1), user)
    ensures Unspent(At(run, i), user, digest) && Enrolled(At(run, i), user)
    ensures !Replaces(run, i, user) && !SpendsCode(run, i, user, digest)
  {
    var f, tx := At(run, i), run[i];
    if tx.ConfirmEnrolment? && Said(run, i).Confirmed? {
      WithCodesHas(WithoutCodes(f.codes, Said(run, i).user), Said(run, i).user, tx.codes, user, digest);
    }
  }

  /** A code that would be accepted was issued by the last confirmation, and nothing has happened to it since. */
  lemma {:induction false} UnspentWasIssued(run: seq<Transaction>, n: nat, user: User, digest: Digest) returns (k: nat)
    requires n <= |run| && Enrolled(At(run, n), user) && Unspent(At(run, n), user, digest)
    ensures Issued(run, k, n, user, digest)
    decreases n
  {
    if Confirms(run, n - 1, user) {
      k := n - 1;
      ConfirmationIssues(run, k, user, digest);
    } else {
      OthersIssueNothing(run, n - 1, user, digest);
      k := UnspentWasIssued(run, n - 1, user, digest);
    }
  }

  lemma SpentWasUnspent(run: seq<Transaction>, i: nat, user: User, digest: Digest)
    requires i < |run| && SpendsCode(run, i, user, digest)
    ensures Enrolled(At(run, i), user) && Unspent(At(run, i), user, digest)
  {
  }

  /** Between two uses of one recovery code it was issued again. */
  lemma CodeSpentOncePerIssue(run: seq<Transaction>, i: nat, j: nat, user: User, digest: Digest) returns (k: nat)
    requires i < j < |run| && SpendsCode(run, i, user, digest) && SpendsCode(run, j, user, digest)
    ensures i < k < j && Confirms(run, k, user) && digest in run[k].codes
  {
    SpentWasUnspent(run, j, user, digest);
    k := UnspentWasIssued(run, j, user, digest);
    assert i != k;
  }

  /** A code accepted after a re-enrolment started, or a factor was cleared, was issued after it. */
  lemma NoCodeOutlivesItsSecret(run: seq<Transaction>, i: nat, j: nat, user: User, digest: Digest) returns (k: nat)
    requires i < j < |run| && Replaces(run, i, user) && SpendsCode(run, j, user, digest)
    ensures i < k < j && Confirms(run, k, user) && digest in run[k].codes
  {
    SpentWasUnspent(run, j, user, digest);
    k := UnspentWasIssued(run, j, user, digest);
    assert i != k;
  }

  // ------------------------------------------ a password alone replaces no factor

  /** The user's own session asked for a new secret, or somebody else with the permission removed the old one. */
  predicate Authorised(run: seq<Transaction>, i: nat, user: User)
    requires i < |run|
  {
    || (run[i].StartEnrolment? && run[i].subject == Self(user))
    || (run[i].ClearFactor? && run[i].target == user && run[i].actor != user && run[i].permitted && run[i].member)
  }

  lemma OnlyAuthorisedReplace(run: seq<Transaction>, i: nat, user: User)
    requires i < |run| && Enrolled(At(run, i), user) && !Authorised(run, i, user)
    ensures Enrolled(At(run, i + 1), user)
    ensures At(run, i + 1).enrolments[user].secret == At(run, i).enrolments[user].secret
  {
  }

  /** However many challenges are held, a confirmed secret stays until its owner's session or an administrator acts. */
  lemma {:induction false} ConfirmedSecretStays(run: seq<Transaction>, i: nat, j: nat, user: User)
    requires i <= j <= |run| && Enrolled(At(run, i), user)
    requires forall k :: i <= k < j ==> !Authorised(run, k, user)
    ensures Enrolled(At(run, j), user)
    ensures At(run, j).enrolments[user].secret == At(run, i).enrolments[user].secret
    decreases j
  {
    if i < j {
      ConfirmedSecretStays(run, i, j - 1, user);
      OnlyAuthorisedReplace(run, j - 1, user);
    }
  }

  /** A transaction that was neither refused nor rolled back. */
  predicate Lands(run: seq<Transaction>, i: nat)
    requires i < |run|
  {
    !Said(run, i).Refused? && !Said(run, i).Failed?
  }

  /** The run without its first `n` transactions' refusals and failures. */
  function Landed(run: seq<Transaction>, n: nat): seq<Transaction>
    requires n <= |run|
  {
    if n == 0 then [] else Landed(run, n - 1) + (if Lands(run, n - 1) then [run[n - 1]] else [])
  }

  lemma AtSnoc(run: seq<Transaction>, tx: Transaction)
    ensures At(run + [tx], |run| + 1) == Do(At(run + [tx], |run|), tx).0
  {
    assert (run + [tx])[|run|] == tx;
  }

  lemma {:induction false} AtPrefix(run: seq<Transaction>, more: seq<Transaction>, n: nat)
    requires n <= |run|
    ensures At(run + more, n) == At(run, n)
  {
    hide Do;
    if n > 0 {
      AtPrefix(run, more, n - 1);
      assert (run + more)[n - 1] == run[n - 1];
    }
  }

  lemma RefusalIsIdentity(f: Factors, tx: Transaction)
    ensures Do(f, tx).1.Refused? || Do(f, tx).1.Failed? ==> Do(f, tx).0 == f
  {
  }

  /**
   * Refused and rolled-back transactions leave no trace, however many there are and wherever they stand: the
   * rows are those of the run without them. A mistyped code costs neither factor nor challenge.
   */
  lemma {:induction false} RefusalsLeaveNoTrace(run: seq<Transaction>, n: nat)
    requires n <= |run|
    ensures At(Landed(run, n), |Landed(run, n)|) == At(run, n)
  {
    hide Do;
    if n > 0 {
      RefusalsLeaveNoTrace(run, n - 1);
      RefusalIsIdentity(At(run, n - 1), run[n - 1]);
      var front := Landed(run, n - 1);
      if Lands(run, n - 1) {
        AtSnoc(front, run[n - 1]);
        AtPrefix(front, [run[n - 1]], |front|);
        assert Landed(run, n) == front + [run[n - 1]];
      } else {
        assert Landed(run, n) == front;
      }
    }
  }
}
