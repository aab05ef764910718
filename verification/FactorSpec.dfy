/** Challenges, enrolments and recovery codes, and what one transaction does to them. */
module FactorSpec {
  import opened Wrappers

  type User = nat
  type Digest = string

  datatype Challenge = Challenge(user: User, expires: int, consumed: bool)
  /** A sealed key with the parameters its codes are judged by. */
  datatype Secret = Secret(sealedKey: string, digits: nat, periodSeconds: int)
  datatype Enrolment = Enrolment(secret: Secret, confirmed: bool, lastStep: Option<int>)

  /** One tenant's rows. A code maps to whether it has been used. */
  datatype Factors = Factors(
    challenges: map<Digest, Challenge>,
    enrolments: map<User, Enrolment>,
    codes: map<(User, Digest), bool>)

  datatype Subject = Self(user: User) | ByChallenge(digest: Digest)
  datatype Presented = Totp(step: int) | RecoveryCode(digest: Digest)

  datatype Refusal =
    | NoLiveChallenge | AlreadyEnrolled | NoPendingEnrolment | NotAMember | NotEnrolled | FactorRejected

  /** `Failed` is an exception: the transaction is rolled back. */
  datatype Answer =
    | Started
    | Enrolling(user: User)
    | Confirmed(user: User, challenge: Option<Digest>)
    | Redeemed(user: User, left: nat)
    | Removed(enrolments: nat)
    | Refused(refusal: Refusal)
    | Failed

  datatype Transaction =
    | StartChallenge(user: User, digest: Digest, expires: int, now: int, member: bool)
    | StartEnrolment(subject: Subject, secret: Secret, now: int, member: bool)
    | ConfirmEnrolment(subject: Subject, step: int, codes: seq<Digest>, now: int)
    | Redeem(digest: Digest, factor: Presented, now: int)
    | ClearFactor(actor: User, target: User, permitted: bool, member: bool)

  const EMPTY := Factors(map[], map[], map[])

  /** What the table's constraints let a secret be stored with. */
  predicate Storable(secret: Secret) {
    6 <= secret.digits <= 8 && 15 <= secret.periodSeconds <= 120
  }

  predicate LiveChallenge(f: Factors, digest: Digest, now: int) {
    digest in f.challenges && !f.challenges[digest].consumed && now < f.challenges[digest].expires
  }

  predicate Enrolled(f: Factors, user: User) {
    user in f.enrolments && f.enrolments[user].confirmed
  }

  predicate Pending(f: Factors, user: User) {
    user in f.enrolments && !f.enrolments[user].confirmed
  }

  predicate Unspent(f: Factors, user: User, digest: Digest) {
    (user, digest) in f.codes && !f.codes[(user, digest)]
  }

  /** Who a subject names; a challenge names somebody only while it is live. */
  function Resolved(f: Factors, subject: Subject, now: int): Option<User> {
    match subject
    case Self(user) => Some(user)
    case ByChallenge(digest) =>
      if LiveChallenge(f, digest, now) then Some(f.challenges[digest].user) else None
  }

  function Consume(f: Factors, digest: Digest): Factors
    requires digest in f.challenges
  {
    f.(challenges := f.challenges[digest := f.challenges[digest].(consumed := true)])
  }

  function WithoutCodes(codes: map<(User, Digest), bool>, user: User): map<(User, Digest), bool> {
    map c | c in codes && c.0 != user :: codes[c]
  }

  predicate Distinct(codes: seq<Digest>) {
    forall i, j :: 0 <= i < j < |codes| ==> codes[i] != codes[j]
  }

  function WithCodes(codes: map<(User, Digest), bool>, user: User, issued: seq<Digest>): map<(User, Digest), bool> {
    if issued == [] then codes
    else WithCodes(codes, user, issued[..|issued| - 1])[(user, issued[|issued| - 1]) := false]
  }

  function CodesLeft(f: Factors, user: User): nat {
    |set c | c in f.codes && c.0 == user && !f.codes[c]|
  }

  // ------------------------------------------------------------- transactions

  function StartedChallenge(f: Factors, user: User, digest: Digest, expires: int, now: int, member: bool)
    : (Factors, Answer)
  {
    if !member || digest in f.challenges || expires <= now then (f, Failed)
    else (f.(challenges := f.challenges[digest := Challenge(user, expires, false)]), Started)
  }

  function StartedEnrolment(f: Factors, subject: Subject, secret: Secret, now: int, member: bool)
    : (Factors, Answer)
  {
    var user := Resolved(f, subject, now);
    if user.None? then (f, Refused(NoLiveChallenge))
    else if subject.ByChallenge? && Enrolled(f, user.value) then (f, Refused(AlreadyEnrolled))
    else if !member then (f, Refused(NotAMember))
    else if !Storable(secret) then (f, Failed)
    else (f.(enrolments := f.enrolments[user.value := Enrolment(secret, false, None)]), Enrolling(user.value))
  }

  function ConfirmedEnrolment(f: Factors, subject: Subject, step: int, codes: seq<Digest>, now: int)
    : (Factors, Answer)
  {
    var user := Resolved(f, subject, now);
    if user.None? then (f, Refused(NoLiveChallenge))
    else if !Pending(f, user.value) then (f, Refused(NoPendingEnrolment))
    else if step <= 0 || !Distinct(codes) then (f, Failed)
    else
      var confirmed := f.enrolments[user.value].(confirmed := true, lastStep := Some(step));
      var g := f.(
        enrolments := f.enrolments[user.value := confirmed],
        codes := WithCodes(WithoutCodes(f.codes, user.value), user.value, codes));
      match subject
      case Self(_) => (g, Confirmed(user.value, None))
      case ByChallenge(digest) => (Consume(g, digest), Confirmed(user.value, Some(digest)))
  }

  /** Whether the guarded update finds its row: a step that moves forward, or a code not yet used. */
  predicate Spendable(f: Factors, user: User, factor: Presented)
    requires user in f.enrolments
  {
    match factor
    case Totp(step) =>
      f.enrolments[user].confirmed
      && (f.enrolments[user].lastStep.Some? ==> f.enrolments[user].lastStep.value < step)
    case RecoveryCode(digest) => Unspent(f, user, digest)
  }

  function Spend(f: Factors, user: User, factor: Presented): Factors
    requires user in f.enrolments && Spendable(f, user, factor)
  {
    match factor
    case Totp(step) =>
      f.(enrolments := f.enrolments[user := f.enrolments[user].(lastStep := Some(step))])
    case RecoveryCode(digest) => f.(codes := f.codes[(user, digest) := true])
  }

  function RedeemedChallenge(f: Factors, digest: Digest, factor: Presented, now: int): (Factors, Answer) {
    if !LiveChallenge(f, digest, now) then (f, Refused(NoLiveChallenge))
    else
      var user := f.challenges[digest].user;
      if !Enrolled(f, user) then (f, Refused(NotEnrolled))
      else if !Spendable(f, user, factor) then (f, Refused(FactorRejected))
      else if factor.Totp? && factor.step <= 0 then (f, Failed)
      else
        var g := Consume(Spend(f, user, factor), digest);
        (g, Redeemed(user, CodesLeft(g, user)))
  }

  function ClearedFactor(f: Factors, actor: User, subject: User, permitted: bool, member: bool): (Factors, Answer) {
    if actor == subject || !permitted then (f, Failed)
    else if !member then (f, Removed(0))
    else (f.(enrolments := f.enrolments - {subject}, codes := WithoutCodes(f.codes, subject)),
          Removed(if subject in f.enrolments then 1 else 0))
  }

  function Do(f: Factors, tx: Transaction): (Factors, Answer) {
    match tx
    case StartChallenge(user, digest, expires, now, member) => StartedChallenge(f, user, digest, expires, now, member)
    case StartEnrolment(subject, secret, now, member) => StartedEnrolment(f, subject, secret, now, member)
    case ConfirmEnrolment(subject, step, codes, now) => ConfirmedEnrolment(f, subject, step, codes, now)
    case Redeem(digest, factor, now) => RedeemedChallenge(f, digest, factor, now)
    case ClearFactor(actor, subject, permitted, member) => ClearedFactor(f, actor, subject, permitted, member)
  }

  // --------------------------------------------------------------------- runs

  /** The rows once the first `n` transactions of the run have committed. */
  function At(run: seq<Transaction>, n: nat): Factors
    requires n <= |run|
  {
    if n == 0 then EMPTY else Do(At(run, n - 1), run[n - 1]).0
  }

  function Said(run: seq<Transaction>, i: nat): Answer
    requires i < |run|
  {
    Do(At(run, i), run[i]).1
  }

  /** Transaction `i` replaced or removed the user's secret. */
  predicate Replaces(run: seq<Transaction>, i: nat, user: User)
    requires i < |run|
  {
    || (run[i].StartEnrolment? && Said(run, i) == Enrolling(user))
    || (run[i].ClearFactor? && run[i].target == user && run[i].member && Said(run, i).Removed?)
  }

  predicate Confirms(run: seq<Transaction>, i: nat, user: User)
    requires i < |run|
  {
    run[i].ConfirmEnrolment? && Said(run, i).Confirmed? && Said(run, i).user == user
  }

  predicate Redeems(run: seq<Transaction>, i: nat, user: User)
    requires i < |run|
  {
    run[i].Redeem? && Said(run, i).Redeemed? && Said(run, i).user == user
  }

  /** The same secret, confirmed or not, throughout `from <= i < until`. */
  predicate Undisturbed(run: seq<Transaction>, user: User, from: nat, until: nat)
    requires until <= |run|
  {
    forall i :: from <= i < until ==> !Replaces(run, i, user)
  }

  /** The step transaction `i` left as the last one accepted for the user, if it accepted one. */
  function Accepted(run: seq<Transaction>, i: nat, user: User): Option<int>
    requires i < |run|
  {
    if Confirms(run, i, user) then Some(run[i].step)
    else if Redeems(run, i, user) && run[i].factor.Totp? then Some(run[i].factor.step)
    else None
  }

  /** Transaction `i` spent the challenge, by a redemption or a confirmation. */
  predicate Spends(run: seq<Transaction>, i: nat, challenge: Digest)
    requires i < |run|
  {
    || (run[i].Redeem? && Said(run, i).Redeemed? && run[i].digest == challenge)
    || (Said(run, i).Confirmed? && Said(run, i).challenge == Some(challenge))
  }
}
