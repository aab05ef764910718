/**
 * Second factors as requests present them: a code is judged against what one transaction read and spent by
 * another, with whatever other requests committed in between.
 */
module FactorRequests {
  import opened Wrappers
  import opened FactorSpec
  import opened FactorRuns
  import Totp

  /** How a sealed secret is opened, how a recovery code is hashed, and how far a clock may be off. */
  datatype Env = Env(keyed: Secret -> Totp.Mac, digestOf: string -> Digest, window: nat)

  // ------------------------------------------------------------ judging a code

  /** The code comes from this step, and from no earlier one in the window. */
  ghost predicate LeastMatch(env: Env, secret: Secret, presented: string, atMs: int, step: int) {
    secret.periodSeconds >= 1 &&
    var mac, code, centre := env.keyed(secret), Totp.NormaliseCode(presented), Totp.StepAt(atMs, secret.periodSeconds);
    && Totp.Matches(mac, code, secret.digits, centre, env.window, step)
    && forall earlier :: earlier < step ==> !Totp.Matches(mac, code, secret.digits, centre, env.window, earlier)
  }

  /** The step a code is taken to come from: verifyTotp against the opened secret. */
  ghost function Judge(env: Env, secret: Secret, presented: string, atMs: int): Option<int> {
    if exists step :: LeastMatch(env, secret, presented, atMs, step)
    then var step :| LeastMatch(env, secret, presented, atMs, step); Some(step)
    else None
  }

  lemma {:induction false} MatchHasLeast(env: Env, secret: Secret, presented: string, atMs: int, step: int)
    requires secret.periodSeconds >= 1
    requires Totp.Matches(env.keyed(secret), Totp.NormaliseCode(presented), secret.digits,
                          Totp.StepAt(atMs, secret.periodSeconds), env.window, step)
    ensures Judge(env, secret, presented, atMs).Some?
    decreases step
  {
    if earlier :| earlier < step && Totp.Matches(env.keyed(secret), Totp.NormaliseCode(presented), secret.digits,
                                                 Totp.StepAt(atMs, secret.periodSeconds), env.window, earlier)
    {
      MatchHasLeast(env, secret, presented, atMs, earlier);
    } else {
      assert LeastMatch(env, secret, presented, atMs, step);
    }
  }

  /** What is presented is a one-time code if some step in the window matches it, and a recovery code only otherwise. */
  ghost function FactorOf(env: Env, secret: Secret, presented: string, atMs: int): Presented {
    match Judge(env, secret, presented, atMs)
    case Some(step) => Presented.Totp(step)
    case None => RecoveryCode(env.digestOf(presented))
  }

  // ------------------------------------------------------------------ requests

  /** The confirmed enrolment behind a live challenge. */
  ghost function Behind(f: Factors, digest: Digest, now: int): Option<Enrolment> {
    var user := Resolved(f, ByChallenge(digest), now);
    if user.None? || !Enrolled(f, user.value) then None else Some(f.enrolments[user.value])
  }

  /** What a request keeps from its first transaction to its second, and when it read it. */
  datatype Reading =
    | Verifying(readAt: nat, user: User, secret: Secret, digest: Digest, presented: string, atMs: int)
    | Confirming(readAt: nat, user: User, secret: Secret, subject: Subject, presented: string, atMs: int)

  datatype Requests = Requests(rows: Factors, readings: map<nat, Reading>, tick: nat)

  /** One committed transaction, by the request `r` where it belongs to one of two. */
  datatype Event =
    | ReadConfirmed(r: nat, digest: Digest, presented: string, atMs: int, now: int)
    | ReadPending(r: nat, subject: Subject, presented: string, atMs: int, now: int)
    | Write(r: nat, codes: seq<Digest>, now: int)
    | Single(tx: Transaction)

  /** The second transaction of a request; a code from no step confirms nothing. */
  ghost function WriteOf(env: Env, reading: Reading, codes: seq<Digest>, now: int): Option<Transaction> {
    match reading
    case Verifying(_, _, secret, digest, presented, atMs) =>
      Some(Redeem(digest, FactorOf(env, secret, presented, atMs), now))
    case Confirming(_, _, secret, subject, presented, atMs) =>
      var step := Judge(env, secret, presented, atMs);
      if step.Some? then Some(ConfirmEnrolment(subject, step.value, codes, now)) else None
  }

  ghost function TxOf(env: Env, s: Requests, ev: Event): Option<Transaction> {
    match ev
    case Write(r, codes, now) => if r in s.readings then WriteOf(env, s.readings[r], codes, now) else None
    case Single(tx) => if tx.Redeem? || tx.ConfirmEnrolment? then None else Some(tx)
    case _ => None
  }

  ghost function ReadingsAfter(s: Requests, ev: Event): map<nat, Reading> {
    match ev
    case ReadConfirmed(r, digest, presented, atMs, now) =>
      var enrolment := Behind(s.rows, digest, now);
      if enrolment.None? then s.readings - {r}
      else
        s.readings[r := Verifying(
          s.tick, s.rows.challenges[digest].user, enrolment.value.secret, digest, presented, atMs)]
    case ReadPending(r, subject, presented, atMs, now) =>
      var user := Resolved(s.rows, subject, now);
      if user.None? || !Pending(s.rows, user.value) then s.readings - {r}
      else
        s.readings[r := Confirming(
          s.tick, user.value, s.rows.enrolments[user.value].secret, subject, presented, atMs)]
    case Write(r, _, _) => s.readings - {r}
    case Single(_) => s.readings
  }

  ghost function Next(env: Env, s: Requests, ev: Event): Requests {
    var tx := TxOf(env, s, ev);
    Requests(if tx.Some? then Do(s.rows, tx.value).0 else s.rows, ReadingsAfter(s, ev), s.tick + 1)
  }

  ghost function After(env: Env, run: seq<Event>, n: nat): Requests
    requires n <= |run|
  {
    if n == 0 then Requests(EMPTY, map[], 0) else Next(env, After(env, run, n - 1), run[n - 1])
  }

  /** The transactions of the first `n` events that write. */
  ghost function Txs(env: Env, run: seq<Event>, n: nat): seq<Transaction>
    requires n <= |run|
  {
    if n == 0 then []
    else
      var tx := TxOf(env, After(env, run, n - 1), run[n - 1]);
      Txs(env, run, n - 1) + (if tx.Some? then [tx.value] else [])
  }

  // ------------------------------------------- requests are a run of transactions

  lemma {:induction false} TxsGrow(env: Env, run: seq<Event>, m: nat, n: nat)
    requires m <= n <= |run|
    ensures Txs(env, run, m) <= Txs(env, run, n)
    decreases n
  {
    hide TxOf;
    if m < n {
      TxsGrow(env, run, m, n - 1);
    }
  }

  /** Whatever the interleaving, the rows are those the written transactions leave. */
  lemma {:induction false} RowsAre(env: Env, run: seq<Event>, m: nat, n: nat)
    requires m <= n <= |run|
    ensures var txs := Txs(env, run, n);
            |Txs(env, run, m)| <= |txs| && After(env, run, m).rows == At(txs, |Txs(env, run, m)|)
  {
    hide Do, TxOf, ReadingsAfter;
    TxsGrow(env, run, m, n);
    if m > 0 {
      RowsAre(env, run, m - 1, n);
      var txs, front := Txs(env, run, n), Txs(env, run, m - 1);
      var tx := TxOf(env, After(env, run, m - 1), run[m - 1]);
      assert Txs(env, run, m) == front + (if tx.Some? then [tx.value] else []);
      assert tx.Some? ==> txs[|front|] == tx.value;
    }
  }

  // -------------------------------------------------------- what a reading knows

  /** What a reading found in the rows it read. */
  ghost predicate Read(rows: Factors, reading: Reading) {
    && reading.user in rows.enrolments && rows.enrolments[reading.user].secret == reading.secret
    && (reading.Verifying? ==> Names(rows, ByChallenge(reading.digest), reading.user))
    && (reading.Confirming? ==> Names(rows, reading.subject, reading.user))
  }

  predicate Names(rows: Factors, subject: Subject, user: User) {
    match subject
    case Self(acting) => acting == user
    case ByChallenge(digest) => digest in rows.challenges && rows.challenges[digest].user == user
  }

  lemma {:induction false} ReadingsRead(env: Env, run: seq<Event>, n: nat, r: nat)
    requires n <= |run| && r in After(env, run, n).readings
    ensures var reading := After(env, run, n).readings[r];
            reading.readAt < n && Read(After(env, run, reading.readAt).rows, reading)
  {
    hide Do, TxOf, Read;
    if n > 0 {
      var s := After(env, run, n - 1);
      Ticks(env, run, n - 1);
      if r in s.readings && After(env, run, n).readings[r] == s.readings[r] {
        ReadingsRead(env, run, n - 1, r);
      } else {
        JustRead(s, run[n - 1], r);
      }
    }
  }

  lemma JustRead(s: Requests, ev: Event, r: nat)
    requires r in ReadingsAfter(s, ev) && (r in s.readings ==> ReadingsAfter(s, ev)[r] != s.readings[r])
    ensures ReadingsAfter(s, ev)[r].readAt == s.tick && Read(s.rows, ReadingsAfter(s, ev)[r])
  {
  }

  lemma {:induction false} Ticks(env: Env, run: seq<Event>, n: nat)
    requires n <= |run|
    ensures After(env, run, n).tick == n
  {
    hide Do, TxOf, ReadingsAfter;
    if n > 0 {
      Ticks(env, run, n - 1);
    }
  }

  lemma {:induction false} SecretStands(txs: seq<Transaction>, i: nat, j: nat, user: User)
    requires i <= j <= |txs| && Undisturbed(txs, user, i, j)
    ensures user in At(txs, i).enrolments <==> user in At(txs, j).enrolments
    ensures user in At(txs, i).enrolments ==> At(txs, i).enrolments[user].secret == At(txs, j).enrolments[user].secret
    decreases j
  {
    hide Undisturbed;
    if i < j {
      assert Undisturbed(txs, user, i, j - 1) && !Replaces(txs, j - 1, user) by {
        Shorter(txs, user, i, j);
      }
      SecretStands(txs, i, j - 1, user);
      SecretKept(txs, j - 1, user);
    }
  }

  lemma Shorter(txs: seq<Transaction>, user: User, i: nat, j: nat)
    requires i < j <= |txs| && Undisturbed(txs, user, i, j)
    ensures Undisturbed(txs, user, i, j - 1) && !Replaces(txs, j - 1, user)
  {
    hide Replaces;
  }

  lemma SecretKept(txs: seq<Transaction>, i: nat, user: User)
    requires i < |txs| && !Replaces(txs, i, user)
    ensures user in At(txs, i).enrolments <==> user in At(txs, i + 1).enrolments
    ensures user in At(txs, i).enrolments ==>
      At(txs, i).enrolments[user].secret == At(txs, i + 1).enrolments[user].secret
  {
    hide WithCodes, WithoutCodes, CodesLeft;
  }

  lemma {:induction false} ChallengeKeepsUser(txs: seq<Transaction>, i: nat, j: nat, digest: Digest)
    requires i <= j <= |txs| && digest in At(txs, i).challenges
    ensures digest in At(txs, j).challenges && At(txs, j).challenges[digest].user == At(txs, i).challenges[digest].user
    decreases j
  {
    hide WithCodes, WithoutCodes, CodesLeft;
    if i < j {
      ChallengeKeepsUser(txs, i, j - 1, digest);
    }
  }

  // -------------------------------------------------- how many codes are accepted

  /** Event `i` is the second transaction of a request that presents a second factor. */
  ghost predicate Presents(env: Env, run: seq<Event>, i: nat)
    requires i < |run|
  {
    && run[i].Write? && run[i].r in After(env, run, i).readings
    && After(env, run, i).readings[run[i].r].Verifying?
  }

  ghost function ReadingOf(env: Env, run: seq<Event>, i: nat): Reading
    requires i < |run| && Presents(env, run, i)
  {
    After(env, run, i).readings[run[i].r]
  }

  ghost function FactorAt(env: Env, run: seq<Event>, i: nat): Presented
    requires i < |run| && Presents(env, run, i)
  {
    var reading := ReadingOf(env, run, i);
    FactorOf(env, reading.secret, reading.presented, reading.atMs)
  }

  ghost function AnswerAt(env: Env, run: seq<Event>, i: nat): Answer
    requires i < |run| && Presents(env, run, i)
  {
    RedeemedChallenge(After(env, run, i).rows, ReadingOf(env, run, i).digest, FactorAt(env, run, i), run[i].now).1
  }

  /** Event `i` accepted a one-time code for the user. */
  ghost predicate CodeAccepted(env: Env, run: seq<Event>, i: nat, user: User)
    requires i < |run|
  {
    && Presents(env, run, i) && FactorAt(env, run, i).Totp?
    && AnswerAt(env, run, i).Redeemed? && AnswerAt(env, run, i).user == user
  }

  /** Nothing replaces or removes the user's secret between these events. */
  ghost predicate Stands(env: Env, run: seq<Event>, user: User, from: nat, until: nat)
    requires from <= until <= |run|
  {
    |Txs(env, run, from)| <= |Txs(env, run, until)|
    && Undisturbed(Txs(env, run, until), user, |Txs(env, run, from)|, |Txs(env, run, until)|)
  }

  /** The one-time codes read and accepted between two events, judged at an instant between two others. */
  ghost function CodesAccepted(env: Env, run: seq<Event>, user: User, from: nat, until: nat, t0: int, t1: int): set<nat>
    requires until <= |run|
  {
    set i: nat | i < until && CodeAccepted(env, run, i, user)
                 && from <= ReadingOf(env, run, i).readAt && t0 <= ReadingOf(env, run, i).atMs <= t1
  }

  lemma AcceptedIsTransaction(env: Env, run: seq<Event>, i: nat, until: nat, user: User)
    requires i < until <= |run| && CodeAccepted(env, run, i, user)
    ensures var txs, at := Txs(env, run, until), |Txs(env, run, i)|;
            && at < |txs| && Redeems(txs, at, user) && txs[at].factor == FactorAt(env, run, i)
            && Accepted(txs, at, user) == Some(FactorAt(env, run, i).step)
            && |Txs(env, run, i + 1)| == at + 1
  {
    hide FactorOf, RedeemedChallenge;
    RowsAre(env, run, i, until);
    TxsGrow(env, run, i + 1, until);
    var tx := TxOf(env, After(env, run, i), run[i]).value;
    assert Txs(env, run, i + 1) == Txs(env, run, i) + [tx];
    assert Txs(env, run, until)[|Txs(env, run, i)|] == tx;
    assert Do(After(env, run, i).rows, tx).1 == AnswerAt(env, run, i);
  }

  /** Accepted codes in the order their requests wrote them come from ever later steps. */
  lemma AcceptedInOrder(env: Env, run: seq<Event>, user: User, from: nat, until: nat, i: nat, j: nat)
    requires from <= i < j < until <= |run| && Stands(env, run, user, from, until)
    requires CodeAccepted(env, run, i, user) && CodeAccepted(env, run, j, user)
    ensures FactorAt(env, run, i).step < FactorAt(env, run, j).step
  {
    hide CodeAccepted, FactorAt, Presents, Redeems, Accepted, Replaces;
    AcceptedIsTransaction(env, run, i, until, user);
    AcceptedIsTransaction(env, run, j, until, user);
    TxsGrow(env, run, from, i);
    TxsGrow(env, run, i + 1, j);
    AcceptedStepsIncrease(Txs(env, run, until), |Txs(env, run, i)|, |Txs(env, run, j)|, user);
  }

  /**
   * While nothing replaces it, the secret a code was judged against is the one it is spent on: the one the
   * user had all along.
   */
  lemma JudgedAgainstStanding(env: Env, run: seq<Event>, user: User, from: nat, until: nat, i: nat)
    requires i < until <= |run| && from <= until && Stands(env, run, user, from, until)
    requires CodeAccepted(env, run, i, user) && from <= ReadingOf(env, run, i).readAt
    ensures from <= i && user in After(env, run, from).rows.enrolments && user in After(env, run, i).rows.enrolments
    ensures ReadingOf(env, run, i).secret == After(env, run, from).rows.enrolments[user].secret
    ensures ReadingOf(env, run, i).secret == After(env, run, i).rows.enrolments[user].secret
    ensures LeastMatch(env, ReadingOf(env, run, i).secret, ReadingOf(env, run, i).presented,
                       ReadingOf(env, run, i).atMs, FactorAt(env, run, i).step)
  {
    hide Replaces, LeastMatch, Redeems, Accepted, Undisturbed;
    var reading := ReadingOf(env, run, i);
    var txs := Txs(env, run, until);
    ReadingsRead(env, run, i, run[i].r);
    RowsAre(env, run, from, until);
    RowsAre(env, run, reading.readAt, until);
    RowsAre(env, run, i, until);
    TxsGrow(env, run, from, reading.readAt);
    TxsGrow(env, run, reading.readAt, i);
    ChallengeKeepsUser(txs, |Txs(env, run, reading.readAt)|, |Txs(env, run, i)|, reading.digest);
    assert reading.user == user;
    StandsWithin(txs, user, |Txs(env, run, from)|, |Txs(env, run, reading.readAt)|, |Txs(env, run, i)|);
    SecretStands(txs, |Txs(env, run, from)|, |Txs(env, run, reading.readAt)|, user);
    SecretStands(txs, |Txs(env, run, reading.readAt)|, |Txs(env, run, i)|, user);
  }

  lemma StandsWithin(txs: seq<Transaction>, user: User, a: nat, b: nat, c: nat)
    requires a <= b <= c <= |txs| && Undisturbed(txs, user, a, |txs|)
    ensures Undisturbed(txs, user, a, b) && Undisturbed(txs, user, b, c)
  {
    hide Replaces;
  }

  /** As many values as keep ascending fit between two bounds. */
  lemma {:induction false} AscendingFit(s: set<nat>, f: nat -> int, low: int, high: int)
    requires low - 1 <= high
    requires forall i :: i in s ==> low <= f(i) <= high
    requires forall i, j :: i in s && j in s && i < j ==> f(i) < f(j)
    ensures |s| <= high - low + 1
    decreases high - low + 1
  {
    if top :| top in s && f(top) == high {
      AscendingFit(s - {top}, f, low, high - 1);
    } else if s != {} {
      var any :| any in s;
      AscendingFit(s, f, low, high - 1);
    }
  }

  /**
   * While one secret stands, the one-time codes read and accepted, and judged between two instants, are no
   * more than the steps in reach of those instants. That each lies in its window is what verifyTotp ensures.
   */
  lemma {:induction false} TotpBound(
    env: Env, run: seq<Event>, user: User, from: nat, until: nat, t0: int, t1: int)
    requires from <= until <= |run| && t0 <= t1 && Stands(env, run, user, from, until)
    ensures var rows, accepted := After(env, run, from).rows, CodesAccepted(env, run, user, from, until, t0, t1);
            if user !in rows.enrolments then accepted == {}
            else
              var period := rows.enrolments[user].secret.periodSeconds;
              && period >= 1
              && |accepted| <= Totp.StepAt(t1, period) - Totp.StepAt(t0, period) + 2 * env.window + 1
  {
    hide After, CodeAccepted, FactorAt, Presents, ReadingOf, Stands, Totp.StepAt, Totp.Matches;
    var rows, accepted := After(env, run, from).rows, CodesAccepted(env, run, user, from, until, t0, t1);
    forall i | i in accepted
      ensures InReach(env, run, user, from, i, t0, t1)
    {
      JudgedAgainstStanding(env, run, user, from, until, i);
      StepInReach(env, run, user, from, i, t0, t1);
    }
    OnlyStorableIsStored(env, run, from);
    if user in rows.enrolments {
      var period := rows.enrolments[user].secret.periodSeconds;
      var f := (i: nat) => StepOr0(env, run, i);
      forall i, j | i in accepted && j in accepted && i < j
        ensures f(i) < f(j)
      {
        AcceptedInOrder(env, run, user, from, until, i, j);
      }
      Totp.StepsFollowTheClock(t0, t1, period);
      AscendingFit(accepted, f, Totp.StepAt(t0, period) - env.window, Totp.StepAt(t1, period) + env.window);
    }
  }

  ghost function StepOr0(env: Env, run: seq<Event>, i: nat): int {
    if i < |run| && Presents(env, run, i) && FactorAt(env, run, i).Totp? then FactorAt(env, run, i).step else 0
  }

  ghost predicate InReach(env: Env, run: seq<Event>, user: User, from: nat, i: nat, t0: int, t1: int)
    requires from <= |run|
  {
    var rows := After(env, run, from).rows;
    && from <= i < |run| && Presents(env, run, i) && FactorAt(env, run, i).Totp?
    && user in rows.enrolments && rows.enrolments[user].secret.periodSeconds >= 1
    && var period := rows.enrolments[user].secret.periodSeconds;
       Totp.StepAt(t0, period) - env.window <= FactorAt(env, run, i).step <= Totp.StepAt(t1, period) + env.window
  }

  lemma StepInReach(env: Env, run: seq<Event>, user: User, from: nat, i: nat, t0: int, t1: int)
    requires from <= i < |run| && CodeAccepted(env, run, i, user)
    requires user in After(env, run, from).rows.enrolments
    requires ReadingOf(env, run, i).secret == After(env, run, from).rows.enrolments[user].secret
    requires t0 <= ReadingOf(env, run, i).atMs <= t1
    requires LeastMatch(env, ReadingOf(env, run, i).secret, ReadingOf(env, run, i).presented,
                        ReadingOf(env, run, i).atMs, FactorAt(env, run, i).step)
    ensures InReach(env, run, user, from, i, t0, t1)
  {
    hide After, FactorOf, Totp.StepAt, RedeemedChallenge, Totp.CodeOf;
    var reading := ReadingOf(env, run, i);
    Totp.StepsFollowTheClock(t0, reading.atMs, reading.secret.periodSeconds);
    Totp.StepsFollowTheClock(reading.atMs, t1, reading.secret.periodSeconds);
  }

  // ------------------------------------------------- which secret a code is spent on

  /** Event `i` confirmed the user's enrolment. */
  ghost predicate ConfirmedAt(env: Env, run: seq<Event>, i: nat, user: User)
    requires i < |run|
  {
    && run[i].Write? && run[i].r in After(env, run, i).readings
    && var reading := After(env, run, i).readings[run[i].r];
    && reading.Confirming? && Judge(env, reading.secret, reading.presented, reading.atMs).Some?
    && var step := Judge(env, reading.secret, reading.presented, reading.atMs).value;
       var answer := ConfirmedEnrolment(After(env, run, i).rows, reading.subject, step, run[i].codes, run[i].now).1;
       answer.Confirmed? && answer.user == user
  }

  /**
   * The secret a confirmation confirms is the one whose code was presented, as long as nothing replaced it
   * between the transaction that read it and the one that confirmed.
   */
  lemma ConfirmsWhatWasJudged(env: Env, run: seq<Event>, user: User, i: nat)
    requires i < |run| && ConfirmedAt(env, run, i, user)
    requires var reading := After(env, run, i).readings[run[i].r];
             reading.readAt <= i && Stands(env, run, user, reading.readAt, i)
    ensures var reading := After(env, run, i).readings[run[i].r];
            && user in After(env, run, i + 1).rows.enrolments
            && After(env, run, i + 1).rows.enrolments[user].confirmed
            && After(env, run, i + 1).rows.enrolments[user].secret == reading.secret
            && After(env, run, i + 1).rows.enrolments[user].lastStep.Some?
            && LeastMatch(env, reading.secret, reading.presented, reading.atMs,
                          After(env, run, i + 1).rows.enrolments[user].lastStep.value)
  {
    hide Replaces, LeastMatch, Undisturbed, WithCodes, WithoutCodes;
    var reading := After(env, run, i).readings[run[i].r];
    var txs := Txs(env, run, i);
    ReadingsRead(env, run, i, run[i].r);
    RowsAre(env, run, reading.readAt, i);
    RowsAre(env, run, i, i);
    if reading.subject.ByChallenge? {
      ChallengeKeepsUser(txs, |Txs(env, run, reading.readAt)|, |txs|, reading.subject.digest);
    }
    SecretStands(txs, |Txs(env, run, reading.readAt)|, |txs|, user);
  }

  /** No secret asked for between these events is the one given: each is minted and sealed anew. */
  ghost predicate NewSecrets(run: seq<Event>, from: nat, until: nat, secret: Secret)
    requires until <= |run|
  {
    forall k :: from <= k < until && run[k].Single? && run[k].tx.StartEnrolment? ==> run[k].tx.secret != secret
  }

  /** The same of transactions. */
  predicate NeverStored(txs: seq<Transaction>, from: nat, until: nat, secret: Secret)
    requires until <= |txs|
  {
    forall k :: from <= k < until && txs[k].StartEnrolment? ==> txs[k].secret != secret
  }

  lemma {:induction false} NewIsNeverStored(env: Env, run: seq<Event>, from: nat, until: nat, secret: Secret)
    requires from <= until <= |run| && NewSecrets(run, from, until, secret)
    ensures |Txs(env, run, from)| <= |Txs(env, run, until)|
    ensures NeverStored(Txs(env, run, until), |Txs(env, run, from)|, |Txs(env, run, until)|, secret)
    decreases until
  {
    hide After;
    if from < until {
      NewIsNeverStored(env, run, from, until - 1, secret);
      TxsGrow(env, run, from, until - 1);
      OnlySinglesStore(env, After(env, run, until - 1), run[until - 1]);
    }
  }

  lemma OnlySinglesStore(env: Env, s: Requests, ev: Event)
    ensures var tx := TxOf(env, s, ev);
            tx.Some? && tx.value.StartEnrolment? ==> ev.Single? && ev.tx == tx.value
  {
    hide Judge, FactorOf;
  }

  /** A secret that is never stored again is still the user's exactly when nothing replaced it. */
  lemma {:induction false} SecretKeptIff(txs: seq<Transaction>, a: nat, b: nat, user: User, secret: Secret)
    requires a <= b <= |txs| && NeverStored(txs, a, b, secret)
    requires user in At(txs, a).enrolments && At(txs, a).enrolments[user].secret == secret
    ensures (user in At(txs, b).enrolments && At(txs, b).enrolments[user].secret == secret)
      <==> Undisturbed(txs, user, a, b)
    decreases b
  {
    hide Undisturbed, Replaces;
    if Undisturbed(txs, user, a, b) {
      SecretStands(txs, a, b, user);
    } else {
      LastReplacement(txs, a, b, user, secret);
    }
  }

  lemma {:induction false} LastReplacement(txs: seq<Transaction>, a: nat, b: nat, user: User, secret: Secret)
    requires a <= b <= |txs| && NeverStored(txs, a, b, secret) && !Undisturbed(txs, user, a, b)
    ensures user in At(txs, b).enrolments ==> At(txs, b).enrolments[user].secret != secret
    decreases b
  {
    hide Undisturbed, Replaces;
    NotTheLast(txs, a, b, user);
    if Replaces(txs, b - 1, user) {
      ReplacedBy(txs, b - 1, user);
    } else {
      LastReplacement(txs, a, b - 1, user, secret);
      SecretKept(txs, b - 1, user);
    }
  }

  lemma NotTheLast(txs: seq<Transaction>, a: nat, b: nat, user: User)
    requires a <= b <= |txs| && !Undisturbed(txs, user, a, b)
    ensures a < b && (!Replaces(txs, b - 1, user) ==> !Undisturbed(txs, user, a, b - 1))
  {
    hide Replaces;
  }

  lemma ReplacedBy(txs: seq<Transaction>, k: nat, user: User)
    requires k < |txs| && Replaces(txs, k, user)
    ensures user in At(txs, k + 1).enrolments ==>
      txs[k].StartEnrolment? && At(txs, k + 1).enrolments[user].secret == txs[k].secret
  {
    hide WithCodes, WithoutCodes, CodesLeft;
  }

  /** A reading's secret is still its user's exactly when nothing replaced it since, if none is asked for twice. */
  lemma {:induction false} ReadingStandsIff(env: Env, run: seq<Event>, i: nat, r: nat)
    requires i <= |run| && r in After(env, run, i).readings
    requires var reading := After(env, run, i).readings[r];
             reading.readAt <= i ==> NewSecrets(run, reading.readAt, i, reading.secret)
    ensures var reading := After(env, run, i).readings[r];
            && reading.readAt < i
            && ((reading.user in After(env, run, i).rows.enrolments
                 && After(env, run, i).rows.enrolments[reading.user].secret == reading.secret)
                <==> Stands(env, run, reading.user, reading.readAt, i))
  {
    hide Replaces, Undisturbed, TxOf, ReadingsAfter, Do, NeverStored, NewSecrets, Names;
    var reading := After(env, run, i).readings[r];
    ReadingsRead(env, run, i, r);
    NewIsNeverStored(env, run, reading.readAt, i, reading.secret);
    RowsAre(env, run, reading.readAt, i);
    RowsAre(env, run, i, i);
    SecretKeptIff(Txs(env, run, i), |Txs(env, run, reading.readAt)|, |Txs(env, run, i)|, reading.user, reading.secret);
  }

  /** The user a confirmation or a redemption answers for is the one its reading found. */
  lemma {:induction false} AnswersForReader(env: Env, run: seq<Event>, user: User, i: nat)
    requires i < |run| && (ConfirmedAt(env, run, i, user) || CodeAccepted(env, run, i, user))
    ensures After(env, run, i).readings[run[i].r].user == user
  {
    hide Do, TxOf, ReadingsAfter, Judge, FactorOf;
    var reading := After(env, run, i).readings[run[i].r];
    ReadingsRead(env, run, i, run[i].r);
    RowsAre(env, run, reading.readAt, i);
    RowsAre(env, run, i, i);
    var txs, at := Txs(env, run, i), |Txs(env, run, reading.readAt)|;
    if reading.Verifying? {
      ChallengeKeepsUser(txs, at, |txs|, reading.digest);
    } else if reading.subject.ByChallenge? {
      ChallengeKeepsUser(txs, at, |txs|, reading.subject.digest);
    }
  }

  /**
   * When an enrolment proves the secret it confirms, exactly: as long as no secret is asked for twice, if and
   * only if nothing replaced the user's secret between the transaction that read it and the one that confirmed.
   */
  lemma {:induction false} ConfirmsWhatWasJudgedIff(env: Env, run: seq<Event>, user: User, i: nat)
    requires i < |run| && ConfirmedAt(env, run, i, user)
    requires var reading := After(env, run, i).readings[run[i].r];
             reading.readAt <= i ==> NewSecrets(run, reading.readAt, i, reading.secret)
    ensures var reading := After(env, run, i).readings[run[i].r];
            && reading.readAt < i && user in After(env, run, i + 1).rows.enrolments
            && (After(env, run, i + 1).rows.enrolments[user].secret == reading.secret
                <==> Stands(env, run, user, reading.readAt, i))
  {
    hide NewSecrets, Stands, Judge, WithCodes, WithoutCodes;
    AnswersForReader(env, run, user, i);
    ReadingStandsIff(env, run, i, run[i].r);
  }

  /** And when an accepted code is one of the secret it is spent on, exactly. */
  lemma {:induction false} SpendsWhatWasJudgedIff(env: Env, run: seq<Event>, user: User, i: nat)
    requires i < |run| && CodeAccepted(env, run, i, user)
    requires var reading := After(env, run, i).readings[run[i].r];
             reading.readAt <= i ==> NewSecrets(run, reading.readAt, i, reading.secret)
    ensures var reading := After(env, run, i).readings[run[i].r];
            && reading.readAt < i && user in After(env, run, i).rows.enrolments
            && (After(env, run, i).rows.enrolments[user].secret == reading.secret
                <==> Stands(env, run, user, reading.readAt, i))
  {
    hide NewSecrets, Stands, FactorOf;
    AnswersForReader(env, run, user, i);
    ReadingStandsIff(env, run, i, run[i].r);
  }

  /**
   * Otherwise it need not be: a new secret asked for between the two transactions is confirmed by a code of
   * the old one, and the old one's step is recorded against it.
   */
  lemma ConfirmsAnotherSecret(
    env: Env, s: Requests, user: User, next: Secret, presented: string, atMs: int, codes: seq<Digest>, now: int)
    requires Pending(s.rows, user) && Storable(next) && Distinct(codes)
    requires Judge(env, s.rows.enrolments[user].secret, presented, atMs).Some?
    requires Judge(env, s.rows.enrolments[user].secret, presented, atMs).value > 0
    ensures var read := Next(env, s, ReadPending(0, Self(user), presented, atMs, now));
            var replaced := Next(env, read, Single(StartEnrolment(Self(user), next, now, true)));
            var end := Next(env, replaced, Write(0, codes, now));
            && user in end.rows.enrolments
            && end.rows.enrolments[user] == Enrolment(
                 next, true, Judge(env, s.rows.enrolments[user].secret, presented, atMs))
  {
    hide Judge, WithCodes, WithoutCodes;
  }

  /**
   * Nor does a redemption: a code of the secret that was read is accepted although another one has been
   * confirmed since, and is what that one's later codes are measured by.
   */
  lemma RedeemsOnAnotherSecret(
    env: Env, s: Requests, user: User, digest: Digest, next: Secret, presented: string, atMs: int,
    proof: string, provedAt: int, now: int)
    requires Enrolled(s.rows, user) && LiveChallenge(s.rows, digest, now) && s.rows.challenges[digest].user == user
    requires Storable(next)
    requires var step := Judge(env, s.rows.enrolments[user].secret, presented, atMs);
             var first := Judge(env, next, proof, provedAt);
             step.Some? && first.Some? && 0 < first.value < step.value
    ensures var read := Next(env, s, ReadConfirmed(0, digest, presented, atMs, now));
            var replaced := Next(env, read, Single(StartEnrolment(Self(user), next, now, true)));
            var proving := Next(env, replaced, ReadPending(1, Self(user), proof, provedAt, now));
            var proved := Next(env, proving, Write(1, [], now));
            var end := Next(env, proved, Write(0, [], now));
            && user in proved.rows.enrolments && user in end.rows.enrolments
            && proved.rows.enrolments[user] == Enrolment(next, true, Judge(env, next, proof, provedAt))
            && end.rows.enrolments[user] == Enrolment(
                 next, true, Judge(env, s.rows.enrolments[user].secret, presented, atMs))
            && !LiveChallenge(end.rows, digest, now)
  {
    hide Judge, WithCodes, WithoutCodes, CodesLeft;
  }

  // --------------------------------------------------------------- stored secrets

  ghost predicate StoresOnlyStorable(f: Factors) {
    forall user <- f.enrolments :: Storable(f.enrolments[user].secret)
  }

  lemma DoStoresStorable(f: Factors, tx: Transaction)
    requires StoresOnlyStorable(f)
    ensures StoresOnlyStorable(Do(f, tx).0)
  {
    hide WithCodes, WithoutCodes, CodesLeft;
  }

  /** Every secret any run stores satisfies the table's constraints, so its codes can be judged. */
  lemma {:induction false} OnlyStorableIsStored(env: Env, run: seq<Event>, n: nat)
    requires n <= |run|
    ensures StoresOnlyStorable(After(env, run, n).rows)
    decreases n
  {
    hide Do, TxOf, ReadingsAfter, StoresOnlyStorable;
    if n > 0 {
      OnlyStorableIsStored(env, run, n - 1);
      var tx := TxOf(env, After(env, run, n - 1), run[n - 1]);
      if tx.Some? {
        DoStoresStorable(After(env, run, n - 1).rows, tx.value);
      }
    } else {
      NoneStored();
    }
  }

  lemma NoneStored()
    ensures StoresOnlyStorable(EMPTY)
  {
  }
}
