/** What each event leaves of the sessions and the requests, read off the rows; and that whoever proves what is asked
    of them gets a session that lasts until it is ended or expires. */
module SessionOutcomes {
  import opened Wrappers
  import F = FactorSpec
  import FO = FactorOutcomes
  import opened SessionSpec
  import opened SessionRuns

  /** The row is there, has not been ended and has not expired. */
  predicate Alive(s: Sessions, d: Digest, now: int) {
    d in s && s[d].revoked == None && now < s[d].expires
  }

  /** The same rows, but that this one is ended for this reason. */
  ghost predicate EndsOne(s: Sessions, t: Sessions, d: Digest, reason: Reason) {
    && d in s && t.Keys == s.Keys
    && t[d] == Session(s[d].user, s[d].expires, s[d].lastSeen, Some(reason), s[d].rotatedFrom)
    && forall o <- s :: o != d ==> t[o] == s[o]
  }

  /** The same rows and one more. */
  ghost predicate AddsRow(s: Sessions, t: Sessions, d: Digest, row: Session) {
    d !in s && t.Keys == s.Keys + {d} && t[d] == row && forall o <- s :: t[o] == s[o]
  }

  /** Each live row of the user is ended for this reason, and no other row changes. */
  ghost predicate EndsAll(s: Sessions, t: Sessions, user: User, reason: Reason, now: int) {
    && t.Keys == s.Keys
    && forall d <- s :: t[d] ==
         if s[d].user == user && Alive(s, d, now)
         then Session(user, s[d].expires, s[d].lastSeen, Some(reason), s[d].rotatedFrom) else s[d]
  }

  /** Only this request moves on. */
  ghost predicate Moves(w: World, n: World, r: nat, phase: Phase) {
    n.requests == w.requests[r := phase] && n.required == w.required
  }

  predicate HasConfirmed(w: World, user: User) {
    user in w.factors.enrolments && w.factors.enrolments[user].confirmed
  }

  // ----------------------------------------------------------------- one event

  lemma EndOneMeans(w: World, token: Digest, reason: Reason, now: int)
    ensures var n := Next(w, EndOne(token, reason, now));
            && n == w.(sessions := n.sessions)
            && if Alive(w.sessions, token, now) then EndsOne(w.sessions, n.sessions, token, reason) else n == w
  {
  }

  /** All the user's live sessions end; the count answered is of those. */
  lemma EndAllMeans(w: World, user: User, reason: Reason, now: int)
    ensures var n := Next(w, EndAll(user, reason, now));
            && n == w.(sessions := n.sessions) && EndsAll(w.sessions, n.sessions, user, reason, now)
            && LiveOf(w.sessions, user, now) == set d | d in w.sessions && n.sessions[d] != w.sessions[d]
  {
  }

  lemma UseMeans(w: World, token: Digest, now: int)
    ensures var n := Next(w, Use(token, now));
            && n == w.(sessions := n.sessions) && n.sessions.Keys == w.sessions.Keys
            && forall d <- w.sessions :: n.sessions[d] ==
                 if d == token && Alive(w.sessions, d, now)
                 then Session(w.sessions[d].user, w.sessions[d].expires, Some(now), None, w.sessions[d].rotatedFrom)
                 else w.sessions[d]
  {
  }

  /** A live identifier is exchanged for a fresh one of the same user's, both halves or neither. */
  lemma RotateMeans(
    w: World, token: Digest, digest: Digest, expires: int, reason: Reason, now: int, member: bool)
    ensures var n := Next(w, Rotate(token, digest, expires, reason, now, member));
            && n == w.(sessions := n.sessions)
            && if Alive(w.sessions, token, now) && member && digest !in w.sessions && now < expires then
                 exists ended: Sessions ::
                   && EndsOne(w.sessions, ended, token, reason)
                   && AddsRow(ended, n.sessions, digest,
                              Session(w.sessions[token].user, expires, None, None, Some(token)))
               else n == w
  {
    assert Alive(w.sessions, token, now) ==>
      EndsOne(w.sessions, Ended(w.sessions, token, reason, now), token, reason);
  }

  lemma AcceptMeans(w: World, r: nat, user: User, presented: Option<Digest>)
    ensures var n := Next(w, Accept(r, user, presented));
            if r in w.requests then n == w
            else n == w.(requests := n.requests) && Moves(w, n, r, Accepted(user, presented))
  {
  }

  /** A presented identifier that is live is ended, and the request keeps it. */
  lemma RetireMeans(w: World, r: nat, now: int, user: User, presented: Option<Digest>)
    requires In(w, r, Accepted(user, presented))
    ensures var n := Next(w, Retire(r, now));
            && n.factors == w.factors
            && if presented.Some? && Alive(w.sessions, presented.value, now) then
                 EndsOne(w.sessions, n.sessions, presented.value, WasRotated)
                 && Moves(w, n, r, Retired(user, presented))
               else n.sessions == w.sessions && Moves(w, n, r, Retired(user, None))
  {
  }

  lemma ReadPolicyMeans(w: World, r: nat, user: User, ended: Option<Digest>)
    requires In(w, r, Retired(user, ended))
    ensures var n := Next(w, ReadPolicy(r));
            n == w.(requests := n.requests) && Moves(w, n, r, PolicyRead(user, ended, w.required))
  {
  }

  /** Whoever has a confirmed factor verifies it, whatever the policy; whoever has none enrols if the policy asked. */
  lemma ReadEnrolledMeans(w: World, r: nat, user: User, ended: Option<Digest>, required: bool)
    requires In(w, r, PolicyRead(user, ended, required))
    ensures var n := Next(w, ReadEnrolled(r));
            var confirmed := HasConfirmed(w, user);
            && n == w.(requests := n.requests)
            && (confirmed ==> Moves(w, n, r, Owing(user, Verify)))
            && (!confirmed && required ==> Moves(w, n, r, Owing(user, Enrol)))
            && (!confirmed && !required ==> Moves(w, n, r, Unchallenged(user, ended)))
  {
  }

  lemma IssueMeans(w: World, r: nat, user: User, demand: Demand, digest: Digest, expires: int, now: int, member: bool)
    requires In(w, r, Owing(user, demand))
    ensures var n := Next(w, Issue(r, digest, expires, now, member));
            && n.sessions == w.sessions && Moves(w, n, r, Finished)
            && n.factors == F.Do(w.factors, F.StartChallenge(user, digest, expires, now, member)).0
  {
  }

  /** The session a request may claim to replace. */
  function Replacing(w: World, phase: Phase): Option<Digest> {
    if phase.Unchallenged? && phase.ended.Some? && phase.ended.value in w.sessions
       && w.sessions[phase.ended.value].user == phase.user
    then phase.ended else None
  }

  /** One session of the request's user, or none: for a member, under a digest not yet used, to end later than now. */
  lemma MintMeans(w: World, r: nat, phase: Phase, digest: Digest, expires: int, now: int, member: bool)
    requires In(w, r, phase) && (phase.Unchallenged? || phase.Proved?)
    ensures var n := Next(w, Mint(r, digest, expires, now, member));
            && n.factors == w.factors && Moves(w, n, r, Finished)
            && if member && digest !in w.sessions && now < expires
               then AddsRow(w.sessions, n.sessions, digest,
                            Session(phase.user, expires, None, None, Replacing(w, phase)))
               else n.sessions == w.sessions
  {
  }

  /** A redeemed challenge proves its user; anything else ends the request. */
  lemma PresentMeans(w: World, r: nat, challenge: Digest, factor: F.Presented, now: int)
    requires r !in w.requests
    ensures var n := Next(w, Present(r, challenge, factor, now));
            var (factors, answer) := F.Do(w.factors, F.Redeem(challenge, factor, now));
            && n.factors == factors && n.sessions == w.sessions
            && Moves(w, n, r, if answer.Redeemed? then Proved(answer.user, challenge) else Finished)
  {
  }

  lemma ConfirmMeans(w: World, r: nat, subject: F.Subject, step: int, codes: seq<Digest>, now: int)
    requires r !in w.requests
    ensures var n := Next(w, Confirm(r, subject, step, codes, now));
            var (factors, answer) := F.Do(w.factors, F.ConfirmEnrolment(subject, step, codes, now));
            && n.factors == factors && n.sessions == w.sessions
            && Moves(w, n, r, if answer.Confirmed? && answer.challenge.Some?
                              then Proved(answer.user, answer.challenge.value) else Finished)
  {
  }

  /** The events that belong to no request. */
  lemma OthersMean(w: World, e: Event)
    ensures e.BeginEnrolment? ==>
      Next(w, e) == w.(factors := F.Do(w.factors, F.StartEnrolment(e.subject, e.secret, e.now, e.member)).0)
    ensures e.RemoveFactor? ==>
      Next(w, e) == w.(factors := F.Do(w.factors, F.ClearFactor(e.actor, e.target, e.permitted, e.member)).0)
    ensures e.SetPolicy? ==> Next(w, e) == w.(required := e.policy)
  {
    hide F.Do;
  }

  /** Beginning a change of one's own password ends every session of one's own; writing it ends the request. */
  lemma ChangeMeans(w: World, r: nat, user: User, now: int)
    ensures var n := Next(w, BeginChange(r, user, now));
            if r in w.requests then n == w
            else n.factors == w.factors && Moves(w, n, r, Changing(user))
                 && EndsAll(w.sessions, n.sessions, user, PasswordChanged, now)
    ensures In(w, r, Changing(user)) ==>
              var n := Next(w, WritePassword(r)); n == w.(requests := n.requests) && Moves(w, n, r, Finished)
  {
  }

  /** A request's first transaction finds no such request, and each later one finds it where the one before left it. */
  predicate InTurn(w: World, e: Event) {
    match e
    case Accept(r, _, _) => r !in w.requests
    case Retire(r, _) => r in w.requests && w.requests[r].Accepted?
    case ReadPolicy(r) => r in w.requests && w.requests[r].Retired?
    case ReadEnrolled(r) => r in w.requests && w.requests[r].PolicyRead?
    case Issue(r, _, _, _, _) => r in w.requests && w.requests[r].Owing?
    case Mint(r, _, _, _, _) => r in w.requests && (w.requests[r].Unchallenged? || w.requests[r].Proved?)
    case Present(r, _, _, _) => r !in w.requests
    case Confirm(r, _, _, _, _) => r !in w.requests
    case BeginChange(r, _, _) => r !in w.requests
    case WritePassword(r) => r in w.requests && w.requests[r].Changing?
    case _ => true
  }

  /** A transaction out of its turn does nothing. */
  lemma OutOfTurn(w: World, e: Event)
    requires !InTurn(w, e)
    ensures Next(w, e) == w
  {
    hide F.Do, F.Enrolled, Ended, Written, EndedOf, Replaced, Used;
  }

  // --------------------------------------------------------------------- runs

  predicate Belongs(e: Event, r: nat) {
    && (e.Accept? || e.Retire? || e.ReadPolicy? || e.ReadEnrolled? || e.Issue? || e.Mint? || e.Present? || e.Confirm?
        || e.BeginChange? || e.WritePassword?)
    && e.r == r
  }

  /** No event from `i` up to `j` is the request's. */
  predicate Quiet(run: seq<Event>, i: nat, j: nat, r: nat)
    requires j <= |run|
  {
    forall k :: i <= k < j ==> !Belongs(run[k], r)
  }

  lemma OthersLeave(w: World, e: Event, r: nat)
    requires !Belongs(e, r)
    ensures r in w.requests <==> r in Next(w, e).requests
    ensures r in w.requests ==> Next(w, e).requests[r] == w.requests[r]
  {
    hide F.Do, FactorPart;
  }

  lemma {:induction false} StandsStill(run: seq<Event>, i: nat, j: nat, r: nat, phase: Phase)
    requires i <= j <= |run| && In(At(run, i), r, phase) && Quiet(run, i, j, r)
    ensures In(At(run, j), r, phase)
    decreases j
  {
    hide Next, Belongs;
    if i < j {
      StandsStill(run, i, j - 1, r, phase);
      OthersLeave(At(run, j - 1), run[j - 1], r);
    }
  }

  /** A request from the accepted password to what it still owes, one transaction after the other. */
  ghost predicate Judging(
    run: seq<Event>, a: nat, b: nat, c: nat, d: nat, r: nat, user: User, presented: Option<Digest>)
  {
    && a < b < c < d < |run| && r !in At(run, a).requests
    && run[a] == Accept(r, user, presented) && Quiet(run, a + 1, b, r)
    && run[b].Retire? && run[b].r == r && Quiet(run, b + 1, c, r)
    && run[c] == ReadPolicy(r) && Quiet(run, c + 1, d, r)
    && run[d] == ReadEnrolled(r)
  }

  /** The identifier presented, if it was live when the request retired it. */
  ghost function Gone(run: seq<Event>, b: nat, presented: Option<Digest>): Option<Digest>
    requires b < |run| && run[b].Retire?
  {
    if presented.Some? && Alive(At(run, b).sessions, presented.value, run[b].now) then presented else None
  }

  /** Where the request stands then: whoever has a factor verifies it, and otherwise the policy decides. */
  ghost function Owed(run: seq<Event>, b: nat, c: nat, d: nat, user: User, presented: Option<Digest>): Phase
    requires b < |run| && c < |run| && d < |run| && run[b].Retire?
  {
    if HasConfirmed(At(run, d), user) then Owing(user, Verify)
    else if At(run, c).required then Owing(user, Enrol)
    else Unchallenged(user, Gone(run, b, presented))
  }

  /** What a request owes is what it read: the enrolment when it looked, and otherwise the policy when it looked. */
  lemma {:induction false} JudgedOwes(
    run: seq<Event>, a: nat, b: nat, c: nat, d: nat, n: nat, r: nat, user: User, presented: Option<Digest>)
    requires Judging(run, a, b, c, d, r, user, presented) && d < n <= |run| && Quiet(run, d + 1, n, r)
    ensures In(At(run, n), r, Owed(run, b, c, d, user, presented))
  {
    hide Next, Quiet, HasConfirmed, At, Alive;
    AcceptMeans(At(run, a), r, user, presented);
    AtNext(run, a);
    StandsStill(run, a + 1, b, r, Accepted(user, presented));
    RetireMeans(At(run, b), r, run[b].now, user, presented);
    AtNext(run, b);
    assert run[b] == Retire(r, run[b].now);
    StandsStill(run, b + 1, c, r, Retired(user, Gone(run, b, presented)));
    ReadPolicyMeans(At(run, c), r, user, Gone(run, b, presented));
    AtNext(run, c);
    StandsStill(run, c + 1, d, r, PolicyRead(user, Gone(run, b, presented), At(run, c).required));
    ReadEnrolledMeans(At(run, d), r, user, Gone(run, b, presented), At(run, c).required);
    AtNext(run, d);
    StandsStill(run, d + 1, n, r, Owed(run, b, c, d, user, presented));
  }

  /** From just after event `m` the session is live until it expires, whatever happens, unless something ends it. */
  ghost predicate Lasts(run: seq<Event>, m: nat, d: Digest, row: Session)
    requires m < |run|
  {
    && AddsRow(At(run, m).sessions, At(run, m + 1).sessions, d, row)
    && forall n: nat, t: int :: m < n <= |run| && (forall k :: m < k < n ==> !Ends(run, k, d)) ==>
         (Alive(At(run, n).sessions, d, t) <==> t < row.expires)
  }

  lemma {:induction false} AddedLasts(run: seq<Event>, m: nat, d: Digest, row: Session)
    requires m < |run| && AddsRow(At(run, m).sessions, At(run, m + 1).sessions, d, row) && row.revoked == None
    ensures Lasts(run, m, d, row)
  {
    hide Next, At;
    forall n: nat, t: int | m < n <= |run| && forall k :: m < k < n ==> !Ends(run, k, d)
      ensures Alive(At(run, n).sessions, d, t) <==> t < row.expires
    {
      Unended(run, m + 1, n, d);
    }
  }

  /** The request's last transaction: a session for a member, under a fresh identifier. */
  predicate Mints(run: seq<Event>, m: nat, r: nat, digest: Digest, expires: int)
    requires m < |run|
  {
    && run[m].Mint? && run[m].r == r && run[m].digest == digest && run[m].expires == expires
    && run[m].member && run[m].now < expires && digest !in At(run, m).sessions
  }

  lemma MintLasts(run: seq<Event>, m: nat, r: nat, phase: Phase, digest: Digest, expires: int)
    requires m < |run| && Mints(run, m, r, digest, expires)
    requires In(At(run, m), r, phase) && (phase.Unchallenged? || phase.Proved?)
    ensures Lasts(run, m, digest, Session(phase.user, expires, None, None, Replacing(At(run, m), phase)))
  {
    hide Next, At, Lasts;
    MintMeans(At(run, m), r, phase, digest, expires, run[m].now, true);
    AtNext(run, m);
    assert run[m] == Mint(r, digest, expires, run[m].now, true);
    AddedLasts(run, m, digest, Session(phase.user, expires, None, None, Replacing(At(run, m), phase)));
  }

  /**
   * A right password is enough where nothing more is owed: the session is written, in place of
   * the one presented if that was live and the same user's, and lasts.
   */
  lemma {:induction false} PasswordSignsIn(
    run: seq<Event>, a: nat, b: nat, c: nat, d: nat, m: nat, r: nat, user: User, presented: Option<Digest>,
    digest: Digest, expires: int)
    requires Judging(run, a, b, c, d, r, user, presented) && d < m < |run| && Quiet(run, d + 1, m, r)
    requires !HasConfirmed(At(run, d), user) && !At(run, c).required
    requires Mints(run, m, r, digest, expires)
    ensures var gone := Gone(run, b, presented);
            Lasts(run, m, digest, Session(user, expires, None, None,
              if gone.Some? && At(run, b).sessions[gone.value].user == user then gone else None))
  {
    hide Next, At, Lasts, Judging, Quiet, HasConfirmed, Mints;
    JudgedOwes(run, a, b, c, d, m, r, user, presented);
    JudgedInOrder(run, a, b, c, d, r, user, presented);
    var gone := Gone(run, b, presented);
    MintLasts(run, m, r, Unchallenged(user, gone), digest, expires);
    RunKeeps(run, b, m);
  }

  lemma JudgedInOrder(run: seq<Event>, a: nat, b: nat, c: nat, d: nat, r: nat, user: User, presented: Option<Digest>)
    requires Judging(run, a, b, c, d, r, user, presented)
    ensures a < b < c < d < |run| && run[b].Retire?
  {
    hide At;
  }

  /** Whoever owes a factor gets a challenge of their own, and no session. */
  lemma {:induction false} OwingIsChallenged(
    run: seq<Event>, a: nat, b: nat, c: nat, d: nat, m: nat, r: nat, user: User, presented: Option<Digest>,
    digest: Digest, expires: int, now: int)
    requires Judging(run, a, b, c, d, r, user, presented) && d < m < |run| && Quiet(run, d + 1, m, r)
    requires HasConfirmed(At(run, d), user) || At(run, c).required
    requires run[m] == Issue(r, digest, expires, now, true) && now < expires
    requires digest !in At(run, m).factors.challenges
    ensures FO.Holds(At(run, m + 1).factors, digest, user, now)
    ensures At(run, m + 1).sessions == At(run, m).sessions
    ensures In(At(run, m), r, Owing(user, if HasConfirmed(At(run, d), user) then Verify else Enrol))
  {
    hide Next, At, Judging, Quiet, HasConfirmed, F.Do;
    JudgedOwes(run, a, b, c, d, m, r, user, presented);
    var demand := if HasConfirmed(At(run, d), user) then Verify else Enrol;
    IssueMeans(At(run, m), r, user, demand, digest, expires, now, true);
    AtNext(run, m);
    FO.StartMeans(At(run, m).factors, user, digest, expires, now, true);
  }

  /** A good factor with a live challenge signs its user in. */
  lemma {:induction false} FactorSignsIn(
    run: seq<Event>, p: nat, m: nat, r: nat, user: User, challenge: Digest, factor: F.Presented, now: int,
    digest: Digest, expires: int)
    requires p < m < |run| && run[p] == Present(r, challenge, factor, now) && r !in At(run, p).requests
    requires FO.Holds(At(run, p).factors, challenge, user, now) && HasConfirmed(At(run, p), user)
    requires FO.Good(At(run, p).factors, user, factor) && (factor.Totp? ==> factor.step > 0)
    requires Quiet(run, p + 1, m, r) && Mints(run, m, r, digest, expires)
    ensures Lasts(run, m, digest, Session(user, expires, None, None, None))
  {
    hide Next, At, Lasts, Quiet, F.Do, FO.UsesUp, FO.OthersUntouched, Mints;
    PresentMeans(At(run, p), r, challenge, factor, now);
    FO.RedeemMeans(At(run, p).factors, challenge, factor, now, user);
    AtNext(run, p);
    StandsStill(run, p + 1, m, r, Proved(user, challenge));
    MintLasts(run, m, r, Proved(user, challenge), digest, expires);
  }

  /** So does proving a pending secret, for whoever had to enrol. */
  lemma {:induction false} EnrolmentSignsIn(
    run: seq<Event>, p: nat, m: nat, r: nat, user: User, challenge: Digest, step: int, codes: seq<Digest>, now: int,
    digest: Digest, expires: int)
    requires p < m < |run| && run[p] == Confirm(r, F.ByChallenge(challenge), step, codes, now)
    requires r !in At(run, p).requests && FO.Holds(At(run, p).factors, challenge, user, now)
    requires user in At(run, p).factors.enrolments && !HasConfirmed(At(run, p), user)
    requires step > 0 && forall i, j :: 0 <= i < j < |codes| ==> codes[i] != codes[j]
    requires Quiet(run, p + 1, m, r) && Mints(run, m, r, digest, expires)
    ensures HasConfirmed(At(run, p + 1), user)
    ensures Lasts(run, m, digest, Session(user, expires, None, None, None))
  {
    hide Next, At, Lasts, Quiet, F.Do, FO.UsesUp, FO.OthersUntouched, Mints;
    ConfirmMeans(At(run, p), r, F.ByChallenge(challenge), step, codes, now);
    FO.ConfirmMeans(At(run, p).factors, F.ByChallenge(challenge), step, codes, now, user);
    AtNext(run, p);
    StandsStill(run, p + 1, m, r, Proved(user, challenge));
    MintLasts(run, m, r, Proved(user, challenge), digest, expires);
  }
}
