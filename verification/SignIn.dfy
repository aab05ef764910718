/** The session table as its statements change it, and a sign-in from first to last. */
module SignIn {
  import opened Wrappers
  import opened FactorSpec
  import opened SessionSpec
  import opened TwoFactor

  class SessionStore {
    var rows: Sessions

    constructor ()
      ensures rows == map[]
    {
      rows := map[];
    }

    /** True when the row was written; false is an exception. */
    method WriteSession(digest: Digest, user: User, expires: int, from: Option<Digest>, now: int, member: bool)
      returns (written: bool)
      modifies this
      ensures written <==> Written(old(rows), digest, user, expires, from, now, member).Some?
      ensures rows == if written then Written(old(rows), digest, user, expires, from, now, member).value else old(rows)
    {
      if !member || digest in rows || expires <= now || (from.Some? && from.value !in rows) {
        return false;
      }
      rows := rows[digest := Session(user, expires, None, None, from)];
      written := true;
    }

    method UseSessionToken(digest: Digest, now: int) returns (found: Option<Session>)
      modifies this
      ensures rows == Used(old(rows), digest, now)
      ensures found == if Live(old(rows), digest, now) then Some(rows[digest]) else None
    {
      if digest !in rows || rows[digest].revoked.Some? || rows[digest].expires <= now {
        return None;
      }
      rows := rows[digest := rows[digest].(lastSeen := Some(now))];
      found := Some(rows[digest]);
    }

    /** The session as it is left, or None when nothing was live to end. */
    method RevokeSessionByToken(digest: Digest, reason: Reason, now: int) returns (ended: Option<Session>)
      modifies this
      ensures rows == Ended(old(rows), digest, reason, now)
      ensures ended == if Live(old(rows), digest, now) then Some(rows[digest]) else None
    {
      if digest !in rows || rows[digest].revoked.Some? || rows[digest].expires <= now {
        return None;
      }
      rows := rows[digest := rows[digest].(revoked := Some(reason))];
      ended := Some(rows[digest]);
    }

    /** Both halves or neither: a refused insert puts the ended row back. */
    method ReplaceSession(token: Digest, digest: Digest, expires: int, reason: Reason, now: int, member: bool)
      returns (started: Option<Session>)
      modifies this
      ensures started.Some? <==> Replaced(old(rows), token, digest, expires, reason, now, member).Some?
      ensures started.None? ==> rows == old(rows)
      ensures started.Some? ==>
        && Some(rows) == Replaced(old(rows), token, digest, expires, reason, now, member)
        && rows[digest] == started.value
    {
      var before := rows;
      var ended := RevokeSessionByToken(token, reason, now);
      if ended.None? {
        return None;
      }
      var written := WriteSession(digest, ended.value.user, expires, Some(token), now, member);
      if !written {
        rows := before;
        return None;
      }
      started := Some(rows[digest]);
    }

    method RevokeSessionsOfUser(user: User, reason: Reason, now: int) returns (ended: nat)
      modifies this
      ensures rows == EndedOf(old(rows), user, reason, now)
      ensures ended == |LiveOf(old(rows), user, now)|
    {
      var live := set d | d in rows && rows[d].user == user && rows[d].revoked.None? && now < rows[d].expires;
      assert live == LiveOf(rows, user, now);
      rows := map d | d in rows :: if d in live then rows[d].(revoked := Some(reason)) else rows[d];
      ended := |live|;
    }
  }

  datatype Credential =
    | UnknownAccount
    | Disabled
    | NoPassword
    | Mismatch
    | Match(user: User)

  datatype Outcome =
    | Rejected(credential: Credential)
    | Challenged(demand: Demand)
    | SignedIn(session: Session)
    | Threw

  class Authentication {
    const factors: TwoFactorStore
    const sessions: SessionStore
    var required: bool

    constructor (factors: TwoFactorStore, sessions: SessionStore)
      ensures this.factors == factors && this.sessions == sessions && !required
    {
      this.factors, this.sessions, required := factors, sessions, false;
    }

    /** What the tables hold; no other request is under way. */
    ghost function Alone(): World
      reads this, factors, sessions
    {
      World(factors.State(), sessions.rows, required, map[])
    }

    method DemandFor(user: User) returns (demand: Demand)
      ensures demand == SecondFactorDemand(required, Enrolled(factors.State(), user))
    {
      var enrolled := user in factors.enrolments && factors.enrolments[user].confirmed;
      demand := if enrolled then Verify else if required then Enrol else Nothing;
    }

    /**
     * From a judged password to a session or a challenge. `token` and `challenge` are the digests of
     * the identifiers this call mints; the instants are those of its statements.
     */
    method SignIn(
      credential: Credential, presented: Option<Digest>, token: Digest, expires: int,
      challenge: Digest, challengeExpires: int, retiredAt: int, startedAt: int, member: bool)
      returns (outcome: Outcome)
      modifies factors, sessions
      ensures !credential.Match? ==>
        && outcome == Rejected(credential)
        && factors.State() == old(factors.State()) && sessions.rows == old(sessions.rows)
      ensures credential.Match? ==>
        var owing := Judged(old(Alone()), credential.user, presented, retiredAt);
        var end := Next(owing, if Standing(owing).Owing? then Issue(0, challenge, challengeExpires, startedAt, member)
                               else Mint(0, token, expires, startedAt, member));
        && factors.State() == end.factors && sessions.rows == end.sessions
        && outcome == OutcomeOf(owing, end, token)
    {
      if !credential.Match? {
        return Rejected(credential);
      }
      hide Next, Judged, Ended, Written, Live;
      JudgedIs(Alone(), credential.user, presented, retiredAt);
      ghost var owing := Judged(Alone(), credential.user, presented, retiredAt);
      LastIs(owing, token, expires, challenge, challengeExpires, startedAt, member);
      var user := credential.user;
      var ended: Option<(Digest, User)> := None;
      if presented.Some? {
        var row := sessions.RevokeSessionByToken(presented.value, WasRotated, retiredAt);
        if row.Some? {
          ended := Some((presented.value, row.value.user));
        }
      }
      var demand := DemandFor(user);
      if demand != Nothing {
        var answer := factors.StartChallenge(user, challenge, challengeExpires, startedAt, member);
        return if answer.Started? then Challenged(demand) else Threw;
      }
      var from := if ended.Some? && ended.value.1 == user then Some(ended.value.0) else None;
      var written := sessions.WriteSession(token, user, expires, from, startedAt, member);
      outcome := if written then SignedIn(sessions.rows[token]) else Threw;
    }
  }

  // ------------------------------------------------------------ specification

  /** The world once the password was accepted, the presented identifier retired and the demand read. */
  ghost function Judged(w: World, user: User, presented: Option<Digest>, retiredAt: int): World {
    Next(Next(Next(Next(w, Accept(0, user, presented)), Retire(0, retiredAt)), ReadPolicy(0)), ReadEnrolled(0))
  }

  ghost function Standing(w: World): Phase {
    if 0 in w.requests then w.requests[0] else Finished
  }

  /** A session if nothing was owed, a challenge if something was, unless the last statement failed. */
  ghost function OutcomeOf(owing: World, end: World, token: Digest): Outcome {
    match Standing(owing)
    case Owing(_, demand) => if end.factors != owing.factors then Challenged(demand) else Threw
    case _ =>
      if end.sessions != owing.sessions && token in end.sessions then SignedIn(end.sessions[token]) else Threw
  }

  lemma JudgedIs(w: World, user: User, presented: Option<Digest>, retiredAt: int)
    requires w.requests == map[]
    ensures var judged := Judged(w, user, presented, retiredAt);
            var live := presented.Some? && Live(w.sessions, presented.value, retiredAt);
            var demand := SecondFactorDemand(w.required, Enrolled(w.factors, user));
            && judged.factors == w.factors && judged.required == w.required
            && judged.sessions
                 == (if live then Ended(w.sessions, presented.value, WasRotated, retiredAt) else w.sessions)
            && 0 in judged.requests
            && judged.requests[0] == if demand == Nothing then Unchallenged(user, if live then presented else None)
                                     else Owing(user, demand)
  {
    var a := Next(w, Accept(0, user, presented));
    var b := Next(a, Retire(0, retiredAt));
    var live := presented.Some? && Live(w.sessions, presented.value, retiredAt);
    assert In(b, 0, Retired(user, if live then presented else None));
    var c := Next(b, ReadPolicy(0));
    assert c.requests[0].PolicyRead?;
  }

  /** Which table the last statement changes, and how. */
  lemma LastIs(
    w: World, token: Digest, expires: int, challenge: Digest, challengeExpires: int, now: int, member: bool)
    requires 0 in w.requests
    ensures var phase := w.requests[0];
            phase.Owing? ==>
              var end := Next(w, Issue(0, challenge, challengeExpires, now, member));
              && end.sessions == w.sessions
              && end.factors == StartedChallenge(w.factors, phase.user, challenge, challengeExpires, now, member).0
    ensures var phase := w.requests[0];
            phase.Unchallenged? ==>
              var end := Next(w, Mint(0, token, expires, now, member));
              var rows := Written(w.sessions, token, phase.user, expires, MintedFrom(w, phase), now, member);
              && end.factors == w.factors
              && end.sessions == (if rows.Some? then rows.value else w.sessions)
              && (rows.Some? ==> token !in w.sessions && token in rows.value)
    ensures var phase := w.requests[0];
            phase.Owing? ==>
              var r := StartedChallenge(w.factors, phase.user, challenge, challengeExpires, now, member);
              r.1.Started? <==> r.0 != w.factors
  {
  }

  /** The presented identifier's row ended, if it was live; every other row as it was. */
  function RetiredRows(rows: Sessions, presented: Option<Digest>, at: int): Sessions {
    map d | d in rows ::
      if presented == Some(d) && rows[d].revoked == None && at < rows[d].expires
      then Session(rows[d].user, rows[d].expires, rows[d].lastSeen, Some(WasRotated), rows[d].rotatedFrom)
      else rows[d]
  }

  /** The identifier a session may name as the one it replaces: presented, live, and the same user's. */
  function Replaceable(rows: Sessions, user: User, presented: Option<Digest>, at: int): Option<Digest> {
    if presented.Some? && presented.value in rows && rows[presented.value].revoked == None
       && at < rows[presented.value].expires && rows[presented.value].user == user
    then presented else None
  }

  /**
   * What a sign-in comes to after a right password, from the rows it started with. With a
   * confirmed factor, or none but a policy that asks for one, a challenge and no session;
   * otherwise a session. A statement the tables refuse is an exception, and by then the
   * presented identifier is gone.
   */
  lemma {:induction false} SignInMeans(
    w: World, user: User, presented: Option<Digest>, token: Digest, expires: int,
    challenge: Digest, challengeExpires: int, retiredAt: int, now: int, member: bool)
    requires w.requests == map[]
    ensures var owing := Judged(w, user, presented, retiredAt);
            var end := Next(owing, if Standing(owing).Owing? then Issue(0, challenge, challengeExpires, now, member)
                                   else Mint(0, token, expires, now, member));
            var outcome := OutcomeOf(owing, end, token);
            var confirmed := user in w.factors.enrolments && w.factors.enrolments[user].confirmed;
            var retired := RetiredRows(w.sessions, presented, retiredAt);
            var row := Session(user, expires, None, None, Replaceable(w.sessions, user, presented, retiredAt));
            if confirmed || w.required then
              && end.sessions == retired && end.factors.enrolments == w.factors.enrolments
              && end.factors.codes == w.factors.codes
              && if member && challenge !in w.factors.challenges && now < challengeExpires then
                   && outcome == Challenged(if confirmed then Verify else Enrol)
                   && end.factors.challenges
                        == w.factors.challenges[challenge := Challenge(user, challengeExpires, false)]
                 else outcome == Threw && end.factors == w.factors
            else
              && end.factors == w.factors
              && if member && token !in w.sessions && now < expires
                 then outcome == SignedIn(row) && end.sessions == retired[token := row]
                 else outcome == Threw && end.sessions == retired
  {
    hide Judged, Next;
    JudgedIs(w, user, presented, retiredAt);
    var owing := Judged(w, user, presented, retiredAt);
    LastIs(owing, token, expires, challenge, challengeExpires, now, member);
    assert owing.sessions == RetiredRows(w.sessions, presented, retiredAt);
    assert owing.sessions.Keys == w.sessions.Keys;
    var phase := owing.requests[0];
    if phase.Unchallenged? {
      assert MintedFrom(owing, phase) == Replaceable(w.sessions, user, presented, retiredAt);
    }
  }
}
