/** Sessions, and sign-ins as requests whose transactions interleave. */
module SessionSpec {
  import opened Wrappers
  import opened FactorSpec

  datatype Reason = SignedOut | WasRotated | PrivilegeChange | WasRevoked | PasswordChanged

  datatype Session = Session(
    user: User, expires: int, lastSeen: Option<int>, revoked: Option<Reason>, rotatedFrom: Option<Digest>)

  /** Rows by the digest of their identifier. */
  type Sessions = map<Digest, Session>

  predicate Live(s: Sessions, digest: Digest, now: int) {
    digest in s && s[digest].revoked.None? && now < s[digest].expires
  }

  // --------------------------------------------------------------- statements

  /** The one insert; None when a constraint or the membership refuses it. */
  function Written(s: Sessions, digest: Digest, user: User, expires: int, from: Option<Digest>, now: int, member: bool)
    : Option<Sessions>
  {
    if !member || digest in s || expires <= now || (from.Some? && from.value !in s) then None
    else Some(s[digest := Session(user, expires, None, None, from)])
  }

  function End(row: Session, reason: Reason): Session {
    row.(revoked := Some(reason))
  }

  /** The guarded update that ends one session, if it is live. */
  function Ended(s: Sessions, digest: Digest, reason: Reason, now: int): Sessions {
    if Live(s, digest, now) then s[digest := End(s[digest], reason)] else s
  }

  function EndedOf(s: Sessions, user: User, reason: Reason, now: int): Sessions {
    map d | d in s :: if s[d].user == user && Live(s, d, now) then End(s[d], reason) else s[d]
  }

  function LiveOf(s: Sessions, user: User, now: int): set<Digest> {
    set d | d in s && s[d].user == user && Live(s, d, now)
  }

  function Used(s: Sessions, digest: Digest, now: int): Sessions {
    if Live(s, digest, now) then s[digest := s[digest].(lastSeen := Some(now))] else s
  }

  /** Rotation in one transaction: the old identifier ends and the new one is written, or neither. */
  function Replaced(
    s: Sessions, token: Digest, digest: Digest, expires: int, reason: Reason, now: int, member: bool)
    : Option<Sessions>
  {
    if !Live(s, token, now) then None
    else Written(Ended(s, token, reason, now), digest, s[token].user, expires, Some(token), now, member)
  }

  // ----------------------------------------------------------------- requests

  datatype Demand = Nothing | Verify | Enrol

  /** What somebody whose password was right still owes. */
  function SecondFactorDemand(policyRequires: bool, enrolled: bool): Demand {
    if enrolled then Verify else if policyRequires then Enrol else Nothing
  }

  /** Where a request stands between two of its transactions. */
  datatype Phase =
    | Accepted(user: User, presented: Option<Digest>)
    | Retired(user: User, ended: Option<Digest>)
    | PolicyRead(user: User, ended: Option<Digest>, required: bool)
    | Unchallenged(user: User, ended: Option<Digest>)
    | Owing(user: User, demand: Demand)
    | Proved(user: User, challenge: Digest)
    | Changing(user: User)
    | Finished

  datatype World = World(factors: Factors, sessions: Sessions, required: bool, requests: map<nat, Phase>)

  /** One committed transaction, by the request `r` where it belongs to one. */
  datatype Event =
    | Accept(r: nat, user: User, presented: Option<Digest>)
    | Retire(r: nat, now: int)
    | ReadPolicy(r: nat)
    | ReadEnrolled(r: nat)
    | Issue(r: nat, digest: Digest, expires: int, now: int, member: bool)
    | Mint(r: nat, digest: Digest, expires: int, now: int, member: bool)
    | Present(r: nat, challenge: Digest, factor: Presented, now: int)
    | Confirm(r: nat, subject: Subject, step: int, codes: seq<Digest>, now: int)
    | BeginEnrolment(subject: Subject, secret: Secret, now: int, member: bool)
    | RemoveFactor(actor: User, target: User, permitted: bool, member: bool)
    | SetPolicy(policy: bool)
    | Rotate(token: Digest, digest: Digest, expires: int, reason: Reason, now: int, member: bool)
    | EndOne(token: Digest, reason: Reason, now: int)
    | EndAll(user: User, reason: Reason, now: int)
    | BeginChange(r: nat, user: User, now: int)
    | WritePassword(r: nat)
    | Use(token: Digest, now: int)

  const BLANK := World(EMPTY, map[], false, map[])

  predicate In(w: World, r: nat, phase: Phase) {
    r in w.requests && w.requests[r] == phase
  }

  function Enter(w: World, r: nat, phase: Phase): World {
    w.(requests := w.requests[r := phase])
  }

  /** The second-factor transaction an event runs, if it runs one. */
  function FactorPart(w: World, e: Event): Option<Transaction> {
    match e
    case Issue(r, digest, expires, now, member) =>
      if r in w.requests && w.requests[r].Owing?
      then Some(StartChallenge(w.requests[r].user, digest, expires, now, member)) else None
    case Present(r, challenge, factor, now) =>
      if r in w.requests then None else Some(Redeem(challenge, factor, now))
    case Confirm(r, subject, step, codes, now) =>
      if r in w.requests then None else Some(ConfirmEnrolment(subject, step, codes, now))
    case BeginEnrolment(subject, secret, now, member) => Some(StartEnrolment(subject, secret, now, member))
    case RemoveFactor(actor, target, permitted, member) => Some(ClearFactor(actor, target, permitted, member))
    case _ => None
  }

  /** A request whose challenge was just spent may mint; any other is over. */
  function AfterFactor(answer: Answer, challenge: Option<Digest>): Phase {
    match answer
    case Redeemed(user, _) => if challenge.Some? then Proved(user, challenge.value) else Finished
    case Confirmed(user, spent) => if spent.Some? then Proved(user, spent.value) else Finished
    case _ => Finished
  }

  function MintedFrom(w: World, phase: Phase): Option<Digest> {
    match phase
    case Unchallenged(user, ended) =>
      if ended.Some? && ended.value in w.sessions && w.sessions[ended.value].user == user then ended else None
    case _ => None
  }

  function Next(w: World, e: Event): World {
    match e
    case Accept(r, user, presented) => if r in w.requests then w else Enter(w, r, Accepted(user, presented))
    case Retire(r, now) =>
      if r in w.requests && w.requests[r].Accepted? then
        var (user, presented) := (w.requests[r].user, w.requests[r].presented);
        if presented.Some? && Live(w.sessions, presented.value, now)
        then Enter(w.(sessions := Ended(w.sessions, presented.value, WasRotated, now)), r, Retired(user, presented))
        else Enter(w, r, Retired(user, None))
      else w
    case ReadPolicy(r) =>
      if r in w.requests && w.requests[r].Retired?
      then Enter(w, r, PolicyRead(w.requests[r].user, w.requests[r].ended, w.required)) else w
    case ReadEnrolled(r) =>
      if r in w.requests && w.requests[r].PolicyRead? then
        var p := w.requests[r];
        var demand := SecondFactorDemand(p.required, Enrolled(w.factors, p.user));
        Enter(w, r, if demand == Nothing then Unchallenged(p.user, p.ended) else Owing(p.user, demand))
      else w
    case Issue(r, _, _, _, _) =>
      var tx := FactorPart(w, e);
      if tx.None? then w else Enter(w.(factors := Do(w.factors, tx.value).0), r, Finished)
    case Mint(r, digest, expires, now, member) =>
      if r in w.requests && (w.requests[r].Unchallenged? || w.requests[r].Proved?) then
        var p := w.requests[r];
        var rows := Written(w.sessions, digest, p.user, expires, MintedFrom(w, p), now, member);
        Enter(if rows.Some? then w.(sessions := rows.value) else w, r, Finished)
      else w
    case Present(r, challenge, _, _) =>
      var tx := FactorPart(w, e);
      if tx.None? then w
      else
        var (factors, answer) := Do(w.factors, tx.value);
        Enter(w.(factors := factors), r, AfterFactor(answer, Some(challenge)))
    case Confirm(r, _, _, _, _) =>
      var tx := FactorPart(w, e);
      if tx.None? then w
      else
        var (factors, answer) := Do(w.factors, tx.value);
        Enter(w.(factors := factors), r, AfterFactor(answer, None))
    case BeginEnrolment(subject, secret, now, member) =>
      w.(factors := Do(w.factors, StartEnrolment(subject, secret, now, member)).0)
    case RemoveFactor(actor, target, permitted, member) =>
      w.(factors := Do(w.factors, ClearFactor(actor, target, permitted, member)).0)
    case SetPolicy(policy) => w.(required := policy)
    case Rotate(token, digest, expires, reason, now, member) =>
      var rows := Replaced(w.sessions, token, digest, expires, reason, now, member);
      if rows.Some? then w.(sessions := rows.value) else w
    case EndOne(token, reason, now) => w.(sessions := Ended(w.sessions, token, reason, now))
    case EndAll(user, reason, now) => w.(sessions := EndedOf(w.sessions, user, reason, now))
    case BeginChange(r, user, now) =>
      if r in w.requests then w
      else Enter(w.(sessions := EndedOf(w.sessions, user, PasswordChanged, now)), r, Changing(user))
    case WritePassword(r) =>
      if r in w.requests && w.requests[r].Changing? then Enter(w, r, Finished) else w
    case Use(token, now) => w.(sessions := Used(w.sessions, token, now))
  }

  function At(run: seq<Event>, n: nat): World
    requires n <= |run|
  {
    if n == 0 then BLANK else Next(At(run, n - 1), run[n - 1])
  }
}
