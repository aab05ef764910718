/** Where sessions come from and how they end, over every interleaving of requests. */
module SessionRuns {
  import opened Wrappers
  import F = FactorSpec
  import FR = FactorRuns
  import opened SessionSpec

  type Digest = F.Digest
  type User = F.User

  // ------------------------------------------------------ a session, once ended

  /** A row keeps its holder, its expiry and its place in a chain, and never loses its ending. */
  ghost predicate Kept(s: Sessions, t: Sessions) {
    forall d <- s ::
      && d in t && t[d].user == s[d].user && t[d].expires == s[d].expires && t[d].rotatedFrom == s[d].rotatedFrom
      && (s[d].revoked.Some? ==> t[d].revoked == s[d].revoked)
  }

  lemma NextKeeps(w: World, e: Event)
    ensures Kept(w.sessions, Next(w, e).sessions)
  {
    hide F.Do, FactorPart, F.Enrolled;
  }

  lemma {:induction false} RunKeeps(run: seq<Event>, i: nat, j: nat)
    requires i <= j <= |run|
    ensures Kept(At(run, i).sessions, At(run, j).sessions)
    decreases j
  {
    hide Next;
    if i < j {
      RunKeeps(run, i, j - 1);
      NextKeeps(At(run, j - 1), run[j - 1]);
    }
  }

  /** No ended session becomes live again, whatever happens afterwards and however late one looks. */
  lemma {:induction false} EndedStaysEnded(run: seq<Event>, i: nat, j: nat, d: Digest, now: int, later: int)
    requires i <= j <= |run| && now <= later
    requires d in At(run, i).sessions && !Live(At(run, i).sessions, d, now)
    ensures d in At(run, j).sessions && !Live(At(run, j).sessions, d, later)
  {
    RunKeeps(run, i, j);
  }

  // ------------------------------------------------------------------- chains

  /** The retired session a request may name as the one its own replaces. */
  function Holds(phase: Phase): Option<Digest> {
    match phase
    case Retired(_, ended) => ended
    case PolicyRead(_, ended, _) => ended
    case Unchallenged(_, ended) => ended
    case _ => None
  }

  ghost predicate ClaimsNothing(w: World, d: Digest) {
    forall s <- w.sessions :: w.sessions[s].rotatedFrom != Some(d)
  }

  ghost predicate Predecessors(w: World) {
    forall s <- w.sessions :: w.sessions[s].rotatedFrom.Some? ==>
      var p := w.sessions[s].rotatedFrom.value;
      p in w.sessions && w.sessions[p].revoked.Some? && w.sessions[p].user == w.sessions[s].user && p != s
  }

  ghost predicate OneSuccessor(w: World) {
    forall s <- w.sessions, t <- w.sessions ::
      w.sessions[s].rotatedFrom.Some? && w.sessions[s].rotatedFrom == w.sessions[t].rotatedFrom ==> s == t
  }

  ghost predicate HeldAreEnded(w: World) {
    forall r <- w.requests :: Holds(w.requests[r]).Some? ==>
      var d := Holds(w.requests[r]).value;
      d in w.sessions && w.sessions[d].revoked.Some? && ClaimsNothing(w, d)
  }

  ghost predicate HeldOnce(w: World) {
    forall r <- w.requests, q <- w.requests ::
      Holds(w.requests[r]).Some? && Holds(w.requests[r]) == Holds(w.requests[q]) ==> r == q
  }

  ghost predicate Ordered(w: World) {
    Predecessors(w) && OneSuccessor(w) && HeldAreEnded(w) && HeldOnce(w)
  }

  /** One session more, standing after `from`, which nobody may claim any longer. */
  ghost predicate AddsOne(w: World, n: World, d: Digest, from: Option<Digest>) {
    && d !in w.sessions && n.sessions.Keys == w.sessions.Keys + {d} && Kept(w.sessions, n.sessions)
    && n.sessions[d].rotatedFrom == from
    && (from.Some? ==>
         && from.value in w.sessions && ClaimsNothing(w, from.value)
         && n.sessions[from.value].revoked.Some? && n.sessions[from.value].user == n.sessions[d].user)
    && forall q <- n.requests :: Holds(n.requests[q]).Some? ==>
         q in w.requests && Holds(n.requests[q]) == Holds(w.requests[q]) && Holds(n.requests[q]) != from
  }

  lemma AddsOneOrdered(w: World, n: World, d: Digest, from: Option<Digest>)
    requires Ordered(w) && AddsOne(w, n, d, from)
    ensures Ordered(n)
  {
    assert forall p :: ClaimsNothing(w, p) && Some(p) != from ==> ClaimsNothing(n, p);
  }

  /** A live session ended, and one request more that may claim it. */
  ghost predicate HoldsOneMore(w: World, n: World, r: nat, d: Digest) {
    && n.sessions.Keys == w.sessions.Keys && Kept(w.sessions, n.sessions)
    && d in w.sessions && w.sessions[d].revoked.None? && n.sessions[d].revoked.Some?
    && forall q <- n.requests :: Holds(n.requests[q]).Some? ==>
         if q == r then Holds(n.requests[q]) == Some(d)
         else q in w.requests && Holds(n.requests[q]) == Holds(w.requests[q])
  }

  lemma HoldsOneMoreOrdered(w: World, n: World, r: nat, d: Digest)
    requires Ordered(w) && HoldsOneMore(w, n, r, d)
    ensures Ordered(n)
  {
    assert ClaimsNothing(w, d);
    assert forall p :: ClaimsNothing(w, p) ==> ClaimsNothing(n, p);
  }

  lemma RetireShape(w: World, r: nat, now: int)
    ensures var n := Next(w, Retire(r, now));
            SameLinks(w, n) || (r in w.requests && w.requests[r].Accepted? && w.requests[r].presented.Some?
              && HoldsOneMore(w, n, r, w.requests[r].presented.value))
  {
  }

  lemma RetireOrdered(w: World, r: nat, now: int)
    requires Ordered(w)
    ensures Ordered(Next(w, Retire(r, now)))
  {
    hide Next, Ordered, SameLinks, HoldsOneMore;
    var n := Next(w, Retire(r, now));
    RetireShape(w, r, now);
    if SameLinks(w, n) {
      SameLinksOrdered(w, n);
    } else {
      HoldsOneMoreOrdered(w, n, r, w.requests[r].presented.value);
    }
  }

  lemma MintShape(w: World, e: Event)
    requires Ordered(w) && e.Mint?
    ensures var n := Next(w, e);
            SameLinks(w, n) || (e.r in w.requests && AddsOne(w, n, e.digest, MintedFrom(w, w.requests[e.r])))
  {
    var n := Next(w, e);
    if e.r in w.requests && n.sessions != w.sessions {
      var from := MintedFrom(w, w.requests[e.r]);
      assert from.Some? ==> from == Holds(w.requests[e.r]);
    }
  }

  lemma MintOrdered(w: World, e: Event)
    requires Ordered(w) && e.Mint?
    ensures Ordered(Next(w, e))
  {
    hide Next, Ordered, SameLinks, AddsOne;
    var n := Next(w, e);
    MintShape(w, e);
    if SameLinks(w, n) {
      SameLinksOrdered(w, n);
    } else {
      AddsOneOrdered(w, n, e.digest, MintedFrom(w, w.requests[e.r]));
    }
  }

  lemma ReplacedRows(s: Sessions, token: Digest, digest: Digest, expires: int, reason: Reason, now: int, member: bool)
    requires Replaced(s, token, digest, expires, reason, now, member).Some?
    ensures var t := Replaced(s, token, digest, expires, reason, now, member).value;
            && digest !in s && t.Keys == s.Keys + {digest} && Kept(s, t)
            && token in s && s[token].revoked.None? && t[token].revoked.Some?
            && t[digest].rotatedFrom == Some(token) && t[digest].user == t[token].user
  {
  }

  lemma RotateIs(w: World, e: Event)
    requires e.Rotate?
    ensures var rows := Replaced(w.sessions, e.token, e.digest, e.expires, e.reason, e.now, e.member);
            Next(w, e) == if rows.Some? then w.(sessions := rows.value) else w
  {
  }

  lemma RotateShape(w: World, e: Event)
    requires Ordered(w) && e.Rotate?
    ensures SameLinks(w, Next(w, e)) || AddsOne(w, Next(w, e), e.digest, Some(e.token))
  {
    hide Next, Replaced;
    RotateIs(w, e);
    if Replaced(w.sessions, e.token, e.digest, e.expires, e.reason, e.now, e.member).Some? {
      ReplacedRows(w.sessions, e.token, e.digest, e.expires, e.reason, e.now, e.member);
      assert ClaimsNothing(w, e.token);
    }
  }

  lemma RotateOrdered(w: World, e: Event)
    requires Ordered(w) && e.Rotate?
    ensures Ordered(Next(w, e))
  {
    hide Next, Ordered, SameLinks, AddsOne;
    var n := Next(w, e);
    RotateShape(w, e);
    if SameLinks(w, n) {
      SameLinksOrdered(w, n);
    } else {
      AddsOneOrdered(w, n, e.digest, Some(e.token));
    }
  }

  /** The same links between sessions, no new claim on a retired one. */
  ghost predicate SameLinks(w: World, n: World) {
    && n.sessions.Keys == w.sessions.Keys && Kept(w.sessions, n.sessions)
    && forall q <- n.requests :: Holds(n.requests[q]).Some? ==>
         q in w.requests && Holds(n.requests[q]) == Holds(w.requests[q])
  }

  lemma OthersShape(w: World, e: Event)
    requires !e.Retire? && !e.Mint? && !e.Rotate?
    ensures SameLinks(w, Next(w, e))
  {
    hide F.Do, FactorPart, F.Enrolled;
  }

  lemma SameLinksOrdered(w: World, n: World)
    requires Ordered(w) && SameLinks(w, n)
    ensures Ordered(n)
  {
    assert forall d :: ClaimsNothing(w, d) ==> ClaimsNothing(n, d);
  }

  lemma {:induction false} OthersOrdered(w: World, e: Event)
    requires Ordered(w) && !e.Retire? && !e.Mint? && !e.Rotate?
    ensures Ordered(Next(w, e))
  {
    hide Next, Ordered, SameLinks;
    OthersShape(w, e);
    SameLinksOrdered(w, Next(w, e));
  }

  lemma {:induction false} RunOrdered(run: seq<Event>, n: nat)
    requires n <= |run|
    ensures Ordered(At(run, n))
    decreases n
  {
    hide Next, Ordered;
    if n == 0 {
      BlankOrdered();
    } else {
      RunOrdered(run, n - 1);
      var w, e := At(run, n - 1), run[n - 1];
      if e.Retire? {
        RetireOrdered(w, e.r, e.now);
      } else if e.Mint? {
        MintOrdered(w, e);
      } else if e.Rotate? {
        RotateOrdered(w, e);
      } else {
        OthersOrdered(w, e);
      }
    }
  }

  lemma BlankOrdered()
    ensures Ordered(BLANK)
  {
  }

  /** Identifiers each of which was rotated from the one before it. */
  ghost predicate Chain(w: World, p: seq<Digest>) {
    && p != []
    && (forall i :: 0 <= i < |p| ==> p[i] in w.sessions)
    && forall i :: 0 < i < |p| ==> w.sessions[p[i]].rotatedFrom == Some(p[i - 1])
  }

  lemma {:induction false} ChainsAgree(w: World, p: seq<Digest>, q: seq<Digest>, i: nat)
    requires Ordered(w) && Chain(w, p) && Chain(w, q) && p[0] == q[0] && i < |p| && i < |q|
    ensures p[i] == q[i]
  {
    if i > 0 {
      ChainsAgree(w, p, q, i - 1);
    }
  }

  /** Of all the sessions descending by rotation from one, at most one has not ended. */
  lemma ChainHasOneLive(run: seq<Event>, n: nat, p: seq<Digest>, q: seq<Digest>)
    requires n <= |run| && Chain(At(run, n), p) && Chain(At(run, n), q) && p[0] == q[0]
    requires At(run, n).sessions[p[|p| - 1]].revoked.None? && At(run, n).sessions[q[|q| - 1]].revoked.None?
    ensures p == q
  {
    var w := At(run, n);
    RunOrdered(run, n);
    var (short, long) := if |p| <= |q| then (p, q) else (q, p);
    forall i | 0 <= i < |short|
      ensures p[i] == q[i]
    {
      ChainsAgree(w, p, q, i);
    }
    if |short| < |long| {
      SuccessorEnds(w, long, |short| - 1);
    }
  }

  lemma SuccessorEnds(w: World, p: seq<Digest>, i: nat)
    requires Ordered(w) && Chain(w, p) && i + 1 < |p|
    ensures w.sessions[p[i]].revoked.Some?
  {
    assert w.sessions[p[i + 1]].rotatedFrom == Some(p[i]);
  }

  // --------------------------------------------------------------- provenance

  /** Since just after `j` the request has stood where it stands at `n`. */
  ghost predicate Since(run: seq<Event>, j: nat, n: nat, r: nat, phase: Phase)
    requires n <= |run|
  {
    j < n && !In(At(run, j), r, phase) && forall m :: j < m <= n ==> In(At(run, m), r, phase)
  }

  lemma {:induction false} Entered(run: seq<Event>, n: nat, r: nat, phase: Phase) returns (j: nat)
    requires n <= |run| && In(At(run, n), r, phase)
    ensures Since(run, j, n, r, phase) && In(Next(At(run, j), run[j]), r, phase)
    decreases n
  {
    hide Next;
    assert At(run, n) == Next(At(run, n - 1), run[n - 1]);
    if In(At(run, n - 1), r, phase) {
      j := Entered(run, n - 1, r, phase);
    } else {
      j := n - 1;
    }
  }

  /** A password accepted, the presented identifier retired, no policy, no factor: in that order, each once. */
  ghost predicate OwedNothing(run: seq<Event>, i: nat, r: nat, user: User)
    requires i <= |run|
  {
    exists a, b, c, d :: 0 <= a < b < c < d < i
      && run[a].Accept? && run[a].r == r && run[a].user == user
      && run[b].Retire? && run[b].r == r
      && run[c] == ReadPolicy(r) && !At(run, c).required
      && run[d] == ReadEnrolled(r) && !F.Enrolled(At(run, d).factors, user)
  }

  /** Transaction `j` spent the challenge on the request's behalf. */
  ghost predicate SpentBy(run: seq<Event>, j: nat, r: nat, user: User, challenge: Digest)
    requires j < |run|
  {
    var tx := FactorPart(At(run, j), run[j]);
    && (run[j].Present? || run[j].Confirm?) && run[j].r == r && tx.Some?
    && var answer := F.Do(At(run, j).factors, tx.value).1;
       || (run[j].Present? && answer.Redeemed? && answer.user == user && run[j].challenge == challenge)
       || (answer.Confirmed? && answer.user == user && answer.challenge == Some(challenge))
  }

  /** The one event by which a request comes to stand where it stands, and where it stood before. */
  lemma {:induction false} Enters(w: World, e: Event, r: nat, phase: Phase)
    requires !In(w, r, phase) && In(Next(w, e), r, phase)
    ensures match phase
      case Accepted(user, presented) => e == Accept(r, user, presented)
      case Retired(user, _) =>
        e.Retire? && e.r == r && r in w.requests && w.requests[r].Accepted? && w.requests[r].user == user
      case PolicyRead(user, ended, required) =>
        e == ReadPolicy(r) && In(w, r, Retired(user, ended)) && w.required == required
      case Unchallenged(user, ended) =>
        e == ReadEnrolled(r) && In(w, r, PolicyRead(user, ended, false)) && !F.Enrolled(w.factors, user)
      case Owing(user, demand) =>
        && e == ReadEnrolled(r) && r in w.requests && w.requests[r].PolicyRead? && w.requests[r].user == user
        && (w.requests[r].required || F.Enrolled(w.factors, user))
        && demand == if F.Enrolled(w.factors, user) then Verify else Enrol
      case _ => true
  {
    hide F.Do, F.Enrolled, FactorPart;
  }

  lemma PathToRetired(run: seq<Event>, n: nat, r: nat, phase: Phase) returns (a: nat, b: nat)
    requires n <= |run| && phase.Retired? && In(At(run, n), r, phase)
    ensures a < b < n && run[a].Accept? && run[a].r == r && run[a].user == phase.user
    ensures run[b].Retire? && run[b].r == r
  {
    hide Next, At;
    b := Entered(run, n, r, phase);
    Enters(At(run, b), run[b], r, phase);
    var accepted := At(run, b).requests[r];
    a := Entered(run, b, r, accepted);
    Enters(At(run, a), run[a], r, accepted);
  }

  lemma PathToPolicy(run: seq<Event>, n: nat, r: nat, phase: Phase) returns (a: nat, b: nat, c: nat)
    requires n <= |run| && phase.PolicyRead? && In(At(run, n), r, phase)
    ensures a < b < c < n && run[a].Accept? && run[a].r == r && run[a].user == phase.user
    ensures run[b].Retire? && run[b].r == r
    ensures run[c] == ReadPolicy(r) && At(run, c).required == phase.required
  {
    hide Next, At;
    c := Entered(run, n, r, phase);
    Enters(At(run, c), run[c], r, phase);
    a, b := PathToRetired(run, c, r, Retired(phase.user, phase.ended));
  }

  lemma UnchallengedOwedNothing(run: seq<Event>, i: nat, r: nat, phase: Phase)
    requires i <= |run| && phase.Unchallenged? && In(At(run, i), r, phase)
    ensures OwedNothing(run, i, r, phase.user)
  {
    hide Next, At, F.Enrolled;
    var d := Entered(run, i, r, phase);
    Enters(At(run, d), run[d], r, phase);
    var a, b, c := PathToPolicy(run, d, r, PolicyRead(phase.user, phase.ended, false));
  }

  lemma EntersProvedBy(w: World, e: Event, r: nat, phase: Phase)
    requires phase.Proved? && !In(w, r, phase) && In(Next(w, e), r, phase)
    ensures (e.Present? || e.Confirm?) && e.r == r && FactorPart(w, e).Some?
    ensures var answer := F.Do(w.factors, FactorPart(w, e).value).1;
            || (e.Present? && answer.Redeemed? && answer.user == phase.user && e.challenge == phase.challenge)
            || (answer.Confirmed? && answer.user == phase.user && answer.challenge == Some(phase.challenge))
  {
    hide F.Do;
  }

  lemma {:induction false} EntersProved(run: seq<Event>, j: nat, r: nat, phase: Phase)
    requires j < |run| && phase.Proved? && !In(At(run, j), r, phase) && In(Next(At(run, j), run[j]), r, phase)
    ensures SpentBy(run, j, r, phase.user, phase.challenge)
  {
    hide Next, At, F.Do, FactorPart;
    EntersProvedBy(At(run, j), run[j], r, phase);
  }

  /** The request spent the challenge and has done nothing since. */
  ghost predicate Earned(run: seq<Event>, j: int, i: nat, r: nat, user: User, challenge: Digest)
    requires i <= |run|
  {
    0 <= j < i && SpentBy(run, j, r, user, challenge) && Since(run, j, i, r, Proved(user, challenge))
  }

  ghost predicate EarnedBefore(run: seq<Event>, i: nat, r: nat, user: User, challenge: Digest)
    requires i <= |run|
  {
    exists j :: Earned(run, j, i, r, user, challenge)
  }

  // the three ways a session can have come about

  ghost predicate BySignIn(run: seq<Event>, i: nat, d: Digest)
    requires i < |run|
  {
    run[i].Mint? && d in At(run, i + 1).sessions
    && OwedNothing(run, i, run[i].r, At(run, i + 1).sessions[d].user)
  }

  ghost predicate ByChallenge(run: seq<Event>, i: nat, d: Digest, challenge: Digest)
    requires i < |run|
  {
    run[i].Mint? && d in At(run, i + 1).sessions
    && EarnedBefore(run, i, run[i].r, At(run, i + 1).sessions[d].user, challenge)
  }

  ghost predicate ByRotation(run: seq<Event>, i: nat, d: Digest)
    requires i < |run|
  {
    run[i].Rotate? && d in At(run, i + 1).sessions
    && var (before, after) := (At(run, i).sessions, At(run, i + 1).sessions);
       && Live(before, run[i].token, run[i].now) && run[i].token in after
       && after[run[i].token].revoked == Some(run[i].reason)
       && after[d].rotatedFrom == Some(run[i].token) && after[d].user == before[run[i].token].user
  }

  /** The one event by which a session appears. */
  lemma {:induction false} AppearsBy(w: World, e: Event, d: Digest)
    requires d !in w.sessions && d in Next(w, e).sessions
    ensures (e.Mint? || e.Rotate?) && e.digest == d
    ensures e.Mint? ==>
      && e.r in w.requests && (w.requests[e.r].Unchallenged? || w.requests[e.r].Proved?)
      && Next(w, e).sessions[d].user == w.requests[e.r].user
      && In(Next(w, e), e.r, Finished)
  {
  }

  /** Every session there is came about in exactly one of these ways. */
  lemma SessionProvenance(run: seq<Event>, i: nat, d: Digest)
    requires i < |run| && d !in At(run, i).sessions && d in At(run, i + 1).sessions
    ensures BySignIn(run, i, d) || ByRotation(run, i, d) || exists c :: ByChallenge(run, i, d, c)
  {
    var w, e := At(run, i), run[i];
    AppearsBy(w, e, d);
    if e.Mint? && w.requests[e.r].Unchallenged? {
      UnchallengedOwedNothing(run, i, e.r, w.requests[e.r]);
    } else if e.Mint? {
      var phase := w.requests[e.r];
      var j := Entered(run, i, e.r, phase);
      EntersProved(run, j, e.r, phase);
      assert Earned(run, j, i, e.r, phase.user, phase.challenge);
      assert ByChallenge(run, i, d, phase.challenge);
    }
  }

  lemma FactorsFollow(w: World, e: Event)
    ensures Next(w, e).factors
      == if FactorPart(w, e).None? then w.factors else F.Do(w.factors, FactorPart(w, e).value).0
  {
  }

  ghost predicate ConsumedAt(run: seq<Event>, n: nat, challenge: Digest)
    requires n <= |run|
  {
    challenge in At(run, n).factors.challenges && At(run, n).factors.challenges[challenge].consumed
  }

  lemma {:induction false} ConsumedStays(run: seq<Event>, i: nat, j: nat, challenge: Digest)
    requires i <= j <= |run| && ConsumedAt(run, i, challenge)
    ensures ConsumedAt(run, j, challenge)
    decreases j
  {
    hide Next, FactorPart, F.Do;
    if i < j {
      ConsumedStays(run, i, j - 1, challenge);
      FactorsFollow(At(run, j - 1), run[j - 1]);
      if FactorPart(At(run, j - 1), run[j - 1]).Some? {
        FR.ConsumedOnce(At(run, j - 1).factors, FactorPart(At(run, j - 1), run[j - 1]).value, challenge);
      }
    }
  }

  lemma SpentWasLive(run: seq<Event>, j: nat, r: nat, user: User, challenge: Digest)
    requires j < |run| && SpentBy(run, j, r, user, challenge)
    ensures F.LiveChallenge(At(run, j).factors, challenge, run[j].now)
    ensures At(run, j).factors.challenges[challenge].user == user
    ensures ConsumedAt(run, j + 1, challenge)
    ensures r !in At(run, j).requests
  {
  }

  /** A challenge becomes at most one session. */
  lemma {:induction false} OneSessionPerChallenge(
    run: seq<Event>, i: nat, k: nat, d: Digest, e: Digest, challenge: Digest)
    requires i <= k < |run| && ByChallenge(run, i, d, challenge) && ByChallenge(run, k, e, challenge)
    requires d !in At(run, i).sessions && e !in At(run, k).sessions
    ensures i == k && d == e
  {
    hide F.Do, F.LiveChallenge;
    var u, v := At(run, i + 1).sessions[d].user, At(run, k + 1).sessions[e].user;
    var a :| Earned(run, a, i, run[i].r, u, challenge);
    var b :| Earned(run, b, k, run[k].r, v, challenge);
    SpentOnce(run, a, b, run[i].r, run[k].r, u, v, challenge);
    AppearsBy(At(run, i), run[i], d);
    AppearsBy(At(run, k), run[k], e);
    SinceCovers(run, b, k, run[k].r, Proved(v, challenge), if i < k then i + 1 else k);
  }

  lemma SinceCovers(run: seq<Event>, j: nat, n: nat, r: nat, phase: Phase, m: nat)
    requires n <= |run| && Since(run, j, n, r, phase) && j < m <= n
    ensures In(At(run, m), r, phase)
  {
  }

  lemma SpentOnce(run: seq<Event>, a: nat, b: nat, r: nat, q: nat, u: User, v: User, challenge: Digest)
    requires a < |run| && b < |run| && SpentBy(run, a, r, u, challenge) && SpentBy(run, b, q, v, challenge)
    ensures a == b && r == q
  {
    SpentWasLive(run, a, r, u, challenge);
    SpentWasLive(run, b, q, v, challenge);
    if a < b {
      ConsumedStays(run, a + 1, b, challenge);
    } else if b < a {
      ConsumedStays(run, b + 1, a, challenge);
    }
  }

  /** A password accepted and something owed, in that order: a factor to verify if one was confirmed, and one to enrol
      only where the policy asked and there was none. */
  ghost predicate OwedSomething(run: seq<Event>, i: nat, r: nat, user: User, demand: Demand)
    requires i <= |run|
  {
    exists a, b, c, d :: 0 <= a < b < c < d < i
      && run[a].Accept? && run[a].r == r && run[a].user == user
      && run[b].Retire? && run[b].r == r
      && run[c] == ReadPolicy(r)
      && run[d] == ReadEnrolled(r)
      && if F.Enrolled(At(run, d).factors, user) then demand == Verify else At(run, c).required && demand == Enrol
  }

  lemma IssuedBy(w: World, e: Event, challenge: Digest)
    requires challenge !in w.factors.challenges && challenge in Next(w, e).factors.challenges
    ensures e.Issue? && e.digest == challenge && e.r in w.requests && w.requests[e.r].Owing?
    ensures Next(w, e).factors.challenges[challenge].user == w.requests[e.r].user
  {
  }

  /** Every challenge there is was issued to somebody whose password was accepted and who owed a factor. */
  lemma ChallengeProvenance(run: seq<Event>, i: nat, challenge: Digest)
    requires i < |run| && challenge !in At(run, i).factors.challenges && challenge in At(run, i + 1).factors.challenges
    ensures run[i].Issue?
    ensures run[i].r in At(run, i).requests && At(run, i).requests[run[i].r].Owing?
    ensures OwedSomething(run, i, run[i].r, At(run, i + 1).factors.challenges[challenge].user,
                          At(run, i).requests[run[i].r].demand)
  {
    var w, e := At(run, i), run[i];
    IssuedBy(w, e, challenge);
    OwingOwedSomething(run, i, e.r, w.requests[e.r]);
  }

  lemma OwingOwedSomething(run: seq<Event>, i: nat, r: nat, phase: Phase)
    requires i <= |run| && phase.Owing? && In(At(run, i), r, phase)
    ensures OwedSomething(run, i, r, phase.user, phase.demand)
  {
    hide Next, At, F.Enrolled;
    var d := Entered(run, i, r, phase);
    Enters(At(run, d), run[d], r, phase);
    var a, b, c := PathToPolicy(run, d, r, At(run, d).requests[r]);
  }

  // -------------------------------------------- what an accepted password kills

  /** The identifier presented to a sign-in is dead once it is retired, whatever the sign-in comes to. */
  lemma PresentedIsDead(run: seq<Event>, i: nat, j: nat, later: int)
    requires i < j <= |run| && run[i].Retire?
    requires run[i].r in At(run, i).requests && At(run, i).requests[run[i].r].Accepted?
    requires At(run, i).requests[run[i].r].presented.Some? && run[i].now <= later
    ensures var d := At(run, i).requests[run[i].r].presented.value;
            Live(At(run, j).sessions, d, later) ==> MintedBetween(run, i, j, d)
  {
    var d := At(run, i).requests[run[i].r].presented.value;
    if d in At(run, i).sessions {
      assert !Live(At(run, i + 1).sessions, d, run[i].now);
      EndedStaysEnded(run, i + 1, j, d, run[i].now, later);
    } else if d in At(run, j).sessions {
      AppearedBetween(run, i, j, d);
    }
  }

  /** Only a fresh identifier that happened to be the very same could be live instead. */
  ghost predicate MintedBetween(run: seq<Event>, i: nat, j: nat, d: Digest)
    requires i <= j <= |run|
  {
    d !in At(run, i).sessions && exists k :: i <= k < j && (run[k].Mint? || run[k].Rotate?) && run[k].digest == d
  }

  lemma {:induction false} AppearedBetween(run: seq<Event>, i: nat, j: nat, d: Digest)
    requires i <= j <= |run| && d !in At(run, i).sessions && d in At(run, j).sessions
    ensures MintedBetween(run, i, j, d)
    decreases j
  {
    if d in At(run, j - 1).sessions {
      AppearedBetween(run, i, j - 1, d);
    } else {
      AppearsBy(At(run, j - 1), run[j - 1], d);
    }
  }

  /** Once a person's own password is written, every session they held when the change began is dead. */
  lemma PasswordChangeEndsSessions(run: seq<Event>, i: nat, j: nat, user: User, d: Digest, later: int)
    requires i < j < |run| && run[i].BeginChange? && run[i].user == user && run[i].r !in At(run, i).requests
    requires run[j] == WritePassword(run[i].r) && In(At(run, j), run[i].r, Changing(user))
    requires d in At(run, i).sessions && At(run, i).sessions[d].user == user && run[i].now <= later
    ensures !Live(At(run, j).sessions, d, later)
  {
    assert !Live(At(run, i + 1).sessions, d, run[i].now);
    EndedStaysEnded(run, i + 1, j, d, run[i].now, later);
  }

  // ----------------------------------------------------------- password versions

  /** Event `k` writes a new password for the user. */
  predicate Writes(run: seq<Event>, k: nat, user: User)
    requires k < |run|
  {
    run[k].WritePassword? && In(At(run, k), run[k].r, Changing(user))
  }

  /** How many passwords have been written for the user before event `n`: what a sign-in accepted there is judged by. */
  function Version(run: seq<Event>, n: nat, user: User): nat
    requires n <= |run|
  {
    if n == 0 then 0 else Version(run, n - 1, user) + (if Writes(run, n - 1, user) then 1 else 0)
  }

  lemma {:induction false} VersionGrows(run: seq<Event>, m: nat, n: nat, user: User)
    requires m <= n <= |run|
    ensures Version(run, m, user) <= Version(run, n, user)
    ensures forall j :: m <= j < n && Writes(run, j, user) ==> Version(run, m, user) < Version(run, n, user)
    decreases n
  {
    hide Writes;
    if m < n {
      VersionGrows(run, m, n - 1, user);
    }
  }

  /** Event `m` starts session `d` for the user, on a password accepted at event `a`. */
  ghost predicate SignsIn(run: seq<Event>, a: nat, m: nat, user: User, d: Digest)
    requires a < m < |run|
  {
    && run[a].Accept? && run[a].user == user && run[a].r !in At(run, a).requests
    && run[m].Mint? && run[m].r == run[a].r && run[m].digest == d
    && d !in At(run, m).sessions && d in At(run, m + 1).sessions && At(run, m + 1).sessions[d].user == user
  }

  /** Event `k` ends session `d`. */
  ghost predicate Ends(run: seq<Event>, k: nat, d: Digest)
    requires k < |run|
  {
    && d in At(run, k).sessions && At(run, k).sessions[d].revoked.None?
    && d in At(run, k + 1).sessions && At(run, k + 1).sessions[d].revoked.Some?
  }

  lemma {:induction false} Unended(run: seq<Event>, m: nat, n: nat, d: Digest)
    requires m <= n <= |run| && d in At(run, m).sessions && At(run, m).sessions[d].revoked.None?
    requires forall k :: m <= k < n ==> !Ends(run, k, d)
    ensures d in At(run, n).sessions && At(run, n).sessions[d].revoked.None?
    ensures At(run, n).sessions[d].expires == At(run, m).sessions[d].expires
    decreases n
  {
    hide Next;
    if m < n {
      Unended(run, m, n - 1, d);
      RunKeeps(run, n - 1, n);
      assert !Ends(run, n - 1, d);
    }
  }

  lemma MintedIsUnended(run: seq<Event>, a: nat, m: nat, user: User, d: Digest)
    requires a < m < |run| && SignsIn(run, a, m, user, d)
    ensures d in At(run, m + 1).sessions && At(run, m + 1).sessions[d].revoked.None?
  {
    hide F.Do, FactorPart;
  }

  /**
   * Which sessions judged by an old password are live after a change, exactly: unless something else ends it, one
   * that was signed in to before the new password was written is live afterwards if and only if it was started
   * after the change had begun and has not expired.
   */
  lemma {:induction false} OldSessionLivesIff(
    run: seq<Event>, a: nat, m: nat, i: nat, j: nat, n: nat, user: User, d: Digest, now: int)
    requires a < m < n <= |run| && a <= j < n && i < j && SignsIn(run, a, m, user, d)
    requires run[i].BeginChange? && run[i].user == user && run[i].r !in At(run, i).requests && run[i].now <= now
    requires run[j] == WritePassword(run[i].r) && Writes(run, j, user)
    requires forall k :: m < k < n && k != i ==> !Ends(run, k, d)
    ensures Version(run, a, user) < Version(run, n, user) && d in At(run, n).sessions
    ensures Live(At(run, n).sessions, d, now) <==> i < m && now < At(run, n).sessions[d].expires
  {
    hide Next, Writes, Ends;
    VersionGrows(run, a, n, user);
    MintedIsUnended(run, a, m, user, d);
    RunKeeps(run, m + 1, n);
    if i < m {
      Unended(run, m + 1, n, d);
    } else {
      assert m != i;
      RunKeeps(run, m + 1, i);
      DeadAtChange(run, i, d, user);
      EndedStaysEnded(run, i + 1, n, d, run[i].now, now);
    }
  }

  lemma DeadAtChange(run: seq<Event>, i: nat, d: Digest, user: User)
    requires i < |run| && run[i].BeginChange? && run[i].user == user && run[i].r !in At(run, i).requests
    requires d in At(run, i).sessions && At(run, i).sessions[d].user == user
    ensures d in At(run, i + 1).sessions && !Live(At(run, i + 1).sessions, d, run[i].now)
  {
    hide F.Do, FactorPart;
  }

  /** A sign-in that is accepted while the old password still stands, between the ending and the writing. */
  function Overlapping(user: User, token: Digest, expires: int, now: int): seq<Event> {
    [BeginChange(1, user, now), Accept(0, user, None), Retire(0, now), ReadPolicy(0), ReadEnrolled(0),
     Mint(0, token, expires, now, true), WritePassword(1)]
  }

  lemma AtNext(run: seq<Event>, n: nat)
    requires n < |run|
    ensures At(run, n + 1) == Next(At(run, n), run[n])
  {
  }

  /** The changing person's world once the change has begun. */
  function Begun(user: User): World {
    World(F.EMPTY, map[], false, map[1 := Changing(user)])
  }

  lemma OverlappingStates(user: User, token: Digest, expires: int, now: int)
    requires now < expires
    ensures var run, begun := Overlapping(user, token, expires, now), Begun(user);
            && At(run, 1) == begun && At(run, 5) == Enter(begun, 0, Unchallenged(user, None))
            && At(run, 6) == Enter(begun.(sessions := OneSession(user, token, expires)), 0, Finished)
            && At(run, 7).sessions == OneSession(user, token, expires)
  {
    hide Next, At;
    var run, begun := Overlapping(user, token, expires, now), Begun(user);
    BeginsChange(user, now);
    SignsInMeanwhile(begun, user, now);
    MintsMeanwhile(begun, user, token, expires, now);
    NothingYet(run);
    AtNext(run, 0);
    AtNext(run, 1);
    AtNext(run, 2);
    AtNext(run, 3);
    AtNext(run, 4);
    AtNext(run, 5);
    AtNext(run, 6);
    WritingKeeps(At(run, 6), 1);
  }

  lemma NothingYet(run: seq<Event>)
    ensures At(run, 0) == BLANK
  {
  }

  /** Its session outlives the change, although its password was accepted under the version before. */
  lemma SessionOutlivesChange(user: User, token: Digest, expires: int, now: int)
    requires now < expires
    ensures var run := Overlapping(user, token, expires, now);
            && run[0] == BeginChange(1, user, now) && run[6] == WritePassword(1)
            && SignsIn(run, 1, 5, user, token) && Version(run, 1, user) == 0 && Version(run, 7, user) == 1
            && Live(At(run, 7).sessions, token, now)
  {
    hide Next, At, Version;
    var run := Overlapping(user, token, expires, now);
    OverlappingStates(user, token, expires, now);
    OneWritten(run, user);
  }

  lemma OneWritten(run: seq<Event>, user: User)
    requires |run| == 7 && (forall k :: 0 <= k < 6 ==> !run[k].WritePassword?) && Writes(run, 6, user)
    ensures Version(run, 1, user) == 0 && Version(run, 7, user) == 1
  {
    hide Next, At;
    NoneWritten(run, 1, user);
    NoneWritten(run, 6, user);
  }

  lemma {:induction false} NoneWritten(run: seq<Event>, n: nat, user: User)
    requires n <= |run| && forall k :: 0 <= k < n ==> !run[k].WritePassword?
    ensures Version(run, n, user) == 0
  {
    hide Next, At;
    if n > 0 {
      NoneWritten(run, n - 1, user);
    }
  }

  function OneSession(user: User, token: Digest, expires: int): Sessions {
    map[token := Session(user, expires, None, None, None)]
  }

  lemma BeginsChange(user: User, now: int)
    ensures Next(BLANK, BeginChange(1, user, now)) == World(F.EMPTY, map[], false, map[1 := Changing(user)])
  {
    assert EndedOf(map[], user, PasswordChanged, now) == map[];
  }

  lemma SignsInMeanwhile(w: World, user: User, now: int)
    requires 0 !in w.requests && w.sessions == map[] && !w.required && w.factors == F.EMPTY
    ensures Next(w, Accept(0, user, None)) == Enter(w, 0, Accepted(user, None))
    ensures Next(Enter(w, 0, Accepted(user, None)), Retire(0, now)) == Enter(w, 0, Retired(user, None))
    ensures Next(Enter(w, 0, Retired(user, None)), ReadPolicy(0)) == Enter(w, 0, PolicyRead(user, None, false))
    ensures Next(Enter(w, 0, PolicyRead(user, None, false)), ReadEnrolled(0)) == Enter(w, 0, Unchallenged(user, None))
  {
    hide F.Do, FactorPart;
    var r := w.requests;
    assert r[0 := Accepted(user, None)][0 := Retired(user, None)] == r[0 := Retired(user, None)];
    assert r[0 := Retired(user, None)][0 := PolicyRead(user, None, false)] == r[0 := PolicyRead(user, None, false)];
    assert r[0 := PolicyRead(user, None, false)][0 := Unchallenged(user, None)] == r[0 := Unchallenged(user, None)];
  }

  lemma MintsMeanwhile(w: World, user: User, token: Digest, expires: int, now: int)
    requires w.sessions == map[] && now < expires
    ensures Next(Enter(w, 0, Unchallenged(user, None)), Mint(0, token, expires, now, true))
      == Enter(w.(sessions := OneSession(user, token, expires)), 0, Finished)
  {
    hide F.Do, FactorPart;
    assert w.requests[0 := Unchallenged(user, None)][0 := Finished] == w.requests[0 := Finished];
    assert map[][token := Session(user, expires, None, None, None)] == OneSession(user, token, expires);
  }

  lemma WritingKeeps(w: World, r: nat)
    ensures Next(w, WritePassword(r)).sessions == w.sessions
  {
  }
}
