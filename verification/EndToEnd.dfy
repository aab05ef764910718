/**
 * One instruction, from the control plane's signature to the host that executes it:
 * key rotation, the encoding, the agent's checks and its replay store together.
 */
module EndToEnd {
  import opened Wrappers
  import opened Bytes
  import opened Utf
  import opened Listings
  import opened Canonical
  import opened Signing
  import opened NonceFile
  import opened NonceSpec
  import opened VerifySpec
  import opened StoreSoundness
  import opened ReplayRuns
  import RotationSpec

  /** Ed25519 over numbered keys, and base64. */
  datatype Signer = Signer(
    sign: (nat, Bytes) -> Bytes, public: nat -> Bytes, encode: Bytes -> Bytes)

  /** Signatures of the right size verify under their own key and survive transport. */
  ghost predicate Matches(g: Signer, w: World) {
    && (forall key: nat, m: Bytes {:trigger g.sign(key, m)} ::
          |g.sign(key, m)| == SIGNATURE_SIZE && w.verifies(g.public(key), m, g.sign(key, m)))
    && (forall key: nat {:trigger g.public(key)} :: |g.public(key)| == PUBLIC_KEY_SIZE)
    && (forall b: Bytes {:trigger g.encode(b)} :: w.decode(g.encode(b)) == Some(b) && (b != [] ==> g.encode(b) != []))
  }

  /** What signInstruction is asked to sign, its catalogue check passed, at which instant and with which nonce. */
  datatype Request = Request(
    operation: string, arguments: map<string, string>, targetHostId: string, now: int, validityMs: int, nonce: string)

  /** None when the validity is outside 1..MAX_VALIDITY_MS. */
  function Draft(r: Request): Option<Instruction> {
    if r.validityMs <= 0 || r.validityMs > MAX_VALIDITY_MS then None
    else Some(Instruction(r.operation, r.targetHostId, r.nonce, r.now, r.now + r.validityMs, r.arguments))
  }

  /** The envelope the agent parses. */
  ghost function Sealed(g: Signer, key: nat, i: Instruction, order: seq<string>, keyId: Bytes): Envelope
    requires IsInt64(i.issuedAt) && IsInt64(i.expiresAt) && Lists(order, i.arguments.Keys)
  {
    var c := Wire(i);
    Envelope(c.operation, c.arguments, c.nonce, c.issuedAt, c.expiresAt, c.targetHostId,
             g.encode(g.sign(key, SignedBytes(i, order))), keyId)
  }

  /** The accepted keys as the agent is given them, under any key names. */
  ghost predicate Distributes(g: Signer, accepted: seq<nat>, keys: seq<AcceptedKey>) {
    forall k :: 0 <= k < |accepted| ==> exists m :: 0 <= m < |keys| && keys[m].public == g.public(accepted[k])
  }

  /** Everything the instruction's author controls. */
  ghost predicate Sendable(i: Instruction, order: seq<string>) {
    && 0 < i.issuedAt < i.expiresAt <= i.issuedAt + MAX_VALIDITY_MS && i.expiresAt <= INT64_MAX
    && Lists(order, i.arguments.Keys)
    && (forall name :: name in i.arguments ==> Ascii(name))
    && NonceShaped(Utf8(i.nonce)) && i.targetHostId != ""
  }

  /** A request the control plane makes: a positive clock, catalogue argument names, a minted nonce, a host. */
  ghost predicate Askable(r: Request) {
    && 0 < r.now && r.now + MAX_VALIDITY_MS <= INT64_MAX
    && (forall name :: name in r.arguments ==> Ascii(name))
    && NonceShaped(Utf8(r.nonce)) && r.targetHostId != ""
  }

  lemma {:induction false} DraftIsSendable(r: Request, order: seq<string>)
    requires Askable(r) && Lists(order, r.arguments.Keys)
    ensures var i := Draft(r);
            && (i.Some? <==> 1 <= r.validityMs <= MAX_VALIDITY_MS)
            && (i.Some? ==> Sendable(i.value, order) && i.value.issuedAt == r.now)
  {
  }

  /** Signed with a key the agent holds, addressed to it and judged while alive, an
      envelope passes every check before the store. */
  lemma {:induction false} SealedPasses(
    g: Signer, w: World, key: nat, i: Instruction, order: seq<string>, keyId: Bytes,
    keys: seq<AcceptedKey>, hostId: Bytes, now: int)
    requires Matches(g, w) && Sendable(i, order)
    requires Distributes(g, [key], keys) && hostId == Utf8(i.targetHostId)
    requires i.issuedAt * NANOS <= now < i.expiresAt * NANOS
    ensures Precheck(w, Sealed(g, key, i, order, keyId), keys, hostId, now) == None
  {
    var e := Sealed(g, key, i, order, keyId);
    BothSidesAgree(i, order);
    assert ContentOf(e) == Wire(i);
    var message := SignedBytes(i, order);
    var signature := g.sign(key, message);
    assert |signature| == SIGNATURE_SIZE && w.verifies(g.public(key), message, signature);
    assert w.decode(e.signature) == Some(signature);
    assert [key][0] == key;
    var m :| 0 <= m < |keys| && keys[m].public == g.public(key);
    assert SignedUnder(w, e, keys, signature);
    assert Utf8(i.targetHostId) != [] by {
      assert |EncodeScalar(i.targetHostId[0])| > 0;
    }
    PrecheckPasses(w, e, keys, hostId, now);
  }

  /**
   * Sign with the key that is current, rotate and prune as often as the rules allow,
   * and hand the agent whatever keys are then accepted: the envelope still passes at
   * every instant before it expires.
   */
  lemma {:induction false} RotationOrphansNothing(
    g: Signer, w: World, files: RotationSpec.Files, rotations: seq<RotationSpec.Event>, key: nat,
    i: Instruction, order: seq<string>, keyId: Bytes, keys: seq<AcceptedKey>, nowMs: int, overlapMs: int)
    requires Matches(g, w) && Sendable(i, order)
    requires RotationSpec.Settled(files) && files.current == Some(key)
    requires RotationSpec.Orderly(rotations, i.issuedAt)
    requires forall k :: 0 <= k < |rotations| ==> rotations[k].Booting? || rotations[k].now <= nowMs
    requires i.issuedAt <= nowMs < i.expiresAt && overlapMs >= RotationSpec.MIN_OVERLAP_MS
    requires var accepted := RotationSpec.Accepted(RotationSpec.Replay(files, rotations), nowMs, overlapMs);
             accepted.Ok? ==> Distributes(g, accepted.value, keys)
    ensures Precheck(w, Sealed(g, key, i, order, keyId), keys, Utf8(i.targetHostId), nowMs * NANOS) == None
  {
    RotationSpec.InFlightKeyAccepted(files, rotations, key, i.issuedAt, nowMs, overlapMs);
    var accepted := RotationSpec.Accepted(RotationSpec.Replay(files, rotations), nowMs, overlapMs).value;
    var k :| 0 <= k < |accepted| && accepted[k] == key;
    assert Distributes(g, [key], keys);
    SealedPasses(g, w, key, i, order, keyId, keys, Utf8(i.targetHostId), nowMs * NANOS);
  }

  /** No fault, room to spare, and an operation and arguments the agent knows. */
  ghost predicate Unhindered(site: Site, s: Store, call: Call) {
    && call.io.load.NoFault? && call.io.append.Appends?
    && |Load(s, call.io).0.seen| < s.limit
    && site.w.knows(call.e.operation) && site.w.acceptsArguments(call.e.operation, call.e.arguments)
  }

  /** An envelope that reaches an unhindered store which has not recorded its nonce is
      accepted. */
  lemma {:induction false} FreshIsAccepted(site: Site, s: Store, call: Call)
    requires Sound(s) && CallFits(s, call) && Reaches(site, call) && Unhindered(site, s, call)
    requires call.e.nonce !in Recalled(s.disk)
    ensures VerdictOf(site, s, call) == Accepted
  {
    hide RawLines, Recall, Readable;
    ExpiryIsNear(site.w, call.e, call.keys, site.hostId, call.now);
    LoadSound(s, call.io);
    NoFaultLoads(s, call.io);
  }

  /**
   * Delivered in time to an unhindered host that has not seen its nonce, a signed
   * instruction is executed; however often it is delivered again, also after crashes
   * and restarts, it is never executed a second time while clocks are ordered.
   */
  lemma {:induction false} ExecutedExactlyOnce(
    g: Signer, site: Site, key: nat, i: Instruction, order: seq<string>, keyId: Bytes,
    states: seq<Store>, events: seq<Event>, j: nat)
    requires Matches(g, site.w) && Sendable(i, order)
    requires Run(site, states, events) && ClockOrdered(site, states, events) && j < |events|
    requires events[j].Verified? && events[j].call.e == Sealed(g, key, i, order, keyId)
    requires Distributes(g, [key], events[j].call.keys) && site.hostId == Utf8(i.targetHostId)
    requires i.issuedAt * NANOS <= events[j].call.now < i.expiresAt * NANOS
    requires Unhindered(site, states[j], events[j].call)
    requires Utf8(i.nonce) !in Recalled(states[j].disk)
    ensures AcceptedAt(site, states, events, j)
    ensures forall k :: j < k < |events| && events[k].Verified? && events[k].call.e == events[j].call.e ==>
              !AcceptedAt(site, states, events, k)
  {
    hide Recalled, Sendable, Whole, Step, Precheck, Load;
    var call := events[j].call;
    RunSound(site, states, events, j);
    SealedPasses(g, site.w, key, i, order, keyId, call.keys, site.hostId, call.now);
    FreshIsAccepted(site, states[j], call);
    forall k | j < k < |events| && events[k].Verified? && events[k].call.e == call.e
      ensures !AcceptedAt(site, states, events, k)
    {
      NeverExecutedTwice(site, states, events, j, k);
    }
  }

  /** The keys a host is given while it reads the rotation state at `readMs`. */
  ghost predicate KeysReadAt(
    g: Signer, files: RotationSpec.Files, rotations: seq<RotationSpec.Event>, readMs: int, overlapMs: int,
    keys: seq<AcceptedKey>)
  {
    && (forall k :: 0 <= k < |rotations| ==> rotations[k].Booting? || rotations[k].now <= readMs)
    && var accepted := RotationSpec.Accepted(RotationSpec.Replay(files, rotations), readMs, overlapMs);
       accepted.Ok? ==> Distributes(g, accepted.value, keys)
  }

  /**
   * From the request to its one execution. Signed with the current key, then any finished
   * rotations and prunings, then delivered, with the keys accepted by then, before it
   * expires and to an unhindered host that has not seen its nonce: that delivery executes
   * it, and no other delivery of the envelope does, before or after, whatever crashes and
   * restarts lie between, while clocks are ordered.
   */
  lemma {:induction false} ExecutedOnceAcrossRotations(
    g: Signer, site: Site, files: RotationSpec.Files, rotations: seq<RotationSpec.Event>, key: nat, r: Request,
    order: seq<string>, keyId: Bytes, readMs: int, overlapMs: int,
    states: seq<Store>, events: seq<Event>, j: nat)
    requires Matches(g, site.w) && Askable(r) && Draft(r).Some? && Lists(order, r.arguments.Keys)
    requires RotationSpec.Settled(files) && files.current == Some(key) && RotationSpec.Orderly(rotations, r.now)
    requires Run(site, states, events) && ClockOrdered(site, states, events) && j < |events|
    requires events[j].Verified? && events[j].call.e == Sealed(g, key, Draft(r).value, order, keyId)
    requires r.now <= readMs && overlapMs >= RotationSpec.MIN_OVERLAP_MS
    requires KeysReadAt(g, files, rotations, readMs, overlapMs, events[j].call.keys)
    requires readMs * NANOS <= events[j].call.now < (r.now + r.validityMs) * NANOS
    requires site.hostId == Utf8(r.targetHostId) && Unhindered(site, states[j], events[j].call)
    requires Utf8(r.nonce) !in Recalled(states[j].disk)
    ensures AcceptedAt(site, states, events, j)
    ensures forall k :: 0 <= k < |events| && k != j && events[k].Verified? && events[k].call.e == events[j].call.e ==>
              !AcceptedAt(site, states, events, k)
  {
    hide Recalled, Run, ClockOrdered, AcceptedAt, Precheck, Load, Sealed, RotationSpec.Accepted, RotationSpec.Replay;
    hide Unhindered, Matches, RotationSpec.Orderly, RotationSpec.Settled, Askable, Sendable, Wire;
    var i := Draft(r).value;
    DraftIsSendable(r, order);
    RotationSpec.InFlightKeyAccepted(files, rotations, key, r.now, readMs, overlapMs);
    var accepted := RotationSpec.Accepted(RotationSpec.Replay(files, rotations), readMs, overlapMs).value;
    HeldAlone(g, accepted, key, events[j].call.keys);
    ExecutedExactlyOnce(g, site, key, i, order, keyId, states, events, j);
    forall k | 0 <= k < j && events[k].Verified? && events[k].call.e == events[j].call.e
      ensures !AcceptedAt(site, states, events, k)
    {
      NeverExecutedTwice(site, states, events, k, j);
    }
  }

  lemma HeldAlone(g: Signer, accepted: seq<nat>, key: nat, keys: seq<AcceptedKey>)
    requires key in accepted && Distributes(g, accepted, keys)
    ensures Distributes(g, [key], keys)
  {
    var k :| 0 <= k < |accepted| && accepted[k] == key;
  }
}
