/** What the agent decides about one envelope at one instant, check by check. */
module VerifySpec {
  import opened Wrappers
  import opened Bytes
  import opened Canonical
  import opened NonceFile
  import opened NonceSpec

  /** Durations and instants are nanoseconds; envelope stamps are milliseconds. */
  const MAX_VALIDITY := 300_000 * NANOS
  const MAX_FUTURE_SKEW := 30_000 * NANOS
  const NONCE_BYTES := 32
  const SIGNATURE_SIZE := 64
  const PUBLIC_KEY_SIZE := 32

  datatype AcceptedKey = AcceptedKey(keyId: Bytes, public: Bytes)

  /** base64 decoding, Ed25519 verification and the operation catalogue. */
  datatype World = World(
    decode: Bytes -> Option<Bytes>,
    verifies: (Bytes, Bytes, Bytes) -> bool,
    knows: Bytes -> bool,
    acceptsArguments: (Bytes, map<Bytes, Bytes>) -> bool)

  datatype Reason =
    | MalformedEnvelope | BadSignature | WrongHost | Expired | NotYetValid | ValidityTooLong
    | CannotRuleOutReplay(cause: Answer) | ReplayedNonce | UnknownOperation | BadArguments

  datatype Verdict = Accepted | Refused(reason: Reason)

  // -------------------------------------------------------------- the checks

  predicate IsHex(c: byte) {
    48 <= c <= 57 || 65 <= c <= 70 || 97 <= c <= 102
  }

  predicate NonceShaped(nonce: Bytes) {
    |nonce| == 2 * NONCE_BYTES && forall i :: 0 <= i < |nonce| ==> IsHex(nonce[i])
  }

  function CheckShape(e: Envelope): Option<Reason> {
    if !NonceShaped(e.nonce) then Some(MalformedEnvelope)
    else if e.signature == [] then Some(MalformedEnvelope)
    else if e.targetHostId == [] then Some(MalformedEnvelope)
    else if e.issuedAt <= 0 || e.expiresAt <= 0 then Some(MalformedEnvelope)
    else if e.expiresAt <= e.issuedAt then Some(MalformedEnvelope)
    else None
  }

  /** Some accepted key of the right size verifies the canonical bytes; the envelope's
      own key hint is not consulted. */
  ghost predicate SignedUnder(w: World, e: Envelope, keys: seq<AcceptedKey>, signature: Bytes)
    requires IsInt64(e.issuedAt) && IsInt64(e.expiresAt)
  {
    exists k :: 0 <= k < |keys| && |keys[k].public| == PUBLIC_KEY_SIZE
                && w.verifies(keys[k].public, CanonicalBytes(ContentOf(e)), signature)
  }

  ghost function CheckSignature(w: World, e: Envelope, keys: seq<AcceptedKey>): Option<Reason>
    requires IsInt64(e.issuedAt) && IsInt64(e.expiresAt)
  {
    if keys == [] then Some(BadSignature)
    else
      match w.decode(e.signature)
      case None => Some(MalformedEnvelope)
      case Some(signature) =>
        if |signature| != SIGNATURE_SIZE then Some(MalformedEnvelope)
        else if SignedUnder(w, e, keys, signature) then None
        else Some(BadSignature)
  }

  /** time.Time.Sub: the difference, saturated to what a Duration can hold. */
  function Sub(a: int, b: int): int {
    if a - b > INT64_MAX then INT64_MAX else if a - b < INT64_MIN then INT64_MIN else a - b
  }

  function CheckFreshness(e: Envelope, now: int): Option<Reason> {
    var issued := e.issuedAt * NANOS;
    var expires := e.expiresAt * NANOS;
    if expires <= now then Some(Expired)
    else if Sub(issued, now) > MAX_FUTURE_SKEW then Some(NotYetValid)
    else if Sub(expires, issued) > MAX_VALIDITY then Some(ValidityTooLong)
    else None
  }

  /** The four checks before the store: the first that fails decides. */
  ghost function Precheck(w: World, e: Envelope, keys: seq<AcceptedKey>, hostId: Bytes, now: int): Option<Reason>
    requires IsInt64(e.issuedAt) && IsInt64(e.expiresAt)
  {
    if CheckShape(e).Some? then CheckShape(e)
    else if CheckSignature(w, e, keys).Some? then CheckSignature(w, e, keys)
    else if e.targetHostId != hostId then Some(WrongHost)
    else CheckFreshness(e, now)
  }

  function CheckCatalogue(w: World, e: Envelope): Verdict {
    if !w.knows(e.operation) then Refused(UnknownOperation)
    else if !w.acceptsArguments(e.operation, e.arguments) then Refused(BadArguments)
    else Accepted
  }

  /** The store's answer, read as a verdict. */
  function AfterStore(w: World, e: Envelope, answer: Answer): Verdict {
    match answer
    case Fresh => CheckCatalogue(w, e)
    case Replayed => Refused(ReplayedNonce)
    case _ => Refused(CannotRuleOutReplay(answer))
  }

  /** The whole check: what the store becomes and what the caller is told. */
  ghost function Verify(
    w: World, s: Store, e: Envelope, keys: seq<AcceptedKey>, hostId: Bytes, now: int, io: Io, order: seq<Bytes>)
    : (Store, Verdict)
    requires IsInt64(e.issuedAt) && IsInt64(e.expiresAt)
    requires OrderFits(s, e.nonce, e.expiresAt * NANOS, io, order)
  {
    match Precheck(w, e, keys, hostId, now)
    case Some(reason) => (s, Refused(reason))
    case None =>
      var outcome := Remember(s, e.nonce, e.expiresAt * NANOS, io, order);
      (outcome.after, AfterStore(w, e, outcome.answer))
  }

  // -------------------------------------------------------------- consequences

  /** What an envelope that reaches the store has shown, whatever the Durations
      saturate to. */
  lemma PrecheckPasses(w: World, e: Envelope, keys: seq<AcceptedKey>, hostId: Bytes, now: int)
    requires IsInt64(e.issuedAt) && IsInt64(e.expiresAt)
    ensures Precheck(w, e, keys, hostId, now) == None <==>
            && CheckShape(e) == None
            && (exists signature ::
                  w.decode(e.signature) == Some(signature) && |signature| == SIGNATURE_SIZE
                  && SignedUnder(w, e, keys, signature))
            && e.targetHostId == hostId
            && now < e.expiresAt * NANOS
            && e.issuedAt * NANOS <= now + MAX_FUTURE_SKEW
            && e.expiresAt * NANOS <= e.issuedAt * NANOS + MAX_VALIDITY
  {
    if CheckSignature(w, e, keys) == None {
      assert SignedUnder(w, e, keys, w.decode(e.signature).value);
    }
  }

  /** The instant an accepted envelope dies is at most 330 s after it was judged. */
  lemma ExpiryIsNear(w: World, e: Envelope, keys: seq<AcceptedKey>, hostId: Bytes, now: int)
    requires IsInt64(e.issuedAt) && IsInt64(e.expiresAt)
    requires Precheck(w, e, keys, hostId, now) == None
    ensures now < e.expiresAt * NANOS <= now + MAX_FUTURE_SKEW + MAX_VALIDITY
    ensures NonceShaped(e.nonce) && Breakless(e.nonce) && e.nonce != []
  {
    PrecheckPasses(w, e, keys, hostId, now);
  }

  /** The order the refusals come in: shape before signature, signature before target, target before freshness;
      each whatever the later ones would have found. */
  lemma {:induction false} RefusalsInOrder(
    w: World, e: Envelope, keys: seq<AcceptedKey>, hostId: Bytes, now: int,
    other: World, otherKeys: seq<AcceptedKey>, otherHost: Bytes, otherNow: int)
    requires IsInt64(e.issuedAt) && IsInt64(e.expiresAt)
    ensures CheckShape(e).Some? ==> Precheck(other, e, otherKeys, otherHost, otherNow) == CheckShape(e)
    ensures CheckShape(e).None? && CheckSignature(w, e, keys).Some? ==>
      Precheck(w, e, keys, otherHost, otherNow) == CheckSignature(w, e, keys)
      && CheckSignature(w, e, keys).value in {BadSignature, MalformedEnvelope}
    ensures CheckShape(e).None? && CheckSignature(w, e, keys).None? && e.targetHostId != hostId ==>
      Precheck(w, e, keys, hostId, otherNow) == Some(WrongHost)
    ensures CheckShape(e).None? && CheckSignature(w, e, keys).None? && e.targetHostId == hostId ==>
      Precheck(w, e, keys, hostId, now) == CheckFreshness(e, now)
      && CheckFreshness(e, now) in {None, Some(Expired), Some(NotYetValid), Some(ValidityTooLong)}
  {
    hide SignedUnder, CanonicalBytes;
  }

  /** Sixty-four hexadecimal digits, a signature, a target, and positive stamps in order. */
  predicate WellShaped(e: Envelope) {
    && |e.nonce| == 64
    && (forall c <- e.nonce :: 48 <= c <= 57 || 65 <= c <= 70 || 97 <= c <= 102)
    && e.signature != [] && e.targetHostId != []
    && 0 < e.issuedAt < e.expiresAt
  }

  /** The signature decodes to sixty-four bytes, and `k` is a key of thirty-two that verifies them. */
  ghost predicate VouchedBy(w: World, e: Envelope, keys: seq<AcceptedKey>, k: nat)
    requires IsInt64(e.issuedAt) && IsInt64(e.expiresAt)
  {
    && w.decode(e.signature).Some? && |w.decode(e.signature).value| == 64
    && k < |keys| && |keys[k].public| == 32
    && w.verifies(keys[k].public, CanonicalBytes(ContentOf(e)), w.decode(e.signature).value)
  }

  ghost predicate Vouched(w: World, e: Envelope, keys: seq<AcceptedKey>)
    requires IsInt64(e.issuedAt) && IsInt64(e.expiresAt)
  {
    exists k: nat :: VouchedBy(w, e, keys, k)
  }

  lemma SignatureIs(w: World, e: Envelope, keys: seq<AcceptedKey>)
    requires IsInt64(e.issuedAt) && IsInt64(e.expiresAt)
    ensures CheckSignature(w, e, keys) ==
      if Vouched(w, e, keys) then None
      else if keys != [] && (w.decode(e.signature).None? || |w.decode(e.signature).value| != 64)
      then Some(MalformedEnvelope)
      else Some(BadSignature)
  {
    if Vouched(w, e, keys) {
      var k: nat :| VouchedBy(w, e, keys, k);
      assert |keys[k].public| == PUBLIC_KEY_SIZE;
    } else if keys != [] && w.decode(e.signature).Some? && SignedUnder(w, e, keys, w.decode(e.signature).value) {
      var k :| 0 <= k < |keys| && |keys[k].public| == PUBLIC_KEY_SIZE
               && w.verifies(keys[k].public, CanonicalBytes(ContentOf(e)), w.decode(e.signature).value);
      assert |w.decode(e.signature).value| == 64 ==> VouchedBy(w, e, keys, k);
    }
  }

  lemma ShapeIs(e: Envelope)
    ensures CheckShape(e) == if WellShaped(e) then None else Some(MalformedEnvelope)
  {
    if NonceShaped(e.nonce) {
      forall c <- e.nonce
        ensures 48 <= c <= 57 || 65 <= c <= 70 || 97 <= c <= 102
      {
        assert IsHex(c);
      }
    } else if |e.nonce| == 64 {
      var i :| 0 <= i < |e.nonce| && !IsHex(e.nonce[i]);
      assert e.nonce[i] in e.nonce;
    }
  }

  /** What each refusal before the store means, and so what an envelope that reaches the store has shown:
      300 s of validity at most, issued no more than 30 s ahead of this host's clock. */
  lemma {:induction false} PrecheckMeans(w: World, e: Envelope, keys: seq<AcceptedKey>, hostId: Bytes, now: int)
    requires IsInt64(e.issuedAt) && IsInt64(e.expiresAt)
    ensures var issued, expires := e.issuedAt * 1_000_000, e.expiresAt * 1_000_000;
            var ahead, long := issued > now + 30_000_000_000, expires > issued + 300_000_000_000;
            var verdict := Precheck(w, e, keys, hostId, now);
            if !WellShaped(e) then verdict == Some(MalformedEnvelope)
            else if !Vouched(w, e, keys) then
              if keys != [] && (w.decode(e.signature).None? || |w.decode(e.signature).value| != 64)
              then verdict == Some(MalformedEnvelope) else verdict == Some(BadSignature)
            else if e.targetHostId != hostId then verdict == Some(WrongHost)
            else if expires <= now then verdict == Some(Expired)
            else if ahead then verdict == Some(NotYetValid)
            else if long then verdict == Some(ValidityTooLong)
            else verdict == None
  {
    hide Vouched, WellShaped, CheckShape, CheckSignature;
    ShapeIs(e);
    SignatureIs(w, e, keys);
  }

  /** The verdict, in terms of the checks before the store, the store's answer and the catalogue: an envelope is
      accepted if and only if its nonce is new, its operation known and its arguments valid. */
  lemma {:induction false} VerdictMeans(
    w: World, s: Store, e: Envelope, keys: seq<AcceptedKey>, hostId: Bytes, now: int, io: Io, order: seq<Bytes>)
    requires IsInt64(e.issuedAt) && IsInt64(e.expiresAt)
    requires OrderFits(s, e.nonce, e.expiresAt * NANOS, io, order)
    ensures var (after, verdict) := Verify(w, s, e, keys, hostId, now, io, order);
            var out := Remember(s, e.nonce, e.expiresAt * 1_000_000, io, order);
            var passed := Precheck(w, e, keys, hostId, now) == None;
            && after == (if passed then out.after else s)
            && (verdict == Accepted <==>
                  passed && out.answer == Fresh && w.knows(e.operation)
                  && w.acceptsArguments(e.operation, e.arguments))
            && (verdict == Refused(UnknownOperation) <==> passed && out.answer == Fresh && !w.knows(e.operation))
            && (verdict == Refused(BadArguments) <==>
                  passed && out.answer == Fresh && w.knows(e.operation)
                  && !w.acceptsArguments(e.operation, e.arguments))
            && (verdict == Refused(ReplayedNonce) <==> passed && out.answer == Replayed)
            && (passed && out.answer in {Full, Malformed, Unreadable, Unwritable} ==>
                  verdict == Refused(CannotRuleOutReplay(out.answer)))
            && (verdict.Refused? && verdict.reason.CannotRuleOutReplay? ==>
                  passed && out.answer in {Full, Malformed, Unreadable, Unwritable})
  {
    hide Remember, CanonicalBytes, SignedUnder, CheckShape, CheckSignature, CheckFreshness;
    RefusalsInOrder(w, e, keys, hostId, now, w, keys, hostId, now);
    PrecheckMeans(w, e, keys, hostId, now);
  }

  /** Nothing reaches the store, and no argument is looked at, until the envelope is
      signed, addressed here and fresh. */
  lemma {:induction false} UnverifiedLeavesNoTrace(
    w: World, s: Store, e: Envelope, keys: seq<AcceptedKey>, hostId: Bytes, now: int, io: Io, order: seq<Bytes>,
    knows: Bytes -> bool, acceptsArguments: (Bytes, map<Bytes, Bytes>) -> bool)
    requires IsInt64(e.issuedAt) && IsInt64(e.expiresAt)
    requires OrderFits(s, e.nonce, e.expiresAt * NANOS, io, order)
    requires Precheck(w, e, keys, hostId, now).Some?
    ensures Verify(w, s, e, keys, hostId, now, io, order).0 == s
    ensures Verify(w, s, e, keys, hostId, now, io, order).1.Refused?
    ensures Verify(w.(knows := knows, acceptsArguments := acceptsArguments), s, e, keys, hostId, now, io, order)
         == Verify(w, s, e, keys, hostId, now, io, order)
  {
  }
}
