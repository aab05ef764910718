/** The agent's verification of a signed instruction, over its replay store. */
module Verification {
  import opened Wrappers
  import opened Bytes
  import opened Listings
  import opened Canonical
  import opened NonceFile
  import opened NonceSpec
  import opened NonceStore
  import opened VerifySpec

  /** Tries every key; neither the key hint nor the first match ends the loop. */
  method VerifySignature(w: World, e: Envelope, keys: seq<AcceptedKey>) returns (refusal: Option<Reason>)
    requires IsInt64(e.issuedAt) && IsInt64(e.expiresAt)
    ensures refusal == CheckSignature(w, e, keys)
  {
    if |keys| == 0 {
      return Some(BadSignature);
    }
    var decoded := w.decode(e.signature);
    if decoded.None? {
      return Some(MalformedEnvelope);
    }
    var signature := decoded.value;
    if |signature| != SIGNATURE_SIZE {
      return Some(MalformedEnvelope);
    }
    var message := Encode(e);
    var verified := false;
    var k := 0;
    while k < |keys|
      invariant k <= |keys|
      invariant verified <==> SignedUnder(w, e, keys[..k], signature)
    {
      if |keys[k].public| == PUBLIC_KEY_SIZE {
        if w.verifies(keys[k].public, message, signature) {
          verified := true;
        }
      }
      assert forall j :: 0 <= j < k ==> keys[..k + 1][j] == keys[..k][j];
      assert keys[..k + 1][k] == keys[k];
      k := k + 1;
    }
    assert keys[..k] == keys;
    refusal := if verified then None else Some(BadSignature);
  }

  method Verify(w: World, e: Envelope, keys: seq<AcceptedKey>, hostId: Bytes, nonces: FileNonceStore, now: int, io: Io)
    returns (verdict: Verdict, ghost order: seq<Bytes>)
    requires IsInt64(e.issuedAt) && IsInt64(e.expiresAt)
    modifies nonces`seen, nonces`appends, nonces`loaded, nonces.disk
    ensures OrderFits(old(nonces.State()), e.nonce, e.expiresAt * NANOS, io, order)
    ensures VerifySpec.Verify(w, old(nonces.State()), e, keys, hostId, now, io, order) == (nonces.State(), verdict)
  {
    order := ListOf(Prune(
      MakeRoom(Load(nonces.State(), io).0, io).seen[e.nonce := e.expiresAt * NANOS], io.pruneAt).Keys);
    var shape := CheckShape(e);
    if shape.Some? {
      return Refused(shape.value), order;
    }
    var signature := VerifySignature(w, e, keys);
    if signature.Some? {
      return Refused(signature.value), order;
    }
    if e.targetHostId != hostId {
      return Refused(WrongHost), order;
    }
    var freshness := CheckFreshness(e, now);
    if freshness.Some? {
      return Refused(freshness.value), order;
    }
    var answer;
    answer, order := nonces.Remember(e.nonce, e.expiresAt * NANOS, io);
    if answer == Replayed {
      return Refused(ReplayedNonce), order;
    }
    if answer != Fresh {
      return Refused(CannotRuleOutReplay(answer)), order;
    }
    verdict := CheckCatalogue(w, e);
  }
}
