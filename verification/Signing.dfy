/** Private keys, and what signatures made with them are worth (src/signature.rs). */
module Signing {
  import opened Basics
  import opened Signature
  import opened TrustEvaluation
  import opened TrustPolicy

  type RawSignature = s: Bytes | |s| == SIGNATURE_LENGTH witness seq(SIGNATURE_LENGTH, _ => '\0')

  /** Loading and using private keys; nothing is assumed about it here. */
  datatype PrivateKeys = PrivateKeys(
    publicKey: string -> Option<Bytes>,       // the public key of a private-key PEM text
    sign: (string, string) -> RawSignature)   // by a private-key PEM text, of a message

  /** The hypothesis that signatures verify under their own key for their own message. */
  ghost predicate Correct(c: Crypto, keys: PrivateKeys) {
    forall pem, m :: keys.publicKey(pem).Some? ==> c.verifies(keys.publicKey(pem).value, m, keys.sign(pem, m))
  }

  /** The idealised hypothesis that signatures of one message do not verify for another, and under
      no key but their own. */
  ghost predicate Exact(c: Crypto, keys: PrivateKeys, message: string, other: string) {
    forall pem, k ::
      keys.publicKey(pem).Some? && c.verifies(k, other, keys.sign(pem, message)) ==>
        keys.publicKey(pem) == Some(k) && other == message
  }

  /** The idealised hypothesis that only messages their owner signed verify under a key. */
  ghost predicate Unforgeable(c: Crypto, signed: (string, string) -> bool) {
    forall k, m, s :: c.verifies(k, m, s) ==> signed(k, m)
  }

  ghost predicate Holds(keys: PrivateKeys, pems: seq<string>, publicKey: Bytes) {
    exists pem :: pem in pems && keys.publicKey(pem) == Some(publicKey)
  }

  /** The unrevoked keys of the policy that were used for signing. */
  ghost function Signers(c: Crypto, keys: PrivateKeys, p: Policy, pems: seq<string>, now: u64): set<TrustedKey> {
    set k | k in p.trustedKeys && !Revoked(c, p, k, now) && Holds(keys, pems, k.publicKey)
  }

  ghost predicate AllLoad(keys: PrivateKeys, pems: seq<string>) {
    forall pem :: pem in pems ==> keys.publicKey(pem).Some?
  }

  lemma {:induction false} SmallerSet<T>(a: set<T>, b: set<T>)
    requires a <= b
    ensures |a| <= |b|
  {
    if a != {} {
      var e :| e in a;
      SmallerSet(a - {e}, b - {e});
    }
  }

  // ---- Detached signatures -------------------------------------------------------------------

  /** `sign_capsule`. */
  function SignCapsule(keys: PrivateKeys, capsule: string, pem: string): (r: Option<Envelope>)
    ensures r.Some? ==> ValidEnvelope(r.value)
  {
    var _ :- keys.publicKey(pem);
    Some(Envelope(ENVELOPE_VERSION, SIGNATURE_ALGORITHM, keys.sign(pem, SigningMessage(capsule))))
  }

  function SignAll(keys: PrivateKeys, capsule: string, pems: seq<string>): (r: seq<Envelope>)
    requires AllLoad(keys, pems)
    ensures |r| == |pems|
    ensures forall i :: 0 <= i < |pems| ==> pems[i] in pems && Some(r[i]) == SignCapsule(keys, capsule, pems[i])
  {
    if pems == [] then [] else SignAll(keys, capsule, pems[..|pems| - 1]) + [SignCapsule(keys, capsule, pems[|pems| - 1]).value]
  }

  /** A signer's envelope verifies for the capsule it signed. */
  lemma SignedCapsuleVerifies(c: Crypto, keys: PrivateKeys, p: Policy, capsule: string, pems: seq<string>, key: TrustedKey)
    requires Correct(c, keys) && AllLoad(keys, pems) && ValidTrustedKey(c, key) && Holds(keys, pems, key.publicKey)
    ensures SignedCapsule(c, capsule, SignAll(keys, capsule, pems), key.publicKey)
  {
    var pem :| pem in pems && keys.publicKey(pem) == Some(key.publicKey);
    var i :| 0 <= i < |pems| && pems[i] == pem;
    var e := SignAll(keys, capsule, pems)[i];
    assert VerifiesCapsule(c, capsule, e, key.publicKey);
  }

  lemma EnvelopeWasSigned(c: Crypto, keys: PrivateKeys, signed: string, capsule: string, pem: string, publicKey: Bytes)
    requires Exact(c, keys, SigningMessage(signed), SigningMessage(capsule)) && keys.publicKey(pem).Some?
    requires VerifiesCapsule(c, capsule, SignCapsule(keys, signed, pem).value, publicKey)
    ensures keys.publicKey(pem) == Some(publicKey) && capsule == signed
  {
    hide SigningMessage;
    var message, other := SigningMessage(signed), SigningMessage(capsule);
    var k: string := publicKey;
    assert keys.publicKey(pem).Some? && c.verifies(k, other, keys.sign(pem, message));
    assert keys.publicKey(pem) == Some(publicKey);
    assert other == message;
    SigningMessageInjective(signed, capsule);
  }

  /** Under exactness an envelope verifies only for the capsule that was signed, under the signer's
      key. */
  lemma VerifiedWasSigned(c: Crypto, keys: PrivateKeys, signed: string, capsule: string, pems: seq<string>, publicKey: Bytes)
    requires Exact(c, keys, SigningMessage(signed), SigningMessage(capsule)) && AllLoad(keys, pems)
    requires SignedCapsule(c, capsule, SignAll(keys, signed, pems), publicKey)
    ensures Holds(keys, pems, publicKey) && capsule == signed
  {
    hide SignAll, SigningMessage, Exact, VerifiesCapsule;
    var all := SignAll(keys, signed, pems);
    var e :| e in all && VerifiesCapsule(c, capsule, e, publicKey);
    var i :| 0 <= i < |all| && all[i] == e;
    assert Some(all[i]) == SignCapsule(keys, signed, pems[i]);
    EnvelopeWasSigned(c, keys, signed, capsule, pems[i], publicKey);
  }

  /** Envelopes made by `sign_capsule` are accepted for the signed capsule whenever enough distinct
      unrevoked policy keys signed it and the time is in the window; and, under exactness, only
      then. */
  lemma SignThenAccept(c: Crypto, keys: PrivateKeys, p: Policy, capsule: string, pems: seq<string>, now: u64)
    requires Correct(c, keys) && Valid(c, p) && AllLoad(keys, pems) && 1 <= |pems| <= MAX_SIGNATURES
    ensures var r := VerifyAt(c, p, capsule, SignAll(keys, capsule, pems), now);
            var enough := |Signers(c, keys, p, pems, now)| >= p.minimumSignatures;
            && (InWindow(p, now) && enough ==> r.Ok?)
            && (Exact(c, keys, SigningMessage(capsule), SigningMessage(capsule)) && r.Ok? ==> InWindow(p, now) && enough)
  {
    var all := SignAll(keys, capsule, pems);
    var signed := k => SignedCapsule(c, capsule, all, k);
    var signers, counted := Signers(c, keys, p, pems, now), CountedKeys(c, p, p.trustedKeys, now, signed);
    AcceptsIff(c, p, capsule, all, now);
    forall k | k in signers
      ensures k in counted
    {
      SignedCapsuleVerifies(c, keys, p, capsule, pems, k);
    }
    SmallerSet(signers, counted);
    if Exact(c, keys, SigningMessage(capsule), SigningMessage(capsule)) {
      forall k | k in counted
        ensures k in signers
      {
        VerifiedWasSigned(c, keys, capsule, capsule, pems, k.publicKey);
      }
      SmallerSet(counted, signers);
    }
  }

  /** Signatures for one capsule never authorise another, whatever keys made them. */
  lemma SignaturesDoNotTransfer(c: Crypto, keys: PrivateKeys, p: Policy, signed: string, capsule: string, pems: seq<string>, now: u64)
    requires Exact(c, keys, SigningMessage(signed), SigningMessage(capsule)) && AllLoad(keys, pems) && capsule != signed
    ensures VerifyAt(c, p, capsule, SignAll(keys, signed, pems), now).Err?
  {
    var all := SignAll(keys, signed, pems);
    if VerifyAt(c, p, capsule, all, now).Ok? {
      var counted := CountedKeys(c, p, p.trustedKeys, now, k => SignedCapsule(c, capsule, all, k));
      AcceptsIff(c, p, capsule, all, now);
      var k :| k in counted;
      VerifiedWasSigned(c, keys, signed, capsule, pems, k.publicKey);
    }
  }

  /** The keys of the policy whose owners signed this capsule. */
  ghost function Authors(c: Crypto, p: Policy, capsule: string, now: u64, signed: (string, string) -> bool): set<TrustedKey> {
    set k | k in p.trustedKeys && !Revoked(c, p, k, now) && signed(k.publicKey, SIGNING_DOMAIN + capsule)
  }

  /** Whatever signatures are presented: a capsule is accepted only when the owners of at least the
      minimum of unrevoked policy keys, no two of them the same key, signed the domain followed by
      exactly these capsule bytes. */
  lemma AcceptedWasSigned(c: Crypto, p: Policy, capsule: string, signatures: seq<Envelope>, now: u64, signed: (string, string) -> bool)
    requires Unforgeable(c, signed) && VerifyAt(c, p, capsule, signatures, now).Ok?
    ensures var authors := Authors(c, p, capsule, now, signed);
            && |authors| >= p.minimumSignatures >= 1
            && forall a, b :: a in authors && b in authors && a.publicKey == b.publicKey ==> a == b
  {
    var f := k => SignedCapsule(c, capsule, signatures, k);
    var counted, authors := CountedKeys(c, p, p.trustedKeys, now, f), Authors(c, p, capsule, now, signed);
    AcceptsIff(c, p, capsule, signatures, now);
    forall k | k in counted
      ensures k in authors
    {
      var e :| e in signatures && VerifiesCapsule(c, capsule, e, k.publicKey);
    }
    SmallerSet(counted, authors);
    forall a, b | a in authors && b in authors && a.publicKey == b.publicKey
      ensures a == b
    {
      var i, j :| 0 <= i < |p.trustedKeys| && 0 <= j < |p.trustedKeys| && p.trustedKeys[i] == a && p.trustedKeys[j] == b;
    }
  }
}
