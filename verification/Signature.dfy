/** Detached capsule signatures (src/signature.rs). */
module Signature {
  import opened Basics
  import Json
  import opened Records
  import opened TrustPolicy

  const ENVELOPE_VERSION := 1
  const SIGNING_DOMAIN := "SciCapsule detached signature v1\0"

  datatype Envelope = Envelope(version: u32, algorithm: string, signature: Bytes)

  /** `SignatureEnvelope::validate`. */
  predicate ValidEnvelope(e: Envelope) {
    e.version == ENVELOPE_VERSION && e.algorithm == SIGNATURE_ALGORITHM && |e.signature| == SIGNATURE_LENGTH
  }

  /** What a detached signature signs: the domain, then the capsule bytes. */
  function SigningMessage(capsule: string): string {
    SIGNING_DOMAIN + capsule
  }

  /** Different capsules are never signed by the same message. */
  lemma SigningMessageInjective(a: string, b: string)
    requires SigningMessage(a) == SigningMessage(b)
    ensures a == b
  {
    assert SigningMessage(a)[|SIGNING_DOMAIN|..] == a;
    assert SigningMessage(b)[|SIGNING_DOMAIN|..] == b;
  }

  /** Whether `verify_capsule_signature_with_public_key_bytes` succeeds. */
  predicate VerifiesCapsule(c: Crypto, capsule: string, e: Envelope, publicKey: Bytes) {
    && |publicKey| == PUBLIC_KEY_LENGTH && c.isKey(publicKey)
    && ValidEnvelope(e)
    && c.verifies(publicKey, SigningMessage(capsule), e.signature)
  }

  // ---- JSON ------------------------------------------------------------------------------

  const ENVELOPE_FIELDS := {"version", "algorithm", "signature"}

  function EnvelopeSlots(e: Envelope): seq<Slot> {
    [Slot("version", Some(Json.JNum(e.version))),
     Slot("algorithm", Some(Json.JStr(e.algorithm))),
     Slot("signature", Some(BytesJson(e.signature)))]
  }

  function EnvelopeJson(e: Envelope): Json.Json {
    Json.JObj(Present(EnvelopeSlots(e)))
  }

  function ReadEnvelope(j: Json.Json): Option<Envelope> {
    if !j.JObj? || !KnownOnce(j.members, ENVELOPE_FIELDS) then None
    else
      var version :- Lookup(j.members, "version");
      var v :- AsNumber(version, U32_MAX);
      var algorithm :- Lookup(j.members, "algorithm");
      var a :- AsString(algorithm);
      var signature :- Lookup(j.members, "signature");
      var s :- AsList(signature, ReadByte);
      Some(Envelope(v, a, s))
  }

  /** `SignatureEnvelope::to_json` of a valid envelope. */
  function EncodeEnvelope(e: Envelope): string {
    Json.Document(EnvelopeJson(e))
  }

  /** `SignatureEnvelope::from_json`. */
  function DecodeEnvelope(encoded: string): (r: Option<Envelope>)
    ensures r.Some? ==> ValidEnvelope(r.value)
  {
    var j :- Json.ParseDocument(encoded);
    var e :- ReadEnvelope(j);
    if ValidEnvelope(e) then Some(e) else None
  }

  lemma ReadEnvelopeRoundTrip(e: Envelope)
    ensures ReadEnvelope(EnvelopeJson(e)) == Some(e)
  {
    var slots := EnvelopeSlots(e);
    KnownOncePresent(slots, ENVELOPE_FIELDS);
    LookupPresent(slots, 0);
    LookupPresent(slots, 1);
    LookupPresent(slots, 2);
    BytesRoundTrip(e.signature);
  }

  /** Only documents that are objects of the three members, none repeated, are read as envelopes. */
  lemma EnvelopeStrict(encoded: string)
    requires DecodeEnvelope(encoded).Some?
    ensures Strict(Json.ParseDocument(encoded).value, ENVELOPE_FIELDS)
  {
    hide Json.ParseDocument;
    KnownOnceIff(Json.ParseDocument(encoded).value.members, ENVELOPE_FIELDS);
  }

  /** Writing an envelope and reading it back gives it, exactly when it is valid. */
  lemma EnvelopeRoundTrip(e: Envelope)
    ensures DecodeEnvelope(EncodeEnvelope(e)) == if ValidEnvelope(e) then Some(e) else None
  {
    Json.DocumentRoundTrip(EnvelopeJson(e));
    ReadEnvelopeRoundTrip(e);
  }
}
