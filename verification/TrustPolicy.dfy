/** Trust policies: data, validation and their canonical JSON encoding (src/trust.rs). */
module TrustPolicy {
  import opened Basics
  import opened Hex
  import Json
  import opened Records

  const VERSION_1 := 1
  const VERSION_2 := 2
  const MAX_TRUSTED_KEYS := 64
  const MAX_KEY_NAME_BYTES := 64
  const MAX_REASON_BYTES := 256
  const MAX_TRUST_POLICY_BYTES: u64 := 256 * 1024
  const PUBLIC_KEY_LENGTH := 32
  const SIGNATURE_LENGTH := 64
  const SIGNATURE_ALGORITHM := "ed25519"

  /** The cryptography the product calls; nothing is assumed about it. */
  datatype Crypto = Crypto(
    sha256: string -> Hash,
    isKey: string -> bool,                      // the bytes decode to an Ed25519 public key
    verifies: (string, string, string) -> bool, // strict verification of (key, message, signature)
    publicPem: string -> Option<Bytes>)         // SPKI PEM text to key bytes

  datatype TrustedKey = TrustedKey(name: string, publicKey: Bytes)

  datatype RevokedKey = RevokedKey(fingerprint: string, revokedAt: u64, reason: string)

  datatype Policy = Policy(
    version: u32,
    algorithm: string,
    policyId: Option<string>,
    revision: Option<u64>,
    previous: Option<string>,
    validFrom: Option<u64>,
    validUntil: Option<u64>,
    revokedKeys: seq<RevokedKey>,
    minimumSignatures: u32,
    trustedKeys: seq<TrustedKey>)

  // ---- Validation ------------------------------------------------------------------------

  predicate IsNameChar(c: char) {
    '0' <= c <= '9' || 'a' <= c <= 'z' || 'A' <= c <= 'Z' || c == '-' || c == '_' || c == '.'
  }

  predicate ValidKeyName(name: string) {
    1 <= |name| <= MAX_KEY_NAME_BYTES && forall i :: 0 <= i < |name| ==> IsNameChar(name[i])
  }

  predicate ValidRevocation(entry: RevokedKey) {
    ValidDigest(entry.fingerprint) && 1 <= |entry.reason| <= MAX_REASON_BYTES
  }

  predicate ValidTrustedKey(c: Crypto, key: TrustedKey) {
    ValidKeyName(key.name) && |key.publicKey| == PUBLIC_KEY_LENGTH && c.isKey(key.publicKey)
  }

  ghost predicate ValidRevocations(entries: seq<RevokedKey>) {
    && (forall i :: 0 <= i < |entries| ==> ValidRevocation(entries[i]))
    && (forall i, j :: 0 <= i < j < |entries| ==> entries[i].fingerprint != entries[j].fingerprint)
  }

  ghost predicate ValidKeys(c: Crypto, keys: seq<TrustedKey>) {
    && (forall i :: 0 <= i < |keys| ==> ValidTrustedKey(c, keys[i]))
    && (forall i, j :: 0 <= i < j < |keys| ==> keys[i].name != keys[j].name)
    && (forall i, j :: 0 <= i < j < |keys| ==> keys[i].publicKey != keys[j].publicKey)
  }

  predicate NoLifecycle(p: Policy) {
    && p.policyId.None? && p.revision.None? && p.previous.None?
    && p.validFrom.None? && p.validUntil.None? && p.revokedKeys == []
  }

  /** The scalar lifecycle fields of a version 2 policy. */
  predicate LifecycleHeader(p: Policy) {
    && p.policyId.Some? && ValidKeyName(p.policyId.value)
    && p.revision.Some? && p.revision.value >= 1
    && (p.previous.None? <==> p.revision.value == 1)
    && (p.previous.Some? ==> ValidDigest(p.previous.value))
    && p.validFrom.Some? && p.validUntil.Some? && p.validFrom.value < p.validUntil.value
  }

  predicate Threshold(p: Policy) {
    1 <= |p.trustedKeys| <= MAX_TRUSTED_KEYS && 1 <= p.minimumSignatures <= |p.trustedKeys|
  }

  ghost predicate Valid(c: Crypto, p: Policy) {
    && (p.version == VERSION_1 || p.version == VERSION_2)
    && (p.version == VERSION_1 ==> NoLifecycle(p))
    && (p.version == VERSION_2 ==> LifecycleHeader(p) && ValidRevocations(p.revokedKeys))
    && p.algorithm == SIGNATURE_ALGORITHM
    && Threshold(p)
    && ValidKeys(c, p.trustedKeys)
  }

  method CheckRevocations(entries: seq<RevokedKey>) returns (ok: bool)
    ensures ok <==> ValidRevocations(entries)
  {
    var revoked: set<string> := {};
    for i := 0 to |entries|
      invariant ValidRevocations(entries[..i])
      invariant revoked == set k | 0 <= k < i :: entries[k].fingerprint
    {
      if !ValidRevocation(entries[i]) || entries[i].fingerprint in revoked {
        return false;
      }
      revoked := revoked + {entries[i].fingerprint};
    }
    assert entries[..|entries|] == entries;
    return true;
  }

  method CheckKeys(c: Crypto, keys: seq<TrustedKey>) returns (ok: bool)
    ensures ok <==> ValidKeys(c, keys)
  {
    var names: set<string> := {};
    var publicKeys: set<Bytes> := {};
    for i := 0 to |keys|
      invariant ValidKeys(c, keys[..i])
      invariant names == set k | 0 <= k < i :: keys[k].name
      invariant publicKeys == set k | 0 <= k < i :: keys[k].publicKey
    {
      if !ValidKeyName(keys[i].name) || keys[i].name in names {
        return false;
      }
      names := names + {keys[i].name};
      if |keys[i].publicKey| != PUBLIC_KEY_LENGTH || !c.isKey(keys[i].publicKey) || keys[i].publicKey in publicKeys {
        return false;
      }
      publicKeys := publicKeys + {keys[i].publicKey};
    }
    assert keys[..|keys|] == keys;
    return true;
  }

  /** `TrustPolicy::validate`. */
  method Validate(c: Crypto, p: Policy) returns (ok: bool)
    ensures ok <==> Valid(c, p)
  {
    if p.version != VERSION_1 && p.version != VERSION_2 {
      return false;
    }
    if p.version == VERSION_1 {
      if !NoLifecycle(p) {
        return false;
      }
    } else {
      if !LifecycleHeader(p) {
        return false;
      }
      var revocationsOk := CheckRevocations(p.revokedKeys);
      if !revocationsOk {
        return false;
      }
    }
    if p.algorithm != SIGNATURE_ALGORITHM || !Threshold(p) {
      return false;
    }
    ok := CheckKeys(c, p.trustedKeys);
  }

  // ---- JSON ------------------------------------------------------------------------------

  function StringField(v: Option<string>): Option<Json.Json> {
    if v.None? then None else Some(Json.JStr(v.value))
  }

  function NumberField(v: Option<u64>): Option<Json.Json> {
    if v.None? then None else Some(Json.JNum(v.value))
  }

  function RevokedSlots(r: RevokedKey): seq<Slot> {
    [Slot("public_key_sha256", Some(Json.JStr(r.fingerprint))),
     Slot("revoked_at_unix_seconds", Some(Json.JNum(r.revokedAt))),
     Slot("reason", Some(Json.JStr(r.reason)))]
  }

  function KeySlots(k: TrustedKey): seq<Slot> {
    [Slot("name", Some(Json.JStr(k.name))),
     Slot("public_key", Some(BytesJson(k.publicKey)))]
  }

  function RevokedList(entries: seq<RevokedKey>): Json.Json {
    Json.JArr(seq(|entries|, i requires 0 <= i < |entries| => Json.JObj(Present(RevokedSlots(entries[i])))))
  }

  function KeyList(keys: seq<TrustedKey>): Json.Json {
    Json.JArr(seq(|keys|, i requires 0 <= i < |keys| => Json.JObj(Present(KeySlots(keys[i])))))
  }

  function PolicySlots(p: Policy): seq<Slot> {
    [Slot("version", Some(Json.JNum(p.version))),
     Slot("algorithm", Some(Json.JStr(p.algorithm))),
     Slot("policy_id", StringField(p.policyId)),
     Slot("revision", NumberField(p.revision)),
     Slot("previous_policy_sha256", StringField(p.previous)),
     Slot("valid_from_unix_seconds", NumberField(p.validFrom)),
     Slot("valid_until_unix_seconds", NumberField(p.validUntil)),
     Slot("revoked_keys", if p.revokedKeys == [] then None else Some(RevokedList(p.revokedKeys))),
     Slot("minimum_signatures", Some(Json.JNum(p.minimumSignatures))),
     Slot("trusted_keys", Some(KeyList(p.trustedKeys)))]
  }

  const REVOKED_FIELDS := {"public_key_sha256", "revoked_at_unix_seconds", "reason"}
  const KEY_FIELDS := {"name", "public_key"}
  const POLICY_FIELDS := {"version", "algorithm", "policy_id", "revision", "previous_policy_sha256",
                          "valid_from_unix_seconds", "valid_until_unix_seconds", "revoked_keys",
                          "minimum_signatures", "trusted_keys"}

  function Encode(p: Policy): string {
    Json.Document(Json.JObj(Present(PolicySlots(p))))
  }

  function ReadRevoked(j: Json.Json): Option<RevokedKey> {
    if !j.JObj? || !KnownOnce(j.members, REVOKED_FIELDS) then None
    else
      var fingerprint :- Lookup(j.members, "public_key_sha256");
      var revokedAt :- Lookup(j.members, "revoked_at_unix_seconds");
      var reason :- Lookup(j.members, "reason");
      var f :- AsString(fingerprint);
      var t :- ReadU64(revokedAt);
      var r :- AsString(reason);
      Some(RevokedKey(f, t, r))
  }

  function ReadKey(j: Json.Json): Option<TrustedKey> {
    if !j.JObj? || !KnownOnce(j.members, KEY_FIELDS) then None
    else
      var name :- Lookup(j.members, "name");
      var publicKey :- Lookup(j.members, "public_key");
      var n :- AsString(name);
      var k :- AsList(publicKey, ReadByte);
      Some(TrustedKey(n, k))
  }

  function ReadPolicy(j: Json.Json): Option<Policy> {
    if !j.JObj? || !KnownOnce(j.members, POLICY_FIELDS) then None
    else
      var version :- Lookup(j.members, "version");
      var v :- AsNumber(version, U32_MAX);
      var algorithm :- Lookup(j.members, "algorithm");
      var a :- AsString(algorithm);
      var policyId :- Optional(Lookup(j.members, "policy_id"), AsString);
      var revision :- Optional(Lookup(j.members, "revision"), ReadU64);
      var previous :- Optional(Lookup(j.members, "previous_policy_sha256"), AsString);
      var validFrom :- Optional(Lookup(j.members, "valid_from_unix_seconds"), ReadU64);
      var validUntil :- Optional(Lookup(j.members, "valid_until_unix_seconds"), ReadU64);
      var revokedField := Lookup(j.members, "revoked_keys");
      var revoked :- if revokedField.None? then Some([]) else AsList(revokedField.value, ReadRevoked);
      var minimum :- Lookup(j.members, "minimum_signatures");
      var m :- AsNumber(minimum, U32_MAX);
      var trusted :- Lookup(j.members, "trusted_keys");
      var keys :- AsList(trusted, ReadKey);
      Some(Policy(v, a, policyId, revision, previous, validFrom, validUntil, revoked, m, keys))
  }

  /** `serde_json::from_slice::<TrustPolicy>`. */
  function Decode(encoded: string): Option<Policy> {
    var j :- Json.ParseDocument(encoded);
    ReadPolicy(j)
  }

  /** `TrustPolicy::from_json`. */
  ghost function FromJson(c: Crypto, encoded: string): (r: Option<Policy>)
    ensures r.Some? ==> Valid(c, r.value)
  {
    var p :- Decode(encoded);
    if Valid(c, p) then Some(p) else None
  }

  lemma RevokedRoundTrip(r: RevokedKey)
    ensures ReadRevoked(Json.JObj(Present(RevokedSlots(r)))) == Some(r)
  {
    var slots := RevokedSlots(r);
    KnownOncePresent(slots, REVOKED_FIELDS);
    LookupPresent(slots, 0);
    LookupPresent(slots, 1);
    LookupPresent(slots, 2);
  }

  lemma KeyRoundTrip(k: TrustedKey)
    ensures ReadKey(Json.JObj(Present(KeySlots(k)))) == Some(k)
  {
    var slots := KeySlots(k);
    KnownOncePresent(slots, KEY_FIELDS);
    LookupPresent(slots, 0);
    LookupPresent(slots, 1);
    BytesRoundTrip(k.publicKey);
  }

  lemma ListsRoundTrip(p: Policy)
    ensures AsList(RevokedList(p.revokedKeys), ReadRevoked) == Some(p.revokedKeys)
    ensures AsList(KeyList(p.trustedKeys), ReadKey) == Some(p.trustedKeys)
  {
    forall i | 0 <= i < |p.revokedKeys| {
      RevokedRoundTrip(p.revokedKeys[i]);
    }
    MapAllOf(RevokedList(p.revokedKeys).items, ReadRevoked, p.revokedKeys);
    forall i | 0 <= i < |p.trustedKeys| {
      KeyRoundTrip(p.trustedKeys[i]);
    }
    MapAllOf(KeyList(p.trustedKeys).items, ReadKey, p.trustedKeys);
  }

  lemma PolicyNames(p: Policy)
    ensures DistinctNames(PolicySlots(p)) && Names(PolicySlots(p)) <= POLICY_FIELDS
  {
  }

  /** Only documents that are objects of the declared members, none repeated, are read as policies. */
  lemma PolicyStrict(encoded: string)
    requires Decode(encoded).Some?
    ensures Strict(Json.ParseDocument(encoded).value, POLICY_FIELDS)
  {
    hide Json.ParseDocument;
    KnownOnceIff(Json.ParseDocument(encoded).value.members, POLICY_FIELDS);
  }

  /** Each member of a policy's object, by name. */
  lemma PolicyLookups(p: Policy)
    ensures var ms := Present(PolicySlots(p));
            && KnownOnce(ms, POLICY_FIELDS)
            && Lookup(ms, "version") == Some(Json.JNum(p.version))
            && Lookup(ms, "algorithm") == Some(Json.JStr(p.algorithm))
            && Lookup(ms, "policy_id") == StringField(p.policyId)
            && Lookup(ms, "revision") == NumberField(p.revision)
            && Lookup(ms, "previous_policy_sha256") == StringField(p.previous)
            && Lookup(ms, "valid_from_unix_seconds") == NumberField(p.validFrom)
            && Lookup(ms, "valid_until_unix_seconds") == NumberField(p.validUntil)
            && Lookup(ms, "revoked_keys") == (if p.revokedKeys == [] then None else Some(RevokedList(p.revokedKeys)))
            && Lookup(ms, "minimum_signatures") == Some(Json.JNum(p.minimumSignatures))
            && Lookup(ms, "trusted_keys") == Some(KeyList(p.trustedKeys))
  {
    var slots := PolicySlots(p);
    PolicyNames(p);
    KnownOncePresent(slots, POLICY_FIELDS);
    LookupPresent(slots, 0);
    LookupPresent(slots, 1);
    LookupPresent(slots, 2);
    LookupPresent(slots, 3);
    LookupPresent(slots, 4);
    LookupPresent(slots, 5);
    LookupPresent(slots, 6);
    LookupPresent(slots, 7);
    LookupPresent(slots, 8);
    LookupPresent(slots, 9);
  }

  /** A policy's document holds, under each name, that field of the policy. */
  lemma DocumentFields(p: Policy)
    ensures var j := Json.ParseDocument(Encode(p));
            && j.Some? && Strict(j.value, POLICY_FIELDS)
            && (var ms := j.value.members;
                && Lookup(ms, "version") == Some(Json.JNum(p.version))
                && Lookup(ms, "algorithm") == Some(Json.JStr(p.algorithm))
                && Lookup(ms, "policy_id") == StringField(p.policyId)
                && Lookup(ms, "revision") == NumberField(p.revision)
                && Lookup(ms, "previous_policy_sha256") == StringField(p.previous)
                && Lookup(ms, "valid_from_unix_seconds") == NumberField(p.validFrom)
                && Lookup(ms, "valid_until_unix_seconds") == NumberField(p.validUntil)
                && Lookup(ms, "minimum_signatures") == Some(Json.JNum(p.minimumSignatures)))
  {
    hide Json.ParseDocument, Json.Document, PolicySlots, Present;
    Json.DocumentRoundTrip(Json.JObj(Present(PolicySlots(p))));
    PolicyLookups(p);
    KnownOnceIff(Present(PolicySlots(p)), POLICY_FIELDS);
  }

  lemma OptionalRoundTrip(text: Option<string>, number: Option<u64>)
    ensures Optional(StringField(text), AsString) == Some(text)
    ensures Optional(NumberField(number), ReadU64) == Some(number)
  {
  }

  /** Printing any policy and reading it back gives the same policy: absent lifecycle fields and
      an empty revocation list are omitted and restored, and any text survives escaping. */
  lemma EncodeRoundTrip(p: Policy)
    ensures Decode(Encode(p)) == Some(p)
  {
    var j := Json.JObj(Present(PolicySlots(p)));
    Json.DocumentRoundTrip(j);
    PolicyLookups(p);
    ListsRoundTrip(p);
    OptionalRoundTrip(p.policyId, p.revision);
    OptionalRoundTrip(p.previous, p.validFrom);
    OptionalRoundTrip(None, p.validUntil);
  }

  lemma JsonRoundTrip(c: Crypto, p: Policy)
    ensures FromJson(c, Encode(p)) == if Valid(c, p) then Some(p) else None
  {
    EncodeRoundTrip(p);
  }

  /** Different policies have different encodings. */
  lemma EncodeInjective(p: Policy, q: Policy)
    requires Encode(p) == Encode(q)
    ensures p == q
  {
    EncodeRoundTrip(p);
    EncodeRoundTrip(q);
  }

  /** `policy_digest` of a valid policy. */
  function PolicyDigest(c: Crypto, p: Policy): string {
    Digest(c.sha256(Encode(p)))
  }

  /** `public_key_digest`. */
  function Fingerprint(c: Crypto, publicKey: Bytes): string {
    Digest(c.sha256(publicKey))
  }
}
