/** Evaluating a trust policy: a threshold over distinct, unrevoked keys (src/trust.rs). */
module TrustEvaluation {
  import opened Basics
  import opened TrustPolicy
  import opened Signature
  import opened TrustLifecycle

  datatype Decision = Decision(
    requiredSignatures: u32,
    matchedSigners: seq<string>,
    policyDigest: string,
    policyVersion: u32,
    policyId: Option<string>,
    policyRevision: Option<u64>)

  datatype TrustError =
    | InvalidPolicy
    | NotYetValid
    | Expired
    | ThresholdCannotBeMet
    | NoSignature
    | TooManySignatures
    | BadSignatureLength
    | ThresholdNotMet

  /** `key_is_revoked`. */
  predicate Revoked(c: Crypto, p: Policy, key: TrustedKey, now: u64) {
    exists r :: r in p.revokedKeys && r.fingerprint == Fingerprint(c, key.publicKey) && r.revokedAt <= now
  }

  /** How many of the keys are not revoked. */
  function Active(c: Crypto, p: Policy, keys: seq<TrustedKey>, now: u64): (n: nat)
    ensures n <= |keys|
  {
    if keys == [] then 0
    else (if Revoked(c, p, keys[0], now) then 0 else 1) + Active(c, p, keys[1..], now)
  }

  /** `validate_at_unix_seconds` on a valid policy. */
  function CheckWindow(c: Crypto, p: Policy, now: u64): Result<(), TrustError>
    requires p.version == VERSION_2 ==> p.validFrom.Some? && p.validUntil.Some?
  {
    if p.version != VERSION_2 then Ok(())
    else if now < p.validFrom.value then Err(NotYetValid)
    else if now >= p.validUntil.value then Err(Expired)
    else if Active(c, p, p.trustedKeys, now) < p.minimumSignatures then Err(ThresholdCannotBeMet)
    else Ok(())
  }

  function CheckCount(count: nat): Result<(), TrustError> {
    if count == 0 then Err(NoSignature)
    else if count > MAX_SIGNATURES then Err(TooManySignatures)
    else Ok(())
  }

  /** Names of the unrevoked keys for which `signed` holds, in policy order. */
  function Matched(c: Crypto, p: Policy, keys: seq<TrustedKey>, now: u64, signed: Bytes -> bool): seq<string> {
    if keys == [] then []
    else
      (if !Revoked(c, p, keys[0], now) && signed(keys[0].publicKey) then [keys[0].name] else [])
      + Matched(c, p, keys[1..], now, signed)
  }

  /** `finish_decision`. */
  function Finish(c: Crypto, p: Policy, matched: seq<string>): Result<Decision, TrustError> {
    if |matched| < p.minimumSignatures then Err(ThresholdNotMet)
    else Ok(Decision(p.minimumSignatures, matched, PolicyDigest(c, p), p.version, p.policyId, p.revision))
  }

  /** Some envelope authenticates the capsule under the key. */
  predicate SignedCapsule(c: Crypto, capsule: string, signatures: seq<Envelope>, publicKey: Bytes) {
    exists e :: e in signatures && VerifiesCapsule(c, capsule, e, publicKey)
  }

  /** Some raw signature authenticates the message under the key. */
  predicate SignedRaw(c: Crypto, message: string, signatures: seq<Bytes>, publicKey: Bytes) {
    exists s :: s in signatures && c.verifies(publicKey, message, s)
  }

  /** `verify_at_unix_seconds`. */
  ghost function VerifyAt(c: Crypto, p: Policy, capsule: string, signatures: seq<Envelope>, now: u64): Result<Decision, TrustError> {
    if !Valid(c, p) then Err(InvalidPolicy)
    else
      var _ :- CheckWindow(c, p, now);
      var _ :- CheckCount(|signatures|);
      Finish(c, p, Matched(c, p, p.trustedKeys, now, k => SignedCapsule(c, capsule, signatures, k)))
  }

  /** `verify_raw_ed25519_signatures`, with the clock reading as a parameter. */
  ghost function VerifyRaw(c: Crypto, p: Policy, message: string, signatures: seq<Bytes>, now: u64): Result<Decision, TrustError> {
    if !Valid(c, p) then Err(InvalidPolicy)
    else
      var _ :- CheckWindow(c, p, now);
      var _ :- CheckCount(|signatures|);
      if exists s :: s in signatures && |s| != SIGNATURE_LENGTH then Err(BadSignatureLength)
      else Finish(c, p, Matched(c, p, p.trustedKeys, now, k => SignedRaw(c, message, signatures, k)))
  }

  /** `Matched` one key further. */
  lemma {:induction false} MatchedAppend(c: Crypto, p: Policy, keys: seq<TrustedKey>, key: TrustedKey, now: u64, signed: Bytes -> bool)
    ensures Matched(c, p, keys + [key], now, signed)
         == Matched(c, p, keys, now, signed)
            + (if !Revoked(c, p, key, now) && signed(key.publicKey) then [key.name] else [])
  {
    if keys == [] {
      assert [] + [key] == [key];
    } else {
      assert (keys + [key])[1..] == keys[1..] + [key];
      MatchedAppend(c, p, keys[1..], key, now, signed);
    }
  }

  /** The loop over the policy's keys, with `signed` the search for a signature of a key. */
  method MatchKeys(c: Crypto, p: Policy, now: u64, signed: Bytes -> bool) returns (matchedSigners: seq<string>)
    ensures matchedSigners == Matched(c, p, p.trustedKeys, now, signed)
  {
    matchedSigners := [];
    var keys := p.trustedKeys;
    for i := 0 to |keys|
      invariant matchedSigners == Matched(c, p, keys[..i], now, signed)
    {
      MatchedAppend(c, p, keys[..i], keys[i], now, signed);
      assert keys[..i + 1] == keys[..i] + [keys[i]];
      if Revoked(c, p, keys[i], now) {
        continue;
      }
      if signed(keys[i].publicKey) {
        matchedSigners := matchedSigners + [keys[i].name];
      }
    }
    assert keys[..|keys|] == keys;
  }

  method VerifyAtUnixSeconds(c: Crypto, p: Policy, capsule: string, signatures: seq<Envelope>, now: u64)
    returns (r: Result<Decision, TrustError>)
    ensures r == VerifyAt(c, p, capsule, signatures, now)
  {
    var valid := Validate(c, p);
    if !valid {
      return Err(InvalidPolicy);
    }
    var window := CheckWindow(c, p, now);
    if window.Err? {
      return Err(window.error);
    }
    var count := CheckCount(|signatures|);
    if count.Err? {
      return Err(count.error);
    }
    var matchedSigners := MatchKeys(c, p, now, k => SignedCapsule(c, capsule, signatures, k));
    return Finish(c, p, matchedSigners);
  }

  method VerifyRawSignatures(c: Crypto, p: Policy, message: string, signatures: seq<Bytes>, now: u64)
    returns (r: Result<Decision, TrustError>)
    ensures r == VerifyRaw(c, p, message, signatures, now)
  {
    var valid := Validate(c, p);
    if !valid {
      return Err(InvalidPolicy);
    }
    var window := CheckWindow(c, p, now);
    if window.Err? {
      return Err(window.error);
    }
    var count := CheckCount(|signatures|);
    if count.Err? {
      return Err(count.error);
    }
    for i := 0 to |signatures|
      invariant forall j :: 0 <= j < i ==> |signatures[j]| == SIGNATURE_LENGTH
    {
      if |signatures[i]| != SIGNATURE_LENGTH {
        assert signatures[i] in signatures;
        return Err(BadSignatureLength);
      }
    }
    var matchedSigners := MatchKeys(c, p, now, k => SignedRaw(c, message, signatures, k));
    return Finish(c, p, matchedSigners);
  }

  // ---- What acceptance means ---------------------------------------------------------------

  /** The policy's keys that are unrevoked and signed. */
  ghost function CountedKeys(c: Crypto, p: Policy, keys: seq<TrustedKey>, now: u64, signed: Bytes -> bool): set<TrustedKey> {
    set k | k in keys && !Revoked(c, p, k, now) && signed(k.publicKey)
  }

  lemma CountedKeysStep(c: Crypto, p: Policy, keys: seq<TrustedKey>, now: u64, signed: Bytes -> bool)
    requires keys != []
    ensures CountedKeys(c, p, keys, now, signed)
         == CountedKeys(c, p, keys[1..], now, signed)
            + (if !Revoked(c, p, keys[0], now) && signed(keys[0].publicKey) then {keys[0]} else {})
  {
    assert forall k :: k in keys <==> k == keys[0] || k in keys[1..];
  }

  ghost predicate HasName(keys: set<TrustedKey>, name: string) {
    exists k :: k in keys && k.name == name
  }

  /** The matched names are the names of the counted keys. */
  lemma {:induction false} MatchedNames(c: Crypto, p: Policy, keys: seq<TrustedKey>, now: u64, signed: Bytes -> bool, name: string)
    ensures name in Matched(c, p, keys, now, signed) <==> HasName(CountedKeys(c, p, keys, now, signed), name)
  {
    if keys != [] {
      MatchedNames(c, p, keys[1..], now, signed, name);
      CountedKeysStep(c, p, keys, now, signed);
    }
  }

  /** Each counted key is matched exactly once. */
  lemma {:induction false} MatchedCounts(c: Crypto, p: Policy, keys: seq<TrustedKey>, now: u64, signed: Bytes -> bool)
    requires forall i, j :: 0 <= i < j < |keys| ==> keys[i].name != keys[j].name
    ensures |Matched(c, p, keys, now, signed)| == |CountedKeys(c, p, keys, now, signed)|
    ensures Distinct(Matched(c, p, keys, now, signed))
  {
    if keys == [] {
      assert CountedKeys(c, p, keys, now, signed) == {};
    } else {
      var key, rest := keys[0], keys[1..];
      var tail, more := Matched(c, p, rest, now, signed), CountedKeys(c, p, rest, now, signed);
      MatchedCounts(c, p, rest, now, signed);
      CountedKeysStep(c, p, keys, now, signed);
      MatchedNames(c, p, rest, now, signed, key.name);
      assert forall k :: k in rest ==> k.name != key.name;
      assert key !in more && key.name !in tail;
      if Revoked(c, p, key, now) || !signed(key.publicKey) {
        assert Matched(c, p, keys, now, signed) == tail;
      } else {
        assert Matched(c, p, keys, now, signed) == [key.name] + tail;
        DistinctCons(key.name, tail);
      }
    }
  }

  lemma DistinctCons(name: string, names: seq<string>)
    requires Distinct(names) && name !in names
    ensures Distinct([name] + names)
  {
  }

  ghost predicate InWindow(p: Policy, now: u64) {
    p.version == VERSION_2 ==>
      p.validFrom.Some? && p.validUntil.Some? && p.validFrom.value <= now < p.validUntil.value
  }

  lemma {:induction false} MatchedAtMostActive(c: Crypto, p: Policy, keys: seq<TrustedKey>, now: u64, signed: Bytes -> bool)
    ensures |Matched(c, p, keys, now, signed)| <= Active(c, p, keys, now)
  {
    if keys != [] {
      MatchedAtMostActive(c, p, keys[1..], now, signed);
    }
  }

  /** The decision names the policy that was enforced. */
  ghost predicate DescribesPolicy(c: Crypto, p: Policy, d: Decision) {
    && d.policyDigest == PolicyDigest(c, p) && d.policyVersion == p.version
    && d.policyId == p.policyId && d.policyRevision == p.revision
  }

  /** A valid policy accepts exactly when the time is in its window, there are 1 to 64
      signatures, and enough distinct unrevoked keys are matched. The check that the threshold
      cannot be met never changes the verdict. */
  lemma AcceptsIff(c: Crypto, p: Policy, capsule: string, signatures: seq<Envelope>, now: u64)
    requires Valid(c, p)
    ensures var signed := k => SignedCapsule(c, capsule, signatures, k);
            var r := VerifyAt(c, p, capsule, signatures, now);
            && (r.Ok? <==>
                 && InWindow(p, now)
                 && 1 <= |signatures| <= MAX_SIGNATURES
                 && |CountedKeys(c, p, p.trustedKeys, now, signed)| >= p.minimumSignatures)
            && (r.Ok? ==>
                 && r.value.matchedSigners == Matched(c, p, p.trustedKeys, now, signed)
                 && Distinct(r.value.matchedSigners)
                 && |r.value.matchedSigners| >= r.value.requiredSignatures == p.minimumSignatures >= 1
                 && DescribesPolicy(c, p, r.value))
  {
    var signed := k => SignedCapsule(c, capsule, signatures, k);
    MatchedCounts(c, p, p.trustedKeys, now, signed);
    MatchedAtMostActive(c, p, p.trustedKeys, now, signed);
  }

  ghost function UnrevokedKeys(c: Crypto, p: Policy, keys: seq<TrustedKey>, now: u64): set<TrustedKey> {
    set k | k in keys && !Revoked(c, p, k, now)
  }

  lemma UnrevokedStep(c: Crypto, p: Policy, keys: seq<TrustedKey>, now: u64)
    requires keys != [] && keys[0] !in keys[1..]
    ensures |UnrevokedKeys(c, p, keys, now)|
         == |UnrevokedKeys(c, p, keys[1..], now)| + (if Revoked(c, p, keys[0], now) then 0 else 1)
  {
    hide Revoked;
    var more := UnrevokedKeys(c, p, keys[1..], now);
    assert forall k :: k in keys <==> k == keys[0] || k in keys[1..];
    assert keys[0] !in more;
    assert UnrevokedKeys(c, p, keys, now) == more + if Revoked(c, p, keys[0], now) then {} else {keys[0]};
  }

  lemma {:induction false} ActiveCounts(c: Crypto, p: Policy, keys: seq<TrustedKey>, now: u64)
    requires forall i, j :: 0 <= i < j < |keys| ==> keys[i].name != keys[j].name
    ensures Active(c, p, keys, now) == |UnrevokedKeys(c, p, keys, now)|
  {
    hide Revoked;
    if keys == [] {
      assert UnrevokedKeys(c, p, keys, now) == {};
    } else {
      ActiveCounts(c, p, keys[1..], now);
      UnrevokedStep(c, p, keys, now);
    }
  }

  /** A valid policy can always be satisfied: inside its window, with no key revoked, signatures by all
      its keys are enough. */
  lemma AllKeysSuffice(c: Crypto, p: Policy, capsule: string, signatures: seq<Envelope>, now: u64)
    requires Valid(c, p) && InWindow(p, now) && 1 <= |signatures| <= MAX_SIGNATURES
    requires forall k :: k in p.trustedKeys ==> !Revoked(c, p, k, now) && SignedCapsule(c, capsule, signatures, k.publicKey)
    ensures var r := VerifyAt(c, p, capsule, signatures, now);
            r.Ok? && r.value.matchedSigners == KeyNames(p.trustedKeys)
  {
    hide Revoked, SignedCapsule, PolicyDigest;
    AllMatched(c, p, p.trustedKeys, now, k => SignedCapsule(c, capsule, signatures, k));
    MatchedAtMostActive(c, p, p.trustedKeys, now, k => SignedCapsule(c, capsule, signatures, k));
  }

  lemma {:induction false} AllMatched(c: Crypto, p: Policy, keys: seq<TrustedKey>, now: u64, signed: Bytes -> bool)
    requires forall k :: k in keys ==> !Revoked(c, p, k, now) && signed(k.publicKey)
    ensures Matched(c, p, keys, now, signed) == KeyNames(keys) && |KeyNames(keys)| == |keys|
  {
    hide Revoked;
    if keys != [] {
      assert forall k :: k in keys[1..] ==> k in keys;
      AllMatched(c, p, keys[1..], now, signed);
    }
  }

  /** Why a capsule is refused. A lifecycle policy is checked against the time and its revocations
      first, then the signatures are counted, and only then are keys matched. */
  lemma RefusedIff(c: Crypto, p: Policy, capsule: string, signatures: seq<Envelope>, now: u64)
    requires Valid(c, p)
    ensures var r := VerifyAt(c, p, capsule, signatures, now);
            var signed := k => SignedCapsule(c, capsule, signatures, k);
            var lifecycle := p.version == VERSION_2;
            var open := InWindow(p, now) && (lifecycle ==> |UnrevokedKeys(c, p, p.trustedKeys, now)| >= p.minimumSignatures);
            && (r == Err(NotYetValid) <==> lifecycle && now < p.validFrom.value)
            && (r == Err(Expired) <==> lifecycle && now >= p.validUntil.value)
            && (r == Err(ThresholdCannotBeMet) <==> InWindow(p, now) && !open)
            && (r == Err(NoSignature) <==> open && signatures == [])
            && (r == Err(TooManySignatures) <==> open && |signatures| > 64)
            && (r == Err(ThresholdNotMet) <==>
                  open && 1 <= |signatures| <= 64 && |CountedKeys(c, p, p.trustedKeys, now, signed)| < p.minimumSignatures)
  {
    hide Active, Matched, CountedKeys, UnrevokedKeys, Revoked, SignedCapsule, PolicyDigest;
    ActiveCounts(c, p, p.trustedKeys, now);
    MatchedCounts(c, p, p.trustedKeys, now, k => SignedCapsule(c, capsule, signatures, k));
  }

  /** The same for raw signatures, all of which must have the right length. */
  lemma RawAcceptsIff(c: Crypto, p: Policy, message: string, signatures: seq<Bytes>, now: u64)
    requires Valid(c, p)
    ensures var signed := k => SignedRaw(c, message, signatures, k);
            var r := VerifyRaw(c, p, message, signatures, now);
            && (r.Ok? <==>
                 && InWindow(p, now)
                 && 1 <= |signatures| <= MAX_SIGNATURES
                 && (forall s :: s in signatures ==> |s| == SIGNATURE_LENGTH)
                 && |CountedKeys(c, p, p.trustedKeys, now, signed)| >= p.minimumSignatures)
            && (r.Ok? ==>
                 && r.value.matchedSigners == Matched(c, p, p.trustedKeys, now, signed)
                 && Distinct(r.value.matchedSigners)
                 && |r.value.matchedSigners| >= r.value.requiredSignatures == p.minimumSignatures >= 1
                 && DescribesPolicy(c, p, r.value))
  {
    var signed := k => SignedRaw(c, message, signatures, k);
    MatchedCounts(c, p, p.trustedKeys, now, signed);
    MatchedAtMostActive(c, p, p.trustedKeys, now, signed);
  }

  /** The matched names appear in the order of the policy's keys. */
  lemma {:induction false} MatchedInPolicyOrder(c: Crypto, p: Policy, keys: seq<TrustedKey>, now: u64, signed: Bytes -> bool)
    ensures Subsequence(Matched(c, p, keys, now, signed), KeyNames(keys))
  {
    if keys != [] {
      MatchedInPolicyOrder(c, p, keys[1..], now, signed);
      var names := Matched(c, p, keys, now, signed);
      var rest := Matched(c, p, keys[1..], now, signed);
      assert KeyNames(keys)[1..] == KeyNames(keys[1..]);
      assert names == rest || names[1..] == rest;
    }
  }

  function KeyNames(keys: seq<TrustedKey>): seq<string> {
    if keys == [] then [] else [keys[0].name] + KeyNames(keys[1..])
  }

  predicate Subsequence(a: seq<string>, b: seq<string>)
    decreases |b|
  {
    a == [] || (b != [] && ((a[0] == b[0] && Subsequence(a[1..], b[1..])) || Subsequence(a, b[1..])))
  }

  // ---- Order and repetition of signatures ----------------------------------------------------

  lemma {:induction false} MatchedCongruence(c: Crypto, p: Policy, keys: seq<TrustedKey>, now: u64, f: Bytes -> bool, g: Bytes -> bool)
    requires forall k :: k in keys ==> f(k.publicKey) == g(k.publicKey)
    ensures Matched(c, p, keys, now, f) == Matched(c, p, keys, now, g)
  {
    if keys != [] {
      MatchedCongruence(c, p, keys[1..], now, f, g);
    }
  }

  /** Permuting or repeating signatures, within the count limit, changes nothing. */
  lemma SignatureOrderIrrelevant(c: Crypto, p: Policy, capsule: string, a: seq<Envelope>, b: seq<Envelope>, now: u64)
    requires forall e :: e in a <==> e in b
    requires |a| <= MAX_SIGNATURES && |b| <= MAX_SIGNATURES
    ensures VerifyAt(c, p, capsule, a, now) == VerifyAt(c, p, capsule, b, now)
  {
    var f, g := k => SignedCapsule(c, capsule, a, k), k => SignedCapsule(c, capsule, b, k);
    assert a == [] <==> b == [] by {
      assert a != [] ==> a[0] in b;
      assert b != [] ==> b[0] in a;
    }
    if Valid(c, p) {
      MatchedCongruence(c, p, p.trustedKeys, now, f, g);
    }
  }

  lemma RawSignatureOrderIrrelevant(c: Crypto, p: Policy, message: string, a: seq<Bytes>, b: seq<Bytes>, now: u64)
    requires forall s :: s in a <==> s in b
    requires |a| <= MAX_SIGNATURES && |b| <= MAX_SIGNATURES
    ensures VerifyRaw(c, p, message, a, now) == VerifyRaw(c, p, message, b, now)
  {
    var f, g := k => SignedRaw(c, message, a, k), k => SignedRaw(c, message, b, k);
    assert a == [] <==> b == [] by {
      assert a != [] ==> a[0] in b;
      assert b != [] ==> b[0] in a;
    }
    if Valid(c, p) {
      MatchedCongruence(c, p, p.trustedKeys, now, f, g);
    }
  }

  // ---- Time --------------------------------------------------------------------------------

  lemma {:induction false} MatchedShrinks(c: Crypto, p: Policy, keys: seq<TrustedKey>, t: u64, u: u64, signed: Bytes -> bool)
    requires t <= u
    ensures |Matched(c, p, keys, u, signed)| <= |Matched(c, p, keys, t, signed)|
    ensures Subsequence(Matched(c, p, keys, u, signed), Matched(c, p, keys, t, signed))
  {
    if keys != [] {
      MatchedShrinks(c, p, keys[1..], t, u, signed);
      var early, late := Matched(c, p, keys, t, signed), Matched(c, p, keys, u, signed);
      var early', late' := Matched(c, p, keys[1..], t, signed), Matched(c, p, keys[1..], u, signed);
      if Revoked(c, p, keys[0], t) || !signed(keys[0].publicKey) {
        assert early == early' && late == late';
      } else {
        assert early[1..] == early';
        assert late == late' || late[1..] == late';
      }
    }
  }

  /** Acceptance at a time inside the window carries over to every earlier time inside it, with
      the later signers a subsequence of the earlier ones. */
  lemma EarlierAccepts(c: Crypto, p: Policy, capsule: string, signatures: seq<Envelope>, t: u64, u: u64)
    requires VerifyAt(c, p, capsule, signatures, u).Ok?
    requires t <= u && InWindow(p, t)
    ensures VerifyAt(c, p, capsule, signatures, t).Ok?
    ensures Subsequence(VerifyAt(c, p, capsule, signatures, u).value.matchedSigners,
                        VerifyAt(c, p, capsule, signatures, t).value.matchedSigners)
  {
    var signed := k => SignedCapsule(c, capsule, signatures, k);
    MatchedShrinks(c, p, p.trustedKeys, t, u, signed);
    MatchedAtMostActive(c, p, p.trustedKeys, t, signed);
  }

  /** The accepting times of a version 2 policy form an initial segment of its window. */
  lemma AcceptanceCutoff(c: Crypto, p: Policy, capsule: string, signatures: seq<Envelope>) returns (cutoff: nat)
    requires Valid(c, p) && p.version == VERSION_2
    ensures p.validFrom.value <= cutoff <= p.validUntil.value
    ensures forall now: u64 :: VerifyAt(c, p, capsule, signatures, now).Ok? <==> p.validFrom.value <= now < cutoff
  {
    cutoff := p.validFrom.value;
    while cutoff < p.validUntil.value && VerifyAt(c, p, capsule, signatures, cutoff).Ok?
      invariant p.validFrom.value <= cutoff <= p.validUntil.value
      invariant forall now: u64 :: p.validFrom.value <= now < cutoff ==> VerifyAt(c, p, capsule, signatures, now).Ok?
    {
      cutoff := cutoff + 1;
    }
    forall now: u64 | VerifyAt(c, p, capsule, signatures, now).Ok?
      ensures p.validFrom.value <= now < cutoff
    {
      if cutoff <= now {
        EarlierAccepts(c, p, capsule, signatures, cutoff, now);
      }
    }
  }

  /** Every policy but a version 2 one, which alone has a lifecycle, decides the same at all times. */
  lemma PlainPolicyIsTimeless(c: Crypto, p: Policy, capsule: string, signatures: seq<Envelope>, t: u64, u: u64)
    requires p.version != VERSION_2
    ensures VerifyAt(c, p, capsule, signatures, t) == VerifyAt(c, p, capsule, signatures, u)
  {
    if Valid(c, p) {
      NeverRevoked(c, p, p.trustedKeys, t, u, k => SignedCapsule(c, capsule, signatures, k));
    }
  }

  lemma {:induction false} NeverRevoked(c: Crypto, p: Policy, keys: seq<TrustedKey>, t: u64, u: u64, signed: Bytes -> bool)
    requires p.revokedKeys == []
    ensures Matched(c, p, keys, t, signed) == Matched(c, p, keys, u, signed)
  {
    if keys != [] {
      NeverRevoked(c, p, keys[1..], t, u, signed);
    }
  }

  /** When a fingerprint is revoked: the time of the first entry that lists it. */
  function RevocationTime(entries: seq<RevokedKey>, fingerprint: string): Option<u64> {
    if entries == [] then None
    else if entries[0].fingerprint == fingerprint then Some(entries[0].revokedAt)
    else RevocationTime(entries[1..], fingerprint)
  }

  lemma {:induction false} RevokedAmongIff(entries: seq<RevokedKey>, fingerprint: string, now: u64)
    requires forall i, j :: 0 <= i < j < |entries| ==> entries[i].fingerprint != entries[j].fingerprint
    ensures (exists r :: r in entries && r.fingerprint == fingerprint && r.revokedAt <= now) <==>
            RevocationTime(entries, fingerprint).Some? && RevocationTime(entries, fingerprint).value <= now
  {
    if entries != [] {
      RevokedAmongIff(entries[1..], fingerprint, now);
      assert forall r :: r in entries <==> r == entries[0] || r in entries[1..];
      if entries[0].fingerprint == fingerprint {
        assert forall r :: r in entries[1..] ==> r.fingerprint != fingerprint;
      }
    }
  }

  /** In a valid lifecycle policy a key has at most one revocation time, and is revoked from exactly
      that time on. */
  lemma RevokedFrom(c: Crypto, p: Policy, key: TrustedKey, now: u64)
    requires Valid(c, p) && p.version == VERSION_2
    ensures var time := RevocationTime(p.revokedKeys, Fingerprint(c, key.publicKey));
            Revoked(c, p, key, now) <==> time.Some? && time.value <= now
  {
    RevokedAmongIff(p.revokedKeys, Fingerprint(c, key.publicKey), now);
  }

  /** Every valid lifecycle policy has a time inside its window. */
  lemma WindowOpens(c: Crypto, p: Policy)
    requires Valid(c, p) && p.version == VERSION_2
    ensures InWindow(p, p.validFrom.value) && !InWindow(p, p.validUntil.value)
  {
  }

  // ---- Revocation over a policy's history ----------------------------------------------------

  /** When every revocation is already in force, the signers do not depend on the time. */
  lemma SignersStable(c: Crypto, p: Policy, capsule: string, signatures: seq<Envelope>, t: u64, u: u64)
    requires RevocationsInForce(p) && p.version == VERSION_2
    requires VerifyAt(c, p, capsule, signatures, t).Ok? && VerifyAt(c, p, capsule, signatures, u).Ok?
    ensures VerifyAt(c, p, capsule, signatures, t) == VerifyAt(c, p, capsule, signatures, u)
  {
    MatchedStable(c, p, p.trustedKeys, t, u, k => SignedCapsule(c, capsule, signatures, k));
  }

  lemma {:induction false} MatchedStable(c: Crypto, p: Policy, keys: seq<TrustedKey>, t: u64, u: u64, signed: Bytes -> bool)
    requires RevocationsInForce(p) && p.validFrom.value <= t && p.validFrom.value <= u
    ensures Matched(c, p, keys, t, signed) == Matched(c, p, keys, u, signed)
  {
    if keys != [] {
      MatchedStable(c, p, keys[1..], t, u, signed);
      assert Revoked(c, p, keys[0], t) == Revoked(c, p, keys[0], u);
    }
  }

  /** Once a public key is revoked in some policy of a run, no later policy of the run ever counts
      it, under whatever name it is added again and at any time inside that policy's window. */
  lemma RevokedNeverMatches(c: Crypto, a: CreateArgs, updates: seq<UpdateArgs>, hs: seq<Policy>, i: nat, j: nat,
                            key: TrustedKey, capsule: string, signatures: seq<Envelope>, now: u64)
    requires History(c, a, updates, hs) && i <= j < |hs|
    requires Listed(hs[i].revokedKeys, Fingerprint(c, key.publicKey))
    requires key in hs[j].trustedKeys
    requires VerifyAt(c, hs[j], capsule, signatures, now).Ok?
    ensures key.name !in VerifyAt(c, hs[j], capsule, signatures, now).value.matchedSigners
  {
    hide Update, Create, Valid, PolicyDigest, VerifyAt, Fingerprint;
    var p := hs[j];
    HistoryInvariant(c, a, updates, hs, j);
    HistoryMonotone(c, a, updates, hs, i, j);
    var r :| r in hs[i].revokedKeys && r.fingerprint == Fingerprint(c, key.publicKey);
    assert r in p.revokedKeys;
    RevokedUncounted(c, p, key, r, capsule, signatures, now);
  }

  /** A key listed by an entry in force is not matched. */
  lemma RevokedUncounted(c: Crypto, p: Policy, key: TrustedKey, r: RevokedKey, capsule: string, signatures: seq<Envelope>, now: u64)
    requires key in p.trustedKeys && VerifyAt(c, p, capsule, signatures, now).Ok?
    requires p.version == VERSION_2 && RevocationsInForce(p)
    requires r in p.revokedKeys && r.fingerprint == Fingerprint(c, key.publicKey)
    ensures key.name !in VerifyAt(c, p, capsule, signatures, now).value.matchedSigners
  {
    hide PolicyDigest, SignedCapsule;
    var signed := k => SignedCapsule(c, capsule, signatures, k);
    assert Revoked(c, p, key, now);
    MatchedNames(c, p, p.trustedKeys, now, signed, key.name);
    forall k | k in CountedKeys(c, p, p.trustedKeys, now, signed)
      ensures k.name != key.name
    {
      UniqueNames(c, p.trustedKeys, key);
      UniqueNames(c, p.trustedKeys, k);
    }
  }

  /** Revoking by name works: a successful update that names a key stops it from ever counting in
      the policies that follow. */
  lemma NamedRevocationHolds(c: Crypto, a: CreateArgs, updates: seq<UpdateArgs>, hs: seq<Policy>, i: nat, j: nat,
                             named: TrustedKey, key: TrustedKey,
                             capsule: string, signatures: seq<Envelope>, now: u64)
    requires History(c, a, updates, hs) && i < j < |hs|
    requires named in hs[i].trustedKeys && named.name in updates[i].revokedNames
    requires key in hs[j].trustedKeys && key.publicKey == named.publicKey
    requires VerifyAt(c, hs[j], capsule, signatures, now).Ok?
    ensures key.name !in VerifyAt(c, hs[j], capsule, signatures, now).value.matchedSigners
  {
    assert Update(c, hs[i], updates[i]) == Ok(hs[i + 1]);
    UpdateLinks(c, hs[i], updates[i]);
    RevokedNeverMatches(c, a, updates, hs, i + 1, j, key, capsule, signatures, now);
  }
}
