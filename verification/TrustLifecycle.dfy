/** Creating trust policies and updating them under control (src/trust.rs). */
module TrustLifecycle {
  import opened Basics
  import opened Hex
  import opened TrustPolicy

  const UPDATE_REASON := "controlled policy update"

  datatype CreateArgs = CreateArgs(
    policyId: string,
    validFrom: u64,
    validUntil: u64,
    minimumSignatures: u32,
    keys: seq<(string, string)>) // names and SPKI PEM texts

  datatype UpdateArgs = UpdateArgs(
    expectedDigest: string,
    validFrom: u64,
    validUntil: u64,
    minimumSignatures: u32,
    keys: seq<(string, string)>,
    revokedNames: seq<string>)

  datatype UpdateError =
    | CurrentInvalid
    | NotLifecycle
    | DigestMismatch
    | StartsTooEarly
    | KeysRejected
    | RevisionOverflow
    | DuplicateRevokedName
    | UnknownRevokedName
    | SuccessorInvalid

  // ---- Construction ----------------------------------------------------------------------

  function DecodePems(c: Crypto, keys: seq<(string, string)>): Option<seq<TrustedKey>> {
    if keys == [] then Some([])
    else
      var publicKey :- c.publicPem(keys[0].1);
      var rest :- DecodePems(c, keys[1..]);
      Some([TrustedKey(keys[0].0, publicKey)] + rest)
  }

  function PolicyV1(minimum: u32, keys: seq<TrustedKey>): Policy {
    Policy(VERSION_1, SIGNATURE_ALGORITHM, None, None, None, None, None, [], minimum, keys)
  }

  function PolicyV2(a: CreateArgs, keys: seq<TrustedKey>): Policy {
    Policy(VERSION_2, SIGNATURE_ALGORITHM, Some(a.policyId), Some(1), None, Some(a.validFrom),
           Some(a.validUntil), [], a.minimumSignatures, keys)
  }

  /** `from_named_pem_keys`. */
  ghost function CreateV1(c: Crypto, minimum: u32, keys: seq<(string, string)>): Option<Policy> {
    var trusted :- DecodePems(c, keys);
    var p := PolicyV1(minimum, trusted);
    if Valid(c, p) then Some(p) else None
  }

  /** `from_named_pem_keys_v2`. */
  ghost function Create(c: Crypto, a: CreateArgs): (r: Option<Policy>)
    ensures r.Some? ==> Valid(c, r.value) && r.value.version == VERSION_2
  {
    var legacy :- CreateV1(c, a.minimumSignatures, a.keys);
    var p := PolicyV2(a, legacy.trustedKeys);
    if Valid(c, p) then Some(p) else None
  }

  method DecodePemKeys(c: Crypto, keys: seq<(string, string)>) returns (r: Option<seq<TrustedKey>>)
    ensures r == DecodePems(c, keys)
  {
    var trusted := [];
    assert keys[0..] == keys;
    assert forall rest: seq<TrustedKey> :: [] + rest == rest;
    for i := 0 to |keys|
      invariant DecodePems(c, keys) ==
                (var rest := DecodePems(c, keys[i..]); if rest.None? then None else Some(trusted + rest.value))
    {
      var publicKey := c.publicPem(keys[i].1);
      if publicKey.None? {
        return None;
      }
      assert keys[i..][1..] == keys[i + 1..];
      var key := TrustedKey(keys[i].0, publicKey.value);
      assert forall rest :: trusted + ([key] + rest) == (trusted + [key]) + rest;
      trusted := trusted + [key];
    }
    assert trusted + [] == trusted;
    return Some(trusted);
  }

  method CreatePolicy(c: Crypto, a: CreateArgs) returns (r: Option<Policy>)
    ensures r == Create(c, a)
  {
    var trusted := DecodePemKeys(c, a.keys);
    if trusted.None? {
      return None;
    }
    var legacyOk := Validate(c, PolicyV1(a.minimumSignatures, trusted.value));
    if !legacyOk {
      return None;
    }
    var p := PolicyV2(a, trusted.value);
    var ok := Validate(c, p);
    return if ok then Some(p) else None;
  }

  /** Keys are decoded one by one: the i-th has the i-th name and the key of the i-th PEM text, and
      decoding fails exactly when some text is not a key. */
  lemma {:induction false} DecodePemsIff(c: Crypto, keys: seq<(string, string)>, trusted: seq<TrustedKey>)
    ensures DecodePems(c, keys) == Some(trusted) <==>
            && |trusted| == |keys|
            && forall i :: 0 <= i < |keys| ==> trusted[i].name == keys[i].0 && c.publicPem(keys[i].1) == Some(trusted[i].publicKey)
    ensures DecodePems(c, keys).None? <==> exists i :: 0 <= i < |keys| && c.publicPem(keys[i].1).None?
  {
    if keys == [] {
      assert trusted == [] <==> |trusted| == 0;
    } else {
      var tail := if trusted == [] then [] else trusted[1..];
      DecodePemsIff(c, keys[1..], tail);
      assert forall i :: 0 <= i < |keys[1..]| ==> keys[1..][i] == keys[i + 1];
      if trusted != [] {
        assert trusted == [trusted[0]] + tail;
        assert forall i :: 0 <= i < |tail| ==> tail[i] == trusted[i + 1];
      }
      if i :| 0 <= i < |keys| && c.publicPem(keys[i].1).None? && i > 0 {
        assert keys[1..][i - 1] == keys[i];
      }
    }
  }

  /** What creation makes: a valid first revision with the given identifier, window, threshold and
      keys, no predecessor and no revocations; and it makes that whenever it is valid. */
  lemma CreateIff(c: Crypto, a: CreateArgs, p: Policy)
    ensures Create(c, a) == Some(p) <==>
            && Valid(c, p) && p.version == VERSION_2
            && p.policyId == Some(a.policyId) && p.revision == Some(1) && p.previous == None && p.revokedKeys == []
            && p.validFrom == Some(a.validFrom) && p.validUntil == Some(a.validUntil)
            && p.minimumSignatures == a.minimumSignatures
            && |p.trustedKeys| == |a.keys|
            && forall i :: 0 <= i < |a.keys| ==>
                 p.trustedKeys[i].name == a.keys[i].0 && c.publicPem(a.keys[i].1) == Some(p.trustedKeys[i].publicKey)
  {
    hide DecodePems;
    DecodePemsIff(c, a.keys, p.trustedKeys);
    var decoded := DecodePems(c, a.keys);
    if decoded.Some? {
      DecodePemsIff(c, a.keys, decoded.value);
      LegacyValid(c, a, decoded.value);
    }
  }

  /** The plain policy made on the way is valid whenever the lifecycle policy is. */
  lemma LegacyValid(c: Crypto, a: CreateArgs, keys: seq<TrustedKey>)
    ensures Valid(c, PolicyV2(a, keys)) ==> Valid(c, PolicyV1(a.minimumSignatures, keys))
  {
  }

  // ---- Controlled update -----------------------------------------------------------------

  function FindKey(keys: seq<TrustedKey>, name: string): (r: Option<TrustedKey>)
    ensures r.Some? ==> r.value in keys && r.value.name == name
    ensures r.None? <==> forall k :: k in keys ==> k.name != name
  {
    if keys == [] then None
    else if keys[0].name == name then Some(keys[0])
    else FindKey(keys[1..], name)
  }

  predicate Listed(entries: seq<RevokedKey>, fingerprint: string) {
    exists r :: r in entries && r.fingerprint == fingerprint
  }

  /** Append a revocation unless its fingerprint is already listed. */
  function AddRevocation(entries: seq<RevokedKey>, fingerprint: string, at: u64): (r: seq<RevokedKey>)
    ensures entries <= r
    ensures Listed(r, fingerprint)
  {
    if Listed(entries, fingerprint) then entries
    else
      var r := entries + [RevokedKey(fingerprint, at, UPDATE_REASON)];
      assert r[|entries|].fingerprint == fingerprint;
      r
  }

  /** The revocation list after revoking the named keys of the current policy, in order. */
  function Revoke(c: Crypto, keys: seq<TrustedKey>, names: seq<string>, seen: set<string>, at: u64,
                  entries: seq<RevokedKey>): Result<seq<RevokedKey>, UpdateError>
    decreases |names|
  {
    if names == [] then Ok(entries)
    else if names[0] in seen then Err(DuplicateRevokedName)
    else
      var key := FindKey(keys, names[0]);
      if key.None? then Err(UnknownRevokedName)
      else Revoke(c, keys, names[1..], seen + {names[0]}, at,
                  AddRevocation(entries, Fingerprint(c, key.value.publicKey), at))
  }

  function FreshArgs(p: Policy, a: UpdateArgs): CreateArgs
    requires p.policyId.Some?
  {
    CreateArgs(p.policyId.value, a.validFrom, a.validUntil, a.minimumSignatures, a.keys)
  }

  /** `update_from_named_pem_keys`. */
  ghost function Update(c: Crypto, p: Policy, a: UpdateArgs): Result<Policy, UpdateError> {
    if !Valid(c, p) then Err(CurrentInvalid)
    else if p.version != VERSION_2 then Err(NotLifecycle)
    else if a.expectedDigest != PolicyDigest(c, p) then Err(DigestMismatch)
    else if a.validFrom < p.validFrom.value then Err(StartsTooEarly)
    else
      var created := Create(c, FreshArgs(p, a));
      if created.None? then Err(KeysRejected) else Supersede(c, p, a, created.value)
  }

  /** The rest of the update, once the new keys make a policy of their own. */
  ghost function Supersede(c: Crypto, p: Policy, a: UpdateArgs, created: Policy): Result<Policy, UpdateError>
    requires p.revision.Some?
  {
    if p.revision.value == U64_MAX then Err(RevisionOverflow)
    else
      var revoked :- Revoke(c, p.trustedKeys, a.revokedNames, {}, a.validFrom, p.revokedKeys);
      var next := Successor(c, p, created, revoked);
      if Valid(c, next) then Ok(next) else Err(SuccessorInvalid)
  }

  function Successor(c: Crypto, p: Policy, created: Policy, revoked: seq<RevokedKey>): Policy
    requires p.revision.Some? && p.revision.value < U64_MAX
  {
    created.(revision := Some(p.revision.value + 1),
           previous := Some(PolicyDigest(c, p)),
           revokedKeys := revoked)
  }

  /** The loop over the revoked names. */
  method RevokeNames(c: Crypto, keys: seq<TrustedKey>, revokedNames: seq<string>, at: u64, entries: seq<RevokedKey>)
    returns (r: Result<seq<RevokedKey>, UpdateError>)
    ensures r == Revoke(c, keys, revokedNames, {}, at, entries)
  {
    var revokedKeys := entries;
    var names: set<string> := {};
    for i := 0 to |revokedNames|
      invariant Revoke(c, keys, revokedNames, {}, at, entries) == Revoke(c, keys, revokedNames[i..], names, at, revokedKeys)
    {
      var name := revokedNames[i];
      assert revokedNames[i..][1..] == revokedNames[i + 1..];
      if name in names {
        return Err(DuplicateRevokedName);
      }
      names := names + {name};
      var key := FindKey(keys, name);
      if key.None? {
        return Err(UnknownRevokedName);
      }
      var fingerprint := Fingerprint(c, key.value.publicKey);
      if !Listed(revokedKeys, fingerprint) {
        revokedKeys := revokedKeys + [RevokedKey(fingerprint, at, UPDATE_REASON)];
      }
    }
    return Ok(revokedKeys);
  }

  method UpdatePolicy(c: Crypto, p: Policy, a: UpdateArgs) returns (r: Result<Policy, UpdateError>)
    ensures r == Update(c, p, a)
  {
    var currentOk := Validate(c, p);
    if !currentOk {
      return Err(CurrentInvalid);
    }
    if p.version != VERSION_2 {
      return Err(NotLifecycle);
    }
    var currentDigest := PolicyDigest(c, p);
    if a.expectedDigest != currentDigest {
      return Err(DigestMismatch);
    }
    if a.validFrom < p.validFrom.value {
      return Err(StartsTooEarly);
    }
    var created := CreatePolicy(c, FreshArgs(p, a));
    if created.None? {
      return Err(KeysRejected);
    }
    r := BuildSuccessor(c, p, a, created.value, currentDigest);
  }

  method BuildSuccessor(c: Crypto, p: Policy, a: UpdateArgs, created: Policy, currentDigest: string)
    returns (r: Result<Policy, UpdateError>)
    requires p.revision.Some? && currentDigest == PolicyDigest(c, p)
    ensures r == Supersede(c, p, a, created)
  {
    var next := created;
    if p.revision.value == U64_MAX {
      return Err(RevisionOverflow);
    }
    next := next.(revision := Some(p.revision.value + 1));
    next := next.(previous := Some(currentDigest));
    var revoked := RevokeNames(c, p.trustedKeys, a.revokedNames, a.validFrom, p.revokedKeys);
    if revoked.Err? {
      return Err(revoked.error);
    }
    next := next.(revokedKeys := revoked.value);
    var ok := Validate(c, next);
    return if ok then Ok(next) else Err(SuccessorInvalid);
  }

  // ---- What one update does --------------------------------------------------------------

  /** `r` is `entries` followed by valid, new entries dated `at`, for the update's reason. */
  ghost predicate Extends(entries: seq<RevokedKey>, r: seq<RevokedKey>, at: u64) {
    && entries <= r
    && ValidRevocations(r)
    && forall i :: |entries| <= i < |r| ==> r[i].revokedAt == at && r[i].reason == UPDATE_REASON
  }

  lemma AddRevocationExtends(c: Crypto, entries: seq<RevokedKey>, publicKey: Bytes, at: u64)
    requires ValidRevocations(entries)
    ensures Extends(entries, AddRevocation(entries, Fingerprint(c, publicKey), at), at)
  {
    var f := Fingerprint(c, publicKey);
    DigestFormat(c.sha256(publicKey));
    if !Listed(entries, f) {
      var r := AddRevocation(entries, f, at);
      assert forall i :: 0 <= i < |entries| ==> r[i] == entries[i] && r[i] in entries;
    }
  }

  /** The revocation loop keeps what is there and only appends. */
  lemma {:induction false} RevokeExtends(c: Crypto, keys: seq<TrustedKey>, names: seq<string>, seen: set<string>,
                                         at: u64, entries: seq<RevokedKey>)
    requires ValidRevocations(entries)
    requires Revoke(c, keys, names, seen, at, entries).Ok?
    ensures Extends(entries, Revoke(c, keys, names, seen, at, entries).value, at)
    decreases |names|
  {
    if names != [] {
      var key := FindKey(keys, names[0]).value;
      var more := AddRevocation(entries, Fingerprint(c, key.publicKey), at);
      AddRevocationExtends(c, entries, key.publicKey, at);
      RevokeExtends(c, keys, names[1..], seen + {names[0]}, at, more);
    }
  }

  /** The revocation loop lists the key of every given name. */
  lemma {:induction false} RevokeLists(c: Crypto, keys: seq<TrustedKey>, names: seq<string>, seen: set<string>,
                                       at: u64, entries: seq<RevokedKey>, name: string)
    requires ValidRevocations(entries)
    requires Revoke(c, keys, names, seen, at, entries).Ok? && name in names
    ensures FindKey(keys, name).Some?
    ensures Listed(Revoke(c, keys, names, seen, at, entries).value, Fingerprint(c, FindKey(keys, name).value.publicKey))
    decreases |names|
  {
    var key := FindKey(keys, names[0]).value;
    var f := Fingerprint(c, key.publicKey);
    var more := AddRevocation(entries, f, at);
    AddRevocationExtends(c, entries, key.publicKey, at);
    var rest := Revoke(c, keys, names[1..], seen + {names[0]}, at, more);
    RevokeExtends(c, keys, names[1..], seen + {names[0]}, at, more);
    if name == names[0] {
      var r :| r in more && r.fingerprint == f;
      assert r in rest.value;
    } else {
      RevokeLists(c, keys, names[1..], seen + {names[0]}, at, more, name);
    }
  }

  /** The loop succeeds exactly on distinct, known names. */
  lemma {:induction false} RevokeSucceeds(c: Crypto, keys: seq<TrustedKey>, names: seq<string>, seen: set<string>,
                                          at: u64, entries: seq<RevokedKey>)
    ensures Revoke(c, keys, names, seen, at, entries).Ok? <==>
            && Distinct(names)
            && (forall i :: 0 <= i < |names| ==> names[i] !in seen && FindKey(keys, names[i]).Some?)
    decreases |names|
  {
    if names != [] && names[0] !in seen && FindKey(keys, names[0]).Some? {
      var seen' := seen + {names[0]};
      var f := Fingerprint(c, FindKey(keys, names[0]).value.publicKey);
      RevokeSucceeds(c, keys, names[1..], seen', at, AddRevocation(entries, f, at));
      if Revoke(c, keys, names, seen, at, entries).Ok? {
        forall i, j | 0 <= i < j < |names|
          ensures names[i] != names[j]
        {
          assert names[j] == names[1..][j - 1];
          if i > 0 {
            assert names[i] == names[1..][i - 1];
          }
        }
        forall i | 0 <= i < |names|
          ensures names[i] !in seen && FindKey(keys, names[i]).Some?
        {
          if i > 0 {
            assert names[i] == names[1..][i - 1];
          }
        }
      }
    }
  }

  /** Two policies stand in the relation a controlled update establishes. */
  ghost predicate Succeeds(c: Crypto, p: Policy, q: Policy) {
    && Valid(c, p) && p.version == VERSION_2
    && Valid(c, q) && q.version == VERSION_2
    && q.policyId == p.policyId
    && p.revision.value < U64_MAX && q.revision == Some(p.revision.value + 1)
    && q.previous == Some(PolicyDigest(c, p))
    && p.validFrom.value <= q.validFrom.value
    && p.revokedKeys <= q.revokedKeys
    && forall i :: |p.revokedKeys| <= i < |q.revokedKeys| ==>
         q.revokedKeys[i].revokedAt == q.validFrom.value && q.revokedKeys[i].reason == UPDATE_REASON
  }

  /** The checks a successful update passed and the policy it returned. */
  lemma UpdateShape(c: Crypto, p: Policy, a: UpdateArgs)
    requires Update(c, p, a).Ok?
    ensures Valid(c, p) && p.version == VERSION_2
    ensures p.revision.value < U64_MAX && p.validFrom.value <= a.validFrom
    ensures Create(c, FreshArgs(p, a)).Some?
    ensures var revoked := Revoke(c, p.trustedKeys, a.revokedNames, {}, a.validFrom, p.revokedKeys);
            && revoked.Ok?
            && Update(c, p, a).value == Successor(c, p, Create(c, FreshArgs(p, a)).value, revoked.value)
            && Valid(c, Update(c, p, a).value)
  {
  }

  lemma CreateShape(c: Crypto, a: CreateArgs)
    requires Create(c, a).Some?
    ensures DecodePems(c, a.keys).Some?
    ensures Create(c, a).value == PolicyV2(a, DecodePems(c, a.keys).value)
  {
  }

  /** A successful update links the successor to its predecessor and revokes every named key. */
  lemma UpdateLinks(c: Crypto, p: Policy, a: UpdateArgs)
    requires Update(c, p, a).Ok?
    ensures var q := Update(c, p, a).value;
            && Succeeds(c, p, q)
            && q.validFrom == Some(a.validFrom) && q.validUntil == Some(a.validUntil)
            && q.minimumSignatures == a.minimumSignatures
            && Some(q.trustedKeys) == DecodePems(c, a.keys)
            && forall k :: k in p.trustedKeys && k.name in a.revokedNames ==>
                 Listed(q.revokedKeys, Fingerprint(c, k.publicKey))
  {
    UpdateShape(c, p, a);
    CreateShape(c, FreshArgs(p, a));
    RevokeExtends(c, p.trustedKeys, a.revokedNames, {}, a.validFrom, p.revokedKeys);
    forall k | k in p.trustedKeys && k.name in a.revokedNames
      ensures Listed(Update(c, p, a).value.revokedKeys, Fingerprint(c, k.publicKey))
    {
      RevokeLists(c, p.trustedKeys, a.revokedNames, {}, a.validFrom, p.revokedKeys, k.name);
      UniqueNames(c, p.trustedKeys, k);
    }
  }

  lemma UniqueNames(c: Crypto, keys: seq<TrustedKey>, k: TrustedKey)
    requires ValidKeys(c, keys) && k in keys
    ensures FindKey(keys, k.name) == Some(k)
  {
  }

  lemma SuccessorValid(c: Crypto, p: Policy, a: UpdateArgs)
    requires Valid(c, p) && p.version == VERSION_2 && p.revision.value < U64_MAX
    requires Create(c, FreshArgs(p, a)).Some?
    requires Revoke(c, p.trustedKeys, a.revokedNames, {}, a.validFrom, p.revokedKeys).Ok?
    ensures Valid(c, Successor(c, p, Create(c, FreshArgs(p, a)).value,
                               Revoke(c, p.trustedKeys, a.revokedNames, {}, a.validFrom, p.revokedKeys).value))
  {
    RevokeExtends(c, p.trustedKeys, a.revokedNames, {}, a.validFrom, p.revokedKeys);
    DigestFormat(c.sha256(Encode(p)));
  }

  /** Every name is the name of one of the keys. */
  ghost predicate AllKnown(keys: seq<TrustedKey>, names: seq<string>) {
    forall i :: 0 <= i < |names| ==> Known(keys, names[i])
  }

  ghost predicate Known(keys: seq<TrustedKey>, name: string) {
    exists k :: k in keys && k.name == name
  }

  lemma FindsAll(keys: seq<TrustedKey>, names: seq<string>)
    ensures AllKnown(keys, names) <==> forall i :: 0 <= i < |names| ==> FindKey(keys, names[i]).Some?
  {
    forall i | 0 <= i < |names|
      ensures FindKey(keys, names[i]).Some? <==> Known(keys, names[i])
    {
    }
  }

  /** After the version, digest and start-time checks and once the new keys are accepted, an
      update succeeds exactly when the revision can be counted up and the revoked names are
      distinct names of current keys: the final validation never fails. */
  lemma UpdateSucceedsIff(c: Crypto, p: Policy, a: UpdateArgs)
    requires Valid(c, p) && p.version == VERSION_2
    requires a.expectedDigest == PolicyDigest(c, p)
    requires p.validFrom.value <= a.validFrom
    requires Create(c, FreshArgs(p, a)).Some?
    ensures Update(c, p, a).Ok? <==>
            p.revision.value < U64_MAX && Distinct(a.revokedNames) && AllKnown(p.trustedKeys, a.revokedNames)
    ensures Update(c, p, a) != Err(SuccessorInvalid)
  {
    var revoked := Revoke(c, p.trustedKeys, a.revokedNames, {}, a.validFrom, p.revokedKeys);
    RevokeSucceeds(c, p.trustedKeys, a.revokedNames, {}, a.validFrom, p.revokedKeys);
    FindsAll(p.trustedKeys, a.revokedNames);
    if p.revision.value < U64_MAX && revoked.Ok? {
      SuccessorValid(c, p, a);
    }
    RevokeErrors(c, p.trustedKeys, a.revokedNames, {}, a.validFrom, p.revokedKeys);
    assert p.revision.value < U64_MAX && revoked.Err? ==> Update(c, p, a) == Err(revoked.error);
  }

  lemma {:induction false} RevokeErrors(c: Crypto, keys: seq<TrustedKey>, names: seq<string>, seen: set<string>,
                                        at: u64, entries: seq<RevokedKey>)
    ensures var r := Revoke(c, keys, names, seen, at, entries);
            r.Err? ==> r.error == DuplicateRevokedName || r.error == UnknownRevokedName
    decreases |names|
  {
    if names != [] && names[0] !in seen && FindKey(keys, names[0]).Some? {
      var f := Fingerprint(c, FindKey(keys, names[0]).value.publicKey);
      RevokeErrors(c, keys, names[1..], seen + {names[0]}, at, AddRevocation(entries, f, at));
    }
  }

  /** An update succeeds exactly when the current policy is a valid lifecycle policy with the expected
      digest, the start does not move back, the new keys make a policy, the revision can be counted
      up, and the revoked names are distinct names of current keys. */
  lemma UpdateIff(c: Crypto, p: Policy, a: UpdateArgs)
    ensures Update(c, p, a).Ok? <==>
            && Valid(c, p) && p.version == VERSION_2
            && a.expectedDigest == PolicyDigest(c, p)
            && p.validFrom.value <= a.validFrom
            && Create(c, FreshArgs(p, a)).Some?
            && p.revision.value < U64_MAX
            && Distinct(a.revokedNames) && AllKnown(p.trustedKeys, a.revokedNames)
  {
    hide PolicyDigest, Create, Supersede, Distinct, AllKnown;
    if && Valid(c, p) && p.version == VERSION_2 && a.expectedDigest == PolicyDigest(c, p)
       && p.validFrom.value <= a.validFrom && Create(c, FreshArgs(p, a)).Some? {
      UpdateSucceedsIff(c, p, a);
    }
  }

  /** The name at `i` was given before, and every name before it belongs to a key. */
  ghost predicate RepeatsAt(keys: seq<TrustedKey>, names: seq<string>, seen: set<string>, i: nat) {
    && i < |names| && (names[i] in seen || names[i] in names[..i])
    && forall j :: 0 <= j < i ==> FindKey(keys, names[j]).Some?
  }

  lemma RepeatsLater(keys: seq<TrustedKey>, names: seq<string>, seen: set<string>, i: nat)
    requires names != [] && names[0] !in seen && FindKey(keys, names[0]).Some?
    ensures RepeatsAt(keys, names, seen, i + 1) <==> RepeatsAt(keys, names[1..], seen + {names[0]}, i)
  {
    var rest := names[1..];
    if i < |rest| {
      assert names[..i + 1] == [names[0]] + rest[..i];
      assert names[i + 1] == rest[i];
      assert forall j :: 0 < j < i + 1 ==> names[j] == rest[j - 1];
      assert forall j :: 0 <= j < i ==> rest[j] == names[j + 1];
    }
  }

  /** A repeated name is reported exactly when one comes before any unknown name. */
  lemma {:induction false} RepeatedIff(c: Crypto, keys: seq<TrustedKey>, names: seq<string>, seen: set<string>,
                                       at: u64, entries: seq<RevokedKey>)
    ensures Revoke(c, keys, names, seen, at, entries) == Err(DuplicateRevokedName)
            <==> exists i: nat :: RepeatsAt(keys, names, seen, i)
    decreases |names|
  {
    hide FindKey, AddRevocation;
    if names != [] {
      assert names[0] in seen <==> RepeatsAt(keys, names, seen, 0);
      if names[0] !in seen && FindKey(keys, names[0]).Some? {
        var rest, seen' := names[1..], seen + {names[0]};
        var f := Fingerprint(c, FindKey(keys, names[0]).value.publicKey);
        RepeatedIff(c, keys, rest, seen', at, AddRevocation(entries, f, at));
        RepeatsShift(keys, names, seen);
      }
    }
  }

  lemma RepeatsShift(keys: seq<TrustedKey>, names: seq<string>, seen: set<string>)
    requires names != [] && names[0] !in seen && FindKey(keys, names[0]).Some?
    ensures (exists i: nat :: RepeatsAt(keys, names, seen, i))
            <==> exists i: nat :: RepeatsAt(keys, names[1..], seen + {names[0]}, i)
  {
    assert !RepeatsAt(keys, names, seen, 0);
    hide RepeatsAt;
    if i: nat :| RepeatsAt(keys, names, seen, i) {
      RepeatsLater(keys, names, seen, i - 1);
    }
    if i: nat :| RepeatsAt(keys, names[1..], seen + {names[0]}, i) {
      RepeatsLater(keys, names, seen, i);
    }
  }

  /** Why an update is refused: the first of its conditions, in this order, that does not hold. The
      final validation is never the reason. */
  lemma RefusedIff(c: Crypto, p: Policy, a: UpdateArgs)
    ensures var r := Update(c, p, a);
            var current := Valid(c, p) && p.version == VERSION_2;
            var named := current && a.expectedDigest == PolicyDigest(c, p);
            var later := named && p.validFrom.value <= a.validFrom;
            var renewed := later && Create(c, FreshArgs(p, a)).Some?;
            var counted := renewed && p.revision.value < U64_MAX;
            var known := AllKnown(p.trustedKeys, a.revokedNames);
            var repeated := exists i: nat :: RepeatsAt(p.trustedKeys, a.revokedNames, {}, i);
            && (r == Err(CurrentInvalid) <==> !Valid(c, p))
            && (r == Err(NotLifecycle) <==> Valid(c, p) && !current)
            && (r == Err(DigestMismatch) <==> current && !named)
            && (r == Err(StartsTooEarly) <==> named && !later)
            && (r == Err(KeysRejected) <==> later && !renewed)
            && (r == Err(RevisionOverflow) <==> renewed && !counted)
            && (r == Err(DuplicateRevokedName) <==> counted && repeated)
            && (r == Err(UnknownRevokedName) <==> counted && !repeated && !known)
            && r != Err(SuccessorInvalid)
  {
    hide PolicyDigest, Create, Valid, RepeatsAt, Revoke, FindKey;
    if Valid(c, p) && p.version == VERSION_2 {
      ValidHeader(c, p);
      if && a.expectedDigest == PolicyDigest(c, p) && p.validFrom.value <= a.validFrom
         && Create(c, FreshArgs(p, a)).Some? && p.revision.value < U64_MAX {
        UpdateSucceedsIff(c, p, a);
        RepeatedIff(c, p.trustedKeys, a.revokedNames, {}, a.validFrom, p.revokedKeys);
        RevokeSucceeds(c, p.trustedKeys, a.revokedNames, {}, a.validFrom, p.revokedKeys);
        RevokeErrors(c, p.trustedKeys, a.revokedNames, {}, a.validFrom, p.revokedKeys);
        FindsAll(p.trustedKeys, a.revokedNames);
        if AllKnown(p.trustedKeys, a.revokedNames) {
          RepeatedNotDistinct(p.trustedKeys, a.revokedNames);
        }
      }
    }
  }

  lemma ValidHeader(c: Crypto, p: Policy)
    requires Valid(c, p) && p.version == VERSION_2
    ensures p.policyId.Some? && p.revision.Some? && p.validFrom.Some?
  {
  }

  /** When every name is known, one is repeated exactly when they are not distinct. */
  lemma RepeatedNotDistinct(keys: seq<TrustedKey>, names: seq<string>)
    requires AllKnown(keys, names)
    ensures (exists i: nat :: RepeatsAt(keys, names, {}, i)) <==> !Distinct(names)
  {
    FindsAll(keys, names);
    if i, j :| 0 <= i < j < |names| && names[i] == names[j] {
      assert names[..j][i] == names[j];
      assert RepeatsAt(keys, names, {}, j);
    }
  }

  /** An update prepared for one policy applies to no other: if it succeeds on two policies, they are
      the same, or their documents are two colliding texts. So no update is lost. */
  lemma UpdateTargetsOne(c: Crypto, p: Policy, q: Policy, a: UpdateArgs)
    requires Update(c, p, a).Ok? && Update(c, q, a).Ok?
    ensures p == q || Collision(c, (Encode(p), Encode(q)))
  {
    UpdateIff(c, p, a);
    UpdateIff(c, q, a);
    DigestsDiffer(c, p, q);
  }

  /** Only the named keys are revoked: every entry that was not there before has the fingerprint of a
      current key whose name was given. */
  lemma {:induction false} RevokeOnlyNamed(c: Crypto, keys: seq<TrustedKey>, names: seq<string>, seen: set<string>,
                                           at: u64, entries: seq<RevokedKey>, r: RevokedKey)
    requires Revoke(c, keys, names, seen, at, entries).Ok?
    requires r in Revoke(c, keys, names, seen, at, entries).value && r !in entries
    ensures r.revokedAt == at
    ensures exists k :: k in keys && k.name in names && r.fingerprint == Fingerprint(c, k.publicKey)
    decreases |names|
  {
    hide Fingerprint;
    assert names != [];
    var key := FindKey(keys, names[0]).value;
    var more := AddRevocation(entries, Fingerprint(c, key.publicKey), at);
    if r in more {
      assert key in keys && key.name in names && r.fingerprint == Fingerprint(c, key.publicKey);
    } else {
      RevokeOnlyNamed(c, keys, names[1..], seen + {names[0]}, at, more, r);
    }
  }

  // ---- Whole histories -------------------------------------------------------------------

  /** A run of the lifecycle: a creation followed by updates that all succeed. */
  ghost predicate History(c: Crypto, a: CreateArgs, updates: seq<UpdateArgs>, hs: seq<Policy>) {
    && |hs| == |updates| + 1
    && Create(c, a) == Some(hs[0])
    && forall i :: 0 <= i < |updates| ==> Update(c, hs[i], updates[i]) == Ok(hs[i + 1])
  }

  /** What every state of every run satisfies. */
  ghost predicate Invariant(c: Crypto, p: Policy, policyId: string, step: nat) {
    && Valid(c, p) && p.version == VERSION_2
    && p.policyId == Some(policyId)
    && p.revision == Some(step + 1)
    && RevocationsInForce(p)
  }

  /** Every revocation already holds when the policy's window opens. */
  ghost predicate RevocationsInForce(p: Policy) {
    p.validFrom.Some? && forall r :: r in p.revokedKeys ==> r.revokedAt <= p.validFrom.value
  }

  lemma InForceStep(c: Crypto, p: Policy, q: Policy)
    requires Succeeds(c, p, q) && RevocationsInForce(p)
    ensures RevocationsInForce(q)
  {
    hide PolicyDigest;
    forall r | r in q.revokedKeys
      ensures r.revokedAt <= q.validFrom.value
    {
      var k :| 0 <= k < |q.revokedKeys| && q.revokedKeys[k] == r;
      if k < |p.revokedKeys| {
        assert p.revokedKeys[k] == r;
      }
    }
  }

  lemma {:induction false} HistoryInvariant(c: Crypto, a: CreateArgs, updates: seq<UpdateArgs>, hs: seq<Policy>, i: nat)
    requires History(c, a, updates, hs) && i < |hs|
    ensures Invariant(c, hs[i], a.policyId, i)
  {
    hide Update, Create, Valid, PolicyDigest, RevocationsInForce;
    if i > 0 {
      HistoryInvariant(c, a, updates, hs, i - 1);
      assert Update(c, hs[i - 1], updates[i - 1]) == Ok(hs[i - 1 + 1]);
      UpdateLinks(c, hs[i - 1], updates[i - 1]);
      InForceStep(c, hs[i - 1], hs[i]);
    } else {
      CreateIff(c, a, hs[0]);
      NoneInForce(hs[0]);
    }
  }

  lemma NoneInForce(p: Policy)
    requires p.validFrom.Some? && p.revokedKeys == []
    ensures RevocationsInForce(p)
  {
  }

  /** What one step of a run keeps: the start never moves back and revocations only grow. */
  ghost predicate Grows(p: Policy, q: Policy) {
    p.validFrom.Some? && q.validFrom.Some? && p.validFrom.value <= q.validFrom.value && p.revokedKeys <= q.revokedKeys
  }

  lemma HistoryStep(c: Crypto, a: CreateArgs, updates: seq<UpdateArgs>, hs: seq<Policy>, i: nat)
    requires History(c, a, updates, hs) && i < |updates|
    ensures Grows(hs[i], hs[i + 1])
  {
    assert Update(c, hs[i], updates[i]) == Ok(hs[i + 1]);
    UpdateLinks(c, hs[i], updates[i]);
  }

  /** Between any two states of a run the start never moves back and revocations only grow. */
  lemma {:induction false} HistoryMonotone(c: Crypto, a: CreateArgs, updates: seq<UpdateArgs>, hs: seq<Policy>, i: nat, j: nat)
    requires History(c, a, updates, hs) && i <= j < |hs|
    ensures Grows(hs[i], hs[j])
    decreases j
  {
    hide Update, Create, Valid;
    if i < j {
      HistoryMonotone(c, a, updates, hs, i, j - 1);
      HistoryStep(c, a, updates, hs, j - 1);
    } else {
      HistoryInvariant(c, a, updates, hs, i);
    }
  }

  // ---- Histories kept in files -------------------------------------------------------------

  datatype CommandError = DocumentTooLarge | DocumentInvalid | Rejected(reason: UpdateError)

  /** `update_trust_policy_command`, from the current document to the printed digest and the new
      document. Reading is limited; writing is not. */
  ghost function UpdateDocument(c: Crypto, document: string, a: UpdateArgs): Result<(string, string), CommandError> {
    if |document| > MAX_TRUST_POLICY_BYTES then Err(DocumentTooLarge)
    else
      var current := FromJson(c, document);
      if current.None? then Err(DocumentInvalid)
      else
        match Update(c, current.value, a)
        case Err(e) => Err(Rejected(e))
        case Ok(next) => Ok((PolicyDigest(c, next), Encode(next)))
  }

  method UpdateTrustPolicyCommand(c: Crypto, document: string, a: UpdateArgs) returns (r: Result<(string, string), CommandError>)
    ensures r == UpdateDocument(c, document, a)
  {
    if |document| > MAX_TRUST_POLICY_BYTES {
      return Err(DocumentTooLarge);
    }
    var current := Decode(document);
    if current.None? {
      return Err(DocumentInvalid);
    }
    var valid := Validate(c, current.value);
    if !valid {
      return Err(DocumentInvalid);
    }
    var next := UpdatePolicy(c, current.value, a);
    if next.Err? {
      return Err(Rejected(next.error));
    }
    return Ok((PolicyDigest(c, next.value), Encode(next.value)));
  }

  /** Running a history through the documents the command writes gives the same history, step by
      step, exactly as long as the documents stay within the read limit. */
  lemma HistoryThroughDocuments(c: Crypto, a: CreateArgs, updates: seq<UpdateArgs>, hs: seq<Policy>, i: nat)
    requires History(c, a, updates, hs) && i < |updates|
    ensures UpdateDocument(c, Encode(hs[i]), updates[i])
         == if |Encode(hs[i])| <= MAX_TRUST_POLICY_BYTES then Ok((PolicyDigest(c, hs[i + 1]), Encode(hs[i + 1])))
            else Err(DocumentTooLarge)
  {
    HistoryInvariant(c, a, updates, hs, i);
    JsonRoundTrip(c, hs[i]);
  }

  // ---- A digest pins the whole history -----------------------------------------------------

  /** Two different texts with the same SHA-256 value. */
  ghost predicate Collision(c: Crypto, pair: (string, string)) {
    pair.0 != pair.1 && c.sha256(pair.0) == c.sha256(pair.1)
  }

  /** Compare policy `m` of one history with policy `n` of another, then the ones before them, and
      return the encodings of the first pair that differs. */
  function FindCollision(hs: seq<Policy>, gs: seq<Policy>, m: nat, n: nat): Option<(string, string)>
    requires m < |hs| && n < |gs|
  {
    if Encode(hs[m]) != Encode(gs[n]) then Some((Encode(hs[m]), Encode(gs[n])))
    else if m == 0 || n == 0 then None
    else FindCollision(hs, gs, m - 1, n - 1)
  }

  /** Revisions count up from 1 and each policy carries the digest of the one before it. */
  ghost predicate Linked(c: Crypto, hs: seq<Policy>) {
    hs != [] && forall i :: 0 <= i < |hs| ==> LinkedAt(c, hs, i)
  }

  ghost predicate LinkedAt(c: Crypto, hs: seq<Policy>, i: nat)
    requires i < |hs|
  {
    && hs[i].revision == Some(i + 1)
    && (i > 0 ==> hs[i].previous == Some(PolicyDigest(c, hs[i - 1])))
  }

  predicate CountsUp(p: Policy, q: Policy) {
    p.revision.Some? && p.revision.value < U64_MAX && q.revision == Some(p.revision.value + 1)
  }

  /** Of valid policies that each count up from the one before, the first names no predecessor exactly
      when they reach back to revision 1. */
  lemma {:induction false} ChainComplete(c: Crypto, ps: seq<Policy>, i: nat)
    requires i < |ps| && forall k :: 0 <= k < |ps| ==> Valid(c, ps[k]) && ps[k].version == VERSION_2
    requires forall k :: 0 < k < |ps| ==> CountsUp(ps[k - 1], ps[k])
    ensures ps[0].previous.None? <==> ps[i].revision.Some? && ps[i].revision.value == i + 1
  {
    hide Valid;
    ValidHeader(c, ps[i]);
    if i > 0 {
      assert CountsUp(ps[i - 1], ps[i]);
      ChainComplete(c, ps, i - 1);
    } else {
      FirstIff(c, ps[0]);
    }
  }

  lemma FirstIff(c: Crypto, p: Policy)
    requires Valid(c, p) && p.version == VERSION_2
    ensures p.previous.None? <==> p.revision == Some(1)
  {
  }

  lemma HistoryLinked(c: Crypto, a: CreateArgs, us: seq<UpdateArgs>, hs: seq<Policy>)
    requires History(c, a, us, hs)
    ensures Linked(c, hs)
  {
    forall i | 0 <= i < |hs|
      ensures LinkedAt(c, hs, i)
    {
      HistoryInvariant(c, a, us, hs, i);
      if i > 0 {
        UpdateLinks(c, hs[i - 1], us[i - 1]);
      }
    }
  }

  lemma DigestsDiffer(c: Crypto, p: Policy, q: Policy)
    requires PolicyDigest(c, p) == PolicyDigest(c, q)
    ensures p == q || Collision(c, (Encode(p), Encode(q)))
  {
    DigestInjective(c.sha256(Encode(p)), c.sha256(Encode(q)));
    if Encode(p) == Encode(q) {
      EncodeInjective(p, q);
    }
  }

  lemma {:induction false} DigestPinsLinked(c: Crypto, hs: seq<Policy>, gs: seq<Policy>, m: nat, n: nat)
    requires Linked(c, hs) && Linked(c, gs)
    requires m < |hs| && n < |gs|
    requires PolicyDigest(c, hs[m]) == PolicyDigest(c, gs[n])
    ensures var found := FindCollision(hs, gs, m, n);
            || (found.Some? && Collision(c, found.value))
            || (m == n && forall i :: 0 <= i <= m ==> hs[i] == gs[i])
  {
    hide PolicyDigest, Encode;
    DigestsDiffer(c, hs[m], gs[n]);
    if hs[m] == gs[n] {
      assert LinkedAt(c, hs, m) && LinkedAt(c, gs, n);
      if m > 0 {
        DigestPinsLinked(c, hs, gs, m - 1, n - 1);
      }
    }
  }

  /** Two runs whose newest policies have the same digest are the same run of policies back to
      revision 1, or the search finds two policy encodings that collide under SHA-256. */
  lemma DigestPinsHistory(c: Crypto,
                          a: CreateArgs, us: seq<UpdateArgs>, hs: seq<Policy>,
                          b: CreateArgs, vs: seq<UpdateArgs>, gs: seq<Policy>)
    requires History(c, a, us, hs) && History(c, b, vs, gs)
    requires PolicyDigest(c, hs[|us|]) == PolicyDigest(c, gs[|vs|])
    ensures var found := FindCollision(hs, gs, |us|, |vs|);
            hs == gs || (found.Some? && Collision(c, found.value))
  {
    HistoryLinked(c, a, us, hs);
    HistoryLinked(c, b, vs, gs);
    DigestPinsLinked(c, hs, gs, |us|, |vs|);
  }
}
