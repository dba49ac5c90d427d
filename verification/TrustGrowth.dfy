/** How large a policy's document grows over its history (src/trust.rs, src/product_main.rs). */
module TrustGrowth {
  import opened Basics
  import opened Hex
  import Json
  import opened JsonSize
  import opened Records
  import opened TrustLifecycle
  import opened TrustPolicy

  /** The least a revocation takes in a document: its quoted fingerprint. */
  const REVOCATION_BYTES := 73

  lemma RevocationLength(r: RevokedKey, depth: nat)
    requires ValidRevocation(r)
    ensures |Json.Print(Json.JObj(Present(RevokedSlots(r))), depth)| >= REVOCATION_BYTES
  {
    var slots := RevokedSlots(r);
    LookupPresent(slots, 0);
    ObjectAtLeast(Present(slots), depth, "public_key_sha256");
    QuoteLength(r.fingerprint);
  }

  lemma ListLength(p: Policy)
    requires ValidRevocations(p.revokedKeys) && p.revokedKeys != []
    ensures |Json.Print(RevokedList(p.revokedKeys), 1)| >= REVOCATION_BYTES * |p.revokedKeys|
  {
    var items := RevokedList(p.revokedKeys).items;
    forall i | 0 <= i < |items|
      ensures |Json.Print(items[i], 2)| >= REVOCATION_BYTES
    {
      RevocationLength(p.revokedKeys[i], 2);
    }
    ItemsAtLeast(items, 2, REVOCATION_BYTES);
  }

  lemma ListLookup(p: Policy)
    requires p.revokedKeys != []
    ensures Lookup(Present(PolicySlots(p)), "revoked_keys") == Some(RevokedList(p.revokedKeys))
  {
    PolicyLookups(p);
  }

  /** A document grows with the number of revocations. */
  lemma RevocationsCost(p: Policy)
    requires ValidRevocations(p.revokedKeys)
    ensures |Encode(p)| > REVOCATION_BYTES * |p.revokedKeys|
  {
    if p.revokedKeys != [] {
      ListLength(p);
      ListLookup(p);
      DocumentAtLeast(Present(PolicySlots(p)), "revoked_keys", RevokedList(p.revokedKeys));
    }
  }

  /** Once the revocations of some policy of a run pass the bound, no later policy of the run can
      ever be updated from its file again, whatever is asked for. */
  lemma OutgrownForGood(c: Crypto, a: CreateArgs, updates: seq<UpdateArgs>, hs: seq<Policy>, i: nat, j: nat, next: UpdateArgs)
    requires History(c, a, updates, hs) && i <= j < |hs|
    requires REVOCATION_BYTES * |hs[i].revokedKeys| >= MAX_TRUST_POLICY_BYTES
    ensures UpdateDocument(c, Encode(hs[j]), next) == Err(DocumentTooLarge)
  {
    HistoryMonotone(c, a, updates, hs, i, j);
    HistoryInvariant(c, a, updates, hs, j);
    assert |hs[i].revokedKeys| <= |hs[j].revokedKeys|;
    RevocationsCost(hs[j]);
  }

  // ---- From above ------------------------------------------------------------------------------

  /** The most a valid policy takes without its revocations. */
  const BASE_BYTES := 36_000

  lemma TextSlot(name: string, text: string, depth: nat, most: nat)
    requires Plain(name) && Plain(text) && |text| <= most
    ensures SlotSize(Slot(name, Some(Json.JStr(text))), depth) <= |name| + most + 2 * depth + 8
  {
  }

  lemma NumberSlot(name: string, n: u64, depth: nat)
    requires Plain(name)
    ensures SlotSize(Slot(name, Some(Json.JNum(n))), depth) <= |name| + 2 * depth + 26
  {
    NumberLength(n);
  }

  lemma DigestPlain(text: string)
    requires ValidDigest(text)
    ensures Plain(text) && |text| <= 71
  {
    PlainAll(text);
  }

  lemma NamePlain(name: string)
    requires ValidKeyName(name)
    ensures Plain(name) && |name| <= 64
  {
    forall i | 0 <= i < |name|
      ensures Json.EscapeChar(name[i]) == [name[i]]
    {
      assert IsNameChar(name[i]);
    }
    PlainAll(name);
  }

  lemma RevocationAtMost(r: RevokedKey, reason: nat)
    requires ValidRevocation(r) && |Json.Quote(r.reason)| <= reason
    ensures |Json.Print(Json.JObj(Present(RevokedSlots(r))), 2)| + 6 <= 190 + reason
  {
    hide Json.Print, Json.Quote, SlotSize, Present, ValidDigest, Plain;
    var slots := RevokedSlots(r);
    DigestPlain(r.fingerprint);
    RevocationNamesPlain();
    TextSlot("public_key_sha256", r.fingerprint, 3, 71);
    NumberSlot("revoked_at_unix_seconds", r.revokedAt, 3);
    ReasonSlot(r);
    SlotsAtMost(slots, 3, 1, 102);
    assert slots[1..][1..] == [slots[2]] && slots[1..][0] == slots[1];
    assert SlotsSize([slots[2]], 3) == SlotSize(slots[2], 3) + SlotsSize([], 3);
    ObjectAtMost(slots, 2);
  }

  lemma ReasonSlot(r: RevokedKey)
    ensures SlotSize(RevokedSlots(r)[2], 3) == 8 + |Json.Quote(r.reason)| + 10
  {
    assert Plain("reason");
  }

  /** The characters of member names and of the update's reason. */
  predicate Wordy(s: string) {
    forall i :: 0 <= i < |s| ==> 'a' <= s[i] <= 'z' || '0' <= s[i] <= '9' || s[i] == '_' || s[i] == ' '
  }

  lemma WordyPlain(s: string)
    requires Wordy(s)
    ensures Plain(s)
  {
    PlainAll(s);
  }

  lemma RevocationNamesPlain()
    ensures Plain("public_key_sha256")
    ensures Plain("revoked_at_unix_seconds")
    ensures Plain("reason")
  {
    hide Plain;
    WordyPlain("public_key_sha256");
    WordyPlain("revoked_at_unix_seconds");
    WordyPlain("reason");
  }

  lemma ShortNamesPlain()
    ensures Plain("name")
    ensures Plain("public_key")
    ensures Plain("version")
    ensures Plain("algorithm")
    ensures Plain("policy_id")
    ensures Plain("revision")
    ensures Plain("ed25519")
  {
    hide Plain;
    WordyPlain("name");
    WordyPlain("public_key");
    WordyPlain("version");
    WordyPlain("algorithm");
    WordyPlain("policy_id");
    WordyPlain("revision");
    WordyPlain("ed25519");
  }

  lemma LongNamesPlain()
    ensures Plain("previous_policy_sha256")
    ensures Plain("valid_from_unix_seconds")
    ensures Plain("valid_until_unix_seconds")
  {
    hide Plain;
    WordyPlain("previous_policy_sha256");
    WordyPlain("valid_from_unix_seconds");
    WordyPlain("valid_until_unix_seconds");
  }

  lemma ListNamesPlain()
    ensures Plain("revoked_keys")
    ensures Plain("minimum_signatures")
    ensures Plain("trusted_keys")
  {
    hide Plain;
    WordyPlain("revoked_keys");
    WordyPlain("minimum_signatures");
    WordyPlain("trusted_keys");
  }

  lemma ReasonLength()
    ensures |Json.Quote("controlled policy update")| == 26
  {
    hide Plain;
    WordyPlain("controlled policy update");
    PlainQuote("controlled policy update");
  }

  lemma PlainQuote(s: string)
    requires Plain(s)
    ensures |Json.Quote(s)| == |s| + 2
  {
  }

  lemma KeyBytesAtMost(bytes: Bytes)
    requires |bytes| == PUBLIC_KEY_LENGTH
    ensures |Json.Print(BytesJson(bytes), 3)| <= 426
  {
    var items := BytesJson(bytes).items;
    forall i | 0 <= i < |items|
      ensures |Json.Print(items[i], 4)| + 2 * 3 + 4 <= 13
    {
      ByteLength(bytes[i] as int);
    }
    ArrayAtMost(items, 3, 13);
  }

  lemma KeyAtMost(c: Crypto, k: TrustedKey)
    requires ValidTrustedKey(c, k)
    ensures |Json.Print(Json.JObj(Present(KeySlots(k))), 2)| + 6 <= 544
  {
    hide Json.Print, Json.Quote, Present, Plain, ValidKeyName, BytesJson, SlotSize;
    var slots := KeySlots(k);
    ShortNamesPlain();
    NamePlain(k.name);
    TextSlot("name", k.name, 3, 64);
    KeySlot(k);
    SlotsAtMost(slots, 3, 1, 82);
    assert SlotsSize(slots[1..], 3) == SlotSize(slots[1], 3) + SlotsSize(slots[1..][1..], 3);
    assert slots[1..][1..] == [];
    ObjectAtMost(slots, 2);
  }

  lemma KeySlot(k: TrustedKey)
    requires |k.publicKey| == PUBLIC_KEY_LENGTH
    ensures SlotSize(KeySlots(k)[1], 3) <= 448
  {
    hide Json.Print, BytesJson;
    ShortNamesPlain();
    KeyBytesAtMost(k.publicKey);
  }

  lemma RevokedListAtMost(p: Policy, reason: nat)
    requires ValidRevocations(p.revokedKeys)
    requires forall r :: r in p.revokedKeys ==> |Json.Quote(r.reason)| <= reason
    ensures |Json.Print(RevokedList(p.revokedKeys), 1)| <= |p.revokedKeys| * (190 + reason) + 6
  {
    hide Json.Print, Json.Quote, Present, RevokedSlots;
    var items := RevokedList(p.revokedKeys).items;
    forall i | 0 <= i < |items|
      ensures |Json.Print(items[i], 2)| + 6 <= 190 + reason
    {
      assert p.revokedKeys[i] in p.revokedKeys;
      RevocationAtMost(p.revokedKeys[i], reason);
    }
    ArrayAtMost(items, 1, 190 + reason);
  }

  lemma KeyListAtMost(c: Crypto, p: Policy)
    requires ValidKeys(c, p.trustedKeys) && |p.trustedKeys| <= 64
    ensures |Json.Print(KeyList(p.trustedKeys), 1)| <= 34_822
  {
    hide Json.Print, Present, KeySlots;
    var items := KeyList(p.trustedKeys).items;
    forall i | 0 <= i < |items|
      ensures |Json.Print(items[i], 2)| + 6 <= 544
    {
      KeyAtMost(c, p.trustedKeys[i]);
    }
    ArrayAtMost(items, 1, 544);
  }

  /** The scalar fields before the revocations. */
  lemma HeaderAtMost(c: Crypto, p: Policy)
    requires Valid(c, p)
    ensures forall i :: 0 <= i < 7 ==> SlotSize(PolicySlots(p)[i], 1) <= 104
  {
    hide Json.Print, Json.Quote, Plain, SlotSize, ValidKeyName, ValidDigest, ValidKeys, ValidRevocations;
    ShortNamesPlain();
    LongNamesPlain();
    NumberSlot("version", p.version, 1);
    TextSlot("algorithm", p.algorithm, 1, 7);
    TextsAtMost(p);
    NumbersAtMost(p);
  }

  lemma AbsentSlot(name: string)
    ensures SlotSize(Slot(name, None), 1) == 0
  {
  }

  lemma TextsAtMost(p: Policy)
    requires p.policyId.Some? ==> ValidKeyName(p.policyId.value)
    requires p.previous.Some? ==> ValidDigest(p.previous.value)
    ensures SlotSize(Slot("policy_id", StringField(p.policyId)), 1) <= 104
    ensures SlotSize(Slot("previous_policy_sha256", StringField(p.previous)), 1) <= 104
  {
    hide Plain, SlotSize, ValidKeyName, ValidDigest;
    ShortNamesPlain();
    LongNamesPlain();
    AbsentSlot("policy_id");
    AbsentSlot("previous_policy_sha256");
    if p.policyId.Some? {
      NamePlain(p.policyId.value);
      TextSlot("policy_id", p.policyId.value, 1, 64);
    }
    if p.previous.Some? {
      DigestPlain(p.previous.value);
      TextSlot("previous_policy_sha256", p.previous.value, 1, 71);
    }
  }

  lemma NumberFieldAtMost(name: string, n: Option<u64>)
    requires Plain(name) && |name| <= 25
    ensures SlotSize(Slot(name, NumberField(n)), 1) <= 104
  {
    hide SlotSize;
    AbsentSlot(name);
    if n.Some? {
      NumberSlot(name, n.value, 1);
    }
  }

  lemma NumbersAtMost(p: Policy)
    ensures SlotSize(Slot("revision", NumberField(p.revision)), 1) <= 104
    ensures SlotSize(Slot("valid_from_unix_seconds", NumberField(p.validFrom)), 1) <= 104
    ensures SlotSize(Slot("valid_until_unix_seconds", NumberField(p.validUntil)), 1) <= 104
  {
    hide SlotSize, Plain;
    ShortNamesPlain();
    LongNamesPlain();
    NumberFieldAtMost("revision", p.revision);
    NumberFieldAtMost("valid_from_unix_seconds", p.validFrom);
    NumberFieldAtMost("valid_until_unix_seconds", p.validUntil);
  }

  /** The revocations, the threshold and the keys. */
  lemma ListsAtMost(c: Crypto, p: Policy, reason: nat)
    requires Valid(c, p)
    requires forall r :: r in p.revokedKeys ==> |Json.Quote(r.reason)| <= reason
    ensures SlotSize(PolicySlots(p)[7], 1) <= |p.revokedKeys| * (190 + reason) + 26
    ensures SlotSize(PolicySlots(p)[8], 1) <= 46
    ensures SlotSize(PolicySlots(p)[9], 1) <= 34_843
  {
    hide Json.Print, Json.Quote, RevokedList, KeyList, ValidKeys, ValidRevocations, Plain, SlotSize;
    ListNamesPlain();
    NumberSlot("minimum_signatures", p.minimumSignatures, 1);
    KeyListAtMost(c, p);
    ValueSlot("trusted_keys", KeyList(p.trustedKeys));
    if p.revokedKeys == [] {
      AbsentSlot("revoked_keys");
    } else {
      ReasonsListed(c, p, reason);
      ValueSlot("revoked_keys", RevokedList(p.revokedKeys));
    }
  }

  lemma ValueSlot(name: string, value: Json.Json)
    requires Plain(name)
    ensures SlotSize(Slot(name, Some(value)), 1) == |name| + |Json.Print(value, 1)| + 8
  {
  }

  /** A policy with revocations is a lifecycle policy. */
  lemma ReasonsListed(c: Crypto, p: Policy, reason: nat)
    requires Valid(c, p) && p.revokedKeys != []
    requires forall r :: r in p.revokedKeys ==> |Json.Quote(r.reason)| <= reason
    ensures |Json.Print(RevokedList(p.revokedKeys), 1)| <= |p.revokedKeys| * (190 + reason) + 6
  {
    RevokedListAtMost(p, reason);
  }

  /** The size of a valid policy's document, from above. */
  lemma PolicySize(c: Crypto, p: Policy, reason: nat)
    requires Valid(c, p)
    requires forall r :: r in p.revokedKeys ==> |Json.Quote(r.reason)| <= reason
    ensures |Encode(p)| <= BASE_BYTES + |p.revokedKeys| * (190 + reason)
  {
    hide Json.Print, Json.Quote, Present, SlotSize, PolicySlots, Valid;
    var slots := PolicySlots(p);
    SlotCount(p);
    HeaderAtMost(c, p);
    ListsAtMost(c, p, reason);
    SlotsAtMost(slots, 1, 7, 104);
    SlotsStep(slots, 7);
    SlotsStep(slots, 8);
    SlotsStep(slots, 9);
    assert slots[10..] == [];
    ObjectAtMost(slots, 0);
  }

  lemma SlotCount(p: Policy)
    ensures |PolicySlots(p)| == 10
  {
  }

  lemma SlotsStep(slots: seq<Slot>, k: nat)
    requires k < |slots|
    ensures SlotsSize(slots[k..], 1) == SlotSize(slots[k], 1) + SlotsSize(slots[k + 1..], 1)
  {
    assert slots[k..][1..] == slots[k + 1..];
  }

  /** A policy without revocations always fits the read limit, and with the longest reasons that
      validation lets through, so does one with 130 of them. */
  lemma ValidFits(c: Crypto, p: Policy)
    requires Valid(c, p) && |p.revokedKeys| <= 130
    ensures |Encode(p)| <= MAX_TRUST_POLICY_BYTES
    ensures FromJson(c, Encode(p)) == Some(p)
  {
    hide Encode, Json.Quote, LifecycleHeader, ValidKeys, ValidDigest, FromJson;
    forall r | r in p.revokedKeys
      ensures |Json.Quote(r.reason)| <= 6 * 256 + 2
    {
      assert ValidRevocation(r);
      QuoteLength(r.reason);
    }
    PolicySize(c, p, 6 * 256 + 2);
    JsonRoundTrip(c, p);
  }

  ghost predicate FromUpdates(p: Policy) {
    forall r :: r in p.revokedKeys ==> r.reason == "controlled policy update"
  }

  lemma UpdateReasons(c: Crypto, p: Policy, q: Policy)
    requires Succeeds(c, p, q) && FromUpdates(p)
    ensures FromUpdates(q)
  {
    hide Valid, PolicyDigest;
    forall r | r in q.revokedKeys
      ensures r.reason == UPDATE_REASON
    {
      var k :| 0 <= k < |q.revokedKeys| && q.revokedKeys[k] == r;
      if k < |p.revokedKeys| {
        assert p.revokedKeys[k] == r;
      }
    }
  }

  /** Revocations made by updates carry the update's reason. */
  lemma {:induction false} HistoryReasons(c: Crypto, a: CreateArgs, updates: seq<UpdateArgs>, hs: seq<Policy>, i: nat)
    requires History(c, a, updates, hs) && i < |hs|
    ensures FromUpdates(hs[i])
  {
    hide Update, Valid, Succeeds;
    if i > 0 {
      HistoryReasons(c, a, updates, hs, i - 1);
      UpdateLinks(c, hs[i - 1], updates[i - 1]);
      UpdateReasons(c, hs[i - 1], hs[i]);
    } else {
      CreateIff(c, a, hs[0]);
    }
  }

  /** What a policy made by updates takes, from above. */
  lemma UpdatedSize(c: Crypto, p: Policy)
    requires Valid(c, p) && FromUpdates(p)
    ensures |Encode(p)| <= BASE_BYTES + |p.revokedKeys| * 216
  {
    hide Encode, Json.Quote, Valid;
    ReasonLength();
    PolicySize(c, p, 26);
  }

  /** A run of updates is never stopped by the read limit while it has revoked at most 1,000 keys:
      until then every policy of every run is updated from its document as it would be in memory. */
  lemma SmallRunsStayReadable(c: Crypto, a: CreateArgs, updates: seq<UpdateArgs>, hs: seq<Policy>, i: nat)
    requires History(c, a, updates, hs) && i < |updates| && |hs[i].revokedKeys| <= 1_000
    ensures UpdateDocument(c, Encode(hs[i]), updates[i]) == Ok((PolicyDigest(c, hs[i + 1]), Encode(hs[i + 1])))
  {
    hide Encode, UpdateDocument, PolicyDigest, FromUpdates, Valid, Create, Update;
    HistoryInvariant(c, a, updates, hs, i);
    HistoryReasons(c, a, updates, hs, i);
    UpdatedSize(c, hs[i]);
    HistoryThroughDocuments(c, a, updates, hs, i);
  }

  // ---- A run that gets there -----------------------------------------------------------------

  /** Keys enough for a long history. */
  datatype Supply = Supply(c: Crypto, pems: seq<string>, keys: seq<Bytes>)

  /** The PEM texts decode to the keys, and no two keys have the same hash. */
  ghost predicate Usable(s: Supply) {
    && |s.pems| == |s.keys| < U64_MAX
    && (forall i :: 0 <= i < |s.keys| ==>
          s.c.publicPem(s.pems[i]) == Some(s.keys[i]) && |s.keys[i]| == PUBLIC_KEY_LENGTH && s.c.isKey(s.keys[i]))
    && (forall i, j :: 0 <= i < j < |s.keys| ==> s.c.sha256(s.keys[i]) != s.c.sha256(s.keys[j]))
  }

  // Every policy of the run trusts one key under the same name; every update revokes it and brings
  // the next one.

  function Revocations(s: Supply, n: nat): (r: seq<RevokedKey>)
    requires n <= |s.keys|
    ensures |r| == n
    ensures forall i :: 0 <= i < n ==> r[i] == RevokedKey(Fingerprint(s.c, s.keys[i]), 0, UPDATE_REASON)
  {
    seq(n, i requires 0 <= i < n => RevokedKey(Fingerprint(s.c, s.keys[i]), 0, UPDATE_REASON))
  }

  function FirstArgs(s: Supply, n: nat): CreateArgs
    requires n < |s.pems|
  {
    CreateArgs("p", 0, 1, 1, [("k", s.pems[n])])
  }

  function Nth(s: Supply, n: nat): Policy
    requires n < |s.keys| < U64_MAX
  {
    Policy(VERSION_2, SIGNATURE_ALGORITHM, Some("p"), Some(n + 1),
           if n == 0 then None else Some(PolicyDigest(s.c, Nth(s, n - 1))),
           Some(0), Some(1), Revocations(s, n), 1, [TrustedKey("k", s.keys[n])])
  }

  function Change(s: Supply, n: nat): UpdateArgs
    requires n + 1 < |s.keys| && |s.pems| == |s.keys| < U64_MAX
  {
    UpdateArgs(PolicyDigest(s.c, Nth(s, n)), 0, 1, 1, [("k", s.pems[n + 1])], ["k"])
  }

  lemma FingerprintsDiffer(s: Supply, i: nat, j: nat)
    requires Usable(s) && i < j < |s.keys|
    ensures Fingerprint(s.c, s.keys[i]) != Fingerprint(s.c, s.keys[j])
  {
    if Fingerprint(s.c, s.keys[i]) == Fingerprint(s.c, s.keys[j]) {
      DigestInjective(s.c.sha256(s.keys[i]), s.c.sha256(s.keys[j]));
    }
  }

  lemma RevocationsValid(s: Supply, n: nat)
    requires Usable(s) && n <= |s.keys|
    ensures ValidRevocations(Revocations(s, n))
  {
    var r := Revocations(s, n);
    forall i | 0 <= i < n
      ensures ValidRevocation(r[i])
    {
      DigestFormat(s.c.sha256(s.keys[i]));
    }
    forall i, j | 0 <= i < j < n
      ensures r[i].fingerprint != r[j].fingerprint
    {
      FingerprintsDiffer(s, i, j);
    }
  }

  lemma NthHeader(s: Supply, n: nat)
    requires Usable(s) && n < |s.keys|
    ensures LifecycleHeader(Nth(s, n))
  {
    if n > 0 {
      DigestFormat(s.c.sha256(Encode(Nth(s, n - 1))));
    }
  }

  lemma NthValid(s: Supply, n: nat)
    requires Usable(s) && n < |s.keys|
    ensures Valid(s.c, Nth(s, n))
  {
    RevocationsValid(s, n);
    NthHeader(s, n);
  }

  function Created(s: Supply, n: nat): Policy
    requires n < |s.keys| == |s.pems|
  {
    PolicyV2(FirstArgs(s, n), [TrustedKey("k", s.keys[n])])
  }

  /** Each key makes a policy of its own. */
  lemma KeyAccepted(s: Supply, n: nat)
    requires Usable(s) && n < |s.keys|
    ensures Create(s.c, FirstArgs(s, n)) == Some(Created(s, n))
  {
    var keys := FirstArgs(s, n).keys;
    assert keys[1..] == [] && DecodePems(s.c, keys[1..]) == Some([]);
    assert [TrustedKey("k", s.keys[n])] + [] == [TrustedKey("k", s.keys[n])];
    assert DecodePems(s.c, keys) == Some([TrustedKey("k", s.keys[n])]);
  }

  lemma KeyRevoked(s: Supply, n: nat)
    requires Usable(s) && n < |s.keys|
    ensures Revoke(s.c, [TrustedKey("k", s.keys[n])], ["k"], {}, 0, Revocations(s, n)) == Ok(Revocations(s, n + 1))
  {
    var f, entries := Fingerprint(s.c, s.keys[n]), Revocations(s, n);
    if Listed(entries, f) {
      var r :| r in entries && r.fingerprint == f;
      var i :| 0 <= i < n && entries[i] == r;
      FingerprintsDiffer(s, i, n);
    }
    assert AddRevocation(entries, f, 0) == Revocations(s, n + 1);
    assert ["k"][1..] == [];
  }

  lemma NthSuccessor(s: Supply, n: nat)
    requires Usable(s) && n + 1 < |s.keys|
    ensures Successor(s.c, Nth(s, n), Created(s, n + 1), Revocations(s, n + 1)) == Nth(s, n + 1)
  {
  }

  lemma SupersedeSucceeds(c: Crypto, p: Policy, args: UpdateArgs, created: Policy, revoked: seq<RevokedKey>)
    requires p.revision.Some? && p.revision.value < U64_MAX
    requires Revoke(c, p.trustedKeys, args.revokedNames, {}, args.validFrom, p.revokedKeys) == Ok(revoked)
    requires Valid(c, Successor(c, p, created, revoked))
    ensures Supersede(c, p, args, created) == Ok(Successor(c, p, created, revoked))
  {
  }

  lemma NthSuperseded(s: Supply, n: nat)
    requires Usable(s) && n + 1 < |s.keys|
    ensures Supersede(s.c, Nth(s, n), Change(s, n), Created(s, n + 1)) == Ok(Nth(s, n + 1))
  {
    KeyRevoked(s, n);
    NthSuccessor(s, n);
    NthValid(s, n + 1);
    SupersedeSucceeds(s.c, Nth(s, n), Change(s, n), Created(s, n + 1), Revocations(s, n + 1));
  }

  lemma NthFresh(s: Supply, n: nat)
    requires Usable(s) && n + 1 < |s.keys|
    ensures FreshArgs(Nth(s, n), Change(s, n)) == FirstArgs(s, n + 1)
  {
  }

  lemma NthUpdates(s: Supply, n: nat)
    requires Usable(s) && n + 1 < |s.keys|
    ensures Update(s.c, Nth(s, n), Change(s, n)) == Ok(Nth(s, n + 1))
  {
    var p, args, created := Nth(s, n), Change(s, n), Created(s, n + 1);
    NthValid(s, n);
    NthFresh(s, n);
    KeyAccepted(s, n + 1);
    NthSuperseded(s, n);
    assert p.version == VERSION_2 && args.expectedDigest == PolicyDigest(s.c, p) && p.validFrom.value <= args.validFrom;
    UpdateIsSupersede(s.c, p, args, created);
  }

  lemma UpdateIsSupersede(c: Crypto, p: Policy, args: UpdateArgs, created: Policy)
    requires Valid(c, p) && p.version == VERSION_2 && args.expectedDigest == PolicyDigest(c, p)
    requires p.validFrom.value <= args.validFrom && Create(c, FreshArgs(p, args)) == Some(created)
    ensures Update(c, p, args) == Supersede(c, p, args, created)
  {
  }

  function Changes(s: Supply, n: nat): (r: seq<UpdateArgs>)
    requires n < |s.keys| && |s.pems| == |s.keys| < U64_MAX
    ensures |r| == n && forall i :: 0 <= i < n ==> r[i] == Change(s, i)
  {
    seq(n, i requires 0 <= i < n => Change(s, i))
  }

  function Policies(s: Supply, n: nat): (r: seq<Policy>)
    requires n < |s.keys| < U64_MAX
    ensures |r| == n + 1 && forall i :: 0 <= i <= n ==> r[i] == Nth(s, i)
  {
    seq(n + 1, i requires 0 <= i < n + 1 => Nth(s, i))
  }

  lemma RunIsHistory(s: Supply, n: nat)
    requires Usable(s) && n < |s.keys|
    ensures History(s.c, FirstArgs(s, 0), Changes(s, n), Policies(s, n))
  {
    KeyAccepted(s, 0);
    forall i | 0 <= i < n
      ensures Update(s.c, Policies(s, n)[i], Changes(s, n)[i]) == Ok(Policies(s, n)[i + 1])
    {
      NthUpdates(s, i);
    }
  }

  /** The first number of revocations that passes the bound. */
  const OUTGROWN := 3592

  /** Whoever has keys enough with different hashes has a run, of updates that all succeed, whose
      last policy can no longer be updated from its file, whatever is asked for. */
  lemma LimitReached(s: Supply, next: UpdateArgs)
    requires Usable(s) && OUTGROWN < |s.keys|
    ensures History(s.c, FirstArgs(s, 0), Changes(s, OUTGROWN), Policies(s, OUTGROWN))
    ensures UpdateDocument(s.c, Encode(Policies(s, OUTGROWN)[OUTGROWN]), next) == Err(DocumentTooLarge)
  {
    RunIsHistory(s, OUTGROWN);
    OutgrownForGood(s.c, FirstArgs(s, 0), Changes(s, OUTGROWN), Policies(s, OUTGROWN), OUTGROWN, OUTGROWN, next);
  }

  // ---- Such keys exist -----------------------------------------------------------------------

  const MANY := 65536

  function KeyOf(i: nat): (key: Hash)
    requires i < MANY
    ensures key[0] as int + 256 * key[1] as int == i
  {
    [(i % 256) as char, (i / 256) as char] + seq(30, _ => '\0')
  }

  predicate IsHash(text: string) {
    |text| == 32 && forall i :: 0 <= i < |text| ==> text[i] as int < 256
  }

  /** A 32-byte text is its own hash, and is a key. */
  const EXAMPLE := Crypto(
    text => if IsHash(text) then text else seq(32, _ => '\0'),
    _ => true,
    (_, _, _) => false,
    text => if IsHash(text) then Some(text) else None)

  function ExampleKeys(): (keys: seq<Hash>)
    ensures |keys| == MANY && forall i :: 0 <= i < MANY ==> keys[i] == KeyOf(i)
  {
    seq(MANY, i requires 0 <= i < MANY => KeyOf(i))
  }

  lemma EnoughKeysExist()
    ensures Usable(Supply(EXAMPLE, ExampleKeys(), ExampleKeys())) && OUTGROWN < MANY
  {
    var keys := ExampleKeys();
    forall i, j | 0 <= i < j < MANY
      ensures EXAMPLE.sha256(keys[i]) != EXAMPLE.sha256(keys[j])
    {
      assert IsHash(keys[i]) && IsHash(keys[j]);
      assert KeyOf(i) != KeyOf(j);
    }
  }
}
