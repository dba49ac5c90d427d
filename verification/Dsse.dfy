/** Authenticated provenance in DSSE envelopes (src/provenance.rs). */
module Dsse {
  import opened Basics
  import Base64
  import Decimal
  import opened Hex
  import Signature
  import opened Signing
  import opened TrustEvaluation
  import opened TrustPolicy

  const PAYLOAD_TYPE := "application/vnd.in-toto+json"
  const MAX_PAYLOAD_BYTES := 1024 * 1024
  const PAE_PREFIX := "DSSEv1 "

  // ---- Pre-authentication encoding -------------------------------------------------------

  /** A field: its length in decimal, a space and its bytes. */
  function Field(field: string): string {
    Decimal.Print(|field|) + " " + field
  }

  /** `dsse_pae`. */
  function Pae(payloadType: string, payload: string): string {
    PAE_PREFIX + Field(payloadType) + " " + Field(payload)
  }

  /** The characters before the first space, when there is one. */
  function Word(s: string): (r: Option<string>)
    ensures r.Some? ==> r.value + " " <= s && ' ' !in r.value
  {
    if s == "" then None
    else if s[0] == ' ' then Some("")
    else
      var rest :- Word(s[1..]);
      Some([s[0]] + rest)
  }

  /** A field and what follows it; the length must be written as `to_string` writes it. */
  function ReadField(s: string): Option<(string, string)> {
    var digits :- Word(s);
    if !Decimal.Canonical(digits) then None
    else
      var start, n := |digits| + 1, Decimal.Value(digits);
      if |s| < start + n then None else Some((s[start..][..n], s[start..][n..]))
  }

  /** Both fields of a pre-authentication encoding, and nothing else. */
  function ReadPae(s: string): Option<(string, string)> {
    if !(PAE_PREFIX <= s) then None
    else
      var (payloadType, more) :- ReadField(s[|PAE_PREFIX|..]);
      if more == "" || more[0] != ' ' then None
      else
        var (payload, end) :- ReadField(more[1..]);
        if end == "" then Some((payloadType, payload)) else None
  }

  lemma {:induction false} WordOf(digits: string, rest: string)
    requires ' ' !in digits
    ensures Word(digits + " " + rest) == Some(digits)
  {
    var s := digits + " " + rest;
    if digits == "" {
      assert s[0] == ' ';
    } else {
      assert s[0] == digits[0];
      assert s[1..] == digits[1..] + " " + rest;
      WordOf(digits[1..], rest);
      assert [digits[0]] + digits[1..] == digits;
    }
  }

  lemma ReadFieldOf(field: string, rest: string)
    ensures ReadField(Field(field) + rest) == Some((field, rest))
  {
    var digits := Decimal.Print(|field|);
    var s := Field(field) + rest;
    assert s == digits + " " + (field + rest);
    assert forall c :: c in digits ==> Decimal.IsDigit(c);
    WordOf(digits, field + rest);
    Decimal.ValueOfPrint(|field|);
    assert s[|digits| + 1..] == field + rest;
  }

  lemma ReadFieldSound(s: string)
    requires ReadField(s).Some?
    ensures Field(ReadField(s).value.0) + ReadField(s).value.1 == s
  {
    var digits := Word(s).value;
    var n, after := Decimal.Value(digits), s[|digits| + 1..];
    Decimal.PrintOfValue(digits);
    assert s == (digits + " ") + after;
    assert after == after[..n] + after[n..];
    assert ReadField(s) == Some((after[..n], after[n..]));
    assert (digits + " ") + (after[..n] + after[n..]) == digits + " " + after[..n] + after[n..];
  }

  lemma ReadPaeOf(payloadType: string, payload: string)
    ensures ReadPae(Pae(payloadType, payload)) == Some((payloadType, payload))
  {
    var more := " " + Field(payload);
    PaeBody(Field(payloadType), Field(payload), Pae(payloadType, payload));
    ReadFieldOf(payloadType, more);
    assert more[1..] == Field(payload) + "";
    ReadFieldOf(payload, "");
  }

  lemma PaeBody(first: string, last: string, s: string)
    requires s == PAE_PREFIX + first + " " + last
    ensures PAE_PREFIX <= s && s[|PAE_PREFIX|..] == first + (" " + last)
  {
  }

  lemma ReadPaeSound(s: string)
    requires ReadPae(s).Some?
    ensures Pae(ReadPae(s).value.0, ReadPae(s).value.1) == s
  {
    var body := s[|PAE_PREFIX|..];
    var (payloadType, more) := ReadField(body).value;
    ReadFieldSound(body);
    ReadFieldSound(more[1..]);
    PaeText(payloadType, Field(ReadPae(s).value.1), more, s);
  }

  lemma PaeText(payloadType: string, last: string, more: string, s: string)
    requires PAE_PREFIX <= s && s[|PAE_PREFIX|..] == Field(payloadType) + more
    requires more != "" && more[0] == ' ' && more[1..] == last + ""
    ensures s == PAE_PREFIX + Field(payloadType) + " " + last
  {
    assert more == " " + last;
  }

  /** The encoding has a total decoder: for all strings, it gives back exactly the pair that
      encodes to its input, and nothing for any other input. */
  lemma PaeIff(s: string, payloadType: string, payload: string)
    ensures ReadPae(s) == Some((payloadType, payload)) <==> s == Pae(payloadType, payload)
  {
    ReadPaeOf(payloadType, payload);
    if ReadPae(s).Some? {
      ReadPaeSound(s);
    }
  }

  /** The encoding of a small pair. */
  lemma PaeExample()
    ensures Pae("a", "bcd") == "DSSEv1 1 a 3 bcd"
  {
    assert Field("a") == "1 a" && Field("bcd") == "3 bcd" by {
      assert Decimal.Print(1) == "1" && Decimal.Print(3) == "3";
    }
    assert "DSSEv1 " + "1 a" + " " + "3 bcd" == "DSSEv1 1 a 3 bcd";
  }

  /** No two pairs have the same encoding, whatever bytes they contain. */
  lemma PaeInjective(t: string, p: string, u: string, q: string)
    requires Pae(t, p) == Pae(u, q)
    ensures t == u && p == q
  {
    PaeIff(Pae(t, p), t, p);
    PaeIff(Pae(t, p), u, q);
  }

  /** What a provenance signature signs is never what a detached capsule signature signs. */
  lemma DomainsSeparate(payloadType: string, payload: string, capsule: string)
    ensures Pae(payloadType, payload) != Signature.SigningMessage(capsule)
  {
    assert Pae(payloadType, payload)[0] == 'D';
    assert Signature.SigningMessage(capsule)[0] == 'S';
  }

  // ---- Signing and verification ------------------------------------------------------------

  /** A parsed and validated provenance statement: the digests of its subjects. */
  datatype Statement = Statement(subjects: seq<map<string, string>>)

  /** The calls outside this model; nothing is assumed about them here. */
  datatype System = System(
    c: Crypto,
    keys: PrivateKeys,
    statement: Bytes -> Option<Statement>)

  datatype DsseSignature = DsseSignature(keyid: Option<string>, sig: string)

  datatype Envelope = Envelope(payloadType: string, payload: string, signatures: seq<DsseSignature>)

  datatype Verified = Verified(statement: Statement, trust: Decision)

  datatype DsseError =
    | EmptyPayload
    | PayloadTooLarge
    | NoSignatures
    | SignatureLimit
    | InvalidStatement
    | InvalidPrivateKey
    | WrongPayloadType
    | InvalidPayload
    | InvalidSignature
    | WrongSignatureLength
    | TrustFailed(trustError: TrustError)
    | SubjectMismatch

  function CheckSignatureCount(count: nat): Result<(), DsseError> {
    if count == 0 then Err(NoSignatures)
    else if count > MAX_SIGNATURES then Err(SignatureLimit)
    else Ok(())
  }

  /** What the keys sign of a message. */
  function RawSignatures(x: System, message: string, pems: seq<string>): (r: seq<Bytes>)
    ensures |r| == |pems|
    ensures forall i :: 0 <= i < |r| ==> r[i] == x.keys.sign(pems[i], message) && |r[i]| == SIGNATURE_LENGTH
  {
    seq(|pems|, i requires 0 <= i < |pems| => x.keys.sign(pems[i], message))
  }

  function SignaturesOf(raw: seq<Bytes>): seq<DsseSignature> {
    seq(|raw|, i requires 0 <= i < |raw| => DsseSignature(None, Base64.Encode(raw[i])))
  }

  /** The envelope of a payload and its signatures. */
  function Sealed(payload: Bytes, raw: seq<Bytes>): Envelope {
    Envelope(PAYLOAD_TYPE, Base64.Encode(payload), SignaturesOf(raw))
  }

  /** `DsseEnvelope::sign_statement`. */
  function Sign(x: System, statement: Bytes, pems: seq<string>): Result<Envelope, DsseError> {
    if statement == [] then Err(EmptyPayload)
    else if |statement| > MAX_PAYLOAD_BYTES then Err(PayloadTooLarge)
    else
      var _ :- CheckSignatureCount(|pems|);
      if x.statement(statement).None? then Err(InvalidStatement)
      else if exists pem :: pem in pems && x.keys.publicKey(pem).None? then Err(InvalidPrivateKey)
      else Ok(Sealed(statement, RawSignatures(x, Pae(PAYLOAD_TYPE, statement), pems)))
  }

  method SignStatement(x: System, statement: Bytes, pems: seq<string>) returns (r: Result<Envelope, DsseError>)
    ensures r == Sign(x, statement, pems)
  {
    if statement == [] {
      return Err(EmptyPayload);
    }
    if |statement| > MAX_PAYLOAD_BYTES {
      return Err(PayloadTooLarge);
    }
    var count := CheckSignatureCount(|pems|);
    if count.Err? {
      return Err(count.error);
    }
    if x.statement(statement).None? {
      return Err(InvalidStatement);
    }
    var authenticated := Pae(PAYLOAD_TYPE, statement);
    var signatures := [];
    for i := 0 to |pems|
      invariant signatures == SignaturesOf(RawSignatures(x, authenticated, pems[..i]))
      invariant forall k :: 0 <= k < i ==> x.keys.publicKey(pems[k]).Some?
    {
      if x.keys.publicKey(pems[i]).None? {
        return Err(InvalidPrivateKey);
      }
      signatures := signatures + [DsseSignature(None, Base64.Encode(x.keys.sign(pems[i], authenticated)))];
    }
    assert pems[..|pems|] == pems;
    return Ok(Envelope(PAYLOAD_TYPE, Base64.Encode(statement), signatures));
  }

  function DecodeSignature(s: DsseSignature): Result<Bytes, DsseError> {
    var raw := Base64.Decode(s.sig);
    if raw.None? then Err(InvalidSignature)
    else if |raw.value| != SIGNATURE_LENGTH then Err(WrongSignatureLength)
    else Ok(raw.value)
  }

  /** `f` of every item, or the first error. */
  function TryAll<T, U, E>(items: seq<T>, f: T -> Result<U, E>): (r: Result<seq<U>, E>)
    ensures r.Ok? ==> |r.value| == |items| && forall i :: 0 <= i < |items| ==> f(items[i]) == Ok(r.value[i])
  {
    if items == [] then Ok([])
    else
      var front :- TryAll(items[..|items| - 1], f);
      var last :- f(items[|items| - 1]);
      Ok(front + [last])
  }

  lemma TryAllStep<T, U, E>(items: seq<T>, f: T -> Result<U, E>, i: nat, done: seq<U>)
    requires i < |items| && TryAll(items[..i], f) == Ok(done)
    ensures f(items[i]).Ok? ==> TryAll(items[..i + 1], f) == Ok(done + [f(items[i]).value])
    ensures f(items[i]).Err? ==> TryAll(items, f) == Err(f(items[i]).error)
  {
    assert items[..i + 1][..i] == items[..i];
    if f(items[i]).Err? {
      TryAllStops(items, f, i + 1);
    }
  }

  lemma {:induction false} TryAllStops<T, U, E>(items: seq<T>, f: T -> Result<U, E>, n: nat)
    requires n <= |items| && TryAll(items[..n], f).Err?
    ensures TryAll(items, f) == TryAll(items[..n], f)
  {
    if n < |items| {
      var front := items[..|items| - 1];
      assert front[..n] == items[..n];
      TryAllStops(front, f, n);
    } else {
      assert items[..n] == items;
    }
  }

  lemma {:induction false} TryAllOf<T, U, E>(items: seq<T>, f: T -> Result<U, E>, values: seq<U>)
    requires |items| == |values| && forall i :: 0 <= i < |items| ==> f(items[i]) == Ok(values[i])
    ensures TryAll(items, f) == Ok(values)
  {
    if items != [] {
      var n := |items| - 1;
      TryAllOf(items[..n], f, values[..n]);
      assert values == values[..n] + [values[n]];
    }
  }

  function DecodePayload(e: Envelope): Result<Bytes, DsseError> {
    if e.payloadType != PAYLOAD_TYPE then Err(WrongPayloadType)
    else
      var _ :- CheckSignatureCount(|e.signatures|);
      var payload := Base64.Decode(e.payload);
      if payload.None? then Err(InvalidPayload)
      else if payload.value == [] then Err(EmptyPayload)
      else if |payload.value| > MAX_PAYLOAD_BYTES then Err(PayloadTooLarge)
      else Ok(payload.value)
  }

  /** `DsseEnvelope::decode_authenticated_parts`. */
  function DecodeParts(e: Envelope): Result<(Bytes, seq<Bytes>), DsseError> {
    var payload :- DecodePayload(e);
    var signatures :- TryAll(e.signatures, DecodeSignature);
    Ok((payload, signatures))
  }

  /** The loop over the signatures. */
  method DecodeAll(signatures: seq<DsseSignature>) returns (r: Result<seq<Bytes>, DsseError>)
    ensures r == TryAll(signatures, DecodeSignature)
  {
    var decoded: seq<Bytes> := [];
    for i := 0 to |signatures|
      invariant TryAll(signatures[..i], DecodeSignature) == Ok(decoded)
    {
      TryAllStep(signatures, DecodeSignature, i, decoded);
      var next := DecodeSignature(signatures[i]);
      if next.Err? {
        return Err(next.error);
      }
      decoded := decoded + [next.value];
    }
    assert signatures[..|signatures|] == signatures;
    return Ok(decoded);
  }

  method DecodeAuthenticatedParts(e: Envelope) returns (r: Result<(Bytes, seq<Bytes>), DsseError>)
    ensures r == DecodeParts(e)
  {
    var payload := DecodePayload(e);
    if payload.Err? {
      return Err(payload.error);
    }
    var signatures := DecodeAll(e.signatures);
    if signatures.Err? {
      return Err(signatures.error);
    }
    return Ok((payload.value, signatures.value));
  }

  function Lower(c: char): char {
    if 'A' <= c <= 'Z' then (c as int + 32) as char else c
  }

  predicate EqualIgnoringCase(a: string, b: string) {
    |a| == |b| && forall i :: 0 <= i < |a| ==> Lower(a[i]) == Lower(b[i])
  }

  /** `ProvenanceStatement::matches_capsule`. */
  predicate MatchesCapsule(c: Crypto, s: Statement, capsule: string) {
    exists digests :: digests in s.subjects && "sha256" in digests
                      && EqualIgnoringCase(digests["sha256"], ToHex(c.sha256(capsule)))
  }

  /** The end of the verification, after the trust decision. */
  function Conclude(x: System, payload: Bytes, capsule: string, trust: Result<Decision, TrustError>): Result<Verified, DsseError> {
    if trust.Err? then Err(TrustFailed(trust.error))
    else
      var statement := x.statement(payload);
      if statement.None? then Err(InvalidStatement)
      else if !MatchesCapsule(x.c, statement.value, capsule) then Err(SubjectMismatch)
      else Ok(Verified(statement.value, trust.value))
  }

  /** `DsseEnvelope::verify_for_capsule`: the payload is parsed only once it is authenticated. */
  ghost function Verify(x: System, e: Envelope, capsule: string, p: Policy, now: u64): Result<Verified, DsseError> {
    var (payload, signatures) :- DecodeParts(e);
    Conclude(x, payload, capsule, VerifyRaw(x.c, p, Pae(e.payloadType, payload), signatures, now))
  }

  method VerifyForCapsule(x: System, e: Envelope, capsule: string, p: Policy, now: u64)
    returns (r: Result<Verified, DsseError>)
    ensures r == Verify(x, e, capsule, p, now)
  {
    var parts := DecodeAuthenticatedParts(e);
    if parts.Err? {
      return Err(parts.error);
    }
    var (payload, signatures) := parts.value;
    var trust := VerifyRawSignatures(x.c, p, Pae(e.payloadType, payload), signatures, now);
    if trust.Err? {
      return Err(TrustFailed(trust.error));
    }
    var statement := x.statement(payload);
    if statement.None? {
      return Err(InvalidStatement);
    }
    if !MatchesCapsule(x.c, statement.value, capsule) {
      return Err(SubjectMismatch);
    }
    return Ok(Verified(statement.value, trust.value));
  }

  // ---- What verification means ---------------------------------------------------------------

  lemma DecodeSignatureOf(raw: Bytes)
    ensures DecodeSignature(DsseSignature(None, Base64.Encode(raw)))
         == if |raw| == SIGNATURE_LENGTH then Ok(raw) else Err(WrongSignatureLength)
  {
    Base64.DecodeOfEncode(raw);
  }

  lemma DecodeSignaturesOf(raw: seq<Bytes>)
    requires forall s :: s in raw ==> |s| == SIGNATURE_LENGTH
    ensures TryAll(SignaturesOf(raw), DecodeSignature) == Ok(raw)
  {
    forall i | 0 <= i < |raw|
      ensures DecodeSignature(SignaturesOf(raw)[i]) == Ok(raw[i])
    {
      DecodeSignatureOf(raw[i]);
    }
    TryAllOf(SignaturesOf(raw), DecodeSignature, raw);
  }

  lemma DecodePayloadOf(payload: Bytes, raw: seq<Bytes>)
    requires payload != [] && |payload| <= MAX_PAYLOAD_BYTES && 1 <= |raw| <= MAX_SIGNATURES
    ensures DecodePayload(Sealed(payload, raw)) == Ok(payload)
  {
    Base64.DecodeOfEncode(payload);
  }

  /** A sealed envelope carries exactly its payload and its signatures. */
  lemma DecodeOfSealed(payload: Bytes, raw: seq<Bytes>)
    requires payload != [] && |payload| <= MAX_PAYLOAD_BYTES && 1 <= |raw| <= MAX_SIGNATURES
    requires forall s :: s in raw ==> |s| == SIGNATURE_LENGTH
    ensures DecodeParts(Sealed(payload, raw)) == Ok((payload, raw))
  {
    DecodePayloadOf(payload, raw);
    DecodeSignaturesOf(raw);
  }

  lemma VerifySealed(x: System, payload: Bytes, raw: seq<Bytes>, capsule: string, p: Policy, now: u64)
    requires DecodeParts(Sealed(payload, raw)) == Ok((payload, raw))
    ensures Verify(x, Sealed(payload, raw), capsule, p, now)
         == Conclude(x, payload, capsule, VerifyRaw(x.c, p, Pae(PAYLOAD_TYPE, payload), raw, now))
  {
  }

  lemma VerifyOfSign(x: System, statement: Bytes, pems: seq<string>, capsule: string, p: Policy, now: u64)
    requires Sign(x, statement, pems).Ok?
    ensures Verify(x, Sign(x, statement, pems).value, capsule, p, now)
         == Conclude(x, statement, capsule,
                     VerifyRaw(x.c, p, Pae(PAYLOAD_TYPE, statement), RawSignatures(x, Pae(PAYLOAD_TYPE, statement), pems), now))
  {
    var raw := RawSignatures(x, Pae(PAYLOAD_TYPE, statement), pems);
    SignedIsSealed(x, statement, pems);
    DecodeOfSealed(statement, raw);
    VerifySealed(x, statement, raw, capsule, p, now);
  }

  lemma SignedIsSealed(x: System, statement: Bytes, pems: seq<string>)
    requires Sign(x, statement, pems).Ok?
    ensures Sign(x, statement, pems).value == Sealed(statement, RawSignatures(x, Pae(PAYLOAD_TYPE, statement), pems))
    ensures statement != [] && |statement| <= MAX_PAYLOAD_BYTES && 1 <= |pems| <= MAX_SIGNATURES
    ensures x.statement(statement).Some? && forall pem :: pem in pems ==> x.keys.publicKey(pem).Some?
  {
  }

  lemma SignedBySigner(x: System, message: string, pems: seq<string>, publicKey: Bytes)
    requires Correct(x.c, x.keys) && Holds(x.keys, pems, publicKey)
    ensures SignedRaw(x.c, message, RawSignatures(x, message, pems), publicKey)
  {
    var pem :| pem in pems && x.keys.publicKey(pem) == Some(publicKey);
    var i :| 0 <= i < |pems| && pems[i] == pem;
    assert RawSignatures(x, message, pems)[i] == x.keys.sign(pem, message);
  }

  lemma SignerOfSigned(x: System, message: string, pems: seq<string>, publicKey: Bytes)
    requires Exact(x.c, x.keys, message, message) && (forall pem :: pem in pems ==> x.keys.publicKey(pem).Some?)
    requires SignedRaw(x.c, message, RawSignatures(x, message, pems), publicKey)
    ensures Holds(x.keys, pems, publicKey)
  {
    var raw := RawSignatures(x, message, pems);
    var s :| s in raw && x.c.verifies(publicKey, message, s);
    var i :| 0 <= i < |raw| && raw[i] == s;
    assert s == x.keys.sign(pems[i], message) && pems[i] in pems;
  }

  /** The threshold is met whenever enough distinct, unrevoked policy keys signed and, when
      signatures verify under no other keys, only then. */
  lemma ThresholdOfSigners(x: System, message: string, pems: seq<string>, p: Policy, now: u64)
    requires Correct(x.c, x.keys) && Valid(x.c, p) && 1 <= |pems| <= MAX_SIGNATURES
    requires forall pem :: pem in pems ==> x.keys.publicKey(pem).Some?
    ensures var r := VerifyRaw(x.c, p, message, RawSignatures(x, message, pems), now);
            var enough := |Signers(x.c, x.keys, p, pems, now)| >= p.minimumSignatures;
            && (InWindow(p, now) && enough ==> r.Ok?)
            && (Exact(x.c, x.keys, message, message) && r.Ok? ==> InWindow(p, now) && enough)
  {
    var raw := RawSignatures(x, message, pems);
    var signed := k => SignedRaw(x.c, message, raw, k);
    var signers, counted := Signers(x.c, x.keys, p, pems, now), CountedKeys(x.c, p, p.trustedKeys, now, signed);
    RawAcceptsIff(x.c, p, message, raw, now);
    forall k | k in signers
      ensures k in counted
    {
      SignedBySigner(x, message, pems, k.publicKey);
    }
    SmallerSet(signers, counted);
    if Exact(x.c, x.keys, message, message) {
      forall k | k in counted
        ensures k in signers
      {
        SignerOfSigned(x, message, pems, k.publicKey);
      }
      SmallerSet(counted, signers);
    }
  }

  /** What can be signed: a statement of 1 byte to 1 MiB, with 1 to 64 keys that all load; the
      envelope then carries it with one signature of its exact encoding for each key, in order. */
  lemma SignIff(x: System, statement: Bytes, pems: seq<string>)
    ensures var r := Sign(x, statement, pems);
            && (r.Ok? <==> 1 <= |statement| <= 1024 * 1024 && 1 <= |pems| <= 64 && x.statement(statement).Some? && AllLoad(x.keys, pems))
            && (r.Ok? ==>
                  exists raw: seq<Bytes> :: Carries(r.value, statement, raw) && |raw| == |pems|
                    && forall i :: 0 <= i < |pems| ==> raw[i] == x.keys.sign(pems[i], Pae("application/vnd.in-toto+json", statement)))
  {
    hide Pae, Base64.Encode;
    if Sign(x, statement, pems).Ok? {
      var raw := RawSignatures(x, Pae(PAYLOAD_TYPE, statement), pems);
      assert Carries(Sign(x, statement, pems).value, statement, raw);
    }
  }

  /** An envelope made by `sign_statement` verifies for the capsule whenever enough distinct,
      unrevoked policy keys signed it, the time is in the window and a subject names the capsule;
      and, when signatures verify under no other keys, only then. */
  lemma SignThenVerify(x: System, statement: Bytes, pems: seq<string>, capsule: string, p: Policy, now: u64)
    requires Correct(x.c, x.keys) && Valid(x.c, p) && Sign(x, statement, pems).Ok?
    ensures var r := Verify(x, Sign(x, statement, pems).value, capsule, p, now);
            var enough := |Signers(x.c, x.keys, p, pems, now)| >= p.minimumSignatures;
            var matches := MatchesCapsule(x.c, x.statement(statement).value, capsule);
            && (InWindow(p, now) && enough && matches ==> r.Ok? && Some(r.value.statement) == x.statement(statement))
            && (Exact(x.c, x.keys, Pae(PAYLOAD_TYPE, statement), Pae(PAYLOAD_TYPE, statement)) && r.Ok? ==> InWindow(p, now) && enough && matches)
  {
    VerifyOfSign(x, statement, pems, capsule, p, now);
    ThresholdOfSigners(x, Pae(PAYLOAD_TYPE, statement), pems, p, now);
  }

  /** Repeating or reordering signing keys never changes the outcome of verification. */
  lemma RepeatedKeysIrrelevant(x: System, statement: Bytes, a: seq<string>, b: seq<string>, capsule: string, p: Policy, now: u64)
    requires forall pem :: pem in a <==> pem in b
    requires Sign(x, statement, a).Ok? && Sign(x, statement, b).Ok?
    ensures Verify(x, Sign(x, statement, a).value, capsule, p, now) == Verify(x, Sign(x, statement, b).value, capsule, p, now)
  {
    var message := Pae(PAYLOAD_TYPE, statement);
    VerifyOfSign(x, statement, a, capsule, p, now);
    VerifyOfSign(x, statement, b, capsule, p, now);
    SameRawSignatures(x, message, a, b);
    SameRawSignatures(x, message, b, a);
    RawSignatureOrderIrrelevant(x.c, p, message, RawSignatures(x, message, a), RawSignatures(x, message, b), now);
  }

  lemma SameRawSignatures(x: System, message: string, a: seq<string>, b: seq<string>)
    requires forall pem :: pem in a ==> pem in b
    ensures forall s :: s in RawSignatures(x, message, a) ==> s in RawSignatures(x, message, b)
  {
    forall s | s in RawSignatures(x, message, a)
      ensures s in RawSignatures(x, message, b)
    {
      var i :| 0 <= i < |a| && RawSignatures(x, message, a)[i] == s;
      assert a[i] in b;
      var j :| 0 <= j < |b| && b[j] == a[i];
      assert RawSignatures(x, message, b)[j] == s;
    }
  }

  // ---- Any envelope ----------------------------------------------------------------------------

  /** The envelope is the text of this payload and these signatures. */
  ghost predicate Carries(e: Envelope, payload: Bytes, raw: seq<Bytes>) {
    && e.payloadType == PAYLOAD_TYPE
    && e.payload == Base64.Encode(payload) && 1 <= |payload| <= MAX_PAYLOAD_BYTES
    && |e.signatures| == |raw| && 1 <= |raw| <= MAX_SIGNATURES
    && forall i :: 0 <= i < |raw| ==> e.signatures[i].sig == Base64.Encode(raw[i]) && |raw[i]| == SIGNATURE_LENGTH
  }

  lemma DecodePayloadIff(e: Envelope, payload: Bytes)
    ensures DecodePayload(e) == Ok(payload) <==>
            && e.payloadType == PAYLOAD_TYPE && 1 <= |e.signatures| <= MAX_SIGNATURES
            && e.payload == Base64.Encode(payload) && 1 <= |payload| <= MAX_PAYLOAD_BYTES
  {
    hide Base64.Decode, Base64.Encode;
    Base64.DecodeOfEncode(payload);
    if Base64.Decode(e.payload).Some? {
      Base64.EncodeOfDecode(e.payload);
    }
  }

  lemma DecodeSignatureIff(s: DsseSignature, raw: Bytes)
    ensures DecodeSignature(s) == Ok(raw) <==> s.sig == Base64.Encode(raw) && |raw| == SIGNATURE_LENGTH
  {
    hide Base64.Decode, Base64.Encode;
    Base64.DecodeOfEncode(raw);
    if Base64.Decode(s.sig).Some? {
      Base64.EncodeOfDecode(s.sig);
    }
  }

  /** Decoding gives exactly the payload and the signatures the envelope is the text of, and fails
      when it is the text of none. */
  lemma DecodePartsIff(e: Envelope, payload: Bytes, raw: seq<Bytes>)
    ensures DecodeParts(e) == Ok((payload, raw)) <==> Carries(e, payload, raw)
  {
    hide DecodePayload, DecodeSignature, Base64.Encode;
    DecodePayloadIff(e, payload);
    if |raw| == |e.signatures| {
      forall i | 0 <= i < |raw|
        ensures DecodeSignature(e.signatures[i]) == Ok(raw[i]) <==> e.signatures[i].sig == Base64.Encode(raw[i]) && |raw[i]| == SIGNATURE_LENGTH
      {
        DecodeSignatureIff(e.signatures[i], raw[i]);
      }
      if Carries(e, payload, raw) {
        TryAllOf(e.signatures, DecodeSignature, raw);
      }
    }
  }

  /** Any envelope verifies exactly when its signatures of the exact encoding of its payload meet the
      threshold inside the window, and its payload is a statement with a subject for the capsule. */
  lemma VerifyIff(x: System, e: Envelope, payload: Bytes, raw: seq<Bytes>, capsule: string, p: Policy, now: u64)
    requires Carries(e, payload, raw) && Valid(x.c, p)
    ensures var signed := k => SignedRaw(x.c, Pae(PAYLOAD_TYPE, payload), raw, k);
            var r := Verify(x, e, capsule, p, now);
            && (r.Ok? <==>
                  && InWindow(p, now) && |CountedKeys(x.c, p, p.trustedKeys, now, signed)| >= p.minimumSignatures
                  && x.statement(payload).Some? && MatchesCapsule(x.c, x.statement(payload).value, capsule))
            && (r.Ok? ==>
                  Some(r.value.statement) == x.statement(payload)
                  && r.value.trust.matchedSigners == Matched(x.c, p, p.trustedKeys, now, signed))
  {
    hide DecodeParts, Pae, Valid, MatchesCapsule, VerifyRaw;
    DecodePartsIff(e, payload, raw);
    RawAcceptsIff(x.c, p, Pae(PAYLOAD_TYPE, payload), raw, now);
    assert forall s :: s in raw ==> |s| == SIGNATURE_LENGTH;
  }

  /** Whatever envelope is presented: it verifies only when it carries a payload whose exact encoding
      the owners of at least the minimum of unrevoked policy keys signed, and that payload is the
      statement returned, with a subject for the capsule. */
  lemma VerifiedWasSigned(x: System, e: Envelope, capsule: string, p: Policy, now: u64, signed: (string, string) -> bool)
      returns (payload: Bytes)
    requires Unforgeable(x.c, signed) && Verify(x, e, capsule, p, now).Ok?
    ensures e.payloadType == PAYLOAD_TYPE && e.payload == Base64.Encode(payload)
    ensures x.statement(payload) == Some(Verify(x, e, capsule, p, now).value.statement)
    ensures MatchesCapsule(x.c, x.statement(payload).value, capsule)
    ensures |set k | k in p.trustedKeys && !Revoked(x.c, p, k, now) && signed(k.publicKey, Pae(PAYLOAD_TYPE, payload))|
            >= p.minimumSignatures >= 1
  {
    hide Pae, MatchesCapsule, Base64.Encode, DecodeParts, Valid;
    var (decoded, raw) := DecodeParts(e).value;
    payload := decoded;
    var message := Pae(PAYLOAD_TYPE, payload);
    var f := k => SignedRaw(x.c, message, raw, k);
    var counted := CountedKeys(x.c, p, p.trustedKeys, now, f);
    var authors := set k | k in p.trustedKeys && !Revoked(x.c, p, k, now) && signed(k.publicKey, message);
    DecodePartsIff(e, payload, raw);
    RawAcceptsIff(x.c, p, message, raw, now);
    MinimumPositive(x.c, p);
    forall k | k in counted
      ensures k in authors
    {
      var s :| s in raw && x.c.verifies(k.publicKey, message, s);
    }
    SmallerSet(counted, authors);
  }

  lemma MinimumPositive(c: Crypto, p: Policy)
    requires Valid(c, p)
    ensures p.minimumSignatures >= 1
  {
  }

  // ---- Subjects --------------------------------------------------------------------------------

  /** Any one of several subjects suffices. */
  lemma AnySubject(c: Crypto, a: seq<map<string, string>>, b: seq<map<string, string>>, capsule: string)
    ensures MatchesCapsule(c, Statement(a + b), capsule) <==>
            MatchesCapsule(c, Statement(a), capsule) || MatchesCapsule(c, Statement(b), capsule)
  {
    assert forall d :: d in a + b <==> d in a || d in b;
  }

  function Upper(c: char): char {
    if 'a' <= c <= 'z' then (c as int - 32) as char else c
  }

  /** A subject matches by the capsule's own digest, with each letter in either case. */
  lemma OwnSubject(c: Crypto, digests: map<string, string>, capsule: string)
    requires "sha256" in digests && |digests["sha256"]| == 64
    requires var own := ToHex(c.sha256(capsule));
             forall i :: 0 <= i < 64 ==> digests["sha256"][i] == own[i] || digests["sha256"][i] == Upper(own[i])
    ensures MatchesCapsule(c, Statement([digests]), capsule)
  {
    assert digests in Statement([digests]).subjects;
  }

  /** A subject pins the capsule: two capsules it matches have the same hash. */
  lemma SubjectPinsCapsule(c: Crypto, digests: map<string, string>, a: string, b: string)
    requires MatchesCapsule(c, Statement([digests]), a) && MatchesCapsule(c, Statement([digests]), b)
    ensures c.sha256(a) == c.sha256(b)
  {
    var s, t := ToHex(c.sha256(a)), ToHex(c.sha256(b));
    forall i | 0 <= i < |s|
      ensures s[i] == t[i]
    {
      assert IsLowerHex(s[i]) && IsLowerHex(t[i]);
      assert Lower(s[i]) == Lower(digests["sha256"][i]) == Lower(t[i]);
    }
    assert s == t;
    ToHexInjective(c.sha256(a), c.sha256(b));
  }
}
