/** Hub execution requests: validation, JSON, and building one canonically (src/hub_cli.rs). */
module HubRequest {
  import opened Basics
  import Decimal
  import Json
  import opened Ordering
  import opened Records
  import opened RunCommand
  import opened Signature

  const SCHEMA_VERSION := 1
  const MAX_REQUEST_BYTES := 512 * 1024

  datatype Request = Request(
    schemaVersion: u32,
    signatures: seq<Envelope>,
    timeoutSeconds: u64,
    maxFiles: u64,
    maxBytes: u64,
    environment: seq<Variable>,
    arguments: seq<string>)

  function VariableName(v: Variable): string {
    v.name
  }

  function SignatureBytes(e: Envelope): string {
    e.signature
  }

  // ---- Validation ------------------------------------------------------------------------

  predicate ValidSignatureList(signatures: seq<Envelope>) {
    && 1 <= |signatures| <= MAX_SIGNATURES
    && (forall i :: 0 <= i < |signatures| ==> ValidEnvelope(signatures[i]))
    && StrictlySorted(signatures, SignatureBytes)
  }

  predicate ValidEnvironment(environment: seq<Variable>) {
    && |environment| <= MAX_ENVIRONMENT_ENTRIES
    && (forall i :: 0 <= i < |environment| ==> ValidVariable(environment[i]))
    && StrictlySorted(environment, VariableName)
    && EnvironmentBytes(environment) <= MAX_ENVIRONMENT_BYTES
  }

  predicate ValidArguments(arguments: seq<string>) {
    && |arguments| <= MAX_ARGUMENTS
    && (forall i :: 0 <= i < |arguments| ==> '\0' !in arguments[i])
    && ArgumentBytes(arguments) <= MAX_ARGUMENT_BYTES
  }

  predicate ValidRequest(r: Request) {
    && r.schemaVersion == SCHEMA_VERSION
    && ValidSignatureList(r.signatures)
    && 1 <= r.timeoutSeconds <= MAX_TIMEOUT_SECONDS
    && ValidEnvironment(r.environment)
    && ValidArguments(r.arguments)
  }

  method CheckSignatureList(signatures: seq<Envelope>) returns (ok: bool)
    ensures ok == ValidSignatureList(signatures)
  {
    if signatures == [] || |signatures| > MAX_SIGNATURES {
      return false;
    }
    var previous: Option<string> := None;
    for i := 0 to |signatures|
      invariant previous == if i == 0 then None else Some(signatures[i - 1].signature)
      invariant forall k :: 0 <= k < i ==> ValidEnvelope(signatures[k])
      invariant forall k :: 0 <= k < i - 1 ==> Less(SignatureBytes(signatures[k]), SignatureBytes(signatures[k + 1]))
    {
      if !ValidEnvelope(signatures[i]) {
        return false;
      }
      if previous.Some? && !Less(previous.value, signatures[i].signature) {
        assert !Less(SignatureBytes(signatures[i - 1]), SignatureBytes(signatures[i - 1 + 1]));
        return false;
      }
      previous := Some(signatures[i].signature);
    }
    return true;
  }

  method CheckHubEnvironment(environment: seq<Variable>) returns (ok: bool)
    ensures ok == ValidEnvironment(environment)
  {
    if |environment| > MAX_ENVIRONMENT_ENTRIES {
      return false;
    }
    var total := 0;
    var previous: Option<string> := None;
    for i := 0 to |environment|
      invariant previous == if i == 0 then None else Some(environment[i - 1].name)
      invariant total == EnvironmentBytes(environment[..i])
      invariant forall k :: 0 <= k < i ==> ValidVariable(environment[k])
      invariant forall k :: 0 <= k < i - 1 ==> Less(VariableName(environment[k]), VariableName(environment[k + 1]))
    {
      if !ValidVariable(environment[i]) {
        return false;
      }
      if previous.Some? && !Less(previous.value, environment[i].name) {
        assert !Less(VariableName(environment[i - 1]), VariableName(environment[i - 1 + 1]));
        return false;
      }
      previous := Some(environment[i].name);
      assert environment[..i + 1][..i] == environment[..i];
      total := total + |environment[i].name| + |environment[i].value|;
    }
    assert environment[..|environment|] == environment;
    return total <= MAX_ENVIRONMENT_BYTES;
  }

  method CheckHubArguments(arguments: seq<string>) returns (ok: bool)
    ensures ok == ValidArguments(arguments)
  {
    if |arguments| > MAX_ARGUMENTS {
      return false;
    }
    var total := 0;
    for i := 0 to |arguments|
      invariant total == ArgumentBytes(arguments[..i])
      invariant forall k :: 0 <= k < i ==> '\0' !in arguments[k]
    {
      if '\0' in arguments[i] {
        return false;
      }
      assert arguments[..i + 1][..i] == arguments[..i];
      total := total + |arguments[i]|;
    }
    assert arguments[..|arguments|] == arguments;
    return total <= MAX_ARGUMENT_BYTES;
  }

  /** `HubRunRequest::validate`. */
  method ValidateRequest(r: Request) returns (ok: bool)
    ensures ok == ValidRequest(r)
  {
    if r.schemaVersion != SCHEMA_VERSION {
      return false;
    }
    var signaturesOk := CheckSignatureList(r.signatures);
    if !signaturesOk || r.timeoutSeconds == 0 || r.timeoutSeconds > MAX_TIMEOUT_SECONDS {
      return false;
    }
    var environmentOk := CheckHubEnvironment(r.environment);
    if !environmentOk {
      return false;
    }
    ok := CheckHubArguments(r.arguments);
  }

  // ---- JSON ------------------------------------------------------------------------------

  const VARIABLE_FIELDS := {"name", "value"}
  const REQUEST_FIELDS := {"schema_version", "signatures", "timeout_seconds", "max_files", "max_bytes",
                           "environment", "arguments"}

  function VariableSlots(v: Variable): seq<Slot> {
    [Slot("name", Some(Json.JStr(v.name))), Slot("value", Some(Json.JStr(v.value)))]
  }

  function SignaturesJson(signatures: seq<Envelope>): Json.Json {
    Json.JArr(seq(|signatures|, i requires 0 <= i < |signatures| => EnvelopeJson(signatures[i])))
  }

  function EnvironmentJson(environment: seq<Variable>): Json.Json {
    Json.JArr(seq(|environment|, i requires 0 <= i < |environment| => Json.JObj(Present(VariableSlots(environment[i])))))
  }

  function ArgumentsJson(arguments: seq<string>): Json.Json {
    Json.JArr(seq(|arguments|, i requires 0 <= i < |arguments| => Json.JStr(arguments[i])))
  }

  function RequestSlots(r: Request): seq<Slot> {
    [Slot("schema_version", Some(Json.JNum(r.schemaVersion))),
     Slot("signatures", Some(SignaturesJson(r.signatures))),
     Slot("timeout_seconds", Some(Json.JNum(r.timeoutSeconds))),
     Slot("max_files", Some(Json.JNum(r.maxFiles))),
     Slot("max_bytes", Some(Json.JNum(r.maxBytes))),
     Slot("environment", Some(EnvironmentJson(r.environment))),
     Slot("arguments", Some(ArgumentsJson(r.arguments)))]
  }

  function EncodeRequest(r: Request): string {
    Json.Document(Json.JObj(Present(RequestSlots(r))))
  }

  /** `to_json`: the document of a valid request within the size limit. */
  function RequestToJson(r: Request): Option<string> {
    if ValidRequest(r) && |EncodeRequest(r)| <= MAX_REQUEST_BYTES then Some(EncodeRequest(r)) else None
  }

  function ReadVariable(j: Json.Json): Option<Variable> {
    if !j.JObj? || !KnownOnce(j.members, VARIABLE_FIELDS) then None
    else
      var name :- Lookup(j.members, "name");
      var value :- Lookup(j.members, "value");
      var n :- AsString(name);
      var v :- AsString(value);
      Some(Variable(n, v))
  }

  function ReadRequest(j: Json.Json): Option<Request> {
    if !j.JObj? || !KnownOnce(j.members, REQUEST_FIELDS) then None
    else
      var schema :- Lookup(j.members, "schema_version");
      var s :- AsNumber(schema, U32_MAX);
      var signatures :- Lookup(j.members, "signatures");
      var es :- AsList(signatures, ReadEnvelope);
      var timeout :- Lookup(j.members, "timeout_seconds");
      var t :- ReadU64(timeout);
      var maxFiles :- Lookup(j.members, "max_files");
      var f :- ReadU64(maxFiles);
      var maxBytes :- Lookup(j.members, "max_bytes");
      var b :- ReadU64(maxBytes);
      var environment :- Lookup(j.members, "environment");
      var vs :- AsList(environment, ReadVariable);
      var arguments :- Lookup(j.members, "arguments");
      var xs :- AsList(arguments, AsString);
      Some(Request(s, es, t, f, b, vs, xs))
  }

  /** `from_json`. */
  function RequestFromJson(encoded: string): (r: Option<Request>)
    ensures r.Some? ==> ValidRequest(r.value)
  {
    var j :- Json.ParseDocument(encoded);
    var r :- ReadRequest(j);
    if ValidRequest(r) then Some(r) else None
  }

  lemma VariableRoundTrip(v: Variable)
    ensures ReadVariable(Json.JObj(Present(VariableSlots(v)))) == Some(v)
  {
    var slots := VariableSlots(v);
    KnownOncePresent(slots, VARIABLE_FIELDS);
    LookupPresent(slots, 0);
    LookupPresent(slots, 1);
  }

  lemma RequestLists(r: Request)
    ensures AsList(SignaturesJson(r.signatures), ReadEnvelope) == Some(r.signatures)
    ensures AsList(EnvironmentJson(r.environment), ReadVariable) == Some(r.environment)
    ensures AsList(ArgumentsJson(r.arguments), AsString) == Some(r.arguments)
  {
    forall i | 0 <= i < |r.signatures| {
      ReadEnvelopeRoundTrip(r.signatures[i]);
    }
    MapAllOf(SignaturesJson(r.signatures).items, ReadEnvelope, r.signatures);
    forall i | 0 <= i < |r.environment| {
      VariableRoundTrip(r.environment[i]);
    }
    MapAllOf(EnvironmentJson(r.environment).items, ReadVariable, r.environment);
    MapAllOf(ArgumentsJson(r.arguments).items, AsString, r.arguments);
  }

  lemma RequestLookups(r: Request)
    ensures var ms := Present(RequestSlots(r));
            && KnownOnce(ms, REQUEST_FIELDS)
            && Lookup(ms, "schema_version") == Some(Json.JNum(r.schemaVersion))
            && Lookup(ms, "signatures") == Some(SignaturesJson(r.signatures))
            && Lookup(ms, "timeout_seconds") == Some(Json.JNum(r.timeoutSeconds))
            && Lookup(ms, "max_files") == Some(Json.JNum(r.maxFiles))
            && Lookup(ms, "max_bytes") == Some(Json.JNum(r.maxBytes))
            && Lookup(ms, "environment") == Some(EnvironmentJson(r.environment))
            && Lookup(ms, "arguments") == Some(ArgumentsJson(r.arguments))
  {
    var slots := RequestSlots(r);
    KnownOncePresent(slots, REQUEST_FIELDS);
    LookupPresent(slots, 0);
    LookupPresent(slots, 1);
    LookupPresent(slots, 2);
    LookupPresent(slots, 3);
    LookupPresent(slots, 4);
    LookupPresent(slots, 5);
    LookupPresent(slots, 6);
  }

  /** Only documents that are objects of the declared members, none repeated, are read as requests. */
  lemma RequestStrict(encoded: string)
    requires RequestFromJson(encoded).Some?
    ensures Strict(Json.ParseDocument(encoded).value, REQUEST_FIELDS)
  {
    hide Json.ParseDocument, ValidRequest;
    KnownOnceIff(Json.ParseDocument(encoded).value.members, REQUEST_FIELDS);
  }

  /** A request's document holds, under each name, that field of the request. */
  lemma RequestFields(r: Request)
    ensures var j := Json.ParseDocument(EncodeRequest(r));
            && j.Some? && Strict(j.value, REQUEST_FIELDS)
            && (var ms := j.value.members;
                && Lookup(ms, "schema_version") == Some(Json.JNum(r.schemaVersion))
                && Lookup(ms, "signatures") == Some(SignaturesJson(r.signatures))
                && Lookup(ms, "timeout_seconds") == Some(Json.JNum(r.timeoutSeconds))
                && Lookup(ms, "max_files") == Some(Json.JNum(r.maxFiles))
                && Lookup(ms, "max_bytes") == Some(Json.JNum(r.maxBytes))
                && Lookup(ms, "environment") == Some(EnvironmentJson(r.environment))
                && Lookup(ms, "arguments") == Some(ArgumentsJson(r.arguments)))
  {
    hide Json.ParseDocument, Json.Document, RequestSlots, Present;
    Json.DocumentRoundTrip(Json.JObj(Present(RequestSlots(r))));
    RequestLookups(r);
    KnownOnceIff(Present(RequestSlots(r)), REQUEST_FIELDS);
  }

  /** A request reads back from its document exactly when it is valid. */
  lemma RequestRoundTrip(r: Request)
    ensures RequestFromJson(EncodeRequest(r)) == if ValidRequest(r) then Some(r) else None
  {
    Json.DocumentRoundTrip(Json.JObj(Present(RequestSlots(r))));
    RequestLookups(r);
    RequestLists(r);
    assert ReadRequest(Json.JObj(Present(RequestSlots(r)))) == Some(r);
  }

  // ---- From a request to the run command -----------------------------------------------------

  /** The run command `hub_run` delegates for a request. */
  function CommandOf(r: Request, capsule: string, policy: string, signaturePaths: seq<string>): Command {
    Command(capsule, policy, signaturePaths, r.maxFiles, r.maxBytes, r.timeoutSeconds,
            DEFAULT_MAX_OUTPUT_BYTES, r.environment, r.arguments)
  }

  /** The command states every field of the request, the default output limit and the given paths;
      its variables are the request's `NAME=VALUE` texts. */
  ghost predicate Carries(c: Command, r: Request, capsule: string, policy: string, signaturePaths: seq<string>) {
    && c.capsule == capsule && c.policy == policy && c.signatures == signaturePaths
    && c.maxFiles == r.maxFiles && c.maxBytes == r.maxBytes
    && c.timeoutSeconds == r.timeoutSeconds && c.maxOutputBytes == 16 * 1024 * 1024
    && c.arguments == r.arguments
    && Assignments(c.environment) == Assignments(r.environment)
  }

  ghost predicate NoEqualsInNames(environment: seq<Variable>) {
    forall i :: 0 <= i < |environment| ==> '=' !in environment[i].name
  }

  /** A valid request passes every limit of the run command. */
  lemma RequestWithinLimits(r: Request)
    requires ValidRequest(r)
    ensures CheckEnvironment(r.environment).Ok? && CheckArguments(r.arguments).Ok?
    ensures AllValid(r.environment)
  {
    StrictDistinct(r.environment, VariableName);
    forall i, j | 0 <= i < j < |r.environment|
      ensures r.environment[i].name != r.environment[j].name
    {
      assert VariableName(r.environment[i]) != VariableName(r.environment[j]);
    }
  }

  /** For every valid request, the run command reads back from the rendered arguments exactly as
      the request states it, if and only if no environment name contains `=`. */
  lemma RequestRendersExactly(r: Request, capsule: string, policy: string, signaturePaths: seq<string>)
    requires ValidRequest(r)
    requires ValidPaths(capsule, policy, signaturePaths) && |signaturePaths| == |r.signatures|
    ensures var c := CommandOf(r, capsule, policy, signaturePaths);
            && Carries(c, r, capsule, policy, signaturePaths) && c.environment == r.environment
            && (Parse(Render(c)) == Ok(c) <==> NoEqualsInNames(r.environment))
  {
    RequestWithinLimits(r);
    RoundTripIff(CommandOf(r, capsule, policy, signaturePaths));
  }

  /** Whatever the names, a command that is delivered at all has the request's paths, limits,
      timeout and arguments, and its environment assigns the same `NAME=VALUE` texts. */
  lemma RequestRendersSafely(r: Request, capsule: string, policy: string, signaturePaths: seq<string>)
    requires ValidRequest(r)
    requires ValidPaths(capsule, policy, signaturePaths) && |signaturePaths| == |r.signatures|
    ensures var c := CommandOf(r, capsule, policy, signaturePaths);
            var parsed := Parse(Render(c));
            parsed.Ok? ==> Carries(parsed.value, r, capsule, policy, signaturePaths)
  {
    var c := CommandOf(r, capsule, policy, signaturePaths);
    ParseOfRender(c);
    RereadAssignments(r.environment);
  }

  lemma {:induction false} RereadAssignments(environment: seq<Variable>)
    ensures Assignments(RereadAll(environment)) == Assignments(environment)
  {
    if environment != [] {
      RereadAssignments(environment[1..]);
      assert RereadAll(environment)[1..] == RereadAll(environment[1..]);
    }
  }

  /** A request whose environment name contains `=` passes validation but is not delivered. */
  lemma EqualsInNameExample()
    ensures var e := Envelope(1, "ed25519", seq(64, _ => '\0'));
            var r := Request(1, [e], 30, 4, 1024, [Variable("A=B", "C")], []);
            var c := CommandOf(r, "/c", "/p", ["/s"]);
            ValidRequest(r) && Parse(Render(c)) != Ok(c)
  {
    var e := Envelope(1, "ed25519", seq(64, _ => '\0'));
    var v := Variable("A=B", "C");
    var r := Request(1, [e], 30, 4, 1024, [v], []);
    assert EnvironmentBytes([v][..0]) == 0;
    assert v.name[1] == '=';
    RequestRendersExactly(r, "/c", "/p", ["/s"]);
    assert '=' in r.environment[0].name;
  }
}
