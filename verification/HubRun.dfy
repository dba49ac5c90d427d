/** `hub-run`: authorise caller-owned inputs, pin them in private snapshots and delegate to the
    `run` command, while anyone may change the caller-owned files between any two steps
    (src/hub_cli.rs, src/execution_cli.rs). */
module HubRun {
  import opened Basics
  import Decimal
  import opened Extraction
  import opened Hex
  import opened HubRequest
  import Json
  import JsonSize
  import opened Paths
  import RC = RunCommand
  import Records
  import Runner
  import opened Signature
  import TE = TrustEvaluation
  import TL = TrustLifecycle
  import TP = TrustPolicy

  const MAX_CAPSULE_METADATA_BYTES := 16 * 1024 * 1024
  const MAX_SIGNATURE_ENVELOPE_BYTES: u64 := 16 * 1024
  const MAX_RESULT_BYTES := 64 * 1024

  /** A decoded capsule; its container format is not part of this model. */
  datatype Capsule = Capsule(name: string, entrypoint: string, payloads: seq<Payload>)

  /** What never changes: the cryptography and the capsule decoder. */
  datatype Context = Context(c: TP.Crypto, decode: string -> Option<Capsule>)

  type Files = map<string, string>

  /** Everything others decide: `files(k)` is what the caller-owned files hold when the program looks
      at them for the k-th time, `clock(k)` the system time once it has looked k times. Both are
      arbitrary, so others may change anything between any two steps. */
  datatype World = World(files: nat -> Files, clock: nat -> u64)

  /** One start of a capsule's entrypoint: what was authorised, with which decision, and the bytes
      and arguments the process was given. */
  datatype Execution = Execution(
    command: RC.Command,
    capsuleBytes: string,
    policy: TP.Policy,
    envelopes: seq<Envelope>,
    at: u64,
    decision: TE.Decision,
    entryBytes: string)

  /** What `hub_run` holds in memory once it has decided to trust a capsule. */
  datatype Authorised = Authorised(
    request: Request,
    capsuleBytes: string,
    capsule: Capsule,
    policyBytes: string,
    policy: TP.Policy,
    at: u64,
    decision: TE.Decision)

  /** The arguments of `hub-run`, and the fresh private directory it is given. */
  datatype Call = Call(capsulePath: string, policyPath: string, requestPath: string, resultPath: string, directory: string)

  datatype HubError = ResultExists | NotAuthorised | RunFailed | ResultTooLarge

  // ---- Reading -----------------------------------------------------------------------------

  function Bounded(bytes: string, max: u64): Option<string> {
    if |bytes| > max then None else Some(bytes)
  }

  /** `read_regular_file_bounded`. */
  function ReadAt(private: Files, caller: Files, path: string, max: u64): Option<string> {
    if max == U64_MAX then None
    else if path in private then Bounded(private[path], max)
    else if path in caller then Bounded(caller[path], max)
    else None
  }

  /** A capsule, read within the payload limit plus the metadata allowance. */
  function CapsuleAt(x: Context, private: Files, caller: Files, path: string, maxBytes: u64): Option<(string, Capsule)> {
    if maxBytes + MAX_CAPSULE_METADATA_BYTES > U64_MAX then None
    else
      var bytes :- ReadAt(private, caller, path, maxBytes + MAX_CAPSULE_METADATA_BYTES);
      var capsule :- x.decode(bytes);
      Some((bytes, capsule))
  }

  /** A policy that may authorise execution. */
  ghost function PolicyAt(x: Context, private: Files, caller: Files, path: string): Option<(string, TP.Policy)> {
    var bytes :- ReadAt(private, caller, path, TP.MAX_TRUST_POLICY_BYTES);
    var policy :- TP.FromJson(x.c, bytes);
    if policy.version == TP.VERSION_2 then Some((bytes, policy)) else None
  }

  function EnvelopeAt(private: Files, caller: Files, path: string): Option<Envelope> {
    var bytes :- ReadAt(private, caller, path, MAX_SIGNATURE_ENVELOPE_BYTES);
    DecodeEnvelope(bytes)
  }

  /** The signature files, one look at the world for each. */
  function EnvelopesAt(private: Files, w: World, at: nat, paths: seq<string>): (r: Option<seq<Envelope>>)
    ensures r.Some? ==> |r.value| == |paths|
  {
    if paths == [] then Some([])
    else
      var n := |paths| - 1;
      var front :- EnvelopesAt(private, w, at, paths[..n]);
      var last :- EnvelopeAt(private, w.files(at + n), paths[n]);
      Some(front + [last])
  }

  lemma {:induction false} EnvelopesStop(private: Files, w: World, at: nat, paths: seq<string>, n: nat)
    requires n <= |paths| && EnvelopesAt(private, w, at, paths[..n]).None?
    ensures EnvelopesAt(private, w, at, paths).None?
  {
    if n < |paths| {
      var front := paths[..|paths| - 1];
      assert front[..n] == paths[..n];
      EnvelopesStop(private, w, at, front, n);
    } else {
      assert paths[..n] == paths;
    }
  }

  // ---- What each command does in a given world -----------------------------------------------

  /** The entrypoint's bytes, when the capsule passes the preflight under the limits and its
      entrypoint is one of its payloads. */
  ghost function EntryAt(capsule: Capsule, limits: Limits): Option<string> {
    if && |capsule.payloads| <= limits.maxFiles && TotalBytes(capsule.payloads) <= limits.maxTotalBytes
       && Materializable(capsule.payloads) && PortablePath(capsule.entrypoint).Some?
    then FileAt(capsule.payloads, Split(capsule.entrypoint))
    else None
  }

  /** The `run` command up to the start of the entrypoint. */
  ghost function PrepareAt(x: Context, private: Files, w: World, at: nat, args: seq<string>): Option<Execution> {
    match RC.Parse(args)
    case Err(_) => None
    case Ok(command) =>
      var capsule :- CapsuleAt(x, private, w.files(at), command.capsule, command.maxBytes);
      var policy :- PolicyAt(x, private, w.files(at + 1), command.policy);
      var envelopes :- EnvelopesAt(private, w, at + 2, command.signatures);
      var now := w.clock(at + 2 + |command.signatures|);
      match TE.VerifyAt(x.c, policy.1, capsule.0, envelopes, now)
      case Err(_) => None
      case Ok(decision) =>
        var entry :- EntryAt(capsule.1, Limits(command.maxFiles, command.maxBytes));
        Some(Execution(command, capsule.0, policy.1, envelopes, now, decision, entry))
  }

  /** The process ends in success under this timeout and output limit. */
  ghost predicate Succeeded(process: Runner.Host, start: nat, timeoutSeconds: u64, maxOutputBytes: u64) {
    exists k: nat ::
      Runner.FirstStop(process, start + timeoutSeconds * 1000, k) && Runner.Verdict(process, k, maxOutputBytes).Completed?
  }

  /** Everything `hub_run` does before it pins its inputs. */
  ghost function AuthoriseAt(x: Context, w: World, at: nat, call: Call): Option<Authorised> {
    var requestBytes :- ReadAt(map[], w.files(at), call.requestPath, MAX_REQUEST_BYTES);
    var request :- RequestFromJson(requestBytes);
    var capsule :- CapsuleAt(x, map[], w.files(at + 1), call.capsulePath, request.maxBytes);
    var policy :- PolicyAt(x, map[], w.files(at + 2), call.policyPath);
    var now := w.clock(at + 3);
    match TE.VerifyAt(x.c, policy.1, capsule.0, request.signatures, now)
    case Err(_) => None
    case Ok(decision) => Some(Authorised(request, capsule.0, capsule.1, policy.0, policy.1, now, decision))
  }

  function PublishAt(caller: Files, resultPath: string, result: HubResult): (r: Result<HubResult, HubError>)
    ensures r.Ok? ==> r.value == result
  {
    if |EncodeResult(result)| > MAX_RESULT_BYTES then Err(ResultTooLarge)
    else if resultPath in caller then Err(ResultExists)
    else Ok(result)
  }

  /** The execution started, if any, and the result. */
  datatype Outcome = Outcome(started: Option<Execution>, result: Result<HubResult, HubError>)

  /** `hub_run`. */
  ghost function HubRunAt(x: Context, w: World, at: nat, call: Call, process: Runner.Host, start: nat): Outcome {
    if call.resultPath in w.files(at) then Outcome(None, Err(ResultExists))
    else
      match AuthoriseAt(x, w, at + 1, call)
      case None => Outcome(None, Err(NotAuthorised))
      case Some(a) => RunPinnedAt(x, w, at + 4, call, a, process, start)
  }

  /** `hub_run` from the snapshots on. */
  ghost function RunPinnedAt(x: Context, w: World, at: nat, call: Call, a: Authorised, process: Runner.Host, start: nat): Outcome {
    match PrepareAt(x, Snapshots(call.directory, a), w, at, RC.Render(Delegated(call.directory, a.request)))
    case None => Outcome(None, Err(RunFailed))
    case Some(e) =>
      if !Succeeded(process, start, e.command.timeoutSeconds, e.command.maxOutputBytes) then Outcome(Some(e), Err(RunFailed))
      else Outcome(Some(e), PublishAt(w.files(at + 2 + |e.command.signatures|), call.resultPath, ResultOf(x, a)))
  }

  class Host {
    const x: Context
    const world: World
    var step: nat          // how often the program has looked at the caller-owned files
    var caller: Files      // the caller-owned files
    var private: Files     // the files of the private snapshot directory
    var runs: seq<Execution>

    constructor (x: Context, world: World, caller: Files)
      ensures this.x == x && this.world == world && this.caller == caller
      ensures step == 0 && private == map[] && runs == []
    {
      this.x := x;
      this.world := world;
      this.caller := caller;
      step := 0;
      private := map[];
      runs := [];
    }

    /** The program has only looked since then: the caller-owned files are what others made them. */
    ghost predicate OnlyLooked(from: nat, files: Files)
      reads this
    {
      from <= step && caller == if step == from then files else world.files(step - 1)
    }

    /** Others have changed the caller-owned files in any way. */
    method Look()
      modifies this`caller, this`step
      ensures step == old(step) + 1 && caller == world.files(old(step))
    {
      caller := world.files(step);
      step := step + 1;
    }

    method ReadBounded(path: string, max: u64) returns (r: Option<string>)
      modifies this`caller, this`step
      ensures r == ReadAt(private, world.files(old(step)), path, max)
      ensures step == old(step) + 1 && caller == world.files(old(step))
    {
      Look();
      if max == U64_MAX {
        return None;
      }
      if path in private {
        return if |private[path]| > max then None else Some(private[path]);
      }
      if path in caller {
        return if |caller[path]| > max then None else Some(caller[path]);
      }
      return None;
    }

    method ReadEnvelope(path: string) returns (r: Option<Envelope>)
      modifies this`caller, this`step
      ensures r == EnvelopeAt(private, world.files(old(step)), path)
      ensures step == old(step) + 1 && caller == world.files(old(step))
    {
      var encoded := ReadBounded(path, MAX_SIGNATURE_ENVELOPE_BYTES);
      if encoded.None? {
        return None;
      }
      return DecodeEnvelope(encoded.value);
    }

    /** Read and decode every signature file. */
    method ReadEnvelopes(paths: seq<string>) returns (r: Option<seq<Envelope>>)
      modifies this`caller, this`step
      ensures r == EnvelopesAt(private, world, old(step), paths)
      ensures OnlyLooked(old(step), old(caller))
      ensures r.Some? ==> step == old(step) + |paths|
    {
      hide EnvelopeAt;
      var envelopes := [];
      for i := 0 to |paths|
        invariant EnvelopesAt(private, world, old(step), paths[..i]) == Some(envelopes)
        invariant OnlyLooked(old(step), old(caller)) && step == old(step) + i
      {
        assert paths[..i + 1][..i] == paths[..i];
        var envelope := ReadEnvelope(paths[i]);
        if envelope.None? {
          EnvelopesStop(private, world, old(step), paths, i + 1);
          return None;
        }
        envelopes := envelopes + [envelope.value];
      }
      assert paths[..|paths|] == paths;
      return Some(envelopes);
    }

    method ReadPolicy(path: string) returns (r: Option<(string, TP.Policy)>)
      modifies this`caller, this`step
      ensures r == PolicyAt(x, private, world.files(old(step)), path)
      ensures step == old(step) + 1 && caller == world.files(old(step))
    {
      var bytes := ReadBounded(path, TP.MAX_TRUST_POLICY_BYTES);
      if bytes.None? {
        return None;
      }
      var policy := TP.Decode(bytes.value);
      if policy.None? {
        return None;
      }
      var valid := TP.Validate(x.c, policy.value);
      if !valid || policy.value.version != TP.VERSION_2 {
        return None;
      }
      return Some((bytes.value, policy.value));
    }

    method ReadCapsule(path: string, maxBytes: u64) returns (r: Option<(string, Capsule)>)
      modifies this`caller, this`step
      ensures r == CapsuleAt(x, private, world.files(old(step)), path, maxBytes)
      ensures OnlyLooked(old(step), old(caller))
      ensures r.Some? ==> step == old(step) + 1
    {
      if maxBytes + MAX_CAPSULE_METADATA_BYTES > U64_MAX {
        return None;
      }
      var bytes := ReadBounded(path, maxBytes + MAX_CAPSULE_METADATA_BYTES);
      if bytes.None? {
        return None;
      }
      var capsule := x.decode(bytes.value);
      if capsule.None? {
        return None;
      }
      return Some((bytes.value, capsule.value));
    }

    /** Materialise a capsule in a fresh private directory and return its entrypoint's bytes. */
    method Materialize(capsule: Capsule, limits: Limits) returns (entry: Option<string>)
      ensures entry == EntryAt(capsule, limits)
    {
      var fs := new FileSystem(map[[] := Dir]);
      var root := ["root"];
      assert Parent(root) == [];
      assert Parent(root) + [".scicapsule-staging-"] != root by {
        assert |root[0]| != |".scicapsule-staging-"|;
      }
      var summary := fs.Extract(capsule.payloads, capsule.entrypoint, root, limits, ".scicapsule-staging-", None, None);
      if summary.Err? {
        return None;
      }
      var target := summary.value.entrypoint;
      EntryBytes(root, capsule.payloads, Split(capsule.entrypoint));
      if target !in fs.nodes || !fs.nodes[target].File? {
        return None;
      }
      return Some(fs.nodes[target].bytes);
    }

    /** The `run` command up to the start of the entrypoint: parse, authorise, materialise. */
    method Prepare(args: seq<string>) returns (r: Option<Execution>)
      modifies this`caller, this`step
      ensures r == PrepareAt(x, private, world, old(step), args)
      ensures OnlyLooked(old(step), old(caller))
      ensures r.Some? ==> step == old(step) + 2 + |r.value.command.signatures|
    {
      hide RC.Parse, CapsuleAt, PolicyAt, EnvelopesAt, EntryAt, TE.VerifyAt;
      var parsed := RC.ParseArguments(args);
      if parsed.Err? {
        return None;
      }
      var command := parsed.value;
      var capsule := ReadCapsule(command.capsule, command.maxBytes);
      if capsule.None? {
        return None;
      }
      var policy := ReadPolicy(command.policy);
      if policy.None? {
        return None;
      }
      var envelopes := ReadEnvelopes(command.signatures);
      if envelopes.None? {
        return None;
      }
      var now := world.clock(step);
      var decision := TE.VerifyAtUnixSeconds(x.c, policy.value.1, capsule.value.0, envelopes.value, now);
      if decision.Err? {
        return None;
      }
      var entry := Materialize(capsule.value.1, Limits(command.maxFiles, command.maxBytes));
      if entry.None? {
        return None;
      }
      return Some(Execution(command, capsule.value.0, policy.value.1, envelopes.value, now, decision.value, entry.value));
    }

    /** Supervise the started entrypoint. */
    method Supervise(process: Runner.Host, start: nat, timeoutSeconds: u64, maxOutputBytes: u64) returns (ok: bool)
      requires Runner.Progresses(process, start)
      ensures ok <==> Succeeded(process, start, timeoutSeconds, maxOutputBytes)
    {
      var supervisor := new Runner.Execution(start);
      var result, k := supervisor.Execute(process, timeoutSeconds, maxOutputBytes);
      ghost var deadline := start + timeoutSeconds * 1000;
      forall j: nat | Runner.FirstStop(process, deadline, j)
        ensures j == k
      {
        Runner.FirstStopUnique(process, deadline, j, k);
      }
      return result.Completed?;
    }

    /** The `run` command: prepare, start the entrypoint and supervise it. `process` is what its
        process does. */
    method Run(args: seq<string>, process: Runner.Host, start: nat) returns (ok: bool)
      requires Runner.Progresses(process, start)
      modifies this`caller, this`step, this`runs
      ensures var e := PrepareAt(x, private, world, old(step), args);
              && runs == old(runs) + Listed(e)
              && (ok <==> e.Some? && Succeeded(process, start, e.value.command.timeoutSeconds, e.value.command.maxOutputBytes))
              && (ok ==> step == old(step) + 2 + |e.value.command.signatures|)
      ensures OnlyLooked(old(step), old(caller))
    {
      hide PrepareAt;
      var e := Prepare(args);
      if e.None? {
        return false;
      }
      runs := runs + [e.value];
      ok := Supervise(process, start, e.value.command.timeoutSeconds, e.value.command.maxOutputBytes);
    }

    /** Read the request, the capsule and the policy from caller-owned paths, and authorise the
        capsule. */
    method Authorise(call: Call) returns (r: Option<Authorised>)
      requires private == map[]
      modifies this`caller, this`step
      ensures r == AuthoriseAt(x, world, old(step), call)
      ensures OnlyLooked(old(step), old(caller))
      ensures r.Some? ==> step == old(step) + 3
    {
      hide RequestFromJson, CapsuleAt, PolicyAt, TE.VerifyAt;
      var requestBytes := ReadBounded(call.requestPath, MAX_REQUEST_BYTES);
      if requestBytes.None? {
        return None;
      }
      var request := RequestFromJson(requestBytes.value);
      if request.None? {
        return None;
      }
      var capsule := ReadCapsule(call.capsulePath, request.value.maxBytes);
      if capsule.None? {
        return None;
      }
      var policy := ReadPolicy(call.policyPath);
      if policy.None? {
        return None;
      }
      var now := world.clock(step);
      var decision := TE.VerifyAtUnixSeconds(x.c, policy.value.1, capsule.value.0, request.value.signatures, now);
      if decision.Err? {
        return None;
      }
      return Some(Authorised(request.value, capsule.value.0, capsule.value.1, policy.value.0, policy.value.1, now, decision.value));
    }

    /** Write the snapshots and start the delegated argument vector. */
    method WriteSnapshots(directory: string, a: Authorised) returns (args: seq<string>)
      requires private == map[]
      modifies this`private
      ensures args == ["run", CapsuleSnapshot(directory), "--policy", PolicySnapshot(directory)]
                      + RC.Flags("--signature", SignatureSnapshots(directory, |a.request.signatures|))
      ensures private == Snapshots(directory, a)
    {
      var capsule, policy := CapsuleSnapshot(directory), PolicySnapshot(directory);
      private := private[capsule := a.capsuleBytes];
      SnapshotNames(directory);
      assert policy !in private;
      private := private[policy := a.policyBytes];
      args := ["run", capsule, "--policy", policy];
      ghost var head := args;
      var signatures := a.request.signatures;
      var paths := SignatureSnapshots(directory, |signatures|);
      for i := 0 to |signatures|
        invariant args == head + RC.Flags("--signature", paths[..i])
        invariant private == SnapshotsUpTo(directory, a, i)
      {
        SnapshotIsNew(directory, a, i);
        assert paths[i] !in private;
        private := private[paths[i] := EncodeEnvelope(signatures[i])];
        FlagsNext("--signature", head, args, paths, i);
        args := args + ["--signature", paths[i]];
      }
      assert paths[..|signatures|] == paths;
    }

    /** Write the snapshots and build the delegated argument vector, step by step. */
    method Pin(directory: string, a: Authorised) returns (args: seq<string>)
      requires private == map[]
      modifies this`private
      ensures args == RC.Render(Delegated(directory, a.request))
      ensures private == Snapshots(directory, a)
    {
      args := WriteSnapshots(directory, a);
      var options := RenderOptions(Delegated(directory, a.request));
      args := args + options;
    }

    /** The part of the argument vector after the snapshot paths. */
    method RenderOptions(c: RC.Command) returns (args: seq<string>)
      ensures args == RC.Numbers(c) + RC.Flags("--env", RC.Assignments(c.environment)) + RC.Tail(c.arguments)
    {
      args := RC.Numbers(c);
      ghost var head := args;
      var environment := c.environment;
      ghost var assignments := RC.Assignments(environment);
      AssignmentsAt(environment);
      for i := 0 to |environment|
        invariant args == head + RC.Flags("--env", assignments[..i])
      {
        FlagsNext("--env", head, args, assignments, i);
        args := args + ["--env", RC.Assignment(environment[i])];
      }
      assert assignments[..|environment|] == assignments;
      if c.arguments != [] {
        args := args + (["--"] + c.arguments);
      }
    }

    /** `hub_run`. */
    method Execute(call: Call, process: Runner.Host, start: nat) returns (r: Result<HubResult, HubError>)
      requires private == map[]
      requires Runner.Progresses(process, start)
      modifies this
      ensures var outcome := HubRunAt(x, world, old(step), call, process, start);
              runs == old(runs) + Listed(outcome.started) && r == outcome.result
      // A result is written where nothing was when the program looked last; otherwise the program
      // writes nothing at all.
      ensures old(step) < step && private == map[]
      ensures r.Ok? ==>
                && call.resultPath !in world.files(step - 1)
                && caller == world.files(step - 1)[call.resultPath := EncodeResult(r.value)]
      ensures r.Err? ==> caller == world.files(step - 1)
      // What is published is a document within the limit that describes the execution started.
      ensures r.Ok? && call.directory != "" && call.directory[0] == '/' ==>
                var started := HubRunAt(x, world, old(step), call, process, start).started;
                && started.Some? && |caller[call.resultPath]| <= MAX_RESULT_BYTES
                && DocumentDescribes(x, caller[call.resultPath], started.value)
    {
      hide AuthoriseAt, RunPinnedAt, DocumentDescribes, EncodeResult;
      if call.directory != "" && call.directory[0] == '/' {
        PublishedDocument(x, world, step, call, process, start);
      }
      Look();
      if call.resultPath in caller {
        return Err(ResultExists);
      }
      var authorised := Authorise(call);
      if authorised.None? {
        return Err(NotAuthorised);
      }
      r := RunPinned(call, authorised.value, process, start);
    }

    /** Pin what was authorised, run it from the snapshots, publish the result, and drop the
        snapshots. */
    method RunPinned(call: Call, a: Authorised, process: Runner.Host, start: nat) returns (r: Result<HubResult, HubError>)
      requires private == map[] && OnlyLookedLast()
      requires Runner.Progresses(process, start)
      modifies this
      ensures var outcome := RunPinnedAt(x, world, old(step), call, a, process, start);
              runs == old(runs) + Listed(outcome.started) && r == outcome.result
      ensures old(step) <= step && private == map[]
      ensures r.Ok? ==>
                && old(step) < step && call.resultPath !in world.files(step - 1)
                && caller == world.files(step - 1)[call.resultPath := EncodeResult(r.value)]
      ensures r.Err? ==> OnlyLookedLast()
    {
      hide PrepareAt, Snapshots, EncodeResult, ResultOf, PublishAt, RC.Render, Succeeded;
      var args := Pin(call.directory, a);
      var ok := Run(args, process, start);
      private := map[];
      if !ok {
        return Err(RunFailed);
      }
      r := Publish(call.resultPath, ResultOf(x, a));
    }

    /** The caller-owned files are as the last look found them. */
    ghost predicate OnlyLookedLast()
      reads this
    {
      step > 0 && caller == world.files(step - 1)
    }

    /** Write the result, never over an existing file. */
    method Publish(resultPath: string, result: HubResult) returns (r: Result<HubResult, HubError>)
      requires OnlyLookedLast()
      modifies this`caller, this`step
      ensures r == PublishAt(world.files(old(step)), resultPath, result)
      ensures old(step) <= step
      ensures r.Ok? ==>
                && old(step) < step && resultPath !in world.files(step - 1)
                && caller == world.files(step - 1)[resultPath := EncodeResult(result)]
      ensures r.Err? ==> OnlyLookedLast()
    {
      var document := EncodeResult(result);
      if |document| > MAX_RESULT_BYTES {
        return Err(ResultTooLarge);
      }
      Look();
      if resultPath in caller {
        return Err(ResultExists);
      }
      caller := caller[resultPath := document];
      return Ok(result);
    }
  }

  function Listed(e: Option<Execution>): seq<Execution> {
    if e.Some? then [e.value] else []
  }

  // ---- Pinning -----------------------------------------------------------------------------

  function CapsuleSnapshot(directory: string): string {
    directory + "/capsule.scicap"
  }

  function PolicySnapshot(directory: string): string {
    directory + "/policy.json"
  }

  function SignatureSnapshot(directory: string, index: nat): string {
    directory + ("/signature-" + (Decimal.Print(index) + ".json"))
  }

  function SignatureSnapshots(directory: string, count: nat): (paths: seq<string>)
    ensures |paths| == count
    ensures forall i :: 0 <= i < count ==> paths[i] == SignatureSnapshot(directory, i)
  {
    seq(count, i requires 0 <= i < count => SignatureSnapshot(directory, i))
  }

  /** The command `hub_run` delegates. */
  function Delegated(directory: string, request: Request): RC.Command {
    CommandOf(request, CapsuleSnapshot(directory), PolicySnapshot(directory),
              SignatureSnapshots(directory, |request.signatures|))
  }

  /** The private directory after the first `n` signatures are written: exactly the bytes that
      produced the trust decision. */
  function SnapshotsUpTo(directory: string, a: Authorised, n: nat): Files
    requires n <= |a.request.signatures|
  {
    if n == 0 then map[CapsuleSnapshot(directory) := a.capsuleBytes, PolicySnapshot(directory) := a.policyBytes]
    else SnapshotsUpTo(directory, a, n - 1)[SignatureSnapshot(directory, n - 1) := EncodeEnvelope(a.request.signatures[n - 1])]
  }

  function Snapshots(directory: string, a: Authorised): Files {
    SnapshotsUpTo(directory, a, |a.request.signatures|)
  }

  ghost predicate PinnedUpTo(files: Files, directory: string, a: Authorised, n: nat)
    requires n <= |a.request.signatures|
  {
    && CapsuleSnapshot(directory) in files && files[CapsuleSnapshot(directory)] == a.capsuleBytes
    && PolicySnapshot(directory) in files && files[PolicySnapshot(directory)] == a.policyBytes
    && forall i :: 0 <= i < n ==>
         && SignatureSnapshot(directory, i) in files
         && files[SignatureSnapshot(directory, i)] == EncodeEnvelope(a.request.signatures[i])
  }

  /** Every snapshot is there: none was written over another. */
  lemma {:induction false} SnapshotsPinned(directory: string, a: Authorised, n: nat)
    requires n <= |a.request.signatures|
    ensures PinnedUpTo(SnapshotsUpTo(directory, a, n), directory, a, n)
  {
    if n == 0 {
      SnapshotNames(directory);
    } else {
      SnapshotsPinned(directory, a, n - 1);
      SignatureNames(directory, n, n - 1);
    }
  }

  /** Each signature's snapshot is a new file. */
  lemma {:induction false} SnapshotAbsent(directory: string, a: Authorised, n: nat, k: nat)
    requires n <= k && n <= |a.request.signatures|
    ensures SignatureSnapshot(directory, k) !in SnapshotsUpTo(directory, a, n)
  {
    SignatureNames(directory, k + 1, k);
    if n > 0 {
      SnapshotAbsent(directory, a, n - 1, k);
    }
  }

  lemma SnapshotIsNew(directory: string, a: Authorised, i: nat)
    requires i < |a.request.signatures|
    ensures SignatureSnapshot(directory, i) !in SnapshotsUpTo(directory, a, i)
  {
    SnapshotAbsent(directory, a, i, i);
  }

  lemma SnapshotNames(directory: string)
    ensures CapsuleSnapshot(directory) != PolicySnapshot(directory)
  {
    assert |CapsuleSnapshot(directory)| != |PolicySnapshot(directory)|;
  }

  lemma SignatureNames(directory: string, count: nat, i: nat)
    requires i < count
    ensures SignatureSnapshot(directory, i) != CapsuleSnapshot(directory)
    ensures SignatureSnapshot(directory, i) != PolicySnapshot(directory)
    ensures forall k :: 0 <= k < i ==> SignatureSnapshot(directory, k) != SignatureSnapshot(directory, i)
  {
    var n := |directory|;
    assert SignatureSnapshot(directory, i)[n + 1] == 's';
    assert CapsuleSnapshot(directory)[n + 1] == 'c';
    assert PolicySnapshot(directory)[n + 1] == 'p';
    forall k: nat | k < i
      ensures SignatureSnapshot(directory, k) != SignatureSnapshot(directory, i)
    {
      SignatureNamesDiffer(directory, k, i);
    }
  }

  lemma SignatureNamesDiffer(directory: string, j: nat, k: nat)
    requires j != k
    ensures SignatureSnapshot(directory, j) != SignatureSnapshot(directory, k)
  {
    var n := |directory| + |"/signature-"|;
    var s, t := SignatureSnapshot(directory, j), SignatureSnapshot(directory, k);
    assert s[n..|s| - 5] == Decimal.Print(j) && t[n..|t| - 5] == Decimal.Print(k);
    if s == t {
      Decimal.PrintInjective(j, k);
    }
  }

  lemma {:induction false} FlagsAppend(option: string, values: seq<string>, value: string)
    ensures RC.Flags(option, values + [value]) == RC.Flags(option, values) + [option, value]
  {
    if values == [] {
      assert [] + [value] == [value];
    } else {
      assert (values + [value])[1..] == values[1..] + [value];
      FlagsAppend(option, values[1..], value);
    }
  }

  /** Pushing one more option and value. */
  lemma FlagsNext(option: string, head: seq<string>, args: seq<string>, values: seq<string>, i: nat)
    requires i < |values| && args == head + RC.Flags(option, values[..i])
    ensures args + [option, values[i]] == head + RC.Flags(option, values[..i + 1])
  {
    FlagsAppend(option, values[..i], values[i]);
    assert values[..i + 1] == values[..i] + [values[i]];
  }

  lemma {:induction false} AssignmentsAt(environment: seq<RC.Variable>)
    ensures |RC.Assignments(environment)| == |environment|
    ensures forall i :: 0 <= i < |environment| ==> RC.Assignments(environment)[i] == RC.Assignment(environment[i])
  {
    if environment != [] {
      AssignmentsAt(environment[1..]);
    }
  }

  // ---- The result ----------------------------------------------------------------------------

  datatype HubResult = HubResult(
    capsuleSha256: string,
    capsuleName: string,
    entrypoint: string,
    matchedSigners: seq<string>,
    requiredSignatures: u32,
    policyDigest: string,
    policyRevision: u64)

  function ResultOf(x: Context, a: Authorised): HubResult {
    HubResult(ToHex(x.c.sha256(a.capsuleBytes)), a.capsule.name, a.capsule.entrypoint,
              a.decision.matchedSigners, a.decision.requiredSignatures, a.decision.policyDigest,
              if a.decision.policyRevision.Some? then a.decision.policyRevision.value else 0)
  }

  function SignersJson(names: seq<string>): Json.Json {
    Json.JArr(seq(|names|, i requires 0 <= i < |names| => Json.JStr(names[i])))
  }

  function ResultMembers(r: HubResult): seq<Json.Member> {
    [
      Json.Member("schema_version", Json.JNum(1)),
      Json.Member("status", Json.JStr("succeeded")),
      Json.Member("capsule_sha256", Json.JStr(r.capsuleSha256)),
      Json.Member("capsule_name", Json.JStr(r.capsuleName)),
      Json.Member("entrypoint", Json.JStr(r.entrypoint)),
      Json.Member("matched_signers", SignersJson(r.matchedSigners)),
      Json.Member("required_signatures", Json.JNum(r.requiredSignatures)),
      Json.Member("policy_digest", Json.JStr(r.policyDigest)),
      Json.Member("policy_revision", Json.JNum(r.policyRevision))]
  }

  function EncodeResult(r: HubResult): string {
    Json.Document(Json.JObj(ResultMembers(r)))
  }

  const RESULT_FIELDS := {"schema_version", "status", "capsule_sha256", "capsule_name", "entrypoint",
                          "matched_signers", "required_signatures", "policy_digest", "policy_revision"}

  ghost predicate IsNames(j: Option<Json.Json>, names: seq<string>) {
    && j.Some? && j.value.JArr? && |j.value.items| == |names|
    && (forall i :: 0 <= i < |names| ==> j.value.items[i] == Json.JStr(names[i]))
  }

  /** The text is a JSON object of exactly the nine members, which report this result. */
  ghost predicate Reports(document: string, r: HubResult) {
    var j := Json.ParseDocument(document);
    && j.Some? && Records.Strict(j.value, RESULT_FIELDS) && |j.value.members| == 9
    && (var ms := j.value.members;
        && Records.Lookup(ms, "schema_version") == Some(Json.JNum(1))
        && Records.Lookup(ms, "status") == Some(Json.JStr("succeeded"))
        && Records.Lookup(ms, "capsule_sha256") == Some(Json.JStr(r.capsuleSha256))
        && Records.Lookup(ms, "capsule_name") == Some(Json.JStr(r.capsuleName))
        && Records.Lookup(ms, "entrypoint") == Some(Json.JStr(r.entrypoint))
        && IsNames(Records.Lookup(ms, "matched_signers"), r.matchedSigners)
        && Records.Lookup(ms, "required_signatures") == Some(Json.JNum(r.requiredSignatures))
        && Records.Lookup(ms, "policy_digest") == Some(Json.JStr(r.policyDigest))
        && Records.Lookup(ms, "policy_revision") == Some(Json.JNum(r.policyRevision)))
  }

  /** What is written parses back to the result it was written for. */
  lemma ResultFields(r: HubResult)
    ensures Reports(EncodeResult(r), r)
  {
    hide Json.ParseDocument, Json.Document;
    var ms := ResultMembers(r);
    Json.DocumentRoundTrip(Json.JObj(ms));
    assert forall i, k :: 0 <= i < k < 9 ==> ms[i].key != ms[k].key;
    forall i | 0 <= i < 9
      ensures Records.Lookup(ms, ms[i].key) == Some(ms[i].value)
    {
      Records.LookupAt(ms, i);
    }
    assert ms[0].key == "schema_version" && ms[1].key == "status" && ms[2].key == "capsule_sha256";
    assert ms[3].key == "capsule_name" && ms[4].key == "entrypoint" && ms[5].key == "matched_signers";
    assert ms[6].key == "required_signatures" && ms[7].key == "policy_digest" && ms[8].key == "policy_revision";
  }

  // ---- What is authorised ----------------------------------------------------------------------

  /** The capsule was accepted under a version 2 policy, from decoded bytes within the limits. */
  ghost predicate Accepted(x: Context, a: Authorised) {
    && ValidRequest(a.request)
    && a.request.maxBytes + MAX_CAPSULE_METADATA_BYTES < U64_MAX
    && |a.capsuleBytes| <= a.request.maxBytes + MAX_CAPSULE_METADATA_BYTES
    && x.decode(a.capsuleBytes) == Some(a.capsule)
    && |a.policyBytes| <= TP.MAX_TRUST_POLICY_BYTES
    && TP.FromJson(x.c, a.policyBytes) == Some(a.policy)
    && a.policy.version == TP.VERSION_2
    && TE.VerifyAt(x.c, a.policy, a.capsuleBytes, a.request.signatures, a.at) == Ok(a.decision)
  }

  /** What is authorised is what the three named files held when each was looked at. */
  lemma AuthorisedIff(x: Context, w: World, at: nat, call: Call, a: Authorised)
    ensures AuthoriseAt(x, w, at, call) == Some(a) <==>
            && Accepted(x, a) && a.at == w.clock(at + 3)
            && call.requestPath in w.files(at) && |w.files(at)[call.requestPath]| <= MAX_REQUEST_BYTES
            && RequestFromJson(w.files(at)[call.requestPath]) == Some(a.request)
            && call.capsulePath in w.files(at + 1) && w.files(at + 1)[call.capsulePath] == a.capsuleBytes
            && call.policyPath in w.files(at + 2) && w.files(at + 2)[call.policyPath] == a.policyBytes
  {
    hide TP.FromJson, TE.VerifyAt, RequestFromJson, ValidRequest;
  }

  // ---- The delegated run -------------------------------------------------------------------------

  /** The entrypoint ran only after its capsule was accepted under a version 2 policy and passed the
      preflight under the command's limits, from exactly the bytes the capsule holds for it. */
  ghost predicate Lawful(x: Context, e: Execution) {
    && e.policy.version == TP.VERSION_2
    && TE.VerifyAt(x.c, e.policy, e.capsuleBytes, e.envelopes, e.at) == Ok(e.decision)
    && x.decode(e.capsuleBytes).Some?
    && EntryAt(x.decode(e.capsuleBytes).value, Limits(e.command.maxFiles, e.command.maxBytes)) == Some(e.entryBytes)
  }

  /** In any world and for any arguments, `run` starts nothing else. */
  lemma PreparedIsLawful(x: Context, private: Files, w: World, at: nat, args: seq<string>)
    ensures var e := PrepareAt(x, private, w, at, args);
            e.Some? ==> Lawful(x, e.value) && RC.Parse(args) == Ok(e.value.command)
  {
    hide RC.Parse, TP.FromJson, TE.VerifyAt, EnvelopesAt, EntryAt, ReadAt;
  }

  /** The command reads the snapshots and carries the request. */
  ghost predicate Delivers(c: RC.Command, directory: string, request: Request) {
    Carries(c, request, CapsuleSnapshot(directory), PolicySnapshot(directory),
            SignatureSnapshots(directory, |request.signatures|))
  }

  lemma DelegatedIsDelivered(directory: string, request: Request, args: seq<string>)
    requires ValidRequest(request) && directory != "" && directory[0] == '/'
    requires args == RC.Render(Delegated(directory, request)) && RC.Parse(args).Ok?
    ensures var c := RC.Parse(args).value;
            Delivers(c, directory, request)
  {
    var c := Delegated(directory, request);
    assert c.capsule[0] == '/' && c.policy[0] == '/';
    assert forall i :: 0 <= i < |c.signatures| ==> c.signatures[i][0] == '/';
    RequestRendersSafely(request, c.capsule, c.policy, c.signatures);
  }

  lemma SignatureSize(bytes: Bytes)
    requires |bytes| == TP.SIGNATURE_LENGTH
    ensures |Json.Print(Records.BytesJson(bytes), 1)| <= 600
  {
    var items := Records.BytesJson(bytes).items;
    forall i | 0 <= i < |items|
      ensures |Json.Print(items[i], 2)| + 2 * 2 + 2 <= 9
    {
      JsonSize.ByteLength(bytes[i] as int);
    }
    JsonSize.ItemsAtMost(items, 2, 9);
    JsonSize.IndentLength(1);
  }

  lemma EnvelopeMembers(e: Envelope)
    ensures Records.Present(EnvelopeSlots(e)) ==
            [Json.Member("version", Json.JNum(e.version)), Json.Member("algorithm", Json.JStr(e.algorithm)),
             Json.Member("signature", Records.BytesJson(e.signature))]
  {
    var slots := EnvelopeSlots(e);
    assert Records.Present(slots[1..][1..][1..]) == [];
    assert Records.Present(slots[1..][1..]) == [Json.Member("signature", Records.BytesJson(e.signature))];
  }

  /** A valid signature envelope is far below the read limit. */
  lemma EnvelopeSize(e: Envelope)
    requires ValidEnvelope(e)
    ensures |EncodeEnvelope(e)| <= MAX_SIGNATURE_ENVELOPE_BYTES
  {
    hide Json.Document, Json.Print, JsonSize.MemberSize, Records.BytesJson, Records.Present, EnvelopeSlots;
    var members := Records.Present(EnvelopeSlots(e));
    EnvelopeMembers(e);
    SignatureSize(e.signature);
    forall i | 0 <= i < |members|
      ensures JsonSize.MemberSize(members[i], 1) <= 700
    {
      JsonSize.MemberLength(members[i], 1);
    }
    JsonSize.DocumentAtMost(members, 700);
  }

  lemma AllPinned(directory: string, a: Authorised)
    ensures PinnedUpTo(Snapshots(directory, a), directory, a, |a.request.signatures|)
  {
    SnapshotsPinned(directory, a, |a.request.signatures|);
  }

  lemma {:induction false} SnapshotEnvelopes(x: Context, w: World, at: nat, directory: string, a: Authorised, n: nat)
    requires ValidRequest(a.request) && n <= |a.request.signatures|
    ensures var paths := SignatureSnapshots(directory, |a.request.signatures|);
            EnvelopesAt(Snapshots(directory, a), w, at, paths[..n]) == Some(a.request.signatures[..n])
  {
    hide EncodeEnvelope, DecodeEnvelope, Snapshots;
    if n > 0 {
      var paths, signature := SignatureSnapshots(directory, |a.request.signatures|), a.request.signatures[n - 1];
      SnapshotEnvelopes(x, w, at, directory, a, n - 1);
      AllPinned(directory, a);
      EnvelopeSize(signature);
      EnvelopeRoundTrip(signature);
      assert paths[..n][..n - 1] == paths[..n - 1];
      assert a.request.signatures[..n] == a.request.signatures[..n - 1] + [signature];
    }
  }

  /** The delegated run reads back from the snapshots what was authorised, whatever happens to the
      caller-owned files. */
  lemma SnapshotsRead(x: Context, w: World, at: nat, directory: string, a: Authorised, caller: Files)
    requires Accepted(x, a)
    ensures var private := Snapshots(directory, a);
            && CapsuleAt(x, private, caller, CapsuleSnapshot(directory), a.request.maxBytes) == Some((a.capsuleBytes, a.capsule))
            && PolicyAt(x, private, caller, PolicySnapshot(directory)) == Some((a.policyBytes, a.policy))
            && EnvelopesAt(private, w, at, SignatureSnapshots(directory, |a.request.signatures|)) == Some(a.request.signatures)
  {
    hide EnvelopesAt, TP.FromJson, TE.VerifyAt, EncodeEnvelope, Snapshots;
    var n := |a.request.signatures|;
    AllPinned(directory, a);
    SnapshotEnvelopes(x, w, at, directory, a, n);
    assert SignatureSnapshots(directory, n)[..n] == SignatureSnapshots(directory, n);
    assert a.request.signatures[..n] == a.request.signatures;
  }

  /** The time of the inner check, when the delegated run starts after `at` looks. */
  function InnerTime(w: World, at: nat, a: Authorised): u64 {
    w.clock(at + 2 + |a.request.signatures|)
  }

  /** What the delegated run starts: exactly what was authorised, checked again at a later time. */
  ghost function InnerRun(x: Context, w: World, at: nat, directory: string, a: Authorised): Option<Execution> {
    match RC.Parse(RC.Render(Delegated(directory, a.request)))
    case Err(_) => None
    case Ok(command) =>
      match TE.VerifyAt(x.c, a.policy, a.capsuleBytes, a.request.signatures, InnerTime(w, at, a))
      case Err(_) => None
      case Ok(decision) =>
        var entry :- EntryAt(a.capsule, Limits(a.request.maxFiles, a.request.maxBytes));
        Some(Execution(command, a.capsuleBytes, a.policy, a.request.signatures, InnerTime(w, at, a), decision, entry))
  }

  lemma DelegatedRun(x: Context, w: World, at: nat, directory: string, a: Authorised)
    requires directory != "" && directory[0] == '/'
    ensures Accepted(x, a) ==>
              PrepareAt(x, Snapshots(directory, a), w, at, RC.Render(Delegated(directory, a.request)))
              == InnerRun(x, w, at, directory, a)
  {
    hide RC.Parse, RC.Render, CapsuleAt, PolicyAt, EnvelopesAt, EntryAt, TE.VerifyAt, TP.FromJson, Snapshots, ValidRequest;
    var args := RC.Render(Delegated(directory, a.request));
    if Accepted(x, a) && RC.Parse(args).Ok? {
      DelegatedIsDelivered(directory, a.request, args);
      SnapshotsRead(x, w, at + 2, directory, a, w.files(at));
      SnapshotsRead(x, w, at + 2, directory, a, w.files(at + 1));
    }
  }

  lemma PinnedRun(x: Context, w: World, at: nat, call: Call, a: Authorised, process: Runner.Host, start: nat)
    requires Accepted(x, a) && call.directory != "" && call.directory[0] == '/'
    ensures RunPinnedAt(x, w, at, call, a, process, start)
         == match InnerRun(x, w, at, call.directory, a)
            case None => Outcome(None, Err(RunFailed))
            case Some(e) =>
              if !Succeeded(process, start, a.request.timeoutSeconds, RC.DEFAULT_MAX_OUTPUT_BYTES) then Outcome(Some(e), Err(RunFailed))
              else Outcome(Some(e), PublishAt(w.files(at + 2 + |a.request.signatures|), call.resultPath, ResultOf(x, a)))
  {
    hide PrepareAt, RC.Parse, RC.Render, TE.VerifyAt, EntryAt, PublishAt, ResultOf, Succeeded, Accepted, Snapshots, ValidRequest;
    DelegatedRun(x, w, at, call.directory, a);
    var inner := InnerRun(x, w, at, call.directory, a);
    if inner.Some? {
      InnerCommand(x, w, at, call.directory, a);
    }
  }

  lemma InnerCommand(x: Context, w: World, at: nat, directory: string, a: Authorised)
    requires Accepted(x, a) && directory != "" && directory[0] == '/'
    requires InnerRun(x, w, at, directory, a).Some?
    ensures var c := InnerRun(x, w, at, directory, a).value.command;
            && Delivers(c, directory, a.request)
            && |c.signatures| == |a.request.signatures|
  {
    hide RC.Parse, RC.Render, TE.VerifyAt, EntryAt;
    DelegatedIsDelivered(directory, a.request, RC.Render(Delegated(directory, a.request)));
  }

  /** What was executed is what was authorised: the same capsule bytes under the same policy and
      signatures, accepted both by `hub_run` and again by the delegated run, with the request's
      limits, timeout and arguments, all of which a process can be given. */
  ghost predicate Faithful(x: Context, directory: string, a: Authorised, e: Execution) {
    && Accepted(x, a)
    && Lawful(x, e)
    && e.capsuleBytes == a.capsuleBytes && e.policy == a.policy && e.envelopes == a.request.signatures
    && Delivers(e.command, directory, a.request)
    && RC.Spawnable(e.command.environment, e.command.arguments)
  }

  lemma InnerRunIsFaithful(x: Context, w: World, at: nat, directory: string, a: Authorised)
    requires directory != "" && directory[0] == '/'
    ensures var e := InnerRun(x, w, at, directory, a);
            Accepted(x, a) && e.Some? ==> Faithful(x, directory, a, e.value)
  {
    hide RC.Parse, RC.Render, TE.VerifyAt, EntryAt, TP.FromJson, ValidRequest;
    if Accepted(x, a) && InnerRun(x, w, at, directory, a).Some? {
      InnerCommand(x, w, at, directory, a);
      CommandSpawnable(RC.Render(Delegated(directory, a.request)), a.request);
    }
  }

  /** Whatever is parsed with a valid request's arguments can be given to a process. */
  lemma CommandSpawnable(args: seq<string>, request: Request)
    requires ValidRequest(request) && RC.Parse(args).Ok? && RC.Parse(args).value.arguments == request.arguments
    ensures var c := RC.Parse(args).value; RC.Spawnable(c.environment, c.arguments)
  {
    hide RC.Parse;
    RC.ParsedIsValid(args);
    var c := RC.Parse(args).value;
    forall a | a in c.arguments
      ensures '\0' !in a
    {
      var i :| 0 <= i < |c.arguments| && c.arguments[i] == a;
    }
  }

  // ---- hub-run as a whole --------------------------------------------------------------------------

  /** In every world, whatever is started was not in the way of an existing result, was authorised
      from the named files, and is exactly what was authorised. */
  lemma StartedIsFaithful(x: Context, w: World, at: nat, call: Call, process: Runner.Host, start: nat)
    requires call.directory != "" && call.directory[0] == '/'
    ensures var e, a := HubRunAt(x, w, at, call, process, start).started, AuthoriseAt(x, w, at + 1, call);
            e.Some? ==>
              call.resultPath !in w.files(at) && a.Some? && Faithful(x, call.directory, a.value, e.value)
  {
    hide AuthoriseAt, RunPinnedAt, InnerRun, Faithful, Accepted, PublishAt, ResultOf, Succeeded;
    var authorised := AuthoriseAt(x, w, at + 1, call);
    if authorised.Some? {
      var a := authorised.value;
      AuthorisedIff(x, w, at + 1, call, a);
      PinnedRun(x, w, at + 4, call, a, process, start);
      InnerRunIsFaithful(x, w, at + 4, call.directory, a);
    }
  }

  /** Everything a start needs, once the capsule is authorised. */
  ghost predicate Startable(x: Context, w: World, at: nat, call: Call, a: Authorised) {
    && RC.Parse(RC.Render(Delegated(call.directory, a.request))).Ok?
    && TE.VerifyAt(x.c, a.policy, a.capsuleBytes, a.request.signatures, InnerTime(w, at + 4, a)).Ok?
    && EntryAt(a.capsule, Limits(a.request.maxFiles, a.request.maxBytes)).Some?
  }

  /** The process succeeds under the request's timeout and the default output limit. */
  ghost predicate Succeeds(a: Authorised, process: Runner.Host, start: nat) {
    Succeeded(process, start, a.request.timeoutSeconds, 16 * 1024 * 1024)
  }

  /** Everything a publication needs, once the capsule is authorised. */
  ghost predicate Publishable(x: Context, w: World, at: nat, call: Call, a: Authorised, process: Runner.Host, start: nat) {
    && Startable(x, w, at, call, a)
    && Succeeds(a, process, start)
    && |EncodeResult(ResultOf(x, a))| <= MAX_RESULT_BYTES
    && call.resultPath !in w.files(at + 6 + |a.request.signatures|)
  }

  lemma InnerRunIff(x: Context, w: World, at: nat, call: Call, a: Authorised)
    ensures InnerRun(x, w, at + 4, call.directory, a).Some? <==> Startable(x, w, at, call, a)
  {
    hide RC.Parse, RC.Render, TE.VerifyAt, EntryAt;
  }

  /** A result is published exactly when its path is free at the first and at the last look, the
      capsule is authorised, the rendered command is read back, the inner check accepts again, the
      capsule materialises, the process succeeds under the request's timeout and the document is
      within its limit. */
  lemma PublishedIff(x: Context, w: World, at: nat, call: Call, process: Runner.Host, start: nat)
    requires call.directory != "" && call.directory[0] == '/'
    ensures var authorised := AuthoriseAt(x, w, at + 1, call);
            HubRunAt(x, w, at, call, process, start).result.Ok? <==>
              && call.resultPath !in w.files(at)
              && authorised.Some? && Publishable(x, w, at, call, authorised.value, process, start)
    ensures HubRunAt(x, w, at, call, process, start).result.Ok? ==>
              HubRunAt(x, w, at, call, process, start).result.value == ResultOf(x, AuthoriseAt(x, w, at + 1, call).value)
  {
    hide AuthoriseAt, RunPinnedAt, Accepted, EncodeResult, ResultOf, Succeeded, InnerRun, Startable;
    var authorised := AuthoriseAt(x, w, at + 1, call);
    if authorised.Some? {
      AuthorisedIff(x, w, at + 1, call, authorised.value);
      PinnedRun(x, w, at + 4, call, authorised.value, process, start);
      InnerRunIff(x, w, at, call, authorised.value);
    }
  }

  /** An entrypoint is started exactly when the result path is free at the first look, the capsule
      is authorised, the rendered command is read back, the inner check accepts again and the
      capsule materialises; what fails then, and with which error, is decided in this order. */
  lemma StartedIff(x: Context, w: World, at: nat, call: Call, process: Runner.Host, start: nat)
    requires call.directory != "" && call.directory[0] == '/'
    ensures var authorised, outcome := AuthoriseAt(x, w, at + 1, call), HubRunAt(x, w, at, call, process, start);
            var taken := call.resultPath in w.files(at);
            && (outcome.started.Some? <==> !taken && authorised.Some? && Startable(x, w, at, call, authorised.value))
            && (outcome.result == Err(NotAuthorised) <==> !taken && authorised.None?)
            && (outcome.result == Err(RunFailed) <==>
                  && !taken && authorised.Some?
                  && !(Startable(x, w, at, call, authorised.value) && Succeeds(authorised.value, process, start)))
            && (outcome.result == Err(ResultTooLarge) <==>
                  && !taken && authorised.Some?
                  && Startable(x, w, at, call, authorised.value) && Succeeds(authorised.value, process, start)
                  && |EncodeResult(ResultOf(x, authorised.value))| > MAX_RESULT_BYTES)
  {
    hide AuthoriseAt, RunPinnedAt, Accepted, EncodeResult, ResultOf, Succeeded, InnerRun, Startable;
    var authorised := AuthoriseAt(x, w, at + 1, call);
    if authorised.Some? {
      AuthorisedIff(x, w, at + 1, call, authorised.value);
      PinnedRun(x, w, at + 4, call, authorised.value, process, start);
      InnerRunIff(x, w, at, call, authorised.value);
    }
  }

  lemma PublishedStarted(x: Context, w: World, at: nat, call: Call, process: Runner.Host, start: nat)
    ensures var outcome := HubRunAt(x, w, at, call, process, start);
            outcome.result.Ok? ==> outcome.started.Some?
  {
    hide AuthoriseAt, PrepareAt, PublishAt, ResultOf, Succeeded, Snapshots, RC.Render;
  }

  /** A published result describes the started execution and nothing else. */
  lemma PublishedDescribesRun(x: Context, w: World, at: nat, call: Call, process: Runner.Host, start: nat)
    requires call.directory != "" && call.directory[0] == '/'
    ensures var outcome := HubRunAt(x, w, at, call, process, start);
            outcome.result.Ok? ==> outcome.started.Some? && Describes(x, outcome.result.value, outcome.started.value)
  {
    hide HubRunAt, AuthoriseAt, Faithful, ResultOf, Describes;
    PublishedIff(x, w, at, call, process, start);
    PublishedStarted(x, w, at, call, process, start);
    StartedIsFaithful(x, w, at, call, process, start);
    var outcome := HubRunAt(x, w, at, call, process, start);
    if outcome.result.Ok? {
      ResultDescribesRun(x, call.directory, AuthoriseAt(x, w, at + 1, call).value, outcome.started.value);
    }
  }

  /** A request without `=` in its names is always read back. */
  lemma DelegatedIsParsed(directory: string, request: Request)
    requires ValidRequest(request) && NoEqualsInNames(request.environment) && directory != "" && directory[0] == '/'
    ensures RC.Parse(RC.Render(Delegated(directory, request))) == Ok(Delegated(directory, request))
  {
    var c := Delegated(directory, request);
    assert c.capsule[0] == '/' && c.policy[0] == '/';
    assert forall i :: 0 <= i < |c.signatures| ==> c.signatures[i][0] == '/';
    RequestRendersExactly(request, c.capsule, c.policy, c.signatures);
  }

  /** What is authorised is also accepted by the inner check, materialises, and succeeds. */
  ghost predicate Ready(x: Context, w: World, at: nat, a: Authorised, process: Runner.Host, start: nat) {
    && NoEqualsInNames(a.request.environment)
    && TE.VerifyAt(x.c, a.policy, a.capsuleBytes, a.request.signatures, InnerTime(w, at + 4, a)).Ok?
    && EntryAt(a.capsule, Limits(a.request.maxFiles, a.request.maxBytes)).Some?
    && Succeeds(a, process, start)
    && |EncodeResult(ResultOf(x, a))| <= MAX_RESULT_BYTES
  }

  /** In a quiet world, a request without `=` in its names that the program can authorise, now and
      once more, for a capsule that materialises, is run and its result published. */
  lemma QuietRunPublishes(x: Context, w: World, files: Files, at: nat, call: Call, process: Runner.Host, start: nat)
    requires call.directory != "" && call.directory[0] == '/'
    requires (forall k :: w.files(k) == files) && call.resultPath !in files
    ensures var authorised := AuthoriseAt(x, w, at + 1, call);
            authorised.Some? && Ready(x, w, at, authorised.value, process, start) ==>
              HubRunAt(x, w, at, call, process, start).result == Ok(ResultOf(x, authorised.value))
  {
    hide HubRunAt, AuthoriseAt, EntryAt, RC.Parse, RC.Render, TE.VerifyAt, EncodeResult, ResultOf, Succeeded, ValidRequest;
    var authorised := AuthoriseAt(x, w, at + 1, call);
    if authorised.Some? && Ready(x, w, at, authorised.value, process, start) {
      AuthorisedIff(x, w, at + 1, call, authorised.value);
      DelegatedIsParsed(call.directory, authorised.value.request);
      PublishedIff(x, w, at, call, process, start);
    }
  }

  /** The result's capsule digest, name, entrypoint, policy digest and revision are those of the
      executed bytes. For policies whose revocations are all in force, as every policy of an update
      history is, its signers are those of the delegated run's own check, however the clock moved. */
  ghost predicate Describes(x: Context, r: HubResult, e: Execution) {
    && r.capsuleSha256 == ToHex(x.c.sha256(e.capsuleBytes))
    && x.decode(e.capsuleBytes).Some?
    && r.capsuleName == x.decode(e.capsuleBytes).value.name
    && r.entrypoint == x.decode(e.capsuleBytes).value.entrypoint
    && r.policyDigest == TP.PolicyDigest(x.c, e.policy) == e.decision.policyDigest
    && Some(r.policyRevision) == e.policy.revision
    && r.requiredSignatures == e.policy.minimumSignatures
    && (TL.RevocationsInForce(e.policy) ==> r.matchedSigners == e.decision.matchedSigners)
  }

  lemma ResultDescribesRun(x: Context, directory: string, a: Authorised, e: Execution)
    requires Faithful(x, directory, a, e)
    ensures Describes(x, ResultOf(x, a), e)
  {
    hide EntryAt, ValidRequest, TP.FromJson, RC.Assignments, TP.PolicyDigest;
    if TL.RevocationsInForce(e.policy) {
      TE.SignersStable(x.c, e.policy, e.capsuleBytes, e.envelopes, a.at, e.at);
    }
  }

  /** The text is a JSON object of exactly the nine members, which describe this execution. */
  ghost predicate DocumentDescribes(x: Context, document: string, e: Execution) {
    var j, decoded := Json.ParseDocument(document), x.decode(e.capsuleBytes);
    && j.Some? && Records.Strict(j.value, RESULT_FIELDS) && |j.value.members| == 9
    && decoded.Some? && e.policy.revision.Some?
    && (var ms := j.value.members;
        && Records.Lookup(ms, "schema_version") == Some(Json.JNum(1))
        && Records.Lookup(ms, "status") == Some(Json.JStr("succeeded"))
        && Records.Lookup(ms, "capsule_sha256") == Some(Json.JStr(ToHex(x.c.sha256(e.capsuleBytes))))
        && Records.Lookup(ms, "capsule_name") == Some(Json.JStr(decoded.value.name))
        && Records.Lookup(ms, "entrypoint") == Some(Json.JStr(decoded.value.entrypoint))
        && Records.Lookup(ms, "required_signatures") == Some(Json.JNum(e.policy.minimumSignatures))
        && Records.Lookup(ms, "policy_digest") == Some(Json.JStr(TP.PolicyDigest(x.c, e.policy)))
        && Records.Lookup(ms, "policy_revision") == Some(Json.JNum(e.policy.revision.value))
        && (TL.RevocationsInForce(e.policy) ==>
              IsNames(Records.Lookup(ms, "matched_signers"), e.decision.matchedSigners)))
  }

  /** The document published on success is within its limit and describes the started execution. */
  lemma PublishedDocument(x: Context, w: World, at: nat, call: Call, process: Runner.Host, start: nat)
    requires call.directory != "" && call.directory[0] == '/'
    ensures var outcome := HubRunAt(x, w, at, call, process, start);
            outcome.result.Ok? ==>
              && outcome.started.Some?
              && |EncodeResult(outcome.result.value)| <= MAX_RESULT_BYTES
              && DocumentDescribes(x, EncodeResult(outcome.result.value), outcome.started.value)
  {
    hide HubRunAt, AuthoriseAt, EncodeResult, Json.ParseDocument, EntryAt, TP.PolicyDigest, RC.Parse, RC.Render, Succeeded, ResultOf;
    PublishedDescribesRun(x, w, at, call, process, start);
    PublishedIff(x, w, at, call, process, start);
    var outcome := HubRunAt(x, w, at, call, process, start);
    if outcome.result.Ok? {
      ResultFields(outcome.result.value);
    }
  }

  /** Every policy of every update history qualifies. */
  lemma HistoryPoliciesQualify(c: TP.Crypto, args: TL.CreateArgs, updates: seq<TL.UpdateArgs>, hs: seq<TP.Policy>, i: nat)
    requires TL.History(c, args, updates, hs) && i < |hs|
    ensures TL.RevocationsInForce(hs[i])
    ensures TP.FromJson(c, TP.Encode(hs[i])) == Some(hs[i])
  {
    TL.HistoryInvariant(c, args, updates, hs, i);
    TP.JsonRoundTrip(c, hs[i]);
  }

  /** A published payload file is found at its path with its bytes, and nothing else is a file. */
  lemma EntryBytes(root: Path, payloads: seq<Payload>, relative: Path)
    requires relative != [] && root != []
    ensures var nodes := map[[] := Dir] + Materialized(root, payloads);
            && ((root + relative in nodes && nodes[root + relative].File?) <==> FileAt(payloads, relative).Some?)
            && (FileAt(payloads, relative).Some? ==> Some(nodes[root + relative].bytes) == FileAt(payloads, relative))
  {
    MaterializedAt(root, payloads, relative);
    FileAtIff(payloads, relative);
    if HasFile(payloads, relative) {
      assert Covers(payloads, relative);
    }
  }
}
