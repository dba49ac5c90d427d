/** `create-hub-request`: from an argument list and signature files to one canonical request
    document (src/hub_cli.rs). */
module HubCreate {
  import opened Basics
  import opened CommandLine
  import Decimal
  import opened HubRequest
  import opened Ordering
  import RC = RunCommand
  import opened Signature

  type Variable = RC.Variable

  datatype CreateError =
    | MissingValue(option: string)
    | Repeated(repeated: string)
    | BadNumber(numberOption: string)
    | TooManySignatures
    | BadVariable(raw: string)
    | UnknownArgument(unknown: string)
    | MissingSignature
    | MissingOutput
    | UnreadableSignature(path: string)
    | InvalidRequest

  datatype State = State(
    output: Option<string>,
    signaturePaths: seq<string>,
    timeoutSeconds: Option<u64>,
    maxFiles: Option<u64>,
    maxBytes: Option<u64>,
    environment: seq<Variable>,
    arguments: seq<string>,
    positional: bool)

  const INITIAL := State(None, [], None, None, None, [], [], false)

  // ---- Parsing ---------------------------------------------------------------------------

  /** The argument after an option, if there is one and it is not empty. */
  function ValueOf(args: seq<string>): Option<string>
    requires args != []
  {
    if |args| >= 2 && args[1] != "" then Some(args[1]) else None
  }

  function Number(flag: string, value: Option<string>, seen: bool): Result<u64, CreateError> {
    if seen then Err(Repeated(flag))
    else if value.None? then Err(MissingValue(flag))
    else
      var n := Decimal.Parse(value.value, U64_MAX);
      if n.None? then Err(BadNumber(flag)) else Ok(n.value)
  }

  /** What one option does to the parser's variables. */
  function Apply(s: State, flag: string, value: Option<string>): Result<State, CreateError> {
    if flag == "--output" then
      if s.output.Some? then Err(Repeated(flag))
      else if value.None? then Err(MissingValue(flag))
      else Ok(s.(output := value))
    else if flag == "--signature" then
      if value.None? then Err(MissingValue(flag))
      else if |s.signaturePaths| + 1 > MAX_SIGNATURES then Err(TooManySignatures)
      else Ok(s.(signaturePaths := s.signaturePaths + [value.value]))
    else if flag == "--timeout-seconds" then
      var n :- Number(flag, value, s.timeoutSeconds.Some?);
      Ok(s.(timeoutSeconds := Some(n)))
    else if flag == "--max-files" then
      var n :- Number(flag, value, s.maxFiles.Some?);
      Ok(s.(maxFiles := Some(n)))
    else if flag == "--max-bytes" then
      var n :- Number(flag, value, s.maxBytes.Some?);
      Ok(s.(maxBytes := Some(n)))
    else if flag == "--env" then
      if value.None? then Err(MissingValue(flag))
      else
        var v := RC.SplitOnce(value.value);
        if v.None? then Err(BadVariable(value.value)) else Ok(s.(environment := s.environment + [v.value]))
    else Err(UnknownArgument(flag))
  }

  function Step(s: State, args: seq<string>): (r: Result<(State, nat), CreateError>)
    requires args != []
    ensures r.Ok? ==> 1 <= r.value.1 <= |args|
  {
    if s.positional then Ok((s.(arguments := s.arguments + [args[0]]), 1))
    else if args[0] == "--" then Ok((s.(positional := true), 1))
    else
      var t :- Apply(s, args[0], ValueOf(args));
      assert ValueOf(args).Some? by {
        NeedsValue(s, args[0]);
      }
      Ok((t, 2))
  }

  lemma NeedsValue(s: State, flag: string)
    ensures Apply(s, flag, None).Err?
  {
  }

  function ParseFrom(s: State, args: seq<string>): Result<State, CreateError>
    decreases |args|
  {
    if args == [] then Ok(s)
    else
      var (t, n) :- Step(s, args);
      ParseFrom(t, args[n..])
  }

  // ---- Building --------------------------------------------------------------------------

  /** Read and decode each signature file. `read` is the bounded file read. */
  function ReadSignatures(read: string -> Option<string>, paths: seq<string>): Result<seq<Envelope>, CreateError> {
    if paths == [] then Ok([])
    else
      var envelope := ReadSignature(read, paths[0]);
      if envelope.None? then Err(UnreadableSignature(paths[0]))
      else
        var rest :- ReadSignatures(read, paths[1..]);
        Ok([envelope.value] + rest)
  }

  function ReadSignature(read: string -> Option<string>, path: string): Option<Envelope> {
    var encoded :- read(path);
    DecodeEnvelope(encoded)
  }

  function RequestOf(s: State, envelopes: seq<Envelope>): Request {
    Request(SCHEMA_VERSION, Sort(envelopes, SignatureBytes),
            RC.OrDefault(s.timeoutSeconds, RC.DEFAULT_TIMEOUT_SECONDS),
            RC.OrDefault(s.maxFiles, RC.DEFAULT_MAX_FILES),
            RC.OrDefault(s.maxBytes, RC.DEFAULT_MAX_BYTES),
            Sort(s.environment, VariableName), s.arguments)
  }

  /** The request a parsed command line stands for. */
  function Build(read: string -> Option<string>, s: State): Result<Request, CreateError> {
    if s.signaturePaths == [] then Err(MissingSignature)
    else if s.output.None? then Err(MissingOutput)
    else
      var envelopes :- ReadSignatures(read, s.signaturePaths);
      var r := RequestOf(s, envelopes);
      if RequestToJson(r).None? then Err(InvalidRequest) else Ok(r)
  }

  /** `create_request`: the request whose document is written to the output path. */
  function Create(read: string -> Option<string>, args: seq<string>): Result<Request, CreateError> {
    var s :- ParseFrom(INITIAL, args);
    Build(read, s)
  }

  /** One turn of the loop. */
  method Turn(s: State, args: seq<string>) returns (r: Result<(State, nat), CreateError>)
    requires args != []
    ensures r.Err? ==> ParseFrom(s, args) == Err(r.error)
    ensures r.Ok? ==> 1 <= r.value.1 <= |args| && ParseFrom(s, args) == ParseFrom(r.value.0, args[r.value.1..])
  {
    r := Step(s, args);
  }

  method ParseArguments(args: seq<string>) returns (r: Result<State, CreateError>)
    ensures r == ParseFrom(INITIAL, args)
  {
    var s := INITIAL;
    var index := 0;
    ghost var ahead := args;
    while index < |args|
      invariant 0 <= index <= |args| && ahead == args[index..]
      invariant ParseFrom(INITIAL, args) == ParseFrom(s, ahead)
    {
      var turn := Turn(s, args[index..]);
      if turn.Err? {
        return Err(turn.error);
      }
      var (next, consumed) := turn.value;
      ahead := ahead[consumed..];
      s, index := next, index + consumed;
    }
    return Ok(s);
  }

  method CreateRequest(read: string -> Option<string>, args: seq<string>) returns (r: Result<(string, string), CreateError>)
    ensures match Create(read, args)
            case Err(e) => r == Err(e)
            case Ok(request) =>
              r.Ok? && r.value == (ParseFrom(INITIAL, args).value.output.value, EncodeRequest(request))
    // The document of the request the line asks for is written where its one `--output` says.
    ensures r.Ok? ==>
              && Given(OptionsOf(args), "--output") == [r.value.0]
              && exists request :: Means(read, args, request) && r.value.1 == EncodeRequest(request)
  {
    hide Means, OptionsOf, Given, EncodeRequest, ValidRequest;
    if Create(read, args).Ok? {
      OutputGiven(args, ParseFrom(INITIAL, args).value);
      CreateIff(read, args, Create(read, args).value);
    }
    var parsed := ParseArguments(args);
    if parsed.Err? {
      return Err(parsed.error);
    }
    var s := parsed.value;
    if s.signaturePaths == [] {
      return Err(MissingSignature);
    }
    if s.output.None? {
      return Err(MissingOutput);
    }
    var signatures := ReadAll(read, s.signaturePaths);
    if signatures.Err? {
      return Err(signatures.error);
    }
    var request := RequestOf(s, signatures.value);
    var valid := ValidateRequest(request);
    if !valid || |EncodeRequest(request)| > MAX_REQUEST_BYTES {
      return Err(InvalidRequest);
    }
    return Ok((s.output.value, EncodeRequest(request)));
  }

  method ReadAll(read: string -> Option<string>, paths: seq<string>) returns (r: Result<seq<Envelope>, CreateError>)
    ensures r == ReadSignatures(read, paths)
  {
    var signatures := [];
    assert paths[0..] == paths;
    assert forall rest: seq<Envelope> :: [] + rest == rest;
    for i := 0 to |paths|
      invariant match ReadSignatures(read, paths[i..])
                case Err(e) => ReadSignatures(read, paths) == Err(e)
                case Ok(rest) => ReadSignatures(read, paths) == Ok(signatures + rest)
    {
      assert paths[i..][1..] == paths[i + 1..];
      var envelope := ReadSignature(read, paths[i]);
      if envelope.None? {
        return Err(UnreadableSignature(paths[i]));
      }
      var more := signatures + [envelope.value];
      assert forall rest :: signatures + ([envelope.value] + rest) == more + rest;
      signatures := more;
    }
    assert signatures + [] == signatures;
    return Ok(signatures);
  }

  // ---- The result does not depend on the order of the options ------------------------------

  /** Equal up to the order of signature paths and environment entries. */
  ghost predicate Same(a: State, b: State) {
    && b == a.(signaturePaths := b.signaturePaths, environment := b.environment)
    && multiset(a.signaturePaths) == multiset(b.signaturePaths)
    && multiset(a.environment) == multiset(b.environment)
  }

  ghost predicate Alike(a: Result<State, CreateError>, b: Result<State, CreateError>) {
    (a.Err? && b.Err?) || (a.Ok? && b.Ok? && Same(a.value, b.value))
  }

  lemma SameLength(a: State, b: State)
    requires Same(a, b)
    ensures |a.signaturePaths| == |b.signaturePaths|
  {
    assert |multiset(a.signaturePaths)| == |multiset(b.signaturePaths)|;
  }

  /** The value of an option, which must not be empty. */
  function Usable(o: Opt): Option<string> {
    if o.value == "" then None else Some(o.value)
  }

  /** What an option asks for, whatever the state. */
  datatype Update =
    | SetOutput(path: string)
    | AddSignature(signature: string)
    | SetTimeout(seconds: u64)
    | SetFiles(files: u64)
    | SetBytes(bytes: u64)
    | AddVariable(variable: Variable)

  function UpdateOf(flag: string, value: Option<string>): Option<Update> {
    var v :- value;
    if flag == "--output" then Some(SetOutput(v))
    else if flag == "--signature" then Some(AddSignature(v))
    else if flag == "--timeout-seconds" then
      var n :- Decimal.Parse(v, U64_MAX);
      Some(SetTimeout(n))
    else if flag == "--max-files" then
      var n :- Decimal.Parse(v, U64_MAX);
      Some(SetFiles(n))
    else if flag == "--max-bytes" then
      var n :- Decimal.Parse(v, U64_MAX);
      Some(SetBytes(n))
    else if flag == "--env" then
      var variable :- RC.SplitOnce(v);
      Some(AddVariable(variable))
    else None
  }

  predicate Fits(s: State, u: Update) {
    match u
    case SetOutput(_) => s.output.None?
    case AddSignature(_) => |s.signaturePaths| < MAX_SIGNATURES
    case SetTimeout(_) => s.timeoutSeconds.None?
    case SetFiles(_) => s.maxFiles.None?
    case SetBytes(_) => s.maxBytes.None?
    case AddVariable(_) => true
  }

  function Updated(s: State, u: Update): State {
    match u
    case SetOutput(path) => s.(output := Some(path))
    case AddSignature(path) => s.(signaturePaths := s.signaturePaths + [path])
    case SetTimeout(n) => s.(timeoutSeconds := Some(n))
    case SetFiles(n) => s.(maxFiles := Some(n))
    case SetBytes(n) => s.(maxBytes := Some(n))
    case AddVariable(v) => s.(environment := s.environment + [v])
  }

  lemma ApplyIsUpdate(s: State, flag: string, value: Option<string>)
    ensures Apply(s, flag, value).Ok? <==> UpdateOf(flag, value).Some? && Fits(s, UpdateOf(flag, value).value)
    ensures Apply(s, flag, value).Ok? ==> Apply(s, flag, value).value == Updated(s, UpdateOf(flag, value).value)
  {
  }

  lemma UpdateSame(a: State, b: State, u: Update)
    requires Same(a, b)
    ensures Fits(a, u) <==> Fits(b, u)
    ensures Same(Updated(a, u), Updated(b, u))
  {
    SameLength(a, b);
  }

  lemma UpdatesCommute(s: State, u: Update, w: Update)
    ensures Fits(s, u) && Fits(Updated(s, u), w) <==> Fits(s, w) && Fits(Updated(s, w), u)
    ensures Same(Updated(Updated(s, u), w), Updated(Updated(s, w), u)) || !Fits(s, u) || !Fits(Updated(s, u), w)
  {
    if u.AddSignature? && w.AddSignature? {
      SignaturesCommute(s, u.signature, w.signature);
    } else if u.AddVariable? && w.AddVariable? {
      VariablesCommute(s, u.variable, w.variable);
    } else {
      FieldsCommute(s, u, w);
      SameReflexive(Updated(Updated(s, u), w));
    }
  }

  lemma SwapLast<T>(s: seq<T>, x: T, y: T)
    ensures multiset(s + [x] + [y]) == multiset(s + [y] + [x])
  {
  }

  lemma SignaturesCommute(s: State, x: string, y: string)
    ensures Same(s.(signaturePaths := s.signaturePaths + [x] + [y]), s.(signaturePaths := s.signaturePaths + [y] + [x]))
  {
    SwapLast(s.signaturePaths, x, y);
  }

  lemma VariablesCommute(s: State, x: Variable, y: Variable)
    ensures Same(s.(environment := s.environment + [x] + [y]), s.(environment := s.environment + [y] + [x]))
  {
    SwapLast(s.environment, x, y);
  }

  lemma FieldsCommute(s: State, u: Update, w: Update)
    requires !(u.AddSignature? && w.AddSignature?) && !(u.AddVariable? && w.AddVariable?)
    ensures Fits(s, u) && Fits(Updated(s, u), w) <==> Fits(s, w) && Fits(Updated(s, w), u)
    ensures Updated(Updated(s, u), w) == Updated(Updated(s, w), u) || !Fits(s, u) || !Fits(Updated(s, u), w)
  {
  }

  function ApplyAll(s: State, opts: seq<Opt>): Result<State, CreateError>
    decreases |opts|
  {
    if opts == [] then Ok(s)
    else
      var t :- Apply(s, opts[0].flag, Usable(opts[0]));
      ApplyAll(t, opts[1..])
  }

  lemma {:induction false} ApplyAllSame(a: State, b: State, opts: seq<Opt>)
    requires Same(a, b)
    ensures Alike(ApplyAll(a, opts), ApplyAll(b, opts))
    decreases |opts|
  {
    if opts != [] {
      var flag, value := opts[0].flag, Usable(opts[0]);
      ApplyIsUpdate(a, flag, value);
      ApplyIsUpdate(b, flag, value);
      if UpdateOf(flag, value).Some? {
        var u := UpdateOf(flag, value).value;
        UpdateSame(a, b, u);
        if Fits(a, u) {
          ApplyAllSame(Updated(a, u), Updated(b, u), opts[1..]);
        }
      }
    }
  }

  lemma SameReflexive(s: State)
    ensures Same(s, s)
  {
  }

  /** Two neighbouring options may change places. */
  lemma SwapFront(s: State, a: Opt, b: Opt, rest: seq<Opt>)
    ensures Alike(ApplyAll(s, [a, b] + rest), ApplyAll(s, [b, a] + rest))
  {
    TwoUpdates(s, a, b, rest);
    TwoUpdates(s, b, a, rest);
    var u, w := UpdateOf(a.flag, Usable(a)), UpdateOf(b.flag, Usable(b));
    if u.Some? && w.Some? {
      UpdatesCommute(s, u.value, w.value);
      if Fits(s, u.value) && Fits(Updated(s, u.value), w.value) {
        ApplyAllSame(Updated(Updated(s, u.value), w.value), Updated(Updated(s, w.value), u.value), rest);
      }
    }
  }

  lemma TwoUpdates(s: State, a: Opt, b: Opt, rest: seq<Opt>)
    ensures var u, w := UpdateOf(a.flag, Usable(a)), UpdateOf(b.flag, Usable(b));
            var r := ApplyAll(s, [a, b] + rest);
            if u.Some? && w.Some? && Fits(s, u.value) && Fits(Updated(s, u.value), w.value)
            then r == ApplyAll(Updated(Updated(s, u.value), w.value), rest)
            else r.Err?
  {
    var opts := [a, b] + rest;
    assert opts[1..] == [b] + rest;
    assert ([b] + rest)[1..] == rest;
    ApplyIsUpdate(s, a.flag, Usable(a));
    var t := Apply(s, a.flag, Usable(a));
    if t.Ok? {
      ApplyIsUpdate(t.value, b.flag, Usable(b));
    }
  }

  lemma AlikeTransitive(a: Result<State, CreateError>, b: Result<State, CreateError>, c: Result<State, CreateError>)
    requires Alike(a, b) && Alike(b, c)
    ensures Alike(a, c)
  {
  }

  /** The same option in front of options that do the same. */
  lemma AlikeCons(s: State, o: Opt, x: seq<Opt>, y: seq<Opt>)
    requires forall t: State :: Alike(ApplyAll(t, x), ApplyAll(t, y))
    ensures Alike(ApplyAll(s, [o] + x), ApplyAll(s, [o] + y))
  {
    assert ([o] + x)[1..] == x && ([o] + y)[1..] == y;
  }

  /** An option may move to the front. */
  lemma {:induction false} MoveFront(s: State, pre: seq<Opt>, o: Opt, post: seq<Opt>)
    ensures Alike(ApplyAll(s, pre + [o] + post), ApplyAll(s, [o] + (pre + post)))
    decreases |pre|
  {
    if pre == [] {
      assert pre + [o] + post == [o] + (pre + post);
      AlikeReflexive(ApplyAll(s, [o] + (pre + post)));
    } else {
      var p, inner := pre[0], pre[1..];
      var here, moved := inner + [o] + post, [o] + (inner + post);
      forall t: State
        ensures Alike(ApplyAll(t, here), ApplyAll(t, moved))
      {
        MoveFront(t, inner, o, post);
      }
      AlikeCons(s, p, here, moved);
      SwapFront(s, p, o, inner + post);
      assert pre + [o] + post == [p] + here;
      assert [p] + moved == [p, o] + (inner + post);
      assert [o] + (pre + post) == [o, p] + (inner + post);
      AlikeTransitive(ApplyAll(s, [p] + here), ApplyAll(s, [p] + moved), ApplyAll(s, [o] + (pre + post)));
    }
  }

  lemma AlikeReflexive(r: Result<State, CreateError>)
    ensures Alike(r, r)
  {
  }

  /** Options may be given in any order. */
  lemma {:induction false} ApplyAllPermuted(s: State, a: seq<Opt>, b: seq<Opt>)
    requires multiset(a) == multiset(b)
    ensures Alike(ApplyAll(s, a), ApplyAll(s, b))
    decreases |a|
  {
    assert |a| == |multiset(a)| == |multiset(b)| == |b|;
    if a == [] {
      AlikeReflexive(ApplyAll(s, a));
    } else {
      var o := a[0];
      assert o in multiset(b);
      var j :| 0 <= j < |b| && b[j] == o;
      var rest := b[..j] + b[j + 1..];
      assert b == b[..j] + [o] + b[j + 1..];
      assert a == [o] + a[1..];
      assert multiset(a[1..]) == multiset(a) - multiset{o};
      assert multiset(rest) == multiset(b) - multiset{o};
      MoveFront(s, b[..j], o, b[j + 1..]);
      forall t: State
        ensures Alike(ApplyAll(t, a[1..]), ApplyAll(t, rest))
      {
        ApplyAllPermuted(t, a[1..], rest);
      }
      AlikeCons(s, o, a[1..], rest);
      assert Alike(ApplyAll(s, a), ApplyAll(s, [o] + rest));
      AlikeSymmetric(ApplyAll(s, b), ApplyAll(s, [o] + rest));
      AlikeTransitive(ApplyAll(s, a), ApplyAll(s, [o] + rest), ApplyAll(s, b));
    }
  }

  lemma AlikeSymmetric(a: Result<State, CreateError>, b: Result<State, CreateError>)
    requires Alike(a, b)
    ensures Alike(b, a)
  {
  }

  // ---- Whole command lines -------------------------------------------------------------------

  function Flatten(opts: seq<Opt>): seq<string> {
    if opts == [] then [] else [opts[0].flag, opts[0].value] + Flatten(opts[1..])
  }

  /** The options of a command line, each with the argument after it, up to `--` or the end. */
  function OptionsOf(args: seq<string>): (opts: seq<Opt>)
    ensures forall o :: o in opts ==> o.flag != "--"
  {
    if |args| < 2 || args[0] == "--" then [] else [Opt(args[0], args[1])] + OptionsOf(args[2..])
  }

  /** What follows the options: nothing, one argument without a value, or everything from `--` on. */
  function RestOf(args: seq<string>): seq<string> {
    if |args| < 2 || args[0] == "--" then args else RestOf(args[2..])
  }

  lemma {:induction false} OptionsAndRest(args: seq<string>)
    ensures Flatten(OptionsOf(args)) + RestOf(args) == args
  {
    if |args| >= 2 && args[0] != "--" {
      OptionsAndRest(args[2..]);
      assert args == [args[0], args[1]] + args[2..];
      assert OptionsOf(args)[1..] == OptionsOf(args[2..]);
    }
  }

  lemma {:induction false} ParseOptions(s: State, opts: seq<Opt>, tail: seq<string>)
    requires !s.positional
    requires forall o :: o in opts ==> o.flag != "--"
    ensures match ApplyAll(s, opts)
            case Err(e) => ParseFrom(s, Flatten(opts) + tail) == Err(e)
            case Ok(t) => ParseFrom(s, Flatten(opts) + tail) == ParseFrom(t, tail)
    decreases |opts|
  {
    var args := Flatten(opts) + tail;
    if opts == [] {
      assert args == tail;
    } else {
      var head, more := [opts[0].flag, opts[0].value], Flatten(opts[1..]) + tail;
      assert args == head + more;
      assert opts[0] in opts;
      assert ValueOf(args) == Usable(opts[0]);
      ApplyIsUpdate(s, opts[0].flag, Usable(opts[0]));
      var t := Apply(s, opts[0].flag, Usable(opts[0]));
      if t.Ok? {
        assert Step(s, args) == Ok((t.value, 2));
        assert args[2..] == more;
        ParseOptions(t.value, opts[1..], tail);
      }
    }
  }

  lemma StepSame(a: State, b: State, args: seq<string>)
    requires Same(a, b) && args != []
    ensures var x, y := Step(a, args), Step(b, args);
            (x.Err? && y.Err?) || (x.Ok? && y.Ok? && x.value.1 == y.value.1 && Same(x.value.0, y.value.0))
  {
    if !a.positional && args[0] != "--" {
      ApplyIsUpdate(a, args[0], ValueOf(args));
      ApplyIsUpdate(b, args[0], ValueOf(args));
      if UpdateOf(args[0], ValueOf(args)).Some? {
        UpdateSame(a, b, UpdateOf(args[0], ValueOf(args)).value);
      }
    }
  }

  lemma {:induction false} ParseSame(a: State, b: State, args: seq<string>)
    requires Same(a, b)
    ensures Alike(ParseFrom(a, args), ParseFrom(b, args))
    decreases |args|
  {
    if args != [] {
      StepSame(a, b, args);
      var x, y := Step(a, args), Step(b, args);
      if x.Ok? {
        ParseSame(x.value.0, y.value.0, args[x.value.1..]);
      }
    }
  }

  /** Reading succeeds exactly when every file is readable; the envelopes follow the paths. */
  lemma {:induction false} ReadSignaturesElements(read: string -> Option<string>, paths: seq<string>)
    ensures var r := ReadSignatures(read, paths);
            && (r.Ok? <==> forall p :: p in multiset(paths) ==> ReadSignature(read, p).Some?)
            && (r.Ok? ==> forall e :: multiset(r.value)[e] == Count(read, paths, e))
  {
    if paths != [] {
      assert paths == [paths[0]] + paths[1..];
      ReadSignaturesElements(read, paths[1..]);
      var r := ReadSignatures(read, paths);
      if r.Ok? {
        assert r.value == [r.value[0]] + r.value[1..];
      }
    }
  }

  /** How many of the paths hold a given envelope. */
  function Count(read: string -> Option<string>, paths: seq<string>, e: Envelope): nat {
    if paths == [] then 0
    else (if ReadSignature(read, paths[0]) == Some(e) then 1 else 0) + Count(read, paths[1..], e)
  }

  lemma {:induction false} CountConcat(read: string -> Option<string>, a: seq<string>, b: seq<string>, e: Envelope)
    ensures Count(read, a + b, e) == Count(read, a, e) + Count(read, b, e)
  {
    if a == [] {
      assert a + b == b;
    } else {
      assert (a + b)[1..] == a[1..] + b;
      CountConcat(read, a[1..], b, e);
    }
  }

  lemma {:induction false} CountPermuted(read: string -> Option<string>, a: seq<string>, b: seq<string>, e: Envelope)
    requires multiset(a) == multiset(b)
    ensures Count(read, a, e) == Count(read, b, e)
    decreases |a|
  {
    hide ReadSignature;
    if a == [] {
      assert |multiset(b)| == 0;
    } else {
      assert a[0] in multiset(b);
      var j :| 0 <= j < |b| && b[j] == a[0];
      WithoutFirst(a, b, j);
      CountPermuted(read, a[1..], b[..j] + b[j + 1..], e);
      CountWithout(read, b, j, e);
    }
  }

  lemma CountWithout(read: string -> Option<string>, b: seq<string>, j: nat, e: Envelope)
    requires j < |b|
    ensures Count(read, b, e)
         == (if ReadSignature(read, b[j]) == Some(e) then 1 else 0) + Count(read, b[..j] + b[j + 1..], e)
  {
    hide ReadSignature;
    assert b == b[..j] + b[j..] && b[j..][1..] == b[j + 1..];
    CountConcat(read, b[..j], b[j..], e);
    CountConcat(read, b[..j], b[j + 1..], e);
  }

  lemma ReadPermuted(read: string -> Option<string>, a: seq<string>, b: seq<string>)
    requires multiset(a) == multiset(b)
    ensures ReadSignatures(read, a).Ok? <==> ReadSignatures(read, b).Ok?
    ensures ReadSignatures(read, a).Ok? ==>
              multiset(ReadSignatures(read, a).value) == multiset(ReadSignatures(read, b).value)
  {
    ReadSignaturesElements(read, a);
    ReadSignaturesElements(read, b);
    if ReadSignatures(read, a).Ok? {
      forall e
        ensures multiset(ReadSignatures(read, a).value)[e] == multiset(ReadSignatures(read, b).value)[e]
      {
        CountPermuted(read, a, b, e);
      }
    }
  }

  /** States equal up to order build the same request, or both fail. */
  lemma BuildSame(read: string -> Option<string>, a: State, b: State)
    requires Same(a, b)
    ensures Build(read, a) == Build(read, b) || (Build(read, a).Err? && Build(read, b).Err?)
  {
    SameLength(a, b);
    ReadPermuted(read, a.signaturePaths, b.signaturePaths);
    var es, fs := ReadSignatures(read, a.signaturePaths), ReadSignatures(read, b.signaturePaths);
    if es.Ok? {
      SortCanonical(es.value, fs.value, SignatureBytes);
      SortCanonical(a.environment, b.environment, VariableName);
      var r, q := RequestOf(a, es.value), RequestOf(b, fs.value);
      if ValidRequest(r) || ValidRequest(q) {
        assert r == q;
      }
    }
  }

  /** Any two command lines whose options are the same up to order, and which go on in the same way
      after them, create the identical request, or both fail. */
  lemma CreateCanonical(read: string -> Option<string>, a: seq<string>, b: seq<string>)
    requires multiset(OptionsOf(a)) == multiset(OptionsOf(b)) && RestOf(a) == RestOf(b)
    ensures var x, y := Create(read, a), Create(read, b);
            x == y || (x.Err? && y.Err?)
  {
    var rest := RestOf(a);
    OptionsAndRest(a);
    OptionsAndRest(b);
    ApplyAllPermuted(INITIAL, OptionsOf(a), OptionsOf(b));
    ParseOptions(INITIAL, OptionsOf(a), rest);
    ParseOptions(INITIAL, OptionsOf(b), rest);
    var s, t := ApplyAll(INITIAL, OptionsOf(a)), ApplyAll(INITIAL, OptionsOf(b));
    if s.Ok? {
      ParseSame(s.value, t.value, rest);
      var u, v := ParseFrom(s.value, rest), ParseFrom(t.value, rest);
      if u.Ok? {
        BuildSame(read, u.value, v.value);
      }
    }
  }

  // ---- What a command line asks for ------------------------------------------------------------

  const FLAGS := {"--output", "--signature", "--timeout-seconds", "--max-files", "--max-bytes", "--env"}

  /** The `NAME=VALUE` texts as variables. */
  function ReadVariables(given: seq<string>): Option<seq<Variable>> {
    if given == [] then Some([])
    else
      var first :- RC.SplitOnce(given[0]);
      var rest :- ReadVariables(given[1..]);
      Some([first] + rest)
  }

  ghost predicate MoreVariables(before: seq<Variable>, given: seq<string>, after: seq<Variable>) {
    ReadVariables(given).Some? && after == before + ReadVariables(given).value
  }

  lemma MoreVariablesFirst(before: seq<Variable>, value: string, more: seq<string>, after: seq<Variable>)
    ensures MoreVariables(before, [value] + more, after) <==>
            RC.SplitOnce(value).Some? && MoreVariables(before + [RC.SplitOnce(value).value], more, after)
  {
    hide RC.SplitOnce;
    assert ([value] + more)[1..] == more;
    var v, rest := RC.SplitOnce(value), ReadVariables(more);
    if v.Some? && rest.Some? {
      assert before + ([v.value] + rest.value) == (before + [v.value]) + rest.value;
    }
  }

  /** The parser's variables before and after some options, said without a parser. */
  ghost predicate Reaches(s: State, opts: seq<Opt>, t: State) {
    && (forall o :: o in opts ==> o.flag in FLAGS && o.value != "")
    && Once(s.output, Given(opts, "--output"), t.output)
    && t.signaturePaths == s.signaturePaths + Given(opts, "--signature") && |t.signaturePaths| <= MAX_SIGNATURES
    && OnceNumber(s.timeoutSeconds, Given(opts, "--timeout-seconds"), 0, U64_MAX, t.timeoutSeconds)
    && OnceNumber(s.maxFiles, Given(opts, "--max-files"), 0, U64_MAX, t.maxFiles)
    && OnceNumber(s.maxBytes, Given(opts, "--max-bytes"), 0, U64_MAX, t.maxBytes)
    && MoreVariables(s.environment, Given(opts, "--env"), t.environment)
    && t.arguments == s.arguments && t.positional == s.positional
  }

  lemma OptionReaches(s: State, o: Opt, rest: seq<Opt>, t: State)
    requires |s.signaturePaths| <= MAX_SIGNATURES
    ensures var u := Apply(s, o.flag, Usable(o));
            && (u.Ok? ==> |u.value.signaturePaths| <= MAX_SIGNATURES)
            && (Reaches(s, [o] + rest, t) <==> u.Ok? && Reaches(u.value, rest, t))
  {
    hide MoreVariables, Once, OnceNumber, RC.SplitOnce, Decimal.Parse, Given;
    assert forall p :: p in [o] + rest <==> p == o || p in rest;
    GivenFirst(o, rest, "--output");
    GivenFirst(o, rest, "--signature");
    GivenFirst(o, rest, "--timeout-seconds");
    GivenFirst(o, rest, "--max-files");
    GivenFirst(o, rest, "--max-bytes");
    GivenFirst(o, rest, "--env");
    if o.flag == "--output" {
      OnceFirst(s.output, o.value, Given(rest, o.flag), t.output);
    } else if o.flag == "--signature" {
      assert s.signaturePaths + ([o.value] + Given(rest, o.flag)) == (s.signaturePaths + [o.value]) + Given(rest, o.flag);
    } else if o.flag == "--timeout-seconds" {
      OnceNumberFirst(s.timeoutSeconds, o.value, Given(rest, o.flag), 0, U64_MAX, t.timeoutSeconds);
    } else if o.flag == "--max-files" {
      OnceNumberFirst(s.maxFiles, o.value, Given(rest, o.flag), 0, U64_MAX, t.maxFiles);
    } else if o.flag == "--max-bytes" {
      OnceNumberFirst(s.maxBytes, o.value, Given(rest, o.flag), 0, U64_MAX, t.maxBytes);
    } else if o.flag == "--env" {
      MoreVariablesFirst(s.environment, o.value, Given(rest, o.flag), t.environment);
    }
  }

  lemma {:induction false} ApplyAllIff(s: State, opts: seq<Opt>, t: State)
    requires |s.signaturePaths| <= MAX_SIGNATURES
    ensures ApplyAll(s, opts) == Ok(t) <==> Reaches(s, opts, t)
    decreases |opts|
  {
    if opts == [] {
      assert s.signaturePaths + [] == s.signaturePaths && s.environment + [] == s.environment;
    } else {
      hide Apply, Reaches;
      assert opts == [opts[0]] + opts[1..];
      OptionReaches(s, opts[0], opts[1..], t);
      var u := Apply(s, opts[0].flag, Usable(opts[0]));
      if u.Ok? {
        ApplyAllIff(u.value, opts[1..], t);
      }
    }
  }

  /** What a command line asks for: each option at most once but for signatures and variables, none
      unknown, none without a value; the defaults of what is not given; and a valid request within
      the size limit, with the signatures and the variables in order. */
  ghost predicate Means(read: string -> Option<string>, args: seq<string>, r: Request) {
    var opts, rest := OptionsOf(args), RestOf(args);
    var envelopes, variables := ReadSignatures(read, Given(opts, "--signature")), ReadVariables(Given(opts, "--env"));
    && (forall o :: o in opts ==> o.flag in FLAGS && o.value != "") && (rest == [] || rest[0] == "--")
    && |Given(opts, "--output")| == 1
    && 1 <= |Given(opts, "--signature")| <= 64
    && envelopes.Ok? && multiset(r.signatures) == multiset(envelopes.value)
    && NumberOr(Given(opts, "--timeout-seconds"), 300, 0, U64_MAX, r.timeoutSeconds)
    && NumberOr(Given(opts, "--max-files"), 4096, 0, U64_MAX, r.maxFiles)
    && NumberOr(Given(opts, "--max-bytes"), 1024 * 1024 * 1024, 0, U64_MAX, r.maxBytes)
    && variables.Some? && multiset(r.environment) == multiset(variables.value)
    && r.arguments == (if rest == [] then [] else rest[1..])
    && ValidRequest(r) && |EncodeRequest(r)| <= 512 * 1024
  }

  /** The parser's variables for a command line that asks for a request. */
  ghost predicate Stands(args: seq<string>, t: State) {
    var rest := RestOf(args);
    && Reaches(INITIAL, OptionsOf(args), t.(arguments := [], positional := false))
    && (rest == [] || rest[0] == "--")
    && t.arguments == (if rest == [] then [] else rest[1..]) && t.positional == (rest != [])
  }

  lemma {:induction false} ParsePositional(s: State, arguments: seq<string>)
    requires s.positional
    ensures ParseFrom(s, arguments) == Ok(s.(arguments := s.arguments + arguments))
    decreases |arguments|
  {
    if arguments == [] {
      assert s.arguments + arguments == s.arguments;
    } else {
      var t := s.(arguments := s.arguments + [arguments[0]]);
      ParsePositional(t, arguments[1..]);
      assert s.arguments + arguments == t.arguments + arguments[1..];
    }
  }

  /** The rest of a command line is `--` and the arguments after it, or nothing, or an error. */
  lemma ParseRest(s: State, rest: seq<string>)
    requires !s.positional && s.arguments == [] && (|rest| < 2 || rest[0] == "--")
    ensures ParseFrom(s, rest).Ok? <==> rest == [] || rest[0] == "--"
    ensures rest == [] ==> ParseFrom(s, rest) == Ok(s)
    ensures rest != [] && rest[0] == "--" ==> ParseFrom(s, rest) == Ok(s.(arguments := rest[1..], positional := true))
  {
    if rest != [] && rest[0] == "--" {
      var u := s.(positional := true);
      ParsePositional(u, rest[1..]);
      assert [] + rest[1..] == rest[1..];
    } else if rest != [] {
      NeedsValue(s, rest[0]);
    }
  }

  lemma {:induction false} RestShape(args: seq<string>)
    ensures |RestOf(args)| < 2 || RestOf(args)[0] == "--"
  {
    if |args| >= 2 && args[0] != "--" {
      RestShape(args[2..]);
    }
  }

  lemma {:induction false} ApplyAllKeeps(s: State, opts: seq<Opt>)
    ensures ApplyAll(s, opts).Ok? ==> ApplyAll(s, opts).value.arguments == s.arguments && ApplyAll(s, opts).value.positional == s.positional
    decreases |opts|
  {
    if opts != [] {
      var t := Apply(s, opts[0].flag, Usable(opts[0]));
      if t.Ok? {
        ApplyAllKeeps(t.value, opts[1..]);
      }
    }
  }

  lemma ParseIff(args: seq<string>, t: State)
    ensures ParseFrom(INITIAL, args) == Ok(t) <==> Stands(args, t)
  {
    hide Reaches, OptionsOf, RestOf;
    var opts, rest := OptionsOf(args), RestOf(args);
    OptionsAndRest(args);
    RestShape(args);
    ParseOptions(INITIAL, opts, rest);
    ApplyAllKeeps(INITIAL, opts);
    ApplyAllIff(INITIAL, opts, t.(arguments := [], positional := false));
    var parsed := ApplyAll(INITIAL, opts);
    if parsed.Ok? {
      ParseRest(parsed.value, rest);
    }
  }

  /** The document is written where the line's only `--output` says. */
  lemma OutputGiven(args: seq<string>, t: State)
    requires ParseFrom(INITIAL, args) == Ok(t) && t.output.Some?
    ensures Given(OptionsOf(args), "--output") == [t.output.value]
  {
    hide OptionsOf, RestOf, Given, ParseFrom;
    ParseIff(args, t);
  }

  /** For every command line, the command creates exactly the request the line asks for, and fails
      exactly when it asks for none. */
  lemma CreateIff(read: string -> Option<string>, args: seq<string>, r: Request)
    ensures Create(read, args) == Ok(r) <==> Means(read, args, r)
  {
    hide OptionsOf, RestOf, ReadSignatures, ReadVariables, Given, EncodeRequest, ValidRequest, ParseFrom, Decimal.Parse;
    if Create(read, args) == Ok(r) {
      var t := ParseFrom(INITIAL, args).value;
      ParseIff(args, t);
      BuiltMeans(read, args, t, r);
    }
    if Means(read, args, r) {
      var t := StateOf(args, r);
      MeansStands(read, args, r);
      ParseIff(args, t);
      MeansBuilt(read, args, r);
    }
  }

  lemma BuiltMeans(read: string -> Option<string>, args: seq<string>, t: State, r: Request)
    requires Stands(args, t) && Build(read, t) == Ok(r)
    ensures Means(read, args, r)
  {
    hide OptionsOf, RestOf, ReadSignatures, ReadVariables, Given, EncodeRequest, ValidRequest, Decimal.Parse, Sort;
    var opts := OptionsOf(args);
    assert [] + Given(opts, "--signature") == Given(opts, "--signature");
    assert [] + ReadVariables(Given(opts, "--env")).value == ReadVariables(Given(opts, "--env")).value;
    SortFacts(ReadSignatures(read, t.signaturePaths).value, SignatureBytes);
    SortFacts(t.environment, VariableName);
  }

  /** The parser's variables for a command line that asks for the request. */
  function StateOf(args: seq<string>, r: Request): State
    requires ReadVariables(Given(OptionsOf(args), "--env")).Some? && |Given(OptionsOf(args), "--output")| == 1
  {
    var opts := OptionsOf(args);
    State(Some(Given(opts, "--output")[0]), Given(opts, "--signature"),
          RC.NumberGiven(Given(opts, "--timeout-seconds"), r.timeoutSeconds),
          RC.NumberGiven(Given(opts, "--max-files"), r.maxFiles),
          RC.NumberGiven(Given(opts, "--max-bytes"), r.maxBytes),
          ReadVariables(Given(opts, "--env")).value, r.arguments, RestOf(args) != [])
  }

  lemma MeansStands(read: string -> Option<string>, args: seq<string>, r: Request)
    requires Means(read, args, r)
    ensures Stands(args, StateOf(args, r))
  {
    hide OptionsOf, RestOf, ReadSignatures, ReadVariables, Given, EncodeRequest, ValidRequest, Decimal.Parse;
    var opts := OptionsOf(args);
    assert [] + Given(opts, "--signature") == Given(opts, "--signature");
    assert [] + ReadVariables(Given(opts, "--env")).value == ReadVariables(Given(opts, "--env")).value;
  }

  lemma MeansBuilt(read: string -> Option<string>, args: seq<string>, r: Request)
    requires Means(read, args, r)
    ensures Build(read, StateOf(args, r)) == Ok(r)
  {
    hide OptionsOf, RestOf, ReadSignatures, ReadVariables, Given, EncodeRequest, Decimal.Parse, Sort;
    var opts := OptionsOf(args);
    var envelopes := ReadSignatures(read, Given(opts, "--signature")).value;
    var variables := ReadVariables(Given(opts, "--env")).value;
    SortedIs(envelopes, r.signatures, SignatureBytes);
    SortedIs(variables, r.environment, VariableName);
  }

  /** A strictly sorted arrangement of the same elements is what sorting gives. */
  lemma SortedIs<T>(s: seq<T>, sorted: seq<T>, key: T -> string)
    requires multiset(s) == multiset(sorted) && StrictlySorted(sorted, key)
    ensures Sort(s, key) == sorted
  {
    SortFacts(s, key);
    StrictOfSame(sorted, Sort(s, key), key);
    SortedUnique(Sort(s, key), sorted, key);
  }

  function Scalars(output: string, timeout: string, files: string, bytes: string): seq<Opt> {
    [Opt("--output", output), Opt("--timeout-seconds", timeout), Opt("--max-files", files), Opt("--max-bytes", bytes)]
  }

  /** A command line for a request whose signatures are in the files `paths`. */
  function Rendered(output: string, paths: seq<string>, r: Request): seq<Opt> {
    Scalars(output, Decimal.Print(r.timeoutSeconds), Decimal.Print(r.maxFiles), Decimal.Print(r.maxBytes))
    + (EachAs("--signature", paths) + EachAs("--env", RC.Assignments(r.environment)))
  }

  lemma {:induction false} OptionsOfFlatten(opts: seq<Opt>, tail: seq<string>)
    requires (forall o :: o in opts ==> o.flag != "--") && (tail == [] || tail[0] == "--")
    ensures OptionsOf(Flatten(opts) + tail) == opts && RestOf(Flatten(opts) + tail) == tail
  {
    var args := Flatten(opts) + tail;
    if opts == [] {
      assert args == tail;
    } else {
      assert opts[0] in opts;
      OptionsOfFlatten(opts[1..], tail);
      assert args == [opts[0].flag, opts[0].value] + (Flatten(opts[1..]) + tail);
      assert args[2..] == Flatten(opts[1..]) + tail;
      assert opts == [opts[0]] + opts[1..];
    }
  }

  lemma ScalarGiven(output: string, timeout: string, files: string, bytes: string, flag: string)
    ensures Given(Scalars(output, timeout, files, bytes), flag) ==
            if flag == "--output" then [output]
            else if flag == "--timeout-seconds" then [timeout]
            else if flag == "--max-files" then [files]
            else if flag == "--max-bytes" then [bytes]
            else []
  {
    hide Given;
    var o0, o1, o2, o3 := Opt("--output", output), Opt("--timeout-seconds", timeout), Opt("--max-files", files), Opt("--max-bytes", bytes);
    GivenNone(flag);
    GivenFirst(o3, [], flag);
    assert [o3] + [] == [o3];
    GivenFirst(o2, [o3], flag);
    GivenFirst(o1, [o2, o3], flag);
    GivenFirst(o0, [o1, o2, o3], flag);
    assert Scalars(output, timeout, files, bytes) == [o0] + [o1, o2, o3];
    assert [o1] + [o2, o3] == [o1, o2, o3] && [o2] + [o3] == [o2, o3];
  }

  lemma GivenNone(flag: string)
    ensures Given([], flag) == []
  {
  }

  /** The values a rendered command line gives for a flag. */
  lemma RenderedGiven(output: string, paths: seq<string>, r: Request, flag: string)
    ensures Given(Rendered(output, paths, r), flag) ==
            if flag == "--output" then [output]
            else if flag == "--timeout-seconds" then [Decimal.Print(r.timeoutSeconds)]
            else if flag == "--max-files" then [Decimal.Print(r.maxFiles)]
            else if flag == "--max-bytes" then [Decimal.Print(r.maxBytes)]
            else if flag == "--signature" then paths
            else if flag == "--env" then RC.Assignments(r.environment)
            else []
  {
    hide Decimal.Print, Given, Scalars, EachAs, RC.Assignments;
    var a, b := EachAs("--signature", paths), EachAs("--env", RC.Assignments(r.environment));
    var scalars := Scalars(output, Decimal.Print(r.timeoutSeconds), Decimal.Print(r.maxFiles), Decimal.Print(r.maxBytes));
    ScalarGiven(output, Decimal.Print(r.timeoutSeconds), Decimal.Print(r.maxFiles), Decimal.Print(r.maxBytes), flag);
    GivenConcat(scalars, a + b, flag);
    GivenConcat(a, b, flag);
    GivenEach("--signature", paths, flag);
    GivenEach("--env", RC.Assignments(r.environment), flag);
  }

  lemma SplitAssignment(v: Variable)
    requires '=' !in v.name
    ensures RC.SplitOnce(RC.Assignment(v)) == Some(v)
  {
    assert RC.Reread(v) == v;
  }

  lemma ReadVariablesFirst(value: string, v: Variable, more: seq<string>, rest: seq<Variable>)
    requires RC.SplitOnce(value) == Some(v) && ReadVariables(more) == Some(rest)
    ensures ReadVariables([value] + more) == Some([v] + rest)
  {
    hide RC.SplitOnce;
    assert ([value] + more)[1..] == more;
  }

  lemma {:induction false} ReadAssignments(environment: seq<Variable>)
    requires NoEqualsInNames(environment)
    ensures ReadVariables(RC.Assignments(environment)) == Some(environment)
  {
    hide RC.SplitOnce, RC.Assignment;
    if environment != [] {
      var v, rest := environment[0], environment[1..];
      ReadAssignments(rest);
      SplitAssignment(v);
      ReadVariablesFirst(RC.Assignment(v), v, RC.Assignments(rest), rest);
      assert environment == [v] + rest;
    }
  }

  lemma {:induction false} AssignmentsNotEmpty(environment: seq<Variable>)
    ensures forall a :: a in RC.Assignments(environment) ==> a != ""
  {
    if environment != [] {
      AssignmentsNotEmpty(environment[1..]);
    }
  }

  lemma RenderedMeans(read: string -> Option<string>, output: string, paths: seq<string>, args: seq<string>, r: Request)
    requires ValidRequest(r) && NoEqualsInNames(r.environment) && |EncodeRequest(r)| <= MAX_REQUEST_BYTES
    requires output != "" && forall p :: p in paths ==> p != ""
    requires ReadSignatures(read, paths).Ok? && multiset(ReadSignatures(read, paths).value) == multiset(r.signatures)
    requires OptionsOf(args) == Rendered(output, paths, r) && RestOf(args) == RC.Tail(r.arguments)
    ensures Means(read, args, r)
  {
    hide Decimal.Print, Decimal.Parse, Rendered, EncodeRequest, ReadSignatures, RC.Assignments, OptionsOf, RestOf, Given, ReadVariables, ValidRequest;
    RenderedKnown(output, paths, r);
    RenderedGiven(output, paths, r, "--output");
    RenderedGiven(output, paths, r, "--timeout-seconds");
    RenderedGiven(output, paths, r, "--max-files");
    RenderedGiven(output, paths, r, "--max-bytes");
    RenderedGiven(output, paths, r, "--signature");
    RenderedGiven(output, paths, r, "--env");
    ReadAssignments(r.environment);
    Decimal.ParseOfPrint(r.timeoutSeconds, U64_MAX);
    Decimal.ParseOfPrint(r.maxFiles, U64_MAX);
    Decimal.ParseOfPrint(r.maxBytes, U64_MAX);
    SameCount(read, paths, r);
  }

  /** Creating from the rendered command line gives back exactly the request: for every valid request
      within the size limit without `=` in its names, whose signatures are what the named files
      hold, in any order. */
  lemma CreateOfRendered(read: string -> Option<string>, output: string, paths: seq<string>, r: Request)
    requires ValidRequest(r) && NoEqualsInNames(r.environment) && |EncodeRequest(r)| <= MAX_REQUEST_BYTES
    requires output != "" && forall p :: p in paths ==> p != ""
    requires ReadSignatures(read, paths).Ok? && multiset(ReadSignatures(read, paths).value) == multiset(r.signatures)
    ensures Create(read, Flatten(Rendered(output, paths, r)) + RC.Tail(r.arguments)) == Ok(r)
  {
    hide Rendered, EncodeRequest, ReadSignatures, OptionsOf, RestOf, ValidRequest, Create, Means, Flatten;
    var opts, tail := Rendered(output, paths, r), RC.Tail(r.arguments);
    RenderedKnown(output, paths, r);
    OptionsOfFlatten(opts, tail);
    RenderedMeans(read, output, paths, Flatten(opts) + tail, r);
    CreateIff(read, Flatten(opts) + tail, r);
  }

  lemma SameCount(read: string -> Option<string>, paths: seq<string>, r: Request)
    requires ValidRequest(r)
    requires ReadSignatures(read, paths).Ok? && multiset(ReadSignatures(read, paths).value) == multiset(r.signatures)
    ensures 1 <= |paths| <= 64
  {
    ReadSignaturesLength(read, paths);
    assert |multiset(r.signatures)| == |r.signatures|;
    assert |multiset(ReadSignatures(read, paths).value)| == |ReadSignatures(read, paths).value|;
  }

  lemma {:induction false} ReadSignaturesLength(read: string -> Option<string>, paths: seq<string>)
    ensures ReadSignatures(read, paths).Ok? ==> |ReadSignatures(read, paths).value| == |paths|
  {
    if paths != [] {
      ReadSignaturesLength(read, paths[1..]);
    }
  }

  lemma RenderedKnown(output: string, paths: seq<string>, r: Request)
    requires output != "" && forall p :: p in paths ==> p != ""
    ensures forall o :: o in Rendered(output, paths, r) ==> o.flag in FLAGS && o.value != "" && o.flag != "--"
  {
    AssignmentsNotEmpty(r.environment);
  }

  // ---- What is created can be run ----------------------------------------------------------

  lemma {:induction false} ParsedNames(s: State, args: seq<string>)
    requires NoEqualsInNames(s.environment) && ParseFrom(s, args).Ok?
    ensures NoEqualsInNames(ParseFrom(s, args).value.environment)
    decreases |args|
  {
    if args != [] {
      StepNames(s, args);
      var (t, n) := Step(s, args).value;
      ParsedNames(t, args[n..]);
    }
  }

  lemma StepNames(s: State, args: seq<string>)
    requires NoEqualsInNames(s.environment) && args != [] && Step(s, args).Ok?
    ensures NoEqualsInNames(Step(s, args).value.0.environment)
  {
    if !s.positional && args[0] != "--" {
      ApplyIsUpdate(s, args[0], ValueOf(args));
    }
  }

  lemma CreatedNames(read: string -> Option<string>, args: seq<string>)
    requires Create(read, args).Ok?
    ensures ValidRequest(Create(read, args).value)
    ensures NoEqualsInNames(Create(read, args).value.environment)
  {
    hide ValidRequest, EncodeRequest, ReadSignatures, Apply;
    var s := ParseFrom(INITIAL, args).value;
    var environment := Create(read, args).value.environment;
    ParsedNames(INITIAL, args);
    SortFacts(s.environment, VariableName);
    forall i | 0 <= i < |environment|
      ensures '=' !in environment[i].name
    {
      assert environment[i] in multiset(s.environment);
    }
  }

  /** Every request this command creates is valid and reads back from its document, and its command
      line is rendered and parsed back exactly as the request states it. */
  lemma CreatedIsDelivered(read: string -> Option<string>, args: seq<string>, capsule: string, policy: string,
                           signaturePaths: seq<string>)
    requires Create(read, args).Ok?
    requires RC.ValidPaths(capsule, policy, signaturePaths)
    requires |signaturePaths| == |Create(read, args).value.signatures|
    ensures var r := Create(read, args).value;
            var c := CommandOf(r, capsule, policy, signaturePaths);
            && ValidRequest(r)
            && RequestFromJson(EncodeRequest(r)) == Some(r)
            && RC.Parse(RC.Render(c)) == Ok(c)
  {
    var r := Create(read, args).value;
    CreatedNames(read, args);
    RequestRendersExactly(r, capsule, policy, signaturePaths);
    RequestRoundTrip(r);
  }
}
