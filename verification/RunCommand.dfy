/** The `run` command line: parsing it (src/execution_cli.rs, src/product_main.rs) and rendering
    it (src/hub_cli.rs). */
module RunCommand {
  import opened Basics
  import opened CommandLine
  import Decimal

  const DEFAULT_MAX_FILES: u64 := 4096
  const DEFAULT_MAX_BYTES: u64 := 1024 * 1024 * 1024
  const DEFAULT_TIMEOUT_SECONDS: u64 := 300
  const MAX_TIMEOUT_SECONDS: u64 := 86400
  const DEFAULT_MAX_OUTPUT_BYTES: u64 := 16 * 1024 * 1024
  const MAX_OUTPUT_BYTES: u64 := 64 * 1024 * 1024
  const MAX_ENVIRONMENT_ENTRIES := 128
  const MAX_ENVIRONMENT_BYTES := 64 * 1024
  const MAX_ARGUMENTS := 256
  const MAX_ARGUMENT_BYTES := 64 * 1024

  datatype Variable = Variable(name: string, value: string)

  datatype Command = Command(
    capsule: string,
    policy: string,
    signatures: seq<string>,
    maxFiles: u64,
    maxBytes: u64,
    timeoutSeconds: u64,
    maxOutputBytes: u64,
    environment: seq<Variable>,
    arguments: seq<string>)

  datatype UsageError =
    | UnknownCommand
    | MissingCapsule
    | MissingPolicy
    | MissingSignature
    | Repeated(repeated: string)
    | MissingValue(option: string)
    | TooManySignatures
    | BadNumber(numberOption: string)
    | OutOfRange(rangeOption: string)
    | BadVariable(raw: string)
    | TooManyVariables
    | DuplicateVariable
    | EnvironmentTooLarge
    | TooManyArguments
    | ArgumentsTooLarge
    | UnknownOption(unknown: string)
    | UnexpectedArgument(unexpected: string)

  // ---- Limits ----------------------------------------------------------------------------

  function EnvironmentBytes(environment: seq<Variable>): nat {
    if environment == [] then 0
    else
      var last := environment[|environment| - 1];
      EnvironmentBytes(environment[..|environment| - 1]) + |last.name| + |last.value|
  }

  predicate DistinctNames(environment: seq<Variable>) {
    forall i, j :: 0 <= i < j < |environment| ==> environment[i].name != environment[j].name
  }

  /** `validate_environment`. (A size beyond `usize` is above the byte limit too.) */
  function CheckEnvironment(environment: seq<Variable>): Result<(), UsageError> {
    if |environment| > MAX_ENVIRONMENT_ENTRIES then Err(TooManyVariables)
    else if !DistinctNames(environment) then Err(DuplicateVariable)
    else if EnvironmentBytes(environment) > MAX_ENVIRONMENT_BYTES then Err(EnvironmentTooLarge)
    else Ok(())
  }

  function ArgumentBytes(arguments: seq<string>): nat {
    if arguments == [] then 0
    else ArgumentBytes(arguments[..|arguments| - 1]) + |arguments[|arguments| - 1]|
  }

  /** `validate_argument_limits`. */
  function CheckArguments(arguments: seq<string>): Result<(), UsageError> {
    if |arguments| > MAX_ARGUMENTS then Err(TooManyArguments)
    else if ArgumentBytes(arguments) > MAX_ARGUMENT_BYTES then Err(ArgumentsTooLarge)
    else Ok(())
  }

  function Concat(texts: seq<string>): string {
    if texts == [] then "" else Concat(texts[..|texts| - 1]) + texts[|texts| - 1]
  }

  /** The limits are on the number of arguments and on their length when put together. */
  lemma {:induction false} ArgumentsFit(arguments: seq<string>)
    ensures ArgumentBytes(arguments) == |Concat(arguments)|
    ensures CheckArguments(arguments).Ok? <==> |arguments| <= 256 && |Concat(arguments)| <= 64 * 1024
  {
    if arguments != [] {
      ArgumentsFit(arguments[..|arguments| - 1]);
    }
  }

  /** Names and values one after another. */
  function Texts(environment: seq<Variable>): seq<string> {
    if environment == [] then []
    else
      var last := environment[|environment| - 1];
      Texts(environment[..|environment| - 1]) + [last.name, last.value]
  }

  lemma {:induction false} VariablesFit(environment: seq<Variable>)
    ensures EnvironmentBytes(environment) == |Concat(Texts(environment))|
    ensures CheckEnvironment(environment).Ok? <==>
            |environment| <= 128 && DistinctNames(environment) && |Concat(Texts(environment))| <= 64 * 1024
  {
    if environment != [] {
      var front, last := environment[..|environment| - 1], environment[|environment| - 1];
      VariablesFit(front);
      var all := Texts(front) + [last.name, last.value];
      assert all[..|all| - 1] == Texts(front) + [last.name];
      assert all[..|all| - 1][..|all| - 2] == Texts(front);
    }
  }

  method ValidateEnvironment(environment: seq<Variable>) returns (r: Result<(), UsageError>)
    ensures r == CheckEnvironment(environment)
  {
    if |environment| > MAX_ENVIRONMENT_ENTRIES {
      return Err(TooManyVariables);
    }
    var names: set<string> := {};
    var total := 0;
    for i := 0 to |environment|
      invariant names == set k | 0 <= k < i :: environment[k].name
      invariant forall j, k :: 0 <= j < k < i ==> environment[j].name != environment[k].name
      invariant total == EnvironmentBytes(environment[..i])
    {
      if environment[i].name in names {
        return Err(DuplicateVariable);
      }
      names := names + {environment[i].name};
      assert environment[..i + 1][..i] == environment[..i];
      total := total + |environment[i].name| + |environment[i].value|;
    }
    assert environment[..|environment|] == environment;
    if total > MAX_ENVIRONMENT_BYTES {
      return Err(EnvironmentTooLarge);
    }
    return Ok(());
  }

  // ---- Parsing ---------------------------------------------------------------------------

  function Assignment(v: Variable): string {
    v.name + "=" + v.value
  }

  lemma AssignmentCons(c: char, v: Variable)
    ensures Assignment(Variable([c] + v.name, v.value)) == [c] + Assignment(v)
  {
  }

  /** `str::split_once('=')`. */
  function SplitOnce(raw: string): (r: Option<Variable>)
    ensures r.Some? ==> '=' !in r.value.name && raw == Assignment(r.value)
    ensures r.None? <==> '=' !in raw
  {
    if raw == "" then None
    else if raw[0] == '=' then
      assert raw == Assignment(Variable("", raw[1..]));
      Some(Variable("", raw[1..]))
    else
      var rest := SplitOnce(raw[1..]);
      if rest.None? then None
      else
        AssignmentCons(raw[0], rest.value);
        assert raw == [raw[0]] + raw[1..];
        Some(Variable([raw[0]] + rest.value.name, rest.value.value))
  }

  predicate ValidVariable(v: Variable) {
    v.name != "" && '\0' !in v.name && '\0' !in v.value
  }

  /** `parse_environment`. */
  function ParseVariable(raw: string): Result<Variable, UsageError> {
    var v := SplitOnce(raw);
    if v.None? || !ValidVariable(v.value) then Err(BadVariable(raw)) else Ok(v.value)
  }

  /** The parser's variables; `None` stands for an option not seen yet. */
  datatype State = State(
    capsule: Option<string>,
    policy: Option<string>,
    signatures: seq<string>,
    maxFiles: Option<u64>,
    maxBytes: Option<u64>,
    timeoutSeconds: Option<u64>,
    maxOutputBytes: Option<u64>,
    environment: seq<Variable>,
    arguments: seq<string>,
    positional: bool)

  const INITIAL := State(None, None, [], None, None, None, None, [], [], false)

  /** `take_value`: the argument after an option, which must not be empty. */
  function TakeValue(args: seq<string>, option: string): (r: Result<string, UsageError>)
    requires args != []
    ensures r.Ok? ==> |args| >= 2 && r.value == args[1] && r.value != ""
  {
    if |args| >= 2 && args[1] != "" then Ok(args[1]) else Err(MissingValue(option))
  }

  /** `take_unique_value`. */
  function TakeUnique(args: seq<string>, option: string, seen: bool): (r: Result<string, UsageError>)
    requires args != []
    ensures r.Ok? ==> !seen && |args| >= 2 && r.value == args[1] && r.value != ""
  {
    if seen then Err(Repeated(option)) else TakeValue(args, option)
  }

  /** A numeric option that may be given once, with a range. */
  function TakeNumber(args: seq<string>, option: string, seen: bool, min: u64, max: u64): (r: Result<u64, UsageError>)
    requires args != []
    ensures r.Ok? ==> |args| >= 2 && min <= r.value <= max
  {
    var raw :- TakeUnique(args, option, seen);
    var n := Decimal.Parse(raw, U64_MAX);
    if n.None? then Err(BadNumber(option))
    else if n.value < min || n.value > max then Err(OutOfRange(option))
    else Ok(n.value)
  }

  /** One turn of the parser's loop: the new state and how many arguments it consumed. */
  function Step(s: State, args: seq<string>): (r: Result<(State, nat), UsageError>)
    requires args != []
    ensures r.Ok? ==> 1 <= r.value.1 <= |args|
  {
    if s.positional then
      var _ :- CheckArguments(s.arguments + [args[0]]);
      Ok((s.(arguments := s.arguments + [args[0]]), 1))
    else if args[0] == "--" then Ok((s.(positional := true), 1))
    else if args[0] == "--policy" then
      var v :- TakeUnique(args, "--policy", s.policy.Some?);
      Ok((s.(policy := Some(v)), 2))
    else if args[0] == "--signature" then
      var v :- TakeValue(args, "--signature");
      if |s.signatures| + 1 > MAX_SIGNATURES then Err(TooManySignatures)
      else Ok((s.(signatures := s.signatures + [v]), 2))
    else if args[0] == "--max-files" then
      var n :- TakeNumber(args, "--max-files", s.maxFiles.Some?, 0, U64_MAX);
      Ok((s.(maxFiles := Some(n)), 2))
    else if args[0] == "--max-bytes" then
      var n :- TakeNumber(args, "--max-bytes", s.maxBytes.Some?, 0, U64_MAX);
      Ok((s.(maxBytes := Some(n)), 2))
    else if args[0] == "--timeout-seconds" then
      var n :- TakeNumber(args, "--timeout-seconds", s.timeoutSeconds.Some?, 1, MAX_TIMEOUT_SECONDS);
      Ok((s.(timeoutSeconds := Some(n)), 2))
    else if args[0] == "--max-output-bytes" then
      var n :- TakeNumber(args, "--max-output-bytes", s.maxOutputBytes.Some?, 1, MAX_OUTPUT_BYTES);
      Ok((s.(maxOutputBytes := Some(n)), 2))
    else if args[0] == "--env" then
      var raw :- TakeValue(args, "--env");
      var v :- ParseVariable(raw);
      var _ :- CheckEnvironment(s.environment + [v]);
      Ok((s.(environment := s.environment + [v]), 2))
    else if args[0] != "" && args[0][0] == '-' then Err(UnknownOption(args[0]))
    else if s.capsule.None? then Ok((s.(capsule := Some(args[0])), 1))
    else Err(UnexpectedArgument(args[0]))
  }

  function ParseFrom(s: State, args: seq<string>): Result<State, UsageError>
    decreases |args|
  {
    if args == [] then Ok(s)
    else
      var (t, n) :- Step(s, args);
      ParseFrom(t, args[n..])
  }

  function OrDefault(v: Option<u64>, default: u64): u64 {
    if v.Some? then v.value else default
  }

  function Finish(s: State): Result<Command, UsageError> {
    if s.signatures == [] then Err(MissingSignature)
    else if s.capsule.None? then Err(MissingCapsule)
    else if s.policy.None? then Err(MissingPolicy)
    else
      Ok(Command(s.capsule.value, s.policy.value, s.signatures,
                 OrDefault(s.maxFiles, DEFAULT_MAX_FILES),
                 OrDefault(s.maxBytes, DEFAULT_MAX_BYTES),
                 OrDefault(s.timeoutSeconds, DEFAULT_TIMEOUT_SECONDS),
                 OrDefault(s.maxOutputBytes, DEFAULT_MAX_OUTPUT_BYTES),
                 s.environment, s.arguments))
  }

  /** `parse`. */
  function Parse(args: seq<string>): Result<Command, UsageError> {
    if args == [] then Err(MissingCapsule)
    else if args[0] != "run" then Err(UnknownCommand)
    else
      var s :- ParseFrom(INITIAL, args[1..]);
      Finish(s)
  }

  /** The parser's loop: advance an index over the arguments and update the options read. */
  method ParseArguments(args: seq<string>) returns (r: Result<Command, UsageError>)
    ensures r == Parse(args)
  {
    if args == [] {
      return Err(MissingCapsule);
    }
    if args[0] != "run" {
      return Err(UnknownCommand);
    }
    var parsed := ParseOptionsFrom(INITIAL, args[1..]);
    if parsed.Err? {
      return Err(parsed.error);
    }
    return Finish(parsed.value);
  }

  /** One turn of the loop. */
  method Turn(s: State, args: seq<string>) returns (r: Result<(State, nat), UsageError>)
    requires args != []
    ensures r.Err? ==> ParseFrom(s, args) == Err(r.error)
    ensures r.Ok? ==> 1 <= r.value.1 <= |args| && ParseFrom(s, args) == ParseFrom(r.value.0, args[r.value.1..])
  {
    r := Step(s, args);
  }

  method ParseOptionsFrom(initial: State, rest: seq<string>) returns (r: Result<State, UsageError>)
    ensures r == ParseFrom(initial, rest)
  {
    var s := initial;
    var index := 0;
    ghost var ahead := rest;
    while index < |rest|
      invariant 0 <= index <= |rest| && ahead == rest[index..]
      invariant ParseFrom(initial, rest) == ParseFrom(s, ahead)
    {
      var turn := Turn(s, rest[index..]);
      if turn.Err? {
        return Err(turn.error);
      }
      var (next, consumed) := turn.value;
      ahead := ahead[consumed..];
      s, index := next, index + consumed;
    }
    return Ok(s);
  }

  // ---- What a command line means -------------------------------------------------------------

  const FLAGS := {"--policy", "--signature", "--max-files", "--max-bytes", "--timeout-seconds", "--max-output-bytes", "--env"}

  predicate IsFlag(text: string) {
    text != "" && text[0] == '-'
  }

  /** The options, each with the argument after it, up to `--` or the end. */
  function OptionsOf(args: seq<string>): seq<Opt> {
    if args == [] || args[0] == "--" then []
    else if !IsFlag(args[0]) then OptionsOf(args[1..])
    else if |args| == 1 then [Opt(args[0], "")]
    else [Opt(args[0], args[1])] + OptionsOf(args[2..])
  }

  /** What stands where an option could, up to `--` or the end. */
  function PositionalsOf(args: seq<string>): seq<string> {
    if args == [] || args[0] == "--" then []
    else if !IsFlag(args[0]) then [args[0]] + PositionalsOf(args[1..])
    else if |args| == 1 then []
    else PositionalsOf(args[2..])
  }

  /** What follows `--`, if it occurs where an option could. */
  function AfterSwitch(args: seq<string>): Option<seq<string>> {
    if args == [] then None
    else if args[0] == "--" then Some(args[1..])
    else if !IsFlag(args[0]) then AfterSwitch(args[1..])
    else if |args| == 1 then None
    else AfterSwitch(args[2..])
  }

  /** The `NAME=VALUE` texts as variables. */
  function ReadVariables(given: seq<string>): Option<seq<Variable>> {
    if given == [] then Some([])
    else
      var first := ParseVariable(given[0]);
      var rest :- ReadVariables(given[1..]);
      if first.Ok? then Some([first.value] + rest) else None
  }

  ghost predicate MoreVariables(before: seq<Variable>, given: seq<string>, after: seq<Variable>) {
    ReadVariables(given).Some? && after == before + ReadVariables(given).value && CheckEnvironment(after).Ok?
  }

  /** The parser's variables before and after a command line, said without a parser. */
  ghost predicate Reaches(s: State, args: seq<string>, t: State) {
    var opts, rest := OptionsOf(args), AfterSwitch(args);
    var tail := if rest.Some? then rest.value else [];
    && (forall o :: o in opts ==> o.flag in FLAGS && o.value != "")
    && Once(s.capsule, PositionalsOf(args), t.capsule)
    && Once(s.policy, Given(opts, "--policy"), t.policy)
    && t.signatures == s.signatures + Given(opts, "--signature") && |t.signatures| <= MAX_SIGNATURES
    && OnceNumber(s.maxFiles, Given(opts, "--max-files"), 0, U64_MAX, t.maxFiles)
    && OnceNumber(s.maxBytes, Given(opts, "--max-bytes"), 0, U64_MAX, t.maxBytes)
    && OnceNumber(s.timeoutSeconds, Given(opts, "--timeout-seconds"), 1, MAX_TIMEOUT_SECONDS, t.timeoutSeconds)
    && OnceNumber(s.maxOutputBytes, Given(opts, "--max-output-bytes"), 1, MAX_OUTPUT_BYTES, t.maxOutputBytes)
    && MoreVariables(s.environment, Given(opts, "--env"), t.environment)
    && t.arguments == s.arguments + tail && CheckArguments(t.arguments).Ok?
    && t.positional == (s.positional || rest.Some?)
  }

  ghost predicate Ready(s: State) {
    !s.positional && |s.signatures| <= MAX_SIGNATURES && CheckEnvironment(s.environment).Ok? && s.arguments == []
  }

  // ---- What the parser accepts -------------------------------------------------------------

  ghost predicate ValidVariables(environment: seq<Variable>) {
    && CheckEnvironment(environment).Ok?
    && forall i :: 0 <= i < |environment| ==> ValidVariable(environment[i]) && '=' !in environment[i].name
  }

  predicate ValidPaths(capsule: string, policy: string, signatures: seq<string>) {
    && (capsule == "" || capsule[0] != '-')
    && policy != ""
    && forall i :: 0 <= i < |signatures| ==> signatures[i] != ""
  }

  ghost predicate ValidCommand(c: Command) {
    && ValidPaths(c.capsule, c.policy, c.signatures)
    && 1 <= |c.signatures| <= MAX_SIGNATURES
    && 1 <= c.timeoutSeconds <= MAX_TIMEOUT_SECONDS
    && 1 <= c.maxOutputBytes <= MAX_OUTPUT_BYTES
    && ValidVariables(c.environment)
    && CheckArguments(c.arguments).Ok?
  }

  /** A process can be given these: no text holds NUL, and the names are distinct, not empty and
      without `=`. */
  ghost predicate Spawnable(environment: seq<Variable>, arguments: seq<string>) {
    && (forall a :: a in arguments ==> '\0' !in a)
    && (forall v :: v in environment ==> v.name != "" && '=' !in v.name && '\0' !in v.name && '\0' !in v.value)
    && (forall i, j :: 0 <= i < j < |environment| ==> environment[i].name != environment[j].name)
  }

  ghost predicate ValidFiles(s: State) {
    && (s.capsule.Some? ==> s.capsule.value == "" || s.capsule.value[0] != '-')
    && (s.policy.Some? ==> s.policy.value != "")
  }

  ghost predicate ValidNumbers(s: State) {
    && (s.timeoutSeconds.Some? ==> 1 <= s.timeoutSeconds.value <= MAX_TIMEOUT_SECONDS)
    && (s.maxOutputBytes.Some? ==> 1 <= s.maxOutputBytes.value <= MAX_OUTPUT_BYTES)
  }

  ghost predicate ValidSignatures(signatures: seq<string>) {
    |signatures| <= MAX_SIGNATURES && forall i :: 0 <= i < |signatures| ==> signatures[i] != ""
  }

  /** What holds of the parser's variables at every turn of its loop. */
  ghost predicate ValidState(s: State) {
    && ValidFiles(s)
    && ValidNumbers(s)
    && ValidSignatures(s.signatures)
    && ValidVariables(s.environment)
    && CheckArguments(s.arguments).Ok?
  }

  lemma StepKeepsFiles(s: State, args: seq<string>)
    requires ValidFiles(s) && args != [] && Step(s, args).Ok?
    ensures ValidFiles(Step(s, args).value.0)
  {
  }

  lemma StepKeepsNumbers(s: State, args: seq<string>)
    requires ValidNumbers(s) && args != [] && Step(s, args).Ok?
    ensures ValidNumbers(Step(s, args).value.0)
  {
  }

  lemma StepKeepsSignatures(s: State, args: seq<string>)
    requires ValidSignatures(s.signatures) && args != [] && Step(s, args).Ok?
    ensures ValidSignatures(Step(s, args).value.0.signatures)
  {
  }

  lemma StepKeepsVariables(s: State, args: seq<string>)
    requires ValidVariables(s.environment) && args != [] && Step(s, args).Ok?
    ensures ValidVariables(Step(s, args).value.0.environment)
  {
    var t := Step(s, args).value.0;
    if t.environment != s.environment {
      AppendVariable(s.environment, args[1]);
    }
  }

  lemma AppendVariable(environment: seq<Variable>, raw: string)
    requires ValidVariables(environment) && ParseVariable(raw).Ok?
    requires CheckEnvironment(environment + [ParseVariable(raw).value]).Ok?
    ensures ValidVariables(environment + [ParseVariable(raw).value])
  {
  }

  lemma StepKeepsArguments(s: State, args: seq<string>)
    requires CheckArguments(s.arguments).Ok? && args != [] && Step(s, args).Ok?
    ensures CheckArguments(Step(s, args).value.0.arguments).Ok?
  {
  }

  lemma StepKeepsValid(s: State, args: seq<string>)
    requires ValidState(s) && args != [] && Step(s, args).Ok?
    ensures ValidState(Step(s, args).value.0)
  {
    StepKeepsFiles(s, args);
    StepKeepsNumbers(s, args);
    StepKeepsSignatures(s, args);
    StepKeepsVariables(s, args);
    StepKeepsArguments(s, args);
  }

  lemma {:induction false} ParseFromKeepsValid(s: State, args: seq<string>)
    requires ValidState(s) && ParseFrom(s, args).Ok?
    ensures ValidState(ParseFrom(s, args).value)
    decreases |args|
  {
    if args != [] {
      StepKeepsValid(s, args);
      var (t, n) := Step(s, args).value;
      ParseFromKeepsValid(t, args[n..]);
    }
  }

  /** Every command line the parser accepts, however it is written, gives a valid command. */
  lemma ParsedIsValid(args: seq<string>)
    requires Parse(args).Ok?
    ensures ValidCommand(Parse(args).value)
  {
    ParseFromKeepsValid(INITIAL, args[1..]);
  }

  // ---- Rendering, and reading it back ------------------------------------------------------

  /** An option repeated once for each value. */
  function Flags(option: string, values: seq<string>): seq<string> {
    if values == [] then [] else [option, values[0]] + Flags(option, values[1..])
  }

  function Assignments(environment: seq<Variable>): seq<string> {
    if environment == [] then [] else [Assignment(environment[0])] + Assignments(environment[1..])
  }

  function Numbers(c: Command): seq<string> {
    ["--timeout-seconds", Decimal.Print(c.timeoutSeconds),
     "--max-files", Decimal.Print(c.maxFiles),
     "--max-bytes", Decimal.Print(c.maxBytes)]
  }

  function Tail(arguments: seq<string>): seq<string> {
    if arguments == [] then [] else ["--"] + arguments
  }

  /** The argument vector `hub_run` builds. It leaves the output limit at its default. */
  function Render(c: Command): seq<string> {
    ["run", c.capsule, "--policy", c.policy]
    + Flags("--signature", c.signatures)
    + Numbers(c)
    + Flags("--env", Assignments(c.environment))
    + Tail(c.arguments)
  }

  /** What is left of a variable when `NAME=VALUE` is split at its first `=`. */
  function Reread(v: Variable): (r: Variable)
    ensures '=' !in r.name && Assignment(r) == Assignment(v)
    ensures r == v <==> '=' !in v.name
  {
    assert Assignment(v)[|v.name|] == '=';
    var r := SplitOnce(Assignment(v)).value;
    SplitUnique(r, v);
    r
  }

  lemma SplitUnique(r: Variable, v: Variable)
    requires '=' !in r.name && Assignment(r) == Assignment(v)
    ensures r == v <==> '=' !in v.name
  {
    var raw := Assignment(v);
    if '=' !in v.name {
      assert raw[|r.name|] == '=' && raw[|v.name|] == '=';
      assert forall k :: 0 <= k < |r.name| ==> raw[k] == r.name[k];
      assert forall k :: 0 <= k < |v.name| ==> raw[k] == v.name[k];
      assert r.name == raw[..|r.name|] == v.name;
      assert r.value == raw[|r.name| + 1..] == v.value;
    }
  }

  function RereadAll(environment: seq<Variable>): (r: seq<Variable>)
    ensures |r| == |environment|
    ensures forall i :: 0 <= i < |r| ==> r[i] == Reread(environment[i])
  {
    if environment == [] then [] else [Reread(environment[0])] + RereadAll(environment[1..])
  }

  lemma ParseStep(s: State, head: seq<string>, rest: seq<string>, t: State)
    requires head != [] && Step(s, head + rest) == Ok((t, |head|))
    ensures ParseFrom(s, head + rest) == ParseFrom(t, rest)
  {
    assert (head + rest)[|head|..] == rest;
  }

  lemma {:induction false} ParseSignatures(s: State, signatures: seq<string>, rest: seq<string>)
    requires !s.positional && |s.signatures| <= MAX_SIGNATURES
    requires forall i :: 0 <= i < |signatures| ==> signatures[i] != ""
    ensures var r := ParseFrom(s, Flags("--signature", signatures) + rest);
            if |s.signatures| + |signatures| <= MAX_SIGNATURES
            then r == ParseFrom(s.(signatures := s.signatures + signatures), rest)
            else r.Err?
    decreases |signatures|
  {
    var args := Flags("--signature", signatures) + rest;
    if signatures == [] {
      assert args == rest;
      assert s.signatures + signatures == s.signatures;
    } else {
      var head, more := ["--signature", signatures[0]], Flags("--signature", signatures[1..]) + rest;
      assert args == head + more;
      if |s.signatures| < MAX_SIGNATURES {
        var t := s.(signatures := s.signatures + [signatures[0]]);
        ParseStep(s, head, more, t);
        ParseSignatures(t, signatures[1..], rest);
        assert s.signatures + signatures == t.signatures + signatures[1..];
      }
    }
  }

  lemma NumberOption(s: State, option: string, n: u64, rest: seq<string>, seen: bool, min: u64, max: u64)
    requires !seen
    ensures TakeNumber([option, Decimal.Print(n)] + rest, option, seen, min, max)
         == if min <= n <= max then Ok(n) else Err(OutOfRange(option))
  {
    Decimal.ParseOfPrint(n, U64_MAX);
  }

  lemma ParseNumbers(s: State, c: Command, rest: seq<string>)
    requires !s.positional && s.timeoutSeconds.None? && s.maxFiles.None? && s.maxBytes.None?
    ensures var r := ParseFrom(s, Numbers(c) + rest);
            if 1 <= c.timeoutSeconds <= MAX_TIMEOUT_SECONDS
            then r == ParseFrom(s.(timeoutSeconds := Some(c.timeoutSeconds), maxFiles := Some(c.maxFiles),
                                   maxBytes := Some(c.maxBytes)), rest)
            else r.Err?
  {
    hide Decimal.Print, Decimal.Parse, Flags, Assignments, CheckEnvironment, CheckArguments, TakeNumber;
    var a, b, d := ["--timeout-seconds", Decimal.Print(c.timeoutSeconds)], ["--max-files", Decimal.Print(c.maxFiles)],
                   ["--max-bytes", Decimal.Print(c.maxBytes)];
    var afterB := d + rest;
    var afterA := b + afterB;
    assert Numbers(c) + rest == a + afterA;
    NumberOption(s, "--timeout-seconds", c.timeoutSeconds, afterA, false, 1, MAX_TIMEOUT_SECONDS);
    if 1 <= c.timeoutSeconds <= MAX_TIMEOUT_SECONDS {
      var t := s.(timeoutSeconds := Some(c.timeoutSeconds));
      ParseStep(s, a, afterA, t);
      NumberOption(t, "--max-files", c.maxFiles, afterB, false, 0, U64_MAX);
      var u := t.(maxFiles := Some(c.maxFiles));
      ParseStep(t, b, afterB, u);
      NumberOption(u, "--max-bytes", c.maxBytes, rest, false, 0, U64_MAX);
      ParseStep(u, d, rest, u.(maxBytes := Some(c.maxBytes)));
    }
  }

  /** Every prefix of an acceptable environment is acceptable. */
  lemma {:induction false} EnvironmentPrefix(a: seq<Variable>, b: seq<Variable>)
    requires CheckEnvironment(a + b).Ok?
    ensures CheckEnvironment(a).Ok?
    decreases |b|
  {
    if b == [] {
      assert a + b == a;
    } else {
      var n := |b| - 1;
      assert (a + b)[..|a + b| - 1] == a + b[..n];
      assert DistinctNames(a + b[..n]) by {
        assert forall i :: 0 <= i < |a + b[..n]| ==> (a + b[..n])[i] == (a + b)[i];
      }
      EnvironmentPrefix(a, b[..n]);
    }
  }

  lemma {:induction false} ArgumentsPrefix(a: seq<string>, b: seq<string>)
    requires CheckArguments(a + b).Ok?
    ensures CheckArguments(a).Ok?
    decreases |b|
  {
    if b == [] {
      assert a + b == a;
    } else {
      assert (a + b)[..|a + b| - 1] == a + b[..|b| - 1];
      ArgumentsPrefix(a, b[..|b| - 1]);
    }
  }

  ghost predicate AllValid(environment: seq<Variable>) {
    forall i :: 0 <= i < |environment| ==> ValidVariable(environment[i])
  }

  /** The parser accepts the variables after those it has. */
  ghost predicate Acceptable(before: seq<Variable>, more: seq<Variable>) {
    CheckEnvironment(before + more).Ok? && AllValid(more)
  }

  lemma AcceptableCons(before: seq<Variable>, v: Variable, more: seq<Variable>)
    ensures before + ([v] + more) == (before + [v]) + more
    ensures Acceptable(before, [v] + more) <==> Acceptable(before, [v]) && Acceptable(before + [v], more)
  {
    assert before + ([v] + more) == (before + [v]) + more;
    assert ([v] + more)[0] == v && forall i :: 0 <= i < |more| ==> ([v] + more)[i + 1] == more[i];
    if CheckEnvironment((before + [v]) + more).Ok? {
      EnvironmentPrefix(before + [v], more);
    }
  }

  lemma {:induction false} ParseEnvironment(s: State, environment: seq<Variable>, rest: seq<string>)
    requires !s.positional && CheckEnvironment(s.environment).Ok?
    ensures var r := ParseFrom(s, Flags("--env", Assignments(environment)) + rest);
            var reread := RereadAll(environment);
            if Acceptable(s.environment, reread)
            then r == ParseFrom(s.(environment := s.environment + reread), rest)
            else r.Err?
    decreases |environment|
  {
    var reread := RereadAll(environment);
    if environment == [] {
      assert Flags("--env", Assignments(environment)) + rest == rest;
      assert s.environment + reread == s.environment;
    } else {
      var v, others := Reread(environment[0]), RereadAll(environment[1..]);
      var head, more := ["--env", Assignment(environment[0])], Flags("--env", Assignments(environment[1..])) + rest;
      FlagsCons(environment, rest);
      StepEnvironment(s, environment[0], more);
      AcceptableCons(s.environment, v, others);
      if Acceptable(s.environment, [v]) {
        var t := s.(environment := s.environment + [v]);
        ParseStep(s, head, more, t);
        ParseEnvironment(t, environment[1..], rest);
      }
    }
  }

  lemma FlagsCons(environment: seq<Variable>, rest: seq<string>)
    requires environment != []
    ensures Flags("--env", Assignments(environment)) + rest
         == ["--env", Assignment(environment[0])] + (Flags("--env", Assignments(environment[1..])) + rest)
  {
    assert Assignments(environment)[1..] == Assignments(environment[1..]);
  }

  lemma StepEnvironment(s: State, v: Variable, rest: seq<string>)
    requires !s.positional
    ensures var r := Step(s, ["--env", Assignment(v)] + rest);
            if Acceptable(s.environment, [Reread(v)])
            then r == Ok((s.(environment := s.environment + [Reread(v)]), 2))
            else r.Err?
  {
    assert Assignment(v)[|v.name|] == '=';
  }

  lemma {:induction false} ParsePositional(s: State, arguments: seq<string>)
    requires s.positional && CheckArguments(s.arguments).Ok?
    ensures var r := ParseFrom(s, arguments);
            if CheckArguments(s.arguments + arguments).Ok?
            then r == Ok(s.(arguments := s.arguments + arguments))
            else r.Err?
    decreases |arguments|
  {
    if arguments == [] {
      assert s.arguments + arguments == s.arguments;
    } else {
      var extended := s.arguments + [arguments[0]];
      assert s.arguments + arguments == extended + arguments[1..];
      if CheckArguments(s.arguments + arguments).Ok? {
        ArgumentsPrefix(extended, arguments[1..]);
      }
      if CheckArguments(extended).Ok? {
        assert arguments == [arguments[0]] + arguments[1..];
        ParseStep(s, [arguments[0]], arguments[1..], s.(arguments := extended));
        ParsePositional(s.(arguments := extended), arguments[1..]);
      }
    }
  }

  lemma ParseTail(s: State, arguments: seq<string>)
    requires !s.positional && s.arguments == []
    ensures var r := ParseFrom(s, Tail(arguments));
            if CheckArguments(arguments).Ok?
            then r == Ok(s.(arguments := arguments, positional := arguments != []))
            else r.Err?
  {
    if arguments != [] {
      var t := s.(positional := true);
      ParseStep(s, ["--"], arguments, t);
      ParsePositional(t, arguments);
      assert [] + arguments == arguments;
    }
  }

  lemma MoreVariablesFirst(before: seq<Variable>, value: string, more: seq<string>, after: seq<Variable>)
    ensures MoreVariables(before, [value] + more, after) <==>
            && ParseVariable(value).Ok? && CheckEnvironment(before + [ParseVariable(value).value]).Ok?
            && MoreVariables(before + [ParseVariable(value).value], more, after)
  {
    hide ParseVariable, CheckEnvironment;
    assert ([value] + more)[1..] == more;
    var v, rest := ParseVariable(value), ReadVariables(more);
    if v.Ok? && rest.Some? {
      assert before + ([v.value] + rest.value) == (before + [v.value]) + rest.value;
      if CheckEnvironment((before + [v.value]) + rest.value).Ok? {
        EnvironmentPrefix(before + [v.value], rest.value);
      }
    }
  }

  /** One option that is a number. */
  lemma TakeNumberIff(args: seq<string>, option: string, seen: bool, min: u64, max: u64)
    requires |args| >= 2
    ensures var r, n := TakeNumber(args, option, seen, min, max), Decimal.Parse(args[1], U64_MAX);
            && (r.Ok? <==> !seen && args[1] != "" && n.Some? && min <= n.value <= max)
            && (r.Ok? ==> r.value == n.value)
  {
  }

  /** What is given for each option, when the line starts with this one. */
  lemma GivenNext(o: Opt, rest: seq<Opt>)
    ensures forall flag :: flag in FLAGS ==>
              Given([o] + rest, flag) == if o.flag == flag then [o.value] + Given(rest, flag) else Given(rest, flag)
  {
    forall flag | flag in FLAGS {
      GivenFirst(o, rest, flag);
    }
  }

  /** An option changes the parser's variables as the whole command line says. */
  lemma OptionReaches(s: State, args: seq<string>, t: State)
    requires Ready(s) && |args| >= 2 && IsFlag(args[0]) && args[0] != "--"
    ensures var turn := Step(s, args);
            && (turn.Ok? ==> turn.value.1 == 2 && Ready(turn.value.0))
            && (Reaches(s, args, t) <==> turn.Ok? && Reaches(turn.value.0, args[2..], t))
  {
    if args[0] in {"--max-files", "--max-bytes", "--timeout-seconds", "--max-output-bytes"} {
      NumberReaches(s, args, t);
    } else {
      TextReaches(s, args, t);
    }
  }

  lemma TextReaches(s: State, args: seq<string>, t: State)
    requires Ready(s) && |args| >= 2 && IsFlag(args[0]) && args[0] != "--"
    requires args[0] !in {"--max-files", "--max-bytes", "--timeout-seconds", "--max-output-bytes"}
    ensures var turn := Step(s, args);
            && (turn.Ok? ==> turn.value.1 == 2 && Ready(turn.value.0))
            && (Reaches(s, args, t) <==> turn.Ok? && Reaches(turn.value.0, args[2..], t))
  {
    hide OptionsOf, PositionalsOf, AfterSwitch, CheckEnvironment, CheckArguments, MoreVariables, Once, OnceNumber, ParseVariable, Decimal.Parse, TakeNumber, Given;
    var o, rest := Opt(args[0], args[1]), OptionsOf(args[2..]);
    OptionsFirst(args);
    assert forall p :: p in [o] + rest <==> p == o || p in rest;
    GivenNext(o, rest);
    if o.flag == "--policy" {
      OnceFirst(s.policy, o.value, Given(rest, "--policy"), t.policy);
    } else if o.flag == "--signature" {
      assert s.signatures + ([o.value] + Given(rest, "--signature")) == (s.signatures + [o.value]) + Given(rest, "--signature");
    } else if o.flag == "--env" {
      MoreVariablesFirst(s.environment, o.value, Given(rest, o.flag), t.environment);
    }
  }

  lemma NumberReaches(s: State, args: seq<string>, t: State)
    requires Ready(s) && |args| >= 2 && args[0] in {"--max-files", "--max-bytes", "--timeout-seconds", "--max-output-bytes"}
    ensures var turn := Step(s, args);
            && (turn.Ok? ==> turn.value.1 == 2 && Ready(turn.value.0))
            && (Reaches(s, args, t) <==> turn.Ok? && Reaches(turn.value.0, args[2..], t))
  {
    hide OptionsOf, PositionalsOf, AfterSwitch, CheckEnvironment, CheckArguments, MoreVariables, Once, OnceNumber, ParseVariable, Decimal.Parse, TakeNumber, Given;
    var o, rest := Opt(args[0], args[1]), OptionsOf(args[2..]);
    OptionsFirst(args);
    assert forall p :: p in [o] + rest <==> p == o || p in rest;
    GivenNext(o, rest);
    if o.flag == "--max-files" {
      TakeNumberIff(args, o.flag, s.maxFiles.Some?, 0, U64_MAX);
      OnceNumberFirst(s.maxFiles, o.value, Given(rest, o.flag), 0, U64_MAX, t.maxFiles);
    } else if o.flag == "--max-bytes" {
      TakeNumberIff(args, o.flag, s.maxBytes.Some?, 0, U64_MAX);
      OnceNumberFirst(s.maxBytes, o.value, Given(rest, o.flag), 0, U64_MAX, t.maxBytes);
    } else if o.flag == "--timeout-seconds" {
      TakeNumberIff(args, o.flag, s.timeoutSeconds.Some?, 1, MAX_TIMEOUT_SECONDS);
      OnceNumberFirst(s.timeoutSeconds, o.value, Given(rest, o.flag), 1, MAX_TIMEOUT_SECONDS, t.timeoutSeconds);
    } else {
      TakeNumberIff(args, o.flag, s.maxOutputBytes.Some?, 1, MAX_OUTPUT_BYTES);
      OnceNumberFirst(s.maxOutputBytes, o.value, Given(rest, o.flag), 1, MAX_OUTPUT_BYTES, t.maxOutputBytes);
    }
  }

  lemma OptionsFirst(args: seq<string>)
    requires |args| >= 2 && IsFlag(args[0]) && args[0] != "--"
    ensures OptionsOf(args) == [Opt(args[0], args[1])] + OptionsOf(args[2..])
    ensures PositionalsOf(args) == PositionalsOf(args[2..]) && AfterSwitch(args) == AfterSwitch(args[2..])
  {
  }

  /** For every command line, the parser's loop ends in exactly the state the line describes, and
      fails exactly when it describes none. */
  lemma {:induction false} ParseFromIff(s: State, args: seq<string>, t: State)
    requires Ready(s)
    ensures ParseFrom(s, args) == Ok(t) <==> Reaches(s, args, t)
    decreases |args|
  {
    hide CheckEnvironment, CheckArguments, ParseVariable, Decimal.Parse, TakeNumber;
    if args == [] {
      NothingReached(s, t);
    } else if args[0] == "--" {
      SwitchReaches(s, args, t);
    } else if !IsFlag(args[0]) {
      PositionalReaches(s, args, t);
      if s.capsule.None? {
        ParseFromIff(s.(capsule := Some(args[0])), args[1..], t);
      }
    } else if |args| == 1 {
      assert OptionsOf(args) == [Opt(args[0], "")];
      assert Opt(args[0], "") in OptionsOf(args);
      NoValue(s, args);
    } else {
      OptionReaches(s, args, t);
      var turn := Step(s, args);
      if turn.Ok? {
        ParseFromIff(turn.value.0, args[2..], t);
      }
    }
  }

  lemma NoValue(s: State, args: seq<string>)
    requires !s.positional && |args| == 1 && IsFlag(args[0]) && args[0] != "--"
    ensures Step(s, args).Err?
  {
  }

  lemma NothingReached(s: State, t: State)
    requires Ready(s)
    ensures Reaches(s, [], t) <==> s == t
  {
    assert s.signatures + [] == s.signatures && s.environment + [] == s.environment && s.arguments + [] == s.arguments;
  }

  lemma SwitchReaches(s: State, args: seq<string>, t: State)
    requires Ready(s) && args != [] && args[0] == "--"
    ensures ParseFrom(s, args) == Ok(t) <==> Reaches(s, args, t)
  {
    hide CheckEnvironment, CheckArguments, ParseFrom;
    var u, arguments := s.(positional := true), args[1..];
    SwitchParsed(s, args);
    NoArguments();
    hide Step, Decimal.Parse, TakeNumber;
    assert OptionsOf(args) == [] && PositionalsOf(args) == [] && AfterSwitch(args) == Some(arguments);
    assert s.signatures + [] == s.signatures && s.environment + [] == s.environment && [] + arguments == arguments;
  }

  /** After the switch everything is an argument. */
  lemma SwitchParsed(s: State, args: seq<string>)
    requires Ready(s) && args != [] && args[0] == "--"
    ensures var arguments := args[1..];
            if CheckArguments(arguments).Ok?
            then ParseFrom(s, args) == Ok(s.(positional := true, arguments := arguments))
            else ParseFrom(s, args).Err?
  {
    hide CheckEnvironment, CheckArguments;
    var u, arguments := s.(positional := true), args[1..];
    assert args == ["--"] + arguments;
    NoArguments();
    ParseStep(s, ["--"], arguments, u);
    ParsePositional(u, arguments);
    assert [] + arguments == arguments;
  }

  lemma NoArguments()
    ensures CheckArguments([]).Ok?
  {
  }

  lemma PositionalReaches(s: State, args: seq<string>, t: State)
    requires Ready(s) && args != [] && !IsFlag(args[0])
    ensures Step(s, args).Ok? <==> s.capsule.None?
    ensures s.capsule.None? ==> Step(s, args) == Ok((s.(capsule := Some(args[0])), 1))
    ensures Reaches(s, args, t) <==> s.capsule.None? && Reaches(s.(capsule := Some(args[0])), args[1..], t)
  {
    hide CheckEnvironment, CheckArguments, MoreVariables, OnceNumber, Once, Given;
    OnceFirst(s.capsule, args[0], PositionalsOf(args[1..]), t.capsule);
  }

  /** What a command line means: each option at most once but for signatures and variables, none
      unknown, none without a value; every limit met; and the defaults of what is not given. */
  ghost predicate Means(args: seq<string>, c: Command) {
    var opts, rest := OptionsOf(args), AfterSwitch(args);
    && (forall o :: o in opts ==> o.flag in FLAGS && o.value != "")
    && PositionalsOf(args) == [c.capsule]
    && Given(opts, "--policy") == [c.policy]
    && Given(opts, "--signature") == c.signatures && 1 <= |c.signatures| <= 64
    && NumberOr(Given(opts, "--max-files"), 4096, 0, U64_MAX, c.maxFiles)
    && NumberOr(Given(opts, "--max-bytes"), 1024 * 1024 * 1024, 0, U64_MAX, c.maxBytes)
    && NumberOr(Given(opts, "--timeout-seconds"), 300, 1, 86400, c.timeoutSeconds)
    && NumberOr(Given(opts, "--max-output-bytes"), 16 * 1024 * 1024, 1, 64 * 1024 * 1024, c.maxOutputBytes)
    && ReadVariables(Given(opts, "--env")) == Some(c.environment) && CheckEnvironment(c.environment).Ok?
    && c.arguments == (if rest.Some? then rest.value else []) && CheckArguments(c.arguments).Ok?
  }

  /** For every argument vector, the parser accepts exactly what means a command, and returns that
      command. */
  lemma ParseIff(args: seq<string>, c: Command)
    ensures Parse(args) == Ok(c) <==> args != [] && args[0] == "run" && Means(args[1..], c)
  {
    hide OptionsOf, PositionalsOf, AfterSwitch, Given, CheckEnvironment, CheckArguments, ParseFrom, Decimal.Parse, ReadVariables;
    if args != [] && args[0] == "run" {
      var rest := args[1..];
      InitialReady();
      var parsed := ParseFrom(INITIAL, rest);
      if parsed.Ok? {
        ParseFromIff(INITIAL, rest, parsed.value);
        FinishIff(rest, parsed.value, c);
      }
      if Means(rest, c) {
        var t := StateOf(rest, c);
        MeansReaches(rest, c);
        ParseFromIff(INITIAL, rest, t);
        FinishIff(rest, t, c);
      }
    }
  }

  lemma InitialReady()
    ensures Ready(INITIAL)
  {
  }

  function NumberGiven(given: seq<string>, n: u64): Option<u64> {
    if given == [] then None else Some(n)
  }

  /** The parser's variables for a command that the line means. */
  function StateOf(args: seq<string>, c: Command): State {
    var opts := OptionsOf(args);
    State(Some(c.capsule), Some(c.policy), c.signatures,
          NumberGiven(Given(opts, "--max-files"), c.maxFiles), NumberGiven(Given(opts, "--max-bytes"), c.maxBytes),
          NumberGiven(Given(opts, "--timeout-seconds"), c.timeoutSeconds),
          NumberGiven(Given(opts, "--max-output-bytes"), c.maxOutputBytes),
          c.environment, c.arguments, AfterSwitch(args).Some?)
  }

  lemma MeansReaches(args: seq<string>, c: Command)
    requires Means(args, c)
    ensures Reaches(INITIAL, args, StateOf(args, c))
  {
    hide OptionsOf, PositionalsOf, AfterSwitch, Given, CheckEnvironment, CheckArguments, Decimal.Parse, ReadVariables;
    assert [] + c.signatures == c.signatures && [] + c.environment == c.environment && [] + c.arguments == c.arguments;
  }

  lemma FinishIff(args: seq<string>, t: State, c: Command)
    requires Reaches(INITIAL, args, t)
    ensures Finish(t) == Ok(c) <==> Means(args, c)
  {
    hide OptionsOf, PositionalsOf, AfterSwitch, Given, CheckEnvironment, CheckArguments, Decimal.Parse, ReadVariables;
    var opts := OptionsOf(args);
    assert [] + Given(opts, "--signature") == Given(opts, "--signature");
    assert ReadVariables(Given(opts, "--env")).Some? ==>
        [] + ReadVariables(Given(opts, "--env")).value == ReadVariables(Given(opts, "--env")).value;
    assert AfterSwitch(args).Some? ==> [] + AfterSwitch(args).value == AfterSwitch(args).value;
  }

  /** The command the parser makes of a rendered argument vector. */
  function Delivered(c: Command): Command {
    c.(environment := RereadAll(c.environment), maxOutputBytes := DEFAULT_MAX_OUTPUT_BYTES)
  }

  /** What follows the signatures in a rendered vector. */
  function AfterSignatures(c: Command): seq<string> {
    Numbers(c) + (Flags("--env", Assignments(c.environment)) + Tail(c.arguments))
  }

  lemma RenderText(c: Command)
    ensures Render(c)[0] == "run"
    ensures Render(c)[1..] ==
            [c.capsule] + (["--policy", c.policy] + (Flags("--signature", c.signatures) + AfterSignatures(c)))
  {
  }

  /** The state once the file options are read. */
  function FilesRead(c: Command): State {
    INITIAL.(capsule := Some(c.capsule), policy := Some(c.policy), signatures := c.signatures)
  }

  lemma ParseFiles(c: Command)
    requires ValidPaths(c.capsule, c.policy, c.signatures)
    ensures var r := ParseFrom(INITIAL, Render(c)[1..]);
            if |c.signatures| <= MAX_SIGNATURES then r == ParseFrom(FilesRead(c), AfterSignatures(c)) else r.Err?
  {
    var rest := AfterSignatures(c);
    var signatures := Flags("--signature", c.signatures) + rest;
    var s1 := INITIAL.(capsule := Some(c.capsule));
    RenderText(c);
    ParseCapsule(c.capsule, ["--policy", c.policy] + signatures);
    ParsePolicy(s1, c.policy, signatures);
    ParseSignatures(s1.(policy := Some(c.policy)), c.signatures, rest);
    assert [] + c.signatures == c.signatures;
  }

  /** The state once everything is read. */
  function AllRead(c: Command): State {
    FilesRead(c).(timeoutSeconds := Some(c.timeoutSeconds), maxFiles := Some(c.maxFiles),
                  maxBytes := Some(c.maxBytes), environment := RereadAll(c.environment),
                  arguments := c.arguments, positional := c.arguments != [])
  }

  ghost predicate ValidAfterSignatures(c: Command) {
    && 1 <= c.timeoutSeconds <= MAX_TIMEOUT_SECONDS
    && ValidVariables(RereadAll(c.environment))
    && CheckArguments(c.arguments).Ok?
  }

  /** The state once the numbers are read too. */
  function NumbersRead(c: Command): State {
    FilesRead(c).(timeoutSeconds := Some(c.timeoutSeconds), maxFiles := Some(c.maxFiles), maxBytes := Some(c.maxBytes))
  }

  lemma ParseRest(s: State, environment: seq<Variable>, arguments: seq<string>)
    requires !s.positional && s.environment == [] && s.arguments == []
    ensures var r := ParseFrom(s, Flags("--env", Assignments(environment)) + Tail(arguments));
            var reread := RereadAll(environment);
            if ValidVariables(reread) && CheckArguments(arguments).Ok?
            then r == Ok(s.(environment := reread, arguments := arguments, positional := arguments != []))
            else r.Err?
  {
    var reread := RereadAll(environment);
    ParseEnvironment(s, environment, Tail(arguments));
    assert [] + reread == reread;
    ParseTail(s.(environment := reread), arguments);
    AcceptableFromNone(reread);
  }

  lemma AcceptableFromNone(environment: seq<Variable>)
    requires forall i :: 0 <= i < |environment| ==> '=' !in environment[i].name
    ensures ValidVariables(environment) <==> Acceptable([], environment)
  {
    assert [] + environment == environment;
  }

  lemma ParseOptions(c: Command)
    ensures var r := ParseFrom(FilesRead(c), AfterSignatures(c));
            if ValidAfterSignatures(c) then r == Ok(AllRead(c)) else r.Err?
  {
    ParseNumbers(FilesRead(c), c, Flags("--env", Assignments(c.environment)) + Tail(c.arguments));
    ParseRest(NumbersRead(c), c.environment, c.arguments);
  }

  /** For every command with usable paths, parsing the rendered vector gives the command with its
      variables split at their first `=`, exactly when that command is within the limits. */
  lemma ParseOfRender(c: Command)
    requires ValidPaths(c.capsule, c.policy, c.signatures)
    ensures var r := Parse(Render(c));
            if ValidCommand(Delivered(c)) then r == Ok(Delivered(c)) else r.Err?
  {
    RenderText(c);
    ParseFiles(c);
    ParseOptions(c);
  }

  lemma ParseCapsule(capsule: string, rest: seq<string>)
    requires capsule == "" || capsule[0] != '-'
    ensures ParseFrom(INITIAL, [capsule] + rest) == ParseFrom(INITIAL.(capsule := Some(capsule)), rest)
  {
    ParseStep(INITIAL, [capsule], rest, INITIAL.(capsule := Some(capsule)));
  }

  lemma ParsePolicy(s: State, policy: string, rest: seq<string>)
    requires !s.positional && s.policy.None? && policy != ""
    ensures ParseFrom(s, ["--policy", policy] + rest) == ParseFrom(s.(policy := Some(policy)), rest)
  {
    ParseStep(s, ["--policy", policy], rest, s.(policy := Some(policy)));
  }

  /** Rendering then parsing gives back the very same command exactly for the commands the parser
      can produce at the default output limit. */
  lemma RoundTripIff(c: Command)
    ensures Parse(Render(c)) == Ok(c) <==> ValidCommand(c) && c.maxOutputBytes == DEFAULT_MAX_OUTPUT_BYTES
  {
    if ValidCommand(c) && c.maxOutputBytes == DEFAULT_MAX_OUTPUT_BYTES {
      assert RereadAll(c.environment) == c.environment;
      ParseOfRender(c);
    }
    if Parse(Render(c)) == Ok(c) {
      ParsedIsValid(Render(c));
      ParseOfRender(c);
    }
  }
}
