/**
 * The options of the `exec` command (cli/exec.go, ExecCommandInput) and the
 * rules that decide which of them may be combined.
 */
module ExecInput {
  import opened Wrappers

  /**
   * The part of the profile configuration on the command line: `region` holds
   * the `--region` flag and `mfaPromptMethod` the prompt driver. The region the
   * environment gets is the loaded profile's, which the environment functions
   * take as a separate parameter, so no member here reads `region`.
   */
  datatype Config = Config(region: string, mfaPromptMethod: string)

  /** The parsed command line of `exec`. Durations are whole nanoseconds. */
  datatype ExecCommandInput = ExecCommandInput(
    profileName: string,
    command: string,
    args: seq<string>,
    startEc2Server: bool,
    startEcsServer: bool,
    lazy: bool,
    jsonDeprecated: bool,
    config: Config,
    sessionDuration: int,
    noSession: bool,
    useStdout: bool)

  /** The prompt driver that reads an MFA code from the controlling terminal. */
  const TerminalPrompt: string := "terminal"

  /** The options that take part in the compatibility rules. */
  datatype Flag = Ec2ServerFlag | EcsServerFlag | JsonFlag | NoSessionFlag | TerminalPromptFlag

  /** The options of `input` that are switched on. */
  function FlagsOf(input: ExecCommandInput): set<Flag> {
    (if input.startEc2Server then {Ec2ServerFlag} else {})
    + (if input.startEcsServer then {EcsServerFlag} else {})
    + (if input.jsonDeprecated then {JsonFlag} else {})
    + (if input.noSession then {NoSessionFlag} else {})
    + (if input.config.mfaPromptMethod == TerminalPrompt then {TerminalPromptFlag} else {})
  }

  /**
   * The pairs of options that cannot be used together: the two servers with
   * each other, and either server with --json, --no-session or the terminal
   * prompt.
   */
  const Incompatible: set<(Flag, Flag)> := {
    (Ec2ServerFlag, EcsServerFlag),
    (Ec2ServerFlag, JsonFlag),
    (Ec2ServerFlag, NoSessionFlag),
    (EcsServerFlag, JsonFlag),
    (EcsServerFlag, NoSessionFlag),
    (EcsServerFlag, TerminalPromptFlag),
    (Ec2ServerFlag, TerminalPromptFlag)
  }

  /** No incompatible pair is switched on together. */
  predicate Compatible(flags: set<Flag>) {
    forall p :: p in Incompatible ==> !(p.0 in flags && p.1 in flags)
  }

  /** The errors `validate` reports, one per incompatible pair, in the order it checks them. */
  datatype ValidationError =
    | Ec2WithEcs
    | Ec2WithJson
    | Ec2WithNoSession
    | EcsWithJson
    | EcsWithNoSession
    | EcsWithTerminalPrompt
    | Ec2WithTerminalPrompt
  {
    /** The two options the error names. */
    function Pair(): (Flag, Flag) {
      match this
      case Ec2WithEcs => (Ec2ServerFlag, EcsServerFlag)
      case Ec2WithJson => (Ec2ServerFlag, JsonFlag)
      case Ec2WithNoSession => (Ec2ServerFlag, NoSessionFlag)
      case EcsWithJson => (EcsServerFlag, JsonFlag)
      case EcsWithNoSession => (EcsServerFlag, NoSessionFlag)
      case EcsWithTerminalPrompt => (EcsServerFlag, TerminalPromptFlag)
      case Ec2WithTerminalPrompt => (Ec2ServerFlag, TerminalPromptFlag)
    }

    /** The position of the check that reports this error. */
    function Rank(): nat {
      match this
      case Ec2WithEcs => 0
      case Ec2WithJson => 1
      case Ec2WithNoSession => 2
      case EcsWithJson => 3
      case EcsWithNoSession => 4
      case EcsWithTerminalPrompt => 5
      case Ec2WithTerminalPrompt => 6
    }

    /** The text of the error. */
    function Message(): string {
      match this
      case Ec2WithEcs => "Can't use --ec2-server with --ecs-server"
      case Ec2WithJson => "Can't use --ec2-server with --json"
      case Ec2WithNoSession => "Can't use --ec2-server with --no-session"
      case EcsWithJson => "Can't use --ecs-server with --json"
      case EcsWithNoSession => "Can't use --ecs-server with --no-session"
      case EcsWithTerminalPrompt =>
        "Can't use --prompt=terminal with --ecs-server. Specify a different prompt driver"
      case Ec2WithTerminalPrompt =>
        "Can't use --prompt=terminal with --ec2-server. Specify a different prompt driver"
    }
  }

  /** Whether both options an error names are switched on. */
  predicate Raises(e: ValidationError, input: ExecCommandInput) {
    e.Pair().0 in FlagsOf(input) && e.Pair().1 in FlagsOf(input)
  }

  /**
   * Rejects incompatible option combinations. The error reported is the one
   * for the first violated rule in the order the checks run.
   */
  function Validate(input: ExecCommandInput): (r: Option<ValidationError>)
    ensures r.None? <==> Compatible(FlagsOf(input))
    ensures r.Some? ==> r.value.Pair() in Incompatible && Raises(r.value, input)
    ensures r.Some? ==> forall e: ValidationError :: e.Rank() < r.value.Rank() ==> !Raises(e, input)
  {
    if input.startEc2Server && input.startEcsServer then Some(Ec2WithEcs)
    else if input.startEc2Server && input.jsonDeprecated then Some(Ec2WithJson)
    else if input.startEc2Server && input.noSession then Some(Ec2WithNoSession)
    else if input.startEcsServer && input.jsonDeprecated then Some(EcsWithJson)
    else if input.startEcsServer && input.noSession then Some(EcsWithNoSession)
    else if input.startEcsServer && input.config.mfaPromptMethod == TerminalPrompt then Some(EcsWithTerminalPrompt)
    else if input.startEc2Server && input.config.mfaPromptMethod == TerminalPrompt then Some(Ec2WithTerminalPrompt)
    else None
  }

  /** Whether a credential server runs in the background of the subprocess. */
  function HasBackgroundServer(input: ExecCommandInput): (r: bool)
    ensures r <==> Ec2ServerFlag in FlagsOf(input) || EcsServerFlag in FlagsOf(input)
  {
    input.startEcsServer || input.startEc2Server
  }

  /**
   * The options are rejected exactly when a server is requested together with
   * the other server, --json, --no-session or the terminal prompt; in
   * particular, without a server every combination is accepted.
   */
  lemma ValidateRejectsOnlyWithServer(input: ExecCommandInput)
    ensures Validate(input).Some? <==>
      HasBackgroundServer(input)
      && (|| (input.startEc2Server && input.startEcsServer)
          || input.jsonDeprecated
          || input.noSession
          || input.config.mfaPromptMethod == TerminalPrompt)
    ensures !HasBackgroundServer(input) ==> Validate(input) == None
  {
  }

  /** Requesting both servers is always reported as that conflict, whatever else is set. */
  lemma ValidateRejectsBothServers(input: ExecCommandInput)
    requires input.startEc2Server && input.startEcsServer
    ensures Validate(input) == Some(Ec2WithEcs)
    ensures Validate(input).value.Message() == "Can't use --ec2-server with --ecs-server"
  {
  }
}
