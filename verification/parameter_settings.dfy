/**
 * The server parameters defined alongside the two commands: their state, their
 * `set` / `setFromString` validators, what each appends to a reply, and the
 * registry they form.
 */
module ParameterSettings {
  import opened Wrappers
  import opened ErrorCodes
  import opened Bson
  import opened SortedMap
  import opened TokenSplit
  import opened LogSettings
  import opened ParameterCommands

  /** The globals these parameters read and write. */
  datatype Globals = Globals(
    levels: Levels,
    readOnly: bool,
    isImplicitCreateCol: bool,
    automationServiceDescriptor: string,
    maxConns: Int32,
    maxInternalConns: Int32,
    allowCommands: seq<string>)

  /**
   * What the setters consult but this model does not compute: the parse of a
   * verbosity document, the service entry point's answer to a new connection
   * limit, and the set of commands that may be re-enabled.
   */
  datatype Environment = Environment(
    componentParse: ComponentParse,
    maxConnsAnswer: Status,
    maxInternalConnsAnswer: Status,
    disableCommands: set<string>)

  /** The longest `automationServiceDescriptor`, in bytes. */
  const MaxDescriptorSize: nat := 64

  // ---------------------------------------------------------------- boolean flags

  /** The only strings `setFromString` of a boolean flag accepts. */
  function ParseBool(s: string): (r: Option<bool>)
    ensures r.Some? <==> s == "true" || s == "false"
    ensures r.Some? ==> r.value == (s == "true")
  {
    if s == "true" then Some(true) else if s == "false" then Some(false) else None
  }

  function BoolText(b: bool): string {
    if b then "true" else "false"
  }

  lemma ParseBoolText(b: bool)
    ensures ParseBool(BoolText(b)) == Some(b)
  {
  }

  /** `ReadOnlySetting::set`: a Bool element only, otherwise BadValue and no change. */
  function SetReadOnly(g: Globals, e: Element): (r: Applied<Globals>)
    ensures r.status.IsOK() <==> e.EBool?
    ensures !r.status.IsOK() ==> r.status.code == BadValue && r.state == g
    ensures r.status.IsOK() ==> r.state.readOnly == e.b
    ensures r.state.(readOnly := g.readOnly) == g
  {
    if e.EBool? then Applied(Status(OK), g.(readOnly := e.b)) else Applied(Status(BadValue), g)
  }

  /** `ReadOnlySetting::setFromString`: exactly "true" or "false", otherwise BadValue and no change. */
  function SetReadOnlyFromString(g: Globals, s: string): (r: Applied<Globals>)
    ensures r.status.IsOK() <==> s == "true" || s == "false"
    ensures !r.status.IsOK() ==> r.status.code == BadValue && r.state == g
    ensures r.status.IsOK() ==> r.state.readOnly == (s == "true")
    ensures r.state.(readOnly := g.readOnly) == g
  {
    match ParseBool(s)
    case None => Applied(Status(BadValue), g)
    case Some(b) => Applied(Status(OK), g.(readOnly := b))
  }

  /** `IsImplicitCreateColSetting::set`: a Bool element only, otherwise BadValue and no change. */
  function SetImplicitCreateCol(g: Globals, e: Element): (r: Applied<Globals>)
    ensures r.status.IsOK() <==> e.EBool?
    ensures !r.status.IsOK() ==> r.status.code == BadValue && r.state == g
    ensures r.status.IsOK() ==> r.state.isImplicitCreateCol == e.b
    ensures r.state.(isImplicitCreateCol := g.isImplicitCreateCol) == g
  {
    if e.EBool? then Applied(Status(OK), g.(isImplicitCreateCol := e.b)) else Applied(Status(BadValue), g)
  }

  /** `IsImplicitCreateColSetting::setFromString`: exactly "true" or "false". */
  function SetImplicitCreateColFromString(g: Globals, s: string): (r: Applied<Globals>)
    ensures r.status.IsOK() <==> s == "true" || s == "false"
    ensures !r.status.IsOK() ==> r.status.code == BadValue && r.state == g
    ensures r.status.IsOK() ==> r.state.isImplicitCreateCol == (s == "true")
    ensures r.state.(isImplicitCreateCol := g.isImplicitCreateCol) == g
  {
    match ParseBool(s)
    case None => Applied(Status(BadValue), g)
    case Some(b) => Applied(Status(OK), g.(isImplicitCreateCol := b))
  }

  // ---------------------------------------------------------------- automationServiceDescriptor

  /** `AutomationServiceDescriptor::setFromString`: Overflow beyond 64 bytes, with no change. */
  function SetDescriptorFromString(g: Globals, s: string): (r: Applied<Globals>)
    ensures r.status.IsOK() <==> |s| <= MaxDescriptorSize
    ensures !r.status.IsOK() ==> r.status.code == Overflow && r.state == g
    ensures r.status.IsOK() ==> r.state.automationServiceDescriptor == s
    ensures r.state.(automationServiceDescriptor := g.automationServiceDescriptor) == g
  {
    if |s| > MaxDescriptorSize then Applied(Status(Overflow), g)
    else Applied(Status(OK), g.(automationServiceDescriptor := s))
  }

  /** `AutomationServiceDescriptor::set`: TypeMismatch for a non-string, else as from a string. */
  function SetDescriptor(g: Globals, e: Element): (r: Applied<Globals>)
    ensures !e.EString? ==> r == Applied(Status(TypeMismatch), g)
    ensures e.EString? ==> r == SetDescriptorFromString(g, e.s)
  {
    if !e.EString? then Applied(Status(TypeMismatch), g) else SetDescriptorFromString(g, e.s)
  }

  // ---------------------------------------------------------------- connection limits

  /**
   * `MaxIncomingConnectionsSetting::set`: BadValue for a non-number or a negative
   * number; the entry point's refusal as is; the global changes only when the entry
   * point accepts.
   */
  function SetMaxConns(g: Globals, e: Element, answer: Status): (r: Applied<Globals>)
    ensures r.status.IsOK() <==> e.EInt? && e.i >= 0 && answer.IsOK()
    ensures NonNegative(e).None? ==> r == Applied(Status(BadValue), g)
    ensures NonNegative(e).Some? && !answer.IsOK() ==> r == Applied(answer, g)
    ensures r.status.IsOK() ==> r.state.maxConns == e.i
    ensures r.state.(maxConns := g.maxConns) == g
  {
    match NonNegative(e)
    case None => Applied(Status(BadValue), g)
    case Some(n) => if !answer.IsOK() then Applied(answer, g) else Applied(Status(OK), g.(maxConns := n))
  }

  /** `MaxIncomingConnectionsSetting::setFromString`. */
  function SetMaxConnsFromString(g: Globals, parsed: NumberParse, answer: Status): (r: Applied<Globals>)
    ensures parsed.NotANumber? ==> r == Applied(parsed.status, g)
    ensures parsed.Number? ==> r == SetMaxConns(g, EInt(parsed.n), answer)
  {
    match parsed
    case NotANumber(st) => Applied(st, g)
    case Number(n) =>
      if n < 0 then Applied(Status(BadValue), g)
      else if !answer.IsOK() then Applied(answer, g)
      else Applied(Status(OK), g.(maxConns := n))
  }

  /** `MaxInternalIncomingConnectionsSetting::set`, the same rule for internal connections. */
  function SetMaxInternalConns(g: Globals, e: Element, answer: Status): (r: Applied<Globals>)
    ensures r.status.IsOK() <==> e.EInt? && e.i >= 0 && answer.IsOK()
    ensures NonNegative(e).None? ==> r == Applied(Status(BadValue), g)
    ensures NonNegative(e).Some? && !answer.IsOK() ==> r == Applied(answer, g)
    ensures r.status.IsOK() ==> r.state.maxInternalConns == e.i
    ensures r.state.(maxInternalConns := g.maxInternalConns) == g
  {
    match NonNegative(e)
    case None => Applied(Status(BadValue), g)
    case Some(n) => if !answer.IsOK() then Applied(answer, g) else Applied(Status(OK), g.(maxInternalConns := n))
  }

  /** `MaxInternalIncomingConnectionsSetting::setFromString`. */
  function SetMaxInternalConnsFromString(g: Globals, parsed: NumberParse, answer: Status): (r: Applied<Globals>)
    ensures parsed.NotANumber? ==> r == Applied(parsed.status, g)
    ensures parsed.Number? ==> r == SetMaxInternalConns(g, EInt(parsed.n), answer)
  {
    match parsed
    case NotANumber(st) => Applied(st, g)
    case Number(n) =>
      if n < 0 then Applied(Status(BadValue), g)
      else if !answer.IsOK() then Applied(answer, g)
      else Applied(Status(OK), g.(maxInternalConns := n))
  }

  // ---------------------------------------------------------------- allowCommands

  predicate AllDisabled(tokens: seq<string>, disabled: set<string>) {
    forall i :: 0 <= i < |tokens| ==> tokens[i] in disabled
  }

  /**
   * `AllowCommandSetting::setFromString`: split on ',' and ' '; BadValue and no
   * change unless every token names a disabled command.
   */
  function SetAllowCommandsFromString(g: Globals, s: string, disabled: set<string>): (r: Applied<Globals>)
    ensures r.status.IsOK() <==> AllDisabled(Split(s), disabled)
    ensures !r.status.IsOK() ==> r.status.code == BadValue && r.state == g
    ensures r.status.IsOK() ==> r.state.allowCommands == Split(s)
    ensures r.state.(allowCommands := g.allowCommands) == g
  {
    var tokens := Split(s);
    if !AllDisabled(tokens, disabled) then Applied(Status(BadValue), g)
    else Applied(Status(OK), g.(allowCommands := tokens))
  }

  /** `AllowCommandSetting::set`: a non-string element makes `String()` throw, answered with BadValue. */
  function SetAllowCommands(g: Globals, e: Element, disabled: set<string>): (r: Applied<Globals>)
    ensures !e.EString? ==> r == Applied(Status(BadValue), g)
    ensures e.EString? ==> r == SetAllowCommandsFromString(g, e.s, disabled)
  {
    if !e.EString? then Applied(Status(BadValue), g) else SetAllowCommandsFromString(g, e.s, disabled)
  }

  // ---------------------------------------------------------------- the registry

  const LogLevelName := "logLevel"
  const LogComponentVerbosityName := "logComponentVerbosity"
  const ReadOnlyName := "readOnly"
  const DescriptorName := "automationServiceDescriptor"
  const ImplicitCreateColName := "isImplicitCreateCol"
  const MaxConnsName := "maxIncomingConnections"
  const AllowCommandsName := "allowCommands"
  const MaxInternalConnsName := "maxInternalIncomingConnections"

  /** The registry entries of these parameters, in key order; all may change at runtime. */
  function FileRegistry(): Registry {
    [ Entry(AllowCommandsName, Parameter(true)),
      Entry(DescriptorName, Parameter(true)),
      Entry(ImplicitCreateColName, Parameter(true)),
      Entry(LogComponentVerbosityName, Parameter(true)),
      Entry(LogLevelName, Parameter(true)),
      Entry(MaxConnsName, Parameter(true)),
      Entry(MaxInternalConnsName, Parameter(true)),
      Entry(ReadOnlyName, Parameter(true)) ]
  }

  /** `ServerParameter::set` of the parameter registered under `name`. */
  function SetByName(env: Environment, g: Globals, name: string, e: Element): (r: Applied<Globals>)
  {
    if name == LogLevelName then
      var a := SetLogLevel(g.levels, e); Applied(a.status, g.(levels := a.state))
    else if name == LogComponentVerbosityName then
      var a := SetComponentVerbosity(g.levels, e, env.componentParse); Applied(a.status, g.(levels := a.state))
    else if name == ReadOnlyName then SetReadOnly(g, e)
    else if name == DescriptorName then SetDescriptor(g, e)
    else if name == ImplicitCreateColName then SetImplicitCreateCol(g, e)
    else if name == MaxConnsName then SetMaxConns(g, e, env.maxConnsAnswer)
    else if name == AllowCommandsName then SetAllowCommands(g, e, env.disableCommands)
    else if name == MaxInternalConnsName then SetMaxInternalConns(g, e, env.maxInternalConnsAnswer)
    else Applied(Status(InternalError), g)
  }

  /** The setter the command calls for each accepted parameter. */
  function Setter(env: Environment): (Globals, string, Element) -> Applied<Globals> {
    (g, name, e) => SetByName(env, g, name, e)
  }

  /**
   * `ServerParameter::append` of the parameter registered under `name`: the value it
   * adds to a reply, or None when it adds nothing.
   */
  function ShowByName(g: Globals, name: string): Option<Element> {
    if name == LogLevelName then Some(EInt(LogLevel(g.levels)))
    else if name == LogComponentVerbosityName then Some(EObject([Field("verbosity", EInt(LogLevel(g.levels)))]))
    else if name == ReadOnlyName then Some(EBool(g.readOnly))
    else if name == DescriptorName then
      (if g.automationServiceDescriptor == [] then None else Some(EString(g.automationServiceDescriptor)))
    else if name == ImplicitCreateColName then Some(EBool(g.isImplicitCreateCol))
    else if name == MaxConnsName then Some(EInt(g.maxConns))
    else if name == AllowCommandsName then Some(EString(Join(g.allowCommands, ',')))
    else if name == MaxInternalConnsName then Some(EInt(g.maxInternalConns))
    else None
  }

  /** Every setter leaves the globals unchanged when it reports an error. */
  lemma SetByNameKeepsOnError(env: Environment, g: Globals, name: string, e: Element)
    ensures !SetByName(env, g, name, e).status.IsOK() ==> SetByName(env, g, name, e).state == g
  {
    if name == LogLevelName {
      var a := SetLogLevel(g.levels, e);
      assert !a.status.IsOK() ==> a.state == g.levels;
    } else if name == LogComponentVerbosityName {
      var a := SetComponentVerbosity(g.levels, e, env.componentParse);
      assert !a.status.IsOK() ==> a.state == g.levels;
    }
  }

  // ---------------------------------------------------------------- get after set

  /** A successful `logLevel` set is what `getParameter` then reports. */
  lemma LogLevelRoundTrip(env: Environment, g: Globals, n: Int32)
    requires n >= 0
    ensures SetByName(env, g, LogLevelName, EInt(n)).status.IsOK()
    ensures ShowByName(SetByName(env, g, LogLevelName, EInt(n)).state, LogLevelName) == Some(EInt(n))
  {
  }

  /** A boolean flag shows the value it was set to. */
  lemma ReadOnlyRoundTrip(env: Environment, g: Globals, b: bool)
    ensures ShowByName(SetByName(env, g, ReadOnlyName, EBool(b)).state, ReadOnlyName) == Some(EBool(b))
    ensures ShowByName(SetByName(env, g, ImplicitCreateColName, EBool(b)).state, ImplicitCreateColName) == Some(EBool(b))
  {
  }

  /** A stored descriptor is shown back unless it is empty, in which case nothing is appended. */
  lemma DescriptorRoundTrip(env: Environment, g: Globals, s: string)
    requires |s| <= MaxDescriptorSize
    ensures ShowByName(SetByName(env, g, DescriptorName, EString(s)).state, DescriptorName)
            == (if s == [] then None else Some(EString(s)))
  {
  }

  /**
   * An accepted command list is shown joined with ',', which is the input with every
   * delimiter written as ','.
   */
  lemma {:induction false} AllowCommandsRoundTrip(env: Environment, g: Globals, s: string)
    requires AllDisabled(Split(s), env.disableCommands)
    ensures ShowByName(SetByName(env, g, AllowCommandsName, EString(s)).state, AllowCommandsName)
            == Some(EString(Normalize(s)))
  {
    JoinSplit(s);
  }

  /**
   * The split keeps empty tokens: "find, insert" has one between ',' and ' ', so it is
   * refused unless the empty name is itself a disabled command.
   */
  lemma CommaSpaceKeepsEmptyToken(g: Globals, disabled: set<string>, a: string, b: string)
    requires NoDelimiter(a) && NoDelimiter(b)
    ensures Split(a + ", " + b) == [a, "", b]
    ensures "" !in disabled ==> SetAllowCommandsFromString(g, a + ", " + b, disabled) == Applied(Status(BadValue), g)
  {
    var u := [' '] + b;
    assert a + ", " + b == a + [','] + u;
    SplitTokenThenRest(a, u);
    SplitToken(b);
    assert u[0] == ' ' && u[1..] == b;
    assert Split(u) == [""] + Split(b);
    assert Split(a + ", " + b)[1] == "";
  }

  // ---------------------------------------------------------------- scenarios

  /** `{setParameter: 1, readOnly: 5, logLevel: 2}` */
  function NoRollbackCommand(): seq<Field> {
    [Field("setParameter", EInt(1)), Field(ReadOnlyName, EInt(5)), Field(LogLevelName, EInt(2))]
  }

  lemma RegistryHolds()
    ensures Find(FileRegistry(), ReadOnlyName) == Some(Parameter(true))
    ensures Find(FileRegistry(), LogLevelName) == Some(Parameter(true))
  {
  }

  lemma NoRollbackCollects()
    ensures Insert([], ReadOnlyName, EInt(5)) == [Entry(ReadOnlyName, EInt(5))]
    ensures Find([Entry(ReadOnlyName, EInt(5))], LogLevelName).None?
    ensures Insert([Entry(ReadOnlyName, EInt(5))], LogLevelName, EInt(2))
            == [Entry(LogLevelName, EInt(2)), Entry(ReadOnlyName, EInt(5))]
  {
    assert StringOrder.Less(LogLevelName, ReadOnlyName);
  }

  lemma NoRollbackValidates()
    ensures Validate(FileRegistry(), {}, NoRollbackCommand()[1..])
            == Success([Entry(LogLevelName, EInt(2)), Entry(ReadOnlyName, EInt(5))])
  {
    var args := NoRollbackCommand()[1..];
    assert args == [Field(ReadOnlyName, EInt(5)), Field(LogLevelName, EInt(2))];
    var reg := FileRegistry();
    RegistryHolds();
    NoRollbackCollects();
    var acc := [Entry(ReadOnlyName, EInt(5))];
    var final := [Entry(LogLevelName, EInt(2)), Entry(ReadOnlyName, EInt(5))];
    assert ValidateFrom(reg, {}, args, 2, final) == Success(final);
    assert ValidateFrom(reg, {}, args, 1, acc) == ValidateFrom(reg, {}, args, 2, final);
    assert ValidateFrom(reg, {}, args, 0, []) == ValidateFrom(reg, {}, args, 1, acc);
  }

  lemma NoRollbackSteps(env: Environment, g: Globals)
    ensures var a := SetByName(env, g, LogLevelName, EInt(2));
      && a.status.IsOK() && LogLevel(a.state.levels) == 2
      && SetByName(env, a.state, ReadOnlyName, EInt(5)) == Applied(Status(BadValue), a.state)
  {
  }

  /**
   * "logLevel" sorts before "readOnly", so it is set first and stays set when the
   * non-Bool `readOnly` value then fails the command.
   */
  lemma NoRollbackExample(env: Environment, g: Globals)
    ensures var r := SetParameter(FileRegistry(), {}, NoRollbackCommand(), g, Setter(env), ShowByName);
      && r.reply == SetFailed(Status(BadValue))
      && LogLevel(r.state.levels) == 2
      && r.state.readOnly == g.readOnly
  {
    NoRollbackValidates();
    NoRollbackSteps(env, g);
    RegistryHolds();
    ApplyTwoStops(FileRegistry(), Entry(LogLevelName, EInt(2)), Entry(ReadOnlyName, EInt(5)), g, Setter(env), ShowByName);
  }

  /** `getParameter` naming only an empty descriptor appends nothing and so fails. */
  lemma EmptyDescriptorGetFails(g: Globals)
    requires g.automationServiceDescriptor == []
    ensures GetParameter(FileRegistry(), [Field("getParameter", EInt(1)), Field(DescriptorName, EInt(1))], g, ShowByName)
            == NothingToGet
  {
    var cmd := [Field("getParameter", EInt(1)), Field(DescriptorName, EInt(1))];
    var reg := FileRegistry();
    forall i | 0 <= i < |reg| && Selected(cmd, reg[i].key) ensures ShowByName(g, reg[i].key).None? {
      assert !SelectsAll(cmd);
      var k :| 0 <= k < |cmd| && cmd[k].name == reg[i].key;
    }
  }
}
