/**
 * The `logLevel` and `logComponentVerbosity` parameters: both write minimum log
 * severities of the global log domain, per log component.
 */
module LogSettings {
  import opened Wrappers
  import opened ErrorCodes
  import opened Bson

  /** `LogSeverity::Log()` and `LogSeverity::Debug(n)` for n > 0. */
  datatype Severity = Log | Debug(level: Int32)

  /** `LogSeverity::toInt`. */
  function ToInt(sev: Severity): Int32 {
    match sev
    case Log => 0
    case Debug(n) => n
  }

  /** `n > 0 ? Debug(n) : Log()`, the mapping both parameters use for a level n >= 0. */
  function SeverityOf(n: Int32): (sev: Severity)
    requires n >= 0
    ensures ToInt(sev) == n
    ensures sev.Log? <==> n == 0
  {
    if n > 0 then Debug(n) else Log
  }

  /** A log component; Default is the one the top-level "verbosity" and `logLevel` address. */
  datatype Component = Default | Named(name: string)

  /** The components that have a minimum severity of their own. */
  type Levels = map<Component, Severity>

  /** `getMinimumLogSeverity()` of the default component; Log() when it has none. */
  function LogLevel(levels: Levels): Int32 {
    if Default in levels then ToInt(levels[Default]) else 0
  }

  /** A coerced value for a setting that takes a level or count >= 0; None is BadValue. */
  function NonNegative(e: Element): (r: Option<Int32>)
    ensures r.Some? <==> e.EInt? && e.i >= 0
    ensures r.Some? ==> r.value == e.i
  {
    match CoerceInt(e)
    case None => None
    case Some(n) => if n < 0 then None else Some(n)
  }

  /**
   * `LogLevelSetting::set`: BadValue for a value that is not a number or is negative,
   * leaving the levels alone; otherwise the default component gets Log() for 0 and
   * Debug(n) for n > 0.
   */
  function SetLogLevel(levels: Levels, e: Element): (r: Applied<Levels>)
    ensures r.status.IsOK() <==> e.EInt? && e.i >= 0
    ensures !r.status.IsOK() ==> r.status.code == BadValue && r.state == levels
    ensures r.status.IsOK() ==> LogLevel(r.state) == e.i && Default in r.state
    ensures r.status.IsOK() ==> (r.state[Default].Log? <==> e.i == 0)
    ensures forall c :: c != Default ==> (c in r.state <==> c in levels) && (c in levels ==> r.state[c] == levels[c])
  {
    match NonNegative(e)
    case None => Applied(Status(BadValue), levels)
    case Some(n) => Applied(Status(OK), levels[Default := SeverityOf(n)])
  }

  /** What `parseNumberFromString` made of a string: a number or its error status. */
  datatype NumberParse = Number(n: Int32) | NotANumber(status: ErrorStatus)

  /**
   * `LogLevelSetting::setFromString`: the parser's error as is, BadValue for a
   * negative number, otherwise the same change as `set`.
   */
  function SetLogLevelFromString(levels: Levels, parsed: NumberParse): (r: Applied<Levels>)
    ensures parsed.NotANumber? ==> r == Applied(parsed.status, levels)
    ensures parsed.Number? && parsed.n < 0 ==> r == Applied(Status(BadValue), levels)
    ensures parsed.Number? && parsed.n >= 0 ==> r == SetLogLevel(levels, EInt(parsed.n))
  {
    match parsed
    case NotANumber(st) => Applied(st, levels)
    case Number(n) =>
      if n < 0 then Applied(Status(BadValue), levels)
      else Applied(Status(OK), levels[Default := SeverityOf(n)])
  }

  /** One entry of the parsed verbosity document: a component and its level. */
  datatype ComponentSetting = ComponentSetting(component: Component, level: Int32)

  /** A negative level clears the component's own severity; n >= 0 sets Log()/Debug(n). */
  function ApplySetting(levels: Levels, setting: ComponentSetting): Levels {
    if setting.level < 0 then levels - {setting.component}
    else levels[setting.component := SeverityOf(setting.level)]
  }

  /** The loop of `LogComponentVerbositySetting::_set`, in document order. */
  function ApplySettings(levels: Levels, settings: seq<ComponentSetting>): Levels
    decreases |settings|
  {
    if settings == [] then levels else ApplySettings(ApplySetting(levels, settings[0]), settings[1..])
  }

  /** The effect on `c` of the last setting that names it. */
  predicate HasEffect(levels: Levels, c: Component, s: ComponentSetting) {
    if s.level < 0 then c !in levels else c in levels && ToInt(levels[c]) == s.level
  }

  /**
   * The last setting naming a component decides it; a component no setting names
   * keeps whatever it had.
   */
  lemma {:induction false} LastSettingWins(levels: Levels, settings: seq<ComponentSetting>, c: Component)
    ensures var r := ApplySettings(levels, settings);
      && (forall k :: 0 <= k < |settings| && settings[k].component == c
                      && (forall j :: k < j < |settings| ==> settings[j].component != c)
                      ==> HasEffect(r, c, settings[k]))
      && ((forall j :: 0 <= j < |settings| ==> settings[j].component != c) ==>
            (c in r <==> c in levels) && (c in levels ==> r[c] == levels[c]))
    decreases |settings|
  {
    if settings != [] {
      var next := ApplySetting(levels, settings[0]);
      LastSettingWins(next, settings[1..], c);
      var r := ApplySettings(levels, settings);
      forall k | 0 <= k < |settings| && settings[k].component == c
                 && (forall j :: k < j < |settings| ==> settings[j].component != c)
        ensures HasEffect(r, c, settings[k])
      {
        if k > 0 {
          assert settings[1..][k - 1] == settings[k];
        } else {
          assert forall j :: 0 <= j < |settings[1..]| ==> settings[1..][j].component != c by {
            forall j | 0 <= j < |settings[1..]| ensures settings[1..][j].component != c {
              assert settings[1..][j] == settings[j + 1];
            }
          }
        }
      }
      if forall j :: 0 <= j < |settings| ==> settings[j].component != c {
        assert forall j :: 0 <= j < |settings[1..]| ==> settings[1..][j].component != c by {
          forall j | 0 <= j < |settings[1..]| ensures settings[1..][j].component != c {
            assert settings[1..][j] == settings[j + 1];
          }
        }
      }
    }
  }

  /** What `parseLogComponentSettings` made of the document: settings or its error status. */
  datatype ComponentParse = Parsed(settings: seq<ComponentSetting>) | ParseFailed(status: ErrorStatus)

  /**
   * `LogComponentVerbositySetting::set`: TypeMismatch unless `isABSONObj()` holds (an
   * object or an array, both `EObject`); the parser's
   * error as is; otherwise the parsed settings applied in order.
   */
  function SetComponentVerbosity(levels: Levels, e: Element, parsed: ComponentParse): (r: Applied<Levels>)
    ensures !e.EObject? ==> r == Applied(Status(TypeMismatch), levels)
    ensures e.EObject? && parsed.ParseFailed? ==> r == Applied(parsed.status, levels)
    ensures r.status.IsOK() <==> e.EObject? && parsed.Parsed?
    ensures r.status.IsOK() ==> r.state == ApplySettings(levels, parsed.settings)
  {
    if !e.EObject? then Applied(Status(TypeMismatch), levels)
    else match parsed
      case ParseFailed(st) => Applied(st, levels)
      case Parsed(settings) => Applied(Status(OK), ApplySettings(levels, settings))
  }

  /**
   * `LogComponentVerbositySetting::setFromString`: the JSON text is parsed into a
   * document first; `parsed` carries the error of either parse, which is returned as
   * is, and otherwise the same change as `set` of an object.
   */
  function SetComponentVerbosityFromString(levels: Levels, parsed: ComponentParse): (r: Applied<Levels>)
    ensures parsed.ParseFailed? ==> r == Applied(parsed.status, levels)
    ensures forall fields :: r == SetComponentVerbosity(levels, EObject(fields), parsed)
  {
    match parsed
    case ParseFailed(st) => Applied(st, levels)
    case Parsed(settings) => Applied(Status(OK), ApplySettings(levels, settings))
  }
}
