/**
 * The request decision of `get_device_output` (app/commands.py:91-143): the
 * device lookup, the two permission gates, the catalog lookup, variable
 * normalisation and validation, and the building of the one command string
 * handed to the driver. The driver call itself is a parameter.
 */
module Requests {
  import opened Results
  import opened Values
  import opened Groups
  import opened Devices
  import opened Variables
  import opened Templates
  import opened Output

  /** A catalog entry: an empty (falsy) one, or a template with its declared variables. */
  datatype CommandEntry = Empty | Spec(template: string, variables: seq<VariableSpec>)

  type Catalog = map<string, CommandEntry>

  /** Why a request does not reach the driver. */
  datatype Error =
    | DeviceNotFound
    | CommandNotAllowed
    | CommandDisallowed
    | CommandNotFound
    | MissingRequiredVariable(name: string)
    | MissingOrInvalidVariable(name: string)
    | FormattingError(fault: Fault)
    | VariablesRequiredButNoneProvided
    | PositionalField(field: string)   // the IndexError of `{}` or `{0}`, which escapes the method
    | UnmodelledField(field: string)   // a field form outside the modelled format language

  /** The four rejections decided before the variables are looked at. */
  predicate GateError(e: Error) {
    e.DeviceNotFound? || e.CommandNotAllowed? || e.CommandDisallowed? || e.CommandNotFound?
  }

  /** Errors the method returns as `{"error": ...}`. */
  predicate Reported(e: Error) {
    !e.PositionalField? && !e.UnmodelledField?
  }

  /** Python's `repr` of a string, for names without escapes. */
  function Repr(s: string): string {
    if '\'' in s && '"' !in s then "\"" + s + "\"" else "'" + s + "'"
  }

  /** The text of the `error` entry for each reported error. */
  function Message(e: Error): string
    requires Reported(e)
  {
    match e
    case DeviceNotFound => "Device not found"
    case CommandNotAllowed => "Command not allowed"
    case CommandDisallowed => "Command disallowed"
    case CommandNotFound => "Command not found"
    case MissingRequiredVariable(n) => "Missing required variable: " + n
    case MissingOrInvalidVariable(n) => "Missing or invalid variable: " + Repr(n)
    case FormattingError(f) => "Command formatting error: " + FaultText(f)
    case VariablesRequiredButNoneProvided => "Command requires variables but none provided"
  }

  /** The reply's first, ninth and thirteenth characters, which tell the eight reply kinds apart. */
  function Marks(m: string): (char, char, char)
    requires |m| > 12
  {
    (m[0], m[8], m[12])
  }

  /** Prefix cancellation for the replies that carry a name or a message. */
  lemma CancelPrefix(p: string, a: string, b: string)
    requires p + a == p + b
    ensures a == b
  {
    assert a == (p + a)[|p|..];
    assert b == (p + b)[|p|..];
  }

  /** `repr` loses nothing: the quoted name determines the name. */
  lemma ReprInjective(a: string, b: string)
    requires Repr(a) == Repr(b)
    ensures a == b
  {
    assert Repr(a)[1..|Repr(a)| - 1] == a;
    assert Repr(b)[1..|Repr(b)| - 1] == b;
  }

  /** The five ValueError messages differ. */
  lemma FaultTextInjective(f: Fault, g: Fault)
    requires FaultText(f) == FaultText(g)
    ensures f == g
  {
    var m := FaultText(f);
    assert |m| > 8;
    assert (m[0], m[8]) == (FaultText(g)[0], FaultText(g)[8]);
  }

  /** The marks each kind of reply carries. */
  function Expected(e: Error): (char, char, char)
    requires Reported(e)
  {
    match e
    case DeviceNotFound => ('D', 'o', 'o')
    case CommandNotAllowed => ('C', 'n', 'a')
    case CommandDisallowed => ('C', 'd', 'l')
    case CommandNotFound => ('C', 'n', 'f')
    case MissingRequiredVariable(_) => ('M', 'r', 'i')
    case MissingOrInvalidVariable(_) => ('M', 'o', 'n')
    case FormattingError(_) => ('C', 'f', 'a')
    case VariablesRequiredButNoneProvided => ('C', 'r', 'i')
  }

  /** The marks of a reply that starts with a fixed text are those of that text. */
  lemma MarksOfPrefix(p: string, rest: string)
    requires |p| > 12
    ensures |p + rest| > 12 && Marks(p + rest) == Marks(p)
  {
  }

  /** The marks of the five fixed replies. */
  lemma FixedMarks()
    ensures Marks("Device not found") == ('D', 'o', 'o')
    ensures Marks("Command not allowed") == ('C', 'n', 'a')
    ensures Marks("Command disallowed") == ('C', 'd', 'l')
    ensures Marks("Command not found") == ('C', 'n', 'f')
    ensures Marks("Command requires variables but none provided") == ('C', 'r', 'i')
  {
  }

  /** The replies that carry a name or a formatting message. */
  lemma NamedMessageMarks(e: Error)
    requires e.MissingRequiredVariable? || e.MissingOrInvalidVariable? || e.FormattingError?
    ensures |Message(e)| > 12 && Marks(Message(e)) == Expected(e)
  {
    match e
    case MissingRequiredVariable(n) => MarksOfPrefix("Missing required variable: ", n);
    case MissingOrInvalidVariable(n) => MarksOfPrefix("Missing or invalid variable: ", Repr(n));
    case FormattingError(f) => MarksOfPrefix("Command formatting error: ", FaultText(f));
  }

  /** The replies whose text is fixed. */
  lemma FixedMessageMarks(e: Error)
    requires Reported(e) && !e.MissingRequiredVariable? && !e.MissingOrInvalidVariable? && !e.FormattingError?
    ensures |Message(e)| > 12 && Marks(Message(e)) == Expected(e)
  {
    FixedMarks();
  }

  lemma MessageMarks(e: Error)
    requires Reported(e)
    ensures |Message(e)| > 12 && Marks(Message(e)) == Expected(e)
  {
    if e.MissingRequiredVariable? || e.MissingOrInvalidVariable? || e.FormattingError? {
      NamedMessageMarks(e);
    } else {
      FixedMessageMarks(e);
    }
  }

  /**
   * Each reported error has its own reply text, so a client reading only the
   * `error` entry knows which check refused the request, and with which name
   * or formatting fault.
   */
  lemma MessagesIdentifyErrors(e1: Error, e2: Error)
    requires Reported(e1) && Reported(e2)
    requires Message(e1) == Message(e2)
    ensures e1 == e2
  {
    MessageMarks(e1);
    MessageMarks(e2);
    match e1
    case MissingRequiredVariable(n) =>
      CancelPrefix("Missing required variable: ", n, e2.name);
    case MissingOrInvalidVariable(n) =>
      CancelPrefix("Missing or invalid variable: ", Repr(n), Repr(e2.name));
      ReprInjective(n, e2.name);
    case FormattingError(f) =>
      CancelPrefix("Command formatting error: ", FaultText(f), FaultText(e2.fault));
      FaultTextInjective(f, e2.fault);
    case _ =>
  }

  /** Every entry of a registry has a name and list-valued command sets. */
  predicate Registry(devices: seq<Settings>) {
    forall i :: 0 <= i < |devices| ==> Registered(devices[i])
  }

  /** `d['name'] == device_name`. */
  predicate Named(d: Settings, n: string)
    requires NAME in d
  {
    d[NAME] == Str(n)
  }

  /** Entry `i` is the first with the requested name. */
  predicate FirstNamed(devices: seq<Settings>, n: string, i: int)
    requires Registry(devices)
  {
    && 0 <= i < |devices|
    && Named(devices[i], n)
    && forall j :: 0 <= j < i ==> !Named(devices[j], n)
  }

  /** The linear scan of line 94, from position `from` on. */
  function FindFrom(devices: seq<Settings>, n: string, from: nat): (r: Option<nat>)
    requires Registry(devices) && from <= |devices|
    ensures r.None? <==> forall i :: from <= i < |devices| ==> !Named(devices[i], n)
    ensures r.Some? ==> from <= r.value < |devices| && Named(devices[r.value], n)
    ensures r.Some? ==> forall j :: from <= j < r.value ==> !Named(devices[j], n)
    decreases |devices| - from
  {
    if from == |devices| then None
    else if Named(devices[from], n) then Some(from)
    else FindFrom(devices, n, from + 1)
  }

  /** Line 94: the first device with the name, if any. */
  function FindDevice(devices: seq<Settings>, n: string): (r: Option<nat>)
    requires Registry(devices)
    ensures r.None? <==> forall i :: 0 <= i < |devices| ==> !Named(devices[i], n)
    ensures r.Some? ==> FirstNamed(devices, n, r.value)
  {
    FindFrom(devices, n, 0)
  }

  /** Lines 128-138 with variables present: formatting errors become request errors. */
  function Substitute(template: string, cleaned: map<string, string>): (r: Result<string, Error>)
    ensures r.Failure? ==> !GateError(r.error) && !r.error.MissingRequiredVariable? && !r.error.VariablesRequiredButNoneProvided?
    ensures r.Failure? && r.error.MissingOrInvalidVariable? ==> r.error.name !in cleaned
    ensures (forall i :: 0 <= i < |template| ==> !Brace(template[i])) ==> r == Success(template)
    ensures Format(template, cleaned).Success? ==> r == Success(Format(template, cleaned).value)
    ensures Format(template, cleaned).Failure? && Format(template, cleaned).error.Malformed? ==>
              r == Failure(FormattingError(Format(template, cleaned).error.fault))
    ensures Format(template, cleaned).Failure? && Format(template, cleaned).error.Missing? ==>
              r == Failure(MissingOrInvalidVariable(Format(template, cleaned).error.name))
    ensures Format(template, cleaned).Failure? && Format(template, cleaned).error.Positional? ==>
              r == Failure(PositionalField(Format(template, cleaned).error.field))
    ensures Format(template, cleaned).Failure? && Format(template, cleaned).error.Unmodelled? ==>
              r == Failure(UnmodelledField(Format(template, cleaned).error.field))
  {
    if forall i :: 0 <= i < |template| ==> !Brace(template[i]) then LiteralTemplate(template, cleaned); Success(template)
    else
      match Format(template, cleaned)
      case Success(command) => Success(command)
      case Failure(Missing(n)) => Failure(MissingOrInvalidVariable(n))
      case Failure(Malformed(f)) => Failure(FormattingError(f))
      case Failure(Positional(f)) => Failure(PositionalField(f))
      case Failure(Unmodelled(f)) => Failure(UnmodelledField(f))
  }

  /**
   * Lines 110-142 for a catalogued command: normalise and validate the
   * variables when some were sent, then fill in the template; with no
   * variables the template is sent as written unless it holds both braces.
   */
  function Build(entry: CommandEntry, vars: Pairs): (r: Result<string, Error>)
    requires entry.Spec? && DistinctKeys(vars)
    ensures r.Failure? ==> !GateError(r.error)
    ensures vars == [] ==> (r.Failure? <==> '{' in entry.template && '}' in entry.template)
    ensures vars == [] && r.Failure? ==> r.error == VariablesRequiredButNoneProvided
    ensures vars == [] && r.Success? ==> r.value == entry.template
    ensures vars != [] ==> r != Failure(VariablesRequiredButNoneProvided)
    ensures vars != [] && FirstMissing(entry.variables, Normalise(vars)).Some? ==>
              r == Failure(MissingRequiredVariable(FirstMissing(entry.variables, Normalise(vars)).value))
    ensures r.Failure? && r.error.MissingRequiredVariable? ==>
              vars != [] && exists i :: FirstLacking(entry.variables, Normalise(vars), i) && entry.variables[i].name == r.error.name
    ensures r.Failure? && r.error.MissingOrInvalidVariable? ==>
              vars != [] && r.error.name !in Normalise(vars) && FirstMissing(entry.variables, Normalise(vars)).None?
    ensures vars != [] && FirstMissing(entry.variables, Normalise(vars)).None? ==>
              r == Substitute(entry.template, Normalise(vars))
  {
    if vars != [] then
      var cleaned := Normalise(vars);
      match FirstMissing(entry.variables, cleaned)
      case Some(n) => Failure(MissingRequiredVariable(n))
      case None => Substitute(entry.template, cleaned)
    else if '{' in entry.template && '}' in entry.template then Failure(VariablesRequiredButNoneProvided)
    else Success(entry.template)
  }

  /** The command may run on the device: allowed and not disallowed. */
  predicate Permitted(d: Settings, command: string)
    requires ListsTyped(d)
  {
    command in Allowed(d) && command !in Disallowed(d)
  }

  /** The catalog has a usable entry for the command (line 106). */
  predicate Catalogued(catalog: Catalog, command: string) {
    command in catalog && catalog[command].Spec?
  }

  /**
   * `get_device_output` up to the driver call (lines 91-143). The gates fire
   * in the source's order: unknown device, command not allowed, command
   * disallowed, command not in the catalog; only a request that passes all
   * four reaches variable handling, and the command string it yields is built
   * from the catalog entry of the requested command.
   */
  function Decide(devices: seq<Settings>, catalog: Catalog, deviceName: string, command: string, vars: Pairs): (r: Result<string, Error>)
    requires Registry(devices) && DistinctKeys(vars)
    ensures r == Failure(DeviceNotFound) <==> forall i :: 0 <= i < |devices| ==> !Named(devices[i], deviceName)
    ensures forall i :: FirstNamed(devices, deviceName, i) ==>
              (r == Failure(CommandNotAllowed) <==> command !in Allowed(devices[i]))
    ensures forall i :: FirstNamed(devices, deviceName, i) ==>
              (r == Failure(CommandDisallowed) <==> command in Allowed(devices[i]) && command in Disallowed(devices[i]))
    ensures forall i :: FirstNamed(devices, deviceName, i) && Permitted(devices[i], command) ==>
              (r == Failure(CommandNotFound) <==> !Catalogued(catalog, command))
    ensures !r.Failure? || !GateError(r.error) ==>
              exists i :: FirstNamed(devices, deviceName, i) && Permitted(devices[i], command) &&
                Catalogued(catalog, command) && r == Build(catalog[command], vars)
  {
    match FindDevice(devices, deviceName)
    case None => Failure(DeviceNotFound)
    case Some(i) =>
      var d := devices[i];
      if command !in Allowed(d) then Failure(CommandNotAllowed)
      else if command in Disallowed(d) then Failure(CommandDisallowed)
      else if !Catalogued(catalog, command) then Failure(CommandNotFound)
      else Build(catalog[command], vars)
  }

  /**
   * The `Command disallowed` branch (lines 101-103) cannot be taken on a
   * registry whose devices keep their allowed and disallowed sets apart,
   * because the allow gate runs first.
   */
  lemma DisallowedNeverFires(devices: seq<Settings>, catalog: Catalog, deviceName: string, command: string, vars: Pairs)
    requires Registry(devices) && DistinctKeys(vars)
    requires forall i :: 0 <= i < |devices| ==> Allowed(devices[i]) !! Disallowed(devices[i])
    ensures Decide(devices, catalog, deviceName, command, vars) != Failure(CommandDisallowed)
  {
    match FindDevice(devices, deviceName)
    case None =>
    case Some(i) =>
  }

  /** Every registry `process_devices` builds is such a registry, so the branch is dead code. */
  lemma DisallowedIsDeadCode(groups: GroupTable, config: seq<Settings>, catalog: Catalog, deviceName: string, command: string, vars: Pairs)
    requires ConfigTyped(groups, config) && DistinctKeys(vars)
    requires ProcessDevices(groups, config).Success?
    ensures Registry(ProcessDevices(groups, config).value)
    ensures Decide(ProcessDevices(groups, config).value, catalog, deviceName, command, vars) != Failure(CommandDisallowed)
  {
    DisallowedNeverFires(ProcessDevices(groups, config).value, catalog, deviceName, command, vars);
  }

  /** The commands the device page offers (app/routes.py:24-28). */
  function OfferedCommands(d: Settings, catalog: Catalog): (r: Catalog)
    requires ListsTyped(d)
    ensures forall k :: k in r <==> k in catalog && Permitted(d, k)
    ensures forall k :: k in r ==> r[k] == catalog[k]
  {
    map k | k in catalog && Permitted(d, k) :: catalog[k]
  }

  /**
   * An offered command passes every gate of the request path on the same
   * device, except that an offered command with an empty catalog entry is
   * then reported as not found.
   */
  lemma OfferedCommandsPassGates(devices: seq<Settings>, catalog: Catalog, deviceName: string, command: string, vars: Pairs, i: nat)
    requires Registry(devices) && DistinctKeys(vars)
    requires FirstNamed(devices, deviceName, i)
    requires command in OfferedCommands(devices[i], catalog)
    ensures catalog[command].Spec? ==> Decide(devices, catalog, deviceName, command, vars) == Build(catalog[command], vars)
    ensures catalog[command].Empty? ==> Decide(devices, catalog, deviceName, command, vars) == Failure(CommandNotFound)
  {
    assert FindDevice(devices, deviceName) == Some(i);
  }

  /** What `get_device_output` returns. */
  datatype Response =
    | Reply(output: string)          // {"output": ...}
    | ErrorReply(message: string)    // {"error": ...}
    | Raised(field: string)          // an IndexError propagates to the caller
    | OutsideModel(field: string)    // a template field form this model leaves out

  /** The response for a request refused before the driver is reached. */
  function Refusal(e: Error): (r: Response)
    ensures r.ErrorReply? <==> Reported(e)
    ensures r.ErrorReply? ==> r.message == Message(e)
    ensures r.Raised? <==> e.PositionalField?
  {
    if Reported(e) then ErrorReply(Message(e))
    else if e.PositionalField? then Raised(e.field)
    else OutsideModel(e.field)
  }

  /** The driver: given the device's settings and the command, its answer or the text of the exception it raised. */
  type Driver = (Settings, string) -> Result<Raw, string>

  /**
   * `get_device_output` as a whole (lines 91-162). The driver is consulted
   * only when the request decision succeeds; its failure becomes an error
   * reply carrying the exception's text.
   */
  function Execute(devices: seq<Settings>, catalog: Catalog, deviceName: string, command: string, vars: Pairs,
                   driver: Driver, stringify: Raw -> string): (r: Response)
    requires Registry(devices) && DistinctKeys(vars)
    ensures Decide(devices, catalog, deviceName, command, vars).Failure? ==>
              r == Refusal(Decide(devices, catalog, deviceName, command, vars).error)
    ensures Decide(devices, catalog, deviceName, command, vars).Success? ==>
              exists i :: FirstNamed(devices, deviceName, i) &&
                var sent := Decide(devices, catalog, deviceName, command, vars).value;
                match driver(devices[i], sent)
                case Failure(text) => r == ErrorReply(text)
                case Success(raw) => r == Reply(Shape(raw, sent, stringify))
  {
    match Decide(devices, catalog, deviceName, command, vars)
    case Failure(e) => Refusal(e)
    case Success(sent) =>
      var i := FindDevice(devices, deviceName).value;
      match driver(devices[i], sent)
      case Failure(text) => ErrorReply(text)
      case Success(raw) => Reply(Shape(raw, sent, stringify))
  }

  /** A refused request gives the same response whatever the driver would do: no session is opened. */
  lemma RefusalNeverDispatches(devices: seq<Settings>, catalog: Catalog, deviceName: string, command: string, vars: Pairs,
                               d1: Driver, d2: Driver, stringify: Raw -> string)
    requires Registry(devices) && DistinctKeys(vars)
    requires Decide(devices, catalog, deviceName, command, vars).Failure?
    ensures Execute(devices, catalog, deviceName, command, vars, d1, stringify) ==
            Execute(devices, catalog, deviceName, command, vars, d2, stringify)
  {
  }

  /**
   * The web form (`variables[ip]`) and the API (`ip`) reach the same
   * decision for the same plain variable names.
   */
  lemma FormAndApiRequestsAgree(devices: seq<Settings>, catalog: Catalog, deviceName: string, command: string, vars: Pairs)
    requires Registry(devices) && DistinctKeys(vars)
    requires forall i :: 0 <= i < |vars| ==> PlainName(vars[i].0)
    ensures DistinctKeys(WrapAll(vars))
    ensures Decide(devices, catalog, deviceName, command, WrapAll(vars)) == Decide(devices, catalog, deviceName, command, vars)
  {
    FormAndApiAgree(vars);
    match FindDevice(devices, deviceName)
    case None =>
    case Some(i) =>
      if Permitted(devices[i], command) && Catalogued(catalog, command) {
        BuildIgnoresEncoding(catalog[command], vars);
        GatesPassed(devices, catalog, deviceName, command, vars, i);
        GatesPassed(devices, catalog, deviceName, command, WrapAll(vars), i);
      }
  }

  /** The building step sees the variables only through their normalised map. */
  lemma BuildIgnoresEncoding(entry: CommandEntry, vars: Pairs)
    requires entry.Spec? && DistinctKeys(vars)
    requires forall i :: 0 <= i < |vars| ==> PlainName(vars[i].0)
    ensures DistinctKeys(WrapAll(vars))
    ensures Build(entry, WrapAll(vars)) == Build(entry, vars)
  {
    FormAndApiAgree(vars);
    assert WrapAll(vars) == [] <==> vars == [];
  }

  /**
   * Substituting into a template written as text and named fields gives
   * the expansion of the pieces, and a field without a variable is reported
   * as a missing or invalid variable.
   */
  lemma SubstituteRendered(ps: seq<Piece>, cleaned: map<string, string>)
    requires forall i :: 0 <= i < |ps| && ps[i].Field? ==> KeywordField(ps[i].name)
    ensures Expand(ps, cleaned).Success? ==> Substitute(Render(ps), cleaned) == Success(Expand(ps, cleaned).value)
    ensures Expand(ps, cleaned).Failure? && Expand(ps, cleaned).error.Missing? ==>
              Substitute(Render(ps), cleaned) == Failure(MissingOrInvalidVariable(Expand(ps, cleaned).error.name))
  {
    var t := Render(ps);
    FormatRendered(ps, cleaned);
    if forall i :: 0 <= i < |t| ==> !Brace(t[i]) {
      LiteralTemplate(t, cleaned);
    }
  }

  /**
   * For a template written as text and named fields, a request whose
   * variables pass validation is sent the intended command, and a field
   * with no variable is reported by name.
   */
  lemma {:induction false} BuildRendered(ps: seq<Piece>, specs: seq<VariableSpec>, vars: Pairs)
    requires forall i :: 0 <= i < |ps| && ps[i].Field? ==> KeywordField(ps[i].name)
    requires DistinctKeys(vars) && vars != []
    requires FirstMissing(specs, Normalise(vars)).None?
    ensures Expand(ps, Normalise(vars)).Success? ==>
              Build(Spec(Render(ps), specs), vars) == Success(Expand(ps, Normalise(vars)).value)
    ensures Expand(ps, Normalise(vars)).Failure? && Expand(ps, Normalise(vars)).error.Missing? ==>
              Build(Spec(Render(ps), specs), vars) == Failure(MissingOrInvalidVariable(Expand(ps, Normalise(vars)).error.name))
  {
    SubstituteRendered(ps, Normalise(vars));
  }

  /** A one-router registry and a one-command catalog for the examples below. */
  function ExampleRouter(): Settings {
    map[NAME := Str("r1"), ALLOWED := List({"bgp_route"}), DISALLOWED := List({})]
  }

  function ExampleCatalog(): Catalog {
    map["bgp_route" := Spec(SingleField("show route ", "ip"), [VariableSpec("ip", true)])]
  }

  /** A permitted, catalogued command on the requested device is decided by building it. */
  lemma GatesPassed(devices: seq<Settings>, catalog: Catalog, deviceName: string, command: string, vars: Pairs, i: nat)
    requires Registry(devices) && DistinctKeys(vars)
    requires FirstNamed(devices, deviceName, i) && Permitted(devices[i], command) && Catalogued(catalog, command)
    ensures Decide(devices, catalog, deviceName, command, vars) == Build(catalog[command], vars)
  {
    assert FindDevice(devices, deviceName) == Some(i);
  }

  /** The template `prefix{n}`: literal text followed by one named field. */
  function SingleField(prefix: string, n: string): string {
    Render([Piece.Text(prefix), Field(n)])
  }

  lemma SingleFieldText(prefix: string, n: string)
    requires forall k :: 0 <= k < |prefix| ==> !Brace(prefix[k])
    ensures SingleField(prefix, n) == prefix + "{" + n + "}"
  {
    var tail: seq<Piece> := [];
    assert [Piece.Text(prefix), Field(n)] == [Piece.Text(prefix)] + ([Field(n)] + tail);
    EscapeBraceless(prefix);
    RenderStep(Field(n), tail);
    RenderStep(Piece.Text(prefix), [Field(n)] + tail);
  }

  lemma SingleFieldExpand(prefix: string, n: string, vars: map<string, string>)
    requires n in vars
    ensures Expand([Piece.Text(prefix), Field(n)], vars) == Success(prefix + vars[n])
  {
    var tail: seq<Piece> := [];
    assert [Piece.Text(prefix), Field(n)] == [Piece.Text(prefix)] + ([Field(n)] + tail);
    ExpandStep(Field(n), tail, vars);
    ExpandStep(Piece.Text(prefix), [Field(n)] + tail, vars);
    assert vars[n] + [] == vars[n];
  }

  /** A single variable sent under a plain name is normalised to itself. */
  lemma SingleVariable(n: string, v: string)
    requires PlainName(n)
    ensures DistinctKeys([(n, v)])
    ensures Normalise([(n, v)]) == map[n := v]
  {
    var sent: Pairs := [(n, v)];
    assert !IsWrapped(n) by { if |n| >= |PREFIX| { assert n[9] in n && n[9] != PREFIX[9]; } }
    var cleaned := Normalise(sent);
    assert forall k :: k in cleaned ==> k == n;
  }

  /**
   * A template of literal text followed by one required field: the value
   * sent completes the text, and an empty value is reported missing.
   */
  lemma SingleFieldBuild(prefix: string, n: string, v: string)
    requires KeywordField(n) && PlainName(n)
    ensures DistinctKeys([(n, v)])
    ensures v != "" ==> Build(Spec(SingleField(prefix, n), [VariableSpec(n, true)]), [(n, v)]) == Success(prefix + v)
    ensures v == "" ==> Build(Spec(SingleField(prefix, n), [VariableSpec(n, true)]), [(n, v)]) == Failure(MissingRequiredVariable(n))
    ensures Build(Spec(SingleField(prefix, n), [VariableSpec(n, true)]), [(Wrap(n), v)]) ==
            Build(Spec(SingleField(prefix, n), [VariableSpec(n, true)]), [(n, v)])
  {
    var sent: Pairs := [(n, v)];
    assert WrapAll(sent) == [(Wrap(n), v)];
    BuildIgnoresEncoding(Spec(SingleField(prefix, n), [VariableSpec(n, true)]), sent);
    SingleVariable(n, v);
    var specs := [VariableSpec(n, true)];
    if v != "" {
      assert !Lacking(specs, map[n := v], 0);
      SingleFieldExpand(prefix, n, map[n := v]);
      BuildRendered([Piece.Text(prefix), Field(n)], specs, [(n, v)]);
    } else {
      assert Lacking(specs, map[n := v], 0);
    }
  }

  /**
   * The same through the whole decision, with the variable sent through the
   * API or through the web form.
   */
  lemma SingleFieldCommand(devices: seq<Settings>, catalog: Catalog, deviceName: string, command: string, i: nat,
                           prefix: string, n: string, v: string)
    requires Registry(devices) && FirstNamed(devices, deviceName, i) && Permitted(devices[i], command)
    requires KeywordField(n) && PlainName(n) && v != ""
    requires command in catalog && catalog[command] == Spec(SingleField(prefix, n), [VariableSpec(n, true)])
    ensures Decide(devices, catalog, deviceName, command, [(n, v)]) == Success(prefix + v)
    ensures Decide(devices, catalog, deviceName, command, [(Wrap(n), v)]) == Success(prefix + v)
    ensures Decide(devices, catalog, deviceName, command, [(n, "")]) == Failure(MissingRequiredVariable(n))
  {
    SingleFieldBuild(prefix, n, v);
    SingleFieldBuild(prefix, n, "");
    GatesPassed(devices, catalog, deviceName, command, [(n, v)], i);
    GatesPassed(devices, catalog, deviceName, command, [(Wrap(n), v)], i);
    GatesPassed(devices, catalog, deviceName, command, [(n, "")], i);
  }

  lemma ExampleRouterFacts()
    ensures Registry([ExampleRouter()])
    ensures FirstNamed([ExampleRouter()], "r1", 0)
    ensures Permitted(ExampleRouter(), "bgp_route")
  {
    assert Registered(ExampleRouter());
  }

  lemma ExampleNameFacts()
    ensures KeywordField("ip")
    ensures PlainName("ip")
    ensures Wrap("ip") == "variables[ip]"
  {
    assert !('0' <= "ip"[0] <= '9');
  }

  /** `show route {ip}` on the example router, with the address sent through the API or the web form. */
  lemma ShowRouteExample(address: string)
    requires address != ""
    ensures Registry([ExampleRouter()])
    ensures Decide([ExampleRouter()], ExampleCatalog(), "r1", "bgp_route", [("ip", address)]) == Success("show route " + address)
    ensures Decide([ExampleRouter()], ExampleCatalog(), "r1", "bgp_route", [("variables[ip]", address)]) == Success("show route " + address)
    ensures Decide([ExampleRouter()], ExampleCatalog(), "r1", "bgp_route", [("ip", "")]) == Failure(MissingRequiredVariable("ip"))
  {
    ExampleRouterFacts();
    ExampleNameFacts();
    SingleFieldCommand([ExampleRouter()], ExampleCatalog(), "r1", "bgp_route", 0, "show route ", "ip", address);
  }

  /** An unknown router and a command the router does not allow are refused, whatever the variables. */
  lemma ExampleRefusals(vars: Pairs)
    requires DistinctKeys(vars)
    ensures Registry([ExampleRouter()])
    ensures Decide([ExampleRouter()], ExampleCatalog(), "r2", "bgp_route", vars) == Failure(DeviceNotFound)
    ensures Decide([ExampleRouter()], ExampleCatalog(), "r1", "ping", vars) == Failure(CommandNotAllowed)
  {
    ExampleRouterFacts();
    assert FindDevice([ExampleRouter()], "r1") == Some(0);
  }
}
