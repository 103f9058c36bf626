# BGP looking glass: authorisation and command building

A Dafny model of the part of the BGP looking glass (`BGPLookingGlass` in
`app/commands.py`) that decides whether a request may run and which command
text reaches the router. It has three stages.

- **Group hierarchy** (`Groups`). Device groups inherit settings from their
  `parent` groups. Nearer groups override farther ones. List-valued settings
  are unioned along the way. A cycle of parent links ends at the first group
  visited twice.
- **Device registry** (`Devices`). Each configured device is laid over the
  settings its group resolves to. Its effective allowed and disallowed
  command sets are fixed once, at startup.
- **Request decision** (`Variables`, `Templates`, `Requests`, `Output`).
  A request names a device, a command and variables. It is checked against
  four gates, in order: the device exists, the command is allowed, the
  command is not disallowed, and the command is in the catalog. The
  variables are then normalised from the web-form encoding
  (`variables[ip]`) or the API encoding (`ip`) and validated. The command
  template is filled in with Python's `str.format` rules. The driver's
  answer is shaped into text.

Configuration values are modelled as `Value = Str(text) | List(items)`:
scalars are text, and command lists are sets, because every list the code
builds passes through `set(...)`. Python exceptions that abort startup
become a `ConfigError`. Request errors become the `Error` datatype, whose
`Message` is the text of the `{"error": ...}` reply. The driver is a
function parameter of `Requests.Execute`, so no network session appears in
the model.

Notable behaviours of the code:

- A malformed group configuration does not always load quietly. A non-empty list
  used as a `parent`, any list used as a `group`, or a list merged onto an inherited scalar,
  raises `TypeError` at startup. The model reports these as
  `UnhashableGroupName` and `ListConcat`.
- A processed entry without `name` makes startup fail, because line 78
  lists the names of all processed entries (`MissingName`). A device with no
  `name` of its own still loads when its group chain sets one, since the
  device is laid over its group's settings (`Devices.NameFromGroup`).
- Required variables are checked only when some variables are sent. A
  request with no variables skips validation and is refused only when the
  template holds both `{` and `}`.
- When command lists are lists (`Devices.ConfigTyped`), the
  `Command disallowed` branch (lines 101-103) is unreachable. Every registry
  entry has its disallowed commands already removed from its allowed ones,
  and the allowed test runs first (`Requests.DisallowedIsDeadCode`). A
  scalar `disallowed_commands` on a device without a resolving group is
  kept as text (line 72 or 76), and line 101 then tests a substring; that
  case is left out below.
- The test `group_name in groups or group_name != 'ungrouped'` (line 58)
  changes nothing. The walk also resolves a group that is not in the table
  to no settings (`Devices.UngroupedTestIsRedundant`).

## Model

| member | source | states |
|---|---|---|
| Groups.ParentOf | app/commands.py:38-40 | a missing, empty-string or empty-list parent makes a root; a non-empty text parent is followed; a non-empty list parent cannot be looked up and fails |
| Groups.Merge | app/commands.py:42-47 | fails exactly when a child list meets an inherited scalar; otherwise keys are the union, list meets list is unioned, the child wins everywhere else, and inherited-only keys are kept |
| Groups.Resolve | app/commands.py:25-48 | a visited or undefined group resolves to no settings, a root group to its own data, and a table whose command lists are lists resolves to settings whose command lists are lists; terminates on cyclic tables |
| Groups.ChainIsSimple | app/commands.py:27-35 | the walk reads each group at most once and only groups of the table not visited before, so at most as many groups as the table holds |
| Groups.MergeOntoNothing | app/commands.py:39-47 | merging a group onto an empty inherited result returns the group unchanged, so a parent that is unknown or already visited acts like no parent |
| Groups.ResolveAlongChain | app/commands.py:37-48 | a successful walk yields exactly the keys of the groups on the chain, and each command list is the union of that list over the chain |
| Devices.GroupOf | app/commands.py:51 | a device without a group is in `ungrouped`; a text group is used as written; a list group fails |
| Devices.UngroupedTestIsRedundant | app/commands.py:58-59 | skipping the walk for an undefined `ungrouped` group gives the same result as walking it |
| Devices.ProcessDevice | app/commands.py:50-77 | fails exactly when the group name or the walk fails; the entry carries both command lists, disjoint, carries its group name, and keeps every other device setting; a device whose group resolves to settings is laid over them (`Layered`, lines 61-69), otherwise it stands alone (`Standalone`, lines 71-77) |
| Devices.EffectivePermissions | app/commands.py:55-76 | disallowed is the union of the chain's and the device's disallowed lists; allowed is the union of their allowed lists minus that set |
| Devices.DeviceSettings | app/commands.py:64-68 | a processed device carries every key set along its chain or by itself plus the three computed keys, and inherited values survive where the device sets nothing |
| Devices.ProcessAll | app/commands.py:50-77 | succeeds exactly when every device processes; it keeps order and length, and a failure is the first failing device's error |
| Devices.ProcessDevices | app/commands.py:21-79 | succeeds exactly when every device processes and every processed entry has a name, its own or one inherited from its group chain; each entry is registered and has disjoint command sets; a device's own name is kept, and a device without one carries its chain's name |
| Devices.ProcessedName | app/commands.py:64-65 | a processed entry has a name exactly when the device or its chain sets one; the device's own name wins |
| Devices.NameFromGroup | app/commands.py:64-78 | a device with no name of its own, in a group that sets one, loads under the group's name |
| Variables.Strip | app/commands.py:114 | a stripped name never holds `]` and holds only characters of the key |
| Variables.StripKey | app/commands.py:114 | for a form key whose name has no `[`, the prefix goes, every `]` goes wherever it stands, and the other characters stay in order |
| Variables.StripCollision | app/commands.py:114 | `variables[ip]]` and `variables[ip]` strip to the same name, so such keys collide |
| Variables.StripWrap | app/commands.py:114 | stripping the form encoding off a name without brackets gives the name back |
| Variables.Normalise | app/commands.py:110-116 | with any wrapped key, only wrapped keys survive, stripped, and the last pair wins on a collision; otherwise the variables are used as sent; the result is empty exactly when nothing was sent |
| Variables.FormAndApiAgree | app/commands.py:110-116 | sending bracket-free names in the form encoding normalises to the same variables as sending them plainly |
| Variables.FirstMissing | app/commands.py:81-89 | reports nothing exactly when every required declared variable is present and non-empty; otherwise it reports the first required one that is not |
| Templates.Format | app/commands.py:128-138 | a missing-variable error names a field that has no variable |
| Templates.LiteralTemplate | app/commands.py:128-132 | a template without braces formats to itself |
| Templates.FormatNumbered | app/commands.py:130-138 | a field name whose leading digits pass 2^63-1 is the ValueError `Too many decimal digits in format string`, whatever follows them; otherwise an all-digit name is a positional index, which keyword arguments cannot supply |
| Templates.OverflowingName | app/commands.py:130-138 | `{99999999999999999999x}` is that ValueError even when a variable of that name is sent |
| Templates.FormatFaults | app/commands.py:136-138 | after well-formed text, a lone `}`, a final `{`, an unclosed field and a `{` inside a field each give Python's ValueError message |
| Templates.FormatRendered | app/commands.py:128-135 | formatting a template written as text and named fields gives the intended expansion: fields replaced, literal braces kept, the first unknown field reported |
| Templates.ExpandIgnoresOthers | app/commands.py:130 | variables the template never names do not change the result |
| Output.SplitJoin | app/commands.py:157-158 | lines without newlines, joined by newlines, split back into the same lines |
| Output.Shape | app/commands.py:153-159 | text passes through; a mapping gives the sent command's entry or the text of the whole answer; an empty list gives empty text; a list of lines gives text that splits back into those lines |
| Requests.FindDevice | app/commands.py:94-97 | finds nothing exactly when no device has the name; otherwise it finds the first device with that name |
| Requests.Substitute | app/commands.py:128-138 | a successful format is the command sent; a ValueError becomes `Command formatting error` with Python's message, a KeyError becomes `Missing or invalid variable` naming a variable not sent; a positional field's IndexError and unmodelled field forms are carried up as such; a brace-free template is sent as written |
| Requests.SubstituteRendered | app/commands.py:128-135 | substituting into a template written as text and named fields gives the intended expansion, and a field without a variable is reported as a missing or invalid variable |
| Requests.Build | app/commands.py:110-142 | with no variables, refuses exactly when the template holds both braces and otherwise sends it verbatim; with variables, reports the first missing required variable, and otherwise gives the outcome of formatting the template with the normalised variables (`Substitute`) |
| Requests.BuildIgnoresEncoding | app/commands.py:110-142 | the command built is the same whichever encoding the variables came in |
| Requests.BuildRendered | app/commands.py:126-135 | once validation passes, the command sent is the expansion of the template, or the first field without a variable is reported |
| Requests.Decide | app/commands.py:91-143 | the gates fire in the source's order with both directions stated; only a request that passes all four reaches variable handling, and the command then comes from the catalog entry of the requested command |
| Requests.GatesPassed | app/commands.py:94-110 | a catalogued command the requested device permits is decided by building it |
| Requests.DisallowedNeverFires | app/commands.py:98-103 | on a registry whose allowed and disallowed sets are disjoint, `Command disallowed` is never the answer |
| Requests.DisallowedIsDeadCode | app/commands.py:63-76 | every registry built at startup is such a registry |
| Requests.OfferedCommands | app/routes.py:25-28 | the commands the device page offers are exactly the catalog's commands that the device allows and does not disallow |
| Requests.OfferedCommandsPassGates | app/routes.py:22-28 | an offered command passes every gate of the request path; only an empty catalog entry is then reported as not found |
| Requests.FormAndApiRequestsAgree | app/routes.py:50 | the web form and the API reach the same decision for the same bracket-free variable names |
| Requests.SingleFieldBuild | app/commands.py:110-135 | a template of text and one required field becomes the text followed by the value; an empty value is reported missing; the form encoding builds the same |
| Requests.SingleFieldCommand | app/commands.py:91-135 | the same through the whole decision, on a device that permits the command |
| Requests.ShowRouteExample | app/commands.py:110-135 | `show route {ip}` with `ip` sent through the API or the form becomes `show route ` followed by the address |
| Requests.ExampleRefusals | app/commands.py:94-100 | an unknown router and a command the router does not allow are refused, whatever the variables |
| Requests.MessagesIdentifyErrors | app/commands.py:88-142 | the reply texts of lines 88, 97, 100, 103, 108, 135, 138 and 142 differ from one another, and each names its variable or formatting fault so that the text determines the error |
| Requests.Refusal | app/commands.py:95-142 | a refused request answers `{"error": ...}` with its reply text exactly when the code returns it; a positional field's `IndexError` propagates instead |
| Requests.Execute | app/commands.py:91-162 | a refused request answers with its error text (`Refusal`), or raises for a positional field; an accepted one reaches the driver for the first device with the name; a driver failure becomes an error reply with its text; a driver answer is shaped |
| Requests.RefusalNeverDispatches | app/commands.py:94-143 | a refused request answers the same whatever the driver would do |

## Left out

- Reading `devices.yaml` and `commands.yaml` (lines 13-19): the model takes the parsed group table, device list and command catalog as values.
- The driver and its session (lines 144-151): the driver is a parameter of `Requests.Execute`; hostnames and credentials are not modelled.
- Logging: it has no effect on results. The one exception is line 78, whose name lookup is modelled as `MissingName`.
- Non-list command lists: `Devices.ConfigTyped` requires `allowed_commands` and `disallowed_commands` to be lists. As a string, Python would concatenate characters and test substrings, which is not modelled.
- Scalar settings of other YAML types (numbers, booleans, `null`, mappings) are modelled as their text. Two consequences follow. A number used as `name` never equals the request's text at line 94, but the model matches it. A `null`, `0` or `false` parent is falsy at line 39 and makes a root, but the model follows its text. A mapping used as a parent or group name would raise like a list; this is not modelled either.
- A catalog entry without a `command` key raises `KeyError` at line 126. The model's `CommandEntry` always has a template.
- `str.format` beyond literal text, `{{`/`}}` escapes and `{name}` fields: format specs, conversions, attribute and index access are reported as `UnmodelledField`. Positional fields (`{}`, `{0}`) raise an uncaught `IndexError`, reported as `PositionalField`; a field name whose leading digits pass 2^63-1 raises the ValueError `Too many decimal digits in format string`, as on a 64-bit build. Python's Unicode digit test is approximated by ASCII digits.
- Templates.Format: its own contract states only the missing-variable property. What it computes is stated by `Templates.FormatRendered`, `Templates.LiteralTemplate` and `Templates.FormatFaults`, for templates written as text and named fields.
- Requests.Message: the `repr` of a key in `Missing or invalid variable: 'name'` ignores backslash escaping of unusual characters.
- Request variables are text. JSON numbers or lists sent through the API are not modelled.
- The HTTP routes other than the device page's command filter (`app/routes.py:16-29`). Presence checks, status codes and JSON wrapping are not modelled.
- `app/app.py`, `app/config.py` and `app_config.py` (application setup and settings) are not part of this model.
