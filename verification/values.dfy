/**
 * Parsed configuration values. A setting is either a scalar, modelled by its
 * text, or a YAML list of command names. The program always passes command
 * lists through `set(...)`, so their order and duplicates never matter and a
 * list is modelled as a set.
 */
module Values {

  datatype Value = Str(text: string) | List(items: set<string>)

  /** One group's, one device's or one resolved device's settings. */
  type Settings = map<string, Value>

  const ALLOWED: string := "allowed_commands"
  const DISALLOWED: string := "disallowed_commands"
  const PARENT: string := "parent"
  const GROUP: string := "group"
  const NAME: string := "name"
  const UNGROUPED: string := "ungrouped"

  /** The two command-list keys hold lists wherever they appear. */
  predicate ListsTyped(m: Settings) {
    && (ALLOWED in m ==> m[ALLOWED].List?)
    && (DISALLOWED in m ==> m[DISALLOWED].List?)
  }

  /** `m.get(key, [])` for a key that holds a list when present. */
  function ListAt(m: Settings, key: string): set<string>
    requires key in m ==> m[key].List?
  {
    if key in m then m[key].items else {}
  }

  /** The effective allowed commands of a settings map. */
  function Allowed(m: Settings): set<string>
    requires ListsTyped(m)
  {
    ListAt(m, ALLOWED)
  }

  /** The effective disallowed commands of a settings map. */
  function Disallowed(m: Settings): set<string>
    requires ListsTyped(m)
  {
    ListAt(m, DISALLOWED)
  }
}
