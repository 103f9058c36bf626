/**
 * Device permission resolution: the loop of `process_devices`
 * (app/commands.py:50-79). Each configured device is laid over the settings
 * its group resolves to, and its effective allowed and disallowed command
 * sets are computed once.
 */
module Devices {
  import opened Results
  import opened Values
  import opened Groups

  /** The command lists of every group and every device are lists. */
  predicate ConfigTyped(groups: GroupTable, devices: seq<Settings>) {
    && GroupsTyped(groups)
    && forall i :: 0 <= i < |devices| ==> ListsTyped(devices[i])
  }

  /** `device.get('group', 'ungrouped')`, which must be usable as a dictionary key. */
  function GroupOf(d: Settings): (r: Result<string, ConfigError>)
    ensures GROUP !in d ==> r == Success(UNGROUPED)
    ensures GROUP in d ==> (r.Success? <==> d[GROUP].Str?)
    ensures GROUP in d && r.Success? ==> r.value == d[GROUP].text
    ensures r.Failure? ==> r.error == UnhashableGroupName
  {
    if GROUP !in d then Success(UNGROUPED)
    else match d[GROUP]
      case Str(s) => Success(s)
      case List(_) => Failure(UnhashableGroupName)
  }

  /**
   * Lines 58-59: the hierarchy is walked unless the group is the sentinel
   * `ungrouped` and the table has no such entry.
   */
  function Inherited(groups: GroupTable, group: string): Result<Settings, ConfigError> {
    if group in groups || group != UNGROUPED then Resolve(groups, group, {}) else Success(map[])
  }

  /**
   * The test at line 58 changes nothing: the group it skips is absent from the
   * table, and the walk resolves an absent group to nothing as well.
   */
  lemma UngroupedTestIsRedundant(groups: GroupTable, group: string)
    ensures Inherited(groups, group) == Resolve(groups, group, {})
  {
  }

  /** Lines 71-72 and 75-76: the device keeps its own lists, allowed minus disallowed. */
  function Standalone(d: Settings, group: string): Settings
    requires ListsTyped(d)
  {
    d[GROUP := Str(group)]
     [ALLOWED := List(ListAt(d, ALLOWED) - ListAt(d, DISALLOWED))]
     [DISALLOWED := List(ListAt(d, DISALLOWED))]
  }

  /** Lines 61-68: device keys overwrite the inherited ones and the command lists are combined. */
  function Layered(inherited: Settings, d: Settings, group: string): Settings
    requires ListsTyped(inherited) && ListsTyped(d)
  {
    var allowed := ListAt(inherited, ALLOWED) + ListAt(d, ALLOWED);
    var denied := ListAt(inherited, DISALLOWED) + ListAt(d, DISALLOWED);
    (inherited + d)[GROUP := Str(group)][ALLOWED := List(allowed - denied)][DISALLOWED := List(denied)]
  }

  /** One iteration of the loop at lines 50-77. */
  function ProcessDevice(groups: GroupTable, d: Settings): (r: Result<Settings, ConfigError>)
    requires GroupsTyped(groups) && ListsTyped(d)
    ensures r.Failure? <==> GroupOf(d).Failure? || Resolve(groups, GroupOf(d).value, {}).Failure?
    ensures r.Success? ==> ListsTyped(r.value) && ALLOWED in r.value && DISALLOWED in r.value
    ensures r.Success? ==> Allowed(r.value) !! Disallowed(r.value)
    ensures r.Success? ==> GROUP in r.value && r.value[GROUP] == Str(GroupOf(d).value)
    ensures r.Success? ==> forall k :: k in d && k != GROUP && k != ALLOWED && k != DISALLOWED ==> k in r.value && r.value[k] == d[k]
  {
    var group :- GroupOf(d);
    var inherited :- Inherited(groups, group);
    if inherited != map[] then Success(Layered(inherited, d, group))
    else Success(Standalone(d, group))
  }

  /**
   * The effective permissions of a processed device, in terms of the groups
   * its walk reads: allowed is the union of the chain's and the device's
   * allowed lists minus the union of all their disallowed lists, and
   * disallowed is that second union. With an empty chain (the sentinel group,
   * an unknown group) or a chain of empty groups this is the device's own
   * allowed minus disallowed, which is what lines 71-76 compute.
   */
  lemma {:induction false} EffectivePermissions(groups: GroupTable, d: Settings)
    requires GroupsTyped(groups) && ListsTyped(d)
    requires ProcessDevice(groups, d).Success?
    ensures var r := ProcessDevice(groups, d).value;
      var chain := Chain(groups, GroupOf(d).value, {});
      && (forall i :: 0 <= i < |chain| ==> chain[i] in groups)
      && Disallowed(r) == UnionAlong(groups, chain, DISALLOWED) + ListAt(d, DISALLOWED)
      && Allowed(r) == (UnionAlong(groups, chain, ALLOWED) + ListAt(d, ALLOWED)) - Disallowed(r)
  {
    var group := GroupOf(d).value;
    ResolveAlongChain(groups, group, {});
  }

  /**
   * The other settings of a processed device: it carries every key the chain
   * or the device sets plus the three computed ones, device values win over
   * inherited ones, and inherited values survive where the device is silent.
   */
  lemma {:induction false} DeviceSettings(groups: GroupTable, d: Settings)
    requires GroupsTyped(groups) && ListsTyped(d)
    requires ProcessDevice(groups, d).Success?
    ensures var r := ProcessDevice(groups, d).value;
      var group := GroupOf(d).value;
      var inherited := Resolve(groups, group, {}).value;
      && (forall i :: 0 <= i < |Chain(groups, group, {})| ==> Chain(groups, group, {})[i] in groups)
      && r.Keys == KeysAlong(groups, Chain(groups, group, {})) + d.Keys + {GROUP, ALLOWED, DISALLOWED}
      && forall k :: k in inherited && k !in d && k != GROUP && k != ALLOWED && k != DISALLOWED ==> r[k] == inherited[k]
  {
    var group := GroupOf(d).value;
    ResolveAlongChain(groups, group, {});
  }

  /** Device `i` is the first whose processing raises. */
  predicate FirstFailure(groups: GroupTable, devices: seq<Settings>, i: int)
    requires ConfigTyped(groups, devices)
  {
    && 0 <= i < |devices|
    && ProcessDevice(groups, devices[i]).Failure?
    && forall j :: 0 <= j < i ==> ProcessDevice(groups, devices[j]).Success?
  }

  /** Lines 50-77 over the whole list; the first device whose processing raises stops startup. */
  function ProcessAll(groups: GroupTable, devices: seq<Settings>): (r: Result<seq<Settings>, ConfigError>)
    requires ConfigTyped(groups, devices)
    ensures r.Success? <==> forall i :: 0 <= i < |devices| ==> ProcessDevice(groups, devices[i]).Success?
    ensures r.Success? ==> |r.value| == |devices|
    ensures r.Success? ==> forall i :: 0 <= i < |devices| ==> ProcessDevice(groups, devices[i]) == Success(r.value[i])
    ensures r.Failure? ==> exists i :: FirstFailure(groups, devices, i) && ProcessDevice(groups, devices[i]) == Failure(r.error)
  {
    if devices == [] then Success([])
    else
      var head :- ProcessDevice(groups, devices[0]);
      var tail :- ProcessAll(groups, devices[1..]);
      Success([head] + tail)
  }

  /** A registry entry the request path can read: it has a name and list-valued command sets. */
  predicate Registered(d: Settings) {
    NAME in d && ListsTyped(d)
  }

  /**
   * Where a processed device's name comes from: its own `name` if it has
   * one, otherwise the `name` its group chain sets, since the device is
   * laid over the resolved group settings (lines 64-65).
   */
  lemma ProcessedName(groups: GroupTable, d: Settings)
    requires GroupsTyped(groups) && ListsTyped(d)
    requires ProcessDevice(groups, d).Success?
    ensures var r := ProcessDevice(groups, d).value;
      var inherited := Resolve(groups, GroupOf(d).value, {}).value;
      && (NAME in r <==> NAME in d || NAME in inherited)
      && (NAME in d ==> r[NAME] == d[NAME])
      && (NAME !in d && NAME in inherited ==> r[NAME] == inherited[NAME])
  {
  }

  /**
   * `process_devices` (lines 21-79). After the loop, listing the names of
   * the processed entries at line 78 raises for an entry without `name`;
   * an entry can take its name from its group chain.
   */
  function ProcessDevices(groups: GroupTable, devices: seq<Settings>): (r: Result<seq<Settings>, ConfigError>)
    requires ConfigTyped(groups, devices)
    ensures r.Success? <==> (ProcessAll(groups, devices).Success? &&
              forall i :: 0 <= i < |devices| ==> NAME in ProcessAll(groups, devices).value[i])
    ensures r.Failure? && ProcessAll(groups, devices).Success? ==> r.error == MissingName
    ensures r.Success? ==> |r.value| == |devices|
    ensures r.Success? ==> forall i :: 0 <= i < |devices| ==> ProcessDevice(groups, devices[i]) == Success(r.value[i])
    ensures r.Success? ==> forall i :: 0 <= i < |r.value| ==> Registered(r.value[i]) && Allowed(r.value[i]) !! Disallowed(r.value[i])
    ensures r.Success? ==> forall i :: 0 <= i < |devices| && NAME in devices[i] ==> r.value[i][NAME] == devices[i][NAME]
    ensures r.Success? ==> forall i :: 0 <= i < |devices| && NAME !in devices[i] ==>
              var inherited := Resolve(groups, GroupOf(devices[i]).value, {}).value;
              NAME in inherited && r.value[i][NAME] == inherited[NAME]
  {
    var processed :- ProcessAll(groups, devices);
    if exists i :: 0 <= i < |processed| && NAME !in processed[i] then Failure(MissingName)
    else
      assert forall i :: 0 <= i < |devices| ==> ProcessDevice(groups, devices[i]) == Success(processed[i]);
      assert forall i | 0 <= i < |devices| :: ProcessedNameHolds(groups, devices[i]) by {
        forall i | 0 <= i < |devices| {
          ProcessedName(groups, devices[i]);
        }
      }
      Success(processed)
  }

  /** The facts of `ProcessedName`, as a predicate a function body can quantify over. */
  predicate ProcessedNameHolds(groups: GroupTable, d: Settings)
    requires GroupsTyped(groups) && ListsTyped(d)
  {
    ProcessDevice(groups, d).Success? ==>
      var r := ProcessDevice(groups, d).value;
      var inherited := Resolve(groups, GroupOf(d).value, {}).value;
      && (NAME in r <==> NAME in d || NAME in inherited)
      && (NAME in d ==> r[NAME] == d[NAME])
      && (NAME !in d && NAME in inherited ==> r[NAME] == inherited[NAME])
  }

  /**
   * A device without a name of its own is registered under the name its
   * group sets.
   */
  lemma NameFromGroup(g: string, x: string)
    ensures ConfigTyped(map[g := map[NAME := Str(x)]], [map[GROUP := Str(g)]])
    ensures ProcessDevices(map[g := map[NAME := Str(x)]], [map[GROUP := Str(g)]]).Success?
    ensures ProcessDevices(map[g := map[NAME := Str(x)]], [map[GROUP := Str(g)]]).value[0][NAME] == Str(x)
  {
    var groups := map[g := map[NAME := Str(x)]];
    var d := map[GROUP := Str(g)];
    assert ListsTyped(groups[g]) && ListsTyped(d);
    assert Resolve(groups, g, {}) == Success(groups[g]);
    ProcessedName(groups, d);
  }
}
