/**
 * Group hierarchy resolution: `get_group_settings`, the helper nested in
 * `process_devices` (app/commands.py:25-48). The walk follows `parent` links,
 * lets nearer groups override farther ones, unions list-valued settings, and
 * stops at a group it has already visited or one the table does not define.
 */
module Groups {
  import opened Results
  import opened Values

  /** The ways the configuration makes the startup code raise. */
  datatype ConfigError =
    | UnhashableGroupName        // a list used as a group name: TypeError on the set or dict lookup
    | ListConcat(keys: set<string>)  // a child list added to an inherited scalar: TypeError on `+`
    | MissingName                // a device without `name`: KeyError when the device names are listed

  type GroupTable = map<string, Settings>

  predicate GroupsTyped(groups: GroupTable) {
    forall g :: g in groups ==> ListsTyped(groups[g])
  }

  /**
   * The parent link of a group as `if parent_name:` reads it: a missing,
   * empty-string or empty-list parent makes the group a root; a non-empty
   * list cannot be looked up in the visited set.
   */
  function ParentOf(data: Settings): (r: Result<Option<string>, ConfigError>)
    ensures r == Success(None) <==> PARENT !in data || data[PARENT] == Str("") || data[PARENT] == List({})
    ensures r.Success? && r.value.Some? <==> PARENT in data && data[PARENT].Str? && data[PARENT].text != ""
    ensures r.Success? && r.value.Some? ==> data[PARENT] == Str(r.value.value)
  {
    if PARENT !in data then Success(None)
    else match data[PARENT]
      case Str(s) => if s == "" then Success(None) else Success(Some(s))
      case List(l) => if l == {} then Success(None) else Failure(UnhashableGroupName)
  }

  /** Keys where the child holds a list and the inherited settings a scalar. */
  function Clashes(inherited: Settings, child: Settings): set<string> {
    set k | k in child && k in inherited && child[k].List? && inherited[k].Str?
  }

  /** The value a child key takes over an inherited one. */
  function Combine(inherited: Value, own: Value): Value {
    if own.List? && inherited.List? then List(inherited.items + own.items) else own
  }

  /**
   * Lines 42-47: every key of the child is written over the inherited
   * settings, except that a list meeting an inherited list is unioned with it.
   */
  function Merge(inherited: Settings, child: Settings): (r: Result<Settings, ConfigError>)
    ensures r.Failure? <==> Clashes(inherited, child) != {}
    ensures r.Failure? ==> r.error == ListConcat(Clashes(inherited, child))
    ensures r.Success? ==> r.value.Keys == inherited.Keys + child.Keys
    ensures r.Success? ==> forall k :: k in child && k in inherited && child[k].List? ==>
              inherited[k].List? && r.value[k] == List(inherited[k].items + child[k].items)
    ensures r.Success? ==> forall k :: k in child && (k !in inherited || child[k].Str?) ==> r.value[k] == child[k]
    ensures r.Success? ==> forall k :: k in inherited && k !in child ==> r.value[k] == inherited[k]
  {
    var clash := Clashes(inherited, child);
    if clash != {} then Failure(ListConcat(clash))
    else
      assert forall k :: k in child && k in inherited && child[k].List? && inherited[k].Str? ==> k in clash;
      Success(map k | k in inherited.Keys + child.Keys ::
        if k in child && k in inherited then Combine(inherited[k], child[k])
        else if k in child then child[k]
        else inherited[k])
  }

  /**
   * `get_group_settings(name, visited)`. The visited set only grows, and each
   * recursive call adds a group of the table not yet in it, so the walk ends
   * on every table, cyclic or not.
   */
  function Resolve(groups: GroupTable, name: string, visited: set<string>): (r: Result<Settings, ConfigError>)
    decreases |groups.Keys - visited|
    ensures name in visited ==> r == Success(map[])
    ensures name !in groups ==> r == Success(map[])
    ensures name !in visited && name in groups && ParentOf(groups[name]) == Success(None) ==> r == Success(groups[name])
    ensures GroupsTyped(groups) && r.Success? ==> ListsTyped(r.value)
  {
    if name in visited then Success(map[])
    else if name !in groups then Success(map[])
    else
      var data := groups[name];
      var parent :- ParentOf(data);
      match parent
      case None => Success(data)
      case Some(p) =>
        assert groups.Keys - (visited + {name}) == (groups.Keys - visited) - {name};
        var inherited :- Resolve(groups, p, visited + {name});
        Merge(inherited, data)
  }

  /** The groups the walk from `name` reads, nearest first. */
  function Chain(groups: GroupTable, name: string, visited: set<string>): seq<string>
    decreases |groups.Keys - visited|
  {
    if name in visited || name !in groups then []
    else match ParentOf(groups[name])
      case Success(Some(p)) =>
        assert groups.Keys - (visited + {name}) == (groups.Keys - visited) - {name};
        [name] + Chain(groups, p, visited + {name})
      case _ => [name]
  }

  /** Every key set by some group of a chain. */
  function KeysAlong(groups: GroupTable, chain: seq<string>): set<string>
    requires forall i :: 0 <= i < |chain| ==> chain[i] in groups
  {
    if chain == [] then {} else groups[chain[0]].Keys + KeysAlong(groups, chain[1..])
  }

  /** The union of one command list over the groups of a chain. */
  function UnionAlong(groups: GroupTable, chain: seq<string>, key: string): set<string>
    requires GroupsTyped(groups)
    requires key == ALLOWED || key == DISALLOWED
    requires forall i :: 0 <= i < |chain| ==> chain[i] in groups
  {
    if chain == [] then {} else ListAt(groups[chain[0]], key) + UnionAlong(groups, chain[1..], key)
  }

  /**
   * The walk visits each group at most once and only groups of the table that
   * were not visited before, so it reads at most `|groups|` groups even when
   * the parent links form a cycle.
   */
  lemma {:induction false} ChainIsSimple(groups: GroupTable, name: string, visited: set<string>)
    ensures var c := Chain(groups, name, visited);
      && (forall i :: 0 <= i < |c| ==> c[i] in groups && c[i] !in visited)
      && (forall i, j :: 0 <= i < j < |c| ==> c[i] != c[j])
      && |c| <= |groups.Keys - visited|
    decreases |groups.Keys - visited|
  {
    var c := Chain(groups, name, visited);
    if name in visited || name !in groups {
    } else {
      match ParentOf(groups[name])
      case Success(Some(p)) =>
        assert groups.Keys - (visited + {name}) == (groups.Keys - visited) - {name};
        ChainIsSimple(groups, p, visited + {name});
        var tail := Chain(groups, p, visited + {name});
        assert c == [name] + tail;
        forall i | 0 <= i < |c|
          ensures c[i] in groups && c[i] !in visited
        {
          if i > 0 { assert c[i] == tail[i - 1]; }
        }
        forall i, j | 0 <= i < j < |c|
          ensures c[i] != c[j]
        {
          assert c[j] == tail[j - 1];
          if i > 0 { assert c[i] == tail[i - 1]; }
        }
      case _ =>
        assert name in groups.Keys - visited;
    }
  }

  /** One merge step keeps the command lists lists and unions them. */
  lemma MergeLists(inherited: Settings, child: Settings)
    requires ListsTyped(inherited) && ListsTyped(child)
    requires Merge(inherited, child).Success?
    ensures var r := Merge(inherited, child).value;
      && ListsTyped(r)
      && ListAt(r, ALLOWED) == ListAt(inherited, ALLOWED) + ListAt(child, ALLOWED)
      && ListAt(r, DISALLOWED) == ListAt(inherited, DISALLOWED) + ListAt(child, DISALLOWED)
  {
  }

  /** The groups of a chain belong to the table. */
  lemma {:induction false} ChainInTable(groups: GroupTable, name: string, visited: set<string>)
    ensures forall i :: 0 <= i < |Chain(groups, name, visited)| ==> Chain(groups, name, visited)[i] in groups
  {
    ChainIsSimple(groups, name, visited);
  }

  /**
   * Merging onto nothing returns the child unchanged, so a group whose parent
   * is unknown or already visited resolves exactly like a root group.
   */
  lemma MergeOntoNothing(child: Settings)
    ensures Merge(map[], child) == Success(child)
  {
    assert Clashes(map[], child) == {};
    var r := Merge(map[], child).value;
    assert r.Keys == child.Keys;
    forall k | k in r
      ensures r[k] == child[k]
    {
    }
    assert r == child;
  }

  /** A chain's keys and command lists, as the resolved settings should carry them. */
  predicate Accumulates(groups: GroupTable, chain: seq<string>, r: Settings)
    requires GroupsTyped(groups)
    requires forall i :: 0 <= i < |chain| ==> chain[i] in groups
  {
    && ListsTyped(r)
    && r.Keys == KeysAlong(groups, chain)
    && ListAt(r, ALLOWED) == UnionAlong(groups, chain, ALLOWED)
    && ListAt(r, DISALLOWED) == UnionAlong(groups, chain, DISALLOWED)
  }

  /** Merging one more group onto what its parent accumulated extends the chain by that group. */
  lemma MergeStep(groups: GroupTable, name: string, tail: seq<string>, inherited: Settings, r: Settings)
    requires GroupsTyped(groups) && name in groups
    requires forall i :: 0 <= i < |tail| ==> tail[i] in groups
    requires Accumulates(groups, tail, inherited)
    requires Merge(inherited, groups[name]) == Success(r)
    ensures Accumulates(groups, [name] + tail, r)
  {
    var c := [name] + tail;
    assert c[0] == name && c[1..] == tail;
    MergeLists(inherited, groups[name]);
  }

  /**
   * What the walk accumulates: whenever it succeeds on a table whose command
   * lists are lists, the resolved settings carry exactly the keys of the
   * groups on the chain, and each command list is the union of that list over
   * the chain.
   */
  lemma {:induction false} ResolveAlongChain(groups: GroupTable, name: string, visited: set<string>)
    requires GroupsTyped(groups)
    requires Resolve(groups, name, visited).Success?
    ensures forall i :: 0 <= i < |Chain(groups, name, visited)| ==> Chain(groups, name, visited)[i] in groups
    ensures Accumulates(groups, Chain(groups, name, visited), Resolve(groups, name, visited).value)
    decreases |groups.Keys - visited|
  {
    ChainInTable(groups, name, visited);
    if name in visited || name !in groups {
    } else {
      var data := groups[name];
      match ParentOf(data)
      case Success(None) =>
        assert Chain(groups, name, visited) == [name] + [];
        MergeOntoNothing(data);
        MergeStep(groups, name, [], map[], data);
      case Success(Some(p)) =>
        var next := visited + {name};
        assert groups.Keys - next == (groups.Keys - visited) - {name};
        ResolveAlongChain(groups, p, next);
        MergeStep(groups, name, Chain(groups, p, next), Resolve(groups, p, next).value, Resolve(groups, name, visited).value);
    }
  }
}
