/**
  The plugin registry: every plugin loader of every plugin manager, in
  manager order and then registration order, and the case-insensitive
  lookups by plugin name.

  A loader is identified by its index in this flattened registry. Its
  manager and plugin instance are opaque handles.
 */
module Plugins {
  import opened JavaLang
  import opened Text

  /** `PluginLoader.PluginState`. */
  datatype State = Unloaded | Loaded | Initialized | Enabled | Disabled

  datatype Loader = Loader(
    name: string,
    version: string,
    hardDeps: seq<string>,
    softDeps: seq<string>,
    state: State,
    manager: nat,
    plugin: nat)

  type Registry = seq<Loader>

  /** Some name in the list equals the given one, ignoring case. */
  predicate NamesInclude(names: seq<string>, name: string)
  {
    exists k :: 0 <= k < |names| && EqualsIgnoreCase(names[k], name)
  }

  /** `loader.dependsOn(name)`: name is one of the loader's hard dependencies, ignoring case. */
  predicate DependsOn(l: Loader, name: string)
  {
    NamesInclude(l.hardDeps, name)
  }

  /** `loader.softDependsOn(name)`: name is one of the loader's soft dependencies, ignoring case. */
  predicate SoftDependsOn(l: Loader, name: string)
  {
    NamesInclude(l.softDeps, name)
  }

  /** Loader k's name matches the query, ignoring case. */
  predicate NameMatches(reg: Registry, k: nat, name: string)
    requires k < |reg|
  {
    EqualsIgnoreCase(reg[k].name, name)
  }

  /**
    `getPluginLoader(name)`: the first loader whose name equals the query,
    ignoring case, or null.
   */
  function FindLoader(reg: Registry, name: string): (r: Option<nat>)
    ensures r.Some? ==> r.value < |reg| && NameMatches(reg, r.value, name)
    ensures r.Some? ==> forall k :: 0 <= k < r.value ==> !NameMatches(reg, k, name)
    ensures r.None? ==> forall k :: 0 <= k < |reg| ==> !NameMatches(reg, k, name)
  {
    FindFrom(reg, name, 0)
  }

  function FindFrom(reg: Registry, name: string, start: nat): (r: Option<nat>)
    requires start <= |reg|
    requires forall k :: 0 <= k < start ==> !NameMatches(reg, k, name)
    ensures r.Some? ==> start <= r.value < |reg| && NameMatches(reg, r.value, name)
    ensures r.Some? ==> forall k :: 0 <= k < r.value ==> !NameMatches(reg, k, name)
    ensures r.None? ==> forall k :: 0 <= k < |reg| ==> !NameMatches(reg, k, name)
    decreases |reg| - start
  {
    if start == |reg| then None
    else if EqualsIgnoreCase(reg[start].name, name) then Some(start)
    else FindFrom(reg, name, start + 1)
  }

  /** `getPluginManager(name)`: the manager of the loader found, or null. */
  function GetPluginManager(reg: Registry, name: string): (r: Option<nat>)
    ensures r.None? <==> forall k :: 0 <= k < |reg| ==> !NameMatches(reg, k, name)
    ensures r.Some? <==> FindLoader(reg, name).Some?
    ensures r.Some? ==> r.value == reg[FindLoader(reg, name).value].manager
  {
    match FindLoader(reg, name)
    case None => None
    case Some(j) => Some(reg[j].manager)
  }

  /**
    `getPlugin(name)`: the source repeats the lookup loop rather than calling
    `getPluginLoader`; this is that loop, returning the plugin of the first
    loader whose name matches.
   */
  method GetPlugin(reg: Registry, name: string) returns (r: Option<nat>)
    ensures r.None? <==> forall k :: 0 <= k < |reg| ==> !NameMatches(reg, k, name)
    ensures r.Some? ==> exists j :: (0 <= j < |reg| && NameMatches(reg, j, name)
                                     && (forall k :: 0 <= k < j ==> !NameMatches(reg, k, name))
                                     && r.value == reg[j].plugin)
  {
    var i := 0;
    while i < |reg|
      invariant 0 <= i <= |reg|
      invariant forall k :: 0 <= k < i ==> !NameMatches(reg, k, name)
    {
      if EqualsIgnoreCase(reg[i].name, name) {
        assert NameMatches(reg, i, name);
        return Some(reg[i].plugin);
      }
      i := i + 1;
    }
    return None;
  }
}
