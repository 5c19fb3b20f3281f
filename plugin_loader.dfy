/**
 * The plugin loader turns the manager plugins of the installed packages into
 * a map from package name to plugin, ordered so that the manager bundle comes
 * first where it can and every plugin comes after the packages it depends on.
 * The loaded map is cached in the `plugins` field.
 */
module PluginLoading {
  import opened Wrappers
  import opened Seqs
  import opened OrderedMap
  import opened DependencyResolver

  const BundlePlugins: string := "Contao\\ManagerPlugin\\Bundle\\BundlePluginInterface"
  const ConfigPlugins: string := "Contao\\ManagerPlugin\\Config\\ConfigPluginInterface"
  const RoutingPlugins: string := "Contao\\ManagerPlugin\\Routing\\RoutingPluginInterface"
  const DependentPluginInterface: string := "Contao\\ManagerPlugin\\Dependency\\DependentPluginInterface"
  const ManagerBundle: string := "contao/manager-bundle"

  /** A plugin instance: the classes and interfaces it is an instance of, and the packages it depends on. */
  datatype Plugin = Plugin(types: set<string>, packageDependencies: seq<string>)

  /** `is_a($plugin, $type)`, also `instanceof`. */
  predicate IsA(plugin: Plugin, typeName: string) {
    typeName in plugin.types
  }

  /** The dependencies the loader honours: only a dependent plugin declares any. */
  function DependenciesOf(plugin: Plugin): seq<string> {
    if IsA(plugin, DependentPluginInterface) then plugin.packageDependencies else []
  }

  /** The package names in the order they are handed to the resolver. */
  function PackageList(plugins: OMap<Plugin>): seq<string> {
    if ManagerBundle in plugins.vals then Unique([ManagerBundle] + plugins.keys) else plugins.keys
  }

  /** The dependency map: one entry per package, in package-list order. */
  function DependencyMap(plugins: OMap<Plugin>): (dependencies: OMap<seq<string>>)
    requires plugins.Valid()
    ensures dependencies.Valid()
    ensures dependencies.keys == PackageList(plugins)
    ensures forall k :: k in dependencies.vals <==> k in plugins.vals
    ensures forall k :: k in dependencies.vals ==> dependencies.vals[k] == DependenciesOf(plugins.vals[k])
  {
    PackageListSpec(plugins);
    OMap(PackageList(plugins), map k | k in plugins.vals :: DependenciesOf(plugins.vals[k]))
  }

  /** What orderPlugins returns: the plugins keyed by package name, in resolved order. */
  function OrderedPlugins(plugins: OMap<Plugin>): Result<OMap<Plugin>, Exception>
    requires plugins.Valid()
  {
    var resolved := OrderByDependencies(DependencyMap(plugins));
    if resolved.Failure? then Failure(resolved.error) else Success(OMap(resolved.value, plugins.vals))
  }

  /** A predicate to filter package names by: the plugin of the name is an instance of `typeName`. */
  function OfType(instances: map<string, Plugin>, typeName: string): string -> bool {
    k => k in instances && IsA(instances[k], typeName)
  }

  /** getInstancesOf on loaded instances: the instances of `typeName`, keeping their names, optionally reversed. */
  function InstancesOf(instances: OMap<Plugin>, typeName: string, reverseOrder: bool): (r: OMap<Plugin>)
    requires instances.Valid()
    ensures r.Valid()
    ensures forall k :: k in r.vals <==> k in instances.vals && IsA(instances.vals[k], typeName)
    ensures forall k :: k in r.vals ==> r.vals[k] == instances.vals[k]
  {
    var kept := Filter(instances.keys, OfType(instances.vals, typeName));
    FilterDistinct(instances.keys, OfType(instances.vals, typeName));
    ReverseDistinct(kept);
    OMap(if reverseOrder then Reverse(kept) else kept,
         map k | k in instances.vals && IsA(instances.vals[k], typeName) :: instances.vals[k])
  }

  lemma ReverseDistinct(s: seq<string>)
    ensures Distinct(s) ==> Distinct(Reverse(s))
    ensures forall x :: x in Reverse(s) <==> x in s
  {
    var r := Reverse(s);
    forall x ensures x in r <==> x in s {
      if x in s {
        var i :| 0 <= i < |s| && s[i] == x;
        assert r[|s| - 1 - i] == x;
      }
    }
  }

  // ---------------------------------------------------------------------------
  // Properties
  // ---------------------------------------------------------------------------

  /**
   * The package list names every plugin once; the manager bundle, when
   * installed, is moved to the front and the others keep their order.
   */
  lemma PackageListSpec(plugins: OMap<Plugin>)
    requires plugins.Valid()
    ensures Distinct(PackageList(plugins))
    ensures forall k :: k in PackageList(plugins) <==> k in plugins.vals
    ensures ManagerBundle in plugins.vals ==>
      PackageList(plugins) == [ManagerBundle] + Without(plugins.keys, ManagerBundle)
    ensures ManagerBundle !in plugins.vals ==> PackageList(plugins) == plugins.keys
  {
    if ManagerBundle in plugins.vals {
      UniqueCons(ManagerBundle, plugins.keys);
    }
  }

  /**
   * A successful ordering holds every plugin once, unchanged, after the
   * installed packages it depends on; a failure is an unresolvable-dependencies
   * error and then no such order exists.
   */
  lemma OrderedPluginsSpec(plugins: OMap<Plugin>)
    requires plugins.Valid()
    ensures match OrderedPlugins(plugins)
      case Success(ordered) =>
        && ordered.Valid()
        && ordered.vals == plugins.vals
        && forall i, d :: 0 <= i < |ordered.keys| && d in DependenciesOf(plugins.vals[ordered.keys[i]]) && d in plugins.vals
             ==> d in ordered.keys[..i]
      case Failure(e) =>
        && e.UnresolvableDependencies?
        && forall s :: !IsTopologicalOrder(DependencyMap(plugins).vals, s)
  {
    var dependencies := DependencyMap(plugins);
    match OrderByDependencies(dependencies)
    case Success(order) =>
      forall i, d | 0 <= i < |order| && d in DependenciesOf(plugins.vals[order[i]]) && d in plugins.vals
        ensures d in order[..i]
      {
        assert Requires(dependencies.vals, order[i]) == DependenciesOf(plugins.vals[order[i]]);
      }
    case Failure(e) =>
      forall s ensures !IsTopologicalOrder(dependencies.vals, s) {
        StuckHasNoOrder(dependencies.vals, e.pending, s);
      }
  }

  /** Whenever some order satisfies the dependencies, ordering succeeds. */
  lemma OrderedPluginsComplete(plugins: OMap<Plugin>, s: seq<string>)
    requires plugins.Valid()
    requires IsTopologicalOrder(DependencyMap(plugins).vals, s)
    ensures OrderedPlugins(plugins).Success?
  {
    ResolverComplete(DependencyMap(plugins), s);
  }

  /** The manager bundle is loaded first unless it depends on another installed package. */
  lemma ManagerBundleFirst(plugins: OMap<Plugin>)
    requires plugins.Valid() && ManagerBundle in plugins.vals
    requires forall d :: d in DependenciesOf(plugins.vals[ManagerBundle]) ==> d !in plugins.vals
    requires OrderedPlugins(plugins).Success?
    ensures OrderedPlugins(plugins).value.keys[0] == ManagerBundle
  {
    var dependencies := DependencyMap(plugins);
    PackageListSpec(plugins);
    assert dependencies.keys[0] == ManagerBundle;
    FirstKeyFirst(dependencies);
  }

  /**
   * The instances of a typeName keep the loaded order: all kept names of a front
   * part come before all kept names of the rest, and with `reverseOrder`
   * the same list is reversed.
   */
  lemma {:induction false} InstancesOfOrder(instances: OMap<Plugin>, typeName: string, i: nat)
    requires instances.Valid() && i <= |instances.keys|
    ensures InstancesOf(instances, typeName, false).keys ==
      Filter(instances.keys[..i], OfType(instances.vals, typeName)) + Filter(instances.keys[i..], OfType(instances.vals, typeName))
    ensures InstancesOf(instances, typeName, true).keys == Reverse(InstancesOf(instances, typeName, false).keys)
  {
    assert instances.keys == instances.keys[..i] + instances.keys[i..];
    FilterConcat(instances.keys[..i], instances.keys[i..], OfType(instances.vals, typeName));
  }

  /**
   * The first half of orderPlugins: the package list, with the manager bundle
   * moved to the front, and the dependencies of each package's plugin.
   */
  method BuildDependencies(found: OMap<Plugin>) returns (dependencies: OMap<seq<string>>)
    requires found.Valid()
    ensures dependencies == DependencyMap(found)
  {
    var packages := found.keys;
    if ManagerBundle in found.vals {
      packages := [ManagerBundle] + packages;
      packages := Unique(packages);
    }
    assert packages == PackageList(found);
    PackageListSpec(found);

    dependencies := Empty<seq<string>>();
    for i := 0 to |packages|
      invariant dependencies.Valid()
      invariant dependencies.keys == packages[..i]
      invariant forall k :: k in dependencies.vals ==> k in found.vals && dependencies.vals[k] == DependenciesOf(found.vals[k])
    {
      var packageName := packages[i];
      NextIsFresh(packages, i);
      dependencies := dependencies.Set(packageName, []);
      if IsA(found.vals[packageName], DependentPluginInterface) {
        dependencies := dependencies.Set(packageName, found.vals[packageName].packageDependencies);
      }
    }
    assert packages[..|packages|] == packages;
    SameEntries(dependencies, DependencyMap(found));
  }

  /** The second half of orderPlugins: the plugins re-keyed in the resolved order. */
  method CollectInOrder(order: seq<string>, found: OMap<Plugin>) returns (ordered: OMap<Plugin>)
    requires OMap(order, found.vals).Valid()
    ensures ordered == OMap(order, found.vals)
  {
    ordered := Empty<Plugin>();
    for i := 0 to |order|
      invariant ordered.Valid()
      invariant ordered.keys == order[..i]
      invariant forall k :: k in ordered.vals ==> ordered.vals[k] == found.vals[k]
    {
      var packageName := order[i];
      NextIsFresh(order, i);
      ordered := ordered.Set(packageName, found.vals[packageName]);
    }
    assert order[..|order|] == order;
    SameEntries(ordered, OMap(order, found.vals));
  }

  // ---------------------------------------------------------------------------
  // The loader object
  // ---------------------------------------------------------------------------

  class PluginLoader {
    /** The plugins the installed packages declare, or the error reading them raises. */
    const installed: Result<OMap<Plugin>, Exception>
    /** `null` until the first load. */
    var plugins: Option<OMap<Plugin>>

    ghost predicate Valid()
      reads this
    {
      && (installed.Success? ==> installed.value.Valid())
      && (plugins.Some? ==> plugins.value.Valid())
    }

    constructor(installed: Result<OMap<Plugin>, Exception>)
      requires installed.Success? ==> installed.value.Valid()
      ensures Valid()
      ensures this.installed == installed && plugins == None
    {
      this.installed := installed;
      plugins := None;
    }

    method GetInstances() returns (r: Result<OMap<Plugin>, Exception>)
      requires Valid()
      modifies this
      ensures Valid()
      ensures old(plugins).Some? ==> plugins == old(plugins) && r == Success(old(plugins).value)
      ensures old(plugins).None? ==> r == LoadResult(installed)
      ensures r.Success? ==> plugins == Some(r.value)
      ensures r.Failure? ==> plugins == if installed.Success? then Some(Empty()) else None
    {
      var error := Load();
      if error.Some? {
        return Failure(error.value);
      }
      return Success(plugins.value);
    }

    method GetInstancesOf(typeName: string, reverseOrder: bool) returns (r: Result<OMap<Plugin>, Exception>)
      requires Valid()
      modifies this
      ensures Valid()
      ensures old(plugins).Some? ==> plugins == old(plugins) && r == Success(InstancesOf(old(plugins).value, typeName, reverseOrder))
      ensures old(plugins).None? && LoadResult(installed).Success? ==>
        r == Success(InstancesOf(LoadResult(installed).value, typeName, reverseOrder))
      ensures old(plugins).None? && LoadResult(installed).Failure? ==> r == LoadResult(installed)
      ensures old(plugins).None? && LoadResult(installed).Success? ==> plugins == Some(LoadResult(installed).value)
      ensures old(plugins).None? && LoadResult(installed).Failure? ==>
        plugins == if installed.Success? then Some(Empty()) else None
    {
      var instances := GetInstances();
      if instances.Failure? {
        return instances;
      }
      return Success(InstancesOf(instances.value, typeName, reverseOrder));
    }

    /**
     * Resets the cache to the empty map, then orders the found plugins; on an
     * unresolvable dependency the cache stays empty.
     */
    method OrderPlugins(found: OMap<Plugin>) returns (r: Result<OMap<Plugin>, Exception>)
      requires Valid() && found.Valid()
      modifies this
      ensures Valid()
      ensures plugins == Some(Empty())
      ensures r == OrderedPlugins(found)
    {
      plugins := Some(Empty());
      var dependencies := BuildDependencies(found);
      var resolved := OrderByDependencies(dependencies);
      if resolved.Failure? {
        return Failure(resolved.error);
      }
      var ordered := CollectInOrder(resolved.value, found);
      return Success(ordered);
    }

    /**
     * Loads the plugins once: a loaded cache is kept, otherwise the
     * installed plugins are ordered into the cache.
     */
    method Load() returns (error: Option<Exception>)
      requires Valid()
      modifies this
      ensures Valid()
      ensures old(plugins).Some? ==> plugins == old(plugins) && error == None
      ensures old(plugins).None? ==> match LoadResult(installed)
        case Success(loaded) => plugins == Some(loaded) && error == None
        case Failure(e) => error == Some(e) && plugins == if installed.Success? then Some(Empty()) else None
    {
      if plugins.Some? {
        return None;
      }
      if installed.Failure? {
        return Some(installed.error);
      }
      var ordered := OrderPlugins(installed.value);
      if ordered.Failure? {
        return Some(ordered.error);
      }
      plugins := Some(ordered.value);
      return None;
    }
  }

  /** The outcome of the first load. */
  function LoadResult(installed: Result<OMap<Plugin>, Exception>): Result<OMap<Plugin>, Exception>
    requires installed.Success? ==> installed.value.Valid()
  {
    if installed.Failure? then installed else OrderedPlugins(installed.value)
  }
}
