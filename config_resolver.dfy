/**
 * The config resolver collects bundle configs in registration order and, for
 * one environment, returns the configs to load keyed by bundle name and
 * ordered so that every bundle comes after the bundles it must load after.
 * A bundle that replaces others takes their place in everybody's load-after
 * lists, and the replaced names drop out.
 */
module ConfigResolution {
  import opened Wrappers
  import opened Seqs
  import opened OrderedMap
  import opened DependencyResolver
  import opened BundleConfigs

  /** Whether a config is meant for the development or the production environment. */
  predicate LoadsIn(config: BundleConfig, development: bool) {
    (development && config.loadInDevelopment) || (!development && config.loadInProduction)
  }

  /** Config `i` is the last one registered under its name. */
  ghost predicate IsLastNamed(configs: seq<BundleConfig>, i: int) {
    0 <= i < |configs| && forall j :: i < j < |configs| ==> configs[j].name != configs[i].name
  }

  function Names(configs: seq<BundleConfig>): (r: seq<string>)
    ensures |r| == |configs|
    ensures forall i :: 0 <= i < |configs| ==> r[i] == configs[i].name
  {
    if configs == [] then [] else Names(configs[..|configs| - 1]) + [configs[|configs| - 1].name]
  }

  // ---------------------------------------------------------------------------
  // The specification of each step, one registered config at a time
  // ---------------------------------------------------------------------------

  /**
   * The bundles of the environment: a config of the environment (re)sets its
   * name, any other config removes its name again.
   */
  function FilterByEnvironment(configs: seq<BundleConfig>, development: bool): (bundles: OMap<BundleConfig>)
    ensures bundles.Valid()
    ensures forall k :: k in bundles.vals ==>
      bundles.vals[k] in configs && bundles.vals[k].name == k && LoadsIn(bundles.vals[k], development)
  {
    if configs == [] then Empty()
    else
      var bundles := FilterByEnvironment(configs[..|configs| - 1], development);
      var config := configs[|configs| - 1];
      if LoadsIn(config, development) then bundles.Set(config.name, config) else bundles.Unset(config.name)
  }

  /** Every name a config replaces, mapped to the name of the (last) config replacing it. */
  function ReplaceMap(configs: seq<BundleConfig>): (replace: map<string, string>)
    ensures forall p :: p in replace ==>
      exists i :: 0 <= i < |configs| && p in configs[i].replace && replace[p] == configs[i].name
  {
    if configs == [] then map[]
    else
      var config := configs[|configs| - 1];
      ReplaceMap(configs[..|configs| - 1]) + map p | p in config.replace :: config.name
  }

  /** Every registered name with the load-after list of the last config of that name. */
  function LoadingOrder(configs: seq<BundleConfig>): (loadingOrder: OMap<seq<string>>)
    ensures loadingOrder.Valid()
    ensures forall k :: k in loadingOrder.vals <==> k in Names(configs)
  {
    if configs == [] then Empty()
    else
      var config := configs[|configs| - 1];
      LoadingOrder(configs[..|configs| - 1]).Set(config.name, config.loadAfter)
  }

  function Replaced(name: string, replace: map<string, string>): string {
    if name in replace then replace[name] else name
  }

  function ReplaceNames(loadAfter: seq<string>, replace: map<string, string>): seq<string> {
    seq(|loadAfter|, i requires 0 <= i < |loadAfter| => Replaced(loadAfter[i], replace))
  }

  lemma ReplacedPointwise(loadAfter: seq<string>, replaced: seq<string>, replace: map<string, string>)
    requires |replaced| == |loadAfter|
    requires forall i :: 0 <= i < |loadAfter| ==>
      (loadAfter[i] in replace ==> replaced[i] == replace[loadAfter[i]]) &&
      (loadAfter[i] !in replace ==> replaced[i] == loadAfter[i])
    ensures replaced == ReplaceNames(loadAfter, replace)
  {
  }

  /** The loading order without the replaced names, every load-after name redirected to its replacement. */
  function Normalize(loadingOrder: OMap<seq<string>>, replace: map<string, string>): (normalized: OMap<seq<string>>)
    requires loadingOrder.Valid()
    ensures normalized.Valid()
    ensures forall k :: k in normalized.vals <==> k in loadingOrder.vals && k !in replace
  {
    FilterDistinct(loadingOrder.keys, NotInDomain(replace));
    OMap(Filter(loadingOrder.keys, NotInDomain(replace)),
         map k | k in loadingOrder.vals && k !in replace :: ReplaceNames(loadingOrder.vals[k], replace))
  }

  /** The bundles named in `ordered`, in that order. */
  function Project(bundles: OMap<BundleConfig>, ordered: seq<string>): (r: OMap<BundleConfig>)
    requires bundles.Valid()
    ensures r.Valid()
    ensures forall k :: k in r.vals <==> k in ordered && k in bundles.vals
    ensures forall k :: k in r.vals ==> r.vals[k] == bundles.vals[k]
  {
    if ordered == [] then Empty()
    else
      var r := Project(bundles, ordered[..|ordered| - 1]);
      var name := ordered[|ordered| - 1];
      assert forall k :: k in ordered <==> k in ordered[..|ordered| - 1] || k == name;
      if name in bundles.vals then r.Set(name, bundles.vals[name]) else r
  }

  /** What getBundleConfigs returns for the registered configs. */
  function ResolvedBundleConfigs(configs: seq<BundleConfig>, development: bool): Result<OMap<BundleConfig>, Exception> {
    var resolved := OrderByDependencies(Normalize(LoadingOrder(configs), ReplaceMap(configs)));
    if resolved.Failure? then Failure(resolved.error)
    else Success(Project(FilterByEnvironment(configs, development), resolved.value))
  }

  // ---------------------------------------------------------------------------
  // Properties of the steps
  // ---------------------------------------------------------------------------

  /** Of several configs with one name, the last one decides whether and how the bundle is loaded. */
  lemma {:induction false} EnvironmentLastWins(configs: seq<BundleConfig>, development: bool, i: int)
    requires IsLastNamed(configs, i)
    ensures var bundles := FilterByEnvironment(configs, development);
      && (configs[i].name in bundles.vals <==> LoadsIn(configs[i], development))
      && (configs[i].name in bundles.vals ==> bundles.vals[configs[i].name] == configs[i])
  {
    var n := |configs| - 1;
    var prefix, last := configs[..n], configs[n];
    var before := FilterByEnvironment(prefix, development);
    var after := FilterByEnvironment(configs, development);
    assert after.vals == if LoadsIn(last, development) then before.vals[last.name := last] else before.vals - {last.name};
    if i < n {
      assert IsLastNamed(prefix, i) by {
        forall j | i < j < |prefix| ensures prefix[j].name != prefix[i].name {
          assert prefix[j] == configs[j];
        }
      }
      EnvironmentLastWins(prefix, development, i);
      var name := configs[i].name;
      assert last.name != name && prefix[i] == configs[i];
      assert name in after.vals <==> name in before.vals;
      assert name in after.vals ==> after.vals[name] == before.vals[name];
    } else {
      assert last == configs[i];
    }
  }

  /** A replaced name maps to the last config that lists it under replace. */
  lemma {:induction false} ReplaceMapLastWins(configs: seq<BundleConfig>, i: int, p: string)
    requires 0 <= i < |configs| && p in configs[i].replace
    requires forall j :: i < j < |configs| ==> p !in configs[j].replace
    ensures p in ReplaceMap(configs) && ReplaceMap(configs)[p] == configs[i].name
  {
    var n := |configs| - 1;
    var prefix, last := configs[..n], configs[n];
    var added := map q | q in last.replace :: last.name;
    var earlier := ReplaceMap(prefix);
    var merged := earlier + added;
    assert ReplaceMap(configs) == merged;
    if i < n {
      assert prefix[i] == configs[i];
      forall j | i < j < |prefix| ensures p !in prefix[j].replace {
        assert prefix[j] == configs[j];
      }
      ReplaceMapLastWins(prefix, i, p);
      assert p !in added;
      assert merged[p] == earlier[p] == configs[i].name;
    } else {
      assert last == configs[i];
      assert p in added && added[p] == last.name;
      assert merged[p] == last.name;
    }
  }

  /** The load-after list of a name is the one of the last config of that name. */
  lemma {:induction false} LoadingOrderLastWins(configs: seq<BundleConfig>, i: int)
    requires IsLastNamed(configs, i)
    ensures configs[i].name in LoadingOrder(configs).vals
    ensures LoadingOrder(configs).vals[configs[i].name] == configs[i].loadAfter
  {
    var n := |configs| - 1;
    if i < n {
      var prefix := configs[..n];
      assert IsLastNamed(prefix, i) by {
        forall j | i < j < |prefix| ensures prefix[j].name != prefix[i].name {
          assert prefix[j] == configs[j];
        }
      }
      LoadingOrderLastWins(prefix, i);
    }
  }

  /** The loading order lists each name once, at the position where it was first registered. */
  lemma {:induction false} LoadingOrderKeys(configs: seq<BundleConfig>)
    ensures LoadingOrder(configs).keys == Unique(Names(configs))
  {
    if configs != [] {
      var prefix := configs[..|configs| - 1];
      assert Names(configs)[..|configs| - 1] == Names(prefix);
      LoadingOrderKeys(prefix);
    }
  }

  /** Projecting a duplicate-free order keeps its relative order. */
  lemma {:induction false} ProjectKeys(bundles: OMap<BundleConfig>, ordered: seq<string>)
    requires bundles.Valid() && Distinct(ordered)
    ensures Project(bundles, ordered).keys == Filter(ordered, InDomain(bundles.vals))
  {
    if ordered != [] {
      var prefix := ordered[..|ordered| - 1];
      var name := ordered[|ordered| - 1];
      assert name !in prefix;
      ProjectKeys(bundles, prefix);
    }
  }

  /**
   * getBundleConfigs returns exactly the bundles of the environment whose
   * names no config replaces, each with its last matching config; it fails
   * only when the load-after lists are circular.
   */
  lemma BundleConfigsContent(configs: seq<BundleConfig>, development: bool)
    ensures match ResolvedBundleConfigs(configs, development)
      case Success(bundles) =>
        && bundles.Valid()
        && (forall k :: k in bundles.vals <==>
              k in FilterByEnvironment(configs, development).vals && k !in ReplaceMap(configs))
        && (forall k :: k in bundles.vals ==> bundles.vals[k] == FilterByEnvironment(configs, development).vals[k])
      case Failure(e) => e.UnresolvableDependencies?
  {
    var filtered := FilterByEnvironment(configs, development);
    forall k | k in filtered.vals ensures k in Names(configs) {
      var i :| 0 <= i < |configs| && configs[i] == filtered.vals[k];
      assert Names(configs)[i] == k;
    }
  }

  /**
   * In the result, every bundle comes after each returned bundle it loads
   * after, once replaced names are redirected to their replacements.
   */
  lemma BundleConfigsOrder(configs: seq<BundleConfig>, development: bool)
    requires ResolvedBundleConfigs(configs, development).Success?
    ensures var bundles := ResolvedBundleConfigs(configs, development).value;
      forall i, b :: 0 <= i < |bundles.keys| && b in bundles.vals &&
        b in ReplaceNames(Requires(LoadingOrder(configs).vals, bundles.keys[i]), ReplaceMap(configs))
        ==> b in bundles.keys[..i]
  {
    var loadingOrder, replace := LoadingOrder(configs), ReplaceMap(configs);
    var normalized := Normalize(loadingOrder, replace);
    var ordered := OrderByDependencies(normalized).value;
    var filtered := FilterByEnvironment(configs, development);
    var bundles := ResolvedBundleConfigs(configs, development).value;
    BundleConfigsContent(configs, development);
    ProjectKeys(filtered, ordered);
    FilterRespectsDependencies(normalized.vals, ordered, InDomain(filtered.vals));
    forall i, b | 0 <= i < |bundles.keys| && b in bundles.vals &&
        b in ReplaceNames(Requires(loadingOrder.vals, bundles.keys[i]), replace)
      ensures b in bundles.keys[..i]
    {
      var a := bundles.keys[i];
      assert Requires(normalized.vals, a) == ReplaceNames(Requires(loadingOrder.vals, a), replace);
    }
  }

  /** A failure means that no order of the normalized loading order satisfies it. */
  lemma BundleConfigsUnresolvable(configs: seq<BundleConfig>, development: bool)
    requires ResolvedBundleConfigs(configs, development).Failure?
    ensures ResolvedBundleConfigs(configs, development).error.UnresolvableDependencies?
    ensures forall s :: !IsTopologicalOrder(Normalize(LoadingOrder(configs), ReplaceMap(configs)).vals, s)
  {
    var normalized := Normalize(LoadingOrder(configs), ReplaceMap(configs));
    var pending := OrderByDependencies(normalized).error.pending;
    forall s ensures !IsTopologicalOrder(normalized.vals, s) {
      StuckHasNoOrder(normalized.vals, pending, s);
    }
  }

  /** The names of the loading order once its first `i` names have been normalized. */
  ghost function NormalizedKeys(keys: seq<string>, replace: map<string, string>, i: nat): seq<string>
    requires i <= |keys|
  {
    Filter(keys[..i], NotInDomain(replace)) + keys[i..]
  }

  /** The load-after lists of the loading order once its first `i` names have been normalized. */
  ghost function NormalizedVals(keys: seq<string>, vals: map<string, seq<string>>, replace: map<string, string>, i: nat): map<string, seq<string>>
    requires i <= |keys|
  {
    map k | k in vals && (k in keys[..i] ==> k !in replace) ::
      if k in keys[..i] then ReplaceNames(vals[k], replace) else vals[k]
  }

  lemma NormalizedStart(loadingOrder: OMap<seq<string>>, replace: map<string, string>)
    ensures NormalizedKeys(loadingOrder.keys, replace, 0) == loadingOrder.keys
    ensures NormalizedVals(loadingOrder.keys, loadingOrder.vals, replace, 0) == loadingOrder.vals
  {
    assert loadingOrder.keys[..0] == [];
    assert loadingOrder.keys[0..] == loadingOrder.keys;
  }

  lemma NormalizedEnd(loadingOrder: OMap<seq<string>>, replace: map<string, string>)
    requires loadingOrder.Valid()
    ensures NormalizedKeys(loadingOrder.keys, replace, |loadingOrder.keys|) == Normalize(loadingOrder, replace).keys
    ensures NormalizedVals(loadingOrder.keys, loadingOrder.vals, replace, |loadingOrder.keys|) == Normalize(loadingOrder, replace).vals
  {
    var keys := loadingOrder.keys;
    assert keys[..|keys|] == keys;
    assert keys[|keys|..] == [];
  }

  lemma NormalizedKeysStep(keys: seq<string>, replace: map<string, string>, i: nat)
    requires Distinct(keys) && i < |keys|
    ensures NormalizedKeys(keys, replace, i + 1) ==
      if keys[i] in replace then Without(NormalizedKeys(keys, replace, i), keys[i]) else NormalizedKeys(keys, replace, i)
  {
    var p, name := NotInDomain(replace), keys[i];
    var front, rest := keys[..i], keys[i + 1..];
    var done := Filter(front, p);
    assert keys[..i + 1][..i] == front;
    assert keys[..i + 1][i] == name;
    assert keys[i..] == [name] + rest;
    assert keys == front + [name] + rest;
    assert name !in front && name !in rest;
    assert NormalizedKeys(keys, replace, i) == done + [name] + rest;
    if name in replace {
      assert Filter(keys[..i + 1], p) == done;
      WithoutSingle(done, name, rest);
    } else {
      assert Filter(keys[..i + 1], p) == done + [name];
    }
  }

  lemma NormalizedValsStep(keys: seq<string>, vals: map<string, seq<string>>, replace: map<string, string>, i: nat)
    requires Distinct(keys) && i < |keys| && keys[i] in vals
    ensures keys[i] in NormalizedVals(keys, vals, replace, i)
    ensures NormalizedVals(keys, vals, replace, i)[keys[i]] == vals[keys[i]]
    ensures NormalizedVals(keys, vals, replace, i + 1) ==
      if keys[i] in replace then NormalizedVals(keys, vals, replace, i) - {keys[i]}
      else NormalizedVals(keys, vals, replace, i)[keys[i] := ReplaceNames(vals[keys[i]], replace)]
  {
    var name := keys[i];
    assert keys[..i + 1] == keys[..i] + [name];
    assert name !in keys[..i];
  }

  // ---------------------------------------------------------------------------
  // The resolver object
  // ---------------------------------------------------------------------------

  class ConfigResolver {
    var configs: seq<BundleConfig>

    constructor()
      ensures configs == []
    {
      configs := [];
    }

    /** Registers a config after the ones already added; returns the resolver itself. */
    method Add(config: BundleConfig) returns (self: ConfigResolver)
      modifies this
      ensures configs == old(configs) + [config]
      ensures self == this
    {
      configs := configs + [config];
      self := this;
    }

    method GetBundleConfigs(development: bool) returns (r: Result<OMap<BundleConfig>, Exception>)
      ensures r == ResolvedBundleConfigs(configs, development)
    {
      var bundles := Empty<BundleConfig>();
      for i := 0 to |configs|
        invariant bundles == FilterByEnvironment(configs[..i], development)
      {
        var config := configs[i];
        assert configs[..i + 1][..i] == configs[..i];
        if LoadsIn(config, development) {
          bundles := bundles.Set(config.name, config);
        } else {
          bundles := bundles.Unset(config.name);
        }
      }
      assert configs[..|configs|] == configs;
      var loadingOrder := BuildLoadingOrder();
      var replaceMap := BuildReplaceMap();
      var normalizedOrder := NormalizeLoadingOrder(loadingOrder, replaceMap);
      var resolvedOrder := OrderByDependencies(normalizedOrder);
      if resolvedOrder.Failure? {
        return Failure(resolvedOrder.error);
      }
      var ordered := Order(bundles, resolvedOrder.value);
      return Success(ordered);
    }

    method BuildReplaceMap() returns (replace: map<string, string>)
      ensures replace == ReplaceMap(configs)
    {
      replace := map[];
      for i := 0 to |configs|
        invariant replace == ReplaceMap(configs[..i])
      {
        var bundle := configs[i];
        var name := bundle.name;
        ghost var before := replace;
        for j := 0 to |bundle.replace|
          invariant forall p :: p in replace <==> p in before || p in bundle.replace[..j]
          invariant forall p :: p in replace ==> replace[p] == if p in bundle.replace[..j] then name else before[p]
        {
          assert forall p :: p in bundle.replace[..j + 1] <==> p in bundle.replace[..j] || p == bundle.replace[j];
          replace := replace[bundle.replace[j] := name];
        }
        assert bundle.replace[..|bundle.replace|] == bundle.replace;
        assert configs[..i + 1][..i] == configs[..i];
        ghost var expected := before + map p | p in bundle.replace :: name;
        assert forall p :: p in replace <==> p in expected;
        assert forall p :: p in replace ==> replace[p] == expected[p];
        assert replace == expected;
      }
      assert configs[..|configs|] == configs;
    }

    method BuildLoadingOrder() returns (loadingOrder: OMap<seq<string>>)
      ensures loadingOrder == LoadingOrder(configs)
    {
      loadingOrder := Empty();
      for i := 0 to |configs|
        invariant loadingOrder == LoadingOrder(configs[..i])
      {
        var bundle := configs[i];
        var name := bundle.name;
        // The list of `name` starts out empty and receives the packages one by one.
        var loadAfter := [];
        for j := 0 to |bundle.loadAfter|
          invariant loadAfter == bundle.loadAfter[..j]
        {
          assert bundle.loadAfter[..j + 1] == bundle.loadAfter[..j] + [bundle.loadAfter[j]];
          loadAfter := loadAfter + [bundle.loadAfter[j]];
        }
        assert bundle.loadAfter[..|bundle.loadAfter|] == bundle.loadAfter;
        loadingOrder := loadingOrder.Set(name, loadAfter);
        assert configs[..i + 1][..i] == configs[..i];
      }
      assert configs[..|configs|] == configs;
    }

    method Order(bundles: OMap<BundleConfig>, ordered: seq<string>) returns (r: OMap<BundleConfig>)
      requires bundles.Valid()
      ensures r == Project(bundles, ordered)
    {
      r := Empty();
      for i := 0 to |ordered|
        invariant r == Project(bundles, ordered[..i])
      {
        var package := ordered[i];
        assert ordered[..i + 1][..i] == ordered[..i];
        if package in bundles.vals {
          r := r.Set(package, bundles.vals[package]);
        }
      }
      assert ordered[..|ordered|] == ordered;
    }

    method NormalizeLoadingOrder(loadingOrder: OMap<seq<string>>, replace: map<string, string>) returns (normalized: OMap<seq<string>>)
      requires loadingOrder.Valid()
      ensures normalized == Normalize(loadingOrder, replace)
    {
      normalized := loadingOrder;
      var keys := loadingOrder.keys;
      NormalizedStart(loadingOrder, replace);
      for i := 0 to |keys|
        invariant normalized.Valid()
        invariant normalized.keys == NormalizedKeys(keys, replace, i)
        invariant normalized.vals == NormalizedVals(keys, loadingOrder.vals, replace, i)
      {
        var bundleName := keys[i];
        NormalizedKeysStep(keys, replace, i);
        NormalizedValsStep(keys, loadingOrder.vals, replace, i);
        if bundleName in replace {
          normalized := normalized.Unset(bundleName);
        } else {
          var loadAfter := ReplaceBundleNames(normalized.vals[bundleName], replace);
          ReplacedPointwise(loadingOrder.vals[bundleName], loadAfter, replace);
          normalized := normalized.Set(bundleName, loadAfter);
        }
      }
      NormalizedEnd(loadingOrder, replace);
    }

    method ReplaceBundleNames(loadAfter: seq<string>, replace: map<string, string>) returns (replaced: seq<string>)
      ensures |replaced| == |loadAfter|
      ensures forall i :: 0 <= i < |loadAfter| ==>
        (loadAfter[i] in replace ==> replaced[i] == replace[loadAfter[i]]) &&
        (loadAfter[i] !in replace ==> replaced[i] == loadAfter[i])
    {
      replaced := loadAfter;
      for i := 0 to |replaced|
        invariant |replaced| == |loadAfter|
        invariant forall j :: 0 <= j < i ==> replaced[j] == Replaced(loadAfter[j], replace)
        invariant forall j :: i <= j < |loadAfter| ==> replaced[j] == loadAfter[j]
      {
        if replaced[i] in replace {
          replaced := replaced[i := replace[replaced[i]]];
        }
      }
    }
  }
}
