# Contao manager plugin: bundle and plugin ordering, in Dafny

This project models the parts of the Contao manager plugin that decide which
bundles and manager plugins are loaded, and in which order:

- **ConfigResolver** collects bundle configs. For one environment it returns
  the configs to load, keyed by bundle name. The order puts every bundle after
  the bundles it must load after. A bundle that replaces other names takes
  their place in everybody's load-after lists, and the replaced names drop out.
- **PluginLoader** orders the manager plugins of the installed packages. The
  manager bundle goes first where it can, and every plugin comes after the
  packages it depends on. The loaded map is cached in the `plugins` field.
  `getInstancesOf` filters the cache by type, optionally in reverse.
- **JsonParser** turns the decoded list of bundle entries into bundle configs.
  It supports a path whose extension is `json`.
- **DelegatingParser** is a chain of parsers. The first parser that supports a
  resource parses it. When no parser does, it throws InvalidArgumentException.

Both the ConfigResolver and the PluginLoader use the shared dependency
resolver, `orderByDependencies`. The resolver's own source
(DependencyResolverTrait) is not part of this model. `dependency_resolver.dfy`
defines one that works in passes over the pending names, in key order:

- A name is emitted once every dependency of it that is itself a key has been
  emitted.
- Dependencies on names that are not keys are ignored, and only keys are
  emitted.
- A pass that emits nothing raises UnresolvableDependencies with the names
  still pending.

Two of the properties proved about this resolver follow from its contract
alone, so they hold for any resolver that meets it:

- A success lists every key once, after all its dependencies that are keys.
- A failure comes with a cycle, so no such order exists at all.

A third property rests on the resolver working in key order:

- A first key with no dependency among the keys comes out first.

PHP's ordered arrays with string keys are modelled by `OrderedMap.OMap`, a map
together with its key order. Assigning to an existing key keeps its position.
A new key goes last, and `unset` closes the gap.

Layout:

- `wrappers.dfy`: Option, Result and the exceptions.
- `seqs.dfy`: array_filter, array_unique and array_reverse on lists.
- `ordered_map.dfy`: the ordered-array model.
- `bundle_config.dfy`: the bundle config value.
- `dependency_resolver.dfy`: the resolver.
- `config_resolver.dfy`: the config resolver.
- `plugin_loader.dfy`: the plugin loader.
- `parser.dfy`: the parser interface.
- `json_parser.dfy`: the JSON parser.
- `delegating_parser.dfy`: the delegating parser.

Each loop of the PHP code is a `method` with a `for` loop. Each method is
proved equal to a specification function, and the properties are proved as
lemmas about those functions.

## Model

| member | source | states |
|---|---|---|
| ConfigResolution.ConfigResolver.constructor | src/Bundle/Config/ConfigResolver.php:24 | a new resolver holds no configs |
| ConfigResolution.ConfigResolver.Add | src/Bundle/Config/ConfigResolver.php:29-34 | the config is appended after the earlier ones, which stay unchanged; the resolver itself is returned |
| ConfigResolution.ConfigResolver.GetBundleConfigs | src/Bundle/Config/ConfigResolver.php:39-58 | the result is the environment filter, projected onto the resolved normalized loading order; the method has no `modifies` clause, so `configs` is unchanged and a repeated call gives the same result |
| ConfigResolution.ResolvedBundleConfigs | src/Bundle/Config/ConfigResolver.php:39-58 | definition: the environment's bundles, projected onto the resolved order of the normalized loading order; the resolver's error on failure. Its properties are the BundleConfigs lemmas below |
| ConfigResolution.FilterByEnvironment | src/Bundle/Config/ConfigResolver.php:44-50 | every kept name maps to a registered config of that name that loads in the environment |
| ConfigResolution.EnvironmentLastWins | src/Bundle/Config/ConfigResolver.php:44-50 | the last config of a name decides: the name is kept iff that config loads in the environment, and then it maps to that config (a later non-matching config removes an earlier matching one) |
| ConfigResolution.ConfigResolver.BuildReplaceMap | src/Bundle/Config/ConfigResolver.php:63-76 | the nested loops build exactly the replace map of the registered configs |
| ConfigResolution.ReplaceMap | src/Bundle/Config/ConfigResolver.php:63-76 | every key of the replace map is listed under replace by some config, and maps to that config's name |
| ConfigResolution.ReplaceMapLastWins | src/Bundle/Config/ConfigResolver.php:67-73 | every name any config replaces is a key, mapped to the name of the last config that lists it |
| ConfigResolution.ConfigResolver.BuildLoadingOrder | src/Bundle/Config/ConfigResolver.php:81-96 | the loops build exactly the raw loading order of the registered configs |
| ConfigResolution.LoadingOrder | src/Bundle/Config/ConfigResolver.php:81-96 | a well-formed ordered map whose keys are exactly the registered names |
| ConfigResolution.LoadingOrderLastWins | src/Bundle/Config/ConfigResolver.php:85-93 | the list of a name is the load-after list of the last config of that name, in order, with duplicates kept |
| ConfigResolution.LoadingOrderKeys | src/Bundle/Config/ConfigResolver.php:85-88 | the keys are the registered names, each once, in order of first registration |
| ConfigResolution.ConfigResolver.Order | src/Bundle/Config/ConfigResolver.php:101-112 | the loop builds exactly the projection of the bundles onto the resolved order |
| ConfigResolution.Project | src/Bundle/Config/ConfigResolver.php:101-112 | the result holds exactly the names in both the order and the bundles, each mapped to its bundle |
| ConfigResolution.ProjectKeys | src/Bundle/Config/ConfigResolver.php:105-109 | the result's key order is the resolved order filtered to the names that are bundles |
| ConfigResolution.ConfigResolver.NormalizeLoadingOrder | src/Bundle/Config/ConfigResolver.php:117-128 | the in-place loop yields exactly the normalized loading order |
| ConfigResolution.Normalize | src/Bundle/Config/ConfigResolver.php:117-128 | exactly the keys that are not replaced names survive |
| ConfigResolution.NormalizedKeysStep | src/Bundle/Config/ConfigResolver.php:119-124 | one loop step removes a replaced name from the key order and leaves the order of the others alone; any other name stays where it is |
| ConfigResolution.NormalizedValsStep | src/Bundle/Config/ConfigResolver.php:119-124 | one loop step drops the list of a replaced name; any other name's list is rewritten through the replace map and the rest is untouched |
| ConfigResolution.ConfigResolver.ReplaceBundleNames | src/Bundle/Config/ConfigResolver.php:130-137 | the list keeps its length and order; each entry in the replace map becomes its replacement, once and not transitively, and the others are unchanged |
| ConfigResolution.ReplaceNames | src/Bundle/Config/ConfigResolver.php:130-137 | definition: the list with each entry replaced through the replace map once; characterised entry by entry by ReplacedPointwise |
| ConfigResolution.ReplacedPointwise | src/Bundle/Config/ConfigResolver.php:130-137 | a list that meets ReplaceBundleNames' entry-by-entry description is exactly ReplaceNames, the rewritten list used by the normalization |
| ConfigResolution.BundleConfigsContent | src/Bundle/Config/ConfigResolver.php:39-58 | on success the result holds exactly the environment's bundles whose names no config replaces, each with its filtered config; the only failure is UnresolvableDependencies |
| ConfigResolution.BundleConfigsOrder | src/Bundle/Config/ConfigResolver.php:52-57 | every returned bundle comes after each returned bundle it loads after, once names are redirected to their replacements |
| ConfigResolution.BundleConfigsUnresolvable | src/Bundle/Config/ConfigResolver.php:55 | a failure is UnresolvableDependencies, and then no order satisfies the normalized loading order |
| OrderedMap.OMap.Set | src/Bundle/Config/ConfigResolver.php:46 | assigning a key sets its value; an existing key keeps its position and a new key goes last |
| OrderedMap.OMap.Unset | src/Bundle/Config/ConfigResolver.php:48 | unsetting a key removes it, and the other keys keep their order |
| DependencyResolver.OrderByDependencies | src/Bundle/Config/ConfigResolver.php:55 | on success every key appears exactly once, after all of its dependencies that are keys; a failure is UnresolvableDependencies naming a set of keys that each depend on a member of the set |
| DependencyResolver.Resolve | src/PluginLoader.php:112 | the passes keep the names already emitted as a prefix and end in a complete order or a set of keys stuck on each other |
| DependencyResolver.StuckHasNoOrder | src/Dependency/UnresolvableDependenciesException.php:16 | when the resolver gives up, no order of the keys satisfies the dependencies |
| DependencyResolver.ResolverComplete | src/Bundle/Config/ConfigResolver.php:55 | whenever some order satisfies the dependencies, the resolver succeeds |
| DependencyResolver.FirstKeyFirst | src/PluginLoader.php:97-101 | a first key without dependencies among the keys is emitted first |
| DependencyResolver.SelfDependencyUnresolvable | src/Dependency/UnresolvableDependenciesException.php:16 | a name that must load after itself raises UnresolvableDependencies |
| DependencyResolver.MutualDependencyUnresolvable | src/Dependency/UnresolvableDependenciesException.php:16 | two names that must load after each other raise UnresolvableDependencies |
| DependencyResolver.FilterRespectsDependencies | src/Bundle/Config/ConfigResolver.php:105-109 | dropping names from a valid order keeps the survivors in a valid relative order |
| PluginLoading.PluginLoader.constructor | src/PluginLoader.php:45-48 | a new loader has not loaded anything |
| PluginLoading.PluginLoader.GetInstances | src/PluginLoader.php:55-60 | a loaded cache is returned as is, without reloading; otherwise the first load's outcome is returned and cached |
| PluginLoading.PluginLoader.GetInstancesOf | src/PluginLoader.php:70-80 | the instances of the type, taken from the cache or from the first load |
| PluginLoading.InstancesOf | src/PluginLoader.php:72-79 | exactly the instances that are of the type, under their own names and unchanged |
| PluginLoading.InstancesOfOrder | src/PluginLoader.php:72-79 | the kept names are in loaded order, and with `reverseOrder` the same list is reversed |
| PluginLoading.PluginLoader.OrderPlugins | src/PluginLoader.php:89-117 | the cache is reset to the empty map, and the result is the plugins in resolved order, or the resolver's error |
| PluginLoading.BuildDependencies | src/PluginLoader.php:93-110 | the package list and loop build exactly the dependency map of the plugins |
| PluginLoading.CollectInOrder | src/PluginLoader.php:112-114 | the loop re-keys the plugins in the resolved order |
| PluginLoading.DependencyMap | src/PluginLoader.php:104-110 | one entry per package, in package-list order; the entry is the plugin's package dependencies when it is a dependent plugin, and empty otherwise |
| PluginLoading.PackageList | src/PluginLoader.php:95-101 | definition: the plugin keys, with the manager bundle unshifted and deduplicated when it is installed; characterised by PackageListSpec |
| PluginLoading.OrderedPlugins | src/PluginLoader.php:89-117 | definition: the plugins re-keyed in the resolved order of the dependency map, or the resolver's error; characterised by OrderedPluginsSpec and OrderedPluginsComplete |
| PluginLoading.PackageListSpec | src/PluginLoader.php:95-101 | every plugin is listed once; with the manager bundle installed it comes first and the others keep their order, otherwise the list is the plugin keys |
| PluginLoading.OrderedPluginsSpec | src/PluginLoader.php:112-116 | on success every plugin appears once, unchanged, after the installed packages it depends on; a cycle gives UnresolvableDependencies and no order exists |
| PluginLoading.OrderedPluginsComplete | src/PluginLoader.php:112 | ordering fails only when no order satisfies the dependencies |
| PluginLoading.ManagerBundleFirst | src/PluginLoader.php:97-101 | the manager bundle is loaded first unless it depends on another installed package |
| PluginLoading.ReverseDistinct | src/PluginLoader.php:79 | reversing keeps the same names, without repeats |
| PluginLoading.PluginLoader.Load | src/PluginLoader.php:126-157 | a loaded cache is kept; otherwise the ordered plugins are cached; a read failure leaves the cache unset, and a cycle leaves it empty |
| PluginLoading.LoadResult | src/PluginLoader.php:126-157 | definition: the outcome of a first load, which is the read error or the ordered plugins |
| Seqs.Unique | src/PluginLoader.php:100 | array_unique keeps every element once |
| Seqs.UniqueCons | src/PluginLoader.php:98-100 | unshifting a name onto a repeat-free list and deduplicating moves the name to the front and keeps the others in order |
| Seqs.Reverse | src/PluginLoader.php:79 | array_reverse lists the same elements back to front |
| Seqs.FilterConcat | src/PluginLoader.php:72-77 | array_filter keeps the relative order of the kept elements |
| JsonParsing.ScalarIsBundleOption | src/Bundle/Parser/JsonParser.php:75-77 | anywhere in the list, a bare value parses exactly like the options object `{bundle: value}` |
| JsonParsing.ParseAll | src/Bundle/Parser/JsonParser.php:71-109 | parsing fails iff some entry has no bundle name, and then with the missing-class-name RuntimeException; otherwise there is at most one config per entry |
| JsonParsing.Truthy | src/Bundle/Parser/JsonParser.php:85 | definition: PHP's boolean conversion of a decoded value (false, 0, "", "0" and the empty array are false) |
| JsonParsing.Skipped | src/Bundle/Parser/JsonParser.php:85-87 | definition: an entry is skipped when `optional` is set and truthy and the bundle class does not exist |
| JsonParsing.ConfigOf | src/Bundle/Parser/JsonParser.php:89-105 | definition: the config an entry describes; its fields are stated by ConfigOfSpec |
| JsonParsing.ParseBundles | src/Bundle/Parser/JsonParser.php:71-109 | the loop appends the configs of the entries to the given list, or stops with the error |
| JsonParsing.Parse | src/Bundle/Parser/JsonParser.php:20-28 | parse starts from an empty list and returns the configs of the decoded entries |
| JsonParsing.ScalarEntryDefaults | src/Bundle/Parser/JsonParser.php:75-89 | a bare name gives the default config: no replace, no load-after, loaded in both environments |
| JsonParsing.MissingBundleFails | src/Bundle/Parser/JsonParser.php:79-83 | an entry without a bundle name makes parsing fail with RuntimeException |
| JsonParsing.ConfigOfSpec | src/Bundle/Parser/JsonParser.php:89-105 | the config is named by the bundle; replace and load-after are copied or default to empty; `development` true clears only production, false clears only development, anything else changes neither |
| JsonParsing.ParseOne | src/Bundle/Parser/JsonParser.php:85-107 | an optional entry whose class does not exist gives no config; any other entry gives exactly its config |
| JsonParsing.ParseAllAppend | src/Bundle/Parser/JsonParser.php:73-107 | the configs of two lists are the configs of each, in input order |
| JsonParsing.LastIndexIsLast | src/Bundle/Parser/JsonParser.php:35 | no occurrence of the character follows the position found |
| JsonParsing.ExtensionSuffix | src/Bundle/Parser/JsonParser.php:35 | a path with a non-empty extension ends in a dot followed by that extension |
| JsonParsing.SuffixExtension | src/Bundle/Parser/JsonParser.php:35 | a path ending in a dot followed by a text without dots or slashes has that text as its extension |
| JsonParsing.ExtensionIs | src/Bundle/Parser/JsonParser.php:35 | both directions together: such a text is the extension iff the path ends in a dot and the text |
| JsonParsing.SupportsJsonPaths | src/Bundle/Parser/JsonParser.php:33-36 | a resource is supported iff it is a path ending in `.json`; the type is ignored |
| JsonParsing.Supports | src/Bundle/Parser/JsonParser.php:33-36 | definition: a path whose pathinfo extension is `json`; characterised by SupportsJsonPaths |
| DelegatingParsing.DelegatingParser.constructor | src/Bundle/Parser/DelegatingParser.php:18 | a new chain is empty |
| DelegatingParsing.DelegatingParser.AddParser | src/Bundle/Parser/DelegatingParser.php:25-28 | the parser is appended, and the earlier parsers and their order are unchanged |
| DelegatingParsing.FirstSupportingAppend | src/Bundle/Parser/DelegatingParser.php:25-28 | appending a parser never changes which earlier parser is chosen; the new one is chosen only when no earlier one supports the resource |
| DelegatingParsing.FirstSupporting | src/Bundle/Parser/DelegatingParser.php:35-39 | the position of the first parser that supports the resource, with none before it supporting it; none iff no parser supports it |
| DelegatingParsing.SupportsCalls | src/Bundle/Parser/DelegatingParser.php:49-53 | the calls made by asking the first parsers, in order, whether they support the resource, and nothing else |
| DelegatingParsing.DelegatingParser.Supports | src/Bundle/Parser/DelegatingParser.php:47-56 | true iff some parser supports the resource (so false for an empty chain); the parsers are asked in order up to the first yes, and none is asked to parse |
| DelegatingParsing.DelegatingParser.Parse | src/Bundle/Parser/DelegatingParser.php:33-42 | the first supporting parser's own result, after asking only the parsers up to it; with no supporting parser, InvalidArgumentException after asking all of them. So `Parse` delegates exactly when `Supports` returns true |
| DelegatingParsing.CannotParse | src/Bundle/Parser/DelegatingParser.php:41 | definition: the InvalidArgumentException message naming the resource and the type |

## Left out

- Reading files and decoding JSON are left out: PluginLoader.php:132-155 and JsonParser.php:48-61. The JSON parser starts from the decoded entries. The loader receives the outcome of reading the installed packages as its constructor argument `installed`, either the plugins or the error.
- The app plugin `\ContaoManagerPlugin` is left out (PluginLoader.php:159-163). It depends on class loading.
- `class_exists` is a set of existing class names. `is_a` and `instanceof` are a set of type names per plugin.
- DependencyResolverTrait is not part of this model. The resolver in `dependency_resolver.dfy` stands in for it. Only its contract is relied on, except in `FirstKeyFirst`, which follows from working in key order. Its exception message is not modelled.
- PluginLoading.ManagerBundleFirst: rests on `FirstKeyFirst`, so it holds for a resolver that works in key order. That DependencyResolverTrait does so is an assumption of this model.
- DelegatingParsing.CannotParse: a resource other than a path is rendered as the empty text. PHP's string conversion of other values, with its notices, is not modelled.
- JsonParsing.ParseAll: the RuntimeException message omits the `json_encode` of the offending entry.
- JsonParsing.Supports: pathinfo is modelled as the text after the last dot of the text after the last slash. Trailing slashes, backslashes as separators and locale effects of `basename` are not modelled.
- Decoded JSON values are typed to what the code reads. A `bundle` is a string or absent/null. `replace` and `load-after` are lists of strings or absent/null. Numbers are integers, with no floats. Bundle names that are not strings, and non-list `replace` or `load-after` values, are not modelled.
- Integer-like string keys, which PHP turns into integer keys, are not modelled. Names are plain strings.
- PHP notices, such as reading a missing key at PluginLoader.php:113, are not modelled. In this model the resolver emits only keys, so that read never misses.
- IniParser, the Composer plugin and the interfaces without behaviour are not part of this model.
- The parsers held by DelegatingParser are values with two total functions, `supports` and `parse`. A parser's side effects are not modelled. The call trace `calls` records which of them the chain invokes.
