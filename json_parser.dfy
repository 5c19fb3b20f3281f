/**
 * The JSON parser: the decoded list of bundle entries becomes a list of bundle
 * configs, and a resource is supported when it is a path with the extension
 * `json`.
 */
module JsonParsing {
  import opened Wrappers
  import opened BundleConfigs
  import opened Parsers

  /** A decoded JSON value as far as its truthiness and identity matter here. */
  datatype Json = JBool(b: bool) | JNumber(n: int) | JString(s: string) | JArray(items: seq<Json>)

  /** PHP's conversion of a decoded value to a boolean. */
  predicate Truthy(v: Json) {
    match v
    case JBool(b) => b
    case JNumber(n) => n != 0
    case JString(s) => s != "" && s != "0"
    case JArray(items) => items != []
  }

  /** The keys of an entry object; `None` stands for a key that is absent or null (not `isset`). */
  datatype BundleOptions = BundleOptions(
    bundle: Option<string>,
    optional: Option<Json>,
    replace: Option<seq<string>>,
    development: Option<Json>,
    loadAfter: Option<seq<string>>)

  /** One element of the decoded bundle list: a bare value (a bundle name, or null) or an object of options. */
  datatype Entry = ScalarEntry(value: Option<string>) | OptionsEntry(options: BundleOptions)

  const MissingClassName: string := "Missing class name for bundle config"

  /** A bare value is shorthand for the options `{bundle: value}`. */
  function OptionsOf(entry: Entry): BundleOptions {
    match entry
    case ScalarEntry(value) => BundleOptions(value, None, None, None, None)
    case OptionsEntry(options) => options
  }

  /** Whether an entry is dropped because it is optional and its class does not exist. */
  predicate Skipped(options: BundleOptions, classes: set<string>)
    requires options.bundle.Some?
  {
    options.optional.Some? && Truthy(options.optional.value) && options.bundle.value !in classes
  }

  /** The config an entry with a bundle name describes. */
  function ConfigOf(options: BundleOptions): BundleConfig
    requires options.bundle.Some?
  {
    var config := NewBundleConfig(options.bundle.value);
    var config := if options.replace.Some? then config.(replace := options.replace.value) else config;
    var config :=
      if options.development == Some(JBool(true)) then config.(loadInProduction := false)
      else if options.development == Some(JBool(false)) then config.(loadInDevelopment := false)
      else config;
    if options.loadAfter.Some? then config.(loadAfter := options.loadAfter.value) else config
  }

  /** The configs of a decoded bundle list, in order, or the error of its first entry without a bundle. */
  function ParseAll(bundles: seq<Entry>, classes: set<string>): (r: Result<seq<BundleConfig>, Exception>)
    ensures r.Failure? <==> exists i :: 0 <= i < |bundles| && OptionsOf(bundles[i]).bundle.None?
    ensures r.Failure? ==> r.error == RuntimeException(MissingClassName)
    ensures r.Success? ==> |r.value| <= |bundles|
  {
    if bundles == [] then Success([])
    else
      var front := ParseAll(bundles[..|bundles| - 1], classes);
      var options := OptionsOf(bundles[|bundles| - 1]);
      assert forall i :: 0 <= i < |bundles| - 1 ==> bundles[..|bundles| - 1][i] == bundles[i];
      if front.Failure? then front
      else if options.bundle.None? then Failure(RuntimeException(MissingClassName))
      else if Skipped(options, classes) then front
      else Success(front.value + [ConfigOf(options)])
  }

  /**
   * Appends the configs of `bundles` to `configs`; stops with an error at the
   * first entry without a bundle.
   */
  method ParseBundles(bundles: seq<Entry>, configs: seq<BundleConfig>, classes: set<string>)
    returns (r: Result<seq<BundleConfig>, Exception>)
    ensures ParseAll(bundles, classes).Success? ==> r == Success(configs + ParseAll(bundles, classes).value)
    ensures ParseAll(bundles, classes).Failure? ==> r == ParseAll(bundles, classes)
  {
    var result := configs;
    for i := 0 to |bundles|
      invariant ParseAll(bundles[..i], classes).Success?
      invariant result == configs + ParseAll(bundles[..i], classes).value
    {
      assert bundles[..i + 1][..i] == bundles[..i];
      var options := bundles[i];
      var opts := OptionsOf(options);
      if opts.bundle.None? {
        return Failure(RuntimeException(MissingClassName));
      }
      if opts.optional.Some? && Truthy(opts.optional.value) && opts.bundle.value !in classes {
        continue;
      }
      var config := NewBundleConfig(opts.bundle.value);
      if opts.replace.Some? {
        config := config.(replace := opts.replace.value);
      }
      if opts.development.Some? {
        if opts.development.value == JBool(true) {
          config := config.(loadInProduction := false);
        } else if opts.development.value == JBool(false) {
          config := config.(loadInDevelopment := false);
        }
      }
      if opts.loadAfter.Some? {
        config := config.(loadAfter := opts.loadAfter.value);
      }
      result := result + [config];
    }
    assert bundles[..|bundles|] == bundles;
    return Success(result);
  }

  /** parse, from the decoded content of the resource on. */
  method Parse(json: seq<Entry>, classes: set<string>) returns (r: Result<seq<BundleConfig>, Exception>)
    ensures r == ParseAll(json, classes)
  {
    r := ParseBundles(json, [], classes);
    if r.Success? {
      assert [] + ParseAll(json, classes).value == ParseAll(json, classes).value;
    }
  }

  // ---------------------------------------------------------------------------
  // Properties of one entry and of the whole list
  // ---------------------------------------------------------------------------

  /** A bare name gives the default config of that name. */
  lemma ScalarEntryDefaults(name: string, classes: set<string>)
    ensures ParseAll([ScalarEntry(Some(name))], classes) == Success([BundleConfig(name, [], [], true, true)])
  {
    var entry := ScalarEntry(Some(name));
    assert [entry][..0] == [];
    assert ParseAll([], classes) == Success([]);
    assert !Skipped(OptionsOf(entry), classes);
    assert ConfigOf(OptionsOf(entry)) == BundleConfig(name, [], [], true, true);
    assert [] + [ConfigOf(OptionsOf(entry))] == [ConfigOf(OptionsOf(entry))];
  }

  /** An entry without a bundle name makes the whole list fail. */
  lemma MissingBundleFails(bundles: seq<Entry>, i: int, classes: set<string>)
    requires 0 <= i < |bundles| && OptionsOf(bundles[i]).bundle.None?
    ensures ParseAll(bundles, classes) == Failure(RuntimeException(MissingClassName))
  {
  }

  /**
   * The fields of an entry's config: the given name, the given lists or empty
   * ones, and `development` clearing exactly one flag when it is a boolean.
   */
  lemma ConfigOfSpec(options: BundleOptions)
    requires options.bundle.Some?
    ensures ConfigOf(options).name == options.bundle.value
    ensures ConfigOf(options).replace == if options.replace.Some? then options.replace.value else []
    ensures ConfigOf(options).loadAfter == if options.loadAfter.Some? then options.loadAfter.value else []
    ensures ConfigOf(options).loadInProduction <==> options.development != Some(JBool(true))
    ensures ConfigOf(options).loadInDevelopment <==> options.development != Some(JBool(false))
  {
  }

  /** Parsing distributes over concatenation when the front part parses. */
  lemma {:induction false} ParseAllAppend(a: seq<Entry>, b: seq<Entry>, classes: set<string>)
    requires ParseAll(a, classes).Success? && ParseAll(b, classes).Success?
    ensures ParseAll(a + b, classes) == Success(ParseAll(a, classes).value + ParseAll(b, classes).value)
    decreases |b|
  {
    if b == [] {
      assert a + b == a;
      assert ParseAll(a, classes).value + [] == ParseAll(a, classes).value;
    } else {
      var b' := b[..|b| - 1];
      assert (a + b)[..|a + b| - 1] == a + b';
      assert (a + b)[|a + b| - 1] == b[|b| - 1];
      var last := OptionsOf(b[|b| - 1]);
      var pa, pb' := ParseAll(a, classes).value, ParseAll(b', classes).value;
      assert ParseAll(b', classes).Success?;
      ParseAllAppend(a, b', classes);
      assert last.bundle.Some?;
      if !Skipped(last, classes) {
        assert pa + pb' + [ConfigOf(last)] == pa + (pb' + [ConfigOf(last)]);
      }
    }
  }

  /** A bare value parses exactly like the options object `{bundle: value}`, inside any list. */
  lemma {:induction false} ScalarIsBundleOption(front: seq<Entry>, value: Option<string>, back: seq<Entry>, classes: set<string>)
    ensures ParseAll(front + [ScalarEntry(value)] + back, classes) ==
      ParseAll(front + [OptionsEntry(BundleOptions(value, None, None, None, None))] + back, classes)
    decreases |back|
  {
    var scalar, options := front + [ScalarEntry(value)], front + [OptionsEntry(BundleOptions(value, None, None, None, None))];
    if back == [] {
      assert scalar + back == scalar && options + back == options;
      assert scalar[..|scalar| - 1] == front == options[..|options| - 1];
    } else {
      var back' := back[..|back| - 1];
      assert (scalar + back)[..|scalar + back| - 1] == scalar + back';
      assert (options + back)[..|options + back| - 1] == options + back';
      assert (scalar + back)[|scalar + back| - 1] == back[|back| - 1] == (options + back)[|options + back| - 1];
      ScalarIsBundleOption(front, value, back', classes);
    }
  }

  /** A single entry: skipped entries vanish, others give exactly their config. */
  lemma ParseOne(entry: Entry, classes: set<string>)
    requires OptionsOf(entry).bundle.Some?
    ensures ParseAll([entry], classes) ==
      if Skipped(OptionsOf(entry), classes) then Success([]) else Success([ConfigOf(OptionsOf(entry))])
  {
    assert [entry][..0] == [];
    assert ParseAll([], classes) == Success([]);
    assert [] + [ConfigOf(OptionsOf(entry))] == [ConfigOf(OptionsOf(entry))];
  }

  // ---------------------------------------------------------------------------
  // supports
  // ---------------------------------------------------------------------------

  /** The position of the last `c` in `s`, or -1 when `s` holds no `c`. */
  function LastIndex(s: string, c: char): (r: int)
    ensures -1 <= r < |s|
    ensures r >= 0 ==> s[r] == c
  {
    if |s| == 0 then -1
    else if s[|s| - 1] == c then |s| - 1
    else LastIndex(s[..|s| - 1], c)
  }

  /** No `c` follows the position `LastIndex` reports. */
  lemma {:induction false} LastIndexIsLast(s: string, c: char, j: nat)
    requires j < |s| && s[j] == c
    ensures LastIndex(s, c) >= j
  {
    if s[|s| - 1] != c {
      var front := s[..|s| - 1];
      assert front[j] == c;
      LastIndexIsLast(front, c, j);
    }
  }

  /** pathinfo's base name: the text after the last slash. */
  function BaseName(path: string): (r: string)
    ensures |r| <= |path| && r == path[|path| - |r|..]
  {
    path[LastIndex(path, '/') + 1..]
  }

  /** The text after the last dot of a base name, or nothing when it has no dot. */
  function ExtensionOf(base: string): string {
    var dot := LastIndex(base, '.');
    if dot >= 0 then base[dot + 1..] else ""
  }

  /** pathinfo's extension of a path. */
  function Extension(path: string): string {
    ExtensionOf(BaseName(path))
  }

  /** The JSON parser accepts a path whose extension is exactly `json`; the type is ignored. */
  predicate Supports(resource: Resource, typeName: Option<string>) {
    resource.PathResource? && Extension(resource.path) == "json"
  }

  /** Every character of the suffix `t` of `p` belongs to `t`. */
  lemma SuffixChar(p: string, t: string, j: int)
    requires |t| <= |p| && t == p[|p| - |t|..] && |p| - |t| <= j < |p|
    ensures p[j] in t
  {
    assert p[j] == t[j - (|p| - |t|)];
  }

  /** A suffix of a suffix of `p` is a suffix of `p`. */
  lemma SuffixOfSuffix(p: string, t: string, u: string)
    requires |t| <= |p| && t == p[|p| - |t|..]
    requires |u| <= |t| && u == t[|t| - |u|..]
    ensures u == p[|p| - |u|..]
  {
    assert t[|t| - |u|..] == p[|p| - |u|..];
  }

  /** Of two suffixes of `p`, the shorter is a suffix of the longer. */
  lemma ShorterSuffix(p: string, u: string, t: string)
    requires |t| <= |u| <= |p| && u == p[|p| - |u|..] && t == p[|p| - |t|..]
    ensures t == u[|u| - |t|..]
  {
    assert u[|u| - |t|..] == p[|p| - |t|..];
  }

  /** A base name whose extension is `e` ends in a dot followed by `e`. */
  lemma ExtensionOfSuffix(base: string, e: string)
    requires ExtensionOf(base) == e && e != ""
    ensures |base| > |e| && base[|base| - |e| - 1..] == ['.'] + e
  {
    var dot := LastIndex(base, '.');
    assert base[dot..] == [base[dot]] + base[dot + 1..];
  }

  /** A path whose extension is `e` ends in a dot followed by `e`. */
  lemma ExtensionSuffix(path: string, e: string)
    requires Extension(path) == e && e != ""
    ensures |path| > |e| && path[|path| - |e| - 1..] == ['.'] + e
  {
    var base := BaseName(path);
    ExtensionOfSuffix(base, e);
    SuffixOfSuffix(path, base, ['.'] + e);
  }

  /** A suffix without a slash stays a suffix of the base name. */
  lemma BaseNameKeeps(path: string, t: string)
    requires '/' !in t && |t| <= |path| && t == path[|path| - |t|..]
    ensures |t| <= |BaseName(path)| && t == BaseName(path)[|BaseName(path)| - |t|..]
  {
    var slash := LastIndex(path, '/');
    if slash >= |path| - |t| {
      SuffixChar(path, t, slash);
      assert false;
    }
    var base := BaseName(path);
    assert |t| <= |base|;
    ShorterSuffix(path, base, t);
  }

  /** A base name ending in a dot followed by a dot-free `e` has extension `e`. */
  lemma ExtensionOfDot(base: string, e: string)
    requires '.' !in e && |base| > |e| && base[|base| - |e| - 1..] == ['.'] + e
    ensures ExtensionOf(base) == e
  {
    var at := |base| - |e| - 1;
    var t := ['.'] + e;
    SuffixChar(base, t, at);
    assert base[at] == t[0];
    LastIndexIsLast(base, '.', at);
    var dot := LastIndex(base, '.');
    if dot > at {
      SuffixChar(base, t, dot);
      assert false;
    }
    assert base[at + 1..] == t[1..];
  }

  /** A path ending in a dot followed by `e`, where `e` holds no dot or slash, has extension `e`. */
  lemma SuffixExtension(path: string, e: string)
    requires '.' !in e && '/' !in e
    requires |path| > |e| && path[|path| - |e| - 1..] == ['.'] + e
    ensures Extension(path) == e
  {
    BaseNameKeeps(path, ['.'] + e);
    ExtensionOfDot(BaseName(path), e);
  }

  /** For an `e` without dots or slashes, a path has extension `e` exactly when it ends in a dot and `e`. */
  lemma ExtensionIs(path: string, e: string)
    requires '.' !in e && '/' !in e && e != ""
    ensures Extension(path) == e <==> |path| > |e| && path[|path| - |e| - 1..] == ['.'] + e
  {
    if Extension(path) == e {
      ExtensionSuffix(path, e);
    }
    if |path| > |e| && path[|path| - |e| - 1..] == ['.'] + e {
      SuffixExtension(path, e);
    }
  }

  /** A resource is supported exactly when it is a path ending in `.json`. */
  lemma SupportsJsonPaths(resource: Resource, typeName: Option<string>)
    ensures Supports(resource, typeName) <==>
      resource.PathResource? && |resource.path| >= 5 && resource.path[|resource.path| - 5..] == ".json"
  {
    if resource.PathResource? {
      assert ['.'] + "json" == ".json";
      ExtensionIs(resource.path, "json");
    }
  }
}
