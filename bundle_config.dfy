/** The configuration of one bundle, as the parsers produce it and the config resolver consumes it. */
module BundleConfigs {

  datatype BundleConfig = BundleConfig(
    name: string,
    replace: seq<string>,      // bundle names this bundle supersedes
    loadAfter: seq<string>,    // bundle names this bundle must be loaded after
    loadInProduction: bool,
    loadInDevelopment: bool)

  /** `new BundleConfig($name)`: nothing replaced, no dependencies, loaded in both environments. */
  function NewBundleConfig(name: string): BundleConfig {
    BundleConfig(name, [], [], true, true)
  }
}
