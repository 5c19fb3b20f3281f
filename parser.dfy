/** What every bundle-config parser offers: a support test and a parse operation over a resource. */
module Parsers {
  import opened Wrappers
  import opened BundleConfigs

  /** A resource handed to a parser: a file path, or any other PHP value. */
  datatype Resource = PathResource(path: string) | OtherResource

  /** A parser collaborator, seen only through its two operations. */
  datatype Parser = Parser(
    supports: (Resource, Option<string>) -> bool,
    parse: (Resource, Option<string>) -> Result<seq<BundleConfig>, Exception>)
}
