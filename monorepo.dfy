/** The package inventory that the monorepo introspection hands to the scope
    resolver. Only the fields the resolver reads are kept. */
module Monorepo {

  /** The parts of a package's `package.json` manifest that are read. */
  datatype PackageJson = PackageJson(name: string, version: string)

  /** One discovered package: its path relative to the repository root and
      its parsed manifest. */
  datatype PackageInfo = PackageInfo(packagePath: string, packageJson: PackageJson)

  /** The inventory, keyed by package name in the repository; here the
      values in the order in which `Object.values` yields them. */
  type AllPackageInfo = seq<PackageInfo>

  /** The path of every package, in inventory order. */
  function Paths(xs: AllPackageInfo): (r: seq<string>)
    ensures |r| == |xs|
    ensures forall i :: 0 <= i < |xs| ==> r[i] == xs[i].packagePath
  {
    if xs == [] then [] else [xs[0].packagePath] + Paths(xs[1..])
  }
}
