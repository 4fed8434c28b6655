# Beachball scope resolver

A Dafny model of `getScopes` from Fluent UI's release scripts. `getScopes`
reads the monorepo's package inventory and returns the scope patterns that
beachball's bump and publish commands are given. It has two modes:

- In vnext release mode it returns an include list. The list holds the paths
  of every converged package (version starting with `9.`), then the paths of
  the private packages `perf-test` and `vr-tests`.
- In default mode it returns a two-part value. The first part is the fixed
  exclusion `!packages/fluentui/*` (Northstar is never published with
  beachball). The second part is a nested list that excludes every
  converged package: each path gets a `!` prefix.

The project has three modules:

- `Monorepo` (`monorepo.dfy`) holds the package records. A record keeps only
  the fields that are read: path, manifest name and manifest version. The
  inventory is the sequence of those records, in `Object.values` order.
- `Scopes` (`get_scopes.dfy`) models the resolver itself. Each
  `.map(callback).filter(Boolean)` chain has two stages. `MapValues` applies
  the callback, which returns a path or the `false` placeholder.
  `FilterTruthy` then keeps the truthy results. So a selected package whose
  path is the empty string is dropped, just as `Boolean("")` drops it. The
  default-mode result is its own constructor, `Default(head, negated)`; it is
  not flattened.
- `Sequences` (`sequences.dfy`) defines subsequence and distinctness. These
  are used to state that the filters keep inventory order.

What stands in for the outside world:

- The environment variable `RELEASE_VNEXT` becomes the `bool` parameter
  `releaseVNext` of `GetScopes`. It stands for "the variable is set to a
  truthy string".
- The inventory that `getAllPackageInfo()` builds becomes the parameter `xs`.

## Model

| member | source | states |
|---|---|---|
| `Scopes.StartsWith` | scripts/beachball/getScopes.ts:24 | `startsWith`: the string is at least as long as the prefix and it begins with the prefix, character for character |
| `Scopes.IsVNext` | scripts/beachball/getScopes.ts:24 | a package is vnext exactly when its version has at least two characters and begins with `9` then `.` (so `19.0.0` and `9` are not) |
| `Scopes.IsShared` | scripts/beachball/getScopes.ts:38-40 | a package is shared exactly when its name is exactly `perf-test` or `vr-tests` |
| `Scopes.VNextCandidate` | scripts/beachball/getScopes.ts:23-29 | the callback returns the package's own path or `false`, and a path exactly when the package is vnext |
| `Scopes.SharedCandidate` | scripts/beachball/getScopes.ts:35-45 | the callback returns the package's own path or `false`, and a path exactly when the package is allow-listed |
| `Scopes.Truthy` | scripts/beachball/getScopes.ts:30 | a callback result is falsy exactly when it is `false` or the empty string |
| `Scopes.MapValues` | scripts/beachball/getScopes.ts:22-29 | the mapped sequence has one callback result per package, at the same position |
| `Scopes.FilterTruthy` | scripts/beachball/getScopes.ts:30 | the filtered list is no longer than its input, and a string is in it exactly when it is non-empty and occurs as a path result in the input |
| `Scopes.FilterMapMembership` | scripts/beachball/getScopes.ts:22-30 | a path survives map-then-filter exactly when it is non-empty and the callback returned it for some package |
| `Scopes.MapValuesAppend` | scripts/beachball/getScopes.ts:22-29 | mapping a concatenated inventory is the concatenation of the two mapped parts |
| `Scopes.FilterTruthyAppend` | scripts/beachball/getScopes.ts:30 | filtering a concatenation is the concatenation of the two filtered parts, so order is kept |
| `Scopes.FilterMapSingleton` | scripts/beachball/getScopes.ts:22-30 | for one package, the pipeline yields its callback's path when that is truthy and nothing otherwise |
| `Scopes.FilterMapSelects` | scripts/beachball/getScopes.ts:22-30 | for a callback that returns the package's own path when a test holds and `false` otherwise, a path is kept exactly when it is non-empty and some package with that path passes the test |
| `Scopes.FilterMapSubsequence` | scripts/beachball/getScopes.ts:22-30 | for a callback that returns the package's own path or `false`, the output is a subsequence of the inventory's paths |
| `Scopes.GetVNextPackagePaths` | scripts/beachball/getScopes.ts:21-31 | at most one path per package, and a path is a vnext path exactly when it is non-empty and some package with that path has a version starting with `9.` |
| `Scopes.VNextOrder` | scripts/beachball/getScopes.ts:21-31 | the vnext paths are a subsequence of the inventory's paths, at most one per package, and have no repeats when the inventory's paths have none |
| `Scopes.VNextCompositional` | scripts/beachball/getScopes.ts:21-31 | the vnext paths of `xs + ys` are those of `xs` then those of `ys`; one package yields `[path]` exactly when it is vnext with a non-empty path, else `[]` (together these fix the result) |
| `Scopes.GetSharedPackagePaths` | scripts/beachball/getScopes.ts:33-47 | at most one path per package, and a path is a shared path exactly when it is non-empty and some package with that path is named exactly `perf-test` or `vr-tests` |
| `Scopes.SharedNoneWithoutAllowListedNames` | scripts/beachball/getScopes.ts:38-46 | an inventory in which no package has an allow-listed name has no shared paths |
| `Scopes.SharedOrder` | scripts/beachball/getScopes.ts:33-47 | the shared paths are a subsequence of the inventory's paths, at most one per package, and have no repeats when the inventory's paths have none |
| `Scopes.SharedCompositional` | scripts/beachball/getScopes.ts:33-47 | the shared paths of `xs + ys` are those of `xs` then those of `ys`; one package yields `[path]` exactly when it is allow-listed with a non-empty path, else `[]` |
| `Scopes.EmptyPathDropped` | scripts/beachball/getScopes.ts:30 | a package whose path is the empty string contributes to neither list, even when its version or name matches |
| `Scopes.Negate` | scripts/beachball/getScopes.ts:17 | each output pattern is `!` followed by the path at the same position, and the output has the same length |
| `Scopes.NegateRoundTrip` | scripts/beachball/getScopes.ts:17 | removing the leading `!` from every negated pattern gives the original paths back |
| `Scopes.GetScopes` | scripts/beachball/getScopes.ts:10-19 | the result is the flat vnext-mode list exactly when the release flag is set |
| `Scopes.VNextModeScopes` | scripts/beachball/getScopes.ts:13-15 | in vnext mode the result is the vnext paths followed by the shared paths, and a path is in it exactly when some package with that non-empty path is vnext or allow-listed |
| `Scopes.DefaultModeScopes` | scripts/beachball/getScopes.ts:17-18 | in default mode the result has two parts: the constant `IgnoreNorthstarScope` of line 4, the literal `!packages/fluentui/*`, for every inventory, then a list as long as the vnext paths whose element i is `!` + vnext path i; every element starts with `!`, and stripping it gives the vnext paths back |
| `Scopes.DefaultModeMembership` | scripts/beachball/getScopes.ts:17-18 | in default mode a pattern is in the nested list exactly when it is `!` followed by the non-empty path of some vnext package |
| `Scopes.EmptyInventory` | scripts/beachball/getScopes.ts:10-47 | for an empty inventory both helpers return `[]`, vnext mode returns `[]`, and default mode returns `("!packages/fluentui/*", [])` |
| `Scopes.ExampleVNextPaths` | scripts/beachball/getScopes.ts:21-31 | of the inventory {a: 9.2.0, b: 8.9.0, perf-test: 1.0.0}, only `pkgs/a` is a vnext path |
| `Scopes.ExampleSharedPaths` | scripts/beachball/getScopes.ts:33-47 | of the same inventory, only `pkgs/perf-test` is a shared path |
| `Scopes.ExampleNegation` | scripts/beachball/getScopes.ts:17 | the worked inventory's one vnext path `pkgs/a` becomes the exclusion `!pkgs/a` |
| `Scopes.WorkedExample` | scripts/beachball/getScopes.ts:10-19 | for that inventory, vnext mode gives `["pkgs/a", "pkgs/perf-test"]` and default mode gives `("!packages/fluentui/*", ["!pkgs/a"])` |

## Left out

- `getAllPackageInfo()` (scripts/beachball/getScopes.ts:1, 11) scans package manifests on disk. That code is not part of this model, so the inventory is a parameter.
- The inventory is keyed by package name. The model is the sequence of its values in `Object.values` order, because only the values and their order are used. The key/name relation is not modelled.
- Reading `process.env.RELEASE_VNEXT` and deciding whether the string is truthy (line 13) belong to the process environment. They are replaced by a `bool` parameter.
- A package whose manifest has no `version` makes `startsWith` throw at line 24, so it is not silently excluded. The model gives every record a string name and version, so neither that exception nor the `as string[]` casts (lines 30, 46) arise.
- Duplicates: the inventory is keyed by package name, so two packages may share a path. The model does not assume distinct paths. Instead `VNextOrder` and `SharedOrder` prove that the output has no repeated path whenever the inventory has none.
- Determinism and idempotence (calling `getScopes` twice gives equal results): every Dafny function is deterministic by construction. A lemma saying so would be a tautology, so none is written.
- How beachball interprets the `!`-prefixed glob patterns is outside this component.
