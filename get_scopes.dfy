/** The beachball scope resolver: from the package inventory it computes the
    include/exclude path patterns given to beachball's bump and publish
    commands. Reading the environment flag and scanning the monorepo are
    replaced by parameters. */
module Scopes {
  import opened Monorepo
  import opened Sequences

  /** Northstar (the packages under packages/fluentui) is never published
      with beachball. */
  const IgnoreNorthstarScope: string := "!packages/fluentui/*"

  /** Version prefix that marks a converged ("vnext") package. */
  const VNextVersionPrefix: string := "9."

  /** Private packages that depend on converged packages; they are put in
      the publish scope so that their dependencies are bumped. */
  const PrivateNonConverged: seq<string> := ["perf-test", "vr-tests"]

  /** What a `.map` callback returns: a package path, or the `false`
      placeholder for a package that is not selected. */
  datatype PathOrFalse = Path(path: string) | False

  /** JavaScript truthiness of a callback result, as `Boolean` tests it:
      `false` and the empty string are falsy, every other string is truthy. */
  predicate Truthy(v: PathOrFalse)
    ensures !Truthy(v) <==> v == False || v == Path("")
  {
    v.Path? && v.path != ""
  }

  /** The result of `getScopes`: in vnext mode a flat list of paths; in
      default mode a pair of one pattern and a nested list of patterns. */
  datatype Scopes =
    | VNext(paths: seq<string>)
    | Default(head: string, negated: seq<string>)

  /** `String.prototype.startsWith`. */
  predicate StartsWith(s: string, prefix: string)
    ensures StartsWith(s, prefix) <==> |prefix| <= |s| && s[..|prefix|] == prefix
  {
    prefix <= s
  }

  /** The selection test of `getVNextPackagePaths`. */
  predicate IsVNext(p: PackageInfo)
    ensures IsVNext(p) <==> |p.packageJson.version| >= 2
                              && p.packageJson.version[0] == '9' && p.packageJson.version[1] == '.'
  {
    StartsWith(p.packageJson.version, VNextVersionPrefix)
  }

  /** The selection test of `getSharedPackagePaths`: `Array.prototype.includes`
      on the allow-list, which compares names exactly. */
  predicate IsShared(p: PackageInfo)
    ensures IsShared(p) <==> p.packageJson.name == "perf-test" || p.packageJson.name == "vr-tests"
  {
    p.packageJson.name in PrivateNonConverged
  }

  /** The callback of `getVNextPackagePaths`. */
  function VNextCandidate(p: PackageInfo): (r: PathOrFalse)
    ensures r == False || r == Path(p.packagePath)
    ensures r.Path? <==> IsVNext(p)
  {
    if IsVNext(p) then Path(p.packagePath) else False
  }

  /** The callback of `getSharedPackagePaths`. */
  function SharedCandidate(p: PackageInfo): (r: PathOrFalse)
    ensures r == False || r == Path(p.packagePath)
    ensures r.Path? <==> IsShared(p)
  {
    if IsShared(p) then Path(p.packagePath) else False
  }

  /** A callback that returns either the package's own path or `false`,
      as both callbacks above do. */
  ghost predicate SelectsOwnPath(f: PackageInfo -> PathOrFalse) {
    forall p :: f(p) == False || f(p) == Path(p.packagePath)
  }

  /** `Array.prototype.map` over the inventory values. */
  function MapValues(xs: AllPackageInfo, f: PackageInfo -> PathOrFalse): (r: seq<PathOrFalse>)
    ensures |r| == |xs|
    ensures forall i :: 0 <= i < |xs| ==> r[i] == f(xs[i])
  {
    if xs == [] then [] else [f(xs[0])] + MapValues(xs[1..], f)
  }

  /** `.filter(Boolean) as string[]`: keeps the truthy results, in order. */
  function FilterTruthy(vs: seq<PathOrFalse>): (r: seq<string>)
    ensures |r| <= |vs|
    ensures forall s :: s in r <==> s != "" && Path(s) in vs
  {
    if vs == [] then []
    else (if Truthy(vs[0]) then [vs[0].path] else []) + FilterTruthy(vs[1..])
  }

  /** `getVNextPackagePaths`: a path is a vnext path exactly when it is
      non-empty and belongs to a package whose version starts with "9.". */
  function GetVNextPackagePaths(xs: AllPackageInfo): (r: seq<string>)
    ensures |r| <= |xs|
    ensures forall s :: s in r <==>
              s != "" && exists i :: 0 <= i < |xs| && xs[i].packagePath == s && IsVNext(xs[i])
  {
    FilterMapSelects(xs, VNextCandidate, IsVNext);
    FilterTruthy(MapValues(xs, VNextCandidate))
  }

  /** `getSharedPackagePaths`: a path is a shared path exactly when it is
      non-empty and belongs to a package named exactly "perf-test" or
      "vr-tests". */
  function GetSharedPackagePaths(xs: AllPackageInfo): (r: seq<string>)
    ensures |r| <= |xs|
    ensures forall s :: s in r <==>
              s != "" && exists i :: 0 <= i < |xs| && xs[i].packagePath == s
                                     && (xs[i].packageJson.name == "perf-test" || xs[i].packageJson.name == "vr-tests")
  {
    FilterMapSelects(xs, SharedCandidate, IsShared);
    FilterTruthy(MapValues(xs, SharedCandidate))
  }

  /** `paths.map(path => `!${path}`)`: turns include paths into exclusions. */
  function Negate(paths: seq<string>): (r: seq<string>)
    ensures |r| == |paths|
    ensures forall i :: 0 <= i < |paths| ==> |r[i]| == |paths[i]| + 1 && r[i][0] == '!' && r[i][1..] == paths[i]
  {
    seq(|paths|, i requires 0 <= i < |paths| => "!" + paths[i])
  }

  /** Removes a leading `!` from every pattern that has one. */
  function StripNegation(patterns: seq<string>): (r: seq<string>)
    ensures |r| == |patterns|
  {
    seq(|patterns|, i requires 0 <= i < |patterns| =>
      if |patterns[i]| > 0 && patterns[i][0] == '!' then patterns[i][1..] else patterns[i])
  }

  /** `getScopes`, with the `RELEASE_VNEXT` environment variable's truthiness
      passed as `releaseVNext` and the inventory passed as `xs`. */
  function GetScopes(xs: AllPackageInfo, releaseVNext: bool): (r: Scopes)
    ensures r.VNext? <==> releaseVNext
  {
    if releaseVNext then
      VNext(GetVNextPackagePaths(xs) + GetSharedPackagePaths(xs))
    else
      Default(IgnoreNorthstarScope, Negate(GetVNextPackagePaths(xs)))
  }

  // ---------------------------------------------------------------------
  // The map-then-filter pipeline

  /** A path is kept exactly when it is non-empty and the callback returned
      it for some package. */
  lemma {:induction false} FilterMapMembership(xs: AllPackageInfo, f: PackageInfo -> PathOrFalse, s: string)
    ensures s in FilterTruthy(MapValues(xs, f))
        <==> s != "" && exists i :: 0 <= i < |xs| && f(xs[i]) == Path(s)
  {
  }

  /** For a callback that returns the package's own path when `keep` holds
      and `false` otherwise, a path is kept exactly when it is non-empty and
      some package with that path satisfies `keep`. */
  lemma FilterMapSelects(xs: AllPackageInfo, f: PackageInfo -> PathOrFalse, keep: PackageInfo -> bool)
    requires forall p :: f(p) == (if keep(p) then Path(p.packagePath) else False)
    ensures forall s :: s in FilterTruthy(MapValues(xs, f)) <==>
              s != "" && exists i :: 0 <= i < |xs| && xs[i].packagePath == s && keep(xs[i])
  {
    forall s ensures s in FilterTruthy(MapValues(xs, f)) <==>
                     s != "" && exists i :: 0 <= i < |xs| && xs[i].packagePath == s && keep(xs[i])
    {
      FilterMapMembership(xs, f, s);
      if s != "" && exists i :: 0 <= i < |xs| && f(xs[i]) == Path(s) {
        var i :| 0 <= i < |xs| && f(xs[i]) == Path(s);
        assert xs[i].packagePath == s && keep(xs[i]);
      }
      if s != "" && exists i :: 0 <= i < |xs| && xs[i].packagePath == s && keep(xs[i]) {
        var i :| 0 <= i < |xs| && xs[i].packagePath == s && keep(xs[i]);
        assert f(xs[i]) == Path(s);
      }
    }
  }

  /** Mapping distributes over concatenation of inventories. */
  lemma {:induction false} MapValuesAppend(xs: AllPackageInfo, ys: AllPackageInfo, f: PackageInfo -> PathOrFalse)
    ensures MapValues(xs + ys, f) == MapValues(xs, f) + MapValues(ys, f)
  {
  }

  /** Filtering distributes over concatenation. */
  lemma {:induction false} FilterTruthyAppend(us: seq<PathOrFalse>, vs: seq<PathOrFalse>)
    ensures FilterTruthy(us + vs) == FilterTruthy(us) + FilterTruthy(vs)
    decreases |us|
  {
    if us == [] {
      assert us + vs == vs;
    } else {
      assert (us + vs)[0] == us[0];
      assert (us + vs)[1..] == us[1..] + vs;
      FilterTruthyAppend(us[1..], vs);
    }
  }

  /** The pipeline on an inventory of one package. */
  lemma FilterMapSingleton(x: PackageInfo, f: PackageInfo -> PathOrFalse)
    ensures FilterTruthy(MapValues([x], f)) == if Truthy(f(x)) then [f(x).path] else []
  {
  }

  /** The pipeline selects in inventory order: the output is the inventory's
      paths with some of them deleted. */
  lemma {:induction false} FilterMapSubsequence(xs: AllPackageInfo, f: PackageInfo -> PathOrFalse)
    requires SelectsOwnPath(f)
    ensures IsSubsequence(FilterTruthy(MapValues(xs, f)), Paths(xs))
  {
    if xs == [] {
    } else {
      var head, tail := [xs[0]], xs[1..];
      assert xs == head + tail;
      MapValuesAppend(head, tail, f);
      FilterTruthyAppend(MapValues(head, f), MapValues(tail, f));
      FilterMapSingleton(xs[0], f);
      FilterMapSubsequence(tail, f);
      assert Paths(xs) == [xs[0].packagePath] + Paths(tail);
      var kept := FilterTruthy(MapValues(head, f));
      assert IsSubsequence(kept, [xs[0].packagePath]) by {
        assert [xs[0].packagePath][1..] == [];
        if kept != [] {
          assert kept[1..] == [];
        }
      }
      SubsequenceAppend(kept, [xs[0].packagePath], FilterTruthy(MapValues(tail, f)), Paths(tail));
    }
  }

  // ---------------------------------------------------------------------
  // getVNextPackagePaths

  /** The vnext paths keep inventory order, are no more than the packages,
      and repeat no path when the inventory repeats none. */
  lemma VNextOrder(xs: AllPackageInfo)
    ensures IsSubsequence(GetVNextPackagePaths(xs), Paths(xs))
    ensures |GetVNextPackagePaths(xs)| <= |xs|
    ensures Distinct(Paths(xs)) ==> Distinct(GetVNextPackagePaths(xs))
  {
    FilterMapSubsequence(xs, VNextCandidate);
    SubsequenceBounds(GetVNextPackagePaths(xs), Paths(xs));
    if Distinct(Paths(xs)) {
      SubsequenceDistinct(GetVNextPackagePaths(xs), Paths(xs));
    }
  }

  /** The vnext paths of a split inventory are those of each part, in order,
      and one package contributes its path exactly when it is a vnext package
      with a non-empty path. Together these determine the function. */
  lemma VNextCompositional(xs: AllPackageInfo, ys: AllPackageInfo, x: PackageInfo)
    ensures GetVNextPackagePaths(xs + ys) == GetVNextPackagePaths(xs) + GetVNextPackagePaths(ys)
    ensures GetVNextPackagePaths([x]) == if IsVNext(x) && x.packagePath != "" then [x.packagePath] else []
  {
    MapValuesAppend(xs, ys, VNextCandidate);
    FilterTruthyAppend(MapValues(xs, VNextCandidate), MapValues(ys, VNextCandidate));
    FilterMapSingleton(x, VNextCandidate);
  }

  // ---------------------------------------------------------------------
  // getSharedPackagePaths

  /** An inventory with neither allow-listed name has no shared paths. */
  lemma {:induction false} SharedNoneWithoutAllowListedNames(xs: AllPackageInfo)
    requires forall i :: 0 <= i < |xs| ==> xs[i].packageJson.name !in PrivateNonConverged
    ensures GetSharedPackagePaths(xs) == []
  {
    if xs != [] {
      assert xs == [xs[0]] + xs[1..];
      SharedCompositional([xs[0]], xs[1..], xs[0]);
      SharedNoneWithoutAllowListedNames(xs[1..]);
    }
  }

  /** The shared paths keep inventory order, are no more than the packages,
      and repeat no path when the inventory repeats none. */
  lemma SharedOrder(xs: AllPackageInfo)
    ensures IsSubsequence(GetSharedPackagePaths(xs), Paths(xs))
    ensures |GetSharedPackagePaths(xs)| <= |xs|
    ensures Distinct(Paths(xs)) ==> Distinct(GetSharedPackagePaths(xs))
  {
    FilterMapSubsequence(xs, SharedCandidate);
    SubsequenceBounds(GetSharedPackagePaths(xs), Paths(xs));
    if Distinct(Paths(xs)) {
      SubsequenceDistinct(GetSharedPackagePaths(xs), Paths(xs));
    }
  }

  /** The shared paths of a split inventory are those of each part, in order,
      and one package contributes its path exactly when its name is
      allow-listed and its path is non-empty. */
  lemma SharedCompositional(xs: AllPackageInfo, ys: AllPackageInfo, x: PackageInfo)
    ensures GetSharedPackagePaths(xs + ys) == GetSharedPackagePaths(xs) + GetSharedPackagePaths(ys)
    ensures GetSharedPackagePaths([x]) == if IsShared(x) && x.packagePath != "" then [x.packagePath] else []
  {
    MapValuesAppend(xs, ys, SharedCandidate);
    FilterTruthyAppend(MapValues(xs, SharedCandidate), MapValues(ys, SharedCandidate));
    FilterMapSingleton(x, SharedCandidate);
  }

  // ---------------------------------------------------------------------
  // getScopes

  /** Stripping the `!` that `Negate` added gives the paths back. */
  lemma NegateRoundTrip(paths: seq<string>)
    ensures StripNegation(Negate(paths)) == paths
  {
  }

  /** In vnext mode the scopes are the vnext paths followed by the shared
      paths, and a path is in scope exactly when a package with that
      non-empty path is a vnext package or is allow-listed. */
  lemma VNextModeScopes(xs: AllPackageInfo, s: string)
    ensures GetScopes(xs, true).VNext?
    ensures GetScopes(xs, true).paths == GetVNextPackagePaths(xs) + GetSharedPackagePaths(xs)
    ensures s in GetScopes(xs, true).paths
        <==> s != "" && exists i :: 0 <= i < |xs| && xs[i].packagePath == s && (IsVNext(xs[i]) || IsShared(xs[i]))
  {
  }

  /** In default mode the scopes are the Northstar exclusion, whatever the
      inventory, and one exclusion per vnext path, in the same order; every
      exclusion starts with `!` and removing it gives the vnext paths back. */
  lemma DefaultModeScopes(xs: AllPackageInfo)
    ensures GetScopes(xs, false).Default?
    ensures GetScopes(xs, false).head == "!packages/fluentui/*"
    ensures |GetScopes(xs, false).negated| == |GetVNextPackagePaths(xs)|
    ensures forall i :: 0 <= i < |GetVNextPackagePaths(xs)| ==>
              GetScopes(xs, false).negated[i] == "!" + GetVNextPackagePaths(xs)[i]
    ensures forall s :: s in GetScopes(xs, false).negated ==> |s| > 0 && s[0] == '!'
    ensures StripNegation(GetScopes(xs, false).negated) == GetVNextPackagePaths(xs)
  {
    NegateRoundTrip(GetVNextPackagePaths(xs));
  }

  /** In default mode a pattern is a vnext exclusion exactly when it is `!`
      followed by the non-empty path of a vnext package. */
  lemma DefaultModeMembership(xs: AllPackageInfo, s: string)
    ensures s in GetScopes(xs, false).negated
        <==> |s| > 1 && s[0] == '!'
             && exists i :: 0 <= i < |xs| && xs[i].packagePath == s[1..] && IsVNext(xs[i])
  {
    var vnext := GetVNextPackagePaths(xs);
    var negated := GetScopes(xs, false).negated;
    if s in negated {
      var k :| 0 <= k < |negated| && negated[k] == s;
      assert vnext[k] in vnext;
      assert s[1..] == vnext[k];
    }
    if |s| > 1 && s[0] == '!' && exists i :: 0 <= i < |xs| && xs[i].packagePath == s[1..] && IsVNext(xs[i]) {
      var k :| 0 <= k < |vnext| && vnext[k] == s[1..];
      assert negated[k] == "!" + s[1..];
      assert s == [s[0]] + s[1..];
    }
  }

  /** An empty inventory yields no vnext and no shared paths: vnext mode
      returns an empty scope list and default mode only the Northstar
      exclusion. */
  lemma EmptyInventory()
    ensures GetVNextPackagePaths([]) == []
    ensures GetSharedPackagePaths([]) == []
    ensures GetScopes([], true) == VNext([])
    ensures GetScopes([], false) == Default("!packages/fluentui/*", [])
  {
  }

  /** A worked inventory: one vnext package, one v8 package and the
      perf-test package. */
  const ExampleInventory: AllPackageInfo :=
    [PackageInfo("pkgs/a", PackageJson("a", "9.2.0")),
     PackageInfo("pkgs/b", PackageJson("b", "8.9.0")),
     PackageInfo("pkgs/perf-test", PackageJson("perf-test", "1.0.0"))]

  /** Of the worked inventory only "pkgs/a" is a vnext path. */
  lemma ExampleVNextPaths()
    ensures GetVNextPackagePaths(ExampleInventory) == ["pkgs/a"]
  {
    var a, b, c := ExampleInventory[0], ExampleInventory[1], ExampleInventory[2];
    assert ExampleInventory == ([a] + [b]) + [c];
    assert IsVNext(a) && !IsVNext(b) && !IsVNext(c);
    VNextCompositional([a], [b], a);
    VNextCompositional([], [], b);
    VNextCompositional([a] + [b], [c], c);
  }

  /** Of the worked inventory only "pkgs/perf-test" is a shared path. */
  lemma ExampleSharedPaths()
    ensures GetSharedPackagePaths(ExampleInventory) == ["pkgs/perf-test"]
  {
    var a, b, c := ExampleInventory[0], ExampleInventory[1], ExampleInventory[2];
    assert ExampleInventory == ([a] + [b]) + [c];
    assert !IsShared(a) && !IsShared(b) && IsShared(c);
    SharedCompositional([a], [b], a);
    SharedCompositional([], [], b);
    SharedCompositional([a] + [b], [c], c);
  }

  /** The scopes of the worked inventory in both modes. */
  lemma WorkedExample()
    ensures GetScopes(ExampleInventory, true) == VNext(["pkgs/a", "pkgs/perf-test"])
    ensures GetScopes(ExampleInventory, false) == Default("!packages/fluentui/*", ["!pkgs/a"])
  {
    ExampleVNextPaths();
    ExampleSharedPaths();
    ExampleNegation();
  }

  /** The exclusion of the worked inventory's one vnext path. */
  lemma ExampleNegation()
    ensures Negate(["pkgs/a"]) == ["!pkgs/a"]
  {
    var n := Negate(["pkgs/a"]);
    assert n[0] == "!" + "pkgs/a";
    assert "!" + "pkgs/a" == "!pkgs/a";
  }

  /** A package whose path is the empty string is never selected, even when
      it is a vnext package: `.filter(Boolean)` drops it. */
  lemma EmptyPathDropped(x: PackageInfo)
    requires x.packagePath == ""
    ensures GetVNextPackagePaths([x]) == []
    ensures GetSharedPackagePaths([x]) == []
  {
  }
}
