/**
 * The manifest-driven path resolver: an import target is local unless it names one
 * of the package's declared dependencies, either exactly or as "<dependency>/...".
 * It only looks at strings; it never consults the file system.
 */
module PackageResolver {
  import opened Text

  datatype PackagePathResolver = PackagePathResolver(dependencies: seq<string>)

  /** The constructor: an omitted dependency list defaults to the empty list. */
  function New(dependencies: Option<seq<string>>): (r: PackagePathResolver)
    ensures dependencies.None? ==> r.dependencies == []
    ensures dependencies.Some? ==> r.dependencies == dependencies.value
  {
    PackagePathResolver(if dependencies.Some? then dependencies.value else [])
  }

  /** `dependency === filePath || filePath.startsWith(dependency + "/")` */
  predicate Names(dependency: string, filePath: string) {
    dependency == filePath || StartsWith(filePath, dependency + "/")
  }

  /** `isGlobal`: some dependency, taken in order, names the target. */
  predicate IsGlobal(r: PackagePathResolver, filePath: string) {
    AnyNames(r.dependencies, filePath)
  }

  /** The short-circuiting `some` over the dependency list. */
  predicate AnyNames(dependencies: seq<string>, filePath: string)
    ensures AnyNames(dependencies, filePath) <==> exists d :: d in dependencies && Names(d, filePath)
  {
    if dependencies == [] then false
    else
      assert dependencies == [dependencies[0]] + dependencies[1..];
      Names(dependencies[0], filePath) || AnyNames(dependencies[1..], filePath)
  }

  /** `isLocal` */
  function IsLocal(r: PackagePathResolver, filePath: string): (local: bool)
    ensures local <==> StartsWith(filePath, ".") || r.dependencies == []
                       || forall d :: d in r.dependencies ==> d != filePath && !StartsWith(filePath, d + "/")
  {
    if StartsWith(filePath, ".") then true
    else if |r.dependencies| == 0 then true
    else !IsGlobal(r, filePath)
  }

  /** A relative target is local whatever the dependencies are. */
  lemma DotTargetIsLocal(r: PackagePathResolver, filePath: string)
    requires StartsWith(filePath, ".")
    ensures IsLocal(r, filePath)
  {
  }

  /** The default resolver treats every target as local. */
  lemma DefaultResolverIsAllLocal(filePath: string)
    ensures IsLocal(New(None), filePath)
  {
  }

  /** A target equal to a dependency is not local (unless it is relative). */
  lemma DependencyIsNotLocal(r: PackagePathResolver, filePath: string)
    requires filePath in r.dependencies && !StartsWith(filePath, ".")
    ensures !IsLocal(r, filePath)
  {
  }

  /** A target below "<dependency>/" is not local (unless it is relative). */
  lemma DependencySubpathIsNotLocal(r: PackagePathResolver, dependency: string, filePath: string)
    requires dependency in r.dependencies && StartsWith(filePath, dependency + "/") && !StartsWith(filePath, ".")
    ensures !IsLocal(r, filePath)
  {
  }

  /** Matching needs the "/" boundary: "globals" is not below "global". */
  lemma PrefixWithoutSlashStaysLocal()
    ensures IsLocal(New(Some(["global", "global/deep"])), "globals")
    ensures !IsLocal(New(Some(["global", "global/deep"])), "global")
    ensures !IsLocal(New(Some(["global", "global/deep"])), "global/deep/file1")
  {
    var deps := ["global", "global/deep"];
    assert "global" in deps;
    assert !StartsWith("global", ".") by { assert ("global")[..1] == "g"; }
    assert !StartsWith("globals", ".") by { assert ("globals")[..1] == "g"; }
    assert !StartsWith("global/deep/file1", ".") by { assert ("global/deep/file1")[..1] == "g"; }
    assert !StartsWith("globals", "global" + "/") by {
      assert ("globals")[..7] != "global" + "/" by { assert ("globals")[6] == 's'; }
    }
    assert !StartsWith("globals", "global/deep" + "/");
    assert StartsWith("global/deep/file1", "global" + "/") by {
      assert ("global/deep/file1")[..7] == "global/";
    }
  }
}
