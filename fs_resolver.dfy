/**
 * The filesystem path resolver. A target is local when it is relative, when it
 * matches a configured path alias whose candidate file exists, or when it exists
 * below the configured base URL. Existence is asked of the host (`ts.sys.fileExists`)
 * and paths are combined by the host (`path.join`); both stay uninterpreted here.
 * Every question returns the answer together with the paths probed, in order, so
 * that the probe sequence and its short-circuits can be stated.
 */
module FsResolver {
  import opened Text
  import Paths

  /** `ts.sys.fileExists` and `path.join`, as supplied by the host. */
  datatype Host = Host(fileExists: string -> bool, join: seq<string> -> string)

  /** One entry of the alias table: a key and its candidate directories, in order. */
  datatype Alias = Alias(key: string, paths: seq<string>)

  datatype FsPathResolver = FsPathResolver(
    rootPath: string,
    baseUrl: Option<string>,
    aliases: Option<seq<Alias>>,
    extensions: Option<seq<string>>)

  /** An answer and the paths whose existence was asked to reach it, in order. */
  datatype Probe = Probe(found: bool, probes: seq<string>)

  /**
   * `p` is the outcome of asking `present` about `order` front to back and stopping
   * at the first hit: the probes are a prefix of `order`, all but the last miss, the
   * answer is whether the last one is present, and a miss asked about all of `order`.
   */
  ghost predicate FirstHit(p: Probe, order: seq<string>, present: string -> bool) {
    && |p.probes| <= |order| && p.probes == order[..|p.probes|]
    && (forall i :: 0 <= i < |p.probes| - 1 ==> !present(p.probes[i]))
    && (p.found <==> p.probes != [] && present(p.probes[|p.probes| - 1]))
    && (!p.found ==> p.probes == order)
  }

  /** For each extension in order: `path/index.<ext>`, then `path.<ext>`. */
  function ExtensionCandidates(h: Host, filePath: string, extensions: seq<string>): (r: seq<string>)
    ensures |r| == 2 * |extensions|
    ensures forall i :: 0 <= i < |extensions| ==>
              r[2 * i] == h.join([filePath, "index." + extensions[i]]) && r[2 * i + 1] == filePath + "." + extensions[i]
  {
    if extensions == [] then []
    else
      [h.join([filePath, "index." + extensions[0]]), filePath + "." + extensions[0]]
        + ExtensionCandidates(h, filePath, extensions[1..])
  }

  /** Every path `fileExists` may ask about, in the order it asks. */
  function ProbeOrder(r: FsPathResolver, h: Host, filePath: string): seq<string> {
    [filePath] + (if Paths.ExtName(filePath) == "" && r.extensions.Some?
                  then ExtensionCandidates(h, filePath, r.extensions.value) else [])
  }

  /** The `extensions.some(...)` loop of `fileExists`. */
  function ProbeExtensions(h: Host, filePath: string, extensions: seq<string>): (p: Probe)
    ensures FirstHit(p, ExtensionCandidates(h, filePath, extensions), h.fileExists)
  {
    if extensions == [] then Probe(false, [])
    else
      var indexPath := h.join([filePath, "index." + extensions[0]]);
      var resolvedPath := filePath + "." + extensions[0];
      if h.fileExists(indexPath) then Probe(true, [indexPath])
      else if h.fileExists(resolvedPath) then Probe(true, [indexPath, resolvedPath])
      else
        var rest := ProbeExtensions(h, filePath, extensions[1..]);
        var order := ExtensionCandidates(h, filePath, extensions);
        assert order == [indexPath, resolvedPath] + ExtensionCandidates(h, filePath, extensions[1..]);
        Probe(rest.found, [indexPath, resolvedPath] + rest.probes)
  }

  /**
   * `fileExists`: the plain path first; on a miss, nothing more when the path
   * already has an extension or no extensions are configured; otherwise the
   * extension candidates in order, stopping at the first hit.
   */
  function FileExists(r: FsPathResolver, h: Host, filePath: string): (p: Probe)
    ensures FirstHit(p, ProbeOrder(r, h, filePath), h.fileExists)
  {
    if h.fileExists(filePath) then Probe(true, [filePath])
    else if Paths.ExtName(filePath) != "" || r.extensions.None? then Probe(false, [filePath])
    else
      var e := ProbeExtensions(h, filePath, r.extensions.value);
      Probe(e.found, [filePath] + e.probes)
  }

  /** `resolvePath(aliasPath, rest)`: `path.join(rootPath, aliasPath, rest)`. */
  function ResolvePath(r: FsPathResolver, h: Host, aliasPath: string, rest: string): string {
    h.join([r.rootPath, aliasPath, rest])
  }

  /** The candidate real path of `filePath` under the `j`th directory of `alias`. */
  function AliasCandidate(r: FsPathResolver, h: Host, alias: Alias, j: nat, filePath: string): string
    requires j < |alias.paths|
  {
    ResolvePath(r, h, alias.paths[j], SliceFrom(filePath, |alias.key|))
  }

  /** `fileExists` on the `j`th candidate of `alias`. */
  function CandidateProbe(r: FsPathResolver, h: Host, alias: Alias, j: nat, filePath: string): Probe
    requires j < |alias.paths|
  {
    FileExists(r, h, AliasCandidate(r, h, alias, j, filePath))
  }

  /** `fileExists` answers yes for the `j`th candidate of `alias`. */
  predicate CandidateExists(r: FsPathResolver, h: Host, alias: Alias, j: nat, filePath: string)
    requires j < |alias.paths|
  {
    CandidateProbe(r, h, alias, j, filePath).found
  }

  /** The target starts with the alias key and one of its candidates exists. */
  ghost predicate AliasResolves(r: FsPathResolver, h: Host, alias: Alias, filePath: string) {
    && StartsWith(filePath, alias.key)
    && exists j :: 0 <= j < |alias.paths| && CandidateExists(r, h, alias, j, filePath)
  }

  /** The inner `values.some(...)` over the directories of one alias, from the `from`th on. */
  function ProbeAliasPaths(r: FsPathResolver, h: Host, alias: Alias, from: nat, filePath: string): (p: Probe)
    requires from <= |alias.paths|
    ensures p.found <==> exists j :: from <= j < |alias.paths| && CandidateExists(r, h, alias, j, filePath)
    decreases |alias.paths| - from
  {
    if from == |alias.paths| then Probe(false, [])
    else
      var e := CandidateProbe(r, h, alias, from, filePath);
      if e.found then
        assert CandidateExists(r, h, alias, from, filePath);
        e
      else
        assert !CandidateExists(r, h, alias, from, filePath);
        var rest := ProbeAliasPaths(r, h, alias, from + 1, filePath);
        Probe(rest.found, e.probes + rest.probes)
  }

  /** The outer `Object.keys(aliases).some(...)`, over the table in key order. */
  function ProbeAliases(r: FsPathResolver, h: Host, aliases: seq<Alias>, filePath: string): (p: Probe)
    ensures p.found <==> exists i :: 0 <= i < |aliases| && AliasResolves(r, h, aliases[i], filePath)
    ensures (forall i :: 0 <= i < |aliases| ==> !StartsWith(filePath, aliases[i].key)) ==> p.probes == []
  {
    if aliases == [] then Probe(false, [])
    else
      var rest := ProbeAliases(r, h, aliases[1..], filePath);
      assert forall i :: 1 <= i < |aliases| ==> aliases[i] == aliases[1..][i - 1];
      if !StartsWith(filePath, aliases[0].key) then rest
      else
        var here := ProbeAliasPaths(r, h, aliases[0], 0, filePath);
        if here.found then here else Probe(rest.found, here.probes + rest.probes)
  }

  /** `isAliased` */
  function IsAliased(r: FsPathResolver, h: Host, filePath: string): (p: Probe)
    ensures r.aliases.None? ==> p == Probe(false, [])
    ensures p.found <==> r.aliases.Some? && exists i :: 0 <= i < |r.aliases.value| && AliasResolves(r, h, r.aliases.value[i], filePath)
  {
    if r.aliases.None? then Probe(false, []) else ProbeAliases(r, h, r.aliases.value, filePath)
  }

  /** `if (this.baseUrl)`: set and not the empty string. */
  predicate HasBaseUrl(r: FsPathResolver) {
    r.baseUrl.Some? && r.baseUrl.value != ""
  }

  /** `isLocal` */
  function IsLocal(r: FsPathResolver, h: Host, filePath: string): (p: Probe)
    ensures StartsWith(filePath, ".") ==> p == Probe(true, [])
    ensures p.found <==> || StartsWith(filePath, ".")
                         || IsAliased(r, h, filePath).found
                         || (HasBaseUrl(r) && FileExists(r, h, h.join([r.baseUrl.value, filePath])).found)
  {
    if StartsWith(filePath, ".") then Probe(true, [])
    else
      var a := IsAliased(r, h, filePath);
      if a.found then a
      else if HasBaseUrl(r) then
        var f := FileExists(r, h, h.join([r.baseUrl.value, filePath]));
        Probe(f.found, a.probes + f.probes)
      else Probe(false, a.probes)
  }

  /** The plain path is asked first, and a hit there ends the search. */
  lemma PlainProbeFirst(r: FsPathResolver, h: Host, filePath: string)
    ensures FileExists(r, h, filePath).probes != [] && FileExists(r, h, filePath).probes[0] == filePath
    ensures h.fileExists(filePath) ==> FileExists(r, h, filePath) == Probe(true, [filePath])
  {
  }

  /** A path with an extension, or a resolver without extensions, is probed once. */
  lemma OneProbeWithoutExtensions(r: FsPathResolver, h: Host, filePath: string)
    requires !h.fileExists(filePath)
    requires Paths.ExtName(filePath) != "" || r.extensions.None?
    ensures FileExists(r, h, filePath) == Probe(false, [filePath])
  {
  }

  /** A full miss asks about the plain path and two candidates per extension. */
  lemma FullMissProbeCount(r: FsPathResolver, h: Host, filePath: string)
    requires Paths.ExtName(filePath) == "" && r.extensions.Some?
    requires !FileExists(r, h, filePath).found
    ensures |FileExists(r, h, filePath).probes| == 1 + 2 * |r.extensions.value|
  {
  }

  /** Without a base URL, a non-relative target is local exactly when it is aliased. */
  lemma NoBaseUrlMeansAliasOnly(r: FsPathResolver, h: Host, filePath: string)
    requires !HasBaseUrl(r) && !StartsWith(filePath, ".")
    ensures IsLocal(r, h, filePath).found == IsAliased(r, h, filePath).found
  {
  }

  /**
   * With base URL "./base", extensions ["foo", "bar"] and no file anywhere,
   * `isLocal("foo_test")` asks about five paths, in this order, and answers false.
   */
  lemma ProbesEveryExtensionInOrder(h: Host)
    requires forall p :: !h.fileExists(p)
    requires Paths.ExtName(h.join(["./base", "foo_test"])) == ""
    ensures var r := FsPathResolver("./", Some("./base"), None, Some(["foo", "bar"]));
            var q := h.join(["./base", "foo_test"]);
            IsLocal(r, h, "foo_test")
              == Probe(false, [q, h.join([q, "index." + "foo"]), q + "." + "foo", h.join([q, "index." + "bar"]), q + "." + "bar"])
  {
    var r := FsPathResolver("./", Some("./base"), None, Some(["foo", "bar"]));
    var q := h.join(["./base", "foo_test"]);
    assert !StartsWith("foo_test", ".") by { assert ("foo_test")[..1] == "f"; }
    assert ["foo", "bar"][1..] == ["bar"] && ["bar"][1..] == [];
    assert ExtensionCandidates(h, q, ["bar"]) == [h.join([q, "index." + "bar"]), q + "." + "bar"];
    assert ExtensionCandidates(h, q, ["foo", "bar"])
        == [h.join([q, "index." + "foo"]), q + "." + "foo", h.join([q, "index." + "bar"]), q + "." + "bar"];
  }
}
