/**
 * The sorter: every import descriptor gets metadata (its position, whether the
 * resolver calls it local, whether it names a file with an extension, and how many
 * directories up it reaches), is put in exactly one bucket by a fixed priority
 * chain, and each declared group, in declaration order, contributes its bucket
 * (optionally split by depth or by a subgroup key) sorted by the group's algorithm.
 */
module Sorter {
  import opened Text
  import opened Seqs
  import Paths
  import PackageResolver
  import FsResolver
  import AstWorker

  datatype GroupName = Global | Local | Relative | Static | Rest

  /** `'natural'`, `'persist'`, or any other value, which sorts nothing. */
  datatype SortAlg = Natural | Persist | Unrecognised

  datatype RelativeSortAlg = ShallowFirst | DeepestFirst

  type Group = (GroupName, SortAlg)

  /**
   * The sorting options. `splitLocalPattern` stands for the key the regular
   * expression assigns to a path (its last capture, or the unmatched marker).
   */
  datatype Options = Options(
    groups: seq<Group>,
    splitRelativeGroups: bool,
    relativeSortAlg: Option<RelativeSortAlg>,
    splitLocalPattern: Option<string -> string>)

  // ---------------------------------------------------- the path resolver

  /** The resolver the sorter is built with: the manifest one or the filesystem one. */
  datatype PathResolver =
    | Package(package: PackageResolver.PackagePathResolver)
    | FileSystem(fs: FsResolver.FsPathResolver, host: FsResolver.Host)

  predicate IsLocal(r: PathResolver, filePath: string) {
    match r
    case Package(p) => PackageResolver.IsLocal(p, filePath)
    case FileSystem(fs, h) => FsResolver.IsLocal(fs, h, filePath).found
  }

  // ---------------------------------------------------- metadata

  datatype ProcessedNode = ProcessedNode(
    target: AstWorker.Descriptor,
    order: nat,
    isLocal: bool,
    isStatic: bool,
    relativeDepth: nat)

  /** `node.target.source.value` */
  function PathOf(d: AstWorker.Descriptor): string {
    d.target.sourceValue
  }

  function SourceOf(m: ProcessedNode): string {
    PathOf(m.target)
  }

  function OrderOf(m: ProcessedNode): int {
    m.order
  }

  function DepthOf(m: ProcessedNode): int {
    m.relativeDepth
  }

  /** The number of "../" at the front of `p`, one after the other. */
  function ParentHops(p: string): nat
    decreases |p|
  {
    if StartsWith(p, "../") then 1 + ParentHops(p[3..]) else 0
  }

  /** 1 for "./...", two per leading "../" otherwise (so 0 for a bare path). */
  function RelativeDepth(p: string): nat {
    if StartsWith(p, "./") then 1 else 2 * ParentHops(p)
  }

  /** `resolveRelativeDepth`: the `indexOf` loop that counts the leading "../". */
  method ResolveRelativeDepth(node: AstWorker.Descriptor) returns (value: nat)
    ensures value == RelativeDepth(PathOf(node))
  {
    var filePath := PathOf(node);
    var needle := "../";
    value := 0;
    var lastIndex: nat := 0;
    if StartsWith(filePath, "./") {
      return 1;
    }
    assert filePath[lastIndex..] == filePath;
    while true
      invariant lastIndex <= |filePath|
      invariant value + 2 * ParentHops(filePath[lastIndex..]) == 2 * ParentHops(filePath)
      decreases |filePath| - lastIndex
    {
      var index := IndexOf(filePath, needle, lastIndex);
      if index == lastIndex {
        assert filePath[lastIndex..][..3] == filePath[lastIndex..lastIndex + 3];
        assert filePath[lastIndex..][3..] == filePath[lastIndex + 3..];
        value := value + 2;
        lastIndex := index + |needle|;
      } else {
        assert lastIndex + 3 <= |filePath| ==> filePath[lastIndex..][..3] == filePath[lastIndex..lastIndex + 3];
        break;
      }
    }
  }

  /** The metadata of the `order`th descriptor. */
  function Meta(r: PathResolver, node: AstWorker.Descriptor, order: nat): ProcessedNode {
    var filePath := PathOf(node);
    ProcessedNode(node, order, IsLocal(r, filePath), |Paths.GetExtension(filePath)| > 0, RelativeDepth(filePath))
  }

  /** What `resolveMetadata` computes: one `Meta` per descriptor, numbered in order. */
  function Metadata(r: PathResolver, nodes: seq<AstWorker.Descriptor>): (ms: seq<ProcessedNode>)
    ensures |ms| == |nodes|
    ensures forall i :: 0 <= i < |nodes| ==> ms[i] == Meta(r, nodes[i], i)
  {
    if nodes == [] then []
    else Metadata(r, nodes[..|nodes| - 1]) + [Meta(r, nodes[|nodes| - 1], |nodes| - 1)]
  }

  /** `resolveMetadata`: the `map` over the descriptors. */
  method ResolveMetadata(r: PathResolver, nodes: seq<AstWorker.Descriptor>) returns (meta: seq<ProcessedNode>)
    ensures meta == Metadata(r, nodes)
  {
    meta := [];
    for order := 0 to |nodes|
      invariant meta == Metadata(r, nodes[..order])
    {
      var node := nodes[order];
      var filePath := PathOf(node);
      var isLocal := IsLocal(r, filePath);
      var relativeDepth := ResolveRelativeDepth(node);
      var isStatic := |Paths.GetExtension(filePath)| > 0;
      MetadataSnoc(r, nodes, order);
      meta := meta + [ProcessedNode(node, order, isLocal, isStatic, relativeDepth)];
    }
    assert nodes[..|nodes|] == nodes;
  }

  lemma MetadataSnoc(r: PathResolver, nodes: seq<AstWorker.Descriptor>, order: nat)
    requires order < |nodes|
    ensures Metadata(r, nodes[..order + 1]) == Metadata(r, nodes[..order]) + [Meta(r, nodes[order], order)]
  {
    assert nodes[..order + 1][..order] == nodes[..order];
  }

  // ---------------------------------------------------- buckets

  predicate Declared(groups: seq<Group>, g: GroupName) {
    g in Keys(groups)
  }

  /** The declared groups, with `['rest', 'persist']` appended unless a rest group is declared. */
  function WithRest(groups: seq<Group>): (r: seq<Group>)
    ensures Declared(r, Rest)
    ensures groups <= r && |r| <= |groups| + 1
    ensures Declared(groups, Rest) ==> r == groups
    ensures forall g :: g != Rest ==> (Declared(r, g) <==> Declared(groups, g))
    ensures NoDup(Keys(groups)) ==> NoDup(Keys(r))
  {
    if Declared(groups, Rest) then groups
    else
      var r := groups + [(Rest, Persist)];
      assert Keys(r) == Keys(groups) + [Rest];
      r
  }

  /**
   * The bucket of one node: static, global, local (depth 0), relative, local
   * (depth above 0), rest — the first that accepts it and is declared.
   */
  function Bucket(m: ProcessedNode, groups: seq<Group>): (b: GroupName)
    ensures b != Rest ==> Declared(groups, b)
    ensures Declared(groups, Rest) ==> Declared(groups, b)
    ensures b == Static ==> m.isStatic
    ensures b == Global ==> !m.isLocal && !m.isStatic
    ensures b == Relative ==> m.relativeDepth > 0
    ensures m.isStatic && Declared(groups, Static) ==> b == Static
    ensures Declared(groups, Local) ==> b != Rest
  {
    if m.isStatic && Declared(groups, Static) then Static
    else if !m.isLocal && !m.isStatic && Declared(groups, Global) then Global
    else if m.relativeDepth == 0 && Declared(groups, Local) then Local
    else if m.relativeDepth > 0 && Declared(groups, Relative) then Relative
    else if m.relativeDepth > 0 && Declared(groups, Local) then Local
    else Rest
  }

  /** Every node tagged with its bucket. */
  function Tag(ms: seq<ProcessedNode>, groups: seq<Group>): (ps: seq<(GroupName, ProcessedNode)>)
    ensures |ps| == |ms|
    ensures forall i :: 0 <= i < |ms| ==> ps[i] == (Bucket(ms[i], groups), ms[i])
  {
    if ms == [] then [] else Tag(ms[..|ms| - 1], groups) + [(Bucket(ms[|ms| - 1], groups), ms[|ms| - 1])]
  }

  /** The first `reduce` of `process`: one empty bucket per declared group. */
  method EmptyBuckets(groups: seq<Group>) returns (buckets: map<GroupName, seq<ProcessedNode>>)
    ensures buckets.Keys == set g | g in Keys(groups)
    ensures forall g :: g in buckets ==> buckets[g] == []
  {
    buckets := map[];
    for k := 0 to |groups|
      invariant buckets.Keys == set g | g in Keys(groups[..k])
      invariant forall g :: g in buckets ==> buckets[g] == []
    {
      assert Keys(groups[..k + 1]) == Keys(groups[..k]) + [groups[k].0] by {
        assert groups[..k + 1][..k] == groups[..k];
      }
      buckets := buckets[groups[k].0 := []];
    }
    assert groups[..|groups|] == groups;
  }

  /** Each bucket holds exactly the nodes of `ms` tagged with its name, in order. */
  ghost predicate Filled(buckets: map<GroupName, seq<ProcessedNode>>, ms: seq<ProcessedNode>, groups: seq<Group>) {
    forall g :: g in buckets ==> buckets[g] == Select(Tag(ms, groups), g)
  }

  /** The second `reduce` of `process`: every node pushed onto the first bucket that accepts it. */
  method Classify(meta: seq<ProcessedNode>, groups: seq<Group>) returns (buckets: map<GroupName, seq<ProcessedNode>>)
    requires Declared(groups, Rest)
    ensures buckets.Keys == set g | g in Keys(groups)
    ensures forall g :: g in buckets ==> buckets[g] == Select(Tag(meta, groups), g)
  {
    buckets := EmptyBuckets(groups);
    for i := 0 to |meta|
      invariant buckets.Keys == set g | g in Keys(groups)
      invariant Filled(buckets, meta[..i], groups)
    {
      var value := meta[i];
      var bucket := PickBucket(value, buckets, groups);
      PushKeepsFilled(buckets, meta, i, groups);
      buckets := buckets[bucket := buckets[bucket] + [value]];
    }
    assert meta[..|meta|] == meta;
  }

  /** The `if` chain of the second `reduce`: `acc.static` and the others exist when declared. */
  method PickBucket(value: ProcessedNode, buckets: map<GroupName, seq<ProcessedNode>>, groups: seq<Group>)
    returns (bucket: GroupName)
    requires Declared(groups, Rest)
    requires buckets.Keys == set g | g in Keys(groups)
    ensures bucket == Bucket(value, groups) && bucket in buckets
  {
    if value.isStatic && Static in buckets {
      bucket := Static;
    } else if !value.isLocal && !value.isStatic && Global in buckets {
      bucket := Global;
    } else if value.relativeDepth == 0 && Local in buckets {
      bucket := Local;
    } else if value.relativeDepth > 0 && Relative in buckets {
      bucket := Relative;
    } else if value.relativeDepth > 0 && Local in buckets {
      bucket := Local;
    } else {
      bucket := Rest;
    }
  }

  /** Pushing the `i`th node onto its bucket fills the buckets for one node more. */
  lemma PushKeepsFilled(buckets: map<GroupName, seq<ProcessedNode>>, meta: seq<ProcessedNode>, i: nat, groups: seq<Group>)
    requires i < |meta| && Filled(buckets, meta[..i], groups) && Bucket(meta[i], groups) in buckets
    ensures Filled(buckets[Bucket(meta[i], groups) := buckets[Bucket(meta[i], groups)] + [meta[i]]], meta[..i + 1], groups)
  {
    var value := meta[i];
    var bucket := Bucket(value, groups);
    var before := Tag(meta[..i], groups);
    assert Tag(meta[..i + 1], groups) == before + [(bucket, value)] by {
      assert meta[..i + 1][..i] == meta[..i];
    }
    forall g | g in buckets
      ensures Select(Tag(meta[..i + 1], groups), g) == buckets[g] + (if bucket == g then [value] else [])
    {
      SelectSnoc(before, (bucket, value), g);
    }
  }

  lemma SelectSnoc<K, T>(ps: seq<(K, T)>, p: (K, T), k: K)
    ensures Select(ps + [p], k) == Select(ps, k) + (if p.0 == k then [p.1] else [])
  {
    assert (ps + [p])[..|ps|] == ps;
  }

  // ---------------------------------------------------- sorting one group

  /** The three `sortGroup` branches; `Array.prototype.sort` is stable. */
  function Arrange(group: seq<ProcessedNode>, alg: SortAlg, natural: (string, string) -> bool): (r: seq<ProcessedNode>)
    ensures multiset(r) == multiset(group) && |r| == |group|
  {
    match alg
    case Natural => SortBy(group, SourceOf, natural)
    case Persist => SortBy(group, OrderOf, IntLe)
    case Unrecognised => group
  }

  function TargetOf(m: ProcessedNode): AstWorker.Descriptor {
    m.target
  }

  /** `.map(processed => processed.target)` */
  function Targets(ms: seq<ProcessedNode>): seq<AstWorker.Descriptor> {
    MapSeq(ms, TargetOf)
  }

  /** `sortGroup`: the arranged group, mapped back to its descriptors. */
  function SortGroup(group: seq<ProcessedNode>, alg: SortAlg, natural: (string, string) -> bool): seq<AstWorker.Descriptor> {
    Targets(Arrange(group, alg, natural))
  }

  // ---------------------------------------------------- splitting a bucket

  /** The relative comparator: ascending depth for `'shallow-first'`, descending otherwise. */
  function DepthOrder(dir: Option<RelativeSortAlg>): (int, int) -> bool {
    if dir == Some(ShallowFirst) then IntLe else IntGe
  }

  function TagByDepth(ms: seq<ProcessedNode>): (ps: seq<(int, ProcessedNode)>)
    ensures |ps| == |ms|
    ensures forall i :: 0 <= i < |ms| ==> ps[i] == (ms[i].relativeDepth as int, ms[i])
  {
    if ms == [] then [] else TagByDepth(ms[..|ms| - 1]) + [(ms[|ms| - 1].relativeDepth as int, ms[|ms| - 1])]
  }

  /** The relative bucket, sorted by depth in place, tagged by depth. */
  function DepthTagged(bucket: seq<ProcessedNode>, dir: Option<RelativeSortAlg>): seq<(int, ProcessedNode)> {
    TagByDepth(SortBy(bucket, DepthOf, DepthOrder(dir)))
  }

  /** The relative bucket split by depth: one part per distinct depth, in sorted order. */
  function SplitByDepth(bucket: seq<ProcessedNode>, dir: Option<RelativeSortAlg>): seq<seq<ProcessedNode>> {
    var t := DepthTagged(bucket, dir);
    SelectEach(t, Distinct(Keys(t)))
  }

  function TagBySubgroup(ms: seq<ProcessedNode>, subgroup: string -> string): (ps: seq<(string, ProcessedNode)>)
    ensures |ps| == |ms|
    ensures forall i :: 0 <= i < |ms| ==> ps[i] == (subgroup(SourceOf(ms[i])), ms[i])
  {
    if ms == [] then [] else TagBySubgroup(ms[..|ms| - 1], subgroup) + [(subgroup(SourceOf(ms[|ms| - 1])), ms[|ms| - 1])]
  }

  /** The local bucket split by subgroup key, keys in order of first appearance. */
  function SplitBySubgroup(bucket: seq<ProcessedNode>, subgroup: string -> string): seq<seq<ProcessedNode>> {
    var t := TagBySubgroup(bucket, subgroup);
    SelectEach(t, Distinct(Keys(t)))
  }

  // ---------------------------------------------------- the output

  /** Each part arranged, keeping only the non-empty ones (`if (sortedData.length)`). */
  function ArrangeNonEmpty(parts: seq<seq<ProcessedNode>>, alg: SortAlg, natural: (string, string) -> bool): seq<seq<ProcessedNode>> {
    if parts == [] then []
    else
      var last := Arrange(parts[|parts| - 1], alg, natural);
      ArrangeNonEmpty(parts[..|parts| - 1], alg, natural) + (if |last| > 0 then [last] else [])
  }

  /** Each part arranged, every one kept. */
  function ArrangeAll(parts: seq<seq<ProcessedNode>>, alg: SortAlg, natural: (string, string) -> bool): seq<seq<ProcessedNode>> {
    if parts == [] then []
    else ArrangeAll(parts[..|parts| - 1], alg, natural) + [Arrange(parts[|parts| - 1], alg, natural)]
  }

  /** What one declared group contributes to the output. */
  function EmitGroup(g: Group, tagged: seq<(GroupName, ProcessedNode)>, options: Options,
                     natural: (string, string) -> bool): seq<seq<ProcessedNode>> {
    var bucket := Select(tagged, g.0);
    if g.0 == Relative && options.splitRelativeGroups then
      ArrangeNonEmpty(SplitByDepth(bucket, options.relativeSortAlg), g.1, natural)
    else if g.0 == Local && options.splitLocalPattern.Some? then
      ArrangeAll(SplitBySubgroup(bucket, options.splitLocalPattern.value), g.1, natural)
    else
      ArrangeNonEmpty([bucket], g.1, natural)
  }

  /** The contributions of the groups, in declaration order. */
  function Layout(groups: seq<Group>, tagged: seq<(GroupName, ProcessedNode)>, options: Options,
                  natural: (string, string) -> bool): seq<seq<ProcessedNode>> {
    if groups == [] then []
    else Layout(groups[..|groups| - 1], tagged, options, natural) + EmitGroup(groups[|groups| - 1], tagged, options, natural)
  }

  function MapTargets(gs: seq<seq<ProcessedNode>>): (r: seq<seq<AstWorker.Descriptor>>)
    ensures |r| == |gs|
    ensures forall i :: 0 <= i < |gs| ==> r[i] == Targets(gs[i])
  {
    seq(|gs|, i requires 0 <= i < |gs| => Targets(gs[i]))
  }

  lemma MapTargetsAppend(a: seq<seq<ProcessedNode>>, b: seq<seq<ProcessedNode>>)
    ensures MapTargets(a + b) == MapTargets(a) + MapTargets(b)
  {
  }

  /** What `process` returns. */
  function Sort(r: PathResolver, nodes: seq<AstWorker.Descriptor>, options: Options,
                natural: (string, string) -> bool): seq<seq<AstWorker.Descriptor>> {
    Output(Metadata(r, nodes), options, natural)
  }

  /** The output for given metadata: the groups, with rest added, laid out over the buckets. */
  function Output(meta: seq<ProcessedNode>, options: Options, natural: (string, string) -> bool): seq<seq<AstWorker.Descriptor>> {
    var groups := WithRest(options.groups);
    MapTargets(Layout(groups, Tag(meta, groups), options, natural))
  }

  // ---------------------------------------------------- process

  /** The `splitRelativeGroups` branch: sort by depth, then one sorted part per distinct depth. */
  method EmitRelative(bucket: seq<ProcessedNode>, alg: SortAlg, dir: Option<RelativeSortAlg>,
                      natural: (string, string) -> bool) returns (out: seq<seq<AstWorker.Descriptor>>)
    ensures out == MapTargets(ArrangeNonEmpty(SplitByDepth(bucket, dir), alg, natural))
  {
    var tagged := DepthTagged(bucket, dir);
    var relativeGroups := Distinct(Keys(tagged));
    out := [];
    for k := 0 to |relativeGroups|
      invariant out == MapTargets(ArrangeNonEmpty(SelectEach(tagged, relativeGroups[..k]), alg, natural))
    {
      var groupData := Select(tagged, relativeGroups[k]);
      var sortedData := SortGroup(groupData, alg, natural);
      NonEmptyStep(tagged, relativeGroups, k, alg, natural);
      if |sortedData| > 0 {
        out := out + [sortedData];
      }
    }
    assert relativeGroups[..|relativeGroups|] == relativeGroups;
  }

  /** One more key in the relative `forEach`: its part is pushed when not empty. */
  lemma NonEmptyStep<K>(t: seq<(K, ProcessedNode)>, keys: seq<K>, k: nat, alg: SortAlg, natural: (string, string) -> bool)
    requires k < |keys|
    ensures var part := SortGroup(Select(t, keys[k]), alg, natural);
            MapTargets(ArrangeNonEmpty(SelectEach(t, keys[..k + 1]), alg, natural))
              == MapTargets(ArrangeNonEmpty(SelectEach(t, keys[..k]), alg, natural)) + (if |part| > 0 then [part] else [])
  {
    var groupData := Select(t, keys[k]);
    var parts := SelectEach(t, keys[..k]);
    assert SelectEach(t, keys[..k + 1]) == parts + [groupData];
    assert (parts + [groupData])[..|parts|] == parts;
    var last := Arrange(groupData, alg, natural);
    MapTargetsAppend(ArrangeNonEmpty(parts, alg, natural), if |last| > 0 then [last] else []);
  }

  /** The `splitLocalPattern` branch: one sorted part per subgroup key, empty or not. */
  method EmitLocal(bucket: seq<ProcessedNode>, alg: SortAlg, subgroup: string -> string,
                   natural: (string, string) -> bool) returns (out: seq<seq<AstWorker.Descriptor>>)
    ensures out == MapTargets(ArrangeAll(SplitBySubgroup(bucket, subgroup), alg, natural))
  {
    var localGroups := TagBySubgroup(bucket, subgroup);
    var keys := Distinct(Keys(localGroups));
    out := [];
    for k := 0 to |keys|
      invariant out == MapTargets(ArrangeAll(SelectEach(localGroups, keys[..k]), alg, natural))
    {
      var sortedData := SortGroup(Select(localGroups, keys[k]), alg, natural);
      AllStep(localGroups, keys, k, alg, natural);
      out := out + [sortedData];
    }
    assert keys[..|keys|] == keys;
  }

  /** One more key in `Object.keys(localGroups).forEach`: its part is pushed. */
  lemma AllStep<K>(t: seq<(K, ProcessedNode)>, keys: seq<K>, k: nat, alg: SortAlg, natural: (string, string) -> bool)
    requires k < |keys|
    ensures MapTargets(ArrangeAll(SelectEach(t, keys[..k + 1]), alg, natural))
              == MapTargets(ArrangeAll(SelectEach(t, keys[..k]), alg, natural)) + [SortGroup(Select(t, keys[k]), alg, natural)]
  {
    var part := Select(t, keys[k]);
    var parts := SelectEach(t, keys[..k]);
    assert SelectEach(t, keys[..k + 1]) == parts + [part];
    assert (parts + [part])[..|parts|] == parts;
    MapTargetsAppend(ArrangeAll(parts, alg, natural), [Arrange(part, alg, natural)]);
  }

  /** `process` */
  method Process(r: PathResolver, nodes: seq<AstWorker.Descriptor>, options: Options,
                 natural: (string, string) -> bool) returns (flatResult: seq<seq<AstWorker.Descriptor>>)
    ensures flatResult == Sort(r, nodes, options, natural)
  {
    var meta := ResolveMetadata(r, nodes);
    flatResult := EmitAll(meta, options, natural);
  }

  /** `process` after `resolveMetadata`: add rest, fill the buckets, emit group by group. */
  method EmitAll(meta: seq<ProcessedNode>, options: Options, natural: (string, string) -> bool)
    returns (flatResult: seq<seq<AstWorker.Descriptor>>)
    ensures flatResult == Output(meta, options, natural)
  {
    var groups := options.groups;
    var hasRest := Rest in Keys(groups);
    if !hasRest {
      groups := groups + [(Rest, Persist)];
    }
    assert groups == WithRest(options.groups);
    var buckets := Classify(meta, groups);
    flatResult := EmitGroups(groups, buckets, options, natural, Tag(meta, groups));
  }

  /** `groups.forEach`: every declared group, in order, pushes its contribution. */
  method EmitGroups(groups: seq<Group>, buckets: map<GroupName, seq<ProcessedNode>>, options: Options,
                    natural: (string, string) -> bool, ghost tagged: seq<(GroupName, ProcessedNode)>)
    returns (flatResult: seq<seq<AstWorker.Descriptor>>)
    requires forall g :: g in Keys(groups) ==> g in buckets && buckets[g] == Select(tagged, g)
    ensures flatResult == MapTargets(Layout(groups, tagged, options, natural))
  {
    flatResult := [];
    for k := 0 to |groups|
      invariant flatResult == MapTargets(Layout(groups[..k], tagged, options, natural))
    {
      assert groups[k].0 == Keys(groups)[k];
      var emitted := EmitGroupOf(groups[k], buckets[groups[k].0], options, natural, tagged);
      LayoutStep(groups, k, tagged, options, natural);
      flatResult := flatResult + emitted;
    }
    assert groups[..|groups|] == groups;
  }

  /** The body of `groups.forEach`: what the group `g` pushes, given its bucket. */
  method EmitGroupOf(g: Group, bucket: seq<ProcessedNode>, options: Options, natural: (string, string) -> bool,
                     ghost tagged: seq<(GroupName, ProcessedNode)>) returns (emitted: seq<seq<AstWorker.Descriptor>>)
    requires bucket == Select(tagged, g.0)
    ensures emitted == MapTargets(EmitGroup(g, tagged, options, natural))
  {
    var (group, sortAlg) := g;
    if group == Relative && options.splitRelativeGroups {
      emitted := EmitRelative(bucket, sortAlg, options.relativeSortAlg, natural);
    } else if group == Local && options.splitLocalPattern.Some? {
      emitted := EmitLocal(bucket, sortAlg, options.splitLocalPattern.value, natural);
    } else {
      var sortedData := SortGroup(bucket, sortAlg, natural);
      emitted := if |sortedData| > 0 then [sortedData] else [];
      var arranged := Arrange(bucket, sortAlg, natural);
      assert [bucket][..0] == [];
      assert ArrangeNonEmpty([bucket], sortAlg, natural) == if |arranged| > 0 then [arranged] else [];
    }
  }

  /** One more declared group: its contribution follows those of the groups before it. */
  lemma LayoutStep(groups: seq<Group>, k: nat, tagged: seq<(GroupName, ProcessedNode)>, options: Options,
                   natural: (string, string) -> bool)
    requires k < |groups|
    ensures MapTargets(Layout(groups[..k + 1], tagged, options, natural))
         == MapTargets(Layout(groups[..k], tagged, options, natural)) + MapTargets(EmitGroup(groups[k], tagged, options, natural))
  {
    assert groups[..k + 1][..k] == groups[..k];
    MapTargetsAppend(Layout(groups[..k], tagged, options, natural), EmitGroup(groups[k], tagged, options, natural));
  }

  // ---------------------------------------------------- relative depth

  /** `n` copies of "../". */
  function Ups(n: nat): string {
    if n == 0 then "" else "../" + Ups(n - 1)
  }

  /**
   * A path with exactly `n` leading "../" has depth 2n; in particular a path with
   * neither "./" nor "../" in front has depth 0.
   */
  lemma {:induction false} DepthOfParents(n: nat, rest: string)
    requires !StartsWith(rest, "../")
    requires n == 0 ==> !StartsWith(rest, "./")
    ensures RelativeDepth(Ups(n) + rest) == 2 * n
  {
    HopsOfParents(n, rest);
    if n > 0 {
      assert (Ups(n) + rest)[..2] == "..";
    }
  }

  lemma {:induction false} HopsOfParents(n: nat, rest: string)
    requires !StartsWith(rest, "../")
    ensures ParentHops(Ups(n) + rest) == n
  {
    if n > 0 {
      var p := Ups(n) + rest;
      assert p == "../" + (Ups(n - 1) + rest);
      assert p[..3] == "../";
      assert p[3..] == Ups(n - 1) + rest;
      HopsOfParents(n - 1, rest);
    }
  }

  /** The depth is 1 for "./", otherwise even; it is 0 exactly when the path is bare. */
  lemma DepthShape(p: string)
    ensures RelativeDepth(p) == 1 || RelativeDepth(p) % 2 == 0
    ensures RelativeDepth(p) == 1 <==> StartsWith(p, "./")
    ensures RelativeDepth(p) == 0 <==> !StartsWith(p, "./") && !StartsWith(p, "../")
  {
  }

  /** The depths of the paths the sorter's own examples use. */
  lemma DepthExamples()
    ensures RelativeDepth("./test") == 1
    ensures RelativeDepth("../test") == 2
    ensures RelativeDepth("../../test") == 4
    ensures RelativeDepth("global") == 0
  {
    assert ("./test")[..2] == "./";
    assert !StartsWith("test", "../") by { assert ("test")[..3] == "tes"; }
    assert !StartsWith("global", "../") by { assert ("global")[..3] == "glo"; }
    assert !StartsWith("global", "./") by { assert ("global")[..2] == "gl"; }
    assert Ups(1) == "../" && Ups(2) == "../../";
    assert "../test" == Ups(1) + "test";
    assert "../../test" == Ups(2) + "test";
    assert "global" == Ups(0) + "global";
    DepthOfParents(1, "test");
    DepthOfParents(2, "test");
    DepthOfParents(0, "global");
  }

  // ---------------------------------------------------- classification

  /** Without a relative group, a relative path that no earlier bucket takes goes to local. */
  lemma RelativeFallsBackToLocal(m: ProcessedNode, groups: seq<Group>)
    requires m.relativeDepth > 0 && Declared(groups, Local) && !Declared(groups, Relative)
    requires !(m.isStatic && Declared(groups, Static))
    requires m.isLocal || !Declared(groups, Global)
    ensures Bucket(m, groups) == Local
  {
  }

  /** With only rest and static declared, everything but the static imports lands in rest. */
  lemma RestTakesTheUnclaimed(m: ProcessedNode)
    ensures Bucket(m, [(Rest, Persist), (Static, Persist)]) == if m.isStatic then Static else Rest
  {
    var groups := [(Rest, Persist), (Static, Persist)];
    assert Keys(groups) == [Rest, Static];
  }

  /** The metadata lists the descriptors in order, numbered from 0. */
  lemma MetadataInInputOrder(r: PathResolver, nodes: seq<AstWorker.Descriptor>, groups: seq<Group>)
    ensures Targets(Metadata(r, nodes)) == nodes
    ensures Items(Tag(Metadata(r, nodes), groups)) == Metadata(r, nodes)
    ensures SortedBy(Metadata(r, nodes), OrderOf, IntLe)
  {
    var meta := Metadata(r, nodes);
    MetadataTargets(r, nodes);
    TagItems(meta, groups);
    MetadataOrdered(r, nodes);
  }

  lemma MetadataTargets(r: PathResolver, nodes: seq<AstWorker.Descriptor>)
    ensures Targets(Metadata(r, nodes)) == nodes
  {
    var meta := Metadata(r, nodes);
    assert forall i :: 0 <= i < |nodes| ==> Targets(meta)[i] == meta[i].target;
  }

  lemma MetadataOrdered(r: PathResolver, nodes: seq<AstWorker.Descriptor>)
    ensures SortedBy(Metadata(r, nodes), OrderOf, IntLe)
  {
    var meta := Metadata(r, nodes);
    assert forall i :: 0 <= i < |meta| ==> OrderOf(meta[i]) == i;
  }

  lemma TagItems(ms: seq<ProcessedNode>, groups: seq<Group>)
    ensures Items(Tag(ms, groups)) == ms
  {
  }

  /** Each bucket keeps the nodes in input order. */
  lemma BucketInInputOrder(r: PathResolver, nodes: seq<AstWorker.Descriptor>, groups: seq<Group>, g: GroupName)
    ensures SortedBy(Select(Tag(Metadata(r, nodes), groups), g), OrderOf, IntLe)
  {
    var meta := Metadata(r, nodes);
    TagItems(meta, groups);
    assert SortedBy(Items(Tag(meta, groups)), OrderOf, IntLe);
    SelectInKeepsOrder(Tag(meta, groups), {g}, OrderOf, IntLe);
  }

  // ---------------------------------------------------- arranging one group

  /**
   * `'persist'`, and any algorithm other than `'natural'`, gives a bucket back in
   * input order.
   */
  lemma PersistKeepsInputOrder(r: PathResolver, nodes: seq<AstWorker.Descriptor>, groups: seq<Group>, g: GroupName,
                               alg: SortAlg, natural: (string, string) -> bool)
    requires alg != Natural
    ensures Arrange(Select(Tag(Metadata(r, nodes), groups), g), alg, natural) == Select(Tag(Metadata(r, nodes), groups), g)
  {
    var bucket := Select(Tag(Metadata(r, nodes), groups), g);
    BucketInInputOrder(r, nodes, groups, g);
    if alg == Persist {
      SortByOfSorted(bucket, OrderOf, IntLe);
    }
  }

  /** `'natural'` orders a group by source path under the comparator, keeping its contents. */
  lemma NaturalOrdersByPath(group: seq<ProcessedNode>, natural: (string, string) -> bool)
    requires TotalPreorder(natural)
    ensures SortedBy(Arrange(group, Natural, natural), SourceOf, natural)
    ensures multiset(Arrange(group, Natural, natural)) == multiset(group)
  {
    SortBySorted(group, SourceOf, natural);
  }

  // ---------------------------------------------------- splitting

  /** The distinct depths of the relative bucket, in the order the comparator puts them. */
  function SplitDepths(bucket: seq<ProcessedNode>, dir: Option<RelativeSortAlg>): seq<int> {
    Distinct(Keys(DepthTagged(bucket, dir)))
  }

  /**
   * `parts` splits `bucket` by depth: one non-empty part per depth of `depths`, the
   * depths strictly ascending for `'shallow-first'` and strictly descending
   * otherwise, every depth of the bucket among them, and nothing lost or added.
   */
  ghost predicate DepthSplit(parts: seq<seq<ProcessedNode>>, depths: seq<int>, bucket: seq<ProcessedNode>,
                             dir: Option<RelativeSortAlg>) {
    && |parts| == |depths|
    && (forall k :: 0 <= k < |parts| ==> parts[k] != [])
    && (forall k, x :: 0 <= k < |parts| && x in parts[k] ==> x.relativeDepth == depths[k])
    && (forall k, l :: 0 <= k < l < |depths| ==>
          if dir == Some(ShallowFirst) then depths[k] < depths[l] else depths[k] > depths[l])
    && (forall x :: x in bucket ==> x.relativeDepth as int in depths)
    && multiset(Flatten(parts)) == multiset(bucket)
  }

  lemma DepthOrderTotal(dir: Option<RelativeSortAlg>)
    ensures TotalPreorder(DepthOrder(dir))
  {
    IntOrdersTotal();
  }

  lemma DepthTaggedItems(bucket: seq<ProcessedNode>, dir: Option<RelativeSortAlg>)
    ensures Items(DepthTagged(bucket, dir)) == SortBy(bucket, DepthOf, DepthOrder(dir))
  {
  }

  /** The depth tags of the sorted relative bucket are in comparator order, so its distinct depths are strictly so. */
  lemma SplitDepthsOrdered(bucket: seq<ProcessedNode>, dir: Option<RelativeSortAlg>)
    ensures forall k, l :: 0 <= k < l < |SplitDepths(bucket, dir)| ==>
              if dir == Some(ShallowFirst) then SplitDepths(bucket, dir)[k] < SplitDepths(bucket, dir)[l]
              else SplitDepths(bucket, dir)[k] > SplitDepths(bucket, dir)[l]
  {
    var le := DepthOrder(dir);
    var byDepth := SortBy(bucket, DepthOf, le);
    var ks0 := Keys(DepthTagged(bucket, dir));
    var ks := SplitDepths(bucket, dir);
    DepthOrderTotal(dir);
    SortBySorted(bucket, DepthOf, le);
    assert forall i, j :: 0 <= i < j < |ks0| ==> le(ks0[i], ks0[j]) by {
      forall i, j | 0 <= i < j < |ks0| ensures le(ks0[i], ks0[j]) {
        assert ks0[i] == DepthOf(byDepth[i]) && ks0[j] == DepthOf(byDepth[j]);
      }
    }
    DistinctOrdered(ks0, le);
    forall k, l | 0 <= k < l < |ks|
      ensures if dir == Some(ShallowFirst) then ks[k] < ks[l] else ks[k] > ks[l]
    {
      assert le(ks[k], ks[l]) && ks[k] != ks[l];
    }
  }

  /** Every depth of the relative bucket is among the split depths. */
  lemma SplitDepthsCover(bucket: seq<ProcessedNode>, dir: Option<RelativeSortAlg>)
    ensures forall x :: x in bucket ==> x.relativeDepth as int in SplitDepths(bucket, dir)
  {
    var byDepth := SortBy(bucket, DepthOf, DepthOrder(dir));
    var ks0 := Keys(DepthTagged(bucket, dir));
    forall x | x in bucket ensures x.relativeDepth as int in SplitDepths(bucket, dir) {
      assert x in multiset(byDepth);
      var i :| 0 <= i < |byDepth| && byDepth[i] == x;
      assert ks0[i] == x.relativeDepth;
    }
  }

  /** Each part of the split holds nodes of its own depth only. */
  lemma SplitPartsShareDepth(bucket: seq<ProcessedNode>, dir: Option<RelativeSortAlg>)
    ensures |SplitByDepth(bucket, dir)| == |SplitDepths(bucket, dir)|
    ensures forall k :: 0 <= k < |SplitByDepth(bucket, dir)| ==> SplitByDepth(bucket, dir)[k] != []
    ensures forall k, x :: 0 <= k < |SplitByDepth(bucket, dir)| && x in SplitByDepth(bucket, dir)[k] ==>
              x.relativeDepth == SplitDepths(bucket, dir)[k]
    ensures multiset(Flatten(SplitByDepth(bucket, dir))) == multiset(Items(DepthTagged(bucket, dir)))
  {
    SplitNonEmpty(DepthTagged(bucket, dir));
    SplitKeeps(DepthTagged(bucket, dir));
    PartsShareDepth(bucket, dir);
  }

  lemma PartsShareDepth(bucket: seq<ProcessedNode>, dir: Option<RelativeSortAlg>)
    ensures forall k, x :: 0 <= k < |SplitByDepth(bucket, dir)| && x in SplitByDepth(bucket, dir)[k] ==>
              x.relativeDepth == SplitDepths(bucket, dir)[k]
  {
    var t := DepthTagged(bucket, dir);
    var ks := SplitDepths(bucket, dir);
    var parts := SplitByDepth(bucket, dir);
    forall k, x: ProcessedNode | 0 <= k < |parts| && x in parts[k] ensures x.relativeDepth == ks[k] {
      SplitMemberTag(t, k, x);
      var i :| 0 <= i < |t| && t[i].0 == ks[k] && t[i].1 == x;
    }
  }

  lemma SplitByDepthShape(bucket: seq<ProcessedNode>, dir: Option<RelativeSortAlg>)
    ensures DepthSplit(SplitByDepth(bucket, dir), SplitDepths(bucket, dir), bucket, dir)
  {
    SplitDepthsOrdered(bucket, dir);
    SplitDepthsCover(bucket, dir);
    SplitPartsShareDepth(bucket, dir);
    DepthTaggedItems(bucket, dir);
  }

  /** The subgroup keys of the local bucket, in order of first appearance. */
  function SubgroupKeys(bucket: seq<ProcessedNode>, subgroup: string -> string): seq<string> {
    Distinct(Keys(TagBySubgroup(bucket, subgroup)))
  }

  /**
   * The local bucket split by subgroup: one non-empty part per key, the keys
   * distinct, all members of a part sharing its key, and nothing lost or added.
   */
  lemma SplitBySubgroupShape(bucket: seq<ProcessedNode>, subgroup: string -> string)
    ensures |SplitBySubgroup(bucket, subgroup)| == |SubgroupKeys(bucket, subgroup)|
    ensures NoDup(SubgroupKeys(bucket, subgroup))
    ensures forall k :: 0 <= k < |SplitBySubgroup(bucket, subgroup)| ==> SplitBySubgroup(bucket, subgroup)[k] != []
    ensures forall k, x :: 0 <= k < |SplitBySubgroup(bucket, subgroup)| && x in SplitBySubgroup(bucket, subgroup)[k] ==>
              subgroup(SourceOf(x)) == SubgroupKeys(bucket, subgroup)[k]
    ensures multiset(Flatten(SplitBySubgroup(bucket, subgroup))) == multiset(bucket)
  {
    SubgroupPartsShareKey(bucket, subgroup);
    SubgroupPartsKeep(bucket, subgroup);
  }

  /** The subgroups come in the order in which their keys first appear in the bucket. */
  lemma SubgroupsInFirstOrder(bucket: seq<ProcessedNode>, subgroup: string -> string)
    ensures forall i, j :: 0 <= i < j < |SubgroupKeys(bucket, subgroup)| ==>
              FirstIndex(Keys(TagBySubgroup(bucket, subgroup)), SubgroupKeys(bucket, subgroup)[i])
              < FirstIndex(Keys(TagBySubgroup(bucket, subgroup)), SubgroupKeys(bucket, subgroup)[j])
  {
    DistinctInFirstOrder(Keys(TagBySubgroup(bucket, subgroup)));
  }

  lemma SubgroupPartsShareKey(bucket: seq<ProcessedNode>, subgroup: string -> string)
    ensures forall k :: 0 <= k < |SplitBySubgroup(bucket, subgroup)| ==> SplitBySubgroup(bucket, subgroup)[k] != []
    ensures forall k, x :: 0 <= k < |SplitBySubgroup(bucket, subgroup)| && x in SplitBySubgroup(bucket, subgroup)[k] ==>
              subgroup(SourceOf(x)) == SubgroupKeys(bucket, subgroup)[k]
  {
    var t := TagBySubgroup(bucket, subgroup);
    var parts := SplitBySubgroup(bucket, subgroup);
    var keys := SubgroupKeys(bucket, subgroup);
    SplitNonEmpty(t);
    forall k, x: ProcessedNode | 0 <= k < |parts| && x in parts[k] ensures subgroup(SourceOf(x)) == keys[k] {
      SplitMemberTag(t, k, x);
      var i :| 0 <= i < |t| && t[i].0 == keys[k] && t[i].1 == x;
    }
  }

  lemma SubgroupPartsKeep(bucket: seq<ProcessedNode>, subgroup: string -> string)
    ensures multiset(Flatten(SplitBySubgroup(bucket, subgroup))) == multiset(bucket)
  {
    SplitKeeps(TagBySubgroup(bucket, subgroup));
    SubgroupTaggedItems(bucket, subgroup);
  }

  lemma SubgroupTaggedItems(bucket: seq<ProcessedNode>, subgroup: string -> string)
    ensures Items(TagBySubgroup(bucket, subgroup)) == bucket
  {
  }

  // ---------------------------------------------------- the output

  ghost predicate NoEmpty<T>(gs: seq<seq<T>>) {
    forall k :: 0 <= k < |gs| ==> gs[k] != []
  }

  lemma {:induction false} ArrangeNonEmptyDropsEmpty(parts: seq<seq<ProcessedNode>>, alg: SortAlg,
                                                    natural: (string, string) -> bool)
    ensures NoEmpty(ArrangeNonEmpty(parts, alg, natural))
    ensures NoEmpty(parts) ==> |ArrangeNonEmpty(parts, alg, natural)| == |parts|
  {
    if parts != [] {
      var init := parts[..|parts| - 1];
      ArrangeNonEmptyDropsEmpty(init, alg, natural);
      if NoEmpty(parts) {
        assert NoEmpty(init) by {
          forall k | 0 <= k < |init| ensures init[k] != [] {
            assert init[k] == parts[k];
          }
        }
        assert parts[|parts| - 1] != [];
      }
    }
  }

  lemma {:induction false} ArrangeNonEmptyKeeps(parts: seq<seq<ProcessedNode>>, alg: SortAlg,
                                                natural: (string, string) -> bool)
    ensures multiset(Flatten(ArrangeNonEmpty(parts, alg, natural))) == multiset(Flatten(parts))
  {
    if parts != [] {
      var init := parts[..|parts| - 1];
      var last := Arrange(parts[|parts| - 1], alg, natural);
      var done := ArrangeNonEmpty(init, alg, natural);
      ArrangeNonEmptyKeeps(init, alg, natural);
      FlattenLast(parts);
      assert multiset(Flatten(parts)) == multiset(Flatten(init)) + multiset(last);
      if |last| > 0 {
        assert ArrangeNonEmpty(parts, alg, natural) == done + [last];
        FlattenSnoc(done, last);
      } else {
        assert ArrangeNonEmpty(parts, alg, natural) == done + [];
        assert done + [] == done;
      }
    }
  }

  lemma {:induction false} ArrangeAllKeepsNonEmpty(parts: seq<seq<ProcessedNode>>, alg: SortAlg,
                                                   natural: (string, string) -> bool)
    requires NoEmpty(parts)
    ensures NoEmpty(ArrangeAll(parts, alg, natural))
  {
    if parts != [] {
      var init := parts[..|parts| - 1];
      assert NoEmpty(init) by {
        forall k | 0 <= k < |init| ensures init[k] != [] {
          assert init[k] == parts[k];
        }
      }
      ArrangeAllKeepsNonEmpty(init, alg, natural);
    }
  }

  lemma {:induction false} ArrangeAllKeeps(parts: seq<seq<ProcessedNode>>, alg: SortAlg,
                                           natural: (string, string) -> bool)
    ensures multiset(Flatten(ArrangeAll(parts, alg, natural))) == multiset(Flatten(parts))
  {
    if parts != [] {
      var init := parts[..|parts| - 1];
      ArrangeAllKeeps(init, alg, natural);
      FlattenLast(parts);
      FlattenSnoc(ArrangeAll(init, alg, natural), Arrange(parts[|parts| - 1], alg, natural));
    }
  }

  /** One group's contribution holds no empty group. */
  lemma EmitGroupNoEmpty(g: Group, tagged: seq<(GroupName, ProcessedNode)>, options: Options,
                         natural: (string, string) -> bool)
    ensures NoEmpty(EmitGroup(g, tagged, options, natural))
  {
    var bucket := Select(tagged, g.0);
    if g.0 == Relative && options.splitRelativeGroups {
      ArrangeNonEmptyDropsEmpty(SplitByDepth(bucket, options.relativeSortAlg), g.1, natural);
    } else if g.0 == Local && options.splitLocalPattern.Some? {
      SplitBySubgroupShape(bucket, options.splitLocalPattern.value);
      ArrangeAllKeepsNonEmpty(SplitBySubgroup(bucket, options.splitLocalPattern.value), g.1, natural);
    } else {
      ArrangeNonEmptyDropsEmpty([bucket], g.1, natural);
    }
  }

  /** One group's contribution holds exactly the nodes of its bucket. */
  lemma EmitGroupKeeps(g: Group, tagged: seq<(GroupName, ProcessedNode)>, options: Options,
                       natural: (string, string) -> bool)
    ensures multiset(Flatten(EmitGroup(g, tagged, options, natural))) == multiset(Select(tagged, g.0))
  {
    var bucket := Select(tagged, g.0);
    if g.0 == Relative && options.splitRelativeGroups {
      SplitByDepthShape(bucket, options.relativeSortAlg);
      ArrangeNonEmptyKeeps(SplitByDepth(bucket, options.relativeSortAlg), g.1, natural);
    } else if g.0 == Local && options.splitLocalPattern.Some? {
      SplitBySubgroupShape(bucket, options.splitLocalPattern.value);
      ArrangeAllKeeps(SplitBySubgroup(bucket, options.splitLocalPattern.value), g.1, natural);
    } else {
      ArrangeNonEmptyKeeps([bucket], g.1, natural);
      assert [bucket][..0] == [];
      FlattenSnoc([], bucket);
      assert [] + [bucket] == [bucket];
    }
  }

  /** A group that is not split contributes its arranged bucket as one group, or nothing when empty. */
  lemma EmitGroupUnsplit(g: Group, tagged: seq<(GroupName, ProcessedNode)>, options: Options,
                         natural: (string, string) -> bool)
    requires !(g.0 == Relative && options.splitRelativeGroups) && !(g.0 == Local && options.splitLocalPattern.Some?)
    ensures EmitGroup(g, tagged, options, natural)
              == if Select(tagged, g.0) == [] then [] else [Arrange(Select(tagged, g.0), g.1, natural)]
  {
    var bucket := Select(tagged, g.0);
    var arranged := Arrange(bucket, g.1, natural);
    assert [bucket][..0] == [];
    assert ArrangeNonEmpty([bucket], g.1, natural) == [] + if |arranged| > 0 then [arranged] else [];
  }

  /** Arranging parts none of which is empty drops none of them. */
  lemma {:induction false} ArrangeNonEmptyOfNonEmpty(parts: seq<seq<ProcessedNode>>, alg: SortAlg,
                                                    natural: (string, string) -> bool)
    requires NoEmpty(parts)
    ensures ArrangeNonEmpty(parts, alg, natural) == ArrangeAll(parts, alg, natural)
  {
    if parts != [] {
      var init := parts[..|parts| - 1];
      assert NoEmpty(init) by {
        forall k | 0 <= k < |init| ensures init[k] != [] {
          assert init[k] == parts[k];
        }
      }
      ArrangeNonEmptyOfNonEmpty(init, alg, natural);
      assert |Arrange(parts[|parts| - 1], alg, natural)| > 0;
    }
  }

  /** `ArrangeAll` arranges the `k`th part into the `k`th place. */
  lemma {:induction false} ArrangeAllParts(parts: seq<seq<ProcessedNode>>, alg: SortAlg,
                                          natural: (string, string) -> bool)
    ensures |ArrangeAll(parts, alg, natural)| == |parts|
    ensures forall k :: 0 <= k < |parts| ==> ArrangeAll(parts, alg, natural)[k] == Arrange(parts[k], alg, natural)
  {
    if parts != [] {
      var init := parts[..|parts| - 1];
      ArrangeAllParts(init, alg, natural);
      var all := ArrangeAll(parts, alg, natural);
      assert all == ArrangeAll(init, alg, natural) + [Arrange(parts[|parts| - 1], alg, natural)];
      forall k | 0 <= k < |init| ensures all[k] == Arrange(parts[k], alg, natural) {
        assert parts[k] == init[k];
      }
    }
  }

  /**
   * With `splitRelativeGroups`, the relative group contributes one group per
   * distinct depth, in comparator order, each holding exactly the bucket's nodes of
   * that depth, arranged by the group's algorithm.
   */
  lemma RelativeOutputByDepth(g: Group, tagged: seq<(GroupName, ProcessedNode)>, options: Options,
                              natural: (string, string) -> bool)
    requires g.0 == Relative && options.splitRelativeGroups
    ensures |EmitGroup(g, tagged, options, natural)| == |SplitDepths(Select(tagged, g.0), options.relativeSortAlg)|
    ensures forall k, x :: 0 <= k < |EmitGroup(g, tagged, options, natural)| && x in EmitGroup(g, tagged, options, natural)[k] ==>
              x.relativeDepth == SplitDepths(Select(tagged, g.0), options.relativeSortAlg)[k]
  {
    var bucket := Select(tagged, g.0);
    var dir := options.relativeSortAlg;
    var parts := SplitByDepth(bucket, dir);
    var depths := SplitDepths(bucket, dir);
    SplitByDepthShape(bucket, dir);
    ArrangeNonEmptyOfNonEmpty(parts, g.1, natural);
    ArrangeAllParts(parts, g.1, natural);
    var out := EmitGroup(g, tagged, options, natural);
    forall k, x: ProcessedNode | 0 <= k < |out| && x in out[k] ensures x.relativeDepth == depths[k] {
      assert out[k] == Arrange(parts[k], g.1, natural);
      assert x in multiset(parts[k]);
    }
  }

  /** Selecting one depth of the depth-tagged nodes keeps the nodes of that depth, in order. */
  lemma {:induction false} SelectDepth(ms: seq<ProcessedNode>, dir: Option<RelativeSortAlg>, d: int)
    ensures Select(TagByDepth(ms), d) == TiesOf(ms, DepthOf, DepthOrder(dir), d)
  {
    if ms != [] {
      var init := ms[..|ms| - 1];
      var last := ms[|ms| - 1];
      SelectDepth(init, dir, d);
      SelectSnoc(TagByDepth(init), (last.relativeDepth as int, last), d);
      assert ms == init + [last];
      TiesOfAppend(init, [last], DepthOf, DepthOrder(dir), d);
      assert [last][1..] == [];
    }
  }

  /**
   * The depth sort is stable: the part of each depth holds exactly the bucket's
   * nodes of that depth, in the order they have in the bucket.
   */
  lemma DepthPartsAreTies(bucket: seq<ProcessedNode>, dir: Option<RelativeSortAlg>)
    ensures |SplitByDepth(bucket, dir)| == |SplitDepths(bucket, dir)|
    ensures forall k :: 0 <= k < |SplitByDepth(bucket, dir)| ==>
              SplitByDepth(bucket, dir)[k] == TiesOf(bucket, DepthOf, DepthOrder(dir), SplitDepths(bucket, dir)[k])
  {
    var sorted := SortBy(bucket, DepthOf, DepthOrder(dir));
    var parts := SplitByDepth(bucket, dir);
    var depths := SplitDepths(bucket, dir);
    DepthOrderTotal(dir);
    forall k | 0 <= k < |parts| ensures parts[k] == TiesOf(bucket, DepthOf, DepthOrder(dir), depths[k]) {
      SelectDepth(sorted, dir, depths[k]);
      SortByStable(bucket, DepthOf, DepthOrder(dir), depths[k]);
    }
  }

  /**
   * With `splitRelativeGroups`, the `k`th group the relative group contributes is
   * the arranged list of its bucket's nodes of the `k`th depth, taken in input order.
   */
  lemma RelativeOutputParts(r: PathResolver, nodes: seq<AstWorker.Descriptor>, groups: seq<Group>, g: Group,
                            options: Options, natural: (string, string) -> bool)
    requires g.0 == Relative && options.splitRelativeGroups
    ensures |EmitGroup(g, Tag(Metadata(r, nodes), groups), options, natural)|
              == |SplitDepths(Select(Tag(Metadata(r, nodes), groups), Relative), options.relativeSortAlg)|
    ensures forall k :: 0 <= k < |EmitGroup(g, Tag(Metadata(r, nodes), groups), options, natural)| ==>
              var bucket := Select(Tag(Metadata(r, nodes), groups), Relative);
              var part := TiesOf(bucket, DepthOf, DepthOrder(options.relativeSortAlg),
                                 SplitDepths(bucket, options.relativeSortAlg)[k]);
              && EmitGroup(g, Tag(Metadata(r, nodes), groups), options, natural)[k] == Arrange(part, g.1, natural)
              && SortedBy(part, OrderOf, IntLe)
  {
    var tagged := Tag(Metadata(r, nodes), groups);
    var bucket := Select(tagged, Relative);
    var dir := options.relativeSortAlg;
    var parts := SplitByDepth(bucket, dir);
    var depths := SplitDepths(bucket, dir);
    var out := EmitGroup(g, tagged, options, natural);
    SplitPartsShareDepth(bucket, dir);
    ArrangeNonEmptyOfNonEmpty(parts, g.1, natural);
    ArrangeAllParts(parts, g.1, natural);
    DepthPartsAreTies(bucket, dir);
    BucketInInputOrder(r, nodes, groups, Relative);
    forall k | 0 <= k < |out|
      ensures out[k] == Arrange(TiesOf(bucket, DepthOf, DepthOrder(dir), depths[k]), g.1, natural)
      ensures SortedBy(TiesOf(bucket, DepthOf, DepthOrder(dir), depths[k]), OrderOf, IntLe)
    {
      TiesOfKeepsOrder(bucket, DepthOf, DepthOrder(dir), depths[k], OrderOf, IntLe);
    }
  }

  /** `'natural'` is stable: nodes whose paths the comparator ties keep their relative order. */
  lemma NaturalKeepsTies(group: seq<ProcessedNode>, natural: (string, string) -> bool, p: string)
    requires TotalPreorder(natural)
    ensures TiesOf(Arrange(group, Natural, natural), SourceOf, natural, p) == TiesOf(group, SourceOf, natural, p)
  {
    SortByStable(group, SourceOf, natural, p);
  }

  /** Under `'natural'`, the nodes of a bucket whose paths tie come out in input order. */
  lemma NaturalTiesInInputOrder(r: PathResolver, nodes: seq<AstWorker.Descriptor>, groups: seq<Group>, g: GroupName,
                                natural: (string, string) -> bool, p: string)
    requires TotalPreorder(natural)
    ensures SortedBy(TiesOf(Arrange(Select(Tag(Metadata(r, nodes), groups), g), Natural, natural), SourceOf, natural, p),
                     OrderOf, IntLe)
  {
    var bucket := Select(Tag(Metadata(r, nodes), groups), g);
    NaturalKeepsTies(bucket, natural, p);
    BucketInInputOrder(r, nodes, groups, g);
    TiesOfKeepsOrder(bucket, SourceOf, natural, p, OrderOf, IntLe);
  }

  lemma {:induction false} LayoutNoEmpty(groups: seq<Group>, tagged: seq<(GroupName, ProcessedNode)>, options: Options,
                                         natural: (string, string) -> bool)
    ensures NoEmpty(Layout(groups, tagged, options, natural))
  {
    if groups != [] {
      var a := Layout(groups[..|groups| - 1], tagged, options, natural);
      var e := EmitGroup(groups[|groups| - 1], tagged, options, natural);
      LayoutNoEmpty(groups[..|groups| - 1], tagged, options, natural);
      EmitGroupNoEmpty(groups[|groups| - 1], tagged, options, natural);
      assert Layout(groups, tagged, options, natural) == a + e;
      NoEmptyAppend(a, e);
    }
  }

  lemma NoEmptyAppend<T>(a: seq<seq<T>>, b: seq<seq<T>>)
    requires NoEmpty(a) && NoEmpty(b)
    ensures NoEmpty(a + b)
  {
    forall k | 0 <= k < |a + b| ensures (a + b)[k] != [] {
      if k < |a| { assert (a + b)[k] == a[k]; } else { assert (a + b)[k] == b[k - |a|]; }
    }
  }

  lemma {:induction false} LayoutKeeps(groups: seq<Group>, tagged: seq<(GroupName, ProcessedNode)>, options: Options,
                                       natural: (string, string) -> bool)
    ensures multiset(Flatten(Layout(groups, tagged, options, natural))) == multiset(Flatten(SelectEach(tagged, Keys(groups))))
  {
    if groups != [] {
      var init := groups[..|groups| - 1];
      var last := groups[|groups| - 1];
      LayoutKeeps(init, tagged, options, natural);
      EmitGroupKeeps(last, tagged, options, natural);
      FlattenAppend(Layout(init, tagged, options, natural), EmitGroup(last, tagged, options, natural));
      SelectEachSnoc(tagged, Keys(init), last.0);
      FlattenSnoc(SelectEach(tagged, Keys(init)), Select(tagged, last.0));
    }
  }

  lemma {:induction false} FlattenMapTargets(gs: seq<seq<ProcessedNode>>)
    ensures Flatten(MapTargets(gs)) == Targets(Flatten(gs))
  {
    if gs != [] {
      assert MapTargets(gs)[1..] == MapTargets(gs[1..]);
      FlattenMapTargets(gs[1..]);
      assert Targets(gs[0] + Flatten(gs[1..])) == Targets(gs[0]) + Targets(Flatten(gs[1..]));
    }
  }

  /** No group of the output is empty. */
  lemma NoEmptyGroups(r: PathResolver, nodes: seq<AstWorker.Descriptor>, options: Options, natural: (string, string) -> bool)
    ensures forall k :: 0 <= k < |Sort(r, nodes, options, natural)| ==> Sort(r, nodes, options, natural)[k] != []
  {
    var groups := WithRest(options.groups);
    var layout := Layout(groups, Tag(Metadata(r, nodes), groups), options, natural);
    LayoutNoEmpty(groups, Tag(Metadata(r, nodes), groups), options, natural);
    forall k | 0 <= k < |layout| ensures MapTargets(layout)[k] != [] {
      assert |MapTargets(layout)[k]| == |layout[k]|;
    }
  }

  /**
   * When no group is declared twice, the output holds every import exactly once:
   * the concatenated groups are a permutation of the input.
   */
  lemma SortIsPermutation(r: PathResolver, nodes: seq<AstWorker.Descriptor>, options: Options,
                          natural: (string, string) -> bool)
    requires NoDup(Keys(options.groups))
    ensures multiset(Flatten(Sort(r, nodes, options, natural))) == multiset(nodes)
  {
    var groups := WithRest(options.groups);
    var meta := Metadata(r, nodes);
    var tagged := Tag(meta, groups);
    var layout := Layout(groups, tagged, options, natural);
    LayoutKeeps(groups, tagged, options, natural);
    forall i | 0 <= i < |tagged| ensures tagged[i].0 in Keys(groups) {
      assert tagged[i].0 == Bucket(meta[i], groups);
    }
    SelectEachPartition(tagged, Keys(groups));
    TagItems(meta, groups);
    FlattenMapTargets(layout);
    MapSeqPermutation(Flatten(layout), meta, TargetOf);
    MetadataInInputOrder(r, nodes, groups);
  }
}
