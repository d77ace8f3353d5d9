# prettier-plugin-group-imports: a Dafny model of the sorting core

The plugin rewrites the import block of a JavaScript or TypeScript file. Its core has four parts, and each is modelled here.

- **The splicing engine (`ASTWorker`)** keeps the original text and a working buffer. It does three things:
  - It turns each import declaration into a descriptor: a span plus the text under it. The span is widened over the comments that belong to the import. Comment ownership is decided by `importCommentMode`, and a comment claimed by one import is not claimed again.
  - It cuts spans out of the buffer.
  - It writes groups of imports back at one offset, each group right after the previous one.
- **The sorter (`Sorter`)** works in three steps:
  - It computes metadata for every import: its input position, whether the path resolver calls it local, whether it names a file with an extension ("static"), and its relative depth.
  - It puts every import into exactly one bucket by a fixed priority chain: static, global, local at depth 0, relative, local at depth above 0, rest.
  - Each declared group then emits its bucket, in declaration order. A bucket may be split by depth or by a subgroup key, and is sorted by the group's algorithm (`natural`, `persist`, or anything else, which keeps the bucket as it is).
- **The path resolvers** decide whether an import is local:
  - The manifest resolver (`PackagePathResolver`) works only on strings: a target is global when it names a declared dependency, exactly or below `dependency/`. It never consults the file system.
  - The file-system resolver (`PathResolver`) probes aliases and the base URL through `fileExists`. In the model, every probe it makes is recorded in order.
- **`getExtension`** is shared by both resolvers. It is Node's POSIX `path.extname` without the dot.

Module layout:

| module | contents |
|---|---|
| `Text` | the JavaScript string operations used: `startsWith`, `slice` with clamping, `indexOf` |
| `Seqs` | a stable sort by key (`Array.prototype.sort` is stable); first-occurrence de-duplication; bucketing of tagged items, with partition lemmas |
| `Paths` | `extname` and `getExtension` |
| `PackageResolver` | the manifest resolver |
| `FsResolver` | the file-system resolver; the host's `fileExists` and `path.join` are a `Host` parameter |
| `AstWorker` | the splicing engine, as a `class ASTWorker` whose `source` buffer changes in place |
| `Sorter` | `resolveRelativeDepth`, `resolveMetadata` and `process`, as methods with loops proved equal to specification functions; `sortGroup` as the function `SortGroup`; lemmas about those functions |

## Model

| member | source | states |
|---|---|---|
| Text.Slice | src/services/ASTWorker.ts:155 | `slice(begin, end)` on non-negative offsets is the sub-range when it is in bounds, and never longer than the string |
| Text.SliceFrom | src/services/PathResolver.ts:147 | `slice(begin)` is the suffix from `begin`, or "" past the end |
| Text.IndexOf | src/services/Sorter.ts:82 | `indexOf(needle, from)` equals `from` exactly when the needle occurs at `from`; otherwise it is -1 or a later position |
| Seqs.SortBy | src/services/Sorter.ts:127-136 | the stable sort keeps the elements (same multiset, same length) |
| Seqs.InsertSorted | src/services/Sorter.ts:127-136 | inserting into a sorted sequence under a total preorder keeps it sorted |
| Seqs.SortBySorted | src/services/Sorter.ts:127-136 | the sort's result is sorted by the key under a total preorder |
| Seqs.SortByOfSorted | src/services/Sorter.ts:136 | sorting an already sorted sequence changes nothing, as a stable sort must |
| Seqs.InsertTies | src/services/Sorter.ts:127-136 | inserting an element puts it in front of the elements whose keys tie with its own, and moves no others among their ties |
| Seqs.SortByStable | src/services/Sorter.ts:127-136 | the sort is stable: for every key, the elements whose keys tie with it come out in the order they went in |
| Seqs.TiesOfIn | src/services/Sorter.ts:213-216 | the elements kept for a key come from the sequence and tie with the key |
| Seqs.TiesOfKeepsOrder | src/services/Sorter.ts:213-216 | keeping only the elements that tie with a key keeps any order the sequence had |
| Seqs.Distinct | src/services/Sorter.ts:207-211 | the `indexOf(x) === index` filter keeps every element, adds none and leaves no duplicate |
| Seqs.FirstIndex | src/services/Sorter.ts:209-210 | `indexOf(x)` on an array holding `x` is the position of its first occurrence |
| Seqs.DistinctInFirstOrder | src/services/Sorter.ts:207-211 | the filter keeps the elements in the order of their first occurrences |
| Seqs.DistinctOrdered | src/services/Sorter.ts:200-211 | de-duplicating an ordered sequence keeps it ordered |
| Seqs.SelectInKeepsOrder | src/services/Sorter.ts:178-194 | a bucket keeps the input order of its items |
| Seqs.SelectEachPartition | src/services/Sorter.ts:178-194 | distinct keys covering every tag split the items into buckets that together hold exactly the items |
| Seqs.SplitNonEmpty | src/services/Sorter.ts:213-216 | splitting by the distinct tags of a sequence gives no empty part |
| Seqs.SplitMemberTag | src/services/Sorter.ts:214-216 | every member of the k-th part carries the k-th distinct tag |
| Seqs.SplitKeeps | src/services/Sorter.ts:213-216 | splitting by the distinct tags loses and adds nothing |
| Seqs.MapSeqPermutation | src/services/Sorter.ts:144 | mapping two permutations of each other element-wise gives permutations of each other |
| Paths.LastDotShape | src/services/PathResolver/PathResolver.ts:17 | the last-dot search finds the last '.', and finds nothing exactly when there is no '.' |
| Paths.BaseNameShape | src/services/PathResolver/PathResolver.ts:17 | the last path segment contains no separator |
| Paths.GetExtensionShape | src/services/PathResolver/PathResolver.ts:17 | the extension has no '.' or '/'; it is the text after the last dot of the last segment; it is empty exactly when that segment is empty, has no dot after its first character, or ends in a dot |
| Paths.ExtensionAfterDot | src/services/PathResolver/PathResolver.ts:17 | a last segment whose last dot is past its first character gives what follows that dot |
| Paths.NoExtensionOf | src/services/PathResolver/PathResolver.ts:17 | a last segment with no dot, with its only dot in front, or equal to "..", gives "" |
| Paths.ExtensionOfFile | __tests__/PackagePathResolver.ts:7 | `getExtension("index.ts")` is "ts" |
| Paths.ExtensionOfNestedFile | __tests__/PackagePathResolver.ts:8 | `getExtension("src/code/index.ts")` is "ts" |
| Paths.ExtensionOfDeepFile | __tests__/PackagePathResolver.ts:9 | `getExtension("../../index.tsx")` is "tsx" |
| Paths.ExtensionOfDoubleDottedFile | __tests__/PackagePathResolver.ts:10 | `getExtension("../../index.test.ts")` is "ts" |
| Paths.NoExtensionOfCurrentDirectorySlash | __tests__/PackagePathResolver.ts:11 | `getExtension("./")` is "" |
| Paths.NoExtensionOfCurrentDirectory | __tests__/PackagePathResolver.ts:12 | `getExtension(".")` is "" |
| Paths.NoExtensionOfBareFile | __tests__/PackagePathResolver.ts:13 | `getExtension("src/code/index")` is "" |
| Paths.NoExtensionOfParentDirectory | __tests__/PackagePathResolver.ts:14 | `getExtension("../../")` is "" |
| PackageResolver.New | src/services/PathResolver/PackagePathResolver.ts:26-32 | an omitted dependency list becomes the empty list; a given one is kept |
| PackageResolver.AnyNames | src/services/PathResolver/PackagePathResolver.ts:38-49 | the short-circuiting `some` answers yes exactly when some dependency equals the target or is a '/'-bounded prefix of it |
| PackageResolver.IsLocal | src/services/PathResolver/PackagePathResolver.ts:54-64 | local exactly when the target starts with '.', the dependency list is empty, or no dependency names the target |
| PackageResolver.DotTargetIsLocal | src/services/PathResolver/PackagePathResolver.ts:55-57 | a target starting with '.' is local whatever the dependencies are |
| PackageResolver.DefaultResolverIsAllLocal | __tests__/PackagePathResolver.ts:17-25 | the resolver built without parameters calls every target local |
| PackageResolver.DependencyIsNotLocal | src/services/PathResolver/PackagePathResolver.ts:40-42 | a non-relative target equal to a dependency is not local |
| PackageResolver.DependencySubpathIsNotLocal | src/services/PathResolver/PackagePathResolver.ts:44-46 | a non-relative target below `dependency/` is not local |
| PackageResolver.PrefixWithoutSlashStaysLocal | __tests__/PackagePathResolver.ts:27-42 | with dependencies "global" and "global/deep": "globals" is local; "global" and "global/deep/file1" are not |
| FsResolver.ExtensionCandidates | src/services/PathResolver.ts:88-102 | the paths tried for the extensions: for each one in order, `join(path, "index.ext")` and then `path.ext` |
| FsResolver.ProbeExtensions | src/services/PathResolver.ts:88-102 | the `some` over the extensions probes a prefix of those candidates, stops at the first hit, and answers whether the last probe hit |
| FsResolver.FileExists | src/services/PathResolver.ts:75-103 | `fileExists` probes the plain path first, then the extension candidates only when the path has no extension and extensions are configured; it stops at the first hit |
| FsResolver.ProbeAliasPaths | src/services/PathResolver.ts:144-151 | the inner `some` answers yes exactly when `fileExists` holds for some candidate directory of the alias |
| FsResolver.ProbeAliases | src/services/PathResolver.ts:138-154 | the outer `some` answers yes exactly when some alias key prefixes the target and one of its candidates exists; when no key prefixes the target, nothing is probed |
| FsResolver.IsAliased | src/services/PathResolver.ts:133-155 | without aliases the answer is no, with no probe; otherwise as `ProbeAliases` |
| FsResolver.IsLocal | src/services/PathResolver.ts:109-127 | a target starting with '.' is local with no probe; otherwise it is local exactly when it is aliased, or when a non-empty base URL is set and the target exists below it |
| FsResolver.PlainProbeFirst | src/services/PathResolver.ts:76-80 | the plain path is always the first probe, and a hit there ends the search |
| FsResolver.OneProbeWithoutExtensions | src/services/PathResolver.ts:82-86 | a missing path that has an extension, or a resolver without extensions, is probed exactly once |
| FsResolver.FullMissProbeCount | src/services/PathResolver.ts:88-102 | a full miss probes 1 + 2 × (number of extensions) paths |
| FsResolver.NoBaseUrlMeansAliasOnly | src/services/PathResolver.ts:118-126 | without a base URL, a non-relative target is local exactly when it is aliased |
| FsResolver.ProbesEveryExtensionInOrder | __tests__/FSPathResolver.ts:45-71 | with base "./base", extensions foo and bar, and no file anywhere, `isLocal("foo_test")` probes exactly five paths, in the order the test lists, and answers false |
| AstWorker.AttachLeading | src/services/ASTWorker.ts:107-135 | the leading reducer never moves the start later and never forgets a claimed comment |
| AstWorker.AttachTrailing | src/services/ASTWorker.ts:142-152 | the trailing reducer never forgets a claimed comment |
| AstWorker.LeadingReachesCandidates | src/services/ASTWorker.ts:107-135 | the widened start lies at or before every unclaimed comment that passes the mode's line filter |
| AstWorker.LeadingMoveIsClaimed | src/services/ASTWorker.ts:128-134 | a moved start is the start of a qualifying, previously unclaimed comment, which is now claimed |
| AstWorker.LeadingClaimsOnlyCandidates | src/services/ASTWorker.ts:110-132 | only qualifying comments that lie before the start get claimed |
| AstWorker.ClaimedCommentsAreSkipped | src/services/ASTWorker.ts:110-112 | when every qualifying comment is already claimed, the start does not move |
| AstWorker.LastOnLine | src/services/ASTWorker.ts:145 | the search finds the last trailing comment that starts on the given line, and finds nothing exactly when there is none |
| AstWorker.TrailingEnd | src/services/ASTWorker.ts:142-152 | the widened end is the end of the last trailing comment starting on the declaration's last line, or the declaration's own end |
| AstWorker.TrailingClaims | src/services/ASTWorker.ts:142-152 | the trailing reducer claims exactly the comments starting on the declaration's last line |
| AstWorker.Targets | src/services/ASTWorker.ts:157-164 | the declarations behind a descriptor list, one per descriptor, in order |
| AstWorker.ExtractTargets | src/services/ASTWorker.ts:91-101 | `findImportNodes` yields one descriptor per declaration that has offsets and a location, in order, and skips the others |
| AstWorker.ExtractSpans | src/services/ASTWorker.ts:103-164 | every descriptor's value is cut from the original text at its span; the span never starts after the declaration; with mode `none` the span is the declaration's own |
| AstWorker.ExtractStep | src/services/ASTWorker.ts:91-166 | one declaration more: its descriptor, if any, comes before those of the rest, which see its claims |
| AstWorker.ClaimLeading | src/services/ASTWorker.ts:107-135 | the leading loop computes exactly the leading reducer's start and claims |
| AstWorker.ClaimTrailing | src/services/ASTWorker.ts:142-152 | the trailing loop computes exactly the trailing reducer's end and claims |
| AstWorker.GroupStart | src/services/ASTWorker.ts:235-241 | the inner reduce is `Infinity` (None) exactly for an empty group; otherwise it is the least start in the group |
| AstWorker.MinStart | src/services/ASTWorker.ts:234-248 | the outer reduce is `Infinity` (None) exactly when no group has a descriptor; otherwise it is the least start over all groups |
| AstWorker.ASTWorker.constructor | src/services/ASTWorker.ts:51-55 | the original text and the buffer both start as the given source |
| AstWorker.ASTWorker.EndOfLine | src/services/ASTWorker.ts:31-44 | "\r" for `cr`, "\r\n" for `crlf`, "\n" for everything else |
| AstWorker.ASTWorker.FindImportNodes | src/services/ASTWorker.ts:60-169 | the traversal yields the descriptors `Extract` specifies, with claims carried from one declaration to the next; every value is cut from the original text |
| AstWorker.ASTWorker.VisitNode | src/services/ASTWorker.ts:92-165 | the visitor for one declaration computes exactly `Visit`: nothing for an unlocated declaration, otherwise the widened span, its text, and the new claims |
| AstWorker.ASTWorker.RemoveNodes | src/services/ASTWorker.ts:175-196 | no spans: the buffer is unchanged; otherwise the buffer becomes one terminator followed by the text between the spans in ascending start order, and the text after the last span |
| AstWorker.ASTWorker.InsertNodes | src/services/ASTWorker.ts:203-217 | the buffer keeps its text before and after the clamped index, with a terminator and each value plus a terminator in between; the result is the offset just past the inserted text |
| AstWorker.ASTWorker.InsertImports | src/services/ASTWorker.ts:223-254 | all groups are written one after another at offset 0 (`leading`) or at the least start (`auto`; at the end when there is none); the original text before and after that point is kept |
| AstWorker.ASTWorker.Compile | src/services/ASTWorker.ts:259-261 | the buffer as it stands |
| AstWorker.InsertStep | src/services/ASTWorker.ts:251-253 | one round of the `forEach` extends the written blocks by the next group, and the next offset is their end |
| AstWorker.AscendingOrder | src/services/ASTWorker.ts:180-187 | popping the descending sort from the back yields the spans by ascending start, each once |
| AstWorker.GapsPop | src/services/ASTWorker.ts:186-191 | popping the last span of the descending list reads the next gap of the ascending order |
| AstWorker.GapsLength | src/services/ASTWorker.ts:186-193 | cutting chained spans removes exactly their total length |
| AstWorker.GapsKeepsFront | src/services/ASTWorker.ts:189 | the text before the first span is kept unchanged |
| AstWorker.GapsKeepsBack | src/services/ASTWorker.ts:193 | the text after the last span is kept unchanged |
| AstWorker.SpanTotalPermutation | src/services/ASTWorker.ts:180-182 | the total span length does not depend on their order |
| AstWorker.RemovedLength | src/services/ASTWorker.ts:175-196 | for disjoint, in-bounds spans, the new buffer is one terminator longer than the old one minus the total span length |
| AstWorker.SerializeLength | src/services/ASTWorker.ts:207-209 | the inserted text is the values' total length plus one terminator per value |
| AstWorker.SerializeAppend | src/services/ASTWorker.ts:207-209 | serializing a concatenation concatenates the serializations |
| AstWorker.BlocksAppend | src/services/ASTWorker.ts:251-253 | consecutive groups are written one after another, in the given order |
| Sorter.ResolveRelativeDepth | src/services/Sorter.ts:70-93 | the `indexOf` loop returns 1 for "./…" and otherwise twice the number of consecutive leading "../" |
| Sorter.DepthOfParents | src/services/Sorter.ts:81-92 | a path with exactly n leading "../" (and not "./…" when n is 0) has depth 2n |
| Sorter.DepthShape | src/services/Sorter.ts:70-93 | the depth is 1 exactly for "./…", otherwise even, and 0 exactly for a path with neither "./" nor "../" in front |
| Sorter.DepthExamples | src/services/Sorter.ts:70-93 | "./test" has depth 1, "../test" depth 2, "../../test" depth 4, "global" depth 0 |
| Sorter.Metadata | src/services/Sorter.ts:99-115 | one record per descriptor, the i-th numbered i, with the resolver's answer, the static flag and the depth |
| Sorter.ResolveMetadata | src/services/Sorter.ts:99-115 | the `map` computes exactly `Metadata` |
| Sorter.MetadataInInputOrder | src/services/Sorter.ts:102-114 | the metadata's targets are the input, in order; tagging the records with their buckets, under any groups, keeps them; the records are numbered in ascending order |
| Sorter.WithRest | src/services/Sorter.ts:163-167 | the groups with `['rest', 'persist']` appended unless rest is declared; the other groups are untouched, and distinct names stay distinct |
| Sorter.Bucket | src/services/Sorter.ts:178-194 | the bucket is declared (or is rest); static only for a static import, and always for a static import when static is declared; global only for a non-local, non-static import; relative only at depth above 0; never rest while local is declared |
| Sorter.RelativeFallsBackToLocal | src/services/Sorter.ts:185-188 | without a relative group, a relative import that no earlier bucket takes goes to local |
| Sorter.RestTakesTheUnclaimed | src/services/Sorter.ts:178-194 | with only rest and static declared, every non-static import goes to rest |
| Sorter.Tag | src/services/Sorter.ts:178-194 | every record is paired with its bucket, in input order |
| Sorter.EmptyBuckets | src/services/Sorter.ts:169-176 | the first reduce creates exactly one empty bucket per declared group |
| Sorter.Classify | src/services/Sorter.ts:169-194 | the second reduce leaves each bucket holding exactly the records tagged with its name, in input order |
| Sorter.PickBucket | src/services/Sorter.ts:179-191 | the `if` chain picks `Bucket`, and that bucket exists |
| Sorter.PushKeepsFilled | src/services/Sorter.ts:178-194 | pushing one more record onto its bucket fills the buckets for one more record |
| Sorter.BucketInInputOrder | src/services/Sorter.ts:178-194 | each bucket lists its records in input order |
| Sorter.Arrange | src/services/Sorter.ts:122-143 | every sort branch keeps the group's contents |
| Sorter.PersistKeepsInputOrder | src/services/Sorter.ts:135-141 | `persist`, and any algorithm other than `natural`, returns a bucket in input order |
| Sorter.NaturalOrdersByPath | src/services/Sorter.ts:126-133 | `natural` orders the group by source path under a total-preorder comparator, keeping its contents |
| Sorter.NaturalKeepsTies | src/services/Sorter.ts:126-133 | under `natural`, imports whose paths the comparator ties keep their relative order |
| Sorter.NaturalTiesInInputOrder | __tests__/Sorter.ts:80-87 | under `natural`, the imports of a bucket whose paths the comparator ties come out in input order |
| Sorter.SplitByDepthShape | src/services/Sorter.ts:199-216 | the relative split has one non-empty part per distinct depth, the depths strictly ascending for `shallow-first` and strictly descending otherwise, every depth of the bucket among them, nothing lost or added |
| Sorter.SplitDepthsOrdered | src/services/Sorter.ts:200-211 | the distinct depths are strictly ascending for `shallow-first` and strictly descending otherwise |
| Sorter.SplitBySubgroupShape | src/services/Sorter.ts:227-243 | the local split has one non-empty part per distinct subgroup key; all members of a part share its key; nothing is lost or added |
| Sorter.SubgroupsInFirstOrder | src/services/Sorter.ts:227-247 | the subgroups come in the order in which their keys first appear in the local bucket |
| Sorter.EmitRelative | src/services/Sorter.ts:199-223 | the split-relative branch emits exactly the arranged, non-empty depth parts, in comparator order |
| Sorter.EmitLocal | src/services/Sorter.ts:224-248 | the split-local branch emits exactly one arranged part per subgroup key, in order of first appearance |
| Sorter.EmitGroupOf | src/services/Sorter.ts:198-256 | the body of `groups.forEach` emits exactly the group's contribution |
| Sorter.EmitGroups | src/services/Sorter.ts:196-258 | `groups.forEach` emits the contributions of the groups in declaration order |
| Sorter.EmitAll | src/services/Sorter.ts:157-258 | after the metadata: add rest, fill the buckets and emit, exactly as `Output` specifies |
| Sorter.Process | src/services/Sorter.ts:152-259 | `process` returns exactly `Sort` of the input |
| Sorter.EmitGroupUnsplit | src/services/Sorter.ts:249-255 | a group that is not split contributes its arranged bucket as one group, or nothing when the bucket is empty |
| Sorter.RelativeOutputByDepth | src/services/Sorter.ts:199-223 | with `splitRelativeGroups`, the relative group emits one group per distinct depth, each holding nodes of that depth only |
| Sorter.SelectDepth | src/services/Sorter.ts:213-215 | filtering the nodes on one depth keeps exactly the nodes of that depth, in order |
| Sorter.DepthPartsAreTies | src/services/Sorter.ts:200-216 | the depth sort is stable: each depth part holds exactly the bucket's nodes of that depth, in bucket order |
| Sorter.RelativeOutputParts | src/services/Sorter.ts:199-223 | with `splitRelativeGroups`, the k-th group the relative group emits is its bucket's nodes of the k-th depth, taken in input order and arranged by the group's algorithm |
| Sorter.EmitGroupKeeps | src/services/Sorter.ts:198-256 | one group's contribution holds exactly the records of its bucket |
| Sorter.EmitGroupNoEmpty | src/services/Sorter.ts:220-252 | no group's contribution contains an empty group |
| Sorter.NoEmptyGroups | src/services/Sorter.ts:152-259 | no group in the output of `process` is empty (an empty subgroup cannot arise) |
| Sorter.SortIsPermutation | src/services/Sorter.ts:152-259 | when no group name is declared twice, the concatenated output is a permutation of the input: every import appears exactly once |

## Left out

- Parsing and traversal: Babel's `parse` and `traverse` are not modelled. The declarations they report, each with its offsets, lines and comments, are the input of `FindImportNodes`.
- `string-natural-compare` is the function parameter `natural`. Sortedness under it is proved only when it is a total preorder.
- `ts.sys.fileExists` and `path.join` are the fields of the `Host` parameter and stay uninterpreted. The only exception: a path with an extension is one whose `extname` is non-empty.
- `FsResolver.FileExists` reads `path.parse(filePath).ext` as `extname`. The two differ on the rooted paths "/.." and "/../": `path.parse` reports "." for them and `extname` reports "". For those two paths the source skips the index-file probes and the model makes them.
- The file-system resolver's constructor only stores its parameters, so the `FsPathResolver` datatype stands for it.
- `resolvePath`, the private helper that builds an alias candidate, is the plain function `FsResolver.ResolvePath`. It has no contract of its own.
- JavaScript's `Infinity` start in `insertImports` is `None`. The insertion it leads to is at the end of the buffer, because `slice` clamps.
- `sortGroup` sorts its bucket in place with `Array.prototype.sort`, and the depth split sorts the relative bucket in place. Both are modelled on values as a stable sort, so the model does not show the bucket being reordered. `removeNodes` also sorts, but its rest parameter is a fresh array, so nothing outside it changes.
- `splitLocalPattern` is a key function from a path to its subgroup: the regular expression's last capture, or the unmatched marker. An empty pattern is `None`, because it is falsy in the source.
- The regular expression engine is not modelled. `new RegExp` throws on an invalid pattern; the model has no such error.
- The subgroup record is a plain object, so `subGroup in acc` also finds `Object.prototype` keys such as "constructor", "toString" or "__proto__". For such a key the source skips creating the array and `push` throws a `TypeError`. The model treats every key alike.
- `Object.keys` lists integer-like keys before all others. The model keeps the subgroups in order of first appearance instead.
- The `algs` record in `process` is written but never read. It is left out.
- `Sorter` has no state beyond its path resolver. It is modelled as module functions that take the resolver, a `PathResolver` datatype covering both resolvers.
- `Sorter.SortIsPermutation` requires that no group name is declared twice. A duplicate name aliases a single bucket and emits it twice. A later entry then sees the bucket as the earlier entry left it, sorted in place by `sortGroup` or by the depth sort (for example `[['local', 'natural'], ['local', 'UNKNOWN']]` emits the natural order twice). The model arranges the bucket as it was classified for every entry.
- `AstWorker.RemovedLength` requires the spans to be disjoint and inside the buffer. Without that, `slice` clamps and the length relation does not hold.
- `src/sort.ts` and `src/index.ts` are the plugin's glue to prettier: parser wiring and reading the options. They are not part of this model.
- The configuration helpers are not part of this model: `getDependencies`, `getTsConfig`, `getTsConfigPath` and `getConfigFilePath` read files.
- The ASTWorker tests are not restated as examples. They run through the Babel parser, and the model follows the code instead.
