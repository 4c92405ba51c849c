# deduplix duplicate finder — a Dafny model of the scan

deduplix finds duplicate files below a chosen root directory. One scan
(`start_analysis`) runs these steps:

1. It builds optional include and exclude glob matchers from two
   comma-separated lists. A malformed list fails the scan at once.
2. It walks the directory tree depth first (`read_entries`). Each regular
   file that passes the filters is filed into a map keyed by its byte size.
3. It keeps only the sizes that are non-zero, lie in the configured range
   `[lo, hi)` and hold more than one file.
4. Within each size it groups the files by a seeded 64-bit hash of the
   bytes that one read call delivers into a buffer of `min(1024, size)`
   bytes (the *sample hash*). A file that cannot be opened, or whose read
   fails, is dropped.
5. For sizes above 1024 bytes it regroups the files of all sample groups of
   that size together, by a seeded streaming hash of the chunks (at most
   64 KiB each) that its read loop delivers before a read returns nothing
   or fails (the *full hash*). A file that cannot be opened is dropped.
6. It drops groups of one file at both hash stages.
7. It reports the surviving groups, largest size first. Each group is shown
   with its hash as sixteen upper-case hex digits, a human-readable size and
   its files relative to the root.

The model follows the code module by module:

| module | file | what it models |
|---|---|---|
| `Base` | `base.dfy` | `Option`, `Result`, `u64`, `u8`, paths as component lists |
| `Buckets` | `buckets.dfy` | the `entry().and_modify().or_insert_with()` push, folding pairs into a map, dropping singleton groups |
| `Patterns` | `patterns.dfy` | splitting the lists on `,`, compiling them (include first), the filter test |
| `FileTree` | `file_tree.dfy` | the directory tree as the walk sees it through `read_dir` and entry metadata |
| `Walker`, `WalkerFacts` | `walker.dfy` | `read_entries` as a recursive method over that tree, and what it reaches |
| `Reducer` | `reducer.dfy` | the size-bucket filter |
| `FileIo` | `file_io.dfy` | opening and reading files, the one-read sample hash, the chunked full hash |
| `SampleStage` | `sample_stage.dfy` | grouping each size bucket by sample hash |
| `FullStage` | `full_stage.dfy` | copying small buckets, and re-hashing and merging large ones |
| `Formatting` | `formatting.dfy` | `{:016X}` hex, decimal digits, `to_human_readable_size` and its `f32` conversion |
| `Assembly` | `assembly.dfy` | flattening, `strip_prefix`, the stable descending sort, records |
| `Pipeline` | `pipeline.dfy` | what the stages guarantee when composed |
| `Analysis` | `analysis.dfy` | `start_analysis` from first step to last |

## How the outside world is modelled

The model takes these things as parameters instead of implementing them:

- **Glob patterns.** `GlobSyntax` gives whether a pattern parses and whether
  it matches a path.
- **Hashing.** `Hashing.oneshot(seed, bytes)` is a one-call hash.
  `Hashing.streamed(seed, chunks)` is what a seeded streaming hasher returns
  after being fed the chunks in order. Nothing is assumed to relate the two.
- **The filesystem.** It is seen two ways:
  - a `FileTree.Node` tree: listings, listing errors, metadata, sizes;
  - a `Disk`, whose `open` fails or returns a `Handle`. A handle holds the
    file's bytes and a script of replies to successive read calls. Each
    reply is an error or the most bytes that call may deliver.

  The two views need not agree. A file may change between the walk and the
  hashing, and the sample and full stages may each see a different file.

Hash-map iteration order is not fixed. The loops over map keys choose keys
with `:|`. Results that depend on the order are stated for the order the
loop used, which the method returns as a ghost value (`FullStage.FullBucket`).
Otherwise the result is described independently of order
(`Assembly.Flatten`).

## Notes on the code's behaviour

The code behaves as follows in some cases a reader might not expect. The
model follows the code in each.

- Sizes of exactly 1024 bytes are labelled `"1024B"`, not `"1KB"`, because
  the test is the strict `size > 1024.0`. Likewise 1,048,576 bytes stays in
  kilobytes. The lemmas are `Formatting.KibibyteShownInBytes` and
  `Formatting.MebibyteShownInKilobytes`.
- The size is converted to `f32` before the unit is chosen. Above 2^24 bytes
  the conversion rounds, so 2^30 + 1 bytes is shown in megabytes
  (`Formatting.GibibytePlusOneInMegabytes`).
- In the full stage, a read error part-way through a file does not drop the
  file. The `while let Ok(n)` loop just stops, and the hash of what was read
  is used. Only a failed open drops the file (`FileIo.FullDigest`).
- The include matcher is applied to every entry, directories included. A
  directory whose own path the include list does not match is not entered
  (`WalkerFacts.FoundUnder`).
- In a large bucket, all sample groups of one size are merged into a single
  map by full hash. Two files with different sample hashes but equal full
  hashes therefore end up in one group (`FullStage.FullGroupsComplete`,
  `Pipeline.StagesMergeAcross`, and `MergedReported` in `Analysis.Scan`).

## Model

| member | source | states |
|---|---|---|
| `Patterns.Split` | src-tauri/src/lib.rs:26 | splitting on `,` yields at least one piece and no piece contains a comma |
| `Patterns.JoinSplit` | src-tauri/src/lib.rs:26 | splitting loses nothing: the pieces joined with commas give the list back |
| `Patterns.SplitJoin` | src-tauri/src/lib.rs:34 | comma-free pieces are recovered by splitting their comma-joined text |
| `Patterns.Any` | src-tauri/src/lib.rs:26-27 | the model of `wax::any`: a pattern set compiles exactly when every pattern parses, and a compiled set keeps all its patterns; this is an assumption about the glob library, whose source is not part of this model |
| `Patterns.SetupFilters` | src-tauri/src/lib.rs:22-37 | setup fails exactly when a non-empty list has a malformed pattern; it names the include list when both are bad; an empty list gives no matcher; the filters admit a path exactly when some include pattern matches it (or there is no include list) and no exclude pattern does |
| `Buckets.Push` | src-tauri/src/lib.rs:210-214 | the key is added if new, the path goes to the end of that key's list, and every other list is unchanged |
| `Buckets.GroupIntoMembers` | src-tauri/src/lib.rs:64-70 | after filing a pair list into an empty map, a path is under a key exactly when the pair (key, path) was filed |
| `Buckets.GroupIntoExclusive` | src-tauri/src/lib.rs:64-70 | filing pairs whose paths are all different leaves no path in two places |
| `Buckets.DropSingletons` | src-tauri/src/lib.rs:73-76 | exactly the keys holding more than one path are kept, with their lists unchanged |
| `Buckets.DropSingletonsIdempotent` | src-tauri/src/lib.rs:133-136 | dropping singletons a second time changes nothing |
| `Walker.ReadEntries` | src-tauri/src/lib.rs:189-221 | the walk adds, in order, exactly the (size, path) pairs of `Found` to the map it was given |
| `Walker.ReadEntry` | src-tauri/src/lib.rs:197-218 | one entry adds exactly what `FoundAt` gives: nothing if the include matcher rejects its path or the exclude matcher accepts it, its size if it is a regular file, the walk of it if it is a directory |
| `WalkerFacts.FoundIffReaches` | src-tauri/src/lib.rs:195-220 | the walk files a pair exactly when some route of readable directories and admitted entries leads from the root to that regular file |
| `WalkerFacts.FoundUnder` | src-tauri/src/lib.rs:197-206 | every filed path lies strictly below the listed directory, and the filters admit each of its ancestors below that directory as well as the path itself |
| `WalkerFacts.FoundDistinct` | src-tauri/src/lib.rs:195-220 | in a tree whose directories name their entries distinctly, the walk files each path once |
| `WalkerFacts.WalkMembers` | src-tauri/src/lib.rs:45 | a path is in the size map under a size exactly when the walk filed it with that size |
| `WalkerFacts.WalkExclusive` | src-tauri/src/lib.rs:45 | in such a tree the size map holds each path once |
| `Reducer.Reduce` | src-tauri/src/lib.rs:46-49 | a size is kept exactly when it is non-zero, in `[lo, hi)` and holds more than one path; kept lists are unchanged |
| `Reducer.ReduceExclusive` | src-tauri/src/lib.rs:46-49 | reducing a map that holds each path once still holds each path once |
| `FileIo.ReadAt` | src-tauri/src/lib.rs:63 | a successful read delivers the next bytes of the file, no more than the buffer holds |
| `FileIo.SampleHash` | src-tauri/src/lib.rs:57-63 | the sample hash exists exactly when the open and the single read succeed; it is then the one-shot seeded hash of the first `n` bytes, for some `n` of at most `min(1024, size)` |
| `FileIo.FullHash` | src-tauri/src/lib.rs:100-116 | the streamed loop returns `FullDigest`: nothing when the open fails, otherwise the seeded streaming hash of the chunks read, including when a read failed part-way |
| `FileIo.ChunksBounded` | src-tauri/src/lib.rs:101-111 | every chunk fed to the hasher is non-empty and at most 64 KiB |
| `FileIo.ChunksArePrefix` | src-tauri/src/lib.rs:107-111 | the chunks, one after the other, are a prefix of the rest of the file |
| `FileIo.SteadyChunksCoverFile` | src-tauri/src/lib.rs:107-111 | when no read fails or delivers less than possible, the chunks are exactly the rest of the file |
| `SampleStage.SampleBucket` | src-tauri/src/lib.rs:57-79 | one bucket's loop produces `SampleGroups`: the paths filed by sample hash in bucket order, unreadable ones left out, singleton groups dropped |
| `SampleStage.SampleAll` | src-tauri/src/lib.rs:54-80 | every size bucket gets its own sample groups, and no bucket is lost |
| `SampleStage.SampleKeyedMembers` | src-tauri/src/lib.rs:60-72 | a path is paired with a hash exactly when it is in the bucket and its sample hash is that hash |
| `SampleStage.SampleGroupsSound` | src-tauri/src/lib.rs:57-76 | every kept path is from the bucket, under its sample hash, in a group of more than one; that hash covers at most `min(1024, size)` leading bytes |
| `SampleStage.SampleGroupsComplete` | src-tauri/src/lib.rs:60-76 | a bucket path whose sample hash equals another bucket path's is kept under that hash |
| `SampleStage.SampleGroupsExclusive` | src-tauri/src/lib.rs:60-76 | a bucket without repeats gives groups without repeats |
| `FullStage.FullBucket` | src-tauri/src/lib.rs:88-137 | for sizes up to 1024 the result is the sample groups with singletons dropped; above that it is the full-hash grouping of every sample group's paths, visited in the returned order, with singletons dropped |
| `FullStage.CopyGroups` | src-tauri/src/lib.rs:91-94 | copying the sample groups over yields exactly the sample groups |
| `FullStage.RehashGroups` | src-tauri/src/lib.rs:96-130 | the merged map files the full hashes of the paths of every sample group, group after group in the visiting order |
| `FullStage.HashList` | src-tauri/src/lib.rs:98-119 | one sample group gives the (full hash, path) pairs of its paths that open, in list order |
| `FullStage.MergeInto` | src-tauri/src/lib.rs:122-129 | the pairs are filed into the map one after the other |
| `FullStage.FullAll` | src-tauri/src/lib.rs:86-139 | every size bucket is regrouped on its own, and no bucket is lost |
| `FullStage.FullKeyedAppend` | src-tauri/src/lib.rs:96-130 | full hashing two lists one after the other is full hashing their concatenation |
| `FullStage.FullKeyedMembers` | src-tauri/src/lib.rs:100-118 | a path is paired with a hash exactly when it is listed, it opens, and its full hash is that hash |
| `FullStage.MergedMembers` | src-tauri/src/lib.rs:96 | a path is among the visited groups' paths exactly when some visited group holds it |
| `FullStage.MergedNoDups` | src-tauri/src/lib.rs:96 | merging the groups of a map without repeats gives a list without repeats |
| `FullStage.SmallBucketKeepsSampleGroups` | src-tauri/src/lib.rs:91-94 | a bucket of files no longer than 1024 bytes keeps exactly its sample groups |
| `FullStage.FullGroupsSound` | src-tauri/src/lib.rs:96-136 | above 1024 bytes every kept path came from a sample group and is under its full hash, in a group of more than one |
| `FullStage.FullGroupsComplete` | src-tauri/src/lib.rs:96-136 | above 1024 bytes, a sample-group path whose full hash equals that of another path of any sample group of the size is kept under that hash |
| `FullStage.FullGroupsExclusive` | src-tauri/src/lib.rs:88-136 | sample groups without repeats give full groups without repeats |
| `Pipeline.ReducedFound` | src-tauri/src/lib.rs:45-49 | a path the reducer keeps under a size was found by the walk with that size, which is non-zero and in range |
| `Pipeline.BucketSound` | src-tauri/src/lib.rs:57-136 | a path both hash stages keep is from the bucket, under its sample hash (small files) or full hash (large files), in a group of more than one |
| `Pipeline.StagesSound` | src-tauri/src/lib.rs:45-139 | every path kept after both stages was found by the walk with that size, the size is non-zero and in range, the path is under its sample or full hash, and its group has more than one path |
| `Pipeline.SampledKept` | src-tauri/src/lib.rs:57-76 | a walked file of an in-range non-zero size that shares its sample hash with another walked file of that size is kept by the sample stage, under its sample hash |
| `Pipeline.StagesComplete` | src-tauri/src/lib.rs:45-139 | two different walked files with the same non-zero in-range size, equal sample hashes and (above 1024 bytes) equal full hashes are kept together under one hash in the bucket of that size |
| `Pipeline.StagesMergeAcross` | src-tauri/src/lib.rs:96-136 | above 1024 bytes, two different files that each survive the sample stage and have equal full hashes are kept together under that hash, even when their sample hashes differ |
| `Pipeline.StagesExclusive` | src-tauri/src/lib.rs:45-139 | in a tree whose directories name their entries distinctly, each size bucket holds each path once after both stages |
| `Pipeline.StagesApart` | src-tauri/src/lib.rs:45-139 | in such a tree no path is kept under two sizes |
| `Formatting.Hex16` | src-tauri/src/lib.rs:160 | the hash is shown as exactly sixteen characters from `0-9A-F` |
| `Formatting.Hex16RoundTrip` | src-tauri/src/lib.rs:160 | the hex text reads back as the hash |
| `Formatting.Hex16Injective` | src-tauri/src/lib.rs:160 | different hashes are shown differently |
| `Formatting.Decimal` | src-tauri/src/lib.rs:285 | a byte count is shown as decimal digits without a leading zero |
| `Formatting.DecimalRoundTrip` | src-tauri/src/lib.rs:285 | the decimal text reads back as the count |
| `Formatting.RoundF32Small` | src-tauri/src/lib.rs:264 | converting to `f32` is exact below 2^24, and from 2^24 on it stays above 1024 |
| `Formatting.HumanReadableSize` | src-tauri/src/lib.rs:263-287 | a size is shown in bytes exactly when it is at most 1024, as its digits followed by `B`; otherwise it is scaled to the unit under which the `f32` value exceeds 1 and, below TB, is at most 1024 |
| `Formatting.KibibyteShownInBytes` | src-tauri/src/lib.rs:266-285 | 1024 bytes is shown as `1024B` |
| `Formatting.JustOverKibibyteInKilobytes` | src-tauri/src/lib.rs:266-282 | 1025 bytes is shown in kilobytes |
| `Formatting.MebibyteShownInKilobytes` | src-tauri/src/lib.rs:266-282 | 1,048,576 bytes is still shown in kilobytes |
| `Formatting.UnitOfSmallSize` | src-tauri/src/lib.rs:264-282 | between 1025 bytes and 2^24 bytes the unit is KB up to 1024 * 1024 bytes, and MB above |
| `Formatting.GibibytePlusOneInMegabytes` | src-tauri/src/lib.rs:264-279 | 2^30 + 1 bytes rounds to 2^30 as an `f32` and is shown in megabytes |
| `Assembly.Relativize` | src-tauri/src/lib.rs:150 | a path below the root loses the root's components, and the root followed by the result is the path; any other path is kept whole |
| `Assembly.RelativizeInjective` | src-tauri/src/lib.rs:150 | two paths below the root that relativize alike are the same path |
| `Assembly.FlattenBucket` | src-tauri/src/lib.rs:145-153 | one size bucket yields one entry per hash group, each hash once, with the group's paths relativized |
| `Assembly.Flatten` | src-tauri/src/lib.rs:143-154 | the entries are exactly the (size, hash) groups of the map, each once, with the paths relativized |
| `Assembly.Insert` | src-tauri/src/lib.rs:156 | inserting into a descending list keeps it descending and adds exactly the new entry |
| `Assembly.SortBySizeDesc` | src-tauri/src/lib.rs:156 | the result is ordered by size, largest first, and is a permutation of the entries |
| `Assembly.SortBySizeDescStable` | src-tauri/src/lib.rs:156 | the sort is stable: the entries of each size keep their order |
| `Assembly.SortBySizeDescMembers` | src-tauri/src/lib.rs:156 | an entry is in the sorted list exactly when it is in the unsorted one |
| `Assembly.SortBySizeDescApart` | src-tauri/src/lib.rs:156 | entries that share no file still share none after sorting |
| `Assembly.ToRecords` | src-tauri/src/lib.rs:157-164 | one record per entry, in order, with the entry's hex hash, size label and files |
| `Analysis.StartAnalysis` | src-tauri/src/lib.rs:20-167 | fails exactly when a non-empty pattern list is malformed, with the message naming the include list first; otherwise the report is the records of `groups`, which are `Produced` (the stable size-descending sort of the flattened full-stage groups, for some hash-map visiting order) and satisfy `Reported` |
| `Analysis.Scan` | src-tauri/src/lib.rs:42-166 | the report is the records of `groups`; `groups` are the stable sort, largest size first, of one entry per full-stage (size, hash) group with its files relative to the root (`Produced`); and they satisfy `Reported`: more than one file each; every file found by the walk with the group's size (non-zero, in range), under the group's sample hash (at most 1024 bytes) or full hash; twins shown together in one group of their size; files above 1024 bytes that survive the sample stage with equal full hashes shown together; in a well-formed tree, no file shown twice |
| `Analysis.ScanFacts` | src-tauri/src/lib.rs:143-164 | the sorted flattening of the full stage's groups is `Produced` and satisfies `Reported` |
| `Analysis.ProducedReported` | src-tauri/src/lib.rs:143-166 | whatever the scan may produce, for any visiting order, satisfies `Reported` |
| `Analysis.ReportFacts` | src-tauri/src/lib.rs:143-164 | the sorted entries built from the full stage's groups satisfy `Reported` |

## Left out

- The Tauri command glue is not modelled: `run`, the `window.emit` progress
  events, the elapsed-time `println!`s and deserializing `Config`. They do
  not affect the result.
- `remove_file` and `reveal_file_in_explorer` are not modelled. They delete a
  file or open an external program and are not part of the scan.
- Parallelism (rayon) is modelled as sequential loops. Rayon's `collect`
  keeps the input order, which the model keeps too. The order in which
  hash-map entries are visited is left to the loops' `:|` choices.
- xxHash64 and the glob syntax of `wax` are parameters (`Hashing`,
  `GlobSyntax`). Nothing is proved about hash quality or collisions. Equal
  hashes are taken as duplicates, as the code does.
- `FileIo.Handle` is a snapshot: the bytes a handle reads do not change
  while the read loop runs, and the full-hash loop (`FileIo.FullHash`,
  `FileIo.Chunks`) terminates because of that. On a file that keeps growing
  while it is read, the code's `while let Ok(n)` loop need not end; the
  model does not capture that case.
- The `BufReader` wrapper is not modelled separately. Each read call is
  modelled by the `Reply` script, which allows any mix of short reads and
  errors.
- `format_significant` (its `log10` and the fixed-decimal `f32` formatting)
  is not modelled. Above 1024 bytes a `SizeLabel` records the unit and the
  `f32` value to be shown (`rounded / Scale(unit)`), but not the text.
- `Formatting.HumanReadableSize`: this contract is weaker than the code for
  sizes above 1024 bytes. It states the unit and the rounded value, not the
  three-significant-digit text.
- `sort_by` is a library sort. It is modelled by its result, a stable
  descending sort defined as an insertion sort on values, not by its
  in-place algorithm.
- Windows-specific metadata is not modelled. `MetadataExt::file_size` is the
  size a `File` node carries, and a symbolic link is a node of its own kind.
