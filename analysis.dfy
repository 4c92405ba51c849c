/** The whole scan: from the configured filters and size range to the
    report of duplicate groups. */
module Analysis {

  import opened Base
  import opened Buckets
  import opened Patterns
  import opened FileTree
  import opened Walker
  import opened WalkerFacts
  import opened Reducer
  import opened FileIo
  import opened SampleStage
  import opened FullStage
  import opened Assembly
  import opened Pipeline

  /** The scan's settings: comma-separated include and exclude glob lists
      (empty for none) and the size range `[sizeExtend.0, sizeExtend.1)`. */
  datatype Config = Config(inclusion: string, exclusion: string, sizeExtend: (u64, u64))

  datatype Report = Report(pairs: seq<Record>)

  /** `groups` is what the scan builds: the full stage's groups, for some
      order of visiting hash-map entries, flattened into one entry per
      (size, hash) group with the files relative to the root, and sorted by
      size, largest first, keeping the flattened order within a size. */
  ghost predicate Produced(e: Scene, groups: seq<Group>) {
    exists o, pairs :: Stages(e, o) && Lists(pairs, o.full, e.root, o.full.Keys) && groups == SortBySizeDesc(pairs)
  }

  /** Every file of every group has been checked against its group's size
      and hash. */
  ghost predicate AllChecked(e: Scene, groups: seq<Group>) {
    forall i, p :: 0 <= i < |groups| && p in groups[i].files ==>
      Checked(e, groups[i].size, groups[i].hash, e.root + p)
  }

  /** `x` and `y` are shown, relative to the root, in one group of size `s`. */
  ghost predicate Together(e: Scene, groups: seq<Group>, s: u64, x: Path, y: Path) {
    exists i :: 0 <= i < |groups| && groups[i].size == s &&
      Relativize(e.root, x) in groups[i].files && Relativize(e.root, y) in groups[i].files
  }

  /** Twins are reported in one group of their size. */
  ghost predicate TwinsReported(e: Scene, groups: seq<Group>) {
    forall s, x, y :: Twins(e, s, x, y) ==> Together(e, groups, s, x, y)
  }

  /** Above the sample size, two different files that both survive the
      sample stage and have the same full hash are reported in one group,
      even when their sample hashes differ. */
  ghost predicate MergedReported(e: Scene, groups: seq<Group>) {
    forall s: u64, x, y ::
      s > SAMPLE_SIZE && x != y && Sampled(e, s, x) && Sampled(e, s, y) &&
      FullDigest(e.disk, e.hashing, x).Some? && FullDigest(e.disk, e.hashing, x) == FullDigest(e.disk, e.hashing, y)
      ==> Together(e, groups, s, x, y)
  }

  /** No file is reported twice, within a group or across groups. */
  ghost predicate NoFileTwice(groups: seq<Group>) {
    (forall i :: 0 <= i < |groups| ==> NoDups(groups[i].files)) && PairwiseApart(groups)
  }

  /** What the scan promises about the groups it reports: ordered by size,
      largest first; more than one file each; every file checked; twins,
      and files merged across sample groups, reported together; and, on a
      tree whose directories name their entries distinctly, no file
      reported twice. */
  ghost predicate Reported(e: Scene, groups: seq<Group>) {
    SortedBySizeDesc(groups) &&
    (forall i :: 0 <= i < |groups| ==> |groups[i].files| > 1) &&
    AllChecked(e, groups) &&
    TwinsReported(e, groups) &&
    MergedReported(e, groups) &&
    (WellFormed(e.tree) ==> NoFileTwice(groups))
  }

  /** Scan the tree at `root` for duplicate files. Malformed glob lists are
      reported before anything is read. Otherwise the result lists the
      duplicate groups, largest files first, each shown with its hash in
      hexadecimal, its size label and its files relative to `root`;
      `groups` are those groups before formatting. */
  method StartAnalysis(g: GlobSyntax, disk: Disk, hashing: Hashing, root: Path, tree: Node, config: Config)
    returns (r: Result<Report, string>, ghost groups: seq<Group>)
    ensures r.Err? <==> !Usable(g, config.inclusion) || !Usable(g, config.exclusion)
    ensures r.Err? ==> r.error == if Usable(g, config.inclusion) then INVALID_EXCLUDE else INVALID_INCLUDE
    ensures r.Ok? ==> r.value.pairs == ToRecords(groups)
    ensures r.Ok? ==>
      var e := Scene(g, SetupFilters(g, config.inclusion, config.exclusion).value, disk, hashing,
                     root, tree, config.sizeExtend.0, config.sizeExtend.1);
      Produced(e, groups) && Reported(e, groups)
  {
    var filters := SetupFilters(g, config.inclusion, config.exclusion);
    if filters.Err? {
      return Err(filters.error), [];
    }
    var report;
    report, groups := Scan(Scene(g, filters.value, disk, hashing, root, tree, config.sizeExtend.0, config.sizeExtend.1));
    r := Ok(report);
  }

  /** The scan proper, once the filters are built: walk, keep the sizes
      worth hashing, group by sample hash, then by full hash, and list the
      groups, largest files first. */
  method Scan(e: Scene) returns (report: Report, ghost groups: seq<Group>)
    ensures report.pairs == ToRecords(groups)
    ensures Produced(e, groups)
    ensures Reported(e, groups)
  {
    var walked := ReadEntries(e.g, e.f, e.root, e.tree, map[]);
    var reduced := Reduce(walked, e.lo, e.hi);
    var sampled := SampleAll(e.disk, e.hashing, reduced);
    var full, orders := FullAll(e.disk, e.hashing, sampled);
    var pairs := Flatten(e.root, full);
    var sorted := SortBySizeDesc(pairs);
    ScanFacts(e, Outcome(reduced, sampled, full, orders), pairs);
    report := Report(ToRecords(sorted));
    groups := sorted;
  }

  /** The sorted entries of the full stage's groups are what the scan
      produces, and have the properties it promises. */
  lemma ScanFacts(e: Scene, o: Outcome, pairs: seq<Group>)
    requires Stages(e, o)
    requires Lists(pairs, o.full, e.root, o.full.Keys)
    ensures Produced(e, SortBySizeDesc(pairs))
    ensures Reported(e, SortBySizeDesc(pairs))
  {
    ReportFacts(e, o, pairs);
  }

  /** Whatever the scan may build has the properties it promises. */
  lemma ProducedReported(e: Scene, groups: seq<Group>)
    requires Produced(e, groups)
    ensures Reported(e, groups)
  {
    var o, pairs :| Stages(e, o) && Lists(pairs, o.full, e.root, o.full.Keys) && groups == SortBySizeDesc(pairs);
    ReportFacts(e, o, pairs);
  }

  /** The facts the scan promises, about the sorted entries of the full
      stage's groups. */
  lemma ReportFacts(e: Scene, o: Outcome, pairs: seq<Group>)
    requires Stages(e, o)
    requires Lists(pairs, o.full, e.root, o.full.Keys)
    ensures Reported(e, SortBySizeDesc(pairs))
  {
    ReportChecked(e, o, pairs);
    ReportTwins(e, o, pairs);
    ReportMerged(e, o, pairs);
    if WellFormed(e.tree) {
      ReportNoFileTwice(e, o, pairs);
    }
  }

  lemma ReportChecked(e: Scene, o: Outcome, pairs: seq<Group>)
    requires Stages(e, o)
    requires Lists(pairs, o.full, e.root, o.full.Keys)
    ensures forall i :: 0 <= i < |SortBySizeDesc(pairs)| ==> |SortBySizeDesc(pairs)[i].files| > 1
    ensures AllChecked(e, SortBySizeDesc(pairs))
  {
    var sorted := SortBySizeDesc(pairs);
    forall i | 0 <= i < |sorted|
      ensures |sorted[i].files| > 1
      ensures forall p :: p in sorted[i].files ==> Checked(e, sorted[i].size, sorted[i].hash, e.root + p)
    {
      var k := PairOf(pairs, sorted[i]);
      EntryChecked(e, o, pairs, k);
    }
  }

  lemma ReportTwins(e: Scene, o: Outcome, pairs: seq<Group>)
    requires Stages(e, o)
    requires Lists(pairs, o.full, e.root, o.full.Keys)
    ensures TwinsReported(e, SortBySizeDesc(pairs))
  {
    forall s, x, y | Twins(e, s, x, y) ensures Together(e, SortBySizeDesc(pairs), s, x, y) {
      TwinsShown(e, o, pairs, s, x, y);
    }
  }

  lemma TwinsShown(e: Scene, o: Outcome, pairs: seq<Group>, s: u64, x: Path, y: Path)
    requires Stages(e, o)
    requires Lists(pairs, o.full, e.root, o.full.Keys)
    requires Twins(e, s, x, y)
    ensures Together(e, SortBySizeDesc(pairs), s, x, y)
  {
    StagesComplete(e, o, s, x, y);
    var h :| h in o.full[s] && x in o.full[s][h] && y in o.full[s][h];
    ShownTogether(e, o, pairs, s, h, x, y);
  }

  lemma ReportMerged(e: Scene, o: Outcome, pairs: seq<Group>)
    requires Stages(e, o)
    requires Lists(pairs, o.full, e.root, o.full.Keys)
    ensures MergedReported(e, SortBySizeDesc(pairs))
  {
    forall s: u64, x, y |
      s > SAMPLE_SIZE && x != y && Sampled(e, s, x) && Sampled(e, s, y) &&
      FullDigest(e.disk, e.hashing, x).Some? && FullDigest(e.disk, e.hashing, x) == FullDigest(e.disk, e.hashing, y)
      ensures Together(e, SortBySizeDesc(pairs), s, x, y)
    {
      var h := FullDigest(e.disk, e.hashing, x).value;
      StagesMergeAcross(e, o, s, x, y, h);
      ShownTogether(e, o, pairs, s, h, x, y);
    }
  }

  /** Two paths of one full-stage group are shown together in the report. */
  lemma ShownTogether(e: Scene, o: Outcome, pairs: seq<Group>, s: u64, h: u64, x: Path, y: Path)
    requires Lists(pairs, o.full, e.root, o.full.Keys)
    requires s in o.full && h in o.full[s] && x in o.full[s][h] && y in o.full[s][h]
    ensures Together(e, SortBySizeDesc(pairs), s, x, y)
  {
    var k := EntryOfGroup(pairs, o.full, e.root, s, h);
    RelativizedIn(e.root, o.full[s][h], x);
    RelativizedIn(e.root, o.full[s][h], y);
    SortBySizeDescMembers(pairs, pairs[k]);
    var i :| 0 <= i < |SortBySizeDesc(pairs)| && SortBySizeDesc(pairs)[i] == pairs[k];
  }

  /** The entry of `pairs` for the group under `h` in the bucket of `s`. */
  lemma EntryOfGroup(pairs: seq<Group>, full: map<u64, Index>, root: Path, s: u64, h: u64) returns (k: nat)
    requires Lists(pairs, full, root, full.Keys)
    requires s in full && h in full[s]
    ensures k < |pairs| && pairs[k].size == s && pairs[k].files == RelativizeAll(root, full[s][h])
  {
    k :| 0 <= k < |pairs| && pairs[k].size == s && pairs[k].hash == h;
    assert EntryOf(pairs[k], full, root);
  }

  lemma RelativizedIn(root: Path, ps: seq<Path>, x: Path)
    requires x in ps
    ensures Relativize(root, x) in RelativizeAll(root, ps)
  {
    var j :| 0 <= j < |ps| && ps[j] == x;
    assert RelativizeAll(root, ps)[j] == Relativize(root, x);
  }

  lemma ReportNoFileTwice(e: Scene, o: Outcome, pairs: seq<Group>)
    requires Stages(e, o)
    requires Lists(pairs, o.full, e.root, o.full.Keys)
    requires WellFormed(e.tree)
    ensures NoFileTwice(SortBySizeDesc(pairs))
  {
    var sorted := SortBySizeDesc(pairs);
    forall i | 0 <= i < |sorted| ensures NoDups(sorted[i].files) {
      var k := PairOf(pairs, sorted[i]);
      EntryNoDups(e, o, pairs, k);
    }
    forall i, j | 0 <= i < j < |pairs| ensures Apart(pairs[i], pairs[j]) {
      EntriesApart(e, o, pairs, i, j);
    }
    SortBySizeDescApart(pairs);
  }

  /** The position in `pairs` of an entry of the sorted list. */
  lemma PairOf(pairs: seq<Group>, x: Group) returns (k: nat)
    requires x in SortBySizeDesc(pairs)
    ensures k < |pairs| && pairs[k] == x
  {
    SortBySizeDescMembers(pairs, x);
    k :| 0 <= k < |pairs| && pairs[k] == x;
  }

  /** Each file of an entry is, below the root, a path of its group in the
      full stage. */
  lemma EntryFile(e: Scene, o: Outcome, pairs: seq<Group>, k: nat, j: nat)
    requires Stages(e, o)
    requires Lists(pairs, o.full, e.root, o.full.Keys)
    requires k < |pairs| && j < |pairs[k].files|
    ensures pairs[k].size in o.full && pairs[k].hash in o.full[pairs[k].size]
    ensures j < |o.full[pairs[k].size][pairs[k].hash]|
    ensures e.root + pairs[k].files[j] == o.full[pairs[k].size][pairs[k].hash][j]
  {
    var s, h := pairs[k].size, pairs[k].hash;
    assert EntryOf(pairs[k], o.full, e.root);
    var x := o.full[s][h][j];
    StagesSound(e, o, s, h, x);
    FoundUnder(e.g, e.f, e.root, e.tree, (s, x));
  }

  lemma EntryChecked(e: Scene, o: Outcome, pairs: seq<Group>, k: nat)
    requires Stages(e, o)
    requires Lists(pairs, o.full, e.root, o.full.Keys)
    requires k < |pairs|
    ensures |pairs[k].files| > 1
    ensures forall p :: p in pairs[k].files ==> Checked(e, pairs[k].size, pairs[k].hash, e.root + p)
  {
    var s, h := pairs[k].size, pairs[k].hash;
    assert EntryOf(pairs[k], o.full, e.root);
    forall p | p in pairs[k].files ensures Checked(e, s, h, e.root + p) {
      var j :| 0 <= j < |pairs[k].files| && pairs[k].files[j] == p;
      EntryFile(e, o, pairs, k, j);
      StagesSound(e, o, s, h, e.root + p);
    }
  }

  lemma EntryNoDups(e: Scene, o: Outcome, pairs: seq<Group>, k: nat)
    requires Stages(e, o)
    requires Lists(pairs, o.full, e.root, o.full.Keys)
    requires WellFormed(e.tree)
    requires k < |pairs|
    ensures NoDups(pairs[k].files)
  {
    var s, h := pairs[k].size, pairs[k].hash;
    assert EntryOf(pairs[k], o.full, e.root);
    StagesExclusive(e, o, s);
    ExclusiveNoDups(o.full[s], h);
    forall i, j | 0 <= i < j < |pairs[k].files| ensures pairs[k].files[i] != pairs[k].files[j] {
      EntryFile(e, o, pairs, k, i);
      EntryFile(e, o, pairs, k, j);
    }
  }

  lemma EntriesApart(e: Scene, o: Outcome, pairs: seq<Group>, a: nat, b: nat)
    requires Stages(e, o)
    requires Lists(pairs, o.full, e.root, o.full.Keys)
    requires WellFormed(e.tree)
    requires a < b < |pairs|
    ensures Apart(pairs[a], pairs[b])
  {
    forall p ensures !(p in pairs[a].files && p in pairs[b].files) {
      NotSharedPath(e, o, pairs, a, b, p);
    }
  }

  lemma NotSharedPath(e: Scene, o: Outcome, pairs: seq<Group>, a: nat, b: nat, p: Path)
    requires Stages(e, o)
    requires Lists(pairs, o.full, e.root, o.full.Keys)
    requires WellFormed(e.tree)
    requires a < b < |pairs|
    ensures !(p in pairs[a].files && p in pairs[b].files)
  {
    if p in pairs[a].files && p in pairs[b].files {
      var i :| 0 <= i < |pairs[a].files| && pairs[a].files[i] == p;
      var j :| 0 <= j < |pairs[b].files| && pairs[b].files[j] == p;
      NotShared(e, o, pairs, a, b, i, j);
    }
  }

  /** Two different entries never show the same file. */
  lemma NotShared(e: Scene, o: Outcome, pairs: seq<Group>, a: nat, b: nat, i: nat, j: nat)
    requires Stages(e, o)
    requires Lists(pairs, o.full, e.root, o.full.Keys)
    requires WellFormed(e.tree)
    requires a < b < |pairs| && i < |pairs[a].files| && j < |pairs[b].files|
    ensures pairs[a].files[i] != pairs[b].files[j]
  {
    EntryFile(e, o, pairs, a, i);
    EntryFile(e, o, pairs, b, j);
    if pairs[a].files[i] == pairs[b].files[j] {
      var p := e.root + pairs[a].files[i];
      var s, h, t, u := pairs[a].size, pairs[a].hash, pairs[b].size, pairs[b].hash;
      StagesApart(e, o, s, t, h, u, p);
      StagesExclusive(e, o, s);
    }
  }
}
