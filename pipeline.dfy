/** What the stages of the scan add up to, before assembly: the walk, the
    reducer, the sample stage and the full stage, composed. */
module Pipeline {

  import opened Base
  import opened Buckets
  import opened Patterns
  import opened FileTree
  import opened Walker
  import opened WalkerFacts
  import opened Reducer
  import opened FileIo
  import opened SampleStage
  import opened FullStage

  /** What one scan works on once its filters are built: the glob engine
      and the filters, the disk and the hash family, the root and the tree
      below it, and the size range `[lo, hi)`. */
  datatype Scene = Scene(g: GlobSyntax, f: Filters, disk: Disk, hashing: Hashing,
                         root: Path, tree: Node, lo: u64, hi: u64)

  /** What the stages hold: the reduced size map, the sample groups and the
      full groups of each size, and the orders in which the full stage
      visited each size's sample groups. */
  datatype Outcome = Outcome(reduced: Index, sampled: map<u64, Index>,
                             full: map<u64, Index>, orders: map<u64, seq<u64>>)

  /** `o` is what the stages build from `e`: the walk reduced to the sizes
      worth hashing, each bucket grouped by sample hash, and then by full
      hash in the visiting order `o.orders` records. */
  ghost predicate Stages(e: Scene, o: Outcome) {
    o.reduced == Reduce(Walk(e.g, e.f, e.root, e.tree), e.lo, e.hi) &&
    o.sampled.Keys == o.reduced.Keys &&
    (forall s :: s in o.sampled ==> o.sampled[s] == SampleGroups(e.disk, e.hashing, s, o.reduced[s])) &&
    o.full.Keys == o.sampled.Keys && o.orders.Keys == o.sampled.Keys &&
    (forall s :: s in o.full ==>
      IsOrdering(o.orders[s], o.sampled[s].Keys) &&
      o.full[s] == FullGroups(e.disk, e.hashing, s, o.sampled[s], o.orders[s]))
  }

  /** What a kept path of a group of `size`-byte files under `hash` has
      been checked for: the walk found it with that size, the size is
      non-zero and in range, and `hash` is its sample hash (files no longer
      than the sample) or its full hash (longer files). */
  ghost predicate Checked(e: Scene, size: u64, hash: u64, p: Path) {
    (size, p) in Found(e.g, e.f, e.root, e.tree) && size != 0 && e.lo <= size < e.hi &&
    (size <= SAMPLE_SIZE ==> SampleHash(e.disk, e.hashing, p, size) == Some(hash)) &&
    (size > SAMPLE_SIZE ==> FullDigest(e.disk, e.hashing, p) == Some(hash))
  }

  /** `p` was found by the walk with the in-range, non-zero `size`, and
      some other file found with that size has the same sample hash: `p`
      survives the sample stage. */
  ghost predicate Sampled(e: Scene, size: u64, p: Path) {
    (size, p) in Found(e.g, e.f, e.root, e.tree) && size != 0 && e.lo <= size < e.hi &&
    SampleHash(e.disk, e.hashing, p, size).Some? &&
    exists q :: q != p && (size, q) in Found(e.g, e.f, e.root, e.tree) &&
                SampleHash(e.disk, e.hashing, q, size) == SampleHash(e.disk, e.hashing, p, size)
  }

  /** `p` and `q` are two different files the walk found with the same
      in-range, non-zero size whose sample hashes agree and, when they are
      longer than the sample, whose full hashes agree too: duplicates the
      scan must report. */
  ghost predicate Twins(e: Scene, size: u64, p: Path, q: Path) {
    p != q && (size, p) in Found(e.g, e.f, e.root, e.tree) && (size, q) in Found(e.g, e.f, e.root, e.tree) &&
    size != 0 && e.lo <= size < e.hi &&
    SampleHash(e.disk, e.hashing, p, size).Some? &&
    SampleHash(e.disk, e.hashing, p, size) == SampleHash(e.disk, e.hashing, q, size) &&
    (size > SAMPLE_SIZE ==> FullDigest(e.disk, e.hashing, p).Some? &&
                            FullDigest(e.disk, e.hashing, p) == FullDigest(e.disk, e.hashing, q))
  }

  /** A path in the bucket the reducer kept for `s` was found by the walk
      with size `s`, which is non-zero and in range. */
  lemma ReducedFound(e: Scene, reduced: Index, s: u64, p: Path)
    requires reduced == Reduce(Walk(e.g, e.f, e.root, e.tree), e.lo, e.hi)
    requires s in reduced && p in reduced[s]
    ensures (s, p) in Found(e.g, e.f, e.root, e.tree) && s != 0 && e.lo <= s < e.hi
  {
    WalkMembers(e.g, e.f, e.root, e.tree, s, p);
  }

  /** A path both hashing stages keep for one bucket is from the bucket and
      is filed under its sample hash (files no longer than the sample) or
      its full hash (longer files), in a group of more than one. */
  lemma BucketSound(disk: Disk, hashing: Hashing, s: u64, list: seq<Path>, quick: Index, order: seq<u64>,
                    h: u64, p: Path)
    requires quick == SampleGroups(disk, hashing, s, list)
    requires IsOrdering(order, quick.Keys)
    requires h in FullGroups(disk, hashing, s, quick, order) && p in FullGroups(disk, hashing, s, quick, order)[h]
    ensures p in list && |FullGroups(disk, hashing, s, quick, order)[h]| > 1
    ensures s <= SAMPLE_SIZE ==> SampleHash(disk, hashing, p, s) == Some(h)
    ensures s > SAMPLE_SIZE ==> FullDigest(disk, hashing, p) == Some(h)
  {
    if s <= SAMPLE_SIZE {
      SampleGroupsSound(disk, hashing, s, list, h, p);
    } else {
      FullGroupsSound(disk, hashing, s, quick, order, h, p);
      var k :| k in quick && p in quick[k];
      SampleGroupsSound(disk, hashing, s, list, k, p);
    }
  }

  /** Every path the full stage keeps has been checked, in a group of more
      than one. */
  lemma StagesSound(e: Scene, o: Outcome, s: u64, h: u64, p: Path)
    requires Stages(e, o)
    requires s in o.full && h in o.full[s] && p in o.full[s][h]
    ensures Checked(e, s, h, p)
    ensures |o.full[s][h]| > 1
  {
    BucketSound(e.disk, e.hashing, s, o.reduced[s], o.sampled[s], o.orders[s], h, p);
    ReducedFound(e, o.reduced, s, p);
  }

  /** A file that survives the sample stage is in some sample group of its
      size. */
  lemma SampledKept(e: Scene, o: Outcome, s: u64, p: Path) returns (k: u64)
    requires Stages(e, o)
    requires Sampled(e, s, p)
    ensures s in o.sampled && k in o.sampled[s] && p in o.sampled[s][k]
    ensures SampleHash(e.disk, e.hashing, p, s) == Some(k)
  {
    var q :| q != p && (s, q) in Found(e.g, e.f, e.root, e.tree) &&
             SampleHash(e.disk, e.hashing, q, s) == SampleHash(e.disk, e.hashing, p, s);
    var walked := Walk(e.g, e.f, e.root, e.tree);
    WalkMembers(e.g, e.f, e.root, e.tree, s, p);
    WalkMembers(e.g, e.f, e.root, e.tree, s, q);
    TwoMembers(Lookup(walked, s), p, q);
    k := SampleHash(e.disk, e.hashing, p, s).value;
    SampleGroupsComplete(e.disk, e.hashing, s, o.reduced[s], k, p, q);
  }

  /** Two twins are kept together by the full stage, in the bucket of their
      size. */
  lemma StagesComplete(e: Scene, o: Outcome, s: u64, p: Path, q: Path)
    requires Stages(e, o)
    requires Twins(e, s, p, q)
    ensures s in o.full && exists h :: h in o.full[s] && p in o.full[s][h] && q in o.full[s][h]
  {
    assert Sampled(e, s, p) && Sampled(e, s, q);
    if s <= SAMPLE_SIZE {
      var hs := SampledKept(e, o, s, p);
      var hq := SampledKept(e, o, s, q);
      assert p in o.full[s][hs] && q in o.full[s][hs];
    } else {
      StagesMergeAcross(e, o, s, p, q, FullDigest(e.disk, e.hashing, p).value);
    }
  }

  /** Above the sample size, two different files that each survive the
      sample stage and have equal full hashes are kept together, whether or
      not their sample hashes agree. */
  lemma StagesMergeAcross(e: Scene, o: Outcome, s: u64, p: Path, q: Path, h: u64)
    requires Stages(e, o)
    requires s > SAMPLE_SIZE && p != q
    requires Sampled(e, s, p) && Sampled(e, s, q)
    requires FullDigest(e.disk, e.hashing, p) == Some(h) && FullDigest(e.disk, e.hashing, q) == Some(h)
    ensures s in o.full && h in o.full[s] && p in o.full[s][h] && q in o.full[s][h]
  {
    var kp := SampledKept(e, o, s, p);
    var kq := SampledKept(e, o, s, q);
    FullGroupsComplete(e.disk, e.hashing, s, o.sampled[s], o.orders[s], h, p, q, kp, kq);
    FullGroupsComplete(e.disk, e.hashing, s, o.sampled[s], o.orders[s], h, q, p, kq, kp);
  }

  /** On a tree whose directories name their entries distinctly, each
      bucket of the full stage holds every path at most once. */
  lemma StagesExclusive(e: Scene, o: Outcome, s: u64)
    requires Stages(e, o)
    requires WellFormed(e.tree)
    requires s in o.full
    ensures Exclusive(o.full[s])
  {
    WalkExclusive(e.g, e.f, e.root, e.tree);
    ExclusiveNoDups(o.reduced, s);
    SampleGroupsExclusive(e.disk, e.hashing, s, o.reduced[s]);
    FullGroupsExclusive(e.disk, e.hashing, s, o.sampled[s], o.orders[s]);
  }

  /** On such a tree, no path is kept in the buckets of two sizes. */
  lemma StagesApart(e: Scene, o: Outcome, s: u64, t: u64, h: u64, k: u64, p: Path)
    requires Stages(e, o)
    requires WellFormed(e.tree)
    requires s in o.full && t in o.full && h in o.full[s] && k in o.full[t]
    requires p in o.full[s][h] && p in o.full[t][k]
    ensures s == t
  {
    StagesSound(e, o, s, h, p);
    StagesSound(e, o, t, k, p);
    FoundDistinct(e.g, e.f, e.root, e.tree);
    FoundOnce(Found(e.g, e.f, e.root, e.tree), s, t, p);
  }

  /** In a list of pairs holding each path once, a path is paired with one
      size only. */
  lemma FoundOnce(ps: seq<(u64, Path)>, s: u64, t: u64, p: Path)
    requires DistinctValues(ps)
    requires (s, p) in ps && (t, p) in ps
    ensures s == t
  {
    var i :| 0 <= i < |ps| && ps[i] == (s, p);
    var j :| 0 <= j < |ps| && ps[j] == (t, p);
    if i < j {
    } else if j < i {
    }
  }
}
