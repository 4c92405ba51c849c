/** The full-hash stage: a size bucket of files no longer than the sample
    keeps its sample groups; a bucket of longer files is regrouped by the
    hash of the whole content of each file its sample groups hold. */
module FullStage {

  import opened Base
  import opened Buckets
  import opened FileIo

  /** The (full hash, path) pairs of `paths`, in order; a path that cannot
      be opened has none. */
  function FullKeyed(disk: Disk, hashing: Hashing, paths: seq<Path>): seq<(u64, Path)>
  {
    if paths == [] then []
    else
      var p := paths[|paths| - 1];
      FullKeyed(disk, hashing, paths[..|paths| - 1]) +
      match FullDigest(disk, hashing, p)
      case None => []
      case Some(h) => [(h, p)]
  }

  /** `order` lists the keys of `keys`, each once: an order in which a loop
      over a hash map may visit them. */
  ghost predicate IsOrdering(order: seq<u64>, keys: set<u64>) {
    (forall k :: k in order <==> k in keys) &&
    (forall i, j :: 0 <= i < j < |order| ==> order[i] != order[j])
  }

  /** The lists of the groups of `quick`, one after the other, in `order`. */
  function Merged(quick: Index, order: seq<u64>): seq<Path>
    requires forall k :: k in order ==> k in quick
  {
    if order == [] then []
    else Merged(quick, order[..|order| - 1]) + quick[order[|order| - 1]]
  }

  /** The groups the stage keeps for the bucket of `size`-byte files whose
      sample groups are `quick`, visited in `order`. */
  function FullGroups(disk: Disk, hashing: Hashing, size: u64, quick: Index, order: seq<u64>): Index
    requires forall k :: k in order ==> k in quick
  {
    if size <= SAMPLE_SIZE then DropSingletons(quick)
    else DropSingletons(GroupInto(map[], FullKeyed(disk, hashing, Merged(quick, order))))
  }

  /** Regroup one size bucket. Files no longer than the sample were hashed
      whole already, so their groups are copied over; otherwise every path
      of every sample group is hashed in full, and the (hash, path) pairs of
      all the sample groups are merged into one map, in the order the loop
      visits the sample groups (given back as `order`). */
  method FullBucket(disk: Disk, hashing: Hashing, size: u64, quick: Index) returns (r: Index, ghost order: seq<u64>)
    ensures IsOrdering(order, quick.Keys)
    ensures r == FullGroups(disk, hashing, size, quick, order)
  {
    var long: Index;
    if size <= SAMPLE_SIZE {
      long, order := CopyGroups(quick);
    } else {
      long, order := RehashGroups(disk, hashing, quick);
    }
    r := DropSingletons(long);
  }

  /** Copy every group of `quick` into a new map, visiting them in `order`. */
  method CopyGroups(quick: Index) returns (long: Index, ghost order: seq<u64>)
    ensures IsOrdering(order, quick.Keys)
    ensures long == quick
  {
    long := map[];
    order := [];
    var todo := quick.Keys;
    while todo != {}
      invariant todo <= quick.Keys
      invariant IsOrdering(order, quick.Keys - todo)
      invariant long.Keys == quick.Keys - todo
      invariant forall k :: k in long ==> long[k] == quick[k]
      decreases todo
    {
      var hash :| hash in todo;
      OrderingStep(order, quick.Keys, todo, hash);
      long := long[hash := quick[hash]];
      order := order + [hash];
      todo := todo - {hash};
    }
  }

  /** Hash every path of every group of `quick` in full and file the pairs
      into one map, visiting the groups in `order`. */
  method RehashGroups(disk: Disk, hashing: Hashing, quick: Index) returns (long: Index, ghost order: seq<u64>)
    ensures IsOrdering(order, quick.Keys)
    ensures long == GroupInto(map[], FullKeyed(disk, hashing, Merged(quick, order)))
  {
    long := map[];
    order := [];
    var todo := quick.Keys;
    while todo != {}
      invariant todo <= quick.Keys
      invariant IsOrdering(order, quick.Keys - todo)
      invariant long == GroupInto(map[], FullKeyed(disk, hashing, Merged(quick, order)))
      decreases todo
    {
      var hash :| hash in todo;
      var pairs := HashList(disk, hashing, quick[hash]);
      long := MergeInto(long, pairs);
      OrderingStep(order, quick.Keys, todo, hash);
      MergedStep(disk, hashing, quick, order, hash);
      GroupIntoAppend(map[], FullKeyed(disk, hashing, Merged(quick, order)), pairs);
      order := order + [hash];
      todo := todo - {hash};
    }
  }

  /** Visiting one more key keeps `order` an ordering of the keys visited. */
  lemma OrderingStep(order: seq<u64>, keys: set<u64>, todo: set<u64>, k: u64)
    requires IsOrdering(order, keys - todo) && k in todo && todo <= keys
    ensures IsOrdering(order + [k], keys - (todo - {k}))
  {
  }

  /** Visiting one more group adds its full-hash pairs at the end. */
  lemma MergedStep(disk: Disk, hashing: Hashing, quick: Index, order: seq<u64>, k: u64)
    requires forall j :: j in order ==> j in quick
    requires k in quick
    ensures FullKeyed(disk, hashing, Merged(quick, order + [k])) ==
      FullKeyed(disk, hashing, Merged(quick, order)) + FullKeyed(disk, hashing, quick[k])
  {
    assert (order + [k])[..|order|] == order;
    FullKeyedAppend(disk, hashing, Merged(quick, order), quick[k]);
  }

  /** Hash every path of one sample group in full, keeping the paths that
      open, in list order. */
  method HashList(disk: Disk, hashing: Hashing, list: seq<Path>) returns (pairs: seq<(u64, Path)>)
    ensures pairs == FullKeyed(disk, hashing, list)
  {
    pairs := [];
    for j := 0 to |list|
      invariant pairs == FullKeyed(disk, hashing, list[..j])
    {
      assert list[..j + 1][..j] == list[..j];
      var digest := FullHash(disk, hashing, list[j]);
      if digest.Some? {
        pairs := pairs + [(digest.value, list[j])];
      } else {
        assert pairs + [] == pairs;
      }
    }
    assert list[..|list|] == list;
  }

  /** File each (hash, path) pair under its hash, one after the other. */
  method MergeInto(m: Index, pairs: seq<(u64, Path)>) returns (r: Index)
    ensures r == GroupInto(m, pairs)
  {
    r := m;
    for j := 0 to |pairs|
      invariant r == GroupInto(m, pairs[..j])
    {
      assert pairs[..j + 1] == pairs[..j] + [pairs[j]];
      GroupIntoSnoc(m, pairs[..j], pairs[j]);
      r := Push(r, pairs[j].0, pairs[j].1);
    }
    assert pairs[..|pairs|] == pairs;
  }

  /** The whole stage: every size bucket is regrouped on its own; `orders`
      gives, per size, the order in which its sample groups were visited. */
  method FullAll(disk: Disk, hashing: Hashing, sampled: map<u64, Index>)
    returns (r: map<u64, Index>, ghost orders: map<u64, seq<u64>>)
    ensures r.Keys == sampled.Keys && orders.Keys == sampled.Keys
    ensures forall s :: s in r ==>
      IsOrdering(orders[s], sampled[s].Keys) && r[s] == FullGroups(disk, hashing, s, sampled[s], orders[s])
  {
    r, orders := map[], map[];
    var todo := sampled.Keys;
    while todo != {}
      invariant todo <= sampled.Keys
      invariant r.Keys == sampled.Keys - todo && orders.Keys == r.Keys
      invariant forall s :: s in r ==>
        IsOrdering(orders[s], sampled[s].Keys) && r[s] == FullGroups(disk, hashing, s, sampled[s], orders[s])
      decreases todo
    {
      var s :| s in todo;
      var groups, order := FullBucket(disk, hashing, s, sampled[s]);
      r, orders := r[s := groups], orders[s := order];
      todo := todo - {s};
    }
  }

  /** Full hashing distributes over joined lists. */
  lemma {:induction false} FullKeyedAppend(disk: Disk, hashing: Hashing, a: seq<Path>, b: seq<Path>)
    ensures FullKeyed(disk, hashing, a + b) == FullKeyed(disk, hashing, a) + FullKeyed(disk, hashing, b)
    decreases |b|
  {
    if b != [] {
      var b' := b[..|b| - 1];
      FullKeyedAppend(disk, hashing, a, b');
      assert (a + b)[..|a + b| - 1] == a + b';
    } else {
      assert a + b == a;
    }
  }

  /** A path is paired with a hash exactly when it is listed and opens, and
      its full hash is that hash. */
  lemma {:induction false} FullKeyedMembers(disk: Disk, hashing: Hashing, paths: seq<Path>, h: u64, p: Path)
    ensures (h, p) in FullKeyed(disk, hashing, paths) <==> p in paths && FullDigest(disk, hashing, p) == Some(h)
    decreases |paths|
  {
    if paths != [] {
      var paths' := paths[..|paths| - 1];
      FullKeyedMembers(disk, hashing, paths', h, p);
      assert paths == paths' + [paths[|paths| - 1]];
    }
  }

  lemma {:induction false} FullKeyedDistinct(disk: Disk, hashing: Hashing, paths: seq<Path>)
    requires NoDups(paths)
    ensures DistinctValues(FullKeyed(disk, hashing, paths))
    decreases |paths|
  {
    if paths != [] {
      var paths' := paths[..|paths| - 1];
      var a := FullKeyed(disk, hashing, paths');
      var b := FullKeyed(disk, hashing, paths)[|a|..];
      FullKeyedDistinct(disk, hashing, paths');
      forall i, j | 0 <= i < |a| && 0 <= j < |b| ensures a[i].1 != b[j].1 {
        FullKeyedMembers(disk, hashing, paths', a[i].0, a[i].1);
        assert b[j].1 == paths[|paths| - 1];
      }
      assert FullKeyed(disk, hashing, paths) == a + b;
      DistinctAppend(a, b);
    }
  }

  /** A path is in the merged lists exactly when it is in the group of one
      of the visited keys. */
  lemma {:induction false} MergedMembers(quick: Index, order: seq<u64>, p: Path)
    requires forall k :: k in order ==> k in quick
    ensures p in Merged(quick, order) <==> exists k :: k in order && p in quick[k]
    decreases |order|
  {
    if order != [] {
      var order' := order[..|order| - 1];
      MergedMembers(quick, order', p);
      assert order == order' + [order[|order| - 1]];
    }
  }

  /** Merging the groups of an exclusive map, each key once, repeats no
      path. */
  lemma {:induction false} MergedNoDups(quick: Index, order: seq<u64>)
    requires Exclusive(quick)
    requires forall k :: k in order ==> k in quick
    requires forall i, j :: 0 <= i < j < |order| ==> order[i] != order[j]
    ensures NoDups(Merged(quick, order))
    decreases |order|
  {
    if order != [] {
      var order' := order[..|order| - 1];
      var k := order[|order| - 1];
      var a := Merged(quick, order');
      var b := quick[k];
      MergedNoDups(quick, order');
      forall i, j | 0 <= i < j < |b| ensures b[i] != b[j] {
      }
      forall i, j | 0 <= i < |a| && 0 <= j < |b| ensures a[i] != b[j] {
        MergedMembers(quick, order', a[i]);
        var k' :| k' in order' && a[i] in quick[k'];
        var i' :| 0 <= i' < |quick[k']| && quick[k'][i'] == a[i];
        assert k' != k;
      }
      NoDupsAppend(a, b);
    }
  }

  /** A bucket no longer than the sample keeps exactly its sample groups. */
  lemma SmallBucketKeepsSampleGroups(disk: Disk, hashing: Hashing, size: u64, quick: Index, order: seq<u64>)
    requires size <= SAMPLE_SIZE
    requires forall k :: k in order ==> k in quick
    requires forall k :: k in quick ==> |quick[k]| > 1
    ensures FullGroups(disk, hashing, size, quick, order) == quick
  {
  }

  /** In a bucket longer than the sample, every kept path came from one of
      the sample groups, opened for the full stage, and sits under its full
      hash, in a group of more than one. */
  lemma FullGroupsSound(disk: Disk, hashing: Hashing, size: u64, quick: Index, order: seq<u64>, h: u64, p: Path)
    requires size > SAMPLE_SIZE
    requires IsOrdering(order, quick.Keys)
    requires h in FullGroups(disk, hashing, size, quick, order)
    requires p in FullGroups(disk, hashing, size, quick, order)[h]
    ensures FullDigest(disk, hashing, p) == Some(h)
    ensures exists k :: k in quick && p in quick[k]
    ensures |FullGroups(disk, hashing, size, quick, order)[h]| > 1
  {
    var keyed := FullKeyed(disk, hashing, Merged(quick, order));
    GroupIntoMembers(keyed, h, p);
    FullKeyedMembers(disk, hashing, Merged(quick, order), h, p);
    MergedMembers(quick, order, p);
  }

  /** In a bucket longer than the sample, a path of any sample group whose
      full hash it shares with another path of any sample group of the
      bucket is kept, under that hash. */
  lemma FullGroupsComplete(disk: Disk, hashing: Hashing, size: u64, quick: Index, order: seq<u64>,
                           h: u64, p: Path, q: Path, kp: u64, kq: u64)
    requires size > SAMPLE_SIZE
    requires IsOrdering(order, quick.Keys)
    requires kp in quick && p in quick[kp] && kq in quick && q in quick[kq] && p != q
    requires FullDigest(disk, hashing, p) == Some(h) && FullDigest(disk, hashing, q) == Some(h)
    ensures h in FullGroups(disk, hashing, size, quick, order)
    ensures p in FullGroups(disk, hashing, size, quick, order)[h]
  {
    var merged := Merged(quick, order);
    var keyed := FullKeyed(disk, hashing, merged);
    MergedMembers(quick, order, p);
    MergedMembers(quick, order, q);
    FullKeyedMembers(disk, hashing, merged, h, p);
    FullKeyedMembers(disk, hashing, merged, h, q);
    GroupIntoMembers(keyed, h, p);
    GroupIntoMembers(keyed, h, q);
    TwoMembers(Lookup(GroupInto(map[], keyed), h), p, q);
  }

  /** Sample groups holding each path once give full groups holding each
      path once. */
  lemma FullGroupsExclusive(disk: Disk, hashing: Hashing, size: u64, quick: Index, order: seq<u64>)
    requires Exclusive(quick)
    requires IsOrdering(order, quick.Keys)
    ensures Exclusive(FullGroups(disk, hashing, size, quick, order))
  {
    if size <= SAMPLE_SIZE {
      DropSingletonsExclusive(quick);
    } else {
      var keyed := FullKeyed(disk, hashing, Merged(quick, order));
      MergedNoDups(quick, order);
      FullKeyedDistinct(disk, hashing, Merged(quick, order));
      GroupIntoExclusive(keyed);
      DropSingletonsExclusive(GroupInto(map[], keyed));
    }
  }
}
