/** The sample-hash stage: within each size bucket, the paths are grouped by
    the hash of a short prefix of their content, and groups of one are
    dropped. */
module SampleStage {

  import opened Base
  import opened Buckets
  import opened FileIo

  /** The (sample hash, path) pairs of a bucket of `size`-byte files, in
      bucket order; a path whose open or read fails has none. */
  function SampleKeyed(disk: Disk, hashing: Hashing, size: u64, list: seq<Path>): seq<(u64, Path)>
  {
    if list == [] then []
    else
      var p := list[|list| - 1];
      SampleKeyed(disk, hashing, size, list[..|list| - 1]) +
      match SampleHash(disk, hashing, p, size)
      case None => []
      case Some(h) => [(h, p)]
  }

  /** The hash groups the stage keeps for one size bucket. */
  function SampleGroups(disk: Disk, hashing: Hashing, size: u64, list: seq<Path>): Index {
    DropSingletons(GroupInto(map[], SampleKeyed(disk, hashing, size, list)))
  }

  /** Group one size bucket by sample hash: each path is opened and read
      once into a buffer of `min(SAMPLE_SIZE, size)` bytes, and the bytes
      delivered are hashed. */
  method SampleBucket(disk: Disk, hashing: Hashing, size: u64, list: seq<Path>) returns (groups: Index)
    ensures groups == SampleGroups(disk, hashing, size, list)
  {
    var sampleSize := Min(SAMPLE_SIZE, size);
    var quick: Index := map[];
    for i := 0 to |list|
      invariant quick == GroupInto(map[], SampleKeyed(disk, hashing, size, list[..i]))
    {
      var p := list[i];
      ghost var before := SampleKeyed(disk, hashing, size, list[..i]);
      assert list[..i + 1][..i] == list[..i];
      var file := disk.open(p, Sampling);
      if file.Some? {
        var res := ReadAt(file.value, 0, 0, sampleSize);
        if res.Read? {
          var hash := hashing.oneshot(SEED, res.bytes);
          GroupIntoSnoc(map[], before, (hash, p));
          quick := Push(quick, hash, p);
        } else {
          assert before + [] == before;
        }
      } else {
        assert before + [] == before;
      }
    }
    assert list[..|list|] == list;
    groups := DropSingletons(quick);
  }

  /** The whole stage: every size bucket is grouped on its own. A bucket
      all of whose groups were singletons stays, with no groups. */
  method SampleAll(disk: Disk, hashing: Hashing, sizes: Index) returns (r: map<u64, Index>)
    ensures r.Keys == sizes.Keys
    ensures forall s :: s in r ==> r[s] == SampleGroups(disk, hashing, s, sizes[s])
  {
    r := map[];
    var todo := sizes.Keys;
    while todo != {}
      invariant todo <= sizes.Keys
      invariant r.Keys == sizes.Keys - todo
      invariant forall s :: s in r ==> r[s] == SampleGroups(disk, hashing, s, sizes[s])
      decreases todo
    {
      var s :| s in todo;
      var groups := SampleBucket(disk, hashing, s, sizes[s]);
      r := r[s := groups];
      todo := todo - {s};
    }
  }

  /** A path is paired with a hash exactly when it is in the bucket and its
      sample read succeeds with that hash. */
  lemma {:induction false} SampleKeyedMembers(disk: Disk, hashing: Hashing, size: u64, list: seq<Path>, h: u64, p: Path)
    ensures (h, p) in SampleKeyed(disk, hashing, size, list) <==> p in list && SampleHash(disk, hashing, p, size) == Some(h)
    decreases |list|
  {
    if list != [] {
      var list' := list[..|list| - 1];
      SampleKeyedMembers(disk, hashing, size, list', h, p);
      assert list == list' + [list[|list| - 1]];
    }
  }

  /** Every path the stage keeps is from the bucket, was opened and read,
      and sits under the hash of the first `n` bytes of its content for some
      `n` no larger than `min(SAMPLE_SIZE, size)`; every kept group has more
      than one path. A path whose open or read fails is kept nowhere. */
  lemma SampleGroupsSound(disk: Disk, hashing: Hashing, size: u64, list: seq<Path>, h: u64, p: Path)
    requires h in SampleGroups(disk, hashing, size, list)
    requires p in SampleGroups(disk, hashing, size, list)[h]
    ensures p in list && SampleHash(disk, hashing, p, size) == Some(h)
    ensures |SampleGroups(disk, hashing, size, list)[h]| > 1
    ensures (exists n :: 0 <= n <= Min(SAMPLE_SIZE, size) && n <= |disk.open(p, Sampling).value.content| &&
               h == hashing.oneshot(SEED, disk.open(p, Sampling).value.content[..n]))
  {
    var keyed := SampleKeyed(disk, hashing, size, list);
    GroupIntoMembers(keyed, h, p);
    SampleKeyedMembers(disk, hashing, size, list, h, p);
  }

  /** A path of the bucket whose sample hash it shares with another path of
      the bucket is kept, under that hash. */
  lemma SampleGroupsComplete(disk: Disk, hashing: Hashing, size: u64, list: seq<Path>, h: u64, p: Path, q: Path)
    requires p in list && q in list && p != q
    requires SampleHash(disk, hashing, p, size) == Some(h) && SampleHash(disk, hashing, q, size) == Some(h)
    ensures h in SampleGroups(disk, hashing, size, list)
    ensures p in SampleGroups(disk, hashing, size, list)[h]
  {
    var keyed := SampleKeyed(disk, hashing, size, list);
    SampleKeyedMembers(disk, hashing, size, list, h, p);
    SampleKeyedMembers(disk, hashing, size, list, h, q);
    GroupIntoMembers(keyed, h, p);
    GroupIntoMembers(keyed, h, q);
    TwoMembers(Lookup(GroupInto(map[], keyed), h), p, q);
  }

  lemma {:induction false} SampleKeyedDistinct(disk: Disk, hashing: Hashing, size: u64, list: seq<Path>)
    requires NoDups(list)
    ensures DistinctValues(SampleKeyed(disk, hashing, size, list))
    decreases |list|
  {
    if list != [] {
      var list' := list[..|list| - 1];
      var a := SampleKeyed(disk, hashing, size, list');
      var b := SampleKeyed(disk, hashing, size, list)[|a|..];
      SampleKeyedDistinct(disk, hashing, size, list');
      forall i, j | 0 <= i < |a| && 0 <= j < |b| ensures a[i].1 != b[j].1 {
        SampleKeyedMembers(disk, hashing, size, list', a[i].0, a[i].1);
        assert b[j].1 == list[|list| - 1];
      }
      assert SampleKeyed(disk, hashing, size, list) == a + b;
      DistinctAppend(a, b);
    }
  }

  /** A bucket holding each path once gives groups holding each path once. */
  lemma SampleGroupsExclusive(disk: Disk, hashing: Hashing, size: u64, list: seq<Path>)
    requires NoDups(list)
    ensures Exclusive(SampleGroups(disk, hashing, size, list))
  {
    SampleKeyedDistinct(disk, hashing, size, list);
    GroupIntoExclusive(SampleKeyed(disk, hashing, size, list));
    DropSingletonsExclusive(GroupInto(map[], SampleKeyed(disk, hashing, size, list)));
  }
}
