/** Turning the surviving groups into the report: one entry per (size, hash)
    group with its paths made relative to the scanned root, ordered by size,
    largest first, and formatted. */
module Assembly {

  import opened Base
  import opened Buckets
  import opened Formatting

  /** A group of duplicates before formatting. */
  datatype Group = Group(hash: u64, size: u64, files: seq<Path>)

  /** One entry of the report. */
  datatype Record = Record(hash: string, size: SizeLabel, files: seq<Path>)

  /** `p` relative to `root` when it lies under `root`; otherwise `p`
      itself. */
  function Relativize(root: Path, p: Path): (r: Path)
    ensures IsPrefix(root, p) ==> root + r == p
    ensures !IsPrefix(root, p) ==> r == p
  {
    if IsPrefix(root, p) then p[|root|..] else p
  }

  function RelativizeAll(root: Path, ps: seq<Path>): (r: seq<Path>)
    ensures |r| == |ps|
    ensures forall i :: 0 <= i < |ps| ==> r[i] == Relativize(root, ps[i])
  {
    if ps == [] then [] else [Relativize(root, ps[0])] + RelativizeAll(root, ps[1..])
  }

  /** Below one root, relativizing loses nothing: different paths stay
      different. */
  lemma RelativizeInjective(root: Path, p: Path, q: Path)
    requires IsPrefix(root, p) && IsPrefix(root, q)
    requires Relativize(root, p) == Relativize(root, q)
    ensures p == q
  {
  }

  /** `g` is the entry for its (size, hash) group of `m`. */
  ghost predicate EntryOf(g: Group, m: map<u64, Index>, root: Path) {
    g.size in m && g.hash in m[g.size] && g.files == RelativizeAll(root, m[g.size][g.hash])
  }

  /** `gs` lists the groups of `m` whose size is in `sizes`, each once, with
      its paths relativized. */
  ghost predicate Lists(gs: seq<Group>, m: map<u64, Index>, root: Path, sizes: set<u64>) {
    (forall i :: 0 <= i < |gs| ==> gs[i].size in sizes && EntryOf(gs[i], m, root)) &&
    (forall i, j :: 0 <= i < j < |gs| ==> gs[i].size != gs[j].size || gs[i].hash != gs[j].hash) &&
    (forall s, h :: s in sizes && s in m && h in m[s] ==>
      exists i :: 0 <= i < |gs| && gs[i].size == s && gs[i].hash == h)
  }

  /** `gs` lists the groups of `groups`, all of size `s`, whose hash is in
      `hashes`, each once, with its paths relativized. */
  ghost predicate ListsBucket(gs: seq<Group>, s: u64, groups: Index, root: Path, hashes: set<u64>) {
    (forall i :: 0 <= i < |gs| ==> gs[i].hash in hashes && EntryOf(gs[i], map[s := groups], root)) &&
    (forall i, j :: 0 <= i < j < |gs| ==> gs[i].hash != gs[j].hash) &&
    (forall h :: h in hashes && h in groups ==> exists i :: 0 <= i < |gs| && gs[i].hash == h)
  }

  /** One entry per group of one size bucket, in the order the loop visits
      the hash map. */
  method FlattenBucket(root: Path, s: u64, groups: Index) returns (gs: seq<Group>)
    ensures ListsBucket(gs, s, groups, root, groups.Keys)
  {
    gs := [];
    var todo := groups.Keys;
    while todo != {}
      invariant todo <= groups.Keys
      invariant ListsBucket(gs, s, groups, root, groups.Keys - todo)
      decreases todo
    {
      var h :| h in todo;
      var g := Group(h, s, RelativizeAll(root, groups[h]));
      BucketStep(gs, s, groups, root, groups.Keys - todo, h);
      assert groups.Keys - todo + {h} == groups.Keys - (todo - {h});
      gs := gs + [g];
      todo := todo - {h};
    }
  }

  /** Adding the entry of one more hash. */
  lemma BucketStep(gs: seq<Group>, s: u64, groups: Index, root: Path, hashes: set<u64>, h: u64)
    requires ListsBucket(gs, s, groups, root, hashes)
    requires h in groups && h !in hashes
    ensures ListsBucket(gs + [Group(h, s, RelativizeAll(root, groups[h]))], s, groups, root, hashes + {h})
  {
    var r := gs + [Group(h, s, RelativizeAll(root, groups[h]))];
    forall x | x in hashes + {h} && x in groups ensures exists i :: 0 <= i < |r| && r[i].hash == x {
      if x == h {
        assert r[|r| - 1].hash == x;
      } else {
        var i :| 0 <= i < |gs| && gs[i].hash == x;
        assert r[i] == gs[i];
      }
    }
  }

  /** One entry per group of every size bucket, in the order the loops
      visit the hash maps. */
  method Flatten(root: Path, m: map<u64, Index>) returns (gs: seq<Group>)
    ensures Lists(gs, m, root, m.Keys)
  {
    gs := [];
    var todo := m.Keys;
    while todo != {}
      invariant todo <= m.Keys
      invariant Lists(gs, m, root, m.Keys - todo)
      decreases todo
    {
      var s :| s in todo;
      var b := FlattenBucket(root, s, m[s]);
      ListsAppend(gs, b, m, root, m.Keys - todo, s);
      gs := gs + b;
      todo := todo - {s};
    }
  }

  /** Adding the entries of one more size bucket. */
  lemma ListsAppend(gs: seq<Group>, b: seq<Group>, m: map<u64, Index>, root: Path, sizes: set<u64>, s: u64)
    requires Lists(gs, m, root, sizes)
    requires s in m && s !in sizes
    requires ListsBucket(b, s, m[s], root, m[s].Keys)
    ensures Lists(gs + b, m, root, sizes + {s})
  {
    AppendEntries(gs, b, m, root, sizes, s);
    AppendDistinct(gs, b, m, root, sizes, s);
    AppendCovers(gs, b, m, root, sizes, s);
  }

  lemma AppendEntries(gs: seq<Group>, b: seq<Group>, m: map<u64, Index>, root: Path, sizes: set<u64>, s: u64)
    requires Lists(gs, m, root, sizes)
    requires s in m
    requires ListsBucket(b, s, m[s], root, m[s].Keys)
    ensures forall i :: 0 <= i < |gs + b| ==> (gs + b)[i].size in sizes + {s} && EntryOf((gs + b)[i], m, root)
  {
    var r := gs + b;
    forall i | 0 <= i < |r| ensures r[i].size in sizes + {s} && EntryOf(r[i], m, root) {
      if i < |gs| {
        assert r[i] == gs[i];
      } else {
        assert r[i] == b[i - |gs|];
        assert EntryOf(b[i - |gs|], map[s := m[s]], root);
      }
    }
  }

  lemma AppendDistinct(gs: seq<Group>, b: seq<Group>, m: map<u64, Index>, root: Path, sizes: set<u64>, s: u64)
    requires Lists(gs, m, root, sizes)
    requires s in m && s !in sizes
    requires ListsBucket(b, s, m[s], root, m[s].Keys)
    ensures forall i, j :: 0 <= i < j < |gs + b| ==> (gs + b)[i].size != (gs + b)[j].size || (gs + b)[i].hash != (gs + b)[j].hash
  {
    var r := gs + b;
    forall i, j | 0 <= i < j < |r| ensures r[i].size != r[j].size || r[i].hash != r[j].hash {
      if j < |gs| {
        assert r[i] == gs[i] && r[j] == gs[j];
      } else if i >= |gs| {
        assert r[i] == b[i - |gs|] && r[j] == b[j - |gs|];
      } else {
        assert r[i] == gs[i] && r[j] == b[j - |gs|];
        assert EntryOf(b[j - |gs|], map[s := m[s]], root);
      }
    }
  }

  lemma AppendCovers(gs: seq<Group>, b: seq<Group>, m: map<u64, Index>, root: Path, sizes: set<u64>, s: u64)
    requires Lists(gs, m, root, sizes)
    requires s in m
    requires ListsBucket(b, s, m[s], root, m[s].Keys)
    ensures forall t, h :: t in sizes + {s} && t in m && h in m[t] ==>
      exists i :: 0 <= i < |gs + b| && (gs + b)[i].size == t && (gs + b)[i].hash == h
  {
    var r := gs + b;
    forall t, h | t in sizes + {s} && t in m && h in m[t]
      ensures exists i :: 0 <= i < |r| && r[i].size == t && r[i].hash == h
    {
      if t == s {
        CoveredByBucket(gs, b, m, root, s, h);
      } else {
        var i :| 0 <= i < |gs| && gs[i].size == t && gs[i].hash == h;
        assert r[i] == gs[i];
      }
    }
  }

  lemma CoveredByBucket(gs: seq<Group>, b: seq<Group>, m: map<u64, Index>, root: Path, s: u64, h: u64)
    requires s in m && h in m[s]
    requires ListsBucket(b, s, m[s], root, m[s].Keys)
    ensures exists i :: 0 <= i < |gs + b| && (gs + b)[i].size == s && (gs + b)[i].hash == h
  {
    var i :| 0 <= i < |b| && b[i].hash == h;
    assert (gs + b)[|gs| + i] == b[i];
    assert EntryOf(b[i], map[s := m[s]], root);
  }

  /** Sizes never increase along `gs`. */
  predicate SortedBySizeDesc(gs: seq<Group>) {
    forall i, j :: 0 <= i < j < |gs| ==> gs[i].size >= gs[j].size
  }

  /** The entries of `gs` of size `s`, in order. */
  function OfSize(gs: seq<Group>, s: u64): seq<Group> {
    if gs == [] then []
    else (if gs[0].size == s then [gs[0]] else []) + OfSize(gs[1..], s)
  }

  /** `g` placed into `gs` ahead of the first entry no larger than it. */
  function Insert(g: Group, gs: seq<Group>): (r: seq<Group>)
    requires SortedBySizeDesc(gs)
    ensures SortedBySizeDesc(r)
    ensures multiset(r) == multiset(gs) + multiset{g}
    ensures r[0] == g || (gs != [] && r[0] == gs[0])
  {
    if gs == [] || gs[0].size <= g.size then
      [g] + gs
    else
      var rest := Insert(g, gs[1..]);
      assert gs == [gs[0]] + gs[1..];
      ConsSorted(gs[0], rest);
      [gs[0]] + rest
  }

  lemma ConsSorted(x: Group, rest: seq<Group>)
    requires SortedBySizeDesc(rest)
    requires rest != [] ==> rest[0].size <= x.size
    ensures SortedBySizeDesc([x] + rest)
  {
    var r := [x] + rest;
    forall i, j | 0 <= i < j < |r| ensures r[i].size >= r[j].size {
      if i == 0 {
        assert r[j] == rest[j - 1];
      } else {
        assert r[i] == rest[i - 1] && r[j] == rest[j - 1];
      }
    }
  }

  /** Inserting `g` puts it ahead of every entry of its own size and leaves
      the order of the others. */
  lemma {:induction false} InsertOfSize(g: Group, gs: seq<Group>, s: u64)
    requires SortedBySizeDesc(gs)
    ensures OfSize(Insert(g, gs), s) == (if g.size == s then [g] else []) + OfSize(gs, s)
  {
    if gs == [] || gs[0].size <= g.size {
      var r := [g] + gs;
      assert r[1..] == gs;
      if gs != [] && gs[0].size == g.size {
      }
    } else {
      var rest := Insert(g, gs[1..]);
      var r := [gs[0]] + rest;
      assert r[1..] == rest;
      InsertOfSize(g, gs[1..], s);
      if g.size == s {
        OfSizeLarger(gs, s);
      }
    }
  }

  /** The entries of size `s` of a list whose first entry has another size
      are those of the rest. */
  lemma OfSizeLarger(gs: seq<Group>, s: u64)
    requires gs != [] && gs[0].size != s
    ensures OfSize(gs, s) == OfSize(gs[1..], s)
  {
  }

  /** The entries of `gs` ordered by size, largest first. */
  function SortBySizeDesc(gs: seq<Group>): (r: seq<Group>)
    ensures SortedBySizeDesc(r)
    ensures multiset(r) == multiset(gs)
  {
    if gs == [] then []
    else
      assert gs == [gs[0]] + gs[1..];
      Insert(gs[0], SortBySizeDesc(gs[1..]))
  }

  /** The sort is stable: the entries of each size keep their order. */
  lemma {:induction false} SortBySizeDescStable(gs: seq<Group>, s: u64)
    ensures OfSize(SortBySizeDesc(gs), s) == OfSize(gs, s)
  {
    if gs != [] {
      SortBySizeDescStable(gs[1..], s);
      InsertOfSize(gs[0], SortBySizeDesc(gs[1..]), s);
    }
  }

  /** Sorting neither adds nor loses an entry. */
  lemma SortBySizeDescMembers(gs: seq<Group>, x: Group)
    ensures x in SortBySizeDesc(gs) <==> x in gs
  {
    assert x in SortBySizeDesc(gs) <==> x in multiset(SortBySizeDesc(gs));
    assert x in gs <==> x in multiset(gs);
  }

  /** No file is in both groups. */
  ghost predicate Apart(a: Group, b: Group) {
    forall p :: !(p in a.files && p in b.files)
  }

  /** No file is in two entries of `gs`. */
  ghost predicate PairwiseApart(gs: seq<Group>) {
    forall i, j :: 0 <= i < j < |gs| ==> Apart(gs[i], gs[j])
  }

  /** Inserting adds `g` and nothing else. */
  lemma InsertMembers(g: Group, gs: seq<Group>, y: Group)
    requires SortedBySizeDesc(gs)
    ensures y in Insert(g, gs) <==> y == g || y in gs
  {
    assert y in Insert(g, gs) <==> y in multiset(Insert(g, gs));
    assert y in gs <==> y in multiset(gs);
  }

  lemma {:induction false} InsertApart(g: Group, gs: seq<Group>)
    requires SortedBySizeDesc(gs) && PairwiseApart(gs)
    requires forall k :: 0 <= k < |gs| ==> Apart(g, gs[k])
    ensures PairwiseApart(Insert(g, gs))
  {
    if !(gs == [] || gs[0].size <= g.size) {
      var rest := Insert(g, gs[1..]);
      InsertApart(g, gs[1..]);
      var r := [gs[0]] + rest;
      forall j | 0 <= j < |rest| ensures Apart(gs[0], rest[j]) {
        InsertMembers(g, gs[1..], rest[j]);
        if rest[j] == g {
          assert Apart(g, gs[0]);
        } else {
          var k :| 0 <= k < |gs[1..]| && gs[1..][k] == rest[j];
          assert Apart(gs[0], gs[k + 1]);
        }
      }
      ConsApart(gs[0], rest);
    }
  }

  lemma ConsApart(x: Group, rest: seq<Group>)
    requires PairwiseApart(rest)
    requires forall j :: 0 <= j < |rest| ==> Apart(x, rest[j])
    ensures PairwiseApart([x] + rest)
  {
    var r := [x] + rest;
    forall i, j | 0 <= i < j < |r| ensures Apart(r[i], r[j]) {
      if i == 0 {
        assert r[j] == rest[j - 1];
      } else {
        assert r[i] == rest[i - 1] && r[j] == rest[j - 1];
      }
    }
  }

  /** Sorting keeps entries that share no file apart. */
  lemma {:induction false} SortBySizeDescApart(gs: seq<Group>)
    requires PairwiseApart(gs)
    ensures PairwiseApart(SortBySizeDesc(gs))
  {
    if gs != [] {
      var rest := SortBySizeDesc(gs[1..]);
      SortBySizeDescApart(gs[1..]);
      forall k | 0 <= k < |rest| ensures Apart(gs[0], rest[k]) {
        SortBySizeDescMembers(gs[1..], rest[k]);
        var j :| 0 <= j < |gs[1..]| && gs[1..][j] == rest[k];
        assert gs[j + 1] == rest[k];
      }
      InsertApart(gs[0], rest);
    }
  }

  /** The report entry for a group. */
  function ToRecord(g: Group): (r: Record)
    ensures r.hash == Hex16(g.hash) && r.size == HumanReadableSize(g.size) && r.files == g.files
  {
    Record(Hex16(g.hash), HumanReadableSize(g.size), g.files)
  }

  function ToRecords(gs: seq<Group>): (r: seq<Record>)
    ensures |r| == |gs|
    ensures forall i :: 0 <= i < |gs| ==> r[i] == ToRecord(gs[i])
  {
    if gs == [] then [] else [ToRecord(gs[0])] + ToRecords(gs[1..])
  }
}
