/** Maps from a key to the list of values filed under it, built the way the
    scan builds its size map and its hash maps: one value at a time, each
    appended to the list of its key, a fresh list being started for a key
    not seen before. */
module Buckets {

  import opened Base

  /** Lists of paths filed under 64-bit keys (a size or a hash). */
  type Index = map<u64, seq<Path>>

  /** The list filed under `k`; the empty list when `k` has none. */
  function Lookup(m: Index, k: u64): seq<Path> {
    if k in m then m[k] else []
  }

  /** File `x` under `k`: append it to the list of `k`, or start that list. */
  function Push(m: Index, k: u64, x: Path): (r: Index)
    ensures r.Keys == m.Keys + {k}
    ensures Lookup(r, k) == Lookup(m, k) + [x]
    ensures forall j :: j != k ==> Lookup(r, j) == Lookup(m, j)
  {
    m[k := Lookup(m, k) + [x]]
  }

  /** File every pair of `ps`, in order, into `m`. */
  function GroupInto(m: Index, ps: seq<(u64, Path)>): Index
  {
    if ps == [] then m
    else Push(GroupInto(m, ps[..|ps| - 1]), ps[|ps| - 1].0, ps[|ps| - 1].1)
  }

  /** The values of `ps` whose key is `k`, in their order in `ps`. */
  function Select(ps: seq<(u64, Path)>, k: u64): (r: seq<Path>)
    ensures |r| <= |ps|
  {
    if ps == [] then []
    else Select(ps[..|ps| - 1], k) + (if ps[|ps| - 1].0 == k then [ps[|ps| - 1].1] else [])
  }

  /** The keys that occur in `ps`. */
  function KeysOf(ps: seq<(u64, Path)>): set<u64> {
    set i | 0 <= i < |ps| :: ps[i].0
  }

  /** Keep only the keys whose list holds more than one value. */
  function DropSingletons(m: Index): (r: Index)
    ensures forall k :: k in r <==> k in m && |m[k]| > 1
    ensures forall k :: k in r ==> r[k] == m[k]
  {
    map k | k in m && |m[k]| > 1 :: m[k]
  }

  /** No value is filed twice: not under two keys, not twice under one. */
  ghost predicate Exclusive(m: Index) {
    forall k1, k2, i, j ::
      k1 in m && k2 in m && 0 <= i < |m[k1]| && 0 <= j < |m[k2]| && m[k1][i] == m[k2][j]
      ==> k1 == k2 && i == j
  }

  /** No value occurs twice in `ps`. */
  ghost predicate DistinctValues(ps: seq<(u64, Path)>) {
    forall i, j :: 0 <= i < j < |ps| ==> ps[i].1 != ps[j].1
  }

  /** `x` is filed under some key of `m`. */
  ghost predicate Holds(m: Index, x: Path) {
    exists k :: k in m && x in m[k]
  }

  lemma {:induction false} GroupIntoAppend(m: Index, a: seq<(u64, Path)>, b: seq<(u64, Path)>)
    ensures GroupInto(m, a + b) == GroupInto(GroupInto(m, a), b)
    decreases |b|
  {
    if b == [] {
      assert a + b == a;
    } else {
      var b' := b[..|b| - 1];
      assert (a + b)[..|a + b| - 1] == a + b';
      GroupIntoAppend(m, a, b');
    }
  }

  lemma GroupIntoSnoc(m: Index, ps: seq<(u64, Path)>, x: (u64, Path))
    ensures GroupInto(m, ps + [x]) == Push(GroupInto(m, ps), x.0, x.1)
  {
    assert (ps + [x])[..|ps|] == ps;
  }

  /** Filing a list of pairs leaves under each key the old list followed by
      the values of that key, in order. */
  lemma {:induction false} GroupIntoLookup(m: Index, ps: seq<(u64, Path)>, k: u64)
    ensures Lookup(GroupInto(m, ps), k) == Lookup(m, k) + Select(ps, k)
    decreases |ps|
  {
    if ps != [] {
      GroupIntoLookup(m, ps[..|ps| - 1], k);
    }
  }

  /** The keys after filing are the old keys and the keys of the pairs. */
  lemma {:induction false} GroupIntoKeys(m: Index, ps: seq<(u64, Path)>)
    ensures GroupInto(m, ps).Keys == m.Keys + KeysOf(ps)
    decreases |ps|
  {
    if ps != [] {
      var ps' := ps[..|ps| - 1];
      GroupIntoKeys(m, ps');
      assert KeysOf(ps) == KeysOf(ps') + {ps[|ps| - 1].0} by {
        forall x | x in KeysOf(ps) ensures x in KeysOf(ps') + {ps[|ps| - 1].0} {
          var i :| 0 <= i < |ps| && ps[i].0 == x;
          if i < |ps| - 1 { assert ps'[i] == ps[i]; }
        }
        forall x | x in KeysOf(ps') ensures x in KeysOf(ps) {
          var i :| 0 <= i < |ps'| && ps'[i].0 == x;
          assert ps[i] == ps'[i];
        }
      }
    }
  }

  /** A value is selected under `k` exactly when `ps` pairs it with `k`. */
  lemma {:induction false} SelectMembers(ps: seq<(u64, Path)>, k: u64, x: Path)
    ensures x in Select(ps, k) <==> exists i :: 0 <= i < |ps| && ps[i] == (k, x)
    decreases |ps|
  {
    if ps != [] {
      var ps' := ps[..|ps| - 1];
      SelectMembers(ps', k, x);
      if exists i :: 0 <= i < |ps'| && ps'[i] == (k, x) {
        var i :| 0 <= i < |ps'| && ps'[i] == (k, x);
        assert ps[i] == (k, x);
      }
      if exists i :: 0 <= i < |ps| && ps[i] == (k, x) {
        var i :| 0 <= i < |ps| && ps[i] == (k, x);
        if i < |ps| - 1 { assert ps'[i] == (k, x); }
      }
    }
  }

  /** Every list built from the empty map by filing is non-empty. */
  lemma {:induction false} GroupIntoNonEmpty(ps: seq<(u64, Path)>, k: u64)
    requires k in GroupInto(map[], ps)
    ensures |GroupInto(map[], ps)[k]| > 0
  {
    GroupIntoLookup(map[], ps, k);
    GroupIntoKeys(map[], ps);
    var i :| 0 <= i < |ps| && ps[i].0 == k;
    SelectMembers(ps, k, ps[i].1);
  }

  /** When no value of `ps` repeats, filing them into the empty map files
      every value exactly once. */
  lemma {:induction false} GroupIntoExclusive(ps: seq<(u64, Path)>)
    requires DistinctValues(ps)
    ensures Exclusive(GroupInto(map[], ps))
    decreases |ps|
  {
    if ps != [] {
      var ps' := ps[..|ps| - 1];
      var m := GroupInto(map[], ps');
      var (k, x) := ps[|ps| - 1];
      GroupIntoExclusive(ps');
      forall j | j in m ensures x !in m[j] {
        GroupIntoLookup(map[], ps', j);
        SelectMembers(ps', j, x);
        assert forall i :: 0 <= i < |ps'| ==> ps'[i].1 == ps[i].1;
      }
      PushExclusive(m, k, x);
    }
  }

  /** Two lists without repeats and without common values join into a
      list without repeats. */
  lemma DistinctAppend(a: seq<(u64, Path)>, b: seq<(u64, Path)>)
    requires DistinctValues(a) && DistinctValues(b)
    requires forall i, j :: 0 <= i < |a| && 0 <= j < |b| ==> a[i].1 != b[j].1
    ensures DistinctValues(a + b)
  {
    forall i, j | 0 <= i < j < |a + b| ensures (a + b)[i].1 != (a + b)[j].1 {
      if j < |a| {
        assert (a + b)[i] == a[i] && (a + b)[j] == a[j];
      } else if i < |a| {
        assert (a + b)[i] == a[i] && (a + b)[j] == b[j - |a|];
      } else {
        assert (a + b)[i] == b[i - |a|] && (a + b)[j] == b[j - |a|];
      }
    }
  }

  /** No path occurs twice in `s`. */
  ghost predicate NoDups(s: seq<Path>) {
    forall i, j :: 0 <= i < j < |s| ==> s[i] != s[j]
  }

  /** Two lists without repeats, sharing no value, joined without repeats. */
  lemma NoDupsAppend(a: seq<Path>, b: seq<Path>)
    requires NoDups(a) && NoDups(b)
    requires forall i, j :: 0 <= i < |a| && 0 <= j < |b| ==> a[i] != b[j]
    ensures NoDups(a + b)
  {
    forall i, j | 0 <= i < j < |a + b| ensures (a + b)[i] != (a + b)[j] {
      if j < |a| {
      } else if i >= |a| {
        assert (a + b)[i] == b[i - |a|] && (a + b)[j] == b[j - |a|];
      } else {
        assert (a + b)[i] == a[i] && (a + b)[j] == b[j - |a|];
      }
    }
  }

  /** In an exclusive map, each list holds each value once. */
  lemma ExclusiveNoDups(m: Index, k: u64)
    requires Exclusive(m) && k in m
    ensures NoDups(m[k])
  {
  }

  /** A list holding two different values has at least two entries. */
  lemma TwoMembers(s: seq<Path>, p: Path, q: Path)
    requires p in s && q in s && p != q
    ensures |s| >= 2
  {
  }

  /** A value is filed under `k` by filing `ps` from scratch exactly when
      `ps` pairs it with `k`. */
  lemma GroupIntoMembers(ps: seq<(u64, Path)>, k: u64, x: Path)
    ensures x in Lookup(GroupInto(map[], ps), k) <==> (k, x) in ps
  {
    GroupIntoLookup(map[], ps, k);
    SelectMembers(ps, k, x);
    assert Lookup(map[], k) == [];
  }

  lemma PushExclusive(m: Index, k: u64, x: Path)
    requires Exclusive(m)
    requires forall j :: j in m ==> x !in m[j]
    ensures Exclusive(Push(m, k, x))
  {
    var r := Push(m, k, x);
    forall k1, k2, i, j |
      k1 in r && k2 in r && 0 <= i < |r[k1]| && 0 <= j < |r[k2]| && r[k1][i] == r[k2][j]
      ensures k1 == k2 && i == j
    {
      assert Lookup(r, k1) == r[k1] && Lookup(r, k2) == r[k2];
      if k1 == k && i == |r[k1]| - 1 {
        assert r[k1][i] == x;
      } else if !(k2 == k && j == |r[k2]| - 1) {
        assert r[k1][i] == Lookup(m, k1)[i];
        assert r[k2][j] == Lookup(m, k2)[j];
      }
    }
  }

  /** Dropping keys keeps a map exclusive. */
  lemma DropSingletonsExclusive(m: Index)
    requires Exclusive(m)
    ensures Exclusive(DropSingletons(m))
  {
  }

  /** Dropping singletons twice is dropping them once. */
  lemma DropSingletonsIdempotent(m: Index)
    ensures DropSingletons(DropSingletons(m)) == DropSingletons(m)
  {
  }
}
