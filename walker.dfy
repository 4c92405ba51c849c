/** The recursive, depth-first walk that files every regular file under the
    root into a size-keyed map. */
module Walker {

  import opened Base
  import opened Buckets
  import opened Patterns
  import opened FileTree

  /** The (size, path) pairs the walk files when it lists `node` at
      `dirPath`, in the order it meets them. A directory that cannot be
      listed, and anything that is not a directory, contribute nothing. */
  function Found(g: GlobSyntax, f: Filters, dirPath: Path, node: Node): seq<(u64, Path)>
    decreases node, 1
  {
    if node.Dir? && node.readable then FoundIn(g, f, dirPath, node, |node.items|) else []
  }

  /** The pairs contributed by the first `n` items of the listing. */
  function FoundIn(g: GlobSyntax, f: Filters, dirPath: Path, node: Node, n: nat): seq<(u64, Path)>
    requires node.Dir? && n <= |node.items|
    decreases node, 0, n
  {
    if n == 0 then [] else FoundIn(g, f, dirPath, node, n - 1) + FoundAt(g, f, dirPath, node, n - 1)
  }

  /** The pairs contributed by item `i` of the listing. An item is filtered
      on its path before its kind is looked at: a regular file is filed with
      its size, a directory is walked in turn, and a listing error, a
      symbolic link, anything else, or an entry whose metadata cannot be read
      adds nothing. */
  function FoundAt(g: GlobSyntax, f: Filters, dirPath: Path, node: Node, i: nat): seq<(u64, Path)>
    requires node.Dir? && i < |node.items|
    decreases node, 0, i
  {
    var item := node.items[i];
    if item.Entry? && Admits(g, f, dirPath + [item.name]) then
      match item.node
      case File(size) => [(size, dirPath + [item.name])]
      case Dir(_, _) => Found(g, f, dirPath + [item.name], item.node)
      case _ => []
    else []
  }

  /** An independent description of what the walk reaches: `route` picks an
      item index in each directory on the way down. Every directory passed
      through is readable, every entry on the way (directories included)
      passes the filters, and the last one is a regular file. */
  ghost predicate Reaches(g: GlobSyntax, f: Filters, dirPath: Path, node: Node, route: seq<nat>, x: (u64, Path))
    decreases |route|
  {
    |route| > 0 && node.Dir? && node.readable && route[0] < |node.items| &&
    var item := node.items[route[0]];
    item.Entry? && Admits(g, f, dirPath + [item.name]) &&
    if |route| == 1 then item.node.File? && x == (item.node.size, dirPath + [item.name])
    else item.node.Dir? && Reaches(g, f, dirPath + [item.name], item.node, route[1..], x)
  }

  /** Walk the directory at `dirPath`, filing what it finds into `m`. */
  method ReadEntries(g: GlobSyntax, f: Filters, dirPath: Path, node: Node, m: Index) returns (m': Index)
    ensures m' == GroupInto(m, Found(g, f, dirPath, node))
    decreases node, 1
  {
    m' := m;
    if node.Dir? && node.readable {
      var i := 0;
      while i < |node.items|
        invariant 0 <= i <= |node.items|
        invariant m' == GroupInto(m, FoundIn(g, f, dirPath, node, i))
      {
        FiledStep(g, f, dirPath, node, i, m);
        m' := ReadEntry(g, f, dirPath, node, i, m');
        i := i + 1;
      }
    }
  }

  /** Filing the first `i + 1` items is filing the first `i`, then item `i`. */
  lemma FiledStep(g: GlobSyntax, f: Filters, dirPath: Path, node: Node, i: nat, m: Index)
    requires node.Dir? && i < |node.items|
    ensures GroupInto(m, FoundIn(g, f, dirPath, node, i + 1)) ==
            GroupInto(GroupInto(m, FoundIn(g, f, dirPath, node, i)), FoundAt(g, f, dirPath, node, i))
  {
    GroupIntoAppend(m, FoundIn(g, f, dirPath, node, i), FoundAt(g, f, dirPath, node, i));
  }

  /** Handle item `i` of the listing of the directory at `dirPath`: skip it
      when the include matcher rejects its path or the exclude matcher
      accepts it, file it when it is a regular file, walk it when it is a
      directory. */
  method ReadEntry(g: GlobSyntax, f: Filters, dirPath: Path, node: Node, i: nat, m: Index) returns (m': Index)
    requires node.Dir? && i < |node.items|
    ensures m' == GroupInto(m, FoundAt(g, f, dirPath, node, i))
    decreases node, 0
  {
    m' := m;
    var item := node.items[i];
    if item.Entry? {
      var path := dirPath + [item.name];
      if f.inclusion.Some? && !IsMatch(g, f.inclusion.value, path) {
      } else if f.exclusion.Some? && IsMatch(g, f.exclusion.value, path) {
      } else {
        match item.node {
          case File(size) =>
            GroupIntoSnoc(m, [], (size, path));
            m' := Push(m', size, path);
          case Dir(_, _) =>
            m' := ReadEntries(g, f, path, item.node, m');
          case _ =>
        }
      }
    }
  }

  /** The size map the walk of the root builds from scratch. */
  function Walk(g: GlobSyntax, f: Filters, root: Path, node: Node): Index {
    GroupInto(map[], Found(g, f, root, node))
  }
}

module WalkerFacts {

  import opened Base
  import opened Buckets
  import opened Patterns
  import opened FileTree
  import opened Walker

  lemma {:induction false} FoundInHas(g: GlobSyntax, f: Filters, dirPath: Path, node: Node, i: nat, n: nat, x: (u64, Path))
    requires node.Dir? && i < n <= |node.items|
    requires x in FoundAt(g, f, dirPath, node, i)
    ensures x in FoundIn(g, f, dirPath, node, n)
    decreases n
  {
    if i < n - 1 {
      FoundInHas(g, f, dirPath, node, i, n - 1, x);
    }
  }

  /** Whatever the reference description reaches, the walk files. */
  lemma {:induction false} ReachesFound(g: GlobSyntax, f: Filters, dirPath: Path, node: Node, route: seq<nat>, x: (u64, Path))
    requires Reaches(g, f, dirPath, node, route, x)
    ensures x in Found(g, f, dirPath, node)
    decreases |route|
  {
    var i := route[0];
    var item := node.items[i];
    if |route| > 1 {
      ReachesFound(g, f, dirPath + [item.name], item.node, route[1..], x);
    }
    FoundInHas(g, f, dirPath, node, i, |node.items|, x);
  }

  /** Whatever the walk files, the reference description reaches. */
  lemma {:induction false} FoundReaches(g: GlobSyntax, f: Filters, dirPath: Path, node: Node, x: (u64, Path))
    requires x in Found(g, f, dirPath, node)
    ensures exists route :: Reaches(g, f, dirPath, node, route, x)
    decreases node, 1
  {
    FoundInFirst(g, f, dirPath, node, |node.items|, x);
    var k :| 0 <= k < |node.items| && x in FoundAt(g, f, dirPath, node, k);
    FoundAtReaches(g, f, dirPath, node, k, x);
  }

  lemma {:induction false} FoundInFirst(g: GlobSyntax, f: Filters, dirPath: Path, node: Node, n: nat, x: (u64, Path))
    requires node.Dir? && n <= |node.items|
    requires x in FoundIn(g, f, dirPath, node, n)
    ensures exists k :: 0 <= k < n && x in FoundAt(g, f, dirPath, node, k)
    decreases n
  {
    if x !in FoundAt(g, f, dirPath, node, n - 1) {
      FoundInFirst(g, f, dirPath, node, n - 1, x);
    }
  }

  lemma {:induction false} FoundAtReaches(g: GlobSyntax, f: Filters, dirPath: Path, node: Node, i: nat, x: (u64, Path))
    requires node.Dir? && node.readable && i < |node.items|
    requires x in FoundAt(g, f, dirPath, node, i)
    ensures exists route :: |route| > 0 && route[0] == i && Reaches(g, f, dirPath, node, route, x)
    decreases node, 0, i
  {
    var item := node.items[i];
    var path := dirPath + [item.name];
    if item.node.File? {
      assert Reaches(g, f, dirPath, node, [i], x);
    } else {
      FoundReaches(g, f, path, item.node, x);
      var route :| Reaches(g, f, path, item.node, route, x);
      assert ([i] + route)[1..] == route;
      assert Reaches(g, f, dirPath, node, [i] + route, x);
    }
  }

  /** The walk files exactly the files the reference description reaches. */
  lemma FoundIffReaches(g: GlobSyntax, f: Filters, dirPath: Path, node: Node, x: (u64, Path))
    ensures x in Found(g, f, dirPath, node) <==> exists route :: Reaches(g, f, dirPath, node, route, x)
  {
    if x in Found(g, f, dirPath, node) {
      FoundReaches(g, f, dirPath, node, x);
    }
    if exists route :: Reaches(g, f, dirPath, node, route, x) {
      var route :| Reaches(g, f, dirPath, node, route, x);
      ReachesFound(g, f, dirPath, node, route, x);
    }
  }

  /** A reached file lies below `dirPath`, inside the entry the route picks
      first, and the filters admitted its own path and the path of every
      directory above it. */
  lemma {:induction false} ReachesPath(g: GlobSyntax, f: Filters, dirPath: Path, node: Node, route: seq<nat>, x: (u64, Path))
    requires Reaches(g, f, dirPath, node, route, x)
    ensures |x.1| > |dirPath|
    ensures x.1[..|dirPath| + 1] == dirPath + [node.items[route[0]].name]
    ensures forall k :: |dirPath| < k <= |x.1| ==> Admits(g, f, x.1[..k])
    decreases |route|
  {
    var item := node.items[route[0]];
    var path := dirPath + [item.name];
    if |route| == 1 {
      assert x.1[..|path|] == path;
    } else {
      ReachesPath(g, f, path, item.node, route[1..], x);
      assert x.1[..|path|] == x.1[..|path| + 1][..|path|];
      forall k | |dirPath| < k <= |x.1| ensures Admits(g, f, x.1[..k]) {
        if k == |path| {
          assert x.1[..k] == path;
        }
      }
    }
  }

  /** Every filed path lies strictly below the walked directory, and the
      filters admitted that path and the path of every directory between:
      a directory the include list rejects, or the exclude list matches, is
      never entered, whatever files lie below it. */
  lemma FoundUnder(g: GlobSyntax, f: Filters, dirPath: Path, node: Node, x: (u64, Path))
    requires x in Found(g, f, dirPath, node)
    ensures |x.1| > |dirPath| && IsPrefix(dirPath, x.1)
    ensures forall k :: |dirPath| < k <= |x.1| ==> Admits(g, f, x.1[..k])
  {
    FoundReaches(g, f, dirPath, node, x);
    var route :| Reaches(g, f, dirPath, node, route, x);
    ReachesPath(g, f, dirPath, node, route, x);
    assert x.1[..|dirPath|] == x.1[..|dirPath| + 1][..|dirPath|];
  }

  /** The walk meets every file once: in a tree whose directories hold
      distinct names, no path is filed twice. */
  lemma {:induction false} FoundDistinct(g: GlobSyntax, f: Filters, dirPath: Path, node: Node)
    requires WellFormed(node)
    ensures DistinctValues(Found(g, f, dirPath, node))
    decreases node, 1
  {
    if node.Dir? && node.readable {
      FoundInDistinct(g, f, dirPath, node, |node.items|);
    }
  }

  /** What two different entries of a directory contribute lies under two
      different names, so no path is contributed by both. */
  lemma FoundAtApart(g: GlobSyntax, f: Filters, dirPath: Path, node: Node, k: nat, m: nat, x: (u64, Path), y: (u64, Path))
    requires WellFormed(node) && node.Dir? && node.readable && k < m < |node.items|
    requires x in FoundAt(g, f, dirPath, node, k) && y in FoundAt(g, f, dirPath, node, m)
    ensures x.1 != y.1
  {
    FoundAtReaches(g, f, dirPath, node, k, x);
    var r1 :| |r1| > 0 && r1[0] == k && Reaches(g, f, dirPath, node, r1, x);
    ReachesPath(g, f, dirPath, node, r1, x);
    FoundAtReaches(g, f, dirPath, node, m, y);
    var r2 :| |r2| > 0 && r2[0] == m && Reaches(g, f, dirPath, node, r2, y);
    ReachesPath(g, f, dirPath, node, r2, y);
    assert x.1[|dirPath|] == node.items[k].name;
    assert y.1[|dirPath|] == node.items[m].name;
  }

  lemma {:induction false} FoundInDistinct(g: GlobSyntax, f: Filters, dirPath: Path, node: Node, n: nat)
    requires WellFormed(node) && node.Dir? && node.readable && n <= |node.items|
    ensures DistinctValues(FoundIn(g, f, dirPath, node, n))
    decreases node, 0, n
  {
    if n > 0 {
      var a := FoundIn(g, f, dirPath, node, n - 1);
      var b := FoundAt(g, f, dirPath, node, n - 1);
      FoundInDistinct(g, f, dirPath, node, n - 1);
      var item := node.items[n - 1];
      if item.Entry? && item.node.Dir? {
        FoundDistinct(g, f, dirPath + [item.name], item.node);
      }
      forall i, j | 0 <= i < |a| && 0 <= j < |b| ensures a[i].1 != b[j].1 {
        FoundInFirst(g, f, dirPath, node, n - 1, a[i]);
        var k :| 0 <= k < n - 1 && a[i] in FoundAt(g, f, dirPath, node, k);
        FoundAtApart(g, f, dirPath, node, k, n - 1, a[i], b[j]);
      }
      DistinctAppend(a, b);
    }
  }

  /** A path is filed under a size in the walk's map exactly when the walk
      met a regular file of that size at that path. */
  lemma WalkMembers(g: GlobSyntax, f: Filters, root: Path, node: Node, size: u64, p: Path)
    ensures p in Lookup(Walk(g, f, root, node), size) <==> (size, p) in Found(g, f, root, node)
  {
    GroupIntoMembers(Found(g, f, root, node), size, p);
  }

  /** In a tree whose directories hold distinct names, the walk's map holds
      every path once. */
  lemma WalkExclusive(g: GlobSyntax, f: Filters, root: Path, node: Node)
    requires WellFormed(node)
    ensures Exclusive(Walk(g, f, root, node))
  {
    FoundDistinct(g, f, root, node);
    GroupIntoExclusive(Found(g, f, root, node));
  }
}
