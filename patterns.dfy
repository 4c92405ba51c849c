/** Include and exclude pattern lists: a comma-separated list of glob
    patterns is compiled into one matcher that accepts a path when any of
    its patterns does. The glob language itself is not modelled: whether a
    pattern is well formed and whether it matches a path are the two
    questions `GlobSyntax` answers. */
module Patterns {

  import opened Base

  /** The glob engine, seen from outside: which pattern texts it accepts,
      and which paths an accepted pattern matches. */
  datatype GlobSyntax = GlobSyntax(parses: string -> bool, matches: (string, Path) -> bool)

  /** A compiled pattern set, kept as the pattern texts it was built from. */
  datatype Matcher = Matcher(patterns: seq<string>)

  /** The two optional matchers the walk consults; `None` means no filter. */
  datatype Filters = Filters(inclusion: Option<Matcher>, exclusion: Option<Matcher>)

  const INVALID_INCLUDE: string := "Invalid include pattern"
  const INVALID_EXCLUDE: string := "Invalid exclude pattern"

  /** The pieces of `s` between commas, as splitting a string on "," yields
      them: the empty string gives one empty piece, and a comma at either
      end gives an empty piece there. */
  function Split(s: string): (r: seq<string>)
    ensures |r| >= 1
    ensures forall i :: 0 <= i < |r| ==> ',' !in r[i]
  {
    if s == [] then [""]
    else
      var rest := Split(s[1..]);
      if s[0] == ',' then [""] + rest
      else [[s[0]] + rest[0]] + rest[1..]
  }

  /** The pieces written back with a comma between neighbours. */
  function Join(parts: seq<string>): string
    requires |parts| >= 1
  {
    if |parts| == 1 then parts[0] else parts[0] + "," + Join(parts[1..])
  }

  /** Splitting loses nothing: joining the pieces gives the list back. */
  lemma {:induction false} JoinSplit(s: string)
    ensures Join(Split(s)) == s
    decreases |s|
  {
    if s != [] {
      var rest := Split(s[1..]);
      JoinSplit(s[1..]);
      if s[0] != ',' {
        if |rest| == 1 {
          assert Split(s) == [[s[0]] + rest[0]];
        } else {
          assert Split(s)[1..] == rest[1..];
          assert [s[0]] + rest[0] + "," + Join(rest[1..]) == [s[0]] + Join(rest);
        }
      }
    }
  }

  lemma {:induction false} SplitAfterPiece(a: string, b: string)
    requires ',' !in a
    ensures Split(a + b) == [a + Split(b)[0]] + Split(b)[1..]
    decreases |a|
  {
    if a == [] {
      assert a + b == b;
      assert a + Split(b)[0] == Split(b)[0];
    } else {
      assert (a + b)[0] == a[0];
      assert (a + b)[1..] == a[1..] + b;
      SplitAfterPiece(a[1..], b);
      assert [a[0]] + (a[1..] + Split(b)[0]) == a + Split(b)[0];
    }
  }

  /** Pieces without commas are recovered by splitting what `Join` wrote. */
  lemma {:induction false} SplitJoin(parts: seq<string>)
    requires |parts| >= 1
    requires forall i :: 0 <= i < |parts| ==> ',' !in parts[i]
    ensures Split(Join(parts)) == parts
    decreases |parts|
  {
    if |parts| == 1 {
      SplitAfterPiece(parts[0], "");
      assert parts[0] + "" == parts[0];
    } else {
      var tail := Join(parts[1..]);
      SplitJoin(parts[1..]);
      SplitComma(tail);
      SplitAfterPiece(parts[0], "," + tail);
      assert Join(parts) == parts[0] + ("," + tail);
      assert parts[0] + "" == parts[0];
      assert parts == [parts[0]] + parts[1..];
    }
  }

  lemma SplitComma(tail: string)
    ensures Split("," + tail) == [""] + Split(tail)
  {
    assert ("," + tail)[1..] == tail;
  }

  predicate AllParse(g: GlobSyntax, patterns: seq<string>) {
    forall i :: 0 <= i < |patterns| ==> g.parses(patterns[i])
  }

  /** Compile a pattern set: it fails when any one pattern is malformed. */
  function Any(g: GlobSyntax, patterns: seq<string>): (r: Option<Matcher>)
    ensures r.Some? <==> AllParse(g, patterns)
    ensures r.Some? ==> r.value.patterns == patterns
  {
    if AllParse(g, patterns) then Some(Matcher(patterns)) else None
  }

  /** A matcher accepts a path when one of its patterns matches it. */
  predicate IsMatch(g: GlobSyntax, m: Matcher, p: Path) {
    exists i :: 0 <= i < |m.patterns| && g.matches(m.patterns[i], p)
  }

  /** The walk keeps an entry when the include matcher, if any, accepts its
      path and the exclude matcher, if any, does not. */
  predicate Admits(g: GlobSyntax, f: Filters, p: Path) {
    (f.inclusion.Some? ==> IsMatch(g, f.inclusion.value, p)) &&
    (f.exclusion.Some? ==> !IsMatch(g, f.exclusion.value, p))
  }

  /** A configured list is usable when it is empty or every piece parses. */
  predicate Usable(g: GlobSyntax, list: string) {
    list == "" || AllParse(g, Split(list))
  }

  /** Some piece of the comma-separated `list` matches `p`. */
  predicate ListMatches(g: GlobSyntax, list: string, p: Path) {
    exists i :: 0 <= i < |Split(list)| && g.matches(Split(list)[i], p)
  }

  /** Build the filters from the configured include and exclude lists. The
      include list is compiled first, so when both are malformed the error
      names the include list. */
  function SetupFilters(g: GlobSyntax, inclusion: string, exclusion: string): (r: Result<Filters, string>)
    ensures r.Err? <==> !Usable(g, inclusion) || !Usable(g, exclusion)
    ensures r.Err? ==> r.error == if Usable(g, inclusion) then INVALID_EXCLUDE else INVALID_INCLUDE
    ensures r.Ok? ==> (r.value.inclusion.None? <==> inclusion == "")
    ensures r.Ok? ==> (r.value.exclusion.None? <==> exclusion == "")
    ensures r.Ok? ==> forall p :: Admits(g, r.value, p) <==>
      (inclusion == "" || ListMatches(g, inclusion, p)) && (exclusion == "" || !ListMatches(g, exclusion, p))
  {
    var inc := if inclusion == "" then None else Any(g, Split(inclusion));
    if inclusion != "" && inc.None? then Err(INVALID_INCLUDE)
    else
      var exc := if exclusion == "" then None else Any(g, Split(exclusion));
      if exclusion != "" && exc.None? then Err(INVALID_EXCLUDE)
      else Ok(Filters(inc, exc))
  }
}
