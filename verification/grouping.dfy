/** Grouping of the import statements a file's fixes need: duplicates
    collapse, imports are grouped by their root in ascending order, and a
    root's paths are merged into one braced statement, with their longest
    common `::`-prefix factored out.

    `GroupTree` and `GroupImports` follow the code as written, and the
    rendered view uses them; `GroupTreeFixed` and `GroupImportsFixed` are
    the corrected grouping (see the README's findings). */
module Grouping {
  import opened Wrappers
  import opened Text
  import opened Ordering
  import opened Seqs

  const Sep: string := "::"

  /** An import with the leading `use `s, the trailing `;`s and the
      surrounding whitespace removed (grouping.rs lines 70-73). */
  function Stripped(raw: string): string {
    Trim(TrimEndMatches(TrimStartMatches(raw, "use "), ';'))
  }

  /** The root (text before the first `::`) and path (text after it) of a
      stripped import; one without `::` is all root and has an empty path
      (grouping.rs lines 75-84). */
  function SplitRoot(s: string): (string, string) {
    match Find(s, Sep)
    case None => (s, "")
    case Some(i) =>
      FindSome(s, Sep);
      (s[..i], s[i + 2..])
  }

  function ParseImport(raw: string): (string, string) {
    SplitRoot(Stripped(raw))
  }

  /** The split happens at the first `::`, and only when there is one. */
  lemma SplitRootSpec(s: string)
    ensures Contains(s, Sep) ==> SplitRoot(s).0 + Sep + SplitRoot(s).1 == s && !Contains(SplitRoot(s).0, Sep)
    ensures !Contains(s, Sep) ==> SplitRoot(s) == (s, "")
  {
    FindNone(s, Sep);
    if Find(s, Sep).Some? {
      FindSome(s, Sep);
    }
  }

  /** Every import split into its root and path. */
  function Parsed(imports: seq<string>): seq<(string, string)> {
    Map(imports, ParseImport)
  }

  function RootPart(p: (string, string)): string {
    p.0
  }

  /** The root of every parsed import, in order. */
  function RootsOf(pairs: seq<(string, string)>): seq<string> {
    Map(pairs, RootPart)
  }

  /** The paths pushed under `root`, in enumeration order. */
  function PathsFor(pairs: seq<(string, string)>, root: string): (r: seq<string>)
    ensures |r| <= |pairs|
  {
    if pairs == [] then []
    else (if pairs[0].0 == root then [pairs[0].1] else []) + PathsFor(pairs[1..], root)
  }

  /** The distinct roots of a list of imports, ascending: the keys of the
      `BTreeMap` (grouping.rs lines 67, 89). */
  function Roots(imports: seq<string>): (r: seq<string>)
    ensures StrictlySorted(r)
  {
    SortedSet(RootsOf(Parsed(imports)))
  }

  /** The roots are exactly the roots of the parsed imports. */
  lemma RootsMembers(imports: seq<string>)
    ensures forall y :: y in Roots(imports) <==> exists p :: p in Parsed(imports) && p.0 == y
  {
    forall y | y in Roots(imports)
      ensures exists p :: p in Parsed(imports) && p.0 == y
    {
      RootFromParsed(Parsed(imports), y);
    }
    forall p | p in Parsed(imports)
      ensures p.0 in Roots(imports)
    {
      ParsedRoot(Parsed(imports), p);
    }
  }

  lemma RootFromParsed(pairs: seq<(string, string)>, y: string)
    requires y in RootsOf(pairs)
    ensures exists p :: p in pairs && p.0 == y
  {
    MapMembers(pairs, RootPart);
    var k :| 0 <= k < |pairs| && RootPart(pairs[k]) == y;
    assert pairs[k] in pairs;
  }

  lemma ParsedRoot(pairs: seq<(string, string)>, p: (string, string))
    requires p in pairs
    ensures p.0 in RootsOf(pairs)
  {
    var k :| 0 <= k < |pairs| && pairs[k] == p;
    assert RootsOf(pairs)[k] == p.0;
  }

  /** The shape of an emitted statement. */
  datatype UseTree =
    | Single(root: string, path: string)
      /** `use root::{items};` when `prefix` is empty, else
          `use root::prefix::{items};` */
    | Braced(root: string, prefix: string, items: seq<string>)

  /** The statement's text (grouping.rs lines 91, 93, 117-121, 123, 126). */
  function Render(t: UseTree): (r: string)
    ensures StartsWith(r, "use " + t.root)
  {
    match t
    case Single(root, path) =>
      if path == "" then "use " + root + ";" else "use " + root + Sep + path + ";"
    case Braced(root, prefix, items) =>
      var pre := if prefix == "" then "" else prefix + Sep;
      "use " + root + Sep + pre + "{" + Join(items, ", ") + "};"
  }

  /** `strip_prefix(pre).unwrap_or(p)` on every path. */
  function StripEach(paths: seq<string>, pre: string): (r: seq<string>)
    ensures |r| == |paths|
    ensures forall k :: 0 <= k < |paths| ==>
      (StartsWith(paths[k], pre) ==> pre + r[k] == paths[k]) && (!StartsWith(paths[k], pre) ==> r[k] == paths[k])
  {
    seq(|paths|, k requires 0 <= k < |paths| =>
      if StartsWith(paths[k], pre) then paths[k][|pre|..] else paths[k])
  }

  // ---------------------------------------------------------------------
  // find_common_prefix

  /** The `::`-components of every path. */
  function Components(paths: seq<string>): (r: seq<seq<string>>)
    ensures |r| == |paths|
    ensures forall k :: 0 <= k < |paths| ==> r[k] == Split(paths[k], Sep)
  {
    seq(|paths|, k requires 0 <= k < |paths| => Split(paths[k], Sep))
  }

  /** The index of a path with the fewest components. */
  function Shortest(parts: seq<seq<string>>): (i: nat)
    requires |parts| >= 1
    ensures i < |parts|
    ensures forall k :: 0 <= k < |parts| ==> |parts[i]| <= |parts[k]|
  {
    if |parts| == 1 then 0
    else
      var i := Shortest(parts[1..]) + 1;
      assert forall k :: 1 <= k < |parts| ==> parts[k] == parts[1..][k - 1];
      if |parts[0]| <= |parts[i]| then 0 else i
  }

  /** The fewest components of any path. */
  function MinLen(parts: seq<seq<string>>): nat
    requires |parts| >= 1
  {
    |parts[Shortest(parts)]|
  }

  /** All paths have at least `c` components and agree on the first `c`. */
  predicate CommonRun(parts: seq<seq<string>>, c: nat)
    requires |parts| >= 1
  {
    && c <= |parts[0]|
    && forall k :: 0 <= k < |parts| ==> c <= |parts[k]| && forall j :: 0 <= j < c ==> parts[k][j] == parts[0][j]
  }

  /** The loop at grouping.rs lines 198-205: components agreeing from `i`
      on, up to `m`. */
  function CommonCount(parts: seq<seq<string>>, i: nat, m: nat): (c: nat)
    requires |parts| >= 1 && i <= m
    requires forall k :: 0 <= k < |parts| ==> m <= |parts[k]|
    ensures i <= c <= m
    ensures forall j, k :: i <= j < c && 0 <= k < |parts| ==> parts[k][j] == parts[0][j]
    ensures c < m ==> exists k :: 0 <= k < |parts| && parts[k][c] != parts[0][c]
    decreases m - i
  {
    if i < m && forall k :: 0 <= k < |parts| ==> parts[k][i] == parts[0][i] then
      CommonCount(parts, i + 1, m)
    else i
  }

  /** `find_common_prefix`: the leading components all paths share, joined
      with `::`; empty for fewer than two paths. */
  function FindCommonPrefix(paths: seq<string>): (r: string)
    ensures |paths| <= 1 ==> r == ""
  {
    if |paths| <= 1 then "" else PrefixOfParts(Components(paths))
  }

  /** The loop and the join of grouping.rs lines 198-210. */
  function PrefixOfParts(parts: seq<seq<string>>): string
    requires |parts| >= 1
  {
    var c := CommonCount(parts, 0, MinLen(parts));
    if c > 0 then Join(parts[0][..c], Sep) else ""
  }

  /** The agreeing run is downward closed. */
  lemma CommonRunShorter(parts: seq<seq<string>>, c: nat, d: nat)
    requires |parts| >= 1
    ensures CommonRun(parts, c) && d <= c ==> CommonRun(parts, d)
  {
  }

  /** The count the loop stops at is a run of agreeing components. */
  lemma CountIsRun(parts: seq<seq<string>>, m: nat)
    requires |parts| >= 1
    requires forall k :: 0 <= k < |parts| ==> m <= |parts[k]|
    ensures CommonRun(parts, CommonCount(parts, 0, m))
  {
  }

  /** The run the loop stops at cannot be extended. */
  lemma CountStops(parts: seq<seq<string>>, m: nat, s: nat)
    requires s < |parts| && m == |parts[s]|
    requires forall k :: 0 <= k < |parts| ==> m <= |parts[k]|
    ensures !CommonRun(parts, CommonCount(parts, 0, m) + 1)
  {
    var c := CommonCount(parts, 0, m);
    if c < m {
      var k :| 0 <= k < |parts| && parts[k][c] != parts[0][c];
    }
  }

  /** Of two runs that cannot be extended, neither is longer. */
  lemma MaximalRunUnique(parts: seq<seq<string>>, c: nat, d: nat)
    requires |parts| >= 1
    requires CommonRun(parts, c) && !CommonRun(parts, c + 1)
    requires CommonRun(parts, d) && !CommonRun(parts, d + 1)
    ensures c == d
  {
    CommonRunShorter(parts, d, c + 1);
    CommonRunShorter(parts, c, d + 1);
  }

  /** `find_common_prefix` of two or more paths is the longest run of
      leading components they all share: the reference definition. */
  lemma FindCommonPrefixLongest(paths: seq<string>, c: nat)
    requires |paths| >= 2
    requires CommonRun(Components(paths), c) && !CommonRun(Components(paths), c + 1)
    ensures FindCommonPrefix(paths) == Join(Components(paths)[0][..c], Sep)
  {
    var parts := Components(paths);
    CountIsRun(parts, MinLen(parts));
    CountStops(parts, MinLen(parts), Shortest(parts));
    MaximalRunUnique(parts, c, CommonCount(parts, 0, MinLen(parts)));
    assert parts[0][..0] == [];
  }

  // ---------------------------------------------------------------------
  // group_imports as written

  /** The statement for one root, as written (grouping.rs lines 90-127). */
  function GroupTree(root: string, paths: seq<string>): (t: UseTree)
    ensures t.root == root
  {
    if |paths| == 1 then Single(root, paths[0]) else GroupSorted(root, Sort(paths))
  }

  /** The braced statement for two or more sorted paths (grouping.rs lines
      95-126). */
  function GroupSorted(root: string, sorted: seq<string>): (t: UseTree)
    ensures t.Braced? && t.root == root
  {
    var cp := FindCommonPrefix(sorted);
    if cp != "" then
      var pws := if StartsWith(sorted[0], cp + Sep) then cp + Sep else cp;
      var suffixes := StripEach(sorted, pws);
      if EndsWith(pws, Sep) then Braced(root, cp, suffixes) else Braced(root, "", suffixes)
    else Braced(root, "", sorted)
  }

  /** Grouping over one enumeration `order` of the distinct imports (the
      iteration order of the `HashSet` at line 66). */
  function GroupImportsIn(order: seq<string>): (r: seq<string>)
    ensures |r| == |Roots(order)|
    ensures forall k :: 0 <= k < |r| ==> StartsWith(r[k], "use " + Roots(order)[k])
  {
    var roots := Roots(order);
    var pairs := Parsed(order);
    seq(|roots|, k requires 0 <= k < |roots| => Render(GroupTree(roots[k], PathsFor(pairs, roots[k]))))
  }

  /** `group_imports`: one statement per distinct root, in ascending root
      order; no imports give no statements. */
  function GroupImports(imports: seq<string>): (r: seq<string>)
    ensures imports == [] ==> r == []
    ensures |r| == |Roots(imports)|
    ensures forall k :: 0 <= k < |r| ==> StartsWith(r[k], "use " + Roots(imports)[k])
  {
    if imports == [] then []
    else
      var order := SortedSet(imports);
      RootsSameElements(order, imports);
      GroupImportsIn(order)
  }

  /** Two import lists with the same elements have the same roots. */
  lemma RootsSameElements(a: seq<string>, b: seq<string>)
    requires forall y :: y in a <==> y in b
    ensures Roots(a) == Roots(b)
  {
    MapSubset(a, b, ParseImport);
    MapSubset(b, a, ParseImport);
    MapSubset(Parsed(a), Parsed(b), RootPart);
    MapSubset(Parsed(b), Parsed(a), RootPart);
    SortedSetSetInvariant(RootsOf(Parsed(a)), RootsOf(Parsed(b)));
  }

  // ---------------------------------------------------------------------
  // Independence of the enumeration order and of duplicates

  lemma {:induction false} PathsForAppend(a: seq<(string, string)>, b: seq<(string, string)>, root: string)
    ensures PathsFor(a + b, root) == PathsFor(a, root) + PathsFor(b, root)
    decreases |a|
  {
    if a == [] {
      assert a + b == b;
    } else {
      assert (a + b)[0] == a[0] && (a + b)[1..] == a[1..] + b;
      PathsForAppend(a[1..], b, root);
    }
  }

  /** The paths around a deleted parsed import. */
  lemma PathsForRemoveAt(s: seq<(string, string)>, i: nat, root: string)
    requires i < |s|
    ensures PathsFor(s, root) == PathsFor(s[..i], root) + PathsFor([s[i]], root) + PathsFor(s[i + 1..], root)
    ensures PathsFor(s[..i] + s[i + 1..], root) == PathsFor(s[..i], root) + PathsFor(s[i + 1..], root)
  {
    assert s == s[..i] + [s[i]] + s[i + 1..];
    PathsForAppend(s[..i] + [s[i]], s[i + 1..], root);
    PathsForAppend(s[..i], [s[i]], root);
    PathsForAppend(s[..i], s[i + 1..], root);
  }

  /** The paths collected under a root depend only on the multiset of
      parsed imports enumerated. */
  lemma {:induction false} PathsForPermutation(a: seq<(string, string)>, b: seq<(string, string)>, root: string)
    requires multiset(a) == multiset(b)
    ensures multiset(PathsFor(a, root)) == multiset(PathsFor(b, root))
    decreases |a|
  {
    if a == [] {
      assert |b| == |multiset(b)| == 0;
    } else {
      var x := a[0];
      assert x in multiset(b);
      var i :| 0 <= i < |b| && b[i] == x;
      RemoveAt(b, i);
      RemoveAt(a, 0);
      PathsForPermutation(a[1..], b[..i] + b[i + 1..], root);
      PathsForRemoveAt(b, i, root);
      PathsForRemoveAt(a, 0, root);
      assert PathsFor(a[..0], root) == [];
      MultisetSplice(PathsFor(b[..i], root), PathsFor([x], root), PathsFor(b[i + 1..], root),
                     PathsFor(a[..0], root), PathsFor(a[1..], root));
    }
  }

  /** A one-element multiset comes from a one-element sequence. */
  lemma SingletonMultiset(a: seq<string>, b: seq<string>)
    requires multiset(a) == multiset(b) && |a| == 1
    ensures a == b
  {
    assert |b| == |multiset(b)| == 1;
    assert b[0] in multiset(a);
  }

  /** The statement for a root does not depend on the order its paths were
      collected in. */
  lemma GroupTreePermutation(root: string, a: seq<string>, b: seq<string>)
    requires multiset(a) == multiset(b)
    ensures GroupTree(root, a) == GroupTree(root, b)
  {
    assert |a| == |multiset(a)|;
    assert |b| == |multiset(b)|;
    if |a| == 1 {
      SingletonMultiset(a, b);
    } else {
      SortPermutationInvariant(a, b);
    }
  }

  /** Whatever order the set of distinct imports is enumerated in, grouping
      gives the same statements. */
  lemma GroupImportsAnyOrder(imports: seq<string>, order: seq<string>)
    requires imports != []
    requires NoDup(order) && forall y :: y in order <==> y in imports
    ensures GroupImportsIn(order) == GroupImports(imports)
  {
    var canon := SortedSet(imports);
    StrictlySortedNoDup(canon);
    NoDupPermutation(order, canon);
    MapPermutation(order, canon, ParseImport);
    RootsSameElements(order, canon);
    var roots := Roots(order);
    forall k | 0 <= k < |roots|
      ensures GroupTree(roots[k], PathsFor(Parsed(order), roots[k])) == GroupTree(roots[k], PathsFor(Parsed(canon), roots[k]))
    {
      PathsForPermutation(Parsed(order), Parsed(canon), roots[k]);
      GroupTreePermutation(roots[k], PathsFor(Parsed(order), roots[k]), PathsFor(Parsed(canon), roots[k]));
    }
  }

  /** Grouping depends only on the set of imports: duplicates and input
      order make no difference. */
  lemma GroupImportsSetOnly(a: seq<string>, b: seq<string>)
    requires forall y :: y in a <==> y in b
    ensures GroupImports(a) == GroupImports(b)
  {
    assert |a| > 0 ==> a[0] in b;
    assert |b| > 0 ==> b[0] in a;
    if a != [] {
      SortedSetSetInvariant(a, b);
    }
  }

  // ---------------------------------------------------------------------
  // A single import is emitted unchanged

  /** The body of a well-formed `use <body>;` statement: trimmed, not
      itself starting with `use `, not ending with `;` or `::`. */
  predicate WellFormedBody(t: string) {
    && (t == [] || (!IsWhitespace(t[0]) && !IsWhitespace(t[|t| - 1])))
    && !StartsWith(t, "use ")
    && (t == [] || t[|t| - 1] != ';')
    && !EndsWith(t, Sep)
  }

  lemma StrippedWellFormed(t: string)
    requires WellFormedBody(t)
    ensures Stripped("use " + t + ";") == t
  {
    DropUse(t);
    DropSemicolon(t);
    TrimIdentity(t);
  }

  /** The leading `use ` goes, once, when the body does not start with it. */
  lemma DropUse(t: string)
    requires !StartsWith(t, "use ")
    ensures TrimStartMatches("use " + t + ";", "use ") == t + ";"
  {
    var raw := "use " + t + ";";
    assert raw[..4] == "use ";
    assert raw[4..] == t + ";";
    assert !StartsWith(t + ";", "use ") by {
      if |t| >= 4 {
        assert (t + ";")[..4] == t[..4];
      } else if |t| == 3 {
        assert (t + ";")[3] == ';';
      }
    }
  }

  /** The trailing `;` goes when the body does not end with one. */
  lemma DropSemicolon(t: string)
    requires t == [] || t[|t| - 1] != ';'
    ensures TrimEndMatches(t + ";", ';') == t
  {
    assert (t + ";")[..|t|] == t;
  }

  /** A lone well-formed import comes back as it went in. */
  lemma SingleImportRoundTrip(t: string)
    requires WellFormedBody(t)
    ensures GroupImports(["use " + t + ";"]) == ["use " + t + ";"]
  {
    var raw := "use " + t + ";";
    StrippedWellFormed(t);
    var pair := SplitRoot(t);
    assert ParseImport(raw) == pair;
    MapSingle(raw, ParseImport);
    SinglePair(pair);
    assert SortedSet([raw]) == [raw];
    SplitRootRender(t);
  }

  /** One parsed import gives one root, holding its one path. */
  lemma SinglePair(pair: (string, string))
    ensures RootsOf([pair]) == [pair.0]
    ensures SortedSet([pair.0]) == [pair.0]
    ensures PathsFor([pair], pair.0) == [pair.1]
  {
    MapSingle(pair, RootPart);
    StrictlySortedUnique(SortedSet([pair.0]), [pair.0]);
  }

  /** The path after the first `::` is empty only when the statement ends
      with `::`. */
  lemma SplitRootEmptyPath(t: string)
    requires Contains(t, Sep)
    ensures SplitRoot(t).1 == "" ==> EndsWith(t, Sep)
  {
    SplitRootSpec(t);
    var (root, path) := SplitRoot(t);
    assert path == "" ==> root + Sep == t;
  }

  /** A statement body that does not end with `::` is rebuilt from its
      root and path. */
  lemma SplitRootRender(t: string)
    requires !EndsWith(t, Sep)
    ensures Render(Single(SplitRoot(t).0, SplitRoot(t).1)) == "use " + t + ";"
  {
    SplitRootSpec(t);
    var (root, path) := SplitRoot(t);
    if Contains(t, Sep) {
      SplitRootEmptyPath(t);
      RenderJoined(root, path, t);
    }
  }

  lemma RenderJoined(root: string, path: string, t: string)
    requires root + Sep + path == t && path != ""
    ensures Render(Single(root, path)) == "use " + t + ";"
  {
  }

  // ---------------------------------------------------------------------
  // What a statement imports, and the corrected grouping

  /** The item `path` under `root`; an empty path is the root itself. */
  function FullPath(root: string, path: string): string {
    if path == "" then root else root + Sep + path
  }

  /** What one braced item imports: `self` names the prefix itself. */
  function ItemPath(root: string, prefix: string, item: string): string {
    if item == "self" then FullPath(root, prefix)
    else if prefix == "" then FullPath(root, item)
    else FullPath(root, prefix + Sep + item)
  }

  /** The full paths a statement imports. */
  function Meaning(t: UseTree): (r: seq<string>)
    ensures t.Single? ==> |r| == 1
    ensures t.Braced? ==> |r| == |t.items|
  {
    match t
    case Single(root, path) => [FullPath(root, path)]
    case Braced(root, prefix, items) =>
      seq(|items|, k requires 0 <= k < |items| => ItemPath(root, prefix, items[k]))
  }

  /** Rust accepts the statement: no braced item is empty. */
  predicate WellFormedTree(t: UseTree) {
    t.Braced? ==> forall k :: 0 <= k < |t.items| ==> t.items[k] != ""
  }

  /** The statement the source emits for `use std::fs;` with
      `use std::fs::read;`: the path equal to the common prefix loses its
      name, so the statement is `use std::{, ::read};`. */
  lemma GroupTreeLosesPrefixPath()
    ensures GroupTree("std", ["fs", "fs::read"]) == Braced("std", "", ["", "::read"])
    ensures Render(GroupTree("std", ["fs", "fs::read"])) == "use std::{, ::read};"
    ensures !WellFormedTree(GroupTree("std", ["fs", "fs::read"]))
  {
    SortFsRead();
    GroupSortedFsRead();
    RenderFsRead();
  }

  lemma GroupSortedFsRead()
    ensures GroupSorted("std", ["fs", "fs::read"]) == Braced("std", "", ["", "::read"])
  {
    var paths := ["fs", "fs::read"];
    PrefixFsRead();
    assert !StartsWith("fs", "fs::");
    assert StripEach(paths, "fs") == ["", "::read"] by {
      assert StartsWith("fs", "fs") && "fs"[2..] == "";
      assert StartsWith("fs::read", "fs") && "fs::read"[2..] == "::read";
    }
    assert !EndsWith("fs", Sep);
  }

  lemma RenderFsRead()
    ensures Render(Braced("std", "", ["", "::read"])) == "use std::{, ::read};"
  {
    assert Join(["", "::read"], ", ") == ", ::read" by {
      JoinCons("", ["::read"], ", ");
    }
  }

  lemma SortFsRead()
    ensures Sort(["fs", "fs::read"]) == ["fs", "fs::read"]
  {
    var paths := ["fs", "fs::read"];
    assert Less("fs", "fs::read") by {
      assert "fs"[1..] == "s" && "fs::read"[1..] == "s::read";
      assert "s"[1..] == "" && "s::read"[1..] == "::read";
    }
    LessAsymmetric("fs", "fs::read");
    assert Sorted(paths);
    SortedUnique(Sort(paths), paths);
  }

  lemma PrefixFsRead()
    ensures FindCommonPrefix(["fs", "fs::read"]) == "fs"
  {
    var paths := ["fs", "fs::read"];
    SplitFs();
    SplitFsRead();
    var parts := Components(paths);
    assert parts == [["fs"], ["fs", "read"]];
    assert Shortest(parts) == 0;
    assert MinLen(parts) == 1;
    assert CommonCount(parts, 1, 1) == 1;
    assert CommonCount(parts, 0, 1) == 1;
    assert parts[0][..1] == ["fs"];
  }

  lemma SplitFs()
    ensures Split("fs", Sep) == ["fs"]
  {
    assert FindFrom("fs", Sep, 1) == None;
    assert "fs"[0..2] != Sep by { assert "fs"[0..2][0] == 'f'; }
    assert FindFrom("fs", Sep, 0) == None;
    SplitUnfold("fs", Sep);
  }

  lemma FindRead()
    ensures Find("read", Sep) == None
  {
    assert FindFrom("read", Sep, 3) == None;
    assert "read"[2..4] != Sep by { assert "read"[2..4][0] == 'a'; }
    assert FindFrom("read", Sep, 2) == None;
    assert "read"[1..3] != Sep by { assert "read"[1..3][0] == 'e'; }
    assert FindFrom("read", Sep, 1) == None;
    assert "read"[0..2] != Sep by { assert "read"[0..2][0] == 'r'; }
    assert FindFrom("read", Sep, 0) == None;
  }

  lemma FindFsRead()
    ensures Find("fs::read", Sep) == Some(2)
  {
    assert "fs::read"[2..4] == Sep;
    assert FindFrom("fs::read", Sep, 2) == Some(2);
    assert "fs::read"[1..3] != Sep by { assert "fs::read"[1..3][0] == 's'; }
    assert FindFrom("fs::read", Sep, 1) == Some(2);
    assert "fs::read"[0..2] != Sep by { assert "fs::read"[0..2][0] == 'f'; }
    assert FindFrom("fs::read", Sep, 0) == Some(2);
  }

  lemma SplitFsRead()
    ensures Split("fs::read", Sep) == ["fs", "read"]
  {
    FindFsRead();
    FindRead();
    SplitUnfold("fs::read", Sep);
    SplitUnfold("read", Sep);
    assert "fs::read"[..2] == "fs" && "fs::read"[4..] == "read";
  }

  /** The corrected statement for one root: duplicate paths collapse, the
      common prefix is factored out only when every path extends it, and an
      empty path is written `self`. */
  function GroupTreeFixed(root: string, paths: seq<string>): (t: UseTree)
    ensures t.root == root
  {
    GroupDistinct(root, SortedSet(paths))
  }

  /** The corrected statement for distinct sorted paths. */
  function GroupDistinct(root: string, ps: seq<string>): (t: UseTree)
    ensures t.root == root
  {
    if |ps| == 1 then Single(root, ps[0])
    else
      var cp := FindCommonPrefix(ps);
      if cp != "" && forall k :: 0 <= k < |ps| ==> StartsWith(ps[k], cp + Sep) then
        Braced(root, cp, seq(|ps|, k requires 0 <= k < |ps| && StartsWith(ps[k], cp + Sep) => ps[k][|cp| + 2..]))
      else
        Braced(root, "", seq(|ps|, k requires 0 <= k < |ps| => if ps[k] == "" then "self" else ps[k]))
  }

  /** A path a `use` statement can name as an item: not `self` and not
      ending with `::self` or `::`. */
  predicate PlainPath(p: string) {
    p != "self" && !EndsWith(p, "::self") && !EndsWith(p, Sep)
  }

  /** Item by item, the corrected statement imports the paths it was given,
      and no item is empty. */
  lemma GroupDistinctMeaning(root: string, ps: seq<string>)
    requires |ps| >= 1
    requires forall k :: 0 <= k < |ps| ==> PlainPath(ps[k])
    ensures WellFormedTree(GroupDistinct(root, ps))
    ensures |Meaning(GroupDistinct(root, ps))| == |ps|
    ensures forall j :: 0 <= j < |ps| ==> Meaning(GroupDistinct(root, ps))[j] == FullPath(root, ps[j])
  {
    if |ps| > 1 {
      var cp := FindCommonPrefix(ps);
      if cp != "" && forall k :: 0 <= k < |ps| ==> StartsWith(ps[k], cp + Sep) {
        var items := seq(|ps|, k requires 0 <= k < |ps| && StartsWith(ps[k], cp + Sep) => ps[k][|cp| + 2..]);
        assert GroupDistinct(root, ps) == Braced(root, cp, items);
        PrefixedMeaning(root, cp, ps, items);
      } else {
        var items := seq(|ps|, k requires 0 <= k < |ps| => if ps[k] == "" then "self" else ps[k]);
        assert GroupDistinct(root, ps) == Braced(root, "", items);
        FallbackMeaning(root, ps, items);
      }
    }
  }

  /** Items cut after a common `prefix::` import their paths. */
  lemma PrefixedMeaning(root: string, cp: string, ps: seq<string>, items: seq<string>)
    requires cp != "" && |items| == |ps|
    requires forall k :: 0 <= k < |ps| ==> PlainPath(ps[k])
    requires forall k :: 0 <= k < |ps| ==> StartsWith(ps[k], cp + Sep) && items[k] == ps[k][|cp| + 2..]
    ensures WellFormedTree(Braced(root, cp, items))
    ensures forall j :: 0 <= j < |ps| ==> Meaning(Braced(root, cp, items))[j] == FullPath(root, ps[j])
  {
    var m := Meaning(Braced(root, cp, items));
    forall j | 0 <= j < |ps|
      ensures m[j] == FullPath(root, ps[j]) && items[j] != ""
    {
      PrefixedItem(ps[j], cp, items[j]);
    }
  }

  /** Whole paths as items, the empty path written `self`, import their
      paths. */
  lemma FallbackMeaning(root: string, ps: seq<string>, items: seq<string>)
    requires |items| == |ps|
    requires forall k :: 0 <= k < |ps| ==> PlainPath(ps[k])
    requires forall k :: 0 <= k < |ps| ==> items[k] == if ps[k] == "" then "self" else ps[k]
    ensures WellFormedTree(Braced(root, "", items))
    ensures forall j :: 0 <= j < |ps| ==> Meaning(Braced(root, "", items))[j] == FullPath(root, ps[j])
  {
  }

  /** A path written as `prefix::item` names the same path; its item is
      empty or `self` only when the path ends with `::` or `::self`. */
  lemma PrefixedItem(p: string, cp: string, item: string)
    requires StartsWith(p, cp + Sep) && item == p[|cp| + 2..]
    ensures cp + Sep + item == p
    ensures item == "" ==> EndsWith(p, Sep)
    ensures item == "self" ==> EndsWith(p, "::self")
  {
    assert (cp + Sep) + item == p;
    if item == "self" {
      assert p == cp + "::self";
    }
  }

  /** The corrected statement is well formed and imports exactly the paths
      it was given. */
  lemma GroupTreeFixedMeaning(root: string, paths: seq<string>)
    requires |paths| >= 1
    requires forall p :: p in paths ==> PlainPath(p)
    ensures WellFormedTree(GroupTreeFixed(root, paths))
    ensures forall p :: p in paths ==> FullPath(root, p) in Meaning(GroupTreeFixed(root, paths))
    ensures forall y :: y in Meaning(GroupTreeFixed(root, paths)) ==>
      exists p :: p in paths && y == FullPath(root, p)
  {
    var ps := SortedSet(paths);
    assert paths[0] in ps;
    forall j | 0 <= j < |ps|
      ensures PlainPath(ps[j])
    {
      assert ps[j] in paths;
    }
    GroupDistinctMeaning(root, ps);
    var m := Meaning(GroupTreeFixed(root, paths));
    forall y | y in m
      ensures exists p :: p in paths && y == FullPath(root, p)
    {
      var j :| 0 <= j < |m| && m[j] == y;
      assert ps[j] in paths;
    }
    forall p | p in paths
      ensures FullPath(root, p) in m
    {
      var j :| 0 <= j < |ps| && ps[j] == p;
      assert m[j] == FullPath(root, p);
    }
  }

  /** Corrected grouping: one statement per root that imports exactly its
      paths. */
  function GroupImportsFixed(imports: seq<string>): (r: seq<string>)
    ensures imports == [] ==> r == []
    ensures |r| == |Roots(imports)|
    ensures forall k :: 0 <= k < |r| ==> StartsWith(r[k], "use " + Roots(imports)[k])
  {
    var roots := Roots(imports);
    var pairs := Parsed(imports);
    seq(|roots|, k requires 0 <= k < |roots| => Render(GroupTreeFixed(roots[k], PathsFor(pairs, roots[k]))))
  }

  /** The paths collected under a root are those paired with it. */
  lemma {:induction false} PathsForMembers(pairs: seq<(string, string)>, root: string)
    ensures forall p :: p in PathsFor(pairs, root) <==> (root, p) in pairs
    decreases |pairs|
  {
    if pairs != [] {
      PathsForMembers(pairs[1..], root);
      assert pairs == [pairs[0]] + pairs[1..];
    }
  }

  /** The corrected statement for a root imports exactly the full paths of
      the imports with that root. */
  lemma GroupImportsFixedMeaning(imports: seq<string>, k: nat)
    requires k < |Roots(imports)|
    requires forall p :: p in Parsed(imports) ==> PlainPath(p.1)
    ensures WellFormedTree(GroupTreeFixed(Roots(imports)[k], PathsFor(Parsed(imports), Roots(imports)[k])))
    ensures forall p :: p in Parsed(imports) && p.0 == Roots(imports)[k] ==>
      FullPath(p.0, p.1) in Meaning(GroupTreeFixed(Roots(imports)[k], PathsFor(Parsed(imports), Roots(imports)[k])))
    ensures forall y :: y in Meaning(GroupTreeFixed(Roots(imports)[k], PathsFor(Parsed(imports), Roots(imports)[k]))) ==>
      exists p :: p in Parsed(imports) && p.0 == Roots(imports)[k] && y == FullPath(p.0, p.1)
  {
    var root := Roots(imports)[k];
    RootsMembers(imports);
    assert root in Roots(imports);
    var p0 :| p0 in Parsed(imports) && p0.0 == root;
    CollectedMeaning(Parsed(imports), root, p0);
  }

  /** The same for any list of parsed imports holding the root. */
  lemma CollectedMeaning(pairs: seq<(string, string)>, root: string, p0: (string, string))
    requires p0 in pairs && p0.0 == root
    requires forall p :: p in pairs ==> PlainPath(p.1)
    ensures WellFormedTree(GroupTreeFixed(root, PathsFor(pairs, root)))
    ensures forall p :: p in pairs && p.0 == root ==> FullPath(p.0, p.1) in Meaning(GroupTreeFixed(root, PathsFor(pairs, root)))
    ensures forall y :: y in Meaning(GroupTreeFixed(root, PathsFor(pairs, root))) ==>
      exists p :: p in pairs && p.0 == root && y == FullPath(p.0, p.1)
  {
    var paths := PathsFor(pairs, root);
    PathsForMembers(pairs, root);
    assert p0 == (root, p0.1);
    assert |paths| >= 1 by {
      assert p0.1 in paths;
    }
    forall q | q in paths
      ensures PlainPath(q)
    {
      assert (root, q) in pairs;
    }
    GroupTreeFixedMeaning(root, paths);
    forall p | p in pairs && p.0 == root
      ensures FullPath(p.0, p.1) in Meaning(GroupTreeFixed(root, paths))
    {
      assert p == (root, p.1);
      assert p.1 in paths;
    }
    forall y | y in Meaning(GroupTreeFixed(root, paths))
      ensures exists p :: p in pairs && p.0 == root && y == FullPath(p.0, p.1)
    {
      var q :| q in paths && y == FullPath(root, q);
      assert (root, q) in pairs;
    }
  }

  // ---------------------------------------------------------------------
  // What the as-written statement imports

  /** With no common prefix the sorted paths are braced whole
      (grouping.rs line 126): each item other than `self` imports its own
      path, and the statement is well formed exactly when no path is
      empty. */
  lemma GroupSortedNoPrefix(root: string, sorted: seq<string>)
    requires FindCommonPrefix(sorted) == ""
    ensures GroupSorted(root, sorted) == Braced(root, "", sorted)
    ensures forall j :: 0 <= j < |sorted| && sorted[j] != "self" ==>
      Meaning(GroupSorted(root, sorted))[j] == FullPath(root, sorted[j])
    ensures WellFormedTree(GroupSorted(root, sorted)) <==> forall j :: 0 <= j < |sorted| ==> sorted[j] != ""
  {
  }

  /** When every path extends the common prefix by `::`, the prefix is
      factored out (grouping.rs lines 98-120): `use syn::visit::{..};`
      with each item the rest of its path, and for plain paths the items
      import exactly the sorted paths, in order. */
  lemma GroupSortedPrefixed(root: string, sorted: seq<string>)
    requires FindCommonPrefix(sorted) != ""
    requires forall k :: 0 <= k < |sorted| ==> StartsWith(sorted[k], FindCommonPrefix(sorted) + Sep)
    ensures GroupSorted(root, sorted) ==
      Braced(root, FindCommonPrefix(sorted), StripEach(sorted, FindCommonPrefix(sorted) + Sep))
    ensures (forall k :: 0 <= k < |sorted| ==> PlainPath(sorted[k])) ==>
      && WellFormedTree(GroupSorted(root, sorted))
      && forall j :: 0 <= j < |sorted| ==> Meaning(GroupSorted(root, sorted))[j] == FullPath(root, sorted[j])
  {
    var cp := FindCommonPrefix(sorted);
    var items := StripEach(sorted, cp + Sep);
    assert |sorted| >= 2;
    assert StartsWith(sorted[0], cp + Sep);
    assert EndsWith(cp + Sep, Sep);
    if forall k :: 0 <= k < |sorted| ==> PlainPath(sorted[k]) {
      forall k | 0 <= k < |sorted|
        ensures items[k] == sorted[k][|cp| + 2..]
      {
      }
      PrefixedMeaning(root, cp, sorted, items);
    }
  }

  /** The paths of one root for which the as-written grouping is sound: a
      single path, or several with no common prefix and none empty, or
      several all extending their common prefix by `::`. It fails exactly
      when a path equals the common prefix or is empty. */
  predicate GroupsCleanly(paths: seq<string>) {
    || |paths| == 1
    || (FindCommonPrefix(Sort(paths)) == "" && forall p :: p in paths ==> p != "")
    || (FindCommonPrefix(Sort(paths)) != "" && forall p :: p in paths ==> StartsWith(p, FindCommonPrefix(Sort(paths)) + Sep))
  }

  /** On sorted paths that group cleanly, item by item the statement
      imports the paths. */
  lemma CleanSortedMeaning(root: string, s: seq<string>)
    requires forall j :: 0 <= j < |s| ==> PlainPath(s[j])
    requires
      || (FindCommonPrefix(s) == "" && forall j :: 0 <= j < |s| ==> s[j] != "")
      || (FindCommonPrefix(s) != "" && forall j :: 0 <= j < |s| ==> StartsWith(s[j], FindCommonPrefix(s) + Sep))
    ensures WellFormedTree(GroupSorted(root, s))
    ensures |Meaning(GroupSorted(root, s))| == |s|
    ensures forall j :: 0 <= j < |s| ==> Meaning(GroupSorted(root, s))[j] == FullPath(root, s[j])
  {
    if FindCommonPrefix(s) == "" {
      GroupSortedNoPrefix(root, s);
    } else {
      GroupSortedPrefixed(root, s);
    }
  }

  lemma SortMembers(paths: seq<string>)
    ensures forall p :: p in Sort(paths) <==> p in paths
  {
    var s := Sort(paths);
    forall p
      ensures p in s <==> p in paths
    {
      assert p in s <==> p in multiset(s);
      assert p in paths <==> p in multiset(paths);
    }
  }

  /** Sorting keeps the paths, so it keeps them clean. */
  lemma CleanSorted(paths: seq<string>)
    requires |paths| > 1
    requires forall p :: p in paths ==> PlainPath(p)
    requires GroupsCleanly(paths)
    ensures forall j :: 0 <= j < |Sort(paths)| ==> Sort(paths)[j] in paths && PlainPath(Sort(paths)[j])
    ensures
      var s := Sort(paths);
      || (FindCommonPrefix(s) == "" && forall j :: 0 <= j < |s| ==> s[j] != "")
      || (FindCommonPrefix(s) != "" && forall j :: 0 <= j < |s| ==> StartsWith(s[j], FindCommonPrefix(s) + Sep))
  {
    var s := Sort(paths);
    SortMembers(paths);
    var cp := FindCommonPrefix(s);
    forall j | 0 <= j < |s|
      ensures s[j] in paths && PlainPath(s[j])
    {
      assert s[j] in s;
    }
    if cp == "" {
      assert forall p :: p in paths ==> p != "";
    } else {
      assert forall p :: p in paths ==> StartsWith(p, cp + Sep);
    }
  }

  /** On paths it groups cleanly, the as-written statement is well formed
      and imports exactly the paths it was given. */
  lemma GroupTreeMeaning(root: string, paths: seq<string>)
    requires |paths| >= 1
    requires forall p :: p in paths ==> PlainPath(p)
    requires GroupsCleanly(paths)
    ensures WellFormedTree(GroupTree(root, paths))
    ensures forall p :: p in paths ==> FullPath(root, p) in Meaning(GroupTree(root, paths))
    ensures forall y :: y in Meaning(GroupTree(root, paths)) ==> exists p :: p in paths && y == FullPath(root, p)
  {
    if |paths| > 1 {
      var s := Sort(paths);
      CleanSorted(paths);
      CleanSortedMeaning(root, s);
      SortMembers(paths);
      PathwiseMembers(root, Meaning(GroupSorted(root, s)), s, paths);
    }
  }

  /** A statement importing `s` item by item imports exactly the members of
      `paths` when the two hold the same paths. */
  lemma PathwiseMembers(root: string, m: seq<string>, s: seq<string>, paths: seq<string>)
    requires |m| == |s|
    requires forall j :: 0 <= j < |s| ==> m[j] == FullPath(root, s[j])
    requires forall p :: p in s <==> p in paths
    ensures forall p :: p in paths ==> FullPath(root, p) in m
    ensures forall y :: y in m ==> exists p :: p in paths && y == FullPath(root, p)
  {
    forall p | p in paths
      ensures FullPath(root, p) in m
    {
      var j :| 0 <= j < |s| && s[j] == p;
      assert m[j] == FullPath(root, p);
    }
    forall y | y in m
      ensures exists p :: p in paths && y == FullPath(root, p)
    {
      var j :| 0 <= j < |m| && m[j] == y;
      assert s[j] in paths;
    }
  }

  /** The distinct imports enumerate the same parsed pairs as all of them. */
  lemma ParsedDistinct(imports: seq<string>)
    ensures forall p :: p in Parsed(SortedSet(imports)) <==> p in Parsed(imports)
    ensures Roots(SortedSet(imports)) == Roots(imports)
  {
    var order := SortedSet(imports);
    MapSubset(order, imports, ParseImport);
    MapSubset(imports, order, ParseImport);
    RootsSameElements(order, imports);
  }

  /** `group_imports` as written: the statement for a root whose paths it
      groups cleanly is well formed and imports exactly the full paths of
      the imports with that root. */
  lemma GroupImportsMeaning(imports: seq<string>, k: nat)
    requires k < |Roots(imports)|
    requires forall p :: p in Parsed(imports) ==> PlainPath(p.1)
    requires GroupsCleanly(PathsFor(Parsed(SortedSet(imports)), Roots(imports)[k]))
    ensures GroupImports(imports)[k] == Render(GroupTree(Roots(imports)[k], PathsFor(Parsed(SortedSet(imports)), Roots(imports)[k])))
    ensures WellFormedTree(GroupTree(Roots(imports)[k], PathsFor(Parsed(SortedSet(imports)), Roots(imports)[k])))
    ensures forall p :: p in Parsed(imports) && p.0 == Roots(imports)[k] ==>
      FullPath(p.0, p.1) in Meaning(GroupTree(Roots(imports)[k], PathsFor(Parsed(SortedSet(imports)), Roots(imports)[k])))
    ensures forall y :: y in Meaning(GroupTree(Roots(imports)[k], PathsFor(Parsed(SortedSet(imports)), Roots(imports)[k]))) ==>
      exists p :: p in Parsed(imports) && p.0 == Roots(imports)[k] && y == FullPath(p.0, p.1)
  {
    var root := Roots(imports)[k];
    var pairs := Parsed(SortedSet(imports));
    var paths := PathsFor(pairs, root);
    ParsedDistinct(imports);
    RootsMembers(imports);
    assert root in Roots(imports);
    var p0 :| p0 in Parsed(imports) && p0.0 == root;
    PathsForMembers(pairs, root);
    assert p0 == (root, p0.1);
    assert |paths| >= 1 by {
      assert p0.1 in paths;
    }
    forall q | q in paths
      ensures PlainPath(q)
    {
      assert (root, q) in pairs;
    }
    GroupTreeMeaning(root, paths);
    forall p | p in Parsed(imports) && p.0 == root
      ensures FullPath(p.0, p.1) in Meaning(GroupTree(root, paths))
    {
      assert p == (root, p.1);
      assert p.1 in paths;
    }
    forall y | y in Meaning(GroupTree(root, paths))
      ensures exists p :: p in Parsed(imports) && p.0 == root && y == FullPath(p.0, p.1)
    {
      var q :| q in paths && y == FullPath(root, q);
      assert (root, q) in pairs;
    }
  }
}
