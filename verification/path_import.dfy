/** The `path_import` analyzer: a path such as `std::fs::read_to_string`
    used inline where an import would do. The syntax tree only supplies each
    path expression's identifier segments and position; the decision and
    the issue are computed from those. Character classes are ASCII. */
module PathImport {
  import opened Text
  import opened Issues

  const Name: string := "path_import"
  const Separator: string := "::"

  predicate IsUpper(c: char) {
    'A' <= c <= 'Z'
  }

  predicate IsLower(c: char) {
    'a' <= c <= 'z'
  }

  predicate IsNumeric(c: char) {
    '0' <= c <= '9'
  }

  /** `is_screaming_snake_case`: upper-case letters, `_` and digits only,
      which the empty name satisfies. */
  predicate IsScreamingSnake(s: string) {
    forall i :: 0 <= i < |s| ==> IsUpper(s[i]) || s[i] == '_' || IsNumeric(s[i])
  }

  /** `is_stdlib_root` */
  predicate IsStdlibRoot(name: string) {
    name == "std" || name == "core" || name == "alloc"
  }

  /** The name starts with an upper-case letter. */
  predicate StartsUpper(name: string) {
    name != [] && IsUpper(name[0])
  }

  /** `should_extract_to_import`, branch by branch: at least two segments; a
      first segment that is not empty and does not start upper-case; a last
      segment that is not a constant, not empty and not upper-case; a
      second-to-last segment that is not a type; and then either a standard
      library root or three or more segments starting lower-case. */
  predicate ShouldExtract(segments: seq<string>) {
    if |segments| < 2 then false
    else
      var first := segments[0];
      var last := segments[|segments| - 1];
      if first == [] || IsUpper(first[0]) then false
      else if IsScreamingSnake(last) then false
      else if last == [] || IsUpper(last[0]) then false
      else if StartsUpper(segments[|segments| - 2]) then false
      else if IsStdlibRoot(first) then true
      else |segments| >= 3 && IsLower(first[0])
  }

  /** A path the analyzer flags names a free function: it has a module
      part, its last segment is not a constant, and neither the last
      segment, the one before it nor the root is a type. */
  lemma FlaggedIsFunctionPath(segments: seq<string>)
    requires ShouldExtract(segments)
    ensures |segments| >= 2 && !IsScreamingSnake(segments[|segments| - 1])
    ensures !StartsUpper(segments[0]) && !StartsUpper(segments[|segments| - 1]) && !StartsUpper(segments[|segments| - 2])
  {
  }

  /** Two-segment paths are flagged only under a standard library root:
      `std::mem` is, `fs::read` is not. */
  lemma TwoSegments(root: string, name: string)
    ensures ShouldExtract([root, name]) ==> IsStdlibRoot(root)
    ensures IsStdlibRoot(root) && !IsScreamingSnake(name) && !StartsUpper(name) ==> ShouldExtract([root, name])
  {
  }

  /** Putting a lower-case module in front of a flagged path keeps it
      flagged: the path grows to three or more segments and its end stays
      the same. */
  lemma {:induction false} PrefixModule(m: string, segments: seq<string>)
    requires m != [] && IsLower(m[0])
    requires ShouldExtract(segments)
    ensures ShouldExtract([m] + segments)
  {
    var p := [m] + segments;
    assert p[|p| - 1] == segments[|segments| - 1];
    assert p[|p| - 2] == segments[|segments| - 2];
    assert !IsUpper(m[0]);
  }

  /** Paths through a type, an enum variant or a constant are never
      flagged, whatever their root. */
  lemma TypePathsKept(a: string, b: string, c: string)
    ensures StartsUpper(b) ==> !ShouldExtract([a, b, c])
    ensures IsScreamingSnake(c) ==> !ShouldExtract([a, b, c])
    ensures StartsUpper(a) ==> !ShouldExtract([a, b])
  {
  }

  /** The flagged examples of the analyzer's documentation and the
      unflagged ones beside them. */
  lemma Examples()
    ensures ShouldExtract(["std", "fs", "read_to_string"])
    ensures ShouldExtract(["core", "mem", "size_of"])
    ensures ShouldExtract(["alloc", "format", "format"])
    ensures !ShouldExtract(["fs", "read"])
    ensures !ShouldExtract(["Vec", "new"])
    ensures !ShouldExtract(["u32", "MAX"])
    ensures !ShouldExtract(["f64", "consts", "PI"])
    ensures !ShouldExtract(["std", "collections", "HashMap", "new"])
    ensures !ShouldExtract(["some", "module", "MAX_VALUE"])
  {
    LowerNotScreaming("read_to_string");
    LowerNotScreaming("size_of");
    LowerNotScreaming("format");
    assert IsScreamingSnake("MAX");
    assert IsScreamingSnake("PI");
    assert IsScreamingSnake("MAX_VALUE");
  }

  /** A name starting lower-case is not a constant. */
  lemma LowerNotScreaming(s: string)
    requires s != [] && IsLower(s[0])
    ensures !IsScreamingSnake(s)
  {
  }

  /** One path expression as the syntax tree reports it. */
  datatype PathUse = PathUse(segments: seq<string>, line: nat, column: nat)

  /** The issue `check_path` raises: the path spelled out as the import and
      as the pattern to replace, its last segment as the replacement. */
  function PathIssue(p: PathUse): (i: Issue)
    ensures i.line == p.line && i.column == p.column && i.fix.WithImport?
  {
    var pattern := Join(p.segments, Separator);
    var last := if p.segments == [] then "" else p.segments[|p.segments| - 1];
    Issue(p.line, p.column, "Use import instead of path: " + pattern,
          WithImport("use " + pattern + ";", pattern, last))
  }

  /** Joining a list of two or more segments ends with the separator and
      the last segment. */
  lemma {:induction false} JoinLast(parts: seq<string>, sep: string)
    requires |parts| >= 2
    ensures Join(parts, sep) == Join(parts[..|parts| - 1], sep) + sep + parts[|parts| - 1]
    decreases |parts|
  {
    if |parts| > 2 {
      JoinLast(parts[1..], sep);
      assert parts[1..][..|parts| - 2] == parts[..|parts| - 1][1..];
      assert parts[1..][|parts| - 2] == parts[|parts| - 1];
    } else {
      assert parts[..1] == [parts[0]];
      assert parts[1..] == [parts[1]];
    }
  }

  /** The fix of a flagged path is consistent: the pattern is the module
      path, then `::`, then the replacement, so replacing the pattern with
      the replacement leaves the name the import brings in scope; the
      import statement names the whole pattern, and so does the message. */
  lemma PathFixConsistent(p: PathUse)
    requires ShouldExtract(p.segments)
    ensures var f := PathIssue(p).fix;
            && f.replacement == p.segments[|p.segments| - 1]
            && f.pattern == Join(p.segments[..|p.segments| - 1], Separator) + Separator + f.replacement
            && f.importStmt == "use " + f.pattern + ";"
            && EndsWith(PathIssue(p).message, f.pattern)
  {
    JoinLast(p.segments, Separator);
  }

  /** The issues the visitor pushes for the paths of one file, in visiting
      order. */
  function PathIssues(paths: seq<PathUse>): (r: seq<Issue>)
    ensures |r| <= |paths|
    ensures forall k :: 0 <= k < |r| ==> r[k].fix.WithImport?
  {
    if paths == [] then []
    else (if ShouldExtract(paths[0].segments) then [PathIssue(paths[0])] else []) + PathIssues(paths[1..])
  }

  /** Each flagged path has its issue, and each issue belongs to a flagged
      path. */
  lemma {:induction false} PathIssuesExact(paths: seq<PathUse>)
    ensures forall p :: p in paths && ShouldExtract(p.segments) ==> PathIssue(p) in PathIssues(paths)
    ensures forall i :: i in PathIssues(paths) ==> exists p :: p in paths && ShouldExtract(p.segments) && i == PathIssue(p)
    decreases |paths|
  {
    if paths != [] {
      PathIssuesExact(paths[1..]);
      assert forall p :: p in paths <==> p == paths[0] || p in paths[1..];
    }
  }

  /** Only paths that are not flagged leave no trace. */
  lemma {:induction false} NothingFlagged(paths: seq<PathUse>)
    ensures PathIssues(paths) == [] <==> forall k :: 0 <= k < |paths| ==> !ShouldExtract(paths[k].segments)
    decreases |paths|
  {
    if paths != [] {
      NothingFlagged(paths[1..]);
      assert forall k :: 1 <= k < |paths| ==> paths[k] == paths[1..][k - 1];
    }
  }

  /** `analyze`: every issue carries an import fix, so all of them count
      as fixable. */
  function Analyze(paths: seq<PathUse>): (r: AnalysisResult)
    ensures r.fixableCount == |r.issues| == CountAvailable(r.issues)
  {
    var issues := PathIssues(paths);
    AnalysisResult(issues, |issues|)
  }
}
