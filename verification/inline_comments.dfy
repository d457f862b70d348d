/** The `inline_comments` analyzer: `//` comments inside function and
    method bodies, each reported with a suggestion to move it into the doc
    block, quoting the code it most likely describes. Nothing is fixed
    automatically. */
module InlineComments {
  import opened Wrappers
  import opened Text
  import opened Issues
  import opened Scan
  import opened Seqs

  const Name: string := "inline_comments"
  const Notes: string := "Move to doc block # Notes section:\n/// - "

  /** A line that, trimmed, starts with `//` but not with the doc-comment
      `///`. */
  predicate IsInlineComment(line: string) {
    var t := Trim(line);
    StartsWith(t, "//") && !StartsWith(t, "///")
  }

  /** The comment's words: the trimmed line without its leading `//`
      pairs, trimmed again. */
  function CommentText(line: string): string {
    Trim(TrimStartMatches(Trim(line), "//"))
  }

  /** A line the comment may describe: not blank, not a comment, not a
      closing brace. */
  predicate IsCode(line: string) {
    var t := Trim(line);
    t != [] && !StartsWith(t, "//") && !StartsWith(t, "}")
  }

  /** The index of the first element from `from` on that satisfies `p`. */
  function FirstFrom<T>(xs: seq<T>, p: T -> bool, from: nat): (r: Option<nat>)
    ensures r.Some? ==> from <= r.value < |xs| && p(xs[r.value])
    ensures r.Some? ==> forall j :: from <= j < r.value ==> !p(xs[j])
    ensures r.None? ==> forall j :: from <= j < |xs| ==> !p(xs[j])
    decreases |xs| - from
  {
    if from >= |xs| then None
    else if p(xs[from]) then Some(from)
    else FirstFrom(xs, p, from + 1)
  }

  /** `find_related_code_line` from index `from` on: the first code line,
      looking to the end of the file and not only of the body. */
  function RelatedCode(lines: seq<string>, from: nat): (r: Option<nat>)
    ensures r.Some? ==> from <= r.value < |lines| && IsCode(lines[r.value])
    ensures r.Some? ==> forall j :: from <= j < r.value ==> !IsCode(lines[j])
    ensures r.None? ==> forall j :: from <= j < |lines| ==> !IsCode(lines[j])
  {
    FirstFrom(lines, IsCode, from)
  }

  const Found: string := "Inline comment found: "

  /** `"text"` */
  function Quoted(s: string): string {
    "\"" + s + "\""
  }

  /** `` `text` `` */
  function Ticked(s: string): string {
    "`" + s + "`"
  }

  /** Where to move the comment, with the related code, trimmed, when there
      is any. */
  function Suggestion(comment: string, code: Option<string>): string {
    if code.Some? then Notes + comment + " - " + Ticked(Trim(code.value)) else Notes + comment
  }

  /** The issue's message: the comment quoted, then the suggestion. */
  function Message(comment: string, code: Option<string>): string {
    Found + Quoted(comment) + ("\n" + Suggestion(comment, code))
  }

  /** `lines.get(idx)`, the empty line past the end. */
  function LineAt(lines: seq<string>, idx: nat): string {
    if idx < |lines| then lines[idx] else ""
  }

  /** `usize::saturating_sub` */
  function SaturatingSub(a: nat, b: nat): nat {
    if a >= b then a - b else 0
  }

  /** The issue for line number `n`: column 1 and no fix. */
  function CommentIssue(lines: seq<string>, n: nat): (i: Issue)
    ensures i.line == n && i.column == 1 && i.fix == NoFix
  {
    var idx := SaturatingSub(n, 1);
    var related := RelatedCode(lines, idx + 1);
    var code := if related.Some? then Some(lines[related.value]) else None;
    Issue(n, 1, Message(CommentText(LineAt(lines, idx)), code), NoFix)
  }

  /** The lines of a body from `start` to `end` the analyzer flags, by
      number: in the range, inside the file, and an inline comment. Line
      numbers are 1-based; the saturating step back makes a line number 0
      read the first line too. */
  predicate Flagged(lines: seq<string>, start: nat, end: nat, n: nat) {
    start <= n < end && SaturatingSub(n, 1) < |lines| && IsInlineComment(lines[SaturatingSub(n, 1)])
  }

  /** `Flagged` as a test of a body's range and a line number. */
  function FlaggedBy(lines: seq<string>): (nat, nat, nat) -> bool {
    (start: nat, end: nat, n: nat) => Flagged(lines, start, end, n)
  }

  /** `CommentIssue` for the lines of one file. */
  function IssueFor(lines: seq<string>): nat -> Issue {
    (m: nat) => CommentIssue(lines, m)
  }

  lemma IssueForLine(lines: seq<string>)
    ensures forall m :: IssueFor(lines)(m).line == m
  {
  }

  lemma FlaggedInBlock(lines: seq<string>, b: Block)
    ensures forall m: nat :: FlaggedBy(lines)(b.start, b.end, m) ==> b.start <= m < b.end
  {
  }

  /** The loop body's test of `check_block` is `Flagged` inside the
      range. */
  lemma FlaggedStep(lines: seq<string>, b: Block, n: nat)
    requires b.start <= n < b.end
    ensures FlaggedBy(lines)(b.start, b.end, n) <==> SaturatingSub(n, 1) < |lines| && IsInlineComment(lines[SaturatingSub(n, 1)])
  {
  }

  /** `check_block`: one issue per flagged line, in ascending line order,
      and nothing else; an empty or inverted range flags nothing. */
  method CheckBlock(start: nat, end: nat, lines: seq<string>) returns (issues: seq<Issue>)
    ensures start >= end ==> issues == []
    ensures Exact(issues, FlaggedBy(lines), IssueFor(lines), Block(start, end))
    ensures forall j, k :: 0 <= j < k < |issues| ==> issues[j].line < issues[k].line
    ensures issues == BodyIssues(FlaggedBy(lines), IssueFor(lines), Block(start, end))
  {
    var b := Block(start, end);
    if start >= end {
      BlockIssuesExact(lines, b);
      return [];
    }
    var flagged: seq<nat> := [];
    var n := start;
    while n < end
      invariant start <= n <= end
      invariant flagged == WantedBelow(FlaggedBy(lines), b, n)
    {
      var idx := SaturatingSub(n, 1);
      ScanStep(lines, b, n, flagged);
      if idx < |lines| && IsInlineComment(lines[idx]) {
        flagged := flagged + [n];
      }
      n := n + 1;
    }
    issues := Map(flagged, IssueFor(lines));
    BlockIssuesExact(lines, b);
  }

  /** One turn of `check_block`'s loop takes the body one line further. */
  lemma ScanStep(lines: seq<string>, b: Block, n: nat, flagged: seq<nat>)
    requires b.start <= n < b.end
    requires flagged == WantedBelow(FlaggedBy(lines), b, n)
    ensures var idx := SaturatingSub(n, 1);
      (if idx < |lines| && IsInlineComment(lines[idx]) then flagged + [n] else flagged)
        == WantedBelow(FlaggedBy(lines), b, n + 1)
  {
    FlaggedStep(lines, b, n);
  }

  /** A body's issues are exactly its flagged lines, ascending. */
  lemma BlockIssuesExact(lines: seq<string>, b: Block)
    ensures Exact(BodyIssues(FlaggedBy(lines), IssueFor(lines), b), FlaggedBy(lines), IssueFor(lines), b)
    ensures var issues := BodyIssues(FlaggedBy(lines), IssueFor(lines), b);
            forall j, k :: 0 <= j < k < |issues| ==> issues[j].line < issues[k].line
  {
    IssueForLine(lines);
    FlaggedInBlock(lines, b);
    BodyIssuesExact(FlaggedBy(lines), IssueFor(lines), b);
  }

  /** `analyze`: the bodies in visiting order, each checked in turn, so
      the issues are the bodies' issues one body after another, and a body
      visited twice reports its comments twice. Every issue is an inline
      comment some body holds, every such comment has an issue, and none
      counts as fixable. */
  method Analyze(blocks: seq<Block>, lines: seq<string>) returns (r: AnalysisResult)
    ensures r.fixableCount == 0
    ensures forall k :: 0 <= k < |r.issues| ==> r.issues[k].fix == NoFix && r.issues[k].column == 1
    ensures Sound(r.issues, blocks, FlaggedBy(lines), IssueFor(lines))
    ensures Complete(r.issues, blocks, FlaggedBy(lines))
    ensures r.issues == ScanAll(blocks, FlaggedBy(lines), IssueFor(lines))
  {
    ghost var make := IssueFor(lines);
    var issues: seq<Issue> := [];
    var i := 0;
    while i < |blocks|
      invariant 0 <= i <= |blocks|
      invariant Sound(issues, blocks[..i], FlaggedBy(lines), make)
      invariant Complete(issues, blocks[..i], FlaggedBy(lines))
      invariant issues == ScanAll(blocks[..i], FlaggedBy(lines), make)
    {
      var found := CheckBlock(blocks[i].start, blocks[i].end, lines);
      assert blocks[..i + 1][..i] == blocks[..i];
      Extend(issues, found, blocks, i, FlaggedBy(lines), make);
      issues := issues + found;
      i := i + 1;
    }
    assert blocks[..|blocks|] == blocks;
    forall k | 0 <= k < |issues|
      ensures issues[k].fix == NoFix && issues[k].column == 1
    {
      assert issues[k] == make(issues[k].line);
    }
    r := AnalysisResult(issues, 0);
  }

  /** Doc comments are never flagged. */
  lemma DocCommentNotFlagged(line: string)
    requires StartsWith(Trim(line), "///")
    ensures !IsInlineComment(line)
  {
  }

  /** `s` without its first `n` characters starts with `p` when `s` holds
      `p` at `n`. */
  lemma StartsAfter(s: string, n: nat, p: string)
    requires n + |p| <= |s| && s[n..n + |p|] == p
    ensures StartsWith(s[n..], p)
  {
  }

  /** An indented `//` followed by text that does not open a doc comment
      is flagged. */
  lemma CommentFlagged(indent: string, rest: string)
    requires IsBlank(indent)
    requires rest != [] && rest[0] != '/' && !IsWhitespace(rest[|rest| - 1])
    ensures IsInlineComment(indent + "//" + rest)
  {
    var t := "//" + rest;
    assert indent + "//" + rest == indent + t;
    SlashedTrim(indent, rest);
    InlineOf(indent + t, t);
  }

  /** The words of such a comment are the text after `//`, trimmed: `// x`
      and `//x` carry the same words. */
  lemma CommentTextIs(indent: string, rest: string)
    requires IsBlank(indent)
    requires rest != [] && rest[0] != '/' && !IsWhitespace(rest[|rest| - 1])
    ensures CommentText(indent + "//" + rest) == Trim(rest)
  {
    var t := "//" + rest;
    assert indent + "//" + rest == indent + t;
    SlashedTrim(indent, rest);
    StripSlashes(rest);
    TextOf(indent + t, t, rest);
  }

  lemma SlashedTrim(indent: string, rest: string)
    requires IsBlank(indent)
    requires rest != [] && rest[0] != '/' && !IsWhitespace(rest[|rest| - 1])
    ensures var t := "//" + rest; Trim(indent + t) == t && |t| >= 3 && t[..2] == "//" && t[2] != '/'
  {
    var t := "//" + rest;
    assert t[0] == '/' && t[|t| - 1] == rest[|rest| - 1];
    TrimBlankFront(indent, t);
    assert t[..2] == "//" && t[2] == rest[0];
  }

  /** A line is flagged by what its trim starts with. */
  lemma InlineOf(line: string, t: string)
    requires Trim(line) == t && |t| >= 3 && t[..2] == "//" && t[2] != '/'
    ensures IsInlineComment(line)
  {
    assert StartsWith(t, "//");
    assert t[..3][2] != "///"[2];
  }

  /** The words of a line whose trim is `t`, and whose `t` loses its `//`
      pairs to leave `r`. */
  lemma TextOf(line: string, t: string, r: string)
    requires Trim(line) == t && TrimStartMatches(t, "//") == r
    ensures CommentText(line) == Trim(r)
  {
  }

  /** Trimming ignores blank indentation in front of text that has no
      whitespace at its ends. */
  lemma TrimBlankFront(indent: string, t: string)
    requires IsBlank(indent)
    requires t != [] && !IsWhitespace(t[0]) && !IsWhitespace(t[|t| - 1])
    ensures Trim(indent + t) == t
  {
    TrimStartBlank(indent, t);
    TrimIdentity(t);
  }

  lemma {:induction false} TrimStartBlank(indent: string, t: string)
    requires IsBlank(indent)
    requires t != [] && !IsWhitespace(t[0])
    ensures TrimStart(indent + t) == TrimStart(t)
    decreases |indent|
  {
    if indent != [] {
      assert (indent + t)[0] == indent[0];
      assert (indent + t)[1..] == indent[1..] + t;
      TrimStartBlank(indent[1..], t);
    } else {
      assert indent + t == t;
    }
  }

  /** Stripping the leading `//` of a one-pair comment. */
  lemma StripSlashes(rest: string)
    requires rest != [] && rest[0] != '/'
    ensures TrimStartMatches("//" + rest, "//") == rest
  {
    var s := "//" + rest;
    assert s[..2] == "//" && s[2..] == rest;
    assert !StartsWith(rest, "//");
  }

  /** An empty comment is still flagged, with empty words. */
  lemma EmptyComment()
    ensures IsInlineComment("//") && CommentText("//") == ""
  {
    TrimIdentity("//");
    assert "//"[2..] == "";
    assert TrimStartMatches("", "//") == "";
  }

  /** A message with related code ends in that code. */
  lemma EndsInCode(head: string, nl: string, notes: string, comment: string, sep: string, t: string)
    ensures Contains(head + (nl + (notes + comment + sep + t)), t)
  {
    var before := head + nl + notes + comment + sep;
    assert head + (nl + (notes + comment + sep + t)) == before + t + [];
    ContainsMiddle(before, t, []);
  }

  /** The message quotes the comment, and when related code exists it
      shows that code, trimmed, between backticks. */
  lemma MessageQuotes(comment: string, code: Option<string>)
    ensures Contains(Message(comment, code), Quoted(comment))
    ensures code.Some? ==> Contains(Message(comment, code), Ticked(Trim(code.value)))
  {
    ContainsMiddle(Found, Quoted(comment), "\n" + Suggestion(comment, code));
    if code.Some? {
      EndsInCode(Found + Quoted(comment), "\n", Notes, comment, " - ", Ticked(Trim(code.value)));
    }
  }
}
