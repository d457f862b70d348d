/** The `empty_lines` analyzer: blank lines inside function and method
    bodies. The syntax tree only supplies each body's first and last line;
    the rule itself is a scan over the file's lines. */
module EmptyLines {
  import opened Text
  import opened Issues
  import opened Scan
  import opened Seqs

  const Name: string := "empty_lines"
  const Message: string := "Empty line in function body indicates untamed complexity"

  /** The issue for a blank line: column 1, and a fix that empties it. */
  function BlankIssue(n: nat): Issue {
    Issue(n, 1, Message, Simple(""))
  }

  /** `usize::saturating_sub` */
  function SaturatingSub(a: nat, b: nat): nat {
    if a >= b then a - b else 0
  }

  /** `is_after_opening_brace`: the line before index `idx` ends with `{`. */
  predicate AfterOpeningBrace(lines: seq<string>, idx: nat) {
    idx != 0 && idx - 1 < |lines| && (EndsWith(Trim(lines[idx - 1]), "{") || Trim(lines[idx - 1]) == "{")
  }

  /** `is_before_closing_brace`: the line after index `idx` starts with `}`. */
  predicate BeforeClosingBrace(lines: seq<string>, idx: nat) {
    idx + 1 < |lines| && (Trim(lines[idx + 1]) == "}" || StartsWith(Trim(lines[idx + 1]), "}"))
  }

  /** The lines a body from `start` to `end` reports, by their 1-based
      number: blank, strictly between the body's first and last line,
      inside the file, not right after a line ending in `{` and not right
      before a line starting with `}`. */
  predicate Reported(lines: seq<string>, start: nat, end: nat, n: nat) {
    && start < n
    && n + 1 < end
    && n <= |lines|
    && IsBlank(lines[n - 1])
    && !(n >= 2 && EndsWith(Trim(lines[n - 2]), "{"))
    && !(n < |lines| && StartsWith(Trim(lines[n]), "}"))
  }

  /** The loop body of `check_block` for line number `n`, as written:
      whether it pushes an issue. */
  predicate Pushes(lines: seq<string>, start: nat, end: nat, n: nat) {
    var idx := SaturatingSub(n, 1);
    && idx < |lines|
    && Trim(lines[idx]) == []
    && !(n == start || n == SaturatingSub(end, 1))
    && !(AfterOpeningBrace(lines, idx) || BeforeClosingBrace(lines, idx))
  }

  /** A string that is exactly `c` starts and ends with `c`. */
  lemma ExactlyIs(t: string, c: string)
    ensures t == c ==> StartsWith(t, c) && EndsWith(t, c)
  {
  }

  /** The brace tests, with their redundant exact-match halves dropped. */
  lemma BraceTests(lines: seq<string>, idx: nat)
    ensures AfterOpeningBrace(lines, idx) <==> idx >= 1 && idx - 1 < |lines| && EndsWith(Trim(lines[idx - 1]), "{")
    ensures BeforeClosingBrace(lines, idx) <==> idx + 1 < |lines| && StartsWith(Trim(lines[idx + 1]), "}")
  {
    if idx >= 1 && idx - 1 < |lines| {
      ExactlyIs(Trim(lines[idx - 1]), "{");
    }
    if idx + 1 < |lines| {
      ExactlyIs(Trim(lines[idx + 1]), "}");
    }
  }

  lemma PushedIsReported(lines: seq<string>, start: nat, end: nat, n: nat)
    requires start <= n < end && n >= 1
    ensures Pushes(lines, start, end, n) ==> Reported(lines, start, end, n)
  {
    var idx := n - 1;
    BraceTests(lines, idx);
    if idx < |lines| {
      TrimEmptyIffBlank(lines[idx]);
    }
  }

  lemma ReportedIsPushed(lines: seq<string>, start: nat, end: nat, n: nat)
    requires start <= n < end && n >= 1
    ensures Reported(lines, start, end, n) ==> Pushes(lines, start, end, n)
  {
    var idx := n - 1;
    BraceTests(lines, idx);
    if idx < |lines| {
      TrimEmptyIffBlank(lines[idx]);
    }
  }

  /** Within the block's range the loop body pushes exactly the reported
      lines. */
  lemma PushesIff(lines: seq<string>, start: nat, end: nat, n: nat)
    requires start <= n < end
    ensures Pushes(lines, start, end, n) <==> Reported(lines, start, end, n)
  {
    if n == 0 {
      assert n == start;
    } else {
      PushedIsReported(lines, start, end, n);
      ReportedIsPushed(lines, start, end, n);
    }
  }

  /** `check_block`: one issue per reported line, in ascending line order,
      and nothing else; an empty or inverted range reports nothing. */
  method CheckBlock(start: nat, end: nat, lines: seq<string>) returns (issues: seq<Issue>)
    ensures start >= end ==> issues == []
    ensures forall k :: 0 <= k < |issues| ==> issues[k] == BlankIssue(issues[k].line) && Reported(lines, start, end, issues[k].line)
    ensures forall n :: Reported(lines, start, end, n) ==> HasLine(issues, n)
    ensures forall j, k :: 0 <= j < k < |issues| ==> issues[j].line < issues[k].line
    ensures issues == BodyIssues(ReportedBy(lines), BlankIssue, Block(start, end))
  {
    var reported := ReportedLines(start, end, lines);
    issues := Map(reported, BlankIssue);
    BlockIssuesExact(lines, start, end);
  }

  /** The loop of `check_block`: the line numbers it pushes, ascending. */
  method ReportedLines(start: nat, end: nat, lines: seq<string>) returns (reported: seq<nat>)
    ensures reported == WantedBelow(ReportedBy(lines), Block(start, end), end)
  {
    var b := Block(start, end);
    reported := [];
    if start >= end {
      return;
    }
    var n := start;
    while n < end
      invariant start <= n <= end
      invariant reported == WantedBelow(ReportedBy(lines), b, n)
    {
      ScanStep(lines, b, n, reported);
      if Pushes(lines, start, end, n) {
        reported := reported + [n];
      }
      n := n + 1;
    }
  }

  /** One turn of `check_block`'s loop takes the body one line further. */
  lemma ScanStep(lines: seq<string>, b: Block, n: nat, reported: seq<nat>)
    requires b.start <= n < b.end
    requires reported == WantedBelow(ReportedBy(lines), b, n)
    ensures (if Pushes(lines, b.start, b.end, n) then reported + [n] else reported)
      == WantedBelow(ReportedBy(lines), b, n + 1)
  {
    PushesIff(lines, b.start, b.end, n);
    if Pushes(lines, b.start, b.end, n) {
      assert ReportedBy(lines)(b.start, b.end, n);
    } else {
      assert !ReportedBy(lines)(b.start, b.end, n);
    }
  }

  /** A body's issues are one per reported line, in ascending line order,
      and nothing else. */
  lemma BlockIssuesExact(lines: seq<string>, start: nat, end: nat)
    ensures var issues := BodyIssues(ReportedBy(lines), BlankIssue, Block(start, end));
      && (start >= end ==> issues == [])
      && (forall k :: 0 <= k < |issues| ==> issues[k] == BlankIssue(issues[k].line) && Reported(lines, start, end, issues[k].line))
      && (forall n :: Reported(lines, start, end, n) ==> HasLine(issues, n))
      && (forall j, k :: 0 <= j < k < |issues| ==> issues[j].line < issues[k].line)
  {
    var ns := WantedBelow(ReportedBy(lines), Block(start, end), end);
    var issues := Map(ns, BlankIssue);
    forall n | Reported(lines, start, end, n)
      ensures HasLine(issues, n)
    {
      assert ReportedBy(lines)(start, end, n);
      var k :| 0 <= k < |ns| && ns[k] == n;
      assert issues[k].line == n;
    }
  }

  /** `Reported` as a test of a body's range and a line number. */
  function ReportedBy(lines: seq<string>): (nat, nat, nat) -> bool {
    (start: nat, end: nat, n: nat) => Reported(lines, start, end, n)
  }

  /** `analyze`: the bodies in visiting order, each checked in turn, so
      the issues are the bodies' issues one body after another, and a body
      visited twice reports its lines twice. Every issue is a blank line
      some body reports, every reported line has an issue, and since every
      issue carries a fix all of them count as fixable. */
  method Analyze(blocks: seq<Block>, lines: seq<string>) returns (r: AnalysisResult)
    ensures r.fixableCount == |r.issues|
    ensures Sound(r.issues, blocks, ReportedBy(lines), BlankIssue)
    ensures Complete(r.issues, blocks, ReportedBy(lines))
    ensures r.issues == ScanAll(blocks, ReportedBy(lines), BlankIssue)
  {
    var issues: seq<Issue> := [];
    var i := 0;
    while i < |blocks|
      invariant 0 <= i <= |blocks|
      invariant Sound(issues, blocks[..i], ReportedBy(lines), BlankIssue)
      invariant Complete(issues, blocks[..i], ReportedBy(lines))
      invariant issues == ScanAll(blocks[..i], ReportedBy(lines), BlankIssue)
    {
      var found := CheckBlock(blocks[i].start, blocks[i].end, lines);
      assert blocks[..i + 1][..i] == blocks[..i];
      Extend(issues, found, blocks, i, ReportedBy(lines), BlankIssue);
      issues := issues + found;
      i := i + 1;
    }
    assert blocks[..|blocks|] == blocks;
    r := AnalysisResult(issues, |issues|);
  }
}
