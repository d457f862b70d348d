/** Diff generation: every located issue with an available fix becomes a
    before/after entry, computed from the file's text without touching it.

    Reading the file, parsing it and running the analyzers are outside the
    model: their outcomes are parameters. */
module Generator {
  import opened Wrappers
  import opened Text
  import opened Issues
  import opened DiffTypes

  datatype AppError = IoError(reason: string) | ParseError(reason: string) | AnalyzerError(reason: string)

  /** What one analyzer run produced: its name and its issues, or its error. */
  datatype AnalyzerRun = AnalyzerRun(name: string, outcome: Result<seq<Issue>, AppError>)

  /** `content.lines().nth(line.saturating_sub(1)).unwrap_or("")` */
  function OriginalLine(lines: seq<string>, line: nat): (r: string)
    ensures 1 <= line <= |lines| ==> r == lines[line - 1]
    ensures line > |lines| ==> r == ""
  {
    var idx := if line == 0 then 0 else line - 1;
    if idx < |lines| then lines[idx] else ""
  }

  /** The issues the generator turns into entries. */
  predicate Eligible(issue: Issue) {
    issue.line != 0 && issue.fix.IsAvailable()
  }

  /** The entry of one eligible issue. */
  function EntryOf(name: string, lines: seq<string>, issue: Issue): (e: DiffEntry)
    requires Eligible(issue)
    ensures e.line == issue.line && e.analyzer == name && e.description == issue.message
    ensures e.original == OriginalLine(lines, issue.line)
    ensures e.importStmt.Some? <==> issue.fix.WithImport?
  {
    var original := OriginalLine(lines, issue.line);
    match issue.fix
    case WithImport(imp, pat, rep) =>
      DiffEntry(issue.line, name, original, ReplaceAll(original, pat, rep), issue.message, Some(imp))
    case Simple(text) =>
      DiffEntry(issue.line, name, original, text, issue.message, None)
  }

  /** The entries of one analyzer's issues, in issue order (the loop at
      generator.rs lines 42-72). */
  function EntriesOf(name: string, lines: seq<string>, issues: seq<Issue>): (r: seq<DiffEntry>)
    ensures |r| <= |issues|
    ensures forall k :: 0 <= k < |r| ==> r[k].analyzer == name && r[k].line != 0
  {
    if issues == [] then []
    else
      var last := issues[|issues| - 1];
      EntriesOf(name, lines, issues[..|issues| - 1])
        + (if Eligible(last) then [EntryOf(name, lines, last)] else [])
  }

  /** The eligible issues, in order: the independent description of which
      issues become entries. */
  function EligibleIssues(issues: seq<Issue>): seq<Issue> {
    if issues == [] then []
    else
      var last := issues[|issues| - 1];
      EligibleIssues(issues[..|issues| - 1]) + (if Eligible(last) then [last] else [])
  }

  /** Entries are exactly the eligible issues, each mapped through `EntryOf`. */
  lemma {:induction false} EntriesAreEligibleIssues(name: string, lines: seq<string>, issues: seq<Issue>)
    ensures |EntriesOf(name, lines, issues)| == |EligibleIssues(issues)|
    ensures forall k :: 0 <= k < |EligibleIssues(issues)| ==> Eligible(EligibleIssues(issues)[k])
    ensures forall k :: 0 <= k < |EligibleIssues(issues)| ==>
      EntriesOf(name, lines, issues)[k] == EntryOf(name, lines, EligibleIssues(issues)[k])
  {
    if issues != [] {
      EntriesAreEligibleIssues(name, lines, issues[..|issues| - 1]);
    }
  }

  /** An issue without a fix, or without a line, never yields an entry. */
  lemma IneligibleIssueAddsNothing(name: string, lines: seq<string>, issues: seq<Issue>, issue: Issue)
    requires !Eligible(issue)
    ensures EntriesOf(name, lines, issues + [issue]) == EntriesOf(name, lines, issues)
  {
    assert (issues + [issue])[..|issues|] == issues;
  }

  /** The entries of all analyzers in analyzer order, or the first
      analyzer error. */
  function CollectEntries(lines: seq<string>, runs: seq<AnalyzerRun>): (r: Result<seq<DiffEntry>, AppError>)
    ensures r.Err? <==> exists k :: 0 <= k < |runs| && runs[k].outcome.Err?
    ensures r.Err? ==> exists k :: 0 <= k < |runs| && runs[k].outcome == Err(r.error)
                                   && forall j :: 0 <= j < k ==> runs[j].outcome.Ok?
  {
    if runs == [] then Ok([])
    else match runs[0].outcome
      case Err(e) => Err(e)
      case Ok(issues) =>
        var rest := CollectEntries(lines, runs[1..]);
        assert forall k :: 1 <= k < |runs| ==> runs[k] == runs[1..][k - 1];
        if rest.Err? then
          assert exists k :: 0 <= k < |runs[1..]| && runs[1..][k].outcome == Err(rest.error)
                             && forall j :: 0 <= j < k ==> runs[1..][j].outcome.Ok?;
          var k :| 0 <= k < |runs[1..]| && runs[1..][k].outcome == Err(rest.error)
                   && forall j :: 0 <= j < k ==> runs[1..][j].outcome.Ok?;
          assert runs[k + 1].outcome == Err(rest.error);
          assert forall j :: 0 <= j < k + 1 ==> runs[j].outcome.Ok? by {
            forall j | 0 < j < k + 1
              ensures runs[j].outcome.Ok?
            {
              assert runs[j] == runs[1..][j - 1];
            }
          }
          Err(rest.error)
        else
          Ok(EntriesOf(runs[0].name, lines, issues) + rest.value)
  }

  /** `generate_diff`: a read failure or a parse failure aborts before any
      analyzer runs, and so does the first analyzer failure; otherwise the
      file's diff holds every eligible issue of every analyzer, in order. */
  function GenerateDiff(path: string, read: Result<string, string>, parses: bool, runs: seq<AnalyzerRun>): (r: Result<FileDiff, AppError>)
    ensures read.Err? ==> r == Err(IoError(read.error))
    ensures read.Ok? && !parses ==> r.Err? && r.error.ParseError?
    ensures r.Ok? ==> r.value.path == path
    ensures r.Ok? <==> read.Ok? && parses && forall k :: 0 <= k < |runs| ==> runs[k].outcome.Ok?
    ensures r.Ok? ==> r.value.entries == CollectEntries(Lines(read.value), runs).value
    ensures r.Ok? ==> |r.value.entries| == EligibleCount(runs)
  {
    match read
    case Err(e) => Err(IoError(e))
    case Ok(content) =>
      if !parses then Err(ParseError(path))
      else
        var entries :- CollectEntries(Lines(content), runs);
        CollectEntriesCount(Lines(content), runs);
        Ok(FileDiff(path, entries))
  }

  /** The number of eligible issues across all runs. */
  function EligibleCount(runs: seq<AnalyzerRun>): nat
    requires forall k :: 0 <= k < |runs| ==> runs[k].outcome.Ok?
  {
    if runs == [] then 0 else |EligibleIssues(runs[0].outcome.value)| + EligibleCount(runs[1..])
  }

  /** A successful diff has exactly one entry per eligible issue. */
  lemma {:induction false} CollectEntriesCount(lines: seq<string>, runs: seq<AnalyzerRun>)
    requires forall k :: 0 <= k < |runs| ==> runs[k].outcome.Ok?
    ensures CollectEntries(lines, runs).Ok?
    ensures |CollectEntries(lines, runs).value| == EligibleCount(runs)
    decreases |runs|
  {
    if runs != [] {
      EntriesAreEligibleIssues(runs[0].name, lines, runs[0].outcome.value);
      CollectEntriesCount(lines, runs[1..]);
    }
  }

  /** Running the analyzers in two batches gives the first batch's entries
      followed by the second's. */
  lemma {:induction false} CollectEntriesAppend(lines: seq<string>, a: seq<AnalyzerRun>, b: seq<AnalyzerRun>)
    requires forall k :: 0 <= k < |a| ==> a[k].outcome.Ok?
    ensures CollectEntries(lines, a).Ok?
    ensures CollectEntries(lines, a + b).Ok? <==> CollectEntries(lines, b).Ok?
    ensures CollectEntries(lines, b).Ok? ==>
      CollectEntries(lines, a + b).value == CollectEntries(lines, a).value + CollectEntries(lines, b).value
    decreases |a|
  {
    if a == [] {
      assert a + b == b;
    } else {
      assert (a + b)[0] == a[0] && (a + b)[1..] == a[1..] + b;
      CollectEntriesAppend(lines, a[1..], b);
    }
  }

  /** A path import fix whose pattern does not occur on the line leaves the
      line as it was; a simple fix replaces the line by its text. */
  lemma ModifiedLine(name: string, lines: seq<string>, issue: Issue)
    requires Eligible(issue)
    ensures issue.fix.Simple? ==> EntryOf(name, lines, issue).modified == issue.fix.text
    ensures issue.fix.WithImport? && |issue.fix.pattern| > 0
            && !Contains(OriginalLine(lines, issue.line), issue.fix.pattern)
            ==> EntryOf(name, lines, issue).modified == OriginalLine(lines, issue.line)
    ensures issue.fix.WithImport? && |issue.fix.pattern| > 0 ==>
      EntryOf(name, lines, issue).modified
        == Join(Split(OriginalLine(lines, issue.line), issue.fix.pattern), issue.fix.replacement)
  {
    if issue.fix.WithImport? && |issue.fix.pattern| > 0 {
      var original := OriginalLine(lines, issue.line);
      ReplaceAllIsSplitJoin(original, issue.fix.pattern, issue.fix.replacement);
      if !Contains(original, issue.fix.pattern) {
        ReplaceAbsent(original, issue.fix.pattern, issue.fix.replacement);
      }
    }
  }
}
