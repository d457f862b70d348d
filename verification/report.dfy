/** The plain-text quality report for one file: the results of every
    analyzer run on it, their totals, and how the report prints. */
module Reports {
  import opened Text
  import opened Issues

  /** One analyzer's result under its name. */
  datatype Named = Named(name: string, result: AnalysisResult)

  datatype Report = Report(filePath: string, results: seq<Named>)

  /** Issues over a list of results, added up front to back. */
  function IssueSum(rs: seq<Named>): nat {
    if rs == [] then 0 else |rs[0].result.issues| + IssueSum(rs[1..])
  }

  /** Fixable counts over a list of results, added up front to back. */
  function FixableSum(rs: seq<Named>): nat {
    if rs == [] then 0 else rs[0].result.fixableCount + FixableSum(rs[1..])
  }

  /** `total_issues` */
  function TotalIssues(r: Report): nat {
    IssueSum(r.results)
  }

  /** `total_fixable`: what the analyzers declared fixable, whatever their
      issue lists hold. */
  function TotalFixable(r: Report): nat {
    FixableSum(r.results)
  }

  /** Every issue of every result, in order. */
  function AllIssues(rs: seq<Named>): seq<Issue> {
    if rs == [] then [] else rs[0].result.issues + AllIssues(rs[1..])
  }

  /** `Report::new`: the file's path and nothing found yet. */
  function New(path: string): (r: Report)
    ensures r.filePath == path && r.results == []
    ensures TotalIssues(r) == 0 && TotalFixable(r) == 0
  {
    Report(path, [])
  }

  lemma {:induction false} SumsAppend(a: seq<Named>, b: seq<Named>)
    ensures IssueSum(a + b) == IssueSum(a) + IssueSum(b)
    ensures FixableSum(a + b) == FixableSum(a) + FixableSum(b)
    ensures AllIssues(a + b) == AllIssues(a) + AllIssues(b)
    decreases |a|
  {
    if a == [] {
      assert a + b == b;
    } else {
      assert (a + b)[0] == a[0] && (a + b)[1..] == a[1..] + b;
      SumsAppend(a[1..], b);
    }
  }

  /** `add_result`: the new result goes at the end, the earlier ones and
      the path stay, and each total grows by the new result's share. */
  function AddResult(r: Report, name: string, result: AnalysisResult): (r': Report)
    ensures r'.filePath == r.filePath
    ensures |r'.results| == |r.results| + 1
    ensures r'.results[..|r.results|] == r.results && r'.results[|r.results|] == Named(name, result)
    ensures TotalIssues(r') == TotalIssues(r) + |result.issues|
    ensures TotalFixable(r') == TotalFixable(r) + result.fixableCount
  {
    SumsAppend(r.results, [Named(name, result)]);
    assert [Named(name, result)][1..] == [];
    Report(r.filePath, r.results + [Named(name, result)])
  }

  /** The total is the number of issues all the analyzers found together. */
  lemma {:induction false} TotalIsAllIssues(rs: seq<Named>)
    ensures IssueSum(rs) == |AllIssues(rs)|
    decreases |rs|
  {
    if rs != [] {
      TotalIsAllIssues(rs[1..]);
    }
  }

  /** Two reports that differ only in their issue lists declare the same
      number of fixable issues. */
  lemma {:induction false} FixableIgnoresIssues(a: seq<Named>, b: seq<Named>)
    requires |a| == |b|
    requires forall k :: 0 <= k < |a| ==> a[k].result.fixableCount == b[k].result.fixableCount
    ensures FixableSum(a) == FixableSum(b)
    decreases |a|
  {
    if a != [] {
      FixableIgnoresIssues(a[1..], b[1..]);
    }
  }

  // ---------------------------------------------------------------------
  // Display

  /** The lines a fix adds below its issue: an import fix names the import
      and announces the shortening, a simple fix shows its text, and a
      missing fix adds nothing. */
  function FixText(f: Fix): string {
    match f
    case NoFix => ""
    case WithImport(importStmt, _, _) => "\n    Fix: Add import: " + importStmt + "\n    (Will replace path with short name)"
    case Simple(text) => "\n    Fix: " + text
  }

  /** `  <line>:<column> - <message>`, the fix, and the line end. */
  function IssueText(i: Issue): string {
    "  " + NatToString(i.line) + ":" + NatToString(i.column) + " - " + i.message + FixText(i.fix) + "\n"
  }

  function IssuesText(issues: seq<Issue>): string {
    if issues == [] then "" else IssueText(issues[0]) + IssuesText(issues[1..])
  }

  /** A blank line, `[<name>]`, and the issues; nothing for a result
      without issues. */
  function SectionText(n: Named): string {
    if n.result.issues == [] then "" else "\n[" + n.name + "]\n" + IssuesText(n.result.issues)
  }

  function Sections(rs: seq<Named>): string {
    if rs == [] then "" else SectionText(rs[0]) + Sections(rs[1..])
  }

  function HeadText(path: string): string {
    "Quality report for: " + path + "\n" + "=\n"
  }

  function TotalsText(issues: nat, fixable: nat): string {
    "\nTotal issues: " + NatToString(issues) + "\n" + "Fixable: " + NatToString(fixable) + "\n"
  }

  /** `impl Display for Report`, as the text it writes. */
  function Display(r: Report): string {
    HeadText(r.filePath) + Sections(r.results) + TotalsText(TotalIssues(r), TotalFixable(r))
  }

  /** A fix prints a line exactly when it is available, and an available
      one always starts that line with `Fix: `. */
  lemma FixLineIff(f: Fix)
    ensures FixText(f) == "" <==> !f.IsAvailable()
    ensures f.IsAvailable() ==> FixText(f)[..10] == "\n    Fix: "
  {
  }

  /** The results with at least one issue, in order. */
  function WithIssues(rs: seq<Named>): (r: seq<Named>)
    ensures forall k :: 0 <= k < |r| ==> r[k].result.issues != [] && r[k] in rs
  {
    if rs == [] then []
    else if rs[0].result.issues == [] then WithIssues(rs[1..])
    else [rs[0]] + WithIssues(rs[1..])
  }

  /** The report prints a section for each result with issues, in order,
      and nothing at all for the others. */
  lemma {:induction false} SectionsSkipEmpty(rs: seq<Named>)
    ensures Sections(rs) == Sections(WithIssues(rs))
    ensures forall n :: n in rs && n.result.issues != [] <==> n in WithIssues(rs)
    decreases |rs|
  {
    if rs != [] {
      SectionsSkipEmpty(rs[1..]);
      if rs[0].result.issues != [] {
        var w := [rs[0]] + WithIssues(rs[1..]);
        assert w[0] == rs[0] && w[1..] == WithIssues(rs[1..]);
      }
      assert forall n :: n in rs <==> n == rs[0] || n in rs[1..];
    }
  }

  /** An analyzer that found nothing leaves the printed sections as they
      were. */
  lemma AddEmptyResult(r: Report, name: string, result: AnalysisResult)
    requires result.issues == []
    ensures Sections(AddResult(r, name, result).results) == Sections(r.results)
  {
    SectionsAppend(r.results, [Named(name, result)]);
    assert [Named(name, result)][1..] == [];
  }

  lemma {:induction false} SectionsAppend(a: seq<Named>, b: seq<Named>)
    ensures Sections(a + b) == Sections(a) + Sections(b)
    decreases |a|
  {
    if a == [] {
      assert a + b == b;
    } else {
      assert (a + b)[0] == a[0] && (a + b)[1..] == a[1..] + b;
      SectionsAppend(a[1..], b);
    }
  }

  /** The report always opens with the file's path and closes with the
      number of issues found and the number declared fixable. */
  lemma ReportFrame(r: Report)
    ensures var d, head, tail := Display(r), HeadText(r.filePath), TotalsText(|AllIssues(r.results)|, TotalFixable(r));
            |d| >= |head| + |tail| && d[..|head|] == head && d[|d| - |tail|..] == tail
    ensures HeadText(r.filePath)[..20] == "Quality report for: "
  {
    TotalIsAllIssues(r.results);
  }

  /** A result with one issue at line 42, column 15, and a simple fix:
      the report names the file, the analyzer, the position and message,
      the fix, and one issue, fixable. */
  lemma DisplayExample()
    ensures var i := Issue(42, 15, "Test issue", Simple("Fix suggestion"));
            Display(AddResult(New("test.rs"), "test_analyzer", AnalysisResult([i], 1)))
            == ("Quality report for: " + "test.rs" + "\n" + "=\n")
               + ("\n[" + "test_analyzer" + "]\n"
                  + ("  " + "42" + ":" + "15" + " - " + "Test issue" + ("\n    Fix: " + "Fix suggestion") + "\n"))
               + ("\nTotal issues: " + "1" + "\n" + "Fixable: " + "1" + "\n")
  {
    var i := Issue(42, 15, "Test issue", Simple("Fix suggestion"));
    var n := Named("test_analyzer", AnalysisResult([i], 1));
    var r := AddResult(New("test.rs"), "test_analyzer", AnalysisResult([i], 1));
    assert r.results == [n];
    assert NatToString(42) == "42";
    assert NatToString(15) == "15";
    assert NatToString(1) == "1";
    assert IssuesText([i]) == IssueText(i) + "" by {
      assert [i][1..] == [];
    }
    assert Sections([n]) == SectionText(n) + "" by {
      assert [n][1..] == [];
    }
  }

  /** An analyzer without issues prints nothing, however many fixes it
      declares; the totals still count it. */
  lemma QuietAnalyzerExample()
    ensures Display(AddResult(New("test.rs"), "empty_analyzer", AnalysisResult([], 3)))
            == ("Quality report for: " + "test.rs" + "\n" + "=\n")
               + ("\nTotal issues: " + "0" + "\n" + "Fixable: " + "3" + "\n")
  {
    var r := AddResult(New("test.rs"), "empty_analyzer", AnalysisResult([], 3));
    AddEmptyResult(New("test.rs"), "empty_analyzer", AnalysisResult([], 3));
    assert NatToString(0) == "0";
    assert NatToString(3) == "3";
  }
}
