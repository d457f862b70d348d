/** The analyzer registry and the `check` pass over one file: every
    registered analyzer runs, in registry order, and its result joins the
    file's report under the analyzer's name. What the syntax tree supplies
    to each analyzer is given as extracted facts. */
module Analyzers {
  import opened Text
  import opened Issues
  import opened Scan
  import Reports
  import PathImport
  import FormatArgs
  import EmptyLines
  import InlineComments
  import ModRs

  /** `get_analyzers`, by name. */
  const Names: seq<string> := [PathImport.Name, FormatArgs.Name, EmptyLines.Name, InlineComments.Name]

  /** Four analyzers, `path_import` first and `inline_comments` last, no
      two under the same name. */
  lemma NamesDistinct()
    ensures |Names| == 4
    ensures Names[0] == "path_import" && Names[3] == "inline_comments"
    ensures forall i, j :: 0 <= i < j < |Names| ==> Names[i] != Names[j]
  {
    assert Names[0][0] != Names[1][0] && Names[0][0] != Names[2][0] && Names[0][0] != Names[3][0];
    assert Names[1][0] != Names[2][0] && Names[1][0] != Names[3][0];
    assert Names[2][0] != Names[3][0];
  }

  /** What the syntax tree of one file yields for the analyzers: the path
      expressions, the macro invocations, and the line ranges of the
      function bodies in the order `visit_item` meets them (a function
      nested in another function's body comes twice). The file's text is
      `content`; the line-based analyzers read `Lines(content)`. */
  datatype Facts = Facts(paths: seq<PathImport.PathUse>, macros: seq<FormatArgs.MacroUse>, blocks: seq<Block>, content: string)

  /** One file's report: each analyzer's result under its name, in
      registry order. Every issue counts as fixable except the inline
      comments, which no analyzer offers to fix. The empty-line and
      inline-comment issues are exactly those of the function bodies, body
      after body in visit order, so the totals are fixed by the facts. */
  method AnalyzeFile(path: string, facts: Facts) returns (r: Reports.Report)
    ensures r.filePath == path
    ensures |r.results| == |Names|
    ensures forall k :: 0 <= k < |Names| ==> r.results[k].name == Names[k]
    ensures r.results[0].result == PathImport.Analyze(facts.paths)
    ensures r.results[1].result == FormatArgs.Analyze(facts.macros)
    ensures r.results[2].result.fixableCount == |r.results[2].result.issues|
    ensures Sound(r.results[2].result.issues, facts.blocks, EmptyLines.ReportedBy(Lines(facts.content)), EmptyLines.BlankIssue)
    ensures Complete(r.results[2].result.issues, facts.blocks, EmptyLines.ReportedBy(Lines(facts.content)))
    ensures r.results[3].result.fixableCount == 0
    ensures forall k :: 0 <= k < |r.results[3].result.issues| ==>
      r.results[3].result.issues[k].fix == NoFix && r.results[3].result.issues[k].column == 1
    ensures Sound(r.results[3].result.issues, facts.blocks, InlineComments.FlaggedBy(Lines(facts.content)), InlineComments.IssueFor(Lines(facts.content)))
    ensures Complete(r.results[3].result.issues, facts.blocks, InlineComments.FlaggedBy(Lines(facts.content)))
    ensures r.results[2].result.issues == ScanAll(facts.blocks, EmptyLines.ReportedBy(Lines(facts.content)), EmptyLines.BlankIssue)
    ensures r.results[3].result.issues == ScanAll(facts.blocks, InlineComments.FlaggedBy(Lines(facts.content)), InlineComments.IssueFor(Lines(facts.content)))
    ensures Reports.TotalIssues(r) == |Reports.AllIssues(r.results)|
      == |PathImport.Analyze(facts.paths).issues| + |FormatArgs.Analyze(facts.macros).issues|
       + |ScanAll(facts.blocks, EmptyLines.ReportedBy(Lines(facts.content)), EmptyLines.BlankIssue)|
       + |ScanAll(facts.blocks, InlineComments.FlaggedBy(Lines(facts.content)), InlineComments.IssueFor(Lines(facts.content)))|
    ensures Reports.TotalFixable(r) + |r.results[3].result.issues| == Reports.TotalIssues(r)
  {
    var lines := Lines(facts.content);
    var empty := EmptyLines.Analyze(facts.blocks, lines);
    var inline := InlineComments.Analyze(facts.blocks, lines);
    var paths := PathImport.Analyze(facts.paths);
    var macros := FormatArgs.Analyze(facts.macros);
    r := Assemble(path, paths, macros, empty, inline);
    AssembleFile(path, paths, macros, empty, inline);
  }

  /** The report of one file: each result under its analyzer's name, and
      totals that add up the four results. */
  lemma AssembleFile(path: string, paths: AnalysisResult, macros: AnalysisResult, empty: AnalysisResult, inline: AnalysisResult)
    requires paths.fixableCount == |paths.issues| && macros.fixableCount == |macros.issues|
    requires empty.fixableCount == |empty.issues| && inline.fixableCount == 0
    ensures var r := Assemble(path, paths, macros, empty, inline);
      && r.filePath == path
      && |r.results| == |Names|
      && (forall k :: 0 <= k < |Names| ==> r.results[k].name == Names[k])
      && r.results[0].result == paths && r.results[1].result == macros
      && r.results[2].result == empty && r.results[3].result == inline
      && Reports.TotalIssues(r) == |Reports.AllIssues(r.results)|
         == |paths.issues| + |macros.issues| + |empty.issues| + |inline.issues|
      && Reports.TotalFixable(r) + |inline.issues| == Reports.TotalIssues(r)
  {
    AssembleShape(path, paths, macros, empty, inline);
  }

  /** The report built by adding the four results in registry order. */
  function Assemble(path: string, paths: AnalysisResult, macros: AnalysisResult, empty: AnalysisResult, inline: AnalysisResult): Reports.Report {
    var r0 := Reports.New(path);
    var r1 := Reports.AddResult(r0, PathImport.Name, paths);
    var r2 := Reports.AddResult(r1, FormatArgs.Name, macros);
    var r3 := Reports.AddResult(r2, EmptyLines.Name, empty);
    Reports.AddResult(r3, InlineComments.Name, inline)
  }

  lemma AssembleShape(path: string, paths: AnalysisResult, macros: AnalysisResult, empty: AnalysisResult, inline: AnalysisResult)
    ensures Assemble(path, paths, macros, empty, inline).filePath == path
    ensures Assemble(path, paths, macros, empty, inline).results
      == [Reports.Named(PathImport.Name, paths), Reports.Named(FormatArgs.Name, macros),
          Reports.Named(EmptyLines.Name, empty), Reports.Named(InlineComments.Name, inline)]
    ensures Reports.TotalIssues(Assemble(path, paths, macros, empty, inline))
      == |Reports.AllIssues(Assemble(path, paths, macros, empty, inline).results)|
      == |paths.issues| + |macros.issues| + |empty.issues| + |inline.issues|
    ensures Reports.TotalFixable(Assemble(path, paths, macros, empty, inline))
      == paths.fixableCount + macros.fixableCount + empty.fixableCount + inline.fixableCount
  {
    var r0 := Reports.New(path);
    var r1 := Reports.AddResult(r0, PathImport.Name, paths);
    var r2 := Reports.AddResult(r1, FormatArgs.Name, macros);
    var r3 := Reports.AddResult(r2, EmptyLines.Name, empty);
    var r := Reports.AddResult(r3, InlineComments.Name, inline);
    assert r1.results == [Reports.Named(PathImport.Name, paths)];
    assert r2.results == r1.results + [Reports.Named(FormatArgs.Name, macros)];
    assert r3.results == r2.results + [Reports.Named(EmptyLines.Name, empty)];
    assert r.results == r3.results + [Reports.Named(InlineComments.Name, inline)];
    Reports.TotalIsAllIssues(r.results);
  }

  /** A path as `Path::display` prints it on Unix. */
  function PathText(p: ModRs.Path): string {
    (if p.rooted then "/" else "") + Join(p.parts, "/")
  }

  /** `add_mod_rs_to_report` for one issue: a report of its own about the
      `mod.rs` file, holding the issue under `mod_rs` with the suggested
      file as a simple fix, declared fixable. */
  function ModRsReport(issue: ModRs.ModRsIssue): (r: Reports.Report)
    ensures r.filePath == PathText(issue.path)
    ensures |r.results| == 1 && r.results[0].name == "mod_rs"
    ensures Reports.TotalIssues(r) == Reports.TotalFixable(r) == |r.results[0].result.issues| == 1
    ensures var i := r.results[0].result.issues[0];
            && i.line == issue.line && i.column == issue.column && i.message == issue.message
            && i.fix == Simple(PathText(issue.suggested))
  {
    var result := AnalysisResult([Issue(issue.line, issue.column, issue.message, Simple(PathText(issue.suggested)))], 1);
    Reports.AddResult(Reports.New(PathText(issue.path)), "mod_rs", result)
  }
}
