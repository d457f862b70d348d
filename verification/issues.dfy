/** What every analyzer produces: issues, each with an optional structured
    fix, and the per-analyzer result. */
module Issues {

  /** How an issue's source line would be rewritten. */
  datatype Fix =
    | NoFix
      /** Replace the whole line with `text`. */
    | Simple(text: string)
      /** Insert `importStmt` at the top of the file and replace `pattern`
          by `replacement` on the line. */
    | WithImport(importStmt: string, pattern: string, replacement: string)
  {
    /** `Fix::is_available`: every variant but `None`. */
    predicate IsAvailable() {
      !NoFix?
    }
  }

  /** One detected problem; `line` is 1-based and 0 means unlocated. */
  datatype Issue = Issue(line: nat, column: nat, message: string, fix: Fix)

  datatype AnalysisResult = AnalysisResult(issues: seq<Issue>, fixableCount: nat)

  /** The number of issues that carry an available fix. */
  function CountAvailable(issues: seq<Issue>): (n: nat)
    ensures n <= |issues|
    ensures n == 0 <==> forall k :: 0 <= k < |issues| ==> !issues[k].fix.IsAvailable()
    ensures n == |issues| <==> forall k :: 0 <= k < |issues| ==> issues[k].fix.IsAvailable()
  {
    if issues == [] then 0
    else CountAvailable(issues[..|issues| - 1]) + (if issues[|issues| - 1].fix.IsAvailable() then 1 else 0)
  }
}
