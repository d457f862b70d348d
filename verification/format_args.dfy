/** The `format_args` analyzer: formatting macros that fill `{}`
    placeholders from positional arguments. The syntax tree supplies each
    macro's path, its tokens printed as text, and its position. */
module FormatArgs {
  import opened Wrappers
  import opened Text
  import opened Issues

  const Name: string := "format_args"
  const Message: string := "Use named format arguments instead of positional"

  /** One macro invocation as the syntax tree reports it. */
  datatype MacroUse = MacroUse(path: seq<string>, tokens: string, line: nat, column: nat)

  /** `Path::is_ident`: the path is the single identifier `name`. */
  predicate IsIdent(path: seq<string>, name: string) {
    path == [name]
  }

  /** The macros `check_macro` looks into. */
  predicate IsFormatMacro(path: seq<string>) {
    || IsIdent(path, "format")
    || IsIdent(path, "println")
    || IsIdent(path, "print")
    || IsIdent(path, "write")
    || IsIdent(path, "writeln")
  }

  /** `analyze_format_macro`: an issue when the tokens hold an empty `{}`
      placeholder and a comma, at the macro's position and without a fix. */
  function AnalyzeFormatMacro(m: MacroUse): Option<Issue> {
    if Contains(m.tokens, "{}") then
      if ContainsChar(m.tokens, ',') then Some(Issue(m.line, m.column, Message, NoFix))
      else None
    else None
  }

  /** `check_macro`: only the formatting macros are analysed. */
  function CheckMacro(m: MacroUse): Option<Issue> {
    if IsFormatMacro(m.path) then AnalyzeFormatMacro(m) else None
  }

  /** A macro is flagged exactly when it is a formatting macro whose tokens
      hold both `{}` and a comma; the issue then sits at the macro and
      carries the fixed message and no fix. */
  lemma CheckMacroIff(m: MacroUse)
    ensures CheckMacro(m).Some? <==> IsFormatMacro(m.path) && Contains(m.tokens, "{}") && ',' in m.tokens
    ensures CheckMacro(m).Some? ==> var i := CheckMacro(m).value;
              i.line == m.line && i.column == m.column && i.message == Message && !i.fix.IsAvailable()
  {
  }

  /** Without a comma there are no arguments to name, and a template whose
      placeholders all carry names has no `{}`: neither is flagged. */
  lemma NotFlagged(m: MacroUse)
    ensures ',' !in m.tokens ==> CheckMacro(m).None?
    ensures !Contains(m.tokens, "{}") ==> CheckMacro(m).None?
  {
  }

  /** `println!("Hello {}", name)`, printed as tokens, is flagged, but
      the same tokens under any other macro, such as `vec!`, are not. */
  lemma PositionalExample(line: nat, column: nat)
    ensures CheckMacro(MacroUse(["println"], "\"Hello " + "{}" + "\" , name", line, column)).Some?
    ensures CheckMacro(MacroUse(["vec"], "\"Hello " + "{}" + "\" , name", line, column)).None?
  {
    var tokens := "\"Hello " + "{}" + "\" , name";
    ContainsMiddle("\"Hello ", "{}", "\" , name");
    assert tokens[11] == ',';
    assert !IsFormatMacro(["vec"]);
  }

  /** `println!("Hello {name}")` and `println!("Hello world")` are not
      flagged. */
  lemma NamedExamples(line: nat, column: nat)
    ensures CheckMacro(MacroUse(["println"], "\"Hello {name}\"", line, column)).None?
    ensures CheckMacro(MacroUse(["println"], "\"Hello world\"", line, column)).None?
  {
  }

  /** The issues of one file's macros, in visiting order. */
  function MacroIssues(macros: seq<MacroUse>): (r: seq<Issue>)
    ensures |r| <= |macros|
    ensures forall k :: 0 <= k < |r| ==> r[k].fix == NoFix && r[k].message == Message
  {
    if macros == [] then []
    else
      var here := CheckMacro(macros[0]);
      (if here.Some? then [here.value] else []) + MacroIssues(macros[1..])
  }

  /** Each flagged macro has an issue at its position, and each issue sits
      at a flagged macro. */
  lemma {:induction false} MacroIssuesExact(macros: seq<MacroUse>)
    ensures forall m :: m in macros && CheckMacro(m).Some? ==> CheckMacro(m).value in MacroIssues(macros)
    ensures forall i :: i in MacroIssues(macros) ==>
              exists m :: m in macros && CheckMacro(m) == Some(i) && i.line == m.line && i.column == m.column
    decreases |macros|
  {
    if macros != [] {
      MacroIssuesExact(macros[1..]);
      assert forall m :: m in macros <==> m == macros[0] || m in macros[1..];
    }
  }

  /** `analyze`: every issue is declared fixable although none carries a
      fix, so a report counts them fixable while the diff has nothing to
      offer for them. */
  function Analyze(macros: seq<MacroUse>): (r: AnalysisResult)
    ensures r.fixableCount == |r.issues|
    ensures CountAvailable(r.issues) == 0
    ensures r.issues == MacroIssues(macros)
  {
    var issues := MacroIssues(macros);
    AnalysisResult(issues, |issues|)
  }
}
