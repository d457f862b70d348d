/** Detection of `mod.rs` files and the file each one should become: the
    module `a/b/mod.rs` moves to `a/b.rs`, named after its directory and one
    level up. A path is its list of named components, optionally under the
    root directory. */
module ModRs {
  import opened Wrappers
  import opened Text

  datatype Path = Path(rooted: bool, parts: seq<string>)

  /** `Path::parent`: the path without its last component; a path with no
      component has none. */
  function Parent(p: Path): Option<Path> {
    if p.parts == [] then None else Some(Path(p.rooted, p.parts[..|p.parts| - 1]))
  }

  /** `Path::file_name`: the last component. */
  function FileName(p: Path): Option<string> {
    if p.parts == [] then None else Some(p.parts[|p.parts| - 1])
  }

  /** `Path::join` with a single relative component. */
  function JoinPath(p: Path, name: string): Path {
    Path(p.rooted, p.parts + [name])
  }

  /** `is_mod_rs` */
  predicate IsModRs(p: Path) {
    FileName(p) == Some("mod.rs")
  }

  datatype ModRsIssue = ModRsIssue(path: Path, suggested: Path, message: string, line: nat, column: nat)

  /** The message for module `name`. */
  function IssueMessage(name: string): string {
    "Use `" + (name + ".rs") + "` instead of `" + (name + "/mod.rs") + "` (modern module style)"
  }

  /** `create_issue`: the parent directory, its name and the directory
      above it, or nothing as soon as one of them is missing. */
  function CreateIssue(p: Path): Option<ModRsIssue> {
    match Parent(p)
    case None => None
    case Some(parent) =>
      match FileName(parent)
      case None => None
      case Some(name) =>
        match Parent(parent)
        case None => None
        case Some(grandparent) =>
          Some(ModRsIssue(p, JoinPath(grandparent, name + ".rs"), IssueMessage(name), 1, 1))
  }

  /** An issue exists exactly when the file sits inside a named directory. */
  lemma CreateIssueIff(p: Path)
    ensures CreateIssue(p).Some? <==> |p.parts| >= 2
  {
  }

  /** The suggested file is the directory's name with `.rs`, placed in the
      directory above: it shares the original's parent's parent as its own
      parent, the issue names the original, and it points at the top of
      the file. */
  lemma SuggestedPath(p: Path)
    requires |p.parts| >= 2
    ensures var i := CreateIssue(p).value;
            var n := |p.parts|;
            && i.path == p
            && i.suggested == Path(p.rooted, p.parts[..n - 2] + [p.parts[n - 2] + ".rs"])
            && Parent(i.suggested) == Parent(Parent(p).value)
            && FileName(i.suggested) == Some(p.parts[n - 2] + ".rs")
            && i.line == 1 && i.column == 1
  {
    var n := |p.parts|;
    assert p.parts[..n - 1][..n - 2] == p.parts[..n - 2];
    assert (p.parts[..n - 2] + [p.parts[n - 2] + ".rs"])[..n - 2] == p.parts[..n - 2];
  }

  /** The message names both the new file `<name>.rs` and the old
      `<name>/mod.rs`. */
  lemma MessageNamesBoth(name: string)
    ensures Contains(IssueMessage(name), name + ".rs")
    ensures Contains(IssueMessage(name), name + "/mod.rs")
  {
    ContainsBoth("Use `", name + ".rs", "` instead of `", name + "/mod.rs", "` (modern module style)");
  }

  /** `src/analyzers/mod.rs` becomes `src/analyzers.rs`. */
  lemma AnalyzersExample()
    ensures IsModRs(Path(false, ["src", "analyzers", "mod.rs"]))
    ensures CreateIssue(Path(false, ["src", "analyzers", "mod.rs"])).value.suggested == Path(false, ["src", "analyzers.rs"])
  {
    var p := Path(false, ["src", "analyzers", "mod.rs"]);
    SuggestedPath(p);
    assert p.parts[..1] == ["src"];
    assert "analyzers" + ".rs" == "analyzers.rs";
    assert ["src"] + ["analyzers.rs"] == ["src", "analyzers.rs"];
  }

  /** All the `mod.rs` issues found under one path. */
  datatype ModRsResult = ModRsResult(issues: seq<ModRsIssue>)
  {
    /** `len` */
    function Len(): nat {
      |issues|
    }

    /** `is_empty` */
    predicate IsEmpty() {
      issues == []
    }
  }

  /** `ModRsResult::new` and `Default`: nothing found. */
  function NewResult(): (r: ModRsResult)
    ensures r.Len() == 0 && r.IsEmpty()
  {
    ModRsResult([])
  }

  /** A result is empty exactly when it counts no issue. */
  lemma EmptyIffZero(r: ModRsResult)
    ensures r.IsEmpty() <==> r.Len() == 0
  {
  }

  /** `find_mod_rs_issues` on a path that is a file: one issue when it is a
      `mod.rs` inside a named directory, none otherwise. */
  function CheckFile(p: Path): (r: ModRsResult)
    ensures r.Len() <= 1
  {
    if IsModRs(p) then
      match CreateIssue(p)
      case Some(issue) => ModRsResult([issue])
      case None => NewResult()
    else NewResult()
  }

  /** A file is reported exactly when it is named `mod.rs` and sits in a
      named directory, and the report is about that file. */
  lemma CheckFileIff(p: Path)
    ensures !CheckFile(p).IsEmpty() <==> IsModRs(p) && |p.parts| >= 2
    ensures !CheckFile(p).IsEmpty() ==> CheckFile(p).issues[0].path == p
  {
    CreateIssueIff(p);
  }

  /** A `mod.rs` at the top of a relative path has no directory to name,
      and `lib.rs` is never reported. */
  lemma FileExamples(dir: string)
    ensures CheckFile(Path(false, ["mod.rs"])).IsEmpty()
    ensures CheckFile(Path(true, [dir, "lib.rs"])).IsEmpty()
    ensures CheckFile(Path(true, [dir, "mod.rs"])).Len() == 1
  {
    assert "lib.rs" != "mod.rs" by { assert "lib.rs"[0] != "mod.rs"[0]; }
  }
}
