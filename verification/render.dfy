/** One file's diff block (render.rs): a header, the grouped imports the
    fixes need, the entries grouped under analyzer headers, and a footer,
    with the visible width the grid reserves for it.

    Every output line is built from a kind and a plain text; the kind picks
    the colouring, and the width is measured on the plain text, as the
    source measures before colouring. */
module Render {
  import opened Wrappers
  import opened Text
  import opened Ansi
  import opened Formatting
  import opened Seqs
  import opened DiffTypes
  import opened Grouping
  import opened Rendered
  import opened Grid

  datatype Kind =
    | FileHeader | Separator | ImportsHeader | ImportLine | Blank
    | AnalyzerHeader | LineNumber | Removed | Added | Footer

  datatype Out = Out(kind: Kind, text: string)

  /** The colouring of each kind of line. */
  function Show(o: Out): string {
    match o.kind
    case FileHeader => Paint(Bold, Paint(Cyan, o.text))
    case Separator => Paint(Dimmed, o.text)
    case ImportsHeader => Paint(Dimmed, o.text)
    case ImportLine => Paint(Green, o.text)
    case Blank => o.text
    case AnalyzerHeader => Paint(Bold, Paint(Green, o.text))
    case LineNumber => Paint(Cyan, o.text)
    case Removed => Paint(Red, o.text)
    case Added => Paint(Green, o.text)
    case Footer => Paint(Dimmed, o.text)
  }

  /** Colouring never changes a line's visible width. */
  lemma VisShow(o: Out)
    ensures Vis(Show(o)) == Vis(o.text)
  {
    match o.kind
    case FileHeader => VisPaint(Cyan, o.text); VisPaint(Bold, Paint(Cyan, o.text));
    case AnalyzerHeader => VisPaint(Green, o.text); VisPaint(Bold, Paint(Green, o.text));
    case Separator => VisPaint(Dimmed, o.text);
    case ImportsHeader => VisPaint(Dimmed, o.text);
    case Footer => VisPaint(Dimmed, o.text);
    case ImportLine => VisPaint(Green, o.text);
    case Added => VisPaint(Green, o.text);
    case LineNumber => VisPaint(Cyan, o.text);
    case Removed => VisPaint(Red, o.text);
    case Blank =>
  }

  function BlankOut(): Out {
    Out(Kind.Blank, "")
  }

  // ---------------------------------------------------------------------
  // The parts of a block

  /** `render_header`: the path, then a rule of 40 `─`. */
  function HeaderOuts(path: string): seq<Out> {
    [Out(FileHeader, "File: " + path), Out(Separator, Repeat('─', 40))]
  }

  /** The imports the entries carry, in entry order. */
  function ImportsOf(entries: seq<DiffEntry>): (r: seq<string>)
    ensures r == [] <==> forall k :: 0 <= k < |entries| ==> entries[k].importStmt.None?
  {
    if entries == [] then []
    else
      (match entries[0].importStmt case Some(i) => [i] case None => [])
        + ImportsOf(entries[1..])
  }

  function ImportText(stmt: string): string {
    "+    " + stmt
  }

  /** `render_imports`: nothing when no entry carries an import; otherwise
      a header, one line per grouped statement, and a blank line. */
  function ImportOuts(entries: seq<DiffEntry>): seq<Out> {
    var imports := ImportsOf(entries);
    if imports == [] then [] else ImportSectionOf(GroupImports(imports))
  }

  /** The import section with the corrected grouping of the README's
      findings: the statement for a root imports exactly its paths. */
  function ImportOutsFixed(entries: seq<DiffEntry>): seq<Out> {
    var imports := ImportsOf(entries);
    if imports == [] then [] else ImportSectionOf(GroupImportsFixed(imports))
  }

  /** The import section for already grouped statements. */
  function ImportSectionOf(grouped: seq<string>): seq<Out> {
    [Out(ImportsHeader, "Imports (file top)")]
      + seq(|grouped|, k requires 0 <= k < |grouped| => Out(ImportLine, ImportText(grouped[k])))
      + [BlankOut()]
  }

  /** How many entries an analyzer produced. */
  function CountOf(entries: seq<DiffEntry>, name: string): nat {
    if entries == [] then 0
    else (if entries[0].analyzer == name then 1 else 0) + CountOf(entries[1..], name)
  }

  function AnalyzerText(name: string, count: nat): string {
    name + " (" + NatToString(count) + " issues)"
  }

  function LineText(e: DiffEntry): string {
    "Line " + NatToString(e.line)
  }

  function RemovedText(e: DiffEntry): string {
    "-    " + e.original
  }

  function AddedText(e: DiffEntry): string {
    "+    " + e.modified
  }

  /** `render_issue_entry`: four lines per entry. */
  function EntryOuts(e: DiffEntry): seq<Out> {
    [Out(LineNumber, LineText(e)), Out(Removed, RemovedText(e)), Out(Added, AddedText(e)), BlankOut()]
  }

  /** What an entry adds in front of its own lines: on an analyzer change,
      a blank line unless nothing came before, the analyzer's header with
      its count over the whole file, and a blank line. */
  function AnalyzerHead(e: DiffEntry, all: seq<DiffEntry>, last: string): seq<Out> {
    if e.analyzer != last then
      (if last != "" then [BlankOut()] else [])
        + [Out(AnalyzerHeader, AnalyzerText(e.analyzer, CountOf(all, e.analyzer))), BlankOut()]
    else []
  }

  /** `render_issues` from the entry `entries[0]` on, `last` being the
      analyzer of the previous entry (`""` before the first). An entry
      whose analyzer name is empty never differs from the initial `""`, so
      it gets no header when it comes first. */
  function IssueOuts(entries: seq<DiffEntry>, all: seq<DiffEntry>, last: string): seq<Out> {
    if entries == [] then []
    else
      AnalyzerHead(entries[0], all, last) + EntryOuts(entries[0])
        + IssueOuts(entries[1..], all, entries[0].analyzer)
  }

  /** `render_footer`: a rule of 40 `═`. */
  function FooterOuts(): seq<Out> {
    [Out(Footer, Repeat('═', 40))]
  }

  /** The whole block, line by line. */
  function Block(file: FileDiff): seq<Out> {
    HeaderOuts(file.path) + ImportOuts(file.entries) + IssueOuts(file.entries, file.entries, "") + FooterOuts()
  }

  /** The widest plain text. */
  function MaxVis(outs: seq<Out>): (m: nat)
    ensures forall k :: 0 <= k < |outs| ==> Vis(outs[k].text) <= m
    ensures m == 0 || exists k :: 0 <= k < |outs| && Vis(outs[k].text) == m
  {
    if outs == [] then 0 else Max(Vis(outs[0].text), MaxVis(outs[1..]))
  }

  /** `render_file_block`: the coloured lines and the widest plain text,
      floored at `MIN_FILE_WIDTH`. Every line fits the width, and the width
      is either the floor or the width of some line. */
  function RenderFileBlock(file: FileDiff): (r: RenderedFile)
    ensures |r.lines| == |Block(file)|
    ensures r.width >= MinFileWidth
    ensures Truthful(r)
    ensures r.width == MinFileWidth || exists k :: 0 <= k < |r.lines| && Vis(r.lines[k]) == r.width
  {
    var outs := Block(file);
    var r := RenderedFile(Map(outs, Show), Max(MaxVis(outs), MinFileWidth));
    assert forall k :: 0 <= k < |outs| ==> Vis(r.lines[k]) == Vis(outs[k].text) by {
      forall k | 0 <= k < |outs|
        ensures Vis(r.lines[k]) == Vis(outs[k].text)
      {
        VisShow(outs[k]);
      }
    }
    r
  }

  // ---------------------------------------------------------------------
  // The shape of a block

  /** The texts of the lines of one kind, in order. */
  function OfKind(outs: seq<Out>, k: Kind): seq<string> {
    if outs == [] then []
    else (if outs[0].kind == k then [outs[0].text] else []) + OfKind(outs[1..], k)
  }

  lemma {:induction false} OfKindAppend(a: seq<Out>, b: seq<Out>, k: Kind)
    ensures OfKind(a + b, k) == OfKind(a, k) + OfKind(b, k)
    decreases |a|
  {
    if a == [] {
      assert a + b == b;
    } else {
      assert (a + b)[0] == a[0] && (a + b)[1..] == a[1..] + b;
      OfKindAppend(a[1..], b, k);
    }
  }

  lemma OfKindSingle(o: Out, k: Kind)
    ensures OfKind([o], k) == if o.kind == k then [o.text] else []
  {
    assert [o][1..] == [];
  }

  /** Lines none of which has kind `k`. */
  lemma {:induction false} NoneOfKind(outs: seq<Out>, k: Kind)
    requires forall j :: 0 <= j < |outs| ==> outs[j].kind != k
    ensures OfKind(outs, k) == []
    decreases |outs|
  {
    if outs != [] {
      NoneOfKind(outs[1..], k);
    }
  }

  /** Lines all of one kind give all their texts. */
  lemma {:induction false} AllOfKind(outs: seq<Out>, k: Kind)
    requires forall j :: 0 <= j < |outs| ==> outs[j].kind == k
    ensures OfKind(outs, k) == seq(|outs|, j requires 0 <= j < |outs| => outs[j].text)
    decreases |outs|
  {
    if outs != [] {
      AllOfKind(outs[1..], k);
    }
  }

  /** The kinds of the block's four parts. */
  lemma BlockOfKind(file: FileDiff, k: Kind)
    ensures OfKind(Block(file), k) == OfKind(HeaderOuts(file.path), k) + OfKind(ImportOuts(file.entries), k)
      + OfKind(IssueOuts(file.entries, file.entries, ""), k) + OfKind(FooterOuts(), k)
  {
    var h, imp, iss, f := HeaderOuts(file.path), ImportOuts(file.entries), IssueOuts(file.entries, file.entries, ""), FooterOuts();
    OfKindAppend(h, imp, k);
    OfKindAppend(h + imp, iss, k);
    OfKindAppend(h + imp + iss, f, k);
  }

  predicate IsEntryKind(k: Kind) {
    k == LineNumber || k == Removed || k == Added
  }

  /** The text an entry shows on its line of kind `k`. */
  function EntryText(k: Kind, e: DiffEntry): string {
    if k == LineNumber then LineText(e) else if k == Removed then RemovedText(e) else AddedText(e)
  }

  lemma EntryOfKind(e: DiffEntry, k: Kind)
    ensures OfKind(EntryOuts(e), k) ==
      if IsEntryKind(k) then [EntryText(k, e)] else if k == Kind.Blank then [""] else []
  {
    FourOfKind(LineText(e), RemovedText(e), AddedText(e), k);
  }

  /** The four lines of an entry, for any texts: one line of each entry
      kind and a blank line. */
  lemma FourOfKind(a: string, b: string, c: string, k: Kind)
    ensures OfKind([Out(LineNumber, a), Out(Removed, b), Out(Added, c), BlankOut()], k)
      == if k == LineNumber then [a] else if k == Removed then [b] else if k == Added then [c]
         else if k == Kind.Blank then [""] else []
  {
    var o0, o1, o2, o3 := Out(LineNumber, a), Out(Removed, b), Out(Added, c), BlankOut();
    assert [o0, o1, o2, o3][1..] == [o1, o2, o3];
    assert [o1, o2, o3][1..] == [o2, o3];
    assert [o2, o3][1..] == [o3];
    OfKindSingle(o3, k);
    var t3 := OfKind([o3], k);
    var t2 := (if o2.kind == k then [c] else []) + t3;
    var t1 := (if o1.kind == k then [b] else []) + t2;
    assert OfKind([o2, o3], k) == t2;
    assert OfKind([o1, o2, o3], k) == t1;
    assert OfKind([o0, o1, o2, o3], k) == (if o0.kind == k then [a] else []) + t1;
    if k == LineNumber {
      assert t1 == [];
    } else if k == Removed {
      assert t1 == [b];
    } else if k == Added {
      assert t1 == [c];
    } else {
      assert t2 == t3;
    }
  }

  /** An entry's analyzer head holds blank lines and at most one header:
      the entry's analyzer with its count, when the analyzer changes. */
  lemma HeadOfKind(e: DiffEntry, all: seq<DiffEntry>, last: string, k: Kind)
    ensures k == AnalyzerHeader ==>
      OfKind(AnalyzerHead(e, all, last), k)
        == if e.analyzer != last then [AnalyzerText(e.analyzer, CountOf(all, e.analyzer))] else []
    ensures k != AnalyzerHeader && k != Blank ==> OfKind(AnalyzerHead(e, all, last), k) == []
  {
    var pre: seq<Out> := if last != "" then [BlankOut()] else [];
    if e.analyzer != last {
      var hd := Out(AnalyzerHeader, AnalyzerText(e.analyzer, CountOf(all, e.analyzer)));
      assert AnalyzerHead(e, all, last) == pre + [hd] + [BlankOut()];
      OfKindAppend(pre + [hd], [BlankOut()], k);
      OfKindAppend(pre, [hd], k);
      OfKindSingle(hd, k);
      OfKindSingle(BlankOut(), k);
      if pre != [] {
        assert pre == [BlankOut()];
      }
    }
  }

  // ---------------------------------------------------------------------
  // The shape of a block

  /** The block starts with its file header and rule and ends with its
      closing rule; the rendered lines are these, coloured. */
  lemma BlockFrame(file: FileDiff)
    ensures var b := Block(file);
            |b| == 3 + |ImportOuts(file.entries)| + |IssueOuts(file.entries, file.entries, "")|
            && b[0] == Out(FileHeader, "File: " + file.path)
            && b[1] == Out(Separator, Repeat('─', 40))
            && b[|b| - 1] == Out(Footer, Repeat('═', 40))
    ensures forall k :: 0 <= k < |Block(file)| ==> RenderFileBlock(file).lines[k] == Show(Block(file)[k])
  {
  }

  /** A file without entries renders its header, its rule and its closing
      rule, nothing else, and is as wide as the wider of its header and
      the floor. */
  lemma EmptyFileBlock(path: string)
    ensures Block(FileDiff(path, [])) == HeaderOuts(path) + FooterOuts()
    ensures |RenderFileBlock(FileDiff(path, [])).lines| == 3
    ensures RenderFileBlock(FileDiff(path, [])).width == Max(Vis("File: " + path), MinFileWidth)
  {
    var outs := HeaderOuts(path) + FooterOuts();
    assert Block(FileDiff(path, [])) == outs;
    HeaderFooterWidth(path);
  }

  /** The header, rule and footer are as wide as the header or the
      40-column rules, whichever is wider. */
  lemma HeaderFooterWidth(path: string)
    ensures MaxVis(HeaderOuts(path) + FooterOuts()) == Max(Vis("File: " + path), 40)
  {
    var b := HeaderOuts(path) + FooterOuts();
    VisPlain(Repeat('─', 40));
    VisPlain(Repeat('═', 40));
    assert b[1..] == [b[1], b[2]] && b[1..][1..] == [b[2]] && b[2..] == [b[2]];
  }

  /** The import section is there exactly when some entry carries an
      import: the third line is its header then, and never otherwise. */
  lemma ImportSection(file: FileDiff)
    ensures var present := exists k :: 0 <= k < |file.entries| && file.entries[k].importStmt.Some?;
            Block(file)[2] == Out(ImportsHeader, "Imports (file top)") <==> present
  {
    var es := file.entries;
    var imp := ImportOuts(es);
    var after := IssueOuts(es, es, "") + FooterOuts();
    BlockThird(file);
    ImportOutsFront(es);
    if imp == [] {
      IssuesFront(es, es, "");
      assert (imp + after)[0] == after[0];
    } else {
      assert (imp + after)[0] == imp[0];
    }
  }

  lemma BlockThird(file: FileDiff)
    ensures Block(file)[2] == (ImportOuts(file.entries) + (IssueOuts(file.entries, file.entries, "") + FooterOuts()))[0]
  {
    ThirdAfterTwo(HeaderOuts(file.path), ImportOuts(file.entries), IssueOuts(file.entries, file.entries, ""), FooterOuts());
  }

  lemma ThirdAfterTwo<T>(h: seq<T>, a: seq<T>, b: seq<T>, c: seq<T>)
    requires |h| == 2 && c != []
    ensures (h + a + b + c)[2] == (a + (b + c))[0]
  {
    assert h + a + b + c == h + (a + (b + c));
  }

  lemma ImportOutsFront(entries: seq<DiffEntry>)
    ensures ImportOuts(entries) == [] <==> forall k :: 0 <= k < |entries| ==> entries[k].importStmt.None?
    ensures ImportOuts(entries) != [] ==> ImportOuts(entries)[0] == Out(ImportsHeader, "Imports (file top)")
  {
  }

  /** The import lines of a block are the grouped statements of the
      entries' imports, in the grouper's order. */
  lemma ImportLines(file: FileDiff)
    ensures OfKind(Block(file), ImportLine) == Map(GroupImports(ImportsOf(file.entries)), ImportText)
  {
    var es := file.entries;
    BlockOfKind(file, ImportLine);
    NoneOfKind(HeaderOuts(file.path), ImportLine);
    NoneOfKind(FooterOuts(), ImportLine);
    IssuesNoImportLines(es, es, "");
    ImportLinesOfKind(es);
  }

  /** The issue section never starts with an import header. */
  lemma IssuesFront(entries: seq<DiffEntry>, all: seq<DiffEntry>, last: string)
    ensures IssueOuts(entries, all, last) != [] ==> IssueOuts(entries, all, last)[0].kind != ImportsHeader
  {
    if entries != [] {
      var hd := AnalyzerHead(entries[0], all, last);
      assert IssueOuts(entries, all, last)[0] == if hd != [] then hd[0] else EntryOuts(entries[0])[0];
    }
  }

  lemma ImportLinesOfKind(entries: seq<DiffEntry>)
    ensures OfKind(ImportOuts(entries), ImportLine) == Map(GroupImports(ImportsOf(entries)), ImportText)
  {
    var imports := ImportsOf(entries);
    if imports != [] {
      SectionOfKind(GroupImports(imports), ImportLine);
    } else {
      assert GroupImports(imports) == [];
    }
  }

  /** The corrected section has one line where the program's has one, and
      its import lines are the corrected statements. */
  lemma ImportOutsFixedLines(entries: seq<DiffEntry>)
    ensures |ImportOutsFixed(entries)| == |ImportOuts(entries)|
    ensures forall k :: 0 <= k < |ImportOuts(entries)| ==> ImportOutsFixed(entries)[k].kind == ImportOuts(entries)[k].kind
    ensures OfKind(ImportOutsFixed(entries), ImportLine) == Map(GroupImportsFixed(ImportsOf(entries)), ImportText)
  {
    var imports := ImportsOf(entries);
    if imports != [] {
      SectionOfKind(GroupImportsFixed(imports), ImportLine);
      SectionKinds(GroupImportsFixed(imports), GroupImports(imports));
    } else {
      assert GroupImportsFixed(imports) == [];
    }
  }

  /** Sections of equally many statements agree line by line on kinds. */
  lemma SectionKinds(a: seq<string>, b: seq<string>)
    requires |a| == |b|
    ensures |ImportSectionOf(a)| == |ImportSectionOf(b)|
    ensures forall k :: 0 <= k < |ImportSectionOf(a)| ==> ImportSectionOf(a)[k].kind == ImportSectionOf(b)[k].kind
  {
  }

  /** An import section: the header, the statements, a blank line. */
  lemma SectionOfKind(grouped: seq<string>, k: Kind)
    ensures OfKind(ImportSectionOf(grouped), k) ==
      if k == ImportLine then Map(grouped, ImportText)
      else if k == ImportsHeader then ["Imports (file top)"]
      else if k == Kind.Blank then [""]
      else []
  {
    var hd := Out(ImportsHeader, "Imports (file top)");
    var lines := seq(|grouped|, j requires 0 <= j < |grouped| => Out(ImportLine, ImportText(grouped[j])));
    OfKindAppend([hd], lines, k);
    OfKindAppend([hd] + lines, [BlankOut()], k);
    OfKindSingle(hd, k);
    OfKindSingle(BlankOut(), k);
    if k == ImportLine {
      AllOfKind(lines, k);
    } else {
      NoneOfKind(lines, k);
    }
  }

  /** The issue section holds no import lines. */
  lemma {:induction false} IssuesNoImportLines(entries: seq<DiffEntry>, all: seq<DiffEntry>, last: string)
    ensures OfKind(IssueOuts(entries, all, last), ImportLine) == []
    decreases |entries|
  {
    if entries != [] {
      var e := entries[0];
      IssuesNoImportLines(entries[1..], all, e.analyzer);
      HeadOfKind(e, all, last, ImportLine);
      EntryOfKind(e, ImportLine);
      OfKindAppend(AnalyzerHead(e, all, last), EntryOuts(e), ImportLine);
      OfKindAppend(AnalyzerHead(e, all, last) + EntryOuts(e), IssueOuts(entries[1..], all, e.analyzer), ImportLine);
    }
  }

  /** The import section has no entry lines and no analyzer headers. */
  lemma ImportOutsKinds(entries: seq<DiffEntry>, k: Kind)
    requires k != ImportsHeader && k != ImportLine && k != Kind.Blank
    ensures OfKind(ImportOuts(entries), k) == []
  {
    var imports := ImportsOf(entries);
    if imports != [] {
      SectionOfKind(GroupImports(imports), k);
    }
  }

  /** The lines of kind `k` of the issue section, one per entry. */
  lemma {:induction false} IssueKind(entries: seq<DiffEntry>, all: seq<DiffEntry>, last: string, k: Kind)
    requires IsEntryKind(k)
    ensures OfKind(IssueOuts(entries, all, last), k) == Map(entries, e => EntryText(k, e))
    decreases |entries|
  {
    if entries != [] {
      var e := entries[0];
      var f := (x: DiffEntry) => EntryText(k, x);
      var rest := IssueOuts(entries[1..], all, e.analyzer);
      IssueKind(entries[1..], all, e.analyzer, k);
      HeadOfKind(e, all, last, k);
      EntryOfKind(e, k);
      OfKindAppend(AnalyzerHead(e, all, last), EntryOuts(e), k);
      OfKindAppend(AnalyzerHead(e, all, last) + EntryOuts(e), rest, k);
      assert entries == [e] + entries[1..];
      MapAppend([e], entries[1..], f);
      MapSingle(e, f);
    }
  }

  /** The entry lines of a block are, in order, exactly the entries' line
      numbers, removed lines and added lines: four lines per entry, the
      blank one included, whatever headers come between. */
  lemma EntriesInOrder(file: FileDiff)
    ensures OfKind(Block(file), LineNumber) == Map(file.entries, LineText)
    ensures OfKind(Block(file), Removed) == Map(file.entries, RemovedText)
    ensures OfKind(Block(file), Added) == Map(file.entries, AddedText)
  {
    EntryKindInOrder(file, LineNumber);
    EntryKindInOrder(file, Removed);
    EntryKindInOrder(file, Added);
    var es := file.entries;
    assert Map(es, e => EntryText(LineNumber, e)) == Map(es, LineText);
    assert Map(es, e => EntryText(Removed, e)) == Map(es, RemovedText);
    assert Map(es, e => EntryText(Added, e)) == Map(es, AddedText);
  }

  lemma EntryKindInOrder(file: FileDiff, k: Kind)
    requires IsEntryKind(k)
    ensures OfKind(Block(file), k) == Map(file.entries, e => EntryText(k, e))
  {
    var h, imp, f := HeaderOuts(file.path), ImportOuts(file.entries), FooterOuts();
    var issues := IssueOuts(file.entries, file.entries, "");
    NoneOfKind(h, k);
    NoneOfKind(f, k);
    ImportOutsKinds(file.entries, k);
    IssueKind(file.entries, file.entries, "", k);
    OnlyMiddleOfKind(h, imp, issues, f, k);
  }

  /** Lines of kind `k` come only from the part that has any. */
  lemma OnlyMiddleOfKind(h: seq<Out>, imp: seq<Out>, issues: seq<Out>, f: seq<Out>, k: Kind)
    requires OfKind(h, k) == [] && OfKind(imp, k) == [] && OfKind(f, k) == []
    ensures OfKind(h + imp + issues + f, k) == OfKind(issues, k)
  {
    OfKindAppend(h, imp, k);
    OfKindAppend(h + imp, issues, k);
    OfKindAppend(h + imp + issues, f, k);
  }

  /** The analyzers whose entries open a new group: the first entry's
      unless it matches `last`, and every entry's whose analyzer differs
      from the one before it. */
  function Changes(entries: seq<DiffEntry>, last: string): seq<string> {
    if entries == [] then []
    else
      (if entries[0].analyzer != last then [entries[0].analyzer] else [])
        + Changes(entries[1..], entries[0].analyzer)
  }

  /** The analyzer headers are, in order, one per group of consecutive
      entries with the same analyzer, each with that analyzer's count over
      the whole file. */
  lemma {:induction false} HeadersAtChanges(entries: seq<DiffEntry>, all: seq<DiffEntry>, last: string)
    ensures OfKind(IssueOuts(entries, all, last), AnalyzerHeader)
      == Map(Changes(entries, last), n => AnalyzerText(n, CountOf(all, n)))
    decreases |entries|
  {
    if entries != [] {
      var e := entries[0];
      var f := n => AnalyzerText(n, CountOf(all, n));
      var here: seq<string> := if e.analyzer != last then [e.analyzer] else [];
      var head, rest := AnalyzerHead(e, all, last), IssueOuts(entries[1..], all, e.analyzer);
      HeadersAtChanges(entries[1..], all, e.analyzer);
      assert OfKind(head, AnalyzerHeader) == Map(here, f) by {
        HeadOfKind(e, all, last, AnalyzerHeader);
        if here != [] {
          MapSingle(e.analyzer, f);
        }
      }
      assert OfKind(EntryOuts(e), AnalyzerHeader) == [] by {
        EntryOfKind(e, AnalyzerHeader);
      }
      OfKindAppend(head, EntryOuts(e), AnalyzerHeader);
      OfKindAppend(head + EntryOuts(e), rest, AnalyzerHeader);
      MapAppend(here, Changes(entries[1..], e.analyzer), f);
    }
  }

  /** Every group opener is some entry's analyzer, and no two come in a
      row with the same name. */
  lemma {:induction false} ChangesShape(entries: seq<DiffEntry>, last: string)
    ensures forall n :: n in Changes(entries, last) ==> exists k :: 0 <= k < |entries| && entries[k].analyzer == n
    ensures Changes(entries, last) != [] ==> Changes(entries, last)[0] != last
    ensures forall j :: 0 <= j < |Changes(entries, last)| - 1 ==> Changes(entries, last)[j] != Changes(entries, last)[j + 1]
    decreases |entries|
  {
    if entries != [] {
      var e := entries[0];
      var rest := Changes(entries[1..], e.analyzer);
      ChangesShape(entries[1..], e.analyzer);
      forall n | n in rest
        ensures exists k :: 0 <= k < |entries| && entries[k].analyzer == n
      {
        var k :| 0 <= k < |entries[1..]| && entries[1..][k].analyzer == n;
        assert entries[k + 1].analyzer == n;
      }
      if e.analyzer != last {
        assert Changes(entries, last) == [e.analyzer] + rest;
      }
    }
  }

  /** Entries of one analyzer. */
  lemma {:induction false} CountOfAll(entries: seq<DiffEntry>, a: string)
    requires forall k :: 0 <= k < |entries| ==> entries[k].analyzer == a
    ensures CountOf(entries, a) == |entries|
    ensures Changes(entries, a) == []
    decreases |entries|
  {
    if entries != [] {
      CountOfAll(entries[1..], a);
    }
  }

  /** A file whose entries all come from one analyzer shows one analyzer
      header, with the number of entries, whenever that analyzer's name is
      not empty; with an empty name it shows none. */
  lemma OneAnalyzer(file: FileDiff, a: string)
    requires file.entries != []
    requires forall k :: 0 <= k < |file.entries| ==> file.entries[k].analyzer == a
    ensures OfKind(Block(file), AnalyzerHeader)
      == if a != "" then [AnalyzerText(a, |file.entries|)] else []
  {
    var es := file.entries;
    var h, imp, f := HeaderOuts(file.path), ImportOuts(es), FooterOuts();
    NoneOfKind(h, AnalyzerHeader);
    NoneOfKind(f, AnalyzerHeader);
    ImportOutsKinds(es, AnalyzerHeader);
    OneAnalyzerIssues(es, a);
    OnlyMiddleOfKind(h, imp, IssueOuts(es, es, ""), f, AnalyzerHeader);
  }

  /** The issue section of entries from one analyzer. */
  lemma OneAnalyzerIssues(es: seq<DiffEntry>, a: string)
    requires es != []
    requires forall k :: 0 <= k < |es| ==> es[k].analyzer == a
    ensures OfKind(IssueOuts(es, es, ""), AnalyzerHeader)
      == if a != "" then [AnalyzerText(a, |es|)] else []
  {
    HeadersAtChanges(es, es, "");
    OneChange(es, a);
    CountOfAll(es, a);
    var f := n => AnalyzerText(n, CountOf(es, n));
    MapSingle(a, f);
  }

  /** Entries of one analyzer open one group, unless its name is empty. */
  lemma OneChange(es: seq<DiffEntry>, a: string)
    requires es != []
    requires forall k :: 0 <= k < |es| ==> es[k].analyzer == a
    ensures Changes(es, "") == if a != "" then [a] else []
  {
    CountOfAll(es[1..], a);
  }
}
