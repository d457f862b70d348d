/** The three ways the previewed changes are shown (display.rs): a per-file
    summary of issue counts, the full diff laid out in columns, and the
    interactive walk that asks, fix by fix, which changes to apply.

    Output is modelled as the sequence of printed lines; a `println!` of a
    text holding `\n` contributes one line per piece. The terminal width and
    the answers read from standard input are parameters. */
module Display {
  import opened Wrappers
  import opened Text
  import opened Ansi
  import opened Formatting
  import opened Seqs
  import opened Ordering
  import opened DiffTypes
  import opened Rendered
  import opened Grid
  import opened Render

  /** `println!("\n{}\n", title)`, the title bold when colouring. */
  function Banner(title: string, color: bool): seq<string> {
    ["", if color then Paint(Bold, title) else title, ""]
  }

  function TotalText(d: DiffResult): string {
    "Total: " + NatToString(TotalChangesAll(d.files)) + " changes in " + NatToString(TotalFiles(d)) + " files"
  }

  /** The closing total, yellow and bold when colouring. */
  function TotalLine(d: DiffResult, color: bool): string {
    if color then Paint(Bold, Paint(Yellow, TotalText(d))) else TotalText(d)
  }

  // ---------------------------------------------------------------------
  // show_summary

  function IssueWord(count: nat): string {
    if count == 1 then "issue" else "issues"
  }

  /** `  <analyzer>: <count> issue(s)`, the analyzer green when colouring. */
  function CountLine(analyzer: string, count: nat, color: bool): string {
    "  " + (if color then Paint(Green, analyzer) else analyzer) + ": " + NatToString(count) + " " + IssueWord(count)
  }

  /** `<path>:`, the path cyan and bold when colouring. */
  function PathLine(path: string, color: bool): string {
    (if color then Paint(Bold, Paint(Cyan, path)) else path) + ":"
  }

  predicate HasAnalyzer(entries: seq<DiffEntry>, a: string) {
    exists k :: 0 <= k < |entries| && entries[k].analyzer == a
  }

  /** `order` is one way a `HashMap` keyed by analyzer can hand out its
      keys: every analyzer of the entries, each once, in any order. */
  ghost predicate Enumerates(order: seq<string>, entries: seq<DiffEntry>) {
    NoDup(order) && forall a :: a in order <==> HasAnalyzer(entries, a)
  }

  /** One file of the summary: its path, one count line per analyzer in
      the map's order, and a blank line. */
  function FileSummary(file: FileDiff, order: seq<string>, color: bool): seq<string>
    requires Enumerates(order, file.entries)
  {
    [PathLine(file.path, color)]
      + Map(order, a => CountLine(a, CountOf(file.entries, a), color))
      + [""]
  }

  /** The map orders of every file, one per file. */
  ghost predicate OrdersFor(files: seq<FileDiff>, orders: seq<seq<string>>) {
    |orders| == |files| && forall k :: 0 <= k < |files| ==> Enumerates(orders[k], files[k].entries)
  }

  function FileSummaries(files: seq<FileDiff>, orders: seq<seq<string>>, color: bool): seq<string>
    requires OrdersFor(files, orders)
  {
    if files == [] then []
    else FileSummary(files[0], orders[0], color) + FileSummaries(files[1..], orders[1..], color)
  }

  /** `show_summary`: a banner, every file's counts, and the total. */
  function ShowSummary(d: DiffResult, orders: seq<seq<string>>, color: bool): seq<string>
    requires OrdersFor(d.files, orders)
  {
    Banner("DIFF SUMMARY", color) + FileSummaries(d.files, orders, color) + [TotalLine(d, color)]
  }

  /** The analyzers in the order they first occur: one possible order of
      the map, so every file has at least one. */
  function FirstSeen(entries: seq<DiffEntry>): (r: seq<string>)
    ensures Enumerates(r, entries)
    decreases |entries|
  {
    if entries == [] then []
    else
      var rest := FirstSeen(entries[..|entries| - 1]);
      var a := entries[|entries| - 1].analyzer;
      assert forall b :: HasAnalyzer(entries, b) <==> HasAnalyzer(entries[..|entries| - 1], b) || b == a by {
        forall b | HasAnalyzer(entries, b) && b != a
          ensures HasAnalyzer(entries[..|entries| - 1], b)
        {
          var k :| 0 <= k < |entries| && entries[k].analyzer == b;
          assert entries[..|entries| - 1][k] == entries[k];
        }
        forall b | HasAnalyzer(entries[..|entries| - 1], b)
          ensures HasAnalyzer(entries, b)
        {
          var k :| 0 <= k < |entries| - 1 && entries[..|entries| - 1][k].analyzer == b;
          assert entries[k].analyzer == b;
        }
        assert entries[|entries| - 1].analyzer == a;
      }
      if a in rest then rest else rest + [a]
  }

  /** The counts a summary prints for one file, added up. */
  function SumCounts(order: seq<string>, entries: seq<DiffEntry>): nat {
    if order == [] then 0 else CountOf(entries, order[0]) + SumCounts(order[1..], entries)
  }

  /** Taking off the first entry takes one off the count of its analyzer. */
  lemma {:induction false} SumCountsStep(order: seq<string>, entries: seq<DiffEntry>)
    requires entries != []
    ensures SumCounts(order, entries) == multiset(order)[entries[0].analyzer] + SumCounts(order, entries[1..])
    decreases |order|
  {
    if order != [] {
      SumCountsStep(order[1..], entries);
      assert order == [order[0]] + order[1..];
    }
  }

  /** Over a duplicate-free list naming every analyzer (and perhaps
      more), the counts add up to the number of entries. */
  lemma {:induction false} SumCountsCovering(order: seq<string>, entries: seq<DiffEntry>)
    requires NoDup(order)
    requires forall k :: 0 <= k < |entries| ==> entries[k].analyzer in order
    ensures SumCounts(order, entries) == |entries|
    decreases |entries|
  {
    if entries == [] {
      SumCountsNone(order, entries);
    } else {
      SumCountsStep(order, entries);
      NoDupCount(order);
      assert entries[0].analyzer in order;
      assert forall k :: 0 <= k < |entries[1..]| ==> entries[1..][k] == entries[k + 1];
      SumCountsCovering(order, entries[1..]);
    }
  }

  lemma {:induction false} SumCountsNone(order: seq<string>, entries: seq<DiffEntry>)
    requires entries == []
    ensures SumCounts(order, entries) == 0
    decreases |order|
  {
    if order != [] {
      SumCountsNone(order[1..], entries);
    }
  }

  /** Whatever order the map hands out its keys in, a file's count lines
      add up to its number of entries. */
  lemma FileCountsAddUp(file: FileDiff, order: seq<string>)
    requires Enumerates(order, file.entries)
    ensures SumCounts(order, file.entries) == TotalChanges(file)
  {
    forall k | 0 <= k < |file.entries|
      ensures file.entries[k].analyzer in order
    {
      assert HasAnalyzer(file.entries, file.entries[k].analyzer);
    }
    SumCountsCovering(order, file.entries);
  }

  /** Every analyzer the summary lists has at least one issue. */
  lemma {:induction false} CountPositive(entries: seq<DiffEntry>, a: string)
    requires HasAnalyzer(entries, a)
    ensures CountOf(entries, a) >= 1
    decreases |entries|
  {
    if entries[0].analyzer != a {
      var k :| 0 <= k < |entries| && entries[k].analyzer == a;
      assert entries[1..][k - 1] == entries[k];
      CountPositive(entries[1..], a);
    }
  }

  /** Two orders of the same map list the same count lines, rearranged. */
  lemma SummaryAnyOrder(file: FileDiff, o1: seq<string>, o2: seq<string>, color: bool)
    requires Enumerates(o1, file.entries) && Enumerates(o2, file.entries)
    ensures |FileSummary(file, o1, color)| == |FileSummary(file, o2, color)| == |o1| + 2
    ensures multiset(FileSummary(file, o1, color)) == multiset(FileSummary(file, o2, color))
  {
    NoDupPermutation(o1, o2);
    var f := a => CountLine(a, CountOf(file.entries, a), color);
    MapPermutation(o1, o2, f);
    assert |o1| == |multiset(o1)| == |multiset(o2)| == |o2|;
  }

  /** The per-analyzer counts of all files add up to the total the last
      line prints. */
  function AllCounts(files: seq<FileDiff>, orders: seq<seq<string>>): nat
    requires |orders| == |files|
  {
    if files == [] then 0 else SumCounts(orders[0], files[0].entries) + AllCounts(files[1..], orders[1..])
  }

  lemma {:induction false} SummaryMatchesTotal(files: seq<FileDiff>, orders: seq<seq<string>>)
    requires OrdersFor(files, orders)
    ensures AllCounts(files, orders) == TotalChangesAll(files)
    decreases |files|
  {
    if files != [] {
      FileCountsAddUp(files[0], orders[0]);
      assert OrdersFor(files[1..], orders[1..]) by {
        assert forall k :: 0 <= k < |files| - 1 ==> files[1..][k] == files[k + 1] && orders[1..][k] == orders[k + 1];
      }
      SummaryMatchesTotal(files[1..], orders[1..]);
      assert files == [files[0]] + files[1..];
      TotalChangesAppend([files[0]], files[1..]);
      assert TotalChangesAll([files[0]]) == TotalChanges(files[0]) by {
        assert [files[0]][..0] == [];
      }
    }
  }

  /** The summary's shape: a banner, a path line and a blank line around
      each file's count lines, and the total at the end. */
  lemma {:induction false} SummaryLength(files: seq<FileDiff>, orders: seq<seq<string>>, color: bool)
    requires OrdersFor(files, orders)
    ensures |FileSummaries(files, orders, color)| == 2 * |files| + CountLines(orders)
    decreases |files|
  {
    if files != [] {
      assert OrdersFor(files[1..], orders[1..]) by {
        assert forall k :: 0 <= k < |files| - 1 ==> files[1..][k] == files[k + 1] && orders[1..][k] == orders[k + 1];
      }
      SummaryLength(files[1..], orders[1..], color);
    }
  }

  function CountLines(orders: seq<seq<string>>): nat {
    if orders == [] then 0 else |orders[0]| + CountLines(orders[1..])
  }

  lemma SummaryEmpty(color: bool)
    ensures ShowSummary(DiffResult([]), [], color) == Banner("DIFF SUMMARY", color) + [TotalLine(DiffResult([]), color)]
    ensures TotalText(DiffResult([])) == "Total: 0 changes in 0 files"
  {
  }

  /** The test file with one `test` issue. */
  lemma SummaryExample()
    ensures var e := DiffEntry(1, "test", "old", "new", "desc", None);
            var f := FileDiff("test.rs", [e]);
            Enumerates(["test"], f.entries)
            && FileSummary(f, ["test"], false) == ["test.rs:", "  test: 1 issue", ""]
  {
    var e := DiffEntry(1, "test", "old", "new", "desc", None);
    var f := FileDiff("test.rs", [e]);
    forall a
      ensures a in ["test"] <==> HasAnalyzer(f.entries, a)
    {
      if a == "test" {
        assert f.entries[0].analyzer == a;
      }
    }
    assert Enumerates(["test"], f.entries);
    assert CountOf(f.entries, "test") == 1 by {
      assert f.entries[1..] == [];
    }
    assert NatToString(1) == "1";
    assert CountLine("test", 1, false) == "  test: 1 issue";
    assert Map(["test"], a => CountLine(a, CountOf(f.entries, a), false)) == [CountLine("test", 1, false)];
    assert PathLine("test.rs", false) == "test.rs:";
  }

  // ---------------------------------------------------------------------
  // show_full

  /** The width used when the terminal size is unknown. */
  const DefaultWidth: nat := 80

  /** The layout note, shown only for more than one column. */
  function LayoutLines(columns: nat, termWidth: nat, color: bool): seq<string> {
    if columns > 1 then
      var info := "Layout: " + NatToString(columns) + " columns (terminal width: " + NatToString(termWidth) + ")";
      [if color then Paint(Dimmed, info) else info, ""]
    else []
  }

  /** `show_full`: a banner, the layout note, every file's block in the
      grid, and the total. */
  function ShowFull(d: DiffResult, termWidth: Option<nat>, color: bool): seq<string> {
    var tw := termWidth.GetOr(DefaultWidth);
    var rendered := Map(d.files, RenderFileBlock);
    var columns := CalculateColumns(rendered, tw);
    Banner("DIFF OUTPUT", color) + LayoutLines(columns, tw, color) + RenderGrid(rendered, columns) + [TotalLine(d, color)]
  }

  /** The layout note appears exactly when there are two files or more
      and two blocks of the widest block's width fit side by side. */
  lemma LayoutShownIff(d: DiffResult, termWidth: Option<nat>, color: bool)
    ensures var tw := termWidth.GetOr(DefaultWidth);
            var rendered := Map(d.files, RenderFileBlock);
            var shown := LayoutLines(CalculateColumns(rendered, tw), tw, color) != [];
            shown <==> |d.files| >= 2 && Fits(2, Max(MaxWidth(rendered), MinFileWidth), tw)
  {
    var tw := termWidth.GetOr(DefaultWidth);
    var rendered := Map(d.files, RenderFileBlock);
    var cols := CalculateColumns(rendered, tw);
    if |d.files| >= 2 {
      var w := Max(MaxWidth(rendered), MinFileWidth);
      CalculateColumnsLargest(rendered, tw, 2);
      CalculateColumnsLargest(rendered, tw, 1);
      if cols > 1 {
        FitsDownward(cols, 1, w, tw);
      }
    }
  }

  /** Without a known terminal size no two blocks fit side by side, since
      each is at least 40 wide and the gap is 4. */
  lemma DefaultWidthOneColumn(d: DiffResult)
    ensures CalculateColumns(Map(d.files, RenderFileBlock), DefaultWidth) == 1
  {
    var rendered := Map(d.files, RenderFileBlock);
    if |rendered| >= 2 {
      var w := Max(MaxWidth(rendered), MinFileWidth);
      var cols := CalculateColumns(rendered, DefaultWidth);
      CalculateColumnsLargest(rendered, DefaultWidth, 2);
      if cols > 1 {
        FitsDownward(cols, 2, w, DefaultWidth);
      }
    }
  }

  /** In one column the full view lists every file's block in order, each
      followed by a blank line, between the banner and the total. */
  lemma OneColumnListing(d: DiffResult, termWidth: Option<nat>, color: bool)
    requires CalculateColumns(Map(d.files, RenderFileBlock), termWidth.GetOr(DefaultWidth)) == 1
    ensures ShowFull(d, termWidth, color)
      == Banner("DIFF OUTPUT", color) + SingleColumn(Map(d.files, RenderFileBlock)) + [TotalLine(d, color)]
  {
    var tw := termWidth.GetOr(DefaultWidth);
    var rendered := Map(d.files, RenderFileBlock);
    var banner := Banner("DIFF OUTPUT", color);
    assert LayoutLines(1, tw, color) == [];
    assert RenderGrid(rendered, 1) == SingleColumn(rendered) by {
      assert SingleColumn([]) == [];
    }
    assert banner + [] == banner;
  }

  /** With no files the full view is the banner and a zero total. */
  lemma ShowFullEmpty(termWidth: Option<nat>, color: bool)
    ensures ShowFull(DiffResult([]), termWidth, color) == Banner("DIFF OUTPUT", color) + [TotalLine(DiffResult([]), color)]
  {
    assert Map([], RenderFileBlock) == [];
  }

  // ---------------------------------------------------------------------
  // show_interactive

  datatype Command = Yes | No | All | Quit | Invalid

  /** Lower-casing of ASCII letters; no other character lower-cases to one
      of the letters the commands use, so this decides the same commands
      as `str::to_lowercase`. */
  function LowerAscii(s: string): (r: string)
    ensures |r| == |s|
  {
    seq(|s|, i requires 0 <= i < |s| => if 'A' <= s[i] <= 'Z' then (s[i] as int + 32) as char else s[i])
  }

  function UpperAscii(s: string): (r: string)
    ensures |r| == |s|
  {
    seq(|s|, i requires 0 <= i < |s| => if 'a' <= s[i] <= 'z' then (s[i] as int - 32) as char else s[i])
  }

  /** The commands by their lower-case spellings. */
  function CommandOf(w: string): Command {
    if w == "y" || w == "yes" then Yes
    else if w == "n" || w == "no" then No
    else if w == "a" || w == "all" then All
    else if w == "q" || w == "quit" then Quit
    else Invalid
  }

  /** `input.trim().to_lowercase()` matched against the commands. */
  function ParseCommand(line: string): Command {
    CommandOf(LowerAscii(Trim(line)))
  }

  /** The long spelling of each command. */
  function Keyword(c: Command): string {
    match c
    case Yes => "yes"
    case No => "no"
    case All => "all"
    case Quit => "quit"
    case Invalid => ""
  }

  predicate LowerWord(k: string) {
    k != [] && forall i :: 0 <= i < |k| ==> 'a' <= k[i] <= 'z'
  }

  /** Each command's long and one-letter spellings name it. */
  lemma KeywordCommand(c: Command)
    requires c != Invalid
    ensures LowerWord(Keyword(c)) && CommandOf(Keyword(c)) == c
    ensures LowerWord(Keyword(c)[..1]) && CommandOf(Keyword(c)[..1]) == c
  {
    match c
    case Yes =>
      assert Keyword(c)[..1] == "y";
    case No =>
      assert Keyword(c)[..1] == "n";
      assert "no" != "y" && "no" != "yes" by { assert "no"[0] != "y"[0]; }
    case All =>
      assert Keyword(c)[..1] == "a";
    case Quit =>
      assert Keyword(c)[..1] == "q";
      assert "quit" != "all" by { assert "quit"[0] != "all"[0]; }
  }

  /** A trailing line end, as `read_line` keeps it, is trimmed away. */
  lemma TrimNewline(k: string, nl: string)
    requires k != [] && !IsWhitespace(k[0]) && !IsWhitespace(k[|k| - 1])
    requires nl == "\n" || nl == "\r\n"
    ensures Trim(k + nl) == k
  {
    var line := k + nl;
    assert line[0] == k[0];
    assert TrimStart(line) == line;
    assert IsWhitespace(nl[0]) && IsWhitespace(nl[|nl| - 1]);
    TrimEndBlankTail(k, nl);
  }

  /** Leading blanks are trimmed away too. */
  lemma TrimLeadingSpace(k: string, nl: string)
    requires k != [] && !IsWhitespace(k[0]) && !IsWhitespace(k[|k| - 1])
    requires nl == "\n" || nl == "\r\n"
    ensures Trim(" " + k + nl) == k
  {
    assert (" " + k + nl)[1..] == k + nl;
    assert TrimStart(" " + k + nl) == TrimStart(k + nl);
    TrimNewline(k, nl);
  }

  lemma LowerOfUpper(k: string)
    requires LowerWord(k)
    ensures LowerAscii(UpperAscii(k)) == k && LowerAscii(k) == k
    ensures UpperAscii(k) != [] && !IsWhitespace(UpperAscii(k)[0]) && !IsWhitespace(UpperAscii(k)[|k| - 1])
  {
  }

  /** A lower-case word with the line end `read_line` keeps parses as the
      word. */
  lemma ParseWord(k: string)
    requires LowerWord(k)
    ensures ParseCommand(k + "\n") == CommandOf(k)
  {
    LowerOfUpper(k);
    TrimNewline(k, "\n");
  }

  /** The same word in capitals, with a leading blank and a Windows line
      end, parses as the word too. */
  lemma ParseShouted(k: string)
    requires LowerWord(k)
    ensures ParseCommand(" " + UpperAscii(k) + "\r\n") == CommandOf(k)
  {
    LowerOfUpper(k);
    TrimLeadingSpace(UpperAscii(k), "\r\n");
  }

  /** Every command is recognised in its long and its one-letter spelling,
      whatever the case of its letters, with the line end `read_line` keeps
      and with leading blanks. */
  lemma KeywordRoundTrip(c: Command)
    requires c != Invalid
    ensures ParseCommand(Keyword(c) + "\n") == c
    ensures ParseCommand(" " + UpperAscii(Keyword(c)) + "\r\n") == c
    ensures ParseCommand(Keyword(c)[..1] + "\n") == c
  {
    KeywordCommand(c);
    ParseWord(Keyword(c));
    ParseShouted(Keyword(c));
    ParseWord(Keyword(c)[..1]);
  }

  /** End of input reads as an empty line, which is no command. */
  lemma EmptyLineInvalid()
    ensures ParseCommand("") == Invalid
  {
    assert LowerAscii(Trim("")) == "";
  }

  /** The eight spellings the prompt accepts. */
  predicate IsSpelling(w: string) {
    w == "y" || w == "yes" || w == "n" || w == "no" || w == "a" || w == "all" || w == "q" || w == "quit"
  }

  /** Any other word, however close to a command (`yess`, `ye`, `nope`),
      in any case and with blanks and a line end around it, is no command. */
  lemma OtherWordInvalid(k: string)
    requires LowerWord(k) && !IsSpelling(k)
    ensures ParseCommand(k + "\n") == Invalid
    ensures ParseCommand(" " + UpperAscii(k) + "\r\n") == Invalid
  {
    SpellingIff(k);
    ParseWord(k);
    ParseShouted(k);
  }

  /** A word's spelling decides its command: exactly the spellings name one. */
  lemma SpellingIff(w: string)
    ensures CommandOf(w) != Invalid <==> IsSpelling(w)
  {
  }

  /** One line read from standard input, or the I/O error of the flush or
      the read before it. */
  type Response = Result<string, string>

  /** A response as the walk sees it: the command, or the error. */
  type Answer = Result<Command, string>

  function ParseAnswer(r: Response): Answer {
    match r
    case Ok(line) => Ok(ParseCommand(line))
    case Err(x) => Err(x)
  }

  /** The next answer; once the answers run out every read meets end of
      input and reads an empty line, which is no command. */
  function NextAnswer(answers: seq<Answer>): (Answer, seq<Answer>) {
    if answers == [] then (Ok(Invalid), []) else (answers[0], answers[1..])
  }

  /** Where the walk stands after one file: the entries chosen in it,
      whether "all" is in force, and the answers left. */
  datatype Walk = Walk(chosen: seq<DiffEntry>, applyAll: bool, rest: seq<Answer>)

  function Prepend(e: DiffEntry, r: Result<Walk, string>): Result<Walk, string> {
    match r
    case Ok(w) => Ok(Walk([e] + w.chosen, w.applyAll, w.rest))
    case Err(x) => Err(x)
  }

  /** A suffix of `answers` at most `n` answers shorter. */
  predicate ConsumedAtMost(answers: seq<Answer>, rest: seq<Answer>, n: nat) {
    |rest| <= |answers| && rest == answers[|answers| - |rest|..] && |answers| - |rest| <= n
  }

  /** The inner loop of `show_interactive` over one file's entries. Under
      "all" every entry is taken without a prompt; otherwise one answer is
      read per entry: yes takes it, all takes it and every later one, quit
      leaves the file, anything else skips it. Answers are consumed in
      order, at most one per entry, and no more entries are chosen than the
      file has. */
  function ReviewFile(entries: seq<DiffEntry>, applyAll: bool, answers: seq<Answer>): (r: Result<Walk, string>)
    ensures r.Ok? ==> ConsumedAtMost(answers, r.value.rest, |entries|)
    ensures r.Ok? ==> |r.value.chosen| <= |entries|
    decreases |entries|
  {
    if entries == [] then Ok(Walk([], applyAll, answers))
    else if applyAll then Prepend(entries[0], ReviewFile(entries[1..], true, answers))
    else
      var next := NextAnswer(answers);
      match next.0
      case Err(x) => Err(x)
      case Ok(Quit) => Ok(Walk([], false, next.1))
      case Ok(Yes) => Prepend(entries[0], ReviewFile(entries[1..], false, next.1))
      case Ok(All) => Prepend(entries[0], ReviewFile(entries[1..], true, next.1))
      case Ok(_) => ReviewFile(entries[1..], false, next.1)
  }

  /** The outer loop over the files; "all" carries over from one file to
      the next, a quit does not. */
  function ReviewFiles(files: seq<FileDiff>, applyAll: bool, answers: seq<Answer>): Result<seq<DiffEntry>, string>
    decreases |files|
  {
    if files == [] then Ok([])
    else
      var here := ReviewFile(files[0].entries, applyAll, answers);
      if here.Err? then Err(here.error)
      else
        var more := ReviewFiles(files[1..], here.value.applyAll, here.value.rest);
        if more.Err? then more else Ok(here.value.chosen + more.value)
  }

  /** `show_interactive`: the selected entries, or the first I/O error. */
  function ShowInteractive(d: DiffResult, responses: seq<Response>): Result<seq<DiffEntry>, string> {
    ReviewFiles(d.files, false, Map(responses, ParseAnswer))
  }

  /** Every entry of every file, in display order. */
  function AllEntries(files: seq<FileDiff>): seq<DiffEntry> {
    if files == [] then [] else files[0].entries + AllEntries(files[1..])
  }

  /** `a` is `b` with some elements left out. */
  predicate Subsequence(a: seq<DiffEntry>, b: seq<DiffEntry>)
    decreases |b|
  {
    if a == [] then true
    else if b == [] then false
    else (a[0] == b[0] && Subsequence(a[1..], b[1..])) || Subsequence(a, b[1..])
  }

  lemma {:induction false} SubsequenceNil(b: seq<DiffEntry>)
    ensures Subsequence([], b)
  {
  }

  lemma {:induction false} SubsequenceCons(x: DiffEntry, a: seq<DiffEntry>, b: seq<DiffEntry>)
    requires Subsequence(a, b)
    ensures Subsequence([x] + a, [x] + b)
  {
    assert ([x] + a)[1..] == a && ([x] + b)[1..] == b;
  }

  lemma {:induction false} SubsequenceSkip(x: DiffEntry, a: seq<DiffEntry>, b: seq<DiffEntry>)
    requires Subsequence(a, b)
    ensures Subsequence(a, [x] + b)
  {
    assert ([x] + b)[1..] == b;
  }

  /** Subsequences of two parts make a subsequence of the whole. */
  lemma {:induction false} SubsequenceAppend(a1: seq<DiffEntry>, b1: seq<DiffEntry>, a2: seq<DiffEntry>, b2: seq<DiffEntry>)
    requires Subsequence(a1, b1) && Subsequence(a2, b2)
    ensures Subsequence(a1 + a2, b1 + b2)
    decreases |b1|
  {
    if b1 == [] {
      assert a1 == [] && a1 + a2 == a2 && b1 + b2 == b2;
    } else {
      assert b1 + b2 == [b1[0]] + (b1[1..] + b2);
      if a1 != [] && a1[0] == b1[0] && Subsequence(a1[1..], b1[1..]) {
        SubsequenceAppend(a1[1..], b1[1..], a2, b2);
        assert a1 + a2 == [a1[0]] + (a1[1..] + a2);
        SubsequenceCons(b1[0], a1[1..] + a2, b1[1..] + b2);
      } else {
        assert Subsequence(a1, b1[1..]);
        SubsequenceAppend(a1, b1[1..], a2, b2);
        SubsequenceSkip(b1[0], a1 + a2, b1[1..] + b2);
      }
    }
  }

  /** The entries chosen in a file are some of its entries, in order. */
  lemma {:induction false} ReviewFileChoosesInOrder(entries: seq<DiffEntry>, applyAll: bool, answers: seq<Answer>)
    requires ReviewFile(entries, applyAll, answers).Ok?
    ensures Subsequence(ReviewFile(entries, applyAll, answers).value.chosen, entries)
    decreases |entries|
  {
    if entries == [] {
      SubsequenceNil(entries);
    } else {
      assert entries == [entries[0]] + entries[1..];
      var next := NextAnswer(answers);
      if applyAll {
        ReviewFileChoosesInOrder(entries[1..], true, answers);
        SubsequenceCons(entries[0], ReviewFile(entries[1..], true, answers).value.chosen, entries[1..]);
      } else if next.0 == Ok(Quit) {
        SubsequenceNil(entries);
      } else if next.0 == Ok(Yes) {
        ReviewFileChoosesInOrder(entries[1..], false, next.1);
        SubsequenceCons(entries[0], ReviewFile(entries[1..], false, next.1).value.chosen, entries[1..]);
      } else if next.0 == Ok(All) {
        ReviewFileChoosesInOrder(entries[1..], true, next.1);
        SubsequenceCons(entries[0], ReviewFile(entries[1..], true, next.1).value.chosen, entries[1..]);
      } else {
        ReviewFileChoosesInOrder(entries[1..], false, next.1);
        SubsequenceSkip(entries[0], ReviewFile(entries[1..], false, next.1).value.chosen, entries[1..]);
      }
    }
  }

  /** The selection is always some of the entries, in display order:
      nothing is picked twice, invented or reordered. */
  lemma {:induction false} SelectionInOrder(files: seq<FileDiff>, applyAll: bool, answers: seq<Answer>)
    requires ReviewFiles(files, applyAll, answers).Ok?
    ensures Subsequence(ReviewFiles(files, applyAll, answers).value, AllEntries(files))
    decreases |files|
  {
    if files != [] {
      var w := ReviewFile(files[0].entries, applyAll, answers).value;
      ReviewFileChoosesInOrder(files[0].entries, applyAll, answers);
      SelectionInOrder(files[1..], w.applyAll, w.rest);
      SubsequenceAppend(w.chosen, files[0].entries, ReviewFiles(files[1..], w.applyAll, w.rest).value, AllEntries(files[1..]));
    }
  }

  /** Under "all" a file is taken whole and no answer is read. */
  lemma {:induction false} ApplyAllFile(entries: seq<DiffEntry>, answers: seq<Answer>)
    ensures ReviewFile(entries, true, answers) == Ok(Walk(entries, true, answers))
    decreases |entries|
  {
    if entries != [] {
      ApplyAllFile(entries[1..], answers);
      assert [entries[0]] + entries[1..] == entries;
    }
  }

  /** Once "all" is answered every remaining entry of every file is
      selected without further prompts. */
  lemma {:induction false} ApplyAllRest(files: seq<FileDiff>, answers: seq<Answer>)
    ensures ReviewFiles(files, true, answers) == Ok(AllEntries(files))
    decreases |files|
  {
    if files != [] {
      ApplyAllFile(files[0].entries, answers);
      ApplyAllRest(files[1..], answers);
    }
  }

  /** Answering "all" at the first prompt selects everything. */
  lemma AllAtFirstPrompt(files: seq<FileDiff>, answers: seq<Answer>)
    requires files != [] && files[0].entries != []
    requires answers != [] && answers[0] == Ok(All)
    ensures ReviewFiles(files, false, answers) == Ok(AllEntries(files))
  {
    var entries := files[0].entries;
    ApplyAllFile(entries[1..], answers[1..]);
    assert [entries[0]] + entries[1..] == entries;
    ApplyAllRest(files[1..], answers[1..]);
  }

  /** Answering yes to every prompt selects every entry of the file and
      reads one answer per entry. */
  lemma {:induction false} YesToEach(entries: seq<DiffEntry>, answers: seq<Answer>)
    requires |answers| >= |entries|
    requires forall i :: 0 <= i < |answers| ==> answers[i] == Ok(Yes)
    ensures ReviewFile(entries, false, answers) == Ok(Walk(entries, false, answers[|entries|..]))
    decreases |entries|
  {
    if entries != [] {
      YesToEach(entries[1..], answers[1..]);
      assert answers[1..][|entries| - 1..] == answers[|entries|..];
      assert [entries[0]] + entries[1..] == entries;
    }
  }

  /** Enough yes answers select everything, in display order. */
  lemma {:induction false} YesToAll(files: seq<FileDiff>, answers: seq<Answer>)
    requires |answers| >= |AllEntries(files)|
    requires forall i :: 0 <= i < |answers| ==> answers[i] == Ok(Yes)
    ensures ReviewFiles(files, false, answers) == Ok(AllEntries(files))
    decreases |files|
  {
    if files != [] {
      YesToEach(files[0].entries, answers);
      YesToAll(files[1..], answers[|files[0].entries|..]);
    }
  }

  /** Typing `y` at every prompt applies every change. */
  lemma TypingYes(d: DiffResult, responses: seq<Response>)
    requires |responses| >= |AllEntries(d.files)|
    requires forall i :: 0 <= i < |responses| ==> responses[i] == Ok("y\n")
    ensures ShowInteractive(d, responses) == Ok(AllEntries(d.files))
  {
    KeywordRoundTrip(Yes);
    assert Keyword(Yes)[..1] + "\n" == "y\n";
    YesToAll(d.files, Map(responses, ParseAnswer));
  }

  /** Quitting leaves only the current file: the walk goes on with the
      next one, as if the rest of the quitted file had not been there. */
  lemma QuitFile(entries: seq<DiffEntry>, answers: seq<Answer>)
    requires entries != []
    requires answers != [] && answers[0] == Ok(Quit)
    ensures ReviewFile(entries, false, answers) == Ok(Walk([], false, answers[1..]))
  {
  }

  /** An answer that takes nothing: no, or anything that is no command. */
  predicate Declines(a: Answer) {
    a == Ok(No) || a == Ok(Invalid)
  }

  /** Declining every prompt of a file selects none of its entries; the
      answers left still decline. */
  lemma {:induction false} DeclineFile(entries: seq<DiffEntry>, answers: seq<Answer>)
    requires forall i :: 0 <= i < |answers| ==> Declines(answers[i])
    ensures var r := ReviewFile(entries, false, answers);
            r.Ok? && r.value.chosen == [] && !r.value.applyAll
            && forall i :: 0 <= i < |r.value.rest| ==> Declines(r.value.rest[i])
    decreases |entries|
  {
    if entries != [] {
      var next := NextAnswer(answers);
      assert Declines(next.0);
      assert forall i :: 0 <= i < |next.1| ==> next.1[i] == answers[i + 1];
      DeclineFile(entries[1..], next.1);
    }
  }

  /** Declining every prompt selects nothing at all. */
  lemma {:induction false} DeclineAll(files: seq<FileDiff>, answers: seq<Answer>)
    requires forall i :: 0 <= i < |answers| ==> Declines(answers[i])
    ensures ReviewFiles(files, false, answers) == Ok([])
    decreases |files|
  {
    if files != [] {
      DeclineFile(files[0].entries, answers);
      var w := ReviewFile(files[0].entries, false, answers).value;
      DeclineAll(files[1..], w.rest);
      NothingChosenStep(files, answers, w.rest);
    }
  }

  /** A first file that chooses nothing and leaves "all" off adds nothing
      to what the rest of the files choose. */
  lemma NothingChosenStep(files: seq<FileDiff>, answers: seq<Answer>, rest: seq<Answer>)
    requires files != []
    requires ReviewFile(files[0].entries, false, answers) == Ok(Walk([], false, rest))
    requires ReviewFiles(files[1..], false, rest) == Ok([])
    ensures ReviewFiles(files, false, answers) == Ok([])
  {
    var none: seq<DiffEntry> := [];
    assert none + none == none;
  }

  /** At end of input every prompt reads an empty line, which is no
      command, so nothing is selected. */
  lemma EndOfInputSelectsNothing(d: DiffResult)
    ensures ParseAnswer(Ok("")) == Ok(Invalid)
    ensures ShowInteractive(d, []) == Ok([])
  {
    EmptyLineInvalid();
    DeclineAll(d.files, Map([], ParseAnswer));
  }

  /** An error reading the first answer ends the walk with that error. */
  lemma ErrorStops(files: seq<FileDiff>, answers: seq<Answer>)
    requires files != [] && files[0].entries != []
    requires answers != [] && answers[0].Err?
    ensures ReviewFiles(files, false, answers) == Err(answers[0].error)
  {
  }
}
