# cargo-quality core, modelled in Dafny

This project models the core of `cargo-quality`, a Cargo subcommand that
looks for code-quality issues in Rust sources. It proves properties of
each part of that core:

- **The analyzers' rules.** `path_import` flags `std::fs::read_to_string`-style
  paths that an import would shorten. `format_args` flags positional `{}`
  placeholders. `empty_lines` flags blank lines inside function bodies.
  `inline_comments` flags `//` comments inside function bodies. The registry
  runs all four over one file, and the `mod_rs` check flags `a/b/mod.rs`
  files that should become `a/b.rs`.
- **The per-file report.** Results are collected under analyzer names and
  counted as issues and fixable issues. The report prints its text.
- **The diff generator.** It turns every fixable, located issue into a
  before/after entry (`DiffEntry`), grouped per file (`FileDiff`) and over
  all files (`DiffResult`).
- **The diff views.** The summary counts entries per analyzer. The full
  view renders each file as a block of coloured lines, groups the suggested
  imports by root crate, and lays the blocks out in a grid that fits the
  terminal. The interactive walk asks yes/no/all/quit for each entry and
  returns the entries chosen.
- **The formatter configuration.** A fixed rustfmt configuration is passed
  to rustfmt as `--config key=value` arguments.

The syntax tree that `syn` builds is not modelled. Each analyzer receives
the facts it reads from the tree as a plain list:

- the identifier segments and position of every path expression;
- the printed tokens and position of every macro invocation;
- the first and last line of every function body, in the order the
  visitor meets them. `visit_item` checks an item and then descends into
  it, so a function nested in another function's body is met twice: once
  inside its parent and once as an item of its own.

The file's text is given too, and the line-based analyzers read it through
a model of `str::lines`.

File reads, standard input, and the terminal size are parameters.
Printing is modelled as the list of lines printed.

Modules follow the source files:

| module | source |
|---|---|
| `Issues` | `Issue`, `Fix` and `AnalysisResult` |
| `DiffTypes` | `src/differ/types.rs` |
| `Generator` | `src/differ/generator.rs` |
| `Grouping` | `src/differ/display/grouping.rs` |
| `Ansi` | the colour codes and `measure_text_width` the views rely on |
| `Formatting` | `src/differ/display/formatting.rs` |
| `Rendered` | `src/differ/display/types.rs` |
| `Grid` | `src/differ/display/grid.rs` |
| `Render` | `src/differ/display/render.rs` |
| `Display` | `src/differ/display.rs` |
| `Reports` | `src/report.rs` |
| `PathImport` | `src/analyzers/path_import.rs` |
| `FormatArgs` | `src/analyzers/format_args.rs` |
| `EmptyLines` | `src/analyzers/empty_lines.rs` |
| `InlineComments` | `src/analyzers/inline_comments.rs` |
| `Analyzers` | `src/analyzers.rs`, plus the per-file loop and `add_mod_rs_to_report` of `src/main.rs` |
| `ModRs` | `src/mod_rs.rs` |
| `Formatter` | `src/formatter.rs` |

The supporting modules `Text`, `Seqs`, `Ordering`, `Scan` and `Wrappers`
hold shared definitions:

- `Text` models `str::trim`, `str::lines`, `split`, `join` and `replace`.
- `Ordering` models byte-wise string order, sorting and sorted sets.
- `Scan` holds the soundness and completeness of a scan over function bodies.

## Model

| member | source | states |
|---|---|---|
| Issues.CountAvailable | src/report.rs:82-90 | The number of issues with an available fix is at most the number of issues. It is 0 exactly when no issue has one, and it is all of them exactly when every issue has one. |
| DiffTypes.NewFileDiff | src/differ/types.rs:37-42 | A new file diff keeps its path and has no changes. |
| DiffTypes.AddEntry | src/differ/types.rs:50-52 | The entry is appended last. Earlier entries and the path are unchanged, and the change count grows by one. |
| DiffTypes.NewDiffResult | src/differ/types.rs:80-84 | A new result has no files and no changes, and it keeps no empty file. |
| DiffTypes.AddFile | src/differ/types.rs:92-96 | A file with entries is appended. A file without entries leaves the result unchanged. Either way the total grows by the file's change count, and the no-empty-file invariant is kept. |
| DiffTypes.AddFilesKeepsNonEmpty | src/differ/types.rs:92-96 | Adding files one by one keeps exactly the non-empty ones, in order. |
| DiffTypes.AddFilesCounts | src/differ/types.rs:104-106 | A result built by adding files keeps no empty file. Its total change count equals the sum over all the input files. |
| DiffTypes.FilesAtMostChanges | src/differ/types.rs:104-116 | Under the no-empty-file invariant, `total_files` never exceeds `total_changes`. |
| DiffTypes.TotalChangesAppend | src/differ/types.rs:104-106 | Total changes add up over concatenated file lists. |
| Generator.OriginalLine | src/differ/generator.rs:47-50 | Line n (1-based) of the content. A line past the end gives the empty string. |
| Generator.EntryOf | src/differ/generator.rs:47-69 | An entry keeps the issue's line, the analyzer's name, the message as its description, and the original source line. It carries an import exactly when the fix is an import fix. |
| Generator.ModifiedLine | src/differ/generator.rs:53-57 | A simple fix replaces the line with its text. An import fix replaces every occurrence of the pattern with the short name, so a line without the pattern is left as it was. |
| Generator.EntriesAreEligibleIssues | src/differ/generator.rs:42-72 | One analyzer's entries are exactly its issues with a line and an available fix, in order, each mapped to its entry. |
| Generator.IneligibleIssueAddsNothing | src/differ/generator.rs:43-45 | An issue without a fix, or at line 0, adds no entry. |
| Generator.CollectEntries | src/differ/generator.rs:39-42 | Collection fails exactly when some analyzer fails, and then it reports the first failure. |
| Generator.GenerateDiff | src/differ/generator.rs:33-76 | A read failure gives an I/O error and a parse failure gives a parse error, both before any analyzer runs. A diff results exactly when the read, the parse and every analyzer succeed. It is for the given path, and its entries are those collected over the file's lines (`content.lines()`), one per eligible issue. |
| Generator.CollectEntriesCount | src/differ/generator.rs:39-73 | When every analyzer succeeds, the diff has exactly one entry per eligible issue. |
| Generator.CollectEntriesAppend | src/differ/generator.rs:39-42 | Running two batches of analyzers gives the first batch's entries followed by the second's. |
| Ansi.VisPlain | src/differ/display/formatting.rs:4 | Text without escape characters is exactly as wide as it is long. |
| Ansi.VisAppend | src/differ/display/formatting.rs:47 | Widths add up over a concatenation when the second part cannot complete an escape sequence left open by the first. |
| Ansi.AfterParamsAppend | src/differ/display/formatting.rs:47 | Appending text after a complete escape sequence keeps it complete. An incomplete one stays incomplete when nothing can continue it. |
| Ansi.VisSgrFront | src/differ/display/formatting.rs:47 | A complete colour sequence in front of a text adds no width. |
| Ansi.VisWrap | src/differ/display/formatting.rs:36-44 | A text between an opening and a closing colour sequence keeps its width. |
| Ansi.VisPaint | src/differ/display/formatting.rs:36-44 | Colouring a text with any style keeps its visible width, whatever the text holds. |
| Ansi.VisSpaces | src/differ/display/formatting.rs:53-58 | n spaces are n columns wide. |
| Formatting.PadToWidth | src/differ/display/formatting.rs:46-61 | The result starts with the text and adds only spaces. A text already at least `width` columns wide comes back unchanged and is never truncated. |
| Formatting.PadWidth | src/differ/display/formatting.rs:46-61 | The padded text is exactly max(width, text width) columns wide. The padding is the number of columns the text lacks. |
| Formatting.PadIdempotent | src/differ/display/formatting.rs:49-51 | Padding twice to the same width is padding once. |
| Formatting.PadEmpty | src/differ/display/formatting.rs:88-91 | The empty text pads to `width` spaces. |
| Formatting.PadExamples | src/differ/display/formatting.rs:28-44 | `hello` padded to 10 gains five spaces. A red `test` padded to 10 is 10 visible columns wide. |
| Formatting.VisPlainFront | src/differ/display/formatting.rs:47 | Plain text in front adds its length to the width. |
| Rendered.PushLines | src/differ/display/types.rs:76-80 | Pushing lines keeps the earlier lines and the width, and `line_count` grows by the number pushed. |
| Rendered.LineCountSteps | src/differ/display/types.rs:59-61 | An empty block counts no lines. Pushing two lines, one after the other, counts two and keeps their order. |
| Grid.MaxWidth | src/differ/display/grid.rs:76-81 | The widest block's width is at least every block's width, and some block has it. |
| Grid.LargestFit | src/differ/display/grid.rs:83-91 | The column loop returns the first count, going down from n, whose blocks and gaps fit the terminal. Every larger count fails to fit. It falls back to 1 when none fits. |
| Grid.CalculateColumns | src/differ/display/grid.rs:71-92 | At least one column, and never more columns than blocks. |
| Grid.FitsDownward | src/differ/display/grid.rs:83-89 | If c columns fit, every smaller positive count fits too. |
| Grid.CalculateColumnsLargest | src/differ/display/grid.rs:71-92 | A count up to the number of blocks fits (at the floored common width) exactly when it is at most the chosen column count and one column fits. The choice is therefore the largest fitting count. |
| Grid.CalculateColumnsExamples | src/differ/display/grid.rs:256-273 | Three 40-wide blocks on a 250-wide terminal take 3 columns. One 100-wide block on 80 columns takes 1. No blocks take 1. |
| Grid.MaxLines | src/differ/display/grid.rs:155 | The tallest block's line count bounds every block's count, and some block has it. An empty chunk has 0. |
| Grid.Cells | src/differ/display/grid.rs:160-164 | One cell per block: the block's line at that row, or an empty line past its end, padded to the column width. |
| Grid.ChunkLines | src/differ/display/grid.rs:154-175 | A chunk prints one row per line of its tallest block, then one blank line. |
| Grid.RenderGrid | src/differ/display/grid.rs:138-176 | No blocks print nothing. One column prints the single-column listing. Two or more columns print, for each chunk of that many blocks, the tallest block's line count plus one blank line (`ChunkedCount`, by `Grid.ChunkedLength`). What a one-chunk grid prints row by row is stated by `Grid.OneChunk` and `Grid.GridRowsAligned`. |
| Grid.SingleColumnAppend | src/differ/display/grid.rs:193-200 | Listing two runs of blocks is listing the first, then the second. |
| Grid.SingleColumnAt | src/differ/display/grid.rs:193-200 | Block k's lines appear verbatim, followed by exactly one blank line, between the listings of the blocks before and after it. |
| Grid.SingleColumnLength | src/differ/display/grid.rs:193-200 | The listing has one line per block line plus one blank line per block. |
| Grid.JoinWidth | src/differ/display/grid.rs:166-168 | Cells of width w joined by the 4-space gap are as wide as n·w plus the gaps. |
| Grid.RowWidth | src/differ/display/grid.rs:157-172 | When every block's lines are no wider than the block claims, and no block is wider than the column, every row is exactly as wide as the blocks plus the gaps. |
| Grid.ChunkedLength | src/differ/display/grid.rs:154-175 | A multi-column grid prints, for each chunk, the tallest block's line count plus one. |
| Grid.OneChunk | src/differ/display/grid.rs:148-175 | Blocks that fit in one chunk print that chunk's rows, at the widest block's own (unfloored) width. |
| Grid.GridRowsAligned | src/differ/display/grid.rs:148-175 | For blocks whose widths are truthful, every printed row of a single-chunk grid is that block's row. Each row is exactly as wide as all the blocks at the widest width plus the gaps, and the chunk ends with one blank line. |
| Render.VisShow | src/differ/display/render.rs:95-214 | Colouring a line of any kind keeps its visible width. |
| Render.ImportsOf | src/differ/display/render.rs:114-118 | The list of imports is empty exactly when no entry carries an import. |
| Render.MaxVis | src/differ/display/render.rs:71-83 | The widest plain text bounds every line's width, and is 0 or reached by some line. |
| Render.RenderFileBlock | src/differ/display/render.rs:67-85 | One coloured line per block line. The width is at least MIN_FILE_WIDTH, and no line is wider than the block claims. The width is either the floor or some line's width. |
| Render.BlockFrame | src/differ/display/render.rs:67-85 | The block opens with `File: <path>` and a 40-character rule, and closes with a 40-character double rule. The imports and the issues lie in between. Each rendered line is the coloured block line. |
| Render.EmptyFileBlock | src/differ/display/render.rs:95-103 | A file without entries renders only its header, its rule and its footer. Its width is the larger of the header's width and the floor. |
| Render.ImportSection | src/differ/display/render.rs:113-136 | The third line is the imports header exactly when some entry carries an import. |
| Render.ImportOutsFront | src/differ/display/render.rs:113-136 | The import section is empty exactly when no entry carries an import, and otherwise it starts with its header. |
| Render.ImportLines | src/differ/display/render.rs:113-136 | A block's import lines are exactly the statements `group_imports`, as written, makes of its entries' imports, in that order, each prefixed with `+`. |
| Render.ImportLinesOfKind | src/differ/display/render.rs:128-133 | The import section's import lines are the statements of `group_imports` as written. |
| Render.ImportOutsFixedLines | src/differ/display/render.rs:113-136 | With the corrected grouping the import section has the same lines of the same kinds, and its import lines are the corrected statements. |
| Render.SectionOfKind | src/differ/display/render.rs:124-135 | An import section holds one header, the statements and one blank line, and no other kind of line. |
| Render.IssuesFront | src/differ/display/render.rs:146-173 | The issue section never starts with an imports header. |
| Render.IssuesNoImportLines | src/differ/display/render.rs:146-173 | The issue section holds no import lines. |
| Render.ImportOutsKinds | src/differ/display/render.rs:113-136 | The import section holds no entry lines and no analyzer headers. |
| Render.IssueKind | src/differ/display/render.rs:146-201 | The issue section's lines of each entry kind are exactly one per entry, in entry order, whatever headers come between. |
| Render.EntriesInOrder | src/differ/display/render.rs:183-201 | A block's line-number, removed and added lines are, in order, exactly the entries' `Line n`, `-    original` and `+    modified`. |
| Render.EntryKindInOrder | src/differ/display/render.rs:183-201 | The lines of one entry kind across the whole block are one per entry, in order. |
| Render.HeadersAtChanges | src/differ/display/render.rs:146-169 | The analyzer headers are, in order, one per run of consecutive entries from the same analyzer. Each shows that analyzer's count over the whole file. |
| Render.ChangesShape | src/differ/display/render.rs:147-169 | Each header names some entry's analyzer. The first differs from the previous analyzer, and no two consecutive headers name the same analyzer. |
| Render.CountOfAll | src/differ/display/render.rs:155-162 | Entries from one analyzer all count for it and open no new run. |
| Render.OneAnalyzer | src/differ/display/render.rs:146-173 | A file whose entries all come from one analyzer shows one header with the number of entries. With an empty analyzer name, the initial `""` matches and no header is shown. |
| Render.HeadOfKind | src/differ/display/render.rs:150-169 | An entry's preamble holds at most one analyzer header, and only when the analyzer changes. |
| Render.EntryOfKind | src/differ/display/render.rs:183-201 | An entry renders one line of each entry kind and one blank line. |
| Render.OfKindAppend | src/differ/display/render.rs:67-85 | Selecting lines of one kind distributes over concatenation. |
| Render.BlockOfKind | src/differ/display/render.rs:67-85 | The lines of one kind in a block are those of the header, imports, issues and footer, in that order. |
| Grouping.SplitRootSpec | src/differ/display/grouping.rs:75-84 | The split happens at the first `::`: the root holds no `::`, and root, `::` and path rebuild the import. Without `::` the whole import is the root and the path is empty. |
| Grouping.Roots | src/differ/display/grouping.rs:67 | The statements' roots are strictly ascending, as the keys of a `BTreeMap` are. |
| Grouping.RootsMembers | src/differ/display/grouping.rs:86-89 | The roots are exactly the roots of the parsed imports. |
| Grouping.Render | src/differ/display/grouping.rs:90-127 | Every emitted statement starts with `use ` and its root. |
| Grouping.StripEach | src/differ/display/grouping.rs:106-113 | Each path loses the prefix when it starts with it and is kept whole otherwise. |
| Grouping.CommonCount | src/differ/display/grouping.rs:198-205 | The loop stops at the first component index where some path disagrees with the first path, or at the shortest length. All components before that index agree. |
| Grouping.FindCommonPrefix | src/differ/display/grouping.rs:183-212 | Fewer than two paths have an empty common prefix. |
| Grouping.CountIsRun | src/differ/display/grouping.rs:198-205 | The count the loop stops at is a run of components on which all paths agree. |
| Grouping.CountStops | src/differ/display/grouping.rs:194-205 | The run the loop stops at cannot be extended by one more component. |
| Grouping.MaximalRunUnique | src/differ/display/grouping.rs:198-205 | There is only one agreeing run that cannot be extended. |
| Grouping.FindCommonPrefixLongest | src/differ/display/grouping.rs:183-212 | For two or more paths, the common prefix is the longest run of leading `::` components they all share, joined with `::`. |
| Grouping.GroupTree | src/differ/display/grouping.rs:89-127 | The statement for a root, as written, is about that root. |
| Grouping.GroupSortedNoPrefix | src/differ/display/grouping.rs:95-126 | Sorted paths with no common prefix are braced whole (`use std::{fs::write, io::read};`). Each item other than `self` imports its own path, and the statement is well formed exactly when no path is empty. |
| Grouping.GroupSortedPrefixed | src/differ/display/grouping.rs:95-121 | When every path extends the common prefix by `::`, the prefix is factored out (`use syn::visit::{visit_expr, visit_file};`) and each item is the rest of its path. For plain paths the items import exactly the sorted paths, in order. |
| Grouping.GroupTreeMeaning | src/differ/display/grouping.rs:89-127 | As written, the statement for a root is well formed and imports exactly its paths whenever no path is empty or equal to the common prefix. |
| Grouping.GroupImportsMeaning | src/differ/display/grouping.rs:61-132 | As written, the statement for each root whose paths group cleanly is well formed and imports exactly the full paths of the imports under that root. |
| Grouping.GroupSorted | src/differ/display/grouping.rs:95-124 | Two or more paths give a braced statement about the root. |
| Grouping.GroupImportsIn | src/differ/display/grouping.rs:66-130 | One statement per distinct root, ascending, each beginning `use <root>`. |
| Grouping.GroupImports | src/differ/display/grouping.rs:61-132 | No imports give no statements. Otherwise there is one statement per distinct root, in ascending root order, each beginning `use <root>`. |
| Grouping.GroupTreePermutation | src/differ/display/grouping.rs:95 | The statement for a root does not depend on the order its paths were collected in, because they are sorted first. |
| Grouping.PathsForPermutation | src/differ/display/grouping.rs:86-87 | The paths collected under a root depend only on the multiset of imports enumerated. |
| Grouping.GroupImportsAnyOrder | src/differ/display/grouping.rs:66-89 | Whatever order the `HashSet` hands out the distinct imports in, grouping gives the same statements. |
| Grouping.GroupImportsSetOnly | src/differ/display/grouping.rs:61-132 | Grouping depends only on the set of imports. Duplicates and input order make no difference. |
| Grouping.StrippedWellFormed | src/differ/display/grouping.rs:70-73 | Stripping `use ` and `;` from a well-formed statement gives its body back. |
| Grouping.SingleImportRoundTrip | src/differ/display/grouping.rs:61-93 | A lone well-formed import comes back exactly as it went in. |
| Grouping.SplitRootRender | src/differ/display/grouping.rs:75-93 | A body not ending with `::` is rebuilt from its root and path. |
| Grouping.Meaning | src/differ/display/grouping.rs:115-126 | A single statement imports one path. A braced one imports one path per item. |
| Grouping.GroupTreeLosesPrefixPath | src/differ/display/grouping.rs:100-124 | As written, `use std::fs;` with `use std::fs::read;` groups to `use std::{, ::read};`, a statement with an empty item. |
| Grouping.GroupDistinctMeaning | src/differ/display/grouping.rs:95-127 | The corrected braced statement has no empty item. Its items import, one to one and in order, the paths it was given. |
| Grouping.PrefixedMeaning | src/differ/display/grouping.rs:115-121 | Items cut after a shared `prefix::` import their full paths and are never empty. |
| Grouping.FallbackMeaning | src/differ/display/grouping.rs:122-126 | Whole paths as items, with the empty path written `self`, import their paths. |
| Grouping.PrefixedItem | src/differ/display/grouping.rs:106-113 | `prefix::item` is the path back again. The item is empty or `self` only for paths ending in `::` or `::self`. |
| Grouping.GroupTreeFixedMeaning | src/differ/display/grouping.rs:89-127 | The corrected statement for a root is well formed. It imports every path given and nothing else. |
| Grouping.GroupImportsFixed | src/differ/display/grouping.rs:61-132 | Corrected grouping keeps the source's shape: one statement per distinct root, ascending, none for no imports. |
| Grouping.GroupImportsFixedMeaning | src/differ/display/grouping.rs:61-132 | Each corrected statement imports exactly the full paths of the imports under its root. |
| Grouping.CollectedMeaning | src/differ/display/grouping.rs:86-127 | The same holds for any list of parsed imports containing the root. |
| Grouping.PathsForMembers | src/differ/display/grouping.rs:86-87 | The paths collected under a root are exactly those paired with it. |
| Ordering.Sort | src/differ/display/grouping.rs:95 | `sort` gives an ascending permutation of its input. |
| Ordering.SortPermutationInvariant | src/differ/display/grouping.rs:95 | Sorting two permutations of one list gives the same list. |
| Ordering.SortedSet | src/differ/display/grouping.rs:66-67 | The distinct elements, strictly ascending, exactly those of the input. |
| Display.FirstSeen | src/differ/display.rs:108-113 | The analyzers in order of first occurrence form one possible `HashMap` key order: each analyzer of the entries appears once. |
| Display.FileCountsAddUp | src/differ/display.rs:108-129 | Whatever order the map hands out its keys in, a file's count lines add up to its number of entries. |
| Display.CountPositive | src/differ/display.rs:108-111 | Every analyzer the summary lists has at least one issue. |
| Display.SumCountsCovering | src/differ/display.rs:108-129 | Over a duplicate-free list naming every analyzer, the counts add up to the number of entries. |
| Display.SumCountsStep | src/differ/display.rs:108-111 | Removing the first entry removes one from its analyzer's count. |
| Display.SummaryAnyOrder | src/differ/display.rs:101-131 | Two key orders give the same count lines, rearranged, and the same number of lines. |
| Display.SummaryMatchesTotal | src/differ/display.rs:101-143 | The per-analyzer counts printed for all files add up to the total on the last line. |
| Display.SummaryLength | src/differ/display.rs:101-131 | Each file prints a path line, its count lines and a blank line. |
| Display.SummaryEmpty | src/differ/display.rs:94-144 | With no files the summary is the banner and `Total: 0 changes in 0 files`. |
| Display.SummaryExample | src/differ/display.rs:101-131 | One `test` entry in `test.rs` prints `test.rs:`, `  test: 1 issue` and a blank line. |
| Display.LayoutShownIff | src/differ/display.rs:194-207 | The layout note appears exactly when there are two or more files and two blocks of the widest width fit side by side. |
| Display.DefaultWidthOneColumn | src/differ/display.rs:184-194 | Without a known terminal size (80 columns), no two blocks fit side by side. |
| Display.OneColumnListing | src/differ/display.rs:177-222 | In one column, the full view is the banner, every file's block in order with a blank line after each, and the total. |
| Display.ShowFullEmpty | src/differ/display.rs:177-222 | With no files, the full view is the banner and a zero total. |
| Display.KeywordCommand | src/differ/display.rs:316-336 | Each command's long and one-letter spellings name it. |
| Display.TrimNewline | src/differ/display.rs:314-316 | The line ending that `read_line` keeps is trimmed away. |
| Display.ParseWord | src/differ/display.rs:316-336 | A lower-case word followed by a newline parses as the word. |
| Display.ParseShouted | src/differ/display.rs:316-336 | The word in capitals, with a leading blank and a Windows line ending, parses as the word too. |
| Display.KeywordRoundTrip | src/differ/display.rs:316-336 | Every command is recognised in its long and one-letter spellings, in any case, with blanks and a line ending around it. |
| Display.EmptyLineInvalid | src/differ/display.rs:314-336 | End of input reads an empty line, which is no command. |
| Display.OtherWordInvalid | src/differ/display.rs:333-335 | Any word other than the eight spellings is no command, in any case and with blanks and a line ending around it. |
| Display.SpellingIff | src/differ/display.rs:316-336 | A word names a command exactly when it is one of the eight spellings. |
| Display.ReviewFile | src/differ/display.rs:277-338 | Within a file, answers are used in order, at most one per entry, and no more entries are chosen than the file has. |
| Display.ReviewFileChoosesInOrder | src/differ/display.rs:277-338 | The entries chosen in a file are some of its entries, in order. |
| Display.SelectionInOrder | src/differ/display.rs:257-349 | The selection is a subsequence of all entries in display order: nothing is picked twice, invented or reordered. |
| Display.ApplyAllFile | src/differ/display.rs:305-308 | Under "all", a file is taken whole and no answer is read. |
| Display.ApplyAllRest | src/differ/display.rs:269-308 | Once "all" is in force, every remaining entry of every file is selected. |
| Display.AllAtFirstPrompt | src/differ/display.rs:324-328 | Answering "all" at the first prompt selects everything. |
| Display.YesToEach | src/differ/display.rs:317-320 | Answering yes at every prompt of a file selects all its entries and reads one answer per entry. |
| Display.YesToAll | src/differ/display.rs:257-349 | Enough yes answers select every entry, in display order. |
| Display.TypingYes | src/differ/display.rs:257-349 | Typing `y` at every prompt applies every change. |
| Display.QuitFile | src/differ/display.rs:329-332 | Quit leaves only the current file. The walk continues with the next file, having read one answer. |
| Display.DeclineFile | src/differ/display.rs:321-323 | Declining every prompt in a file selects none of its entries and leaves "all" off. |
| Display.DeclineAll | src/differ/display.rs:257-349 | Declining every prompt selects nothing. |
| Display.EndOfInputSelectsNothing | src/differ/display.rs:313-336 | At end of input every prompt reads an empty line, so nothing is selected. |
| Display.ErrorStops | src/differ/display.rs:311-314 | An error on the first read ends the walk with that error. |
| Display.LowerAscii | src/differ/display.rs:316 | Lower-casing keeps the length. |
| Reports.New | src/report.rs:34-39 | A new report keeps its path, has no results and counts nothing. |
| Reports.AddResult | src/report.rs:47-49 | The new result is appended under its name. The earlier results and the path are unchanged, and each total grows by the new result's share. |
| Reports.TotalIsAllIssues | src/report.rs:56-58 | The total is the number of issues all analyzers found together. |
| Reports.FixableIgnoresIssues | src/report.rs:65-67 | The fixable total depends only on the declared counts, not on the issue lists. |
| Reports.SumsAppend | src/report.rs:56-67 | Both totals add up over concatenated result lists. |
| Reports.FixLineIff | src/report.rs:83-90 | A fix line is printed exactly when the fix is available, and it begins `Fix: `. |
| Reports.WithIssues | src/report.rs:75-78 | Only results that have issues get sections. |
| Reports.SectionsSkipEmpty | src/report.rs:75-93 | The report prints a section for each result with issues, in order, and nothing for the others. |
| Reports.AddEmptyResult | src/report.rs:76-78 | An analyzer that found nothing leaves the printed sections unchanged. |
| Reports.SectionsAppend | src/report.rs:75-93 | The sections of two result lists are printed one after the other. |
| Reports.ReportFrame | src/report.rs:71-99 | The report opens with `Quality report for: <path>` and closes with the number of issues found and the number declared fixable. |
| Reports.DisplayExample | src/report.rs:71-99 | A result with one issue at 42:15 and a simple fix prints the header, the section, the position and message, the fix, and the totals 1 and 1. |
| Reports.QuietAnalyzerExample | src/report.rs:71-99 | An analyzer with no issues prints no section, but its declared fixable count still appears in the totals. |
| PathImport.FlaggedIsFunctionPath | src/analyzers/path_import.rs:60-122 | A flagged path has at least two segments and does not end in a constant. Its root, its last segment and the segment before the last do not start with an upper-case letter. |
| PathImport.TwoSegments | src/analyzers/path_import.rs:60-122 | A two-segment path is flagged only under `std`, `core` or `alloc`, and always is there when it names a lower-case function. |
| PathImport.PrefixModule | src/analyzers/path_import.rs:60-122 | Putting a lower-case module in front of a flagged path keeps it flagged. |
| PathImport.TypePathsKept | src/analyzers/path_import.rs:60-122 | Paths through a type or to a constant are never flagged. |
| PathImport.Examples | src/analyzers/path_import.rs:60-149 | `std::fs::read_to_string`, `core::mem::size_of` and `alloc::format::format` are flagged. `fs::read`, `Vec::new`, `u32::MAX`, `f64::consts::PI`, `std::collections::HashMap::new` and `some::module::MAX_VALUE` are not. |
| PathImport.LowerNotScreaming | src/analyzers/path_import.rs:133-136 | A name starting with a lower-case letter is not screaming snake case. |
| PathImport.PathIssue | src/analyzers/path_import.rs:185-214 | The issue is at the path's position and carries an import fix. |
| PathImport.PathFixConsistent | src/analyzers/path_import.rs:192-212 | The fix's pattern is the module path, `::`, then the replacement. The replacement is the last segment, the import is `use <pattern>;`, and the message ends with the pattern. |
| PathImport.JoinLast | src/analyzers/path_import.rs:192-197 | Joining two or more segments ends with the separator and the last segment. |
| PathImport.PathIssues | src/analyzers/path_import.rs:185-214 | At most one issue per path, each with an import fix. |
| PathImport.PathIssuesExact | src/analyzers/path_import.rs:185-214 | Each flagged path has its issue, and each issue belongs to a flagged path. |
| PathImport.NothingFlagged | src/analyzers/path_import.rs:185-214 | There are no issues exactly when no path is flagged. |
| PathImport.Analyze | src/analyzers/path_import.rs:157-169 | Every issue carries an available fix, and all of them are declared fixable. |
| FormatArgs.CheckMacroIff | src/analyzers/format_args.rs:17-37 | A macro is flagged exactly when it is `format`, `println`, `print`, `write` or `writeln` and its tokens contain `{}` and a comma. The issue is at the macro, with the fixed message and no fix. |
| FormatArgs.NotFlagged | src/analyzers/format_args.rs:21-24 | Tokens without a comma, or without `{}`, are never flagged. |
| FormatArgs.PositionalExample | src/analyzers/format_args.rs:81-93 | `println!("Hello {}", name)` is flagged. The same tokens under `vec!` are not. |
| FormatArgs.NamedExamples | src/analyzers/format_args.rs:17-37 | `println!("Hello {name}")` and `println!("Hello world")` are not flagged. |
| FormatArgs.MacroIssues | src/analyzers/format_args.rs:81-93 | At most one issue per macro, each with the fixed message and no fix. |
| FormatArgs.MacroIssuesExact | src/analyzers/format_args.rs:81-93 | Each flagged macro has its issue at its position, and each issue comes from a flagged macro. |
| FormatArgs.Analyze | src/analyzers/format_args.rs:45-57 | Every issue is declared fixable although none carries a fix. |
| EmptyLines.BraceTests | src/analyzers/empty_lines.rs:105-142 | The brace tests reduce to "the trimmed line before ends with `{`" and "the trimmed line after starts with `}`". |
| EmptyLines.PushesIff | src/analyzers/empty_lines.rs:62-91 | Within the body's range, the loop pushes an issue exactly for the blank lines strictly inside the body, inside the file, not after a line ending in `{` and not before a line starting with `}`. |
| EmptyLines.PushedIsReported | src/analyzers/empty_lines.rs:62-91 | Every line the loop pushes is such a line. |
| EmptyLines.ReportedIsPushed | src/analyzers/empty_lines.rs:62-91 | Every such line is pushed. |
| EmptyLines.ReportedLines | src/analyzers/empty_lines.rs:62-91 | The loop pushes exactly the qualifying line numbers of the range, each once, in ascending order (`Scan.WantedBelow`). |
| EmptyLines.CheckBlock | src/analyzers/empty_lines.rs:53-94 | An empty or inverted range reports nothing. Otherwise there is one issue per qualifying line, at column 1 with a fix that empties it, in ascending line order, and nothing else. The list is exactly the body's issues (`Scan.BodyIssues`). |
| EmptyLines.Analyze | src/analyzers/empty_lines.rs:186-224 | The issues are exactly `Scan.ScanAll`: each body's issues in ascending line order, body after body in visit order. A nested function met twice therefore has its blank lines reported twice. As a set, every issue is a qualifying blank line of some body and every such line has an issue. The fixable count is the length of the list, duplicates included. |
| InlineComments.FirstFrom | src/analyzers/inline_comments.rs:123-140 | The first index from `from` on that satisfies the test. Nothing before it does, and if there is none, nothing does. |
| InlineComments.RelatedCode | src/analyzers/inline_comments.rs:123-140 | The related code line is the first code line after the comment, searching to the end of the file. |
| InlineComments.CommentIssue | src/analyzers/inline_comments.rs:99-104 | The issue is at the comment's line, column 1, with no fix. |
| InlineComments.CheckBlock | src/analyzers/inline_comments.rs:66-109 | An empty or inverted range flags nothing. Otherwise there is one issue per inline comment in the range, in ascending line order, and nothing else. The list is exactly the body's issues (`Scan.BodyIssues`). |
| InlineComments.FlaggedStep | src/analyzers/inline_comments.rs:75-84 | The loop body's test is "an inline comment inside the file". |
| InlineComments.Analyze | src/analyzers/inline_comments.rs:184-221 | The issues are exactly `Scan.ScanAll`: each body's flagged lines in ascending order, body after body in visit order. A nested function met twice has its comments reported twice. As a set, every issue is an inline comment of some body and every such comment has an issue. None carries a fix, and none counts as fixable. |
| InlineComments.DocCommentNotFlagged | src/analyzers/inline_comments.rs:84 | `///` doc comments are never flagged. |
| InlineComments.CommentFlagged | src/analyzers/inline_comments.rs:84 | An indented `//` followed by text that does not start a doc comment is flagged. |
| InlineComments.CommentTextIs | src/analyzers/inline_comments.rs:85 | The comment's words are the text after `//`, trimmed. |
| InlineComments.EmptyComment | src/analyzers/inline_comments.rs:84-85 | A bare `//` is flagged, with empty words. |
| InlineComments.MessageQuotes | src/analyzers/inline_comments.rs:89-104 | The message quotes the comment. When related code exists, it shows that code, trimmed, between backticks. |
| ModRs.CreateIssueIff | src/mod_rs.rs:166-183 | An issue is created exactly when the file lies inside a named directory. |
| ModRs.SuggestedPath | src/mod_rs.rs:166-183 | The suggested file is `<dir>.rs` in the directory above. It shares its parent with the original's parent, the issue names the original file, and it points at line 1, column 1. |
| ModRs.MessageNamesBoth | src/mod_rs.rs:173-180 | The message names both `<name>.rs` and `<name>/mod.rs`. |
| ModRs.AnalyzersExample | src/mod_rs.rs:150-183 | `src/analyzers/mod.rs` is a `mod.rs` and becomes `src/analyzers.rs`. |
| ModRs.NewResult | src/mod_rs.rs:58-62 | A new result has no issues and is empty. |
| ModRs.EmptyIffZero | src/mod_rs.rs:66-75 | A result is empty exactly when its length is 0. |
| ModRs.CheckFile | src/mod_rs.rs:102-109 | A single file yields at most one issue. |
| ModRs.CheckFileIff | src/mod_rs.rs:102-109 | A file is reported exactly when it is named `mod.rs` and lies in a named directory, and the report is about that file. |
| ModRs.FileExamples | src/mod_rs.rs:150-183 | A top-level `mod.rs` and any `lib.rs` are not reported. A `mod.rs` under a directory is. |
| Analyzers.NamesDistinct | src/analyzers.rs:155-162 | Four analyzers, `path_import` first and `inline_comments` last, with no two sharing a name. |
| Analyzers.AnalyzeFile | src/main.rs:425-435 | A file's report holds each analyzer's result under its name, in registry order. `path_import` and `format_args` are their analyzers' results. The line-based analyzers read `Lines(content)`, the file's `content.lines()`. The `empty_lines` and `inline_comments` issues are exactly their `Scan.ScanAll` lists, in visit order with repeats. Empty-line issues are all fixable; inline comments are not. The total is the sum of the four list lengths, so it is fixed by the file's facts. |
| Scan.ScanAllAppend | src/analyzers/empty_lines.rs:212-224 | Visiting two runs of bodies gives the first run's issues followed by the second's. |
| Analyzers.ModRsReport | src/main.rs:466-483 | Each `mod.rs` issue becomes a report of its own under `mod_rs`. The report has one issue at the same position with the same message, the suggested file as its fix, and is declared fixable. |
| Formatter.Settings | src/formatter.rs:81-112 | The option table: each of the eleven option names with its value, in order. |
| Formatter.ToArgsAreSettings | src/formatter.rs:81-112 | `to_args` is 22 strings: `--config` at every even position, followed by `name=value` for the corresponding option. |
| Formatter.ArgPair | src/formatter.rs:81-112 | Option j's pair of arguments is `--config` and `name=value`. |
| Formatter.FirstIndex | src/formatter.rs:81-112 | The first occurrence of a character, or none when it does not occur. |
| Formatter.SplitKeyValue | src/formatter.rs:81-112 | Splitting `key=value` at the first `=` gives the key and the value back when the key has no `=`. |
| Formatter.ParsePairs | src/formatter.rs:81-112 | Reading `--config key=value` pairs back gives the option table. |
| Formatter.ToArgsRoundTrip | src/formatter.rs:81-112 | Reading the arguments back gives every option of the configuration with its value, so the serialisation loses nothing. |
| Formatter.DefaultArgs | src/formatter.rs:45-59 | The default passes `trailing_comma=Never` and `brace_style=SameLineWhere`. |
| Formatter.DefaultWidths | src/formatter.rs:45-59 | The default passes `max_width=99` and a field-alignment threshold of 20. |
| Text.Trim | src/differ/display.rs:316 | `str::trim` leaves no whitespace at either end and never lengthens. |
| Text.TrimEmptyIffBlank | src/analyzers/empty_lines.rs:69 | A line trims to nothing exactly when it is all whitespace. |
| Text.Lines | src/analyzers/empty_lines.rs:60 | `str::lines` gives no lines exactly for empty text, and no line contains a newline. |
| Text.ReplaceAllIsSplitJoin | src/differ/generator.rs:53-55 | `replace` with a non-empty pattern is splitting at the pattern and joining with the replacement. |

## Left out

- The `syn` parse and the visitors are left out. Each analyzer receives what its visitor reads from the tree as a list: path segments with positions, macro paths with printed tokens and positions, and function-body line ranges in visit order. Which items a nested function is met under is therefore an input, not derived from a tree. Token printing (`TokenStream::to_string`) is therefore not modelled.
- File reads, printing, flushing standard output, and reading standard input are left out. The read result and the response lines are parameters. The interactive walk's per-entry text is not modelled: only the selection it returns is.
- `terminal_size` becomes an optional width. Its `u16` and the `usize` conversion are unbounded naturals.
- The iteration order of the summary's `HashMap` and of the grouper's `HashSet` is a parameter. The lemmas hold for every order.
- Text width (`console::measure_text_width`) counts one column per character and skips complete `ESC [ … m` sequences. East Asian wide characters and other escape sequences are not modelled.
- Display.LowerAscii: lower-cases ASCII only, where `str::to_lowercase` is Unicode. Only the ASCII results can be a command, so the commands decided are the same.
- The character classes `is_uppercase` and `is_numeric` in `path_import` are restricted to ASCII. The whitespace that `trim` removes is the full Unicode White_Space set.
- Colouring follows the `owo-colors` codes: bold 1/0, dimmed 2/0, and red, green, yellow or cyan reset with 39. Terminal-dependent colouring is not modelled.
- `src/differ/display.rs:191` calls `render_file_block(f, color)`, but `src/differ/display/render.rs:67` takes only the file. The model follows render.rs: blocks are always coloured.
- `src/analyzer.rs` declares `Issue` with a `suggestion` field and `analyze(&self, ast)` with one argument. The analyzers use a `fix: Fix` field and two arguments. The model follows the analyzers. The `Fix` type is not part of this model's sources and is modelled from its uses. `format_args` builds its issues without a fix, which the model writes as `NoFix`.
- Each analyzer's `fix` (the `PathFixer` rewrite of the tree) is left out, as are `fix_mod_rs`, `fix_all_mod_rs` and `format_code`. These rewrite files or run external programs.
- `collect_mod_rs_recursive` (the directory walk of `find_mod_rs_issues`) is left out because it reads the file system. Only a path that is a file is modelled.
- ModRs.Path: paths are named components under an optional root. `.`, `..` and prefix components are not modelled.
- `GlobalReport`, the command-line parsing, help text, shell completions, `file_utils` and `error` are left out. They are outside the core.
- The capacity hints (`ESTIMATED_LINES_PER_FILE`, `with_capacity`) do not change results and are left out.
- `check_quality`'s analyzer-name filter and verbose flag are left out. `AnalyzeFile` runs the full registry.
- Grid.RenderGrid: requires at least one column when there are blocks. `files.chunks(0)` at `src/differ/display/grid.rs:154` panics, and the panic is not modelled. `calculate_columns` never returns 0.
- Display.QuitFile: follows the code. The doc comment at `src/differ/display.rs:234` says `q` exits without processing the remaining changes. The loop at lines 329-332 only leaves the current file, and the next file is still asked about.

## Findings

| source | as written | input that shows it | evidently intended | confidence | as-written member | corrected member |
|---|---|---|---|---|---|---|
| src/differ/display/grouping.rs:100-124 | When one path equals the common prefix, it does not start with `prefix::`. The prefix kept is then the bare prefix, stripping it leaves an empty item, and the statement is emitted without the prefix. | `use std::fs;` and `use std::fs::read;` give `use std::{, ::read};` | A statement that imports both paths, such as `use std::{fs, fs::read};` | not executed | Grouping.GroupTreeLosesPrefixPath | Grouping.GroupImportsFixed (with Grouping.GroupTreeFixedMeaning and Grouping.GroupImportsFixedMeaning), shown in a block by Render.ImportOutsFixedLines |
