/** The newspaper-style layout of diff blocks (grid.rs): how many blocks go
    side by side, and the output lines of the grid. */
module Grid {
  import opened Text
  import opened Ansi
  import opened Formatting
  import opened Rendered

  /** `COLUMN_GAP` */
  const ColumnGap: nat := 4

  /** `MIN_FILE_WIDTH` */
  const MinFileWidth: nat := 40

  /** The widest block's width. */
  function MaxWidth(files: seq<RenderedFile>): (m: nat)
    requires |files| >= 1
    ensures forall k :: 0 <= k < |files| ==> files[k].width <= m
    ensures exists k :: 0 <= k < |files| && files[k].width == m
  {
    if |files| == 1 then files[0].width
    else Max(files[0].width, MaxWidth(files[1..]))
  }

  /** The columns `cols` blocks of width `w` take, gaps included. */
  function TotalWidth(cols: nat, w: nat): nat
    requires cols >= 1
  {
    cols * w + (cols - 1) * ColumnGap
  }

  predicate Fits(cols: nat, w: nat, termWidth: nat)
    requires cols >= 1
  {
    TotalWidth(cols, w) <= termWidth
  }

  /** The loop of `calculate_columns` from `n` columns down: the first count
      that fits, or 1 when none does. */
  function LargestFit(n: nat, w: nat, termWidth: nat): (cols: nat)
    ensures 1 <= cols && (n >= 1 ==> cols <= n)
    ensures n >= 1 && cols < n ==> forall c :: cols < c <= n ==> !Fits(c, w, termWidth)
    ensures Fits(cols, w, termWidth) || (cols == 1 && (n == 0 || !Fits(1, w, termWidth)))
  {
    if n == 0 then 1
    else if Fits(n, w, termWidth) then n
    else LargestFit(n - 1, w, termWidth)
  }

  /** `calculate_columns` */
  function CalculateColumns(files: seq<RenderedFile>, termWidth: nat): (cols: nat)
    ensures 1 <= cols
    ensures files != [] ==> cols <= |files|
  {
    if files == [] then 1
    else LargestFit(|files|, Max(MaxWidth(files), MinFileWidth), termWidth)
  }

  /** Fitting is downward closed: fewer columns of the same width never
      take more room. */
  lemma FitsDownward(c: nat, d: nat, w: nat, termWidth: nat)
    requires 1 <= d <= c && Fits(c, w, termWidth)
    ensures Fits(d, w, termWidth)
  {
    MulMonotone(d, c, w);
    MulMonotone(d - 1, c - 1, ColumnGap);
  }

  lemma MulMonotone(a: nat, b: nat, w: nat)
    requires a <= b
    ensures a * w <= b * w
  {
    assert b * w == a * w + (b - a) * w;
  }

  /** The column count is the largest count, at most the number of blocks,
      whose blocks at the floored common width fit the terminal; and it is
      1 when not even one block fits. */
  lemma CalculateColumnsLargest(files: seq<RenderedFile>, termWidth: nat, c: nat)
    requires files != [] && 1 <= c <= |files|
    ensures var w := Max(MaxWidth(files), MinFileWidth);
            Fits(c, w, termWidth) <==> c <= CalculateColumns(files, termWidth) && Fits(1, w, termWidth)
  {
    var w := Max(MaxWidth(files), MinFileWidth);
    var cols := CalculateColumns(files, termWidth);
    if Fits(c, w, termWidth) {
      FitsDownward(c, 1, w, termWidth);
    } else if c <= cols && Fits(1, w, termWidth) {
      FitsDownward(cols, c, w, termWidth);
    }
  }

  /** The documented cases: three 40-column blocks share a 250-column
      terminal, and a 100-column block on an 80-column terminal stands
      alone. */
  lemma CalculateColumnsExamples()
    ensures CalculateColumns([RenderedFile([], 40), RenderedFile([], 40), RenderedFile([], 40)], 250) == 3
    ensures CalculateColumns([RenderedFile([], 100)], 80) == 1
    ensures CalculateColumns([], 80) == 1
  {
    var three := [RenderedFile([], 40), RenderedFile([], 40), RenderedFile([], 40)];
    assert MaxWidth(three[1..]) == 40;
  }

  // ---------------------------------------------------------------------
  // The grid's output lines

  /** `render_single_column`: every block's lines, each block followed by a
      blank line. */
  function SingleColumn(files: seq<RenderedFile>): (out: seq<string>)
  {
    if files == [] then [] else files[0].lines + [""] + SingleColumn(files[1..])
  }

  /** The line `row` of a block, or an empty line past its end. */
  function LineAt(f: RenderedFile, row: nat): string {
    if row < |f.lines| then f.lines[row] else ""
  }

  /** The most lines any block of a chunk has. */
  function MaxLines(chunk: seq<RenderedFile>): (m: nat)
    ensures forall k :: 0 <= k < |chunk| ==> LineCount(chunk[k]) <= m
    ensures chunk != [] ==> exists k :: 0 <= k < |chunk| && LineCount(chunk[k]) == m
    ensures chunk == [] ==> m == 0
  {
    if chunk == [] then 0 else Max(LineCount(chunk[0]), MaxLines(chunk[1..]))
  }

  /** Every block's line `row`, padded to the column width. */
  function Cells(chunk: seq<RenderedFile>, row: nat, colWidth: nat): (r: seq<string>)
    ensures |r| == |chunk|
    ensures forall k :: 0 <= k < |chunk| ==> r[k] == PadToWidth(LineAt(chunk[k], row), colWidth)
  {
    seq(|chunk|, k requires 0 <= k < |chunk| => PadToWidth(LineAt(chunk[k], row), colWidth))
  }

  /** One output row: the cells separated by the gap, none after the last. */
  function Row(chunk: seq<RenderedFile>, row: nat, colWidth: nat): string {
    Join(Cells(chunk, row, colWidth), Spaces(ColumnGap))
  }

  /** The rows of one chunk, then a blank line. */
  function ChunkLines(chunk: seq<RenderedFile>, colWidth: nat): (out: seq<string>)
    ensures |out| == MaxLines(chunk) + 1
    ensures forall r :: 0 <= r < MaxLines(chunk) ==> out[r] == Row(chunk, r, colWidth)
    ensures out[MaxLines(chunk)] == ""
  {
    seq(MaxLines(chunk), r requires 0 <= r < MaxLines(chunk) => Row(chunk, r, colWidth)) + [""]
  }

  /** `files.chunks(columns)`, each laid out in turn. */
  function Chunked(files: seq<RenderedFile>, columns: nat, colWidth: nat): seq<string>
    requires columns >= 1
    decreases |files|
  {
    if files == [] then []
    else
      var n := if columns < |files| then columns else |files|;
      ChunkLines(files[..n], colWidth) + Chunked(files[n..], columns, colWidth)
  }

  /** `render_grid`: nothing for no blocks, the single-column listing for
      one column, and otherwise rows padded to the widest block's own,
      unfloored, width. `chunks` panics on a zero size, so more than zero
      columns are needed once there are blocks. */
  function RenderGrid(files: seq<RenderedFile>, columns: nat): (out: seq<string>)
    requires files == [] || columns >= 1
    ensures files == [] ==> out == []
    ensures files != [] && columns == 1 ==> out == SingleColumn(files)
    ensures files != [] && columns >= 2 ==> |out| == ChunkedCount(files, columns)
  {
    if files == [] then []
    else if columns == 1 then SingleColumn(files)
    else
      ChunkedLength(files, columns, MaxWidth(files));
      Chunked(files, columns, MaxWidth(files))
  }

  /** The total number of lines of the blocks, each with its blank line. */
  function LinesPlusBlank(files: seq<RenderedFile>): nat {
    if files == [] then 0 else LineCount(files[0]) + 1 + LinesPlusBlank(files[1..])
  }

  /** Listing two runs of blocks is listing the first, then the second. */
  lemma {:induction false} SingleColumnAppend(a: seq<RenderedFile>, b: seq<RenderedFile>)
    ensures SingleColumn(a + b) == SingleColumn(a) + SingleColumn(b)
    decreases |a|
  {
    if a == [] {
      assert a + b == b;
    } else {
      assert (a + b)[0] == a[0] && (a + b)[1..] == a[1..] + b;
      SingleColumnAppend(a[1..], b);
    }
  }

  /** The single-column listing shows every block's lines verbatim, in
      order, each block followed by exactly one blank line. */
  lemma SingleColumnAt(files: seq<RenderedFile>, k: nat)
    requires k < |files|
    ensures SingleColumn(files) == SingleColumn(files[..k]) + files[k].lines + [""] + SingleColumn(files[k + 1..])
  {
    var pre, tail := files[..k], files[k + 1..];
    assert files == pre + ([files[k]] + tail);
    SingleColumnAppend(pre, [files[k]] + tail);
    SingleColumnCons(files[k], tail);
  }

  lemma SingleColumnCons(f: RenderedFile, rest: seq<RenderedFile>)
    ensures SingleColumn([f] + rest) == f.lines + [""] + SingleColumn(rest)
  {
    assert ([f] + rest)[0] == f && ([f] + rest)[1..] == rest;
  }

  /** The listing has one line per block line plus one per block. */
  lemma {:induction false} SingleColumnLength(files: seq<RenderedFile>)
    ensures |SingleColumn(files)| == LinesPlusBlank(files)
  {
    if files != [] {
      SingleColumnLength(files[1..]);
    }
  }

  /** Every line of the block is at most as wide as the block claims. */
  predicate Truthful(f: RenderedFile) {
    forall r :: 0 <= r < |f.lines| ==> Vis(f.lines[r]) <= f.width
  }

  /** A cell, the gap, and the rest of the row. */
  lemma VisCellGap(c: string, rest: string)
    ensures Vis(c + Spaces(ColumnGap) + rest) == Vis(c) + ColumnGap + Vis(rest)
  {
    var gap := Spaces(ColumnGap);
    assert c + gap + rest == c + (gap + rest);
    assert (gap + rest)[0] == ' ';
    VisAppend(c, gap + rest);
    VisPlainFront(gap, rest);
  }

  lemma TotalWidthStep(n: nat, w: nat)
    requires n >= 2
    ensures TotalWidth(n, w) == w + ColumnGap + TotalWidth(n - 1, w)
  {
    assert n * w == w + (n - 1) * w;
  }

  /** Cells of the same width joined by the gap. */
  lemma {:induction false} JoinWidth(cells: seq<string>, w: nat)
    requires |cells| >= 1
    requires forall k :: 0 <= k < |cells| ==> Vis(cells[k]) == w
    ensures Vis(Join(cells, Spaces(ColumnGap))) == TotalWidth(|cells|, w)
    decreases |cells|
  {
    var gap := Spaces(ColumnGap);
    if |cells| == 1 {
      assert Join(cells, gap) == cells[0] + "";
      assert cells[0] + "" == cells[0];
    } else {
      assert cells == [cells[0]] + cells[1..];
      JoinCons(cells[0], cells[1..], gap);
      JoinWidth(cells[1..], w);
      VisCellGap(cells[0], Join(cells[1..], gap));
      TotalWidthStep(|cells|, w);
    }
  }

  /** Rows line up: when every block is as narrow as it claims and no wider
      than the column width, every row of a chunk is exactly as wide as the
      chunk's blocks and gaps. */
  lemma RowWidth(chunk: seq<RenderedFile>, row: nat, colWidth: nat)
    requires |chunk| >= 1
    requires forall k :: 0 <= k < |chunk| ==> Truthful(chunk[k]) && chunk[k].width <= colWidth
    ensures Vis(Row(chunk, row, colWidth)) == TotalWidth(|chunk|, colWidth)
  {
    var cells := Cells(chunk, row, colWidth);
    forall k | 0 <= k < |chunk|
      ensures Vis(cells[k]) == colWidth
    {
      PadWidth(LineAt(chunk[k], row), colWidth);
      if row >= |chunk[k].lines| {
        VisPlain("");
      }
    }
    JoinWidth(cells, colWidth);
  }

  /** The number of lines a multi-column grid prints: for every chunk, its
      tallest block's line count plus the blank line. */
  function ChunkedCount(files: seq<RenderedFile>, columns: nat): nat
    requires columns >= 1
    decreases |files|
  {
    if files == [] then 0
    else
      var n := if columns < |files| then columns else |files|;
      MaxLines(files[..n]) + 1 + ChunkedCount(files[n..], columns)
  }

  lemma {:induction false} ChunkedLength(files: seq<RenderedFile>, columns: nat, colWidth: nat)
    requires columns >= 1
    ensures |Chunked(files, columns, colWidth)| == ChunkedCount(files, columns)
    decreases |files|
  {
    if files != [] {
      var n := if columns < |files| then columns else |files|;
      ChunkedLength(files[n..], columns, colWidth);
    }
  }

  /** Blocks that fit in one chunk give that chunk's rows and blank line. */
  lemma OneChunk(files: seq<RenderedFile>, columns: nat)
    requires columns >= 2 && 1 <= |files| <= columns
    ensures RenderGrid(files, columns) == ChunkLines(files, MaxWidth(files))
  {
    assert files[..|files|] == files;
    assert Chunked(files[|files|..], columns, MaxWidth(files)) == [];
  }

  /** Side by side: with every block's width truthful, every row of a
      multi-column grid whose blocks fill one chunk is as wide as the
      blocks at the widest block's width plus the gaps, and the chunk ends
      with one blank line. */
  lemma GridRowsAligned(files: seq<RenderedFile>, columns: nat, r: nat)
    requires columns >= 2 && 1 <= |files| <= columns
    requires forall k :: 0 <= k < |files| ==> Truthful(files[k])
    requires r < MaxLines(files)
    ensures |RenderGrid(files, columns)| == MaxLines(files) + 1
    ensures RenderGrid(files, columns)[r] == Row(files, r, MaxWidth(files))
    ensures Vis(RenderGrid(files, columns)[r]) == TotalWidth(|files|, MaxWidth(files))
  {
    OneChunk(files, columns);
    RowWidth(files, r, MaxWidth(files));
  }
}
