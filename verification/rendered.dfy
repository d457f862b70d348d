/** A file's diff block laid out as text lines, with the visible width the
    grid reserves for it (display/types.rs). */
module Rendered {
  datatype RenderedFile = RenderedFile(lines: seq<string>, width: nat)

  /** `RenderedFile::line_count` */
  function LineCount(f: RenderedFile): nat {
    |f.lines|
  }

  /** Pushing lines onto a block: earlier lines and the width are kept and
      the count grows by the number pushed. */
  function PushLines(f: RenderedFile, more: seq<string>): (r: RenderedFile)
    ensures LineCount(r) == LineCount(f) + |more|
    ensures r.width == f.width
    ensures r.lines[..LineCount(f)] == f.lines && r.lines[LineCount(f)..] == more
  {
    RenderedFile(f.lines + more, f.width)
  }

  /** A block without lines counts none, and pushing one line after another
      counts them one by one. */
  lemma LineCountSteps(width: nat, a: string, b: string)
    ensures LineCount(RenderedFile([], width)) == 0
    ensures LineCount(PushLines(PushLines(RenderedFile([], width), [a]), [b])) == 2
    ensures PushLines(PushLines(RenderedFile([], width), [a]), [b]).lines == [a, b]
  {
  }
}
