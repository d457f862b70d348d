/** Padding coloured text to a visible width (formatting.rs). */
module Formatting {
  import opened Text
  import opened Ansi

  function Max(a: nat, b: nat): nat {
    if a >= b then a else b
  }

  /** `pad_to_width`: `text` followed by as many spaces as it lacks to be
      `width` columns wide; a text already that wide is never truncated. */
  function PadToWidth(text: string, width: nat): (r: string)
    ensures StartsWith(r, text)
    ensures forall i :: |text| <= i < |r| ==> r[i] == ' '
    ensures Vis(text) >= width ==> r == text
  {
    if Vis(text) >= width then text
    else
      var r := text + Spaces(width - Vis(text));
      assert r[..|text|] == text;
      r
  }

  /** Plain characters in front of a text add their count to its width. */
  lemma {:induction false} VisPlainFront(p: string, s: string)
    requires Esc !in p
    ensures Vis(p + s) == |p| + Vis(s)
    decreases |p|
  {
    if p == [] {
      assert p + s == s;
    } else {
      assert (p + s)[0] == p[0] && (p + s)[1..] == p[1..] + s;
      assert Esc !in p[1..];
      VisPlainFront(p[1..], s);
    }
  }

  /** The padded text is exactly as wide as the wider of the target and the
      text itself, and the padding is the width the text lacks. */
  lemma PadWidth(text: string, width: nat)
    ensures Vis(PadToWidth(text, width)) == Max(width, Vis(text))
    ensures |PadToWidth(text, width)| == |text| + (if Vis(text) < width then width - Vis(text) else 0)
  {
    if Vis(text) < width {
      var n := width - Vis(text);
      VisAppend(text, Spaces(n));
      VisSpaces(n);
    }
  }

  /** Padding to the width the text already has changes nothing, so padding
      twice is padding once. */
  lemma PadIdempotent(text: string, width: nat)
    ensures PadToWidth(PadToWidth(text, width), width) == PadToWidth(text, width)
  {
    PadWidth(text, width);
  }

  /** An empty text pads to `width` spaces. */
  lemma PadEmpty(width: nat)
    ensures PadToWidth("", width) == Spaces(width)
  {
    if width > 0 {
      assert "" + Spaces(width) == Spaces(width);
    }
  }

  /** The examples of the documentation: `hello` padded to 10, and a red
      `test` padded to 10 visible columns. */
  lemma PadExamples()
    ensures PadToWidth("hello", 10) == "hello     "
    ensures Vis(PadToWidth(Paint(Red, "test"), 10)) == 10
  {
    VisPlain("hello");
    assert "hello" + Spaces(5) == "hello     ";
    VisPaint(Red, "test");
    VisPlain("test");
    PadWidth(Paint(Red, "test"), 10);
  }
}
