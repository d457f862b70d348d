/** Terminal colouring and the visible width of coloured text.

    Colouring wraps a text in SGR escape sequences (`ESC [ <code> m`), as the
    owo-colors styles the diff view uses do. The visible width skips every
    complete SGR sequence (an ESC, a `[`, parameter characters `0-9` and `;`,
    and a final `m`) and counts every other character, an ESC that starts no
    complete sequence included, as one column. */
module Ansi {
  import opened Wrappers
  import opened Text

  const Esc: char := '\U{1B}'

  datatype Style = Bold | Dimmed | Red | Green | Yellow | Cyan

  /** The SGR parameter that switches a style on. */
  function OnCode(st: Style): string {
    match st
    case Bold => "1"
    case Dimmed => "2"
    case Red => "31"
    case Green => "32"
    case Yellow => "33"
    case Cyan => "36"
  }

  /** The SGR parameter that switches it off again: colours reset the
      foreground, effects reset everything. */
  function OffCode(st: Style): string {
    match st
    case Bold => "0"
    case Dimmed => "0"
    case _ => "39"
  }

  predicate IsParam(c: char) {
    '0' <= c <= '9' || c == ';'
  }

  predicate AllParams(code: string) {
    forall i :: 0 <= i < |code| ==> IsParam(code[i])
  }

  /** One escape sequence `ESC [ code m`. */
  function Sgr(code: string): string {
    [Esc] + "[" + code + "m"
  }

  /** `s.<style>().to_string()` */
  function Paint(st: Style, s: string): string {
    Sgr(OnCode(st)) + s + Sgr(OffCode(st))
  }

  /** What follows the parameters and the final `m` of a sequence whose
      `ESC [` has been read, or `None` when the sequence is not complete. */
  function AfterParams(s: string): (r: Option<string>)
    ensures r.Some? ==> |r.value| < |s| && r.value == s[|s| - |r.value|..]
    decreases |s|
  {
    if s == [] then None
    else if s[0] == 'm' then Some(s[1..])
    else if IsParam(s[0]) then AfterParams(s[1..])
    else None
  }

  /** A complete SGR sequence starts `s`. */
  predicate StartsSgr(s: string) {
    |s| >= 2 && s[0] == Esc && s[1] == '[' && AfterParams(s[2..]).Some?
  }

  /** `console::measure_text_width`, with every character one column wide. */
  function Vis(s: string): nat
    decreases |s|
  {
    if s == [] then 0
    else if StartsSgr(s) then Vis(AfterParams(s[2..]).value)
    else 1 + Vis(s[1..])
  }

  /** `s` cannot complete or extend a sequence left open before it. */
  predicate Breaks(s: string) {
    s == [] || !(IsParam(s[0]) || s[0] == 'm' || s[0] == '[')
  }

  /** Text without escape characters is as wide as it is long. */
  lemma {:induction false} VisPlain(s: string)
    requires Esc !in s
    ensures Vis(s) == |s|
    decreases |s|
  {
    if s != [] {
      assert Esc !in s[1..];
      VisPlain(s[1..]);
    }
  }

  /** A sequence complete in `a` ends at the same place in `a + b`; one
      incomplete in `a` stays incomplete when `b` cannot continue it. */
  lemma {:induction false} AfterParamsAppend(a: string, b: string)
    ensures AfterParams(a).Some? ==> AfterParams(a + b) == Some(AfterParams(a).value + b)
    ensures AfterParams(a).None? && Breaks(b) ==> AfterParams(a + b).None?
    decreases |a|
  {
    if a == [] {
      assert a + b == b;
    } else {
      assert (a + b)[0] == a[0] && (a + b)[1..] == a[1..] + b;
      AfterParamsAppend(a[1..], b);
    }
  }

  /** Widths add up when the second part cannot continue an open sequence. */
  lemma {:induction false} VisAppend(a: string, b: string)
    requires Breaks(b)
    ensures Vis(a + b) == Vis(a) + Vis(b)
    decreases |a|
  {
    if a == [] {
      assert a + b == b;
    } else if |a| == 1 {
      assert a + b == [a[0]] + b;
      assert (a + b)[1..] == b;
      assert !StartsSgr(a);
    } else {
      assert (a + b)[..2] == a[..2] && (a + b)[2..] == a[2..] + b;
      assert (a + b)[1..] == a[1..] + b;
      AfterParamsAppend(a[2..], b);
      if StartsSgr(a) {
        VisAppend(AfterParams(a[2..]).value, b);
      } else {
        VisAppend(a[1..], b);
      }
    }
  }

  /** A complete sequence in front of `s` adds no width. */
  lemma VisSgrFront(code: string, s: string)
    requires AllParams(code)
    ensures Vis(Sgr(code) + s) == Vis(s)
  {
    var w := Sgr(code) + s;
    assert w[0] == Esc && w[1] == '[';
    assert w[2..] == code + ("m" + s);
    AfterCode(code, "m" + s);
    assert AfterParams("m" + s) == Some(s);
  }

  lemma {:induction false} AfterCode(code: string, rest: string)
    requires AllParams(code)
    ensures AfterParams(code + rest) == AfterParams(rest)
    decreases |code|
  {
    if code == [] {
      assert code + rest == rest;
    } else {
      assert (code + rest)[0] == code[0] && (code + rest)[1..] == code[1..] + rest;
      AfterCode(code[1..], rest);
    }
  }

  /** Wrapping a text between two complete sequences keeps its width. */
  lemma VisWrap(on: string, off: string, s: string)
    requires AllParams(on) && AllParams(off)
    ensures Vis(Sgr(on) + s + Sgr(off)) == Vis(s)
  {
    assert Sgr(on) + s + Sgr(off) == Sgr(on) + (s + Sgr(off));
    VisSgrFront(on, s + Sgr(off));
    VisAppend(s, Sgr(off));
    VisSgrFront(off, []);
    assert Sgr(off) + [] == Sgr(off);
  }

  /** Colouring a text keeps its visible width, whatever the text holds. */
  lemma VisPaint(st: Style, s: string)
    ensures Vis(Paint(st, s)) == Vis(s)
  {
    VisWrap(OnCode(st), OffCode(st), s);
  }

  /** Spaces are as wide as they are many. */
  lemma VisSpaces(n: nat)
    ensures Vis(Spaces(n)) == n
  {
    VisPlain(Spaces(n));
  }
}
