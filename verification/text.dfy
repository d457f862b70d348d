/** String primitives the linter takes from Rust's `str`: whitespace
    trimming, prefix tests, searching, `split`/`join` on a separator,
    `replace`, and decimal rendering of counters. */
module Text {
  import opened Wrappers

  /** Rust's `char::is_whitespace`, i.e. the Unicode White_Space property. */
  predicate IsWhitespace(c: char) {
    || ('\t' <= c <= '\r')
    || c == ' '
    || c == '\U{85}'
    || c == '\U{A0}'
    || c == '\U{1680}'
    || ('\U{2000}' <= c <= '\U{200A}')
    || c == '\U{2028}'
    || c == '\U{2029}'
    || c == '\U{202F}'
    || c == '\U{205F}'
    || c == '\U{3000}'
  }

  /** Every character is whitespace (`s.trim().is_empty()`). */
  predicate IsBlank(s: string) {
    forall i :: 0 <= i < |s| ==> IsWhitespace(s[i])
  }

  /** `str::trim_start`: the suffix left after dropping leading whitespace. */
  function TrimStart(s: string): (r: string)
    ensures |r| <= |s| && r == s[|s| - |r|..]
    ensures forall i :: 0 <= i < |s| - |r| ==> IsWhitespace(s[i])
    ensures r == [] || !IsWhitespace(r[0])
    decreases |s|
  {
    if s == [] || !IsWhitespace(s[0]) then s else TrimStart(s[1..])
  }

  /** `str::trim_end`: the prefix left after dropping trailing whitespace. */
  function TrimEnd(s: string): (r: string)
    ensures |r| <= |s| && r == s[..|r|]
    ensures forall i :: |r| <= i < |s| ==> IsWhitespace(s[i])
    ensures r == [] || !IsWhitespace(r[|r| - 1])
    decreases |s|
  {
    if s == [] || !IsWhitespace(s[|s| - 1]) then s else TrimEnd(s[..|s| - 1])
  }

  /** `str::trim`: `s` without its leading and trailing whitespace. */
  function Trim(s: string): (r: string)
    ensures |r| <= |s|
    ensures r == [] || (!IsWhitespace(r[0]) && !IsWhitespace(r[|r| - 1]))
  {
    TrimEnd(TrimStart(s))
  }

  /** Trimming leaves nothing exactly when the string is all whitespace. */
  lemma TrimEmptyIffBlank(s: string)
    ensures Trim(s) == [] <==> IsBlank(s)
  {
    var t := TrimStart(s);
    var k := |s| - |t|;
    assert t != [] ==> IsWhitespace(t[0]) || |TrimEnd(t)| > 0;
    assert t != [] ==> t[0] == s[k];
  }

  /** A string with no whitespace at either end is its own trim. */
  /** Trailing whitespace after a word that ends in something else is
      exactly what `trim_end` drops. */
  lemma {:induction false} TrimEndBlankTail(k: string, w: string)
    requires k != [] && !IsWhitespace(k[|k| - 1])
    requires forall i :: 0 <= i < |w| ==> IsWhitespace(w[i])
    ensures TrimEnd(k + w) == k
    decreases |w|
  {
    if w == [] {
      assert k + w == k;
    } else {
      var s := k + w;
      assert IsWhitespace(s[|s| - 1]);
      assert s[..|s| - 1] == k + w[..|w| - 1];
      TrimEndBlankTail(k, w[..|w| - 1]);
    }
  }

  lemma TrimIdentity(s: string)
    requires s == [] || (!IsWhitespace(s[0]) && !IsWhitespace(s[|s| - 1]))
    ensures Trim(s) == s
  {
  }

  predicate StartsWith(s: string, p: string) {
    |p| <= |s| && s[..|p|] == p
  }

  predicate EndsWith(s: string, p: string) {
    |p| <= |s| && s[|s| - |p|..] == p
  }

  /** `p` occurs in `s` starting at index `i`. */
  predicate OccursAt(s: string, p: string, i: nat) {
    i + |p| <= |s| && s[i..i + |p|] == p
  }

  /** `str::contains` with a string pattern. */
  predicate Contains(s: string, p: string) {
    exists i: nat | i <= |s| :: OccursAt(s, p, i)
  }

  /** A piece of a concatenation is contained in it. */
  lemma ContainsMiddle(a: string, p: string, b: string)
    ensures OccursAt(a + p + b, p, |a|) && Contains(a + p + b, p)
  {
    assert (a + p + b)[|a|..|a| + |p|] == p;
    assert OccursAt(a + p + b, p, |a|);
  }

  /** Both marked pieces of a five-part concatenation are contained in
      it. */
  lemma ContainsBoth(a: string, x: string, b: string, y: string, c: string)
    ensures Contains(a + x + b + y + c, x) && Contains(a + x + b + y + c, y)
  {
    assert a + x + b + y + c == a + x + (b + y + c);
    ContainsMiddle(a, x, b + y + c);
    ContainsMiddle(a + x + b, y, c);
  }

  /** `str::contains` with a `char` pattern. */
  predicate ContainsChar(s: string, c: char) {
    c in s
  }

  /** `str::find`: the index of the first occurrence of `p` in `s`. */
  function Find(s: string, p: string): (r: Option<nat>)
    ensures r.Some? ==> OccursAt(s, p, r.value)
    ensures r.Some? ==> forall j: nat :: j < r.value ==> !OccursAt(s, p, j)
    ensures r.None? ==> forall j: nat :: !OccursAt(s, p, j)
  {
    FindFrom(s, p, 0)
  }

  function FindFrom(s: string, p: string, i: nat): (r: Option<nat>)
    ensures r.Some? ==> i <= r.value && OccursAt(s, p, r.value)
    ensures r.Some? ==> forall j: nat :: i <= j < r.value ==> !OccursAt(s, p, j)
    ensures r.None? ==> forall j: nat :: i <= j ==> !OccursAt(s, p, j)
    decreases |s| - i
  {
    if i + |p| > |s| then None
    else if s[i..i + |p|] == p then Some(i)
    else FindFrom(s, p, i + 1)
  }

  /** Searching a string that does not start with `p` is searching its tail,
      one index further on. */
  lemma FindTail(s: string, p: string)
    requires |s| > 0 && !OccursAt(s, p, 0)
    ensures Find(s, p).None? <==> Find(s[1..], p).None?
    ensures Find(s, p).Some? ==> Find(s, p).value == Find(s[1..], p).value + 1
  {
    var u := s[1..];
    forall j: nat
      ensures OccursAt(s, p, j + 1) <==> OccursAt(u, p, j)
    {
      if j + 1 + |p| <= |s| {
        var x := s[j + 1..j + 1 + |p|];
        var y := u[j..j + |p|];
        forall m | 0 <= m < |p|
          ensures x[m] == y[m]
        {
        }
        assert x == y;
      }
    }
    if Find(u, p).Some? {
      assert OccursAt(s, p, Find(u, p).value + 1);
    }
    if Find(s, p).Some? {
      assert OccursAt(u, p, Find(s, p).value - 1);
    }
  }

  /** `str::trim_start_matches` with a string pattern: strips every leading
      repetition of `pat` (an empty pattern strips nothing). */
  function TrimStartMatches(s: string, pat: string): (r: string)
    ensures |r| <= |s| && r == s[|s| - |r|..]
    ensures |pat| > 0 ==> !StartsWith(r, pat)
    ensures !StartsWith(s, pat) ==> r == s
    decreases |s|
  {
    if |pat| > 0 && StartsWith(s, pat) then TrimStartMatches(s[|pat|..], pat) else s
  }

  /** `str::trim_end_matches` with a `char` pattern. */
  function TrimEndMatches(s: string, c: char): (r: string)
    ensures |r| <= |s| && r == s[..|r|]
    ensures forall i :: |r| <= i < |s| ==> s[i] == c
    ensures r == [] || r[|r| - 1] != c
    decreases |s|
  {
    if s == [] || s[|s| - 1] != c then s else TrimEndMatches(s[..|s| - 1], c)
  }

  /** `" ".repeat(n)` */
  function Spaces(n: nat): (r: string)
    ensures |r| == n && forall i :: 0 <= i < n ==> r[i] == ' '
  {
    seq(n, _ => ' ')
  }

  /** `c.to_string().repeat(n)` */
  function Repeat(c: char, n: nat): (r: string)
    ensures |r| == n && forall i :: 0 <= i < n ==> r[i] == c
  {
    seq(n, _ => c)
  }

  /** `[String]::join(sep)` */
  function Join(parts: seq<string>, sep: string): string
    decreases |parts|
  {
    if |parts| == 0 then ""
    else if |parts| == 1 then parts[0]
    else parts[0] + sep + Join(parts[1..], sep)
  }

  /** `str::split(sep)` for a non-empty separator: the pieces between the
      non-overlapping occurrences of `sep`, scanned left to right. */
  function Split(s: string, sep: string): (r: seq<string>)
    requires |sep| > 0
    ensures |r| >= 1
    decreases |s|
  {
    match Find(s, sep)
    case None => [s]
    case Some(i) => [s[..i]] + Split(s[i + |sep|..], sep)
  }

  /** No piece of a split contains the separator. */
  lemma {:induction false} SplitPiecesFree(s: string, sep: string)
    requires |sep| > 0
    ensures forall k :: 0 <= k < |Split(s, sep)| ==> !Contains(Split(s, sep)[k], sep)
    decreases |s|
  {
    match Find(s, sep)
    case None =>
    case Some(i) =>
      var head := s[..i];
      forall j: nat | OccursAt(head, sep, j)
        ensures false
      {
        assert head[j..j + |sep|] == s[j..j + |sep|];
        assert j < i && OccursAt(s, sep, j);
      }
      SplitPiecesFree(s[i + |sep|..], sep);
  }

  /** Joining the pieces of a split with the same separator gives back the
      original string. */
  lemma {:induction false} JoinSplit(s: string, sep: string)
    requires |sep| > 0
    ensures Join(Split(s, sep), sep) == s
    decreases |s|
  {
    var f := Find(s, sep);
    if f.Some? {
      var i := f.value;
      var rest := s[i + |sep|..];
      var t := Split(rest, sep);
      JoinSplit(rest, sep);
      calc {
        Join(Split(s, sep), sep);
      ==
        Join([s[..i]] + t, sep);
      == { JoinCons(s[..i], t, sep); }
        s[..i] + sep + rest;
      == { assert s[i..i + |sep|] == sep; SliceThree(s, i, i + |sep|); }
        s;
      }
    }
  }

  lemma SliceThree(s: string, i: nat, j: nat)
    requires i <= j <= |s|
    ensures s == s[..i] + s[i..j] + s[j..]
  {
  }

  /** Joining a part in front of a non-empty list puts the separator between. */
  lemma JoinCons(x: string, xs: seq<string>, sep: string)
    requires |xs| >= 1
    ensures Join([x] + xs, sep) == x + sep + Join(xs, sep)
  {
    assert ([x] + xs)[1..] == xs;
  }

  /** Joining with a first part that starts with `c` starts with `c`. */
  lemma JoinConsChar(c: char, x: string, xs: seq<string>, sep: string)
    ensures Join([[c] + x] + xs, sep) == [c] + Join([x] + xs, sep)
  {
    if |xs| > 0 {
      assert ([[c] + x] + xs)[1..] == xs;
      assert ([x] + xs)[1..] == xs;
    }
  }

  /** One step of `Split`. */
  lemma SplitUnfold(s: string, sep: string)
    requires |sep| > 0
    ensures Find(s, sep).None? ==> Split(s, sep) == [s]
    ensures Find(s, sep).Some? ==>
              Find(s, sep).value + |sep| <= |s|
              && Split(s, sep) == [s[..Find(s, sep).value]] + Split(s[Find(s, sep).value + |sep|..], sep)
  {
  }

  /** Splitting a string that does not start with the separator keeps its
      first character on the first piece. */
  lemma SplitTail(s: string, sep: string)
    requires |sep| > 0 && |s| > 0 && !OccursAt(s, sep, 0)
    ensures Split(s, sep) == [[s[0]] + Split(s[1..], sep)[0]] + Split(s[1..], sep)[1..]
  {
    FindTail(s, sep);
    SplitUnfold(s, sep);
    SplitUnfold(s[1..], sep);
    if Find(s[1..], sep).None? {
      assert s == [s[0]] + s[1..];
    } else {
      var k := Find(s[1..], sep).value;
      SplitTailSome(s, sep, k);
      var t := Split(s[k + 1 + |sep|..], sep);
      assert ([s[1..][..k]] + t)[0] == s[1..][..k];
      assert ([s[1..][..k]] + t)[1..] == t;
    }
  }

  lemma SplitTailSome(s: string, sep: string, k: nat)
    requires |sep| > 0 && |s| > 0 && k + 1 + |sep| <= |s|
    ensures s[1..][k + |sep|..] == s[k + 1 + |sep|..]
    ensures s[..k + 1] == [s[0]] + s[1..][..k]
  {
  }

  /** `str::replace(pat, rep)`: every non-overlapping occurrence of `pat`,
      scanned left to right, is replaced by `rep`; an empty pattern matches
      before every character and at the end. */
  function ReplaceAll(s: string, pat: string, rep: string): string
    decreases |s|
  {
    if |pat| == 0 then rep + Interleave(s, rep)
    else if |s| == 0 then ""
    else if StartsWith(s, pat) then rep + ReplaceAll(s[|pat|..], pat, rep)
    else [s[0]] + ReplaceAll(s[1..], pat, rep)
  }

  /** Every character of `s` followed by `rep`. */
  function Interleave(s: string, rep: string): string
    decreases |s|
  {
    if s == [] then "" else [s[0]] + rep + Interleave(s[1..], rep)
  }

  /** Reference definition of `replace`: split at the pattern and join the
      pieces with the replacement. */
  lemma {:induction false} ReplaceAllIsSplitJoin(s: string, pat: string, rep: string)
    requires |pat| > 0
    ensures ReplaceAll(s, pat, rep) == Join(Split(s, pat), rep)
    decreases |s|
  {
    if |s| == 0 {
      assert Find(s, pat) == FindFrom(s, pat, 0) == None;
    } else if StartsWith(s, pat) {
      assert OccursAt(s, pat, 0);
      assert Find(s, pat) == Some(0);
      ReplaceAllIsSplitJoin(s[|pat|..], pat, rep);
      assert Split(s, pat) == [""] + Split(s[|pat|..], pat);
    } else {
      assert !OccursAt(s, pat, 0);
      ReplaceAllIsSplitJoin(s[1..], pat, rep);
      SplitTail(s, pat);
      var t := Split(s[1..], pat);
      JoinConsChar(s[0], t[0], t[1..], rep);
      assert [t[0]] + t[1..] == t;
    }
  }

  /** A string without the pattern is left unchanged by `replace`. */
  lemma ReplaceAbsent(s: string, pat: string, rep: string)
    requires |pat| > 0 && !Contains(s, pat)
    ensures ReplaceAll(s, pat, rep) == s
  {
    ReplaceAllIsSplitJoin(s, pat, rep);
    assert forall j: nat :: !OccursAt(s, pat, j);
    assert Find(s, pat).None?;
  }

  predicate IsDigit(c: char) {
    '0' <= c <= '9'
  }

  function DigitChar(d: nat): (c: char)
    requires d < 10
    ensures IsDigit(c) && c as int - '0' as int == d
  {
    (d + '0' as int) as char
  }

  /** `usize`/`u32` `Display`: decimal digits, no leading zero. */
  function NatToString(n: nat): (r: string)
    ensures |r| >= 1
    ensures forall i :: 0 <= i < |r| ==> IsDigit(r[i])
    ensures |r| > 1 ==> r[0] != '0'
  {
    if n < 10 then [DigitChar(n)] else NatToString(n / 10) + [DigitChar(n % 10)]
  }

  /** Reads a string of decimal digits back as a number. */
  function ParseDigits(s: string): nat
    requires forall i :: 0 <= i < |s| ==> IsDigit(s[i])
  {
    if s == [] then 0
    else
      assert IsDigit(s[|s| - 1]);
      ParseDigits(s[..|s| - 1]) * 10 + (s[|s| - 1] as int - '0' as int)
  }

  /** The decimal rendering of a counter reads back as that counter. */
  lemma {:induction false} NatToStringRoundTrip(n: nat)
    ensures ParseDigits(NatToString(n)) == n
  {
    if n >= 10 {
      NatToStringRoundTrip(n / 10);
      var s := NatToString(n);
      assert s[..|s| - 1] == NatToString(n / 10);
    }
  }

  /** `str::lines`: the text split at each `\n`, a `\r` just before the
      `\n` dropped, and no empty last line after a final line ending. */
  function Lines(s: string): (r: seq<string>)
    ensures s == [] <==> r == []
    ensures forall k :: 0 <= k < |r| ==> '\n' !in r[k]
    decreases |s|
  {
    if s == [] then []
    else match Find(s, "\n")
      case None =>
        CharNotFound(s, '\n', |s|);
        assert s[..|s|] == s;
        [s]
      case Some(i) =>
        CharNotFound(s, '\n', i);
        [StripCr(s[..i])] + Lines(s[i + 1..])
  }

  /** A one-character pattern found nowhere before `n` means the character
      does not occur there. */
  lemma CharNotFound(s: string, c: char, n: nat)
    requires n <= |s|
    requires forall j: nat :: j < n ==> !OccursAt(s, [c], j)
    ensures c !in s[..n]
  {
    forall j | 0 <= j < n
      ensures s[j] != c
    {
      assert s[j..j + 1] == [s[j]];
      assert !OccursAt(s, [c], j);
    }
  }

  /** The line without a final carriage return. */
  function StripCr(line: string): (r: string)
    ensures r == line || r + "\r" == line
  {
    if |line| > 0 && line[|line| - 1] == '\r' then line[..|line| - 1] else line
  }

  /** Without carriage returns, and not ending in a line ending, a text is
      its lines joined with `\n`. */
  lemma {:induction false} LinesJoin(s: string)
    requires '\r' !in s
    requires s == [] || s[|s| - 1] != '\n'
    ensures Join(Lines(s), "\n") == s
    decreases |s|
  {
    if s != [] {
      match Find(s, "\n")
      case None =>
      case Some(i) =>
        var rest := s[i + 1..];
        assert s[i..i + 1] == "\n";
        assert rest != [] && rest[|rest| - 1] == s[|s| - 1];
        assert '\r' !in s[..i] && '\r' !in rest;
        LinesJoin(rest);
        JoinCons(s[..i], Lines(rest), "\n");
        SliceThree(s, i, i + 1);
    }
  }

  /** `find` succeeds exactly when the pattern occurs. */
  lemma FindNone(s: string, p: string)
    ensures Find(s, p).None? <==> !Contains(s, p)
  {
    if Find(s, p).Some? {
      assert OccursAt(s, p, Find(s, p).value);
    }
  }

  /** A found pattern splits the text around its first occurrence, and the
      part before it does not contain the pattern. */
  lemma FindSome(s: string, p: string)
    requires |p| > 0 && Find(s, p).Some?
    ensures Find(s, p).value + |p| <= |s|
    ensures s == s[..Find(s, p).value] + p + s[Find(s, p).value + |p|..]
    ensures !Contains(s[..Find(s, p).value], p)
  {
    var i := Find(s, p).value;
    assert s[i..i + |p|] == p;
    SliceThree(s, i, i + |p|);
    var head := s[..i];
    forall j: nat | j <= |head| && OccursAt(head, p, j)
      ensures false
    {
      assert head[j..j + |p|] == s[j..j + |p|];
      assert j < i && OccursAt(s, p, j);
    }
  }
}
