/** The fixed rustfmt configuration the `fmt` command applies, and its
    serialisation into `--config key=value` command-line arguments. */
module Formatter {
  import opened Wrappers
  import opened Text

  /** Rust's `u32`. */
  type U32 = n: nat | n < 0x1_0000_0000

  datatype RustfmtConfig = RustfmtConfig(
    trailingComma: string,
    braceStyle: string,
    structFieldAlignThreshold: U32,
    wrapComments: bool,
    formatCodeInDocComments: bool,
    structLitSingleLine: bool,
    maxWidth: U32,
    importsGranularity: string,
    groupImports: string,
    reorderImports: bool,
    unstableFeatures: bool)

  /** `RustfmtConfig::default`: the project's formatting standard. */
  function Default(): RustfmtConfig {
    RustfmtConfig(
      trailingComma := "Never",
      braceStyle := "SameLineWhere",
      structFieldAlignThreshold := 20,
      wrapComments := true,
      formatCodeInDocComments := true,
      structLitSingleLine := false,
      maxWidth := 99,
      importsGranularity := "Crate",
      groupImports := "StdExternalCrate",
      reorderImports := true,
      unstableFeatures := true)
  }

  /** A `bool` as `{}` prints it. */
  function BoolText(b: bool): string {
    if b then "true" else "false"
  }

  /** `to_args`, element by element as written. */
  function ToArgs(c: RustfmtConfig): seq<string> {
    [
      "--config", "trailing_comma=" + c.trailingComma,
      "--config", "brace_style=" + c.braceStyle,
      "--config", "struct_field_align_threshold=" + NatToString(c.structFieldAlignThreshold),
      "--config", "wrap_comments=" + BoolText(c.wrapComments),
      "--config", "format_code_in_doc_comments=" + BoolText(c.formatCodeInDocComments),
      "--config", "struct_lit_single_line=" + BoolText(c.structLitSingleLine),
      "--config", "max_width=" + NatToString(c.maxWidth),
      "--config", "imports_granularity=" + c.importsGranularity,
      "--config", "group_imports=" + c.groupImports,
      "--config", "reorder_imports=" + BoolText(c.reorderImports),
      "--config", "unstable_features=" + BoolText(c.unstableFeatures)
    ]
  }

  /** The names of rustfmt's options, in the order the arguments list
      them. */
  const Keys: seq<string> := [
    "trailing_comma", "brace_style", "struct_field_align_threshold", "wrap_comments",
    "format_code_in_doc_comments", "struct_lit_single_line", "max_width",
    "imports_granularity", "group_imports", "reorder_imports", "unstable_features"
  ]

  /** The configuration's values as text, in the same order. */
  function Values(c: RustfmtConfig): (r: seq<string>)
    ensures |r| == |Keys|
  {
    [
      c.trailingComma, c.braceStyle, NatToString(c.structFieldAlignThreshold),
      BoolText(c.wrapComments), BoolText(c.formatCodeInDocComments), BoolText(c.structLitSingleLine),
      NatToString(c.maxWidth), c.importsGranularity, c.groupImports,
      BoolText(c.reorderImports), BoolText(c.unstableFeatures)
    ]
  }

  /** The configuration as rustfmt's option table: each option's name with
      its value. */
  function Settings(c: RustfmtConfig): (r: seq<(string, string)>)
    ensures |r| == |Keys|
    ensures forall i :: 0 <= i < |r| ==> r[i] == (Keys[i], Values(c)[i])
  {
    seq(|Keys|, i requires 0 <= i < |Keys| => (Keys[i], Values(c)[i]))
  }

  /** The arguments are the option table, one `--config key=value` pair
      per option in order: 22 strings, `--config` at every even position. */
  lemma ToArgsAreSettings(c: RustfmtConfig)
    ensures |ToArgs(c)| == 2 * |Keys| == 22
    ensures forall j :: 0 <= j < |Keys| ==>
              ToArgs(c)[2 * j] == "--config" && ToArgs(c)[2 * j + 1] == Keys[j] + "=" + Values(c)[j]
  {
    forall j | 0 <= j < |Keys|
      ensures ToArgs(c)[2 * j] == "--config" && ToArgs(c)[2 * j + 1] == Keys[j] + "=" + Values(c)[j]
    {
      ArgPair(c, j);
    }
  }

  /** Option `j`'s pair of arguments is `--config` and its name, `=`, its
      value. */
  lemma ArgPair(c: RustfmtConfig, j: nat)
    requires j < |Keys|
    ensures ToArgs(c)[2 * j] == "--config" && ToArgs(c)[2 * j + 1] == Keys[j] + "=" + Values(c)[j]
  {
    if j < 3 {
      ArgPairA(c, j);
    } else if j < 6 {
      ArgPairB(c, j);
    } else if j < 9 {
      ArgPairC(c, j);
    } else {
      ArgPairD(c, j);
    }
  }

  lemma ArgPairA(c: RustfmtConfig, j: nat)
    requires 0 <= j < 3
    ensures ToArgs(c)[2 * j] == "--config" && ToArgs(c)[2 * j + 1] == Keys[j] + "=" + Values(c)[j]
  {
    var a := ToArgs(c);
    var v := Values(c);
    if j == 0 {
      assert a[1] == Keys[0] + "=" + v[0];
    } else if j == 1 {
      assert a[3] == Keys[1] + "=" + v[1];
    } else {
      assert a[5] == Keys[2] + "=" + v[2];
    }
  }

  lemma ArgPairB(c: RustfmtConfig, j: nat)
    requires 3 <= j < 6
    ensures ToArgs(c)[2 * j] == "--config" && ToArgs(c)[2 * j + 1] == Keys[j] + "=" + Values(c)[j]
  {
    var a := ToArgs(c);
    var v := Values(c);
    if j == 3 {
      assert a[7] == Keys[3] + "=" + v[3];
    } else if j == 4 {
      assert a[9] == Keys[4] + "=" + v[4];
    } else {
      assert a[11] == Keys[5] + "=" + v[5];
    }
  }

  lemma ArgPairC(c: RustfmtConfig, j: nat)
    requires 6 <= j < 9
    ensures ToArgs(c)[2 * j] == "--config" && ToArgs(c)[2 * j + 1] == Keys[j] + "=" + Values(c)[j]
  {
    var a := ToArgs(c);
    var v := Values(c);
    if j == 6 {
      assert a[13] == Keys[6] + "=" + v[6];
    } else if j == 7 {
      assert a[15] == Keys[7] + "=" + v[7];
    } else {
      assert a[17] == Keys[8] + "=" + v[8];
    }
  }

  lemma ArgPairD(c: RustfmtConfig, j: nat)
    requires 9 <= j < 11
    ensures ToArgs(c)[2 * j] == "--config" && ToArgs(c)[2 * j + 1] == Keys[j] + "=" + Values(c)[j]
  {
    var a := ToArgs(c);
    var v := Values(c);
    if j == 9 {
      assert a[19] == Keys[9] + "=" + v[9];
    } else {
      assert a[21] == Keys[10] + "=" + v[10];
    }
  }

  /** The index of the first `c` in `s`. */
  function FirstIndex(s: string, c: char): (r: Option<nat>)
    ensures r.Some? ==> r.value < |s| && s[r.value] == c && c !in s[..r.value]
    ensures r.None? ==> c !in s
  {
    if s == [] then None
    else if s[0] == c then Some(0)
    else match FirstIndex(s[1..], c)
      case None => None
      case Some(i) => Some(i + 1)
  }

  /** `str::split_once` with a `char`: the text before the first `c` and
      the text after it. */
  function SplitOnce(s: string, c: char): Option<(string, string)> {
    match FirstIndex(s, c)
    case None => None
    case Some(i) => Some((s[..i], s[i + 1..]))
  }

  /** How rustfmt reads the arguments back: `--config` followed by
      `key=value`, split at the first `=`, until none are left. */
  function ParseArgs(args: seq<string>): Option<seq<(string, string)>>
    decreases |args|
  {
    if args == [] then Some([])
    else if |args| < 2 || args[0] != "--config" then None
    else match SplitOnce(args[1], '=')
      case None => None
      case Some(kv) =>
        match ParseArgs(args[2..])
        case None => None
        case Some(rest) => Some([kv] + rest)
  }

  /** Splitting `key=value` at the first `=` gives the key and the value
      back when the key holds no `=`, whatever the value holds. */
  lemma SplitKeyValue(key: string, value: string)
    requires '=' !in key
    ensures SplitOnce(key + "=" + value, '=') == Some((key, value))
  {
    var s := key + "=" + value;
    assert s == key + ("=" + value);
    FirstIndexAfter(key, "=" + value, '=');
    assert s[..|key|] == key;
    assert s[|key| + 1..] == value;
  }

  /** The first `c` of `k + rest` is the one starting `rest` when `k` holds
      none. */
  lemma {:induction false} FirstIndexAfter(k: string, rest: string, c: char)
    requires c !in k && rest != [] && rest[0] == c
    ensures FirstIndex(k + rest, c) == Some(|k|)
    decreases |k|
  {
    if k == [] {
      assert k + rest == rest;
    } else {
      assert (k + rest)[0] == k[0];
      assert (k + rest)[1..] == k[1..] + rest;
      FirstIndexAfter(k[1..], rest, c);
    }
  }

  /** No option name holds `=`. */
  predicate PlainKeys(settings: seq<(string, string)>) {
    forall i :: 0 <= i < |settings| ==> '=' !in settings[i].0
  }

  /** `args` holds one `--config key=value` pair per entry of `settings`,
      in order. */
  predicate PairsOf(args: seq<string>, settings: seq<(string, string)>) {
    && |args| == 2 * |settings|
    && forall j :: 0 <= j < |settings| ==>
         args[2 * j] == "--config" && args[2 * j + 1] == settings[j].0 + "=" + settings[j].1
  }

  /** Reading the pairs back gives the option table: the serialisation
      loses nothing. */
  lemma {:induction false} ParsePairs(args: seq<string>, settings: seq<(string, string)>)
    requires PairsOf(args, settings) && PlainKeys(settings)
    ensures ParseArgs(args) == Some(settings)
    decreases |settings|
  {
    if settings != [] {
      SplitKeyValue(settings[0].0, settings[0].1);
      forall j | 0 <= j < |settings| - 1
        ensures args[2..][2 * j] == "--config" && args[2..][2 * j + 1] == settings[1..][j].0 + "=" + settings[1..][j].1
      {
        assert args[2..][2 * j] == args[2 * (j + 1)];
        assert args[2..][2 * j + 1] == args[2 * (j + 1) + 1];
      }
      ParsePairs(args[2..], settings[1..]);
      assert [settings[0]] + settings[1..] == settings;
    }
  }

  lemma SettingsKeysPlain(c: RustfmtConfig)
    ensures PlainKeys(Settings(c))
  {
    KeysPlain();
  }

  lemma KeysPlain()
    ensures forall i :: 0 <= i < |Keys| ==> '=' !in Keys[i]
  {
  }

  /** rustfmt receives every option of the configuration, whatever the
      values. */
  lemma ToArgsRoundTrip(c: RustfmtConfig)
    ensures ParseArgs(ToArgs(c)) == Some(Settings(c))
  {
    ToArgsAreSettings(c);
    SettingsKeysPlain(c);
    ParsePairs(ToArgs(c), Settings(c));
  }

  /** The default configuration passes `trailing_comma=Never` and
      `brace_style=SameLineWhere`. */
  lemma DefaultArgs()
    ensures ToArgs(Default())[1] == "trailing_comma=Never"
    ensures ToArgs(Default())[3] == "brace_style=SameLineWhere"
  {
    var a := ToArgs(Default());
    assert a[1] == "trailing_comma=" + "Never";
    assert a[3] == "brace_style=" + "SameLineWhere";
  }

  /** The default configuration passes `max_width=99` and an alignment
      threshold of 20. */
  lemma DefaultWidths()
    ensures ToArgs(Default())[13] == "max_width=99"
    ensures Settings(Default())[2] == ("struct_field_align_threshold", "20")
  {
    assert NatToString(99) == "99";
    assert NatToString(20) == "20";
  }
}
