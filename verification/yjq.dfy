/** yjq.go: the argument rewriting of yjq, the YAML wrapper around jq. The
    command line is pre-processed, parsed into a flag record (the parser is
    outside the model), the flags sanitized, and jq's own command line
    rebuilt from them. */
module Yjq {
  import opened Wrappers
  import opened Text

  /** The flag record the parser fills in, one field per option. */
  datatype Flags = Flags(
    version: bool,
    help: bool,
    runTests: bool,
    seqIO: bool,
    streamIO: bool,
    slurpInput: bool,
    rawInput: bool,
    nullInput: bool,
    compactOutput: bool,
    tab: bool,
    indent: int,
    colorOutput: bool,
    monoOutput: bool,
    asciiOutput: bool,
    unbuffered: bool,
    sortKeys: bool,
    rawOutput: bool,
    joinOutput: bool,
    exitStatus: bool,
    yamlInput: bool,
    yamlOutput: bool,
    filterFiles: seq<string>,
    searchDirs: seq<string>,
    strArgs: seq<string>,
    jsonArgs: seq<string>,
    slurpFiles: seq<string>,
    rawFiles: seq<string>,
    argFiles: seq<string>)

  /** `positionalArgsIndex`: where the positional arguments start, the first
      `--args` or `--jsonargs`, or -1. */
  function PositionalArgsIndex(args: seq<string>): (r: int)
    ensures -1 <= r < |args|
    ensures r == -1 <==> "--args" !in args && "--jsonargs" !in args
    ensures 0 <= r ==> (args[r] == "--args" || args[r] == "--jsonargs")
                       && "--args" !in args[..r] && "--jsonargs" !in args[..r]
  {
    var a := IndexOf(args, "--args");
    var j := IndexOf(args, "--jsonargs");
    if a == -1 then j
    else if j == -1 then a
    else if a < j then
      assert "--jsonargs" !in args[..a] by {
        assert args[..a] == args[..j][..a];
      }
      a
    else
      assert "--args" !in args[..j] by {
        assert args[..j] == args[..a][..j];
      }
      j
  }

  /** The options jq gives two values; on the yjq command line they are one
      `name=value` argument. */
  predicate IsPairOption(a: string)
  {
    a == "--arg" || a == "--argjson" || a == "--slurpfile" || a == "--rawfile" || a == "--argfile"
  }

  /** `preProcessArgs`: a pair option followed by a name without `=` takes
      the next argument as the value (`name=value`, or `name=` at the end);
      `--` ends the rewriting; every other argument is kept. */
  function PreProcessArgs(args: seq<string>): (r: seq<string>)
    ensures |r| <= |args|
    ensures |args| > 0 ==> |r| > 0 && r[0] == args[0]
    ensures Paired(r)
    decreases |args|
  {
    if |args| == 0 then []
    else if args[0] == "--" then args
    else if IsPairOption(args[0]) then
      if |args| == 1 then args
      else if '=' in args[1] then [args[0], args[1]] + PreProcessArgs(args[2..])
      else if |args| == 2 then
        var v := args[1] + "=";
        assert v[|args[1]|] == '=';
        [args[0], v]
      else
        var v := args[1] + "=" + args[2];
        assert v[|args[1]|] == '=';
        [args[0], v] + PreProcessArgs(args[3..])
    else
      var rest := PreProcessArgs(args[1..]);
      assert ([args[0]] + rest)[1..] == rest;
      [args[0]] + rest
  }

  /** What `preProcessArgs` establishes: up to a `--`, every pair option that
      has an argument after it is followed by one holding `=`. */
  predicate Paired(out: seq<string>)
    decreases |out|
  {
    if |out| == 0 || out[0] == "--" then true
    else if IsPairOption(out[0]) then |out| == 1 || ('=' in out[1] && Paired(out[2..]))
    else Paired(out[1..])
  }

  /** Arguments already in that shape are left alone. */
  lemma {:induction false} PreProcessKeepsPaired(out: seq<string>)
    requires Paired(out)
    ensures PreProcessArgs(out) == out
    decreases |out|
  {
    if |out| == 0 || out[0] == "--" {
    } else if IsPairOption(out[0]) {
      if |out| > 1 {
        PreProcessKeepsPaired(out[2..]);
        assert out == [out[0], out[1]] + out[2..];
      }
    } else {
      PreProcessKeepsPaired(out[1..]);
      assert out == [out[0]] + out[1..];
    }
  }

  /** Pre-processing twice is pre-processing once. */
  lemma PreProcessIdempotent(args: seq<string>)
    ensures PreProcessArgs(PreProcessArgs(args)) == PreProcessArgs(args)
  {
    PreProcessKeepsPaired(PreProcessArgs(args));
  }

  /** `--arg name value` becomes `--arg name=value`. */
  lemma PreProcessMergesPair(opt: string, name: string, value: string, rest: seq<string>)
    requires IsPairOption(opt) && '=' !in name
    ensures PreProcessArgs([opt, name, value] + rest) == [opt, name + "=" + value] + PreProcessArgs(rest)
  {
    assert ([opt, name, value] + rest)[3..] == rest;
  }

  /** A pair option whose name is the last argument gets an empty value:
      `--arg name` becomes `--arg name=`. */
  lemma PreProcessNameAtEnd(opt: string, name: string)
    requires IsPairOption(opt) && '=' !in name
    ensures PreProcessArgs([opt, name]) == [opt, name + "="]
  {
  }

  /** A pair option whose argument already holds `=` is kept with it, and the
      rewriting goes on after the two. */
  lemma PreProcessKeepsNamedValue(opt: string, pair: string, rest: seq<string>)
    requires IsPairOption(opt) && '=' in pair
    ensures PreProcessArgs([opt, pair] + rest) == [opt, pair] + PreProcessArgs(rest)
  {
    assert ([opt, pair] + rest)[2..] == rest;
  }

  /** Any other argument before `--` is kept, and the rewriting goes on after
      it. */
  lemma PreProcessKeepsPlain(a: string, rest: seq<string>)
    requires a != "--" && !IsPairOption(a)
    ensures PreProcessArgs([a] + rest) == [a] + PreProcessArgs(rest)
  {
    assert ([a] + rest)[1..] == rest;
  }

  /** After `--` nothing is rewritten. */
  lemma PreProcessStopsAtDoubleDash(before: seq<string>, rest: seq<string>)
    requires forall i | 0 <= i < |before| :: before[i] != "--" && !IsPairOption(before[i])
    ensures PreProcessArgs(before + ["--"] + rest) == before + ["--"] + rest
    decreases |before|
  {
    if |before| > 0 {
      PreProcessStopsAtDoubleDash(before[1..], rest);
      assert (before + ["--"] + rest)[1..] == before[1..] + ["--"] + rest;
    }
  }

  /** The `opt name value` triples of the `name=value` pairs, in order; pairs
      without `=` are dropped. */
  function PairArgs(opt: string, pairs: seq<string>): (r: seq<string>)
    ensures |r| <= 3 * |pairs|
    ensures |r| % 3 == 0
    decreases |pairs|
  {
    if |pairs| == 0 then []
    else
      var rest := PairArgs(opt, pairs[1..]);
      ModThree(|rest|);
      PairTriple(opt, pairs[0]) + rest
  }

  lemma ModThree(n: nat)
    ensures (n + 3) % 3 == n % 3
  {
  }

  /** The triple of one pair, or nothing when it has no `=`. */
  function PairTriple(opt: string, p: string): (r: seq<string>)
    ensures |r| == 0 <==> '=' !in p
    ensures |r| == 3 ==> r[0] == opt && p == r[1] + "=" + r[2] && '=' !in r[1]
    ensures |r| == 0 || |r| == 3
  {
    match Cut(p, '=')
    case None => []
    case Some((k, v)) => [opt, k, v]
  }

  /** `appendPairArgs`: the triples go after the arguments so far. */
  function AppendPairArgs(args: seq<string>, opt: string, pairs: seq<string>): (r: seq<string>)
    ensures |r| >= |args| && r[..|args|] == args
    ensures r[|args|..] == PairArgs(opt, pairs)
  {
    args + PairArgs(opt, pairs)
  }

  /** One pair: split at its first `=`, or skipped. */
  lemma PairArgsOne(opt: string, name: string, value: string, s: string)
    requires '=' !in name && '=' !in s
    ensures PairArgs(opt, [name + "=" + value]) == [opt, name, value]
    ensures PairArgs(opt, [s]) == []
  {
    var p := name + "=" + value;
    assert p[|name|] == '=';
    var c := Cut(p, '=').value;
    assert |c.0| == |name|;
    assert c.0 == p[..|name|] == name;
    assert c.1 == p[|name| + 1..] == value;
  }

  /** Pairs are handled one at a time. */
  lemma {:induction false} PairArgsAppend(opt: string, a: seq<string>, b: seq<string>)
    ensures PairArgs(opt, a + b) == PairArgs(opt, a) + PairArgs(opt, b)
    decreases |a|
  {
    if |a| > 0 {
      var t := PairTriple(opt, a[0]);
      assert (a + b)[0] == a[0] && (a + b)[1..] == a[1..] + b;
      assert t + (PairArgs(opt, a[1..]) + PairArgs(opt, b)) == (t + PairArgs(opt, a[1..])) + PairArgs(opt, b);
      PairArgsAppend(opt, a[1..], b);
    } else {
      assert a + b == b;
    }
  }

  /** What pre-processing merged, rewriting splits again: jq receives the
      name and value as they were typed. */
  lemma PairRoundTrip(opt: string, name: string, value: string)
    requires IsPairOption(opt) && '=' !in name
    ensures var merged := PreProcessArgs([opt, name, value]);
            merged == [opt, name + "=" + value]
            && AppendPairArgs([], opt, merged[1..]) == [opt, name, value]
  {
    PreProcessMergesPair(opt, name, value, []);
    assert [opt, name, value] + [] == [opt, name, value];
    PairArgsOne(opt, name, value, "");
  }

  /** A file yjq reads as YAML: extension `.yaml` or `.yml`. */
  predicate IsYAMLFile(name: string)
  {
    Ext(name) == ".yaml" || Ext(name) == ".yml"
  }

  /** `hasYAMLInputFile`: some input file is a YAML file. */
  function HasYAMLInputFile(files: seq<string>): (r: bool)
    ensures r <==> exists i | 0 <= i < |files| :: IsYAMLFile(files[i])
    decreases |files|
  {
    if |files| == 0 then false
    else if IsYAMLFile(files[0]) then true
    else
      var r := HasYAMLInputFile(files[1..]);
      ExistsInTail(files, IsYAMLFile);
      r
  }

  /** `sanitizeFlags`: null input rules out YAML input; YAML output needs jq
      to print one plain compact JSON value per line. */
  function SanitizeFlags(f: Flags): (r: Flags)
    ensures f.nullInput ==> !r.yamlInput
    ensures !f.nullInput ==> r.yamlInput == f.yamlInput
    ensures f.yamlOutput ==> && !r.seqIO && !r.colorOutput && !r.rawOutput && !r.joinOutput && !r.tab
                             && r.monoOutput && r.compactOutput && r.unbuffered && r.indent == 0
    ensures !f.yamlOutput ==> r.(yamlInput := f.yamlInput) == f
    ensures r.(yamlInput := f.yamlInput, seqIO := f.seqIO, colorOutput := f.colorOutput, rawOutput := f.rawOutput,
               joinOutput := f.joinOutput, monoOutput := f.monoOutput, compactOutput := f.compactOutput,
               unbuffered := f.unbuffered, tab := f.tab, indent := f.indent) == f
  {
    var g := if f.nullInput then f.(yamlInput := false) else f;
    if g.yamlOutput then
      g.(seqIO := false, colorOutput := false, rawOutput := false, joinOutput := false, monoOutput := true,
         compactOutput := true, unbuffered := true, tab := false, indent := 0)
    else g
  }

  lemma SanitizeIdempotent(f: Flags)
    ensures SanitizeFlags(SanitizeFlags(f)) == SanitizeFlags(f)
  {
  }

  /** The jq switches without a value, in the order they are passed on. */
  datatype Switch =
    | Seq | Stream | Slurp | RawInput | NullInput | CompactOutput | Tab
    | ColorOutput | MonochromeOutput | AsciiOutput | Unbuffered | SortKeys
    | RawOutput | JoinOutput | ExitStatus

  /** The flag behind each switch. */
  predicate IsOn(f: Flags, s: Switch)
  {
    match s
    case Seq => f.seqIO
    case Stream => f.streamIO
    case Slurp => f.slurpInput
    case RawInput => f.rawInput
    case NullInput => f.nullInput
    case CompactOutput => f.compactOutput
    case Tab => f.tab
    case ColorOutput => f.colorOutput
    case MonochromeOutput => f.monoOutput
    case AsciiOutput => f.asciiOutput
    case Unbuffered => f.unbuffered
    case SortKeys => f.sortKeys
    case RawOutput => f.rawOutput
    case JoinOutput => f.joinOutput
    case ExitStatus => f.exitStatus
  }

  function SwitchName(s: Switch): string
  {
    match s
    case Seq => "--seq"
    case Stream => "--stream"
    case Slurp => "--slurp"
    case RawInput => "--raw-input"
    case NullInput => "--null-input"
    case CompactOutput => "--compact-output"
    case Tab => "--tab"
    case ColorOutput => "--color-output"
    case MonochromeOutput => "--monochrome-output"
    case AsciiOutput => "--ascii-output"
    case Unbuffered => "--unbuffered"
    case SortKeys => "--sort-keys"
    case RawOutput => "--raw-output"
    case JoinOutput => "--join-output"
    case ExitStatus => "--exit-status"
  }

  /** The position of a switch in jq's command line. */
  function Rank(s: Switch): nat
  {
    match s
    case Seq => 0
    case Stream => 1
    case Slurp => 2
    case RawInput => 3
    case NullInput => 4
    case CompactOutput => 5
    case Tab => 6
    case ColorOutput => 7
    case MonochromeOutput => 8
    case AsciiOutput => 9
    case Unbuffered => 10
    case SortKeys => 11
    case RawOutput => 12
    case JoinOutput => 13
    case ExitStatus => 14
  }

  /** The switches up to `--tab`, and the ones after it, each in jq
      command-line order: `--indent N` goes between the two groups. */
  const LeadingOrder: seq<Switch> := [Seq, Stream, Slurp, RawInput, NullInput, CompactOutput, Tab]
  const TrailingOrder: seq<Switch> := [
    ColorOutput, MonochromeOutput, AsciiOutput, Unbuffered, SortKeys, RawOutput, JoinOutput, ExitStatus]

  /** Every switch is in exactly one group, by rank, and each group is in
      rank order. */
  lemma AllSwitchesListed(s: Switch)
    ensures s in LeadingOrder <==> Rank(s) <= Rank(Tab)
    ensures s in TrailingOrder <==> Rank(s) > Rank(Tab)
  {
  }

  lemma OrdersRanked()
    ensures Ranked(LeadingOrder) && Ranked(TrailingOrder)
  {
  }

  /** The switches of `ss` that are on, in the order of `ss`. */
  function SwitchesOn(f: Flags, ss: seq<Switch>): (r: seq<Switch>)
    ensures forall s :: s in r <==> s in ss && IsOn(f, s)
    ensures (forall i, j | 0 <= i < j < |ss| :: Rank(ss[i]) < Rank(ss[j])) ==>
              forall i, j | 0 <= i < j < |r| :: Rank(r[i]) < Rank(r[j])
  {
    if |ss| == 0 then []
    else
      var rest := SwitchesOn(f, ss[1..]);
      if IsOn(f, ss[0]) then
        assert forall i | 0 <= i < |rest| :: rest[i] in ss[1..];
        [ss[0]] + rest
      else rest
  }

  /** Strictly increasing ranks. */
  predicate Ranked(r: seq<Switch>)
  {
    forall i, j | 0 <= i < j < |r| :: Rank(r[i]) < Rank(r[j])
  }

  /** In a ranked sequence, an element no other outranks is the last one... */
  lemma RankedLast(r: seq<Switch>, x: Switch)
    requires Ranked(r) && x in r
    requires forall s | s in r :: Rank(s) <= Rank(x)
    ensures |r| > 0 && r[|r| - 1] == x
  {
    assert r[|r| - 1] in r;
  }

  /** ...and one that outranks no other is the first. */
  lemma RankedFirst(r: seq<Switch>, x: Switch)
    requires Ranked(r) && x in r
    requires forall s | s in r :: Rank(s) >= Rank(x)
    ensures |r| > 0 && r[0] == x
  {
    assert r[0] in r;
  }

  /** The switches up to `--tab` that are on, in rank order; `--tab`, when on,
      is the last of them. */
  function LeadingSwitches(f: Flags): (r: seq<Switch>)
    ensures forall s :: s in r <==> IsOn(f, s) && Rank(s) <= Rank(Tab)
    ensures Ranked(r)
    ensures f.tab ==> |r| > 0 && r[|r| - 1] == Tab
  {
    LeadingFacts(f);
    SwitchesOn(f, LeadingOrder)
  }

  /** The switches after `--tab` that are on, in rank order;
      `--color-output`, when on, is the first of them. */
  function TrailingSwitches(f: Flags): (r: seq<Switch>)
    ensures forall s :: s in r <==> IsOn(f, s) && Rank(s) > Rank(Tab)
    ensures Ranked(r)
    ensures f.colorOutput ==> |r| > 0 && r[0] == ColorOutput
  {
    TrailingFacts(f);
    SwitchesOn(f, TrailingOrder)
  }

  lemma LeadingFacts(f: Flags)
    ensures var r := SwitchesOn(f, LeadingOrder);
            && (forall s :: s in r <==> IsOn(f, s) && Rank(s) <= Rank(Tab))
            && Ranked(r)
            && (f.tab ==> |r| > 0 && r[|r| - 1] == Tab)
  {
    var r := SwitchesOn(f, LeadingOrder);
    OrdersRanked();
    forall s
      ensures s in LeadingOrder <==> Rank(s) <= Rank(Tab)
    {
      AllSwitchesListed(s);
    }
    if f.tab {
      RankedLast(r, Tab);
    }
  }

  lemma TrailingFacts(f: Flags)
    ensures var r := SwitchesOn(f, TrailingOrder);
            && (forall s :: s in r <==> IsOn(f, s) && Rank(s) > Rank(Tab))
            && Ranked(r)
            && (f.colorOutput ==> |r| > 0 && r[0] == ColorOutput)
  {
    var r := SwitchesOn(f, TrailingOrder);
    OrdersRanked();
    forall s
      ensures s in TrailingOrder <==> Rank(s) > Rank(Tab)
    {
      AllSwitchesListed(s);
    }
    if f.colorOutput {
      RankedFirst(r, ColorOutput);
    }
  }

  /** The switches that are on, each once, in rank order: the two groups one
      after the other. */
  function Switches(f: Flags): (r: seq<Switch>)
    ensures forall s :: s in r <==> IsOn(f, s)
    ensures Ranked(r)
  {
    var lead, trail := LeadingSwitches(f), TrailingSwitches(f);
    RankedJoin(lead, trail);
    lead + trail
  }

  lemma RankedJoin(a: seq<Switch>, b: seq<Switch>)
    requires Ranked(a) && Ranked(b)
    requires forall s | s in a :: Rank(s) <= Rank(Tab)
    requires forall s | s in b :: Rank(s) > Rank(Tab)
    ensures Ranked(a + b)
  {
    var r := a + b;
    forall i, j | 0 <= i < j < |r|
      ensures Rank(r[i]) < Rank(r[j])
    {
      if j < |a| {
        assert r[i] == a[i] && r[j] == a[j];
      } else if i >= |a| {
        assert r[i] == b[i - |a|] && r[j] == b[j - |a|];
      } else {
        assert r[i] == a[i] && a[i] in a;
        assert r[j] == b[j - |a|] && b[j - |a|] in b;
      }
    }
  }

  function SwitchNames(ss: seq<Switch>): (r: seq<string>)
    ensures |r| == |ss| && forall i | 0 <= i < |ss| :: r[i] == SwitchName(ss[i])
  {
    if |ss| == 0 then [] else [SwitchName(ss[0])] + SwitchNames(ss[1..])
  }

  /** `--indent N`, only for a positive width. */
  function IndentArgs(indent: int): (r: seq<string>)
    ensures indent <= 0 <==> r == []
    ensures indent > 0 ==> |r| == 2 && r[0] == "--indent" && IsDigits(r[1]) && DecimalValue(r[1]) == indent
  {
    if indent > 0 then
      NatToStringRoundTrip(indent);
      ["--indent", NatToString(indent)]
    else []
  }

  /** The switch part of jq's command line: the switches up to `--tab`, then
      `--indent N` for a positive width, then the later switches. */
  function SwitchArgs(f: Flags): (r: seq<string>)
    ensures var lead, trail := LeadingSwitches(f), TrailingSwitches(f); var k := |lead|;
            && |r| == k + |IndentArgs(f.indent)| + |trail|
            && r[..k] == SwitchNames(lead)
            && r[k..k + |IndentArgs(f.indent)|] == IndentArgs(f.indent)
            && r[k + |IndentArgs(f.indent)|..] == SwitchNames(trail)
    ensures var k := |LeadingSwitches(f)|;
            f.indent > 0 ==> r[k] == "--indent" && IsDigits(r[k + 1]) && DecimalValue(r[k + 1]) == f.indent
  {
    var lead, trail := LeadingSwitches(f), TrailingSwitches(f);
    var r := SwitchNames(lead) + IndentArgs(f.indent) + SwitchNames(trail);
    Around(SwitchNames(lead), IndentArgs(f.indent), SwitchNames(trail));
    r
  }

  lemma Around(a: seq<string>, b: seq<string>, c: seq<string>)
    ensures var r := a + b + c;
            && r[..|a|] == a && r[|a|..|a| + |b|] == b && r[|a| + |b|..] == c
            && forall i | 0 <= i < |b| :: r[|a| + i] == b[i]
  {
  }

  /** `--indent N` comes right after `--tab` and right before
      `--color-output`. */
  lemma IndentBetweenTabAndColor(f: Flags)
    requires f.indent > 0
    ensures var r, k := SwitchArgs(f), |LeadingSwitches(f)|;
            && (f.tab ==> k > 0 && r[k - 1] == "--tab" && r[k] == "--indent")
            && (f.colorOutput ==> r[k + 2] == "--color-output")
  {
    var r, lead, trail := SwitchArgs(f), LeadingSwitches(f), TrailingSwitches(f);
    var k := |lead|;
    if f.tab {
      assert r[k - 1] == r[..k][k - 1] == SwitchName(lead[k - 1]);
    }
    if f.colorOutput {
      assert r[k + 2] == r[k + 2..][0] == SwitchName(trail[0]);
    }
  }

  /** Without an indent the switch part is every switch that is on, in rank
      order. */
  lemma SwitchArgsWithoutIndent(f: Flags)
    requires f.indent <= 0
    ensures SwitchArgs(f) == SwitchNames(Switches(f))
  {
    JoinWithoutIndent(SwitchArgs(f), LeadingSwitches(f), IndentArgs(f.indent), TrailingSwitches(f));
  }

  lemma JoinWithoutIndent(r: seq<string>, lead: seq<Switch>, indent: seq<string>, trail: seq<Switch>)
    requires r == SwitchNames(lead) + indent + SwitchNames(trail) && indent == []
    ensures r == SwitchNames(lead + trail)
  {
    SwitchNamesAppend(lead, trail);
    assert SwitchNames(lead) + indent == SwitchNames(lead);
  }

  lemma SwitchNamesAppend(a: seq<Switch>, b: seq<Switch>)
    ensures SwitchNames(a + b) == SwitchNames(a) + SwitchNames(b)
  {
    var l, r := SwitchNames(a + b), SwitchNames(a) + SwitchNames(b);
    assert |l| == |r|;
    forall i | 0 <= i < |l|
      ensures l[i] == r[i]
    {
      if i < |a| {
        assert (a + b)[i] == a[i];
      } else {
        assert (a + b)[i] == b[i - |a|];
      }
    }
  }

  /** With `--sort-keys` the only switch and an indent of 2, the indent comes
      first. */
  lemma IndentBeforeSortKeys(f: Flags)
    requires forall s :: IsOn(f, s) <==> s == SortKeys
    requires f.indent == 2
    ensures SwitchArgs(f) == ["--indent", "2", "--sort-keys"]
  {
    SortKeysOnly(f);
    assert NatToString(2) == "2";
  }

  lemma SortKeysOnly(f: Flags)
    requires forall s :: IsOn(f, s) <==> s == SortKeys
    ensures LeadingSwitches(f) == [] && TrailingSwitches(f) == [SortKeys]
  {
    forall i | 0 <= i < |LeadingOrder|
      ensures !IsOn(f, LeadingOrder[i])
    {
      assert LeadingOrder[i] != SortKeys;
    }
    NoneOn(f, LeadingOrder);
    forall i | 0 <= i < |TrailingOrder| && i != 4
      ensures !IsOn(f, TrailingOrder[i])
    {
      assert TrailingOrder[i] != SortKeys;
    }
    OneOn(f, TrailingOrder, 4);
  }

  /** With every switch of `ss` off, none is passed on... */
  lemma {:induction false} NoneOn(f: Flags, ss: seq<Switch>)
    requires forall i | 0 <= i < |ss| :: !IsOn(f, ss[i])
    ensures SwitchesOn(f, ss) == []
  {
    if |ss| > 0 {
      NoneOn(f, ss[1..]);
    }
  }

  /** ...and with exactly one on, only that one. */
  lemma {:induction false} OneOn(f: Flags, ss: seq<Switch>, k: nat)
    requires k < |ss| && IsOn(f, ss[k])
    requires forall i | 0 <= i < |ss| && i != k :: !IsOn(f, ss[i])
    ensures SwitchesOn(f, ss) == [ss[k]]
  {
    if k == 0 {
      NoneOn(f, ss[1..]);
    } else {
      OneOn(f, ss[1..], k - 1);
    }
  }

  /** `opt x` for every `x`, in order. */
  function Repeat(opt: string, xs: seq<string>): (r: seq<string>)
    ensures |r| == 2 * |xs|
    ensures forall i | 0 <= i < |r| :: r[i] == if i % 2 == 0 then opt else xs[i / 2]
  {
    if |xs| == 0 then []
    else
      var rest := Repeat(opt, xs[1..]);
      var r := [opt, xs[0]] + rest;
      assert forall i | 2 <= i < |r| :: r[i] == rest[i - 2];
      r
  }

  /** `rewriteArgs`: `--help` wins over `--version`, which wins over
      `--run-tests` (passed on with the first free argument, `testFile`,
      when there is one); otherwise every switch that is on, the indent,
      the module directories, the pairs and the filter files. */
  function RewriteArgs(f: Flags, testFile: string): (r: seq<string>)
    ensures f.help ==> r == ["--help"]
    ensures !f.help && f.version ==> r == ["--version"]
    ensures !f.help && !f.version && f.runTests ==>
              r == ["--run-tests"] + (if testFile == "" then [] else [testFile])
    ensures !f.help && !f.version && !f.runTests ==>
              Sections(r, SwitchArgs(f), Repeat("-L", f.searchDirs), PairSection(f), Repeat("--from-file", f.filterFiles))
  {
    if f.help then ["--help"]
    else if f.version then ["--version"]
    else if f.runTests then ["--run-tests"] + (if testFile == "" then [] else [testFile])
    else
      var args := SwitchArgs(f) + Repeat("-L", f.searchDirs);
      var args := AppendPairArgs(args, "--arg", f.strArgs);
      var args := AppendPairArgs(args, "--argjson", f.jsonArgs);
      var args := AppendPairArgs(args, "--slurpfile", f.slurpFiles);
      var args := AppendPairArgs(args, "--rawfile", f.rawFiles);
      var args := AppendPairArgs(args, "--argfile", f.argFiles);
      var r := args + Repeat("--from-file", f.filterFiles);
      PairsInOrder(SwitchArgs(f) + Repeat("-L", f.searchDirs), f);
      FourSections(SwitchArgs(f), Repeat("-L", f.searchDirs), PairSection(f), Repeat("--from-file", f.filterFiles));
      r
  }

  /** The pair options in the order jq gets them: `--arg`, `--argjson`,
      `--slurpfile`, `--rawfile`, `--argfile`. */
  function PairSection(f: Flags): seq<string>
  {
    PairArgs("--arg", f.strArgs) + PairArgs("--argjson", f.jsonArgs)
    + PairArgs("--slurpfile", f.slurpFiles) + PairArgs("--rawfile", f.rawFiles)
    + PairArgs("--argfile", f.argFiles)
  }

  /** `r` is `a`, `b`, `c` and `d`, one after the other. */
  ghost predicate Sections(r: seq<string>, a: seq<string>, b: seq<string>, c: seq<string>, d: seq<string>)
  {
    && |r| == |a| + |b| + |c| + |d|
    && r[..|a|] == a
    && r[|a|..|a| + |b|] == b
    && r[|a| + |b|..|r| - |d|] == c
    && r[|r| - |d|..] == d
  }

  lemma PairsInOrder(x: seq<string>, f: Flags)
    ensures AppendPairArgs(AppendPairArgs(AppendPairArgs(AppendPairArgs(AppendPairArgs(
              x, "--arg", f.strArgs), "--argjson", f.jsonArgs), "--slurpfile", f.slurpFiles),
              "--rawfile", f.rawFiles), "--argfile", f.argFiles)
         == x + PairSection(f)
  {
    var p1, p2, p3, p4, p5 := PairArgs("--arg", f.strArgs), PairArgs("--argjson", f.jsonArgs),
      PairArgs("--slurpfile", f.slurpFiles), PairArgs("--rawfile", f.rawFiles), PairArgs("--argfile", f.argFiles);
    AppendFive(x, p1, p2, p3, p4, p5);
  }

  lemma AppendFive(x: seq<string>, p1: seq<string>, p2: seq<string>, p3: seq<string>, p4: seq<string>, p5: seq<string>)
    ensures x + p1 + p2 + p3 + p4 + p5 == x + (p1 + p2 + p3 + p4 + p5)
  {
    assert x + p1 + p2 == x + (p1 + p2);
    assert x + (p1 + p2) + p3 == x + (p1 + p2 + p3);
    assert x + (p1 + p2 + p3) + p4 == x + (p1 + p2 + p3 + p4);
  }

  lemma FourSections(a: seq<string>, b: seq<string>, c: seq<string>, d: seq<string>)
    ensures Sections(a + b + c + d, a, b, c, d)
  {
  }

  /** With YAML output, the sanitized flags make jq print compact,
      monochrome, unbuffered JSON and nothing that would stop the output
      from being read back: no sequence markers, colours, raw strings or
      indentation. */
  lemma YamlOutputSwitches(f: Flags)
    requires f.yamlOutput
    ensures var ss := Switches(SanitizeFlags(f));
            && CompactOutput in ss && MonochromeOutput in ss && Unbuffered in ss
            && Seq !in ss && ColorOutput !in ss && RawOutput !in ss && JoinOutput !in ss && Tab !in ss
    ensures IndentArgs(SanitizeFlags(f).indent) == []
  {
    var g := SanitizeFlags(f);
    assert IsOn(g, CompactOutput) && IsOn(g, MonochromeOutput) && IsOn(g, Unbuffered);
    assert !IsOn(g, Seq) && !IsOn(g, ColorOutput) && !IsOn(g, RawOutput) && !IsOn(g, JoinOutput) && !IsOn(g, Tab);
  }
}
