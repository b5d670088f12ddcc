/** arguments.go: ycat's command-line parser, a small state machine over the
    argument list. Long options (`--name`, `--name=value`), clusters of short
    options (`-na`, `-ojson`), file names, and the bare `--` that turns the
    rest of the list into file names. `strconv.Atoi` is a parameter. */
module Arguments {
  import opened Wrappers
  import opened Text
  import opened Codec
  import Jsonnet

  /** `InputFile`: a path and the format to read it in. */
  datatype InputFile = InputFile(format: Format, path: string)

  /** `Arguments`. */
  datatype Arguments = Arguments(
    help: bool,
    output: Output,
    eval: Jsonnet.Eval,
    toArray: bool,
    nullInput: bool,
    files: seq<InputFile>)

  /** The zero value the command starts from. */
  const Initial := Arguments(false, OutputYAML, Jsonnet.EmptyEval, false, false, [])

  /** The errors the parser reports. */
  datatype ArgError =
    | InvalidMaxStack(value: string)
    | MissingImportFile
    | InvalidOutput(value: string)
    | InvalidOption(name: string)
    | InvalidShortOption(c: char)

  /** `strconv.Atoi`, outside the model: the number, or `None` for text that
      is not one. */
  type Atoi = string -> Option<int>

  /** One parsing step: the arguments so far, the rest of the argument list,
      and the error that ends parsing, if any. */
  datatype Step = Step(args: Arguments, argv: seq<string>, err: Option<ArgError>)

  /** `splitArgV`: the text before and after the first `=`; all of it and the
      empty string when there is none. */
  function SplitArgV(s: string): (r: (string, string))
    ensures '=' !in s ==> r == (s, "")
    ensures '=' in s ==> s == r.0 + "=" + r.1 && '=' !in r.0
  {
    match Cut(s, '=')
    case None => (s, "")
    case Some((a, b)) => (a, b)
  }

  /** A trailing `=` and no `=` at all cannot be told apart. */
  lemma SplitArgVTrailingEquals(s: string)
    requires '=' !in s
    ensures SplitArgV(s + "=") == SplitArgV(s)
  {
    SplitAtFirst(s, "");
  }

  /** `s` is what is left of `t` after dropping some leading arguments. */
  predicate IsSuffix(s: seq<string>, t: seq<string>)
  {
    |s| <= |t| && s == t[|t| - |s|..]
  }

  lemma SuffixTransitive(s: seq<string>, t: seq<string>, u: seq<string>)
    requires IsSuffix(s, t) && IsSuffix(t, u)
    ensures IsSuffix(s, u)
  {
    assert u[|u| - |t|..][|t| - |s|..] == u[|u| - |s|..];
  }

  /** `isOption`: an argument that is an option. `-` alone (standard input)
      and `--` alone (end of options) are not. */
  predicate IsOption(a: string)
  {
    |a| > 1 && a[0] == '-' && (a[1] != '-' || |a| > 2)
  }

  lemma IsOptionMeaning(a: string)
    ensures IsOption(a) <==> |a| > 1 && a[0] == '-' && a != "--"
  {
    if |a| == 2 && a[0] == '-' && a[1] == '-' {
      assert a == "--";
    }
  }

  /** `shiftArgV`: the value of an option. Inline text loses one leading `=`;
      with no inline text the next argument is taken, unless it is an option. */
  function ShiftArgV(v: string, argv: seq<string>): (r: (string, seq<string>))
    ensures |v| > 0 && v[0] == '=' ==> r == (v[1..], argv)
    ensures |v| > 0 && v[0] != '=' ==> r == (v, argv)
    ensures |v| == 0 && |argv| > 0 && !IsOption(argv[0]) ==> r == (argv[0], argv[1..])
    ensures |v| == 0 && (|argv| == 0 || IsOption(argv[0])) ==> r == ("", argv)
    ensures IsSuffix(r.1, argv)
  {
    if |v| > 0 then
      if v[0] == '=' then (v[1..], argv) else (v, argv)
    else if |argv| > 0 && !IsOption(argv[0]) then (argv[0], argv[1..])
    else (v, argv)
  }

  /** `addFile`. */
  function AddFile(args: Arguments, path: string, f: Format): (r: Arguments)
    ensures r.files == args.files + [InputFile(f, path)]
    ensures r.(files := args.files) == args
  {
    args.(files := args.files + [InputFile(f, path)])
  }

  /** The leading arguments that are not options. */
  function LeadingFiles(argv: seq<string>): (n: nat)
    ensures n <= |argv|
    ensures forall i | 0 <= i < n :: !IsOption(argv[i])
    ensures n < |argv| ==> IsOption(argv[n])
  {
    if |argv| == 0 || IsOption(argv[0]) then 0 else 1 + LeadingFiles(argv[1..])
  }

  function FilesOf(paths: seq<string>, f: Format): (r: seq<InputFile>)
    ensures |r| == |paths| && forall i | 0 <= i < |paths| :: r[i] == InputFile(f, paths[i])
  {
    if |paths| == 0 then [] else [InputFile(f, paths[0])] + FilesOf(paths[1..], f)
  }

  /** `parseFiles`: an inline path (one leading `=` removed) is one file; with
      no inline path and nothing left, the empty path; otherwise every
      argument up to the next option. */
  function ParseFiles(args: Arguments, path: string, argv: seq<string>, f: Format): (r: (Arguments, seq<string>))
    ensures |path| > 0 ==> r == (AddFile(args, if path[0] == '=' then path[1..] else path, f), argv)
    ensures |path| == 0 && |argv| == 0 ==> r == (AddFile(args, "", f), argv)
    ensures |path| == 0 && |argv| > 0 ==>
              var n := LeadingFiles(argv);
              r == (args.(files := args.files + FilesOf(argv[..n], f)), argv[n..])
    ensures IsSuffix(r.1, argv)
  {
    if |path| > 0 then (AddFile(args, if path[0] == '=' then path[1..] else path, f), argv)
    else if |argv| == 0 then (AddFile(args, "", f), argv)
    else TakeFiles(args, argv, f)
  }

  /** The loop of `parseFiles`. */
  function TakeFiles(args: Arguments, argv: seq<string>, f: Format): (r: (Arguments, seq<string>))
    ensures var n := LeadingFiles(argv);
            r == (args.(files := args.files + FilesOf(argv[..n], f)), argv[n..])
    decreases |argv|
  {
    if |argv| > 0 && !IsOption(argv[0]) then
      var r := TakeFiles(AddFile(args, argv[0], f), argv[1..], f);
      TakeFilesStep(args, argv, f);
      r
    else
      assert args.files + FilesOf(argv[..0], f) == args.files;
      (args, argv)
  }

  lemma TakeFilesStep(args: Arguments, argv: seq<string>, f: Format)
    requires |argv| > 0 && !IsOption(argv[0])
    ensures LeadingFiles(argv) == LeadingFiles(argv[1..]) + 1
    ensures argv[1..][LeadingFiles(argv[1..])..] == argv[LeadingFiles(argv)..]
    ensures AddFile(args, argv[0], f).files + FilesOf(argv[1..][..LeadingFiles(argv[1..])], f)
         == args.files + FilesOf(argv[..LeadingFiles(argv)], f)
  {
    var m := LeadingFiles(argv[1..]);
    assert argv[..m + 1][1..] == argv[1..][..m];
    assert argv[1..][m..] == argv[m + 1..];
    FilesOfCons(argv[..m + 1], f);
  }

  lemma FilesOfCons(paths: seq<string>, f: Format)
    requires |paths| > 0
    ensures FilesOf(paths, f) == [InputFile(f, paths[0])] + FilesOf(paths[1..], f)
  {
  }

  /** The long options that take a value, and the ones that do not. */
  predicate TakesValue(name: string)
  {
    name == "max-stack" || name == "input-var" || name == "import" || name == "var" || name == "eval" || name == "output"
  }

  predicate IsFlag(name: string)
  {
    name == "null" || name == "to-json" || name == "help" || name == "array"
  }

  /** Every long option `parseLong` knows. */
  predicate IsLongOption(name: string)
  {
    TakesValue(name) || IsFlag(name) || name == "yaml" || name == "json"
  }

  /** `parseLong`: one long option, its value inline (`value`) or taken from
      the argument list. An unknown name is an error. */
  function ParseLong(atoi: Atoi, args: Arguments, name: string, value: string, argv: seq<string>): (r: Step)
    ensures IsSuffix(r.argv, argv)
    ensures name == "yaml" ==> var p := ParseFiles(args, value, argv, YAML); r == Step(p.0, p.1, None)
    ensures name == "json" ==> var p := ParseFiles(args, value, argv, JSON); r == Step(p.0, p.1, None)
    ensures IsFlag(name) ==> r == Step(SetFlag(args, name), argv, None)
    ensures !IsLongOption(name) ==> r == Step(args, argv, Some(InvalidOption(name)))
  {
    if name == "yaml" then
      var r := ParseFiles(args, value, argv, YAML);
      Step(r.0, r.1, None)
    else if name == "json" then
      var r := ParseFiles(args, value, argv, JSON);
      Step(r.0, r.1, None)
    else if IsFlag(name) then Step(SetFlag(args, name), argv, None)
    else if TakesValue(name) then
      var shifted := ShiftArgV(value, argv);
      var r := WithValue(atoi, args, name, shifted.0, shifted.1);
      SuffixTransitive(r.argv, shifted.1, argv);
      r
    else Step(args, argv, Some(InvalidOption(name)))
  }

  /** The options without a value. `--array` asks for the input to be
      collected when no snippet has been set yet, for the results otherwise. */
  function SetFlag(args: Arguments, name: string): (r: Arguments)
    ensures name == "null" ==> r == args.(nullInput := true)
    ensures name == "to-json" ==> r == args.(output := OutputJSON)
    ensures name == "help" ==> r == args.(help := true)
    ensures name == "array" && args.eval.snippet == "" ==> r == args.(toArray := true)
    ensures name == "array" && args.eval.snippet != "" ==> r == args.(eval := args.eval.(toArray := true))
  {
    if name == "null" then args.(nullInput := true)
    else if name == "to-json" then args.(output := OutputJSON)
    else if name == "help" then args.(help := true)
    else if name == "array" then
      if args.eval.snippet == "" then args.(toArray := true)
      else args.(eval := args.eval.(toArray := true))
    else args
  }

  /** The options with a value `v`, `rest` being the argument list after it.
      `--eval --` takes the whole rest of the list, joined with spaces. */
  function WithValue(atoi: Atoi, args: Arguments, name: string, v: string, rest: seq<string>): (r: Step)
    ensures r.argv == rest || r.argv == []
    ensures IsSuffix(r.argv, rest)
    ensures name == "max-stack" && atoi(v).None? ==> r == Step(args, rest, Some(InvalidMaxStack(v)))
    ensures name == "max-stack" && atoi(v).Some? ==>
              r == Step(args.(eval := args.eval.(maxStackSize := atoi(v).value)), rest, None)
    ensures name == "input-var" ==> r == Step(args.(eval := args.eval.(bind := v)), rest, None)
    ensures name == "import" && SplitArgV(v).1 == "" ==> r == Step(args, rest, Some(MissingImportFile))
    ensures name == "import" && SplitArgV(v).1 != "" ==>
              r == Step(args.(eval := Jsonnet.AddVar(args.eval, Jsonnet.FileVar, SplitArgV(v).0, SplitArgV(v).1)), rest, None)
    ensures name == "var" ==> r == Step(args.(eval := VarOption(args.eval, v)), rest, None)
    ensures name == "eval" && v == "--" ==> r == Step(args.(eval := args.eval.(snippet := Join(" ", rest))), [], None)
    ensures name == "eval" && v != "--" ==> r == Step(args.(eval := args.eval.(snippet := v)), rest, None)
    ensures name == "output" ==> r.args == args.(output := OutputFromString(v)) && r.argv == rest
    ensures name == "output" ==> (r.err.Some? <==> OutputFromString(v) == OutputInvalid)
    ensures r.err.Some? ==> r.args.(output := args.output) == args
  {
    if name == "max-stack" then
      match atoi(v)
      case None => Step(args, rest, Some(InvalidMaxStack(v)))
      case Some(size) => Step(args.(eval := args.eval.(maxStackSize := size)), rest, None)
    else if name == "input-var" then
      Step(args.(eval := args.eval.(bind := v)), rest, None)
    else if name == "import" then
      var nf := SplitArgV(v);
      if nf.1 == "" then Step(args, rest, Some(MissingImportFile))
      else Step(args.(eval := Jsonnet.AddVar(args.eval, Jsonnet.FileVar, nf.0, nf.1)), rest, None)
    else if name == "var" then
      Step(args.(eval := VarOption(args.eval, v)), rest, None)
    else if name == "eval" then
      if v == "--" then Step(args.(eval := args.eval.(snippet := Join(" ", rest))), [], None)
      else Step(args.(eval := args.eval.(snippet := v)), rest, None)
    else
      var o := OutputFromString(v);
      Step(args.(output := o), rest, if o == OutputInvalid then Some(InvalidOutput(v)) else None)
  }

  /** `--var name=value`: a value starting with `=` is Jsonnet code (that `=`
      removed), any other a string. */
  function VarOption(e: Jsonnet.Eval, v: string): (r: Jsonnet.Eval)
    ensures var (n, x) := SplitArgV(v);
            |x| > 0 && x[0] == '=' ==> r == Jsonnet.AddVar(e, Jsonnet.CodeVar, n, x[1..])
    ensures var (n, x) := SplitArgV(v);
            !(|x| > 0 && x[0] == '=') ==> r == Jsonnet.AddVar(e, Jsonnet.RawVar, n, x)
  {
    var nx := SplitArgV(v);
    if |nx.1| > 0 && nx.1[0] == '=' then Jsonnet.AddVar(e, Jsonnet.CodeVar, nx.0, nx.1[1..])
    else Jsonnet.AddVar(e, Jsonnet.RawVar, nx.0, nx.1)
  }

  /** The short options without a value. */
  predicate IsShortFlag(c: char)
  {
    c == 'n' || c == 'a' || c == 'h'
  }

  /** `-n`, `-a` and `-h`: null input, collecting the input, help. */
  function ShortFlag(args: Arguments, c: char): (r: Arguments)
    requires IsShortFlag(c)
    ensures r.nullInput == (args.nullInput || c == 'n')
    ensures r.toArray == (args.toArray || c == 'a')
    ensures r.help == (args.help || c == 'h')
    ensures r.(nullInput := args.nullInput, toArray := args.toArray, help := args.help) == args
  {
    if c == 'n' then args.(nullInput := true)
    else if c == 'a' then args.(toArray := true)
    else args.(help := true)
  }

  /** The long option each value-taking short letter stands for. */
  function LongName(c: char): (name: string)
    requires c in "jyiveo"
    ensures IsLongOption(name) && !IsFlag(name)
  {
    match c
    case 'j' => "json"
    case 'y' => "yaml"
    case 'i' => "import"
    case 'v' => "var"
    case 'e' => "eval"
    case 'o' => "output"
  }

  /** `parseShort`: a cluster of short options. `n`, `a` and `h` set their flag
      and the cluster goes on; `j`, `y`, `i`, `v`, `e` and `o` take the rest of
      the cluster as their value; any other letter is an error. */
  function ParseShort(atoi: Atoi, args: Arguments, a: string, argv: seq<string>): (r: Step)
    ensures IsSuffix(r.argv, argv)
    ensures |a| > 0 && a[0] == 'j' ==> var p := ParseFiles(args, a[1..], argv, JSON); r == Step(p.0, p.1, None)
    ensures |a| > 0 && a[0] == 'y' ==> var p := ParseFiles(args, a[1..], argv, YAML); r == Step(p.0, p.1, None)
    ensures |a| > 0 && a[0] == 'i' ==> r == ParseLong(atoi, args, "import", a[1..], argv)
    ensures |a| > 0 && a[0] == 'v' ==> r == ParseLong(atoi, args, "var", a[1..], argv)
    ensures |a| > 0 && a[0] == 'e' ==> r == ParseLong(atoi, args, "eval", a[1..], argv)
    ensures |a| > 0 && a[0] == 'o' ==> r == ParseLong(atoi, args, "output", a[1..], argv)
    ensures |a| > 0 && a[0] !in "jyiveonah" ==> r == Step(args, argv, Some(InvalidShortOption(a[0])))
    ensures |a| == 0 ==> r == Step(args, argv, None)
    decreases |a|
  {
    if |a| == 0 then Step(args, argv, None)
    else
      var c := a[0];
      if IsShortFlag(c) then ParseShort(atoi, ShortFlag(args, c), a[1..], argv)
      else if c == 'j' then
        var r := ParseFiles(args, a[1..], argv, JSON); Step(r.0, r.1, None)
      else if c == 'y' then
        var r := ParseFiles(args, a[1..], argv, YAML); Step(r.0, r.1, None)
      else if c == 'i' then ParseLong(atoi, args, "import", a[1..], argv)
      else if c == 'v' then ParseLong(atoi, args, "var", a[1..], argv)
      else if c == 'e' then ParseLong(atoi, args, "eval", a[1..], argv)
      else if c == 'o' then ParseLong(atoi, args, "output", a[1..], argv)
      else Step(args, argv, Some(InvalidShortOption(c)))
  }

  lemma ShortFlagStep(atoi: Atoi, args: Arguments, a: string, argv: seq<string>)
    requires |a| > 0 && IsShortFlag(a[0])
    ensures ParseShort(atoi, args, a, argv) == ParseShort(atoi, ShortFlag(args, a[0]), a[1..], argv)
  {
  }

  /** A value-taking short letter is an alias of its long option, with the rest
      of the cluster as the inline value. */
  lemma ShortAliasesLong(atoi: Atoi, args: Arguments, c: char, rest: string, argv: seq<string>)
    requires c in "jyiveo"
    ensures ParseShort(atoi, args, [c] + rest, argv) == ParseLong(atoi, args, LongName(c), rest, argv)
  {
    var a := [c] + rest;
    assert a[0] == c && a[1..] == rest;
    var r := ParseShort(atoi, args, a, argv);
    if c == 'j' {
      assert LongName(c) == "json";
    } else if c == 'y' {
      assert LongName(c) == "yaml";
    } else if c == 'i' {
      assert r == ParseLong(atoi, args, "import", rest, argv);
    } else if c == 'v' {
      assert r == ParseLong(atoi, args, "var", rest, argv);
    } else if c == 'e' {
      assert r == ParseLong(atoi, args, "eval", rest, argv);
    } else {
      assert r == ParseLong(atoi, args, "output", rest, argv);
    }
  }

  lemma HeadMember(a: string, x: char)
    requires |a| > 0
    ensures x in a <==> x == a[0] || x in a[1..]
  {
    assert a == [a[0]] + a[1..];
  }

  /** A cluster of the short flags `-n`, `-a` and `-h` sets each flag that
      appears in it, in any order and any number of times, consumes no
      further argument and changes nothing else. */
  lemma {:induction false} ShortFlagCluster(atoi: Atoi, args: Arguments, a: string, argv: seq<string>)
    requires forall i | 0 <= i < |a| :: IsShortFlag(a[i])
    ensures var r := ParseShort(atoi, args, a, argv);
            && r.argv == argv && r.err.None?
            && r.args.nullInput == (args.nullInput || 'n' in a)
            && r.args.toArray == (args.toArray || 'a' in a)
            && r.args.help == (args.help || 'h' in a)
            && r.args.(nullInput := args.nullInput, toArray := args.toArray, help := args.help) == args
    decreases |a|
  {
    if |a| > 0 {
      ShortFlagStep(atoi, args, a, argv);
      ShortFlagCluster(atoi, ShortFlag(args, a[0]), a[1..], argv);
      HeadMember(a, 'n');
      HeadMember(a, 'a');
      HeadMember(a, 'h');
    }
  }

  /** `Arguments.Parse`: arguments are consumed front to back until the list
      is empty or an error occurs. `--` makes every remaining argument a file;
      an argument that does not start with `-`, or is `-` alone, is a file. */
  function Parse(atoi: Atoi, args: Arguments, argv: seq<string>): (r: (Arguments, Option<ArgError>))
    ensures |argv| == 0 ==> r == (args, None)
    ensures |argv| > 0 && argv[0] == "--" ==> r == (args.(files := args.files + FilesOf(argv[1..], Auto)), None)
    decreases |argv|, 1
  {
    if |argv| == 0 then (args, None)
    else if |argv[0]| > 1 && argv[0][0] == '-' then
      if argv[0] == "--" then (args.(files := args.files + FilesOf(argv[1..], Auto)), None)
      else Continue(atoi, ParseOption(atoi, args, argv[0], argv[1..]), argv[1..])
    else Parse(atoi, AddFile(args, argv[0], Auto), argv[1..])
  }

  /** One option `a` (not `--` alone): `--name[=value]` or a short cluster. */
  function ParseOption(atoi: Atoi, args: Arguments, a: string, rest: seq<string>): (r: Step)
    requires IsOption(a)
    ensures IsSuffix(r.argv, rest)
  {
    if a[1] == '-' then
      var nv := SplitArgV(a[2..]);
      ParseLong(atoi, args, nv.0, nv.1, rest)
    else ParseShort(atoi, args, a[1..], rest)
  }

  /** After one option: stop at its error, otherwise go on with what it left. */
  function Continue(atoi: Atoi, s: Step, rest: seq<string>): (r: (Arguments, Option<ArgError>))
    requires |s.argv| <= |rest|
    ensures s.err.Some? ==> r == (s.args, s.err)
    decreases |rest|, 2
  {
    if s.err.Some? then (s.args, s.err) else Parse(atoi, s.args, s.argv)
  }

  /** An argument list without options is a list of files, read in the
      detected format, in order. */
  lemma {:induction false} ParsePlainFiles(atoi: Atoi, args: Arguments, argv: seq<string>)
    requires forall i | 0 <= i < |argv| :: !(|argv[i]| > 1 && argv[i][0] == '-')
    ensures Parse(atoi, args, argv) == (args.(files := args.files + FilesOf(argv, Auto)), None)
    decreases |argv|
  {
    if |argv| > 0 {
      FilesOfCons(argv, Auto);
      assert args.files + [InputFile(Auto, argv[0])] + FilesOf(argv[1..], Auto) == args.files + FilesOf(argv, Auto);
      ParsePlainFiles(atoi, AddFile(args, argv[0], Auto), argv[1..]);
      ParseFileStep(atoi, args, argv);
    } else {
      assert args.files + FilesOf(argv, Auto) == args.files;
    }
  }

  /** An argument that is not an option is added as a file. */
  lemma ParseFileStep(atoi: Atoi, args: Arguments, argv: seq<string>)
    requires |argv| > 0 && !(|argv[0]| > 1 && argv[0][0] == '-')
    ensures Parse(atoi, args, argv) == Parse(atoi, AddFile(args, argv[0], Auto), argv[1..])
  {
  }

  /** `-` alone is a file (standard input), and `--` makes everything after it
      a file, options included. */
  lemma DashArguments(atoi: Atoi, args: Arguments, rest: seq<string>)
    ensures Parse(atoi, args, ["-"] + rest) == Parse(atoi, AddFile(args, "-", Auto), rest)
    ensures Parse(atoi, args, ["--"] + rest) == (args.(files := args.files + FilesOf(rest, Auto)), None)
  {
    assert (["-"] + rest)[1..] == rest;
    assert (["--"] + rest)[1..] == rest;
  }

  /** An option is handled by `ParseOption`, then parsing goes on. */
  lemma ParseOptionStep(atoi: Atoi, args: Arguments, argv: seq<string>)
    requires |argv| > 0 && IsOption(argv[0])
    ensures Parse(atoi, args, argv) == Continue(atoi, ParseOption(atoi, args, argv[0], argv[1..]), argv[1..])
  {
  }

  /** `--name` without `=`: the whole name, no inline value. */
  lemma LongOption(atoi: Atoi, args: Arguments, name: string, rest: seq<string>)
    requires |name| > 0 && '=' !in name
    ensures IsOption("--" + name)
    ensures ParseOption(atoi, args, "--" + name, rest) == ParseLong(atoi, args, name, "", rest)
  {
    assert ("--" + name)[2..] == name;
  }

  /** An unknown long option ends parsing with an error, whatever follows. */
  lemma UnknownOptionStops(atoi: Atoi, args: Arguments, name: string, rest: seq<string>)
    requires |name| > 0 && '=' !in name
    requires !IsLongOption(name)
    ensures Parse(atoi, args, ["--" + name] + rest) == (args, Some(InvalidOption(name)))
  {
    var argv := ["--" + name] + rest;
    assert argv[1..] == rest;
    LongOption(atoi, args, name, rest);
    ParseOptionStep(atoi, args, argv);
  }

  /** So does an unknown letter at the head of a short cluster. */
  lemma UnknownShortOptionStops(atoi: Atoi, args: Arguments, c: char, tail: string, rest: seq<string>)
    requires c != '-' && c !in "jyiveonah"
    ensures Parse(atoi, args, ["-" + [c] + tail] + rest) == (args, Some(InvalidShortOption(c)))
  {
    var argv := ["-" + [c] + tail] + rest;
    assert argv[1..] == rest;
    assert argv[0][1..] == [c] + tail;
    ParseOptionStep(atoi, args, argv);
  }

  /** `--var name==code` binds Jsonnet code and `--var name=text` a string:
      the opposite of what the usage text says. */
  lemma VarKinds(e: Jsonnet.Eval, name: string, x: string)
    requires '=' !in name
    ensures VarOption(e, name + "==" + x) == Jsonnet.AddVar(e, Jsonnet.CodeVar, name, x)
    ensures |x| > 0 && x[0] != '=' ==> VarOption(e, name + "=" + x) == Jsonnet.AddVar(e, Jsonnet.RawVar, name, x)
    ensures VarOption(e, name) == Jsonnet.AddVar(e, Jsonnet.RawVar, name, "")
  {
    VarCode(e, name, x);
    VarText(e, name, x);
  }

  lemma VarCode(e: Jsonnet.Eval, name: string, x: string)
    requires '=' !in name
    ensures VarOption(e, name + "==" + x) == Jsonnet.AddVar(e, Jsonnet.CodeVar, name, x)
  {
    SplitAtFirst(name, "=" + x);
    assert name + "==" + x == name + "=" + ("=" + x);
    assert ("=" + x)[1..] == x;
  }

  lemma VarText(e: Jsonnet.Eval, name: string, x: string)
    requires '=' !in name
    ensures |x| > 0 && x[0] != '=' ==> VarOption(e, name + "=" + x) == Jsonnet.AddVar(e, Jsonnet.RawVar, name, x)
  {
    SplitAtFirst(name, x);
  }

  lemma SplitAtFirst(a: string, b: string)
    requires '=' !in a
    ensures SplitArgV(a + "=" + b) == (a, b)
  {
    var s := a + "=" + b;
    assert s[|a|] == '=';
    var r := SplitArgV(s);
    assert |r.0| == |a|;
    assert r.0 == s[..|a|] == a;
    assert r.1 == s[|a| + 1..] == b;
  }

  /** An option taking a value gets it from `ShiftArgV`: the inline value
      when there is one, otherwise the next argument. */
  lemma LongTakesValue(atoi: Atoi, args: Arguments, name: string, value: string, argv: seq<string>)
    requires TakesValue(name)
    ensures var sv := ShiftArgV(value, argv);
            ParseLong(atoi, args, name, value, argv) == WithValue(atoi, args, name, sv.0, sv.1)
  {
    assert name != "yaml" && name != "json" && !IsFlag(name);
  }

  /** An option taking a value, with no inline value, takes the next
      argument when that is not an option. */
  lemma LongValue(atoi: Atoi, args: Arguments, name: string, argv: seq<string>)
    requires TakesValue(name) && |argv| > 0 && !IsOption(argv[0])
    ensures ParseLong(atoi, args, name, "", argv) == WithValue(atoi, args, name, argv[0], argv[1..])
  {
    assert name != "yaml" && name != "json" && !IsFlag(name);
    assert ShiftArgV("", argv) == (argv[0], argv[1..]);
  }

  /** A long flag sets its field and parsing goes on. */
  lemma LongFlag(atoi: Atoi, args: Arguments, name: string, rest: seq<string>)
    requires IsFlag(name)
    ensures Parse(atoi, args, ["--" + name] + rest) == Parse(atoi, SetFlag(args, name), rest)
  {
    var argv := ["--" + name] + rest;
    assert argv[1..] == rest;
    LongOption(atoi, args, name, rest);
    ParseOptionStep(atoi, args, argv);
  }

  /** `--eval snippet` sets the snippet, taken from the next argument. */
  lemma LongEval(atoi: Atoi, args: Arguments, snippet: string, rest: seq<string>)
    requires !IsOption(snippet) && snippet != "--"
    ensures Parse(atoi, args, ["--eval", snippet] + rest)
         == Parse(atoi, args.(eval := args.eval.(snippet := snippet)), rest)
  {
    var argv := ["--eval", snippet] + rest;
    assert argv[1..] == [snippet] + rest;
    EvalOption(atoi, args, snippet, rest);
    ParseOptionStep(atoi, args, argv);
  }

  lemma EvalOption(atoi: Atoi, args: Arguments, snippet: string, rest: seq<string>)
    requires !IsOption(snippet) && snippet != "--"
    ensures IsOption("--eval")
    ensures ParseOption(atoi, args, "--eval", [snippet] + rest)
         == Step(args.(eval := args.eval.(snippet := snippet)), rest, None)
  {
    var argv := [snippet] + rest;
    assert argv[0] == snippet && argv[1..] == rest;
    LongOption(atoi, args, "eval", argv);
    LongValue(atoi, args, "eval", argv);
  }

  /** `--array` before `--eval` asks for the input to be collected... */
  lemma ArrayBeforeEval(atoi: Atoi, args: Arguments, snippet: string, rest: seq<string>)
    requires args.eval.snippet == "" && !IsOption(snippet) && snippet != "--"
    ensures Parse(atoi, args, ["--array", "--eval", snippet] + rest)
         == Parse(atoi, args.(toArray := true, eval := args.eval.(snippet := snippet)), rest)
  {
    assert "--" + "array" == "--array";
    assert ["--array", "--eval", snippet] + rest == ["--" + "array"] + (["--eval", snippet] + rest);
    LongFlag(atoi, args, "array", ["--eval", snippet] + rest);
    LongEval(atoi, args.(toArray := true), snippet, rest);
  }

  /** ...and after it, the results. */
  lemma ArrayAfterEval(atoi: Atoi, args: Arguments, snippet: string, rest: seq<string>)
    requires snippet != "" && !IsOption(snippet) && snippet != "--"
    ensures Parse(atoi, args, ["--eval", snippet, "--array"] + rest)
         == Parse(atoi, args.(eval := args.eval.(snippet := snippet, toArray := true)), rest)
  {
    assert "--" + "array" == "--array";
    assert ["--eval", snippet, "--array"] + rest == ["--eval", snippet] + (["--" + "array"] + rest);
    LongEval(atoi, args, snippet, ["--array"] + rest);
    LongFlag(atoi, args.(eval := args.eval.(snippet := snippet)), "array", rest);
  }

  /** `--eval --` joins everything after it, with spaces, into the snippet. */
  lemma EvalDoubleDash(atoi: Atoi, args: Arguments, rest: seq<string>)
    ensures Parse(atoi, args, ["--eval", "--"] + rest)
         == (args.(eval := args.eval.(snippet := Join(" ", rest))), None)
  {
    var argv := ["--eval", "--"] + rest;
    assert argv[1..] == ["--"] + rest;
    assert (["--"] + rest)[1..] == rest;
    LongOption(atoi, args, "eval", argv[1..]);
    LongValue(atoi, args, "eval", argv[1..]);
    ParseOptionStep(atoi, args, argv);
  }
}
