/** eval.go: the Jsonnet side of ycat. External variables are collected in an
    `Eval` environment and rendered as `local` bindings in front of the user's
    snippet; the snippet stage evaluates it once per stream value. The Jsonnet
    VM is a parameter. */
module Jsonnet {
  import opened Wrappers
  import opened Text
  import opened Streams
  import Codec

  /** `VarType`: a file to import, Jsonnet code, or a plain string. */
  datatype VarType = FileVar | CodeVar | RawVar

  /** `Var`: an external variable. */
  datatype Var = Var(typ: VarType, value: string)

  /** `Eval`: the environment. `Vars` is a Go map and may be nil (`None`). The
      snippet is the one `--eval` sets; `Array` asks for the results to be
      collected into one array. */
  datatype Eval = Eval(
    bind: string,
    maxStackSize: int,
    toArray: bool,
    vars: Option<map<string, Var>>,
    snippet: string)

  const EmptyEval := Eval("", 0, false, None, "")

  /** `Eval.AddVar`: the variable map is created on first use; a name already
      bound is rebound. */
  function AddVar(e: Eval, typ: VarType, name: string, value: string): (r: Eval)
    ensures r.vars.Some? && name in r.vars.value && r.vars.value[name] == Var(typ, value)
    ensures e.vars.Some? ==> r.vars.value.Keys == e.vars.value.Keys + {name}
    ensures e.vars.None? ==> r.vars.value.Keys == {name}
    ensures forall n | e.vars.Some? && n in e.vars.value && n != name :: r.vars.value[n] == e.vars.value[n]
    ensures r.(vars := e.vars) == e
  {
    var m := if e.vars.None? then map[] else e.vars.value;
    e.(vars := Some(m[name := Var(typ, value)]))
  }

  /** Adding the same name twice keeps only the second binding. */
  lemma AddVarReplaces(e: Eval, t1: VarType, t2: VarType, name: string, v1: string, v2: string)
    ensures AddVar(AddVar(e, t1, name, v1), t2, name, v2) == AddVar(e, t2, name, v2)
  {
    var m := if e.vars.None? then map[] else e.vars.value;
    assert m[name := Var(t1, v1)][name := Var(t2, v2)] == m[name := Var(t2, v2)];
  }

  /** The import statement for a file variable, chosen by the extension. */
  function ImportKeyword(path: string): (k: string)
    ensures k in ["import \"", "importyaml \"", "importstr \""]
    ensures k == "importyaml \"" <==> Ext(path) in [".yaml", ".yml"]
  {
    var e := Ext(path);
    if e == ".json" || e == ".libsonnet" || e == ".jsonnet" then "import \""
    else if e == ".yaml" || e == ".yml" then "importyaml \""
    else "importstr \""
  }

  /** Jsonnet code is imported exactly for the files ycat itself reads as
      JSON or Jsonnet. */
  lemma ImportMatchesDetectFormat(path: string)
    ensures ImportKeyword(path) == "import \"" <==> Codec.DetectFormat(path) != Codec.YAML
  {
    var e := Ext(path);
    if !(e == ".json" || e == ".libsonnet" || e == ".jsonnet") {
      assert Codec.DetectFormat(path) == Codec.YAML;
      assert |ImportKeyword(path)| > |"import \""|;
    }
  }

  /** What a binding assigns: the import of a file, or the external
      variable of the same name. */
  function RenderValue(v: Var, name: string): string
  {
    if v.typ == FileVar then ImportKeyword(v.value) + v.value + "\""
    else "std.extVar(\"" + name + "\")"
  }

  /** `r` is the line binding `name` to `rhs`, and each piece can be read
      back from it: `local `, the name, ` = `, the right-hand side, `;\n`. */
  predicate IsBinding(r: string, name: string, rhs: string)
  {
    && |r| == 11 + |name| + |rhs|
    && r[..6] == "local " && r[6..6 + |name|] == name
    && r[6 + |name|..9 + |name|] == " = " && r[9 + |name|..|r| - 2] == rhs
    && r[|r| - 2..] == ";\n"
  }

  lemma BindingLine(name: string, rhs: string)
    ensures IsBinding("local " + name + " = " + rhs + ";\n", name, rhs)
  {
    var r := "local " + name + " = " + rhs + ";\n";
    assert r == "local " + (name + (" = " + (rhs + ";\n")));
  }

  /** `Var.Render`: one `local` binding. A file is imported by path, anything
      else is read from the external variable of the same name. */
  function RenderVar(v: Var, name: string): (r: string)
    ensures IsBinding(r, name, RenderValue(v, name))
  {
    var rhs := RenderValue(v, name);
    BindingLine(name, rhs);
    "local " + name + " = " + rhs + ";\n"
  }

  /** The default name of the input variable. */
  const DefaultInputVar: string := "x"

  /** `bindVar`: the input variable's name, `x` unless one was set. */
  function BindVar(v: string): (r: string)
    ensures |r| > 0
    ensures v == "" ==> r == DefaultInputVar
    ensures v != "" ==> r == v
  {
    if v == "" then DefaultInputVar else v
  }

  /** A name that went through `bindVar` is kept by it: the default is itself
      a valid name. */
  lemma BindVarIdempotent(v: string)
    ensures BindVar(BindVar(v)) == BindVar(v)
    ensures BindVar(v) == "x" <==> v == "" || v == "x"
  {
  }

  /** `names` lists every key of the variable map exactly once: the orders in
      which Go's `range` may visit the map. */
  predicate Enumerates(names: seq<string>, vars: Option<map<string, Var>>)
  {
    && (forall i, j | 0 <= i < j < |names| :: names[i] != names[j])
    && (vars.None? ==> |names| == 0)
    && (vars.Some? ==> (forall i | 0 <= i < |names| :: names[i] in vars.value) && (forall n | n in vars.value :: n in names))
  }

  /** The bindings of the variables, in the enumeration's order. */
  function VarLines(vars: map<string, Var>, names: seq<string>): (r: seq<string>)
    requires forall i | 0 <= i < |names| :: names[i] in vars
    ensures |r| == |names|
    ensures forall i | 0 <= i < |names| :: r[i] == RenderVar(vars[names[i]], names[i])
  {
    if |names| == 0 then [] else [RenderVar(vars[names[0]], names[0])] + VarLines(vars, names[1..])
  }

  /** The lines `Eval.Render` puts in front of the snippet: the variables in
      the enumeration's order, then the standard library `_` and the input
      variable, both read from external code. */
  function Preamble(e: Eval, names: seq<string>): (r: seq<string>)
    requires Enumerates(names, e.vars)
    ensures |r| == |names| + 2
    ensures forall i | 0 <= i < |names| :: e.vars.Some? && r[i] == RenderVar(e.vars.value[names[i]], names[i])
    ensures r[|names|] == RenderVar(Var(CodeVar, ""), "_")
    ensures r[|names| + 1] == RenderVar(Var(CodeVar, ""), BindVar(e.bind))
  {
    var vs := if e.vars.None? then [] else VarLines(e.vars.value, names);
    var std, input := RenderVar(Var(CodeVar, ""), "_"), RenderVar(Var(CodeVar, ""), BindVar(e.bind));
    assert |vs| == |names|;
    vs + [std, input]
  }

  /** Every variable of the environment has its binding in the preamble, and
      exactly one line of it names each variable. */
  lemma PreambleBindsEveryVar(e: Eval, names: seq<string>, n: string)
    requires Enumerates(names, e.vars)
    requires e.vars.Some? && n in e.vars.value
    ensures exists i | 0 <= i < |names| :: Preamble(e, names)[i] == RenderVar(e.vars.value[n], n)
    ensures forall i, j | 0 <= i < j < |names| :: Preamble(e, names)[i][6..6 + |names[i]|] == names[i] != names[j]
  {
    var i := IndexOf(names, n);
    assert Preamble(e, names)[i] == RenderVar(e.vars.value[names[i]], names[i]);
  }

  /** The line binding the standard library. */
  lemma StdLibLine()
    ensures RenderVar(Var(CodeVar, ""), "_") == "local _ = std.extVar(\"_\");\n"
  {
  }

  /** `Eval.Render`: the preamble lines, then the snippet verbatim. */
  function Render(e: Eval, names: seq<string>, snippet: string): (r: string)
    requires Enumerates(names, e.vars)
    ensures |r| >= |snippet| && r[|r| - |snippet|..] == snippet
    ensures r[..|r| - |snippet|] == Concat(Preamble(e, names))
  {
    Concat(Preamble(e, names)) + snippet
  }

  /** What the snippet stage leaves behind, with `a` the number of values
      evaluated without error and `n` the number the sink has room for: it
      fails exactly when an evaluation error comes before the sink is full,
      with that error and the earlier results pushed; otherwise every value up
      to the first refused push is evaluated and pushed, in order. */
  ghost predicate SnippetResult<T>(evaluate: T -> Result<T, Error>, s: Stream<T>, res: Outcome<Error>, s': Stream<T>)
  {
    var a := Accepted(evaluate, s.pending);
    var n := Min(|s.pending|, Room(s.sink));
    && s'.sink.cutoff == s.sink.cutoff
    && (res.Fail? <==> a < Min(|s.pending|, Room(s.sink) + 1))
    && (res.Fail? ==> (a < |s.pending| && res == Fail(evaluate(s.pending[a]).error)
                       && s'.sink.pushed == s.sink.pushed + Results(evaluate, s.pending[..a])))
    && (res.Pass? ==> s'.sink.pushed == s.sink.pushed + Results(evaluate, s.pending[..n]))
  }

  /** Upstream ran out with every value evaluated and pushed. */
  lemma SnippetDrained<T>(evaluate: T -> Result<T, Error>, s: Stream<T>, s': Stream<T>)
    requires |s.pending| <= Room(s.sink)
    requires forall j | 0 <= j < |s.pending| :: evaluate(s.pending[j]).Ok?
    requires s'.sink == Sink(s.sink.pushed + Results(evaluate, s.pending), s.sink.cutoff)
    ensures SnippetResult(evaluate, s, Pass, s')
  {
    assert Accepted(evaluate, s.pending) == |s.pending|;
    assert s.pending[..|s.pending|] == s.pending;
  }

  /** The value at `i` failed to evaluate while the sink still had room. */
  lemma SnippetFailed<T>(evaluate: T -> Result<T, Error>, s: Stream<T>, i: nat, s': Stream<T>)
    requires i < |s.pending| && i <= Room(s.sink)
    requires forall j | 0 <= j < i :: evaluate(s.pending[j]).Ok?
    requires evaluate(s.pending[i]).Err?
    requires s'.sink == Sink(s.sink.pushed + Results(evaluate, s.pending[..i]), s.sink.cutoff)
    ensures SnippetResult(evaluate, s, Fail(evaluate(s.pending[i]).error), s')
  {
    assert Accepted(evaluate, s.pending) == i;
  }

  /** The value at `i` evaluated but the sink, full, refused it. */
  lemma SnippetFull<T>(evaluate: T -> Result<T, Error>, s: Stream<T>, i: nat, s': Stream<T>)
    requires i < |s.pending| && i == Room(s.sink)
    requires forall j | 0 <= j <= i :: evaluate(s.pending[j]).Ok?
    requires s'.sink == Sink(s.sink.pushed + Results(evaluate, s.pending[..i]), s.sink.cutoff)
    ensures SnippetResult(evaluate, s, Pass, s')
  {
    assert Accepted(evaluate, s.pending) > i;
  }

  /** The loop of `Eval.Snippet`: each upstream value is bound to the input
      variable and the program evaluated (`evaluate`); results are pushed in
      order. An evaluation error ends it with that error, a refused push or the
      end of upstream without error. */
  method Snippet<T>(evaluate: T -> Result<T, Error>, s: Stream<T>) returns (res: Outcome<Error>, s': Stream<T>)
    ensures SnippetResult(evaluate, s, res, s')
  {
    var cur := s;
    var i := 0;
    while true
      invariant 0 <= i <= |s.pending| && i <= Room(s.sink)
      invariant forall j | 0 <= j < i :: evaluate(s.pending[j]).Ok?
      invariant cur.pending == s.pending[i..]
      invariant cur.sink.pushed == s.sink.pushed + Results(evaluate, s.pending[..i])
      invariant cur.sink.cutoff == s.sink.cutoff
      invariant Room(cur.sink) == Room(s.sink) - i
      decreases |cur.pending|
    {
      var next := Next(cur);
      if next.0.None? {
        SnippetDrained(evaluate, s, cur);
        return Pass, cur;
      }
      var result := evaluate(next.0.value);
      if result.Err? {
        SnippetFailed(evaluate, s, i, next.1);
        return Fail(result.error), next.1;
      }
      var pushed := Push(next.1.sink, result.value);
      if !pushed.0 {
        SnippetFull(evaluate, s, i, next.1);
        return Pass, next.1;
      }
      ResultsSnoc(evaluate, s.pending, i);
      cur := Stream(next.1.pending, pushed.1);
      i := i + 1;
    }
  }
}
