# ycat and yjq, modelled in Dafny

ycat is a command-line YAML/JSON processor. It reads values from files or
standard input, optionally runs them through a Jsonnet snippet, and writes them
as YAML or JSON. yjq wraps jq: YAML input is converted to JSON before jq sees
it, and jq's JSON output can be converted back to YAML.

This project models the sequential core of both programs as pure Dafny
functions and small loop methods, and proves properties of them. The core
covers:

- the value model and the order-preserving JSON codec;
- the stream stages;
- document framing on input and output;
- format and option handling;
- the Jsonnet preamble;
- yjq's value tagging, argument rewriting and conversions.

Foreign code is a parameter of the model. That covers the YAML and JSON
libraries, `json.Compact`, `strconv.Atoi`, the Jsonnet VM and the file system,
each given as a function that may fail.

| file | module | models |
|---|---|---|
| wrappers.dfy | Wrappers | `Option`, `Result`, `Outcome` and the error values |
| text.dfy | Text | `strings.Join`, `path.Ext`, ASCII `strings.ToLower`, the first-index search of `indexOf`, decimal text |
| io.dfy | IO | a writer that takes whole writes until its write budget is spent, and a decoder as the documents it yields plus the error that ends them |
| json_tree.dfy | JsonTree | value.go: `decodeValue`/`decodeArray`/`decodeMap`, `Map.UnmarshalJSON`, `NewMap`, `writeJSON`/`Map.writeJSON`, `Map.MarshalJSONString`/`MarshalJSON` |
| raw_values.dfy | RawValues | value.go: `Kind`, `kindOfJSON`, `RawValue.MarshalJSON`/`Compact`, `RawValueArray`, `RawValue.UnmarshalYAML`/`MarshalYAML` |
| streams.dfy | Streams | stream.go: `Next`, `Push`, `Drain`, `ToArray`, `NullStream`, `ProducerFunc.Run`, `Producers.Produce`, `ReadFromTask`, `StreamWriteTo` |
| codec.dfy | Codec | codec.go: format names and detection, decoder choice, `ReadFromFile`, `ReadFromTask`, `StreamWriteJSON`, `StreamWriteYAML` |
| arguments.dfy | Arguments | arguments.go: `Parse`, `parseLong`, `parseShort`, `shiftArgV`, `splitArgV`, `parseFiles`, `isOption`, `addFile` |
| jsonnet.dfy | Jsonnet | eval.go: `AddVar`, `Var.Render`, `Eval.Render`, `bindVar`, the `Snippet` loop |
| yjq.dfy | Yjq | yjq.go: `positionalArgsIndex`, `preProcessArgs`, `appendPairArgs`, `hasYAMLInputFile`, `sanitizeFlags`, `rewriteArgs` |
| yjq_value.dfy | YjqValue | internal/yjq/value.go: `ValueType`, `TypeOf`, `IsZero`, `UnmarshalJSON`, `UnmarshalYAML` |
| yjq_io.dfy | YjqIO | internal/yjq/io.go: `CopyFile`, `CopyYAMLToJSON`, `CopyJSONToYAML` |

A stream stage sees two things:

- the upstream values it has not read yet;
- a sink that accepts a fixed number of further pushes and refuses every push
  after that. This models the `done` channel firing.

A writer accepts a write whole or fails it with `WriteFailed`.

## Model

| member | source | states |
|---|---|---|
| RawValues.Ordinal | value.go:398-410 | `Invalid` is -1, `Null` is 0, and the constants stay within -1..5 |
| RawValues.OrdinalInjective | value.go:402-410 | distinct value types have distinct constants |
| RawValues.KindOfJSON | value.go:430-450 | `{` is Object, `[` Array, `"` String, `t`/`f` Boolean, `n` Null, and `.` or an ASCII digit Number, each an if-and-only-if; every other byte is Invalid, because the byte subtraction wraps |
| RawValues.KindOfJSONDepartures | value.go:442-448 | a leading `-` is Invalid and a leading `.` is Number, unlike section 6 of RFC 8259; leading whitespace is Invalid |
| RawValues.Kind | value.go:17-22 | empty text is Invalid; otherwise the kind of the first byte |
| RawValues.KindByFirstByte | value.go:17-22 | two texts with the same first byte have the same kind, and appending text never changes the kind |
| RawValues.WrittenKind | value.go:297-358 | the JSON written for an array is classified Array, for a map Object |
| RawValues.MarshalJSON | value.go:33-38 | empty text becomes exactly `null`, which is classified Null; any other text is returned unchanged |
| RawValues.MarshalJSONIdempotent | value.go:33-38 | marshalling twice is marshalling once, and a valid kind is kept |
| RawValues.Compact | value.go:44-54 | empty text is returned without calling the compactor; other text gets exactly the compactor's result |
| RawValues.CompactIdempotent | value.go:44-47 | with an idempotent compactor, compacting a compacted value changes nothing |
| RawValues.ArrayTextLength | value.go:57-63 | the array text is 2 + the total length + (n - 1) commas long, and `[]` for no values |
| RawValues.RawValueArray | value.go:57-73 | the builder loop yields `[` + the values joined by `,` + `]`, classified Array, within the reserved size |
| RawValues.Capacity | value.go:59-62 | the capacity reserved before building is the element count plus two plus the total length of the elements |
| RawValues.UnmarshalYAML | value.go:115-159 | the first decoding that succeeds decides: an array is written as a JSON array (a nil one as `[]`), a map through the map writer (a nil one as `{}`), a boolean as `true`/`false`, a float as the node's string text when it also reads as a string and otherwise as the encoder's text for the float, a string as the encoder's text for it; when every decoding fails, the string decoding's error is returned |
| RawValues.NilContainersReadEmpty | value.go:117-132 | a nil slice or map gives the same text as an empty one, `[]` or `{}` |
| RawValues.UnmarshalYAMLTrialOrder | value.go:115-142 | the result's kind is that of the first decoding that succeeded: array, then map, then boolean |
| RawValues.UnmarshalYAMLFirstSuccessDecides | value.go:115-142 | once an earlier decoding succeeds, later decodings do not affect the result |
| RawValues.NegativeFloatKeepsText | value.go:143-149 | a float that also decodes as a string keeps the string's text, so `-1` comes out as text classified Invalid |
| RawValues.MarshalYAML | value.go:94-112 | empty text gives nil; a decoding error is returned; a tree handed on is a decoded tree that is not a bare number |
| RawValues.MarshalYAMLDecodes | value.go:94-112 | a decoded tree reaches the YAML encoder unchanged; a top-level number is handed on as a float of its text |
| JsonTree.DecodeValue | value.go:227-264 | no tokens is EOF; a closing delimiter where a value belongs is an error; `null` is nil; a success consumes a proper prefix and yields a decoded tree |
| JsonTree.DecodeArray | value.go:190-201 | the elements so far are kept as a prefix, every new element is a decoded tree, and a proper prefix of the tokens is consumed |
| JsonTree.DecodeMap | value.go:203-223 | entries so far are kept as a prefix; a key token that is not a string is an error |
| JsonTree.DecodeEntry | value.go:213-217 | after a string key the value is decoded and the loop goes on; the entries so far stay a prefix, every new entry is decoded, and a proper suffix of the tokens is left |
| JsonTree.UnmarshalMap | value.go:267-287 | `null` gives the nil map, and only `null` does; `{` gives a decoded non-nil map; a scalar or any other delimiter is an error |
| JsonTree.NewMap | value.go:165-178 | the pairs become entries in order, and a trailing odd argument is dropped; no pairs gives a non-nil empty map |
| JsonTree.DecodeRoundTrip | value.go:227-264 | decoding the tokens of any decoded tree gives back that tree and leaves the following tokens untouched |
| JsonTree.DecodeItemsRoundTrip | value.go:190-201 | the tokens of a list of elements, then `]`, decode to those elements in order |
| JsonTree.ArrayStep | value.go:191-196 | while more elements follow, one element is decoded and appended |
| JsonTree.CloseStep | value.go:198-221 | a closing delimiter ends an array or map and is consumed |
| JsonTree.MapStep | value.go:204-217 | while more entries follow, a string key and its value are decoded and appended |
| JsonTree.DecodeEntriesRoundTrip | value.go:203-223 | the tokens of a list of entries, then `}`, decode to those entries in stored order |
| JsonTree.DecodeEntryValueRoundTrip | value.go:213-217 | an entry's value decodes back from its tokens |
| JsonTree.MapRoundTrip | value.go:267-287 | unmarshalling the tokens of any decoded map gives back the map, with key order kept |
| JsonTree.WriteJSON | value.go:329-365 | a nil slice or nil Map goes to the encoder as nil; a nil MapSlice is written `{}` |
| JsonTree.WriteItems | value.go:346-356 | succeeds iff every element can be written; then gives each element's text in order; otherwise gives one element's error |
| JsonTree.WriteEntry | value.go:310-324 | an entry whose key is not a string is the invalid-key error |
| JsonTree.WriteEntries | value.go:304-325 | succeeds iff every entry can be written; then gives each entry's text in stored order; otherwise gives one entry's error |
| JsonTree.MarshalMap | value.go:373-396 | a nil map is `null`; any other map is written by the map writer |
| JsonTree.NonStringKeyFails | value.go:311-315 | one non-string key anywhere makes writing the whole map fail |
| JsonTree.ObjectWrittenInOrder | value.go:297-328 | a written map is `{`, then its entries' texts in stored order separated by commas, then `}` |
| JsonTree.WrittenEntriesAppend | value.go:304-325 | splitting the entries splits the text at a comma, and the earlier entries come first |
| JsonTree.DecodedValuesWrite | value.go:329-365 | with an encoder that accepts every leaf, every decoded tree can be written |
| JsonTree.DecodedEntryWrites | value.go:310-324 | with such an encoder, every decoded entry can be written |
| JsonTree.EmptyMapWritten | value.go:297-328 | an empty non-nil map is written `{}` |
| JsonTree.SingleEntryWritten | value.go:297-328 | a one-entry map is `{`, the key's text, `:`, the value's text, `}` |
| JsonTree.NilAndEmptyMapsDiffer | value_test.go:22-24 | a nil map encodes as `null`, an empty map as `{}`, and a nil nested MapSlice as `{}` |
| JsonTree.NestedDecodes | value_test.go:50 | the tokens of `{"a":{"b":"c"}}` unmarshal to the nested map |
| JsonTree.NestedWrites | value.go:297-328 | with a leaf encoder that writes a string as its quoted text and nothing more (`PlainEncoder`; Go's `json.Encoder.Encode` also appends a newline after each key and leaf), the nested map is written back as `{"a":{"b":"c"}}` |
| JsonTree.NestedMapRoundTrip | value_test.go:50 | with the same newline-free leaf encoder (`PlainEncoder`), decode-then-encode reproduces `{"a":{"b":"c"}}` for any strings a, b and c that need no escaping |
| JsonTree.EmptyAndNullMapRoundTrip | value_test.go:52-53 | `{}` and `null` survive decode-then-encode unchanged |
| Streams.Push | stream.go:77-84 | a push is accepted iff there is room; an accepted value is appended to the sink, and a refused push changes nothing |
| Streams.RefusedStaysRefused | stream.go:77-84 | once a push is refused, every later push is refused too |
| Streams.Next | stream.go:67-75 | reports exhaustion iff no upstream value is left; otherwise yields the first one and consumes it |
| Streams.Drain | stream.go:166-177 | true iff all upstream fits downstream; forwards the upstream values unchanged and in order, and stops after the first refused push |
| Streams.DrainForwardsPrefix | stream.go:166-177 | what `Drain` adds downstream is a prefix of the upstream values |
| Streams.ToArray | stream.go:149-164 | always succeeds and reads all upstream; no input pushes nothing; n > 0 inputs push one array of all of them in arrival order |
| Streams.NullStream | stream.go:138-141 | pushes one null value and succeeds even when the push is refused |
| Streams.ProducerRun | stream.go:41-44 | the producer runs on the sink after the drain, cut off or not; a producer that only appends leaves the drained values ahead of its own |
| Streams.Produce | stream.go:52-59 | no producers pass; a failing first producer's result is the result |
| Streams.ProduceOnlyPushes | stream.go:52-59 | producers that only append, run in sequence, only append |
| Streams.ProduceAppend | stream.go:52-59 | running a + b is running a, then b only if a passed |
| Streams.ProduceStopsAtFirstError | stream.go:52-59 | the first failing producer's result is the result, and no later producer runs |
| Streams.ReadFrom | stream.go:101-118 | decoded values are pushed in order up to the sink's room; EOF and a refused push pass, any other decoder error fails |
| Streams.ReadFromTaskOnlyPushes | stream.go:101-118 | a reading task only appends to the sink |
| Streams.StreamWriteTo | stream.go:120-134 | passes iff every value encodes and fits the writer; then the output is the encodings in order; on failure it is the encodings before the failing value, and the error is that value's; the writer is closed on every path |
| Codec.FormatFromString | codec.go:26-35 | JSON iff the lower-cased name is `json` or `j`, YAML iff it is `yaml` or `y`, never JSONNET, otherwise Auto |
| Codec.FormatFromStringIgnoresCase | codec.go:26-35 | a name and its lower-case form give the same format |
| Codec.FormatNames | codec.go:26-35 | `JSON`, `J`, `Yaml` and `y` are recognised; `yml` and the empty name are Auto |
| Codec.DetectFormat | codec.go:38-47 | never Auto; JSON iff the extension is `.json`; JSONNET iff it is `.jsonnet` or `.libsonnet`; YAML otherwise, no extension included |
| Codec.DetectFormatBySuffix | codec.go:38-47 | a path ending in an extension has the format of that extension alone, whatever precedes it: `.json` is JSON, `.jsonnet` and `.libsonnet` Jsonnet, any other YAML |
| Codec.DetectFormatLastElement | codec.go:38-47 | an earlier extension or a directory's extension is ignored |
| Codec.OutputFromString | codec.go:61-72 | JSON, YAML and Raw each exactly for their lower-cased names and initials; anything else is OutputInvalid |
| Codec.OutputFromStringIgnoresCase | codec.go:61-72 | case does not matter, and the input and output names for JSON and YAML agree |
| Codec.OutputNames | codec.go:61-72 | `RAW`, `r` and `Json` are recognised; `text` is invalid |
| Codec.NewDecoder | codec.go:80-87 | the JSON decoder iff the format is JSON; the YAML decoder for every other format |
| Codec.ResolveFormat | codec.go:90-93 | never Auto; an explicit format is kept |
| Codec.ResolveFormatDecoder | codec.go:90-100 | a file is read as JSON iff its format is JSON, or it is Auto and the extension is `.json` |
| Codec.NullIfEmpty | codec.go:117-119 | an empty decoded value becomes exactly `null`; any other value is kept |
| Codec.NullIfEmptyAll | codec.go:109-124 | every decoded value is passed through the empty-to-null rule, in order |
| Codec.ReadFromTask | codec.go:106-126 | the decoded values, with empty ones as `null`, are pushed in order up to the sink's room, and none is empty; EOF and a refused push pass, other errors fail |
| Codec.ReadFromFile | codec.go:90-103 | a file that cannot be opened gives its error and pushes nothing; otherwise it is read with the decoder of its resolved format |
| Codec.StreamWriteJSON | codec.go:129-156 | passes iff every value compacts and fits the writer; then the output is one compacted value plus a newline per value, in order; on failure it stops at the first compact or write error |
| Codec.JsonLinesRoundTrip | codec.go:142-153 | splitting the output at newlines gives back the compacted values, one per line |
| Codec.StreamWriteYAML | codec.go:159-189 | passes iff every value encodes and the writer takes all 2n-1 writes; then the output is the documents joined by `---\n`; on failure the value that failed is the one consumed last, and `SeparatedFailure` gives the text and the error |
| Codec.WriteSeparated | codec.go:166-187 | the same loop, for any separator, with the same exact failure text and error |
| Codec.SeparatedFailureUnique | codec.go:166-187 | the failing document, the text and the error of a failed run are determined by the documents and the writer's budget |
| Codec.WriteDocument | codec.go:174-185 | one document passes iff it encodes and the writer takes the marker (not before the first document) and the document; the text then grows by exactly those; a failure leaves the marker behind exactly when it was written, and its error is the encoder's when the encoder ran and failed, `WriteFailed` otherwise |
| Codec.YamlFraming | codec.go:173-179 | no documents give no output; n documents carry n-1 markers of 4 bytes; the last document follows the last marker |
| Arguments.SplitArgV | arguments.go:75-80 | with no `=`, the whole text and ""; otherwise the text is before + `=` + after, and before holds no `=` |
| Arguments.SplitArgVTrailingEquals | arguments.go:75-80 | a trailing `=` splits the same as no `=` at all |
| Arguments.SplitAtFirst | arguments.go:75-80 | the split is at the first `=`; later ones stay in the value |
| Arguments.IsOptionMeaning | arguments.go:213-215 | an option is longer than one byte, starts with `-`, and is not `--` |
| Arguments.ShiftArgV | arguments.go:177-187 | a non-empty inline value loses one leading `=`; an empty one takes the next argument only if it is not an option; otherwise nothing changes |
| Arguments.AddFile | arguments.go:189-194 | appends one file and changes nothing else |
| Arguments.LeadingFiles | arguments.go:206-208 | counts the arguments before the first option |
| Arguments.ParseFiles | arguments.go:196-211 | an inline path, with one leading `=` removed, is one file; no arguments add the file ""; otherwise the arguments before the first option become files |
| Arguments.TakeFiles | arguments.go:206-210 | the leading non-options become files in order, and parsing resumes at the first option |
| Arguments.ParseLong | arguments.go:88-147 | `--yaml` and `--json` read the following file names in that format; a flag sets its field and consumes nothing; an unknown name is the invalid-option error and consumes nothing; every option only consumes arguments from the front |
| Arguments.LongTakesValue | arguments.go:88-126 | a value-taking option is applied to the value `ShiftArgV` yields: the inline one when present, else the next argument |
| Arguments.SetFlag | arguments.go:127-138 | `--null`, `--to-json` and `--help` set their field; `--array` collects the input before a snippet is set and the results after |
| Arguments.WithValue | arguments.go:90-126 | per option: a non-integer `--max-stack` is an error and an integer one sets the stack size; `--input-var` sets the bound variable; `--import` without a file is an error and with one adds a file variable; `--var` adds a variable; `--eval --` joins the rest with spaces and consumes it, any other value is the snippet; `--output` sets the output and is an error exactly when the name is unknown; on error only the output field may have changed |
| Arguments.VarOption | arguments.go:107-115 | a value starting with `=` binds code without that `=`; any other value binds a string |
| Arguments.VarKinds | arguments.go:107-115 | `name==code` binds code, `name=text` a string, and `name` alone the empty string |
| Arguments.ParseShort | arguments.go:149-175 | `j` and `y` read the following file names as JSON or YAML with the rest of the cluster as the first; `i`, `v`, `e` and `o` behave as `--import`, `--var`, `--eval` and `--output` with the rest of the cluster as inline value; an unknown letter is the invalid-short-option error; an empty cluster changes nothing |
| Arguments.ShortAliasesLong | arguments.go:149-175 | every value-taking short letter is an alias of its long option (`LongName`), the rest of the cluster being the inline value |
| Arguments.ShortFlag | arguments.go:164-169 | `n`, `a` and `h` set the null-input, array and help flag respectively, and nothing else changes |
| Arguments.ShortFlagCluster | arguments.go:163-168 | a cluster of `n`, `a` and `h` sets exactly the flags it contains and consumes no argument |
| Arguments.Parse | arguments.go:48-73 | no arguments change nothing; `--` makes every remaining argument a file and stops |
| Arguments.ParseOption | arguments.go:51-63 | an option consumes only arguments after it |
| Arguments.Continue | arguments.go:48-49 | parsing stops at the first error |
| Arguments.ParsePlainFiles | arguments.go:48-73 | an argument list with no option becomes that list of files, detected format, in order |
| Arguments.ParseFileStep | arguments.go:66-68 | a non-option argument is added as a file and parsing goes on |
| Arguments.DashArguments | arguments.go:52-58 | `-` alone is a file; `--` turns the rest into files |
| Arguments.ParseOptionStep | arguments.go:51-63 | an option is parsed, then parsing goes on with what it left |
| Arguments.LongOption | arguments.go:60-62 | `--name` is an option, parsed as the long option `name` with no inline value |
| Arguments.UnknownOptionStops | arguments.go:143-144 | an unknown long option ends parsing with its error, whatever follows |
| Arguments.UnknownShortOptionStops | arguments.go:170-171 | an unknown letter at the head of a cluster ends parsing with its error |
| Arguments.LongValue | arguments.go:177-187 | a value option without an inline value takes the next non-option argument |
| Arguments.LongFlag | arguments.go:127-138 | a long flag sets its field and parsing goes on with the next argument |
| Arguments.LongEval | arguments.go:116-121 | `--eval snippet` sets the snippet from the next argument |
| Arguments.ArrayBeforeEval | arguments.go:133-138 | `--array` before `--eval` asks for the input to be collected |
| Arguments.ArrayAfterEval | arguments.go:133-138 | `--array` after `--eval` asks for the results to be collected |
| Arguments.EvalDoubleDash | arguments.go:117-120 | `--eval --` makes the rest of the line, joined by spaces, the snippet and ends parsing |
| Jsonnet.AddVar | eval.go:41-46 | creates the map when it is nil; binds the name; other bindings and fields are unchanged |
| Jsonnet.AddVarReplaces | eval.go:41-46 | adding a name twice keeps only the second binding |
| Jsonnet.ImportKeyword | eval.go:55-62 | one of the three import forms; `importyaml` iff the extension is `.yaml` or `.yml` |
| Jsonnet.ImportMatchesDetectFormat | eval.go:55-62 | code is imported with `import` exactly for the files ycat itself reads as JSON or Jsonnet |
| Jsonnet.RenderVar | eval.go:49-71 | `local name = `, then for a file its import form, the path and `";\n`, otherwise `std.extVar("name");\n` |
| Jsonnet.BindVar | eval.go:114-119 | a non-empty name is kept, the empty one becomes the default `x`; the result is never empty |
| Jsonnet.BindVarIdempotent | eval.go:114-119 | a name already chosen is kept: applying it twice is applying it once, and the result is `x` exactly for the empty name and `x` itself |
| Jsonnet.StdLibLine | eval.go:80 | the standard library binding is `local _ = std.extVar("_");\n` |
| Jsonnet.VarLines | eval.go:76-78 | one binding per variable, in the enumeration's order |
| Jsonnet.Preamble | eval.go:74-81 | the variable bindings, then `_`, then the input variable |
| Jsonnet.PreambleBindsEveryVar | eval.go:76-78 | every variable of the environment has its binding, and no name is bound twice |
| Jsonnet.Render | eval.go:74-84 | the preamble, then the snippet verbatim |
| Jsonnet.Snippet | eval.go:136-151 | results are pushed in order; the first evaluation error is returned; exhausted input and a refused push pass |
| Yjq.PositionalArgsIndex | yjq.go:304-313 | -1 iff neither `--args` nor `--jsonargs` occurs; otherwise the position of one of them |
| Text.IndexOf | yjq.go:207-214 | -1 iff absent; otherwise the first index holding the value |
| Yjq.PreProcessArgs | yjq.go:314-348 | never longer than the input; keeps the first argument; the result is in paired form |
| Yjq.PreProcessNameAtEnd | yjq.go:331-343 | a pair option whose name without `=` is the last argument becomes `opt name=` |
| Yjq.PreProcessKeepsNamedValue | yjq.go:331-343 | a pair option whose argument holds `=` is kept with it, and the rest is pre-processed on its own |
| Yjq.PreProcessKeepsPlain | yjq.go:324-331 | any other argument before `--` is kept, and the rest is pre-processed on its own |
| Yjq.PreProcessKeepsPaired | yjq.go:314-348 | arguments already in paired form are left alone |
| Yjq.PreProcessIdempotent | yjq.go:314-348 | pre-processing twice is pre-processing once |
| Yjq.PreProcessMergesPair | yjq.go:331-343 | `opt name value` becomes `opt name=value` |
| Yjq.PreProcessStopsAtDoubleDash | yjq.go:328-330 | nothing after `--` is rewritten |
| Yjq.PairTriple | yjq.go:296-298 | a pair gives no arguments exactly when it has no `=`; otherwise the option, then a name without `=` and a value that rejoin with `=` into the pair |
| Yjq.PairArgs | yjq.go:294-302 | at most three arguments per pair, a multiple of three in all; the exact arguments are given per pair by `PairArgsOne` and in order by `PairArgsAppend` |
| Yjq.AppendPairArgs | yjq.go:294-302 | the arguments so far are a prefix, and the pair triples follow |
| Yjq.PairArgsOne | yjq.go:295-298 | a pair `name=value` whose name has no `=` gives exactly `opt name value`, and a pair with no `=` gives nothing |
| Yjq.PairArgsAppend | yjq.go:295-299 | pairs are handled one at a time, in order |
| Yjq.PairRoundTrip | yjq.go:294-302 | what pre-processing merges, the rewrite splits back into the original three arguments |
| Yjq.HasYAMLInputFile | yjq.go:350-358 | true iff some file has extension `.yaml` or `.yml` |
| Yjq.SanitizeFlags | yjq.go:360-375 | null input turns YAML input off; YAML output forces compact, monochrome and unbuffered on and clears seq, color, raw, join, tab and indent; nothing else changes |
| Yjq.SanitizeIdempotent | yjq.go:360-375 | sanitizing twice is sanitizing once |
| Yjq.AllSwitchesListed | yjq.go:230-277 | every switch is in the group before `--indent` exactly when it ranks no later than `--tab`, and in the group after it otherwise |
| Yjq.SwitchesOn | yjq.go:230-277 | a switch is kept iff it is listed and on, and the order is preserved |
| Yjq.LeadingSwitches | yjq.go:230-250 | exactly the switches up to `--tab` that are on, in command-line order; `--tab`, when on, is the last of them |
| Yjq.TrailingSwitches | yjq.go:254-277 | exactly the switches after `--tab` that are on, in command-line order; `--color-output`, when on, is the first of them |
| Yjq.Switches | yjq.go:230-277 | exactly the switches that are on, each once, in jq command-line order |
| Yjq.IndentArgs | yjq.go:251-253 | nothing iff the width is not positive; otherwise `--indent` and the decimal text of the width |
| Yjq.SwitchArgs | yjq.go:230-277 | the names of the leading switches, then the indent arguments, then the names of the trailing switches; with a positive width `--indent` sits right after the leading switches and is followed by the width's decimal text |
| Yjq.IndentBetweenTabAndColor | yjq.go:248-256 | with a positive width, `--indent` comes right after `--tab` and `--color-output` right after the width |
| Yjq.SwitchArgsWithoutIndent | yjq.go:230-277 | without a positive width the switch part is every switch that is on, in command-line order |
| Yjq.IndentBeforeSortKeys | yjq.go:251-268 | with `--sort-keys` the only switch and width 2 the switch part is `--indent 2 --sort-keys` |
| Yjq.Repeat | yjq.go:278-290 | the option before every value, in order |
| Yjq.RewriteArgs | yjq.go:216-292 | `--help` wins over `--version`, which wins over `--run-tests` and its optional file; otherwise four consecutive sections: the switch part (indent included), `-L` before every module directory, the pair options in the order `--arg`, `--argjson`, `--slurpfile`, `--rawfile`, `--argfile`, and `--from-file` before every filter file |
| Yjq.YamlOutputSwitches | yjq.go:360-375 | with YAML output, jq is asked for compact, monochrome, unbuffered output with no indent |
| YjqValue.Code | internal/yjq/value.go:5-14 | `Null` is 0, and only `Null`; the others stay within 1..5 |
| YjqValue.CodeInjective | internal/yjq/value.go:5-14 | distinct tags have distinct codes |
| YjqValue.TypeOf | internal/yjq/value.go:45-63 | each of the five JSON shapes gets its own tag, each an if-and-only-if; nil and every other type get `Null` |
| YjqValue.IsZero | internal/yjq/value.go:78-80 | a value is zero iff its tag's code is 0 |
| YjqValue.UnmarshalJSON | internal/yjq/value.go:64-72 | a decoding error leaves the value as it was; otherwise the tag agrees with the decoded value |
| YjqValue.UnmarshalJSONZero | internal/yjq/value.go:64-80 | a decoded JSON value is zero iff it is nil or of a type outside the JSON shapes |
| YjqValue.UnmarshalYAML | internal/yjq/value.go:84-117 | passes iff some type decodes; the first in object, array, boolean, number, string order fixes the value; otherwise the value is unchanged and the string attempt's error is returned |
| YjqValue.UnmarshalYAMLFirstSuccess | internal/yjq/value.go:84-117 | the tag is the earliest accepting type, each an if-and-only-if |
| YjqValue.YamlAndJsonTagsAgree | internal/yjq/value.go:64-117 | a YAML-decoded value and the same value decoded back from JSON carry the same tag |
| YjqIO.Copied | internal/yjq/io.go:30-41 | how many documents get through: all encodable, within the writer's budget, and stopped by a rejection or the budget |
| YjqIO.CopiedIsMin | internal/yjq/io.go:30-41 | that count is the smaller of the encoder's accepted run and the remaining writes |
| YjqIO.CopyYAMLToJSON | internal/yjq/io.go:27-42 | the first k documents are written in order; then the encoder's error, a write failure, the decoder's error, or success at EOF |
| YjqIO.CopyYAMLToJSONOutput | internal/yjq/io.go:27-42 | passes iff the input ends at EOF and every document encodes and fits; then the output is the encodings in order |
| YjqIO.YamlDocument | internal/yjq/io.go:66-80 | a Null document is a bare newline and never reaches the encoder; others are encoded |
| YjqIO.NullSkipsEncoder | internal/yjq/io.go:66-73 | encoders that agree on the non-null documents render identical output |
| YjqIO.CopyJSONToYAML | internal/yjq/io.go:44-85 | passes iff EOF ends the input, every document renders, and the writer takes every write; a pass reports 0 bytes, an error the bytes written; the output is the documents joined by `---\n`; when a document fails, `Codec.SeparatedFailure` gives which one, the text written and the error |
| YjqIO.CopySeparated | internal/yjq/io.go:51-83 | the loop passes iff every document renders and fits; then the output is the documents joined by the separator; on failure some document `n` fails as `Codec.SeparatedFailure` states: the earlier documents joined, the separator when it could still be written, and the render error or `WriteFailed`; output only grows |
| YjqIO.CopyFile | internal/yjq/io.go:12-25 | a file that cannot be opened gives its error and writes nothing; `.yaml`/`.yml` files are converted; any other file is copied verbatim |
| YjqIO.CopyFileOutput | internal/yjq/io.go:18-24 | a successful copy leaves the JSON encodings of a YAML file's documents, or another file's bytes |

## Left out

- pipeline.go and pipelines.go: goroutine-per-stage wiring, channel closing and error fan-in are concurrency. Their sequential content is the stream stages above.
- Go's `select`: when a value is ready and `done` has fired, Go may pick either case. The model always takes the value.
- The process level is outside the model:
  - yjq's `main`, `parseArgs` (getopt), `onExit` and the jq subprocess;
  - cmd/ycat/main.go, `Arguments.Run`, and the exit-status helpers.
- Foreign libraries are function parameters, and their output is not modelled:
  - encoding/json and gopkg.in/yaml.v2 (`json.Compact`, `Encoder.Encode`, the YAML decoders and encoders);
  - the Jsonnet VM (`Eval.VM`, `EvaluateSnippet`);
  - `strconv.Atoi`.
- `strconv.Itoa` in `rewriteArgs` is the model's own decimal rendering, proved to read back as the same number.
- File I/O (`os.Open`, `ioutil.ReadFile`, `io.Copy`) is a function from a path to contents or an error.
- Writers accept a write whole or fail it. Partial writes, which would make the byte count of `CopyJSONToYAML` include a partial count, are not modelled.
- RawValues.MarshalYAML: a top-level number is handed on as its text and not converted to `float64`.
- The `String` methods of both `ValueType`s, yjq's `Value.MarshalJSON`/`MarshalYAML`, and `Map.MarshalYAML`/`UnmarshalYAML` only hand values to the foreign libraries.
- `MarshalJSONString` and `NewRawValue` for non-map values are the JSON encoder, a parameter.
- yaml.v2 does not call `UnmarshalYAML` for a null node. That is a decoder detail, so the model's YAML trials never describe a null node.
- JsonTree.UnmarshalMap: Go decodes numbers here as float64, because the decoder has no `UseNumber`. The model keeps a number's text and leaves its normalisation to the scalar encoder parameter.
- JsonTree.UnmarshalMap: when decoding fails half-way, Go leaves the entries read so far in the receiver. The model returns only the error. `decodeValue` discards the partial result as well.
- The two `ReadFromTask` functions differ only in element type and in the empty-to-`null` rule. Streams.ReadFrom is the generic one and Codec.ReadFromTask the `RawValue` one.
- eval.go's `Eval` struct has no `Snippet` field, but arguments.go sets `Eval.Snippet`. The model follows arguments.go and gives `Eval` a snippet.
- Arguments.VarOption follows the code: `name==code` binds code and `name=text` a string. ycat's usage text says the reverse.
- Jsonnet.Render: Go's map iteration order is unspecified. The model takes the order as a parameter and proves the result for every enumeration of the keys.
- Integer widths: the model's integers are unbounded. `CopyJSONToYAML`'s `int64` byte count and `--max-stack` do not overflow in the model.
- arguments_test.go calls a function the shown code does not define, so its expected outputs are not used.
