/** codec.go: input and output format names, format detection from a file
    name, the choice of decoder, and the stages that read documents into a
    stream and write a stream out as JSON lines or as YAML documents. The
    decoders, `json.Compact` and the YAML encoder are parameters. */
module Codec {
  import opened Wrappers
  import opened Text
  import opened IO
  import opened Streams
  import RawValues

  type RawValue = RawValues.RawValue

  /** `Format`: an input format. `Auto` (0) asks for detection. */
  datatype Format = Auto | YAML | JSON | JSONNET

  /** `FormatFromString`: the format named by `s`, ignoring case; names it
      does not know give `Auto`. */
  function FormatFromString(s: string): (f: Format)
    ensures f == JSON <==> ToLower(s) in ["json", "j"]
    ensures f == YAML <==> ToLower(s) in ["yaml", "y"]
    ensures f != JSONNET
  {
    var l := ToLower(s);
    if l == "json" || l == "j" then JSON
    else if l == "yaml" || l == "y" then YAML
    else Auto
  }

  /** Case does not matter: a name and its lower-case form name the same format. */
  lemma FormatFromStringIgnoresCase(s: string)
    ensures FormatFromString(s) == FormatFromString(ToLower(s))
  {
    ToLowerIdempotent(s);
  }

  lemma FormatNames()
    ensures FormatFromString("JSON") == JSON && FormatFromString("J") == JSON
    ensures FormatFromString("Yaml") == YAML && FormatFromString("y") == YAML
    ensures FormatFromString("yml") == Auto && FormatFromString("") == Auto
  {
    JsonFormatNames();
    YamlFormatNames();
    UnknownFormatNames();
  }

  lemma UnknownFormatNames()
    ensures FormatFromString("yml") == Auto && FormatFromString("") == Auto
  {
    assert ToLower("yml") == "yml";
  }

  lemma JsonFormatNames()
    ensures FormatFromString("JSON") == JSON && FormatFromString("J") == JSON
  {
    assert ToLower("JSON") == "json";
    assert ToLower("J") == "j";
  }

  lemma YamlFormatNames()
    ensures FormatFromString("Yaml") == YAML && FormatFromString("y") == YAML
  {
    assert ToLower("Yaml") == "yaml";
    assert ToLower("y") == "y";
  }

  /** `DetectFormat`: the format a file name's extension implies; YAML unless
      the extension says JSON or Jsonnet. */
  function DetectFormat(filename: string): (f: Format)
    ensures f != Auto
    ensures f == JSON <==> Ext(filename) == ".json"
    ensures f == JSONNET <==> Ext(filename) in [".jsonnet", ".libsonnet"]
  {
    var e := Ext(filename);
    if e == ".json" then JSON
    else if e == ".jsonnet" || e == ".libsonnet" then JSONNET
    else YAML
  }

  /** Only the last extension counts, whatever precedes it. */
  lemma DetectFormatBySuffix(p: string, e: string)
    requires IsExtension(e)
    ensures DetectFormat(p + e) == DetectFormat(e)
    ensures e == ".json" ==> DetectFormat(p + e) == JSON
    ensures e == ".jsonnet" || e == ".libsonnet" ==> DetectFormat(p + e) == JSONNET
    ensures e != ".json" && e != ".jsonnet" && e != ".libsonnet" ==> DetectFormat(p + e) == YAML
  {
    ExtOfSuffix(p, e);
    ExtOfSuffix([], e);
    assert [] + e == e;
  }

  /** An earlier extension is ignored, and so is a directory name's. */
  lemma DetectFormatLastElement(p: string)
    ensures DetectFormat(p + ".json.txt") == YAML
    ensures DetectFormat(p + ".json/") == YAML
  {
    ExtOfSuffix(p + ".json", ".txt");
    assert p + ".json.txt" == (p + ".json") + ".txt";
    var q := p + ".json/";
    assert q[|q| - 1] == '/';
    assert Ext(q) == [];
  }

  /** `Output`: an output format; `OutputInvalid` is -1. */
  datatype Output = OutputInvalid | OutputYAML | OutputJSON | OutputRaw

  /** `OutputFromString`: the output named by `s`, ignoring case; names it
      does not know give `OutputInvalid`. */
  function OutputFromString(s: string): (o: Output)
    ensures o == OutputJSON <==> ToLower(s) in ["json", "j"]
    ensures o == OutputYAML <==> ToLower(s) in ["yaml", "y"]
    ensures o == OutputRaw <==> ToLower(s) in ["raw", "r"]
  {
    var l := ToLower(s);
    if l == "json" || l == "j" then OutputJSON
    else if l == "yaml" || l == "y" then OutputYAML
    else if l == "raw" || l == "r" then OutputRaw
    else OutputInvalid
  }

  lemma OutputFromStringIgnoresCase(s: string)
    ensures OutputFromString(s) == OutputFromString(ToLower(s))
    ensures FormatFromString(s) == JSON <==> OutputFromString(s) == OutputJSON
    ensures FormatFromString(s) == YAML <==> OutputFromString(s) == OutputYAML
  {
    ToLowerIdempotent(s);
  }

  lemma OutputNames()
    ensures OutputFromString("RAW") == OutputRaw && OutputFromString("r") == OutputRaw
    ensures OutputFromString("Json") == OutputJSON && OutputFromString("text") == OutputInvalid
  {
    RawOutputNames();
    OtherOutputNames();
  }

  lemma OtherOutputNames()
    ensures OutputFromString("Json") == OutputJSON && OutputFromString("text") == OutputInvalid
  {
    assert ToLower("Json") == "json";
    assert ToLower("text") == "text";
  }

  lemma RawOutputNames()
    ensures OutputFromString("RAW") == OutputRaw && OutputFromString("r") == OutputRaw
  {
    assert ToLower("RAW") == "raw";
    assert ToLower("r") == "r";
  }

  datatype DecoderKind = JsonDecoder | YamlDecoder

  /** `NewDecoder`: the JSON decoder for JSON input, the YAML decoder for every
      other format, Jsonnet and `Auto` included. */
  function NewDecoder(f: Format): (d: DecoderKind)
    ensures d == JsonDecoder <==> f == JSON
  {
    if f == JSON then JsonDecoder else YamlDecoder
  }

  /** The format `ReadFromFile` reads a file in: the given one, or the one its
      name implies when the given one is `Auto`. */
  function ResolveFormat(path: string, f: Format): (r: Format)
    ensures r != Auto
    ensures f != Auto ==> r == f
  {
    if f == Auto then DetectFormat(path) else f
  }

  lemma ResolveFormatDecoder(path: string, f: Format)
    ensures NewDecoder(ResolveFormat(path, f)) == JsonDecoder
        <==> f == JSON || (f == Auto && Ext(path) == ".json")
  {
  }

  /** An input value as the stream carries it: text the decoder gave back
      empty (an empty document) becomes `null`. */
  function NullIfEmpty(v: RawValue): (r: RawValue)
    ensures |r| > 0
    ensures |v| > 0 ==> r == v
    ensures |v| == 0 ==> r == "null" && RawValues.Kind(r) == RawValues.ValueType.Null
  {
    RawValues.MarshalJSON(v)
  }

  function NullIfEmptyAll(vs: seq<RawValue>): (r: seq<RawValue>)
    ensures |r| == |vs| && forall i | 0 <= i < |vs| :: r[i] == NullIfEmpty(vs[i])
  {
    if |vs| == 0 then [] else [NullIfEmpty(vs[0])] + NullIfEmptyAll(vs[1..])
  }

  /** `ReadFromTask` of codec.go: decoded documents pushed in order, each empty
      one as `null`; `EOF` and a refused push end it without error, any other
      decoder error is returned. */
  function ReadFromTask(src: Source<RawValue>, k: Sink<RawValue>): (r: (Outcome<Error>, Sink<RawValue>))
    ensures var n := Min(|src.docs|, Room(k));
            && r.1.cutoff == k.cutoff
            && |r.1.pushed| == |k.pushed| + n
            && r.1.pushed[..|k.pushed|] == k.pushed
            && forall i | 0 <= i < n :: r.1.pushed[|k.pushed| + i] == NullIfEmpty(src.docs[i])
    ensures forall i | |k.pushed| <= i < |r.1.pushed| :: |r.1.pushed[i]| > 0
    ensures r.0 == if |src.docs| > Room(k) || src.end == EOF then Pass else Fail(src.end)
  {
    var docs := NullIfEmptyAll(src.docs);
    var r := ReadFrom(Source(docs, src.end), k);
    assert r.1.pushed == k.pushed + docs[..Min(|docs|, Room(k))];
    r
  }

  /** The file system: opening a path and reading it with a decoder gives the
      documents that decoder finds, or the error `os.Open` reports. */
  type FileSystem = (string, DecoderKind) -> Result<Source<RawValue>, Error>

  /** `ReadFromFile`: the file read with the decoder its resolved format
      calls for; a file that cannot be opened is that error and pushes nothing. */
  function ReadFromFile(fs: FileSystem, path: string, f: Format, k: Sink<RawValue>): (r: (Outcome<Error>, Sink<RawValue>))
    ensures fs(path, NewDecoder(ResolveFormat(path, f))).Err? ==> r == (Fail(fs(path, NewDecoder(ResolveFormat(path, f))).error), k)
    ensures fs(path, NewDecoder(ResolveFormat(path, f))).Ok? ==> r == ReadFromTask(fs(path, NewDecoder(ResolveFormat(path, f))).value, k)
  {
    match fs(path, NewDecoder(ResolveFormat(path, f)))
    case Err(e) => (Fail(e), k)
    case Ok(src) => ReadFromTask(src, k)
  }

  // ---------------------------------------------------------------------------
  // JSON lines.

  /** One output line: the compacted value and a newline. */
  function JsonLine(compact: RawValues.Compactor, v: RawValue): Result<string, Error>
  {
    match compact(v)
    case Err(e) => Err(e)
    case Ok(c) => Ok(c + "\n")
  }

  /** `StreamWriteJSON`: every upstream value compacted and written as one line,
      in order, stopping at the first compaction or write error; the writer is
      closed on every path. */
  method StreamWriteJSON(compact: RawValues.Compactor, w: Writer, s: Stream<RawValue>)
    returns (res: Outcome<Error>, w': Writer, s': Stream<RawValue>)
    ensures w'.closed && ReadOnly(s', s)
    ensures res.Pass? <==> (forall i | 0 <= i < |s.pending| :: compact(s.pending[i]).Ok?) && |s.pending| <= w.budget
    ensures res.Pass? ==> s'.pending == [] && w'.text == w.text + Encoded((v: RawValue) => JsonLine(compact, v), s.pending)
    ensures res.Fail? ==>
              var n := Consumed(s', s) - 1;
              && 0 <= n < |s.pending|
              && (forall i | 0 <= i < n :: compact(s.pending[i]).Ok?)
              && w'.text == w.text + Encoded((v: RawValue) => JsonLine(compact, v), s.pending[..n])
              && res.error == (if compact(s.pending[n]).Err? then compact(s.pending[n]).error else WriteFailed)
  {
    var line := (v: RawValue) => JsonLine(compact, v);
    assert forall v :: line(v).Ok? <==> compact(v).Ok?;
    res, w', s' := StreamWriteTo(line, w, s);
  }

  /** The lines of a text: the pieces between newlines, a last piece without a
      newline included. */
  function Lines(t: string): seq<string>
    decreases |t|
  {
    if |t| == 0 then []
    else
      match Cut(t, '\n')
      case None => [t]
      case Some((a, b)) => [a] + Lines(b)
  }

  lemma LinesCons(a: string, b: string)
    requires '\n' !in a
    ensures Lines(a + "\n" + b) == [a] + Lines(b)
  {
    var t := a + "\n" + b;
    assert t == a + ['\n'] + b;
    var c := Cut(t, '\n');
    assert c.Some?;
    var (x, y) := c.value;
    assert t[..|a|] == a && t[|a|] == '\n';
    assert |x| == |a|;
    assert x == t[..|a|];
    assert y == t[|a| + 1..];
  }

  /** Reading the JSON-lines output back line by line gives the compacted
      values, one per line, in input order, provided compaction leaves no raw
      newline (it removes all insignificant white space, and a newline inside
      a string is escaped). */
  lemma {:induction false} JsonLinesRoundTrip(compact: RawValues.Compactor, vs: seq<RawValue>)
    requires forall i | 0 <= i < |vs| :: compact(vs[i]).Ok? && '\n' !in compact(vs[i]).value
    ensures var line := (v: RawValue) => JsonLine(compact, v);
            var ls := Lines(Encoded(line, vs));
            |ls| == |vs| && forall i | 0 <= i < |vs| :: ls[i] == compact(vs[i]).value
    decreases |vs|
  {
    var line := (v: RawValue) => JsonLine(compact, v);
    if |vs| > 0 {
      EncodedCons(line, vs);
      JsonLinesRoundTrip(compact, vs[1..]);
      LinesCons(compact(vs[0]).value, Encoded(line, vs[1..]));
      assert Encoded(line, vs) == compact(vs[0]).value + "\n" + Encoded(line, vs[1..]);
    }
  }

  // ---------------------------------------------------------------------------
  // YAML documents.

  /** The YAML document marker written between documents. */
  const DocSeparator: string := "---\n"

  /** The text after one more document: a separator unless it is the first. */
  lemma JoinStep(sep: string, docs: seq<string>, d: string, text: string)
    ensures |docs| > 0 ==> text + Join(sep, docs) + sep + d == text + Join(sep, docs + [d])
    ensures |docs| == 0 ==> text + Join(sep, docs) + d == text + Join(sep, docs + [d])
  {
    if |docs| > 0 {
      JoinSnoc(sep, docs, d);
      assert text + Join(sep, docs) + sep + d == text + (Join(sep, docs) + sep + d);
    } else {
      assert docs + [d] == [d];
    }
  }

  /** Write calls needed for `n` documents: one per document and one per
      separator. */
  function YamlWrites(n: nat): nat
  {
    if n == 0 then 0 else 2 * n - 1
  }

  /** `StreamWriteYAML`: each upstream value encoded as its own YAML document,
      with the document marker written before every document but the first;
      it stops at the first encode or write error, and the writer is closed on
      every path. */
  method StreamWriteYAML<T>(encode: T -> Result<string, Error>, w: Writer, s: Stream<T>)
    returns (res: Outcome<Error>, w': Writer, s': Stream<T>)
    ensures w'.closed && ReadOnly(s', s)
    ensures res.Pass? <==> (forall i | 0 <= i < |s.pending| :: encode(s.pending[i]).Ok?)
                            && YamlWrites(|s.pending|) <= w.budget
    ensures res.Pass? ==> s'.pending == [] && w'.text == w.text + Join(DocSeparator, Results(encode, s.pending))
    ensures res.Fail? ==> SeparatedFailure(DocSeparator, encode, w, s.pending, Consumed(s', s) - 1, res, w'.text)
  {
    res, w', s' := WriteSeparated(DocSeparator, encode, w, s);
  }

  /** How a run of separated documents fails at document `n`: every earlier
      document encoded and was written, and `n` is the first that could not be
      encoded or written. The text is the earlier documents joined by `sep`,
      followed by the separator when it could still be written; the error is
      the encoder's when the encoder was reached and failed, `WriteFailed`
      otherwise. */
  ghost predicate SeparatedFailure<T>(sep: string, encode: T -> Result<string, Error>, w: Writer, docs: seq<T>,
                                      n: int, res: Outcome<Error>, text: string)
  {
    && 0 <= n < |docs|
    && (forall i | 0 <= i < n :: encode(docs[i]).Ok?)
    && YamlWrites(n) <= w.budget
    && !(encode(docs[n]).Ok? && YamlWrites(n + 1) <= w.budget)
    && text == w.text + Join(sep, Results(encode, docs[..n])) + (if n > 0 && YamlWrites(n) < w.budget then sep else "")
    && res == Fail(if (n == 0 || YamlWrites(n) < w.budget) && encode(docs[n]).Err? then encode(docs[n]).error
                   else WriteFailed)
  }

  /** The failing document is determined by the documents and the budget. */
  lemma SeparatedFailureUnique<T>(sep: string, encode: T -> Result<string, Error>, w: Writer, docs: seq<T>,
                                  n: int, res: Outcome<Error>, text: string, m: int, res': Outcome<Error>, text': string)
    requires SeparatedFailure(sep, encode, w, docs, n, res, text)
    requires SeparatedFailure(sep, encode, w, docs, m, res', text')
    ensures n == m && res == res' && text == text'
  {
  }

  /** What the loop of `StreamWriteYAML` leaves, for separator `sep`: the
      writer closed and only upstream read. It succeeds exactly when every
      value encodes and the writer takes all the writes, having written the
      documents joined by `sep`; otherwise it stops at the first value that
      fails, with the documents before it written, possibly followed by one
      separator, and that value's error (`SeparatedFailure`). */
  ghost predicate WroteSeparated<T>(sep: string, encode: T -> Result<string, Error>, w: Writer, s: Stream<T>,
                                    res: Outcome<Error>, w': Writer, s': Stream<T>)
  {
    && w'.closed && ReadOnly(s', s)
    && (res.Pass? <==> (forall i | 0 <= i < |s.pending| :: encode(s.pending[i]).Ok?)
                        && YamlWrites(|s.pending|) <= w.budget)
    && (res.Pass? ==> s'.pending == [] && w'.text == w.text + Join(sep, Results(encode, s.pending)))
    && (res.Fail? ==> SeparatedFailure(sep, encode, w, s.pending, Consumed(s', s) - 1, res, w'.text))
  }

  /** Upstream ran out with every document written. */
  lemma SeparatedAll<T>(sep: string, encode: T -> Result<string, Error>, w: Writer, s: Stream<T>,
                        w': Writer, s': Stream<T>)
    requires forall i | 0 <= i < |s.pending| :: encode(s.pending[i]).Ok?
    requires YamlWrites(|s.pending|) <= w.budget
    requires w'.closed && w'.text == w.text + Join(sep, Results(encode, s.pending))
    requires s' == Stream([], s.sink)
    ensures WroteSeparated(sep, encode, w, s, Pass, w', s')
  {
  }

  /** The document at `i` could not be encoded, or its separator or itself
      could not be written. */
  lemma SeparatedUpTo<T>(sep: string, encode: T -> Result<string, Error>, w: Writer, s: Stream<T>, i: nat,
                         res: Outcome<Error>, w': Writer, s': Stream<T>)
    requires i < |s.pending| && YamlWrites(i) <= w.budget
    requires forall j | 0 <= j < i :: encode(s.pending[j]).Ok?
    requires !(encode(s.pending[i]).Ok? && YamlWrites(i) + (if i == 0 then 1 else 2) <= w.budget)
    requires w'.closed
    requires w'.text == w.text + Join(sep, Results(encode, s.pending[..i]))
                        + (if i > 0 && YamlWrites(i) < w.budget then sep else "")
    requires res == Fail(if (i == 0 || YamlWrites(i) < w.budget) && encode(s.pending[i]).Err?
                         then encode(s.pending[i]).error else WriteFailed)
    requires s' == Stream(s.pending[i + 1..], s.sink)
    ensures WroteSeparated(sep, encode, w, s, res, w', s')
  {
    assert Consumed(s', s) - 1 == i;
    if encode(s.pending[i]).Ok? {
      assert YamlWrites(|s.pending|) >= YamlWrites(i + 1) > w.budget;
    }
  }

  /** The loop of `StreamWriteYAML`, for any separator. */
  method WriteSeparated<T>(sep: string, encode: T -> Result<string, Error>, w: Writer, s: Stream<T>)
    returns (res: Outcome<Error>, w': Writer, s': Stream<T>)
    ensures WroteSeparated(sep, encode, w, s, res, w', s')
  {
    var cur := s;
    var out := w;
    var i := 0;
    ghost var docs: seq<string> := [];
    while true
      invariant 0 <= i <= |s.pending| && cur.pending == s.pending[i..] && cur.sink == s.sink
      invariant forall j | 0 <= j < i :: encode(s.pending[j]).Ok?
      invariant docs == Results(encode, s.pending[..i]) && |docs| == i
      invariant YamlWrites(i) <= w.budget
      invariant out.text == w.text + Join(sep, docs)
      invariant out.budget == w.budget - YamlWrites(i)
      decreases |cur.pending|
    {
      var next := Next(cur);
      if next.0.None? {
        assert s.pending[..i] == s.pending;
        SeparatedAll(sep, encode, w, s, Close(out), cur);
        return Pass, Close(out), cur;
      }
      var r, out' := WriteDocument(sep, encode, out, i == 0, next.0.value);
      if r.Fail? {
        SeparatedUpTo(sep, encode, w, s, i, r, Close(out'), next.1);
        return r, Close(out'), next.1;
      }
      ResultsSnoc(encode, s.pending, i);
      JoinStep(sep, docs, encode(next.0.value).value, w.text);
      docs := docs + [encode(next.0.value).value];
      out := out';
      cur := next.1;
      i := i + 1;
    }
  }

  /** One document of `WriteSeparated`: the separator unless it is the first
      document, then the document; it stops at the first failed write. */
  method WriteDocument<T>(sep: string, encode: T -> Result<string, Error>, out: Writer, first: bool, x: T)
    returns (res: Outcome<Error>, out': Writer)
    ensures out'.closed == out.closed
    ensures res.Pass? <==> encode(x).Ok? && (if first then 1 else 2) <= out.budget
    ensures res.Pass? && first ==> out'.text == out.text + encode(x).value && out'.budget == out.budget - 1
    ensures res.Pass? && !first ==> out'.text == out.text + sep + encode(x).value && out'.budget == out.budget - 2
    ensures res.Fail? ==> out'.text == if !first && out.budget > 0 then out.text + sep else out.text
    ensures res.Fail? ==> res.error == if (first || out.budget > 0) && encode(x).Err? then encode(x).error else WriteFailed
  {
    out' := out;
    if !first {
      var marker := Write(out', sep);
      if marker.0.Fail? {
        return marker.0, marker.1;
      }
      out' := marker.1;
    }
    var text := encode(x);
    if text.Err? {
      return Fail(text.error), out';
    }
    var written := Write(out', text.value);
    return written.0, written.1;
  }

  /** The framing of a successful YAML output: `n` documents carry `n - 1`
      document markers, and no documents give no output at all. */
  lemma YamlFraming(docs: seq<string>)
    ensures |docs| == 0 ==> Join(DocSeparator, docs) == []
    ensures |docs| > 0 ==> |Join(DocSeparator, docs)| == TotalLength(docs) + 4 * (|docs| - 1)
    ensures |docs| > 1 ==> Join(DocSeparator, docs) == Join(DocSeparator, docs[..|docs| - 1]) + DocSeparator + docs[|docs| - 1]
  {
    JoinLength(DocSeparator, docs);
    if |docs| > 1 {
      assert docs == docs[..|docs| - 1] + [docs[|docs| - 1]];
      JoinSnoc(DocSeparator, docs[..|docs| - 1], docs[|docs| - 1]);
    }
  }
}
