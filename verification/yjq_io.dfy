/** internal/yjq/io.go: the two conversions yjq runs around jq. YAML
    documents become one JSON text each on jq's input; jq's JSON results
    become YAML documents on the output. The decoders are given as the
    documents they yield (`Source`), the encoders as functions that may fail,
    and the writer as `IO.Writer`. */
module YjqIO {
  import opened Wrappers
  import opened Text
  import opened IO
  import opened Streams
  import Codec
  import Yjq
  import opened YjqValue

  /** How many documents a copy gets through: those before the first one the
      encoder rejects, and no more than the writer takes. */
  function Copied(encode: Value -> Result<string, Error>, budget: nat, docs: seq<Value>): (n: nat)
    ensures n <= |docs| && n <= budget
    ensures forall i | 0 <= i < n :: encode(docs[i]).Ok?
    ensures n < |docs| ==> encode(docs[n]).Err? || n == budget
  {
    if |docs| == 0 || encode(docs[0]).Err? || budget == 0 then 0
    else 1 + Copied(encode, budget - 1, docs[1..])
  }

  /** The count is the smaller of the encoder's run of accepted documents and
      the writes the writer has left. */
  lemma {:induction false} CopiedIsMin(encode: Value -> Result<string, Error>, budget: nat, docs: seq<Value>)
    ensures Copied(encode, budget, docs) == Min(Accepted(encode, docs), budget)
    decreases |docs|
  {
    if |docs| > 0 && encode(docs[0]).Ok? && budget > 0 {
      CopiedIsMin(encode, budget - 1, docs[1..]);
    }
  }

  /** `CopyYAMLToJSON`: each decoded document encoded as JSON and written, in
      order. The end of input is success; the first encoding or write error
      is returned, and so is a decoding error that ends the input. */
  function CopyYAMLToJSON(encode: Value -> Result<string, Error>, w: Writer, src: Source<Value>): (r: (Outcome<Error>, Writer))
    ensures Copies(encode, w, src, r)
    decreases |src.docs|
  {
    if |src.docs| == 0 then
      CopyStops(encode, w, src);
      (if src.end == EOF then Pass else Fail(src.end), w)
    else
      match encode(src.docs[0])
      case Err(e) =>
        CopyStops(encode, w, src);
        (Fail(e), w)
      case Ok(text) =>
        var written := Write(w, text);
        if written.0.Fail? then
          CopyStops(encode, w, src);
          written
        else
          var r := CopyYAMLToJSON(encode, written.1, Source(src.docs[1..], src.end));
          CopiesStep(encode, w, src, r);
          r
  }

  /** `r` is what copying `src` to `w` leaves: the first `Copied` documents
      encoded and written in order, the writer otherwise untouched, and the
      reason the copy stopped. */
  predicate Copies(encode: Value -> Result<string, Error>, w: Writer, src: Source<Value>, r: (Outcome<Error>, Writer))
  {
    var k := Copied(encode, w.budget, src.docs);
    && r.1.closed == w.closed
    && r.1.budget == w.budget - k
    && r.1.text == w.text + Encoded(encode, src.docs[..k])
    && r.0 == StopReason(encode, w.budget, src)
  }

  /** How a copy ends once it has got through the first `Copied` documents:
      with the encoder's error or a write failure at the next document, or,
      when none is left, with the decoder's end (success for EOF). */
  function StopReason(encode: Value -> Result<string, Error>, budget: nat, src: Source<Value>): Outcome<Error>
  {
    var k := Copied(encode, budget, src.docs);
    if k < |src.docs| then Fail(if encode(src.docs[k]).Err? then encode(src.docs[k]).error else WriteFailed)
    else if src.end == EOF then Pass else Fail(src.end)
  }

  /** A copy that stops at the first document writes nothing and reports
      why it stopped. */
  lemma CopyStops(encode: Value -> Result<string, Error>, w: Writer, src: Source<Value>)
    requires |src.docs| == 0 || encode(src.docs[0]).Err? || w.budget == 0
    ensures Copies(encode, w, src, (StopReason(encode, w.budget, src), w))
    ensures |src.docs| == 0 ==> StopReason(encode, w.budget, src) == if src.end == EOF then Pass else Fail(src.end)
    ensures |src.docs| > 0 && encode(src.docs[0]).Err? ==> StopReason(encode, w.budget, src) == Fail(encode(src.docs[0]).error)
    ensures |src.docs| > 0 && encode(src.docs[0]).Ok? ==> StopReason(encode, w.budget, src) == Fail(WriteFailed)
  {
    assert Copied(encode, w.budget, src.docs) == 0;
    assert src.docs[..0] == [];
  }

  /** Writing the first document and copying the rest is copying it all. */
  lemma CopiesStep(encode: Value -> Result<string, Error>, w: Writer, src: Source<Value>, r: (Outcome<Error>, Writer))
    requires |src.docs| > 0 && encode(src.docs[0]).Ok? && w.budget > 0
    requires Copies(encode, Write(w, encode(src.docs[0]).value).1, Source(src.docs[1..], src.end), r)
    ensures Copies(encode, w, src, r)
  {
    CopyStep(encode, w.text, src.docs, w.budget);
    StopReasonStep(encode, w.budget, src);
  }

  /** Copying one document leaves the reason the copy stops unchanged. */
  lemma StopReasonStep(encode: Value -> Result<string, Error>, budget: nat, src: Source<Value>)
    requires |src.docs| > 0 && encode(src.docs[0]).Ok? && budget > 0
    ensures StopReason(encode, budget, src) == StopReason(encode, budget - 1, Source(src.docs[1..], src.end))
  {
    CopyStep(encode, [], src.docs, budget);
  }

  /** One more document copied: the rest after the first, written after its
      encoding, is the same text as the longer prefix. */
  lemma CopyStep(encode: Value -> Result<string, Error>, text: string, docs: seq<Value>, budget: nat)
    requires |docs| > 0 && encode(docs[0]).Ok? && budget > 0
    ensures Copied(encode, budget, docs) == Copied(encode, budget - 1, docs[1..]) + 1
    ensures var k := Copied(encode, budget - 1, docs[1..]);
            && (text + encode(docs[0]).value) + Encoded(encode, docs[1..][..k]) == text + Encoded(encode, docs[..k + 1])
            && (k < |docs[1..]| ==> docs[1..][k] == docs[k + 1])
  {
    var k := Copied(encode, budget - 1, docs[1..]);
    var init := docs[..k + 1];
    assert init[1..] == docs[1..][..k];
    EncodedCons(encode, init);
  }

  /** The JSON text every successfully copied input leaves for jq. */
  lemma CopyYAMLToJSONOutput(encode: Value -> Result<string, Error>, w: Writer, src: Source<Value>)
    ensures var r := CopyYAMLToJSON(encode, w, src);
            r.0.Pass? <==> src.end == EOF && Accepted(encode, src.docs) == |src.docs| && |src.docs| <= w.budget
    ensures var r := CopyYAMLToJSON(encode, w, src);
            r.0.Pass? ==> r.1.text == w.text + Encoded(encode, src.docs)
  {
    CopiedIsMin(encode, w.budget, src.docs);
    var k := Copied(encode, w.budget, src.docs);
    if k == |src.docs| {
      assert src.docs[..k] == src.docs;
    }
  }

  /** One output document: a Null value is written as an empty line without
      consulting the YAML encoder; anything else is what the encoder makes
      of it. */
  function YamlDocument(encode: Value -> Result<string, Error>, v: Value): (r: Result<string, Error>)
    ensures IsZero(v) ==> r == Ok("\n")
    ensures !IsZero(v) ==> r == encode(v)
  {
    if v.typ == Null then Ok("\n") else encode(v)
  }

  function RenderWith(encode: Value -> Result<string, Error>): Value -> Result<string, Error>
  {
    v => YamlDocument(encode, v)
  }

  /** Every document has an output form. */
  predicate Renders(encode: Value -> Result<string, Error>, docs: seq<Value>)
  {
    forall i | 0 <= i < |docs| :: YamlDocument(encode, docs[i]).Ok?
  }

  /** Null documents never reach the encoder: two encoders that agree on the
      other documents give the same output documents. */
  lemma NullSkipsEncoder(e1: Value -> Result<string, Error>, e2: Value -> Result<string, Error>, docs: seq<Value>)
    requires forall i | 0 <= i < |docs| :: !IsZero(docs[i]) ==> e1(docs[i]) == e2(docs[i])
    requires forall i | 0 <= i < |docs| :: RenderWith(e1)(docs[i]).Ok?
    ensures forall i | 0 <= i < |docs| :: RenderWith(e2)(docs[i]).Ok?
    ensures Results(RenderWith(e1), docs) == Results(RenderWith(e2), docs)
  {
    assert forall i | 0 <= i < |docs| :: RenderWith(e1)(docs[i]) == RenderWith(e2)(docs[i]);
  }

  /** `CopyJSONToYAML`: each decoded JSON document written as a YAML
      document, the document marker `---\n` before every one but the first.
      At the clean end of input it reports 0 bytes, whatever it wrote; on an
      error it reports the bytes written so far. */
  method CopyJSONToYAML(encode: Value -> Result<string, Error>, w: Writer, src: Source<Value>)
    returns (n: int, err: Outcome<Error>, w': Writer)
    ensures w'.closed == w.closed && |w'.text| >= |w.text| && w'.text[..|w.text|] == w.text
    ensures err.Pass? <==> src.end == EOF && Renders(encode, src.docs)
                           && Codec.YamlWrites(|src.docs|) <= w.budget
    ensures err.Pass? ==> n == 0
    ensures err.Fail? ==> n == |w'.text| - |w.text|
    ensures Renders(encode, src.docs) && Codec.YamlWrites(|src.docs|) <= w.budget ==>
              && w'.text == w.text + Join(Codec.DocSeparator, Results(RenderWith(encode), src.docs))
              && (src.end != EOF ==> err == Fail(src.end))
    ensures !(Renders(encode, src.docs) && Codec.YamlWrites(|src.docs|) <= w.budget) ==>
              exists k :: Codec.SeparatedFailure(Codec.DocSeparator, RenderWith(encode), w, src.docs, k, err, w'.text)
  {
    var res;
    res, w' := CopySeparated(Codec.DocSeparator, RenderWith(encode), w, src.docs);
    if res.Fail? {
      return |w'.text| - |w.text|, res, w';
    }
    if src.end == EOF {
      return 0, Pass, w';
    }
    return |w'.text| - |w.text|, Fail(src.end), w';
  }

  /** The loop of `CopyJSONToYAML` over the decoded documents, for any
      separator and any rendering: it stops at the first rendering or write
      error, with the text and the error `Codec.SeparatedFailure` gives for
      that document. */
  method CopySeparated<T>(sep: string, render: T -> Result<string, Error>, w: Writer, docs: seq<T>)
    returns (res: Outcome<Error>, w': Writer)
    ensures w'.closed == w.closed && |w'.text| >= |w.text| && w'.text[..|w.text|] == w.text
    ensures res.Pass? <==> (forall i | 0 <= i < |docs| :: render(docs[i]).Ok?)
                           && Codec.YamlWrites(|docs|) <= w.budget
    ensures res.Pass? ==> w'.text == w.text + Join(sep, Results(render, docs))
    ensures res.Fail? ==> exists n :: Codec.SeparatedFailure(sep, render, w, docs, n, res, w'.text)
  {
    var out := w;
    var i := 0;
    ghost var done: seq<string> := [];
    while i < |docs|
      invariant 0 <= i <= |docs|
      invariant forall j | 0 <= j < i :: render(docs[j]).Ok?
      invariant done == Results(render, docs[..i]) && |done| == i
      invariant Codec.YamlWrites(i) <= w.budget
      invariant out.text == w.text + Join(sep, done)
      invariant out.budget == w.budget - Codec.YamlWrites(i) && out.closed == w.closed
    {
      var r, out' := Codec.WriteDocument(sep, render, out, i == 0, docs[i]);
      if r.Fail? {
        assert Codec.SeparatedFailure(sep, render, w, docs, i, r, out'.text);
        return r, out';
      }
      ResultsSnoc(render, docs, i);
      Codec.JoinStep(sep, done, render(docs[i]).value, w.text);
      done := done + [render(docs[i]).value];
      out := out';
      i := i + 1;
    }
    assert docs[..i] == docs;
    return Pass, out;
  }

  /** A file as yjq finds it: its bytes, and the documents the YAML decoder
      reads from them. */
  datatype File = File(bytes: string, yaml: Source<Value>)

  /** Opening a file by name: its contents, or the error `os.Open` reports. */
  type Files = string -> Result<File, Error>

  /** `CopyFile`: a YAML file is converted to JSON, any other file copied
      verbatim; a file that cannot be opened is that error and writes
      nothing. */
  function CopyFile(files: Files, encode: Value -> Result<string, Error>, name: string, w: Writer): (r: (Outcome<Error>, Writer))
    ensures files(name).Err? ==> r == (Fail(files(name).error), w)
    ensures files(name).Ok? && Yjq.IsYAMLFile(name) ==> r == CopyYAMLToJSON(encode, w, files(name).value.yaml)
    ensures files(name).Ok? && !Yjq.IsYAMLFile(name) ==> r == Write(w, files(name).value.bytes)
  {
    match files(name)
    case Err(e) => (Fail(e), w)
    case Ok(f) =>
      if Yjq.IsYAMLFile(name) then CopyYAMLToJSON(encode, w, f.yaml)
      else Write(w, f.bytes)
  }

  /** What a successful copy leaves for jq: the JSON encodings of a YAML
      file's documents, the bytes of any other file. */
  lemma CopyFileOutput(files: Files, encode: Value -> Result<string, Error>, name: string, w: Writer)
    requires CopyFile(files, encode, name, w).0.Pass?
    ensures files(name).Ok?
    ensures Yjq.IsYAMLFile(name) ==>
              && Accepted(encode, files(name).value.yaml.docs) == |files(name).value.yaml.docs|
              && CopyFile(files, encode, name, w).1.text == w.text + Encoded(encode, files(name).value.yaml.docs)
    ensures !Yjq.IsYAMLFile(name) ==> CopyFile(files, encode, name, w).1.text == w.text + files(name).value.bytes
  {
    if Yjq.IsYAMLFile(name) {
      CopyFileOutputYAML(files, encode, name, w);
    } else {
      CopyFileOutputOther(files, encode, name, w);
    }
  }

  lemma CopyFileOutputOther(files: Files, encode: Value -> Result<string, Error>, name: string, w: Writer)
    requires !Yjq.IsYAMLFile(name)
    requires CopyFile(files, encode, name, w).0.Pass?
    ensures files(name).Ok?
    ensures CopyFile(files, encode, name, w).1.text == w.text + files(name).value.bytes
  {
    assert files(name).Ok?;
    assert CopyFile(files, encode, name, w) == Write(w, files(name).value.bytes);
  }

  lemma CopyFileOutputYAML(files: Files, encode: Value -> Result<string, Error>, name: string, w: Writer)
    requires Yjq.IsYAMLFile(name)
    requires CopyFile(files, encode, name, w).0.Pass?
    ensures files(name).Ok?
    ensures Accepted(encode, files(name).value.yaml.docs) == |files(name).value.yaml.docs|
    ensures CopyFile(files, encode, name, w).1.text == w.text + Encoded(encode, files(name).value.yaml.docs)
  {
    assert files(name).Ok?;
    var src := files(name).value.yaml;
    assert CopyFile(files, encode, name, w) == CopyYAMLToJSON(encode, w, src);
    CopyYAMLToJSONOutput(encode, w, src);
  }
}
