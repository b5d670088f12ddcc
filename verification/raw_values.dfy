/** `RawValue` of value.go: a value carried as its JSON text. It is classified by
    its first byte (`Kind`, `kindOfJSON`), passed through `MarshalJSON` and
    `Compact`, joined into arrays without being parsed again (`RawValueArray`),
    and converted from and to YAML (`UnmarshalYAML`, `MarshalYAML`) with the YAML
    library's decoding attempts and the JSON encoder given as data. */
module RawValues {
  import opened Wrappers
  import opened Text
  import opened JsonTree

  type RawValue = Bytes

  /** `ValueType`. */
  datatype ValueType = Invalid | Null | Object | Array | String | Number | Boolean

  /** The Go constant behind each type: `iota - 1`, so `Invalid` is -1 and
      `Null` is 0, the zero value. */
  function Ordinal(t: ValueType): (n: int)
    ensures -1 <= n <= 5
    ensures n == 0 <==> t == ValueType.Null
    ensures n == -1 <==> t == Invalid
  {
    match t
    case Invalid => -1
    case Null => 0
    case Object => 1
    case Array => 2
    case String => 3
    case Number => 4
    case Boolean => 5
  }

  lemma OrdinalInjective(s: ValueType, t: ValueType)
    ensures Ordinal(s) == Ordinal(t) ==> s == t
  {
  }

  /** `kindOfJSON`: the type a JSON text starting with `c` has. Digits are
      recognised by subtracting `'0'` from the byte, which wraps around modulo
      256 for bytes below `'0'`, so only `'0'`..`'9'` pass the `<= 9` test. */
  function KindOfJSON(c: Byte): (t: ValueType)
    ensures t == Object <==> c == '{'
    ensures t == Array <==> c == '['
    ensures t == String <==> c == '"'
    ensures t == Boolean <==> c == 't' || c == 'f'
    ensures t == ValueType.Null <==> c == 'n'
    ensures t == Number <==> c == '.' || '0' <= c <= '9'
  {
    if c == '{' then Object
    else if c == '[' then Array
    else if c == '"' then String
    else if c == 't' || c == 'f' then Boolean
    else if c == 'n' then ValueType.Null
    else if c == '.' then Number
    else
      var d := (c as int - '0' as int) % 256;  // `c -= '0'` on a uint8
      if 0 <= d && d <= 9 then Number else Invalid
  }

  /** The departures from the first characters section 6 of RFC 8259 allows for
      a number: a leading minus sign is not recognised, a leading dot is. Blank
      space before a value is not skipped either. */
  lemma KindOfJSONDepartures()
    ensures KindOfJSON('-') == Invalid
    ensures KindOfJSON('.') == Number
    ensures KindOfJSON(' ') == Invalid && KindOfJSON('\n') == Invalid && KindOfJSON('\t') == Invalid
  {
  }

  /** `RawValue.Kind`. */
  function Kind(v: RawValue): (t: ValueType)
    ensures |v| == 0 ==> t == Invalid
    ensures |v| > 0 ==> t == KindOfJSON(v[0])
  {
    if |v| > 0 then KindOfJSON(v[0]) else Invalid
  }

  /** The type is fixed by the first byte: whatever follows it does not matter. */
  lemma KindByFirstByte(u: RawValue, v: RawValue)
    requires |u| > 0 && |v| > 0 && u[0] == v[0]
    ensures Kind(u) == Kind(v)
    ensures Kind(u + v) == Kind(u)
  {
  }

  /** Whatever the writer of value.go produces for an array or a map is
      classified as such. */
  lemma WrittenKind(enc: Encoder, v: Value)
    requires v.Arr? || v.Obj? || v.NilMapSlice?
    requires WriteJSON(enc, v).Ok?
    ensures v.Arr? ==> Kind(WriteJSON(enc, v).value) == Array
    ensures !v.Arr? ==> Kind(WriteJSON(enc, v).value) == Object
  {
  }

  /** `RawValue.MarshalJSON`: the empty value stands for `null`. */
  function MarshalJSON(v: RawValue): (r: RawValue)
    ensures |r| > 0
    ensures |v| > 0 ==> r == v
    ensures |v| == 0 ==> r == "null" && Kind(r) == ValueType.Null
  {
    if |v| == 0 then "null" else v
  }

  lemma MarshalJSONIdempotent(v: RawValue)
    ensures MarshalJSON(MarshalJSON(v)) == MarshalJSON(v)
    ensures Kind(v) != Invalid ==> Kind(MarshalJSON(v)) == Kind(v)
  {
  }

  /** `json.Compact`, outside the model. */
  type Compactor = RawValue -> Result<RawValue, Error>

  /** `RawValue.Compact`: the empty value is returned as it is without calling
      the compactor; otherwise the compactor's text or its error. */
  function Compact(compact: Compactor, v: RawValue): (r: Result<RawValue, Error>)
    ensures |v| == 0 ==> r == Ok(v)
    ensures |v| > 0 ==> r == compact(v)
  {
    if |v| == 0 then Ok(v)
    else
      match compact(v)
      case Err(e) => Err(e)
      case Ok(c) => Ok(c)
  }

  /** The empty value compacts to itself whatever the compactor does, and an
      idempotent compactor makes `Compact` idempotent. */
  lemma CompactIdempotent(compact: Compactor, v: RawValue)
    requires forall u: RawValue | compact(u).Ok? :: compact(compact(u).value) == compact(u)
    requires Compact(compact, v).Ok?
    ensures Compact(compact, Compact(compact, v).value) == Compact(compact, v)
  {
  }

  // ---------------------------------------------------------------------------
  // Arrays of raw values.

  /** The JSON array holding `values` as its elements, in order. */
  function ArrayText(values: seq<RawValue>): RawValue
  {
    "[" + Join<Byte>(",", values) + "]"
  }

  lemma {:induction false} ArrayTextLength(values: seq<RawValue>)
    ensures |ArrayText(values)| == 2 + TotalLength(values) + (if |values| == 0 then 0 else |values| - 1)
  {
    JoinLength<Byte>(",", values);
  }

  lemma TotalLengthSnoc(ps: seq<RawValue>, p: RawValue)
    ensures TotalLength(ps + [p]) == TotalLength(ps) + |p|
    decreases |ps|
  {
    if |ps| > 0 {
      assert (ps + [p])[1..] == ps[1..] + [p];
      TotalLengthSnoc(ps[1..], p);
    } else {
      assert (ps + [p])[1..] == [];
    }
  }

  /** The capacity `RawValueArray` reserves up front: the element count plus
      two plus the element lengths. */
  method Capacity(values: seq<RawValue>) returns (size: nat)
    ensures size == |values| + 2 + TotalLength(values)
  {
    size := |values| + 2;
    var k := 0;
    while k < |values|
      invariant 0 <= k <= |values|
      invariant size == |values| + 2 + TotalLength(values[..k])
    {
      TotalLengthSnoc(values[..k], values[k]);
      assert values[..k + 1] == values[..k] + [values[k]];
      size := size + |values[k]|;
      k := k + 1;
    }
    assert values[..|values|] == values;
  }

  /** `RawValueArray`: the builder loop. `size` is the capacity it reserves up
      front; it is never less than what is written. */
  method RawValueArray(values: seq<RawValue>) returns (r: RawValue, size: nat)
    ensures r == ArrayText(values)
    ensures Kind(r) == Array
    ensures |r| <= size
  {
    size := Capacity(values);
    var w: RawValue := "[";
    var i := 0;
    while i < |values|
      invariant 0 <= i <= |values|
      invariant w == "[" + Join<Byte>(",", values[..i])
    {
      if i > 0 {
        w := w + ",";
        JoinSnoc<Byte>(",", values[..i], values[i]);
      }
      assert values[..i + 1] == values[..i] + [values[i]];
      w := w + values[i];
      i := i + 1;
    }
    assert values[..|values|] == values;
    r := w + "]";
    ArrayTextLength(values);
  }

  // ---------------------------------------------------------------------------
  // From and to YAML.

  /** What the YAML library reports when asked to decode the node at hand into
      each Go type `RawValue.UnmarshalYAML` tries. `None` inside `Ok` is a nil
      slice or map. `floatJSON` and `stringJSON` are the JSON encoder's text for
      the decoded float and string (`NewRawValue`). */
  datatype YamlNode = YamlNode(
    asArray: Result<Option<seq<RawValue>>, Error>,
    asMap: Result<Option<seq<Entry>>, Error>,
    asBool: Result<bool, Error>,
    asFloat: Result<(), Error>,
    floatJSON: Result<RawValue, Error>,
    asString: Result<RawValue, Error>,
    stringJSON: Result<RawValue, Error>)

  /** `RawValue.UnmarshalYAML`: the first decoding that succeeds decides, in the
      order array, map, boolean, float, string. A float that also decodes as a
      string keeps the string's text. When every attempt fails the error of the
      last (string) attempt is returned. */
  function UnmarshalYAML(enc: Encoder, n: YamlNode): (r: Result<RawValue, Error>)
    ensures n.asArray.Ok? ==> r == Ok(ArrayText(if n.asArray.value.None? then [] else n.asArray.value.value))
    ensures n.asArray.Err? && n.asMap.Ok? ==> r == MarshalMap(enc, Obj(if n.asMap.value.None? then [] else n.asMap.value.value))
    ensures n.asArray.Err? && n.asMap.Err? && n.asBool.Ok? ==> r == Ok(if n.asBool.value then "true" else "false")
    ensures n.asArray.Err? && n.asMap.Err? && n.asBool.Err? && n.asFloat.Ok?
            ==> r == (if n.asString.Ok? then Ok(n.asString.value) else n.floatJSON)
    ensures n.asArray.Err? && n.asMap.Err? && n.asBool.Err? && n.asFloat.Err? && n.asString.Ok?
            ==> r == n.stringJSON
    ensures n.asArray.Err? && n.asMap.Err? && n.asBool.Err? && n.asFloat.Err? && n.asString.Err?
            ==> r == Err(n.asString.error)
  {
    if n.asArray.Ok? then
      if n.asArray.value.None? then
        assert ArrayText([]) == "[]";
        Ok("[]")
      else Ok(ArrayText(n.asArray.value.value))
    else if n.asMap.Ok? then
      if n.asMap.value.None? then
        EmptyMapWritten(enc);
        Ok("{}")
      else MarshalMap(enc, Obj(n.asMap.value.value))
    else if n.asBool.Ok? then
      Ok(if n.asBool.value then "true" else "false")
    else if n.asFloat.Ok? then
      if n.asString.Ok? then Ok(n.asString.value) else n.floatJSON
    else if n.asString.Ok? then n.stringJSON
    else Err(n.asString.error)
  }

  /** A nil slice or map decodes to the same text as an empty one. */
  lemma NilContainersReadEmpty(enc: Encoder, n: YamlNode, m: YamlNode)
    requires n == m.(asArray := n.asArray, asMap := n.asMap)
    requires (n.asArray == Ok(None) && m.asArray == Ok(Some([])))
             || (n.asArray.Err? && m.asArray.Err? && n.asMap == Ok(None) && m.asMap == Ok(Some([])))
    ensures UnmarshalYAML(enc, n) == UnmarshalYAML(enc, m)
    ensures n.asArray.Ok? ==> UnmarshalYAML(enc, n) == Ok("[]")
    ensures n.asArray.Err? ==> UnmarshalYAML(enc, n) == Ok("{}")
  {
    assert ArrayText([]) == "[]";
    EmptyMapWritten(enc);
  }

  /** The trial order: the type of a successful result is that of the first
      decoding that succeeded. */
  lemma UnmarshalYAMLTrialOrder(enc: Encoder, n: YamlNode)
    requires UnmarshalYAML(enc, n).Ok?
    ensures n.asArray.Ok? ==> Kind(UnmarshalYAML(enc, n).value) == Array
    ensures n.asArray.Err? && n.asMap.Ok? ==> Kind(UnmarshalYAML(enc, n).value) == Object
    ensures n.asArray.Err? && n.asMap.Err? && n.asBool.Ok? ==> Kind(UnmarshalYAML(enc, n).value) == Boolean
  {
    if n.asArray.Err? && n.asMap.Ok? && n.asMap.value.Some? {
      WrittenKind(enc, Obj(n.asMap.value.value));
    }
  }

  /** Later decodings are never consulted once an earlier one succeeds. */
  lemma UnmarshalYAMLFirstSuccessDecides(enc: Encoder, n: YamlNode, m: YamlNode)
    requires n.asArray == m.asArray
    requires n.asArray.Err? ==> n.asMap == m.asMap
    requires n.asArray.Err? && n.asMap.Err? ==> n.asBool == m.asBool
    requires n.asArray.Ok? || n.asMap.Ok? || n.asBool.Ok?
    ensures UnmarshalYAML(enc, n) == UnmarshalYAML(enc, m)
  {
  }

  /** The float branch copies the YAML scalar's text whenever it can be had as
      a string, so its result can be text the classifier calls `Invalid`
      (a negative number). */
  lemma NegativeFloatKeepsText(enc: Encoder, n: YamlNode)
    requires n.asArray.Err? && n.asMap.Err? && n.asBool.Err? && n.asFloat.Ok?
    requires n.asString == Ok("-1")
    ensures UnmarshalYAML(enc, n) == Ok("-1")
    ensures Kind(UnmarshalYAML(enc, n).value) == Invalid
  {
  }

  /** What `RawValue.MarshalYAML` hands to the YAML encoder: nothing for the
      empty value, a float for a top-level number, and the decoded tree
      otherwise. */
  datatype YamlOut = YNil | YFloat(text: Bytes) | YTree(v: Value)

  /** `RawValue.MarshalYAML`, with the JSON text already split into tokens by
      `json.Decoder` (`tokens`). The float conversion of a top-level number is
      recorded but not carried out. */
  function MarshalYAML(v: RawValue, tokens: seq<Token>): (r: Result<YamlOut, Error>)
    ensures |v| == 0 ==> r == Ok(YNil)
    ensures |v| > 0 && DecodeValue(tokens).Err? ==> r == Err(DecodeValue(tokens).error)
    ensures r.Ok? && r.value.YTree? ==> IsDecoded(r.value.v) && !(r.value.v.Scalar? && r.value.v.atom.Num?)
  {
    if |v| == 0 then Ok(YNil)
    else
      match DecodeValue(tokens)
      case Err(e) => Err(e)
      case Ok((x, _)) =>
        if x.Scalar? && x.atom.Num? then Ok(YFloat(x.atom.text)) else Ok(YTree(x))
  }

  /** A value reaches the YAML encoder as the tree it was read from; only a
      number at the top level is turned into a float. */
  lemma MarshalYAMLDecodes(v: RawValue, x: Value)
    requires |v| > 0 && IsDecoded(x)
    ensures x.Scalar? && x.atom.Num? ==> MarshalYAML(v, Tokens(x)) == Ok(YFloat(x.atom.text))
    ensures !(x.Scalar? && x.atom.Num?) ==> MarshalYAML(v, Tokens(x)) == Ok(YTree(x))
  {
    DecodeRoundTrip(x, []);
    assert Tokens(x) + [] == Tokens(x);
  }
}
