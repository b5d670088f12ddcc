/** internal/yjq/value.go: the document value yjq passes between the YAML and
    JSON libraries, tagged with the kind of data it holds. The decoders are
    parameters: for JSON, the generic value it produces; for YAML, the outcome
    of decoding the node into each candidate Go type. */
module YjqValue {
  import opened Wrappers
  import opened Text

  /** `ValueType`, with Go's numbering: `Null` is the zero value. */
  datatype ValueType = Null | Object | Array | String | Number | Boolean

  function Code(t: ValueType): (n: nat)
    ensures n <= 5
    ensures n == 0 <==> t == Null
  {
    match t
    case Null => 0
    case Object => 1
    case Array => 2
    case String => 3
    case Number => 4
    case Boolean => 5
  }

  lemma CodeInjective(a: ValueType, b: ValueType)
    ensures Code(a) == Code(b) ==> a == b
  {
  }

  /** The dynamic value behind a Go `interface{}` as the decoders fill it:
      nil, the five JSON shapes, or some other Go type (YAML decoding nested
      integers, for one). */
  datatype Any =
    | Nil
    | Map(fields: map<string, Any>)
    | Slice(items: seq<Any>)
    | Str(s: string)
    | Float(x: real)
    | Bool(b: bool)
    | Other(goType: string)

  /** `Value`: the tag and the value it describes. */
  datatype Value = Value(typ: ValueType, value: Any)

  /** The zero `Value{}` a decoder starts from. */
  const Zero := Value(Null, Nil)

  /** `TypeOf`: the tag of a dynamic value. nil and every type outside the
      five JSON shapes fall to the zero tag, `Null`. */
  function TypeOf(x: Any): (t: ValueType)
    ensures t == Null <==> x.Nil? || x.Other?
    ensures t == Object <==> x.Map?
    ensures t == Array <==> x.Slice?
    ensures t == String <==> x.Str?
    ensures t == Number <==> x.Float?
    ensures t == Boolean <==> x.Bool?
  {
    match x
    case Nil => Null
    case Map(_) => Object
    case Slice(_) => Array
    case Str(_) => String
    case Float(_) => Number
    case Bool(_) => Boolean
    case Other(_) => Null
  }

  /** `IsZero`: the value is treated as absent exactly when its tag is `Null`. */
  function IsZero(v: Value): (r: bool)
    ensures r <==> Code(v.typ) == 0
  {
    v.typ == Null
  }

  /** A decoded value and its tag agree. */
  ghost predicate Tagged(v: Value)
  {
    v.typ == TypeOf(v.value)
  }

  /** `Value.UnmarshalJSON`: the generic decoding of `data`, tagged by
      `TypeOf`; a decoding error leaves the value as it was. */
  function UnmarshalJSON(decode: Bytes -> Result<Any, Error>, v: Value, data: Bytes): (r: (Value, Outcome<Error>))
    ensures decode(data).Err? ==> r == (v, Fail(decode(data).error))
    ensures decode(data).Ok? ==> r.1 == Pass && r.0.value == decode(data).value && Tagged(r.0)
  {
    match decode(data)
    case Err(e) => (v, Fail(e))
    case Ok(x) => (Value(TypeOf(x), x), Pass)
  }

  /** A JSON document is absent exactly when it decodes to nil or to a type
      outside the JSON shapes. */
  lemma UnmarshalJSONZero(decode: Bytes -> Result<Any, Error>, v: Value, data: Bytes)
    requires decode(data).Ok?
    ensures IsZero(UnmarshalJSON(decode, v, data).0) <==> decode(data).value.Nil? || decode(data).value.Other?
  {
  }

  /** The outcomes of decoding one YAML node into each type `UnmarshalYAML`
      tries. */
  datatype YamlTrials = YamlTrials(
    asObject: Result<map<string, Any>, Error>,
    asArray: Result<seq<Any>, Error>,
    asBool: Result<bool, Error>,
    asNumber: Result<real, Error>,
    asString: Result<string, Error>)

  /** Some candidate type accepts the node. */
  predicate Decodable(n: YamlTrials)
  {
    n.asObject.Ok? || n.asArray.Ok? || n.asBool.Ok? || n.asNumber.Ok? || n.asString.Ok?
  }

  /** `Value.UnmarshalYAML`: object, array, boolean, number and string are
      tried in that order and the first that decodes sets the value and its
      tag; when none does, the value is left as it was and the error of the
      last attempt, the string, is returned. */
  function UnmarshalYAML(v: Value, n: YamlTrials): (r: (Value, Outcome<Error>))
    ensures r.1.Pass? <==> Decodable(n)
    ensures !Decodable(n) ==> r == (v, Fail(n.asString.error))
    ensures Decodable(n) ==> Tagged(r.0) && !IsZero(r.0)
    ensures n.asObject.Ok? ==> r.0.value == Map(n.asObject.value)
    ensures n.asObject.Err? && n.asArray.Ok? ==> r.0.value == Slice(n.asArray.value)
    ensures n.asObject.Err? && n.asArray.Err? && n.asBool.Ok? ==> r.0.value == Bool(n.asBool.value)
    ensures n.asObject.Err? && n.asArray.Err? && n.asBool.Err? && n.asNumber.Ok? ==> r.0.value == Float(n.asNumber.value)
    ensures (n.asObject.Err? && n.asArray.Err? && n.asBool.Err? && n.asNumber.Err? && n.asString.Ok?)
              ==> r.0.value == Str(n.asString.value)
  {
    if n.asObject.Ok? then (Value(Object, Map(n.asObject.value)), Pass)
    else if n.asArray.Ok? then (Value(Array, Slice(n.asArray.value)), Pass)
    else if n.asBool.Ok? then (Value(Boolean, Bool(n.asBool.value)), Pass)
    else if n.asNumber.Ok? then (Value(Number, Float(n.asNumber.value)), Pass)
    else if n.asString.Ok? then (Value(String, Str(n.asString.value)), Pass)
    else (v, Fail(n.asString.error))
  }

  /** The tag reflects the earliest type that accepts the node, whatever the
      later ones would have given: a scalar `true` that also reads as a
      string is a Boolean, and `42.0` that also reads as a string is a
      Number. */
  lemma UnmarshalYAMLFirstSuccess(v: Value, n: YamlTrials)
    requires Decodable(n)
    ensures var t := UnmarshalYAML(v, n).0.typ;
            && (t == Object <==> n.asObject.Ok?)
            && (t == Array <==> n.asObject.Err? && n.asArray.Ok?)
            && (t == Boolean <==> n.asObject.Err? && n.asArray.Err? && n.asBool.Ok?)
            && (t == Number <==> n.asObject.Err? && n.asArray.Err? && n.asBool.Err? && n.asNumber.Ok?)
            && (t == String <==> n.asObject.Err? && n.asArray.Err? && n.asBool.Err? && n.asNumber.Err?)
  {
  }

  /** A YAML node decoded into a value and that value decoded back from its
      JSON text carry the same tag, as long as the JSON decoder returns the
      same shape. */
  lemma YamlAndJsonTagsAgree(decode: Bytes -> Result<Any, Error>, v: Value, n: YamlTrials, data: Bytes)
    requires Decodable(n) && decode(data) == Ok(UnmarshalYAML(v, n).0.value)
    ensures UnmarshalJSON(decode, Zero, data).0 == UnmarshalYAML(v, n).0
  {
  }
}
