/** The order-preserving JSON codec of value.go: a token stream is decoded into
    nested arrays and ordered maps (`decodeValue`, `decodeArray`, `decodeMap`,
    `Map.UnmarshalJSON`), and a tree is written back as JSON with map keys in
    stored order (`writeJSON`, `Map.writeJSON`, `Map.MarshalJSONString`).

    Go keeps nil slices and maps distinct from empty ones, and the writer treats
    them differently, so the tree has a constructor for each. The scalar encoder
    (`json.Encoder.Encode` applied to a leaf) is a parameter of the writer. */
module JsonTree {
  import opened Wrappers
  import opened Text

  /** A JSON scalar as the decoder hands it over. A number is held as its
      text; the Go decoder turns it into a float64, and what that does to the
      written form is left to the scalar encoder parameter. */
  datatype Atom = Bool(b: bool) | Num(text: Bytes) | Str(s: Bytes)

  /** A value held in a Go `interface{}`. */
  datatype Value =
    | Null                      // the nil interface
    | Scalar(atom: Atom)
    | Arr(items: seq<Value>)    // a non-nil []interface{}
    | NilArr                    // a nil []interface{}
    | Obj(entries: seq<Entry>)  // a non-nil Map or yaml.MapSlice, entries in stored order
    | NilMap                    // a nil Map
    | NilMapSlice               // a nil yaml.MapSlice

  /** A map item. Keys may be any value; only string keys can be written as JSON. */
  datatype Entry = Entry(key: Value, val: Value)

  datatype Delim = LBrace | RBrace | LBracket | RBracket

  /** What `json.Decoder.Token` returns: a delimiter, `nil` for `null`, a scalar,
      or (`Malformed`) a syntax error at that point of the input. */
  datatype Token = DelimTok(d: Delim) | NullTok | AtomTok(a: Atom) | Malformed

  predicate IsClose(t: Token)
  {
    t == DelimTok(RBrace) || t == DelimTok(RBracket)
  }

  predicate IsSuffix<T(==)>(rest: seq<T>, ts: seq<T>)
  {
    |rest| <= |ts| && rest == ts[|ts| - |rest|..]
  }

  lemma SuffixTransitive<T>(r: seq<T>, mid: seq<T>, ts: seq<T>)
    requires IsSuffix(r, mid) && IsSuffix(mid, ts)
    ensures IsSuffix(r, ts)
  {
    assert ts[|ts| - |mid|..][|mid| - |r|..] == ts[|ts| - |r|..];
  }

  /** A suffix of the tail of `ts` is a proper suffix of `ts`. */
  lemma TailSuffix<T>(r: seq<T>, ts: seq<T>)
    requires |ts| > 0 && IsSuffix(r, ts[1..])
    ensures |r| < |ts| && IsSuffix(r, ts)
  {
    assert ts[1..][|ts| - 1 - |r|..] == ts[|ts| - |r|..];
  }

  /** `dec.Token()`: the next token, `EOF` at the end of input, or the syntax error. */
  function NextToken(ts: seq<Token>): Result<(Token, seq<Token>), Error>
  {
    if |ts| == 0 then Err(EOF)
    else if ts[0].Malformed? then Err(Foreign("syntax error"))
    else Ok((ts[0], ts[1..]))
  }

  /** `dec.More()`: another element follows in the current array or object. */
  predicate More(ts: seq<Token>)
  {
    |ts| > 0 && !IsClose(ts[0])
  }

  /** The shape of every value the decoder builds: no nil slices or maps
      anywhere, and every map key a string. */
  predicate IsDecoded(v: Value)
    decreases v
  {
    match v
    case Null => true
    case Scalar(_) => true
    case Arr(items) => forall i | 0 <= i < |items| :: IsDecoded(items[i])
    case Obj(es) => forall i | 0 <= i < |es| :: EntryDecoded(es[i])
    case _ => false
  }

  predicate EntryDecoded(e: Entry)
    decreases e
  {
    e.key.Scalar? && e.key.atom.Str? && IsDecoded(e.val)
  }

  /** `decodeValue`: one value from the front of the token stream, and the
      tokens after it. */
  function DecodeValue(ts: seq<Token>): (r: Result<(Value, seq<Token>), Error>)
    ensures r.Ok? ==> IsDecoded(r.value.0) && |r.value.1| < |ts| && IsSuffix(r.value.1, ts)
    ensures |ts| == 0 ==> r == Err(EOF)
    ensures |ts| > 0 && IsClose(ts[0]) ==> r == Err(InvalidToken)
    ensures |ts| > 0 && ts[0] == NullTok ==> r == Ok((Null, ts[1..]))
    decreases |ts|, 1
  {
    match NextToken(ts)
    case Err(e) => Err(e)
    case Ok((tok, rest)) =>
      if tok == NullTok then Ok((Null, rest))
      else if tok.AtomTok? then Ok((Scalar(tok.a), rest))
      else if tok == DelimTok(LBracket) then
        (match DecodeArray(rest, [])
         case Err(e) => Err(e)
         case Ok((items, rest')) => TailSuffix(rest', ts); Ok((Arr(items), rest')))
      else if tok == DelimTok(LBrace) then
        (match DecodeMap(rest, [])
         case Err(e) => Err(e)
         case Ok((entries, rest')) => TailSuffix(rest', ts); Ok((Obj(entries), rest')))
      else Err(InvalidToken)
  }

  /** What a successful `decodeArray` promises: the elements in `acc` are kept
      as a prefix, every element after them is a decoded tree, and what is
      left of the tokens is a proper suffix of `ts`. */
  predicate ArrayDecoded(ts: seq<Token>, acc: seq<Value>, r: Result<(seq<Value>, seq<Token>), Error>)
  {
    r.Ok? ==>
      && |r.value.1| < |ts| && IsSuffix(r.value.1, ts)
      && |acc| <= |r.value.0| && r.value.0[..|acc|] == acc
      && forall i | |acc| <= i < |r.value.0| :: IsDecoded(r.value.0[i])
  }

  /** The same for `decodeMap`, whose new items are decoded entries. */
  predicate MapDecoded(ts: seq<Token>, acc: seq<Entry>, r: Result<(seq<Entry>, seq<Token>), Error>)
  {
    r.Ok? ==>
      && |r.value.1| < |ts| && IsSuffix(r.value.1, ts)
      && |acc| <= |r.value.0| && r.value.0[..|acc|] == acc
      && forall i | |acc| <= i < |r.value.0| :: EntryDecoded(r.value.0[i])
  }

  /** `decodeArray`: elements until the closing delimiter, appended to `acc`. The
      closing token is consumed without being inspected, as the source does;
      running out of tokens before it is `EOF`. */
  function DecodeArray(ts: seq<Token>, acc: seq<Value>): (r: Result<(seq<Value>, seq<Token>), Error>)
    ensures ArrayDecoded(ts, acc, r)
    decreases |ts|, 2
  {
    if More(ts) then
      match DecodeValue(ts)
      case Err(e) => Err(e)
      case Ok((v, rest)) =>
        var r := DecodeArray(rest, acc + [v]);
        if r.Err? then r
        else
          assert r.value.0[..|acc|] == (acc + [v])[..|acc|];
          SuffixTransitive(r.value.1, rest, ts);
          r
    else
      match NextToken(ts)
      case Err(e) => Err(e)
      case Ok((_, rest)) => Ok((acc, rest))
  }

  /** `decodeMap`: key/value pairs until the closing delimiter, appended to `acc`
      in source order. A key token that is not a string is `InvalidKey`. */
  function DecodeMap(ts: seq<Token>, acc: seq<Entry>): (r: Result<(seq<Entry>, seq<Token>), Error>)
    ensures MapDecoded(ts, acc, r)
    ensures More(ts) && !ts[0].Malformed? && !(ts[0].AtomTok? && ts[0].a.Str?) ==> r == Err(InvalidKey)
    decreases |ts|, 2
  {
    if More(ts) then
      match NextToken(ts)
      case Err(e) => Err(e)
      case Ok((tok, rest)) =>
        if !(tok.AtomTok? && tok.a.Str?) then Err(InvalidKey)
        else
          var r := DecodeEntry(tok.a.s, rest, acc);
          if r.Err? then r
          else
            TailSuffix(r.value.1, ts);
            r
    else
      match NextToken(ts)
      case Err(e) => Err(e)
      case Ok((_, rest)) => Ok((acc, rest))
  }

  /** The body of `decodeMap`'s loop after a string key: the value, then the
      rest of the map with the entry appended. */
  function DecodeEntry(key: Bytes, ts: seq<Token>, acc: seq<Entry>): (r: Result<(seq<Entry>, seq<Token>), Error>)
    ensures MapDecoded(ts, acc, r)
    decreases |ts|, 3
  {
    match DecodeValue(ts)
    case Err(e) => Err(e)
    case Ok((v, rest)) =>
      var e := Entry(Scalar(Str(key)), v);
      var r := DecodeMap(rest, acc + [e]);
      if r.Err? then r
      else
        assert r.value.0[..|acc|] == (acc + [e])[..|acc|];
        SuffixTransitive(r.value.1, rest, ts);
        r
  }

  /** `Map.UnmarshalJSON`: `null` is the nil map, `{` starts an ordered map
      (never nil, even when empty), and any other first token is an error. */
  function UnmarshalMap(ts: seq<Token>): (r: Result<Value, Error>)
    ensures r.Ok? ==> r.value == NilMap || (r.value.Obj? && IsDecoded(r.value))
    ensures r.Ok? && r.value == NilMap <==> |ts| > 0 && ts[0] == NullTok
    ensures |ts| > 0 && (ts[0].AtomTok? || IsClose(ts[0]) || ts[0] == DelimTok(LBracket)) ==> r == Err(InvalidToken)
  {
    match NextToken(ts)
    case Err(e) => Err(e)
    case Ok((tok, rest)) =>
      if tok == NullTok then Ok(NilMap)
      else if tok == DelimTok(LBrace) then
        (match DecodeMap(rest, [])
         case Err(e) => Err(e)
         case Ok((entries, _)) => Ok(Obj(entries)))
      else Err(InvalidToken)
  }

  /** `NewMap`: consecutive arguments paired up in order; a trailing odd
      argument is dropped, and no pairs give an empty, non-nil map. */
  function NewMap(pairs: seq<Value>): (m: Value)
    ensures m.Obj? && |m.entries| == |pairs| / 2
    ensures forall i | 0 <= i < |m.entries| :: m.entries[i] == Entry(pairs[2 * i], pairs[2 * i + 1])
  {
    if |pairs| < 2 then Obj([])
    else Obj([Entry(pairs[0], pairs[1])] + NewMap(pairs[2..]).entries)
  }

  // ---------------------------------------------------------------------------
  // Tokens of a decoded value: the stream the decoder reads it back from.

  function Tokens(v: Value): (r: seq<Token>)
    requires IsDecoded(v)
    ensures |r| > 0 && !IsClose(r[0]) && !r[0].Malformed?
    decreases v
  {
    if v.Null? then [NullTok]
    else if v.Scalar? then [AtomTok(v.atom)]
    else if v.Arr? then [DelimTok(LBracket)] + ItemTokens(v.items) + [DelimTok(RBracket)]
    else [DelimTok(LBrace)] + EntryTokens(v.entries) + [DelimTok(RBrace)]
  }

  function ItemTokens(vs: seq<Value>): seq<Token>
    requires forall i | 0 <= i < |vs| :: IsDecoded(vs[i])
    decreases vs
  {
    if |vs| == 0 then [] else Tokens(vs[0]) + ItemTokens(vs[1..])
  }

  function EntryTokens(es: seq<Entry>): seq<Token>
    requires forall i | 0 <= i < |es| :: EntryDecoded(es[i])
    decreases es
  {
    if |es| == 0 then [] else OneEntryTokens(es[0]) + EntryTokens(es[1..])
  }

  function OneEntryTokens(e: Entry): seq<Token>
    requires EntryDecoded(e)
    decreases e
  {
    [AtomTok(e.key.atom)] + Tokens(e.val)
  }

  /** Decoding the tokens of a decoded value gives the value back, with key
      order and element order intact, and leaves the following tokens alone. */
  lemma {:induction false} DecodeRoundTrip(v: Value, rest: seq<Token>)
    requires IsDecoded(v)
    ensures DecodeValue(Tokens(v) + rest) == Ok((v, rest))
    decreases v
  {
    var ts := Tokens(v) + rest;
    if v.Null? || v.Scalar? {
      assert ts[1..] == rest;
    } else if v.Arr? {
      assert ts[1..] == ItemTokens(v.items) + [DelimTok(RBracket)] + rest;
      DecodeItemsRoundTrip(v.items, [], rest);
    } else {
      assert ts[1..] == EntryTokens(v.entries) + [DelimTok(RBrace)] + rest;
      DecodeEntriesRoundTrip(v.entries, [], rest);
    }
  }

  lemma {:induction false} DecodeItemsRoundTrip(vs: seq<Value>, acc: seq<Value>, rest: seq<Token>)
    requires forall i | 0 <= i < |vs| :: IsDecoded(vs[i])
    ensures DecodeArray(ItemTokens(vs) + [DelimTok(RBracket)] + rest, acc) == Ok((acc + vs, rest))
    decreases vs
  {
    if |vs| == 0 {
      assert ItemTokens(vs) + [DelimTok(RBracket)] + rest == [DelimTok(RBracket)] + rest;
      CloseStep([DelimTok(RBracket)] + rest, acc, []);
      assert acc + vs == acc;
    } else {
      var v, tl := vs[0], vs[1..];
      assert acc + [v] + tl == acc + vs;
      DecodeItemsRoundTrip(tl, acc + [v], rest);
      ArrayItemStep(vs, acc, rest);
    }
  }

  /** `decodeArray` reads the first element of a non-empty element list. */
  lemma ArrayItemStep(vs: seq<Value>, acc: seq<Value>, rest: seq<Token>)
    requires |vs| > 0 && forall i | 0 <= i < |vs| :: IsDecoded(vs[i])
    ensures DecodeArray(ItemTokens(vs) + [DelimTok(RBracket)] + rest, acc)
         == DecodeArray(ItemTokens(vs[1..]) + [DelimTok(RBracket)] + rest, acc + [vs[0]])
  {
    var ts := ItemTokens(vs) + [DelimTok(RBracket)] + rest;
    var tail := ItemTokens(vs[1..]) + [DelimTok(RBracket)] + rest;
    assert ts == Tokens(vs[0]) + tail by {
      assert ItemTokens(vs) == Tokens(vs[0]) + ItemTokens(vs[1..]);
    }
    DecodeRoundTrip(vs[0], tail);
    ArrayStep(ts, acc);
  }

  /** One element step of `decodeArray`. */
  lemma ArrayStep(ts: seq<Token>, acc: seq<Value>)
    requires More(ts) && DecodeValue(ts).Ok?
    ensures DecodeArray(ts, acc) == DecodeArray(DecodeValue(ts).value.1, acc + [DecodeValue(ts).value.0])
  {
  }

  /** The closing step of `decodeArray` and `decodeMap`. */
  lemma CloseStep(ts: seq<Token>, acc: seq<Value>, accEntries: seq<Entry>)
    requires |ts| > 0 && IsClose(ts[0])
    ensures DecodeArray(ts, acc) == Ok((acc, ts[1..]))
    ensures DecodeMap(ts, accEntries) == Ok((accEntries, ts[1..]))
  {
  }

  /** One key/value step of `decodeMap`. */
  lemma MapStep(ts: seq<Token>, acc: seq<Entry>)
    requires More(ts) && ts[0].AtomTok? && ts[0].a.Str? && DecodeValue(ts[1..]).Ok?
    ensures DecodeMap(ts, acc)
         == DecodeMap(DecodeValue(ts[1..]).value.1,
                      acc + [Entry(Scalar(Str(ts[0].a.s)), DecodeValue(ts[1..]).value.0)])
  {
    assert DecodeMap(ts, acc) == DecodeEntry(ts[0].a.s, ts[1..], acc);
  }

  lemma {:induction false} DecodeEntriesRoundTrip(es: seq<Entry>, acc: seq<Entry>, rest: seq<Token>)
    requires forall i | 0 <= i < |es| :: EntryDecoded(es[i])
    ensures DecodeMap(EntryTokens(es) + [DelimTok(RBrace)] + rest, acc) == Ok((acc + es, rest))
    decreases es
  {
    if |es| == 0 {
      MapEntriesClose(es, acc, rest);
    } else {
      var e, tl := es[0], es[1..];
      assert acc + [e] + tl == acc + es;
      DecodeEntriesRoundTrip(tl, acc + [e], rest);
      MapEntryStep(es, acc, rest);
    }
  }

  /** `decodeMap` at the closing brace of an exhausted entry list. */
  lemma MapEntriesClose(es: seq<Entry>, acc: seq<Entry>, rest: seq<Token>)
    requires |es| == 0
    ensures DecodeMap(EntryTokens(es) + [DelimTok(RBrace)] + rest, acc) == Ok((acc + es, rest))
  {
    assert EntryTokens(es) + [DelimTok(RBrace)] + rest == [DelimTok(RBrace)] + rest;
    CloseStep([DelimTok(RBrace)] + rest, [], acc);
    assert acc + es == acc;
  }

  /** `decodeMap` reads the first entry of a non-empty entry list. */
  lemma MapEntryStep(es: seq<Entry>, acc: seq<Entry>, rest: seq<Token>)
    requires |es| > 0 && forall i | 0 <= i < |es| :: EntryDecoded(es[i])
    ensures DecodeMap(EntryTokens(es) + [DelimTok(RBrace)] + rest, acc)
         == DecodeMap(EntryTokens(es[1..]) + [DelimTok(RBrace)] + rest, acc + [es[0]])
  {
    var ts := EntryTokens(es) + [DelimTok(RBrace)] + rest;
    var e := es[0];
    var tail := EntryTokens(es[1..]) + [DelimTok(RBrace)] + rest;
    EntriesHead(es, rest);
    DecodeEntryValueRoundTrip(e, tail);
    MapStep(ts, acc);
    assert Entry(Scalar(Str(e.key.atom.s)), e.val) == e;
  }

  /** The tokens of a non-empty entry list start with the first key, then
      the first value's tokens. */
  lemma EntriesHead(es: seq<Entry>, rest: seq<Token>)
    requires |es| > 0 && forall i | 0 <= i < |es| :: EntryDecoded(es[i])
    ensures var ts := EntryTokens(es) + [DelimTok(RBrace)] + rest;
            && |ts| > 0 && ts[0] == AtomTok(es[0].key.atom)
            && ts[1..] == Tokens(es[0].val) + (EntryTokens(es[1..]) + [DelimTok(RBrace)] + rest)
  {
    assert EntryTokens(es) == [AtomTok(es[0].key.atom)] + Tokens(es[0].val) + EntryTokens(es[1..]);
    HeadSplit(AtomTok(es[0].key.atom), Tokens(es[0].val), EntryTokens(es[1..]), [DelimTok(RBrace)], rest);
  }

  lemma HeadSplit<T>(x: T, a: seq<T>, b: seq<T>, c: seq<T>, d: seq<T>)
    ensures var s := [x] + a + b + c + d;
            && |s| > 0 && s[0] == x && s[1..] == a + (b + c + d)
  {
    var s := [x] + a + b + c + d;
    assert s == [x] + (a + (b + c + d));
  }

  lemma {:induction false} DecodeEntryValueRoundTrip(e: Entry, rest: seq<Token>)
    requires EntryDecoded(e)
    ensures DecodeValue(Tokens(e.val) + rest) == Ok((e.val, rest))
    decreases e
  {
    DecodeRoundTrip(e.val, rest);
  }

  /** `Map.UnmarshalJSON` reads back every decoded ordered map from its tokens. */
  lemma MapRoundTrip(m: Value)
    requires m.Obj? && IsDecoded(m)
    ensures UnmarshalMap(Tokens(m)) == Ok(m)
  {
    var ts := Tokens(m);
    assert ts[1..] == EntryTokens(m.entries) + [DelimTok(RBrace)] + [];
    DecodeEntriesRoundTrip(m.entries, [], []);
  }

  // ---------------------------------------------------------------------------
  // Writing JSON.

  /** `json.Encoder.Encode` applied to a leaf (`Null` or a scalar). */
  type Encoder = Value -> Result<Bytes, Error>

  /** `writeJSON`: a nil []interface{} and a nil Map go to the encoder as `nil`,
      a nil yaml.MapSlice is written `{}`, arrays and maps element by element in
      stored order, separated by commas. */
  function WriteJSON(enc: Encoder, v: Value): (r: Result<Bytes, Error>)
    ensures v.NilMapSlice? ==> r == Ok("{}")
    ensures v.NilArr? || v.NilMap? ==> r == enc(Null)
    decreases v
  {
    match v
    case Null => enc(Null)
    case Scalar(_) => enc(v)
    case NilArr => enc(Null)
    case NilMap => enc(Null)
    case NilMapSlice => Ok("{}")
    case Arr(items) =>
      (match WriteItems(enc, items)
       case Err(e) => Err(e)
       case Ok(parts) =>
         var text: Bytes := "[" + Join<Byte>(",", parts) + "]";
         Ok(text))
    case Obj(es) =>
      match WriteEntries(enc, es)
      case Err(e) => Err(e)
      case Ok(parts) =>
        var text: Bytes := "{" + Join<Byte>(",", parts) + "}";
        Ok(text)
  }

  /** The array elements written one by one, stopping at the first error. */
  function WriteItems(enc: Encoder, vs: seq<Value>): (r: Result<seq<Bytes>, Error>)
    ensures r.Ok? <==> forall i | 0 <= i < |vs| :: WriteJSON(enc, vs[i]).Ok?
    ensures r.Ok? ==> |r.value| == |vs| && forall i | 0 <= i < |vs| :: r.value[i] == WriteJSON(enc, vs[i]).value
    ensures r.Err? ==> exists i | 0 <= i < |vs| :: WriteJSON(enc, vs[i]) == Err(r.error)
                                                 && forall j | 0 <= j < i :: WriteJSON(enc, vs[j]).Ok?
    decreases vs
  {
    if |vs| == 0 then Ok([])
    else
      match WriteJSON(enc, vs[0])
      case Err(e) => Err(e)
      case Ok(p) =>
        match WriteItems(enc, vs[1..])
        case Err(e) => Err(e)
        case Ok(ps) => Ok([p] + ps)
  }

  /** One map item: the key through the encoder, a colon, the value. A key that
      is not a string is `InvalidKey`. */
  function WriteEntry(enc: Encoder, e: Entry): (r: Result<Bytes, Error>)
    ensures !(e.key.Scalar? && e.key.atom.Str?) ==> r == Err(InvalidKey)
    decreases e
  {
    if !(e.key.Scalar? && e.key.atom.Str?) then Err(InvalidKey)
    else
      match enc(e.key)
      case Err(err) => Err(err)
      case Ok(k) =>
        match WriteJSON(enc, e.val)
        case Err(err) => Err(err)
        case Ok(x) => Ok(k + ":" + x)
  }

  /** The map items written one by one in stored order, stopping at the first error. */
  function WriteEntries(enc: Encoder, es: seq<Entry>): (r: Result<seq<Bytes>, Error>)
    ensures r.Ok? <==> forall i | 0 <= i < |es| :: WriteEntry(enc, es[i]).Ok?
    ensures r.Ok? ==> |r.value| == |es| && forall i | 0 <= i < |es| :: r.value[i] == WriteEntry(enc, es[i]).value
    ensures r.Err? ==> exists i | 0 <= i < |es| :: WriteEntry(enc, es[i]) == Err(r.error)
                                                 && forall j | 0 <= j < i :: WriteEntry(enc, es[j]).Ok?
    decreases es
  {
    if |es| == 0 then Ok([])
    else
      match WriteEntry(enc, es[0])
      case Err(e) => Err(e)
      case Ok(p) =>
        match WriteEntries(enc, es[1..])
        case Err(e) => Err(e)
        case Ok(ps) => Ok([p] + ps)
  }

  /** `Map.MarshalJSONString` and `Map.MarshalJSON`: a nil map is `null`, any
      other map goes through the writer. */
  function MarshalMap(enc: Encoder, m: Value): (r: Result<Bytes, Error>)
    requires m.Obj? || m.NilMap?
    ensures m.NilMap? ==> r == Ok("null")
    ensures m.Obj? ==> r == WriteJSON(enc, m)
  {
    if m.NilMap? then Ok("null") else WriteJSON(enc, m)
  }

  /** A map with a key that is not a string cannot be written, wherever the key sits. */
  lemma NonStringKeyFails(enc: Encoder, es: seq<Entry>, i: int)
    requires 0 <= i < |es| && !(es[i].key.Scalar? && es[i].key.atom.Str?)
    ensures WriteJSON(enc, Obj(es)).Err?
  {
    assert !WriteEntry(enc, es[i]).Ok?;
  }

  /** A written map is its entries, each written as key, colon and value, in
      stored order with one comma between neighbours. */
  lemma ObjectWrittenInOrder(enc: Encoder, es: seq<Entry>)
    requires WriteJSON(enc, Obj(es)).Ok?
    ensures exists parts: seq<Bytes> ::
      && |parts| == |es|
      && (forall i | 0 <= i < |es| :: Ok(parts[i]) == WriteEntry(enc, es[i]))
      && WriteJSON(enc, Obj(es)).value == "{" + Join<Byte>(",", parts) + "}"
  {
    var parts := WriteEntries(enc, es).value;
    assert forall i | 0 <= i < |es| :: Ok(parts[i]) == WriteEntry(enc, es[i]);
  }

  /** Splitting a map's entries splits its JSON text at a comma: the first
      entries' text comes first. */
  lemma WrittenEntriesAppend(enc: Encoder, a: seq<Entry>, b: seq<Entry>)
    requires |a| > 0 && |b| > 0
    requires WriteEntries(enc, a + b).Ok?
    ensures WriteEntries(enc, a).Ok? && WriteEntries(enc, b).Ok?
    ensures WriteEntries(enc, a + b).value == WriteEntries(enc, a).value + WriteEntries(enc, b).value
    ensures Join<Byte>(",", WriteEntries(enc, a + b).value)
         == Join<Byte>(",", WriteEntries(enc, a).value) + "," + Join<Byte>(",", WriteEntries(enc, b).value)
  {
    assert forall i | 0 <= i < |a| :: (a + b)[i] == a[i];
    assert forall i | 0 <= i < |b| :: (a + b)[|a| + i] == b[i];
    var pa, pb := WriteEntries(enc, a).value, WriteEntries(enc, b).value;
    assert WriteEntries(enc, a + b).value == pa + pb;
    JoinAppend<Byte>(",", pa, pb);
  }

  /** When the encoder accepts every leaf, every decoded value can be written. */
  lemma {:induction false} DecodedValuesWrite(enc: Encoder, v: Value)
    requires forall x :: enc(x).Ok?
    requires IsDecoded(v)
    ensures WriteJSON(enc, v).Ok?
    decreases v
  {
    if v.Arr? {
      forall i | 0 <= i < |v.items|
        ensures WriteJSON(enc, v.items[i]).Ok?
      {
        DecodedValuesWrite(enc, v.items[i]);
      }
    } else if v.Obj? {
      forall i | 0 <= i < |v.entries|
        ensures WriteEntry(enc, v.entries[i]).Ok?
      {
        DecodedEntryWrites(enc, v.entries[i]);
      }
    }
  }

  lemma {:induction false} DecodedEntryWrites(enc: Encoder, e: Entry)
    requires forall x :: enc(x).Ok?
    requires EntryDecoded(e)
    ensures WriteEntry(enc, e).Ok?
    decreases e
  {
    DecodedValuesWrite(enc, e.val);
  }

  /** The empty map is written `{}` whatever the encoder. */
  lemma EmptyMapWritten(enc: Encoder)
    ensures WriteJSON(enc, Obj([])) == Ok("{}")
  {
    var es: seq<Entry> := [];
    var ps: seq<Bytes> := [];
    assert WriteEntries(enc, es) == Ok(ps);
    var t: Bytes := "{" + Join<Byte>(",", ps) + "}";
    assert t == "{}";
  }

  /** A map with one entry whose key and value are written `k` and `x` is written `{k:x}`. */
  lemma SingleEntryWritten(enc: Encoder, key: Bytes, val: Value, k: Bytes, x: Bytes)
    requires enc(Scalar(Str(key))) == Ok(k) && WriteJSON(enc, val) == Ok(x)
    ensures WriteJSON(enc, Obj([Entry(Scalar(Str(key)), val)])) == Ok("{" + k + ":" + x + "}")
  {
    var e := Entry(Scalar(Str(key)), val);
    var piece: Bytes := k + ":" + x;
    assert WriteEntry(enc, e) == Ok(piece);
    var ps: seq<Bytes> := [piece];
    var es: seq<Entry> := [e];
    assert es[1..] == [];
    var none: seq<Bytes> := [];
    assert WriteEntries(enc, es[1..]) == Ok(none);
    assert es[0] == e;
    assert [piece] + none == ps;
    assert WriteEntries(enc, es) == Ok(ps);
    assert Join<Byte>(",", ps) == piece;
    var t: Bytes := "{" + Join<Byte>(",", ps) + "}";
    assert WriteJSON(enc, Obj(es)) == Ok(t);
    assert t == "{" + k + ":" + x + "}";
  }

  /** A nil map and an empty map are told apart on output (`null` against
      `{}`), and a nil yaml.MapSlice nested in a map is written `{}`. */
  lemma NilAndEmptyMapsDiffer(enc: Encoder)
    requires enc(Scalar(Str("foo"))) == Ok("\"foo\"")
    ensures MarshalMap(enc, NilMap) == Ok("null")
    ensures MarshalMap(enc, Obj([])) == Ok("{}")
    ensures MarshalMap(enc, Obj([Entry(Scalar(Str("foo")), NilMapSlice)])) == Ok("{\"foo\":{}}")
  {
    EmptyMapWritten(enc);
    SingleEntryWritten(enc, "foo", NilMapSlice, "\"foo\"", "{}");
    var t: Bytes := "{" + "\"foo\"" + ":" + "{}" + "}";
    assert t == "{\"foo\":{}}";
  }

  // ---------------------------------------------------------------------------
  // Worked examples with an encoder for scalars that need no escaping.

  function PlainEncoder(v: Value): Result<Bytes, Error>
  {
    match v
    case Null => Ok("null")
    case Scalar(Bool(b)) => Ok(if b then "true" else "false")
    case Scalar(Num(t)) => Ok(t)
    case Scalar(Str(s)) => Ok("\"" + s + "\"")
    case _ => Err(Foreign("not a leaf"))
  }

  /** `{"a":{"b":"c"}}` as a tree. */
  function Nested(a: Bytes, b: Bytes, c: Bytes): Value
  {
    Obj([Entry(Scalar(Str(a)), Obj([Entry(Scalar(Str(b)), Scalar(Str(c)))]))])
  }

  function NestedTokens(a: Bytes, b: Bytes, c: Bytes): seq<Token>
  {
    [DelimTok(LBrace), AtomTok(Str(a)), DelimTok(LBrace), AtomTok(Str(b)),
     AtomTok(Str(c)), DelimTok(RBrace), DelimTok(RBrace)]
  }

  lemma NestedDecodes(a: Bytes, b: Bytes, c: Bytes)
    ensures UnmarshalMap(NestedTokens(a, b, c)) == Ok(Nested(a, b, c))
  {
    var outer := Nested(a, b, c);
    var inner := outer.entries[0].val;
    SingleEntryTokens(b, Scalar(Str(c)));
    SingleEntryTokens(a, inner);
    assert Tokens(outer) == NestedTokens(a, b, c);
    MapRoundTrip(outer);
  }

  /** The tokens of a one-entry object. */
  lemma SingleEntryTokens(k: Bytes, v: Value)
    requires IsDecoded(v)
    ensures IsDecoded(Obj([Entry(Scalar(Str(k)), v)]))
    ensures Tokens(Obj([Entry(Scalar(Str(k)), v)])) == [DelimTok(LBrace), AtomTok(Str(k))] + Tokens(v) + [DelimTok(RBrace)]
  {
    var es := [Entry(Scalar(Str(k)), v)];
    assert EntryDecoded(es[0]);
    assert EntryTokens(es[1..]) == [];
    assert EntryTokens(es) == [AtomTok(Str(k))] + Tokens(v);
  }

  lemma NestedWrites(a: Bytes, b: Bytes, c: Bytes)
    ensures MarshalMap(PlainEncoder, Nested(a, b, c))
         == Ok("{" + ("\"" + a + "\"") + ":" + ("{" + ("\"" + b + "\"") + ":" + ("\"" + c + "\"") + "}") + "}")
  {
    var inner := Nested(a, b, c).entries[0].val;
    SingleEntryWritten(PlainEncoder, b, Scalar(Str(c)), "\"" + b + "\"", "\"" + c + "\"");
    var it: Bytes := "{" + ("\"" + b + "\"") + ":" + ("\"" + c + "\"") + "}";
    SingleEntryWritten(PlainEncoder, a, inner, "\"" + a + "\"", it);
  }

  /** Decoding `{"a":{"b":"c"}}` and writing the map again reproduces the text. */
  lemma NestedMapRoundTrip(a: Bytes, b: Bytes, c: Bytes)
    ensures UnmarshalMap(NestedTokens(a, b, c)).Ok?
    ensures MarshalMap(PlainEncoder, UnmarshalMap(NestedTokens(a, b, c)).value)
         == Ok("{" + ("\"" + a + "\"") + ":" + ("{" + ("\"" + b + "\"") + ":" + ("\"" + c + "\"") + "}") + "}")
  {
    NestedDecodes(a, b, c);
    NestedWrites(a, b, c);
  }

  /** `{}` and `null` survive decode-then-encode unchanged. */
  lemma EmptyAndNullMapRoundTrip()
    ensures UnmarshalMap([DelimTok(LBrace), DelimTok(RBrace)]) == Ok(Obj([]))
    ensures MarshalMap(PlainEncoder, Obj([])) == Ok("{}")
    ensures UnmarshalMap([NullTok]) == Ok(NilMap)
    ensures MarshalMap(PlainEncoder, NilMap) == Ok("null")
  {
    MapRoundTrip(Obj([]));
    EmptyMapWritten(PlainEncoder);
  }
}
