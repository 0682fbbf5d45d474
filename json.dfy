/**
 * JSON values as `encoding/json` decodes them into `interface{}`, and the two
 * calls of that package the store makes. The byte-level encoding is not
 * modelled: `Codec` carries the decoder and the encoder as function values,
 * and `Lawful` states what the store relies on them to satisfy.
 */
module Json {
  import opened Wrappers

  /** A decoded JSON value. Numbers are kept as integers. */
  datatype Json =
    | JNull
    | JBool(b: bool)
    | JNum(n: int)
    | JStr(str: string)
    | JArr(items: seq<Json>)
    | JObj(fields: map<string, Json>)

  /** The fields of a JSON object, as a Go `map[string]interface{}`. */
  type Fields = map<string, Json>

  /** `json.Unmarshal` into an `interface{}` (parse) and `json.Marshal` (serialize). */
  datatype Codec = Codec(parse: string -> Option<Json>, serialize: Json -> string)

  /** The items of a JSON array written one after the other, separated by commas. */
  function JoinComma(items: seq<string>): string
    decreases |items|
  {
    if |items| == 0 then ""
    else if |items| == 1 then items[0]
    else JoinComma(items[..|items| - 1]) + "," + items[|items| - 1]
  }

  /** The encoding of every element of a sequence of values. */
  function SerializeAll(c: Codec, values: seq<Json>): seq<string>
  {
    seq(|values|, i requires 0 <= i < |values| => c.serialize(values[i]))
  }

  /**
   * What the store assumes of `encoding/json`: decoding an encoded value gives
   * it back, empty input is not JSON, an array is encoded as its elements'
   * encodings between brackets with commas and no blanks, and a text that
   * decodes to `null` holds no double quote (only blanks may surround it).
   */
  ghost predicate Lawful(c: Codec)
  {
    && (forall v :: c.parse(c.serialize(v)) == Some(v))
    && c.parse("") == None
    && (forall values :: c.serialize(JArr(values)) == "[" + JoinComma(SerializeAll(c, values)) + "]")
    && (forall s :: c.parse(s) == Some(JNull) ==> '"' !in s)
  }

  /** What `json.Unmarshal(data, &js)` leaves in `var js map[string]interface{}`. */
  datatype Unmarshalled =
    | Malformed              // not JSON, or JSON that is neither an object nor null: an error
    | NilMap                 // JSON `null`: no error, and js stays a nil map
    | ObjectValue(fields: Fields)

  function Unmarshal(c: Codec, data: string): Unmarshalled
  {
    match c.parse(data)
    case Some(JObj(fields)) => ObjectValue(fields)
    case Some(JNull) => NilMap
    case _ => Malformed
  }

  /** Decoding the encoding of an object into a map gives the object's fields back. */
  lemma UnmarshalSerialized(c: Codec, fields: Fields)
    requires Lawful(c)
    ensures Unmarshal(c, c.serialize(JObj(fields))) == ObjectValue(fields)
  {
    assert c.parse(c.serialize(JObj(fields))) == Some(JObj(fields));
  }

  /** Empty text never decodes into a map. */
  lemma UnmarshalEmpty(c: Codec)
    requires Lawful(c)
    ensures Unmarshal(c, "") == Malformed
  {
  }
}
