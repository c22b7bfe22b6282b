/** JSON values as both programs see them, and the JavaScript reading of a
    body's fields. */
module Json {
  import opened Wrappers
  import opened Bytes

  /** A JSON value. Numbers are integers: every number the core exchanges is
      an id. An object maps each key to its last occurrence, as `JSON.parse`
      and `JSONSerialization` both do. */
  datatype Json =
    | JNull
    | JBool(b: bool)
    | JNum(n: int)
    | JStr(s: string)
    | JArr(items: seq<Json>)
    | JObj(fields: map<string, Json>)

  /** JavaScript truthiness: `null`, `false`, `0` and `""` are falsy; arrays
      and objects, even empty ones, are truthy. */
  predicate Truthy(j: Json)
    ensures !Truthy(j) <==> j in {JNull, JBool(false), JNum(0), JStr("")}
  {
    match j
    case JNull => false
    case JBool(b) => b
    case JNum(n) => n != 0
    case JStr(s) => s != ""
    case JArr(_) => true
    case JObj(_) => true
  }

  /** Property access `j.key`: `None` stands for `undefined`. Only objects
      carry the keys this core reads. */
  function Get(j: Json, key: string): (r: Option<Json>)
    ensures r.Some? <==> j.JObj? && key in j.fields
    ensures r.Some? ==> r.value == j.fields[key]
  {
    if j.JObj? && key in j.fields then Some(j.fields[key]) else None
  }

  /** The value a destructured field takes once handed to the database:
      `undefined` becomes SQL NULL, here `JNull`. */
  function FieldOrNull(j: Json, key: string): (r: Json)
    ensures Get(j, key).Some? ==> r == Get(j, key).value
    ensures Get(j, key).None? ==> r == JNull
  {
    match Get(j, key)
    case Some(v) => v
    case None => JNull
  }

  /** A one-field object. */
  function Single(key: string, value: Json): (r: Json)
    ensures Get(r, key) == Some(value)
    ensures r.JObj? && r.fields.Keys == {key}
  {
    JObj(map[key := value])
  }

  /** `{error: message}`, the body of every error response of the server. */
  function ErrorBody(message: string): (r: Json)
    ensures Get(r, "error") == Some(JStr(message))
  {
    Single("error", JStr(message))
  }

  /** Text serialisation and parsing, including the UTF-8 step on either
      side: `JSON.stringify`/`JSON.parse` on the server,
      `JSONSerialization`/`JSONDecoder` on the client. The parsers and
      printers are library code and are left abstract. */
  datatype Codec = Codec(serialize: Json -> Bytes, parse: Bytes -> Option<Json>)

  /** What the model assumes of a codec: parsing inverts printing, and the
      empty text is not JSON. */
  ghost predicate Sound(c: Codec)
  {
    && (forall j :: c.parse(c.serialize(j)) == Some(j))
    && c.parse([]) == None
  }
}
