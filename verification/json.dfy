/** JSON values that the settings merge carries along without looking inside them. */
module Json {

  /** A JSON value. Numbers keep their literal text, so no value is ever rounded. */
  datatype Value =
    | Null
    | Bool(b: bool)
    | Number(literal: string)
    | Str(s: string)
    | Array(items: seq<Value>)
    | Object(members: seq<(string, Value)>)

  /** The members of a JSON object other than the ones the merge inspects, in document order. */
  type Fields = seq<(string, Value)>
}
