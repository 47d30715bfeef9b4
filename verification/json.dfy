/**
 * JSON documents as the handlers see them once Express has parsed a request
 * body or Prisma has read back a `Json` column.
 */
module JsonValue {

  /** A JSON value. Numbers are exact reals (JSON has no NaN or infinity);
      object key order is not kept. */
  datatype Json =
    | JNull
    | JBool(b: bool)
    | JNum(n: real)
    | JStr(s: string)
    | JArr(items: seq<Json>)
    | JObj(fields: map<string, Json>)

  /** JavaScript truthiness of a parsed JSON value: `null`, `false`, `0` and
      the empty string are falsy, every array and object is truthy. */
  predicate Truthy(v: Json)
  {
    match v
    case JNull => false
    case JBool(b) => b
    case JNum(n) => n != 0.0
    case JStr(s) => s != ""
    case JArr(_) => true
    case JObj(_) => true
  }

  /** `v || fallback`: the value itself when truthy, the fallback otherwise. */
  function Or(v: Json, fallback: Json): Json
  {
    if Truthy(v) then v else fallback
  }
}
